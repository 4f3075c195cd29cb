/**
 The Gamma table: every record's gamma, `Ash * Hue / Magnesium`, grouped under
 `Class {Class}`. The median sorts a copy, so the mode scans each group in dataset
 order.
 */
module Gamma {
  import opened Wrappers
  import opened Wine
  import opened Grouping
  import Stats
  import Mode

  /** `calculateGamma`. */
  function GammaOf(w: WineData): real
    requires w.magnesium != 0.0
  {
    w.ash * w.hue / w.magnesium
  }

  /** Every record has a gamma: no Magnesium is zero. */
  ghost predicate Measurable(data: seq<WineData>)
  {
    forall i :: 0 <= i < |data| ==> data[i].magnesium != 0.0
  }

  /** What the grouping loop reads from each record: its label and its gamma. Every
      record contributes; there is no validity filter. */
  function GammaEntries(data: seq<WineData>): (es: seq<Entry>)
    requires Measurable(data)
    ensures |es| == |data|
    ensures forall i :: 0 <= i < |data| ==> es[i] == Entry(ClassName(data[i].wineClass), GammaOf(data[i]))
  {
    seq(|data|, i requires 0 <= i < |data| && Measurable(data) => Entry(ClassName(data[i].wineClass), GammaOf(data[i])))
  }

  /** One row: mean, median (on a sorted copy) and mode (on the group as it is). */
  function GammaRow(g: Group): (row: StatsRow)
    requires |g.values| > 0
    ensures row.className == g.className
  {
    StatsRow(g.className, Stats.Mean(g.values), Stats.Median(g.values), Mode.Mode(g.values))
  }

  function GammaRows(gs: seq<Group>): (rows: seq<StatsRow>)
    requires forall i :: 0 <= i < |gs| ==> |gs[i].values| > 0
    ensures |rows| == |gs|
    ensures forall i :: 0 <= i < |gs| ==> rows[i] == GammaRow(gs[i])
  {
    seq(|gs|, i requires 0 <= i < |gs| && |gs[i].values| > 0 => GammaRow(gs[i]))
  }

  /** `calculateGammaStatistics`: no rows exactly when there is no data, and every
      row has a mode. */
  function CalculateGammaStatistics(data: seq<WineData>): (rows: seq<StatsRow>)
    requires Measurable(data)
    ensures |rows| == 0 <==> |data| == 0
    ensures forall i :: 0 <= i < |rows| ==> rows[i].mode.Some?
  {
    GammaRows(GroupBy(GammaEntries(data)))
  }

  // ---------------------------------------------------------------------------
  // Lemmas
  // ---------------------------------------------------------------------------

  /** Row `i` is labelled with the `i`-th distinct label, and its statistics are taken
      over the gammas of exactly the records with that label, in dataset order. */
  lemma GammaStatisticsByClass(data: seq<WineData>)
    requires Measurable(data)
    ensures var es := GammaEntries(data);
      var names := Distinct(LabelsOf(es));
      var rows := CalculateGammaStatistics(data);
      && |rows| == |names|
      && forall i :: 0 <= i < |rows| ==>
           && |Select(es, names[i])| > 0
           && rows[i] == StatsRow(names[i], Stats.Mean(Select(es, names[i])),
                           Stats.Median(Select(es, names[i])), Mode.Mode(Select(es, names[i])))
  {
    var es := GammaEntries(data);
    var gs := GroupBy(es);
    GroupByNames(es);
    forall i | 0 <= i < |gs|
      ensures gs[i] == Group(Distinct(LabelsOf(es))[i], Select(es, Distinct(LabelsOf(es))[i]))
    {
      GroupAt(es, i);
    }
  }

  /** The groups together hold every record's gamma exactly once. */
  lemma GammaGroupsHoldEveryRecord(data: seq<WineData>)
    requires Measurable(data)
    ensures TotalSize(GroupBy(GammaEntries(data))) == |data|
  {
    GroupByKeepsEveryEntry(GammaEntries(data));
  }

  /** The label of every record, in dataset order. */
  function ClassNames(data: seq<WineData>): (ns: seq<string>)
    ensures |ns| == |data|
    ensures forall i :: 0 <= i < |data| ==> ns[i] == ClassName(data[i].wineClass)
  {
    seq(|data|, i requires 0 <= i < |data| => ClassName(data[i].wineClass))
  }

  /** The table has exactly one column per distinct label `Class {Class}` of the data,
      in order of first occurrence (see `Distinct`): a label has a row exactly when
      some record carries it. */
  lemma GammaRowsFollowClasses(data: seq<WineData>)
    requires Measurable(data)
    ensures var rows := CalculateGammaStatistics(data);
      var names := Distinct(ClassNames(data));
      && |rows| == |names|
      && forall i :: 0 <= i < |rows| ==> rows[i].className == names[i]
  {
    var es := GammaEntries(data);
    var gs := GroupBy(es);
    assert LabelsOf(es) == ClassNames(data);
    GroupByNames(es);
  }

  /** Every record's gamma lands in the group of the record's label `Class {Class}`. */
  lemma GammaOfEveryRecordInItsClass(data: seq<WineData>, j: nat)
    requires Measurable(data) && j < |data|
    ensures var gs := GroupBy(GammaEntries(data));
      exists i :: 0 <= i < |gs| && gs[i].className == ClassName(data[j].wineClass)
                                 && GammaOf(data[j]) in gs[i].values
  {
    EveryEntryInItsGroup(GammaEntries(data), j);
  }

  /** Each row's mode is the first value of its group, in dataset order, to reach the
      group's highest frequency; its mean and median lie within the group's range. */
  lemma GammaRowStatistics(g: Group)
    requires |g.values| > 0
    ensures GammaRow(g).mode.Some?
    ensures Mode.IsFirstReachedMode(g.values, GammaRow(g).mode.value)
    ensures Stats.Min(g.values) <= GammaRow(g).mean <= Stats.Max(g.values)
    ensures Stats.Min(g.values) <= GammaRow(g).median <= Stats.Max(g.values)
  {
    var row := GammaRow(g);
    assert row == StatsRow(g.className, Stats.Mean(g.values), Stats.Median(g.values), Mode.Mode(g.values));
    Mode.ModeSatisfiesFirstReached(g.values);
    Stats.MeanWithinRange(g.values);
    Stats.MedianWithinRange(g.values);
  }
}
