/**
 The Flavanoids table: each record's Flavanoids value, coerced to a number, grouped
 under `Class {Alcohol}`, skipping values that coerce to NaN. Its median sorts the
 group's array in place, and the mode is then computed on that sorted array.
 */
module Alcohol {
  import opened Wrappers
  import opened Wine
  import opened Grouping
  import Stats
  import Mode

  /** The Flavanoids value as a number: a JSON number is used as it is, text goes
      through `parseFloat`, which is a parameter here. `None` stands for NaN. */
  function Coerce(r: Reading, parseFloat: string -> Option<real>): (v: Option<real>)
    ensures r.Number? ==> v == Some(r.x)
    ensures r.NotANumber? ==> v.None?
    ensures r.Text? ==> v == parseFloat(r.text)
  {
    match r
    case Number(x) => Some(x)
    case NotANumber => None
    case Text(t) => parseFloat(t)
  }

  /** What the grouping loop keeps: the label and value of each record whose
      Flavanoids value is not NaN, in dataset order. */
  function ValidEntries(data: seq<WineData>, parseFloat: string -> Option<real>): (es: seq<Entry>)
    ensures |es| <= |data|
  {
    if |data| == 0 then []
    else
      var es := ValidEntries(data[..|data| - 1], parseFloat);
      var w := data[|data| - 1];
      match Coerce(w.flavanoids, parseFloat)
      case Some(v) => es + [Entry(ClassName(w.alcohol), v)]
      case None => es
  }

  /** One row, evaluated as the object literal is: mean, then the median (which sorts
      the stored array), then the mode of the now sorted array. Returns the row and
      the array as it is left afterwards. */
  function AlcoholRow(g: Group): (out: (StatsRow, seq<real>))
    requires |g.values| > 0
    ensures out.0.className == g.className
  {
    var mean := Stats.Mean(g.values);
    var afterMedian := Stats.MedianInPlace(g.values);
    var mode := Mode.Mode(afterMedian.1);
    (StatsRow(g.className, mean, afterMedian.0, mode), afterMedian.1)
  }

  function AlcoholRows(gs: seq<Group>): (rows: seq<StatsRow>)
    requires forall i :: 0 <= i < |gs| ==> |gs[i].values| > 0
    ensures |rows| == |gs|
    ensures forall i :: 0 <= i < |gs| ==> rows[i] == AlcoholRow(gs[i]).0
  {
    seq(|gs|, i requires 0 <= i < |gs| && |gs[i].values| > 0 => AlcoholRow(gs[i]).0)
  }

  /** `statsData`: every group that exists has a value, so every row has a mode. */
  function AlcoholStatistics(data: seq<WineData>, parseFloat: string -> Option<real>): (rows: seq<StatsRow>)
    ensures |rows| <= |data|
    ensures forall i :: 0 <= i < |rows| ==> rows[i].mode.Some?
  {
    var gs := GroupBy(ValidEntries(data, parseFloat));
    ModesOfGroupsExist(gs);
    AlcoholRows(gs)
  }

  /** `m` is the least of the values of greatest frequency in `s`. */
  ghost predicate IsSmallestMostFrequent(s: seq<real>, m: real)
  {
    && m in s
    && (forall x :: x in s ==> Mode.Count(s, x) <= Mode.Count(s, m))
    && (forall x :: x in s && Mode.Count(s, x) == Mode.Count(s, m) ==> m <= x)
  }

  // ---------------------------------------------------------------------------
  // Lemmas
  // ---------------------------------------------------------------------------

  /** After the row is built, the group's stored array is an ascending permutation of
      its values, and the row's median is the one a sorted copy gives. */
  lemma AlcoholRowLeavesGroupSorted(g: Group)
    requires |g.values| > 0
    ensures Stats.Sorted(AlcoholRow(g).1) && multiset(AlcoholRow(g).1) == multiset(g.values)
    ensures AlcoholRow(g).0.median == Stats.Median(g.values)
  {
  }

  lemma ModesOfGroupsExist(gs: seq<Group>)
    requires forall i :: 0 <= i < |gs| ==> |gs[i].values| > 0
    ensures forall i :: 0 <= i < |gs| ==> AlcoholRow(gs[i]).0.mode.Some?
  {
    forall i | 0 <= i < |gs|
      ensures AlcoholRow(gs[i]).0.mode.Some?
    {
      AlcoholRowLeavesGroupSorted(gs[i]);
      assert |AlcoholRow(gs[i]).1| == |gs[i].values| by {
        assert |multiset(AlcoholRow(gs[i]).1)| == |multiset(gs[i].values)|;
      }
    }
  }

  /** Grouping filtered data is grouping the concatenation of its parts' entries. */
  lemma {:induction false} ValidEntriesOfAppend(a: seq<WineData>, b: seq<WineData>, parseFloat: string -> Option<real>)
    ensures ValidEntries(a + b, parseFloat) == ValidEntries(a, parseFloat) + ValidEntries(b, parseFloat)
    decreases |b|
  {
    if |b| == 0 {
      assert a + b == a;
    } else {
      assert (a + b)[..|a + b| - 1] == a + b[..|b| - 1];
      ValidEntriesOfAppend(a, b[..|b| - 1], parseFloat);
    }
  }

  /** A record whose Flavanoids value is NaN contributes nothing: removing it from
      anywhere in the data leaves the table unchanged. */
  lemma InvalidRecordIgnored(a: seq<WineData>, w: WineData, b: seq<WineData>, parseFloat: string -> Option<real>)
    requires Coerce(w.flavanoids, parseFloat).None?
    ensures AlcoholStatistics(a + [w] + b, parseFloat) == AlcoholStatistics(a + b, parseFloat)
  {
    ValidEntriesOfAppend(a + [w], b, parseFloat);
    ValidEntriesOfAppend(a, [w], parseFloat);
    ValidEntriesOfAppend(a, b, parseFloat);
    assert ValidEntries([w], parseFloat) == [] by {
      assert [w][..0] == [];
    }
  }

  lemma ValidLabelsStep(data: seq<WineData>, parseFloat: string -> Option<real>)
    requires |data| > 0
    ensures var w := data[|data| - 1];
      LabelsOf(ValidEntries(data, parseFloat))
        == LabelsOf(ValidEntries(data[..|data| - 1], parseFloat))
           + (if Coerce(w.flavanoids, parseFloat).Some? then [ClassName(w.alcohol)] else [])
  {
    var w := data[|data| - 1];
    var es := ValidEntries(data[..|data| - 1], parseFloat);
    var all := ValidEntries(data, parseFloat);
    if Coerce(w.flavanoids, parseFloat).Some? {
      assert all == es + [Entry(ClassName(w.alcohol), Coerce(w.flavanoids, parseFloat).value)];
      assert all[..|all| - 1] == es;
    }
  }

  lemma ValidRecordsStep(data: seq<WineData>, parseFloat: string -> Option<real>, name: string)
    requires |data| > 0
    ensures HasValidRecord(data, parseFloat, name)
        <==> HasValidRecord(data[..|data| - 1], parseFloat, name) || IsValidRecordOf(data[|data| - 1], parseFloat, name)
  {
    var pre := data[..|data| - 1];
    assert forall j :: 0 <= j < |pre| ==> pre[j] == data[j];
  }

  /** The kept entries carry exactly the labels of the records with a number for
      Flavanoids. */
  lemma {:induction false} ValidEntriesAreValidRecords(data: seq<WineData>, parseFloat: string -> Option<real>, name: string)
    ensures name in LabelsOf(ValidEntries(data, parseFloat)) <==> HasValidRecord(data, parseFloat, name)
    decreases |data|
  {
    if |data| > 0 {
      ValidEntriesAreValidRecords(data[..|data| - 1], parseFloat, name);
      ValidLabelsStep(data, parseFloat);
      ValidRecordsStep(data, parseFloat, name);
    }
  }

  /** `w` has label `name` and a valid Flavanoids value. */
  ghost predicate IsValidRecordOf(w: WineData, parseFloat: string -> Option<real>, name: string)
  {
    ClassName(w.alcohol) == name && Coerce(w.flavanoids, parseFloat).Some?
  }

  /** Some record of `data` has label `name` and a valid Flavanoids value. */
  ghost predicate HasValidRecord(data: seq<WineData>, parseFloat: string -> Option<real>, name: string)
  {
    exists j :: 0 <= j < |data| && IsValidRecordOf(data[j], parseFloat, name)
  }

  /** Row `i` is labelled with the `i`-th distinct label among the valid records, and
      its statistics are taken over the valid values of exactly the records with that
      label: the mean and median as in dataset order, the mode on the sorted values. */
  lemma AlcoholStatisticsByAlcohol(data: seq<WineData>, parseFloat: string -> Option<real>)
    ensures var es := ValidEntries(data, parseFloat);
      var names := Distinct(LabelsOf(es));
      var rows := AlcoholStatistics(data, parseFloat);
      && |rows| == |names|
      && forall i :: 0 <= i < |rows| ==>
           && |Select(es, names[i])| > 0
           && rows[i] == StatsRow(names[i], Stats.Mean(Select(es, names[i])),
                           Stats.Median(Select(es, names[i])), Mode.Mode(Stats.Sort(Select(es, names[i]))))
  {
    var es := ValidEntries(data, parseFloat);
    var gs := GroupBy(es);
    GroupByNames(es);
    forall i | 0 <= i < |gs|
      ensures gs[i] == Group(Distinct(LabelsOf(es))[i], Select(es, Distinct(LabelsOf(es))[i]))
      ensures AlcoholRow(gs[i]).0 == StatsRow(gs[i].className, Stats.Mean(gs[i].values),
                Stats.Median(gs[i].values), Mode.Mode(Stats.Sort(gs[i].values)))
    {
      GroupAt(es, i);
      AlcoholRowOfGroup(gs[i]);
    }
  }

  /** The number of records whose Flavanoids value is not NaN. */
  function ValidCount(data: seq<WineData>, parseFloat: string -> Option<real>): nat
  {
    if |data| == 0 then 0
    else ValidCount(data[..|data| - 1], parseFloat)
         + (if Coerce(data[|data| - 1].flavanoids, parseFloat).Some? then 1 else 0)
  }

  /** One entry is kept per record with a valid Flavanoids value. */
  lemma {:induction false} ValidEntriesCount(data: seq<WineData>, parseFloat: string -> Option<real>)
    ensures |ValidEntries(data, parseFloat)| == ValidCount(data, parseFloat)
    decreases |data|
  {
    if |data| > 0 {
      ValidEntriesCount(data[..|data| - 1], parseFloat);
    }
  }

  /** Each record with a valid Flavanoids value is kept, as an entry of its label
      `Class {Alcohol}` carrying that value. */
  lemma {:induction false} ValidRecordKept(data: seq<WineData>, parseFloat: string -> Option<real>, j: nat)
    requires j < |data| && Coerce(data[j].flavanoids, parseFloat).Some?
    ensures Entry(ClassName(data[j].alcohol), Coerce(data[j].flavanoids, parseFloat).value)
              in ValidEntries(data, parseFloat)
    decreases |data|
  {
    var pre := data[..|data| - 1];
    if j < |pre| {
      assert pre[j] == data[j];
      ValidRecordKept(pre, parseFloat, j);
    }
  }

  /** Every valid Flavanoids value lands in the group of its record's label. */
  lemma AlcoholValueInItsClass(data: seq<WineData>, parseFloat: string -> Option<real>, j: nat)
    requires j < |data| && Coerce(data[j].flavanoids, parseFloat).Some?
    ensures var gs := GroupBy(ValidEntries(data, parseFloat));
      exists i :: 0 <= i < |gs| && gs[i].className == ClassName(data[j].alcohol)
                                 && Coerce(data[j].flavanoids, parseFloat).value in gs[i].values
  {
    var es := ValidEntries(data, parseFloat);
    ValidRecordKept(data, parseFloat, j);
    var k :| 0 <= k < |es| && es[k] == Entry(ClassName(data[j].alcohol), Coerce(data[j].flavanoids, parseFloat).value);
    EveryEntryInItsGroup(es, k);
  }

  /** The groups together hold one value per record with a valid Flavanoids value. */
  lemma AlcoholGroupsHoldEveryValidValue(data: seq<WineData>, parseFloat: string -> Option<real>)
    ensures TotalSize(GroupBy(ValidEntries(data, parseFloat))) == ValidCount(data, parseFloat)
  {
    GroupByKeepsEveryEntry(ValidEntries(data, parseFloat));
    ValidEntriesCount(data, parseFloat);
  }

  lemma AlcoholRowOfGroup(g: Group)
    requires |g.values| > 0
    ensures AlcoholRow(g).0 == StatsRow(g.className, Stats.Mean(g.values),
              Stats.Median(g.values), Mode.Mode(Stats.Sort(g.values)))
  {
  }

  /** The table has exactly one column per distinct label among the records with a
      valid Flavanoids value, in order of first occurrence among those records; with
      `ValidEntriesAreValidRecords`, a label whose values are all NaN has no row. */
  lemma AlcoholRowsFollowValidClasses(data: seq<WineData>, parseFloat: string -> Option<real>)
    ensures var rows := AlcoholStatistics(data, parseFloat);
      var names := Distinct(LabelsOf(ValidEntries(data, parseFloat)));
      && |rows| == |names|
      && forall i :: 0 <= i < |rows| ==> rows[i].className == names[i]
  {
    var es := ValidEntries(data, parseFloat);
    GroupByNames(es);
  }

  /** The row's mode is the smallest of the group's most frequent values, because the
      scan runs over the array the median has just sorted; the stored array is left
      an ascending permutation of the group's values. */
  lemma AlcoholModeIsSmallestMostFrequent(g: Group, m: real)
    requires |g.values| > 0
    ensures AlcoholRow(g).0.mode == Some(m) <==> IsSmallestMostFrequent(g.values, m)
  {
    var vs := g.values;
    var sorted := AlcoholRow(g).1;
    AlcoholRowLeavesGroupSorted(g);
    assert AlcoholRow(g).0.mode == Mode.Mode(sorted);
    assert |sorted| == |vs| by {
      assert |multiset(sorted)| == |multiset(vs)|;
    }
    Mode.ModeIsMostFrequent(sorted);
    Mode.ModeOfSortedIsSmallest(sorted);
    Stats.MembersOfPermutation(sorted, vs);
    var m0 := Mode.Mode(sorted).value;
    assert forall x :: Mode.Count(sorted, x) == Mode.Count(vs, x);
    assert IsSmallestMostFrequent(vs, m0);
    if IsSmallestMostFrequent(vs, m) {
      assert Mode.Count(vs, m) == Mode.Count(vs, m0);
      assert m <= m0 && m0 <= m;
    }
  }

  /** The mean is the same whether it is taken before the in-place sort, as the row
      does, or after it. */
  lemma AlcoholMeanUnaffectedBySort(g: Group)
    requires |g.values| > 0
    ensures |AlcoholRow(g).1| > 0
    ensures AlcoholRow(g).0.mean == Stats.Mean(AlcoholRow(g).1)
  {
    AlcoholRowLeavesGroupSorted(g);
    Stats.MeanOrderIndependent(g.values, AlcoholRow(g).1);
  }
}
