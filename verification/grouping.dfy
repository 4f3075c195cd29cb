/**
 Grouping of measurements by label, as both statistics components do it with a
 plain object keyed by label: the first record of a label creates its group, later
 ones append to it, and the groups are visited in the order they were created.
 */
module Grouping {

  /** One contributing record: its group label and its measurement. */
  datatype Entry = Entry(className: string, value: real)

  /** One group: a label and its measurements in dataset order. */
  datatype Group = Group(className: string, values: seq<real>)

  /** The labels of the entries, in order. */
  function LabelsOf(entries: seq<Entry>): (ls: seq<string>)
    ensures |ls| == |entries|
    ensures forall i :: 0 <= i < |entries| ==> ls[i] == entries[i].className
  {
    if |entries| == 0 then [] else LabelsOf(entries[..|entries| - 1]) + [entries[|entries| - 1].className]
  }

  /** The position of the first occurrence of `l`. */
  function FirstIndex(ls: seq<string>, l: string): (i: nat)
    requires l in ls
    ensures i < |ls| && ls[i] == l
    ensures forall j :: 0 <= j < i ==> ls[j] != l
  {
    if ls[0] == l then 0 else 1 + FirstIndex(ls[1..], l)
  }

  /** Each label once, in order of first occurrence. */
  function Distinct(ls: seq<string>): (d: seq<string>)
    ensures forall l :: l in d <==> l in ls
    ensures forall i, j :: 0 <= i < j < |d| ==> d[i] != d[j]
  {
    if |ls| == 0 then []
    else
      var d := Distinct(ls[..|ls| - 1]);
      if ls[|ls| - 1] in d then d else d + [ls[|ls| - 1]]
  }

  /** The values carrying label `l`, in dataset order: the reference for a group. */
  function Select(entries: seq<Entry>, l: string): seq<real>
  {
    if |entries| == 0 then []
    else
      var rest := Select(entries[..|entries| - 1], l);
      var e := entries[|entries| - 1];
      if e.className == l then rest + [e.value] else rest
  }

  /** The position of the group labelled `l`, or `|gs|` when there is none. */
  function Find(gs: seq<Group>, l: string): (i: nat)
    ensures i <= |gs|
    ensures i < |gs| ==> gs[i].className == l
    ensures i == |gs| ==> forall j :: 0 <= j < |gs| ==> gs[j].className != l
  {
    if |gs| == 0 then 0 else if gs[0].className == l then 0 else 1 + Find(gs[1..], l)
  }

  /** One iteration of the grouping loop: append the value to its label's group,
      creating the group (at the end) when the label is new. */
  function Add(gs: seq<Group>, e: Entry): (gs': seq<Group>)
    ensures 0 < |gs'| <= |gs| + 1
    ensures (forall i :: 0 <= i < |gs| ==> |gs[i].values| > 0) ==>
              forall i :: 0 <= i < |gs'| ==> |gs'[i].values| > 0
  {
    var i := Find(gs, e.className);
    if i < |gs| then gs[i := gs[i].(values := gs[i].values + [e.value])]
    else gs + [Group(e.className, [e.value])]
  }

  /** The grouping loop over all entries. Groups exist only for labels that occur, so
      none is empty, and there are none exactly when there are no entries. */
  function GroupBy(entries: seq<Entry>): (gs: seq<Group>)
    ensures |gs| == 0 <==> |entries| == 0
    ensures |gs| <= |entries|
    ensures forall i :: 0 <= i < |gs| ==> |gs[i].values| > 0
  {
    if |entries| == 0 then [] else Add(GroupBy(entries[..|entries| - 1]), entries[|entries| - 1])
  }

  /** The labels of the groups, in order. */
  function Names(gs: seq<Group>): (ns: seq<string>)
    ensures |ns| == |gs|
    ensures forall i :: 0 <= i < |gs| ==> ns[i] == gs[i].className
  {
    seq(|gs|, i requires 0 <= i < |gs| => gs[i].className)
  }

  /** The total number of values held by the groups. */
  function TotalSize(gs: seq<Group>): nat
  {
    if |gs| == 0 then 0 else TotalSize(gs[..|gs| - 1]) + |gs[|gs| - 1].values|
  }

  // ---------------------------------------------------------------------------
  // Lemmas
  // ---------------------------------------------------------------------------

  /** The first occurrence of a label that already occurs in a prefix is found there. */
  lemma FirstIndexOfPrefix(ls: seq<string>, k: nat, l: string)
    requires k <= |ls| && l in ls[..k]
    ensures l in ls && FirstIndex(ls[..k], l) == FirstIndex(ls, l)
  {
    var i, i' := FirstIndex(ls[..k], l), FirstIndex(ls, l);
    assert ls[i] == l;
    assert i' <= i;
    assert ls[..k][i'] == l;
  }

  /** Labels seen before the last position keep their first occurrence; the last
      label, when new, first occurs there. */
  lemma FirstIndexOfExtension(ls: seq<string>)
    requires |ls| > 0
    ensures forall l :: l in ls[..|ls| - 1] ==> FirstIndex(ls, l) == FirstIndex(ls[..|ls| - 1], l) < |ls| - 1
    ensures ls[|ls| - 1] !in ls[..|ls| - 1] ==> FirstIndex(ls, ls[|ls| - 1]) == |ls| - 1
  {
    forall l | l in ls[..|ls| - 1]
      ensures FirstIndex(ls, l) == FirstIndex(ls[..|ls| - 1], l) < |ls| - 1
    {
      FirstIndexOfPrefix(ls, |ls| - 1, l);
    }
  }

  /** `Distinct` lists labels in order of their first occurrence. */
  lemma {:induction false} DistinctInFirstOccurrenceOrder(ls: seq<string>)
    ensures forall i, j :: 0 <= i < j < |Distinct(ls)| ==>
              FirstIndex(ls, Distinct(ls)[i]) < FirstIndex(ls, Distinct(ls)[j])
    decreases |ls|
  {
    if |ls| > 0 {
      var pre := ls[..|ls| - 1];
      DistinctInFirstOccurrenceOrder(pre);
      FirstIndexOfExtension(ls);
    }
  }

  lemma {:induction false} SelectAbsent(entries: seq<Entry>, l: string)
    requires l !in LabelsOf(entries)
    ensures Select(entries, l) == []
    decreases |entries|
  {
    if |entries| > 0 {
      var pre := entries[..|entries| - 1];
      assert forall i :: 0 <= i < |pre| ==> LabelsOf(pre)[i] == LabelsOf(entries)[i];
      SelectAbsent(pre, l);
    }
  }

  /** `gs` holds one group per distinct label of `entries`, in first-occurrence order,
      each with exactly the values carrying its label, in order. */
  ghost predicate Collects(gs: seq<Group>, entries: seq<Entry>)
  {
    var names := Distinct(LabelsOf(entries));
    && |gs| == |names|
    && forall i :: 0 <= i < |gs| ==>
         gs[i].className == names[i] && gs[i].values == Select(entries, names[i])
  }

  lemma AddToExistingGroup(gs: seq<Group>, pre: seq<Entry>, e: Entry)
    requires Collects(gs, pre) && Find(gs, e.className) < |gs|
    ensures Collects(Add(gs, e), pre + [e])
  {
    var entries := pre + [e];
    var k := Find(gs, e.className);
    var d := Distinct(LabelsOf(pre));
    assert entries[..|entries| - 1] == pre;
    assert LabelsOf(entries)[..|pre|] == LabelsOf(pre);
    assert e.className in d;
    assert Distinct(LabelsOf(entries)) == d;
    forall i | 0 <= i < |gs| && i != k
      ensures gs[i].className != e.className
    {
      assert d[i] != d[k];
    }
  }

  lemma AddNewGroup(gs: seq<Group>, pre: seq<Entry>, e: Entry)
    requires Collects(gs, pre) && Find(gs, e.className) == |gs|
    ensures Collects(Add(gs, e), pre + [e])
  {
    var entries := pre + [e];
    var d := Distinct(LabelsOf(pre));
    assert entries[..|entries| - 1] == pre;
    assert LabelsOf(entries)[..|pre|] == LabelsOf(pre);
    assert e.className !in d;
    assert e.className !in LabelsOf(pre);
    SelectAbsent(pre, e.className);
    assert Distinct(LabelsOf(entries)) == d + [e.className];
  }

  /** Grouping yields one group per distinct label, in first-occurrence order, and each
      group holds exactly the values carrying its label, in dataset order. */
  lemma {:induction false} GroupByCollectsEachLabel(entries: seq<Entry>)
    ensures Collects(GroupBy(entries), entries)
    decreases |entries|
  {
    if |entries| > 0 {
      var n := |entries|;
      var pre, e := entries[..n - 1], entries[n - 1];
      assert entries == pre + [e];
      GroupByCollectsEachLabel(pre);
      var gs := GroupBy(pre);
      if Find(gs, e.className) < |gs| {
        AddToExistingGroup(gs, pre, e);
      } else {
        AddNewGroup(gs, pre, e);
      }
    }
  }

  /** The group at position `i` is the `i`-th distinct label with its selected values. */
  lemma GroupAt(entries: seq<Entry>, i: nat)
    requires i < |GroupBy(entries)|
    ensures |Distinct(LabelsOf(entries))| == |GroupBy(entries)|
    ensures GroupBy(entries)[i] == Group(Distinct(LabelsOf(entries))[i], Select(entries, Distinct(LabelsOf(entries))[i]))
  {
    GroupByCollectsEachLabel(entries);
  }

  /** Each entry's value is among the values selected for its label. */
  lemma {:induction false} SelectHolds(entries: seq<Entry>, j: nat)
    requires j < |entries|
    ensures entries[j].value in Select(entries, entries[j].className)
    decreases |entries|
  {
    var pre := entries[..|entries| - 1];
    if j < |pre| {
      assert pre[j] == entries[j];
      SelectHolds(pre, j);
    }
  }

  /** Every entry's value lands in the group of its label. */
  lemma EveryEntryInItsGroup(entries: seq<Entry>, j: nat)
    requires j < |entries|
    ensures var gs := GroupBy(entries);
      exists i :: 0 <= i < |gs| && gs[i].className == entries[j].className
                                 && entries[j].value in gs[i].values
  {
    var l := entries[j].className;
    var d := Distinct(LabelsOf(entries));
    assert LabelsOf(entries)[j] == l;
    assert l in d;
    var i :| 0 <= i < |d| && d[i] == l;
    GroupByCollectsEachLabel(entries);
    SelectHolds(entries, j);
    assert GroupBy(entries)[i].className == l;
  }

  /** The groups' labels are the distinct labels of the entries, in order of first
      occurrence. */
  lemma GroupByNames(entries: seq<Entry>)
    ensures Names(GroupBy(entries)) == Distinct(LabelsOf(entries))
  {
    GroupByCollectsEachLabel(entries);
  }

  lemma {:induction false} TotalSizeOfUpdate(gs: seq<Group>, k: nat, g: Group)
    requires k < |gs|
    ensures TotalSize(gs[k := g]) == TotalSize(gs) - |gs[k].values| + |g.values|
    decreases |gs|
  {
    var n := |gs|;
    if k < n - 1 {
      assert gs[k := g][..n - 1] == gs[..n - 1][k := g];
      TotalSizeOfUpdate(gs[..n - 1], k, g);
    } else {
      assert gs[k := g][..n - 1] == gs[..n - 1];
    }
  }

  /** Every entry lands in exactly one group: the group sizes add up to the number of
      entries. */
  lemma {:induction false} GroupByKeepsEveryEntry(entries: seq<Entry>)
    ensures TotalSize(GroupBy(entries)) == |entries|
    decreases |entries|
  {
    if |entries| > 0 {
      var n := |entries|;
      var pre, e := entries[..n - 1], entries[n - 1];
      GroupByKeepsEveryEntry(pre);
      var gs := GroupBy(pre);
      var k := Find(gs, e.className);
      if k < |gs| {
        TotalSizeOfUpdate(gs, k, gs[k].(values := gs[k].values + [e.value]));
      } else {
        assert (gs + [Group(e.className, [e.value])])[..|gs|] == gs;
      }
    }
  }
}
