/**
 Worked examples of the statistics on small inputs, each proved from the definitions.
 */
module Scenarios {
  import opened Wrappers
  import opened Wine
  import opened Grouping
  import Mode
  import Stats
  import Alcohol
  import Gamma

  /** Two values tie for the highest frequency; the one that got there first wins. */
  lemma TieGoesToFirst()
    ensures Mode.Mode([1.0, 1.0, 2.0, 2.0]) == Some(1.0)
  {
    var s := [1.0, 1.0, 2.0, 2.0];
    assert s[..3] == [1.0, 1.0, 2.0];
    assert s[..3][..2] == [1.0, 1.0];
    assert s[..3][..2][..1] == [1.0];
    assert [1.0][..0] == [];
    assert Mode.Scan([1.0]) == Mode.Tally(map[1.0 := 1], 1, Some(1.0));
    assert Mode.Scan([1.0, 1.0]) == Mode.Tally(map[1.0 := 2], 2, Some(1.0));
    assert Mode.Scan([1.0, 1.0, 2.0]) == Mode.Tally(map[1.0 := 2, 2.0 := 1], 2, Some(1.0));
  }

  /** With no repeated value the mode is the first value. */
  lemma DistinctGoesToFirst()
    ensures Mode.Mode([3.0, 1.0, 2.0]) == Some(3.0)
  {
    Mode.ModeOfDistinct([3.0, 1.0, 2.0]);
  }

  /** On the same group, the two tables report different modes: the Gamma table scans
      the group in dataset order, the Alcohol table scans it after the median sorted
      it in place. */
  lemma RowsDisagree()
    ensures Gamma.GammaRow(Group("Class 1", [3.0, 2.0])).mode == Some(3.0)
    ensures Alcohol.AlcoholRow(Group("Class 1", [3.0, 2.0])).0.mode == Some(2.0)
  {
    Mode.ModeOfDistinct([3.0, 2.0]);
    assert [3.0, 2.0][1..] == [2.0];
    assert [2.0][1..] == [];
    assert Stats.Sort([3.0, 2.0]) == [2.0, 3.0];
    Mode.ModeOfDistinct([2.0, 3.0]);
  }

  /** Three records; the first carries its Flavanoids as text. */
  function Sample(): seq<WineData>
  {
    [WineData("1", "1", 0.0, 0.0, 1.0, Text("3.0")),
     WineData("1", "1", 0.0, 0.0, 1.0, Number(2.0)),
     WineData("2", "2", 0.0, 0.0, 1.0, Number(4.0))]
  }

  /** Every record has a usable Flavanoids value, so every record contributes. */
  lemma SampleEntries(parseFloat: string -> Option<real>)
    requires parseFloat("3.0") == Some(3.0)
    ensures Alcohol.ValidEntries(Sample(), parseFloat)
      == [Entry("Class 1", 3.0), Entry("Class 1", 2.0), Entry("Class 2", 4.0)]
  {
    var data := Sample();
    assert ClassName("1") == "Class 1";
    assert ClassName("2") == "Class 2";
    assert data[..2][..1] == data[..1] && data[..1][..0] == [];
    assert Alcohol.ValidEntries(data[..1], parseFloat) == [Entry("Class 1", 3.0)];
    assert Alcohol.ValidEntries(data[..2], parseFloat) == [Entry("Class 1", 3.0), Entry("Class 1", 2.0)];
  }

  lemma SampleGroups()
    ensures GroupBy([Entry("Class 1", 3.0), Entry("Class 1", 2.0), Entry("Class 2", 4.0)])
      == [Group("Class 1", [3.0, 2.0]), Group("Class 2", [4.0])]
  {
    assert "Class 1" != "Class 2" by {
      assert "Class 1"[6] != "Class 2"[6];
    }
    GroupOfTwo(Entry("Class 1", 3.0), Entry("Class 1", 2.0));
    GroupByLast([Entry("Class 1", 3.0), Entry("Class 1", 2.0)], Entry("Class 2", 4.0));
    AddNewLabel(Group("Class 1", [3.0, 2.0]), Entry("Class 2", 4.0));
  }

  lemma GroupByLast(es: seq<Entry>, e: Entry)
    ensures GroupBy(es + [e]) == Add(GroupBy(es), e)
  {
    assert (es + [e])[..|es|] == es;
  }

  lemma GroupOfTwo(e: Entry, f: Entry)
    requires e.className == f.className
    ensures GroupBy([e, f]) == [Group(e.className, [e.value, f.value])]
  {
    assert GroupBy([e]) == [Group(e.className, [e.value])] by {
      assert [e][..0] == [];
    }
    assert [e, f][..1] == [e];
    assert Find([Group(e.className, [e.value])], f.className) == 0;
    assert [e.value] + [f.value] == [e.value, f.value];
  }

  lemma AddNewLabel(g: Group, e: Entry)
    requires g.className != e.className
    ensures Add([g], e) == [g, Group(e.className, [e.value])]
  {
    assert Find([g], e.className) == 1;
  }

  lemma FirstSampleRow()
    ensures Alcohol.AlcoholRow(Group("Class 1", [3.0, 2.0])).0 == StatsRow("Class 1", 2.5, 2.5, Some(2.0))
  {
    RowsDisagree();
    assert [3.0, 2.0][..1] == [3.0] && [3.0][..0] == [];
    assert Stats.Sum([3.0, 2.0]) == 5.0;
    assert Stats.Sort([3.0, 2.0]) == [2.0, 3.0] by {
      assert [3.0, 2.0][1..] == [2.0];
      assert [2.0][1..] == [];
    }
  }

  lemma SecondSampleRow()
    ensures Alcohol.AlcoholRow(Group("Class 2", [4.0])).0 == StatsRow("Class 2", 4.0, 4.0, Some(4.0))
  {
    assert [4.0][1..] == [] && [4.0][..0] == [];
    assert Stats.Sort([4.0]) == [4.0];
    assert Mode.Mode([4.0]) == Some(4.0);
  }

  lemma SampleTable()
    ensures Alcohol.AlcoholRows([Group("Class 1", [3.0, 2.0]), Group("Class 2", [4.0])])
      == [StatsRow("Class 1", 2.5, 2.5, Some(2.0)), StatsRow("Class 2", 4.0, 4.0, Some(4.0))]
  {
    FirstSampleRow();
    SecondSampleRow();
    RowsOfTwoGroups(Group("Class 1", [3.0, 2.0]), Group("Class 2", [4.0]));
  }

  lemma RowsOfTwoGroups(g: Group, h: Group)
    requires |g.values| > 0 && |h.values| > 0
    ensures Alcohol.AlcoholRows([g, h]) == [Alcohol.AlcoholRow(g).0, Alcohol.AlcoholRow(h).0]
  {
  }

  /** The complete Alcohol table of the sample: the group `[3, 2]` has mean and median
      2.5, and its mode is 2 because the scan runs over the sorted array `[2, 3]`. */
  lemma EndToEnd(parseFloat: string -> Option<real>)
    requires parseFloat("3.0") == Some(3.0)
    ensures Alcohol.AlcoholStatistics(Sample(), parseFloat)
      == [StatsRow("Class 1", 2.5, 2.5, Some(2.0)), StatsRow("Class 2", 4.0, 4.0, Some(4.0))]
  {
    SampleEntries(parseFloat);
    SampleGroups();
    SampleTable();
  }
}
