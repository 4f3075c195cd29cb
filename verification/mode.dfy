/**
 The mode as both statistics components compute it: one pass over the values that
 keeps a frequency table, the highest frequency seen so far and the value that
 reached it, replacing that value only when a frequency STRICTLY exceeds the best.
 */
module Mode {
  import opened Wrappers
  import Stats

  /** How often `x` occurs in `s`. */
  function Count(s: seq<real>, x: real): nat
  {
    multiset(s)[x]
  }

  /** How often `s[j]` occurs in `s[..j + 1]`: the frequency the scan reads for the
      value at position `j` just after counting it. */
  function Reach(s: seq<real>, j: nat): nat
    requires j < |s|
  {
    Count(s[..j + 1], s[j])
  }

  /** The state of the scan: `valueCount`, `maxCount` and `mode`. */
  datatype Tally = Tally(counts: map<real, nat>, maxCount: nat, mode: Option<real>)

  /** The frequency of `v` once it has been counted again. */
  function NextCount(t: Tally, v: real): nat
  {
    if v in t.counts then t.counts[v] + 1 else 1
  }

  /** One iteration of the scan. */
  function Step(t: Tally, v: real): Tally
  {
    var c := NextCount(t, v);
    var counts := t.counts[v := c];
    if c > t.maxCount then Tally(counts, c, Some(v)) else t.(counts := counts)
  }

  /** The state after scanning all of `s` in order, starting from an empty table,
      `maxCount = 0` and `mode = null`. */
  function Scan(s: seq<real>): (t: Tally)
    ensures |s| == 0 <==> t.mode.None?
    ensures |s| == 0 <==> t.maxCount == 0
  {
    if |s| == 0 then Tally(map[], 0, None)
    else Step(Scan(s[..|s| - 1]), s[|s| - 1])
  }

  /** `calculateMode`: `null` (None) exactly when there are no values. */
  function Mode(s: seq<real>): (r: Option<real>)
    ensures r.None? <==> |s| == 0
  {
    Scan(s).mode
  }

  /** The first-reached-max rule, stated without reference to the scan: `m` is a
      value of greatest frequency `K`, and the first position at which any value
      has been seen `K` times holds `m`. */
  ghost predicate IsFirstReachedMode(s: seq<real>, m: real)
  {
    && m in s
    && (forall x :: x in s ==> Count(s, x) <= Count(s, m))
    && exists p ::
        && 0 <= p < |s|
        && s[p] == m
        && Reach(s, p) == Count(s, m)
        && forall q :: 0 <= q < p ==> Reach(s, q) < Count(s, m)
  }

  // ---------------------------------------------------------------------------
  // Lemmas
  // ---------------------------------------------------------------------------

  lemma ReachOfPrefix(s: seq<real>, n: nat, j: nat)
    requires j < n <= |s|
    ensures Reach(s[..n], j) == Reach(s, j)
  {
    assert s[..n][..j + 1] == s[..j + 1];
  }

  lemma CountOfPrefix(s: seq<real>, n: nat, x: real)
    requires n <= |s|
    ensures Count(s[..n], x) <= Count(s, x)
    ensures (forall j :: n <= j < |s| ==> s[j] != x) ==> Count(s[..n], x) == Count(s, x)
  {
    assert s == s[..n] + s[n..];
    assert multiset(s) == multiset(s[..n]) + multiset(s[n..]);
    if forall j :: n <= j < |s| ==> s[j] != x {
      assert x !in s[n..];
    }
  }

  lemma CountOfAppend(s: seq<real>, v: real, x: real)
    ensures Count(s + [v], x) == Count(s, x) + (if x == v then 1 else 0)
  {
    assert multiset(s + [v]) == multiset(s) + multiset{v};
  }

  /** A value's full count is the frequency read at its last occurrence. */
  lemma {:induction false} CountReachedAtLast(s: seq<real>, x: real)
    requires x in s
    ensures exists j :: 0 <= j < |s| && s[j] == x && Reach(s, j) == Count(s, x)
    decreases |s|
  {
    var n := |s|;
    var p := s[..n - 1];
    assert s == p + [s[n - 1]];
    CountOfAppend(p, s[n - 1], x);
    if s[n - 1] == x {
      assert s[..n] == s;
      assert Reach(s, n - 1) == Count(s, x);
    } else {
      assert x in p;
      CountReachedAtLast(p, x);
      var j :| 0 <= j < |p| && p[j] == x && Reach(p, j) == Count(p, x);
      ReachOfPrefix(s, n - 1, j);
    }
  }

  /** The scan's table holds the frequency of each value read so far. */
  lemma {:induction false} ScanCounts(s: seq<real>)
    ensures forall x :: x in Scan(s).counts <==> x in s
    ensures forall x :: x in Scan(s).counts ==> Scan(s).counts[x] == Count(s, x)
    decreases |s|
  {
    if |s| > 0 {
      var n := |s|;
      var prefix, v := s[..n - 1], s[n - 1];
      assert s == prefix + [v];
      ScanCounts(prefix);
      forall x
        ensures Count(s, x) == Count(prefix, x) + (if x == v then 1 else 0)
      {
        CountOfAppend(prefix, v, x);
      }
    }
  }

  /** Extending a sequence leaves the frequencies read at earlier positions alone, and
      the frequency read at the new last position is that value's full count. */
  lemma ReachOfExtension(s: seq<real>)
    requires |s| > 0
    ensures Reach(s, |s| - 1) == Count(s, s[|s| - 1])
    ensures forall j :: 0 <= j < |s| - 1 ==> Reach(s, j) == Reach(s[..|s| - 1], j)
  {
    assert s[..|s|] == s;
    forall j | 0 <= j < |s| - 1
      ensures Reach(s, j) == Reach(s[..|s| - 1], j)
    {
      ReachOfPrefix(s, |s| - 1, j);
    }
  }

  /** The frequency the scan computes for the last value is the one read there. */
  lemma NextCountIsReach(s: seq<real>)
    requires |s| > 0
    ensures NextCount(Scan(s[..|s| - 1]), s[|s| - 1]) == Reach(s, |s| - 1)
  {
    var prefix, v := s[..|s| - 1], s[|s| - 1];
    ScanCounts(prefix);
    assert s == prefix + [v];
    assert s[..|s|] == s;
    CountOfAppend(prefix, v, v);
  }

  /** `maxCount` bounds every frequency read so far. */
  lemma {:induction false} ScanBoundsReach(s: seq<real>)
    ensures forall j :: 0 <= j < |s| ==> Reach(s, j) <= Scan(s).maxCount
    decreases |s|
  {
    if |s| > 0 {
      ScanBoundsReach(s[..|s| - 1]);
      ReachOfExtension(s);
      NextCountIsReach(s);
    }
  }

  /** The mode sits at the first position where a frequency of `maxCount` was read. */
  lemma {:induction false} ScanInvariant(s: seq<real>)
    ensures |s| > 0 ==> exists p ::
        && 0 <= p < |s|
        && s[p] == Scan(s).mode.value
        && Reach(s, p) == Scan(s).maxCount
        && forall q :: 0 <= q < p ==> Reach(s, q) < Scan(s).maxCount
    decreases |s|
  {
    if |s| > 0 {
      var n := |s|;
      var prefix, v := s[..n - 1], s[n - 1];
      ScanInvariant(prefix);
      ScanBoundsReach(prefix);
      ReachOfExtension(s);
      NextCountIsReach(s);
      var t := Scan(prefix);
      if NextCount(t, v) > t.maxCount {
        assert s[n - 1] == Scan(s).mode.value && Reach(s, n - 1) == Scan(s).maxCount;
      } else {
        var p :| 0 <= p < |prefix| && prefix[p] == t.mode.value && Reach(prefix, p) == t.maxCount
          && forall q :: 0 <= q < p ==> Reach(prefix, q) < t.maxCount;
        assert s[p] == Scan(s).mode.value && Reach(s, p) == Scan(s).maxCount;
      }
    }
  }

  /** The mode is a value of the input with the highest frequency. */
  lemma ModeIsMostFrequent(s: seq<real>)
    requires |s| > 0
    ensures Mode(s).Some?
    ensures Mode(s).value in s
    ensures forall x :: x in s ==> Count(s, x) <= Count(s, Mode(s).value)
  {
    ModeSatisfiesFirstReached(s);
  }

  lemma ModeSatisfiesFirstReached(s: seq<real>)
    requires |s| > 0
    ensures Mode(s).Some? && IsFirstReachedMode(s, Mode(s).value)
  {
    ScanInvariant(s);
    ScanBoundsReach(s);
    var t := Scan(s);
    var m := t.mode.value;
    var p :| 0 <= p < |s| && s[p] == m && Reach(s, p) == t.maxCount
      && forall q :: 0 <= q < p ==> Reach(s, q) < t.maxCount;
    forall x | x in s
      ensures Count(s, x) <= t.maxCount
    {
      CountReachedAtLast(s, x);
    }
    CountOfPrefix(s, p + 1, m);
    assert Count(s, m) == t.maxCount;
  }

  /** The scan and the first-reached-max rule agree: `Mode(s)` is `m` exactly when `m`
      is the value of greatest frequency that reached that frequency first. */
  lemma ModeIsFirstReached(s: seq<real>, m: real)
    ensures Mode(s) == Some(m) <==> IsFirstReachedMode(s, m)
  {
    if |s| > 0 {
      ModeSatisfiesFirstReached(s);
      var m0 := Mode(s).value;
      if IsFirstReachedMode(s, m) {
        assert Count(s, m) == Count(s, m0);
        var k := Count(s, m);
        var p :| 0 <= p < |s| && s[p] == m && Reach(s, p) == k
          && forall q :: 0 <= q < p ==> Reach(s, q) < k;
        var p0 :| 0 <= p0 < |s| && s[p0] == m0 && Reach(s, p0) == k
          && forall q :: 0 <= q < p0 ==> Reach(s, q) < k;
        assert p == p0;
      }
    }
  }

  /** When all values are distinct, the mode is the first value. */
  lemma ModeOfDistinct(s: seq<real>)
    requires |s| > 0
    requires forall i, j :: 0 <= i < j < |s| ==> s[i] != s[j]
    ensures Mode(s) == Some(s[0])
  {
    ModeSatisfiesFirstReached(s);
    var m := Mode(s).value;
    var k := Count(s, m);
    var p :| 0 <= p < |s| && s[p] == m && Reach(s, p) == k
      && forall q :: 0 <= q < p ==> Reach(s, q) < k;
    DistinctPrefixCount(s, 0);
    DistinctPrefixCount(s, p);
    assert k == 1;
    assert !(0 < p);
  }

  lemma DistinctPrefixCount(s: seq<real>, p: nat)
    requires p < |s|
    requires forall i, j :: 0 <= i < j < |s| ==> s[i] != s[j]
    ensures Reach(s, p) == 1
  {
    var pre := s[..p];
    assert s[..p + 1] == pre + [s[p]];
    assert s[p] !in pre;
    CountOfAppend(pre, s[p], s[p]);
  }

  /** On an ascending sequence the scan returns the smallest of the most frequent
      values: every value of a larger one's frequency is completed before it. */
  lemma ModeOfSortedIsSmallest(s: seq<real>)
    requires |s| > 0 && Stats.Sorted(s)
    ensures Mode(s).Some?
    ensures forall x :: x in s ==> Count(s, x) <= Count(s, Mode(s).value)
    ensures forall x :: x in s && Count(s, x) == Count(s, Mode(s).value) ==> Mode(s).value <= x
  {
    ModeSatisfiesFirstReached(s);
    var m := Mode(s).value;
    var k := Count(s, m);
    var p :| 0 <= p < |s| && s[p] == m && Reach(s, p) == k
      && forall q :: 0 <= q < p ==> Reach(s, q) < k;
    forall x | x in s && Count(s, x) == k
      ensures m <= x
    {
      if x < m {
        SmallerCompletedEarlier(s, p, x);
      }
    }
  }

  /** In an ascending sequence, a value smaller than `s[p]` has all its occurrences
      before `p`, so its full frequency is read at some position before `p`. */
  lemma SmallerCompletedEarlier(s: seq<real>, p: nat, x: real)
    requires p < |s| && Stats.Sorted(s) && x in s && x < s[p]
    ensures exists j :: 0 <= j < p && Reach(s, j) == Count(s, x)
  {
    assert forall j :: p <= j < |s| ==> s[j] != x by {
      forall j | p <= j < |s|
        ensures s[j] != x
      {
        assert s[p] <= s[j];
      }
    }
    CountOfPrefix(s, p, x);
    var pre := s[..p];
    assert x in pre by {
      assert x in multiset(s);
      assert x in multiset(pre);
    }
    CountReachedAtLast(pre, x);
    var j :| 0 <= j < |pre| && pre[j] == x && Reach(pre, j) == Count(pre, x);
    ReachOfPrefix(s, p, j);
  }
}
