/**
 Mean and median of a sequence of measurements, as both statistics components
 compute them, together with the ascending sort the median relies on.
 */
module Stats {

  /** Left-to-right sum, starting from 0, as `values.reduce((acc, v) => acc + v, 0)`. */
  function Sum(s: seq<real>): real
  {
    if |s| == 0 then 0.0 else Sum(s[..|s| - 1]) + s[|s| - 1]
  }

  /** The arithmetic mean. An empty sequence has no mean (the source divides 0 by 0). */
  function Mean(s: seq<real>): real
    requires |s| > 0
  {
    Sum(s) / (|s| as real)
  }

  /** The least element. */
  function Min(s: seq<real>): (m: real)
    requires |s| > 0
    ensures m in s
    ensures forall i :: 0 <= i < |s| ==> m <= s[i]
  {
    if |s| == 1 then s[0]
    else
      var m' := Min(s[..|s| - 1]);
      if s[|s| - 1] < m' then s[|s| - 1] else m'
  }

  /** The greatest element. */
  function Max(s: seq<real>): (m: real)
    requires |s| > 0
    ensures m in s
    ensures forall i :: 0 <= i < |s| ==> s[i] <= m
  {
    if |s| == 1 then s[0]
    else
      var m' := Max(s[..|s| - 1]);
      if s[|s| - 1] > m' then s[|s| - 1] else m'
  }

  /** Ascending order, as the comparator `(a, b) => a - b` arranges it. */
  ghost predicate Sorted(s: seq<real>)
  {
    forall i, j :: 0 <= i < j < |s| ==> s[i] <= s[j]
  }

  /** Inserts `x` into an ascending sequence. */
  function Insert(x: real, s: seq<real>): (r: seq<real>)
    requires Sorted(s)
    ensures |r| == |s| + 1
    ensures r[0] == x || (|s| > 0 && r[0] == s[0])
    ensures Sorted(r)
    ensures multiset(r) == multiset(s) + multiset{x}
  {
    if |s| == 0 then [x]
    else if x <= s[0] then [x] + s
    else
      assert s == [s[0]] + s[1..];
      [s[0]] + Insert(x, s[1..])
  }

  /** An ascending permutation of `s`; `Array.prototype.sort` with a numeric comparator. */
  function Sort(s: seq<real>): (r: seq<real>)
    ensures Sorted(r)
    ensures multiset(r) == multiset(s)
  {
    if |s| == 0 then []
    else
      assert s == [s[0]] + s[1..];
      Insert(s[0], Sort(s[1..]))
  }

  /** The central element of an ascending sequence, or the average of the two central
      elements when the length is even; the middle index is `floor(n / 2)`. */
  function Central(t: seq<real>): real
    requires |t| > 0
  {
    var middle := |t| / 2;
    if |t| % 2 == 0 then (t[middle - 1] + t[middle]) / 2.0 else t[middle]
  }

  /** The median, computed on a sorted copy: the input is left as it was. */
  function Median(s: seq<real>): real
    requires |s| > 0
  {
    Central(Sort(s))
  }

  /** The median computed by sorting the array in place: besides the median it returns
      the array's contents after the call. */
  function MedianInPlace(s: seq<real>): (r: (real, seq<real>))
    requires |s| > 0
    ensures Sorted(r.1) && multiset(r.1) == multiset(s)
    ensures r.0 == Median(s)
  {
    var sorted := Sort(s);
    (Central(sorted), sorted)
  }

  // ---------------------------------------------------------------------------
  // Lemmas
  // ---------------------------------------------------------------------------

  lemma MembersOfPermutation(a: seq<real>, b: seq<real>)
    requires multiset(a) == multiset(b)
    ensures forall x :: x in a <==> x in b
  {
    forall x
      ensures x in a <==> x in b
    {
      assert x in a <==> x in multiset(a);
      assert x in b <==> x in multiset(b);
    }
  }

  lemma CentralWithinRange(t: seq<real>, s: seq<real>)
    requires |s| > 0 && Sorted(t) && multiset(t) == multiset(s)
    ensures |t| == |s|
    ensures Min(s) <= Central(t) <= Max(s)
  {
    assert |t| == |multiset(t)| == |multiset(s)| == |s|;
    MembersOfPermutation(t, s);
    assert t[0] in s && t[|t| - 1] in s;
    assert Min(s) in t && Max(s) in t;
    assert Min(s) == t[0] by {
      assert t[0] <= Min(s);
    }
    assert Max(s) == t[|t| - 1] by {
      assert Max(s) <= t[|t| - 1];
    }
  }

  lemma {:induction false} SumAppend(a: seq<real>, b: seq<real>)
    ensures Sum(a + b) == Sum(a) + Sum(b)
    decreases |b|
  {
    if |b| == 0 {
      assert a + b == a;
    } else {
      assert (a + b)[..|a + b| - 1] == a + b[..|b| - 1];
      SumAppend(a, b[..|b| - 1]);
    }
  }

  /** The sum does not depend on the order in which the values are added. */
  lemma {:induction false} SumPermutation(a: seq<real>, b: seq<real>)
    requires multiset(a) == multiset(b)
    ensures Sum(a) == Sum(b)
    decreases |a|
  {
    if |a| == 0 {
      assert |b| == |multiset(b)| == 0;
    } else {
      var x := a[|a| - 1];
      var a' := a[..|a| - 1];
      assert a == a' + [x];
      assert x in multiset(b);
      var i :| 0 <= i < |b| && b[i] == x;
      var b' := b[..i] + b[i + 1..];
      assert b == b[..i] + [x] + b[i + 1..];
      assert multiset(b) == multiset(b[..i]) + multiset{x} + multiset(b[i + 1..]);
      assert multiset(a) == multiset(a') + multiset{x};
      assert multiset(b') == multiset(b[..i]) + multiset(b[i + 1..]);
      forall y
        ensures multiset(b')[y] == multiset(a')[y]
      {
        assert multiset(b)[y] == multiset(b[..i])[y] + multiset{x}[y] + multiset(b[i + 1..])[y];
        assert multiset(a)[y] == multiset(a')[y] + multiset{x}[y];
      }
      assert multiset(b') == multiset(a');
      SumPermutation(a', b');
      SumAppend(b[..i], [x]);
      SumAppend(b[..i] + [x], b[i + 1..]);
      SumAppend(b[..i], b[i + 1..]);
    }
  }

  /** The mean of a group does not depend on the order of its values, so it is the same
      whether taken before or after an in-place sort. */
  lemma MeanOrderIndependent(a: seq<real>, b: seq<real>)
    requires |a| > 0 && multiset(a) == multiset(b)
    ensures |b| > 0 && Mean(a) == Mean(b)
  {
    assert |a| == |multiset(a)| == |multiset(b)| == |b|;
    SumPermutation(a, b);
  }

  lemma {:induction false} SumBounds(s: seq<real>, lo: real, hi: real)
    requires forall i :: 0 <= i < |s| ==> lo <= s[i] <= hi
    ensures (|s| as real) * lo <= Sum(s) <= (|s| as real) * hi
    decreases |s|
  {
    if |s| > 0 {
      SumBounds(s[..|s| - 1], lo, hi);
      assert (|s| as real) * lo == ((|s| - 1) as real) * lo + lo;
      assert (|s| as real) * hi == ((|s| - 1) as real) * hi + hi;
    }
  }

  /** The mean lies between the least and the greatest value. */
  lemma {:induction false} MeanWithinRange(s: seq<real>)
    requires |s| > 0
    ensures Min(s) <= Mean(s) <= Max(s)
  {
    SumBounds(s, Min(s), Max(s));
    QuotientWithinRange(Sum(s), |s| as real, Min(s), Max(s));
  }

  lemma QuotientWithinRange(sum: real, n: real, lo: real, hi: real)
    requires n > 0.0 && n * lo <= sum <= n * hi
    ensures lo <= sum / n <= hi
  {
    assert sum / n - lo == (sum - n * lo) / n;
    assert hi - sum / n == (n * hi - sum) / n;
  }

  /** Two ascending permutations of the same values are equal: every correct sort gives
      the same sequence, so the median does not depend on the sorting algorithm. */
  lemma {:induction false} SortedPermutationUnique(a: seq<real>, b: seq<real>)
    requires Sorted(a) && Sorted(b) && multiset(a) == multiset(b)
    ensures a == b
    decreases |a|
  {
    assert |a| == |multiset(a)| == |multiset(b)| == |b|;
    if |a| > 0 {
      SortedHeadsAgree(a, b);
      TailsArePermutations(a, b);
      SortedPermutationUnique(a[1..], b[1..]);
      assert a == [a[0]] + a[1..];
      assert b == [b[0]] + b[1..];
    }
  }

  lemma SortedHeadsAgree(a: seq<real>, b: seq<real>)
    requires |a| > 0 && |b| > 0
    requires Sorted(a) && Sorted(b) && multiset(a) == multiset(b)
    ensures a[0] == b[0]
  {
    MembersOfPermutation(a, b);
    assert a[0] in a && b[0] in b;
    var i :| 0 <= i < |b| && b[i] == a[0];
    var j :| 0 <= j < |a| && a[j] == b[0];
    assert b[0] <= b[i] && a[0] <= a[j];
  }

  lemma TailsArePermutations(a: seq<real>, b: seq<real>)
    requires |a| > 0 && |b| > 0 && a[0] == b[0] && multiset(a) == multiset(b)
    ensures multiset(a[1..]) == multiset(b[1..])
  {
    assert a == [a[0]] + a[1..];
    assert b == [b[0]] + b[1..];
    forall y
      ensures multiset(a[1..])[y] == multiset(b[1..])[y]
    {
      assert multiset(a)[y] == multiset{a[0]}[y] + multiset(a[1..])[y];
      assert multiset(b)[y] == multiset{b[0]}[y] + multiset(b[1..])[y];
    }
  }

  /** The median is the central-element rule applied to any ascending permutation of
      the values: index `n / 2` when `n` is odd, the average of indices `n / 2 - 1`
      and `n / 2` when `n` is even. */
  lemma MedianOfSortedPermutation(s: seq<real>, t: seq<real>)
    requires |s| > 0 && Sorted(t) && multiset(t) == multiset(s)
    ensures |t| == |s|
    ensures |s| % 2 == 1 ==> Median(s) == t[|s| / 2]
    ensures |s| % 2 == 0 ==> Median(s) == (t[|s| / 2 - 1] + t[|s| / 2]) / 2.0
  {
    assert |t| == |multiset(t)| == |multiset(s)| == |s|;
    SortedPermutationUnique(t, Sort(s));
  }

  /** The median lies between the least and the greatest value. */
  lemma MedianWithinRange(s: seq<real>)
    requires |s| > 0
    ensures Min(s) <= Median(s) <= Max(s)
  {
    CentralWithinRange(Sort(s), s);
  }
}
