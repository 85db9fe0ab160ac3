/**
 The percentile estimator: sort the samples, compute the real rank
 k = (n - 1) * p / 100 and interpolate linearly between the samples at
 floor(k) and ceil(k). Models `percentile` in main.py.
 */
module Percentiles {

  import opened Wrappers

  // ---------------------------------------------------------------------------
  // Sorting (Python's `sorted` on a list of floats)
  // ---------------------------------------------------------------------------

  ghost predicate Sorted(s: seq<real>) {
    forall i, j :: 0 <= i < j < |s| ==> s[i] <= s[j]
  }

  /** Inserts `x` in front of the first element of `s` that is not smaller. */
  function Insert(x: real, s: seq<real>): (r: seq<real>)
    ensures |r| == |s| + 1
    ensures multiset(r) == multiset(s) + multiset{x}
  {
    if s == [] || x <= s[0] then
      [x] + s
    else
      assert s == [s[0]] + s[1..];
      [s[0]] + Insert(x, s[1..])
  }

  /** Python's `sorted`: insertion sort, an ascending permutation of the samples. */
  function Sort(s: seq<real>): (r: seq<real>)
    ensures |r| == |s|
    ensures multiset(r) == multiset(s)
    ensures Sorted(r)
  {
    if s == [] then
      []
    else
      var rest := Sort(s[1..]);
      InsertSorted(s[0], rest);
      Tail(s);
      Insert(s[0], rest)
  }

  /** Dropping the first element keeps a sequence sorted and removes one copy from its multiset. */
  lemma Tail(a: seq<real>)
    requires a != []
    ensures Sorted(a) ==> Sorted(a[1..])
    ensures multiset(a) == multiset(a[1..]) + multiset{a[0]}
    ensures multiset(a[1..]) == multiset(a) - multiset{a[0]}
  {
    assert a == [a[0]] + a[1..];
  }

  /** Sequences with the same multiset have the same members. */
  lemma SameMembers(a: seq<real>, b: seq<real>, x: real)
    requires multiset(a) == multiset(b)
    ensures x in a <==> x in b
  {
    assert x in a <==> x in multiset(a);
    assert x in b <==> x in multiset(b);
  }

  /** A lower bound of every element of a sorted sequence may be put in front of it. */
  lemma PrependSorted(x: real, t: seq<real>)
    requires Sorted(t)
    requires forall i :: 0 <= i < |t| ==> x <= t[i]
    ensures Sorted([x] + t)
  {
  }

  /** A lower bound of `x` and of every element of `t` bounds every element of t + [x], in any order. */
  lemma LowerBoundCarries(lo: real, x: real, t: seq<real>, r: seq<real>)
    requires lo <= x
    requires forall j :: 0 <= j < |t| ==> lo <= t[j]
    requires multiset(r) == multiset(t) + multiset{x}
    ensures forall i :: 0 <= i < |r| ==> lo <= r[i]
  {
    forall i | 0 <= i < |r| ensures lo <= r[i] {
      assert r[i] in multiset(r);
      if r[i] != x {
        assert r[i] in multiset(t);
        assert r[i] in t;
      }
    }
  }

  /** Inserting into a sorted sequence keeps it sorted. */
  lemma {:induction false} InsertSorted(x: real, s: seq<real>)
    requires Sorted(s)
    ensures Sorted(Insert(x, s))
  {
    if s == [] || x <= s[0] {
      PrependSorted(x, s);
    } else {
      var tail := s[1..];
      Tail(s);
      InsertSorted(x, tail);
      var rest := Insert(x, tail);
      assert forall j :: 0 <= j < |tail| ==> s[0] <= tail[j] by {
        forall j | 0 <= j < |tail| ensures s[0] <= tail[j] {
          assert tail[j] == s[j + 1];
        }
      }
      LowerBoundCarries(s[0], x, tail, rest);
      PrependSorted(s[0], rest);
    }
  }

  /** Two sorted arrangements of a non-empty multiset start with the same element. */
  lemma SortedSameHead(a: seq<real>, b: seq<real>)
    requires Sorted(a) && Sorted(b)
    requires multiset(a) == multiset(b)
    requires a != []
    ensures b != [] && a[0] == b[0]
  {
    assert |a| == |multiset(a)| == |multiset(b)| == |b|;
    SameMembers(a, b, a[0]);
    SameMembers(a, b, b[0]);
    var i :| 0 <= i < |b| && b[i] == a[0];
    var j :| 0 <= j < |a| && a[j] == b[0];
    assert b[0] <= b[i] && a[0] <= a[j];
  }

  /** Two sorted arrangements of the same multiset are the same sequence. */
  lemma {:induction false} SortedUnique(a: seq<real>, b: seq<real>)
    requires Sorted(a) && Sorted(b)
    requires multiset(a) == multiset(b)
    ensures a == b
  {
    if a == [] {
      assert |b| == |multiset(b)| == 0;
    } else {
      SortedSameHead(a, b);
      Tail(a);
      Tail(b);
      SortedUnique(a[1..], b[1..]);
      assert a == [a[0]] + a[1..] && b == [b[0]] + b[1..];
    }
  }

  /** Sorting an already sorted sample changes nothing. */
  lemma SortSorted(s: seq<real>)
    requires Sorted(s)
    ensures Sort(s) == s
  {
    var t := Sort(s);
    assert Sorted(t) && multiset(t) == multiset(s);
    SortedUnique(t, s);
  }

  // ---------------------------------------------------------------------------
  // Minimum and maximum of a sample
  // ---------------------------------------------------------------------------

  /** The smallest sample. */
  function MinOf(s: seq<real>): (m: real)
    requires s != []
    ensures m in s
    ensures forall i :: 0 <= i < |s| ==> m <= s[i]
  {
    if |s| == 1 then
      s[0]
    else
      var m := MinOf(s[1..]);
      assert forall i :: 1 <= i < |s| ==> s[i] == s[1..][i - 1];
      if s[0] <= m then s[0] else m
  }

  /** The largest sample. */
  function MaxOf(s: seq<real>): (m: real)
    requires s != []
    ensures m in s
    ensures forall i :: 0 <= i < |s| ==> s[i] <= m
  {
    if |s| == 1 then
      s[0]
    else
      var m := MaxOf(s[1..]);
      assert forall i :: 1 <= i < |s| ==> s[i] == s[1..][i - 1];
      if m <= s[0] then s[0] else m
  }

  /** A sorted arrangement of a sample starts at its minimum. */
  lemma SortedFirst(t: seq<real>, s: seq<real>)
    requires s != []
    requires Sorted(t) && multiset(t) == multiset(s)
    ensures |t| == |s| && t[0] == MinOf(s)
  {
    assert |t| == |multiset(t)| == |multiset(s)| == |s|;
    var lo := MinOf(s);
    SameMembers(t, s, t[0]);
    SameMembers(t, s, lo);
    var i :| 0 <= i < |t| && t[i] == lo;
    assert t[0] <= t[i];
  }

  /** A sorted arrangement of a sample ends at its maximum. */
  lemma SortedLast(t: seq<real>, s: seq<real>)
    requires s != []
    requires Sorted(t) && multiset(t) == multiset(s)
    ensures |t| == |s| && t[|t| - 1] == MaxOf(s)
  {
    assert |t| == |multiset(t)| == |multiset(s)| == |s|;
    var hi := MaxOf(s);
    SameMembers(t, s, t[|t| - 1]);
    SameMembers(t, s, hi);
    var j :| 0 <= j < |t| && t[j] == hi;
    assert t[j] <= t[|t| - 1];
  }

  /** The first and last sorted samples are the minimum and the maximum. */
  lemma SortEnds(s: seq<real>)
    requires s != []
    ensures Sort(s)[0] == MinOf(s)
    ensures Sort(s)[|s| - 1] == MaxOf(s)
  {
    var t := Sort(s);
    assert Sorted(t) && multiset(t) == multiset(s);
    SortedFirst(t, s);
    SortedLast(t, s);
  }

  // ---------------------------------------------------------------------------
  // Rank arithmetic
  // ---------------------------------------------------------------------------

  /** Python's `math.floor`: the greatest integer not above `k`. */
  function Floor(k: real): (f: int)
    ensures f as real <= k < f as real + 1.0
  {
    k.Floor
  }

  /** Python's `math.ceil`: the least integer not below `k`. */
  function Ceil(k: real): (c: int)
    ensures c as real - 1.0 < k <= c as real
    ensures c == Floor(k) || c == Floor(k) + 1
    ensures c == Floor(k) <==> k == Floor(k) as real
  {
    if k == k.Floor as real then k.Floor else k.Floor + 1
  }

  /** The real rank (n - 1) * (p / 100) of percentile `p` among `n` samples. */
  function Rank(n: nat, p: real): real {
    (n - 1) as real * (p / 100.0)
  }

  lemma MulNonNegative(x: real, y: real)
    requires 0.0 <= x && 0.0 <= y
    ensures 0.0 <= x * y
  {
  }

  /** For 0 <= p <= 100 the rank lies in [0, n - 1]. */
  lemma RankRange(n: nat, p: real)
    requires n > 0
    requires 0.0 <= p <= 100.0
    ensures 0.0 <= Rank(n, p) <= (n - 1) as real
  {
    var m, q := (n - 1) as real, p / 100.0;
    MulNonNegative(m, q);
    MulNonNegative(m, 1.0 - q);
    assert m - m * q == m * (1.0 - q);
  }

  /** Floor and ceiling of a number in [0, m] lie in [0, m] and differ by at most one. */
  lemma FloorCeilRange(k: real, m: int)
    requires 0.0 <= k <= m as real
    ensures 0 <= Floor(k) <= Ceil(k) <= m
    ensures Ceil(k) - Floor(k) <= 1
  {
  }

  /** Both interpolation indices stay inside the sorted sample. */
  lemma RankIndices(n: nat, p: real)
    requires n > 0
    requires 0.0 <= p <= 100.0
    ensures 0 <= Floor(Rank(n, p)) <= Ceil(Rank(n, p)) <= n - 1
    ensures Ceil(Rank(n, p)) - Floor(Rank(n, p)) <= 1
  {
    RankRange(n, p);
    FloorCeilRange(Rank(n, p), n - 1);
  }

  // ---------------------------------------------------------------------------
  // Interpolation
  // ---------------------------------------------------------------------------

  /** The weighted mean lo * (c - k) + hi * (k - f) of the neighbours at f and c. */
  function Lerp(lo: real, hi: real, f: int, c: int, k: real): real {
    lo * (c as real - k) + hi * (k - f as real)
  }

  /** Between neighbours f and c = f + 1, the weighted mean lies between the two values. */
  lemma LerpBetween(lo: real, hi: real, f: int, c: int, k: real)
    requires lo <= hi
    requires c == f + 1
    requires f as real <= k <= c as real
    ensures lo <= Lerp(lo, hi, f, c, k) <= hi
  {
    var u, v := c as real - k, k - f as real;
    assert u + v == 1.0;
    MulNonNegative(hi - lo, v);
    MulNonNegative(hi - lo, u);
    assert lo * u + hi * v - lo == (hi - lo) * v;
    assert hi - (lo * u + hi * v) == (hi - lo) * u;
  }

  lemma MulPositive(x: real, y: real)
    requires 0.0 < x && 0.0 < y
    ensures 0.0 < x * y
  {
  }

  /** At a fractional rank both weights are positive, so the mean of distinct neighbours lies strictly between them. */
  lemma LerpStrictlyBetween(lo: real, hi: real, f: int, c: int, k: real)
    requires lo < hi
    requires c == f + 1
    requires f as real < k < c as real
    ensures lo < Lerp(lo, hi, f, c, k) < hi
  {
    var u, v := c as real - k, k - f as real;
    assert u + v == 1.0;
    MulPositive(hi - lo, v);
    MulPositive(hi - lo, u);
    assert lo * u + hi * v - lo == (hi - lo) * v;
    assert hi - (lo * u + hi * v) == (hi - lo) * u;
  }

  /**
   Linear interpolation at percentile `p` over an already sorted, non-empty
   sample: the element at floor(k) when the rank k is whole, otherwise the
   weighted mean of the elements at floor(k) and ceil(k).
   */
  function Interpolate(sorted: seq<real>, p: real): (r: real)
    requires sorted != []
    requires 0.0 <= p <= 100.0
    ensures 0 <= Floor(Rank(|sorted|, p)) <= Ceil(Rank(|sorted|, p)) < |sorted|
    ensures Rank(|sorted|, p) == Floor(Rank(|sorted|, p)) as real ==> r == sorted[Floor(Rank(|sorted|, p))]
    ensures Sorted(sorted) ==> sorted[Floor(Rank(|sorted|, p))] <= r <= sorted[Ceil(Rank(|sorted|, p))]
  {
    var k := Rank(|sorted|, p);
    var f, c := Floor(k), Ceil(k);
    RankIndices(|sorted|, p);
    if f == c then
      // Python's int(k) truncates, which is floor(k) because k >= 0.
      sorted[f]
    else
      var v := Lerp(sorted[f], sorted[c], f, c, k);
      assert Sorted(sorted) ==> sorted[f] <= v <= sorted[c] by {
        if Sorted(sorted) {
          LerpBetween(sorted[f], sorted[c], f, c, k);
        }
      }
      v
  }

  /**
   At a fractional rank over a sorted sample whose two neighbours differ, the
   result lies strictly between them: it is neither the neighbour below nor the
   neighbour above.
   */
  lemma InterpolateStrict(sorted: seq<real>, p: real)
    requires sorted != [] && Sorted(sorted)
    requires 0.0 <= p <= 100.0
    ensures 0 <= Floor(Rank(|sorted|, p)) <= Ceil(Rank(|sorted|, p)) < |sorted|
    ensures var f, c := Floor(Rank(|sorted|, p)), Ceil(Rank(|sorted|, p));
      f != c && sorted[f] < sorted[c] ==> sorted[f] < Interpolate(sorted, p) < sorted[c]
  {
    var k := Rank(|sorted|, p);
    var f, c := Floor(k), Ceil(k);
    RankIndices(|sorted|, p);
    if f != c && sorted[f] < sorted[c] {
      LerpStrictlyBetween(sorted[f], sorted[c], f, c, k);
    }
  }

  /** The interpolated value lies between the first and the last element. */
  lemma InterpolateBounds(sorted: seq<real>, p: real)
    requires sorted != [] && Sorted(sorted)
    requires 0.0 <= p <= 100.0
    ensures sorted[0] <= Interpolate(sorted, p) <= sorted[|sorted| - 1]
  {
    var k := Rank(|sorted|, p);
    var f, c := Floor(k), Ceil(k);
    RankIndices(|sorted|, p);
    assert sorted[0] <= sorted[f] <= sorted[c] <= sorted[|sorted| - 1];
    if f != c {
      LerpBetween(sorted[f], sorted[c], f, c, k);
    }
  }

  /** At p = 0 and p = 100 the rank is whole and lands on the first and the last element. */
  lemma InterpolateEnds(sorted: seq<real>)
    requires sorted != []
    ensures Interpolate(sorted, 0.0) == sorted[0]
    ensures Interpolate(sorted, 100.0) == sorted[|sorted| - 1]
  {
    var n := |sorted|;
    assert Rank(n, 0.0) == 0.0;
    assert Rank(n, 100.0) == (n - 1) as real;
    assert Floor((n - 1) as real) == Ceil((n - 1) as real) == n - 1;
  }

  // ---------------------------------------------------------------------------
  // The estimator
  // ---------------------------------------------------------------------------

  /**
   The linearly interpolated `p`-th percentile of `values`, or None for an
   empty sample. `p` is read as a percentage in [0, 100].
   */
  function Percentile(values: seq<real>, p: real): (r: Option<real>)
    requires 0.0 <= p <= 100.0
    ensures r.None? <==> values == []
  {
    if values == [] then None else Some(Interpolate(Sort(values), p))
  }

  /** The estimate lies between the smallest and the largest sample. */
  lemma PercentileBounds(values: seq<real>, p: real)
    requires values != []
    requires 0.0 <= p <= 100.0
    ensures MinOf(values) <= Percentile(values, p).value <= MaxOf(values)
  {
    var t := Sort(values);
    assert Sorted(t) && |t| == |values|;
    SortEnds(values);
    InterpolateBounds(t, p);
  }

  /** The 0th percentile is the minimum and the 100th is the maximum. */
  lemma PercentileExtremes(values: seq<real>)
    requires values != []
    ensures Percentile(values, 0.0) == Some(MinOf(values))
    ensures Percentile(values, 100.0) == Some(MaxOf(values))
  {
    var t := Sort(values);
    assert |t| == |values|;
    SortEnds(values);
    InterpolateEnds(t);
  }

  /** When the rank is a whole number, the estimate is exactly that sorted sample. */
  lemma PercentileIntegralRank(values: seq<real>, p: real)
    requires values != []
    requires 0.0 <= p <= 100.0
    requires Rank(|values|, p) == Floor(Rank(|values|, p)) as real
    ensures 0 <= Floor(Rank(|values|, p)) < |values|
    ensures Percentile(values, p) == Some(Sort(values)[Floor(Rank(|values|, p))])
  {
    var t := Sort(values);
    assert |t| == |values|;
    RankIndices(|values|, p);
  }

  /** The estimate depends on the multiset of samples only, not on their order. */
  lemma PercentilePermutation(a: seq<real>, b: seq<real>, p: real)
    requires multiset(a) == multiset(b)
    requires 0.0 <= p <= 100.0
    ensures Percentile(a, p) == Percentile(b, p)
  {
    assert |a| == |multiset(a)| == |multiset(b)| == |b|;
    var sa, sb := Sort(a), Sort(b);
    assert Sorted(sa) && Sorted(sb) && multiset(sa) == multiset(sb);
    SortedUnique(sa, sb);
  }

  /** On an already sorted sample, the estimate is the interpolation over the sample itself. */
  lemma PercentileOfSorted(values: seq<real>, p: real)
    requires values != [] && Sorted(values)
    requires 0.0 <= p <= 100.0
    ensures Percentile(values, p) == Some(Interpolate(values, p))
  {
    SortSorted(values);
  }

  /**
   A worked case: among eight latencies 100, 150, ..., 450 the 95th
   percentile has rank 7 * 0.95 = 6.65, so it is 400 * 0.35 + 450 * 0.65.
   */
  lemma PercentileExample(ls: seq<real>)
    requires ls == [100.0, 150.0, 200.0, 250.0, 300.0, 350.0, 400.0, 450.0]
    ensures Percentile(ls, 95.0) == Some(432.5)
  {
    assert Interpolate(ls, 95.0) == 432.5 by {
      assert Rank(8, 95.0) == 6.65;
      assert Floor(6.65) == 6;
      assert Ceil(6.65) == 7;
    }
    assert Sorted(ls);
    PercentileOfSorted(ls, 95.0);
  }

}
