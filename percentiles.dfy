/**
 * numpy's default percentile (`np.percentile(a, q)`, method "linear"): sort the values,
 * take the fractional rank (n - 1) * q / 100 and interpolate between the two sorted
 * values around it.
 */
module Percentiles {

  predicate Ascending(s: seq<real>)
  {
    forall i, j :: 0 <= i < j < |s| ==> s[i] <= s[j]
  }

  /** Inserts a value into an ascending list at its place. */
  function InsertAscending(x: real, s: seq<real>): (r: seq<real>)
    requires Ascending(s)
    ensures Ascending(r)
    ensures multiset(r) == multiset(s) + multiset{x}
  {
    if |s| == 0 then [x]
    else if x <= s[0] then [x] + s
    else
      var rest := InsertAscending(x, s[1..]);
      InsertBehindHead(x, s, rest);
      [s[0]] + rest
  }

  /** Putting the head back in front of the insertion into the tail keeps the list ascending. */
  lemma InsertBehindHead(x: real, s: seq<real>, rest: seq<real>)
    requires |s| > 0 && Ascending(s) && s[0] < x
    requires Ascending(rest) && multiset(rest) == multiset(s[1..]) + multiset{x}
    ensures Ascending([s[0]] + rest)
    ensures multiset([s[0]] + rest) == multiset(s) + multiset{x}
  {
    BelowAll(s[0], x, s[1..], rest);
    assert s == [s[0]] + s[1..];
  }

  /** A bound below `x` and below every value of `tail` is below every value of `rest`. */
  lemma BelowAll(m: real, x: real, tail: seq<real>, rest: seq<real>)
    requires multiset(rest) == multiset(tail) + multiset{x}
    requires m <= x && forall k :: 0 <= k < |tail| ==> m <= tail[k]
    ensures forall k :: 0 <= k < |rest| ==> m <= rest[k]
  {
    forall k | 0 <= k < |rest| ensures m <= rest[k] {
      assert rest[k] in multiset(rest);
      if rest[k] != x {
        assert rest[k] in multiset(tail);
        var p :| 0 <= p < |tail| && tail[p] == rest[k];
      }
    }
  }

  /** The values in ascending order (`np.sort`). */
  function SortAscending(s: seq<real>): (r: seq<real>)
    ensures Ascending(r)
    ensures multiset(r) == multiset(s)
    ensures |r| == |s|
  {
    assert |multiset(s)| == |s|;
    if |s| == 0 then []
    else
      assert s == s[..|s| - 1] + [s[|s| - 1]];
      InsertAscending(s[|s| - 1], SortAscending(s[..|s| - 1]))
  }

  /** The head of an ascending list is at or below every value in it. */
  lemma AscendingHead(a: seq<real>, y: real)
    requires Ascending(a) && y in multiset(a)
    ensures a[0] <= y
  {
    var i :| 0 <= i < |a| && a[i] == y;
  }

  /** Two ascending lists holding the same values are the same list. */
  lemma {:induction false} AscendingUnique(a: seq<real>, b: seq<real>)
    requires Ascending(a) && Ascending(b)
    requires multiset(a) == multiset(b)
    ensures a == b
  {
    assert |a| == |b| by {
      assert |multiset(a)| == |a| && |multiset(b)| == |b|;
    }
    if |a| > 0 {
      assert a[0] == b[0] by {
        HeadsEqual(a, b);
      }
      assert a[1..] == b[1..] by {
        TailMultiset(a);
        TailMultiset(b);
        AscendingTail(a);
        AscendingTail(b);
        AscendingUnique(a[1..], b[1..]);
      }
      assert a == [a[0]] + a[1..] && b == [b[0]] + b[1..];
    }
  }

  /** Two non-empty ascending lists with the same values start with the same value. */
  lemma HeadsEqual(a: seq<real>, b: seq<real>)
    requires Ascending(a) && Ascending(b) && multiset(a) == multiset(b)
    requires |a| > 0 && |b| > 0
    ensures a[0] == b[0]
  {
    assert a[0] in multiset(b);
    AscendingHead(b, a[0]);
    assert b[0] in multiset(a);
    AscendingHead(a, b[0]);
  }

  lemma AscendingTail(a: seq<real>)
    requires |a| > 0 && Ascending(a)
    ensures Ascending(a[1..])
  {
  }

  lemma TailMultiset(a: seq<real>)
    requires |a| > 0
    ensures multiset(a[1..]) == multiset(a) - multiset{a[0]}
  {
    assert a == [a[0]] + a[1..];
  }

  /** The fractional rank `(n - 1) * (q / 100)` of percentile `q` among `n` values. */
  function Rank(n: nat, q: real): (idx: real)
    requires n > 0 && 0.0 <= q <= 100.0
    ensures 0.0 <= idx <= (n - 1) as real
  {
    var f := q / 100.0;
    assert 0.0 <= f <= 1.0;
    MulNonNegative((n - 1) as real, f);
    MulNonNegative((n - 1) as real, 1.0 - f);
    (n - 1) as real * f
  }

  lemma RankMonotone(n: nat, q1: real, q2: real)
    requires n > 0 && 0.0 <= q1 <= q2 <= 100.0
    ensures Rank(n, q1) <= Rank(n, q2)
  {
    assert q1 / 100.0 <= q2 / 100.0;
    assert (n - 1) as real * (q2 / 100.0 - q1 / 100.0) >= 0.0;
  }

  /** The sorted position just below (or at) the rank. */
  function LowerRank(n: nat, q: real): (lo: nat)
    requires n > 0 && 0.0 <= q <= 100.0
    ensures lo < n
    ensures lo as real <= Rank(n, q) < lo as real + 1.0
  {
    var idx := Rank(n, q);
    assert (0.0).Floor <= idx.Floor;
    assert idx.Floor <= ((n - 1) as real).Floor;
    idx.Floor
  }

  /** The sorted position just above the rank, clipped to the last one. */
  function UpperRank(n: nat, q: real): (hi: nat)
    requires n > 0 && 0.0 <= q <= 100.0
    ensures LowerRank(n, q) <= hi < n
    ensures hi == LowerRank(n, q) || hi == LowerRank(n, q) + 1
    ensures hi == LowerRank(n, q) ==> Rank(n, q) == hi as real
  {
    var lo := LowerRank(n, q);
    if lo + 1 < n then lo + 1 else lo
  }

  lemma MulNonNegative(x: real, y: real)
    requires 0.0 <= x && 0.0 <= y
    ensures 0.0 <= x * y
  {
  }

  /** Linear interpolation from `a` (at t = 0) to `b` (at t = 1), numpy's `_lerp`. */
  function Lerp(a: real, b: real, t: real): (r: real)
    ensures a <= b && 0.0 <= t <= 1.0 ==> a <= r <= b
  {
    assert a <= b && 0.0 <= t <= 1.0 ==> t * (b - a) <= b - a by {
      if a <= b && 0.0 <= t <= 1.0 {
        assert (1.0 - t) * (b - a) >= 0.0;
      }
    }
    assert a <= b && 0.0 <= t ==> 0.0 <= t * (b - a) by {
      if a <= b && 0.0 <= t {
        MulNonNegative(t, b - a);
      }
    }
    a + t * (b - a)
  }

  /** Between the same two points, a later fraction never gives a smaller value. */
  lemma LerpMonotone(a: real, b: real, t1: real, t2: real)
    requires a <= b && t1 <= t2
    ensures Lerp(a, b, t1) <= Lerp(a, b, t2)
  {
    MulNonNegative(t2 - t1, b - a);
  }

  /**
   * `np.percentile(s, q)` for a non-empty `s` and `0 <= q <= 100`: it lies between the
   * sorted values at the lower and upper rank, P0 is the smallest value and P100 the largest.
   */
  function Percentile(s: seq<real>, q: real): (p: real)
    requires |s| > 0 && 0.0 <= q <= 100.0
    ensures SortAscending(s)[LowerRank(|s|, q)] <= p <= SortAscending(s)[UpperRank(|s|, q)]
    ensures q == 0.0 ==> p == SortAscending(s)[0]
    ensures q == 100.0 ==> p == SortAscending(s)[|s| - 1]
  {
    var v := SortAscending(s);
    var lo, hi := LowerRank(|s|, q), UpperRank(|s|, q);
    var t := Rank(|s|, q) - lo as real;
    InterpolateSorted(v, lo, hi, t);
    assert (q == 0.0 ==> lo == 0 && t == 0.0) && (q == 100.0 ==> lo == |s| - 1 && t == 0.0) by {
      RankEnds(|s|, q);
    }
    Lerp(v[lo], v[hi], t)
  }

  /**
   * Interpolating between two positions of an ascending list stays between their values,
   * and at fraction 0 gives the first.
   */
  lemma InterpolateSorted(v: seq<real>, lo: nat, hi: nat, t: real)
    requires Ascending(v) && lo <= hi < |v| && 0.0 <= t <= 1.0
    ensures v[lo] <= Lerp(v[lo], v[hi], t) <= v[hi]
    ensures t == 0.0 ==> Lerp(v[lo], v[hi], t) == v[lo]
  {
    assert v[lo] <= v[hi];
  }

  /** At q = 0 the rank is the first position, at q = 100 the last, with nothing to interpolate. */
  lemma RankEnds(n: nat, q: real)
    requires n > 0 && 0.0 <= q <= 100.0
    ensures q == 0.0 ==> Rank(n, q) == 0.0 && LowerRank(n, q) == 0
    ensures q == 100.0 ==> Rank(n, q) == (n - 1) as real && LowerRank(n, q) == UpperRank(n, q) == n - 1
  {
  }

  /** A percentile never leaves the range of the data: some value is at or below it, some at or above. */
  lemma PercentileInRange(s: seq<real>, q: real)
    requires |s| > 0 && 0.0 <= q <= 100.0
    ensures exists i :: 0 <= i < |s| && s[i] <= Percentile(s, q)
    ensures exists j :: 0 <= j < |s| && Percentile(s, q) <= s[j]
  {
    var v := SortAscending(s);
    var lo, hi := LowerRank(|s|, q), UpperRank(|s|, q);
    assert v[lo] in multiset(v) && v[hi] in multiset(v);
    assert v[lo] in multiset(s) && v[hi] in multiset(s);
    var i :| 0 <= i < |s| && s[i] == v[lo];
    var j :| 0 <= j < |s| && s[j] == v[hi];
  }

  /** A higher percentile is never smaller: in particular P1 <= P99. */
  lemma PercentileMonotone(s: seq<real>, q1: real, q2: real)
    requires |s| > 0 && 0.0 <= q1 <= q2 <= 100.0
    ensures Percentile(s, q1) <= Percentile(s, q2)
  {
    var n := |s|;
    RankMonotone(n, q1, q2);
    var lo1, lo2 := LowerRank(n, q1), LowerRank(n, q2);
    InterpolationMonotone(SortAscending(s), lo1, UpperRank(n, q1), Rank(n, q1) - lo1 as real,
                          lo2, UpperRank(n, q2), Rank(n, q2) - lo2 as real);
  }

  /**
   * Interpolating between neighbouring sorted values further along the list never gives
   * a smaller value.
   */
  lemma InterpolationMonotone(v: seq<real>, lo1: nat, hi1: nat, t1: real, lo2: nat, hi2: nat, t2: real)
    requires Ascending(v) && hi1 < |v| && hi2 < |v|
    requires lo1 <= hi1 <= lo1 + 1 && lo2 <= hi2 <= lo2 + 1
    requires 0.0 <= t1 <= 1.0 && 0.0 <= t2 <= 1.0
    requires lo1 < lo2 || (lo1 == lo2 && hi1 == hi2 && t1 <= t2)
    ensures Lerp(v[lo1], v[hi1], t1) <= Lerp(v[lo2], v[hi2], t2)
  {
    if lo1 == lo2 {
      LerpMonotone(v[lo1], v[hi1], t1, t2);
    } else {
      assert v[hi1] <= v[lo2];
    }
  }

  /** The percentile depends only on the values, not on the order they come in. */
  lemma PercentileOrderFree(s: seq<real>, t: seq<real>, q: real)
    requires |s| > 0 && 0.0 <= q <= 100.0
    requires multiset(s) == multiset(t)
    ensures |t| == |s|
    ensures Percentile(s, q) == Percentile(t, q)
  {
    assert |t| == |multiset(t)| == |multiset(s)| == |s|;
    assert SortAscending(s) == SortAscending(t) by {
      AscendingUnique(SortAscending(s), SortAscending(t));
    }
  }

  /**
   * With three or more values the inclusive [P1, P99] window always keeps one of them:
   * the sorted value just above the rank of P1 is still at or below P99.
   */
  lemma WindowKeepsSome(s: seq<real>)
    requires |s| >= 3
    ensures exists i :: 0 <= i < |s| && Percentile(s, 1.0) <= s[i] <= Percentile(s, 99.0)
  {
    var n := |s|;
    RankGap(n);
    var k := UpperRank(n, 1.0);
    var i := SortedSource(s, k);
    assert SortAscending(s)[k] <= SortAscending(s)[LowerRank(n, 99.0)];
  }

  /** Every sorted value comes from some position of the input. */
  lemma SortedSource(s: seq<real>, k: nat) returns (i: nat)
    requires k < |s|
    ensures i < |s| && s[i] == SortAscending(s)[k]
  {
    var v := SortAscending(s);
    assert v[k] in multiset(v);
    i :| 0 <= i < |s| && s[i] == v[k];
  }

  /** From three values on, the rank just above P1's is at or below P99's lower rank. */
  lemma RankGap(n: nat)
    requires n >= 3
    ensures UpperRank(n, 1.0) == LowerRank(n, 1.0) + 1 <= LowerRank(n, 99.0)
  {
    assert Rank(n, 99.0) - Rank(n, 1.0) == (n - 1) as real * 0.98;
    assert (n - 1) as real * 0.98 >= 1.0;
    assert LowerRank(n, 1.0) < LowerRank(n, 99.0);
  }

  /**
   * With exactly two different values the window keeps neither: P1 lies strictly above
   * the smaller one and P99 strictly below the larger one.
   */
  lemma WindowDropsPair(a: real, b: real)
    requires a != b
    ensures forall i :: 0 <= i < 2 ==> !(Percentile([a, b], 1.0) <= [a, b][i] <= Percentile([a, b], 99.0))
  {
    var lo, hi := if a < b then a else b, if a < b then b else a;
    PairPercentile(a, b, 1.0);
    PairPercentile(a, b, 99.0);
    LerpStrict(lo, hi, 0.01);
    LerpStrict(lo, hi, 0.99);
  }

  /** Between two values, a percentile below 100 interpolates from the smaller at fraction q / 100. */
  lemma PairPercentile(a: real, b: real, q: real)
    requires 0.0 <= q < 100.0
    ensures Percentile([a, b], q) == Lerp(if a < b then a else b, if a < b then b else a, q / 100.0)
  {
    SortPair(a, b);
    RanksOfTwo(q);
  }

  lemma SortPair(a: real, b: real)
    ensures SortAscending([a, b]) == [if a < b then a else b, if a < b then b else a]
  {
    var lo, hi := if a < b then a else b, if a < b then b else a;
    assert multiset([a, b]) == multiset([lo, hi]);
    AscendingUnique(SortAscending([a, b]), [lo, hi]);
  }

  lemma RanksOfTwo(q: real)
    requires 0.0 <= q < 100.0
    ensures Rank(2, q) == q / 100.0 && LowerRank(2, q) == 0 && UpperRank(2, q) == 1
  {
    assert 1.0 * (q / 100.0) == q / 100.0;
  }

  /** Strictly between two different values, interpolation lands strictly between them. */
  lemma LerpStrict(a: real, b: real, t: real)
    requires a < b && 0.0 < t < 1.0
    ensures a < Lerp(a, b, t) < b
  {
    var d := b - a;
    MulPositive(t, d);
    MulPositive(1.0 - t, d);
    assert (1.0 - t) * d == d - t * d;
    assert Lerp(a, b, t) == a + t * d;
  }

  lemma MulPositive(x: real, y: real)
    requires 0.0 < x && 0.0 < y
    ensures 0.0 < x * y
  {
  }

  /** With a single value the window is that value and keeps it. */
  lemma WindowKeepsSingle(x: real)
    ensures Percentile([x], 1.0) == x == Percentile([x], 99.0)
  {
    AscendingUnique(SortAscending([x]), [x]);
  }
}
