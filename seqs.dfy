/**
 * Sequence helpers shared by the label codec and the matrix pipeline:
 * duplicate-freedom and numpy-style boolean-mask indexing (`s[mask]`).
 */
module Seqs {

  /** No element occurs twice. */
  predicate Distinct<T(==)>(s: seq<T>)
  {
    forall i, j :: 0 <= i < j < |s| ==> s[i] != s[j]
  }

  /** Strictly increasing positions. */
  predicate Increasing(ks: seq<nat>)
  {
    forall i, j :: 0 <= i < j < |ks| ==> ks[i] < ks[j]
  }

  /** The positions whose mask entry is set, in ascending order (`np.flatnonzero(mask)`). */
  function Kept(mask: seq<bool>): (ks: seq<nat>)
    ensures Increasing(ks)
    ensures forall k :: 0 <= k < |ks| ==> ks[k] < |mask|
    ensures forall i :: 0 <= i < |mask| ==> (mask[i] <==> i in ks)
  {
    if |mask| == 0 then []
    else
      var ks := Kept(mask[..|mask| - 1]);
      if mask[|mask| - 1] then ks + [|mask| - 1] else ks
  }

  /** The elements of `s` at positions `ks`, in that order (numpy fancy indexing `s[ks]`). */
  function Pick<T>(s: seq<T>, ks: seq<nat>): (r: seq<T>)
    requires forall k :: 0 <= k < |ks| ==> ks[k] < |s|
  {
    seq(|ks|, k requires 0 <= k < |ks| => s[ks[k]])
  }

  /** numpy boolean-mask indexing `s[mask]`: the elements whose mask entry is true, in order. */
  function Masked<T>(s: seq<T>, mask: seq<bool>): (r: seq<T>)
    requires |mask| == |s|
  {
    Pick(s, Kept(mask))
  }

  /**
   * Masking keeps a subsequence: every kept element sits at a position whose mask entry is
   * set, positions keep their order, and every set position contributes an element.
   */
  lemma MaskedIsSubsequence<T>(s: seq<T>, mask: seq<bool>)
    requires |mask| == |s|
    ensures |Masked(s, mask)| <= |s|
    ensures forall k :: 0 <= k < |Masked(s, mask)| ==>
      Kept(mask)[k] < |s| && mask[Kept(mask)[k]] && Masked(s, mask)[k] == s[Kept(mask)[k]]
    ensures forall i :: 0 <= i < |s| && mask[i] ==> s[i] in Masked(s, mask)
  {
    var ks := Kept(mask);
    KeptBound(ks, |s|);
    forall i | 0 <= i < |s| && mask[i] ensures s[i] in Masked(s, mask) {
      var k :| 0 <= k < |ks| && ks[k] == i;
      assert Masked(s, mask)[k] == s[i];
    }
  }

  /** An increasing sequence of positions below `n` has at most `n` entries. */
  lemma {:induction false} KeptBound(ks: seq<nat>, n: nat)
    requires Increasing(ks)
    requires forall k :: 0 <= k < |ks| ==> ks[k] < n
    ensures |ks| <= n
  {
    if |ks| > 0 {
      var init := ks[..|ks| - 1];
      forall k | 0 <= k < |init| ensures init[k] < ks[|ks| - 1] { }
      KeptBound(init, ks[|ks| - 1]);
    }
  }

  /** Picking increasing positions out of an increasing sequence keeps it increasing. */
  lemma PickIncreasing(s: seq<nat>, ks: seq<nat>)
    requires Increasing(s) && Increasing(ks)
    requires forall k :: 0 <= k < |ks| ==> ks[k] < |s|
    ensures Increasing(Pick(s, ks))
  {
  }


  /** Picking twice is picking once with the composed positions. */
  lemma PickPick<T>(s: seq<T>, rows: seq<nat>, ks: seq<nat>)
    requires forall k :: 0 <= k < |rows| ==> rows[k] < |s|
    requires forall k :: 0 <= k < |ks| ==> ks[k] < |rows|
    ensures Pick(Pick(s, rows), ks) == Pick(s, Pick(rows, ks))
  {
  }

  /** A duplicate-free sequence has as many distinct elements as entries. */
  lemma {:induction false} DistinctCardinality<T>(s: seq<T>)
    requires Distinct(s)
    ensures |set x | x in s| == |s|
  {
    if |s| > 0 {
      var init := s[..|s| - 1];
      DistinctCardinality(init);
      assert (set x | x in s) == (set x | x in init) + {s[|s| - 1]};
      assert s[|s| - 1] !in (set x | x in init);
    }
  }

  lemma SameMembersSameLength(a: seq<nat>, b: seq<nat>)
    requires Increasing(a) && Increasing(b)
    requires forall x :: x in a <==> x in b
    ensures |a| == |b|
  {
    DistinctCardinality(a);
    DistinctCardinality(b);
    var sa, sb := set x: nat | x in a, set x: nat | x in b;
    assert |sa| == |a| && |sb| == |b|;
    assert sa == sb;
  }

  /** An increasing sequence of positions is determined by which positions it holds. */
  lemma {:induction false} IncreasingUnique(a: seq<nat>, b: seq<nat>)
    requires Increasing(a) && Increasing(b)
    requires forall x :: x in a <==> x in b
    ensures a == b
  {
    SameMembersSameLength(a, b);
    if |a| > 0 {
      assert a[0] in b && b[0] in a;
      var i :| 0 <= i < |a| && a[i] == b[0];
      var j :| 0 <= j < |b| && b[j] == a[0];
      assert a[0] <= a[i] && b[0] <= b[j];
      forall x ensures x in a[1..] <==> x in b[1..] {
        if x in a[1..] {
          var p :| 1 <= p < |a| && a[p] == x;
          assert x != a[0] && x in b;
        }
        if x in b[1..] {
          var q :| 1 <= q < |b| && b[q] == x;
          assert x != b[0] && x in a;
        }
      }
      IncreasingUnique(a[1..], b[1..]);
      assert a == [a[0]] + a[1..] && b == [b[0]] + b[1..];
    }
  }

  /**
   * Masking a list of row positions with a mask computed row by row from a property `keep`
   * leaves exactly the positions that satisfy it, still increasing.
   */
  lemma Refine(ids: seq<nat>, mask: seq<bool>, n: nat, keep: nat -> bool)
    requires Increasing(ids) && forall k :: 0 <= k < |ids| ==> ids[k] < n
    requires |mask| == |ids|
    requires forall k :: 0 <= k < |ids| ==> (mask[k] <==> keep(ids[k]))
    ensures Increasing(Masked(ids, mask))
    ensures forall k :: 0 <= k < |Masked(ids, mask)| ==> Masked(ids, mask)[k] < n
    ensures forall r :: r in Masked(ids, mask) <==> r in ids && keep(r)
  {
    var ks := Kept(mask);
    var out := Masked(ids, mask);
    PickIncreasing(ids, ks);
    forall r ensures r in out <==> r in ids && keep(r) {
      if r in out {
        var k :| 0 <= k < |out| && out[k] == r;
        assert mask[ks[k]];
      }
      if r in ids && keep(r) {
        var i :| 0 <= i < |ids| && ids[i] == r;
        var k :| 0 <= k < |ks| && ks[k] == i;
        assert out[k] == r;
      }
    }
  }
}
