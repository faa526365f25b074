/**
 * Gene identifiers and the order Python's `sorted` puts them in: strings compare
 * lexicographically by code point, and a proper prefix comes first.
 */
module GeneOrder {
  import opened Seqs

  type Gene = string

  /** Python's `a < b` on `str`. */
  predicate Below(a: string, b: string)
  {
    if |a| == 0 then |b| > 0
    else if |b| == 0 then false
    else a[0] < b[0] || (a[0] == b[0] && Below(a[1..], b[1..]))
  }

  lemma {:induction false} BelowIrreflexive(a: string)
    ensures !Below(a, a)
  {
    if |a| > 0 {
      BelowIrreflexive(a[1..]);
    }
  }

  lemma {:induction false} BelowTransitive(a: string, b: string, c: string)
    requires Below(a, b) && Below(b, c)
    ensures Below(a, c)
  {
    if |a| > 0 && a[0] == b[0] && b[0] == c[0] {
      BelowTransitive(a[1..], b[1..], c[1..]);
    }
  }

  /** Any two different identifiers are ordered one way or the other. */
  lemma {:induction false} BelowTotal(a: string, b: string)
    requires a != b
    ensures Below(a, b) || Below(b, a)
  {
    if |a| > 0 && |b| > 0 && a[0] == b[0] {
      assert a == [a[0]] + a[1..] && b == [b[0]] + b[1..];
      BelowTotal(a[1..], b[1..]);
    }
  }

  lemma BelowAsymmetric(a: string, b: string)
    requires Below(a, b)
    ensures !Below(b, a)
  {
    if Below(b, a) {
      BelowTransitive(a, b, a);
      BelowIrreflexive(a);
    }
  }

  /** Sorted in ascending order with no repeats. */
  predicate StrictlySorted(xs: seq<Gene>)
  {
    forall i, j :: 0 <= i < j < |xs| ==> Below(xs[i], xs[j])
  }

  lemma StrictlySortedDistinct(xs: seq<Gene>)
    requires StrictlySorted(xs)
    ensures Distinct(xs)
  {
    forall i, j | 0 <= i < j < |xs| ensures xs[i] != xs[j] {
      BelowIrreflexive(xs[i]);
    }
  }

  /**
   * A strictly sorted list is determined by its elements: whatever order a set was
   * enumerated in, sorting it gives one and the same list.
   */
  lemma {:induction false} SortedUnique(a: seq<Gene>, b: seq<Gene>)
    requires StrictlySorted(a) && StrictlySorted(b)
    requires forall g :: g in a <==> g in b
    ensures a == b
  {
    StrictlySortedDistinct(a);
    StrictlySortedDistinct(b);
    DistinctCardinality(a);
    DistinctCardinality(b);
    assert (set g | g in a) == (set g | g in b);
    if |a| > 0 {
      assert a[0] in b;
      if a[0] != b[0] {
        assert b[0] in a;
        var i :| 0 <= i < |a| && a[i] == b[0];
        var j :| 0 <= j < |b| && b[j] == a[0];
        assert Below(a[0], b[0]);
        assert Below(b[0], a[0]);
        BelowAsymmetric(a[0], b[0]);
      }
      forall g ensures g in a[1..] <==> g in b[1..] {
        if g in a[1..] {
          var i :| 1 <= i < |a| && a[i] == g;
          BelowIrreflexive(a[0]);
          assert g != b[0];
          assert g in b;
        }
        if g in b[1..] {
          var j :| 1 <= j < |b| && b[j] == g;
          BelowIrreflexive(b[0]);
          assert g != a[0];
          assert g in a;
        }
      }
      SortedUnique(a[1..], b[1..]);
      assert a == [a[0]] + a[1..] && b == [b[0]] + b[1..];
    }
  }

  /** Inserts a new identifier at its place in a strictly sorted list. */
  method Insert(xs: seq<Gene>, g: Gene) returns (ys: seq<Gene>)
    requires StrictlySorted(xs) && g !in xs
    ensures StrictlySorted(ys)
    ensures forall h :: h in ys <==> h in xs || h == g
  {
    var i := 0;
    while i < |xs| && Below(xs[i], g)
      invariant 0 <= i <= |xs|
      invariant forall k :: 0 <= k < i ==> Below(xs[k], g)
    {
      i := i + 1;
    }
    if i < |xs| {
      assert xs[i] != g;
      BelowTotal(xs[i], g);
    }
    forall k | i <= k < |xs| ensures Below(g, xs[k]) {
      if k > i {
        BelowTransitive(g, xs[i], xs[k]);
      }
    }
    ys := xs[..i] + [g] + xs[i..];
    forall p, q | 0 <= p < q < |ys| ensures Below(ys[p], ys[q]) {
      if q < i {
      } else if p < i && q == i {
      } else if p < i && q > i {
        assert ys[q] == xs[q - 1];
      } else if p == i {
        assert ys[q] == xs[q - 1];
      } else {
        assert ys[p] == xs[p - 1] && ys[q] == xs[q - 1];
      }
    }
    assert forall h :: h in ys <==> h in xs[..i] || h == g || h in xs[i..];
    assert xs == xs[..i] + xs[i..];
  }

  /** `sorted(list(s))`: the elements of a set as a strictly sorted list. */
  method SortedList(s: set<Gene>) returns (xs: seq<Gene>)
    ensures StrictlySorted(xs)
    ensures forall g :: g in xs <==> g in s
  {
    xs := [];
    var rest := s;
    while rest != {}
      invariant rest <= s
      invariant StrictlySorted(xs)
      invariant forall g :: g in xs <==> g in s && g !in rest
      decreases |rest|
    {
      var g :| g in rest;
      xs := Insert(xs, g);
      rest := rest - {g};
    }
  }
}
