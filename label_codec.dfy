/**
 * Cell-type labels: numbering the distinct cell types of the training labels
 * (`type2label_dict`), translating a list of cell types into their numbers
 * (`convert_type2label`), and the inverse dictionary from numbers back to types.
 */
module LabelCodec {
  import opened Wrappers
  import opened Seqs

  type CellType = string

  /** `convert_type2label` indexes a dict with a type it does not hold: Python's `KeyError`. */
  datatype LabelError = MissingKey(key: CellType)

  /** No two cell types share a number. */
  ghost predicate Injective(d: map<CellType, int>)
  {
    forall s, t :: s in d && t in d && d[s] == d[t] ==> s == t
  }

  /**
   * What `type2label_dict(types)` promises: one entry per distinct type, numbered
   * 0 .. n-1 with every number used exactly once.
   */
  ghost predicate IsLabelDict(d: map<CellType, int>, types: seq<CellType>)
  {
    && d.Keys == (set t | t in types)
    && (forall t :: t in d ==> 0 <= d[t] < |d.Keys|)
    && Injective(d)
    && forall c :: 0 <= c < |d.Keys| ==> c in d.Values
  }

  /** `inv` sends every number of `d` back to the type that has it. */
  ghost predicate IsInverse(inv: map<int, CellType>, d: map<CellType, int>)
  {
    && inv.Keys == d.Values
    && forall c :: c in inv ==> inv[c] in d && d[inv[c]] == c
  }

  /**
   * Line 29, `list(set(types))`: the distinct types, each once, in whatever order the
   * set happens to be iterated; every property below holds for every such order.
   */
  method DistinctTypes(types: seq<CellType>) returns (all: seq<CellType>)
    ensures Distinct(all)
    ensures forall t :: t in all <==> t in types
  {
    var rest := set t | t in types;
    all := [];
    while rest != {}
      invariant Distinct(all)
      invariant forall t :: t in all ==> t !in rest
      invariant forall t :: t in all || t in rest <==> t in types
      decreases |rest|
    {
      var t :| t in rest;
      all := all + [t];
      rest := rest - {t};
    }
  }

  /** Lines 29-34, `type2label_dict`: number the distinct types by their place in the enumeration. */
  method TypeToLabelDict(types: seq<CellType>) returns (d: map<CellType, int>)
    ensures d.Keys == (set t | t in types)
    ensures forall t :: t in d ==> 0 <= d[t] < |d.Keys|
    ensures forall s, t :: s in d && t in d && d[s] == d[t] ==> s == t
    ensures forall c :: 0 <= c < |d.Keys| ==> c in d.Values
  {
    var all := DistinctTypes(types);
    d := map[];
    for i := 0 to |all|
      invariant forall t :: t in d <==> t in all[..i]
      invariant forall k :: 0 <= k < i ==> d[all[k]] == k
    {
      d := d[all[i] := i];
    }
    assert all[..|all|] == all;
    assert d.Keys == (set t | t in all);
    DistinctCardinality(all);
    assert |d.Keys| == |all|;
    forall s, t | s in d && t in d && d[s] == d[t] ensures s == t {
      var p :| 0 <= p < |all| && all[p] == s;
      var q :| 0 <= q < |all| && all[q] == t;
    }
    forall c | 0 <= c < |d.Keys| ensures c in d.Values {
      assert all[c] in all[..|all|];
      assert all[c] in d && d[all[c]] == c;
    }
  }

  /**
   * Lines 49-53, `convert_type2label`: the number of every type, in order. The first type
   * the dict lacks raises `KeyError`.
   */
  method ConvertType2Label(types: seq<CellType>, d: map<CellType, int>)
    returns (r: Result<seq<int>, LabelError>)
    ensures r.Success? <==> forall i :: 0 <= i < |types| ==> types[i] in d
    ensures r.Success? ==>
      |r.value| == |types| && forall i :: 0 <= i < |types| ==> r.value[i] == d[types[i]]
    ensures r.Failure? ==>
      && r.error.key !in d
      && exists i :: 0 <= i < |types| && types[i] == r.error.key && forall k :: 0 <= k < i ==> types[k] in d
  {
    var labels := [];
    for i := 0 to |types|
      invariant |labels| == i
      invariant forall k :: 0 <= k < i ==> types[k] in d && labels[k] == d[types[k]]
    {
      if types[i] !in d {
        return Failure(MissingKey(types[i]));
      }
      labels := labels + [d[types[i]]];
    }
    return Success(labels);
  }

  /**
   * Line 148, `{v: k for k, v in d.items()}`: every number of `d` maps to a type holding it;
   * when no two types share a number, the two dicts undo each other exactly.
   */
  method InvertDict(d: map<CellType, int>) returns (inv: map<int, CellType>)
    ensures inv.Keys == d.Values
    ensures forall c :: c in inv ==> inv[c] in d && d[inv[c]] == c
    ensures Injective(d) ==> forall t :: t in d ==> d[t] in inv && inv[d[t]] == t
  {
    inv := map[];
    var rest := d.Keys;
    while rest != {}
      invariant rest <= d.Keys
      invariant forall c :: c in inv ==> inv[c] in d && d[inv[c]] == c
      invariant forall t :: t in d && t !in rest ==> d[t] in inv
      decreases |rest|
    {
      var t :| t in rest;
      inv := inv[d[t] := t];
      rest := rest - {t};
    }
    forall c | c in d.Values ensures c in inv {
      var t :| t in d && d[t] == c;
    }
    forall c | c in inv ensures c in d.Values {
      assert inv[c] in d && d[inv[c]] == c;
    }
  }

  /**
   * The codec round trip: encoding any list of known types and decoding the numbers
   * through the inverse dict gives the list back, and two entries share a number exactly
   * when they share a type.
   */
  lemma DecodeEncoded(d: map<CellType, int>, inv: map<int, CellType>,
                      types: seq<CellType>, labels: seq<int>)
    requires Injective(d) && IsInverse(inv, d)
    requires |labels| == |types| && forall i :: 0 <= i < |types| ==> types[i] in d && labels[i] == d[types[i]]
    ensures forall i :: 0 <= i < |labels| ==> labels[i] in inv && inv[labels[i]] == types[i]
    ensures forall i, j :: 0 <= i < |labels| && 0 <= j < |labels| ==>
      (labels[i] == labels[j] <==> types[i] == types[j])
  {
    forall i | 0 <= i < |labels| ensures labels[i] in inv && inv[labels[i]] == types[i] {
      assert labels[i] in d.Values;
      assert d[inv[labels[i]]] == d[types[i]];
    }
  }

  /**
   * A helper that restates `IsLabelDict` through `|d|`, the form in which `CSV_IO` uses the
   * dict's size (lines 142 and 177).
   */
  lemma LabelDictSize(d: map<CellType, int>, types: seq<CellType>)
    requires IsLabelDict(d, types)
    ensures |d| == |set t | t in types|
    ensures forall c :: c in d.Values <==> 0 <= c < |d|
  {
    forall c | c in d.Values ensures 0 <= c < |d| {
      var t :| t in d && d[t] == c;
    }
  }
}
