/**
 * Expression matrices as rows of reals (one row per gene, one column per sample),
 * with the whole-array operations the pipeline applies to them: row and column sums,
 * horizontal concatenation, column slices and the per-row statistics.
 */
module Matrices {
  import opened Wrappers
  import opened Seqs

  type Row = seq<real>
  type Matrix = seq<Row>

  /** Every row has `width` columns. */
  predicate Rect(m: Matrix, width: nat)
  {
    forall r :: 0 <= r < |m| ==> |m[r]| == width
  }

  /** `np.sum` of a row. */
  function Sum(xs: Row): real
  {
    if |xs| == 0 then 0.0 else Sum(xs[..|xs| - 1]) + xs[|xs| - 1]
  }

  /** The sum of column `c` over all rows (`np.sum(m, axis=0)[c]`). */
  function ColSum(m: Matrix, c: nat): real
    requires forall r :: 0 <= r < |m| ==> c < |m[r]|
  {
    if |m| == 0 then 0.0 else ColSum(m[..|m| - 1], c) + m[|m| - 1][c]
  }

  /** Two columns that agree cell by cell have the same total. */
  lemma {:induction false} ColSumAgree(a: Matrix, c: nat, b: Matrix, d: nat)
    requires |a| == |b|
    requires forall r :: 0 <= r < |a| ==> c < |a[r]| && d < |b[r]| && a[r][c] == b[r][d]
    ensures ColSum(a, c) == ColSum(b, d)
  {
    if |a| > 0 {
      ColSumAgree(a[..|a| - 1], c, b[..|b| - 1], d);
    }
  }

  /** `sum(ws)`: the sum of a list of counts. */
  function Total(ws: seq<nat>): nat
  {
    if |ws| == 0 then 0 else Total(ws[..|ws| - 1]) + ws[|ws| - 1]
  }

  /** Extending a prefix by one count adds that count. */
  lemma TotalStep(ws: seq<nat>, i: nat)
    requires i < |ws|
    ensures Total(ws[..i + 1]) == Total(ws[..i]) + ws[i]
  {
    assert ws[..i + 1][..i] == ws[..i];
  }

  /** Prefix sums grow with the prefix and never pass the whole sum. */
  lemma {:induction false} TotalMonotone(ws: seq<nat>, i: nat, j: nat)
    requires i <= j <= |ws|
    ensures Total(ws[..i]) <= Total(ws[..j]) <= Total(ws)
  {
    if j < |ws| {
      TotalMonotone(ws[..|ws| - 1], i, j);
      assert ws[..|ws| - 1][..i] == ws[..i];
      assert ws[..|ws| - 1][..j] == ws[..j];
    } else {
      assert ws[..j] == ws;
      if i < j {
        TotalMonotone(ws[..|ws| - 1], i, j - 1);
        assert ws[..|ws| - 1][..i] == ws[..i];
        assert ws[..|ws| - 1][..j - 1] == ws[..|ws| - 1];
      }
    }
  }

  /** The pieces of one row, laid side by side in order. */
  function JoinRow(parts: seq<Row>): Row
  {
    if |parts| == 0 then [] else JoinRow(parts[..|parts| - 1]) + parts[|parts| - 1]
  }

  /**
   * Piece `i` of a joined row sits exactly between the prefix sums of the piece widths
   * before it and up to it: no cell of a neighbour leaks into it.
   */
  lemma {:induction false} JoinRowSlice(parts: seq<Row>, ws: seq<nat>, i: nat)
    requires |parts| == |ws| && i < |ws|
    requires forall p :: 0 <= p < |parts| ==> |parts[p]| == ws[p]
    ensures |JoinRow(parts)| == Total(ws)
    ensures Total(ws[..i]) <= Total(ws[..i + 1]) <= Total(ws)
    ensures JoinRow(parts)[Total(ws[..i])..Total(ws[..i + 1])] == parts[i]
  {
    var n := |parts| - 1;
    var initP, initW := parts[..n], ws[..n];
    TotalMonotone(ws, i, i + 1);
    TotalStep(ws, i);
    if i < n {
      JoinRowSlice(initP, initW, i);
      assert initW[..i] == ws[..i] && initW[..i + 1] == ws[..i + 1];
    } else {
      JoinRowLength(initP, initW);
      assert initW == ws[..i];
    }
  }

  lemma {:induction false} JoinRowLength(parts: seq<Row>, ws: seq<nat>)
    requires |parts| == |ws|
    requires forall p :: 0 <= p < |parts| ==> |parts[p]| == ws[p]
    ensures |JoinRow(parts)| == Total(ws)
  {
    if |parts| > 0 {
      JoinRowLength(parts[..|parts| - 1], ws[..|ws| - 1]);
    }
  }

  /** `pd.concat(ms, axis=1)` of row-aligned matrices with `height` rows each. */
  function Concat(ms: seq<Matrix>, height: nat): (m: Matrix)
    requires forall i :: 0 <= i < |ms| ==> |ms[i]| == height
    ensures |m| == height
  {
    seq(height, k requires 0 <= k < height =>
      JoinRow(seq(|ms|, i requires 0 <= i < |ms| => ms[i][k])))
  }

  /** Input `i` occupies columns `[Total(ws[..i]), Total(ws[..i+1]))` of every row of the concatenation. */
  lemma ConcatSlice(ms: seq<Matrix>, height: nat, ws: seq<nat>, i: nat)
    requires |ms| == |ws| && i < |ms|
    requires forall p :: 0 <= p < |ms| ==> |ms[p]| == height && Rect(ms[p], ws[p])
    ensures Rect(Concat(ms, height), Total(ws))
    ensures Total(ws[..i]) <= Total(ws[..i + 1]) <= Total(ws)
    ensures forall k :: 0 <= k < height ==>
      Concat(ms, height)[k][Total(ws[..i])..Total(ws[..i + 1])] == ms[i][k]
  {
    var m := Concat(ms, height);
    TotalMonotone(ws, i, i + 1);
    forall k | 0 <= k < height
      ensures |m[k]| == Total(ws)
      ensures m[k][Total(ws[..i])..Total(ws[..i + 1])] == ms[i][k]
    {
      var parts := seq(|ms|, p requires 0 <= p < |ms| => ms[p][k]);
      JoinRowSlice(parts, ws, i);
    }
  }

  /** Cell `j` of input `i` sits at column `Total(ws[..i]) + j` of the concatenation. */
  lemma ConcatCell(ms: seq<Matrix>, height: nat, ws: seq<nat>, i: nat, r: nat, j: nat)
    requires |ms| == |ws| && i < |ms| && r < height && j < ws[i]
    requires forall p :: 0 <= p < |ms| ==> |ms[p]| == height && Rect(ms[p], ws[p])
    ensures Total(ws[..i]) + j < Total(ws) == |Concat(ms, height)[r]|
    ensures |ms[i]| == height && |ms[i][r]| == ws[i]
    ensures Concat(ms, height)[r][Total(ws[..i]) + j] == ms[i][r][j]
  {
    ConcatSlice(ms, height, ws, i);
    TotalStep(ws, i);
    var m := Concat(ms, height);
    assert m[r][Total(ws[..i])..Total(ws[..i + 1])][j] == ms[i][r][j];
  }

  /** A column of input `i` keeps its total inside the concatenation. */
  lemma ConcatColSum(ms: seq<Matrix>, height: nat, ws: seq<nat>, i: nat, j: nat)
    requires |ms| == |ws| && i < |ms| && j < ws[i]
    requires forall p :: 0 <= p < |ms| ==> |ms[p]| == height && Rect(ms[p], ws[p])
    ensures Rect(Concat(ms, height), Total(ws))
    ensures Total(ws[..i]) + j < Total(ws) && Rect(ms[i], ws[i])
    ensures ColSum(Concat(ms, height), Total(ws[..i]) + j) == ColSum(ms[i], j)
  {
    ConcatSlice(ms, height, ws, i);
    TotalStep(ws, i);
    var m := Concat(ms, height);
    var c := Total(ws[..i]) + j;
    forall r | 0 <= r < height ensures m[r][c] == ms[i][r][j] {
      ConcatCell(ms, height, ws, i, r, j);
    }
    ColSumAgree(m, c, ms[i], j);
  }

  /** `m[:, lo:hi]`: the same rows, cut to columns `[lo, hi)`. */
  function SliceCols(m: Matrix, lo: nat, hi: nat): (s: Matrix)
    requires lo <= hi
    requires forall r :: 0 <= r < |m| ==> hi <= |m[r]|
    ensures |s| == |m| && Rect(s, hi - lo)
  {
    seq(|m|, r requires 0 <= r < |m| => m[r][lo..hi])
  }

  /**
   * Per-cell rescaling given the column total (lines 77-78 of the source: divide by the
   * column sum, multiply by 20000, take log2(x + 1)); the arithmetic itself is the
   * parameter `scale`.
   */
  function Rescale(m: Matrix, width: nat, scale: (real, real) -> real): (s: Matrix)
    requires Rect(m, width)
    ensures |s| == |m| && Rect(s, width)
  {
    seq(|m|, r requires 0 <= r < |m| =>
      seq(width, c requires 0 <= c < width => scale(m[r][c], ColSum(m, c))))
  }

  lemma RescaleAt(m: Matrix, width: nat, scale: (real, real) -> real, r: nat, c: nat)
    requires Rect(m, width) && r < |m| && c < width
    ensures Rescale(m, width, scale)[r][c] == scale(m[r][c], ColSum(m, c))
  {
  }

  /**
   * Rescaling treats every column on its own: two columns with the same cells, in two
   * matrices of the same height, come out the same whatever the other columns hold.
   */
  lemma RescaleColumnwise(a: Matrix, wa: nat, c: nat, b: Matrix, wb: nat, d: nat,
                          scale: (real, real) -> real)
    requires Rect(a, wa) && Rect(b, wb) && |a| == |b| && c < wa && d < wb
    requires forall r :: 0 <= r < |a| ==> a[r][c] == b[r][d]
    ensures forall r :: 0 <= r < |a| ==> Rescale(a, wa, scale)[r][c] == Rescale(b, wb, scale)[r][d]
  {
    ColSumAgree(a, c, b, d);
  }

  /**
   * A 2-D numpy array: its rows, and its column count, which it keeps even when it has
   * no rows left (`shape == (0, width)`).
   */
  datatype Block = Block(cells: Matrix, width: nat)

  /** Every row of the block has the block's column count. */
  predicate Shaped(b: Block)
  {
    Rect(b.cells, b.width)
  }

  /**
   * `b[mask, :]` with the mask given by its set positions `ks`: the rows at those
   * positions, in that order, and every column; the column count survives even when no
   * row does.
   */
  function PickRows(b: Block, ks: seq<nat>): (r: Block)
    requires forall k :: 0 <= k < |ks| ==> ks[k] < |b.cells|
    ensures r.width == b.width && |r.cells| == |ks|
    ensures Shaped(b) ==> Shaped(r)
    ensures forall k :: 0 <= k < |ks| ==> r.cells[k] == b.cells[ks[k]]
  {
    Block(Pick(b.cells, ks), b.width)
  }

  /**
   * `b[:, lo:hi]`: every row, cut to columns `[lo, hi)`; the result has `hi - lo`
   * columns and as many rows as `b`, also when `b` has none.
   */
  function SliceBlock(b: Block, lo: nat, hi: nat): (s: Block)
    requires Shaped(b) && lo <= hi <= b.width
    ensures Shaped(s) && s.width == hi - lo && |s.cells| == |b.cells|
  {
    Block(SliceCols(b.cells, lo, hi), hi - lo)
  }

  /** Cell `(k, j)` of a column slice is cell `(k, lo + j)` of the block it was cut from. */
  lemma SliceAt(b: Block, lo: nat, hi: nat, k: nat, j: nat)
    requires Shaped(b) && lo <= hi <= b.width && k < |b.cells| && j < hi - lo
    ensures SliceBlock(b, lo, hi).cells[k][j] == b.cells[k][lo + j]
  {
  }

  /** `np.sum(m, axis=1)`: one total per row. */
  function RowSums(m: Matrix): (s: seq<real>)
    ensures |s| == |m|
  {
    seq(|m|, r requires 0 <= r < |m| => Sum(m[r]))
  }

  /** `np.mean` of a row; numpy's mean of no values is NaN, here `None`. */
  function Mean(row: Row): Option<real>
  {
    if |row| == 0 then None else Some(Sum(row) / |row| as real)
  }

  /** `mean > 0` as numpy evaluates it: false for NaN. */
  predicate PositiveMean(row: Row)
  {
    Mean(row).Some? && Mean(row).value > 0.0
  }

  /** `np.mean(m, axis=1)`. */
  function Means(m: Matrix): (s: seq<Option<real>>)
    ensures |s| == |m|
  {
    seq(|m|, r requires 0 <= r < |m| => Mean(m[r]))
  }

  /** `means > 0` element by element (line 85); NaN compares false. */
  function PositiveMask(means: seq<Option<real>>): (mask: seq<bool>)
    ensures |mask| == |means|
  {
    seq(|means|, k requires 0 <= k < |means| => means[k].Some? && means[k].value > 0.0)
  }

  /**
   * `np.mean(m, axis=1) > 0` holds for a row exactly when the row has cells and a
   * positive sum: an empty row's NaN mean fails the comparison.
   */
  lemma PositiveMaskOfMeans(m: Matrix)
    ensures |PositiveMask(Means(m))| == |m|
    ensures forall r :: 0 <= r < |m| ==> (PositiveMask(Means(m))[r] <==> |m[r]| > 0 && Sum(m[r]) > 0.0)
  {
    forall r | 0 <= r < |m| ensures PositiveMask(Means(m))[r] <==> |m[r]| > 0 && Sum(m[r]) > 0.0 {
      if |m[r]| > 0 {
        QuotientPositive(Sum(m[r]), |m[r]| as real);
      }
    }
  }

  /** Dividing by a positive count keeps the sign. */
  lemma QuotientPositive(x: real, n: real)
    requires n > 0.0
    ensures x / n > 0.0 <==> x > 0.0
  {
    assert x / n * n == x;
  }

  /**
   * Coefficient of variation of a row with a positive mean: spread (the source's
   * `np.std`, a parameter here) over mean.
   */
  function CV(row: Row, spread: Row -> real): real
    requires PositiveMean(row)
  {
    spread(row) / Mean(row).value
  }

  /** `np.logical_and(s >= lo, s <= hi)`: the inclusive window mask. */
  function Window(stats: seq<real>, lo: real, hi: real): (mask: seq<bool>)
    ensures |mask| == |stats|
  {
    seq(|stats|, i requires 0 <= i < |stats| => lo <= stats[i] <= hi)
  }
}
