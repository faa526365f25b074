/**
 * `scale_sets`: bring several genes x samples frames onto their common genes, normalise
 * and filter the genes jointly over all samples, then cut the result back into one block
 * per input, each with its own samples.
 *
 * The arithmetic of normalisation (divide by the column sum, times 20000, log2(x + 1))
 * and the row standard deviation are parameters (`scale`, `spread`); everything that
 * decides which rows and columns end up where is modelled exactly.
 */
module Scaling {
  import opened Wrappers
  import opened Seqs
  import opened GeneOrder
  import opened Matrices
  import opened Percentiles

  /** A `pandas.DataFrame` of genes x samples: row labels, column labels and values. */
  datatype Frame = Frame(index: seq<Gene>, samples: seq<string>, values: Matrix)

  /**
   * An entry of the list `scale_sets` works on: a labelled frame on the way in,
   * a bare numpy array once it has been re-split.
   */
  datatype Table = Labelled(frame: Frame) | Plain(block: Block)

  /** Which percentile computation met an empty statistic. */
  datatype Stage = ExpressionFilter | VariationFilter

  datatype ScaleError =
    | NoSets                        // `sets[0]` of an empty list
    | EmptyStatistic(stage: Stage)  // `np.percentile` of an empty array

  /** One value per gene and sample, and each gene listed once. */
  predicate WellFormed(f: Frame)
  {
    |f.values| == |f.index| && Rect(f.values, |f.samples|) && Distinct(f.index)
  }

  function Frames(ts: seq<Table>): (fs: seq<Frame>)
    requires forall i :: 0 <= i < |ts| ==> ts[i].Labelled?
    ensures |fs| == |ts|
  {
    seq(|ts|, i requires 0 <= i < |ts| => ts[i].frame)
  }

  /** The sample counts `frame.shape[1]` of the inputs, in order. */
  function Widths(fs: seq<Frame>): (ws: seq<nat>)
    ensures |ws| == |fs|
  {
    seq(|fs|, i requires 0 <= i < |fs| => |fs[i].samples|)
  }

  /** Where gene `g` sits in an index. */
  function Position(index: seq<Gene>, g: Gene): (p: nat)
    requires g in index
    ensures p < |index| && index[p] == g
  {
    if index[|index| - 1] == g then |index| - 1 else Position(index[..|index| - 1], g)
  }

  /** The values of gene `g` across the samples of a frame (`frame.loc[g]`). */
  function RowOf(f: Frame, g: Gene): Row
    requires WellFormed(f) && g in f.index
  {
    f.values[Position(f.index, g)]
  }

  /** `frame.loc[genes,]`: the rows of the listed genes, in the listed order. */
  function Align(f: Frame, genes: seq<Gene>): (a: Frame)
    requires WellFormed(f)
    requires forall g :: g in genes ==> g in f.index
    ensures a.index == genes && a.samples == f.samples && |a.values| == |genes|
    ensures Rect(a.values, |f.samples|)
    ensures Distinct(genes) ==> WellFormed(a)
  {
    Frame(genes, f.samples,
      seq(|genes|, k requires 0 <= k < |genes| => f.values[Position(f.index, genes[k])]))
  }

  /** `common_genes` as lines 67-70 compute it: the genes of every input, sorted. */
  ghost predicate IsCommonIndex(common: seq<Gene>, fs: seq<Frame>)
  {
    && StrictlySorted(common)
    && forall g :: g in common <==> (forall i :: 0 <= i < |fs| ==> g in fs[i].index)
  }

  /** Lines 67-70: intersect the gene sets of all inputs, then sort. */
  method CommonGenes(indexes: seq<seq<Gene>>) returns (common: seq<Gene>)
    requires |indexes| > 0
    ensures StrictlySorted(common)
    ensures forall g :: g in common <==> (forall i :: 0 <= i < |indexes| ==> g in indexes[i])
  {
    var genes := set g | g in indexes[0];
    for i := 1 to |indexes|
      invariant forall g :: g in genes <==> (forall j :: 0 <= j < i ==> g in indexes[j])
    {
      genes := (set g | g in indexes[i]) * genes;
    }
    common := SortedList(genes);
  }

  /**
   * Lines 72-75: replace every entry by its rows for the common genes and record the
   * sample counts after a leading 0.
   */
  method AlignSets(sets: array<Table>, common: seq<Gene>) returns (sepPoint: seq<nat>)
    requires forall i :: 0 <= i < sets.Length ==> sets[i].Labelled? && WellFormed(sets[i].frame)
    requires Distinct(common)
    requires forall i, g :: 0 <= i < sets.Length && g in common ==> g in sets[i].frame.index
    modifies sets
    ensures sepPoint == [0] + Widths(Frames(old(sets[..])))
    ensures forall i :: 0 <= i < sets.Length ==>
      sets[i] == Labelled(Align(old(sets[i]).frame, common)) && WellFormed(sets[i].frame)
  {
    sepPoint := [0];
    for i := 0 to sets.Length
      invariant |sepPoint| == i + 1 && sepPoint[0] == 0
      invariant forall p :: 0 <= p < i ==>
        sets[p] == Labelled(Align(old(sets[p]).frame, common)) && sepPoint[p + 1] == |old(sets[p]).frame.samples|
      invariant forall p :: i <= p < sets.Length ==> sets[p] == old(sets[p])
    {
      sets[i] := Labelled(Align(sets[i].frame, common));
      sepPoint := sepPoint + [|sets[i].frame.samples|];
    }
  }

  /** Line 93: the first column of entry `i`, `sum(sep_point[:i+1])`. */
  function SplitStart(sepPoint: seq<nat>, i: nat): (s: nat)
    requires i + 1 <= |sepPoint|
    ensures s <= Total(sepPoint)
  {
    TotalMonotone(sepPoint, i + 1, |sepPoint|);
    Total(sepPoint[..i + 1])
  }

  /** Line 93: one past the last column of entry `i`, `sum(sep_point[:i+2])`. */
  function SplitEnd(sepPoint: seq<nat>, i: nat): (e: nat)
    requires i + 2 <= |sepPoint|
    ensures e == SplitStart(sepPoint, i) + sepPoint[i + 1] && e <= Total(sepPoint)
  {
    TotalStep(sepPoint, i + 1);
    TotalMonotone(sepPoint, i + 2, |sepPoint|);
    Total(sepPoint[..i + 2])
  }

  /**
   * The split points cut `[0, total)` into consecutive pieces, one per input, each exactly
   * as wide as that input: the first starts at 0, each ends where the next starts, the
   * last ends at the total width, and none is off by one.
   */
  lemma {:induction false} SplitPointsPartition(ws: seq<nat>, i: nat)
    requires i < |ws|
    ensures SplitStart([0] + ws, 0) == 0
    ensures SplitStart([0] + ws, i) == Total(ws[..i])
    ensures SplitEnd([0] + ws, i) == Total(ws[..i + 1]) == SplitStart([0] + ws, i) + ws[i]
    ensures i + 1 < |ws| ==> SplitEnd([0] + ws, i) == SplitStart([0] + ws, i + 1)
    ensures SplitEnd([0] + ws, |ws| - 1) == Total(ws)
  {
    PrefixTotal(ws, i);
    PrefixTotal(ws, i + 1);
    PrefixTotal(ws, |ws|);
    TotalStep(ws, i);
    assert ws[..|ws|] == ws;
    assert ([0] + ws)[..1] == [0] && [0][..0] == [];
  }

  /** Prefixing a 0 does not change any prefix sum. */
  lemma {:induction false} PrefixTotal(ws: seq<nat>, i: nat)
    requires i <= |ws|
    ensures Total(([0] + ws)[..i + 1]) == Total(ws[..i])
  {
    if i > 0 {
      PrefixTotal(ws, i - 1);
      var z := [0] + ws;
      assert z[..i + 1][..i] == z[..i];
      assert ws[..i][..i - 1] == ws[..i - 1];
    } else {
      assert ([0] + ws)[..1] == [0];
    }
  }

  /** The rows of the common genes of every input, as they are concatenated at line 76. */
  function AlignedBlocks(fs: seq<Frame>, common: seq<Gene>): (ms: seq<Matrix>)
    requires forall i :: 0 <= i < |fs| ==> WellFormed(fs[i])
    requires forall i, g :: 0 <= i < |fs| && g in common ==> g in fs[i].index
    ensures |ms| == |fs|
    ensures forall i :: 0 <= i < |fs| ==> |ms[i]| == |common| && Rect(ms[i], |fs[i].samples|)
  {
    seq(|fs|, i requires 0 <= i < |fs| => Align(fs[i], common).values)
  }

  /** Lines 76-78: the concatenated, normalised matrix of common genes x all samples. */
  function Combined(fs: seq<Frame>, common: seq<Gene>, scale: (real, real) -> real): (m: Matrix)
    requires forall i :: 0 <= i < |fs| ==> WellFormed(fs[i])
    requires forall i, g :: 0 <= i < |fs| && g in common ==> g in fs[i].index
    ensures |m| == |common| && Rect(m, Total(Widths(fs)))
  {
    var blocks := AlignedBlocks(fs, common);
    ConcatRect(blocks, |common|, Widths(fs));
    Rescale(Concat(blocks, |common|), Total(Widths(fs)), scale)
  }

  lemma ConcatRect(ms: seq<Matrix>, height: nat, ws: seq<nat>)
    requires |ms| == |ws|
    requires forall p :: 0 <= p < |ms| ==> |ms[p]| == height && Rect(ms[p], ws[p])
    ensures Rect(Concat(ms, height), Total(ws))
  {
    forall k | 0 <= k < height ensures |Concat(ms, height)[k]| == Total(ws) {
      JoinRowLength(seq(|ms|, p requires 0 <= p < |ms| => ms[p][k]), ws);
    }
  }

  /**
   * Each cell of the combined matrix is the rescaled value of the same gene and the same
   * sample of the input it came from, against that sample's total over the common genes.
   */
  lemma CombinedCell(fs: seq<Frame>, common: seq<Gene>, scale: (real, real) -> real, i: nat, r: nat, j: nat)
    requires forall p :: 0 <= p < |fs| ==> WellFormed(fs[p])
    requires forall p, g :: 0 <= p < |fs| && g in common ==> g in fs[p].index
    requires i < |fs| && r < |common| && j < |fs[i].samples|
    ensures common[r] in fs[i].index
    ensures Total(Widths(fs)[..i]) + j < Total(Widths(fs))
    ensures Combined(fs, common, scale)[r][Total(Widths(fs)[..i]) + j]
      == scale(RowOf(fs[i], common[r])[j], ColSum(Align(fs[i], common).values, j))
  {
    var ws := Widths(fs);
    var blocks := AlignedBlocks(fs, common);
    var c := Concat(blocks, |common|);
    var off := Total(ws[..i]);
    assert c[r][off + j] == blocks[i][r][j] && off + j < Total(ws) by {
      ConcatCell(blocks, |common|, ws, i, r, j);
    }
    assert ColSum(c, off + j) == ColSum(blocks[i], j) && Rect(c, Total(ws)) by {
      ConcatColSum(blocks, |common|, ws, i, j);
    }
    RescaleAt(c, Total(ws), scale, r, off + j);
    AlignedRow(fs[i], common, r, Position(fs[i].index, common[r]));
  }

  /**
   * Row `k` of `frame.loc[genes,]` is the row the frame labels `genes[k]`, wherever that
   * row sits in the frame; it is also what `RowOf` gives for that gene.
   */
  lemma AlignedRow(f: Frame, genes: seq<Gene>, k: nat, p: nat)
    requires WellFormed(f) && (forall g :: g in genes ==> g in f.index)
    requires k < |genes| && p < |f.index| && f.index[p] == genes[k]
    ensures Align(f, genes).values[k] == f.values[p]
    ensures RowOf(f, genes[k]) == f.values[p]
  {
    var q := Position(f.index, genes[k]);
    assert f.index[q] == f.index[p];
    assert q == p;
  }

  /** P1 of the row sums (line 80). */
  function ExprLow(m: Matrix): real
    requires |m| > 0
  {
    Percentile(RowSums(m), 1.0)
  }

  /** P99 of the row sums (line 80). */
  function ExprHigh(m: Matrix): real
    requires |m| > 0
  {
    Percentile(RowSums(m), 99.0)
  }

  /** The rows that survive the expression window and have a positive mean (lines 79-86). */
  function MidRows(m: Matrix): (mid: seq<nat>)
    ensures Increasing(mid)
    ensures forall k :: 0 <= k < |mid| ==> mid[k] < |m|
    ensures forall r :: 0 <= r < |m| ==>
      (r in mid <==> ExprLow(m) <= Sum(m[r]) <= ExprHigh(m) && PositiveMean(m[r]))
  {
    if |m| == 0 then []
    else Kept(seq(|m|, r requires 0 <= r < |m| => ExprLow(m) <= Sum(m[r]) <= ExprHigh(m) && PositiveMean(m[r])))
  }

  /**
   * How much the inclusive [P1, P99] window of lines 80 and 90 keeps: at least one entry
   * of a single value or of three or more, and nothing of exactly two different values.
   */
  lemma WindowKeeps(stats: seq<real>)
    requires |stats| > 0
    ensures |stats| == 1 || |stats| >= 3 ==>
      true in Window(stats, Percentile(stats, 1.0), Percentile(stats, 99.0))
    ensures |stats| == 2 && stats[0] != stats[1] ==>
      true !in Window(stats, Percentile(stats, 1.0), Percentile(stats, 99.0))
  {
    var mask := Window(stats, Percentile(stats, 1.0), Percentile(stats, 99.0));
    if |stats| >= 3 {
      WindowKeepsSome(stats);
      var i :| 0 <= i < |stats| && Percentile(stats, 1.0) <= stats[i] <= Percentile(stats, 99.0);
      assert mask[i];
    } else if |stats| == 1 {
      assert stats == [stats[0]];
      WindowKeepsSingle(stats[0]);
      assert mask[0];
    } else if stats[0] != stats[1] {
      assert stats == [stats[0], stats[1]];
      WindowDropsPair(stats[0], stats[1]);
    }
  }

  /** The coefficients of variation of the rows that reach line 89. */
  function MidCVs(m: Matrix, spread: Row -> real): (cvs: seq<real>)
    ensures |cvs| == |MidRows(m)|
  {
    var mid := MidRows(m);
    seq(|mid|, k requires 0 <= k < |mid| => CV(m[mid[k]], spread))
  }

  function CvLow(m: Matrix, spread: Row -> real): real
    requires |MidRows(m)| > 0
  {
    Percentile(MidCVs(m, spread), 1.0)
  }

  function CvHigh(m: Matrix, spread: Row -> real): real
    requires |MidRows(m)| > 0
  {
    Percentile(MidCVs(m, spread), 99.0)
  }

  /**
   * Lines 79-90: keep the rows whose sum lies in the inclusive [P1, P99] window, drop the
   * rows whose mean is not positive, then keep the rows whose coefficient of variation
   * lies in the [P1, P99] window of the remaining rows. Rows are only ever removed, in
   * order; the array keeps its column count even when no row is left. `np.percentile` of
   * an empty statistic fails.
   */
  method FilterRows(totalSet: Block, spread: Row -> real)
    returns (result: Result<Block, ScaleError>, ghost rows: seq<nat>)
    ensures Increasing(rows) && forall k :: 0 <= k < |rows| ==> rows[k] < |totalSet.cells|
    ensures |totalSet.cells| == 0 ==> result == Failure(EmptyStatistic(ExpressionFilter))
    ensures |totalSet.cells| > 0 && |MidRows(totalSet.cells)| == 0 ==>
      result == Failure(EmptyStatistic(VariationFilter))
    ensures |MidRows(totalSet.cells)| > 0 ==> result == Success(PickRows(totalSet, rows))
    ensures |MidRows(totalSet.cells)| > 0 ==> forall r :: 0 <= r < |totalSet.cells| ==>
      (r in rows <==> r in MidRows(totalSet.cells)
                      && CvLow(totalSet.cells, spread) <= CV(totalSet.cells[r], spread) <= CvHigh(totalSet.cells, spread))
  {
    var exprStage := ExpressionStage(totalSet.cells);
    if exprStage.Failure? {
      return Failure(exprStage.error), [];
    }
    var cvStage;
    cvStage, rows := VariationStage(totalSet.cells, exprStage.value, spread);
    if cvStage.Failure? {
      return Failure(cvStage.error), rows;
    }
    assert Block(cvStage.value, totalSet.width) == PickRows(totalSet, rows);
    result := Success(Block(cvStage.value, totalSet.width));
  }

  /**
   * Lines 79-87: keep the rows whose sum lies in the inclusive [P1, P99] window of all row
   * sums, then those with a positive mean. Only a matrix with no rows fails here.
   */
  method ExpressionStage(m: Matrix) returns (result: Result<Matrix, ScaleError>)
    ensures |m| == 0 <==> result.Failure?
    ensures result.Failure? ==> result.error == EmptyStatistic(ExpressionFilter)
    ensures result.Success? ==> result.value == Pick(m, MidRows(m))
  {
    var expr := RowSums(m);
    if |expr| == 0 {
      return Failure(EmptyStatistic(ExpressionFilter));
    }
    var keep := Window(expr, Percentile(expr, 1.0), Percentile(expr, 99.0));
    var t := Masked(m, keep);

    var meanExpr := Means(t);
    var nonZero := PositiveMask(meanExpr);
    t := Masked(t, nonZero);
    meanExpr := Masked(meanExpr, nonZero);
    assert t == Pick(m, MidRows(m)) by {
      MidStage(m, keep, nonZero);
      PickPick(m, Kept(keep), Kept(nonZero));
    }
    result := Success(t);
  }

  /**
   * Lines 89-90 on the rows `t` that lines 79-87 left of `m`: keep those whose coefficient
   * of variation lies in the inclusive [P1, P99] window of their CVs. With no row left
   * `np.percentile` fails; otherwise the result is the rows of `m` at the positions `rows`.
   */
  method VariationStage(m: Matrix, t: Matrix, spread: Row -> real)
    returns (result: Result<Matrix, ScaleError>, ghost rows: seq<nat>)
    requires t == Pick(m, MidRows(m))
    ensures Increasing(rows) && forall k :: 0 <= k < |rows| ==> rows[k] < |m|
    ensures |MidRows(m)| == 0 <==> result.Failure?
    ensures result.Failure? ==> result.error == EmptyStatistic(VariationFilter)
    ensures result.Success? ==> result.value == Pick(m, rows)
    ensures |MidRows(m)| > 0 ==> forall r :: 0 <= r < |m| ==>
      (r in rows <==> r in MidRows(m) && CvLow(m, spread) <= CV(m[r], spread) <= CvHigh(m, spread))
  {
    rows := [];
    ghost var mid := MidRows(m);
    var cv := seq(|t|, k requires 0 <= k < |t| => CV(t[k], spread));
    if |cv| == 0 {
      return Failure(EmptyStatistic(VariationFilter)), rows;
    }
    assert cv == MidCVs(m, spread);
    var keep2 := Window(cv, Percentile(cv, 1.0), Percentile(cv, 99.0));
    var kept := Masked(t, keep2);
    rows := Masked(mid, keep2);
    assert kept == Pick(m, rows) by {
      PickPick(m, mid, Kept(keep2));
    }
    CvStage(m, spread, keep2);
    result := Success(kept);
  }

  /** After lines 80 and 86 the surviving row positions are exactly `MidRows`. */
  lemma MidStage(m: Matrix, keep: seq<bool>, nonZero: seq<bool>)
    requires |m| > 0
    requires keep == Window(RowSums(m), ExprLow(m), ExprHigh(m))
    requires nonZero == PositiveMask(Means(Masked(m, keep)))
    ensures Masked(Kept(keep), nonZero) == MidRows(m)
  {
    var ids := Kept(keep);
    var t := Masked(m, keep);
    forall k | 0 <= k < |ids| ensures nonZero[k] <==> PositiveMean(m[ids[k]]) {
      assert t[k] == m[ids[k]];
    }
    Refine(ids, nonZero, |m|, (r: nat) => r < |m| && PositiveMean(m[r]));
    IncreasingUnique(Masked(ids, nonZero), MidRows(m));
  }

  /** After line 90 the surviving row positions are the mid rows inside the CV window. */
  lemma CvStage(m: Matrix, spread: Row -> real, keep2: seq<bool>)
    requires |MidRows(m)| > 0
    requires keep2 == Window(MidCVs(m, spread), CvLow(m, spread), CvHigh(m, spread))
    ensures Increasing(Masked(MidRows(m), keep2))
    ensures forall k :: 0 <= k < |Masked(MidRows(m), keep2)| ==> Masked(MidRows(m), keep2)[k] < |m|
    ensures forall r :: 0 <= r < |m| ==>
      (r in Masked(MidRows(m), keep2) <==> r in MidRows(m)
                                           && CvLow(m, spread) <= CV(m[r], spread) <= CvHigh(m, spread))
  {
    var mid := MidRows(m);
    var lo, hi := CvLow(m, spread), CvHigh(m, spread);
    Refine(mid, keep2, |m|, (r: nat) => r < |m| && PositiveMean(m[r]) && lo <= CV(m[r], spread) <= hi);
  }

  /**
   * Lines 67-78: intersect and sort the gene indexes, align every entry on them in place,
   * record the split points, and combine and normalise all samples side by side.
   */
  method CombineSets(sets: array<Table>, scale: (real, real) -> real)
    returns (totalSet: Block, sepPoint: seq<nat>, ghost common: seq<Gene>)
    requires sets.Length > 0
    requires forall i :: 0 <= i < sets.Length ==> sets[i].Labelled? && WellFormed(sets[i].frame)
    modifies sets
    ensures IsCommonIndex(common, Frames(old(sets[..])))
    ensures forall i, g :: 0 <= i < sets.Length && g in common ==> g in old(sets[i]).frame.index
    ensures forall i :: 0 <= i < sets.Length ==>
      sets[i] == Labelled(Align(old(sets[i]).frame, common)) && WellFormed(sets[i].frame)
    ensures sepPoint == [0] + Widths(Frames(old(sets[..])))
    ensures totalSet == Block(Combined(Frames(old(sets[..])), common, scale), Total(sepPoint))
  {
    var fs := Frames(sets[..]);
    var indexes := seq(|fs|, i requires 0 <= i < |fs| => fs[i].index);
    var genes := CommonGenes(indexes);
    common := genes;
    StrictlySortedDistinct(genes);
    assert forall i :: 0 <= i < sets.Length ==> indexes[i] == sets[i].frame.index;
    assert forall i, g :: 0 <= i < sets.Length && g in genes ==> g in indexes[i];
    sepPoint := AlignSets(sets, genes);
    var aligned := Frames(sets[..]);
    var blocks := seq(|aligned|, i requires 0 <= i < |aligned| => aligned[i].values);
    assert blocks == AlignedBlocks(fs, common);
    var joined := Concat(blocks, |genes|);
    var ws := Widths(fs);
    ConcatRect(blocks, |genes|, ws);
    LeadingZero(ws);
    totalSet := Block(Rescale(joined, Total(sepPoint), scale), Total(sepPoint));
  }

  /** Lines 92-93: cut the filtered matrix back into one block of columns per entry. */
  method Resplit(sets: array<Table>, totalSet: Block, sepPoint: seq<nat>)
    requires |sepPoint| == sets.Length + 1
    requires Shaped(totalSet) && totalSet.width == Total(sepPoint)
    modifies sets
    ensures forall i :: 0 <= i < sets.Length ==>
      sets[i] == Plain(SliceBlock(totalSet, SplitStart(sepPoint, i), SplitEnd(sepPoint, i)))
  {
    for i := 0 to sets.Length
      invariant forall p :: 0 <= p < i ==>
        sets[p] == Plain(SliceBlock(totalSet, SplitStart(sepPoint, p), SplitEnd(sepPoint, p)))
    {
      sets[i] := Plain(SliceBlock(totalSet, SplitStart(sepPoint, i), SplitEnd(sepPoint, i)));
    }
  }

  /** A leading 0 does not change the sum of the split points. */
  lemma LeadingZero(ws: seq<nat>)
    ensures Total([0] + ws) == Total(ws)
  {
    PrefixTotal(ws, |ws|);
    assert ws[..|ws|] == ws && ([0] + ws)[..|ws| + 1] == [0] + ws;
  }

  /**
   * `total_set` as line 92 sees it: the rows of the combined matrix at positions `rows`,
   * with every column of every input.
   */
  ghost function Filtered(fs: seq<Frame>, common: seq<Gene>, scale: (real, real) -> real, rows: seq<nat>): (b: Block)
    requires forall p :: 0 <= p < |fs| ==> WellFormed(fs[p])
    requires forall p, g :: 0 <= p < |fs| && g in common ==> g in fs[p].index
    requires forall q :: 0 <= q < |rows| ==> rows[q] < |common|
    ensures Shaped(b) && |b.cells| == |rows| && b.width == Total([0] + Widths(fs))
  {
    LeadingZero(Widths(fs));
    PickRows(Block(Combined(fs, common, scale), Total(Widths(fs))), rows)
  }

  /**
   * Re-splitting the filtered rows by the split points gives every input back its own
   * samples: block `i` is exactly as wide as input `i`, and its cell (k, j) is the
   * rescaled value of the k-th surviving gene in the j-th sample of input `i`.
   */
  lemma ResplitCell(fs: seq<Frame>, common: seq<Gene>, scale: (real, real) -> real, rows: seq<nat>,
                    i: nat, k: nat, j: nat)
    requires forall p :: 0 <= p < |fs| ==> WellFormed(fs[p])
    requires forall p, g :: 0 <= p < |fs| && g in common ==> g in fs[p].index
    requires forall q :: 0 <= q < |rows| ==> rows[q] < |common|
    requires i < |fs| && k < |rows| && j < |fs[i].samples|
    ensures SplitEnd([0] + Widths(fs), i) - SplitStart([0] + Widths(fs), i) == |fs[i].samples|
    ensures common[rows[k]] in fs[i].index
    ensures SliceBlock(Filtered(fs, common, scale, rows),
                       SplitStart([0] + Widths(fs), i), SplitEnd([0] + Widths(fs), i)).cells[k][j]
            == scale(RowOf(fs[i], common[rows[k]])[j], ColSum(Align(fs[i], common).values, j))
  {
    var ws := Widths(fs);
    var sp := [0] + ws;
    var lo, hi := SplitStart(sp, i), SplitEnd(sp, i);
    assert lo == Total(ws[..i]) by {
      SplitPointsPartition(ws, i);
    }
    var b := Filtered(fs, common, scale, rows);
    SliceAt(b, lo, hi, k, j);
    assert b.cells[k] == Combined(fs, common, scale)[rows[k]];
    CombinedCell(fs, common, scale, i, rows[k], j);
  }

  /** The blocks lines 92-93 cut out of the filtered rows are the blocks `ResplitBlocks` describes. */
  lemma ResplitCorrect(fs: seq<Frame>, common: seq<Gene>, scale: (real, real) -> real, rows: seq<nat>,
                       ts: seq<Table>)
    requires forall p :: 0 <= p < |fs| ==> WellFormed(fs[p])
    requires forall p, g :: 0 <= p < |fs| && g in common ==> g in fs[p].index
    requires forall q :: 0 <= q < |rows| ==> rows[q] < |common|
    requires |ts| == |fs|
    requires forall i :: 0 <= i < |ts| ==>
      ts[i] == Plain(SliceBlock(Filtered(fs, common, scale, rows),
                                SplitStart([0] + Widths(fs), i), SplitEnd([0] + Widths(fs), i)))
    ensures ResplitBlocks(ts, fs, common, scale, rows)
  {
    forall i | 0 <= i < |fs| ensures BlockOf(ts[i], fs[i], common, scale, rows) {
      ResplitOne(fs, common, scale, rows, i, ts[i]);
    }
  }

  /** Block `i` cut out at lines 92-93 is input `i`'s block of surviving genes. */
  lemma ResplitOne(fs: seq<Frame>, common: seq<Gene>, scale: (real, real) -> real, rows: seq<nat>,
                   i: nat, t: Table)
    requires forall p :: 0 <= p < |fs| ==> WellFormed(fs[p])
    requires forall p, g :: 0 <= p < |fs| && g in common ==> g in fs[p].index
    requires forall q :: 0 <= q < |rows| ==> rows[q] < |common|
    requires i < |fs|
    requires t == Plain(SliceBlock(Filtered(fs, common, scale, rows),
                                   SplitStart([0] + Widths(fs), i), SplitEnd([0] + Widths(fs), i)))
    ensures BlockOf(t, fs[i], common, scale, rows)
  {
    assert ([0] + Widths(fs))[i + 1] == |fs[i].samples|;
    assert forall g :: g in common ==> g in fs[i].index;
    forall k, j | 0 <= k < |rows| && 0 <= j < |fs[i].samples|
      ensures t.block.cells[k][j]
              == scale(RowOf(fs[i], common[rows[k]])[j], ColSum(Align(fs[i], common).values, j))
    {
      ResplitCell(fs, common, scale, rows, i, k, j);
    }
  }

  /** The survivors of both filters, as positions in the combined matrix `n`. */
  ghost predicate Survivors(rows: seq<nat>, n: Matrix, spread: Row -> real)
  {
    && |MidRows(n)| > 0
    && Increasing(rows) && (forall k :: 0 <= k < |rows| ==> rows[k] < |n|)
    && forall r :: 0 <= r < |n| ==>
         (r in rows <==> r in MidRows(n) && CvLow(n, spread) <= CV(n[r], spread) <= CvHigh(n, spread))
  }

  /**
   * `t` is a re-split block for frame `f`: an array with `f`'s sample count as its width and
   * one row per surviving gene, holding that gene's rescaled values in `f`.
   */
  ghost predicate BlockOf(t: Table, f: Frame, common: seq<Gene>, scale: (real, real) -> real, rows: seq<nat>)
  {
    && WellFormed(f) && (forall g :: g in common ==> g in f.index)
    && (forall q :: 0 <= q < |rows| ==> rows[q] < |common|)
    && t.Plain? && Shaped(t.block)
    && |t.block.cells| == |rows| && t.block.width == |f.samples|
    && forall k, j :: 0 <= k < |rows| && 0 <= j < |f.samples| ==>
         assert common[rows[k]] in common;
         t.block.cells[k][j] == scale(RowOf(f, common[rows[k]])[j], ColSum(Align(f, common).values, j))
  }

  /** Entry `i` of the result is input `i`'s block of surviving genes. */
  ghost predicate ResplitBlocks(ts: seq<Table>, fs: seq<Frame>, common: seq<Gene>,
                                scale: (real, real) -> real, rows: seq<nat>)
  {
    && |ts| == |fs|
    && forall i :: 0 <= i < |fs| ==> BlockOf(ts[i], fs[i], common, scale, rows)
  }

  /**
   * `scale_sets(sets)`, working on the caller's list in place. On success every entry has
   * become the block of its own samples (columns, in their original order) over the genes
   * that survived both filters (rows, in sorted gene order); each cell is the rescaled
   * value of that gene and sample in the input.
   */
  method ScaleSets(sets: array<Table>, scale: (real, real) -> real, spread: Row -> real)
    returns (outcome: Outcome<ScaleError>, ghost common: seq<Gene>, ghost rows: seq<nat>)
    requires forall i :: 0 <= i < sets.Length ==> sets[i].Labelled? && WellFormed(sets[i].frame)
    modifies sets
    ensures sets.Length == 0 <==> outcome == Fail(NoSets)
    ensures sets.Length > 0 ==> IsCommonIndex(common, Frames(old(sets[..])))
    ensures forall i, g :: 0 <= i < sets.Length && g in common ==> g in old(sets[i]).frame.index
    ensures sets.Length > 0 && outcome.Fail? ==>
      && outcome.error == EmptyStatistic(if |common| == 0 then ExpressionFilter else VariationFilter)
      && (|common| > 0 ==> |MidRows(Combined(Frames(old(sets[..])), common, scale))| == 0)
      && forall i :: 0 <= i < sets.Length ==> sets[i] == Labelled(Align(old(sets[i]).frame, common))
    ensures outcome.Pass? ==>
      && sets.Length > 0 && |common| > 0
      && Survivors(rows, Combined(Frames(old(sets[..])), common, scale), spread)
      && ResplitBlocks(sets[..], Frames(old(sets[..])), common, scale, rows)
  {
    if sets.Length == 0 {
      return Fail(NoSets), [], [];
    }
    ghost var fs := Frames(sets[..]);
    var totalSet, sepPoint;
    totalSet, sepPoint, common := CombineSets(sets, scale);
    var filtered;
    filtered, rows := FilterRows(totalSet, spread);
    if filtered.Failure? {
      return Fail(filtered.error), common, rows;
    }
    assert forall p :: 0 <= p < |fs| ==> WellFormed(fs[p]);
    assert forall p, g :: 0 <= p < |fs| && g in common ==> g in fs[p].index;
    assert Survivors(rows, totalSet.cells, spread);
    assert filtered.value == Filtered(fs, common, scale, rows);
    Resplit(sets, filtered.value, sepPoint);
    ResplitCorrect(fs, common, scale, rows, sets[..]);
    outcome := Pass;
  }
}
