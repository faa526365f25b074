# ACTINN `CSV_IO` data preparation, modelled in Dafny

ACTINN classifies single cells by type. `ACTINN/Data_IO/CSV_IO.py` prepares its inputs in four steps:

1. It reads a training and a test expression frame (genes x cells).
2. It upper-cases the gene names and keeps the first row of every name.
3. It scales both frames together with `scale_sets`. This step:
   - intersects and sorts the gene indexes;
   - aligns every frame on that index and records the split points `sep_point`;
   - concatenates the frames side by side and normalises them;
   - filters the genes by a [P1, P99] window on row sums;
   - drops the genes whose mean is not positive;
   - filters the rest by a [P1, P99] window on the coefficient of variation;
   - cuts the result back into one block per input.
4. It numbers the training cell types (`type2label_dict`), inverts that dictionary, and converts both label lists (`convert_type2label`).

This project models steps 2 to 4. The numeric parts are parameters. Which genes are kept and which columns end up in which block are modelled exactly. The number each type gets depends on set iteration order, so the codec leaves the numbering open and proves every property for any numbering.

Modules and files:

- `wrappers.dfy` — `Option`, `Result` and `Outcome`.
- `seqs.dfy` (`Seqs`) — duplicate-free and increasing sequences, and numpy boolean-mask indexing (`Masked`, `Kept`, `Pick`).
- `gene_order.dfy` (`GeneOrder`) — Python's string order and strictly sorted gene lists. It includes `sorted(list(set))` as an insertion loop.
- `matrices.dfy` (`Matrices`) — row-major matrices with:
  - row and column sums and prefix sums of widths;
  - horizontal concatenation and column slices;
  - the column-wise rescaling of lines 77-78;
  - row means, the positive-mean mask and the inclusive window mask.

  It also defines `Block`, a 2-D numpy array that records its column count next to its rows. Row selection and column slices keep that count even when no row is left, as a numpy array of shape (0, w) does.
- `percentiles.dfy` (`Percentiles`) — numpy's default ("linear") `np.percentile` over reals. It uses the rank `(n-1)q/100` and interpolates between neighbouring sorted values.
- `scale_sets.dfy` (`Scaling`) — `scale_sets` as a method on the caller's list. The list is an `array<Table>` whose entries are replaced in place: first by aligned frames (line 74), then by plain arrays (line 93).
- `label_codec.dfy` (`LabelCodec`) — `type2label_dict`, `convert_type2label` and the inverse dictionary of line 148.
- `csv_io.dfy` (`CsvIo`) — the body of `CSV_IO` between reading and batching: the gene-name dedup, `scale_sets` on the pair, the class count, and the label conversion.

Numbering follows Python's set iteration (line 29). That order is an arbitrary duplicate-free enumeration, chosen with `:|`, and every property of the codec is proved for all such enumerations.

How the code behaves at the edges:

- Empty percentile input is an error, not an empty result. `np.percentile` of an empty array raises, so `ScaleSets` fails with `EmptyStatistic`:
  - at line 80 when the common index is empty;
  - at line 90 when no gene survives lines 80-87.
- The zero-mean filter keeps only rows with `mean > 0`. It drops negative means and NaN (the mean of a frame with no samples) as well as exact zeros.
- The code does not report a zero column sum or an empty common index as separate errors.
- Codes follow set iteration order and are not sorted.

`Percentiles.WindowKeepsSome` shows that a window over three or more values always keeps a value. `Percentiles.WindowKeepsSingle` shows the same for one value. `Percentiles.WindowDropsPair` shows that a window over exactly two different values keeps neither. So, in exact arithmetic, the window at line 80 never empties a matrix of three or more genes, and the window at line 90 always keeps a gene unless exactly two genes with different coefficients reach it.

## Model

| member | source | states |
|---|---|---|
| LabelCodec.DistinctTypes | ACTINN/Data_IO/CSV_IO.py:29 | `list(set(types))` lists every type of the input exactly once and nothing else, whatever the order |
| LabelCodec.TypeToLabelDict | ACTINN/Data_IO/CSV_IO.py:29-34 | the dict's keys are exactly the input types; every code is in [0, n) for n the number of keys; no two types share a code; every code in [0, n) is used |
| LabelCodec.ConvertType2Label | ACTINN/Data_IO/CSV_IO.py:49-53 | succeeds exactly when every type is in the dict; on success the labels have the input's length and `labels[i] == d[types[i]]`; otherwise the KeyError names the first type the dict lacks |
| LabelCodec.InvertDict | ACTINN/Data_IO/CSV_IO.py:148 | the inverse's keys are exactly the dict's codes and every code maps back to a type holding it; for an injective dict `inv[d[t]] == t` for every key, so the two dicts undo each other |
| LabelCodec.DecodeEncoded | ACTINN/Data_IO/CSV_IO.py:29-33 | every label produced with an injective dict decodes through its inverse to the original type, and two labels are equal exactly when their types are equal |
| GeneOrder.SortedList | ACTINN/Data_IO/CSV_IO.py:70 | `sorted(list(s))` is strictly increasing in Python's string order and holds exactly the elements of `s` |
| GeneOrder.Insert | ACTINN/Data_IO/CSV_IO.py:70 | inserting a new name into a strictly sorted list keeps it strictly sorted and adds exactly that name |
| GeneOrder.SortedUnique | ACTINN/Data_IO/CSV_IO.py:70 | two strictly sorted lists with the same members are equal, so the common index does not depend on how it was built |
| GeneOrder.BelowTotal | ACTINN/Data_IO/CSV_IO.py:70 | Python's string order relates any two different strings one way or the other |
| GeneOrder.BelowTransitive | ACTINN/Data_IO/CSV_IO.py:70 | Python's string order is transitive |
| Scaling.CommonGenes | ACTINN/Data_IO/CSV_IO.py:67-70 | the common genes are strictly sorted and are exactly the genes present in every input index |
| Scaling.Align | ACTINN/Data_IO/CSV_IO.py:74 | `frame.loc[genes,]` has exactly `genes` as its index, the same samples and one full row per gene |
| Scaling.AlignedRow | ACTINN/Data_IO/CSV_IO.py:74 | row k of `frame.loc[genes,]` is the frame's row at whichever position p carries the label `genes[k]`, and `RowOf` gives that same row |
| Scaling.AlignSets | ACTINN/Data_IO/CSV_IO.py:72-75 | every list entry becomes its own frame aligned on the common genes; `sep_point` is `[0]` followed by every input's sample count, in order |
| Scaling.SplitStart | ACTINN/Data_IO/CSV_IO.py:93 | `sum(sep_point[:i+1])` never exceeds the total width |
| Scaling.SplitEnd | ACTINN/Data_IO/CSV_IO.py:93 | `sum(sep_point[:i+2])` is the slice start plus `sep_point[i+1]`, and never exceeds the total width |
| Scaling.SplitPointsPartition | ACTINN/Data_IO/CSV_IO.py:72-75 | the slices start at 0, each ends where the next starts, slice i is exactly as wide as input i, and the last ends at the total number of columns |
| Matrices.ConcatSlice | ACTINN/Data_IO/CSV_IO.py:76 | `pd.concat(sets, axis=1)` of row-aligned inputs has the summed width, and input i occupies exactly columns `[Total(ws[..i]), Total(ws[..i+1]))` of every row |
| Matrices.ConcatColSum | ACTINN/Data_IO/CSV_IO.py:76-77 | a column of input i has the same sum inside the concatenation as in input i |
| Matrices.RescaleColumnwise | ACTINN/Data_IO/CSV_IO.py:77-78 | the per-column normalisation treats each column on its own: equal columns rescale to equal columns, whatever the other columns hold |
| Scaling.Combined | ACTINN/Data_IO/CSV_IO.py:76-78 | the concatenated, rescaled matrix has one row per common gene and as many columns as all inputs together |
| Scaling.CombinedCell | ACTINN/Data_IO/CSV_IO.py:76-78 | the column at offset (widths before input i) + j holds sample j of input i: the rescaled value of that gene, against that sample's column sum over the common genes |
| Percentiles.Percentile | ACTINN/Data_IO/CSV_IO.py:80 | numpy's linear `np.percentile` lies between the sorted values at its lower and upper rank; P0 is the smallest value and P100 the largest |
| Percentiles.SortAscending | ACTINN/Data_IO/CSV_IO.py:80 | the sorted values are ascending and a permutation of the input |
| Percentiles.PercentileInRange | ACTINN/Data_IO/CSV_IO.py:80 | a percentile lies within the range of the data: some value is at or below it and some at or above it |
| Percentiles.PercentileMonotone | ACTINN/Data_IO/CSV_IO.py:80 | a higher percentile is never smaller, so P1 <= P99 and the window is never inverted |
| Percentiles.PercentileOrderFree | ACTINN/Data_IO/CSV_IO.py:80 | the percentile depends only on the multiset of values, not on the row order |
| Percentiles.WindowKeepsSome | ACTINN/Data_IO/CSV_IO.py:80 | with three or more values the inclusive [P1, P99] window keeps at least one of them |
| Percentiles.WindowDropsPair | ACTINN/Data_IO/CSV_IO.py:90 | with exactly two different values the window keeps neither |
| Percentiles.WindowKeepsSingle | ACTINN/Data_IO/CSV_IO.py:90 | with one value P1 and P99 both equal it, so it is kept |
| Scaling.WindowKeeps | ACTINN/Data_IO/CSV_IO.py:80-90 | the mask `np.logical_and(s >= P1, s <= P99)` sets at least one entry for one value or three or more, and none for exactly two different values |
| Matrices.PositiveMaskOfMeans | ACTINN/Data_IO/CSV_IO.py:84-85 | `np.mean(m, axis=1) > 0` holds for a row exactly when the row has cells and a positive sum; a row with no cells has a NaN mean and fails |
| Scaling.MidRows | ACTINN/Data_IO/CSV_IO.py:79-87 | the rows that survive lines 80 and 86 are increasing positions, and a row is among them exactly when its sum lies in the inclusive [P1, P99] window of all row sums and its mean is positive |
| Scaling.MidStage | ACTINN/Data_IO/CSV_IO.py:79-87 | masking by the expression window and then by `mean > 0` leaves exactly the rows `MidRows` describes |
| Scaling.ExpressionStage | ACTINN/Data_IO/CSV_IO.py:79-87 | fails exactly on a matrix with no rows, as `np.percentile` of no row sums; otherwise the result is the original rows at the positions `MidRows` gives, in order |
| Scaling.CvStage | ACTINN/Data_IO/CSV_IO.py:89-90 | the CV window leaves an increasing subsequence, and a row stays exactly when it reached line 89 and its CV lies in the inclusive [P1, P99] window of the CVs of those rows |
| Scaling.VariationStage | ACTINN/Data_IO/CSV_IO.py:89-90 | fails exactly when no row reached line 89; otherwise the result is the original rows at increasing positions, and a row is among them exactly when it reached line 89 and its CV is inside the window |
| Scaling.FilterRows | ACTINN/Data_IO/CSV_IO.py:79-90 | the filtered array is the input's rows at increasing positions with the input's column count, also when no row is left; a row is kept exactly when it passes both windows and has a positive mean; an empty statistic fails at the stage where it occurs |
| Matrices.PickRows | ACTINN/Data_IO/CSV_IO.py:80-90 | `a[mask, :]` keeps the selected rows in order and the array's column count, even when no row is selected |
| Matrices.SliceBlock | ACTINN/Data_IO/CSV_IO.py:93 | `a[:, lo:hi]` keeps every row and has exactly `hi - lo` columns, also when the array has no rows |
| Scaling.CombineSets | ACTINN/Data_IO/CSV_IO.py:67-78 | computes the common index of all inputs, replaces each entry by its aligned frame, records `sep_point`, and returns the combined, rescaled array with the summed column count |
| Scaling.Filtered | ACTINN/Data_IO/CSV_IO.py:92 | `total_set` after both filters has one row per surviving gene and still every column of every input, `sum(sep_point)` in all |
| Scaling.Resplit | ACTINN/Data_IO/CSV_IO.py:92-93 | entry i becomes columns `[sum(sep_point[:i+1]), sum(sep_point[:i+2]))` of the filtered array |
| Scaling.ResplitCell | ACTINN/Data_IO/CSV_IO.py:92-93 | block i is exactly as wide as input i, and its cell (k, j) is the rescaled value of the k-th surviving gene in sample j of input i |
| Scaling.ResplitOne | ACTINN/Data_IO/CSV_IO.py:92-93 | the block cut out for input i has input i's sample count as its width, even with no surviving gene, one row per surviving gene, and input i's rescaled values |
| Scaling.ResplitCorrect | ACTINN/Data_IO/CSV_IO.py:92-93 | every block cut out of the filtered rows has the surviving row count and its own input's column count, even with no surviving gene, and holds its own input's values |
| Scaling.ScaleSets | ACTINN/Data_IO/CSV_IO.py:56-94 | an empty list fails at `sets[0]`; an empty statistic fails with its stage and leaves the entries aligned; on success every entry is an array with its own input's column count over the same surviving genes, each gene kept exactly when it passes the expression window, the positive mean test and the CV window, and each cell the rescaled value of that gene and sample |
| Seqs.MaskedIsSubsequence | ACTINN/Data_IO/CSV_IO.py:86-87 | `s[mask]` keeps, in order, exactly the elements whose mask entry is set |
| Seqs.IncreasingUnique | ACTINN/Data_IO/CSV_IO.py:86 | two increasing position lists with the same members are equal |
| Seqs.Refine | ACTINN/Data_IO/CSV_IO.py:86 | masking increasing row positions with a row-by-row test keeps exactly the positions that pass it, still increasing |
| Seqs.PickPick | ACTINN/Data_IO/CSV_IO.py:80-90 | masking twice is masking once with the composed positions |
| CsvIo.FirstRow | ACTINN/Data_IO/CSV_IO.py:122 | finds the first occurrence of a name: the name is at that position and nowhere before it |
| CsvIo.FirstOccurrences | ACTINN/Data_IO/CSV_IO.py:122 | `~index.duplicated(keep='first')` is set exactly at the position of each name's first occurrence |
| CsvIo.UpperDedup | ACTINN/Data_IO/CSV_IO.py:121-122 | after upper-casing and `~index.duplicated(keep='first')`: every upper-cased name appears exactly once, in order of first occurrence, with the values of its first row and the same samples |
| CsvIo.EncodeLabels | ACTINN/Data_IO/CSV_IO.py:142-153 | fails exactly when a test type is not a training type, naming it; otherwise the class count equals the number of distinct training types, the codes are exactly 0 .. classes-1, and every training and test label decodes to its type |
| CsvIo.ScalePair | ACTINN/Data_IO/CSV_IO.py:144 | `scale_sets([train, test])` fails exactly when the frames share no gene or no gene survives up to line 89, with that stage's error; on success both arrays are `scale_sets`' blocks: the surviving genes as rows, each frame's own cells as columns, each cell that gene's rescaled value |
| CsvIo.LoadSets | ACTINN/Data_IO/CSV_IO.py:117-177 | scaling the deduplicated frames fails exactly as `ScalePair` says; otherwise loading fails exactly on an unseen test type, naming it; on success the arrays are the scaled blocks of the deduplicated frames and every label is in [0, classes) and decodes back to its cell type |

## Left out

- File reading (`pd.read_hdf`, `pd.read_csv` at lines 117, 124, 133 and 137) is left out because it is I/O. `LoadSets` takes the frames and label columns as they come out of it.
- Seeded subsampling with `DataFrame.sample` (lines 119, 126, 135 and 139) is left out because it depends on pandas' random generator. The model starts from the sampled frames.
- The transpose to cells x genes and the `(row, label)` packing (lines 155-166) are left out. So is the `DataLoader` construction with workers and `pin_memory` (lines 169-175): it is batching and concurrency plumbing. `LoadSets` returns what those steps consume.
- All `print` calls are left out.
- Floating-point arithmetic is left out:
  - float32 storage, the division by column sums, the factor 20000 and `log2(x + 1)` (lines 76-78) are one parameter `scale(value, columnSum)`;
  - `np.std` is a parameter `spread(row)`;
  - sums and means are exact sums over reals;
  - the percentile interpolation at lines 80 and 90 is exact arithmetic over reals.
- Scaling.ScaleSets: a zero column sum gives NaN or Inf in the source. NaN compares false in every window, but the model has no NaN for a rescaled value. Through `scale`, a zero column sum is whatever value the caller's function gives.
- CsvIo.UpperDedup: `str.upper` is a parameter `upper`, because Unicode case mapping is not modelled.
- Scaling.ScaleSets: requires every input index to be duplicate-free. pandas alignment on a repeated label returns several rows, which is not modelled. `CSV_IO` meets this requirement through `UpperDedup`, which `LoadSets` applies first.
- LabelCodec.TypeToLabelDict: the concrete numbering depends on Python's set iteration order. The model picks an arbitrary duplicate-free enumeration and proves every property for all of them. It does not reproduce CPython's hash order.
- LabelCodec.InvertDict: when two keys share a code, the dict comprehension keeps the last one in iteration order. The model only states that every code maps to some key holding it. Dicts built by `type2label_dict` are injective, so the exact round trip holds where the source uses it.
- CsvIo.LoadSets: `label_to_type_dict` is built at line 148 and never used afterwards. The model returns it to state the round trip. `barcode` (line 141) is unused and left out.
- CsvIo.LoadSets: does not state that a sampled label list has as many rows as its frame has cells. The pairing of block columns with labels (lines 161-166) happens after the transpose and is not modelled.
- Scaling.ScaleSets: the caller's Python list is an `array<Table>` replaced entry by entry. The pandas frame objects themselves are values, so aliasing between a frame and other references to it is not modelled.
