/**
 * `CSV_IO` without the file reading, sampling and batching: tidy the gene names of both
 * expression frames, scale the two frames jointly, and number the cell types of both label
 * lists with the training set's dictionary.
 */
module CsvIo {
  import opened Wrappers
  import opened Seqs
  import opened GeneOrder
  import opened Matrices
  import opened Scaling
  import opened LabelCodec

  /** The gene names after `[s.upper() for s in frame.index]`. */
  function UpperIndex(index: seq<Gene>, upper: Gene -> Gene): (u: seq<Gene>)
    ensures |u| == |index|
  {
    seq(|index|, i requires 0 <= i < |index| => upper(index[i]))
  }

  /**
   * `~index.duplicated(keep='first')`: set exactly at the position where each name occurs
   * for the first time.
   */
  function FirstOccurrences(keys: seq<Gene>): (mask: seq<bool>)
    ensures |mask| == |keys|
    ensures forall i :: 0 <= i < |keys| ==> (mask[i] <==> FirstRow(keys, keys[i]) == i)
  {
    FirstOccurrenceAt(keys);
    seq(|keys|, i requires 0 <= i < |keys| => keys[i] !in keys[..i])
  }

  /** A name has not occurred before position `i` exactly when `i` is its first occurrence. */
  lemma FirstOccurrenceAt(keys: seq<Gene>)
    ensures forall i :: 0 <= i < |keys| ==> (keys[i] !in keys[..i] <==> FirstRow(keys, keys[i]) == i)
  {
    forall i | 0 <= i < |keys| && keys[i] !in keys[..i] ensures FirstRow(keys, keys[i]) == i {
      FirstRowAt(keys, i);
    }
  }

  /** Where a name first occurs. */
  function FirstRow(keys: seq<Gene>, n: Gene): (p: nat)
    requires n in keys
    ensures p < |keys| && keys[p] == n && n !in keys[..p]
  {
    if keys[0] == n then 0
    else
      assert n in keys[1..];
      var p := FirstRow(keys[1..], n);
      assert keys[..p + 1] == [keys[0]] + keys[1..][..p];
      p + 1
  }

  /** An occurrence with no earlier occurrence is the first one. */
  lemma FirstRowAt(keys: seq<Gene>, p: nat)
    requires p < |keys| && keys[p] !in keys[..p]
    ensures FirstRow(keys, keys[p]) == p
  {
  }

  /**
   * Lines 121-122 (again 130-131): upper-case the gene names and keep, for every name, only
   * its first row. The result lists each upper-cased name once, in order of first
   * occurrence, with the values of that first row, over the same samples.
   */
  function UpperDedup(f: Frame, upper: Gene -> Gene): (g: Frame)
    requires |f.values| == |f.index| && Rect(f.values, |f.samples|)
    ensures WellFormed(g) && g.samples == f.samples
    ensures forall n :: n in g.index <==> n in UpperIndex(f.index, upper)
    ensures forall k :: 0 <= k < |g.index| ==>
      g.values[k] == f.values[FirstRow(UpperIndex(f.index, upper), g.index[k])]
    ensures forall k, l :: 0 <= k < l < |g.index| ==>
      FirstRow(UpperIndex(f.index, upper), g.index[k]) < FirstRow(UpperIndex(f.index, upper), g.index[l])
  {
    var u := UpperIndex(f.index, upper);
    var mask := FirstOccurrences(u);
    var g := Frame(Masked(u, mask), f.samples, Masked(f.values, mask));
    DedupFacts(u, f.values, mask);
    g
  }

  lemma DedupFacts(u: seq<Gene>, values: Matrix, mask: seq<bool>)
    requires |values| == |u| && mask == FirstOccurrences(u)
    ensures Distinct(Masked(u, mask))
    ensures forall n :: n in Masked(u, mask) <==> n in u
    ensures forall k :: 0 <= k < |Masked(u, mask)| ==>
      Masked(values, mask)[k] == values[FirstRow(u, Masked(u, mask)[k])]
    ensures forall k, l :: 0 <= k < l < |Masked(u, mask)| ==>
      FirstRow(u, Masked(u, mask)[k]) < FirstRow(u, Masked(u, mask)[l])
  {
    var ks := Kept(mask);
    var names := Masked(u, mask);
    forall k | 0 <= k < |ks| ensures FirstRow(u, names[k]) == ks[k] {
      assert mask[ks[k]] == (u[ks[k]] !in u[..ks[k]]);
      FirstRowAt(u, ks[k]);
    }
    forall k, l | 0 <= k < l < |ks| ensures names[k] != names[l] {
      assert names[k] == u[ks[k]] && u[ks[k]] in u[..ks[l]];
    }
    forall n | n in u ensures n in names {
      var p := FirstRow(u, n);
      assert mask[p];
      var k :| 0 <= k < |ks| && ks[k] == p;
      assert names[k] == n;
    }
  }

  /** Why loading can fail: an empty statistic while scaling, or an unseen test cell type. */
  datatype LoadError = ScaleFailed(scaleError: ScaleError) | LabelFailed(labelError: LabelError)

  /**
   * What `CSV_IO` hands on, before transposing and batching: the scaled genes x cells
   * arrays, the numbered labels, the number-to-type dictionary of line 148 and the class count.
   */
  datatype Loaded = Loaded(train: Block, test: Block, trainLabels: seq<int>, testLabels: seq<int>,
                           labelToType: map<int, CellType>, classes: nat)

  /**
   * Lines 142 and 147-153: number the training cell types, invert the dictionary and
   * convert both label lists. Every training type is known, so only an unseen test type
   * fails; the class count of line 177 equals `nt` of line 142, and every label decodes
   * back to its cell type.
   */
  method EncodeLabels(trainTypes: seq<CellType>, testTypes: seq<CellType>)
    returns (r: Result<(seq<int>, seq<int>, map<int, CellType>, nat), LabelError>)
    ensures r.Success? <==> forall j :: 0 <= j < |testTypes| ==> testTypes[j] in trainTypes
    ensures r.Failure? ==> r.error.key in testTypes && r.error.key !in trainTypes
    ensures r.Success? ==>
      var (trainLabels, testLabels, labelToType, classes) := r.value;
      && classes == |set t | t in trainTypes|
      && (forall c :: c in labelToType <==> 0 <= c < classes)
      && |trainLabels| == |trainTypes| && |testLabels| == |testTypes|
      && (forall i :: 0 <= i < |trainTypes| ==>
            trainLabels[i] in labelToType && labelToType[trainLabels[i]] == trainTypes[i])
      && (forall j :: 0 <= j < |testTypes| ==>
            testLabels[j] in labelToType && labelToType[testLabels[j]] == testTypes[j])
  {
    var nt := |set t | t in trainTypes|;
    var d := TypeToLabelDict(trainTypes);
    var inv := InvertDict(d);
    var train := ConvertType2Label(trainTypes, d);
    assert train.Success?;
    var test := ConvertType2Label(testTypes, d);
    if test.Failure? {
      return Failure(test.error);
    }
    LabelDictSize(d, trainTypes);
    assert nt == |d.Keys|;
    DecodeEncoded(d, inv, trainTypes, train.value);
    DecodeEncoded(d, inv, testTypes, test.value);
    r := Success((train.value, test.value, inv, |d.Keys|));
  }

  /**
   * Line 144, `train_set, test_set = scale_sets([train_set, test_set])`. It fails exactly
   * when the two frames share no gene or no gene survives up to line 89. Otherwise the two
   * arrays are `scale_sets`' blocks for the training and the test frame: the same
   * surviving genes as rows, each frame's own cells as columns, and the rescaled values.
   */
  method ScalePair(train: Frame, test: Frame, scale: (real, real) -> real, spread: Row -> real)
    returns (r: Result<(Block, Block), ScaleError>, ghost common: seq<Gene>, ghost rows: seq<nat>)
    requires WellFormed(train) && WellFormed(test)
    ensures IsCommonIndex(common, [train, test])
    ensures forall g :: g in common ==> g in train.index && g in test.index
    ensures r.Failure? <==> |common| == 0 || |MidRows(Combined([train, test], common, scale))| == 0
    ensures r.Failure? ==> r.error == EmptyStatistic(if |common| == 0 then ExpressionFilter else VariationFilter)
    ensures r.Success? ==>
      && Survivors(rows, Combined([train, test], common, scale), spread)
      && BlockOf(Plain(r.value.0), train, common, scale, rows)
      && BlockOf(Plain(r.value.1), test, common, scale, rows)
  {
    var sets := new Table[2][Labelled(train), Labelled(test)];
    ghost var fs := Frames(sets[..]);
    assert fs == [train, test];
    ghost var before := sets[..];
    var outcome;
    outcome, common, rows := ScaleSets(sets, scale, spread);
    assert forall g :: g in common ==> g in train.index && g in test.index by {
      forall g | g in common ensures g in train.index && g in test.index {
        assert g in before[0].frame.index && g in before[1].frame.index;
      }
    }
    if outcome.Fail? {
      return Failure(outcome.error), common, rows;
    }
    assert BlockOf(sets[0], train, common, scale, rows) && BlockOf(sets[1], test, common, scale, rows) by {
      assert ResplitBlocks(sets[..], fs, common, scale, rows);
      assert sets[..][0] == sets[0] && sets[..][1] == sets[1];
    }
    r := Success((sets[0].block, sets[1].block));
  }

  /** The two frames after lines 121-122 and 130-131. */
  function Tidied(trainSet: Frame, testSet: Frame, upper: Gene -> Gene): (fs: seq<Frame>)
    requires |trainSet.values| == |trainSet.index| && Rect(trainSet.values, |trainSet.samples|)
    requires |testSet.values| == |testSet.index| && Rect(testSet.values, |testSet.samples|)
    ensures |fs| == 2 && WellFormed(fs[0]) && WellFormed(fs[1])
    ensures fs[0].samples == trainSet.samples && fs[1].samples == testSet.samples
  {
    [UpperDedup(trainSet, upper), UpperDedup(testSet, upper)]
  }

  /**
   * `CSV_IO` on frames already read and sampled: tidy both gene indexes (lines 121-122,
   * 130-131), scale the two frames together (line 144), then encode the labels (147-153).
   * Scaling fails exactly as `ScalePair` says; otherwise the labels fail exactly on an
   * unseen test type. On success the arrays are the scaled blocks of the tidied frames and
   * every label is a class number that decodes to its cell type.
   */
  method LoadSets(trainSet: Frame, trainTypes: seq<CellType>, testSet: Frame, testTypes: seq<CellType>,
                  upper: Gene -> Gene, scale: (real, real) -> real, spread: Row -> real)
    returns (r: Result<Loaded, LoadError>, ghost common: seq<Gene>, ghost rows: seq<nat>)
    requires |trainSet.values| == |trainSet.index| && Rect(trainSet.values, |trainSet.samples|)
    requires |testSet.values| == |testSet.index| && Rect(testSet.values, |testSet.samples|)
    ensures IsCommonIndex(common, Tidied(trainSet, testSet, upper))
    ensures forall p, g :: 0 <= p < 2 && g in common ==> g in Tidied(trainSet, testSet, upper)[p].index
    ensures (r.Failure? && r.error.ScaleFailed?) <==>
      |common| == 0 || |MidRows(Combined(Tidied(trainSet, testSet, upper), common, scale))| == 0
    ensures r.Failure? && r.error.ScaleFailed? ==>
      r.error.scaleError == EmptyStatistic(if |common| == 0 then ExpressionFilter else VariationFilter)
    ensures r.Failure? && r.error.LabelFailed? ==>
      r.error.labelError.key in testTypes && r.error.labelError.key !in trainTypes
    ensures !(r.Failure? && r.error.ScaleFailed?) ==>
      (r.Success? <==> forall j :: 0 <= j < |testTypes| ==> testTypes[j] in trainTypes)
    ensures r.Success? ==>
      && Survivors(rows, Combined(Tidied(trainSet, testSet, upper), common, scale), spread)
      && BlockOf(Plain(r.value.train), Tidied(trainSet, testSet, upper)[0], common, scale, rows)
      && BlockOf(Plain(r.value.test), Tidied(trainSet, testSet, upper)[1], common, scale, rows)
    ensures r.Success? ==>
      && r.value.classes == |set t | t in trainTypes|
      && (forall c :: c in r.value.labelToType <==> 0 <= c < r.value.classes)
      && |r.value.trainLabels| == |trainTypes| && |r.value.testLabels| == |testTypes|
      && (forall i :: 0 <= i < |trainTypes| ==>
            0 <= r.value.trainLabels[i] < r.value.classes
            && r.value.labelToType[r.value.trainLabels[i]] == trainTypes[i])
      && (forall j :: 0 <= j < |testTypes| ==>
            0 <= r.value.testLabels[j] < r.value.classes
            && r.value.labelToType[r.value.testLabels[j]] == testTypes[j])
  {
    var train := UpperDedup(trainSet, upper);
    var test := UpperDedup(testSet, upper);
    assert Tidied(trainSet, testSet, upper) == [train, test];
    var scaled;
    scaled, common, rows := ScalePair(train, test, scale, spread);
    if scaled.Failure? {
      return Failure(ScaleFailed(scaled.error)), common, rows;
    }
    var (trainBlock, testBlock) := scaled.value;
    var labels := EncodeLabels(trainTypes, testTypes);
    if labels.Failure? {
      return Failure(LabelFailed(labels.error)), common, rows;
    }
    var (trainLabels, testLabels, labelToType, classes) := labels.value;
    r := Success(Loaded(trainBlock, testBlock, trainLabels, testLabels, labelToType, classes));
  }
}
