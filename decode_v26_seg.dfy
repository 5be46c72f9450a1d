// The V26 segmentation decoder's row loop (RunSegmentation in
// Modules/V26/SegmentationModuleV26). A row of `predictions` values holds
// (x1, y1, x2, y2), the confidence, the label index and 32 mask weights.
// The weights go through a 32-slot field that is cleared when the call ends,
// however it ends. The mask canvas, its crop and its upscale to the box are
// Skia's work and enter as a function; the packing is Masks.PackBits.

module DecodeV26Seg {
  import opened Common
  import opened Geometry
  import opened Models
  import opened Decoding
  import opened Rows
  import opened DecodeV26
  import Masks

  /** The number of mask weights per row. */
  const MaskChannels := 32

  /**
   * The Gray8 pixels of the mask for one box, upscaled to the box's size:
   * computed from the box, the model-space box and the row's weights.
   */
  type MaskPixels = (RectI, RectF, seq<real>) -> seq<bv8>

  /** A row at offset i: its head, the 32 weights at i+6 .. i+37, and the packed mask they produce. */
  function SegRow(labels: seq<LabelModel>, resize: ImageResize, g: Gains, span: seq<real>, threshold: real,
                  pixelConfidence: real, maskPixels: MaskPixels, i: nat): (r: Result<Option<ObjectResult>>)
    ensures r.Err? ==> r.error == IndexOutOfRange
    ensures r.Err? <==> RowFails(labels, span, threshold, i, 6 + MaskChannels)
    ensures r == Ok(None) <==> i + 4 < |span| && span[i + 4] < threshold
  {
    var head := Head(labels, span, threshold, i, 6 + MaskChannels);
    if head.Err? then Err(head.error)
    else if head.value.None? then Ok(None)
    else
      var (confidence, named) := head.value.value;
      var x, y, w, h := span[i], span[i + 1], span[i + 2], span[i + 3];
      var box, unscaled := CornerBox(resize, g, x, y, w, h), TruncatedBox(x, y, w, h);
      var weights := span[i + 6..i + 6 + MaskChannels];
      Ok(Some(NewResult(named, confidence, box, unscaled, i)
                .(mask := Masks.PackBits(Masks.Keep(maskPixels(box, unscaled, weights), pixelConfidence)))))
  }

  function SegSteps(labels: seq<LabelModel>, resize: ImageResize, g: Gains, span: seq<real>, threshold: real,
                    pixelConfidence: real, maskPixels: MaskPixels, stride: Stride): nat -> Result<Option<ObjectResult>>
  {
    (r: nat) => SegRow(labels, resize, g, span, threshold, pixelConfidence, maskPixels, stride * r)
  }

  /**
   * What a kept row holds: confidence and label from i+4 and i+5, its
   * corners and truncated model-space box, and a mask whose pixel k is set exactly when the upscaled
   * mask for its own weights, i+6 .. i+37, keeps pixel k.
   */
  ghost predicate SegAt(labels: seq<LabelModel>, resize: ImageResize, g: Gains, span: seq<real>, threshold: real,
                        pixelConfidence: real, maskPixels: MaskPixels, o: ObjectResult)
  {
    var i := o.boxIndex;
    0 <= i && i + 6 + MaskChannels <= |span| &&
    o.confidence == span[i + 4] >= threshold &&
    0 <= Trunc(span[i + 5]) < |labels| && o.classLabel == labels[Trunc(span[i + 5])] &&
    o.box == CornerBox(resize, g, span[i], span[i + 1], span[i + 2], span[i + 3]) &&
    o.unscaled == TruncatedBox(span[i], span[i + 1], span[i + 2], span[i + 3]) &&
    Masks.Packs(o.mask, Masks.Keep(maskPixels(o.box, o.unscaled, span[i + 6..i + 6 + MaskChannels]), pixelConfidence))
  }

  /** Row r is decoded exactly when its confidence reaches the threshold. */
  lemma SegOfRow(labels: seq<LabelModel>, resize: ImageResize, g: Gains, span: seq<real>, threshold: real,
                 pixelConfidence: real, maskPixels: MaskPixels, stride: Stride, out: seq<ObjectResult>, r: nat)
    requires Collect(SegSteps(labels, resize, g, span, threshold, pixelConfidence, maskPixels, stride), RowCount(|span|, stride)).Ok?
    requires out == Collect(SegSteps(labels, resize, g, span, threshold, pixelConfidence, maskPixels, stride), RowCount(|span|, stride)).value
    requires r < RowCount(|span|, stride)
    ensures stride * r + 4 < |span| &&
            (span[stride * r + 4] >= threshold <==> exists j :: 0 <= j < |out| && out[j].boxIndex == stride * r)
  {
    var f := SegSteps(labels, resize, g, span, threshold, pixelConfidence, maskPixels, stride);
    var n := RowCount(|span|, stride);
    assert KeyedByRow(f, n, (o: ObjectResult) => o.boxIndex, stride);
    CollectFails(f, n);
    assert f(r) == SegRow(labels, resize, g, span, threshold, pixelConfidence, maskPixels, stride * r);
    assert f(r).Ok?;
    CollectKeyFound(f, n, (o: ObjectResult) => o.boxIndex, stride, r);
  }

  /** A kept row reads as the layout says, and its packed mask sets exactly the pixels its own weights keep. */
  lemma SegRowAt(labels: seq<LabelModel>, resize: ImageResize, g: Gains, span: seq<real>, threshold: real,
                 pixelConfidence: real, maskPixels: MaskPixels, i: nat)
    requires Yields(SegRow(labels, resize, g, span, threshold, pixelConfidence, maskPixels, i))
    ensures var o := SegRow(labels, resize, g, span, threshold, pixelConfidence, maskPixels, i).value.value;
              o.boxIndex == i && SegAt(labels, resize, g, span, threshold, pixelConfidence, maskPixels, o)
  {
    var o := SegRow(labels, resize, g, span, threshold, pixelConfidence, maskPixels, i).value.value;
    Masks.PackBitsCorrect(Masks.Keep(maskPixels(o.box, o.unscaled, span[i + 6..i + 6 + MaskChannels]), pixelConfidence));
  }

  /** Every kept row reads as the layout says, with the mask its own weights give, and carries its own offset. */
  lemma SegRowsAt(labels: seq<LabelModel>, resize: ImageResize, g: Gains, span: seq<real>, threshold: real,
                  pixelConfidence: real, maskPixels: MaskPixels, stride: Stride, n: nat)
    ensures var f := SegSteps(labels, resize, g, span, threshold, pixelConfidence, maskPixels, stride);
              forall r: nat :: r < n && Yields(f(r)) ==>
                SegAt(labels, resize, g, span, threshold, pixelConfidence, maskPixels, f(r).value.value) &&
                f(r).value.value.boxIndex == stride * r
  {
    var f := SegSteps(labels, resize, g, span, threshold, pixelConfidence, maskPixels, stride);
    forall r: nat | r < n && Yields(f(r))
      ensures SegAt(labels, resize, g, span, threshold, pixelConfidence, maskPixels, f(r).value.value)
      ensures f(r).value.value.boxIndex == stride * r
    {
      assert f(r) == SegRow(labels, resize, g, span, threshold, pixelConfidence, maskPixels, stride * r);
      SegRowAt(labels, resize, g, span, threshold, pixelConfidence, maskPixels, stride * r);
    }
  }

  /**
   * The decoded rows when no row throws: each is its row read as the layout
   * says, with the mask its own weights give; they follow tensor order; and
   * there are no more than the tensor has values.
   */
  lemma SegDetections(labels: seq<LabelModel>, resize: ImageResize, g: Gains, span: seq<real>, threshold: real,
                      pixelConfidence: real, maskPixels: MaskPixels, stride: Stride)
    requires Collect(SegSteps(labels, resize, g, span, threshold, pixelConfidence, maskPixels, stride), RowCount(|span|, stride)).Ok?
    ensures var out := Collect(SegSteps(labels, resize, g, span, threshold, pixelConfidence, maskPixels, stride), RowCount(|span|, stride)).value;
              |out| <= |span| &&
              (forall j :: 0 <= j < |out| ==> SegAt(labels, resize, g, span, threshold, pixelConfidence, maskPixels, out[j])) &&
              (forall j, k :: 0 <= j < k < |out| ==> out[j].boxIndex < out[k].boxIndex)
  {
    var f := SegSteps(labels, resize, g, span, threshold, pixelConfidence, maskPixels, stride);
    var n := RowCount(|span|, stride);
    CollectKept(f, n);
    RowCountAtMostLength(|span|, stride);
    SegRowsAt(labels, resize, g, span, threshold, pixelConfidence, maskPixels, stride, n);
    CollectAll(f, n, o => SegAt(labels, resize, g, span, threshold, pixelConfidence, maskPixels, o));
    assert KeyedByRow(f, n, (o: ObjectResult) => o.boxIndex, stride);
    CollectKeysIncrease(f, n, (o: ObjectResult) => o.boxIndex, stride);
  }

  /** When no row throws, a row is among the decoded ones exactly when its confidence reaches the threshold. */
  lemma SegDetectionsKept(labels: seq<LabelModel>, resize: ImageResize, g: Gains, span: seq<real>, threshold: real,
                          pixelConfidence: real, maskPixels: MaskPixels, stride: Stride)
    requires Collect(SegSteps(labels, resize, g, span, threshold, pixelConfidence, maskPixels, stride), RowCount(|span|, stride)).Ok?
    ensures var out := Collect(SegSteps(labels, resize, g, span, threshold, pixelConfidence, maskPixels, stride), RowCount(|span|, stride)).value;
              forall r: nat :: r < RowCount(|span|, stride) ==>
                stride * r + 4 < |span| &&
                (span[stride * r + 4] >= threshold <==> exists j :: 0 <= j < |out| && out[j].boxIndex == stride * r)
  {
    var n := RowCount(|span|, stride);
    var out := Collect(SegSteps(labels, resize, g, span, threshold, pixelConfidence, maskPixels, stride), n).value;
    forall r: nat | r < n
      ensures stride * r + 4 < |span| &&
              (span[stride * r + 4] >= threshold <==> exists j :: 0 <= j < |out| && out[j].boxIndex == stride * r)
    {
      SegOfRow(labels, resize, g, span, threshold, pixelConfidence, maskPixels, stride, out, r);
    }
  }

  /** The loop throws exactly when some row does; a kept row must hold its head and all 32 weights. */
  lemma SegDetectionsFail(labels: seq<LabelModel>, resize: ImageResize, g: Gains, span: seq<real>, threshold: real,
                          pixelConfidence: real, maskPixels: MaskPixels, stride: Stride)
    ensures Collect(SegSteps(labels, resize, g, span, threshold, pixelConfidence, maskPixels, stride), RowCount(|span|, stride)).Err? <==>
              exists r: nat :: r < RowCount(|span|, stride) && RowFails(labels, span, threshold, stride * r, 6 + MaskChannels)
  {
    var f := SegSteps(labels, resize, g, span, threshold, pixelConfidence, maskPixels, stride);
    forall r: nat
      ensures f(r).Err? <==> RowFails(labels, span, threshold, stride * r, 6 + MaskChannels)
    {
      assert f(r) == SegRow(labels, resize, g, span, threshold, pixelConfidence, maskPixels, stride * r);
    }
    StepsFail(f, RowCount(|span|, stride), labels, span, threshold, stride, 6 + MaskChannels);
  }

  class SegmentationModuleV26 {
    const labels: seq<LabelModel>
    const options: YoloOptions
    /** `_predictions`: the output's values per row. */
    const stride: Stride
    const totalElements: int
    /** `_maskWeights32`: the current row's weights. */
    const maskWeights: array<real>
    const results: ResultList<SegmentationDetection>

    constructor (labels: seq<LabelModel>, options: YoloOptions, channels: int, predictions: Stride)
      ensures this.labels == labels && this.options == options
      ensures stride == predictions && totalElements == channels * predictions
      ensures fresh(maskWeights) && maskWeights[..] == seq(MaskChannels, _ => 0.0)
      ensures fresh(results) && results.items == []
    {
      this.labels := labels;
      this.options := options;
      stride := predictions;
      totalElements := channels * predictions;
      maskWeights := new real[MaskChannels](_ => 0.0);
      results := new ResultList<SegmentationDetection>();
    }

    /**
     * The body of the loop for one row: the confidence, the label index,
     * the 32 weights into `_maskWeights32`, the box, the label lookup, and
     * the mask packed from the upscaled pixels.
     */
    method DecodeRow(span: seq<real>, threshold: real, pixelConfidence: real, maskPixels: MaskPixels, g: Gains,
                     resize: ImageResize, i: nat) returns (step: Result<Option<ObjectResult>>)
      requires maskWeights.Length == MaskChannels
      modifies maskWeights
      ensures step == SegRow(labels, resize, g, span, threshold, pixelConfidence, maskPixels, i)
    {
      var confidence := At(span, i + 4);
      if confidence.Err? {
        return Err(confidence.error);
      }
      if confidence.value < threshold {
        return Ok(None);
      }
      var x, y, w, h := span[i], span[i + 1], span[i + 2], span[i + 3];
      var labelIndex := At(span, i + 5);
      if labelIndex.Err? {
        return Err(labelIndex.error);
      }
      var offset := i + 6;
      for k := 0 to MaskChannels
        invariant offset + k <= |span|
        invariant forall m :: 0 <= m < k ==> maskWeights[m] == span[offset + m]
      {
        if offset + k >= |span| {
          return Err(IndexOutOfRange);
        }
        maskWeights[k] := span[offset + k];
      }
      var box, unscaled := CornerBox(resize, g, x, y, w, h), TruncatedBox(x, y, w, h);
      var named := LabelAt(labels, labelIndex.value);
      if named.Err? {
        return Err(named.error);
      }
      assert maskWeights[..] == span[offset..offset + MaskChannels];
      var pixels := maskPixels(box, unscaled, maskWeights[..]);
      var resizedCrop := new bv8[|pixels|](k requires 0 <= k < |pixels| => pixels[k]);
      assert resizedCrop[..] == pixels;
      var packed := Masks.PackUpscaledMaskToBitArray(resizedCrop, pixelConfidence);
      step := Ok(Some(NewResult(named.value, confidence.value, box, unscaled, i).(mask := packed[..])));
    }

    /**
     * RunSegmentation: rent a buffer of totalElements slots (a negative size
     * throws ArgumentOutOfRangeException before the guarded block, leaving
     * the weights alone), fill it with the kept rows in tensor order under a
     * counter, and clear the weights on the way out of the guarded block,
     * whether it returns or throws.
     */
    method RunSegmentation(span: seq<real>, threshold: real, pixelConfidence: real, maskPixels: MaskPixels, g: Gains)
      returns (r: Result<seq<ObjectResult>>)
      requires maskWeights.Length == MaskChannels
      modifies maskWeights
      ensures totalElements < 0 ==> r == Err(ArgumentOutOfRange) && maskWeights[..] == old(maskWeights[..])
      ensures totalElements >= 0 ==> maskWeights[..] == seq(MaskChannels, _ => 0.0)
      ensures var out := Collect(SegSteps(labels, options.imageResize, g, span, threshold, pixelConfidence, maskPixels, stride),
                                 RowCount(|span|, stride));
                totalElements >= 0 ==>
                  (r.Ok? <==> out.Ok? && |out.value| <= totalElements) &&
                  (r.Ok? ==> r.value == out.value) &&
                  (r.Err? ==> r.error == IndexOutOfRange)
    {
      if totalElements < 0 {
        return Err(ArgumentOutOfRange);
      }
      r := FillRows(span, threshold, pixelConfidence, maskPixels, g);
      ClearWeights();
    }

    /** The strided loop of RunSegmentation, without the clean-up. */
    method FillRows(span: seq<real>, threshold: real, pixelConfidence: real, maskPixels: MaskPixels, g: Gains)
      returns (r: Result<seq<ObjectResult>>)
      requires maskWeights.Length == MaskChannels && totalElements >= 0
      modifies maskWeights
      ensures var out := Collect(SegSteps(labels, options.imageResize, g, span, threshold, pixelConfidence, maskPixels, stride),
                                 RowCount(|span|, stride));
                (r.Ok? <==> out.Ok? && |out.value| <= totalElements) &&
                (r.Ok? ==> r.value == out.value) &&
                (r.Err? ==> r.error == IndexOutOfRange)
    {
      var resize := options.imageResize;
      var boxes := new ObjectResult[totalElements];
      ghost var f := SegSteps(labels, resize, g, span, threshold, pixelConfidence, maskPixels, stride);
      ghost var n := RowCount(|span|, stride);
      var validBoxCount: nat := 0;
      var i := 0;
      ghost var row: nat := 0;
      while i < |span|
        invariant i == row * stride && row <= n
        invariant validBoxCount <= boxes.Length
        invariant Collect(f, row) == Ok(boxes[..validBoxCount])
        decreases |span| - i
      {
        RowCountBound(|span|, stride, row);
        var step := DecodeRow(span, threshold, pixelConfidence, maskPixels, g, resize, i);
        assert step == f(row);
        var stored := StoreRow(boxes, validBoxCount, step, f, row, n);
        if stored.Err? {
          return Err(stored.error);
        }
        validBoxCount := stored.value;
        assert (row + 1) * stride == row * stride + stride;
        i := i + stride;
        row := row + 1;
      }
      RowCountBound(|span|, stride, row);
      r := Ok(boxes[..validBoxCount]);
    }

    /** `_maskWeights32 = default`. */
    method ClearWeights()
      modifies maskWeights
      ensures maskWeights[..] == seq(maskWeights.Length, _ => 0.0)
    {
      for k := 0 to maskWeights.Length
        invariant forall m :: 0 <= m < k ==> maskWeights[m] == 0.0
      {
        maskWeights[k] := 0.0;
      }
    }

    /** ProcessImage: run the segmentation, then refill `_results` with each result converted to Segmentation and return that list. */
    method ProcessImage(span: seq<real>, threshold: real, pixelConfidence: real, maskPixels: MaskPixels, g: Gains)
      returns (r: Result<ResultList<SegmentationDetection>>)
      requires maskWeights.Length == MaskChannels
      modifies maskWeights, results
      ensures var out := Collect(SegSteps(labels, options.imageResize, g, span, threshold, pixelConfidence, maskPixels, stride),
                                 RowCount(|span|, stride));
                (totalElements >= 0 && out.Ok? && |out.value| <= totalElements ==>
                   r == Ok(results) && results.items == seq(|out.value|, k requires 0 <= k < |out.value| => ToSegmentation(out.value[k]))) &&
                (!(totalElements >= 0 && out.Ok? && |out.value| <= totalElements) ==>
                   r.Err? && results.items == old(results.items))
    {
      var detections := RunSegmentation(span, threshold, pixelConfidence, maskPixels, g);
      if detections.Err? {
        return Err(detections.error);
      }
      var d := detections.value;
      var list := Decoding.ProcessImage(results, seq(|d|, k requires 0 <= k < |d| => ToSegmentation(d[k])));
      r := Ok(list);
    }
  }
}
