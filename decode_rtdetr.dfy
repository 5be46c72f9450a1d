// The RT-DETR object-detection decoder (Modules/RTDETR/ObjectDetectionModuleRtdetr).
// The output tensor is row-major: each of the predictions is a row of
// `attributes` values, (x, y, w, h) in model-relative units followed by one
// score per label. A row keeps its first strictly best positive score when
// that reaches the threshold; its box is scaled back to the image and
// clamped into it by hand. The transformer has no duplicate boxes to
// suppress, so there is no NMS and the results keep tensor order.

module DecodeRtdetr {
  import opened Common
  import opened Geometry
  import opened Models
  import opened Decoding
  import opened Rows
  import opened LabelScores

  /** `_classOffset`: the class scores follow the four box values. */
  const ClassOffset := 4

  /** The clamp written out by hand: below 0 gives 0, at or past the extent gives extent - 1. */
  function ClampInto(value: int, extent: int): (r: int)
    ensures extent >= 1 ==> 0 <= r < extent
    ensures 0 <= value < extent ==> r == value
  {
    if value < 0 then 0 else if value >= extent then extent - 1 else value
  }

  /** The geometry of a call: the resize mode, the gains, the model's input size and the image's size. */
  datatype Frame = Frame(resize: ImageResize, g: Gains, modelWidth: int, modelHeight: int, width: int, height: int)

  /**
   * The image box of a row: the centre and half-sizes scaled from
   * model-relative units by the model's input size, then by xGain (both
   * axes) in proportional mode after removing the padding, or by each axis's
   * gain in stretched mode; each corner is truncated and clamped by hand.
   */
  function ImageBox(frame: Frame, x: real, y: real, w: real, h: real): (r: RectI)
    ensures frame.width >= 1 ==> 0 <= r.left < frame.width && 0 <= r.right < frame.width
    ensures frame.height >= 1 ==> 0 <= r.top < frame.height && 0 <= r.bottom < frame.height
  {
    var mW, mH, g := frame.modelWidth as real, frame.modelHeight as real, frame.g;
    var halfWidth := w * mW * 0.5 * g.xGain;
    var (halfHeight, xCentre, yCentre) :=
      match frame.resize
      case Proportional => (h * mH * 0.5 * g.xGain, (x * mW - g.xPad) * g.xGain, (y * mH - g.yPad) * g.xGain)
      case Stretched => (h * mH * 0.5 * g.yGain, x * mW * g.xGain, y * mH * g.yGain);
    RectI(ClampInto(Trunc(xCentre - halfWidth), frame.width), ClampInto(Trunc(yCentre - halfHeight), frame.height),
          ClampInto(Trunc(xCentre + halfWidth), frame.width), ClampInto(Trunc(yCentre + halfHeight), frame.height))
  }

  /** A row with no positive score, or whose best score is below the threshold, is skipped. */
  predicate Skipped(best: (real, int), threshold: real)
  {
    best.1 == -1 || best.0 < threshold
  }

  /** A row that throws: it is cut short before its box values or before its last score. */
  predicate RowFails(labels: seq<LabelModel>, span: seq<real>, i: nat)
  {
    i + 3 >= |span| || Best(span, i + ClassOffset, 1, |labels|).Err?
  }

  /**
   * The row at offset i: x, y, w and h are read first, then the label loop
   * over the scores from i+4 on. Reading past the end of the tensor throws
   * IndexOutOfRangeException.
   */
  function DetectionRow(labels: seq<LabelModel>, frame: Frame, span: seq<real>, threshold: real, i: nat)
    : (r: Result<Option<ObjectResult>>)
    ensures r.Err? ==> r.error == IndexOutOfRange
    ensures r.Err? <==> RowFails(labels, span, i)
    ensures r == Ok(None) <==> i + 3 < |span| && Best(span, i + ClassOffset, 1, |labels|).Ok? &&
                               Skipped(Best(span, i + ClassOffset, 1, |labels|).value, threshold)
  {
    if i + 3 >= |span| then Err(IndexOutOfRange)
    else
      var best := Best(span, i + ClassOffset, 1, |labels|);
      if best.Err? then Err(best.error)
      else if Skipped(best.value, threshold) then Ok(None)
      else
        var (confidence, labelIndex) := best.value;
        assert 0 <= labelIndex < |labels| by {
          BestFirstMax(span, i + ClassOffset, 1, |labels|);
        }
        Ok(Some(NewResult(labels[labelIndex], confidence, ImageBox(frame, span[i], span[i + 1], span[i + 2], span[i + 3]),
                          RectF(0.0, 0.0, 0.0, 0.0), i)))
  }

  /** One pass of the row loop: the box values, then the label loop, then the result. */
  method DecodeRow(labels: seq<LabelModel>, frame: Frame, span: seq<real>, threshold: real, i: nat)
    returns (r: Result<Option<ObjectResult>>)
    ensures r == DetectionRow(labels, frame, span, threshold, i)
  {
    if i + 3 >= |span| {
      return Err(IndexOutOfRange);
    }
    var x, y, w, h := span[i], span[i + 1], span[i + 2], span[i + 3];
    var best := BestLabel(span, i + ClassOffset, 1, |labels|);
    if best.Err? {
      return Err(best.error);
    }
    var (confidence, labelIndex) := best.value;
    if labelIndex == -1 || confidence < threshold {
      return Ok(None);
    }
    BestFirstMax(span, i + ClassOffset, 1, |labels|);
    r := Ok(Some(NewResult(labels[labelIndex], confidence, ImageBox(frame, x, y, w, h), RectF(0.0, 0.0, 0.0, 0.0), i)));
  }

  /** The loop's rows: row r starts at offset attributes * r. */
  function DetectionSteps(labels: seq<LabelModel>, frame: Frame, span: seq<real>, threshold: real, attributes: Stride)
    : nat -> Result<Option<ObjectResult>>
  {
    (r: nat) => DetectionRow(labels, frame, span, threshold, attributes * r)
  }

  /**
   * What a kept row holds: the first strictly best score of its labels,
   * positive and at least the threshold, that label, and its box from the
   * four values at the front of the row.
   */
  ghost predicate DetectionAt(labels: seq<LabelModel>, frame: Frame, span: seq<real>, threshold: real, o: ObjectResult)
  {
    var i := o.boxIndex;
    0 <= i && i + 3 < |span| &&
    Best(span, i + ClassOffset, 1, |labels|).Ok? &&
    var (b, k) := Best(span, i + ClassOffset, 1, |labels|).value;
    0 <= k < |labels| && o.classLabel == labels[k] && o.confidence == b && b >= threshold && b > 0.0 &&
    o.box == ImageBox(frame, span[i], span[i + 1], span[i + 2], span[i + 3]) &&
    o.mask == [] && o.keyPoints == [] && o.angle == 0.0
  }

  /** A row that yields a result yields the one the layout describes, keyed by its own offset. */
  lemma DetectionRowAt(labels: seq<LabelModel>, frame: Frame, span: seq<real>, threshold: real, i: nat)
    requires Yields(DetectionRow(labels, frame, span, threshold, i))
    ensures var o := DetectionRow(labels, frame, span, threshold, i).value.value;
              o.boxIndex == i && DetectionAt(labels, frame, span, threshold, o)
  {
    BestFirstMax(span, i + ClassOffset, 1, |labels|);
  }

  lemma DetectionStepsKeyed(labels: seq<LabelModel>, frame: Frame, span: seq<real>, threshold: real, attributes: Stride, n: nat)
    ensures KeyedByRow(DetectionSteps(labels, frame, span, threshold, attributes), n, (o: ObjectResult) => o.boxIndex, attributes)
    ensures OnlyIndexErrors(DetectionSteps(labels, frame, span, threshold, attributes), n)
    ensures forall r: nat :: r < n && Yields(DetectionSteps(labels, frame, span, threshold, attributes)(r)) ==>
              DetectionAt(labels, frame, span, threshold, DetectionSteps(labels, frame, span, threshold, attributes)(r).value.value)
  {
    var f := DetectionSteps(labels, frame, span, threshold, attributes);
    forall r: nat | r < n && Yields(f(r))
      ensures f(r).value.value.boxIndex == attributes * r && DetectionAt(labels, frame, span, threshold, f(r).value.value)
    {
      assert f(r) == DetectionRow(labels, frame, span, threshold, attributes * r);
      DetectionRowAt(labels, frame, span, threshold, attributes * r);
    }
    DetectionStepsErrors(labels, frame, span, threshold, attributes, n);
  }

  /** A row can only fail by reading past the end of the buffer. */
  lemma DetectionStepsErrors(labels: seq<LabelModel>, frame: Frame, span: seq<real>, threshold: real, attributes: Stride, n: nat)
    ensures OnlyIndexErrors(DetectionSteps(labels, frame, span, threshold, attributes), n)
  {
    var f := DetectionSteps(labels, frame, span, threshold, attributes);
    forall r: nat | r < n && f(r).Err?
      ensures f(r).error == IndexOutOfRange
    {
      assert f(r) == DetectionRow(labels, frame, span, threshold, attributes * r);
    }
  }

  /**
   * The decoded rows, when no row throws: at most one result per row, each
   * read as the layout says, in tensor order (no NMS reorders them); a row
   * is among them exactly when it has a positive best score that reaches
   * the threshold.
   */
  lemma Detections(labels: seq<LabelModel>, frame: Frame, span: seq<real>, threshold: real, attributes: Stride)
    requires Collect(DetectionSteps(labels, frame, span, threshold, attributes), RowCount(|span|, attributes)).Ok?
    ensures var out := Collect(DetectionSteps(labels, frame, span, threshold, attributes), RowCount(|span|, attributes)).value;
              |out| <= RowCount(|span|, attributes) <= |span| &&
              (forall j :: 0 <= j < |out| ==> DetectionAt(labels, frame, span, threshold, out[j])) &&
              (forall j, k :: 0 <= j < k < |out| ==> out[j].boxIndex < out[k].boxIndex)
    ensures var out := Collect(DetectionSteps(labels, frame, span, threshold, attributes), RowCount(|span|, attributes)).value;
              forall r: nat :: r < RowCount(|span|, attributes) ==>
                Best(span, attributes * r + ClassOffset, 1, |labels|).Ok? &&
                (!Skipped(Best(span, attributes * r + ClassOffset, 1, |labels|).value, threshold) <==>
                   exists j :: 0 <= j < |out| && out[j].boxIndex == attributes * r)
  {
    var f := DetectionSteps(labels, frame, span, threshold, attributes);
    var n := RowCount(|span|, attributes);
    CollectKept(f, n);
    RowCountAtMostLength(|span|, attributes);
    DetectionStepsKeyed(labels, frame, span, threshold, attributes, n);
    CollectAll(f, n, o => DetectionAt(labels, frame, span, threshold, o));
    CollectKeysIncrease(f, n, (o: ObjectResult) => o.boxIndex, attributes);
    DetectionsKept(labels, frame, span, threshold, attributes);
  }

  /** When no row throws, a row is decoded exactly when it is not skipped. */
  lemma DetectionsKept(labels: seq<LabelModel>, frame: Frame, span: seq<real>, threshold: real, attributes: Stride)
    requires Collect(DetectionSteps(labels, frame, span, threshold, attributes), RowCount(|span|, attributes)).Ok?
    ensures var out := Collect(DetectionSteps(labels, frame, span, threshold, attributes), RowCount(|span|, attributes)).value;
              forall r: nat :: r < RowCount(|span|, attributes) ==>
                Best(span, attributes * r + ClassOffset, 1, |labels|).Ok? &&
                (!Skipped(Best(span, attributes * r + ClassOffset, 1, |labels|).value, threshold) <==>
                   exists j :: 0 <= j < |out| && out[j].boxIndex == attributes * r)
  {
    var n := RowCount(|span|, attributes);
    var out := Collect(DetectionSteps(labels, frame, span, threshold, attributes), n).value;
    forall r: nat | r < n
      ensures Best(span, attributes * r + ClassOffset, 1, |labels|).Ok? &&
              (!Skipped(Best(span, attributes * r + ClassOffset, 1, |labels|).value, threshold) <==>
                 exists j :: 0 <= j < |out| && out[j].boxIndex == attributes * r)
    {
      DetectionOfRow(labels, frame, span, threshold, attributes, out, r);
    }
  }

  /** Row r is decoded, into `out`, exactly when it is not skipped. */
  lemma DetectionOfRow(labels: seq<LabelModel>, frame: Frame, span: seq<real>, threshold: real, attributes: Stride,
                       out: seq<ObjectResult>, r: nat)
    requires Collect(DetectionSteps(labels, frame, span, threshold, attributes), RowCount(|span|, attributes)).Ok?
    requires out == Collect(DetectionSteps(labels, frame, span, threshold, attributes), RowCount(|span|, attributes)).value
    requires r < RowCount(|span|, attributes)
    ensures Best(span, attributes * r + ClassOffset, 1, |labels|).Ok? &&
            (!Skipped(Best(span, attributes * r + ClassOffset, 1, |labels|).value, threshold) <==>
               exists j :: 0 <= j < |out| && out[j].boxIndex == attributes * r)
  {
    var f := DetectionSteps(labels, frame, span, threshold, attributes);
    var n := RowCount(|span|, attributes);
    DetectionStepsKeyed(labels, frame, span, threshold, attributes, n);
    CollectFails(f, n);
    assert f(r) == DetectionRow(labels, frame, span, threshold, attributes * r);
    assert f(r).Ok?;
    CollectKeyFound(f, n, (o: ObjectResult) => o.boxIndex, attributes, r);
  }

  /** The loop throws exactly when some row is cut short before its box values or its scores. */
  lemma DetectionsFail(labels: seq<LabelModel>, frame: Frame, span: seq<real>, threshold: real, attributes: Stride)
    ensures Collect(DetectionSteps(labels, frame, span, threshold, attributes), RowCount(|span|, attributes)).Err? <==>
              exists r: nat :: r < RowCount(|span|, attributes) && RowFails(labels, span, attributes * r)
  {
    var f := DetectionSteps(labels, frame, span, threshold, attributes);
    forall r: nat
      ensures f(r).Err? <==> RowFails(labels, span, attributes * r)
    {
      assert f(r) == DetectionRow(labels, frame, span, threshold, attributes * r);
    }
    CollectFails(f, RowCount(|span|, attributes));
  }

  /**
   * The strided loop of ObjectDetection over a buffer of `attributes x
   * predictions` slots it fills under a counter. It returns the number of
   * results, at the front of the buffer; a row that throws, or a kept row
   * that finds the buffer full, ends the call with IndexOutOfRangeException.
   */
  method FillBoxes(boxes: array<ObjectResult>, labels: seq<LabelModel>, frame: Frame, span: seq<real>, threshold: real, attributes: Stride)
    returns (r: Result<nat>)
    modifies boxes
    ensures var out := Collect(DetectionSteps(labels, frame, span, threshold, attributes), RowCount(|span|, attributes));
              (r.Ok? <==> out.Ok? && |out.value| <= boxes.Length) &&
              (r.Ok? ==> r.value <= boxes.Length && boxes[..r.value] == out.value) &&
              (r.Err? ==> r.error == IndexOutOfRange)
  {
    ghost var f := DetectionSteps(labels, frame, span, threshold, attributes);
    ghost var n := RowCount(|span|, attributes);
    var validBoxCount: nat := 0;
    var i := 0;
    ghost var row: nat := 0;
    while i < |span|
      invariant i == attributes * row && row <= n
      invariant validBoxCount <= boxes.Length
      invariant Collect(f, row) == Ok(boxes[..validBoxCount])
      decreases |span| - i
    {
      RowCountBound(|span|, attributes, row);
      var step := DecodeRow(labels, frame, span, threshold, i);
      assert step == f(row);
      var stored := StoreRow(boxes, validBoxCount, step, f, row, n);
      if stored.Err? {
        assert Collect(f, n).Err? || |Collect(f, n).value| > boxes.Length;
        return Err(stored.error);
      }
      validBoxCount := stored.value;
      assert attributes * (row + 1) == attributes * row + attributes;
      i := i + attributes;
      row := row + 1;
    }
    RowCountBound(|span|, attributes, row);
    assert row == n && Collect(f, n) == Ok(boxes[..validBoxCount]);
    r := Ok(validBoxCount);
  }

  class ObjectDetectionModuleRtdetr {
    const labels: seq<LabelModel>
    /** `_attributes`: the values per row, four box values and then the label scores. */
    const attributes: Stride
    /** `_predictions`: the number of rows. */
    const predictions: nat
    const modelWidth: int
    const modelHeight: int
    const options: YoloOptions
    /** `_results`: the list ProcessImage clears, refills and returns. */
    const results: ResultList<Detection>

    constructor (labels: seq<LabelModel>, attributes: Stride, predictions: nat, modelWidth: int, modelHeight: int, options: YoloOptions)
      ensures this.labels == labels && this.attributes == attributes && this.predictions == predictions
      ensures this.modelWidth == modelWidth && this.modelHeight == modelHeight && this.options == options
      ensures fresh(results) && results.items == []
    {
      this.labels := labels;
      this.attributes := attributes;
      this.predictions := predictions;
      this.modelWidth := modelWidth;
      this.modelHeight := modelHeight;
      this.options := options;
      results := new ResultList<Detection>();
    }

    /**
     * ObjectDetection: the strided loop over a buffer of `attributes x
     * predictions` slots, returning the valid part of the buffer unchanged
     * by any suppression.
     */
    method ObjectDetection(span: seq<real>, g: Gains, width: int, height: int, threshold: real) returns (r: Result<seq<ObjectResult>>)
      ensures var out := Collect(DetectionSteps(labels, Frame(options.imageResize, g, modelWidth, modelHeight, width, height), span, threshold, attributes),
                                 RowCount(|span|, attributes));
                (r.Ok? <==> out.Ok? && |out.value| <= attributes * predictions) &&
                (r.Ok? ==> r.value == out.value) &&
                (r.Err? ==> r.error == IndexOutOfRange)
    {
      var boxes := new ObjectResult[attributes * predictions](_ => NewResult(LabelModel(0, ""), 0.0, RectI(0, 0, 0, 0), RectF(0.0, 0.0, 0.0, 0.0), 0));
      var count := FillBoxes(boxes, labels, Frame(options.imageResize, g, modelWidth, modelHeight, width, height), span, threshold, attributes);
      if count.Err? {
        return Err(count.error);
      }
      r := Ok(boxes[..count.value]);
    }

    /**
     * ProcessImage: decode, then clear `_results`, add each result converted
     * to ObjectDetection, and return that same list. When the decoder throws
     * the list is left as it was.
     */
    method ProcessImage(span: seq<real>, g: Gains, width: int, height: int, threshold: real) returns (r: Result<ResultList<Detection>>)
      modifies results
      ensures var out := Collect(DetectionSteps(labels, Frame(options.imageResize, g, modelWidth, modelHeight, width, height), span, threshold, attributes),
                                 RowCount(|span|, attributes));
                (out.Ok? && |out.value| <= attributes * predictions ==> r == Ok(results) && results.items == ToDetections(out.value)) &&
                (!(out.Ok? && |out.value| <= attributes * predictions) ==> r == Err(IndexOutOfRange) && results.items == old(results.items))
    {
      var found := ObjectDetection(span, g, width, height, threshold);
      if found.Err? {
        return Err(found.error);
      }
      var list := Decoding.ProcessImage(results, ToDetections(found.value));
      r := Ok(list);
    }
  }

  /** A tensor of exactly `predictions` rows fits the buffer of `attributes x predictions` slots. */
  lemma DetectionsFit(labels: seq<LabelModel>, frame: Frame, span: seq<real>, threshold: real, attributes: Stride, predictions: nat)
    requires |span| == attributes * predictions
    requires Collect(DetectionSteps(labels, frame, span, threshold, attributes), RowCount(|span|, attributes)).Ok?
    ensures |Collect(DetectionSteps(labels, frame, span, threshold, attributes), RowCount(|span|, attributes)).value| <= attributes * predictions
  {
    Detections(labels, frame, span, threshold, attributes);
  }
}
