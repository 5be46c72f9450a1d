// The V10 object-detection decoder (Modules/V10/ObjectDetectionModuleV10).
// Each row holds six values: four box values, the confidence and the label
// index. In proportional mode the four box values are read as corners; in
// stretched mode they are read as a centre and a size, and the corners are
// clamped into the image. Rows that reach the threshold go into a buffer of
// channels x elements slots, then through non-maximum suppression.

module DecodeV10 {
  import opened Common
  import opened Geometry
  import opened Models
  import opened Sorting
  import opened Nms
  import opened Decoding
  import opened Rows

  /** The box of a row: corners in proportional mode, centre and size (clamped) in stretched mode. */
  function V10Box(resize: ImageResize, g: Gains, width: int, height: int, x: real, y: real, w: real, h: real): (r: RectI)
    requires !ClampThrows(resize, width, height)
    ensures resize == Stretched ==>
              0 <= r.left < width && 0 <= r.right < width && 0 <= r.top < height && 0 <= r.bottom < height
  {
    match resize
    case Proportional => CornerBox(Proportional, g, x, y, w, h)
    case Stretched => CentreBox(Stretched, g, width, height, x, y, w, h)
  }

  /**
   * A V10 row at offset i that throws: it is cut short before its label
   * index at i+5, or it reaches the threshold and then either the clamp
   * throws or its label does not exist.
   */
  predicate RowFails(labels: seq<LabelModel>, resize: ImageResize, width: int, height: int, span: seq<real>, threshold: real, i: nat)
  {
    i + 5 >= |span| ||
    (span[i + 4] >= threshold && (ClampThrows(resize, width, height) || !(0 <= Trunc(span[i + 5]) < |labels|)))
  }

  /**
   * The row at offset i: all six values are read first; a row below the
   * threshold is skipped; the box is computed (the clamp can throw
   * ArgumentException) and then the label looked up.
   */
  function DetectionRow(labels: seq<LabelModel>, resize: ImageResize, g: Gains, width: int, height: int, span: seq<real>,
                        threshold: real, i: nat) : (r: Result<Option<ObjectResult>>)
    ensures r.Err? <==> RowFails(labels, resize, width, height, span, threshold, i)
    ensures r.Err? ==> r.error == (if i + 5 < |span| && ClampThrows(resize, width, height) then ArgumentError else IndexOutOfRange)
    ensures r == Ok(None) <==> i + 5 < |span| && span[i + 4] < threshold
  {
    if i + 5 >= |span| then Err(IndexOutOfRange)
    else
      var x, y, w, h, confidence, labelIndex := span[i], span[i + 1], span[i + 2], span[i + 3], span[i + 4], span[i + 5];
      if confidence < threshold then Ok(None)
      else if ClampThrows(resize, width, height) then Err(ArgumentError)
      else
        var named := LabelAt(labels, labelIndex);
        if named.Err? then Err(named.error)
        else Ok(Some(NewResult(named.value, confidence, V10Box(resize, g, width, height, x, y, w, h), RectF(0.0, 0.0, 0.0, 0.0), i)))
  }

  /** The loop's rows: row r starts at offset 6r. */
  function DetectionSteps(labels: seq<LabelModel>, resize: ImageResize, g: Gains, width: int, height: int, span: seq<real>, threshold: real)
    : nat -> Result<Option<ObjectResult>>
  {
    (r: nat) => DetectionRow(labels, resize, g, width, height, span, threshold, 6 * r)
  }

  /** What a kept row holds: confidence and label from i+4 and i+5, its box from i..i+3. */
  ghost predicate DetectionAt(labels: seq<LabelModel>, resize: ImageResize, g: Gains, width: int, height: int, span: seq<real>,
                              threshold: real, o: ObjectResult)
  {
    var i := o.boxIndex;
    0 <= i && i + 5 < |span| && i % 6 == 0 && !ClampThrows(resize, width, height) &&
    o.confidence == span[i + 4] >= threshold &&
    0 <= Trunc(span[i + 5]) < |labels| && o.classLabel == labels[Trunc(span[i + 5])] &&
    o.box == V10Box(resize, g, width, height, span[i], span[i + 1], span[i + 2], span[i + 3]) &&
    o.mask == [] && o.keyPoints == [] && o.angle == 0.0
  }

  lemma DetectionStepsKeyed(labels: seq<LabelModel>, resize: ImageResize, g: Gains, width: int, height: int, span: seq<real>,
                            threshold: real, n: nat)
    ensures KeyedByRow(DetectionSteps(labels, resize, g, width, height, span, threshold), n, (o: ObjectResult) => o.boxIndex, 6)
    ensures forall r: nat :: r < n && Yields(DetectionSteps(labels, resize, g, width, height, span, threshold)(r)) ==>
              DetectionAt(labels, resize, g, width, height, span, threshold,
                          DetectionSteps(labels, resize, g, width, height, span, threshold)(r).value.value)
  {
    var f := DetectionSteps(labels, resize, g, width, height, span, threshold);
    forall r: nat | r < n && Yields(f(r))
      ensures f(r).value.value.boxIndex == 6 * r && DetectionAt(labels, resize, g, width, height, span, threshold, f(r).value.value)
    {
      assert f(r) == DetectionRow(labels, resize, g, width, height, span, threshold, 6 * r);
    }
  }

  /**
   * The decoded rows, when no row throws: at most one result per row, each
   * read as the layout says, in tensor order; a row is among them exactly
   * when its confidence reaches the threshold.
   */
  lemma Detections(labels: seq<LabelModel>, resize: ImageResize, g: Gains, width: int, height: int, span: seq<real>, threshold: real)
    requires Collect(DetectionSteps(labels, resize, g, width, height, span, threshold), RowCount(|span|, 6)).Ok?
    ensures var out := Collect(DetectionSteps(labels, resize, g, width, height, span, threshold), RowCount(|span|, 6)).value;
              |out| <= RowCount(|span|, 6) <= |span| &&
              (forall j :: 0 <= j < |out| ==> DetectionAt(labels, resize, g, width, height, span, threshold, out[j])) &&
              (forall j, k :: 0 <= j < k < |out| ==> out[j].boxIndex < out[k].boxIndex)
    ensures var out := Collect(DetectionSteps(labels, resize, g, width, height, span, threshold), RowCount(|span|, 6)).value;
              forall r: nat :: r < RowCount(|span|, 6) ==>
                6 * r + 5 < |span| &&
                (span[6 * r + 4] >= threshold <==> exists j :: 0 <= j < |out| && out[j].boxIndex == 6 * r)
  {
    var f := DetectionSteps(labels, resize, g, width, height, span, threshold);
    var n := RowCount(|span|, 6);
    CollectKept(f, n);
    RowCountAtMostLength(|span|, 6);
    DetectionStepsKeyed(labels, resize, g, width, height, span, threshold, n);
    CollectAll(f, n, o => DetectionAt(labels, resize, g, width, height, span, threshold, o));
    CollectKeysIncrease(f, n, (o: ObjectResult) => o.boxIndex, 6);
    DetectionsKept(labels, resize, g, width, height, span, threshold);
  }

  /** When no row throws, a row is decoded exactly when its confidence reaches the threshold. */
  lemma DetectionsKept(labels: seq<LabelModel>, resize: ImageResize, g: Gains, width: int, height: int, span: seq<real>, threshold: real)
    requires Collect(DetectionSteps(labels, resize, g, width, height, span, threshold), RowCount(|span|, 6)).Ok?
    ensures var out := Collect(DetectionSteps(labels, resize, g, width, height, span, threshold), RowCount(|span|, 6)).value;
              forall r: nat :: r < RowCount(|span|, 6) ==>
                6 * r + 5 < |span| &&
                (span[6 * r + 4] >= threshold <==> exists j :: 0 <= j < |out| && out[j].boxIndex == 6 * r)
  {
    var f := DetectionSteps(labels, resize, g, width, height, span, threshold);
    var n := RowCount(|span|, 6);
    DetectionStepsKeyed(labels, resize, g, width, height, span, threshold, n);
    CollectFails(f, n);
    forall r: nat | r < n
      ensures 6 * r + 5 < |span|
      ensures var out := Collect(f, n).value;
                span[6 * r + 4] >= threshold <==> exists j :: 0 <= j < |out| && out[j].boxIndex == 6 * r
    {
      assert f(r) == DetectionRow(labels, resize, g, width, height, span, threshold, 6 * r);
      assert f(r).Ok?;
      CollectKeyFound(f, n, (o: ObjectResult) => o.boxIndex, 6, r);
    }
  }

  /** The loop throws exactly when some row does. */
  lemma DetectionsFail(labels: seq<LabelModel>, resize: ImageResize, g: Gains, width: int, height: int, span: seq<real>, threshold: real)
    ensures Collect(DetectionSteps(labels, resize, g, width, height, span, threshold), RowCount(|span|, 6)).Err? <==>
              exists r: nat :: r < RowCount(|span|, 6) && RowFails(labels, resize, width, height, span, threshold, 6 * r)
  {
    var f := DetectionSteps(labels, resize, g, width, height, span, threshold);
    forall r: nat
      ensures f(r).Err? <==> RowFails(labels, resize, width, height, span, threshold, 6 * r)
    {
      assert f(r) == DetectionRow(labels, resize, g, width, height, span, threshold, 6 * r);
    }
    CollectFails(f, RowCount(|span|, 6));
  }

  /** Unless the clamp throws, every exception a row raises is an index out of range. */
  lemma IndexErrorsOnly(labels: seq<LabelModel>, resize: ImageResize, g: Gains, width: int, height: int, span: seq<real>,
                        threshold: real, n: nat)
    requires !ClampThrows(resize, width, height)
    ensures Collect(DetectionSteps(labels, resize, g, width, height, span, threshold), n).Err? ==>
              Collect(DetectionSteps(labels, resize, g, width, height, span, threshold), n).error == IndexOutOfRange
  {
    var f := DetectionSteps(labels, resize, g, width, height, span, threshold);
    forall r: nat | r < n && f(r).Err?
      ensures f(r).error == IndexOutOfRange
    {
      assert f(r) == DetectionRow(labels, resize, g, width, height, span, threshold, 6 * r);
    }
    CollectFails(f, n);
  }

  /**
   * The stride-6 loop over the buffer it fills under a counter. It returns
   * the number of results, at the front of the buffer; a row that throws
   * passes its exception on, and a kept row that finds the buffer full
   * throws IndexOutOfRangeException.
   */
  method FillBoxes(boxes: array<ObjectResult>, labels: seq<LabelModel>, resize: ImageResize, g: Gains, width: int, height: int,
                   span: seq<real>, threshold: real)
    returns (r: Result<nat>)
    modifies boxes
    ensures var out := Collect(DetectionSteps(labels, resize, g, width, height, span, threshold), RowCount(|span|, 6));
              (r.Ok? <==> out.Ok? && |out.value| <= boxes.Length) &&
              (r.Ok? ==> r.value <= boxes.Length && boxes[..r.value] == out.value) &&
              (r.Err? ==> r.error == (if out.Err? then out.error else IndexOutOfRange))
  {
    ghost var f := DetectionSteps(labels, resize, g, width, height, span, threshold);
    ghost var n := RowCount(|span|, 6);
    var validBoxCount: nat := 0;
    var i := 0;
    ghost var row: nat := 0;
    while i < |span|
      invariant i == 6 * row && row <= n
      invariant validBoxCount <= boxes.Length
      invariant Collect(f, row) == Ok(boxes[..validBoxCount])
      decreases |span| - i
    {
      RowCountBound(|span|, 6, row);
      var step := DetectionRow(labels, resize, g, width, height, span, threshold, i);
      assert step == f(row);
      ghost var before := boxes[..validBoxCount];
      var stored := StoreRow(boxes, validBoxCount, step, f, row, n);
      if stored.Err? {
        if step.Err? {
          StepThrows(f, row, n, before);
        } else {
          IndexErrorsOnly(labels, resize, g, width, height, span, threshold, n);
        }
        return Err(stored.error);
      }
      validBoxCount := stored.value;
      i := i + 6;
      row := row + 1;
    }
    RowCountBound(|span|, 6, row);
    r := Ok(validBoxCount);
  }

  class ObjectDetectionModuleV10 {
    const labels: seq<LabelModel>
    const channels: nat
    const elements: nat
    const options: YoloOptions

    constructor (labels: seq<LabelModel>, channels: nat, elements: nat, options: YoloOptions)
      ensures this.labels == labels && this.channels == channels && this.elements == elements && this.options == options
    {
      this.labels := labels;
      this.channels := channels;
      this.elements := elements;
      this.options := options;
    }

    /**
     * ObjectDetection: the stride-6 loop over a buffer of channels x
     * elements slots, then the Core generation's non-maximum suppression
     * over the valid part of the buffer.
     */
    method ObjectDetection(span: seq<real>, g: Gains, width: int, height: int, threshold: real, iouThreshold: real)
      returns (r: Result<seq<ObjectResult>>, ghost sorted: seq<ObjectResult>)
      ensures var out := Collect(DetectionSteps(labels, options.imageResize, g, width, height, span, threshold), RowCount(|span|, 6));
                (r.Ok? <==> out.Ok? && |out.value| <= channels * elements) &&
                (r.Err? ==> r.error == (if out.Err? then out.error else IndexOutOfRange)) &&
                (r.Ok? ==> multiset(sorted) == multiset(out.value) && SortedDesc(sorted, Confidence) &&
                           r.value == Keep(sorted, OverlapCore(iouThreshold)))
    {
      var boxes := new ObjectResult[channels * elements](_ => NewResult(LabelModel(0, ""), 0.0, RectI(0, 0, 0, 0), RectF(0.0, 0.0, 0.0, 0.0), 0));
      var count := FillBoxes(boxes, labels, options.imageResize, g, width, height, span, threshold);
      if count.Err? {
        return Err(count.error), [];
      }
      var kept;
      kept, sorted := SuppressFound(boxes[..count.value], iouThreshold);
      r := Ok(kept);
    }

    /** ProcessImage: each box of ObjectDetection converted to ObjectDetection, in a new list. */
    method ProcessImage(span: seq<real>, g: Gains, width: int, height: int, threshold: real, iouThreshold: real)
      returns (r: Result<seq<Detection>>)
      ensures var out := Collect(DetectionSteps(labels, options.imageResize, g, width, height, span, threshold), RowCount(|span|, 6));
                (r.Ok? <==> out.Ok? && |out.value| <= channels * elements) &&
                (r.Err? ==> r.error == (if out.Err? then out.error else IndexOutOfRange)) &&
                (r.Ok? ==> exists sorted :: multiset(sorted) == multiset(out.value) && SortedDesc(sorted, Confidence) &&
                                            r.value == ToDetections(Keep(sorted, OverlapCore(iouThreshold))))
    {
      var found, sorted := ObjectDetection(span, g, width, height, threshold, iouThreshold);
      if found.Err? {
        return Err(found.error);
      }
      r := Ok(ToDetections(found.value));
    }
  }

  /**
   * What a successful decode returns: rows read as the layout says, in
   * confidence order, no two overlapping by more than the threshold.
   */
  lemma DecodedBoxes(labels: seq<LabelModel>, resize: ImageResize, g: Gains, width: int, height: int, span: seq<real>,
                     threshold: real, iouThreshold: real, sorted: seq<ObjectResult>)
    requires Collect(DetectionSteps(labels, resize, g, width, height, span, threshold), RowCount(|span|, 6)).Ok?
    requires var out := Collect(DetectionSteps(labels, resize, g, width, height, span, threshold), RowCount(|span|, 6)).value;
               multiset(sorted) == multiset(out) && SortedDesc(sorted, Confidence)
    ensures var kept := Keep(sorted, OverlapCore(iouThreshold));
              SortedDesc(kept, Confidence) &&
              (forall k :: 0 <= k < |kept| ==> DetectionAt(labels, resize, g, width, height, span, threshold, kept[k])) &&
              (forall k, l :: 0 <= k < |kept| && 0 <= l < |kept| && k != l ==>
                 !Exceeds(IoUCore(kept[k].box, kept[l].box), iouThreshold))
  {
    var out := Collect(DetectionSteps(labels, resize, g, width, height, span, threshold), RowCount(|span|, 6)).value;
    Detections(labels, resize, g, width, height, span, threshold);
    Suppressed(out, sorted, OverlapCore(iouThreshold));
    CoreKeptDisjoint(sorted, iouThreshold);
  }
}
