// The V26 object-detection decoder (Modules/V26/ObjectDetectionModuleV26).
// The end-to-end model already suppresses overlaps, so each row of six
// values (x1, y1, x2, y2, confidence, label) becomes a result when its
// confidence reaches the threshold; there is no NMS and the iou argument is
// ignored. Results go into a buffer the module allocates once, of
// channels x elements slots.

module DecodeV26 {
  import opened Common
  import opened Geometry
  import opened Models
  import opened Decoding
  import opened Rows

  /**
   * A V26 row at offset i that throws: it is cut short before its
   * confidence at i+4, or it reaches the threshold and then either is cut
   * short before its last value at i+width-1 or names a label that does
   * not exist.
   */
  predicate RowFails(labels: seq<LabelModel>, span: seq<real>, threshold: real, i: nat, width: nat)
  {
    i + 4 >= |span| || (span[i + 4] >= threshold && (i + width > |span| || !(i + 5 < |span| && 0 <= Trunc(span[i + 5]) < |labels|)))
  }

  /**
   * What every V26 row does first: read the confidence at i+4 and skip the
   * row below the threshold before anything else is read; otherwise read
   * the rest of the row's `width` values and look up the label whose index
   * sits at i+5. Every failure is an index out of range.
   */
  function Head(labels: seq<LabelModel>, span: seq<real>, threshold: real, i: nat, width: nat): (r: Result<Option<(real, LabelModel)>>)
    requires width >= 6
    ensures r.Err? ==> r.error == IndexOutOfRange
    ensures r.Err? <==> RowFails(labels, span, threshold, i, width)
    ensures r == Ok(None) <==> i + 4 < |span| && span[i + 4] < threshold
    ensures Yields(r) ==> i + width <= |span| && 0 <= Trunc(span[i + 5]) < |labels| &&
                          r.value.value == (span[i + 4], labels[Trunc(span[i + 5])]) && span[i + 4] >= threshold
  {
    var confidence := At(span, i + 4);
    if confidence.Err? then Err(confidence.error)
    else if confidence.value < threshold then Ok(None)
    else if i + width > |span| then Err(IndexOutOfRange)
    else
      var named := LabelAt(labels, span[i + 5]);
      if named.Err? then Err(named.error) else Ok(Some((confidence.value, named.value)))
  }

  /** A loop over rows of `width` values each, `stride` apart, throws exactly when one of its rows does. */
  lemma StepsFail(f: nat -> Result<Option<ObjectResult>>, n: nat, labels: seq<LabelModel>, span: seq<real>, threshold: real,
                  stride: nat, width: nat)
    requires forall r: nat :: f(r).Err? <==> RowFails(labels, span, threshold, stride * r, width)
    ensures Collect(f, n).Err? <==> exists r: nat :: r < n && RowFails(labels, span, threshold, stride * r, width)
  {
    CollectFails(f, n);
  }

  /** A row of the detection model: six values, (x1, y1, x2, y2) corners, then confidence and label index. */
  function DetectionRow(labels: seq<LabelModel>, resize: ImageResize, g: Gains, span: seq<real>, threshold: real, i: nat)
    : (r: Result<Option<ObjectResult>>)
    ensures r.Err? ==> r.error == IndexOutOfRange
    ensures r.Err? <==> RowFails(labels, span, threshold, i, 6)
    ensures r == Ok(None) <==> i + 4 < |span| && span[i + 4] < threshold
  {
    var head := Head(labels, span, threshold, i, 6);
    if head.Err? then Err(head.error)
    else if head.value.None? then Ok(None)
    else
      var (confidence, named) := head.value.value;
      var x, y, w, h := span[i], span[i + 1], span[i + 2], span[i + 3];
      Ok(Some(NewResult(named, confidence, CornerBox(resize, g, x, y, w, h), TruncatedBox(x, y, w, h), i)))
  }

  /** The loop's rows: row r starts at offset 6r. */
  function DetectionSteps(labels: seq<LabelModel>, resize: ImageResize, g: Gains, span: seq<real>, threshold: real)
    : nat -> Result<Option<ObjectResult>>
  {
    (r: nat) => DetectionRow(labels, resize, g, span, threshold, 6 * r)
  }

  /** What a kept row holds: its offset, its confidence and label from i+4 and i+5, its corners from i..i+3. */
  ghost predicate DetectionAt(labels: seq<LabelModel>, resize: ImageResize, g: Gains, span: seq<real>, threshold: real, o: ObjectResult)
  {
    var i := o.boxIndex;
    0 <= i && i + 5 < |span| && i % 6 == 0 &&
    o.confidence == span[i + 4] >= threshold &&
    0 <= Trunc(span[i + 5]) < |labels| && o.classLabel == labels[Trunc(span[i + 5])] &&
    o.box == CornerBox(resize, g, span[i], span[i + 1], span[i + 2], span[i + 3]) &&
    o.unscaled == TruncatedBox(span[i], span[i + 1], span[i + 2], span[i + 3]) &&
    o.mask == [] && o.keyPoints == [] && o.angle == 0.0
  }

  lemma DetectionStepsKeyed(labels: seq<LabelModel>, resize: ImageResize, g: Gains, span: seq<real>, threshold: real, n: nat)
    ensures KeyedByRow(DetectionSteps(labels, resize, g, span, threshold), n, (o: ObjectResult) => o.boxIndex, 6)
    ensures OnlyIndexErrors(DetectionSteps(labels, resize, g, span, threshold), n)
  {
  }

  /** A row is decoded exactly when its confidence reaches the threshold. */
  lemma DetectionOfRow(labels: seq<LabelModel>, resize: ImageResize, g: Gains, span: seq<real>, threshold: real, r: nat)
    requires Collect(DetectionSteps(labels, resize, g, span, threshold), RowCount(|span|, 6)).Ok?
    requires r < RowCount(|span|, 6)
    ensures 6 * r + 4 < |span|
    ensures var out := Collect(DetectionSteps(labels, resize, g, span, threshold), RowCount(|span|, 6)).value;
              span[6 * r + 4] >= threshold <==> exists j :: 0 <= j < |out| && out[j].boxIndex == 6 * r
  {
    var f := DetectionSteps(labels, resize, g, span, threshold);
    var n := RowCount(|span|, 6);
    DetectionStepsKeyed(labels, resize, g, span, threshold, n);
    CollectFails(f, n);
    assert f(r).Ok?;
    assert f(r) == DetectionRow(labels, resize, g, span, threshold, 6 * r);
    CollectKeyFound(f, n, (o: ObjectResult) => o.boxIndex, 6, r);
  }

  /**
   * The decoded rows, when no row throws: at most one result per row, so no
   * more than the tensor has values; each result is the row at its
   * BoundingBoxIndex read as the layout says; results follow tensor order;
   * and a row is among them exactly when its confidence reaches the
   * threshold.
   */
  lemma Detections(labels: seq<LabelModel>, resize: ImageResize, g: Gains, span: seq<real>, threshold: real)
    requires Collect(DetectionSteps(labels, resize, g, span, threshold), RowCount(|span|, 6)).Ok?
    ensures var out := Collect(DetectionSteps(labels, resize, g, span, threshold), RowCount(|span|, 6)).value;
              |out| <= RowCount(|span|, 6) <= |span| &&
              (forall j :: 0 <= j < |out| ==> DetectionAt(labels, resize, g, span, threshold, out[j])) &&
              (forall j, k :: 0 <= j < k < |out| ==> out[j].boxIndex < out[k].boxIndex)
    ensures var out := Collect(DetectionSteps(labels, resize, g, span, threshold), RowCount(|span|, 6)).value;
              forall r: nat :: r < RowCount(|span|, 6) ==>
                6 * r + 4 < |span| &&
                (span[6 * r + 4] >= threshold <==> exists j :: 0 <= j < |out| && out[j].boxIndex == 6 * r)
  {
    var f := DetectionSteps(labels, resize, g, span, threshold);
    var n := RowCount(|span|, 6);
    CollectKept(f, n);
    RowCountAtMostLength(|span|, 6);
    DetectionRowsAt(labels, resize, g, span, threshold, n);
    CollectAll(f, n, o => DetectionAt(labels, resize, g, span, threshold, o));
    DetectionStepsKeyed(labels, resize, g, span, threshold, n);
    CollectKeysIncrease(f, n, (o: ObjectResult) => o.boxIndex, 6);
    DetectionsKept(labels, resize, g, span, threshold);
  }

  /** Every row that yields a result yields one read as the layout says. */
  lemma DetectionRowsAt(labels: seq<LabelModel>, resize: ImageResize, g: Gains, span: seq<real>, threshold: real, n: nat)
    ensures var f := DetectionSteps(labels, resize, g, span, threshold);
              forall r: nat :: r < n && Yields(f(r)) ==> DetectionAt(labels, resize, g, span, threshold, f(r).value.value)
  {
    var f := DetectionSteps(labels, resize, g, span, threshold);
    forall r: nat | r < n && Yields(f(r))
      ensures DetectionAt(labels, resize, g, span, threshold, f(r).value.value)
    {
      assert f(r) == DetectionRow(labels, resize, g, span, threshold, 6 * r);
      DetectionRowAt(labels, resize, g, span, threshold, 6 * r);
    }
  }

  /** A row that yields a result yields the one the layout describes, keyed by its own offset. */
  lemma DetectionRowAt(labels: seq<LabelModel>, resize: ImageResize, g: Gains, span: seq<real>, threshold: real, i: nat)
    requires i % 6 == 0 && Yields(DetectionRow(labels, resize, g, span, threshold, i))
    ensures var o := DetectionRow(labels, resize, g, span, threshold, i).value.value;
              o.boxIndex == i && DetectionAt(labels, resize, g, span, threshold, o)
  {
  }

  /** When no row throws, a row is among the decoded ones exactly when its confidence reaches the threshold. */
  lemma DetectionsKept(labels: seq<LabelModel>, resize: ImageResize, g: Gains, span: seq<real>, threshold: real)
    requires Collect(DetectionSteps(labels, resize, g, span, threshold), RowCount(|span|, 6)).Ok?
    ensures var out := Collect(DetectionSteps(labels, resize, g, span, threshold), RowCount(|span|, 6)).value;
              forall r: nat :: r < RowCount(|span|, 6) ==>
                6 * r + 4 < |span| &&
                (span[6 * r + 4] >= threshold <==> exists j :: 0 <= j < |out| && out[j].boxIndex == 6 * r)
  {
    forall r: nat | r < RowCount(|span|, 6)
      ensures 6 * r + 4 < |span|
      ensures var out := Collect(DetectionSteps(labels, resize, g, span, threshold), RowCount(|span|, 6)).value;
                span[6 * r + 4] >= threshold <==> exists j :: 0 <= j < |out| && out[j].boxIndex == 6 * r
    {
      DetectionOfRow(labels, resize, g, span, threshold, r);
    }
  }

  /** The loop throws exactly when some row does. */
  lemma DetectionsFail(labels: seq<LabelModel>, resize: ImageResize, g: Gains, span: seq<real>, threshold: real)
    ensures Collect(DetectionSteps(labels, resize, g, span, threshold), RowCount(|span|, 6)).Err? <==>
              exists r: nat :: r < RowCount(|span|, 6) && RowFails(labels, span, threshold, 6 * r, 6)
  {
    var f := DetectionSteps(labels, resize, g, span, threshold);
    forall r: nat
      ensures f(r).Err? <==> RowFails(labels, span, threshold, 6 * r, 6)
    {
      assert f(r) == DetectionRow(labels, resize, g, span, threshold, 6 * r);
    }
    CollectFails(f, RowCount(|span|, 6));
  }

  /** A buffer with a slot per tensor value never overflows: there are never more results than values. */
  lemma DetectionsFit(labels: seq<LabelModel>, resize: ImageResize, g: Gains, span: seq<real>, threshold: real, capacity: int)
    requires |span| <= capacity
    requires Collect(DetectionSteps(labels, resize, g, span, threshold), RowCount(|span|, 6)).Ok?
    ensures |Collect(DetectionSteps(labels, resize, g, span, threshold), RowCount(|span|, 6)).value| <= capacity
  {
    Detections(labels, resize, g, span, threshold);
  }

  /**
   * The stride-6 loop of ObjectDetection over the buffer it fills under a
   * counter. It returns the number of results, which sit at the front of
   * the buffer; a row that throws, or a kept row that finds the buffer
   * full, ends the call with IndexOutOfRangeException.
   */
  method FillBoxes(boxes: array<ObjectResult>, labels: seq<LabelModel>, resize: ImageResize, g: Gains, span: seq<real>, threshold: real)
    returns (r: Result<nat>)
    modifies boxes
    ensures var out := Collect(DetectionSteps(labels, resize, g, span, threshold), RowCount(|span|, 6));
              (r.Ok? <==> out.Ok? && |out.value| <= boxes.Length) &&
              (r.Ok? ==> r.value <= boxes.Length && boxes[..r.value] == out.value) &&
              (r.Err? ==> r.error == IndexOutOfRange)
  {
    ghost var f := DetectionSteps(labels, resize, g, span, threshold);
    ghost var n := RowCount(|span|, 6);
    var validBoxCount: nat := 0;
    var i := 0;
    ghost var row: nat := 0;
    while i < |span|
      invariant i == 6 * row && row <= n
      invariant validBoxCount <= boxes.Length
      invariant Collect(f, row) == Ok(boxes[..validBoxCount])
      decreases |span| - i
    {
      RowCountBound(|span|, 6, row);
      var step := DetectionRow(labels, resize, g, span, threshold, i);
      assert step == f(row);
      var stored := StoreRow(boxes, validBoxCount, step, f, row, n);
      if stored.Err? {
        assert Collect(f, n).Err? || |Collect(f, n).value| > boxes.Length;
        return Err(stored.error);
      }
      validBoxCount := stored.value;
      i := i + 6;
      row := row + 1;
    }
    RowCountBound(|span|, 6, row);
    assert row == n && Collect(f, n) == Ok(boxes[..validBoxCount]);
    r := Ok(validBoxCount);
  }

  class ObjectDetectionModuleV26 {
    const labels: seq<LabelModel>
    const options: YoloOptions
    /** `_boxes`: allocated once with channels x elements slots and refilled on every call. */
    const boxes: array<ObjectResult>
    /** `_results`: the list ProcessImage clears, refills and returns. */
    const results: ResultList<Detection>

    /** A negative shape product would make the array allocation throw; Create handles that case. */
    constructor (labels: seq<LabelModel>, options: YoloOptions, channels: int, elements: int)
      requires channels * elements >= 0
      ensures this.labels == labels && this.options == options
      ensures fresh(boxes) && boxes.Length == channels * elements
      ensures fresh(results) && results.items == []
    {
      this.labels := labels;
      this.options := options;
      boxes := new ObjectResult[channels * elements];
      results := new ResultList<Detection>();
    }

    /**
     * Building the module: a negative channels x elements product makes the
     * allocation of `_boxes` throw OverflowException.
     */
    static method Create(labels: seq<LabelModel>, options: YoloOptions, channels: int, elements: int)
      returns (r: Result<ObjectDetectionModuleV26>)
      ensures channels * elements < 0 <==> r == Err(Overflow)
      ensures r.Ok? ==> fresh(r.value) && fresh(r.value.boxes) && r.value.boxes.Length == channels * elements &&
                        r.value.results.items == []
    {
      if channels * elements < 0 {
        return Err(Overflow);
      }
      var m := new ObjectDetectionModuleV26(labels, options, channels, elements);
      r := Ok(m);
    }

    /**
     * ObjectDetection: the stride-6 loop filling `_boxes` under a counter.
     * It returns the number of results, which sit at the front of `_boxes`;
     * a row that throws, or a kept row that finds the buffer full, ends the
     * call with IndexOutOfRangeException.
     */
    method ObjectDetection(span: seq<real>, threshold: real, g: Gains) returns (r: Result<nat>)
      modifies boxes
      ensures var out := Collect(DetectionSteps(labels, options.imageResize, g, span, threshold), RowCount(|span|, 6));
                (r.Ok? <==> out.Ok? && |out.value| <= boxes.Length) &&
                (r.Ok? ==> r.value <= boxes.Length && boxes[..r.value] == out.value) &&
                (r.Err? ==> r.error == IndexOutOfRange)
    {
      r := FillBoxes(boxes, labels, options.imageResize, g, span, threshold);
    }

    /**
     * ProcessImage: decode, then clear `_results` and add each result
     * converted to ObjectDetection, and return that same list. When the
     * decoder throws the list is left as it was.
     */
    method ProcessImage(span: seq<real>, threshold: real, g: Gains) returns (r: Result<ResultList<Detection>>)
      modifies boxes, results
      ensures var out := Collect(DetectionSteps(labels, options.imageResize, g, span, threshold), RowCount(|span|, 6));
                (out.Ok? && |out.value| <= boxes.Length ==> r == Ok(results) && results.items == ToDetections(out.value)) &&
                (!(out.Ok? && |out.value| <= boxes.Length) ==> r == Err(IndexOutOfRange) && results.items == old(results.items))
    {
      var count := ObjectDetection(span, threshold, g);
      if count.Err? {
        return Err(count.error);
      }
      var list := Decoding.ProcessImage(results, ToDetections(boxes[..count.value]));
      r := Ok(list);
    }
  }
}
