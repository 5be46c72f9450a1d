// The V26 oriented-box decoder (Modules/V26/OBBDetectionModuleV26). Rows of
// `elements` values hold a centre, a size, the confidence, the label index
// and the angle; the module forces proportional resizing on the shared
// options when it is built, always scales by xGain, and applies no NMS.

module DecodeV26Obb {
  import opened Common
  import opened Geometry
  import opened Models
  import opened Decoding
  import opened Rows
  import opened DecodeV26

  /**
   * The corners of a centre/size box under proportional resizing: half the
   * size either side of the centre, padding removed, and xGain on both axes.
   */
  function ObbCorners(g: Gains, x: real, y: real, w: real, h: real): RectI
  {
    var halfW, halfH := w / 2.0, h / 2.0;
    RectI(Trunc((x - halfW - g.xPad) * g.xGain), Trunc((y - halfH - g.yPad) * g.xGain),
          Trunc((x + halfW - g.xPad) * g.xGain), Trunc((y + halfH - g.yPad) * g.xGain))
  }

  /** A row at offset i: seven values read, with the angle at i+6. */
  function ObbRow(labels: seq<LabelModel>, g: Gains, span: seq<real>, threshold: real, i: nat)
    : (r: Result<Option<ObjectResult>>)
    ensures r.Err? ==> r.error == IndexOutOfRange
    ensures r.Err? <==> RowFails(labels, span, threshold, i, 7)
    ensures r == Ok(None) <==> i + 4 < |span| && span[i + 4] < threshold
  {
    var head := Head(labels, span, threshold, i, 7);
    if head.Err? then Err(head.error)
    else if head.value.None? then Ok(None)
    else
      var (confidence, named) := head.value.value;
      var x, y, w, h := span[i], span[i + 1], span[i + 2], span[i + 3];
      Ok(Some(NewResult(named, confidence, ObbCorners(g, x, y, w, h), TruncatedBox(x, y, w, h), i).(angle := span[i + 6])))
  }

  function ObbSteps(labels: seq<LabelModel>, g: Gains, span: seq<real>, threshold: real, stride: Stride)
    : nat -> Result<Option<ObjectResult>>
  {
    (r: nat) => ObbRow(labels, g, span, threshold, stride * r)
  }

  /**
   * What a kept row holds: the confidence and label from i+4 and i+5, the
   * corners of its centre and size, the truncated model-space box, the angle
   * from i+6.
   */
  ghost predicate ObbAt(labels: seq<LabelModel>, g: Gains, span: seq<real>, threshold: real, o: ObjectResult)
  {
    var i := o.boxIndex;
    0 <= i && i + 6 < |span| &&
    o.confidence == span[i + 4] >= threshold &&
    0 <= Trunc(span[i + 5]) < |labels| && o.classLabel == labels[Trunc(span[i + 5])] &&
    o.box == ObbCorners(g, span[i], span[i + 1], span[i + 2], span[i + 3]) &&
    o.unscaled == TruncatedBox(span[i], span[i + 1], span[i + 2], span[i + 3]) &&
    o.angle == span[i + 6] && o.mask == [] && o.keyPoints == []
  }

  /** Row r is decoded exactly when its confidence reaches the threshold. */
  lemma ObbOfRow(labels: seq<LabelModel>, g: Gains, span: seq<real>, threshold: real, stride: Stride, out: seq<ObjectResult>, r: nat)
    requires Collect(ObbSteps(labels, g, span, threshold, stride), RowCount(|span|, stride)).Ok?
    requires out == Collect(ObbSteps(labels, g, span, threshold, stride), RowCount(|span|, stride)).value
    requires r < RowCount(|span|, stride)
    ensures stride * r + 4 < |span| &&
            (span[stride * r + 4] >= threshold <==> exists j :: 0 <= j < |out| && out[j].boxIndex == stride * r)
  {
    var f := ObbSteps(labels, g, span, threshold, stride);
    var n := RowCount(|span|, stride);
    assert KeyedByRow(f, n, (o: ObjectResult) => o.boxIndex, stride);
    CollectFails(f, n);
    assert f(r) == ObbRow(labels, g, span, threshold, stride * r);
    assert f(r).Ok?;
    CollectKeyFound(f, n, (o: ObjectResult) => o.boxIndex, stride, r);
  }

  /**
   * The decoded rows when no row throws: each is its row read as the layout
   * says, they follow tensor order, there are no more than the tensor has
   * values, and a row is among them exactly when its confidence reaches
   * the threshold.
   */
  lemma ObbDetections(labels: seq<LabelModel>, g: Gains, span: seq<real>, threshold: real, stride: Stride)
    requires Collect(ObbSteps(labels, g, span, threshold, stride), RowCount(|span|, stride)).Ok?
    ensures var out := Collect(ObbSteps(labels, g, span, threshold, stride), RowCount(|span|, stride)).value;
              |out| <= |span| &&
              (forall j :: 0 <= j < |out| ==> ObbAt(labels, g, span, threshold, out[j])) &&
              (forall j, k :: 0 <= j < k < |out| ==> out[j].boxIndex < out[k].boxIndex)
    ensures var out := Collect(ObbSteps(labels, g, span, threshold, stride), RowCount(|span|, stride)).value;
              forall r: nat :: r < RowCount(|span|, stride) ==>
                stride * r + 4 < |span| &&
                (span[stride * r + 4] >= threshold <==> exists j :: 0 <= j < |out| && out[j].boxIndex == stride * r)
  {
    var f := ObbSteps(labels, g, span, threshold, stride);
    var n := RowCount(|span|, stride);
    CollectKept(f, n);
    RowCountAtMostLength(|span|, stride);
    ObbRowsAt(labels, g, span, threshold, stride, n);
    CollectAll(f, n, o => ObbAt(labels, g, span, threshold, o));
    assert KeyedByRow(f, n, (o: ObjectResult) => o.boxIndex, stride);
    CollectKeysIncrease(f, n, (o: ObjectResult) => o.boxIndex, stride);
    ObbDetectionsKept(labels, g, span, threshold, stride);
  }

  /** Every row that yields a result yields one read as the layout says, keyed by its own offset. */
  lemma ObbRowsAt(labels: seq<LabelModel>, g: Gains, span: seq<real>, threshold: real, stride: Stride, n: nat)
    ensures var f := ObbSteps(labels, g, span, threshold, stride);
              forall r: nat :: r < n && Yields(f(r)) ==> ObbAt(labels, g, span, threshold, f(r).value.value)
  {
    var f := ObbSteps(labels, g, span, threshold, stride);
    forall r: nat | r < n && Yields(f(r))
      ensures ObbAt(labels, g, span, threshold, f(r).value.value)
    {
      assert f(r) == ObbRow(labels, g, span, threshold, stride * r);
    }
  }

  /** When no row throws, a row is among the decoded ones exactly when its confidence reaches the threshold. */
  lemma ObbDetectionsKept(labels: seq<LabelModel>, g: Gains, span: seq<real>, threshold: real, stride: Stride)
    requires Collect(ObbSteps(labels, g, span, threshold, stride), RowCount(|span|, stride)).Ok?
    ensures var out := Collect(ObbSteps(labels, g, span, threshold, stride), RowCount(|span|, stride)).value;
              forall r: nat :: r < RowCount(|span|, stride) ==>
                stride * r + 4 < |span| &&
                (span[stride * r + 4] >= threshold <==> exists j :: 0 <= j < |out| && out[j].boxIndex == stride * r)
  {
    var n := RowCount(|span|, stride);
    var out := Collect(ObbSteps(labels, g, span, threshold, stride), n).value;
    forall r: nat | r < n
      ensures stride * r + 4 < |span| &&
              (span[stride * r + 4] >= threshold <==> exists j :: 0 <= j < |out| && out[j].boxIndex == stride * r)
    {
      ObbOfRow(labels, g, span, threshold, stride, out, r);
    }
  }

  /** The loop throws exactly when some row does. */
  lemma ObbDetectionsFail(labels: seq<LabelModel>, g: Gains, span: seq<real>, threshold: real, stride: Stride)
    ensures Collect(ObbSteps(labels, g, span, threshold, stride), RowCount(|span|, stride)).Err? <==>
              exists r: nat :: r < RowCount(|span|, stride) && RowFails(labels, span, threshold, stride * r, 7)
  {
    var f := ObbSteps(labels, g, span, threshold, stride);
    forall r: nat
      ensures f(r).Err? <==> RowFails(labels, span, threshold, stride * r, 7)
    {
      assert f(r) == ObbRow(labels, g, span, threshold, stride * r);
    }
    CollectFails(f, RowCount(|span|, stride));
  }

  class OBBDetectionModuleV26 {
    const labels: seq<LabelModel>
    const options: YoloOptions
    /** `_stride`: the output's elements per row; a stride of 0 would never leave the loop. */
    const stride: Stride
    /** `_totalElements`: channels x elements, the size of the buffer rented on every call. */
    const totalElements: int
    const results: ResultList<OBBDetection>

    /** The constructor overrides the caller's resize mode: OBB boxes are only valid under proportional resizing. */
    constructor (labels: seq<LabelModel>, options: YoloOptions, channels: int, elements: int)
      requires elements >= 1
      modifies options
      ensures this.labels == labels && this.options == options && options.imageResize == Proportional
      ensures stride == elements && totalElements == channels * elements
      ensures fresh(results) && results.items == []
    {
      this.labels := labels;
      this.options := options;
      stride := elements;
      totalElements := channels * elements;
      results := new ResultList<OBBDetection>();
      options.imageResize := Proportional;
    }

    /**
     * ObjectDetection: rent a buffer of totalElements slots (a negative size
     * throws ArgumentOutOfRangeException), fill it with the kept rows in
     * tensor order under a counter, and hand back its filled front. The
     * overlap threshold is not used.
     */
    method ObjectDetection(span: seq<real>, threshold: real, overlapThreshold: real, g: Gains) returns (r: Result<seq<ObjectResult>>)
      ensures totalElements < 0 ==> r == Err(ArgumentOutOfRange)
      ensures var out := Collect(ObbSteps(labels, g, span, threshold, stride), RowCount(|span|, stride));
                totalElements >= 0 ==>
                  (r.Ok? <==> out.Ok? && |out.value| <= totalElements) &&
                  (r.Ok? ==> r.value == out.value) &&
                  (r.Err? ==> r.error == IndexOutOfRange)
    {
      if totalElements < 0 {
        return Err(ArgumentOutOfRange);
      }
      var boxes := new ObjectResult[totalElements];
      ghost var f := ObbSteps(labels, g, span, threshold, stride);
      ghost var n := RowCount(|span|, stride);
      var validBoxCount: nat := 0;
      var i := 0;
      ghost var row: nat := 0;
      while i < |span|
        invariant i == row * stride && row <= n
        invariant validBoxCount <= boxes.Length
        invariant Collect(f, row) == Ok(boxes[..validBoxCount])
        decreases |span| - i
      {
        RowCountBound(|span|, stride, row);
        var step := ObbRow(labels, g, span, threshold, i);
        assert step == f(row);
        var stored := StoreRow(boxes, validBoxCount, step, f, row, n);
        if stored.Err? {
          return Err(stored.error);
        }
        validBoxCount := stored.value;
        assert (row + 1) * stride == row * stride + stride;
        i := i + stride;
        row := row + 1;
      }
      RowCountBound(|span|, stride, row);
      r := Ok(boxes[..validBoxCount]);
    }

    /** ProcessImage: decode, then refill `_results` with each result converted to OBBDetection and return that list. */
    method ProcessImage(span: seq<real>, threshold: real, iou: real, g: Gains) returns (r: Result<ResultList<OBBDetection>>)
      modifies results
      ensures var out := Collect(ObbSteps(labels, g, span, threshold, stride), RowCount(|span|, stride));
                (totalElements >= 0 && out.Ok? && |out.value| <= totalElements ==>
                   r == Ok(results) && results.items == seq(|out.value|, k requires 0 <= k < |out.value| => ToObb(out.value[k]))) &&
                (!(totalElements >= 0 && out.Ok? && |out.value| <= totalElements) ==>
                   r.Err? && results.items == old(results.items))
    {
      var detections := ObjectDetection(span, threshold, iou, g);
      if detections.Err? {
        return Err(detections.error);
      }
      var d := detections.value;
      var list := Decoding.ProcessImage(results, seq(|d|, k requires 0 <= k < |d| => ToObb(d[k])));
      r := Ok(list);
    }
  }
}
