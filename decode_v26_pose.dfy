// The V26 pose decoder (Modules/V26/PoseEstimationModuleV26). A row of
// `elements` values holds (x1, y1, x2, y2), the confidence, the label index
// and then (x, y, confidence) for each keypoint. The module sizes a keypoint
// array once and overwrites it for every kept row; each result gets its own
// copy.

module DecodeV26Pose {
  import opened Common
  import opened Geometry
  import opened Models
  import opened Decoding
  import opened Rows
  import opened DecodeV26

  /** `(elements - 6) / 3` in C#'s truncating division: the keypoints a row of `elements` values holds. */
  function TotalKeyPoints(elements: int): int
  {
    TruncDiv(elements - 6, 3)
  }

  /** A row long enough for its head holds exactly as many whole keypoints as fit after it. */
  lemma TotalKeyPointsFit(elements: int)
    requires elements >= 6
    ensures TotalKeyPoints(elements) >= 0
    ensures 6 + 3 * TotalKeyPoints(elements) <= elements < 6 + 3 * (TotalKeyPoints(elements) + 1)
  {
  }

  /** Shapes with fewer than four values per row make the keypoint array's size negative. */
  lemma TotalKeyPointsNegative(elements: int)
    ensures TotalKeyPoints(elements) < 0 <==> elements <= 3
  {
  }

  /** One keypoint read from k, k+1, k+2 and mapped back to the image like the box corners. */
  function KeyPointAt(resize: ImageResize, g: Gains, span: seq<real>, k: nat): KeyPoint
    requires k + 2 < |span|
  {
    match resize
    case Proportional =>
      KeyPoint(Trunc((span[k] - g.xPad) * g.xGain), Trunc((span[k + 1] - g.yPad) * g.xGain), span[k + 2])
    case Stretched =>
      KeyPoint(Trunc(span[k] / g.xGain), Trunc(span[k + 1] / g.yGain), span[k + 2])
  }

  /** The `total` keypoints of a row whose keypoint data starts at `offset`: keypoint j at offset + 3j. */
  function KeyPointsAt(resize: ImageResize, g: Gains, span: seq<real>, offset: nat, total: nat): (r: seq<KeyPoint>)
    requires offset + 3 * total <= |span|
    ensures |r| == total
  {
    seq(total, j requires 0 <= j < total => KeyPointAt(resize, g, span, offset + 3 * j))
  }

  /** A row at offset i: its head, then `total` keypoints from i+6 on. */
  function PoseRow(labels: seq<LabelModel>, resize: ImageResize, g: Gains, span: seq<real>, threshold: real, total: nat, i: nat)
    : (r: Result<Option<ObjectResult>>)
    ensures r.Err? ==> r.error == IndexOutOfRange
    ensures r.Err? <==> RowFails(labels, span, threshold, i, 6 + 3 * total)
    ensures r == Ok(None) <==> i + 4 < |span| && span[i + 4] < threshold
  {
    var head := Head(labels, span, threshold, i, 6 + 3 * total);
    if head.Err? then Err(head.error)
    else if head.value.None? then Ok(None)
    else
      var (confidence, named) := head.value.value;
      var x, y, w, h := span[i], span[i + 1], span[i + 2], span[i + 3];
      Ok(Some(NewResult(named, confidence, CornerBox(resize, g, x, y, w, h), TruncatedBox(x, y, w, h), i)
                .(keyPoints := KeyPointsAt(resize, g, span, i + 6, total))))
  }

  function PoseSteps(labels: seq<LabelModel>, resize: ImageResize, g: Gains, span: seq<real>, threshold: real, total: nat, stride: Stride)
    : nat -> Result<Option<ObjectResult>>
  {
    (r: nat) => PoseRow(labels, resize, g, span, threshold, total, stride * r)
  }

  /** What a kept row holds: confidence and label from i+4 and i+5, its corners and truncated model-space box, and exactly `total` keypoints, keypoint j from i+6+3j. */
  ghost predicate PoseAt(labels: seq<LabelModel>, resize: ImageResize, g: Gains, span: seq<real>, threshold: real, total: nat, o: ObjectResult)
  {
    var i := o.boxIndex;
    0 <= i && i + 6 + 3 * total <= |span| &&
    o.confidence == span[i + 4] >= threshold &&
    0 <= Trunc(span[i + 5]) < |labels| && o.classLabel == labels[Trunc(span[i + 5])] &&
    o.box == CornerBox(resize, g, span[i], span[i + 1], span[i + 2], span[i + 3]) &&
    o.unscaled == TruncatedBox(span[i], span[i + 1], span[i + 2], span[i + 3]) &&
    |o.keyPoints| == total &&
    (forall j :: 0 <= j < total ==> o.keyPoints[j] == KeyPointAt(resize, g, span, i + 6 + 3 * j))
  }

  /** Row r is decoded exactly when its confidence reaches the threshold. */
  lemma PoseOfRow(labels: seq<LabelModel>, resize: ImageResize, g: Gains, span: seq<real>, threshold: real, total: nat, stride: Stride,
                  out: seq<ObjectResult>, r: nat)
    requires Collect(PoseSteps(labels, resize, g, span, threshold, total, stride), RowCount(|span|, stride)).Ok?
    requires out == Collect(PoseSteps(labels, resize, g, span, threshold, total, stride), RowCount(|span|, stride)).value
    requires r < RowCount(|span|, stride)
    ensures stride * r + 4 < |span| &&
            (span[stride * r + 4] >= threshold <==> exists j :: 0 <= j < |out| && out[j].boxIndex == stride * r)
  {
    var f := PoseSteps(labels, resize, g, span, threshold, total, stride);
    var n := RowCount(|span|, stride);
    assert KeyedByRow(f, n, (o: ObjectResult) => o.boxIndex, stride);
    CollectFails(f, n);
    assert f(r) == PoseRow(labels, resize, g, span, threshold, total, stride * r);
    assert f(r).Ok?;
    CollectKeyFound(f, n, (o: ObjectResult) => o.boxIndex, stride, r);
  }

  /**
   * The decoded rows when no row throws: each is its row read as the layout
   * says, with its own `total` keypoints; they follow tensor order; and a
   * row is among them exactly when its confidence reaches the threshold.
   */
  lemma PoseDetections(labels: seq<LabelModel>, resize: ImageResize, g: Gains, span: seq<real>, threshold: real, total: nat, stride: Stride)
    requires Collect(PoseSteps(labels, resize, g, span, threshold, total, stride), RowCount(|span|, stride)).Ok?
    ensures var out := Collect(PoseSteps(labels, resize, g, span, threshold, total, stride), RowCount(|span|, stride)).value;
              |out| <= |span| &&
              (forall j :: 0 <= j < |out| ==> PoseAt(labels, resize, g, span, threshold, total, out[j])) &&
              (forall j, k :: 0 <= j < k < |out| ==> out[j].boxIndex < out[k].boxIndex)
    ensures var out := Collect(PoseSteps(labels, resize, g, span, threshold, total, stride), RowCount(|span|, stride)).value;
              forall r: nat :: r < RowCount(|span|, stride) ==>
                stride * r + 4 < |span| &&
                (span[stride * r + 4] >= threshold <==> exists j :: 0 <= j < |out| && out[j].boxIndex == stride * r)
  {
    var f := PoseSteps(labels, resize, g, span, threshold, total, stride);
    var n := RowCount(|span|, stride);
    CollectKept(f, n);
    RowCountAtMostLength(|span|, stride);
    PoseRowsAt(labels, resize, g, span, threshold, total, stride, n);
    CollectAll(f, n, o => PoseAt(labels, resize, g, span, threshold, total, o));
    assert KeyedByRow(f, n, (o: ObjectResult) => o.boxIndex, stride);
    CollectKeysIncrease(f, n, (o: ObjectResult) => o.boxIndex, stride);
    PoseDetectionsKept(labels, resize, g, span, threshold, total, stride);
  }

  /** Every row that yields a result yields one read as the layout says. */
  lemma PoseRowsAt(labels: seq<LabelModel>, resize: ImageResize, g: Gains, span: seq<real>, threshold: real, total: nat, stride: Stride, n: nat)
    ensures var f := PoseSteps(labels, resize, g, span, threshold, total, stride);
              forall r: nat :: r < n && Yields(f(r)) ==> PoseAt(labels, resize, g, span, threshold, total, f(r).value.value)
  {
    var f := PoseSteps(labels, resize, g, span, threshold, total, stride);
    forall r: nat | r < n && Yields(f(r))
      ensures PoseAt(labels, resize, g, span, threshold, total, f(r).value.value)
    {
      assert f(r) == PoseRow(labels, resize, g, span, threshold, total, stride * r);
    }
  }

  /** When no row throws, a row is among the decoded ones exactly when its confidence reaches the threshold. */
  lemma PoseDetectionsKept(labels: seq<LabelModel>, resize: ImageResize, g: Gains, span: seq<real>, threshold: real, total: nat, stride: Stride)
    requires Collect(PoseSteps(labels, resize, g, span, threshold, total, stride), RowCount(|span|, stride)).Ok?
    ensures var out := Collect(PoseSteps(labels, resize, g, span, threshold, total, stride), RowCount(|span|, stride)).value;
              forall r: nat :: r < RowCount(|span|, stride) ==>
                stride * r + 4 < |span| &&
                (span[stride * r + 4] >= threshold <==> exists j :: 0 <= j < |out| && out[j].boxIndex == stride * r)
  {
    var n := RowCount(|span|, stride);
    var out := Collect(PoseSteps(labels, resize, g, span, threshold, total, stride), n).value;
    forall r: nat | r < n
      ensures stride * r + 4 < |span| &&
              (span[stride * r + 4] >= threshold <==> exists j :: 0 <= j < |out| && out[j].boxIndex == stride * r)
    {
      PoseOfRow(labels, resize, g, span, threshold, total, stride, out, r);
    }
  }

  /** The loop throws exactly when some row does; a kept row must hold its head and all its keypoints. */
  lemma PoseDetectionsFail(labels: seq<LabelModel>, resize: ImageResize, g: Gains, span: seq<real>, threshold: real, total: nat, stride: Stride)
    ensures Collect(PoseSteps(labels, resize, g, span, threshold, total, stride), RowCount(|span|, stride)).Err? <==>
              exists r: nat :: r < RowCount(|span|, stride) && RowFails(labels, span, threshold, stride * r, 6 + 3 * total)
  {
    var f := PoseSteps(labels, resize, g, span, threshold, total, stride);
    var width := 6 + 3 * total;
    forall r: nat
      ensures f(r).Err? <==> RowFails(labels, span, threshold, stride * r, width)
    {
      assert f(r) == PoseRow(labels, resize, g, span, threshold, total, stride * r);
    }
    StepsFail(f, RowCount(|span|, stride), labels, span, threshold, stride, width);
  }

  class PoseEstimationModuleV26 {
    const labels: seq<LabelModel>
    const options: YoloOptions
    const stride: Stride
    const totalElements: int
    const totalKeyPoints: nat
    /** `_keyPoints`: one slot per keypoint, overwritten by every kept row. */
    const keyPoints: array<KeyPoint>

    constructor (labels: seq<LabelModel>, options: YoloOptions, channels: int, elements: Stride)
      requires TotalKeyPoints(elements) >= 0
      ensures this.labels == labels && this.options == options
      ensures stride == elements && totalElements == channels * elements
      ensures totalKeyPoints == TotalKeyPoints(elements)
      ensures fresh(keyPoints) && keyPoints.Length == totalKeyPoints
    {
      this.labels := labels;
      this.options := options;
      stride := elements;
      totalElements := channels * elements;
      totalKeyPoints := TotalKeyPoints(elements);
      keyPoints := new KeyPoint[TotalKeyPoints(elements)];
    }

    /**
     * Building the module: when the keypoint count comes out negative the
     * keypoint array's allocation throws OverflowException.
     */
    static method Create(labels: seq<LabelModel>, options: YoloOptions, channels: int, elements: Stride)
      returns (r: Result<PoseEstimationModuleV26>)
      ensures TotalKeyPoints(elements) < 0 <==> r == Err(Overflow)
      ensures r.Ok? ==> fresh(r.value) && r.value.totalKeyPoints == TotalKeyPoints(elements) &&
                        r.value.keyPoints.Length == r.value.totalKeyPoints && r.value.stride == elements
    {
      if TotalKeyPoints(elements) < 0 {
        return Err(Overflow);
      }
      var m := new PoseEstimationModuleV26(labels, options, channels, elements);
      r := Ok(m);
    }

    /**
     * The body of the loop for one row: the confidence first, then the
     * label index, then the keypoint loop into `_keyPoints`, then the label
     * lookup and a copy of the keypoints into the result.
     */
    method DecodeRow(span: seq<real>, threshold: real, g: Gains, resize: ImageResize, i: nat)
      returns (step: Result<Option<ObjectResult>>)
      requires keyPoints.Length == totalKeyPoints
      modifies keyPoints
      ensures step == PoseRow(labels, resize, g, span, threshold, totalKeyPoints, i)
    {
      var confidence := At(span, i + 4);
      if confidence.Err? {
        return Err(confidence.error);
      }
      if confidence.value < threshold {
        return Ok(None);
      }
      var x, y, w, h := span[i], span[i + 1], span[i + 2], span[i + 3];
      var labelIndex := At(span, i + 5);
      if labelIndex.Err? {
        return Err(labelIndex.error);
      }
      var offset := i + 6;
      var keyPointIndex := 0;
      var k := offset;
      while k < 3 * totalKeyPoints + offset
        invariant k == offset + 3 * keyPointIndex && keyPointIndex <= totalKeyPoints
        invariant k <= |span|
        invariant forall m :: 0 <= m < keyPointIndex ==> keyPoints[m] == KeyPointAt(resize, g, span, offset + 3 * m)
        decreases totalKeyPoints - keyPointIndex
      {
        if k + 2 >= |span| {
          return Err(IndexOutOfRange);
        }
        keyPoints[keyPointIndex] := KeyPointAt(resize, g, span, k);
        keyPointIndex := keyPointIndex + 1;
        k := k + 3;
      }
      var named := LabelAt(labels, labelIndex.value);
      if named.Err? {
        return Err(named.error);
      }
      assert keyPoints[..] == KeyPointsAt(resize, g, span, offset, totalKeyPoints);
      step := Ok(Some(NewResult(named.value, confidence.value, CornerBox(resize, g, x, y, w, h), TruncatedBox(x, y, w, h), i)
                        .(keyPoints := keyPoints[..])));
    }

    /**
     * ObjectDetection: rent a buffer of totalElements slots (a negative size
     * throws ArgumentOutOfRangeException) and fill it with the kept rows in
     * tensor order under a counter.
     */
    method ObjectDetection(span: seq<real>, threshold: real, g: Gains) returns (r: Result<seq<ObjectResult>>)
      requires keyPoints.Length == totalKeyPoints
      modifies keyPoints
      ensures totalElements < 0 ==> r == Err(ArgumentOutOfRange)
      ensures var out := Collect(PoseSteps(labels, options.imageResize, g, span, threshold, totalKeyPoints, stride), RowCount(|span|, stride));
                totalElements >= 0 ==>
                  (r.Ok? <==> out.Ok? && |out.value| <= totalElements) &&
                  (r.Ok? ==> r.value == out.value) &&
                  (r.Err? ==> r.error == IndexOutOfRange)
    {
      if totalElements < 0 {
        return Err(ArgumentOutOfRange);
      }
      var resize := options.imageResize;
      var boxes := new ObjectResult[totalElements];
      ghost var f := PoseSteps(labels, resize, g, span, threshold, totalKeyPoints, stride);
      ghost var n := RowCount(|span|, stride);
      var validBoxCount: nat := 0;
      var i := 0;
      ghost var row: nat := 0;
      while i < |span|
        invariant i == row * stride && row <= n
        invariant validBoxCount <= boxes.Length
        invariant Collect(f, row) == Ok(boxes[..validBoxCount])
        decreases |span| - i
      {
        RowCountBound(|span|, stride, row);
        var step := DecodeRow(span, threshold, g, resize, i);
        assert step == f(row);
        var stored := StoreRow(boxes, validBoxCount, step, f, row, n);
        if stored.Err? {
          return Err(stored.error);
        }
        validBoxCount := stored.value;
        assert (row + 1) * stride == row * stride + stride;
        i := i + stride;
        row := row + 1;
      }
      RowCountBound(|span|, stride, row);
      r := Ok(boxes[..validBoxCount]);
    }
  }
}
