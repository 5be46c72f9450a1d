// The V8 pose-estimation module (Modules/V8/PoseEstimationModuleV8). The
// boxes come from the V8 object-detection decoder; each kept box then gets
// its keypoints from its own column, three planes per keypoint after the
// coordinate and label planes. In proportional mode a keypoint is scaled
// back like the box corners; in stretched mode it is placed in the box by
// its relative position in the model-space box and clamped into the box,
// which throws ArgumentException for a box less than one pixel wide or high.

module DecodeV8Pose {
  import opened Common
  import opened Geometry
  import opened Models
  import opened Sorting
  import opened Nms
  import opened Decoding
  import opened Rows
  import DecodeV8

  /**
   * What the keypoint loop works with: the resize mode, the gains, and the
   * value the float-to-int conversion gives for NaN or an infinity (a
   * model-space box of zero width or height), which the platform decides.
   */
  datatype PoseFrame = PoseFrame(resize: ImageResize, g: Gains, undefinedCast: int)

  /**
   * `(int)(lo + (v - uLo) / uExtent * extent)`: a model-space coordinate
   * placed at the same relative position in the image-space box.
   */
  function Stretch(v: real, uLo: real, uExtent: real, lo: int, extent: int, undefinedCast: int): int
  {
    if uExtent == 0.0 then undefinedCast else Trunc(lo as real + (v - uLo) / uExtent * extent as real)
  }

  /** Math.Clamp into [Left, Right - 1] and [Top, Bottom - 1] throws when the box is less than a pixel wide or high. */
  predicate ClampFails(resize: ImageResize, box: RectI)
  {
    resize == Stretched && (box.right - 1 < box.left || box.bottom - 1 < box.top)
  }

  /**
   * Where keypoint (x, y) of box o lands in the image: scaled back in
   * proportional mode; in stretched mode placed relative to the box and
   * clamped into it, so that it always lies inside the box.
   */
  function Position(frame: PoseFrame, o: ObjectResult, x: real, y: real): (r: Result<(int, int)>)
    ensures r.Err? <==> ClampFails(frame.resize, o.box)
    ensures r.Err? ==> r.error == ArgumentError
    ensures r.Ok? && frame.resize == Stretched ==>
              o.box.left <= r.value.0 < o.box.right && o.box.top <= r.value.1 < o.box.bottom
  {
    match frame.resize
    case Proportional => Ok((ScaleBack(x, frame.g.xPad, frame.g.xGain), ScaleBack(y, frame.g.yPad, frame.g.xGain)))
    case Stretched =>
      var b, u := o.box, o.unscaled;
      var sx := Stretch(x, u.left, u.right - u.left, b.left, b.Width(), frame.undefinedCast);
      var sy := Stretch(y, u.top, u.bottom - u.top, b.top, b.Height(), frame.undefinedCast);
      if b.right - 1 < b.left || b.bottom - 1 < b.top then Err(ArgumentError)
      else Ok((Clamp(sx, b.left, b.right - 1), Clamp(sy, b.top, b.bottom - 1)))
  }

  /**
   * The keypoint of box o whose x sits at `offset`: x and y are read, the
   * position computed, then the confidence read, C apart. A read past the
   * end throws IndexOutOfRangeException, the clamp ArgumentException.
   */
  function KeyPointRead(frame: PoseFrame, span: seq<real>, channels: nat, o: ObjectResult, offset: int): (r: Result<KeyPoint>)
    ensures r.Ok? <==> 0 <= offset && offset + 2 * channels < |span| && !ClampFails(frame.resize, o.box)
    ensures r.Err? ==> r.error == (if 0 <= offset && offset + channels < |span| && ClampFails(frame.resize, o.box)
                                   then ArgumentError else IndexOutOfRange)
    ensures r.Ok? && frame.resize == Stretched ==>
              o.box.left <= r.value.x < o.box.right && o.box.top <= r.value.y < o.box.bottom
  {
    var x, y := At(span, offset), At(span, offset + channels);
    if x.Err? then Err(x.error)
    else if y.Err? then Err(y.error)
    else
      var p := Position(frame, o, x.value, y.value);
      if p.Err? then Err(p.error)
      else
        var c := At(span, offset + 2 * channels);
        if c.Err? then Err(c.error) else Ok(KeyPoint(p.value.0, p.value.1, c.value))
  }

  /** The first `total` keypoints of box o, whose keypoints start at `offset`, or the first exception. */
  function KeyPointsRead(frame: PoseFrame, span: seq<real>, channels: nat, o: ObjectResult, offset: int, total: nat)
    : Result<seq<KeyPoint>>
    decreases total
  {
    if total == 0 then Ok([])
    else
      var prev := KeyPointsRead(frame, span, channels, o, offset, total - 1);
      if prev.Err? then prev
      else
        var k := KeyPointRead(frame, span, channels, o, KeyPointOffset(offset, channels, total - 1));
        if k.Err? then Err(k.error) else Ok(prev.value + [k.value])
  }

  /**
   * The keypoint loop reads keypoint j at offset + 3Cj: it succeeds exactly
   * when every read succeeds, and then keypoint j is the j-th read.
   */
  lemma {:induction false} KeyPointsReadAt(frame: PoseFrame, span: seq<real>, channels: nat, o: ObjectResult, offset: int, total: nat)
    ensures KeyPointsRead(frame, span, channels, o, offset, total).Err? <==>
              exists j :: 0 <= j < total && KeyPointRead(frame, span, channels, o, KeyPointOffset(offset, channels, j)).Err?
    ensures KeyPointsRead(frame, span, channels, o, offset, total).Ok? ==>
              |KeyPointsRead(frame, span, channels, o, offset, total).value| == total &&
              forall j :: 0 <= j < total ==>
                KeyPointRead(frame, span, channels, o, KeyPointOffset(offset, channels, j)) ==
                Ok(KeyPointsRead(frame, span, channels, o, offset, total).value[j])
    decreases total
  {
    if total > 0 {
      KeyPointsReadAt(frame, span, channels, o, offset, total - 1);
    }
  }

  /** Once the keypoint loop has thrown, more keypoints do not change that. */
  lemma {:induction false} KeyPointsFirstError(frame: PoseFrame, span: seq<real>, channels: nat, o: ObjectResult, offset: int,
                                               m: nat, n: nat)
    requires m <= n && KeyPointsRead(frame, span, channels, o, offset, m).Err?
    ensures KeyPointsRead(frame, span, channels, o, offset, n) == KeyPointsRead(frame, span, channels, o, offset, m)
    decreases n - m
  {
    if m < n {
      KeyPointsFirstError(frame, span, channels, o, offset, m, n - 1);
    }
  }

  /** One more keypoint read. */
  lemma KeyPointsReadStep(frame: PoseFrame, span: seq<real>, channels: nat, o: ObjectResult, offset: int, j: nat,
                          prev: seq<KeyPoint>, k: KeyPoint)
    requires KeyPointsRead(frame, span, channels, o, offset, j) == Ok(prev)
    requires KeyPointRead(frame, span, channels, o, KeyPointOffset(offset, channels, j)) == Ok(k)
    ensures KeyPointsRead(frame, span, channels, o, offset, j + 1) == Ok(prev + [k])
  {
  }

  /**
   * The pose loop over the first n kept boxes: each gets an array of
   * `total` keypoints (a negative size throws OverflowException), read
   * from its own column; the first exception escapes.
   */
  function Poses(boxes: seq<ObjectResult>, frame: PoseFrame, span: seq<real>, channels: nat, labels: nat, total: int, n: nat)
    : Result<seq<ObjectResult>>
    requires n <= |boxes|
    decreases n
  {
    if n == 0 then Ok([])
    else
      var prev := Poses(boxes, frame, span, channels, labels, total, n - 1);
      if prev.Err? then prev
      else if total < 0 then Err(Overflow)
      else
        var o := boxes[n - 1];
        var points := KeyPointsRead(frame, span, channels, o, KeyPointsStart(o, channels, labels), total);
        if points.Err? then Err(points.error)
        else Ok(prev.value + [o.(keyPoints := points.value)])
  }

  /**
   * The pose loop changes nothing but the keypoints: on success box i keeps
   * everything else and gets the `total` keypoints of its column, which in
   * stretched mode all lie inside the box. It throws exactly when there is
   * a box and the keypoint count is negative or some keypoint read throws.
   */
  lemma {:induction false} PosesAt(boxes: seq<ObjectResult>, frame: PoseFrame, span: seq<real>, channels: nat, labels: nat,
                                   total: int, n: nat)
    requires n <= |boxes|
    ensures var r := Poses(boxes, frame, span, channels, labels, total, n);
              r.Ok? ==> |r.value| == n && (n > 0 ==> total >= 0) &&
                        forall i :: 0 <= i < n ==>
                          r.value[i] == boxes[i].(keyPoints := r.value[i].keyPoints) &&
                          KeyPointsRead(frame, span, channels, boxes[i], KeyPointsStart(boxes[i], channels, labels), total as nat) ==
                          Ok(r.value[i].keyPoints) &&
                          |r.value[i].keyPoints| == total &&
                          (frame.resize == Stretched ==>
                             forall k :: 0 <= k < |r.value[i].keyPoints| ==>
                               boxes[i].box.left <= r.value[i].keyPoints[k].x < boxes[i].box.right &&
                               boxes[i].box.top <= r.value[i].keyPoints[k].y < boxes[i].box.bottom)
    ensures Poses(boxes, frame, span, channels, labels, total, n).Err? <==>
              n > 0 && (total < 0 ||
                        exists i :: 0 <= i < n &&
                          KeyPointsRead(frame, span, channels, boxes[i], KeyPointsStart(boxes[i], channels, labels), total as nat).Err?)
    decreases n
  {
    if n > 0 {
      PosesAt(boxes, frame, span, channels, labels, total, n - 1);
      if total >= 0 {
        var o := boxes[n - 1];
        KeyPointsReadAt(frame, span, channels, o, KeyPointsStart(o, channels, labels), total);
      }
    }
  }

  /**
   * In stretched mode a call that finds a box with keypoints succeeds only
   * if every box is at least one pixel wide and high: the clamp throws
   * ArgumentException on the first keypoint of a thinner box.
   */
  lemma ThinBoxThrows(boxes: seq<ObjectResult>, frame: PoseFrame, span: seq<real>, channels: nat, labels: nat, total: int)
    requires frame.resize == Stretched && total > 0
    requires Poses(boxes, frame, span, channels, labels, total, |boxes|).Ok?
    ensures forall i :: 0 <= i < |boxes| ==> boxes[i].box.right - boxes[i].box.left >= 1 && boxes[i].box.bottom - boxes[i].box.top >= 1
  {
    PosesAt(boxes, frame, span, channels, labels, total, |boxes|);
    forall i | 0 <= i < |boxes|
      ensures !ClampFails(frame.resize, boxes[i].box)
    {
      var o := boxes[i];
      KeyPointsReadAt(frame, span, channels, o, KeyPointsStart(o, channels, labels), total);
      assert KeyPointRead(frame, span, channels, o, KeyPointOffset(KeyPointsStart(o, channels, labels), channels, 0)).Ok?;
    }
  }

  /** Once the pose loop has thrown, more boxes do not change that. */
  lemma {:induction false} PosesFirstError(boxes: seq<ObjectResult>, frame: PoseFrame, span: seq<real>, channels: nat, labels: nat,
                                           total: int, m: nat, n: nat)
    requires m <= n <= |boxes| && Poses(boxes, frame, span, channels, labels, total, m).Err?
    ensures Poses(boxes, frame, span, channels, labels, total, n) == Poses(boxes, frame, span, channels, labels, total, m)
    decreases n - m
  {
    if m < n {
      PosesFirstError(boxes, frame, span, channels, labels, total, m, n - 1);
    }
  }

  /** One more box of the pose loop: it throws for the whole loop, or extends the posed prefix. */
  lemma PosesStep(boxes: seq<ObjectResult>, frame: PoseFrame, span: seq<real>, channels: nat, labels: nat, total: int, i: nat,
                  prefix: seq<ObjectResult>)
    requires i < |boxes| && Poses(boxes, frame, span, channels, labels, total, i) == Ok(prefix)
    ensures total < 0 ==> Poses(boxes, frame, span, channels, labels, total, |boxes|) == Err(Overflow)
    ensures total >= 0 ==>
              var points := KeyPointsRead(frame, span, channels, boxes[i], KeyPointsStart(boxes[i], channels, labels), total);
              (points.Err? ==> Poses(boxes, frame, span, channels, labels, total, |boxes|) == Err(points.error)) &&
              (points.Ok? ==>
                 Poses(boxes, frame, span, channels, labels, total, i + 1) == Ok(prefix + [boxes[i].(keyPoints := points.value)]))
  {
    if total < 0 || KeyPointsRead(frame, span, channels, boxes[i], KeyPointsStart(boxes[i], channels, labels), total).Err? {
      PosesFirstError(boxes, frame, span, channels, labels, total, i + 1, |boxes|);
    }
  }

  /**
   * One pass of the keypoint loop, for the keypoint whose x sits at xIndex:
   * x and y are read and placed by the resize mode, then the confidence is
   * read.
   */
  method ReadKeyPoint(frame: PoseFrame, span: seq<real>, channels: nat, box: ObjectResult, xIndex: int) returns (r: Result<KeyPoint>)
    ensures r == KeyPointRead(frame, span, channels, box, xIndex)
  {
    var yIndex := xIndex + channels;
    var cIndex := yIndex + channels;
    var x := 0;
    var y := 0;
    if xIndex < 0 || yIndex >= |span| {
      return Err(IndexOutOfRange);
    }
    if frame.resize == Proportional {
      x := ScaleBack(span[xIndex], frame.g.xPad, frame.g.xGain);
      y := ScaleBack(span[yIndex], frame.g.yPad, frame.g.xGain);
    } else {
      var b, u := box.box, box.unscaled;
      x := Stretch(span[xIndex], u.left, u.right - u.left, b.left, b.Width(), frame.undefinedCast);
      y := Stretch(span[yIndex], u.top, u.bottom - u.top, b.top, b.Height(), frame.undefinedCast);
      if b.right - 1 < b.left || b.bottom - 1 < b.top {
        return Err(ArgumentError);
      }
      x := Clamp(x, b.left, b.right - 1);
      y := Clamp(y, b.top, b.bottom - 1);
    }
    if cIndex >= |span| {
      return Err(IndexOutOfRange);
    }
    var confidence := span[cIndex];
    r := Ok(KeyPoint(x, y, confidence));
  }

  /**
   * The keypoint loop of one box: an array of `total` keypoints, keypoint j
   * read at offset + 3Cj, the offset moving three planes a pass.
   */
  method ReadKeyPoints(frame: PoseFrame, span: seq<real>, channels: nat, box: ObjectResult, offset: int, total: nat)
    returns (r: Result<seq<KeyPoint>>)
    ensures r == KeyPointsRead(frame, span, channels, box, offset, total)
  {
    var poseEstimations := new KeyPoint[total];
    var keypointOffset := offset;
    var j := 0;
    while j < total
      invariant j <= total && keypointOffset == KeyPointOffset(offset, channels, j)
      invariant KeyPointsRead(frame, span, channels, box, offset, j) == Ok(poseEstimations[..j])
    {
      var xIndex := keypointOffset;
      KeyPointOffsetNext(offset, channels, j);
      keypointOffset := keypointOffset + channels * 3;
      var point := ReadKeyPoint(frame, span, channels, box, xIndex);
      if point.Err? {
        KeyPointsFirstError(frame, span, channels, box, offset, j + 1, total);
        return Err(point.error);
      }
      ghost var before := poseEstimations[..j];
      KeyPointsReadStep(frame, span, channels, box, offset, j, before, point.value);
      poseEstimations[j] := point.value;
      assert poseEstimations[..j + 1] == before + [point.value];
      j := j + 1;
    }
    assert poseEstimations[..] == poseEstimations[..total];
    r := Ok(poseEstimations[..]);
  }

  /**
   * The pose loop over the kept boxes, in place: box i's keypoints are
   * replaced by those read from its column. On success the array holds
   * Poses of what it held; the first exception escapes.
   */
  method AddKeyPoints(boxes: array<ObjectResult>, frame: PoseFrame, span: seq<real>, channels: nat, labels: nat, total: int)
    returns (thrown: Option<Error>)
    modifies boxes
    ensures var posed := Poses(old(boxes[..]), frame, span, channels, labels, total, boxes.Length);
              (thrown.Some? <==> posed.Err?) &&
              (thrown.Some? ==> thrown.value == posed.error) &&
              (thrown.None? ==> boxes[..] == posed.value)
  {
    ghost var original := boxes[..];
    var i := 0;
    while i < boxes.Length
      invariant i <= boxes.Length
      invariant forall j :: i <= j < boxes.Length ==> boxes[j] == original[j]
      invariant Poses(original, frame, span, channels, labels, total, i) == Ok(boxes[..i])
    {
      var box := boxes[i];
      ghost var before := boxes[..i];
      PosesStep(original, frame, span, channels, labels, total, i, before);
      if total < 0 {
        return Some(Overflow);
      }
      var points := ReadKeyPoints(frame, span, channels, box, KeyPointsStart(box, channels, labels), total);
      if points.Err? {
        return Some(points.error);
      }
      boxes[i] := box.(keyPoints := points.value);
      assert boxes[..i + 1] == before + [box.(keyPoints := points.value)];
      i := i + 1;
    }
    assert boxes[..] == boxes[..i];
    thrown := None;
  }

  class PoseEstimationModuleV8 {
    /** `_objectDetectionModule`: the V8 detector over the same model. */
    const detector: DecodeV8.ObjectDetectionModuleV8
    /** `_inputChannels`: the colour channels of the input shape. */
    const inputChannels: Stride
    /** `_modelOutputElements`: the planes of the output shape. */
    const outputElements: nat
    /** `_modelOutputChannels`: the columns (boxes) of the output shape. */
    const outputChannels: nat

    constructor (labels: seq<LabelModel>, options: YoloOptions, inputChannels: Stride, outputElements: nat, outputChannels: nat)
      ensures detector.labels == labels && detector.channels == outputChannels && detector.modelType == PoseEstimation
      ensures detector.options == options
      ensures this.inputChannels == inputChannels && this.outputElements == outputElements && this.outputChannels == outputChannels
    {
      detector := new DecodeV8.ObjectDetectionModuleV8(labels, outputChannels, PoseEstimation, options);
      this.inputChannels := inputChannels;
      this.outputElements := outputElements;
      this.outputChannels := outputChannels;
    }

    /**
     * PoseEstimateImage: the detector's boxes, then each one's keypoints
     * read from its own column, in the detector's order.
     */
    method PoseEstimateImage(span: seq<real>, g: Gains, width: int, height: int, threshold: real, iouThreshold: real, undefinedCast: int)
      returns (r: Result<seq<ObjectResult>>, ghost sorted: seq<ObjectResult>)
      ensures |span| == 0 ==> r == Ok([])
      ensures |span| > 0 ==>
                var out := Collect(DecodeV8.DetectionSteps(detector.labels, DecodeV8.Frame(detector.options.imageResize, g, width, height, detector.modelType),
                                                           span, detector.channels, threshold), detector.channels);
                var kept := Keep(sorted, OverlapCore(iouThreshold));
                (out.Err? ==> r == Err(out.error)) &&
                (out.Ok? ==> multiset(sorted) == multiset(out.value) && SortedDesc(sorted, Confidence) &&
                             r == Poses(kept, PoseFrame(detector.options.imageResize, g, undefinedCast), span, outputChannels,
                                        |detector.labels|, ChannelKeyPoints(outputElements, inputChannels, |detector.labels|), |kept|))
    {
      var found;
      found, sorted := detector.ObjectDetection(span, g, width, height, threshold, iouThreshold);
      if found.Err? {
        return Err(found.error), sorted;
      }
      var labels := |detector.labels|;
      var totalKeypoints := ChannelKeyPoints(outputElements, inputChannels, labels);
      var frame := PoseFrame(detector.options.imageResize, g, undefinedCast);
      var boxes := new ObjectResult[|found.value|](i requires 0 <= i < |found.value| => found.value[i]);
      assert boxes[..] == found.value;
      var thrown := AddKeyPoints(boxes, frame, span, outputChannels, labels, totalKeypoints);
      if thrown.Some? {
        return Err(thrown.value), sorted;
      }
      r := Ok(boxes[..]);
    }
  }
}
