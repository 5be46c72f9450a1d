// The first-generation modules, which decode through the older YoloCore
// (Modules/ObjectDetectionModule and Modules/PoseEstimationModule).
// The object-detection tensor has the V8 layout: for C boxes, the planes of
// x, y, w and h, then one plane of scores per label, then for an OBB model
// the angles. Each box is written into slot i of a buffer while its labels
// are scanned: the first label that reaches the threshold fills the slot,
// and a later label replaces it only with a strictly higher score. The
// filled slots, in box order, go through the Data generation's
// non-maximum suppression. Only proportional letterboxing exists here, with
// one gain for both axes (`CalculateGain` returns xPad, yPad and a gain).
// The pose module then reads, for every kept box, its keypoints from the
// planes after the label planes.

module DecodeLegacy {
  import opened Common
  import opened Geometry
  import opened Models
  import opened Sorting
  import opened Nms
  import opened Decoding
  import opened Rows
  import opened LabelScores

  /** Where the score of the first label of box i sits: past the four coordinate planes. */
  function FirstScore(channels: nat, i: nat): nat
  {
    i + channels * 4
  }

  /** Where the angle of box i sits in an OBB model: past the coordinate planes and the label planes. */
  function AngleOffset(channels: nat, i: nat, labels: nat): nat
  {
    ScoreOffset(FirstScore(channels, i), channels, labels)
  }

  /** What a decoder call works with: the padding and the single gain (as xGain), and the model type. */
  datatype Frame = Frame(g: Gains, modelType: ModelType)

  /**
   * Slot i once label k has been picked with score b: the box is read at
   * i, i+C, i+2C and i+3C and scaled back to the image; an OBB model reads
   * its angle from the plane after the label planes.
   */
  function Located(labels: seq<LabelModel>, frame: Frame, span: seq<real>, channels: nat, i: nat, b: real, k: nat): (r: Result<ObjectResult>)
    requires k < |labels| && i + 3 * channels < |span|
    ensures r.Err? <==> frame.modelType == ObbDetection && AngleOffset(channels, i, |labels|) >= |span|
    ensures r.Err? ==> r.error == IndexOutOfRange
    ensures r.Ok? ==> r.value.confidence == b
  {
    var x, y, w, h := span[i], span[i + channels], span[i + 2 * channels], span[i + 3 * channels];
    if frame.modelType == ObbDetection && AngleOffset(channels, i, |labels|) >= |span| then Err(IndexOutOfRange)
    else
      var angle := if frame.modelType == ObbDetection then span[AngleOffset(channels, i, |labels|)] else 0.0;
      Ok(ObjectResult(labels[k], b, CentreBox(Proportional, frame.g, 0, 0, x, y, w, h), CentredUnscaled(x, y, w, h), i, [], [], angle))
  }

  /** The scores of box i are C apart, from offset i + 4C on, one per label. */
  function PickOf(labels: seq<LabelModel>, span: seq<real>, channels: nat, threshold: real, i: nat): Result<Option<(real, nat)>>
  {
    Pick(span, FirstScore(channels, i), channels, threshold, |labels|)
  }

  /** A coordinate plane lies before every score plane. */
  lemma CoordinatesBeforeScores(channels: nat, i: nat, k: nat)
    ensures i + 3 * channels <= ScoreOffset(FirstScore(channels, i), channels, k)
  {
    assert channels * k >= 0;
  }

  /** What slot i of the buffer holds after the label loop, or the exception the loop throws. */
  function DetectionRow(labels: seq<LabelModel>, frame: Frame, span: seq<real>, channels: nat, threshold: real, i: nat)
    : (r: Result<Option<ObjectResult>>)
    ensures r.Err? ==> r.error == IndexOutOfRange
    ensures r == Ok(None) <==> PickOf(labels, span, channels, threshold, i) == Ok(None)
    ensures r.Err? <==> PickOf(labels, span, channels, threshold, i).Err? ||
                        (PickOf(labels, span, channels, threshold, i).value.Some? &&
                         frame.modelType == ObbDetection && AngleOffset(channels, i, |labels|) >= |span|)
  {
    var pick := PickOf(labels, span, channels, threshold, i);
    if pick.Err? then Err(pick.error)
    else if pick.value.None? then Ok(None)
    else
      var (b, k) := pick.value.value;
      CoordinatesBeforeScores(channels, i, k);
      var o := Located(labels, frame, span, channels, i, b, k);
      if o.Err? then Err(o.error) else Ok(Some(o.value))
  }

  /** The outer loop's boxes: box r is the column at offset r. */
  function DetectionSteps(labels: seq<LabelModel>, frame: Frame, span: seq<real>, channels: nat, threshold: real)
    : nat -> Result<Option<ObjectResult>>
  {
    (r: nat) => DetectionRow(labels, frame, span, channels, threshold, r)
  }

  /**
   * What a filled slot holds: the box, read from the coordinate planes,
   * labelled with the first label whose score reaches the threshold and
   * that no label beats, with that score, and the angle of an OBB model.
   */
  ghost predicate DetectionAt(labels: seq<LabelModel>, frame: Frame, span: seq<real>, channels: nat, threshold: real, o: ObjectResult)
  {
    0 <= o.boxIndex && LocatedAt(labels, frame, span, channels, threshold, o.boxIndex, o)
  }

  /** Box i, located at the legacy pick of its labels, is o. */
  ghost predicate LocatedAt(labels: seq<LabelModel>, frame: Frame, span: seq<real>, channels: nat, threshold: real, i: nat, o: ObjectResult)
  {
    i + 3 * channels < |span| &&
    exists k: nat :: FirstMaxFrom(span, FirstScore(channels, i), channels, threshold, |labels|, o.confidence, k) &&
                     Located(labels, frame, span, channels, i, o.confidence, k) == Ok(o)
  }

  /** A filled slot is the label loop's first strict maximum among the labels that reach the threshold. */
  lemma DetectionRowAt(labels: seq<LabelModel>, frame: Frame, span: seq<real>, channels: nat, threshold: real, i: nat)
    requires Yields(DetectionRow(labels, frame, span, channels, threshold, i))
    ensures DetectionRow(labels, frame, span, channels, threshold, i).value.value.boxIndex == i
    ensures DetectionAt(labels, frame, span, channels, threshold, DetectionRow(labels, frame, span, channels, threshold, i).value.value)
  {
    var first := FirstScore(channels, i);
    PickMeans(span, first, channels, threshold, |labels|);
    var (b, k) := Pick(span, first, channels, threshold, |labels|).value.value;
    CoordinatesBeforeScores(channels, i, k);
    var o := DetectionRow(labels, frame, span, channels, threshold, i).value.value;
    assert Located(labels, frame, span, channels, i, b, k) == Ok(o);
  }

  lemma DetectionStepsKeyed(labels: seq<LabelModel>, frame: Frame, span: seq<real>, channels: nat, threshold: real)
    ensures KeyedByRow(DetectionSteps(labels, frame, span, channels, threshold), channels, (o: ObjectResult) => o.boxIndex, 1)
    ensures forall r: nat :: r < channels && Yields(DetectionSteps(labels, frame, span, channels, threshold)(r)) ==>
              DetectionAt(labels, frame, span, channels, threshold, DetectionSteps(labels, frame, span, channels, threshold)(r).value.value)
  {
    var f := DetectionSteps(labels, frame, span, channels, threshold);
    forall r: nat | r < channels && Yields(f(r))
      ensures f(r).value.value.boxIndex == 1 * r && DetectionAt(labels, frame, span, channels, threshold, f(r).value.value)
    {
      DetectionRowAt(labels, frame, span, channels, threshold, r);
    }
  }

  /**
   * The filled slots, when no read throws: at most one per box, each as
   * DetectionAt says, in box order.
   */
  lemma Detections(labels: seq<LabelModel>, frame: Frame, span: seq<real>, channels: nat, threshold: real)
    requires Collect(DetectionSteps(labels, frame, span, channels, threshold), channels).Ok?
    ensures var out := Collect(DetectionSteps(labels, frame, span, channels, threshold), channels).value;
              |out| <= channels &&
              (forall j :: 0 <= j < |out| ==> DetectionAt(labels, frame, span, channels, threshold, out[j])) &&
              (forall j, k :: 0 <= j < k < |out| ==> out[j].boxIndex < out[k].boxIndex)
  {
    var f := DetectionSteps(labels, frame, span, channels, threshold);
    CollectKept(f, channels);
    DetectionStepsKeyed(labels, frame, span, channels, threshold);
    CollectAll(f, channels, o => DetectionAt(labels, frame, span, channels, threshold, o));
    CollectKeysIncrease(f, channels, (o: ObjectResult) => o.boxIndex, 1);
  }

  /** When no read throws, box r fills a slot exactly when one of its scores reaches the threshold. */
  lemma DetectionsKept(labels: seq<LabelModel>, frame: Frame, span: seq<real>, channels: nat, threshold: real)
    requires Collect(DetectionSteps(labels, frame, span, channels, threshold), channels).Ok?
    ensures var out := Collect(DetectionSteps(labels, frame, span, channels, threshold), channels).value;
              forall r: nat :: r < channels ==>
                (AnyReaches(span, FirstScore(channels, r), channels, threshold, |labels|) <==>
                 exists j :: 0 <= j < |out| && out[j].boxIndex == r)
  {
    var f := DetectionSteps(labels, frame, span, channels, threshold);
    DetectionStepsKeyed(labels, frame, span, channels, threshold);
    CollectFails(f, channels);
    forall r: nat | r < channels
      ensures var out := Collect(f, channels).value;
                AnyReaches(span, FirstScore(channels, r), channels, threshold, |labels|) <==>
                exists j :: 0 <= j < |out| && out[j].boxIndex == r
    {
      assert f(r) == DetectionRow(labels, frame, span, channels, threshold, r);
      PickMeans(span, FirstScore(channels, r), channels, threshold, |labels|);
      CollectKeyFound(f, channels, (o: ObjectResult) => o.boxIndex, 1, r);
    }
  }

  /** A box makes the decoder throw: one of its scores lies past the end, or an OBB model finds no angle for a box it keeps. */
  predicate RowFails(labels: seq<LabelModel>, frame: Frame, span: seq<real>, channels: nat, threshold: real, i: nat)
  {
    (exists m :: 0 <= m < |labels| && ScoreOffset(FirstScore(channels, i), channels, m) >= |span|) ||
    (frame.modelType == ObbDetection && AngleOffset(channels, i, |labels|) >= |span| &&
     AnyReaches(span, FirstScore(channels, i), channels, threshold, |labels|))
  }

  /** The decoder throws exactly when some box does, and then with IndexOutOfRangeException. */
  lemma DetectionsFail(labels: seq<LabelModel>, frame: Frame, span: seq<real>, channels: nat, threshold: real)
    ensures Collect(DetectionSteps(labels, frame, span, channels, threshold), channels).Err? <==>
              exists r: nat :: r < channels && RowFails(labels, frame, span, channels, threshold, r)
    ensures Collect(DetectionSteps(labels, frame, span, channels, threshold), channels).Err? ==>
              Collect(DetectionSteps(labels, frame, span, channels, threshold), channels).error == IndexOutOfRange
  {
    var f := DetectionSteps(labels, frame, span, channels, threshold);
    forall r: nat
      ensures f(r).Err? <==> RowFails(labels, frame, span, channels, threshold, r)
    {
      assert f(r) == DetectionRow(labels, frame, span, channels, threshold, r);
      var first := FirstScore(channels, r);
      PickFails(span, first, channels, threshold, |labels|);
      if Pick(span, first, channels, threshold, |labels|).Ok? {
        PickMeans(span, first, channels, threshold, |labels|);
      }
    }
    CollectFails(f, channels);
  }

  /**
   * Slot i after the first l labels of box i: empty while no score has
   * reached the threshold, otherwise the box located at the legacy pick.
   */
  predicate SlotHolds(slot: Option<ObjectResult>, labels: seq<LabelModel>, frame: Frame, span: seq<real>, channels: nat,
                      threshold: real, i: nat, l: nat)
  {
    var pick := Pick(span, FirstScore(channels, i), channels, threshold, l);
    pick.Ok? &&
    (pick.value.None? ==> slot == None) &&
    (pick.value.Some? ==>
       pick.value.value.1 < |labels| && i + 3 * channels < |span| &&
       Located(labels, frame, span, channels, i, pick.value.value.0, pick.value.value.1).Ok? &&
       slot == Some(Located(labels, frame, span, channels, i, pick.value.value.0, pick.value.value.1).value))
  }

  /**
   * One pass of the label loop on slot i for label l: a score below the
   * threshold leaves the slot; otherwise the slot is filled when it is
   * empty or holds a lower score, which throws when an OBB model has no
   * angle plane for the box.
   */
  function LabelStep(slot: Option<ObjectResult>, labels: seq<LabelModel>, frame: Frame, span: seq<real>, channels: nat,
                     threshold: real, i: nat, l: nat): Result<Option<ObjectResult>>
    requires l < |labels| && ScoreOffset(FirstScore(channels, i), channels, l) < |span|
  {
    var score := span[ScoreOffset(FirstScore(channels, i), channels, l)];
    if score < threshold then Ok(slot)
    else if slot.None? || score > slot.value.confidence then
      CoordinatesBeforeScores(channels, i, l);
      var o := Located(labels, frame, span, channels, i, score, l);
      if o.Err? then Err(o.error) else Ok(Some(o.value))
    else Ok(slot)
  }

  /**
   * The label loop's step keeps SlotHolds, and when the step throws, so
   * does the whole box.
   */
  lemma LabelStepHolds(slot: Option<ObjectResult>, labels: seq<LabelModel>, frame: Frame, span: seq<real>, channels: nat,
                       threshold: real, i: nat, l: nat)
    requires l < |labels| && ScoreOffset(FirstScore(channels, i), channels, l) < |span|
    requires SlotHolds(slot, labels, frame, span, channels, threshold, i, l)
    ensures var next := LabelStep(slot, labels, frame, span, channels, threshold, i, l);
              (next.Ok? ==> SlotHolds(next.value, labels, frame, span, channels, threshold, i, l + 1)) &&
              (next.Err? ==> DetectionRow(labels, frame, span, channels, threshold, i).Err?)
  {
    var first := FirstScore(channels, i);
    var score := span[ScoreOffset(first, channels, l)];
    var prev := Pick(span, first, channels, threshold, l);
    var pick := Pick(span, first, channels, threshold, l + 1);
    CoordinatesBeforeScores(channels, i, l);
    if score < threshold {
      assert pick == prev;
    } else if slot.None? || score > slot.value.confidence {
      assert pick == Ok(Some((score, l)));
      if Located(labels, frame, span, channels, i, score, l).Err? {
        PickStays(span, first, channels, threshold, l + 1, |labels|);
      }
    } else {
      assert pick == prev;
    }
  }

  /** After the last label the slot holds what the box's row says. */
  lemma SlotHoldsRow(slot: Option<ObjectResult>, labels: seq<LabelModel>, frame: Frame, span: seq<real>, channels: nat,
                     threshold: real, i: nat)
    requires SlotHolds(slot, labels, frame, span, channels, threshold, i, |labels|)
    ensures DetectionRow(labels, frame, span, channels, threshold, i) == Ok(slot)
  {
  }

  /**
   * The label loop of box i over slot i of the buffer: each score below the
   * threshold is passed over; otherwise the box is read, and the slot is
   * filled when it is empty or holds a lower score, an OBB model reading
   * the angle then. A read past the end throws IndexOutOfRangeException.
   */
  method DecodeBox(boxes: array<Option<ObjectResult>>, labels: seq<LabelModel>, frame: Frame, span: seq<real>, channels: nat,
                   threshold: real, i: nat)
    returns (thrown: Option<Error>)
    requires i < boxes.Length && boxes[i] == None
    modifies boxes
    ensures thrown.Some? <==> DetectionRow(labels, frame, span, channels, threshold, i).Err?
    ensures thrown.Some? ==> thrown.value == IndexOutOfRange
    ensures thrown.None? ==> boxes[i] == DetectionRow(labels, frame, span, channels, threshold, i).value
    ensures forall j :: 0 <= j < boxes.Length && j != i ==> boxes[j] == old(boxes[j])
  {
    var first := FirstScore(channels, i);
    var labelOffset := first;
    var l := 0;
    while l < |labels|
      invariant l <= |labels| && labelOffset == ScoreOffset(first, channels, l)
      invariant SlotHolds(boxes[i], labels, frame, span, channels, threshold, i, l)
      invariant forall j :: 0 <= j < boxes.Length && j != i ==> boxes[j] == old(boxes[j])
    {
      if labelOffset >= |span| {
        PickFails(span, first, channels, threshold, |labels|);
        return Some(IndexOutOfRange);
      }
      ghost var slot := boxes[i];
      LabelStepHolds(slot, labels, frame, span, channels, threshold, i, l);
      var boxConfidence := span[labelOffset];
      if boxConfidence >= threshold {
        CoordinatesBeforeScores(channels, i, l);
        var x, y, w, h := span[i], span[i + channels], span[i + 2 * channels], span[i + 3 * channels];
        var box := CentreBox(Proportional, frame.g, 0, 0, x, y, w, h);
        var unscaled := CentredUnscaled(x, y, w, h);
        if boxes[i].None? || boxConfidence > boxes[i].value.confidence {
          var angle := 0.0;
          if frame.modelType == ObbDetection {
            if AngleOffset(channels, i, |labels|) >= |span| {
              return Some(IndexOutOfRange);
            }
            angle := span[AngleOffset(channels, i, |labels|)];
          }
          boxes[i] := Some(ObjectResult(labels[l], boxConfidence, box, unscaled, i, [], [], angle));
        }
      }
      assert boxes[i] == LabelStep(slot, labels, frame, span, channels, threshold, i, l).value;
      assert channels * l + channels == channels * (l + 1);
      l := l + 1;
      labelOffset := labelOffset + channels;
    }
    SlotHoldsRow(boxes[i], labels, frame, span, channels, threshold, i);
    thrown := None;
  }

  /** A box whose label loop throws ends the outer loop with that exception. */
  lemma SlotThrows(labels: seq<LabelModel>, frame: Frame, span: seq<real>, channels: nat, threshold: real, i: nat,
                   buffer: seq<ObjectResult>)
    requires i < channels && Collect(DetectionSteps(labels, frame, span, channels, threshold), i) == Ok(buffer)
    requires DetectionRow(labels, frame, span, channels, threshold, i).Err?
    ensures Collect(DetectionSteps(labels, frame, span, channels, threshold), channels) == Err(IndexOutOfRange)
  {
    var f := DetectionSteps(labels, frame, span, channels, threshold);
    assert f(i) == DetectionRow(labels, frame, span, channels, threshold, i);
    StepThrows(f, i, channels, buffer);
  }

  /** A box whose label loop ends with slot i filled as its row says extends the collected slots by that slot. */
  lemma SlotCollected(labels: seq<LabelModel>, frame: Frame, span: seq<real>, channels: nat, threshold: real, i: nat,
                      before: seq<Option<ObjectResult>>, slot: Option<ObjectResult>)
    requires Collect(DetectionSteps(labels, frame, span, channels, threshold), i) == Ok(Present(before))
    requires DetectionRow(labels, frame, span, channels, threshold, i) == Ok(slot)
    ensures Collect(DetectionSteps(labels, frame, span, channels, threshold), i + 1) == Ok(Present(before + [slot]))
  {
    var f := DetectionSteps(labels, frame, span, channels, threshold);
    assert f(i) == Ok(slot);
    CollectSlot(f, i, before, slot);
  }

  /**
   * The outer loop over the C boxes, each filling its own slot of a buffer
   * that starts empty, then the filled slots in order. The result is the
   * rows' Collect: the same boxes, in the same order, or the first exception.
   */
  method FindBoxes(labels: seq<LabelModel>, frame: Frame, span: seq<real>, channels: nat, threshold: real)
    returns (r: Result<seq<ObjectResult>>)
    ensures r == Collect(DetectionSteps(labels, frame, span, channels, threshold), channels)
  {
    ghost var f := DetectionSteps(labels, frame, span, channels, threshold);
    var boxes := new Option<ObjectResult>[channels](_ => None);
    var i := 0;
    while i < channels
      invariant i <= channels
      invariant Collect(f, i) == Ok(Present(boxes[..i]))
      invariant forall j :: i <= j < channels ==> boxes[j] == None
    {
      ghost var before := boxes[..i];
      var thrown := DecodeBox(boxes, labels, frame, span, channels, threshold, i);
      if thrown.Some? {
        SlotThrows(labels, frame, span, channels, threshold, i, Present(before));
        return Err(thrown.value);
      }
      ghost var slot := boxes[i];
      SlotCollected(labels, frame, span, channels, threshold, i, before, slot);
      assert boxes[..i + 1] == before + [slot];
      i := i + 1;
    }
    assert boxes[..] == boxes[..channels];
    r := Ok(Present(boxes[..]));
  }

  class ObjectDetectionModule {
    const labels: seq<LabelModel>
    /** `Outputs[0].Channels`: the number of boxes the model proposes. */
    const channels: nat
    const modelType: ModelType

    constructor (labels: seq<LabelModel>, channels: nat, modelType: ModelType)
      ensures this.labels == labels && this.channels == channels && this.modelType == modelType
    {
      this.labels := labels;
      this.channels := channels;
      this.modelType := modelType;
    }

    /**
     * ObjectDetectImage: the filled slots go through the Data generation's
     * non-maximum suppression, whose result is its greedy filter over a
     * confidence order of the filled slots.
     */
    method ObjectDetectImage(span: seq<real>, g: Gains, threshold: real, iouThreshold: real)
      returns (r: Result<seq<ObjectResult>>, ghost sorted: seq<ObjectResult>)
      ensures var out := Collect(DetectionSteps(labels, Frame(g, modelType), span, channels, threshold), channels);
                (r.Ok? <==> out.Ok?) && (r.Err? ==> r.error == out.error) &&
                (r.Ok? ==> multiset(sorted) == multiset(out.value) && SortedDesc(sorted, Confidence) &&
                           r.value == Keep(sorted, OverlapData(iouThreshold)))
    {
      var found := FindBoxes(labels, Frame(g, modelType), span, channels, threshold);
      if found.Err? {
        return Err(found.error), [];
      }
      var kept;
      kept, sorted := SuppressFoundData(found.value, iouThreshold);
      r := Ok(kept);
    }

    /** ProcessImage: each box of ObjectDetectImage converted to ObjectDetection, in a new list. */
    method ProcessImage(span: seq<real>, g: Gains, threshold: real, iouThreshold: real) returns (r: Result<seq<Detection>>)
      ensures var out := Collect(DetectionSteps(labels, Frame(g, modelType), span, channels, threshold), channels);
                (r.Ok? <==> out.Ok?) && (r.Err? ==> r.error == out.error) &&
                (r.Ok? ==> exists sorted :: multiset(sorted) == multiset(out.value) && SortedDesc(sorted, Confidence) &&
                                            r.value == ToDetections(Keep(sorted, OverlapData(iouThreshold))))
    {
      var found, sorted := ObjectDetectImage(span, g, threshold, iouThreshold);
      if found.Err? {
        return Err(found.error);
      }
      r := Ok(ToDetections(found.value));
    }
  }

  /**
   * What a successful legacy decode returns: filled slots as DetectionAt
   * says, in confidence order, no two overlapping by more than the
   * threshold under the Data generation's IoU.
   */
  lemma DecodedBoxes(labels: seq<LabelModel>, frame: Frame, span: seq<real>, channels: nat, threshold: real, iouThreshold: real,
                     sorted: seq<ObjectResult>)
    requires Collect(DetectionSteps(labels, frame, span, channels, threshold), channels).Ok?
    requires var out := Collect(DetectionSteps(labels, frame, span, channels, threshold), channels).value;
               multiset(sorted) == multiset(out) && SortedDesc(sorted, Confidence)
    ensures var kept := Keep(sorted, OverlapData(iouThreshold));
              |kept| <= channels && SortedDesc(kept, Confidence) &&
              (forall k :: 0 <= k < |kept| ==> DetectionAt(labels, frame, span, channels, threshold, kept[k])) &&
              (forall k, l :: 0 <= k < |kept| && 0 <= l < |kept| && k != l ==>
                 !Exceeds(IoUData(kept[k].box, kept[l].box), iouThreshold))
  {
    var out := Collect(DetectionSteps(labels, frame, span, channels, threshold), channels).value;
    Detections(labels, frame, span, channels, threshold);
    Suppressed(out, sorted, OverlapData(iouThreshold));
    DataKeptDisjoint(sorted, iouThreshold);
  }

  /**
   * A keypoint whose x sits at `offset`: x, y and confidence C apart, the
   * coordinates scaled back like the box corners (the single gain on both
   * axes, no clamp).
   */
  function KeyPointRead(g: Gains, span: seq<real>, channels: nat, offset: int): (r: Result<KeyPoint>)
    ensures r.Ok? <==> 0 <= offset && offset + 2 * channels < |span|
    ensures r.Err? ==> r.error == IndexOutOfRange
  {
    var x, y, c := At(span, offset), At(span, offset + channels), At(span, offset + 2 * channels);
    if x.Err? then Err(x.error)
    else if y.Err? then Err(y.error)
    else if c.Err? then Err(c.error)
    else Ok(KeyPoint(ScaleBack(x.value, g.xPad, g.xGain), ScaleBack(y.value, g.yPad, g.xGain), c.value))
  }

  /** The first `total` keypoints of a box whose keypoints start at `offset`, or the first read that throws. */
  function KeyPointsRead(g: Gains, span: seq<real>, channels: nat, offset: int, total: nat): Result<seq<KeyPoint>>
    decreases total
  {
    if total == 0 then Ok([])
    else
      var prev := KeyPointsRead(g, span, channels, offset, total - 1);
      if prev.Err? then prev
      else
        var k := KeyPointRead(g, span, channels, KeyPointOffset(offset, channels, total - 1));
        if k.Err? then Err(k.error) else Ok(prev.value + [k.value])
  }

  /**
   * The keypoint loop reads keypoint j at offset + 3Cj: it succeeds exactly
   * when every read lies within the tensor, and then keypoint j is the
   * j-th read.
   */
  lemma {:induction false} KeyPointsReadAt(g: Gains, span: seq<real>, channels: nat, offset: int, total: nat)
    ensures KeyPointsRead(g, span, channels, offset, total).Err? <==>
              exists j :: 0 <= j < total && KeyPointRead(g, span, channels, KeyPointOffset(offset, channels, j)).Err?
    ensures KeyPointsRead(g, span, channels, offset, total).Err? ==> KeyPointsRead(g, span, channels, offset, total).error == IndexOutOfRange
    ensures KeyPointsRead(g, span, channels, offset, total).Ok? ==>
              |KeyPointsRead(g, span, channels, offset, total).value| == total &&
              forall j :: 0 <= j < total ==>
                KeyPointRead(g, span, channels, KeyPointOffset(offset, channels, j)) == Ok(KeyPointsRead(g, span, channels, offset, total).value[j])
    decreases total
  {
    if total > 0 {
      KeyPointsReadAt(g, span, channels, offset, total - 1);
    }
  }

  /**
   * The pose loop over the first n kept boxes: each gets an array of
   * `total` keypoints (a negative size throws OverflowException), read
   * from its own column; the first exception escapes.
   */
  function Poses(boxes: seq<ObjectResult>, g: Gains, span: seq<real>, channels: nat, labels: nat, total: int, n: nat)
    : Result<seq<ObjectResult>>
    requires n <= |boxes|
    decreases n
  {
    if n == 0 then Ok([])
    else
      var prev := Poses(boxes, g, span, channels, labels, total, n - 1);
      if prev.Err? then prev
      else if total < 0 then Err(Overflow)
      else
        var points := KeyPointsRead(g, span, channels, KeyPointsStart(boxes[n - 1], channels, labels), total);
        if points.Err? then Err(points.error)
        else Ok(prev.value + [boxes[n - 1].(keyPoints := points.value)])
  }

  /**
   * The pose loop changes nothing but the keypoints: on success box i keeps
   * its label, score, boxes, index and angle and gets the `total` keypoints
   * of its column. It throws exactly when there is a box and either the
   * keypoint count is negative (OverflowException) or some read of some box
   * lies past the end (IndexOutOfRangeException).
   */
  lemma {:induction false} PosesAt(boxes: seq<ObjectResult>, g: Gains, span: seq<real>, channels: nat, labels: nat, total: int, n: nat)
    requires n <= |boxes|
    ensures var r := Poses(boxes, g, span, channels, labels, total, n);
              r.Ok? ==> |r.value| == n && (n > 0 ==> total >= 0) &&
                        forall i :: 0 <= i < n ==>
                          r.value[i] == boxes[i].(keyPoints := r.value[i].keyPoints) &&
                          KeyPointsRead(g, span, channels, KeyPointsStart(boxes[i], channels, labels), total as nat) == Ok(r.value[i].keyPoints)
    ensures Poses(boxes, g, span, channels, labels, total, n).Err? <==>
              n > 0 && (total < 0 ||
                        exists i :: 0 <= i < n && KeyPointsRead(g, span, channels, KeyPointsStart(boxes[i], channels, labels), total as nat).Err?)
    ensures Poses(boxes, g, span, channels, labels, total, n).Err? ==>
              Poses(boxes, g, span, channels, labels, total, n).error == (if total < 0 then Overflow else IndexOutOfRange)
    decreases n
  {
    if n > 0 {
      PosesAt(boxes, g, span, channels, labels, total, n - 1);
      if total >= 0 {
        KeyPointsReadAt(g, span, channels, KeyPointsStart(boxes[n - 1], channels, labels), total);
      }
    }
  }

  /** Once the pose loop has thrown, more boxes do not change that. */
  lemma {:induction false} PosesFirstError(boxes: seq<ObjectResult>, g: Gains, span: seq<real>, channels: nat, labels: nat, total: int,
                                           m: nat, n: nat)
    requires m <= n <= |boxes| && Poses(boxes, g, span, channels, labels, total, m).Err?
    ensures Poses(boxes, g, span, channels, labels, total, n) == Poses(boxes, g, span, channels, labels, total, m)
    decreases n - m
  {
    if m < n {
      PosesFirstError(boxes, g, span, channels, labels, total, m, n - 1);
    }
  }

  /** One more box of the pose loop: it throws for the whole loop, or extends the posed prefix. */
  lemma PosesStep(boxes: seq<ObjectResult>, g: Gains, span: seq<real>, channels: nat, labels: nat, total: int, i: nat,
                  prefix: seq<ObjectResult>)
    requires i < |boxes| && Poses(boxes, g, span, channels, labels, total, i) == Ok(prefix)
    ensures total < 0 ==> Poses(boxes, g, span, channels, labels, total, |boxes|) == Err(Overflow)
    ensures total >= 0 ==>
              var points := KeyPointsRead(g, span, channels, KeyPointsStart(boxes[i], channels, labels), total);
              (points.Err? ==> Poses(boxes, g, span, channels, labels, total, |boxes|) == Err(points.error)) &&
              (points.Ok? ==>
                 Poses(boxes, g, span, channels, labels, total, i + 1) == Ok(prefix + [boxes[i].(keyPoints := points.value)]))
  {
    if total < 0 || KeyPointsRead(g, span, channels, KeyPointsStart(boxes[i], channels, labels), total).Err? {
      PosesFirstError(boxes, g, span, channels, labels, total, i + 1, |boxes|);
    }
  }

  /** One more keypoint read. */
  lemma KeyPointsReadStep(g: Gains, span: seq<real>, channels: nat, offset: int, j: nat, prev: seq<KeyPoint>, k: KeyPoint)
    requires KeyPointsRead(g, span, channels, offset, j) == Ok(prev)
    requires KeyPointRead(g, span, channels, KeyPointOffset(offset, channels, j)) == Ok(k)
    ensures KeyPointsRead(g, span, channels, offset, j + 1) == Ok(prev + [k])
  {
  }

  /**
   * The keypoint loop of one box: an array of `total` keypoints, keypoint j
   * read at offset + 3Cj, with each read past the end throwing.
   */
  method ReadKeyPoints(g: Gains, span: seq<real>, channels: nat, offset: int, total: nat) returns (r: Result<seq<KeyPoint>>)
    ensures r == KeyPointsRead(g, span, channels, offset, total)
  {
    var poseEstimations := new KeyPoint[total];
    var keypointOffset := offset;
    var j := 0;
    while j < total
      invariant j <= total && keypointOffset == KeyPointOffset(offset, channels, j)
      invariant KeyPointsRead(g, span, channels, offset, j) == Ok(poseEstimations[..j])
    {
      var xIndex := keypointOffset;
      var yIndex := xIndex + channels;
      var cIndex := yIndex + channels;
      KeyPointOffsetNext(offset, channels, j);
      keypointOffset := keypointOffset + channels * 3;
      if xIndex < 0 || cIndex >= |span| {
        KeyPointsReadAt(g, span, channels, offset, total);
        assert KeyPointRead(g, span, channels, KeyPointOffset(offset, channels, j)).Err?;
        return Err(IndexOutOfRange);
      }
      var x := ScaleBack(span[xIndex], g.xPad, g.xGain);
      var y := ScaleBack(span[yIndex], g.yPad, g.xGain);
      var confidence := span[cIndex];
      ghost var before := poseEstimations[..j];
      assert KeyPointRead(g, span, channels, xIndex) == Ok(KeyPoint(x, y, confidence));
      KeyPointsReadStep(g, span, channels, offset, j, before, KeyPoint(x, y, confidence));
      poseEstimations[j] := KeyPoint(x, y, confidence);
      assert poseEstimations[..j + 1] == before + [KeyPoint(x, y, confidence)];
      j := j + 1;
    }
    assert poseEstimations[..] == poseEstimations[..total];
    r := Ok(poseEstimations[..]);
  }

  /**
   * The pose loop over the kept boxes, in place: box i's keypoints are
   * replaced by those read from its column. On success the array holds
   * Poses of what it held; the first exception escapes.
   */
  method AddKeyPoints(boxes: array<ObjectResult>, g: Gains, span: seq<real>, channels: nat, labels: nat, total: int)
    returns (thrown: Option<Error>)
    modifies boxes
    ensures var posed := Poses(old(boxes[..]), g, span, channels, labels, total, boxes.Length);
              (thrown.Some? <==> posed.Err?) &&
              (thrown.Some? ==> thrown.value == posed.error) &&
              (thrown.None? ==> boxes[..] == posed.value)
  {
    ghost var original := boxes[..];
    var i := 0;
    while i < boxes.Length
      invariant i <= boxes.Length
      invariant forall j :: i <= j < boxes.Length ==> boxes[j] == original[j]
      invariant Poses(original, g, span, channels, labels, total, i) == Ok(boxes[..i])
    {
      var box := boxes[i];
      ghost var before := boxes[..i];
      PosesStep(original, g, span, channels, labels, total, i, before);
      if total < 0 {
        return Some(Overflow);
      }
      var points := ReadKeyPoints(g, span, channels, KeyPointsStart(box, channels, labels), total);
      if points.Err? {
        return Some(points.error);
      }
      boxes[i] := box.(keyPoints := points.value);
      assert boxes[..i + 1] == before + [box.(keyPoints := points.value)];
      i := i + 1;
    }
    assert boxes[..] == boxes[..i];
    thrown := None;
  }

  /** The kept boxes as PoseEstimation results, in order. */
  function ToPoses(s: seq<ObjectResult>): (r: seq<PoseDetection>)
    ensures |r| == |s| && forall i :: 0 <= i < |s| ==> r[i] == ToPose(s[i])
  {
    seq(|s|, i requires 0 <= i < |s| => ToPose(s[i]))
  }

  class PoseEstimationModule {
    /** `_objectDetectionModule`: the legacy detector over the same model. */
    const detector: ObjectDetectionModule
    /** `Outputs[0].Elements`: the planes of the output tensor. */
    const elements: nat
    /** `Input.Channels`: the colour channels of the input image. */
    const inputChannels: Stride

    constructor (labels: seq<LabelModel>, channels: nat, elements: nat, inputChannels: Stride)
      ensures detector.labels == labels && detector.channels == channels && detector.modelType == PoseEstimation
      ensures this.elements == elements && this.inputChannels == inputChannels
    {
      detector := new ObjectDetectionModule(labels, channels, PoseEstimation);
      this.elements := elements;
      this.inputChannels := inputChannels;
    }

    /**
     * PoseEstimateImage: the detector's boxes, then each one's keypoints
     * read from its own column, as PoseEstimation results in the detector's
     * order.
     */
    method PoseEstimateImage(span: seq<real>, g: Gains, threshold: real, iouThreshold: real)
      returns (r: Result<seq<PoseDetection>>, ghost sorted: seq<ObjectResult>)
      ensures var out := Collect(DetectionSteps(detector.labels, Frame(g, detector.modelType), span, detector.channels, threshold), detector.channels);
              var kept := Keep(sorted, OverlapData(iouThreshold));
              var posed := Poses(kept, g, span, detector.channels, |detector.labels|,
                                 ChannelKeyPoints(elements, inputChannels, |detector.labels|), |kept|);
                (out.Err? ==> r == Err(out.error)) &&
                (out.Ok? ==> multiset(sorted) == multiset(out.value) && SortedDesc(sorted, Confidence) &&
                             (r.Ok? <==> posed.Ok?) &&
                             (r.Ok? ==> r.value == ToPoses(posed.value)) &&
                             (r.Err? ==> r.error == posed.error))
    {
      var found;
      found, sorted := detector.ObjectDetectImage(span, g, threshold, iouThreshold);
      if found.Err? {
        return Err(found.error), sorted;
      }
      var labels := |detector.labels|;
      var totalKeypoints := ChannelKeyPoints(elements, inputChannels, labels);
      var boxes := new ObjectResult[|found.value|](i requires 0 <= i < |found.value| => found.value[i]);
      assert boxes[..] == found.value;
      var thrown := AddKeyPoints(boxes, g, span, detector.channels, labels, totalKeypoints);
      if thrown.Some? {
        return Err(thrown.value), sorted;
      }
      r := Ok(ToPoses(boxes[..]));
    }
  }

  /**
   * What a successful legacy pose call returns: the detector's kept boxes,
   * in order, each with the keypoints of its own column and otherwise
   * unchanged; it fails exactly when some box's keypoints reach past the
   * tensor or their count is negative.
   */
  lemma PosedBoxes(kept: seq<ObjectResult>, g: Gains, span: seq<real>, channels: nat, labels: nat, total: int)
    ensures var posed := Poses(kept, g, span, channels, labels, total, |kept|);
              (posed.Ok? ==> |posed.value| == |kept| &&
                             forall i :: 0 <= i < |kept| ==>
                               ToPose(posed.value[i]) == PoseDetection(kept[i].classLabel, kept[i].confidence, kept[i].box, posed.value[i].keyPoints) &&
                               |posed.value[i].keyPoints| == total) &&
              (posed.Err? <==> |kept| > 0 && (total < 0 ||
                                 exists i :: 0 <= i < |kept| && KeyPointsRead(g, span, channels, KeyPointsStart(kept[i], channels, labels), total as nat).Err?))
  {
    var posed := Poses(kept, g, span, channels, labels, total, |kept|);
    PosesAt(kept, g, span, channels, labels, total, |kept|);
    if posed.Ok? {
      forall i | 0 <= i < |kept|
        ensures |posed.value[i].keyPoints| == total
      {
        KeyPointsReadAt(g, span, channels, KeyPointsStart(kept[i], channels, labels), total as nat);
      }
    }
  }
}
