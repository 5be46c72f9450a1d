// The V8 object-detection decoder (Modules/V8/ObjectDetectionModuleV8).
// The output tensor is channel-major: for C boxes, the plane of x values
// comes first (offsets 0..C-1), then y, w and h, then one plane of scores per
// label, and for an OBB model a last plane of angles. Box i is the column
// at offset i. Each column picks its best label, is skipped below the
// threshold, is turned into an image box, and goes into a buffer of C slots;
// the kept boxes then go through non-maximum suppression. The label loop
// is LabelScores.Best over the scores C apart from offset i + 4C.

module DecodeV8 {
  import opened Common
  import opened Geometry
  import opened Models
  import opened Sorting
  import opened Nms
  import opened Decoding
  import opened Rows
  import opened LabelScores

  /** Where the score of the first label of box i sits: past the four coordinate planes. */
  function FirstScore(channels: nat, i: nat): nat
  {
    i + channels * 4
  }

  /** Where the angle of box i sits in an OBB model: past the coordinate planes and the label planes. */
  function AngleOffset(channels: nat, i: nat, labels: nat): nat
  {
    ScoreOffset(FirstScore(channels, i), channels, labels)
  }

  /** The geometry a decoder call works with: the resize mode, the gains, the original image size, and the model type. */
  datatype Frame = Frame(resize: ImageResize, g: Gains, width: int, height: int, modelType: ModelType)

  /**
   * Box i of the tensor. The label loop runs first; a box below the
   * threshold is skipped. Otherwise x, y, w and h are read at i, i+C, i+2C
   * and i+3C, the corners are computed (and clamped in stretched mode), the
   * best label is looked up (label -1, left when no score is positive,
   * throws), and an OBB model reads its angle from the plane after the
   * labels.
   */
  function DetectionRow(labels: seq<LabelModel>, frame: Frame, span: seq<real>, channels: nat, threshold: real, i: nat)
    : (r: Result<Option<ObjectResult>>)
    ensures r.Err? ==> r.error == (if Best(span, FirstScore(channels, i), channels, |labels|).Ok? && ClampThrows(frame.resize, frame.width, frame.height) && i + 3 * channels < |span|
                                   then ArgumentError else IndexOutOfRange)
    ensures r == Ok(None) <==> Best(span, FirstScore(channels, i), channels, |labels|).Ok? && Best(span, FirstScore(channels, i), channels, |labels|).value.0 < threshold
  {
    var best := Best(span, FirstScore(channels, i), channels, |labels|);
    if best.Err? then Err(best.error) else RowOfBest(labels, frame, span, channels, threshold, i, best.value)
  }

  /** The rest of box i once the label loop has returned its best score and label. */
  function RowOfBest(labels: seq<LabelModel>, frame: Frame, span: seq<real>, channels: nat, threshold: real, i: nat, best: (real, int))
    : (r: Result<Option<ObjectResult>>)
    ensures r.Err? ==> r.error == (if ClampThrows(frame.resize, frame.width, frame.height) && i + 3 * channels < |span| then ArgumentError else IndexOutOfRange)
    ensures r == Ok(None) <==> best.0 < threshold
  {
    var (confidence, index) := best;
    if confidence < threshold then Ok(None)
    else if i + 3 * channels >= |span| then Err(IndexOutOfRange)
    else if ClampThrows(frame.resize, frame.width, frame.height) then Err(ArgumentError)
    else if !(0 <= index < |labels|) then Err(IndexOutOfRange)
    else if frame.modelType == ObbDetection && AngleOffset(channels, i, |labels|) >= |span| then Err(IndexOutOfRange)
    else
      var x, y, w, h := span[i], span[i + channels], span[i + 2 * channels], span[i + 3 * channels];
      var angle := if frame.modelType == ObbDetection then span[AngleOffset(channels, i, |labels|)] else 0.0;
      Ok(Some(ObjectResult(labels[index], confidence, CentreBox(frame.resize, frame.g, frame.width, frame.height, x, y, w, h),
                           CentredUnscaled(x, y, w, h), i, [], [], angle)))
  }

  /** One pass of the column loop: the label loop, then the rest of the box. */
  method DecodeRow(labels: seq<LabelModel>, frame: Frame, span: seq<real>, channels: nat, threshold: real, i: nat)
    returns (r: Result<Option<ObjectResult>>)
    ensures r == DetectionRow(labels, frame, span, channels, threshold, i)
  {
    var best := BestLabel(span, FirstScore(channels, i), channels, |labels|);
    if best.Err? {
      return Err(best.error);
    }
    r := RowOfBest(labels, frame, span, channels, threshold, i, best.value);
  }

  /** The loop's rows: box r is the column at offset r. */
  function DetectionSteps(labels: seq<LabelModel>, frame: Frame, span: seq<real>, channels: nat, threshold: real)
    : nat -> Result<Option<ObjectResult>>
  {
    (r: nat) => DetectionRow(labels, frame, span, channels, threshold, r)
  }

  /**
   * What a kept box holds: its column i, the best label and its score from
   * the label loop (at least the threshold, and a real label), its corners
   * from x, y, w and h, and its angle from the plane after the labels for an
   * OBB model and 0 otherwise.
   */
  ghost predicate DetectionAt(labels: seq<LabelModel>, frame: Frame, span: seq<real>, channels: nat, threshold: real, o: ObjectResult)
  {
    var i := o.boxIndex;
    0 <= i && i + 3 * channels < |span| && !ClampThrows(frame.resize, frame.width, frame.height) &&
    Best(span, FirstScore(channels, i), channels, |labels|).Ok? &&
    var (b, k) := Best(span, FirstScore(channels, i), channels, |labels|).value;
    0 <= k < |labels| && o.classLabel == labels[k] && o.confidence == b >= threshold &&
    o.box == CentreBox(frame.resize, frame.g, frame.width, frame.height, span[i], span[i + channels], span[i + 2 * channels], span[i + 3 * channels]) &&
    o.unscaled == CentredUnscaled(span[i], span[i + channels], span[i + 2 * channels], span[i + 3 * channels]) &&
    o.mask == [] && o.keyPoints == [] &&
    (frame.modelType == ObbDetection ==> AngleOffset(channels, i, |labels|) < |span| && o.angle == span[AngleOffset(channels, i, |labels|)]) &&
    (frame.modelType != ObbDetection ==> o.angle == 0.0)
  }

  /** A kept box yields the one the layout describes, keyed by its own column. */
  lemma DetectionRowAt(labels: seq<LabelModel>, frame: Frame, span: seq<real>, channels: nat, threshold: real, i: nat)
    requires Yields(DetectionRow(labels, frame, span, channels, threshold, i))
    ensures var o := DetectionRow(labels, frame, span, channels, threshold, i).value.value;
              o.boxIndex == i && DetectionAt(labels, frame, span, channels, threshold, o)
  {
    var best := Best(span, FirstScore(channels, i), channels, |labels|);
    var o := RowOfBest(labels, frame, span, channels, threshold, i, best.value).value.value;
    var (b, k) := best.value;
    var x, y, w, h := span[i], span[i + channels], span[i + 2 * channels], span[i + 3 * channels];
    assert o.classLabel == labels[k] && o.confidence == b;
    assert o.box == CentreBox(frame.resize, frame.g, frame.width, frame.height, x, y, w, h);
  }

  lemma DetectionStepsKeyed(labels: seq<LabelModel>, frame: Frame, span: seq<real>, channels: nat, threshold: real, n: nat)
    ensures KeyedByRow(DetectionSteps(labels, frame, span, channels, threshold), n, (o: ObjectResult) => o.boxIndex, 1)
    ensures forall r: nat :: r < n && Yields(DetectionSteps(labels, frame, span, channels, threshold)(r)) ==>
              DetectionAt(labels, frame, span, channels, threshold, DetectionSteps(labels, frame, span, channels, threshold)(r).value.value)
  {
    var f := DetectionSteps(labels, frame, span, channels, threshold);
    forall r: nat | r < n && Yields(f(r))
      ensures f(r).value.value.boxIndex == r && DetectionAt(labels, frame, span, channels, threshold, f(r).value.value)
    {
      assert f(r) == DetectionRow(labels, frame, span, channels, threshold, r);
      DetectionRowAt(labels, frame, span, channels, threshold, r);
    }
  }

  /**
   * The decoded boxes, when no box throws: one result per kept column, in
   * column order, each read as the layout says; a column is among them
   * exactly when its label loop's best score reaches the threshold.
   */
  lemma Detections(labels: seq<LabelModel>, frame: Frame, span: seq<real>, channels: nat, threshold: real)
    requires Collect(DetectionSteps(labels, frame, span, channels, threshold), channels).Ok?
    ensures var out := Collect(DetectionSteps(labels, frame, span, channels, threshold), channels).value;
              |out| <= channels &&
              (forall j :: 0 <= j < |out| ==> DetectionAt(labels, frame, span, channels, threshold, out[j])) &&
              (forall j, k :: 0 <= j < k < |out| ==> out[j].boxIndex < out[k].boxIndex)
    ensures var out := Collect(DetectionSteps(labels, frame, span, channels, threshold), channels).value;
              forall r: nat :: r < channels ==>
                Best(span, FirstScore(channels, r), channels, |labels|).Ok? &&
                (Best(span, FirstScore(channels, r), channels, |labels|).value.0 >= threshold <==> exists j :: 0 <= j < |out| && out[j].boxIndex == r)
  {
    var f := DetectionSteps(labels, frame, span, channels, threshold);
    CollectKept(f, channels);
    DetectionStepsKeyed(labels, frame, span, channels, threshold, channels);
    CollectAll(f, channels, o => DetectionAt(labels, frame, span, channels, threshold, o));
    CollectKeysIncrease(f, channels, (o: ObjectResult) => o.boxIndex, 1);
    DetectionsKept(labels, frame, span, channels, threshold);
  }

  /** When no box throws, a column is decoded exactly when its best score reaches the threshold. */
  lemma DetectionsKept(labels: seq<LabelModel>, frame: Frame, span: seq<real>, channels: nat, threshold: real)
    requires Collect(DetectionSteps(labels, frame, span, channels, threshold), channels).Ok?
    ensures var out := Collect(DetectionSteps(labels, frame, span, channels, threshold), channels).value;
              forall r: nat :: r < channels ==>
                Best(span, FirstScore(channels, r), channels, |labels|).Ok? &&
                (Best(span, FirstScore(channels, r), channels, |labels|).value.0 >= threshold <==> exists j :: 0 <= j < |out| && out[j].boxIndex == r)
  {
    var f := DetectionSteps(labels, frame, span, channels, threshold);
    DetectionStepsKeyed(labels, frame, span, channels, threshold, channels);
    CollectFails(f, channels);
    forall r: nat | r < channels
      ensures Best(span, FirstScore(channels, r), channels, |labels|).Ok?
      ensures var out := Collect(f, channels).value;
                Best(span, FirstScore(channels, r), channels, |labels|).value.0 >= threshold <==> exists j :: 0 <= j < |out| && out[j].boxIndex == r
    {
      assert f(r) == DetectionRow(labels, frame, span, channels, threshold, r);
      assert f(r).Ok?;
      CollectKeyFound(f, channels, (o: ObjectResult) => o.boxIndex, 1, r);
    }
  }

  /**
   * A box whose scores are all at most 0 keeps label -1; with a threshold
   * of 0 or less it is not skipped, and the label lookup throws.
   */
  lemma NoPositiveScoreThrows(labels: seq<LabelModel>, frame: Frame, span: seq<real>, channels: nat, threshold: real, i: nat)
    requires threshold <= 0.0 && i + 3 * channels < |span| && !ClampThrows(frame.resize, frame.width, frame.height)
    requires forall m :: 0 <= m < |labels| ==> ScoreOffset(FirstScore(channels, i), channels, m) < |span| && span[ScoreOffset(FirstScore(channels, i), channels, m)] <= 0.0
    ensures DetectionRow(labels, frame, span, channels, threshold, i) == Err(IndexOutOfRange)
  {
    BestFails(span, FirstScore(channels, i), channels, |labels|);
    BestFirstMax(span, FirstScore(channels, i), channels, |labels|);
  }

  /**
   * The loop over the C columns, storing each kept box in a buffer of C
   * slots under a counter. It returns the number of results, which sit at
   * the front of the buffer; the buffer never overflows, since each column
   * adds at most one box.
   */
  method FillBoxes(boxes: array<ObjectResult>, labels: seq<LabelModel>, frame: Frame, span: seq<real>, channels: nat, threshold: real)
    returns (r: Result<nat>)
    requires boxes.Length == channels
    modifies boxes
    ensures var out := Collect(DetectionSteps(labels, frame, span, channels, threshold), channels);
              (r.Ok? <==> out.Ok?) &&
              (r.Ok? ==> r.value <= channels && boxes[..r.value] == out.value) &&
              (r.Err? ==> r.error == out.error)
  {
    ghost var f := DetectionSteps(labels, frame, span, channels, threshold);
    var validBoxCount: nat := 0;
    for i := 0 to channels
      invariant validBoxCount <= i
      invariant Collect(f, i) == Ok(boxes[..validBoxCount])
    {
      var step := DecodeRow(labels, frame, span, channels, threshold, i);
      assert step == f(i);
      ghost var before := boxes[..validBoxCount];
      CollectStep(f, i, before);
      if step.Err? {
        StepThrows(f, i, channels, before);
        return Err(step.error);
      }
      if step.value.Some? {
        boxes[validBoxCount] := step.value.value;
        assert boxes[..validBoxCount + 1] == before + [step.value.value];
        validBoxCount := validBoxCount + 1;
      }
    }
    r := Ok(validBoxCount);
  }

  class ObjectDetectionModuleV8 {
    const labels: seq<LabelModel>
    /** `Outputs[0].Channels`: the number of boxes the model proposes. */
    const channels: nat
    const modelType: ModelType
    const options: YoloOptions

    constructor (labels: seq<LabelModel>, channels: nat, modelType: ModelType, options: YoloOptions)
      ensures this.labels == labels && this.channels == channels && this.modelType == modelType && this.options == options
    {
      this.labels := labels;
      this.channels := channels;
      this.modelType := modelType;
      this.options := options;
    }

    /**
     * ObjectDetection: an empty tensor gives no boxes. Otherwise the C
     * columns are decoded into a buffer of C slots and the kept boxes go
     * through the Core generation's non-maximum suppression; the result is
     * its greedy filter over a confidence order of the decoded boxes.
     */
    method ObjectDetection(span: seq<real>, g: Gains, width: int, height: int, threshold: real, iouThreshold: real)
      returns (r: Result<seq<ObjectResult>>, ghost sorted: seq<ObjectResult>)
      ensures |span| == 0 ==> r == Ok([])
      ensures |span| > 0 ==>
                var out := Collect(DetectionSteps(labels, Frame(options.imageResize, g, width, height, modelType), span, channels, threshold), channels);
                (r.Ok? <==> out.Ok?) && (r.Err? ==> r.error == out.error) &&
                (r.Ok? ==> multiset(sorted) == multiset(out.value) && SortedDesc(sorted, Confidence) &&
                           r.value == Keep(sorted, OverlapCore(iouThreshold)))
    {
      if |span| == 0 {
        return Ok([]), [];
      }
      var frame := Frame(options.imageResize, g, width, height, modelType);
      var boxes := new ObjectResult[channels];
      var count := FillBoxes(boxes, labels, frame, span, channels, threshold);
      if count.Err? {
        return Err(count.error), [];
      }
      var kept;
      kept, sorted := SuppressFound(boxes[..count.value], iouThreshold);
      r := Ok(kept);
    }

    /** ProcessImage: each box of ObjectDetection converted to ObjectDetection, in a new list. */
    method ProcessImage(span: seq<real>, g: Gains, width: int, height: int, threshold: real, iouThreshold: real)
      returns (r: Result<seq<Detection>>)
      ensures |span| == 0 ==> r == Ok([])
      ensures |span| > 0 ==>
                var out := Collect(DetectionSteps(labels, Frame(options.imageResize, g, width, height, modelType), span, channels, threshold), channels);
                (r.Ok? <==> out.Ok?) && (r.Err? ==> r.error == out.error) &&
                (r.Ok? ==> exists sorted :: multiset(sorted) == multiset(out.value) && SortedDesc(sorted, Confidence) &&
                                            r.value == ToDetections(Keep(sorted, OverlapCore(iouThreshold))))
    {
      var found, sorted := ObjectDetection(span, g, width, height, threshold, iouThreshold);
      if found.Err? {
        return Err(found.error);
      }
      r := Ok(ToDetections(found.value));
    }
  }

  /**
   * What a successful decode returns: boxes read from the tensor as the
   * layout says, in confidence order, no two overlapping by more than the
   * threshold, at most one per column, with the most confident decoded box
   * among them.
   */
  lemma DecodedBoxes(labels: seq<LabelModel>, frame: Frame, span: seq<real>, channels: nat, threshold: real, iouThreshold: real,
                     sorted: seq<ObjectResult>)
    requires Collect(DetectionSteps(labels, frame, span, channels, threshold), channels).Ok?
    requires var out := Collect(DetectionSteps(labels, frame, span, channels, threshold), channels).value;
               multiset(sorted) == multiset(out) && SortedDesc(sorted, Confidence)
    ensures var kept := Keep(sorted, OverlapCore(iouThreshold));
              |kept| <= channels && SortedDesc(kept, Confidence) &&
              (forall k :: 0 <= k < |kept| ==> DetectionAt(labels, frame, span, channels, threshold, kept[k])) &&
              (forall k, l :: 0 <= k < |kept| && 0 <= l < |kept| && k != l ==>
                 !Exceeds(IoUCore(kept[k].box, kept[l].box), iouThreshold))
  {
    var out := Collect(DetectionSteps(labels, frame, span, channels, threshold), channels).value;
    Detections(labels, frame, span, channels, threshold);
    Suppressed(out, sorted, OverlapCore(iouThreshold));
    CoreKeptDisjoint(sorted, iouThreshold);
  }
}
