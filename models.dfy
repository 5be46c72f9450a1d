// The records the library passes between its stages: labels, keypoints, the
// raw per-box result every decoder produces, the tracked detection handed to
// the caller, and the two enumerations that select a decoder.

module Models {
  import opened Common
  import opened Geometry

  /** LabelModel: a class index and its name. */
  datatype LabelModel = LabelModel(index: int, name: string)

  /** A pose keypoint: integer position and its confidence. */
  datatype KeyPoint = KeyPoint(x: int, y: int, confidence: real)

  /**
   * ObjectResult: what a decoder produces for one box. The box is in image
   * coordinates, `unscaled` in model-input coordinates, `boxIndex` is the
   * offset of the row in the output tensor, `mask` the bit-packed pixel mask.
   */
  datatype ObjectResult = ObjectResult(
    classLabel: LabelModel,
    confidence: real,
    box: RectI,
    unscaled: RectF,
    boxIndex: int,
    mask: seq<bv8>,
    keyPoints: seq<KeyPoint>,
    angle: real)

  /** A fresh ObjectResult with the defaults of the class: no mask, no keypoints, angle 0. */
  function NewResult(classLabel: LabelModel, confidence: real, box: RectI, unscaled: RectF, boxIndex: int): (r: ObjectResult)
    ensures r.classLabel == classLabel && r.confidence == confidence && r.box == box && r.boxIndex == boxIndex
    ensures r.unscaled == unscaled
    ensures r.mask == [] && r.keyPoints == [] && r.angle == 0.0
  {
    ObjectResult(classLabel, confidence, box, unscaled, boxIndex, [], [], 0.0)
  }

  /** The sort key of every non-maximum suppression. */
  function Confidence(o: ObjectResult): real
  {
    o.confidence
  }

  /**
   * The result of the ImageSharp generation (Data/YoloBase), whose box is a
   * RectangleF.
   */
  datatype LegacyResult = LegacyResult(classLabel: LabelModel, confidence: real, box: RectangleF)

  function LegacyConfidence(o: LegacyResult): real
  {
    o.confidence
  }

  /**
   * ObjectDetection / Segmentation as the tracker sees them: a labelled box
   * plus the TrackingInfo fields Id and Tail, both null until tracked.
   */
  datatype Detection = Detection(
    classLabel: LabelModel,
    confidence: real,
    box: RectI,
    id: Option<int>,
    tail: Option<seq<Point>>)

  /** The explicit conversion to ObjectDetection: label, confidence and box, with no tracking data yet. */
  function ToDetection(o: ObjectResult): (d: Detection)
    ensures d.classLabel == o.classLabel && d.confidence == o.confidence && d.box == o.box
    ensures d.id.None? && d.tail.None?
  {
    Detection(o.classLabel, o.confidence, o.box, None, None)
  }

  /** ToDetection applied to each result in turn. */
  function ToDetections(s: seq<ObjectResult>): (r: seq<Detection>)
    ensures |r| == |s| && forall k :: 0 <= k < |s| ==> r[k] == ToDetection(s[k])
  {
    seq(|s|, k requires 0 <= k < |s| => ToDetection(s[k]))
  }

  /** OBBDetection: a detection with its orientation angle. */
  datatype OBBDetection = OBBDetection(classLabel: LabelModel, confidence: real, box: RectI, angle: real)

  /** Segmentation (the C# record): a detection with its bit-packed pixel mask. */
  datatype SegmentationDetection = SegmentationDetection(classLabel: LabelModel, confidence: real, box: RectI, mask: seq<bv8>)

  /** PoseEstimation (the C# record): a detection with its keypoints. */
  datatype PoseDetection = PoseDetection(classLabel: LabelModel, confidence: real, box: RectI, keyPoints: seq<KeyPoint>)

  function ToObb(o: ObjectResult): OBBDetection
  {
    OBBDetection(o.classLabel, o.confidence, o.box, o.angle)
  }

  function ToSegmentation(o: ObjectResult): SegmentationDetection
  {
    SegmentationDetection(o.classLabel, o.confidence, o.box, o.mask)
  }

  function ToPose(o: ObjectResult): PoseDetection
  {
    PoseDetection(o.classLabel, o.confidence, o.box, o.keyPoints)
  }

  /** Classification: a label name and its confidence. */
  datatype ClassificationResult = ClassificationResult(labelName: string, confidence: real)

  /**
   * ModelType. The five named values, plus any other integer a C# enum
   * variable can hold, which the dispatching switches reject.
   */
  datatype ModelType =
    | Classification
    | ObjectDetection
    | ObbDetection
    | Segmentation
    | PoseEstimation
    | UndefinedType(code: int)

  /** ModelVersion, as named by the version rules and the module table. */
  datatype ModelVersion = V5U | V8 | V8E | V9 | V10 | V11 | V11E | V12 | V26 | WORLDV2 | RTDETR
}
