// OnnxPropertiesExtension: the older reader of a model's properties, from
// a record the execution provider fills. It shares the label parser of
// ParseOnnxData but has its own version table, rejects dynamic input
// dimensions and derives the output shapes from the model type.

module OnnxProperties {
  import opened Common
  import opened Models
  import opened Text
  import opened Metadata

  // ---- Version ----

  /** The arms of OnnxPropertiesExtension.GetModelVersion, in source order. */
  const OnnxRules: seq<Rule> := [
    Rule(Lacks("yolo"), V8),
    Rule(Prefix("ultralytics yolov5"), V5U),
    Rule(Prefix("ultralytics yolov8"), V8),
    Rule(Prefix("ultralytics yoloe-v8"), V8E),
    Rule(Prefix("ultralytics yolov9"), V9),
    Rule(Prefix("ultralytics yolov10"), V10),
    Rule(Prefix("ultralytics yolo11"), V11),
    Rule(Prefix("ultralytics yoloe-11"), V11E),
    Rule(Prefix("ultralytics yolov12"), V12),
    Rule(Has("worldv2"), V11)
  ]

  /** GetModelVersion: the first arm the lower-cased description satisfies; YoloDotNetModelException when none does. */
  function OnnxModelVersion(description: string): (r: Result<ModelVersion>)
    ensures r.Err? <==> forall k :: 0 <= k < |OnnxRules| ==> !Holds(OnnxRules[k].test, Lower(description))
  {
    FirstMatch(OnnxRules, Lower(description))
  }

  /** A description without "yolo" is a YOLOv8, before any other arm is tried. */
  lemma MissingYoloIsV8(description: string)
    requires !Contains(Lower(description), "yolo")
    ensures OnnxModelVersion(description) == Ok(V8)
  {
    FirstMatchPicks(OnnxRules, Lower(description), 0);
  }

  /**
   * Where the description names "yolo" and starts with neither
   * "ultralytics yolo26" nor "ultralytics rt-detr", the two readers agree.
   */
  lemma VersionTablesAgree(description: string)
    requires Contains(Lower(description), "yolo")
    requires !StartsWith(Lower(description), "ultralytics yolo26")
    requires !StartsWith(Lower(description), "ultralytics rt-detr")
    ensures OnnxModelVersion(description) == GetModelVersion(description)
  {
    var s := Lower(description);
    SharedPrefixRules();
    assert !Holds(OnnxRules[0].test, s);
    assert !Holds(ParseRules[8].test, s) && !Holds(ParseRules[10].test, s) && !Holds(ParseRules[11].test, s);
    var r := GetModelVersion(description);
    if r.Ok? {
      var k :| 0 <= k < |ParseRules| && Holds(ParseRules[k].test, s) && ParseRules[k].version == r.value &&
               forall j :: 0 <= j < k ==> !Holds(ParseRules[j].test, s);
      VersionAgreesAt(s, k);
    }
  }

  /** When ParseOnnxData's arm k decides, this reader's first holding arm gives the same version. */
  lemma VersionAgreesAt(s: string, k: int)
    requires 0 <= k < |ParseRules| && Holds(ParseRules[k].test, s)
    requires forall j :: 0 <= j < k ==> !Holds(ParseRules[j].test, s)
    requires !Holds(OnnxRules[0].test, s)
    requires !Holds(ParseRules[8].test, s) && !Holds(ParseRules[10].test, s) && !Holds(ParseRules[11].test, s)
    ensures FirstMatch(OnnxRules, s) == Ok(ParseRules[k].version)
  {
    SharedPrefixRules();
    if k < 8 {
      FirstMatchPicks(OnnxRules, s, k + 1);
    } else {
      assert k == 9;
      FirstMatchPicks(OnnxRules, s, 9);
    }
  }

  /** The eight prefix arms and the worldv2 arm are those of ParseOnnxData, shifted by the leading "yolo" arm. */
  lemma SharedPrefixRules()
    ensures forall k :: 1 <= k < 9 ==> OnnxRules[k] == ParseRules[k - 1]
    ensures OnnxRules[9] == ParseRules[9]
  {
  }

  /** A YOLO26 description without "worldv2": ParseOnnxData knows it, this reader rejects it. */
  lemma Yolo26Rejected(description: string)
    requires StartsWith(Lower(description), "ultralytics yolo26")
    requires !Contains(Lower(description), "worldv2")
    ensures GetModelVersion(description) == Ok(V26)
    ensures OnnxModelVersion(description) == Err(ModelError)
  {
    var s := Lower(description);
    Yolo26Version(description);
    Yolo26NoEarlierPrefix(s);
    Yolo26NamesYolo(s);
    SharedPrefixRules();
  }

  lemma Yolo26NamesYolo(s: string)
    requires StartsWith(s, "ultralytics yolo26")
    ensures Contains(s, "yolo")
  {
    assert s[12..16] == "ultralytics yolo26"[12..16] == "yolo";
    assert OccursAt(s, "yolo", 12);
  }

  /** An RT-DETR description (no "yolo", no "worldv2"): ParseOnnxData reads RTDETR, this reader falls back to V8. */
  lemma RtDetrReadsAsV8(description: string)
    requires StartsWith(Lower(description), "ultralytics rt-detr")
    requires !Contains(Lower(description), "yolo") && !Contains(Lower(description), "worldv2")
    ensures GetModelVersion(description) == Ok(RTDETR)
    ensures OnnxModelVersion(description) == Ok(V8)
  {
    var s := Lower(description);
    forall k | 0 <= k < 9
      ensures !Holds(ParseRules[k].test, s)
    {
      var p := ParseRules[k].test.p;
      assert p[12] == 'y' && s[12] == 'r';
      assert !StartsWith(s, p) by {
        if |p| <= |s| {
          assert s[..|p|][12] != p[12];
        }
      }
    }
    FirstMatchPicks(ParseRules, s, 10);
    MissingYoloIsV8(description);
  }

  // ---- Task ----

  /**
   * GetModelType: the enum field whose EnumMember value is the task name.
   * When no field matches, `FirstOrDefault` yields null and `GetValue`
   * raises NullReferenceException.
   */
  function OnnxModelType(task: string): (r: Result<ModelType>)
    ensures r.Ok? <==> GetModelType(task).Ok?
    ensures r.Ok? ==> r == GetModelType(task) && TaskName(r.value) == task
    ensures r.Err? ==> r.error == NullReference
  {
    var t := GetModelType(task);
    if t.Ok? then t else Err(NullReference)
  }

  // ---- Shapes ----

  /** Input: batch size, channels, height and width (NCHW). */
  datatype Input = Input(batchSize: int, channels: int, height: int, width: int)

  /** Output: batch size, elements, channels, width, height. */
  datatype Output = Output(batchSize: int, elements: int, channels: int, width: int, height: int)

  const EmptyOutput := Output(0, 0, 0, 0, 0)

  /** `Input.Shape(dimensions)`: the first four dimensions; fewer raise IndexOutOfRangeException. */
  function InputOf(dimensions: seq<int>): (r: Result<Input>)
    ensures r.Ok? <==> |dimensions| >= 4
    ensures r.Ok? ==> [r.value.batchSize, r.value.channels, r.value.height, r.value.width] == dimensions[..4]
    ensures r.Err? ==> r.error == IndexOutOfRange
  {
    if |dimensions| < 4 then Err(IndexOutOfRange)
    else Ok(Input(dimensions[0], dimensions[1], dimensions[2], dimensions[3]))
  }

  /** GetModelInputShape: a dynamic dimension (-1) raises YoloDotNetModelException before the shape is read. */
  function GetModelInputShape(inputShape: seq<int>): (r: Result<Input>)
    ensures (exists k :: 0 <= k < |inputShape| && inputShape[k] == -1) ==> r == Err(ModelError)
    ensures r.Ok? <==> |inputShape| >= 4 && forall k :: 0 <= k < |inputShape| ==> inputShape[k] != -1
    ensures r.Ok? ==> r == InputOf(inputShape)
  {
    if exists k :: 0 <= k < |inputShape| && inputShape[k] == -1 then Err(ModelError)
    else InputOf(inputShape)
  }

  /** `Output.Classification(d)`: batch and elements. */
  function ClassificationOutput(d: seq<int>): Result<Output>
  {
    if |d| < 2 then Err(IndexOutOfRange) else Ok(Output(d[0], d[1], 0, 0, 0))
  }

  /** `Output.Detection(d)`: batch, elements and channels. */
  function DetectionOutput(d: seq<int>): Result<Output>
  {
    if |d| < 3 then Err(IndexOutOfRange) else Ok(Output(d[0], d[1], d[2], 0, 0))
  }

  /** `Output.Segmentation(d)`: batch, channels, width and height of the prototype masks. */
  function SegmentationOutput(d: seq<int>): Result<Output>
  {
    if |d| < 4 then Err(IndexOutOfRange) else Ok(Output(d[0], 0, d[1], d[2], d[3]))
  }

  /**
   * GetOutputShapes: the first output's shape by model type, the second
   * output's only for segmentation (an empty Output otherwise); an unknown
   * type raises YoloDotNetModelException. The first output is built first.
   */
  function GetOutputShapes(outputs: seq<seq<int>>, modelType: ModelType): (r: Result<seq<Output>>)
    ensures r.Ok? ==> |r.value| == 2 && |outputs| >= 1
    ensures r.Ok? && modelType != Segmentation ==> r.value[1] == EmptyOutput
    ensures r.Ok? && modelType == Segmentation ==> |outputs| >= 2 && Ok(r.value[1]) == SegmentationOutput(outputs[1])
    ensures r.Ok? && modelType == Classification ==> Ok(r.value[0]) == ClassificationOutput(outputs[0])
    ensures r.Ok? && modelType != Classification ==> Ok(r.value[0]) == DetectionOutput(outputs[0])
    ensures modelType.UndefinedType? ==> r == Err(ModelError)
  {
    if modelType.UndefinedType? then Err(ModelError)
    else if |outputs| == 0 then Err(IndexOutOfRange)
    else
      var first := if modelType == Classification then ClassificationOutput(outputs[0]) else DetectionOutput(outputs[0]);
      if first.Err? then Err(first.error)
      else if modelType != Segmentation then Ok([first.value, EmptyOutput])
      else if |outputs| < 2 then Err(IndexOutOfRange)
      else
        var second := SegmentationOutput(outputs[1]);
        if second.Err? then Err(second.error) else Ok([first.value, second.value])
  }

  // ---- Properties ----

  /** OnnxDataRecord: what the execution provider read from the session. */
  datatype OnnxDataRecord = OnnxDataRecord(
    metaData: map<string, string>,
    inputName: string,
    outputNames: seq<string>,
    inputShape: seq<int>,
    outputShapes: seq<seq<int>>)

  /** The OnnxModel this reader fills. */
  datatype OnnxProperties = OnnxProperties(
    modelType: ModelType,
    modelVersion: ModelVersion,
    inputName: string,
    outputNames: seq<string>,
    customMetaData: map<string, string>,
    input: Input,
    outputs: seq<Output>,
    labels: seq<LabelModel>,
    inputShape: seq<int>)

  /**
   * GetOnnxProperties. The metadata keys are the lower-cased names of the
   * MetaData members: "task", "description" and "names"; a missing key
   * raises KeyNotFoundException. Type and version are read first, then the
   * initializer runs in order: input, outputs, labels, and the NCHW copy.
   */
  function GetOnnxProperties(data: OnnxDataRecord): (r: Result<OnnxProperties>)
    ensures "task" !in data.metaData ==> r == Err(KeyNotFound)
    ensures r.Ok? ==> "task" in data.metaData && "description" in data.metaData && "names" in data.metaData
    ensures r.Ok? ==> OnnxModelType(data.metaData["task"]) == Ok(r.value.modelType) &&
                      OnnxModelVersion(data.metaData["description"]) == Ok(r.value.modelVersion) &&
                      GetModelInputShape(data.inputShape) == Ok(r.value.input) &&
                      GetOutputShapes(data.outputShapes, r.value.modelType) == Ok(r.value.outputs) &&
                      MapLabelsAndColors(data.metaData["names"]) == Ok(r.value.labels)
    ensures r.Ok? ==> r.value.inputShape == data.inputShape[..4] && r.value.customMetaData == data.metaData &&
                      r.value.inputName == data.inputName && r.value.outputNames == data.outputNames
  {
    if "task" !in data.metaData then Err(KeyNotFound)
    else
      var modelType := OnnxModelType(data.metaData["task"]);
      if modelType.Err? then Err(modelType.error)
      else if "description" !in data.metaData then Err(KeyNotFound)
      else
        var modelVersion := OnnxModelVersion(data.metaData["description"]);
        if modelVersion.Err? then Err(modelVersion.error)
        else
          var input := GetModelInputShape(data.inputShape);
          if input.Err? then Err(input.error)
          else
            var outputs := GetOutputShapes(data.outputShapes, modelType.value);
            if outputs.Err? then Err(outputs.error)
            else if "names" !in data.metaData then Err(KeyNotFound)
            else
              var labels := MapLabelsAndColors(data.metaData["names"]);
              if labels.Err? then Err(labels.error)
              else
                Ok(OnnxProperties(modelType.value, modelVersion.value, data.inputName, data.outputNames,
                                  data.metaData, input.value, outputs.value, labels.value, data.inputShape[..4]))
  }

  /** The NCHW copy and the Input record hold the same four numbers. */
  lemma InputShapeIsNchw(data: OnnxDataRecord)
    requires GetOnnxProperties(data).Ok?
    ensures var p := GetOnnxProperties(data).value;
            p.inputShape == [p.input.batchSize, p.input.channels, p.input.height, p.input.width] &&
            forall k :: 0 <= k < |p.inputShape| ==> p.inputShape[k] != -1
  {
  }

  /** Every model read through this path has a known type and exactly two outputs. */
  lemma PropertiesShape(data: OnnxDataRecord)
    requires GetOnnxProperties(data).Ok?
    ensures var p := GetOnnxProperties(data).value;
            !p.modelType.UndefinedType? && |p.outputs| == 2 &&
            (p.outputs[1] != EmptyOutput ==> p.modelType == Segmentation)
  {
  }
}
