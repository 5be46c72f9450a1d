// ModuleFactory: the version-by-type table of module constructors and the
// lookup that picks one for a loaded model.

module ModuleFactory {
  import opened Common
  import opened Models
  import opened Text
  import opened Metadata

  /** What a table cell does when invoked: build the named module, or throw NotImplementedException. */
  datatype Creator = Builds(moduleName: string) | Throws

  /** A row of the table: the five model types, each with its creator. */
  function Row(classification: Creator, detection: Creator, obb: Creator, segmentation: Creator, pose: Creator):
    (r: map<ModelType, Creator>)
    ensures r.Keys == {Classification, ObjectDetection, ObbDetection, Segmentation, PoseEstimation}
  {
    map[Classification := classification, ObjectDetection := detection, ObbDetection := obb,
        Segmentation := segmentation, PoseEstimation := pose]
  }

  /** `_versionModuleMap.TryGetValue(version)`: the row the table holds for a version, row by row as written. */
  function VersionRow(version: ModelVersion): (r: Option<map<ModelType, Creator>>)
    ensures r.None? <==> version == V26 || version == RTDETR
  {
    match version
    case V5U => Some(Row(Throws, Builds("ObjectDetectionModuleV5U"), Throws, Throws, Throws))
    case V8 => Some(Row(Builds("ClassificationModuleV8"), Builds("ObjectDetectionModuleV8"), Builds("OBBDetectionModuleV8"),
                        Builds("SegmentationModuleV8"), Builds("PoseEstimationModuleV8")))
    case V8E => Some(Row(Throws, Throws, Throws, Builds("SegmentationModuleV8E"), Throws))
    case V9 => Some(Row(Throws, Builds("ObjectDetectionModuleV9"), Throws, Throws, Throws))
    case V10 => Some(Row(Throws, Builds("ObjectDetectionModuleV10"), Throws, Throws, Throws))
    case V11 => Some(Row(Builds("ClassificationModuleV11"), Builds("ObjectDetectionModuleV11"), Builds("OBBDetectionModuleV11"),
                         Builds("SegmentationModuleV11"), Builds("PoseEstimationModuleV11")))
    case V11E => Some(Row(Throws, Throws, Throws, Builds("SegmentationModuleV11E"), Throws))
    case V12 => Some(Row(Builds("ClassificationModuleV12"), Builds("ObjectDetectionModuleV12"), Builds("OBBDetectionModuleV12"),
                         Builds("SegmentationModuleV12"), Builds("PoseEstimationModuleV12")))
    case WORLDV2 => Some(Row(Throws, Builds("ObjectDetectionModuleWorldV2"), Throws, Throws, Throws))
    case V26 => None
    case RTDETR => None
  }

  /** Invoking a cell: the module it builds, or the NotImplementedException it throws. */
  function Invoke(c: Creator): (r: Result<string>)
    ensures r.Ok? <==> c.Builds?
    ensures r.Err? ==> r.error == NotImplemented
  {
    match c
    case Builds(m) => Ok(m)
    case Throws => Err(NotImplemented)
  }

  /**
   * CreateModule as written: `TryGetValue` on the version leaves `moduleMap`
   * null for a version the table lacks, and `moduleMap!.TryGetValue` then
   * raises NullReferenceException before the documented check is reached.
   */
  function CreateModuleAsWritten(version: ModelVersion, modelType: ModelType): (r: Result<string>)
    ensures VersionRow(version).None? ==> r == Err(NullReference)
    ensures VersionRow(version).Some? ==> r == CreateModule(version, modelType)
  {
    var row := VersionRow(version);
    if row.None? then Err(NullReference)
    else if modelType !in row.value then Err(ModelError)
    else Invoke(row.value[modelType])
  }

  /**
   * CreateModule as documented: YoloDotNetModelException for a version or a
   * type the table lacks; otherwise the cell is invoked.
   */
  function CreateModule(version: ModelVersion, modelType: ModelType): (r: Result<string>)
    ensures (VersionRow(version).None? || modelType.UndefinedType?) <==> r == Err(ModelError)
    ensures r.Ok? <==> VersionRow(version).Some? && modelType in VersionRow(version).value &&
                       VersionRow(version).value[modelType].Builds?
    ensures r.Ok? ==> r.value == VersionRow(version).value[modelType].moduleName
  {
    var row := VersionRow(version);
    if row.None? || modelType !in row.value then Err(ModelError)
    else Invoke(row.value[modelType])
  }

  /** V8, V11 and V12 build a module for each of the five model types. */
  lemma FullVersions(version: ModelVersion, modelType: ModelType)
    requires version == V8 || version == V11 || version == V12
    requires !modelType.UndefinedType?
    ensures CreateModule(version, modelType).Ok?
  {
  }

  /** V5U, V9, V10 and WORLDV2 build only object detection. */
  lemma DetectionOnlyVersions(version: ModelVersion, modelType: ModelType)
    requires version == V5U || version == V9 || version == V10 || version == WORLDV2
    ensures CreateModule(version, modelType).Ok? <==> modelType == ObjectDetection
  {
  }

  /** V8E and V11E build only segmentation. */
  lemma SegmentationOnlyVersions(version: ModelVersion, modelType: ModelType)
    requires version == V8E || version == V11E
    ensures CreateModule(version, modelType).Ok? <==> modelType == Segmentation
  {
  }

  /**
   * A listed version with a defined type that has no module throws
   * NotImplementedException from its cell, not YoloDotNetModelException;
   * an undefined type is reported as YoloDotNetModelException.
   */
  lemma UnsupportedPairs(version: ModelVersion, modelType: ModelType)
    requires VersionRow(version).Some?
    ensures !modelType.UndefinedType? && CreateModule(version, modelType).Err? ==>
              CreateModule(version, modelType) == Err(NotImplemented)
    ensures modelType.UndefinedType? ==> CreateModule(version, modelType) == Err(ModelError)
  {
  }

  /** As written, a YOLO26 model of any type ends in NullReferenceException. */
  lemma Yolo26NullReference(modelType: ModelType)
    ensures CreateModuleAsWritten(V26, modelType) == Err(NullReference)
    ensures CreateModule(V26, modelType) == Err(ModelError)
  {
  }

  /** A model whose description starts "ultralytics yolo26" is read as V26 and then fails in the lookup as written. */
  lemma Yolo26ModelsFail(description: string, modelType: ModelType)
    requires StartsWith(Lower(description), "ultralytics yolo26")
    ensures GetModelVersion(description) == Ok(V26)
    ensures CreateModuleAsWritten(GetModelVersion(description).value, modelType) == Err(NullReference)
  {
    Yolo26Version(description);
  }
}
