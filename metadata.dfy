// ParseOnnxData: reading a model's task, version, labels and input size out
// of the ONNX metadata. The version is the first rule of an ordered table
// that the lower-cased description satisfies; the labels come from the
// Python-dict text ultralytics writes under "names".

module Metadata {
  import opened Common
  import opened Models
  import opened Text

  // ---- Version rules ----

  /** A test on the lower-cased description. */
  datatype Condition =
    | Prefix(p: string)                  // StartsWith(p)
    | Has(p: string)                     // Contains(p)
    | Lacks(p: string)                   // Contains(p) is false
    | Both(first: Condition, second: Condition)

  predicate Holds(c: Condition, s: string)
  {
    match c
    case Prefix(p) => StartsWith(s, p)
    case Has(p) => Contains(s, p)
    case Lacks(p) => !Contains(s, p)
    case Both(a, b) => Holds(a, s) && Holds(b, s)
  }

  /** One `var version when … => ModelVersion.X` arm of a switch expression. */
  datatype Rule = Rule(test: Condition, version: ModelVersion)

  /** The switch: the version of the first arm whose test holds; YoloDotNetModelException when none does. */
  function FirstMatch(rules: seq<Rule>, s: string): (r: Result<ModelVersion>)
    ensures r.Err? <==> forall k :: 0 <= k < |rules| ==> !Holds(rules[k].test, s)
    ensures r.Err? ==> r.error == ModelError
    ensures r.Ok? ==> exists k :: 0 <= k < |rules| && Holds(rules[k].test, s) && rules[k].version == r.value &&
                                  forall j :: 0 <= j < k ==> !Holds(rules[j].test, s)
  {
    if |rules| == 0 then Err(ModelError)
    else if Holds(rules[0].test, s) then Ok(rules[0].version)
    else
      var r := FirstMatch(rules[1..], s);
      if r.Ok? then
        var k :| 0 <= k < |rules| - 1 && Holds(rules[1..][k].test, s) && rules[1..][k].version == r.value &&
                 forall j :: 0 <= j < k ==> !Holds(rules[1..][j].test, s);
        assert Holds(rules[k + 1].test, s) && forall j :: 0 <= j < k + 1 ==> !Holds(rules[j].test, s);
        r
      else
        assert forall k :: 1 <= k < |rules| ==> rules[k] == rules[1..][k - 1];
        r
  }

  /** The arm that holds first decides, whatever the later arms say. */
  lemma FirstMatchPicks(rules: seq<Rule>, s: string, k: int)
    requires 0 <= k < |rules| && Holds(rules[k].test, s)
    requires forall j :: 0 <= j < k ==> !Holds(rules[j].test, s)
    ensures FirstMatch(rules, s) == Ok(rules[k].version)
  {
    var r := FirstMatch(rules, s);
    if r.Ok? {
      var m :| 0 <= m < |rules| && Holds(rules[m].test, s) && rules[m].version == r.value &&
               forall j :: 0 <= j < m ==> !Holds(rules[j].test, s);
      assert m == k;
    }
  }

  /** The arms of ParseOnnxData.GetModelVersion, in source order. */
  const ParseRules: seq<Rule> := [
    Rule(Prefix("ultralytics yolov5"), V5U),
    Rule(Prefix("ultralytics yolov8"), V8),
    Rule(Prefix("ultralytics yoloe-v8"), V8E),
    Rule(Prefix("ultralytics yolov9"), V9),
    Rule(Prefix("ultralytics yolov10"), V10),
    Rule(Prefix("ultralytics yolo11"), V11),
    Rule(Prefix("ultralytics yoloe-11"), V11E),
    Rule(Prefix("ultralytics yolov12"), V12),
    Rule(Prefix("ultralytics yolo26"), V26),
    Rule(Has("worldv2"), V11),
    Rule(Prefix("ultralytics rt-detr"), RTDETR),
    Rule(Both(Prefix("ultralytics"), Lacks("yolo")), V8)
  ]

  /** ParseOnnxData.GetModelVersion: the switch over `modelDescription.ToLower()`. */
  function GetModelVersion(description: string): (r: Result<ModelVersion>)
    ensures r.Err? ==> r.error == ModelError
    ensures r.Err? ==> !Contains(Lower(description), "worldv2") &&
                       !(StartsWith(Lower(description), "ultralytics") && !Contains(Lower(description), "yolo"))
  {
    var s := Lower(description);
    assert Holds(ParseRules[9].test, s) <==> Contains(s, "worldv2");
    assert Holds(ParseRules[11].test, s) <==> StartsWith(s, "ultralytics") && !Contains(s, "yolo");
    FirstMatch(ParseRules, s)
  }

  /** The version does not depend on the case of the description. */
  lemma VersionIgnoresCase(description: string)
    ensures GetModelVersion(Lower(description)) == GetModelVersion(description)
  {
    LowerIdempotent(description);
  }

  /** No two prefixes of the table nest, so a description starting with one cannot start with another. */
  lemma ParsePrefixesExclusive(s: string, j: nat, k: nat)
    requires j < k < 9
    ensures !(StartsWith(s, ParseRules[j].test.p) && StartsWith(s, ParseRules[k].test.p))
  {
    var p, q := ParseRules[j].test.p, ParseRules[k].test.p;
    assert j == 0 || j == 1 || j == 2 || j == 3 || j == 4 || j == 5 || j == 6 || j == 7;
    assert 18 <= |p| && 18 <= |q| && DifferAfterYolo(p, q);
    DifferingPrefixes(s, p, q);
  }

  /** The characters after "ultralytics yolo" that tell two prefixes apart. */
  predicate DifferAfterYolo(p: string, q: string)
    requires 18 <= |p| && 18 <= |q|
  {
    p[16] != q[16] || p[17] != q[17] || (|p| > 18 && |q| > 18 && p[18] != q[18])
  }

  lemma DifferingPrefixes(s: string, p: string, q: string)
    requires 18 <= |p| && 18 <= |q| && DifferAfterYolo(p, q)
    ensures !(StartsWith(s, p) && StartsWith(s, q))
  {
    if StartsWith(s, p) && |q| <= |s| {
      var m := if p[16] != q[16] then 16 else if p[17] != q[17] then 17 else 18;
      assert s[..|q|][m] == s[..|p|][m] != q[m];
    }
  }

  /**
   * A description starting with one of the nine version prefixes gets that
   * prefix's version: the order of the prefix arms never matters.
   */
  lemma VersionByPrefix(description: string, k: nat)
    requires k < 9 && StartsWith(Lower(description), ParseRules[k].test.p)
    ensures GetModelVersion(description) == Ok(ParseRules[k].version)
  {
    var s := Lower(description);
    forall j | 0 <= j < k
      ensures !Holds(ParseRules[j].test, s)
    {
      if Holds(ParseRules[j].test, s) {
        ParsePrefixesExclusive(s, j, k);
      }
    }
    FirstMatchPicks(ParseRules, s, k);
  }

  /** Every prefix arm names "yolo" at position 12, so a description without "yolo" fails them all. */
  lemma PrefixArmsNeedYolo(s: string, k: nat)
    requires k < 9 && StartsWith(s, ParseRules[k].test.p)
    ensures Contains(s, "yolo")
  {
    var p := ParseRules[k].test.p;
    assert p[12..16] == "yolo";
    assert s[..|p|] == p;
    assert s[12..16] == s[..|p|][12..16];
    assert OccursAt(s, "yolo", 12);
  }

  /**
   * The fallback: an "ultralytics" description that names neither yolo,
   * worldv2 nor rt-detr is taken for a YOLOv8.
   */
  lemma VersionFallback(description: string)
    requires var s := Lower(description);
               StartsWith(s, "ultralytics") && !Contains(s, "yolo") && !Contains(s, "worldv2") &&
               !StartsWith(s, "ultralytics rt-detr")
    ensures GetModelVersion(description) == Ok(V8)
  {
    var s := Lower(description);
    forall j | 0 <= j < 11
      ensures !Holds(ParseRules[j].test, s)
    {
      if j < 9 && Holds(ParseRules[j].test, s) {
        PrefixArmsNeedYolo(s, j);
      }
    }
    FirstMatchPicks(ParseRules, s, 11);
  }

  /** A description starting "ultralytics yolo26" starts with none of the eight earlier version prefixes. */
  lemma Yolo26NoEarlierPrefix(s: string)
    requires StartsWith(s, "ultralytics yolo26")
    ensures forall k :: 0 <= k < 8 ==> !Holds(ParseRules[k].test, s)
  {
    forall k | 0 <= k < 8
      ensures !Holds(ParseRules[k].test, s)
    {
      ParsePrefixesExclusive(s, k, 8);
    }
  }

  /** A YOLO26 description reads as V26, whatever follows the prefix. */
  lemma Yolo26Version(description: string)
    requires StartsWith(Lower(description), "ultralytics yolo26")
    ensures GetModelVersion(description) == Ok(V26)
  {
    Yolo26NoEarlierPrefix(Lower(description));
    FirstMatchPicks(ParseRules, Lower(description), 8);
  }

  /**
   * A description naming "worldv2" that starts with none of the version
   * prefixes is taken for a YOLOv11.
   */
  lemma WorldV2ReadsAsV11(description: string)
    requires Contains(Lower(description), "worldv2")
    requires forall k :: 0 <= k < 9 ==> !StartsWith(Lower(description), ParseRules[k].test.p)
    ensures GetModelVersion(description) == Ok(V11)
  {
    FirstMatchPicks(ParseRules, Lower(description), 9);
  }

  /** A version no arm names is never the switch's answer. */
  lemma FirstMatchNever(rules: seq<Rule>, s: string, v: ModelVersion)
    requires forall k :: 0 <= k < |rules| ==> rules[k].version != v
    ensures FirstMatch(rules, s) != Ok(v)
  {
    if FirstMatch(rules, s).Ok? {
      var k :| 0 <= k < |rules| && rules[k].version == FirstMatch(rules, s).value;
    }
  }

  /** No arm yields ModelVersion.WORLDV2, so the module table's WORLDV2 entry is never selected through this parser. */
  lemma VersionNeverWorldV2(description: string)
    ensures GetModelVersion(description) != Ok(WORLDV2)
  {
    forall k | 0 <= k < |ParseRules|
      ensures ParseRules[k].version != WORLDV2
    {
      assert k < 12;
    }
    FirstMatchNever(ParseRules, Lower(description), WORLDV2);
  }

  // ---- Task ----

  /** The task string ultralytics writes for each of the five model types. */
  function TaskName(t: ModelType): string
  {
    match t
    case Classification => "classify"
    case ObjectDetection => "detect"
    case ObbDetection => "obb"
    case PoseEstimation => "pose"
    case Segmentation => "segment"
    case UndefinedType(_) => ""
  }

  /** ParseOnnxData.GetModelType: one of the five task names, otherwise YoloDotNetModelException. */
  function GetModelType(task: string): (r: Result<ModelType>)
    ensures r.Ok? ==> !r.value.UndefinedType? && TaskName(r.value) == task
    ensures r.Err? ==> r.error == ModelError
  {
    match task
    case "classify" => Ok(Classification)
    case "detect" => Ok(ObjectDetection)
    case "obb" => Ok(ObbDetection)
    case "pose" => Ok(PoseEstimation)
    case "segment" => Ok(Segmentation)
    case _ => Err(ModelError)
  }

  /** Every model type is read back from its task name. */
  lemma TaskRoundTrip(t: ModelType)
    requires !t.UndefinedType?
    ensures GetModelType(TaskName(t)) == Ok(t)
  {
  }

  // ---- Labels ----

  /** The text between the separators: braces trimmed, quotes removed, split on ", ". */
  function LabelPieces(onnxLabelData: string): (r: seq<string>)
    ensures |r| >= 1 && forall k :: 0 <= k < |r| ==> '\'' !in r[k]
  {
    var cleaned := Remove(Trim(onnxLabelData, c => c == '{' || c == '}'), '\'');
    var pieces := Split(cleaned, ", ");
    SplitJoin(cleaned, ", ");
    SplitKeepsOut(cleaned, ", ", '\'');
    pieces
  }

  /** Pieces of a split hold no character the whole string lacks. */
  lemma SplitKeepsOut(s: string, sep: string, c: char)
    requires |sep| > 0 && c !in s
    ensures forall k :: 0 <= k < |Split(s, sep)| ==> c !in Split(s, sep)[k]
    decreases |s|
  {
    var i := IndexOfFrom(s, sep, 0);
    if i != -1 {
      SplitKeepsOut(s[i + |sep|..], sep, c);
      assert forall k :: 0 <= k < i ==> s[..i][k] == s[k];
    }
  }

  /** One piece through `x.Split(": ")`, `int.Parse(x[0])` and `x[1]`: its key and its name. */
  function Entry(piece: string): (r: Result<(int, string)>)
    ensures r.Ok? ==> ParseInt(Split(piece, ": ")[0]) == Ok(r.value.0) && |Split(piece, ": ")| >= 2 &&
                      r.value.1 == Split(piece, ": ")[1]
    ensures r.Err? <==> ParseInt(Split(piece, ": ")[0]).Err? || |Split(piece, ": ")| < 2
  {
    var parts := Split(piece, ": ");
    var key := ParseInt(parts[0]);
    if key.Err? then Err(key.error)
    else if |parts| < 2 then Err(IndexOutOfRange)
    else Ok((key.value, parts[1]))
  }

  /** Two entries, the earlier first, that both parsed and share a key. */
  predicate RepeatedKey(es: seq<Result<(int, string)>>)
  {
    exists j, k :: 0 <= j < k < |es| && es[j].Ok? && es[k].Ok? && es[j].value.0 == es[k].value.0
  }

  /** Every piece through Entry, in order. */
  function Entries(pieces: seq<string>): (r: seq<Result<(int, string)>>)
    ensures |r| == |pieces| && forall k :: 0 <= k < |pieces| ==> r[k] == Entry(pieces[k])
  {
    seq(|pieces|, k requires 0 <= k < |pieces| => Entry(pieces[k]))
  }

  /**
   * `.ToDictionary(x => int.Parse(x[0]), x => x[1])`: the entries in
   * insertion order; the first piece that fails, or the first repeated key,
   * raises.
   */
  function Dictionary(pieces: seq<string>): (r: Result<seq<(int, string)>>)
    ensures r.Err? <==> (exists k :: 0 <= k < |pieces| && Entry(pieces[k]).Err?) || RepeatedKey(Entries(pieces))
    ensures r.Ok? ==> |r.value| == |pieces| && forall k :: 0 <= k < |pieces| ==> Entry(pieces[k]) == Ok(r.value[k])
  {
    var es := Entries(pieces);
    assert forall k :: 0 <= k < |pieces| ==> es[k] == Entry(pieces[k]);
    Collect(es)
  }

  /** The dictionary built from already evaluated entries, failing on the first error or repeated key. */
  function Collect(es: seq<Result<(int, string)>>): (r: Result<seq<(int, string)>>)
    ensures r.Err? <==> (exists k :: 0 <= k < |es| && es[k].Err?) || RepeatedKey(es)
    ensures r.Ok? ==> |r.value| == |es| && forall k :: 0 <= k < |es| ==> es[k] == Ok(r.value[k])
  {
    if |es| == 0 then Ok([])
    else
      var n := |es| - 1;
      var before := Collect(es[..n]);
      CollectPrefix(es);
      if before.Err? then before
      else if es[n].Err? then Err(es[n].error)
      else
        var duplicate := exists k :: 0 <= k < n && before.value[k].0 == es[n].value.0;
        CollectLast(es, before.value);
        if duplicate then Err(DuplicateKey) else Ok(before.value + [es[n].value])
  }

  /** A repeated key among the first entries is one among all of them. */
  lemma CollectPrefix(es: seq<Result<(int, string)>>)
    requires |es| > 0
    ensures forall k :: 0 <= k < |es| - 1 ==> es[..|es| - 1][k] == es[k]
    ensures RepeatedKey(es[..|es| - 1]) ==> RepeatedKey(es)
  {
    var n := |es| - 1;
    if RepeatedKey(es[..n]) {
      var j, k :| 0 <= j < k < n && es[..n][j].Ok? && es[..n][k].Ok? && es[..n][j].value.0 == es[..n][k].value.0;
      assert es[j].value.0 == es[k].value.0;
    }
  }

  /** When the earlier entries all parsed with distinct keys, the last one repeats a key exactly when its key is among theirs. */
  lemma CollectLast(es: seq<Result<(int, string)>>, entries: seq<(int, string)>)
    requires |es| > 0 && |entries| == |es| - 1 && !RepeatedKey(es[..|es| - 1]) && es[|es| - 1].Ok?
    requires forall k :: 0 <= k < |entries| ==> es[k] == Ok(entries[k])
    ensures RepeatedKey(es) <==> exists k :: 0 <= k < |entries| && entries[k].0 == es[|es| - 1].value.0
  {
    var n := |es| - 1;
    if RepeatedKey(es) {
      var j, k :| 0 <= j < k < |es| && es[j].Ok? && es[k].Ok? && es[j].value.0 == es[k].value.0;
      if k == n {
        assert entries[j].0 == es[n].value.0;
      }
    }
    if exists k :: 0 <= k < n && entries[k].0 == es[n].value.0 {
      var j :| 0 <= j < n && entries[j].0 == es[n].value.0;
      assert es[j].Ok? && es[j].value.0 == es[n].value.0;
    }
  }

  /**
   * MapLabelsAndColors: one label per entry of the dictionary, its Index the
   * entry's position (not its parsed key) and its Name the text after ": ".
   */
  function MapLabelsAndColors(onnxLabelData: string): (r: Result<seq<LabelModel>>)
    ensures r.Ok? <==> Dictionary(LabelPieces(onnxLabelData)).Ok?
    ensures var pieces := LabelPieces(onnxLabelData);
            r.Ok? ==> |r.value| == |pieces| &&
                      forall k :: 0 <= k < |r.value| ==>
                        r.value[k].index == k && Entry(pieces[k]).Ok? && Entry(pieces[k]).value.1 == r.value[k].name
  {
    var d := Dictionary(LabelPieces(onnxLabelData));
    if d.Err? then Err(d.error) else Ok(Labels(d.value))
  }

  /** One label per dictionary entry: its position becomes the Index and its value the Name. */
  function Labels(entries: seq<(int, string)>): (r: seq<LabelModel>)
    ensures |r| == |entries| && forall k :: 0 <= k < |r| ==> r[k] == LabelModel(k, entries[k].1)
  {
    seq(|entries|, k requires 0 <= k < |entries| => LabelModel(k, entries[k].1))
  }

  /** No label name keeps a quote: the Replace ran before the split. */
  lemma LabelNamesUnquoted(onnxLabelData: string)
    requires MapLabelsAndColors(onnxLabelData).Ok?
    ensures forall k :: 0 <= k < |MapLabelsAndColors(onnxLabelData).value| ==>
              '\'' !in MapLabelsAndColors(onnxLabelData).value[k].name
  {
    var pieces := LabelPieces(onnxLabelData);
    var labels := MapLabelsAndColors(onnxLabelData).value;
    forall k | 0 <= k < |labels|
      ensures '\'' !in labels[k].name
    {
      SplitKeepsOut(pieces[k], ": ", '\'');
    }
  }

  // ---- Input size ----

  const TwoTo32 := 0x1_0000_0000

  /** An integer reduced to the Int32 range the way an unchecked C# cast or product wraps it. */
  function Wrap32(x: int): (r: int)
    ensures Int32Min <= r <= Int32Max
    ensures Int32Min <= x <= Int32Max ==> r == x
  {
    (x - Int32Min) % TwoTo32 + Int32Min
  }

  /** Adding a multiple of 2^32 does not change the wrapped value. */
  lemma {:induction false} WrapShift(x: int, k: int)
    ensures Wrap32(x + TwoTo32 * k) == Wrap32(x)
    decreases if k < 0 then -k else k
  {
    if k > 0 {
      WrapShift(x, k - 1);
      assert x + TwoTo32 * k == (x + TwoTo32 * (k - 1)) + TwoTo32;
    } else if k < 0 {
      WrapShift(x, k + 1);
      assert x + TwoTo32 * k == (x + TwoTo32 * (k + 1)) - TwoTo32;
    }
  }

  /** Wrapping the factors first gives the wrapped product: unchecked multiplication is multiplication mod 2^32. */
  lemma WrapMul(a: int, b: int)
    ensures Wrap32(Wrap32(a) * Wrap32(b)) == Wrap32(a * b)
  {
    var qa, qb := (a - Int32Min) / TwoTo32, (b - Int32Min) / TwoTo32;
    assert Wrap32(a) == a - TwoTo32 * qa;
    assert Wrap32(b) == b - TwoTo32 * qb;
    var k := TwoTo32 * qa * qb - qa * b - qb * a;
    assert Wrap32(a) * Wrap32(b) == a * b + TwoTo32 * k;
    WrapShift(a * b, k);
  }

  /** The product of a shape's dimensions, as an unbounded integer. */
  function Product(shape: seq<int>): int
  {
    if |shape| == 0 then 1 else Product(shape[..|shape| - 1]) * shape[|shape| - 1]
  }

  /**
   * CalculateTotalInputShapeSize: 0 for an empty shape; YoloDotNetException
   * at the first dimension that is not positive; otherwise the Int32 product
   * `shapeSize *= (int)dimension` accumulates, which wraps modulo 2^32.
   */
  method CalculateTotalInputShapeSize(shape: seq<int>) returns (r: Result<int>)
    ensures |shape| == 0 ==> r == Ok(0)
    ensures |shape| > 0 ==> (r.Err? <==> exists k :: 0 <= k < |shape| && shape[k] <= 0)
    ensures r.Err? ==> r.error == YoloDotNetError
    ensures r.Ok? && |shape| > 0 ==> r.value == Wrap32(Product(shape))
  {
    if |shape| == 0 {
      return Ok(0);
    }
    var shapeSize := 1;
    for i := 0 to |shape|
      invariant forall k :: 0 <= k < i ==> shape[k] > 0
      invariant shapeSize == Wrap32(Product(shape[..i]))
    {
      var dimension := shape[i];
      if dimension <= 0 {
        return Err(YoloDotNetError);
      }
      assert shape[..i + 1][..i] == shape[..i];
      WrapMul(Product(shape[..i]), dimension);
      shapeSize := Wrap32(shapeSize * Wrap32(dimension));
    }
    assert shape[..|shape|] == shape;
    r := Ok(shapeSize);
  }

  /** With positive dimensions whose product fits in an Int32, the size is that product. */
  lemma ShapeSizeExact(shape: seq<int>)
    requires |shape| > 0 && Product(shape) <= Int32Max
    requires forall k :: 0 <= k < |shape| ==> shape[k] > 0
    ensures Wrap32(Product(shape)) == Product(shape) > 0
  {
    ProductPositive(shape);
  }

  lemma {:induction false} ProductPositive(shape: seq<int>)
    requires forall k :: 0 <= k < |shape| ==> shape[k] > 0
    ensures Product(shape) > 0
  {
    if |shape| > 0 {
      ProductPositive(shape[..|shape| - 1]);
    }
  }

  /** A 1x3x65536x65536 input has 3 * 2^32 elements, which the Int32 product wraps to 0. */
  lemma ShapeSizeWraps()
    ensures Product([1, 3, 65536, 65536]) == 3 * TwoTo32
    ensures Wrap32(Product([1, 3, 65536, 65536])) == 0
  {
    assert [1, 3, 65536, 65536][..3] == [1, 3, 65536];
    assert [1, 3, 65536][..2] == [1, 3];
    assert [1, 3][..1] == [1];
    assert [1][..0] == [];
  }

  // ---- Metadata ----

  /**
   * GetMetadata: the CustomMetadataMap copied entry by entry. A reflection
   * failure (`None`) or a repeated key (Dictionary.Add throws) is caught and
   * gives an empty dictionary.
   */
  method GetMetadata(entries: Option<seq<(string, string)>>) returns (r: map<string, string>)
    ensures r == MetadataOf(entries)
    ensures entries.None? ==> r == map[]
    ensures entries.Some? && !DistinctNames(entries.value) ==> r == map[]
    ensures entries.Some? && DistinctNames(entries.value) ==>
              r.Keys == (set k | 0 <= k < |entries.value| :: entries.value[k].0) &&
              forall k :: 0 <= k < |entries.value| ==> r[entries.value[k].0] == entries.value[k].1
  {
    if entries.None? {
      return map[];
    }
    var items := entries.value;
    var collection: map<string, string> := map[];
    for i := 0 to |items|
      invariant DistinctNames(items[..i])
      invariant collection.Keys == (set k | 0 <= k < i :: items[k].0)
      invariant forall k :: 0 <= k < i ==> collection[items[k].0] == items[k].1
    {
      if items[i].0 in collection {
        var k :| 0 <= k < i && items[k].0 == items[i].0;
        assert !DistinctNames(items) by { assert items[k].0 == items[i].0; }
        return map[];
      }
      collection := collection[items[i].0 := items[i].1];
    }
    assert items[..|items|] == items;
    MapOfPairs(items, collection);
    r := collection;
  }

  /** A dictionary holding exactly the distinct-keyed pairs is the one adding them yields. */
  lemma MapOfPairs(items: seq<(string, string)>, m: map<string, string>)
    requires DistinctNames(items)
    requires m.Keys == (set k | 0 <= k < |items| :: items[k].0)
    requires forall k :: 0 <= k < |items| ==> m[items[k].0] == items[k].1
    ensures m == MapOf(items)
  {
    var built := MapOf(items);
    assert built.Keys == m.Keys;
    forall name | name in m
      ensures built[name] == m[name]
    {
      var k :| 0 <= k < |items| && items[k].0 == name;
    }
  }

  /** The dictionary GetMetadata builds: empty on a reflection failure or a repeated key, else every pair. */
  function MetadataOf(entries: Option<seq<(string, string)>>): (r: map<string, string>)
    ensures entries.Some? && DistinctNames(entries.value) ==>
              forall k :: 0 <= k < |entries.value| ==> entries.value[k].0 in r && r[entries.value[k].0] == entries.value[k].1
    ensures forall name :: name in r ==> entries.Some? && exists k :: 0 <= k < |entries.value| && entries.value[k].0 == name
  {
    if entries.None? || !DistinctNames(entries.value) then map[] else MapOf(entries.value)
  }

  /** The dictionary that adding the pairs one after another yields; a later pair overrides an earlier one. */
  function MapOf(items: seq<(string, string)>): (r: map<string, string>)
    ensures r.Keys == (set k | 0 <= k < |items| :: items[k].0)
    ensures DistinctNames(items) ==> forall k :: 0 <= k < |items| ==> r[items[k].0] == items[k].1
  {
    if |items| == 0 then map[]
    else
      var last := |items| - 1;
      assert forall k :: 0 <= k < last ==> items[..last][k] == items[k];
      MapOf(items[..last])[items[last].0 := items[last].1]
  }

  /** No key appears twice. */
  predicate DistinctNames(items: seq<(string, string)>)
  {
    forall j, k :: 0 <= j < k < |items| ==> items[j].0 != items[k].0
  }

  /** ModelDataType: the input tensor's element type. */
  datatype ModelDataType = Float | Float16

  /** OnnxModel, with the fields ParseOnnx fills from the metadata. */
  datatype OnnxModel = OnnxModel(
    modelType: ModelType,
    modelVersion: ModelVersion,
    modelDataType: ModelDataType,
    labels: seq<LabelModel>,
    inputShapeSize: int,
    customMetaData: map<string, string>)

  /** `metadata["task"]` read by GetModelType: KeyNotFoundException when the key is missing. */
  function ReadTask(metadata: map<string, string>): Result<ModelType>
  {
    if "task" in metadata then GetModelType(metadata["task"]) else Err(KeyNotFound)
  }

  /** `metadata["description"]` read by GetModelVersion. */
  function ReadVersion(metadata: map<string, string>): Result<ModelVersion>
  {
    if "description" in metadata then GetModelVersion(metadata["description"]) else Err(KeyNotFound)
  }

  /** `metadata["names"]` read by MapLabelsAndColors. */
  function ReadLabels(metadata: map<string, string>): Result<seq<LabelModel>>
  {
    if "names" in metadata then MapLabelsAndColors(metadata["names"]) else Err(KeyNotFound)
  }

  /**
   * ParseOnnx. The input shapes (an ordered dictionary), the metadata map
   * and the data type come from reflection, which is not part of this model.
   * The object initializer runs in order: task, version, labels, size; a
   * missing metadata key raises KeyNotFoundException, and an empty input
   * dictionary makes `First()` raise InvalidOperationException.
   */
  method ParseOnnx(inputs: seq<(string, seq<int>)>, customMetadata: Option<seq<(string, string)>>, dataType: ModelDataType)
    returns (r: Result<OnnxModel>)
    ensures customMetadata.None? ==> r == Err(KeyNotFound)
    ensures r.Ok? <==>
              var metadata := MetadataOf(customMetadata);
              ReadTask(metadata).Ok? && ReadVersion(metadata).Ok? && ReadLabels(metadata).Ok? &&
              |inputs| > 0 && forall k :: 0 <= k < |inputs[0].1| ==> inputs[0].1[k] > 0
    ensures var metadata := MetadataOf(customMetadata);
            ReadTask(metadata).Err? ==> r == Err(ReadTask(metadata).error)
    ensures var metadata := MetadataOf(customMetadata);
            ReadTask(metadata).Ok? && ReadVersion(metadata).Err? ==> r == Err(ReadVersion(metadata).error)
    ensures var metadata := MetadataOf(customMetadata);
            ReadTask(metadata).Ok? && ReadVersion(metadata).Ok? && ReadLabels(metadata).Err? ==>
              r == Err(ReadLabels(metadata).error)
    ensures var metadata := MetadataOf(customMetadata);
            ReadTask(metadata).Ok? && ReadVersion(metadata).Ok? && ReadLabels(metadata).Ok? && |inputs| == 0 ==>
              r == Err(InvalidOperation)
    ensures var metadata := MetadataOf(customMetadata);
            ReadTask(metadata).Ok? && ReadVersion(metadata).Ok? && ReadLabels(metadata).Ok? && |inputs| > 0 &&
            (exists k :: 0 <= k < |inputs[0].1| && inputs[0].1[k] <= 0) ==>
              r == Err(YoloDotNetError)
    ensures r.Ok? ==> r.value.customMetaData == MetadataOf(customMetadata)
    ensures r.Ok? ==> "task" in r.value.customMetaData && "description" in r.value.customMetaData &&
                      "names" in r.value.customMetaData
    ensures r.Ok? ==> GetModelType(r.value.customMetaData["task"]) == Ok(r.value.modelType) &&
                      GetModelVersion(r.value.customMetaData["description"]) == Ok(r.value.modelVersion) &&
                      MapLabelsAndColors(r.value.customMetaData["names"]) == Ok(r.value.labels) &&
                      r.value.modelDataType == dataType
    ensures r.Ok? ==> r.value.inputShapeSize == if |inputs[0].1| == 0 then 0 else Wrap32(Product(inputs[0].1))
  {
    var metadata := GetMetadata(customMetadata);
    var modelType := ReadTask(metadata);
    if modelType.Err? {
      return Err(modelType.error);
    }
    var modelVersion := ReadVersion(metadata);
    if modelVersion.Err? {
      return Err(modelVersion.error);
    }
    var labels := ReadLabels(metadata);
    if labels.Err? {
      return Err(labels.error);
    }
    if |inputs| == 0 {
      return Err(InvalidOperation);
    }
    var size := CalculateTotalInputShapeSize(inputs[0].1);
    if size.Err? {
      return Err(size.error);
    }
    r := Ok(OnnxModel(modelType.value, modelVersion.value, dataType, labels.value, size.value, metadata));
  }
}
