// Extensions/ResultExtensions: the YOLO annotation text written for each
// kind of result, and the JSON converters for SKRectI and Segmentation.
//
// Numbers are written as tokens. An integer is written by IntToString; a
// float written with "F6" is kept as the quotient it formats (numerator and
// denominator, the float image size), and `f6` stands for the formatting,
// which belongs to .NET. A line is its list of fields: the source separates
// them with single spaces and ends each with a line break.

module ResultExtensions {
  import opened Common
  import opened Geometry
  import opened Models
  import Text

  /** A float field `{k:F6}` showing num / den. */
  datatype Fraction = Fraction(num: real, den: real)

  /** A point of SkiaSharp with float coordinates (SKPoint). */
  datatype PointF = PointF(x: real, y: real)

  /**
   * The text of a line: its fields separated by spaces, then a line break.
   * StringBuilder.AppendLine writes Environment.NewLine, which is "\n" on
   * Linux and macOS and "\r\n" on Windows; the model writes "\n".
   */
  function LineText(fields: seq<string>): (line: string)
    ensures |line| >= 1 && line[|line| - 1] == '\n'
    ensures line[..|line| - 1] == Text.Join(fields, " ")
  {
    Text.Join(fields, " ") + "\n"
  }

  // ---------------------------------------------------------------------------
  // Classification

  /** ToYoloFormat and SaveYoloFormat on classifications always throw NotSupportedException. */
  function ClassificationToYoloFormat(results: seq<ClassificationResult>, width: int, height: int): (r: Result<string>)
    ensures r == Err(NotSupported)
  {
    Err(NotSupported)
  }

  // ---------------------------------------------------------------------------
  // BuildYoloFormat

  /** The text of every item in input order, one formatter call per item. */
  function Concat<T>(items: seq<T>, line: T -> string): string
  {
    if |items| == 0 then "" else Concat(items[..|items| - 1], line) + line(items[|items| - 1])
  }

  /** Items added one after another add their texts one after another. */
  lemma {:induction false} ConcatAppend<T>(a: seq<T>, b: seq<T>, line: T -> string)
    ensures Concat(a + b, line) == Concat(a, line) + Concat(b, line)
    decreases |b|
  {
    if |b| == 0 {
      assert a + b == a;
    } else {
      assert (a + b)[..|a + b| - 1] == a + b[..|b| - 1];
      ConcatAppend(a, b[..|b| - 1], line);
    }
  }

  /**
   * BuildYoloFormat: the StringBuilder receives each item's text in input
   * order, and the result is that text with trailing white space removed.
   */
  method BuildYoloFormat<T>(results: seq<T>, line: T -> string) returns (r: string)
    ensures r == Text.TrimEnd(Concat(results, line), Text.IsWhite)
  {
    var sb := "";
    for i := 0 to |results|
      invariant sb == Concat(results[..i], line)
    {
      assert results[..i + 1][..i] == results[..i];
      sb := sb + line(results[i]);
    }
    assert results[..|results|] == results;
    r := Text.TrimEnd(sb, Text.IsWhite);
  }

  /**
   * What the trimming removes is only trailing white space: the result is a
   * prefix of the full text and every dropped character is white space.
   */
  lemma TrimEndDropsWhite(s: string)
    ensures var t := Text.TrimEnd(s, Text.IsWhite);
      s[..|t|] == t && forall k :: |t| <= k < |s| ==> Text.IsWhite(s[k])
    decreases |s|
  {
    if |s| > 0 && Text.IsWhite(s[|s| - 1]) {
      TrimEndDropsWhite(s[..|s| - 1]);
    }
  }

  /** When the last line has visible text, only its line break is trimmed. */
  lemma {:induction false} TrimEndLastLine<T>(results: seq<T>, line: T -> string, body: string)
    requires |results| > 0 && line(results[|results| - 1]) == body + "\n"
    requires |body| > 0 && !Text.IsWhite(body[|body| - 1])
    ensures Text.TrimEnd(Concat(results, line), Text.IsWhite)
            == Concat(results[..|results| - 1], line) + body
  {
    var s := Concat(results, line);
    var p := Concat(results[..|results| - 1], line) + body;
    assert s == p + "\n";
    assert s[..|s| - 1] == p;
  }

  // ---------------------------------------------------------------------------
  // Object detection

  /**
   * NormalizeBoundingBox: centre and size of the box, each divided by the
   * image extent, as the four fractions written with F6.
   */
  function NormalizeBoundingBox(box: RectI, w: real, h: real): (r: seq<Fraction>)
    ensures |r| == 4
    ensures r[0].den == w && r[1].den == h && r[2].den == w && r[3].den == h
    ensures r[0].num == box.left as real + box.Width() as real / 2.0
    ensures r[2].num == box.Width() as real && r[3].num == box.Height() as real
  {
    [Fraction(box.left as real + box.Width() as real / 2.0, w),
     Fraction(box.top as real + box.Height() as real / 2.0, h),
     Fraction(box.Width() as real, w),
     Fraction(box.Height() as real, h)]
  }

  /** Map a formatter over fractions. */
  function Formatted(fs: seq<Fraction>, f6: Fraction -> string): (r: seq<string>)
    ensures |r| == |fs| && forall k :: 0 <= k < |fs| ==> r[k] == f6(fs[k])
  {
    if |fs| == 0 then [] else Formatted(fs[..|fs| - 1], f6) + [f6(fs[|fs| - 1])]
  }

  /** The fields of an object-detection line: "class_id xc yc w h". */
  function DetectionFields(d: Detection, w: real, h: real, f6: Fraction -> string): (r: seq<string>)
    ensures |r| == 5 && r[0] == Text.IntToString(d.classLabel.index)
    ensures r[1..] == Formatted(NormalizeBoundingBox(d.box, w, h), f6)
  {
    [Text.IntToString(d.classLabel.index)] + Formatted(NormalizeBoundingBox(d.box, w, h), f6)
  }

  // ---------------------------------------------------------------------------
  // Oriented boxes

  /**
   * GetRotatedCorners: the four corners of the box turned by the angle
   * around its centre (MidX, MidY). `cos` and `sin` are MathF.Cos and
   * MathF.Sin of the angle.
   */
  function RotatedCorners(box: RectI, cos: real, sin: real): (r: seq<PointF>)
    ensures |r| == 4
  {
    var cx := box.MidX() as real;
    var cy := box.MidY() as real;
    var hw := box.Width() as real / 2.0;
    var hh := box.Height() as real / 2.0;
    [PointF(cx - hw * cos + hh * sin, cy - hw * sin - hh * cos),
     PointF(cx + hw * cos + hh * sin, cy + hw * sin - hh * cos),
     PointF(cx + hw * cos - hh * sin, cy + hw * sin + hh * cos),
     PointF(cx - hw * cos - hh * sin, cy - hw * sin + hh * cos)]
  }

  /** Opposite corners are mirror images through the centre, whatever the angle. */
  lemma CornersAroundCentre(box: RectI, cos: real, sin: real)
    ensures var c := RotatedCorners(box, cos, sin);
      c[0].x + c[2].x == 2.0 * box.MidX() as real && c[0].y + c[2].y == 2.0 * box.MidY() as real &&
      c[1].x + c[3].x == 2.0 * box.MidX() as real && c[1].y + c[3].y == 2.0 * box.MidY() as real
  {
  }

  /** Unturned, the corners run top-left, top-right, bottom-right, bottom-left around the centre. */
  lemma UnturnedCorners(box: RectI)
    ensures var c := RotatedCorners(box, 1.0, 0.0);
      var hw := box.Width() as real / 2.0;
      var hh := box.Height() as real / 2.0;
      c[0] == PointF(box.MidX() as real - hw, box.MidY() as real - hh) &&
      c[1] == PointF(box.MidX() as real + hw, box.MidY() as real - hh) &&
      c[2] == PointF(box.MidX() as real + hw, box.MidY() as real + hh) &&
      c[3] == PointF(box.MidX() as real - hw, box.MidY() as real + hh)
  {
  }

  /** Each point as the pair of fields " x/w y/h". */
  function PointFields(points: seq<PointF>, w: real, h: real, f6: Fraction -> string): (r: seq<string>)
    ensures |r| == 2 * |points|
    ensures forall k :: 0 <= k < |points| ==>
      r[2 * k] == f6(Fraction(points[k].x, w)) && r[2 * k + 1] == f6(Fraction(points[k].y, h))
  {
    if |points| == 0 then []
    else
      var p := points[|points| - 1];
      PointFields(points[..|points| - 1], w, h, f6) + [f6(Fraction(p.x, w)), f6(Fraction(p.y, h))]
  }

  /** The fields of an OBB line: "class_id x1 y1 x2 y2 x3 y3 x4 y4". */
  function ObbFields(d: OBBDetection, w: real, h: real, cos: real, sin: real, f6: Fraction -> string): (r: seq<string>)
    ensures |r| == 9 && r[0] == Text.IntToString(d.classLabel.index)
    ensures r[1..] == PointFields(RotatedCorners(d.box, cos, sin), w, h, f6)
  {
    [Text.IntToString(d.classLabel.index)] + PointFields(RotatedCorners(d.box, cos, sin), w, h, f6)
  }

  // ---------------------------------------------------------------------------
  // Segmentation

  /** The corners of the box in the order top-left, top-right, bottom-right, bottom-left. */
  function BoxCorners(box: RectI): (r: seq<PointF>)
    ensures |r| == 4
  {
    [PointF(box.left as real, box.top as real), PointF(box.right as real, box.top as real),
     PointF(box.right as real, box.bottom as real), PointF(box.left as real, box.bottom as real)]
  }

  /** Contour points are relative to the box; the line gives them in image coordinates. */
  function ToImage(points: seq<PointF>, box: RectI): (r: seq<PointF>)
    ensures |r| == |points|
    ensures forall k :: 0 <= k < |points| ==>
      r[k] == PointF(box.left as real + points[k].x, box.top as real + points[k].y)
  {
    seq(|points|, k requires 0 <= k < |points| => PointF(box.left as real + points[k].x, box.top as real + points[k].y))
  }

  /**
   * The fields of a segmentation line: the class id, then the contour points
   * when there are at least three, or else the four box corners.
   * `contour` is what ExtractOrderedContourPoints returns for the mask.
   */
  function SegmentationFields(d: SegmentationDetection, contour: seq<PointF>, w: real, h: real, f6: Fraction -> string)
    : (r: seq<string>)
    ensures |contour| >= 3 ==> |r| == 1 + 2 * |contour|
    ensures |contour| < 3 ==> r == [Text.IntToString(d.classLabel.index)] + PointFields(BoxCorners(d.box), w, h, f6)
    ensures r[0] == Text.IntToString(d.classLabel.index)
  {
    [Text.IntToString(d.classLabel.index)] +
      PointFields(if |contour| >= 3 then ToImage(contour, d.box) else BoxCorners(d.box), w, h, f6)
  }

  /** With fewer than three contour points the line is nine fields: the id and the corners TL, TR, BR, BL. */
  lemma SegmentationFallback(d: SegmentationDetection, contour: seq<PointF>, w: real, h: real, f6: Fraction -> string)
    requires |contour| < 3
    ensures var r := SegmentationFields(d, contour, w, h, f6);
      |r| == 9 &&
      r[1] == f6(Fraction(d.box.left as real, w)) && r[2] == f6(Fraction(d.box.top as real, h)) &&
      r[3] == f6(Fraction(d.box.right as real, w)) && r[4] == f6(Fraction(d.box.top as real, h)) &&
      r[5] == f6(Fraction(d.box.right as real, w)) && r[6] == f6(Fraction(d.box.bottom as real, h)) &&
      r[7] == f6(Fraction(d.box.left as real, w)) && r[8] == f6(Fraction(d.box.bottom as real, h))
  {
    var corners := BoxCorners(d.box);
    var pf := PointFields(corners, w, h, f6);
    assert pf[0] == f6(Fraction(corners[0].x, w)) && pf[1] == f6(Fraction(corners[0].y, h));
    assert pf[2] == f6(Fraction(corners[1].x, w)) && pf[3] == f6(Fraction(corners[1].y, h));
    assert pf[4] == f6(Fraction(corners[2].x, w)) && pf[5] == f6(Fraction(corners[2].y, h));
    assert pf[6] == f6(Fraction(corners[3].x, w)) && pf[7] == f6(Fraction(corners[3].y, h));
  }

  // ---------------------------------------------------------------------------
  // Pose

  /** The visibility flag: 2 when the keypoint is confident enough, otherwise 1; never 0. */
  function Visibility(confidence: real, visibilityThreshold: real): (v: int)
    ensures v == 1 || v == 2
    ensures v == 2 <==> confidence >= visibilityThreshold
  {
    if confidence >= visibilityThreshold then 2 else 1
  }

  /** Each keypoint as " x/w y/h v". */
  function KeyPointFields(kps: seq<KeyPoint>, w: real, h: real, visibilityThreshold: real, f6: Fraction -> string)
    : (r: seq<string>)
    ensures |r| == 3 * |kps|
    ensures forall k :: 0 <= k < |kps| ==>
      r[3 * k] == f6(Fraction(kps[k].x as real, w)) && r[3 * k + 1] == f6(Fraction(kps[k].y as real, h)) &&
      r[3 * k + 2] == Text.IntToString(Visibility(kps[k].confidence, visibilityThreshold))
  {
    if |kps| == 0 then []
    else
      var kp := kps[|kps| - 1];
      KeyPointFields(kps[..|kps| - 1], w, h, visibilityThreshold, f6) +
        [f6(Fraction(kp.x as real, w)), f6(Fraction(kp.y as real, h)),
         Text.IntToString(Visibility(kp.confidence, visibilityThreshold))]
  }

  /** The fields of a pose line: the five box fields, then three fields per keypoint. */
  function PoseFields(d: PoseDetection, w: real, h: real, visibilityThreshold: real, f6: Fraction -> string)
    : (r: seq<string>)
    ensures |r| == 5 + 3 * |d.keyPoints|
    ensures r[0] == Text.IntToString(d.classLabel.index)
    ensures r[1..5] == Formatted(NormalizeBoundingBox(d.box, w, h), f6)
    ensures r[5..] == KeyPointFields(d.keyPoints, w, h, visibilityThreshold, f6)
  {
    [Text.IntToString(d.classLabel.index)] + Formatted(NormalizeBoundingBox(d.box, w, h), f6) +
      KeyPointFields(d.keyPoints, w, h, visibilityThreshold, f6)
  }

  /** The visibility field of a pose line is the text "1" or "2", never "0". */
  lemma VisibilityNeverZero(d: PoseDetection, w: real, h: real, visibilityThreshold: real, f6: Fraction -> string, k: int)
    requires 0 <= k < |d.keyPoints|
    ensures var r := PoseFields(d, w, h, visibilityThreshold, f6);
      r[5 + 3 * k + 2] in {"1", "2"}
  {
    var r := PoseFields(d, w, h, visibilityThreshold, f6);
    var kf := KeyPointFields(d.keyPoints, w, h, visibilityThreshold, f6);
    var v := Visibility(d.keyPoints[k].confidence, visibilityThreshold);
    assert r[5..] == kf;
    assert r[5 + 3 * k + 2] == kf[3 * k + 2] == Text.IntToString(v);
    DigitText(v);
  }

  lemma DigitText(v: int)
    requires v == 1 || v == 2
    ensures Text.IntToString(v) in {"1", "2"}
  {
    assert Text.Decimal(v) == [((v % 10) + '0' as int) as char];
  }

  // ---------------------------------------------------------------------------
  // JSON

  /**
   * The tokens of System.Text.Json that the converters write and read. A
   * number carries its value and whether its text is plain: an optional minus
   * sign followed by digits, with no decimal point and no exponent.
   */
  datatype JsonToken =
    | StartObject
    | EndObject
    | StartArray
    | EndArray
    | PropertyName(name: string)
    | Number(value: real, plain: bool)
    | Str(text: string)

  /**
   * A float field as Utf8JsonWriter.WriteNumber writes it: the shortest text
   * that reads back as the float, which has no decimal point exactly when
   * the value is whole.
   */
  function FloatNumber(v: real): (t: JsonToken)
    ensures t.Number? && t.value == v
    ensures t.plain <==> v == v.Floor as real
  {
    Number(v, v == v.Floor as real)
  }

  /**
   * Utf8JsonReader.GetInt32: a token that is not a number throws
   * InvalidOperationException. A number whose text is not an optional minus
   * sign followed by digits throws FormatException, even when its value is
   * whole ("1.0", "1e2"), and so does one outside the Int32 range.
   */
  function GetInt32(t: JsonToken): (r: Result<int>)
    ensures r.Ok? <==> t.Number? && t.plain && t.value == t.value.Floor as real && InInt32(t.value.Floor)
    ensures r.Ok? ==> t.value == r.value as real && InInt32(r.value)
    ensures r.Err? ==> r.error == (if t.Number? then FormatError else InvalidOperation)
  {
    if !t.Number? then Err(InvalidOperation)
    else if !t.plain || t.value != t.value.Floor as real then Err(FormatError)
    else if t.value.Floor < Text.Int32Min || t.value.Floor > Text.Int32Max then Err(FormatError)
    else Ok(t.value.Floor)
  }

  /** The four fields the SKRectI reader fills, each starting at 0. */
  datatype RectFields = RectFields(x: int, y: int, width: int, height: int)

  /**
   * The property loop of SKRectIJsonConverter.Read over the tokens after the
   * opening StartObject: it stops at EndObject or at the end of input; a
   * property named x, y, width or height (in any letter case) takes the
   * integer after it; any other token is passed over.
   */
  function ReadFields(tokens: seq<JsonToken>, acc: RectFields): (r: Result<RectFields>)
    decreases |tokens|
  {
    if |tokens| == 0 || tokens[0] == EndObject then Ok(acc)
    else if !tokens[0].PropertyName? then ReadFields(tokens[1..], acc)
    else
      var name := Text.Lower(tokens[0].name);
      var rest := tokens[1..];
      if |rest| == 0 then
        // The reader's Read() after the name finds no token; the value read is not there.
        (if name in {"x", "y", "width", "height"} then Err(InvalidOperation) else Ok(acc))
      else if name in {"x", "y", "width", "height"} then
        var v := GetInt32(rest[0]);
        if v.Err? then Err(v.error)
        else
          ReadFields(rest[1..], SetField(acc, name, v.value))
      else ReadFields(rest[1..], acc)
  }

  /** The field a known property name sets; "height" for the last of the four. */
  function SetField(acc: RectFields, name: string, v: int): (r: RectFields)
    ensures name == "x" ==> r == acc.(x := v)
    ensures name == "y" ==> r == acc.(y := v)
    ensures name == "width" ==> r == acc.(width := v)
    ensures name == "height" ==> r == acc.(height := v)
  {
    if name == "x" then acc.(x := v)
    else if name == "y" then acc.(y := v)
    else if name == "width" then acc.(width := v)
    else acc.(height := v)
  }

  /** A known property at the cursor with a token after it: the reader reads that token as the field's value. */
  lemma ReadFieldsAt(tokens: seq<JsonToken>, i: nat, acc: RectFields)
    requires i + 1 < |tokens| && tokens[i].PropertyName?
    requires Text.Lower(tokens[i].name) in {"x", "y", "width", "height"}
    ensures GetInt32(tokens[i + 1]).Err? ==> ReadFields(tokens[i..], acc) == Err(GetInt32(tokens[i + 1]).error)
    ensures GetInt32(tokens[i + 1]).Ok? ==>
              ReadFields(tokens[i..], acc) ==
              ReadFields(tokens[i + 2..], SetField(acc, Text.Lower(tokens[i].name), GetInt32(tokens[i + 1]).value))
  {
    assert tokens[i..][1..][1..] == tokens[i + 2..];
  }

  /** SKRectIJsonConverter.Read as a function of the whole token stream. */
  function ReadRect(tokens: seq<JsonToken>): (r: Result<RectI>)
    ensures |tokens| == 0 || tokens[0] != StartObject ==> r == Err(JsonError)
  {
    if |tokens| == 0 || tokens[0] != StartObject then Err(JsonError)
    else
      var f := ReadFields(tokens[1..], RectFields(0, 0, 0, 0));
      if f.Err? then Err(f.error) else Ok(CreateRectI(f.value.x, f.value.y, f.value.width, f.value.height))
  }

  /** SKRectIJsonConverter.Write: x = Left, y = Top, width, height. */
  function WriteRect(r: RectI): (t: seq<JsonToken>)
    ensures |t| == 10 && t[0] == StartObject && t[9] == EndObject
  {
    [StartObject,
     PropertyName("x"), Number(r.left as real, true),
     PropertyName("y"), Number(r.top as real, true),
     PropertyName("width"), Number(r.Width() as real, true),
     PropertyName("height"), Number(r.Height() as real, true),
     EndObject]
  }

  predicate InInt32(v: int) { Text.Int32Min <= v <= Text.Int32Max }

  lemma GetInt32Whole(v: int)
    requires InInt32(v)
    ensures GetInt32(Number(v as real, true)) == Ok(v)
  {
    assert (v as real).Floor == v;
  }

  /**
   * A rectangle field whose number is written with a decimal point or an
   * exponent, such as {"x": 1.0} or {"x": 1e2}, makes the reader throw
   * FormatException, whatever the value.
   */
  lemma ReadRectRejectsDecimalText(v: real, rest: seq<JsonToken>)
    ensures ReadRect([StartObject, PropertyName("x"), Number(v, false)] + rest) == Err(FormatError)
  {
    var t := [StartObject, PropertyName("x"), Number(v, false)] + rest;
    assert t[1..] == [PropertyName("x"), Number(v, false)] + rest;
    assert t[1..][1..][0] == Number(v, false);
    assert Text.Lower("x") == "x";
  }

  /** One property the reader knows, followed by its integer value. */
  lemma ReadFieldStep(name: string, v: int, rest: seq<JsonToken>, acc: RectFields)
    requires name in {"x", "y", "width", "height"} && InInt32(v)
    ensures ReadFields([PropertyName(name), Number(v as real, true)] + rest, acc)
         == ReadFields(rest,
              if name == "x" then acc.(x := v) else if name == "y" then acc.(y := v)
              else if name == "width" then acc.(width := v) else acc.(height := v))
  {
    GetInt32Whole(v);
    var t := [PropertyName(name), Number(v as real, true)] + rest;
    assert t[1..][1..] == rest;
    assert Text.Lower(name) == name;
  }

  /** The four properties Write emits fill the four fields in turn. */
  lemma FieldsRoundTrip(x: int, y: int, width: int, height: int)
    requires InInt32(x) && InInt32(y) && InInt32(width) && InInt32(height)
    ensures ReadFields([PropertyName("x"), Number(x as real, true), PropertyName("y"), Number(y as real, true),
                        PropertyName("width"), Number(width as real, true), PropertyName("height"), Number(height as real, true),
                        EndObject], RectFields(0, 0, 0, 0))
         == Ok(RectFields(x, y, width, height))
  {
    var t3: seq<JsonToken> := [EndObject];
    var t2 := [PropertyName("height"), Number(height as real, true)] + t3;
    var t1 := [PropertyName("width"), Number(width as real, true)] + t2;
    var t0 := [PropertyName("y"), Number(y as real, true)] + t1;
    var t := [PropertyName("x"), Number(x as real, true)] + t0;
    ReadFieldStep("x", x, t0, RectFields(0, 0, 0, 0));
    ReadFieldStep("y", y, t1, RectFields(x, 0, 0, 0));
    ReadFieldStep("width", width, t2, RectFields(x, y, 0, 0));
    ReadFieldStep("height", height, t3, RectFields(x, y, width, 0));
    assert t == [PropertyName("x"), Number(x as real, true), PropertyName("y"), Number(y as real, true),
                 PropertyName("width"), Number(width as real, true), PropertyName("height"), Number(height as real, true),
                 EndObject];
  }

  /** Reading what Write wrote gives back the same rectangle. */
  lemma RectRoundTrip(r: RectI)
    requires InInt32(r.left) && InInt32(r.top) && InInt32(r.Width()) && InInt32(r.Height())
    ensures ReadRect(WriteRect(r)) == Ok(r)
  {
    FieldsRoundTrip(r.left, r.top, r.Width(), r.Height());
    assert WriteRect(r)[1..] == [PropertyName("x"), Number(r.left as real, true), PropertyName("y"), Number(r.top as real, true),
      PropertyName("width"), Number(r.Width() as real, true), PropertyName("height"), Number(r.Height() as real, true), EndObject];
  }

  /** An object without the expected properties reads as the empty rectangle: missing fields are 0. */
  lemma EmptyObjectReadsZero()
    ensures ReadRect([StartObject, EndObject]) == Ok(RectI(0, 0, 0, 0))
  {
    var t := [StartObject, EndObject];
    assert t[1..] == [EndObject];
    assert ReadFields([EndObject], RectFields(0, 0, 0, 0)) == Ok(RectFields(0, 0, 0, 0));
  }

  /** Property names are matched without regard to letter case. */
  lemma NameCaseIgnored(name: string, rest: seq<JsonToken>, acc: RectFields)
    ensures ReadFields([PropertyName(name)] + rest, acc)
         == ReadFields([PropertyName(Text.Lower(name))] + rest, acc)
  {
    Text.LowerIdempotent(name);
    assert ([PropertyName(name)] + rest)[1..] == rest;
    assert ([PropertyName(Text.Lower(name))] + rest)[1..] == rest;
  }

  /**
   * The reading loop, as the converter runs it: a cursor over the tokens,
   * advancing past each token the reader consumes.
   */
  method ReadRectLoop(tokens: seq<JsonToken>) returns (r: Result<RectI>)
    ensures r == ReadRect(tokens)
  {
    if |tokens| == 0 || tokens[0] != StartObject {
      return Err(JsonError);
    }
    var x, y, width, height := 0, 0, 0, 0;
    var i := 1;
    while i < |tokens| && tokens[i] != EndObject
      invariant 1 <= i <= |tokens|
      invariant ReadFields(tokens[i..], RectFields(x, y, width, height))
             == ReadFields(tokens[1..], RectFields(0, 0, 0, 0))
      decreases |tokens| - i
    {
      if tokens[i].PropertyName? {
        var name := Text.Lower(tokens[i].name);
        if i + 1 == |tokens| {
          if name in {"x", "y", "width", "height"} {
            return Err(InvalidOperation);
          }
          i := i + 1;
        } else if name in {"x", "y", "width", "height"} {
          ReadFieldsAt(tokens, i, RectFields(x, y, width, height));
          var v := GetInt32(tokens[i + 1]);
          if v.Err? {
            return Err(v.error);
          }
          if name == "x" {
            x := v.value;
          } else if name == "y" {
            y := v.value;
          } else if name == "width" {
            width := v.value;
          } else {
            height := v.value;
          }
          i := i + 2;
        } else {
          assert tokens[i..][1..][1..] == tokens[i + 2..];
          i := i + 2;
        }
      } else {
        assert tokens[i..][1..] == tokens[i + 1..];
        i := i + 1;
      }
    }
    return Ok(CreateRectI(x, y, width, height));
  }

  // ---------------------------------------------------------------------------
  // Segmentation JSON

  /** SegmentationJsonConverter.Read always throws NotSupportedException. */
  function ReadSegmentation(tokens: seq<JsonToken>): (r: Result<SegmentationDetection>)
    ensures r == Err(NotSupported)
  {
    Err(NotSupported)
  }

  /** The contour points as {"x": left + x, "y": top + y} objects. */
  function ContourTokens(points: seq<PointF>, box: RectI): (t: seq<JsonToken>)
    ensures |t| == 6 * |points|
  {
    if |points| == 0 then []
    else
      var p := points[|points| - 1];
      ContourTokens(points[..|points| - 1], box) +
        [StartObject, PropertyName("x"), FloatNumber(box.left as real + p.x),
         PropertyName("y"), FloatNumber(box.top as real + p.y), EndObject]
  }

  /** The label, the confidence and the name of the box property, as Write starts the object. */
  function SegmentationHead(d: SegmentationDetection): (t: seq<JsonToken>)
    ensures |t| == 11 && t[0] == StartObject && PropertyName("contourPoints") !in t
  {
    [StartObject,
     PropertyName("label"), StartObject,
     PropertyName("index"), Number(d.classLabel.index as real, true),
     PropertyName("name"), Str(d.classLabel.name), EndObject,
     PropertyName("confidence"), FloatNumber(d.confidence),
     PropertyName("boundingBox")]
  }

  /** The contourPoints property, written only when the mask and the point list are both non-empty. */
  function ContourSection(d: SegmentationDetection, contour: seq<PointF>): (t: seq<JsonToken>)
  {
    if |d.mask| > 0 && |contour| > 0 then
      [PropertyName("contourPoints"), StartArray] + ContourTokens(contour, d.box) + [EndArray]
    else []
  }

  /** SegmentationJsonConverter.Write: label, confidence, bounding box, then the contour points. */
  function WriteSegmentation(d: SegmentationDetection, contour: seq<PointF>): (t: seq<JsonToken>)
    ensures |t| >= 22 && t[0] == StartObject && t[|t| - 1] == EndObject
    ensures t[11..21] == WriteRect(d.box)
  {
    SegmentationHead(d) + WriteRect(d.box) + ContourSection(d, contour) + [EndObject]
  }

  /** The contourPoints property is present exactly when the mask and the point list are non-empty. */
  lemma ContourPointsPresent(d: SegmentationDetection, contour: seq<PointF>)
    ensures PropertyName("contourPoints") in WriteSegmentation(d, contour) <==> |d.mask| > 0 && |contour| > 0
  {
    ContourNamesFree(contour, d.box);
    var t := WriteSegmentation(d, contour);
    var c := ContourSection(d, contour);
    assert t == SegmentationHead(d) + WriteRect(d.box) + c + [EndObject];
    if |d.mask| > 0 && |contour| > 0 {
      assert t[21] == PropertyName("contourPoints");
    }
  }

  /** The contour objects name only x and y. */
  lemma {:induction false} ContourNamesFree(points: seq<PointF>, box: RectI)
    ensures PropertyName("contourPoints") !in ContourTokens(points, box)
  {
    if |points| > 0 {
      ContourNamesFree(points[..|points| - 1], box);
    }
  }

  /** The bounding box written inside a segmentation reads back with the SKRectI reader. */
  lemma SegmentationBoxReadsBack(d: SegmentationDetection, contour: seq<PointF>)
    requires InInt32(d.box.left) && InInt32(d.box.top) && InInt32(d.box.Width()) && InInt32(d.box.Height())
    ensures ReadRect(WriteSegmentation(d, contour)[11..21]) == Ok(d.box)
  {
    RectRoundTrip(d.box);
  }
}
