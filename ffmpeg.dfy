// Video/Services/FFmpegService and the older Services/FFMPEGService: the
// rules that turn the video options and the probed stream into the ffmpeg
// settings. The device string "device=Name:Width:Height:FPS" is parsed, the
// output size is fitted proportionally with even sides, the frame rate,
// encoder and filters are chosen, and the index of the last frame is
// computed. Starting the ffmpeg processes and reading their pipes is not
// part of this model.

module FFmpeg {
  import opened Common
  import Text
  import ImageResize
  import ImageColors

  // ---------------------------------------------------------------------------
  // Device input

  const DevicePrefix: string := "device="

  /** `s.Replace(p, "")`: every occurrence of `p`, found left to right without overlap, is cut out. */
  function RemoveAll(s: string, p: string): string
    requires |p| > 0
  {
    Text.Join(Text.Split(s, p), "")
  }

  /** What GetDeviceInfo returns: the device name, its width and height, and its frame rate. */
  datatype DeviceInfo = DeviceInfo(name: string, width: int, height: int, fps: real)

  /**
   * The fields of a device string once the prefix is gone: split on ':', the
   * name trimmed, width and height read by int.Parse and the frame rate by
   * float.Parse (`parseFloat`, which is .NET's). Fewer than four fields or a
   * field that does not parse throws, and the catch turns every such failure
   * into YoloDotNetVideoException; fields after the fourth are ignored.
   */
  function ParseDeviceSpec(spec: string, parseFloat: string -> Option<real>): (r: Result<DeviceInfo>)
    ensures r.Ok? || r == Err(VideoError)
    ensures |Text.Split(spec, ":")| < 4 ==> r == Err(VideoError)
    ensures r.Ok? ==> Text.Int32Min <= r.value.width <= Text.Int32Max && Text.Int32Min <= r.value.height <= Text.Int32Max
    ensures r.Ok? ==> |r.value.name| == 0 || (!Text.IsWhite(r.value.name[0]) && !Text.IsWhite(r.value.name[|r.value.name| - 1]))
  {
    var parts := Text.Split(spec, ":");
    if |parts| < 4 then Err(VideoError)
    else
      var width := Text.ParseInt(parts[1]);
      var height := Text.ParseInt(parts[2]);
      var fps := parseFloat(parts[3]);
      if width.Err? || height.Err? || fps.None? then Err(VideoError)
      else Ok(DeviceInfo(Text.Trim(parts[0], Text.IsWhite), width.value, height.value, fps.value))
  }

  /** GetDeviceInfo as written: every "device=" of the input, in lower case only, is removed before the split. */
  function GetDeviceInfoAsWritten(videoInput: string, parseFloat: string -> Option<real>): (r: Result<DeviceInfo>)
    ensures r.Ok? || r == Err(VideoError)
    ensures r.Ok? ==> ':' !in r.value.name
  {
    var spec := RemoveAll(videoInput, DevicePrefix);
    NameHasNoColon(spec, parseFloat);
    ParseDeviceSpec(spec, parseFloat)
  }

  /** The test that selects the device branch: "device=" in any letter case at the start of the input. */
  predicate IsDeviceInput(videoInput: string)
    ensures Text.StartsWith(videoInput, DevicePrefix) ==> IsDeviceInput(videoInput)
  {
    |videoInput| >= |DevicePrefix| && Text.Lower(videoInput[..|DevicePrefix|]) == DevicePrefix
  }

  /**
   * GetDeviceInfo as evidently intended: the prefix the case-insensitive test
   * accepted is what is removed, whatever its letter case.
   */
  function GetDeviceInfo(videoInput: string, parseFloat: string -> Option<real>): (r: Result<DeviceInfo>)
    requires IsDeviceInput(videoInput)
    ensures r.Ok? || r == Err(VideoError)
    ensures r.Ok? ==> ':' !in r.value.name
  {
    var spec := videoInput[|DevicePrefix|..];
    NameHasNoColon(spec, parseFloat);
    ParseDeviceSpec(spec, parseFloat)
  }

  /** The text a device is named by: "Name:Width:Height:FPS". */
  function DeviceText(name: string, width: int, height: int, fpsText: string): string
  {
    name + (":" + (Text.IntToString(width) + (":" + (Text.IntToString(height) + (":" + fpsText)))))
  }

  /** A device name never holds the separator: the first field ends at the first ':'. */
  lemma NameHasNoColon(spec: string, parseFloat: string -> Option<real>)
    ensures ParseDeviceSpec(spec, parseFloat).Ok? ==> ':' !in ParseDeviceSpec(spec, parseFloat).value.name
  {
    var parts := Text.Split(spec, ":");
    if |parts| >= 4 {
      Text.SplitPiecesFree(spec, ":");
      assert !Text.Contains(parts[0], ":");
      NoColonFromContains(parts[0]);
      TrimKeepsOut(parts[0], ':');
    }
  }

  lemma NoColonFromContains(s: string)
    requires !Text.Contains(s, ":")
    ensures ':' !in s
  {
    forall k | 0 <= k < |s|
      ensures s[k] != ':'
    {
      assert s[k..k + 1] == [s[k]];
      assert !Text.OccursAt(s, ":", k);
    }
  }

  /** Trimming keeps a slice of the text, so a character absent before is absent after. */
  lemma TrimKeepsOut(s: string, c: char)
    requires c !in s
    ensures c !in Text.Trim(s, Text.IsWhite)
  {
    var t := Text.TrimStart(s, Text.IsWhite);
    assert t == s[|s| - |t|..];
    assert c !in t;
    var r := Text.TrimEnd(t, Text.IsWhite);
    assert r == t[..|r|];
  }

  /** The separator is absent from a field: split finds nothing to cut. */
  lemma SplitNoColon(a: string)
    requires ':' !in a
    ensures Text.Split(a, ":") == [a]
  {
    forall k | 0 <= k
      ensures !Text.OccursAt(a, ":", k)
    {
      if k + 1 <= |a| {
        assert a[k..k + 1] == [a[k]];
      }
    }
    assert Text.IndexOfFrom(a, ":", 0) == -1;
  }

  /** The first ':' ends the first field. */
  lemma SplitAtColon(a: string, rest: string)
    requires ':' !in a
    ensures Text.Split(a + (":" + rest), ":") == [a] + Text.Split(rest, ":")
  {
    var s := a + (":" + rest);
    assert s[|a|..|a| + 1] == ":";
    assert Text.OccursAt(s, ":", |a|);
    forall k | 0 <= k < |a|
      ensures !Text.OccursAt(s, ":", k)
    {
      assert s[k..k + 1] == [a[k]];
    }
    var i := Text.IndexOfFrom(s, ":", 0);
    assert i == |a|;
    assert s[..i] == a;
    assert s[i + 1..] == rest;
  }

  lemma NumberHasNoColon(n: int)
    ensures ':' !in Text.IntToString(n)
  {
    var ds := Text.Decimal(if n < 0 then -n else n);
    assert forall k | 0 <= k < |ds| :: Text.IsDigit(ds[k]);
  }

  /** The four fields of a device text come back from the split. */
  lemma DeviceTextFields(name: string, width: int, height: int, fpsText: string)
    requires ':' !in name && ':' !in fpsText
    ensures Text.Split(DeviceText(name, width, height, fpsText), ":") ==
      [name, Text.IntToString(width), Text.IntToString(height), fpsText]
  {
    var ws, hs := Text.IntToString(width), Text.IntToString(height);
    NumberHasNoColon(width);
    NumberHasNoColon(height);
    SplitNoColon(fpsText);
    SplitAtColon(hs, fpsText);
    SplitAtColon(ws, hs + (":" + fpsText));
    SplitAtColon(name, ws + (":" + (hs + (":" + fpsText))));
  }

  /** A name without surrounding white space and without ':' is read back unchanged. */
  predicate CleanName(name: string)
  {
    ':' !in name && (|name| == 0 || (!Text.IsWhite(name[0]) && !Text.IsWhite(name[|name| - 1])))
  }

  /** The device text of a name, a width, a height and a frame rate parses back to them. */
  lemma DeviceSpecRoundTrip(name: string, width: int, height: int, fpsText: string, parseFloat: string -> Option<real>)
    requires CleanName(name) && ':' !in fpsText
    requires Text.Int32Min <= width <= Text.Int32Max && Text.Int32Min <= height <= Text.Int32Max
    requires parseFloat(fpsText).Some?
    ensures ParseDeviceSpec(DeviceText(name, width, height, fpsText), parseFloat) ==
      Ok(DeviceInfo(name, width, height, parseFloat(fpsText).value))
  {
    DeviceTextFields(name, width, height, fpsText);
    Text.ParseIntToString(width);
    Text.ParseIntToString(height);
    if |name| > 0 {
      Text.TrimKeeps(name, Text.IsWhite);
    }
  }

  /** Any letter case of the prefix is accepted and removed by the intended version. */
  lemma DeviceRoundTrip(prefix: string, name: string, width: int, height: int, fpsText: string,
                        parseFloat: string -> Option<real>)
    requires |prefix| == |DevicePrefix| && Text.Lower(prefix) == DevicePrefix
    requires CleanName(name) && ':' !in fpsText
    requires Text.Int32Min <= width <= Text.Int32Max && Text.Int32Min <= height <= Text.Int32Max
    requires parseFloat(fpsText).Some?
    ensures IsDeviceInput(prefix + DeviceText(name, width, height, fpsText))
    ensures GetDeviceInfo(prefix + DeviceText(name, width, height, fpsText), parseFloat) ==
      Ok(DeviceInfo(name, width, height, parseFloat(fpsText).value))
  {
    var s := prefix + DeviceText(name, width, height, fpsText);
    assert s[..|DevicePrefix|] == prefix;
    assert s[|DevicePrefix|..] == DeviceText(name, width, height, fpsText);
    DeviceSpecRoundTrip(name, width, height, fpsText, parseFloat);
  }

  /** With the lower-case prefix, and no other "device=" in the text, the code as written reads the text back too. */
  lemma AsWrittenRoundTrip(name: string, width: int, height: int, fpsText: string, parseFloat: string -> Option<real>)
    requires CleanName(name) && ':' !in fpsText
    requires Text.Int32Min <= width <= Text.Int32Max && Text.Int32Min <= height <= Text.Int32Max
    requires parseFloat(fpsText).Some?
    requires !Text.Contains(DeviceText(name, width, height, fpsText), DevicePrefix)
    ensures GetDeviceInfoAsWritten(DevicePrefix + DeviceText(name, width, height, fpsText), parseFloat) ==
      Ok(DeviceInfo(name, width, height, parseFloat(fpsText).value))
  {
    var t := DeviceText(name, width, height, fpsText);
    RemovePrefixOnly(DevicePrefix, t);
    DeviceSpecRoundTrip(name, width, height, fpsText, parseFloat);
  }

  /** A text with no occurrence of `p` is left alone by the removal. */
  lemma RemoveNothing(t: string, p: string)
    requires |p| > 0 && !Text.Contains(t, p)
    ensures RemoveAll(t, p) == t
  {
    var i := Text.IndexOfFrom(t, p, 0);
    assert i == -1;
    assert Text.Split(t, p) == [t];
  }

  /** Removing the prefix from prefix + t, when t holds no further occurrence of it, leaves t. */
  lemma RemovePrefixOnly(p: string, t: string)
    requires |p| > 0 && !Text.Contains(t, p)
    ensures RemoveAll(p + t, p) == t
  {
    var s := p + t;
    assert Text.OccursAt(s, p, 0);
    assert Text.IndexOfFrom(s, p, 0) == 0;
    assert s[|p|..] == t;
    RemoveNothing(t, p);
    assert Text.Split(t, p) == [t];
    assert Text.Split(s, p) == [[]] + [t];
  }

  /** "Device=" holds no lower-case 'd', so no "device=" starts inside it. */
  lemma MixedCasePrefixAddsNothing(t: string)
    requires !Text.Contains(t, DevicePrefix)
    ensures !Text.Contains("Device=" + t, DevicePrefix)
  {
    var s := "Device=" + t;
    forall i | 0 <= i <= |s| && Text.OccursAt(s, DevicePrefix, i)
      ensures false
    {
      assert s[i] == 'd';
      assert s[i..i + 7] == t[i - 7..i];
      assert Text.OccursAt(t, DevicePrefix, i - 7);
    }
  }

  lemma LowerDevicePrefix()
    ensures Text.Lower("Device=") == DevicePrefix
  {
    var l := Text.Lower("Device=");
    assert l[0] == 'd' && l[1] == 'e' && l[2] == 'v' && l[3] == 'i' && l[4] == 'c' && l[5] == 'e' && l[6] == '=';
  }

  /**
   * As written, "Device=cam:640:480:30" passes the case-insensitive test but
   * the case-sensitive Replace leaves "Device=" in place, so the device name
   * read is "Device=cam"; the intended version reads "cam".
   */
  lemma AsWrittenKeepsMixedCasePrefix(name: string, width: int, height: int, fpsText: string,
                                      parseFloat: string -> Option<real>)
    requires CleanName(name) && ':' !in fpsText
    requires Text.Int32Min <= width <= Text.Int32Max && Text.Int32Min <= height <= Text.Int32Max
    requires parseFloat(fpsText).Some?
    requires !Text.Contains(DeviceText(name, width, height, fpsText), DevicePrefix)
    ensures IsDeviceInput("Device=" + DeviceText(name, width, height, fpsText))
    ensures GetDeviceInfoAsWritten("Device=" + DeviceText(name, width, height, fpsText), parseFloat) ==
      Ok(DeviceInfo("Device=" + name, width, height, parseFloat(fpsText).value))
    ensures GetDeviceInfo("Device=" + DeviceText(name, width, height, fpsText), parseFloat) ==
      Ok(DeviceInfo(name, width, height, parseFloat(fpsText).value))
  {
    var t := DeviceText(name, width, height, fpsText);
    AsWrittenReadsWholeText(t);
    PrefixJoinsName("Device=", name, width, height, fpsText);
    DevicePrefixClean(name);
    DeviceSpecRoundTrip("Device=" + name, width, height, fpsText, parseFloat);
    LowerDevicePrefix();
    DeviceRoundTrip("Device=", name, width, height, fpsText, parseFloat);
  }

  lemma AsWrittenReadsWholeText(t: string)
    requires !Text.Contains(t, DevicePrefix)
    ensures RemoveAll("Device=" + t, DevicePrefix) == "Device=" + t
  {
    MixedCasePrefixAddsNothing(t);
    RemoveNothing("Device=" + t, DevicePrefix);
  }

  lemma PrefixJoinsName(prefix: string, name: string, width: int, height: int, fpsText: string)
    ensures prefix + DeviceText(name, width, height, fpsText) == DeviceText(prefix + name, width, height, fpsText)
  {
  }

  lemma DevicePrefixClean(name: string)
    requires CleanName(name)
    ensures CleanName("Device=" + name)
  {
    var s := "Device=" + name;
    assert s[0] == 'D';
    assert s[|s| - 1] == if |name| == 0 then '=' else name[|name| - 1];
    assert forall k | 0 <= k < |s| :: s[k] == if k < 7 then "Device="[k] else name[k - 7];
  }

  // ---------------------------------------------------------------------------
  // Output size

  /** `if (n % 2 != 0) n--;`: an odd side is made even by going one down. */
  function EvenDown(n: int): (r: int)
    ensures r % 2 == 0 && n - 1 <= r <= n
    ensures n % 2 == 0 ==> r == n
  {
    if TruncMod(n, 2) != 0 then n - 1 else n
  }

  /** The requested sides: -2 and positive sides are kept, any other side becomes the source side. */
  function Targets(originalWidth: int, originalHeight: int, width: int, height: int): (r: (int, int))
    requires originalWidth > 0 && originalHeight > 0
    ensures r.0 == -2 <==> width == -2
    ensures r.1 == -2 <==> height == -2
    ensures r.0 == -2 || r.0 > 0
    ensures r.1 == -2 || r.1 > 0
  {
    (if width == -2 || width > 0 then width else originalWidth,
     if height == -2 || height > 0 then height else originalHeight)
  }

  /** A source side times a ratio, truncated and made even. */
  function ScaledSide(original: int, scale: real): int
  {
    EvenDown(Trunc(original as real * scale))
  }

  /**
   * CalculateProportionalResize, shared by both services. -2 asks for the
   * side that keeps the aspect ratio; any other non-positive side falls
   * back to the source side. Both sides -2 is refused (None). A computed
   * side is the source side times the ratio, truncated, then made even; with
   * both sides given the image is fitted inside them by the smaller ratio
   * and both sides are made even.
   */
  function ProportionalSize(originalWidth: int, originalHeight: int, width: int, height: int): (r: Option<(int, int)>)
    requires originalWidth > 0 && originalHeight > 0
    ensures r.None? <==> width == -2 && height == -2
  {
    var (targetWidth, targetHeight) := Targets(originalWidth, originalHeight, width, height);
    if targetWidth == -2 && targetHeight == -2 then None
    else if targetWidth == -2 then
      Some((ScaledSide(originalWidth, targetHeight as real / originalHeight as real), targetHeight))
    else if targetHeight == -2 then
      Some((targetWidth, ScaledSide(originalHeight, targetWidth as real / originalWidth as real)))
    else
      var scaleRatio := MinReal(targetWidth as real / originalWidth as real, targetHeight as real / originalHeight as real);
      Some((ScaledSide(originalWidth, scaleRatio), ScaledSide(originalHeight, scaleRatio)))
  }

  /** FFmpegService: both sides -2 throws YoloDotNetVideoException. */
  function VideoResize(originalWidth: int, originalHeight: int, width: int, height: int): (r: Result<(int, int)>)
    requires originalWidth > 0 && originalHeight > 0
    ensures width == -2 && height == -2 <==> r == Err(VideoError)
    ensures r.Ok? ==> Some(r.value) == ProportionalSize(originalWidth, originalHeight, width, height)
  {
    var s := ProportionalSize(originalWidth, originalHeight, width, height);
    if s.None? then Err(VideoError) else Ok(s.value)
  }

  /** FFMPEGService: both sides -2 throws ArgumentException. */
  function LegacyResize(originalWidth: int, originalHeight: int, width: int, height: int): (r: Result<(int, int)>)
    requires originalWidth > 0 && originalHeight > 0
    ensures width == -2 && height == -2 <==> r == Err(ArgumentError)
    ensures r.Ok? ==> Some(r.value) == ProportionalSize(originalWidth, originalHeight, width, height)
  {
    var s := ProportionalSize(originalWidth, originalHeight, width, height);
    if s.None? then Err(ArgumentError) else Ok(s.value)
  }

  /**
   * Width -2 with a given height: the height is kept and the width is the
   * even number at most one below the proportional width (never above it).
   */
  lemma AutoWidthProportional(originalWidth: int, originalHeight: int, height: int)
    requires originalWidth > 0 && originalHeight > 0 && height > 0
    ensures var (w, h) := ProportionalSize(originalWidth, originalHeight, -2, height).value;
      var exact := originalWidth as real * (height as real / originalHeight as real);
      h == height && w % 2 == 0 && 0 <= w && w as real <= exact < w as real + 2.0
  {
    assert Targets(originalWidth, originalHeight, -2, height) == (-2, height);
  }

  /** Height -2 with a given width: the width is kept and the height is the even proportional height. */
  lemma AutoHeightProportional(originalWidth: int, originalHeight: int, width: int)
    requires originalWidth > 0 && originalHeight > 0 && width > 0
    ensures var (w, h) := ProportionalSize(originalWidth, originalHeight, width, -2).value;
      var exact := originalHeight as real * (width as real / originalWidth as real);
      w == width && h % 2 == 0 && 0 <= h && h as real <= exact < h as real + 2.0
  {
    assert Targets(originalWidth, originalHeight, width, -2) == (width, -2);
  }

  /** A non-positive side other than -2 means "as the source". */
  lemma FallbackToSource(originalWidth: int, originalHeight: int, width: int, height: int)
    requires originalWidth > 0 && originalHeight > 0
    requires width <= 0 && width != -2
    ensures ProportionalSize(originalWidth, originalHeight, width, height) ==
      ProportionalSize(originalWidth, originalHeight, originalWidth, height)
  {
    assert Targets(originalWidth, originalHeight, width, height) == Targets(originalWidth, originalHeight, originalWidth, height);
  }

  /** One side scaled by at most its own ratio stays within its bound, and reaches it at that ratio. */
  lemma SideFits(original: int, bound: int, scale: real)
    requires original > 0 && bound > 0
    requires 0.0 <= scale <= bound as real / original as real
    ensures 0 <= ScaledSide(original, scale) <= bound && ScaledSide(original, scale) % 2 == 0
    ensures scale == bound as real / original as real ==> ScaledSide(original, scale) >= bound - 1
  {
    ImageResize.ScaledWithin(original, bound, scale);
    var t := Trunc(original as real * scale);
    assert 0 <= t <= bound;
    if scale == bound as real / original as real {
      ImageResize.TimesRatio(original, bound);
      assert t == bound;
    }
  }

  /**
   * Both sides given: the result fits inside them, both sides are even and
   * non-negative, and one side reaches its bound up to the one pixel the
   * evening may take.
   */
  lemma FitsInBounds(originalWidth: int, originalHeight: int, width: int, height: int)
    requires originalWidth > 0 && originalHeight > 0 && width > 0 && height > 0
    ensures var (w, h) := ProportionalSize(originalWidth, originalHeight, width, height).value;
      0 <= w <= width && 0 <= h <= height && w % 2 == 0 && h % 2 == 0 &&
      (w >= width - 1 || h >= height - 1)
  {
    var rx := width as real / originalWidth as real;
    var ry := height as real / originalHeight as real;
    var scale := MinReal(rx, ry);
    assert Targets(originalWidth, originalHeight, width, height) == (width, height);
    assert ProportionalSize(originalWidth, originalHeight, width, height).value ==
      (ScaledSide(originalWidth, scale), ScaledSide(originalHeight, scale));
    SideFits(originalWidth, width, scale);
    SideFits(originalHeight, height, scale);
  }

  /** With no size asked for, the source size is kept, made even. */
  lemma SourceSizeKept(originalWidth: int, originalHeight: int)
    requires originalWidth > 0 && originalHeight > 0
    ensures ProportionalSize(originalWidth, originalHeight, 0, 0) == Some((EvenDown(originalWidth), EvenDown(originalHeight)))
  {
    ImageResize.TimesRatio(originalWidth, originalWidth);
    ImageResize.TimesRatio(originalHeight, originalHeight);
    assert originalWidth as real / originalWidth as real == 1.0;
    assert originalHeight as real / originalHeight as real == 1.0;
    assert Trunc(originalWidth as real * 1.0) == originalWidth;
    assert Trunc(originalHeight as real * 1.0) == originalHeight;
  }

  // ---------------------------------------------------------------------------
  // Frame rate, encoder and filters

  /**
   * FFmpegService's target frame rate: a device's own rate; otherwise the
   * configured FrameRate unless it is 0 (AUTO), then the source's rate.
   */
  function VideoTargetFps(deviceFps: Option<real>, frameRate: real, sourceFps: real): (r: real)
    ensures deviceFps.Some? ==> r == deviceFps.value
    ensures deviceFps.None? && frameRate != 0.0 ==> r == frameRate
    ensures deviceFps.None? && frameRate == 0.0 ==> r == sourceFps
  {
    if deviceFps.Some? then deviceFps.value
    else if frameRate != 0.0 then frameRate
    else sourceFps
  }

  /** FFMPEGService's target frame rate: the configured FPS when set and positive, else the source's rate. */
  function LegacyTargetFps(fps: Option<real>, sourceFps: real): (r: real)
    ensures fps.Some? && fps.value > 0.0 ==> r == fps.value
    ensures fps.None? || fps.value <= 0.0 ==> r == sourceFps
  {
    if fps.Some? && fps.value > 0.0 then fps.value else sourceFps
  }

  /** The two services agree on a positive or absent rate and differ on a negative one, which only FFmpegService keeps. */
  lemma FpsRulesCompared(rate: real, sourceFps: real)
    ensures rate > 0.0 ==> VideoTargetFps(None, rate, sourceFps) == LegacyTargetFps(Some(rate), sourceFps) == rate
    ensures VideoTargetFps(None, 0.0, sourceFps) == LegacyTargetFps(None, sourceFps) == sourceFps
    ensures rate < 0.0 ==> VideoTargetFps(None, rate, sourceFps) == rate && LegacyTargetFps(Some(rate), sourceFps) == sourceFps
  {
  }

  /** The marker interfaces an execution provider implements. */
  datatype Markers = Markers(cuda: bool, openVino: bool)

  /** The encoder switch: ICuda picks NVENC, IOpenVino picks Quick Sync, anything else the CPU encoder. */
  function VideoCodec(m: Markers): (r: string)
    ensures r == "h264_nvenc" <==> m.cuda
    ensures r == "h264_qsv" <==> !m.cuda && m.openVino
    ensures r == "libx264" <==> !m.cuda && !m.openVino
  {
    if m.cuda then "h264_nvenc" else if m.openVino then "h264_qsv" else "libx264"
  }

  /** The execution providers shipped with the library. */
  datatype Provider = Cpu | Cuda | OpenVino | CoreMl | DirectMl

  /** The marker interfaces each shipped provider class declares: only the CUDA one declares one the switch tests. */
  function ShippedMarkers(p: Provider): Markers
  {
    Markers(p == Cuda, false)
  }

  /** The markers as evidently intended: the OpenVINO provider declares IOpenVino. */
  function IntendedMarkers(p: Provider): Markers
  {
    Markers(p == Cuda, p == OpenVino)
  }

  /** As shipped, the OpenVINO provider never reaches the Quick Sync encoder: no provider does. */
  lemma OpenVinoEncodesOnCpu()
    ensures VideoCodec(ShippedMarkers(OpenVino)) == "libx264"
    ensures forall p :: VideoCodec(ShippedMarkers(p)) != "h264_qsv"
  {
  }

  /** With the intended markers, exactly CUDA and OpenVINO get a hardware encoder, each its own. */
  lemma HardwareEncoders(p: Provider)
    ensures VideoCodec(IntendedMarkers(p)) == "h264_qsv" <==> p == OpenVino
    ensures VideoCodec(IntendedMarkers(p)) == "h264_nvenc" <==> p == Cuda
    ensures VideoCodec(IntendedMarkers(p)) == "libx264" <==> p in {Cpu, CoreMl, DirectMl}
  {
  }

  /** The scale step that ends every decode filter: "scale=W:H". */
  function ScaleFilter(width: int, height: int): string
  {
    "scale=" + (Text.IntToString(width) + (":" + Text.IntToString(height)))
  }

  /**
   * The decode filter: with no frame interval every frame is resampled to
   * the target rate ("fps=R,scale=W:H"); with an interval N only frames
   * whose number is a multiple of N are selected. `fpsText` is the target
   * rate as .NET formats it.
   */
  function DecodeFilter(frameInterval: int, fpsText: string, width: int, height: int): (r: string)
    ensures frameInterval <= 0 <==> Text.StartsWith(r, "fps=")
    ensures |r| >= |ScaleFilter(width, height)| && r[|r| - |ScaleFilter(width, height)|..] == ScaleFilter(width, height)
  {
    var scale := ScaleFilter(width, height);
    var head :=
      if frameInterval <= 0 then "fps=" + fpsText + ","
      else "select='not(mod(n," + Text.IntToString(frameInterval) + "))',setpts=N/FRAME_RATE/TB,";
    assert head[0] == if frameInterval <= 0 then 'f' else 's';
    SuffixOf(head, scale);
    head + scale
  }

  /** The tail of x + y of y's length is y. */
  lemma SuffixOf(x: string, y: string)
    ensures |x + y| >= |y| && (x + y)[|x + y| - |y|..] == y
    ensures |x| > 0 ==> (x + y)[0] == x[0]
  {
  }

  /** The size in the scale step reads back as the width and height it was made from. */
  lemma ScaleFilterReadsBack(width: int, height: int)
    requires Text.Int32Min <= width <= Text.Int32Max && Text.Int32Min <= height <= Text.Int32Max
    ensures var parts := Text.Split(ScaleFilter(width, height)[6..], ":");
      |parts| == 2 && Text.ParseInt(parts[0]) == Ok(width) && Text.ParseInt(parts[1]) == Ok(height)
  {
    var ws, hs := Text.IntToString(width), Text.IntToString(height);
    assert ScaleFilter(width, height)[6..] == ws + (":" + hs);
    NumberHasNoColon(width);
    NumberHasNoColon(height);
    SplitNoColon(hs);
    SplitAtColon(ws, hs);
    Text.ParseIntToString(width);
    Text.ParseIntToString(height);
  }

  /** The encode filter: "setsar=1:1", preceded by "fps=R," when a frame interval is set. */
  function EncodeFilter(frameInterval: int, fpsText: string): (r: string)
    ensures frameInterval > 0 <==> Text.StartsWith(r, "fps=")
    ensures |r| >= 10 && r[|r| - 10..] == "setsar=1:1"
  {
    var head := if frameInterval > 0 then "fps=" + fpsText + "," else "";
    SuffixOf(head, "setsar=1:1");
    assert (head + "setsar=1:1")[0] == if frameInterval > 0 then 'f' else 's';
    head + "setsar=1:1"
  }

  /** The input rate of the encoder: the source rate over the interval when one is set, else the target rate. */
  function EncodeFrameRate(frameInterval: int, sourceFps: real, targetFps: real): (r: real)
    ensures frameInterval <= 0 ==> r == targetFps
  {
    if frameInterval > 0 then sourceFps / frameInterval as real else targetFps
  }

  /** Every N-th source frame played at the source rate over N spans the source's duration. */
  lemma EncodeRateKeepsDuration(frameInterval: int, sourceFps: real, targetFps: real)
    requires frameInterval > 0
    ensures EncodeFrameRate(frameInterval, sourceFps, targetFps) * frameInterval as real == sourceFps
  {
  }

  // ---------------------------------------------------------------------------
  // Frame count

  /** Math.Round(double): to the nearest integer, a tie to the even one. */
  function RoundHalfEven(x: real): (r: int)
    ensures -0.5 <= r as real - x <= 0.5
    ensures (r as real - x == 0.5 || x - r as real == 0.5) ==> r % 2 == 0
  {
    var f := x.Floor;
    var d := x - f as real;
    if d < 0.5 then f
    else if d > 0.5 then f + 1
    else if f % 2 == 0 then f else f + 1
  }

  /** Math.Ceiling. */
  function Ceil(x: real): (r: int)
    ensures x <= r as real < x + 1.0
  {
    -((-x).Floor)
  }

  /** The rate the stream is counted at: rescaled when the rate's denominator is above 1000. */
  function EffectiveFps(targetFps: real, denominator: int): real
  {
    if denominator > 1000 then targetFps * 1000.0 / denominator as real else targetFps
  }

  /**
   * The frames of the whole stream at the target rate. `sameAsSource` is
   * whether the target rate equals the source rate rounded to as many
   * decimals as the target's G17 text shows; then the count is floored,
   * otherwise the rescaled rate times the duration is rounded.
   */
  function FrameTotal(targetFps: real, sameAsSource: bool, duration: real, denominator: int): (total: int)
    ensures sameAsSource ==> total as real <= targetFps * duration < total as real + 1.0
    ensures !sameAsSource ==> -0.5 <= total as real - EffectiveFps(targetFps, denominator) * duration <= 0.5
  {
    if sameAsSource then (targetFps * duration).Floor
    else RoundHalfEven(EffectiveFps(targetFps, denominator) * duration)
  }

  /**
   * FFmpegService.CalculateTargetFramesCount: with a frame interval N the
   * total is divided by N and rounded up; one is taken off to make the
   * count an index.
   */
  function TargetFramesCount(targetFps: real, sameAsSource: bool, duration: real, denominator: int, frameInterval: int): (r: int)
    ensures var total := FrameTotal(targetFps, sameAsSource, duration, denominator);
              frameInterval > 0 ==> r as real < total as real / frameInterval as real <= (r + 1) as real
  {
    var total := FrameTotal(targetFps, sameAsSource, duration, denominator);
    var counted := if frameInterval > 0 then Ceil(total as real / frameInterval as real) else total;
    counted - 1
  }

  /** With no frame interval the result is the index of the last frame: one less than the total. */
  lemma LastFrameIndex(targetFps: real, sameAsSource: bool, duration: real, denominator: int, frameInterval: int)
    requires frameInterval <= 0
    ensures TargetFramesCount(targetFps, sameAsSource, duration, denominator, frameInterval) + 1 ==
      FrameTotal(targetFps, sameAsSource, duration, denominator)
  {
  }

  /** The frames 0 .. n - 1 whose number is a multiple of k: those `select='not(mod(n,k))'` lets through. */
  function SelectedFrames(n: nat, k: nat): nat
    requires k > 0
  {
    if n == 0 then 0 else SelectedFrames(n - 1, k) + (if (n - 1) % k == 0 then 1 else 0)
  }

  /** The selected count c is the least with n <= c * k. */
  lemma {:induction false} SelectedFramesBounds(n: nat, k: nat)
    requires k > 0
    ensures var c := SelectedFrames(n, k); (c - 1) * k < n <= c * k
  {
    if n > 0 {
      SelectedFramesBounds(n - 1, k);
      var c := SelectedFrames(n - 1, k);
      assert (c - 1) * k == c * k - k;
      if n - 1 == c * k {
        ImageColors.ModUnique(n - 1, k, c, 0);
        assert (c + 1) * k == c * k + k;
      } else {
        assert c >= 1;
        ImageColors.ModUnique(n - 1, k, c - 1, n - 1 - (c - 1) * k);
      }
    }
  }

  /** a / k lies in (c - 1, c] exactly when a lies in ((c - 1) * k, c * k]. */
  lemma DivideBounds(a: int, k: int, c: int)
    requires k > 0 && (c - 1) * k < a <= c * k
    ensures (c - 1) as real < a as real / k as real <= c as real
  {
    var x := a as real / k as real;
    assert x * k as real == a as real;
    assert (x - c as real) * k as real == a as real - (c * k) as real;
    assert (x - (c - 1) as real) * k as real == a as real - ((c - 1) * k) as real;
  }

  /** Rounding the total over the interval up counts exactly the selected frames. */
  lemma SelectedFramesCeil(n: nat, k: nat)
    requires k > 0
    ensures Ceil(n as real / k as real) == SelectedFrames(n, k)
  {
    SelectedFramesBounds(n, k);
    DivideBounds(n, k, SelectedFrames(n, k));
  }

  /** With a frame interval N, the result is the index of the last frame the select filter keeps. */
  lemma LastSelectedFrameIndex(targetFps: real, sameAsSource: bool, duration: real, denominator: int, frameInterval: int)
    requires frameInterval > 0 && FrameTotal(targetFps, sameAsSource, duration, denominator) >= 0
    ensures TargetFramesCount(targetFps, sameAsSource, duration, denominator, frameInterval) + 1 ==
      SelectedFrames(FrameTotal(targetFps, sameAsSource, duration, denominator), frameInterval)
  {
    SelectedFramesCeil(FrameTotal(targetFps, sameAsSource, duration, denominator), frameInterval);
  }

  /**
   * FFMPEGService.CalculateTargetFramesCount as written: the floored count
   * has one taken off in each branch and once more on return.
   */
  function LegacyTargetFramesCount(targetFps: real, sameAsSource: bool, duration: real, denominator: int): int
  {
    var totalFrames :=
      if sameAsSource then (targetFps * duration).Floor - 1
      else (EffectiveFps(targetFps, denominator) * duration).Floor - 1;
    totalFrames - 1
  }

  /** The older service's index is one below the last frame's index wherever both floor the count. */
  lemma LegacyOffByOne(targetFps: real, duration: real, denominator: int)
    ensures LegacyTargetFramesCount(targetFps, true, duration, denominator) ==
      TargetFramesCount(targetFps, true, duration, denominator, 0) - 1
    ensures LegacyTargetFramesCount(targetFps, true, duration, denominator) ==
      FrameTotal(targetFps, true, duration, denominator) - 2
  {
  }

  /** One second at 30 fps has frames 0 .. 29: FFmpegService gives 29, FFMPEGService 28. */
  lemma ThirtyFramesExample()
    ensures FrameTotal(30.0, true, 1.0, 1) == 30
    ensures TargetFramesCount(30.0, true, 1.0, 1, 0) == 29
    ensures LegacyTargetFramesCount(30.0, true, 1.0, 1) == 28
  {
  }
}
