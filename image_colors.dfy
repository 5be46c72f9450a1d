// Extensions/ImageExtension, the parts the drawing code computes before it
// draws: the colour parsed from a "#RRGGBB" string, the label caption, the
// palette slot of a class, and the guards at the drawing entry points.

module ImageColors {
  import opened Common
  import Text

  /** SKColor(red, green, blue, alpha), each channel a byte. */
  datatype SkColor = SkColor(red: nat, green: nat, blue: nat, alpha: nat)

  predicate IsHexDigit(c: char)
  {
    '0' <= c <= '9' || 'a' <= c <= 'f' || 'A' <= c <= 'F'
  }

  function HexValue(c: char): (v: nat)
    requires IsHexDigit(c)
    ensures v < 16
  {
    if '0' <= c <= '9' then (c - '0') as nat
    else if 'a' <= c <= 'f' then (c - 'a') as nat + 10
    else (c - 'A') as nat + 10
  }

  /**
   * byte.Parse(s, NumberStyles.HexNumber) on a two-character string. The
   * style allows white space before and after the digits, so one digit with
   * one white-space character also parses; anything else throws FormatException.
   */
  function ParseHexByte(s: string): (r: Result<nat>)
    requires |s| == 2
    ensures r.Ok? || r == Err(FormatError)
    ensures r.Ok? ==> r.value < 256
    ensures IsHexDigit(s[0]) && IsHexDigit(s[1]) ==> r == Ok(16 * HexValue(s[0]) + HexValue(s[1]))
  {
    if IsHexDigit(s[0]) && IsHexDigit(s[1]) then Ok(16 * HexValue(s[0]) + HexValue(s[1]))
    else if Text.IsWhite(s[0]) && IsHexDigit(s[1]) then Ok(HexValue(s[1]))
    else if IsHexDigit(s[0]) && Text.IsWhite(s[1]) then Ok(HexValue(s[0]))
    else Err(FormatError)
  }

  /**
   * HexToRgbaSkia. `skiaParses` is the answer of SKColor.TryParse on the
   * string, which belongs to SkiaSharp. A string that is not 7 characters
   * long or that SkiaSharp rejects throws ArgumentException; an alpha outside
   * 0..255 throws ArgumentOutOfRangeException; then red, green and blue are
   * read from characters 1-2, 3-4 and 5-6, and the alpha is kept.
   */
  function HexToRgbaSkia(hexColor: string, alpha: int, skiaParses: bool): (r: Result<SkColor>)
    ensures |hexColor| != 7 || !skiaParses <==> r == Err(ArgumentError)
    ensures |hexColor| == 7 && skiaParses && (alpha < 0 || alpha > 255) ==> r == Err(ArgumentOutOfRange)
    ensures r.Ok? ==> r.value.alpha == alpha && r.value.red < 256 && r.value.green < 256 && r.value.blue < 256
    ensures r.Ok? || r.error in {ArgumentError, ArgumentOutOfRange, FormatError}
  {
    if |hexColor| != 7 || !skiaParses then Err(ArgumentError)
    else if alpha < 0 || alpha > 255 then Err(ArgumentOutOfRange)
    else
      var red := ParseHexByte(hexColor[1..3]);
      var green := ParseHexByte(hexColor[3..5]);
      var blue := ParseHexByte(hexColor[5..7]);
      if red.Err? || green.Err? || blue.Err? then Err(FormatError)
      else Ok(SkColor(red.value, green.value, blue.value, alpha))
  }

  /** The upper-case hexadecimal digit of a value below 16. */
  function HexDigit(v: nat): (c: char)
    requires v < 16
    ensures IsHexDigit(c) && HexValue(c) == v
  {
    if v < 10 then '0' + v as char else 'A' + (v - 10) as char
  }

  function HexByte(v: nat): (s: string)
    requires v < 256
  {
    [HexDigit(v / 16), HexDigit(v % 16)]
  }

  /** The "#RRGGBB" text of a colour, as the palettes in the drawing options hold it. */
  function HexString(c: SkColor): (s: string)
    requires c.red < 256 && c.green < 256 && c.blue < 256
  {
    "#" + HexByte(c.red) + HexByte(c.green) + HexByte(c.blue)
  }

  lemma HexByteParses(v: nat)
    requires v < 256
    ensures ParseHexByte(HexByte(v)) == Ok(v)
  {
    var s := HexByte(v);
    assert 16 * HexValue(s[0]) + HexValue(s[1]) == 16 * (v / 16) + v % 16;
  }

  /** Parsing the "#RRGGBB" text of a colour gives the colour back with the requested alpha. */
  lemma HexRoundTrip(c: SkColor, alpha: int)
    requires c.red < 256 && c.green < 256 && c.blue < 256
    requires 0 <= alpha <= 255
    ensures HexToRgbaSkia(HexString(c), alpha, true) == Ok(SkColor(c.red, c.green, c.blue, alpha))
  {
    var s := HexString(c);
    assert s[1..3] == HexByte(c.red);
    assert s[3..5] == HexByte(c.green);
    assert s[5..7] == HexByte(c.blue);
    HexByteParses(c.red);
    HexByteParses(c.green);
    HexByteParses(c.blue);
  }

  /** Two strings whose channel pairs parse alike give the same colour: letter case does not matter. */
  lemma HexChannelsDecide(s: string, t: string, alpha: int)
    requires |s| == 7 && |t| == 7
    requires ParseHexByte(s[1..3]) == ParseHexByte(t[1..3])
    requires ParseHexByte(s[3..5]) == ParseHexByte(t[3..5])
    requires ParseHexByte(s[5..7]) == ParseHexByte(t[5..7])
    ensures HexToRgbaSkia(s, alpha, true) == HexToRgbaSkia(t, alpha, true)
  {
  }

  // ---------------------------------------------------------------------------
  // LabelText

  /**
   * LabelText: the label name, followed by " (pct%)" when the confidence is
   * shown. `percent` is the text CommonExtension.ToPercent formats.
   */
  function LabelText(labelName: string, percent: string, showConfidence: bool): (r: string)
    ensures |r| >= |labelName| && r[..|labelName|] == labelName
    ensures r == labelName <==> !showConfidence
    ensures showConfidence ==> |r| == |labelName| + |percent| + 4 && r[|r| - 2..] == "%)"
  {
    labelName + (if showConfidence then " (" + percent + "%)" else "")
  }

  /** The caption is the name followed by the suffix, so the name is read back from it. */
  lemma LabelTextName(labelName: string, percent: string)
    ensures LabelText(labelName, percent, true)[..|labelName|] == labelName
    ensures LabelText(labelName, percent, true)[|labelName|..] == " (" + percent + "%)"
  {
  }

  // ---------------------------------------------------------------------------
  // Palette slot

  /**
   * BoundingBoxHexColors[Label.Index % totalColors]: an empty palette divides
   * by zero; C#'s `%` keeps the sign of a negative index, and a negative slot
   * is outside the array.
   */
  function PaletteIndex(index: int, totalColors: nat): (r: Result<nat>)
    ensures r.Ok? ==> r.value < totalColors
    ensures totalColors == 0 <==> r == Err(DivideByZero)
    ensures index >= 0 && totalColors > 0 ==> r == Ok(index % totalColors)
    ensures index < 0 && totalColors > 0 ==> (r.Ok? <==> (-index) % totalColors == 0)
  {
    if totalColors == 0 then Err(DivideByZero)
    else
      var slot := TruncMod(index, totalColors);
      if slot < 0 then Err(IndexOutOfRange) else Ok(slot)
  }

  /** Class indices one palette length apart share a colour. */
  lemma PaletteCycles(index: nat, totalColors: nat)
    requires totalColors > 0
    ensures PaletteIndex(index + totalColors, totalColors) == PaletteIndex(index, totalColors)
  {
    var q := index / totalColors;
    assert index + totalColors == (q + 1) * totalColors + index % totalColors;
    ModUnique(index + totalColors, totalColors, q + 1, index % totalColors);
  }

  lemma ModUnique(a: nat, b: nat, q: nat, m: nat)
    requires b > 0 && m < b && a == q * b + m
    ensures a % b == m
  {
    var d := q - a / b;
    assert d * b == q * b - (a / b) * b;
    SmallMultiple(d, b);
  }

  /** The only multiple of b strictly between -b and b is 0. */
  lemma SmallMultiple(d: int, b: int)
    requires b > 0 && -b < d * b < b
    ensures d == 0
  {
    MulSign(d, b);
  }

  lemma MulSign(d: int, b: int)
    requires b > 0
    ensures d >= 1 ==> d * b >= b
    ensures d <= -1 ==> d * b <= -b
  {
    if d >= 1 {
      assert d * b == (d - 1) * b + b;
    } else if d <= -1 {
      assert d * b == (d + 1) * b - b;
    }
  }

  // ---------------------------------------------------------------------------
  // Entry guards

  /**
   * The drawing entry points: a null detection list throws
   * ArgumentNullException, and null options fall back to the defaults of
   * ImageConfig.
   */
  function DrawArguments<T, O>(detections: Option<seq<T>>, options: Option<O>, defaults: O): (r: Result<(seq<T>, O)>)
    ensures detections.None? <==> r == Err(ArgumentNull)
    ensures r.Ok? ==> r.value.0 == detections.value
    ensures r.Ok? && options.None? ==> r.value.1 == defaults
    ensures r.Ok? && options.Some? ==> r.value.1 == options.value
  {
    if detections.None? then Err(ArgumentNull)
    else Ok((detections.value, if options.Some? then options.value else defaults))
  }
}
