// Extensions/ImageResizeExtension: the geometry of the two resize modes, the
// planar layout NormalizePixelsToArray writes into the tensor buffer, and the
// bit-level float32 to float16 conversion its half-precision overload uses
// (the binary32 and binary16 interchange formats of IEEE 754-2008,
// clause 3.4: sign bit, biased exponent field, trailing significand field).

module ImageResize {
  import opened Common

  // ---------------------------------------------------------------------------
  // float32 -> float16

  /** Bit 31 of a binary32 moved to bit 15. */
  function SignOf(f: bv32): bv32 { (f >> 16) & 0x8000 }

  /** The 8-bit biased exponent field of a binary32. */
  function FieldOf(f: bv32): bv32 { (f >> 23) & 0xFF }

  /** The 23-bit trailing significand field of a binary32. */
  function MantissaOf(f: bv32): bv32 { f & 0x7F_FFFF }

  /**
   * The 13 low bits dropped with round-half-to-even: 0xFFF plus the lowest
   * kept bit is added before the shift.
   */
  function RoundMantissa(m: bv32): (r: bv32)
    requires m <= 0xFF_FFFF
    ensures r <= 0x800
  {
    (m + 0xFFF + ((m >> 13) & 1)) >> 13
  }

  /** The rounding is to the nearest multiple of 2^13, and a tie goes to the even one. */
  lemma RoundHalfEven(m: bv32)
    requires m <= 0xFF_FFFF
    ensures var q, rest := m >> 13, m & 0x1FFF;
      RoundMantissa(m) == q + (if rest > 0x1000 || (rest == 0x1000 && q & 1 == 1) then 1 else 0)
  {
  }

  /** A 23-bit significand rounds to at most 1024, the carry into the exponent. */
  lemma RoundBound(m: bv32)
    requires m <= 0x7F_FFFF
    ensures RoundMantissa(m) <= 0x400
  {
  }

  /** A binary16 NaN: all exponent bits set and a non-zero significand. */
  predicate IsHalfNaN(h: bv16) { h & 0x7C00 == 0x7C00 && h & 0x3FF != 0 }

  /** A binary16 infinity. */
  predicate IsHalfInf(h: bv16) { h & 0x7FFF == 0x7C00 }

  /**
   * The subnormal branch, shared by both versions (rebiased exponent e in
   * -10..0, that is field 102..112): the hidden bit is put back, the
   * significand shifted right by 1 - e, then rounded.
   */
  function SubnormalBits(f: bv32): (m: bv32)
    requires 102 <= FieldOf(f) <= 112
    ensures m <= 0x7F_FFFF
  {
    (MantissaOf(f) | 0x80_0000) >> (113 - FieldOf(f))
  }

  function Subnormal(f: bv32): (h: bv16)
    requires 102 <= FieldOf(f) <= 112
  {
    ((SignOf(f) | RoundMantissa(SubnormalBits(f))) & 0xFFFF) as bv16
  }

  /** A half from its sign bit (bit 15) and its 15-bit magnitude. */
  function PackHalf(sign: bv32, magnitude: bv32): bv16
  {
    ((sign | magnitude) & 0xFFFF) as bv16
  }

  /** The normal branch as written: the rounded significand OR-ed onto the shifted exponent. */
  function NormalAsWritten(f: bv32): bv16
    requires 113 <= FieldOf(f) <= 142
  {
    PackHalf(SignOf(f), ((FieldOf(f) - 112) << 10) | RoundMantissa(MantissaOf(f)))
  }

  /**
   * FloatToUshort as written. The exponent is rebiased by 112 (field - 112);
   * a rebiased exponent of 31 (field 143) is taken for Inf/NaN, and in the
   * normal branch the rounded significand is OR-ed onto the exponent.
   */
  function FloatToUshortAsWritten(f: bv32): (h: bv16)
    ensures FieldOf(f) < 102 ==> h & 0x7FFF == 0
    ensures FieldOf(f) == 143 ==> h & 0x7C00 == 0x7C00
    ensures FieldOf(f) > 143 ==> IsHalfInf(h)
  {
    var sign := SignOf(f);
    var field := FieldOf(f);
    var mantissa := MantissaOf(f);
    if field <= 112 then
      if field < 102 then sign as bv16
      else Subnormal(f)
    else if field == 143 then
      if mantissa == 0 then (sign | 0x7C00) as bv16
      else ((sign | 0x7C00 | (mantissa >> 13)) & 0xFFFF) as bv16
    else if field > 142 then (sign | 0x7C00) as bv16
    else NormalAsWritten(f)
  }

  /** The normal branch as intended: the rounded significand added, so a carry raises the exponent. */
  function NormalHalf(f: bv32): bv16
    requires 113 <= FieldOf(f) <= 142
  {
    PackHalf(SignOf(f), ((FieldOf(f) - 112) << 10) + RoundMantissa(MantissaOf(f)))
  }

  /**
   * The conversion as evidently intended: a binary32 NaN (field 255) stays
   * a NaN, every finite value above the half range becomes infinity, and
   * the rounded significand is added, so a round-up carries into the exponent.
   */
  function FloatToHalf(f: bv32): (h: bv16)
    ensures FieldOf(f) < 102 ==> h & 0x7FFF == 0
    ensures 143 <= FieldOf(f) < 255 ==> IsHalfInf(h)
    ensures FieldOf(f) == 255 ==> (IsHalfNaN(h) <==> MantissaOf(f) != 0) && h & 0x7C00 == 0x7C00
  {
    var sign := SignOf(f);
    var field := FieldOf(f);
    var mantissa := MantissaOf(f);
    if field == 255 then
      if mantissa == 0 then (sign | 0x7C00) as bv16
      else ((sign | 0x7E00 | (mantissa >> 13)) & 0xFFFF) as bv16
    else if field <= 112 then
      if field < 102 then sign as bv16
      else Subnormal(f)
    else if field > 142 then (sign | 0x7C00) as bv16
    else NormalHalf(f)
  }

  /** The subnormal branch keeps the sign and stays below the normal range's first exponent. */
  lemma SubnormalSign(f: bv32)
    requires 102 <= FieldOf(f) <= 112
    ensures Subnormal(f) >> 15 == (f >> 31) as bv16
    ensures Subnormal(f) & 0x7FFF <= 0x400
  {
    RoundBound(SubnormalBits(f));
  }

  /** The sign bit of a packed half, when the magnitude stays below bit 15. */
  lemma PackedSign(f: bv32, x: bv32)
    requires x < 0x8000
    ensures PackHalf(SignOf(f), x) >> 15 == (f >> 31) as bv16
  {
  }

  /** In the normal range both magnitudes stay below the sign bit. */
  lemma NormalMagnitudeBound(f: bv32)
    requires 113 <= FieldOf(f) <= 142
    ensures ((FieldOf(f) - 112) << 10) + RoundMantissa(MantissaOf(f)) < 0x8000
  {
    RoundBound(MantissaOf(f));
    MagnitudeBound(FieldOf(f) - 112, RoundMantissa(MantissaOf(f)));
  }

  lemma NormalOrBound(f: bv32)
    requires 113 <= FieldOf(f) <= 142
    ensures ((FieldOf(f) - 112) << 10) | RoundMantissa(MantissaOf(f)) < 0x8000
  {
    RoundBound(MantissaOf(f));
    OrBound(FieldOf(f) - 112, RoundMantissa(MantissaOf(f)));
  }

  lemma NormalHalfSign(f: bv32)
    requires 113 <= FieldOf(f) <= 142
    ensures NormalHalf(f) >> 15 == (f >> 31) as bv16
  {
    NormalMagnitudeBound(f);
    PackedSign(f, ((FieldOf(f) - 112) << 10) + RoundMantissa(MantissaOf(f)));
  }

  lemma NormalAsWrittenSign(f: bv32)
    requires 113 <= FieldOf(f) <= 142
    ensures NormalAsWritten(f) >> 15 == (f >> 31) as bv16
  {
    NormalOrBound(f);
    PackedSign(f, ((FieldOf(f) - 112) << 10) | RoundMantissa(MantissaOf(f)));
  }

  /** Both versions keep the sign: output bit 15 is input bit 31. */
  lemma SignKept(f: bv32)
    ensures FloatToUshortAsWritten(f) >> 15 == (f >> 31) as bv16
    ensures FloatToHalf(f) >> 15 == (f >> 31) as bv16
  {
    var field := FieldOf(f);
    if 102 <= field <= 112 {
      SubnormalSign(f);
    } else if 113 <= field <= 142 {
      NormalHalfSign(f);
      NormalAsWrittenSign(f);
    }
  }

  /** A rebiased exponent below -10 (too small for a half) gives a zero of the same sign. */
  lemma TinyIsZero(f: bv32)
    requires FieldOf(f) < 102
    ensures FloatToUshortAsWritten(f) == SignOf(f) as bv16 && FloatToUshortAsWritten(f) & 0x7FFF == 0
    ensures FloatToHalf(f) == FloatToUshortAsWritten(f)
  {
  }

  /** As written, every binary32 NaN (field 255, non-zero significand) becomes an infinity. */
  lemma AsWrittenNaNIsInf(f: bv32)
    requires FieldOf(f) == 255 && MantissaOf(f) != 0
    ensures IsHalfInf(FloatToUshortAsWritten(f)) && !IsHalfNaN(FloatToUshortAsWritten(f))
  {
  }

  /** As written, the finite 70000.0f (0x4788B800, field 143) becomes a NaN. */
  lemma AsWrittenFiniteIsNaN()
    ensures FieldOf(0x4788_B800) == 143
    ensures FloatToUshortAsWritten(0x4788_B800) == 0x7C45 && IsHalfNaN(0x7C45)
    ensures FloatToHalf(0x4788_B800) == 0x7C00
  {
  }

  /** As written, the largest float below 2 (0x3FFFFFFF) rounds to 1.0 (0x3C00) instead of 2.0 (0x4000). */
  lemma AsWrittenCarryLost()
    ensures FloatToUshortAsWritten(0x3FFF_FFFF) == 0x3C00
    ensures FloatToHalf(0x3FFF_FFFF) == 0x4000
  {
  }

  lemma NormalHalfNotNaN(f: bv32)
    requires 113 <= FieldOf(f) <= 142
    ensures !IsHalfNaN(NormalHalf(f))
  {
    RoundBound(MantissaOf(f));
  }

  /** The corrected conversion gives a NaN exactly for a NaN. */
  lemma HalfNaNExactly(f: bv32)
    ensures IsHalfNaN(FloatToHalf(f)) <==> FieldOf(f) == 255 && MantissaOf(f) != 0
  {
    var field := FieldOf(f);
    if 102 <= field <= 112 {
      SubnormalSign(f);
    } else if 113 <= field <= 142 {
      NormalHalfNotNaN(f);
    }
  }

  /** A sign bit at bit 15 and a 15-bit magnitude do not overlap. */
  lemma SignApart(sign: bv32, x: bv32)
    requires sign == 0 || sign == 0x8000
    requires x < 0x8000
    ensures (PackHalf(sign, x) & 0x7FFF) as bv32 == x
  {
  }

  lemma SignOfBit(f: bv32)
    ensures SignOf(f) == 0 || SignOf(f) == 0x8000
  {
  }

  /** An exponent of the normal range in bits 10..14 plus a significand of at most 1024 stays below bit 15. */
  lemma MagnitudeBound(e: bv32, r: bv32)
    requires 1 <= e <= 30 && r <= 0x400
    ensures (e << 10) + r < 0x8000
  {
  }

  lemma NormalBranch(f: bv32)
    requires 113 <= FieldOf(f) <= 142
    ensures FloatToHalf(f) == NormalHalf(f)
  {
  }

  lemma NormalHalfMagnitude(f: bv32)
    requires 113 <= FieldOf(f) <= 142
    ensures (NormalHalf(f) & 0x7FFF) as bv32 == ((FieldOf(f) - 112) << 10) + RoundMantissa(MantissaOf(f))
  {
    NormalMagnitudeBound(f);
    SignOfBit(f);
    SignApart(SignOf(f), ((FieldOf(f) - 112) << 10) + RoundMantissa(MantissaOf(f)));
  }

  /**
   * In the normal range the corrected conversion takes the normal branch,
   * whose half reads as exponent * 1024 plus the rounded significand, so a
   * round-up to 1024 moves to the next exponent.
   */
  lemma HalfNormalMagnitude(f: bv32)
    requires 113 <= FieldOf(f) <= 142
    ensures FloatToHalf(f) == NormalHalf(f)
    ensures (NormalHalf(f) & 0x7FFF) as bv32 == ((FieldOf(f) - 112) << 10) + RoundMantissa(MantissaOf(f))
  {
    NormalBranch(f);
    NormalHalfMagnitude(f);
  }

  lemma OrBound(e: bv32, r: bv32)
    requires 1 <= e <= 30 && r <= 0x400
    ensures (e << 10) | r < 0x8000
  {
  }

  /** OR-ing the rounded significand onto the exponent adds it unless the carry meets an odd exponent. */
  lemma OrIsAdd(e: bv32, r: bv32)
    requires 1 <= e <= 30 && r <= 0x400
    requires e & 1 == 0 || r < 0x400
    ensures (e << 10) | r == (e << 10) + r
  {
  }

  /**
   * The two versions differ only on field 143 and above, or in the normal
   * range when the rounding carries (the significand rounds up to 1024)
   * and the exponent is odd.
   */
  lemma VersionsAgree(f: bv32)
    requires FieldOf(f) < 143
    requires FieldOf(f) & 1 == 0 || RoundMantissa(MantissaOf(f)) < 0x400
    ensures FloatToUshortAsWritten(f) == FloatToHalf(f)
  {
    if 113 <= FieldOf(f) <= 142 {
      RoundBound(MantissaOf(f));
      OrIsAdd(FieldOf(f) - 112, RoundMantissa(MantissaOf(f)));
    }
  }

  // ---------------------------------------------------------------------------
  // NormalizePixelsToArray

  /**
   * `n & ~1` and `n & ~3`: n rounded down to a multiple of the unroll step.
   * A negative n stays negative and the loop does not run, so it counts as 0.
   */
  function Limit(n: int, step: nat): (l: nat)
    requires step == 2 || step == 4
    ensures n <= 0 ==> l == 0
    ensures n > 0 ==> l <= n && n - l < step
    ensures step == 2 ==> l % 2 == 0
    ensures step == 4 ==> l % 4 == 0
  {
    if n <= 0 then 0 else if step == 2 then n - n % 2 else n - n % 4
  }

  /**
   * NormalizePixelsToArray, both overloads: `convert` is what one byte
   * becomes, `byte * (1/255)` for the float buffer and that float converted
   * to half precision for the ushort buffer. One channel reads one byte per
   * pixel, four at a time; otherwise the image is four bytes per pixel (RGBx)
   * and channel c of pixel i goes to c * totalPixels + i, two pixels at a
   * time, skipping the fourth byte. Only the first totalPixels rounded down to
   * the unroll step are written; every other entry of the buffer is untouched.
   * `tensorArrayBuffer[0]` is taken first, so an empty buffer throws.
   */
  method NormalizePixelsToArray<T>(pixels: seq<bv8>, colorChannels: int, height: int, width: int,
                                   buffer: array<T>, convert: bv8 -> T)
    returns (err: Option<Error>)
    requires buffer.Length > 0 && colorChannels == 1 ==>
      Limit(width * height, 4) <= buffer.Length && Limit(width * height, 4) <= |pixels|
    requires buffer.Length > 0 && colorChannels != 1 ==>
      2 * width * height + Limit(width * height, 2) <= buffer.Length && 4 * Limit(width * height, 2) <= |pixels|
    modifies buffer
    ensures buffer.Length == 0 <==> err == Some(IndexOutOfRange)
    ensures colorChannels == 1 ==> forall k :: 0 <= k < buffer.Length ==>
      buffer[k] == if k < Limit(width * height, 4) then convert(pixels[k]) else old(buffer[k])
    ensures colorChannels != 1 ==> forall k :: 0 <= k < buffer.Length ==>
      buffer[k] == RgbEntry(old(buffer[..]), pixels, width * height, convert, k)
  {
    if buffer.Length == 0 {
      return Some(IndexOutOfRange);
    }
    var totalPixels := width * height;
    if colorChannels == 1 {
      NormalizeGray(pixels, totalPixels, buffer, convert);
    } else {
      NormalizeRgb(pixels, totalPixels, buffer, convert);
    }
    return None;
  }

  /** The entry k of the buffer after the RGB pass: a channel value for the first pixels, else as before. */
  function RgbEntry<T>(before: seq<T>, pixels: seq<bv8>, totalPixels: int, convert: bv8 -> T, k: int): T
    requires 0 <= k < |before|
    requires 4 * Limit(totalPixels, 2) <= |pixels|
  {
    var limit := Limit(totalPixels, 2);
    if k < limit then convert(pixels[4 * k])
    else if totalPixels <= k < totalPixels + limit then convert(pixels[4 * (k - totalPixels) + 1])
    else if 2 * totalPixels <= k < 2 * totalPixels + limit then convert(pixels[4 * (k - 2 * totalPixels) + 2])
    else before[k]
  }

  method NormalizeGray<T>(pixels: seq<bv8>, totalPixels: int, buffer: array<T>, convert: bv8 -> T)
    requires Limit(totalPixels, 4) <= buffer.Length && Limit(totalPixels, 4) <= |pixels|
    modifies buffer
    ensures forall k :: 0 <= k < buffer.Length ==>
      buffer[k] == if k < Limit(totalPixels, 4) then convert(pixels[k]) else old(buffer[k])
  {
    var limit := Limit(totalPixels, 4);
    var i := 0;
    while i < limit
      invariant 0 <= i <= limit && i % 4 == 0
      invariant forall k :: 0 <= k < buffer.Length ==>
        buffer[k] == if k < i then convert(pixels[k]) else old(buffer[k])
    {
      buffer[i] := convert(pixels[i]);
      buffer[i + 1] := convert(pixels[i + 1]);
      buffer[i + 2] := convert(pixels[i + 2]);
      buffer[i + 3] := convert(pixels[i + 3]);
      i := i + 4;
    }
  }

  method NormalizeRgb<T>(pixels: seq<bv8>, totalPixels: int, buffer: array<T>, convert: bv8 -> T)
    requires 2 * totalPixels + Limit(totalPixels, 2) <= buffer.Length && 4 * Limit(totalPixels, 2) <= |pixels|
    modifies buffer
    ensures forall k :: 0 <= k < buffer.Length ==>
      buffer[k] == RgbEntry(old(buffer[..]), pixels, totalPixels, convert, k)
  {
    ghost var before := buffer[..];
    var limit := Limit(totalPixels, 2);
    var i := 0;
    while i < limit
      invariant 0 <= i <= limit && i % 2 == 0
      invariant forall k :: 0 <= k < buffer.Length ==>
        buffer[k] == RgbEntry(before, pixels, totalPixels, convert, k) || !Written(totalPixels, i, k)
      invariant forall k :: 0 <= k < buffer.Length && !Written(totalPixels, i, k) ==> buffer[k] == before[k]
    {
      WritePixel(pixels, totalPixels, buffer, convert, i, before);
      WritePixel(pixels, totalPixels, buffer, convert, i + 1, before);
      i := i + 2;
    }
    forall k | 0 <= k < buffer.Length
      ensures buffer[k] == RgbEntry(before, pixels, totalPixels, convert, k)
    {
      if !Written(totalPixels, limit, k) {
        assert buffer[k] == before[k];
      }
    }
  }

  /** Whether entry k lies in one of the three channel planes below pixel i. */
  predicate Written(totalPixels: int, i: int, k: int)
  {
    0 <= k < i || (totalPixels <= k < totalPixels + i) || (2 * totalPixels <= k < 2 * totalPixels + i)
  }

  /** Half of one unrolled step: pixel i (bytes 4i, 4i + 1, 4i + 2) into the R, G and B planes. */
  method WritePixel<T>(pixels: seq<bv8>, totalPixels: int, buffer: array<T>, convert: bv8 -> T, i: int,
                       ghost before: seq<T>)
    requires |before| == buffer.Length
    requires 2 * totalPixels + Limit(totalPixels, 2) <= buffer.Length && 4 * Limit(totalPixels, 2) <= |pixels|
    requires 0 <= i < Limit(totalPixels, 2)
    requires forall k :: 0 <= k < buffer.Length ==>
      buffer[k] == RgbEntry(before, pixels, totalPixels, convert, k) || !Written(totalPixels, i, k)
    requires forall k :: 0 <= k < buffer.Length && !Written(totalPixels, i, k) ==> buffer[k] == before[k]
    modifies buffer
    ensures forall k :: 0 <= k < buffer.Length ==>
      buffer[k] == RgbEntry(before, pixels, totalPixels, convert, k) || !Written(totalPixels, i + 1, k)
    ensures forall k :: 0 <= k < buffer.Length && !Written(totalPixels, i + 1, k) ==> buffer[k] == before[k]
  {
    var p := 4 * i;
    buffer[i] := convert(pixels[p]);
    buffer[totalPixels + i] := convert(pixels[p + 1]);
    buffer[2 * totalPixels + i] := convert(pixels[p + 2]);
  }

  // ---------------------------------------------------------------------------
  // Resize geometry

  /** SKSizeI. */
  datatype SizeI = SizeI(width: int, height: int)

  /** An SKRect destination as left, top, width and height. */
  datatype Placement = Placement(x: int, y: int, width: int, height: int)

  /** What a resize draws and what it returns. */
  datatype Resized = Resized(destination: Placement, size: SizeI)

  /**
   * ResizeImageStretched: the whole image is drawn over the whole model
   * input, and the original image size is returned. An image with no pixels
   * cannot be made into an SKImage, and reading its size then fails.
   */
  function ResizeImageStretched(width: int, height: int, modelWidth: int, modelHeight: int): (r: Result<Resized>)
    ensures width <= 0 || height <= 0 <==> r == Err(NullReference)
    ensures r.Ok? ==> r.value.size == SizeI(width, height)
    ensures r.Ok? ==> r.value.destination == Placement(0, 0, modelWidth, modelHeight)
  {
    if width <= 0 || height <= 0 then Err(NullReference)
    else Ok(Resized(Placement(0, 0, modelWidth, modelHeight), SizeI(width, height)))
  }

  /** The scale factor min(modelWidth / width, modelHeight / height). */
  function ScaleFactor(width: int, height: int, modelWidth: int, modelHeight: int): real
    requires width > 0 && height > 0
  {
    MinReal(modelWidth as real / width as real, modelHeight as real / height as real)
  }

  /** `(int)(extent * scale + 0.5f)`: the scaled extent rounded half up. */
  function Scaled(extent: int, scale: real): int
  {
    Trunc(extent as real * scale + 0.5)
  }

  /**
   * ResizeImageProportional: the image is scaled by the smaller of the two
   * ratios and drawn centred at ((modelWidth - newWidth) / 2,
   * (modelHeight - newHeight) / 2), the division truncating; the original
   * image size is returned.
   */
  function ResizeImageProportional(width: int, height: int, modelWidth: int, modelHeight: int): (r: Result<Resized>)
    ensures width <= 0 || height <= 0 <==> r == Err(NullReference)
    ensures r.Ok? ==> r.value.size == SizeI(width, height)
  {
    if width <= 0 || height <= 0 then Err(NullReference)
    else
      var scale := ScaleFactor(width, height, modelWidth, modelHeight);
      var newWidth := Scaled(width, scale);
      var newHeight := Scaled(height, scale);
      Ok(Resized(Placement(TruncDiv(modelWidth - newWidth, 2), TruncDiv(modelHeight - newHeight, 2), newWidth, newHeight),
                 SizeI(width, height)))
  }

  lemma TimesRatio(extent: int, model: int)
    requires extent > 0
    ensures extent as real * (model as real / extent as real) == model as real
  {
  }

  lemma ScaledWithin(extent: int, model: int, scale: real)
    requires extent > 0 && model >= 0 && 0.0 <= scale <= model as real / extent as real
    ensures 0 <= Scaled(extent, scale) <= model
  {
    TimesRatio(extent, model);
    MulMonotone(extent as real, scale, model as real / extent as real);
  }

  lemma MulMonotone(a: real, s: real, t: real)
    requires a >= 0.0 && s <= t
    ensures a * s <= a * t
  {
  }

  /**
   * With a model input of positive size, the drawn image fits inside it,
   * centred: the left margin is at most the right one and they differ by at
   * most a pixel (likewise top and bottom), and the image spans the full
   * width or the full height.
   */
  lemma ProportionalCentred(width: int, height: int, modelWidth: int, modelHeight: int)
    requires width > 0 && height > 0 && modelWidth > 0 && modelHeight > 0
    ensures var d := ResizeImageProportional(width, height, modelWidth, modelHeight).value.destination;
      0 <= d.width <= modelWidth && 0 <= d.height <= modelHeight &&
      0 <= d.x && d.x <= modelWidth - d.width - d.x <= d.x + 1 &&
      0 <= d.y && d.y <= modelHeight - d.height - d.y <= d.y + 1 &&
      (d.width == modelWidth || d.height == modelHeight)
  {
    var scale := ScaleFactor(width, height, modelWidth, modelHeight);
    var rw := modelWidth as real / width as real;
    var rh := modelHeight as real / height as real;
    assert rw > 0.0 && rh > 0.0;
    ScaledWithin(width, modelWidth, scale);
    ScaledWithin(height, modelHeight, scale);
    if rw <= rh {
      TimesRatio(width, modelWidth);
      assert Scaled(width, scale) == modelWidth;
    } else {
      TimesRatio(height, modelHeight);
      assert Scaled(height, scale) == modelHeight;
    }
  }
}
