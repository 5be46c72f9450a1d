// Segmentation masks: one bit per pixel, packed eight pixels to the byte
// with pixel i at bit (i mod 8) of byte (i div 8)
// (PackUpscaledMaskToBitArray in Modules/V8 and Modules/V26, which are the
// same code), unpacked to 0/255 bytes or to a BGRA bitmap
// (Extensions/ImageExtension), and the steps that produce the mask canvas:
// the mask-weight read, the downscaled box and the pixel-mask write.

module Masks {
  import opened Common
  import opened Geometry
  import YoloCore

  // ---------------------------------------------------------------------------
  // Bits
  // ---------------------------------------------------------------------------

  /** Bit k of a byte: `(b & (1 << k)) != 0`. */
  predicate BitOf(b: bv8, k: int)
    requires 0 <= k < 8
  {
    b & (1 << k) != 0
  }

  /** Setting bit k changes bit k alone. */
  lemma SetBit(b: bv8, k: int, j: int)
    requires 0 <= k < 8 && 0 <= j < 8
    ensures BitOf(b | (1 << k), j) <==> BitOf(b, j) || j == k
  {
  }

  /** Two bytes with the same eight bits are equal. */
  lemma BitsDetermineByte(a: bv8, b: bv8)
    requires forall k :: 0 <= k < 8 ==> (BitOf(a, k) <==> BitOf(b, k))
    ensures a == b
  {
    assert BitOf(a, 0) == BitOf(b, 0) && BitOf(a, 1) == BitOf(b, 1);
    assert BitOf(a, 2) == BitOf(b, 2) && BitOf(a, 3) == BitOf(b, 3);
    assert BitOf(a, 4) == BitOf(b, 4) && BitOf(a, 5) == BitOf(b, 5);
    assert BitOf(a, 6) == BitOf(b, 6) && BitOf(a, 7) == BitOf(b, 7);
  }

  // ---------------------------------------------------------------------------
  // Packing
  // ---------------------------------------------------------------------------

  /** CalculateBitMaskSize: `(totalPixels + 7) / 8`, the fewest bytes that hold one bit per pixel. */
  function BitMaskSize(totalPixels: int): (r: int)
    requires totalPixels >= 0
    ensures r >= 0 && 8 * r >= totalPixels && 8 * (r - 1) < totalPixels
  {
    (totalPixels + 7) / 8
  }

  /** Pixel i of a packed mask: bit (i mod 8) of byte (i div 8). */
  predicate MaskBit(packed: seq<bv8>, i: int)
    requires 0 <= i < 8 * |packed|
  {
    BitOf(packed[i / 8], i % 8)
  }

  /** Which pixels of the upscaled mask are kept: CalculatePixelConfidence(pixel) > threshold. */
  function Keep(pixels: seq<bv8>, confidenceThreshold: real): (keep: seq<bool>)
    ensures |keep| == |pixels|
    ensures forall i :: 0 <= i < |pixels| ==> (keep[i] <==> YoloCore.PixelConfidenceCore(pixels[i]) > confidenceThreshold)
  {
    seq(|pixels|, i requires 0 <= i < |pixels| => YoloCore.PixelConfidenceCore(pixels[i]) > confidenceThreshold)
  }

  /** Up to eight flags packed into one byte, flag k at bit k. */
  function PackByte(bits: seq<bool>): bv8
    requires |bits| <= 8
    decreases |bits|
  {
    if |bits| == 0 then 0
    else PackByte(bits[..|bits| - 1]) | (if bits[|bits| - 1] then 1 << (|bits| - 1) else 0)
  }

  lemma {:induction false} PackByteBits(bits: seq<bool>, k: int)
    requires |bits| <= 8 && 0 <= k < 8
    ensures BitOf(PackByte(bits), k) <==> k < |bits| && bits[k]
    decreases |bits|
  {
    if |bits| > 0 {
      var n := |bits| - 1;
      PackByteBits(bits[..n], k);
      var low := PackByte(bits[..n]);
      if bits[n] {
        SetBit(low, n, k);
      }
    }
  }

  /** The reference packing of a list of flags, eight to the byte. */
  function PackBits(keep: seq<bool>): (r: seq<bv8>)
    ensures |r| == BitMaskSize(|keep|)
    decreases |keep|
  {
    if |keep| == 0 then []
    else if |keep| <= 8 then [PackByte(keep)]
    else [PackByte(keep[..8])] + PackBits(keep[8..])
  }

  /** Pixel i of the reference packing is set exactly when flag i is; the padding bits are clear. */
  lemma {:induction false} PackBitsCorrect(keep: seq<bool>)
    ensures forall i :: 0 <= i < 8 * |PackBits(keep)| ==> (MaskBit(PackBits(keep), i) <==> i < |keep| && keep[i])
    decreases |keep|
  {
    var p := PackBits(keep);
    if |keep| > 0 {
      if |keep| > 8 {
        PackBitsCorrect(keep[8..]);
      }
      forall i | 0 <= i < 8 * |p|
        ensures MaskBit(p, i) <==> i < |keep| && keep[i]
      {
        if i < 8 {
          PackByteBits(if |keep| <= 8 then keep else keep[..8], i);
        } else {
          var rest := PackBits(keep[8..]);
          assert p[i / 8] == rest[(i - 8) / 8];
          assert MaskBit(p, i) == MaskBit(rest, i - 8);
        }
      }
    }
  }

  /** `packed` holds flag i at pixel i and nothing beyond the flags. */
  ghost predicate Packs(packed: seq<bv8>, keep: seq<bool>)
  {
    |packed| == BitMaskSize(|keep|) &&
    forall i :: 0 <= i < 8 * |packed| ==> (MaskBit(packed, i) <==> i < |keep| && keep[i])
  }

  /** The bits determine the bytes: the only packing of a list of flags is the reference one. */
  lemma PacksUnique(packed: seq<bv8>, keep: seq<bool>)
    requires Packs(packed, keep)
    ensures packed == PackBits(keep)
  {
    var p := PackBits(keep);
    PackBitsCorrect(keep);
    forall b | 0 <= b < |packed|
      ensures packed[b] == p[b]
    {
      forall k | 0 <= k < 8
        ensures BitOf(packed[b], k) <==> BitOf(p[b], k)
      {
        assert MaskBit(packed, 8 * b + k) <==> MaskBit(p, 8 * b + k);
        assert (8 * b + k) / 8 == b && (8 * b + k) % 8 == k;
      }
      BitsDetermineByte(packed[b], p[b]);
    }
  }

  /** Setting the bit of pixel i in its byte sets that pixel's mask bit and no other. */
  lemma SetMaskBit(before: seq<bv8>, i: int, after: seq<bv8>)
    requires 0 <= i < 8 * |before|
    requires after == before[i / 8 := before[i / 8] | (1 << (i % 8))]
    ensures forall j :: 0 <= j < 8 * |after| ==> (MaskBit(after, j) <==> MaskBit(before, j) || j == i)
  {
    forall j | 0 <= j < 8 * |after|
      ensures MaskBit(after, j) <==> MaskBit(before, j) || j == i
    {
      if j / 8 == i / 8 {
        SetBit(before[i / 8], i % 8, j % 8);
        assert j % 8 == i % 8 <==> j == i;
      }
    }
  }

  /**
   * PackUpscaledMaskToBitArray over the upscaled Gray8 pixels, one byte per
   * pixel in row order: bit i is set exactly when pixel i's confidence
   * exceeds the threshold.
   */
  method PackUpscaledMaskToBitArray(pixels: array<bv8>, confidenceThreshold: real) returns (bytes: array<bv8>)
    ensures bytes[..] == PackBits(Keep(pixels[..], confidenceThreshold))
    ensures Packs(bytes[..], Keep(pixels[..], confidenceThreshold))
  {
    var totalPixels := pixels.Length;
    ghost var keep := Keep(pixels[..], confidenceThreshold);
    bytes := new bv8[BitMaskSize(totalPixels)](_ => 0);
    for i := 0 to totalPixels
      invariant forall j :: 0 <= j < 8 * bytes.Length ==> (MaskBit(bytes[..], j) <==> j < i && keep[j])
    {
      var confidence := YoloCore.PixelConfidenceCore(pixels[i]);
      if confidence > confidenceThreshold {
        var byteIndex := i / 8;
        var bitIndex := i % 8;
        ghost var before := bytes[..];
        bytes[byteIndex] := bytes[byteIndex] | (1 << bitIndex);
        SetMaskBit(before, i, bytes[..]);
      }
    }
    PacksUnique(bytes[..], keep);
  }

  // ---------------------------------------------------------------------------
  // Unpacking
  // ---------------------------------------------------------------------------

  /** The first n pixels of a packed mask as bytes: 255 where the bit is set, 0 elsewhere. */
  function Unpacked(packed: seq<bv8>, n: int): (r: seq<bv8>)
    requires 0 <= n <= 8 * |packed|
    ensures |r| == n
  {
    seq(n, i requires 0 <= i < n => PixelValue(packed, i))
  }

  /** One unpacked pixel: 255 when its bit is set, 0 otherwise. */
  function PixelValue(packed: seq<bv8>, i: int): bv8
    requires 0 <= i < 8 * |packed|
  {
    if MaskBit(packed, i) then 255 else 0
  }

  /** Unpacking undoes packing: 255 exactly at the kept pixels. */
  lemma UnpackPackRoundTrip(keep: seq<bool>)
    ensures 8 * |PackBits(keep)| >= |keep|
    ensures forall i :: 0 <= i < |keep| ==>
              Unpacked(PackBits(keep), |keep|)[i] == if keep[i] then 255 else 0
  {
    PackBitsCorrect(keep);
  }

  /** Packing a mask and unpacking it gives 255 exactly where the pixel confidence exceeds the threshold. */
  lemma MaskRoundTrip(pixels: seq<bv8>, confidenceThreshold: real)
    ensures var p := PackBits(Keep(pixels, confidenceThreshold));
              8 * |p| >= |pixels| &&
              forall i :: 0 <= i < |pixels| ==>
                (Unpacked(p, |pixels|)[i] == 255 <==> YoloCore.PixelConfidenceCore(pixels[i]) > confidenceThreshold) &&
                (Unpacked(p, |pixels|)[i] == 0 <==> YoloCore.PixelConfidenceCore(pixels[i]) <= confidenceThreshold)
  {
    UnpackPackRoundTrip(Keep(pixels, confidenceThreshold));
  }

  /**
   * UnpackPixelMaskToByteArray: width * height bytes. A negative pixel count
   * makes the allocation throw; a mask too short for the pixel count throws
   * when the loop reads past its end.
   */
  method UnpackPixelMaskToByteArray(packedMask: array<bv8>, width: int, height: int) returns (r: Result<array<bv8>>)
    ensures width * height < 0 ==> r == Err(Overflow)
    ensures width * height > 8 * packedMask.Length ==> r == Err(IndexOutOfRange)
    ensures 0 <= width * height <= 8 * packedMask.Length ==>
              r.Ok? && r.value[..] == Unpacked(packedMask[..], width * height)
  {
    var totalPixels := width * height;
    if totalPixels < 0 {
      return Err(Overflow);
    }
    var unpacked := new bv8[totalPixels];
    for i := 0 to totalPixels
      invariant i <= 8 * packedMask.Length ==> unpacked[..i] == Unpacked(packedMask[..], i)
      invariant i > 8 * packedMask.Length ==> false
    {
      var byteIndex := i / 8;
      var bitIndex := i % 8;
      if byteIndex >= packedMask.Length {
        return Err(IndexOutOfRange);
      }
      var isSet := BitOf(packedMask[byteIndex], bitIndex);
      unpacked[i] := if isSet then 255 else 0;
      assert unpacked[..i + 1] == unpacked[..i] + [unpacked[i]];
    }
    assert unpacked[..] == unpacked[..totalPixels];
    r := Ok(unpacked);
  }

  /** The four bytes (blue, green, red, alpha) of pixel i of a BGRA bitmap. */
  function Bgra(bitmap: seq<bv8>, i: int): seq<bv8>
    requires 0 <= i && 4 * i + 4 <= |bitmap|
  {
    bitmap[4 * i..4 * i + 4]
  }

  /** Bytes laid out four to a pixel, each the pixel's unpacked value, read back as BGRA pixels. */
  lemma BgraFromBytes(bitmap: seq<bv8>, packed: seq<bv8>, n: int)
    requires 0 <= n <= 8 * |packed| && |bitmap| == 4 * n
    requires forall k :: 0 <= k < 4 * n ==> bitmap[k] == PixelValue(packed, k / 4)
    ensures forall i :: 0 <= i < n ==> var v := Unpacked(packed, n)[i]; Bgra(bitmap, i) == [v, v, v, v]
  {
    forall i | 0 <= i < n
      ensures var v := Unpacked(packed, n)[i]; Bgra(bitmap, i) == [v, v, v, v]
    {
      assert (4 * i) / 4 == i && (4 * i + 1) / 4 == i && (4 * i + 2) / 4 == i && (4 * i + 3) / 4 == i;
    }
  }

  /** Writing pixel i's value into its four bytes extends the painted prefix by one pixel. */
  lemma PaintPixelBytes(before: seq<bv8>, after: seq<bv8>, packed: seq<bv8>, i: int)
    requires 0 <= i < 8 * |packed| && 4 * i + 4 <= |before|
    requires forall k :: 0 <= k < 4 * i ==> before[k] == PixelValue(packed, k / 4)
    requires var v := PixelValue(packed, i);
               after == before[4 * i := v][4 * i + 1 := v][4 * i + 2 := v][4 * i + 3 := v]
    ensures forall k :: 0 <= k < 4 * i + 4 ==> after[k] == PixelValue(packed, k / 4)
  {
    forall k | 0 <= k < 4 * i + 4
      ensures after[k] == PixelValue(packed, k / 4)
    {
      if k >= 4 * i {
        assert k / 4 == i;
      }
    }
  }

  /**
   * UnpackToBitmap: a BGRA bitmap of width * height pixels whose four bytes
   * per pixel all carry the unpacked value, so a kept pixel is opaque white
   * and any other transparent black.
   */
  method UnpackToBitmap(packedMask: array<bv8>, width: int, height: int) returns (r: Result<array<bv8>>)
    requires width >= 0 && height >= 0
    ensures width * height > 8 * packedMask.Length ==> r == Err(IndexOutOfRange)
    ensures width * height <= 8 * packedMask.Length ==>
              r.Ok? && r.value.Length == 4 * (width * height) &&
              forall i :: 0 <= i < width * height ==>
                var v := Unpacked(packedMask[..], width * height)[i];
                Bgra(r.value[..], i) == [v, v, v, v]
  {
    var totalPixels := width * height;
    var bitmap := new bv8[4 * totalPixels];
    ghost var packed := packedMask[..];
    for i := 0 to totalPixels
      invariant i <= 8 * packedMask.Length
      invariant forall k :: 0 <= k < 4 * i ==> bitmap[k] == PixelValue(packed, k / 4)
    {
      var byteIndex := i / 8;
      var bitIndex := i % 8;
      if byteIndex >= packedMask.Length {
        assert totalPixels > 8 * packedMask.Length;
        return Err(IndexOutOfRange);
      }
      var isOn := BitOf(packedMask[byteIndex], bitIndex);
      var color: bv8 := if isOn then 255 else 0;
      var offset := i * 4;
      assert offset + 4 <= bitmap.Length;
      ghost var before := bitmap[..];
      bitmap[offset + 0] := color;
      bitmap[offset + 1] := color;
      bitmap[offset + 2] := color;
      bitmap[offset + 3] := color;
      assert bitmap[..] == before[offset := color][offset + 1 := color][offset + 2 := color][offset + 3 := color];
      PaintPixelBytes(before, bitmap[..], packed, i);
    }
    BgraFromBytes(bitmap[..], packed, totalPixels);
    r := Ok(bitmap);
  }

  // ---------------------------------------------------------------------------
  // The mask canvas
  // ---------------------------------------------------------------------------

  /** Math.Floor followed by a cast to int. */
  function Floor(x: real): (r: int)
    ensures r as real <= x < r as real + 1.0
  {
    x.Floor
  }

  /** Math.Ceiling followed by a cast to int. */
  function Ceil(x: real): (r: int)
    ensures r as real - 1.0 < x <= r as real
  {
    -((-x).Floor)
  }

  /** The clamp applied to one rounded edge: Math.Clamp(edge, 0, extent - 1), which throws when extent < 1. */
  function ClampToMask(edge: int, extent: int): (r: Result<int>)
    ensures r.Err? <==> extent < 1
    ensures r.Ok? ==> 0 <= r.value < extent && (0 <= edge < extent ==> r.value == edge)
  {
    if extent < 1 then Err(ArgumentError) else Ok(Clamp(edge, 0, extent - 1))
  }

  /** The box as the mask sees it, from edges already multiplied by the scaling factors. */
  function DownscaleEdges(left: real, top: real, right: real, bottom: real, maskWidth: int, maskHeight: int): Result<RectI>
  {
    if maskWidth < 1 || maskHeight < 1 then Err(ArgumentError)
    else
      Ok(RectI(Clamp(Floor(left), 0, maskWidth - 1), Clamp(Floor(top), 0, maskHeight - 1),
               Clamp(Ceil(right), 0, maskWidth - 1), Clamp(Ceil(bottom), 0, maskHeight - 1)))
  }

  /**
   * DownscaleBoundingBoxToSegmentationOutput: the box scaled to the mask's
   * resolution, outward (floor on the near edges, ceiling on the far ones),
   * then clamped to the mask. Math.Clamp throws when the mask has no row or
   * no column, because its upper bound drops below 0.
   */
  function DownscaleBox(box: RectF, scaleW: real, scaleH: real, maskWidth: int, maskHeight: int): (r: Result<RectI>)
    ensures r.Err? <==> maskWidth < 1 || maskHeight < 1
    ensures r.Err? ==> r.error == ArgumentError
    ensures r.Ok? ==>
              0 <= r.value.left < maskWidth && 0 <= r.value.right < maskWidth &&
              0 <= r.value.top < maskHeight && 0 <= r.value.bottom < maskHeight
  {
    DownscaleEdges(box.left * scaleW, box.top * scaleH, box.right * scaleW, box.bottom * scaleH, maskWidth, maskHeight)
  }

  /** One axis: a near edge rounded down and a far edge rounded up, both clamped to [0, hi]. */
  lemma OutwardEdges(near: real, far: real, hi: int)
    requires hi >= 0
    ensures near <= far ==> Clamp(Floor(near), 0, hi) <= Clamp(Ceil(far), 0, hi)
    ensures 0.0 <= near <= far <= hi as real ==>
              near - 1.0 < Clamp(Floor(near), 0, hi) as real <= near &&
              far <= Clamp(Ceil(far), 0, hi) as real < far + 1.0
  {
    if 0.0 <= near <= far <= hi as real {
      assert 0 <= Floor(near) <= hi;
      assert 0 <= Ceil(far) <= hi;
    }
  }

  /** Scaling by a non-negative factor keeps the order of two coordinates. */
  lemma ScaleMonotone(a: real, b: real, s: real)
    requires a <= b && s >= 0.0
    ensures a * s <= b * s
  {
    assert b * s - a * s == (b - a) * s;
  }

  /**
   * Edges that lie inside the mask are covered by the downscaled box, which
   * overshoots each of them by less than a pixel.
   */
  lemma DownscaleCovers(left: real, top: real, right: real, bottom: real, maskWidth: int, maskHeight: int)
    requires maskWidth >= 1 && maskHeight >= 1
    requires 0.0 <= left <= right <= (maskWidth - 1) as real
    requires 0.0 <= top <= bottom <= (maskHeight - 1) as real
    ensures var d := DownscaleEdges(left, top, right, bottom, maskWidth, maskHeight).value;
              left - 1.0 < d.left as real <= left && top - 1.0 < d.top as real <= top &&
              right <= d.right as real < right + 1.0 && bottom <= d.bottom as real < bottom + 1.0
  {
    OutwardEdges(left, right, maskWidth - 1);
    OutwardEdges(top, bottom, maskHeight - 1);
  }

  /**
   * Ordered edges downscale to a well-formed box, the rectangle
   * ExtractSubset crops; with non-negative scaling factors the edges of a
   * well-formed box stay ordered (ScaleMonotone).
   */
  lemma DownscaleEdgesWellFormed(left: real, top: real, right: real, bottom: real, maskWidth: int, maskHeight: int)
    requires maskWidth >= 1 && maskHeight >= 1 && left <= right && top <= bottom
    ensures DownscaleEdges(left, top, right, bottom, maskWidth, maskHeight).value.WellFormed()
  {
    OutwardEdges(left, right, maskWidth - 1);
    OutwardEdges(top, bottom, maskHeight - 1);
  }

  /** Offset of mask weight m: BoundingBoxIndex + predictions * elements + m * predictions. */
  function MaskOffset(boxIndex: int, predictions: int, elements: int, m: int): int
  {
    boxIndex + predictions * elements + m * predictions
  }

  /**
   * Whether GetMaskWeightsFromBoundingBoxArea completes: every channel has a
   * slot among the 32 weights and its offset lies inside the output tensor.
   */
  predicate WeightsReadable(output: seq<real>, boxIndex: int, predictions: int, elements: int, channels: int)
  {
    channels <= 32 &&
    forall m :: 0 <= m < channels ==> 0 <= MaskOffset(boxIndex, predictions, elements, m) < |output|
  }

  /** The 32 mask weights of a box: channel m read at its offset, the channels beyond the model's left at 0. */
  function MaskWeights(output: seq<real>, boxIndex: int, predictions: int, elements: int, channels: int): (w: seq<real>)
    requires WeightsReadable(output, boxIndex, predictions, elements, channels)
    ensures |w| == 32
    ensures forall m :: 0 <= m < channels ==> w[m] == output[MaskOffset(boxIndex, predictions, elements, m)]
    ensures forall m :: channels <= m < 32 && 0 <= m ==> w[m] == 0.0
  {
    seq(32, m requires 0 <= m < 32 => if m < channels then output[MaskOffset(boxIndex, predictions, elements, m)] else 0.0)
  }

  /**
   * GetMaskWeightsFromBoundingBoxArea: a zeroed MaskWeights32 filled channel
   * by channel, the offset advancing by the prediction count. Channel 32 or
   * an offset outside the tensor throws IndexOutOfRangeException.
   */
  method GetMaskWeightsFromBoundingBoxArea(output: seq<real>, boxIndex: int, predictions: int, elements: int, channels: int)
    returns (r: Result<seq<real>>)
    ensures r.Ok? <==> WeightsReadable(output, boxIndex, predictions, elements, channels)
    ensures r.Ok? ==> r.value == MaskWeights(output, boxIndex, predictions, elements, channels)
    ensures r.Err? ==> r.error == IndexOutOfRange
  {
    var maskWeights := new real[32](_ => 0.0);
    var maskOffset := boxIndex + predictions * elements;
    var m := 0;
    while m < channels
      invariant 0 <= m <= 32 && m <= Max(channels, 0)
      invariant channels > 0 ==> maskOffset == MaskOffset(boxIndex, predictions, elements, m)
      invariant channels > 0 ==> forall k :: 0 <= k < m ==> 0 <= MaskOffset(boxIndex, predictions, elements, k) < |output|
      invariant channels > 0 ==> forall k :: 0 <= k < m ==> maskWeights[k] == output[MaskOffset(boxIndex, predictions, elements, k)]
      invariant forall k :: m <= k < 32 ==> maskWeights[k] == 0.0
      decreases channels - m
    {
      if m >= 32 || maskOffset < 0 || maskOffset >= |output| {
        return Err(IndexOutOfRange);
      }
      maskWeights[m] := output[maskOffset];
      m := m + 1;
      maskOffset := maskOffset + predictions;
    }
    assert WeightsReadable(output, boxIndex, predictions, elements, channels);
    forall k | 0 <= k < 32
      ensures maskWeights[k] == MaskWeights(output, boxIndex, predictions, elements, channels)[k]
    {
      if k < channels {
        assert k < m;
      }
    }
    r := Ok(maskWeights[..]);
  }

  /** Index of prototype plane p at pixel offset `offset`, the planes being `plane` values apart. */
  function PlaneIndex(offset: int, plane: int, p: int): int
  {
    offset + p * plane
  }

  lemma MulMonotone(a: int, b: int, c: int)
    requires a <= b && c >= 0
    ensures a * c <= b * c
  {
    assert b * c - a * c == (b - a) * c;
  }

  /**
   * The reads of the pixel at `offset` do not throw: its planes climb from
   * the offset, so they all lie inside the tensor when the 32nd does.
   */
  predicate PixelReadable(output: seq<real>, offset: int, plane: int)
  {
    0 <= offset && 0 <= plane && PlaneIndex(offset, plane, 31) < |output|
  }

  /** Plane p of a readable pixel lies inside the tensor; a plane outside it makes the pixel unreadable. */
  lemma PlaneReadable(output: seq<real>, offset: int, plane: int, p: int)
    requires 0 <= p < 32
    ensures PixelReadable(output, offset, plane) ==> 0 <= PlaneIndex(offset, plane, p) < |output|
  {
    if PixelReadable(output, offset, plane) {
      MulMonotone(0, p, plane);
      MulMonotone(p, 31, plane);
    }
  }

  /** Every plane of a readable pixel lies inside the tensor. */
  lemma ReadablePlanes(output: seq<real>, offset: int, plane: int)
    requires PixelReadable(output, offset, plane)
    ensures forall p :: 0 <= p < 32 ==> 0 <= PlaneIndex(offset, plane, p) < |output|
  {
    forall p | 0 <= p < 32
      ensures 0 <= PlaneIndex(offset, plane, p) < |output|
    {
      PlaneReadable(output, offset, plane, p);
    }
  }

  /** With the whole tensor of 32 planes present every pixel of the mask can be read. */
  lemma FullTensorReadable(output: seq<real>, k: int, plane: int)
    requires 0 <= k < plane && |output| >= 32 * plane
    ensures PixelReadable(output, k, plane)
  {
  }

  /**
   * The pixel weight before the sigmoid: the first n prototype planes at
   * `offset`, each times its mask weight, summed in plane order.
   */
  function PixelWeight(output: seq<real>, weights: seq<real>, offset: int, plane: int, n: int): real
    requires 0 <= n <= |weights|
    requires forall p :: 0 <= p < n ==> 0 <= PlaneIndex(offset, plane, p) < |output|
  {
    if n == 0 then 0.0
    else PixelWeight(output, weights, offset, plane, n - 1) + output[PlaneIndex(offset, plane, n - 1)] * weights[n - 1]
  }

  /**
   * The inner loop of ApplySegmentationPixelMask: 32 products summed while
   * the offset steps one plane at a time. A plane outside the tensor throws
   * IndexOutOfRangeException from the span indexer.
   */
  method ComputePixelWeight(output: seq<real>, weights: seq<real>, offset: int, plane: int) returns (r: Result<real>)
    requires |weights| == 32 && plane >= 0
    ensures r.Ok? <==> PixelReadable(output, offset, plane)
    ensures r.Ok? ==> forall p :: 0 <= p < 32 ==> 0 <= PlaneIndex(offset, plane, p) < |output|
    ensures r.Ok? ==> r.value == PixelWeight(output, weights, offset, plane, 32)
    ensures r.Err? ==> r.error == IndexOutOfRange
  {
    var w := 0.0;
    var o := offset;
    for p := 0 to 32
      invariant o == PlaneIndex(offset, plane, p)
      invariant forall q :: 0 <= q < p ==> 0 <= PlaneIndex(offset, plane, q) < |output|
      invariant w == PixelWeight(output, weights, offset, plane, p)
    {
      PlaneReadable(output, offset, plane, p);
      if o < 0 || o >= |output| {
        return Err(IndexOutOfRange);
      }
      w := w + output[o] * weights[p];
      o := o + plane;
    }
    r := Ok(w);
  }

  /** The sigmoid, left as a parameter: any function into [0, 1]. */
  ghost predicate UnitValued(sigmoid: real -> real)
  {
    forall x :: 0.0 <= sigmoid(x) <= 1.0
  }

  /** `(byte)(weight * 255)` for a weight in [0, 1]: truncation toward zero. */
  function ToByte(weight: real): (b: bv8)
    requires 0.0 <= weight <= 1.0
    ensures b as int as real <= weight * 255.0 < b as int as real + 1.0
  {
    var t := Trunc(weight * 255.0);
    assert 0 <= t < 256;
    ByteOf(t)
  }

  /** An integer in [0, 255] as a byte, counted up one at a time so the solver never converts an integer to bits. */
  function ByteOf(t: int): (b: bv8)
    requires 0 <= t < 256
    ensures b as int == t
    decreases t
  {
    if t == 0 then 0
    else
      var below := ByteOf(t - 1);
      assert below as int < 255;
      below + 1
  }

  /** The value written at mask pixel k of a mask with `plane` pixels. */
  function MaskPixel(output: seq<real>, weights: seq<real>, sigmoid: real -> real, plane: int, k: int): bv8
    requires |weights| == 32 && PixelReadable(output, k, plane)
    requires UnitValued(sigmoid)
  {
    ReadablePlanes(output, k, plane);
    ToByte(sigmoid(PixelWeight(output, weights, k, plane, 32)))
  }

  /** Pixel k of a mask `width` pixels wide lies in the (inclusive) region. */
  predicate InRegion(k: int, width: int, region: RectI)
    requires width >= 1
  {
    region.left <= k % width <= region.right && region.top <= k / width <= region.bottom
  }

  /**
   * The mask canvas after the pixel-mask write: the pixels of the region
   * whose planes can be read painted, every other pixel as it was. With the
   * whole tensor present that is the whole region; otherwise the write
   * stops at the first pixel it cannot read, and the later ones cannot be
   * read either.
   */
  function MaskCanvas(before: seq<bv8>, region: RectI, output: seq<real>, weights: seq<real>, sigmoid: real -> real, width: int): (r: seq<bv8>)
    requires width >= 1 && |weights| == 32
    requires UnitValued(sigmoid)
    ensures |r| == |before|
  {
    seq(|before|, k requires 0 <= k < |before| =>
      if InRegion(k, width, region) && PixelReadable(output, k, |before|)
      then MaskPixel(output, weights, sigmoid, |before|, k) else before[k])
  }

  /** The write throws exactly when some pixel of the region cannot be read. */
  ghost predicate RegionReadable(size: int, region: RectI, output: seq<real>, width: int)
    requires width >= 1
  {
    forall k :: 0 <= k < size && InRegion(k, width, region) ==> PixelReadable(output, k, size)
  }

  /** Row y, column x of a mask `width` pixels wide is pixel y * width + x. */
  lemma RowIndex(y: int, x: int, width: int)
    requires 0 <= x < width && y >= 0
    ensures (y * width + x) / width == y && (y * width + x) % width == x
  {
    var k := y * width + x;
    var q, m := k / width, k % width;
    assert width * (q - y) == x - m;
    if q > y {
      MulMonotone(1, q - y, width);
    } else if q < y {
      MulMonotone(1, y - q, width);
    }
  }

  /** A pixel is determined by its row and column. */
  lemma SameCell(k: int, width: int)
    requires width >= 1
    ensures k == (k / width) * width + k % width
  {
  }

  /** The pixel (x, y) of the canvas: painted inside the region, untouched outside it. */
  lemma MaskCanvasPixel(before: seq<bv8>, region: RectI, output: seq<real>, weights: seq<real>, sigmoid: real -> real,
                        width: int, height: int, x: int, y: int)
    requires width >= 1 && height >= 0 && |before| == width * height
    requires |weights| == 32 && |output| >= 32 * |before| && UnitValued(sigmoid)
    requires 0 <= x < width && 0 <= y < height
    ensures 0 <= y * width + x < |before|
    ensures var k := y * width + x;
              var canvas := MaskCanvas(before, region, output, weights, sigmoid, width);
              canvas[k] == if region.left <= x <= region.right && region.top <= y <= region.bottom
                           then MaskPixel(output, weights, sigmoid, |before|, k)
                           else before[k]
  {
    RowIndex(y, x, width);
    MulMonotone(y + 1, height, width);
    FullTensorReadable(output, y * width + x, |before|);
  }

  /** With the whole tensor present no pixel of the region throws. */
  lemma FullTensorRegionReadable(size: int, region: RectI, output: seq<real>, width: int)
    requires width >= 1 && size >= 0 && |output| >= 32 * size
    ensures RegionReadable(size, region, output, width)
  {
    forall k | 0 <= k < size && InRegion(k, width, region)
      ensures PixelReadable(output, k, size)
    {
      FullTensorReadable(output, k, size);
    }
  }

  /** A pixel in a later row comes after every pixel of an earlier row. */
  lemma LaterRow(k0: int, k: int, width: int)
    requires width >= 1 && 0 <= k0 && 0 <= k && k0 / width < k / width
    ensures k0 < k
  {
    SameCell(k0, width);
    SameCell(k, width);
    MulMonotone(k0 / width + 1, k / width, width);
  }

  /** Pixel (x, y) lies inside a canvas that holds row y whole. */
  lemma CellInRow(y: int, x: int, width: int, size: int)
    requires 0 <= x < width && 0 <= y && (y + 1) * width <= size
    ensures 0 <= x + y * width < size
  {
    MulMonotone(0, y, width);
  }

  /** Widening the painted columns of row y to x includes exactly the pixel at (x, y). */
  lemma RowStep(k: int, y: int, x: int, startX: int, width: int)
    requires width >= 1 && 0 <= y && 0 <= startX <= x < width && 0 <= k
    ensures (k / width == y && startX <= k % width < x + 1) <==>
              ((k / width == y && startX <= k % width < x) || k == x + y * width)
  {
    RowIndex(y, x, width);
    if k / width == y && k % width == x {
      SameCell(k, width);
    }
  }

  /**
   * One row of ApplySegmentationPixelMask: columns startX..endX of row y
   * painted, nothing else touched. A pixel whose planes cannot be read
   * throws, and the row's later pixels, which cannot be read either, stay
   * as they were.
   */
  method PaintRow(bitmap: array<bv8>, y: int, startX: int, endX: int, width: int,
                  output: seq<real>, weights: seq<real>, sigmoid: real -> real)
    returns (r: Result<()>)
    requires width >= 1 && 0 <= y && 0 <= startX && endX < width && (y + 1) * width <= bitmap.Length
    requires |weights| == 32 && UnitValued(sigmoid)
    modifies bitmap
    ensures r.Ok? <==> forall k :: 0 <= k < bitmap.Length && k / width == y && startX <= k % width <= endX ==>
                                     PixelReadable(output, k, bitmap.Length)
    ensures r.Err? ==> r.error == IndexOutOfRange
    ensures forall k :: 0 <= k < bitmap.Length ==>
              bitmap[k] == if k / width == y && startX <= k % width <= endX && PixelReadable(output, k, bitmap.Length)
                           then MaskPixel(output, weights, sigmoid, bitmap.Length, k) else old(bitmap[k])
  {
    var x := startX;
    while x <= endX
      invariant startX <= x <= Max(startX, endX + 1)
      invariant forall k :: 0 <= k < bitmap.Length && k / width == y && startX <= k % width < x ==>
                  PixelReadable(output, k, bitmap.Length)
      invariant forall k :: 0 <= k < bitmap.Length ==>
                  bitmap[k] == if k / width == y && startX <= k % width < x
                               then MaskPixel(output, weights, sigmoid, bitmap.Length, k) else old(bitmap[k])
    {
      var offset := x + y * width;
      CellInRow(y, x, width, bitmap.Length);
      RowIndex(y, x, width);
      var pixelWeight := ComputePixelWeight(output, weights, offset, bitmap.Length);
      if pixelWeight.Err? {
        UnreadFromHere(bitmap.Length, y, x, endX, width, output);
        return Err(IndexOutOfRange);
      }
      forall k | 0 <= k < bitmap.Length && k / width == y && startX <= k % width < x + 1
        ensures PixelReadable(output, k, bitmap.Length)
      {
        RowStep(k, y, x, startX, width);
      }
      ghost var prev := bitmap[..];
      bitmap[offset] := ToByte(sigmoid(pixelWeight.value));
      forall k | 0 <= k < bitmap.Length
        ensures bitmap[k] == if k / width == y && startX <= k % width < x + 1
                             then MaskPixel(output, weights, sigmoid, bitmap.Length, k) else old(bitmap[k])
      {
        RowStep(k, y, x, startX, width);
        if k != offset {
          assert bitmap[k] == prev[k];
        }
      }
      x := x + 1;
    }
    r := Ok(());
  }

  /** Once pixel (x, y) cannot be read, neither can the rest of row y. */
  lemma UnreadFromHere(size: int, y: int, x: int, endX: int, width: int, output: seq<real>)
    requires width >= 1 && 0 <= y && 0 <= x && size >= 0
    requires !PixelReadable(output, x + y * width, size)
    ensures forall k :: 0 <= k < size && k / width == y && x <= k % width ==> !PixelReadable(output, k, size)
  {
    forall k | 0 <= k < size && k / width == y && x <= k % width
      ensures !PixelReadable(output, k, size)
    {
      SameCell(k, width);
    }
  }

  /**
   * ApplySegmentationPixelMask on a Gray8 canvas of maskWidth * maskHeight
   * bytes, one row of maskWidth bytes after another: every pixel of the
   * downscaled box gets the sigmoid of its weighted prototype sum as a byte,
   * and every other pixel keeps its value. The downscale throws before
   * anything is written when the mask has no row or no column. A prototype
   * tensor shorter than 32 planes throws IndexOutOfRangeException at the
   * first pixel of the box whose last plane lies past its end, after the
   * pixels before it have been written.
   */
  method ApplySegmentationPixelMask(bitmap: array<bv8>, bbox: RectF, scaleW: real, scaleH: real,
                                    maskWidth: int, maskHeight: int,
                                    output: seq<real>, weights: seq<real>, sigmoid: real -> real)
    returns (r: Result<()>)
    requires maskWidth >= 0 && maskHeight >= 0 && bitmap.Length == maskWidth * maskHeight
    requires |weights| == 32 && UnitValued(sigmoid)
    modifies bitmap
    ensures var d := DownscaleBox(bbox, scaleW, scaleH, maskWidth, maskHeight);
              d.Err? ==> r == Err(ArgumentError) && bitmap[..] == old(bitmap[..])
    ensures var d := DownscaleBox(bbox, scaleW, scaleH, maskWidth, maskHeight);
              d.Ok? ==> (r.Ok? <==> RegionReadable(bitmap.Length, d.value, output, maskWidth)) &&
                        (r.Err? ==> r.error == IndexOutOfRange) &&
                        bitmap[..] == MaskCanvas(old(bitmap[..]), d.value, output, weights, sigmoid, maskWidth)
  {
    var scaled := DownscaleBox(bbox, scaleW, scaleH, maskWidth, maskHeight);
    if scaled.Err? {
      return Err(scaled.error);
    }
    var box := scaled.value;
    // DownscaleBox has already clamped the box into the mask, so these clamps keep its edges.
    var startX := Max(0, box.left);
    var endX := Min(maskWidth - 1, box.right);
    var startY := Max(0, box.top);
    var endY := Min(maskHeight - 1, box.bottom);
    assert RectI(startX, startY, endX, endY) == box;
    r := PaintRegion(bitmap, RectI(startX, startY, endX, endY), maskWidth, maskHeight, output, weights, sigmoid);
  }

  /**
   * The canvas after the rows of the region down to lastRow: those rows'
   * pixels could all be read and are painted, every other pixel is as it
   * was before.
   */
  ghost predicate PaintedThrough(canvas: seq<bv8>, before: seq<bv8>, region: RectI, lastRow: int, width: int,
                                 output: seq<real>, weights: seq<real>, sigmoid: real -> real)
    requires width >= 1 && |weights| == 32 && UnitValued(sigmoid)
  {
    |canvas| == |before| &&
    (forall k :: 0 <= k < |before| && InRegion(k, width, region.(bottom := lastRow)) ==>
       PixelReadable(output, k, |before|)) &&
    forall k :: 0 <= k < |before| ==>
      canvas[k] == if InRegion(k, width, region.(bottom := lastRow))
                   then MaskPixel(output, weights, sigmoid, |before|, k) else before[k]
  }

  /**
   * The two loops over the rows and columns of a region inside the mask:
   * MaskCanvas of the canvas before, and an error exactly when some pixel of
   * the region cannot be read.
   */
  method PaintRegion(bitmap: array<bv8>, region: RectI, width: int, height: int,
                     output: seq<real>, weights: seq<real>, sigmoid: real -> real)
    returns (r: Result<()>)
    requires width >= 1 && height >= 0 && bitmap.Length == width * height
    requires 0 <= region.left && region.right < width && 0 <= region.top && region.bottom < height
    requires |weights| == 32 && UnitValued(sigmoid)
    modifies bitmap
    ensures r.Ok? <==> RegionReadable(bitmap.Length, region, output, width)
    ensures r.Err? ==> r.error == IndexOutOfRange
    ensures bitmap[..] == MaskCanvas(old(bitmap[..]), region, output, weights, sigmoid, width)
  {
    ghost var before := bitmap[..];
    var y := region.top;
    while y <= region.bottom
      invariant region.top <= y <= Max(region.top, region.bottom + 1)
      invariant PaintedThrough(bitmap[..], before, region, y - 1, width, output, weights, sigmoid)
    {
      var row := PaintNextRow(bitmap, region, y, width, height, output, weights, sigmoid, before);
      if row.Err? {
        return Err(IndexOutOfRange);
      }
      y := y + 1;
    }
    PaintedAll(bitmap[..], before, region, width, output, weights, sigmoid);
    r := Ok(());
  }

  /** One pass of PaintRegion's row loop: row y painted, or the write stopped in it. */
  method PaintNextRow(bitmap: array<bv8>, region: RectI, y: int, width: int, height: int,
                      output: seq<real>, weights: seq<real>, sigmoid: real -> real, ghost before: seq<bv8>)
    returns (r: Result<()>)
    requires width >= 1 && height >= 0 && bitmap.Length == width * height
    requires 0 <= region.left && region.right < width && 0 <= region.top <= y <= region.bottom < height
    requires |weights| == 32 && UnitValued(sigmoid)
    requires PaintedThrough(bitmap[..], before, region, y - 1, width, output, weights, sigmoid)
    modifies bitmap
    ensures r.Ok? ==> PaintedThrough(bitmap[..], before, region, y, width, output, weights, sigmoid)
    ensures r.Err? ==> r.error == IndexOutOfRange && !RegionReadable(bitmap.Length, region, output, width) &&
                       bitmap[..] == MaskCanvas(before, region, output, weights, sigmoid, width)
  {
    MulMonotone(y + 1, height, width);
    ghost var painted := bitmap[..];
    r := PaintRow(bitmap, y, region.left, region.right, width, output, weights, sigmoid);
    if r.Err? {
      StoppedCanvas(before, painted, bitmap[..], region, y, width, output, weights, sigmoid);
      return;
    }
    forall k | 0 <= k < bitmap.Length
      ensures InRegion(k, width, region.(bottom := y)) <==>
                InRegion(k, width, region.(bottom := y - 1)) || (k / width == y && region.left <= k % width <= region.right)
    {
    }
  }

  /** Once every row of the region is painted the canvas is MaskCanvas and the region was readable. */
  lemma PaintedAll(canvas: seq<bv8>, before: seq<bv8>, region: RectI, width: int,
                   output: seq<real>, weights: seq<real>, sigmoid: real -> real)
    requires width >= 1 && |weights| == 32 && UnitValued(sigmoid)
    requires PaintedThrough(canvas, before, region, region.bottom, width, output, weights, sigmoid)
    ensures RegionReadable(|before|, region, output, width)
    ensures canvas == MaskCanvas(before, region, output, weights, sigmoid, width)
  {
    assert region.(bottom := region.bottom) == region;
    var c := MaskCanvas(before, region, output, weights, sigmoid, width);
    assert forall k :: 0 <= k < |before| ==> canvas[k] == c[k];
  }

  /**
   * The write stopped in row y: some pixel of that row in the region cannot
   * be read, so no pixel of a later row can be, the region is not readable,
   * and the canvas as left is the MaskCanvas of the one before the write.
   */
  lemma StoppedCanvas(before: seq<bv8>, painted: seq<bv8>, after: seq<bv8>, region: RectI, y: int, width: int,
                      output: seq<real>, weights: seq<real>, sigmoid: real -> real)
    requires width >= 1 && 0 <= region.top <= y <= region.bottom && |before| == |painted| == |after|
    requires |weights| == 32 && UnitValued(sigmoid)
    requires forall k :: 0 <= k < |before| && InRegion(k, width, region.(bottom := y - 1)) ==>
               PixelReadable(output, k, |before|)
    requires forall k :: 0 <= k < |before| ==>
               painted[k] == if InRegion(k, width, region.(bottom := y - 1))
                             then MaskPixel(output, weights, sigmoid, |before|, k) else before[k]
    requires forall k :: 0 <= k < |before| ==>
               after[k] == if k / width == y && region.left <= k % width <= region.right &&
                              PixelReadable(output, k, |before|)
                           then MaskPixel(output, weights, sigmoid, |before|, k) else painted[k]
    requires !forall k :: 0 <= k < |before| && k / width == y && region.left <= k % width <= region.right ==>
                            PixelReadable(output, k, |before|)
    ensures !RegionReadable(|before|, region, output, width)
    ensures after == MaskCanvas(before, region, output, weights, sigmoid, width)
  {
    var size := |before|;
    var k0 :| 0 <= k0 < size && k0 / width == y && region.left <= k0 % width <= region.right &&
              !PixelReadable(output, k0, size);
    var canvas := MaskCanvas(before, region, output, weights, sigmoid, width);
    forall k | 0 <= k < size
      ensures after[k] == canvas[k]
    {
      if k / width > y {
        LaterRow(k0, k, width);
      }
    }
  }
}
