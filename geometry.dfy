// Rectangles of SkiaSharp (SKRectI, SKRect) and System.Drawing (RectangleF),
// and the intersection-over-union measure that the three generations of the
// library (Core/YoloCore, Data/YoloCore, Data/YoloBase) compute on them.

module Geometry {
  import opened Common

  /** SKRectI: integer edges. Width and Height are differences and may be negative. */
  datatype RectI = RectI(left: int, top: int, right: int, bottom: int) {
    function Width(): int { right - left }
    function Height(): int { bottom - top }

    /** SKRectI.MidX: left + Width / 2, the division truncating toward zero. */
    function MidX(): int { left + TruncDiv(Width(), 2) }
    function MidY(): int { top + TruncDiv(Height(), 2) }

    predicate WellFormed() { left <= right && top <= bottom }
  }

  /** SKRect: the same shape with float edges (the unscaled box of a detection). */
  datatype RectF = RectF(left: real, top: real, right: real, bottom: real)

  /** System.Drawing.RectangleF: origin and size. */
  datatype RectangleF = RectangleF(x: real, y: real, width: real, height: real)

  /** An integer point (SKPointI; the tail stores the same values as SKPoint). */
  datatype Point = Point(x: int, y: int)

  const EmptyRectI := RectI(0, 0, 0, 0)
  const EmptyRectangleF := RectangleF(0.0, 0.0, 0.0, 0.0)

  /** SKRectI.Create(x, y, width, height). */
  function CreateRectI(x: int, y: int, width: int, height: int): (r: RectI)
    ensures r.left == x && r.top == y && r.Width() == width && r.Height() == height
  {
    RectI(x, y, x + width, y + height)
  }

  /** The centre point SKPointI(MidX, MidY) of a box. */
  function Centre(r: RectI): Point
  {
    Point(r.MidX(), r.MidY())
  }

  /** SKRectI.IntersectsWith: strict overlap on both axes. */
  predicate IntersectsWith(a: RectI, b: RectI)
    ensures IntersectsWith(a, b) ==> IntersectsWithInclusive(a, b)
    ensures a.left < a.right && a.top < a.bottom && b.left < b.right && b.top < b.bottom ==>
              (IntersectsWith(a, b) <==> Intersect(a, b).Width() > 0 && Intersect(a, b).Height() > 0)
  {
    a.left < b.right && a.right > b.left && a.top < b.bottom && a.bottom > b.top
  }

  /** SKRectI.IntersectsWithInclusive: overlap or touching on both axes. */
  predicate IntersectsWithInclusive(a: RectI, b: RectI)
  {
    a.left <= b.right && a.right >= b.left && a.top <= b.bottom && a.bottom >= b.top
  }

  /** SKRectI.Intersect(a, b): the common part, or the empty rectangle when the boxes are apart. */
  function Intersect(a: RectI, b: RectI): (r: RectI)
    ensures IntersectsWithInclusive(a, b) && a.WellFormed() && b.WellFormed() ==>
              r.WellFormed() && a.left <= r.left && r.right <= a.right && a.top <= r.top && r.bottom <= a.bottom
    ensures !IntersectsWithInclusive(a, b) ==> r == EmptyRectI
  {
    if IntersectsWithInclusive(a, b) then
      RectI(Max(a.left, b.left), Max(a.top, b.top), Min(a.right, b.right), Min(a.bottom, b.bottom))
    else
      EmptyRectI
  }

  /** CalculateArea(SKRectI): Width * Height (32-bit overflow is not modelled). */
  function Area(r: RectI): int
  {
    r.Width() * r.Height()
  }

  /** RectangleF.Intersect: the common part, or RectangleF.Empty when the boxes are apart. */
  function IntersectF(a: RectangleF, b: RectangleF): (r: RectangleF)
    ensures r.width >= 0.0 && r.height >= 0.0
    ensures r != EmptyRectangleF ==> r.width <= a.width && r.width <= b.width && r.height <= a.height && r.height <= b.height
  {
    var x1 := MaxReal(a.x, b.x);
    var x2 := MinReal(a.x + a.width, b.x + b.width);
    var y1 := MaxReal(a.y, b.y);
    var y2 := MinReal(a.y + a.height, b.y + b.height);
    if x2 >= x1 && y2 >= y1 then RectangleF(x1, y1, x2 - x1, y2 - y1) else EmptyRectangleF
  }

  /** CalculateArea(RectangleF). */
  function AreaF(r: RectangleF): real
  {
    r.width * r.height
  }

  /**
   * The value of CalculateIoU: the early-return 0, or the float quotient
   * inter / union kept as its two operands, so that comparing it with a
   * threshold is exact (cross-multiplication) and a zero union yields what the
   * float division yields (+Inf, -Inf or NaN). Rounding is not modelled.
   */
  datatype IoU = Zero | Ratio(inter: real, union: real)

  /** The C# comparison `iou > t` for a finite threshold t. */
  predicate Exceeds(q: IoU, t: real)
  {
    match q
    case Zero => 0.0 > t
    case Ratio(n, d) =>
      if d > 0.0 then n > t * d        // n / d > t
      else if d < 0.0 then n < t * d   // dividing by a negative flips the comparison
      else n > 0.0                     // +Inf > t holds; -Inf and NaN compare false
  }

  /** A value of CalculateIoU that lies in [0, 1]. */
  predicate InUnitRange(q: IoU)
  {
    q.Zero? || 0.0 < q.inter <= q.union
  }

  /** The quotient intersection / (areaA + areaB - intersection). */
  function UnionRatio(inter: real, areaA: real, areaB: real): IoU
  {
    Ratio(inter, areaA + areaB - inter)
  }

  /** Core/YoloCore.CalculateIoU: strict-overlap guard, then intersection over union. */
  function IoUCore(a: RectI, b: RectI): (q: IoU)
    ensures !IntersectsWith(a, b) || Area(Intersect(a, b)) == 0 <==> q == Zero
    ensures q.Ratio? ==> q.inter == Area(Intersect(a, b)) as real &&
                         q.union == Area(a) as real + Area(b) as real - q.inter
  {
    if !IntersectsWith(a, b) then Zero
    else
      var inter := Area(Intersect(a, b));
      if inter == 0 then Zero else UnionRatio(inter as real, Area(a) as real, Area(b) as real)
  }

  /** Data/YoloCore.CalculateIoU: the same without the guard. */
  function IoUData(a: RectI, b: RectI): (q: IoU)
    ensures Area(Intersect(a, b)) == 0 <==> q == Zero
    ensures q.Ratio? ==> q.inter == Area(Intersect(a, b)) as real &&
                         q.union == Area(a) as real + Area(b) as real - q.inter
  {
    var inter := Area(Intersect(a, b));
    if inter == 0 then Zero else UnionRatio(inter as real, Area(a) as real, Area(b) as real)
  }

  /** Data/YoloBase.CalculateIoU on RectangleF. */
  function IoUBase(a: RectangleF, b: RectangleF): IoU
  {
    var inter := AreaF(IntersectF(a, b));
    if inter == 0.0 then Zero else UnionRatio(inter, AreaF(a), AreaF(b))
  }

  // ---------------------------------------------------------------------------
  // Properties of the three IoU measures
  // ---------------------------------------------------------------------------

  /** A value in [0, 1] never exceeds a threshold of 1 or more, and 0 exceeds exactly the negative thresholds. */
  lemma UnitRangeThreshold(q: IoU, t: real)
    requires InUnitRange(q)
    ensures t >= 1.0 ==> !Exceeds(q, t)
    ensures q.Zero? ==> (Exceeds(q, t) <==> t < 0.0)
  {
    if q.Ratio? && t >= 1.0 {
      assert q.union > 0.0;
      assert t * q.union >= q.union by {
        assert (t - 1.0) * q.union >= 0.0;
      }
    }
  }

  lemma IoUCoreSymmetric(a: RectI, b: RectI)
    ensures IoUCore(a, b) == IoUCore(b, a)
  {
    assert Intersect(a, b) == Intersect(b, a);
    assert Area(a) + Area(b) == Area(b) + Area(a);
  }

  lemma IoUDataSymmetric(a: RectI, b: RectI)
    ensures IoUData(a, b) == IoUData(b, a)
  {
    assert Intersect(a, b) == Intersect(b, a);
    assert Area(a) + Area(b) == Area(b) + Area(a);
  }

  lemma IoUCoreDisjoint(a: RectI, b: RectI)
    requires !IntersectsWith(a, b)
    ensures IoUCore(a, b) == Zero
  {
  }

  /** A product of two non-negative factors is bounded by the product of their bounds. */
  lemma ProductBound(w: int, h: int, bw: int, bh: int)
    requires 0 <= w <= bw && 0 <= h <= bh
    ensures 0 <= w * h <= bw * bh
  {
    assert w * h <= bw * h by {
      assert (bw - w) * h >= 0;
    }
    assert bw * h <= bw * bh by {
      assert bw * (bh - h) >= 0;
    }
  }

  lemma ProductBoundReal(w: real, h: real, bw: real, bh: real)
    requires 0.0 <= w <= bw && 0.0 <= h <= bh
    ensures 0.0 <= w * h <= bw * bh
  {
    assert w * h <= bw * h by {
      assert (bw - w) * h >= 0.0;
    }
    assert bw * h <= bw * bh by {
      assert bw * (bh - h) >= 0.0;
    }
  }

  /** For boxes of positive area the Core IoU lies in [0, 1], and is non-zero when the boxes overlap. */
  lemma IoUCoreUnitRange(a: RectI, b: RectI)
    requires a.Width() > 0 && a.Height() > 0 && b.Width() > 0 && b.Height() > 0
    ensures InUnitRange(IoUCore(a, b))
    ensures IntersectsWith(a, b) <==> IoUCore(a, b).Ratio?
  {
    if IntersectsWith(a, b) {
      var r := Intersect(a, b);
      assert r.left == Max(a.left, b.left) && r.right == Min(a.right, b.right);
      assert r.top == Max(a.top, b.top) && r.bottom == Min(a.bottom, b.bottom);
      assert 0 < r.Width() <= a.Width() && r.Width() <= b.Width();
      assert 0 < r.Height() <= a.Height() && r.Height() <= b.Height();
      ProductBound(r.Width(), r.Height(), a.Width(), a.Height());
      ProductBound(r.Width(), r.Height(), b.Width(), b.Height());
      assert Area(r) > 0 by {
        assert r.Width() * r.Height() > 0;
      }
    }
  }

  /**
   * On well-formed boxes the guard of the Core version changes nothing: boxes
   * that only touch have an intersection of zero area, so both versions give 0.
   */
  lemma IoUCoreAgreesWithData(a: RectI, b: RectI)
    requires a.WellFormed() && b.WellFormed()
    ensures IoUCore(a, b) == IoUData(a, b)
  {
    if !IntersectsWith(a, b) && IntersectsWithInclusive(a, b) {
      var r := Intersect(a, b);
      assert r.Width() == 0 || r.Height() == 0;
      assert Area(r) == 0;
    }
  }

  /** For boxes of positive size the YoloBase IoU lies in [0, 1]. */
  lemma IoUBaseUnitRange(a: RectangleF, b: RectangleF)
    requires a.width > 0.0 && a.height > 0.0 && b.width > 0.0 && b.height > 0.0
    ensures InUnitRange(IoUBase(a, b))
  {
    var r := IntersectF(a, b);
    if AreaF(r) != 0.0 {
      assert r != EmptyRectangleF;
      ProductBoundReal(r.width, r.height, a.width, a.height);
      ProductBoundReal(r.width, r.height, b.width, b.height);
    }
  }

  lemma IoUBaseSymmetric(a: RectangleF, b: RectangleF)
    ensures IoUBase(a, b) == IoUBase(b, a)
  {
    assert IntersectF(a, b) == IntersectF(b, a);
    assert AreaF(a) + AreaF(b) == AreaF(b) + AreaF(a);
  }
}
