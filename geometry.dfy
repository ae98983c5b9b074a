/** Integer rectangles with the semantics of OpenCV's cv::Rect: the
    intersection operator `&`, the enclosing-rectangle operator `|`, area,
    and the overlap ratio that non-maximum suppression compares against its
    threshold. */
module Geometry {

  /** cv::Rect: top-left corner (x, y), width and height, all integers. */
  datatype Rect = Rect(x: int, y: int, width: int, height: int)

  /** The all-zero rectangle cv::Rect(). The model returns it for every
      empty intersection; OpenCV may instead return a zero-width or
      zero-height rectangle for boxes that only touch, which has the same
      area (0) and contains the same points (none). */
  const EmptyRect := Rect(0, 0, 0, 0)

  /** cv::Rect::empty(): no positive width or no positive height. */
  predicate IsEmpty(r: Rect) {
    r.width <= 0 || r.height <= 0
  }

  /** cv::Rect::area(). */
  function Area(r: Rect): int {
    r.width * r.height
  }

  /** cv::Rect::contains for the integer point (px, py): half-open on the right and bottom. */
  predicate Contains(r: Rect, px: int, py: int) {
    r.x <= px < r.x + r.width && r.y <= py < r.y + r.height
  }

  /** `outer` spans `inner` on both axes. */
  predicate Covers(outer: Rect, inner: Rect) {
    && outer.x <= inner.x && inner.x + inner.width <= outer.x + outer.width
    && outer.y <= inner.y && inner.y + inner.height <= outer.y + outer.height
  }

  function Min(a: int, b: int): int { if a < b then a else b }
  function Max(a: int, b: int): int { if a < b then b else a }

  /** cv::Rect operator&: the common part of two rectangles, normalised to
      the all-zero rectangle when the two do not overlap or one is empty.
      It agrees with OpenCV on the area and on the contained points, the
      only things the suppression step uses. */
  function Intersect(a: Rect, b: Rect): Rect {
    if IsEmpty(a) || IsEmpty(b) then EmptyRect
    else
      var x1 := Max(a.x, b.x);
      var y1 := Max(a.y, b.y);
      var w := Min(a.x + a.width, b.x + b.width) - x1;
      var h := Min(a.y + a.height, b.y + b.height) - y1;
      if w <= 0 || h <= 0 then EmptyRect else Rect(x1, y1, w, h)
  }

  /** cv::Rect operator|: the smallest rectangle enclosing both; an empty
      operand is ignored (the other one is returned as it is). */
  function Enclose(a: Rect, b: Rect): Rect {
    if IsEmpty(a) then b
    else if IsEmpty(b) then a
    else
      var x1 := Min(a.x, b.x);
      var y1 := Min(a.y, b.y);
      Rect(x1, y1, Max(a.x + a.width, b.x + b.width) - x1, Max(a.y + a.height, b.y + b.height) - y1)
  }

  /** The intersection holds exactly the points common to both rectangles,
      and the model's empty intersection is the all-zero rectangle. */
  lemma IntersectIsCommonPart(a: Rect, b: Rect)
    ensures forall px, py :: Contains(Intersect(a, b), px, py) <==> Contains(a, px, py) && Contains(b, px, py)
    ensures IsEmpty(Intersect(a, b)) ==> Intersect(a, b) == EmptyRect
    ensures Area(Intersect(a, b)) >= 0
  {
  }

  /** For two non-empty rectangles the enclosing rectangle spans both and
      is spanned by every rectangle that spans both; an empty operand
      yields the other operand unchanged. */
  lemma EncloseIsSmallest(a: Rect, b: Rect)
    ensures IsEmpty(a) ==> Enclose(a, b) == b
    ensures !IsEmpty(a) && IsEmpty(b) ==> Enclose(a, b) == a
    ensures !IsEmpty(a) && !IsEmpty(b) ==>
              && Covers(Enclose(a, b), a) && Covers(Enclose(a, b), b)
              && (forall q :: Covers(q, a) && Covers(q, b) ==> Covers(q, Enclose(a, b)))
              && Area(Enclose(a, b)) > 0
  {
    if !IsEmpty(a) && !IsEmpty(b) {
      var e := Enclose(a, b);
      MulMonotone(1, 1, e.width, e.height);
    }
  }

  /** The overlap ratio used by the detector's suppression step: the area of
      the intersection over the area of the enclosing rectangle, and 0 when
      the enclosing rectangle has no positive area. */
  function IoU(a: Rect, b: Rect): real {
    var enclosing := Area(Enclose(a, b));
    if enclosing > 0 then Area(Intersect(a, b)) as real / enclosing as real else 0.0
  }

  /** The suppression test `iou > nms_threshold`. */
  predicate Overlaps(a: Rect, b: Rect, threshold: real) {
    IoU(a, b) > threshold
  }

  lemma MulMonotone(a: int, b: int, c: int, d: int)
    requires 0 <= a <= c && 0 <= b <= d
    ensures a * b <= c * d
  {
    assert a * b <= c * b;
    assert c * b <= c * d;
  }

  /** The overlap ratio does not depend on the order of its operands, even
      when both operands are empty and `|` returns a different one of them. */
  lemma IoUSymmetric(a: Rect, b: Rect)
    ensures IoU(a, b) == IoU(b, a)
  {
    assert Intersect(a, b) == Intersect(b, a);
    if IsEmpty(a) || IsEmpty(b) {
      IntersectIsCommonPart(a, b);
    } else {
      assert Enclose(a, b) == Enclose(b, a);
    }
  }

  /** Division by a positive real preserves a strict comparison. */
  lemma QuotientAbove(n: real, d: real, t: real)
    requires d > 0.0
    ensures n / d > t <==> n > t * d
  {
    var q := n / d;
    assert q * d == n;
    assert (q - t) * d == n - t * d;
    if q > t {
      assert (q - t) * d > 0.0;
    } else {
      assert (t - q) * d >= 0.0;
    }
  }

  /** Comparing the ratio against a threshold is the division-free test
      `intersection > threshold * enclosing` whenever the enclosing area is
      positive, and `0 > threshold` otherwise. */
  lemma OverlapsCrossMultiplied(a: Rect, b: Rect, threshold: real)
    ensures Overlaps(a, b, threshold) <==>
      var enclosing := Area(Enclose(a, b)) as real;
      if enclosing > 0.0 then Area(Intersect(a, b)) as real > threshold * enclosing else 0.0 > threshold
  {
    var enclosing := Area(Enclose(a, b)) as real;
    if enclosing > 0.0 {
      QuotientAbove(Area(Intersect(a, b)) as real, enclosing, threshold);
    }
  }

  /** The ratio always lies in [0, 1]. */
  lemma IoUBounds(a: Rect, b: Rect)
    ensures 0.0 <= IoU(a, b) <= 1.0
  {
    if IsEmpty(a) || IsEmpty(b) {
      assert Intersect(a, b) == EmptyRect;
      return;
    }
    var i := Intersect(a, b);
    var e := Enclose(a, b);
    IntersectIsCommonPart(a, b);
    EncloseIsSmallest(a, b);
    if !IsEmpty(i) {
      assert Contains(i, i.x, i.y);
      assert Contains(i, i.x + i.width - 1, i.y + i.height - 1);
      MulMonotone(i.width, i.height, e.width, e.height);
    }
    assert 0 <= Area(i) <= Area(e);
    QuotientAbove(Area(i) as real, Area(e) as real, 1.0);
    QuotientAbove(Area(i) as real, Area(e) as real, 0.0);
    QuotientAbove(-(Area(i) as real), Area(e) as real, 0.0);
  }

  /** A non-empty rectangle overlaps itself completely. */
  lemma IoUIdentical(a: Rect)
    requires !IsEmpty(a)
    ensures IoU(a, a) == 1.0
  {
    assert Intersect(a, a) == a;
    assert Enclose(a, a) == a;
    MulMonotone(1, 1, a.width, a.height);
    var n := Area(a) as real;
    assert n / n == 1.0;
  }

  /** Rectangles separated on either axis do not overlap at all. */
  lemma IoUSeparated(a: Rect, b: Rect)
    requires a.x + a.width <= b.x || b.x + b.width <= a.x || a.y + a.height <= b.y || b.y + b.height <= a.y
    ensures IoU(a, b) == 0.0
  {
    assert Intersect(a, b) == EmptyRect;
  }
}
