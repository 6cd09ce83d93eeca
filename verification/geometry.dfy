/**
 * Plane geometry of the hit tests: squared distances, the point-to-segment
 * distance of the overlay, and integer pixel rectangles.
 */
module Geometry {
  import opened Numeric

  function DistSq(dx: real, dy: real): (d: real)
    ensures d >= 0.0
  {
    SqNonNeg(dx);
    SqNonNeg(dy);
    Sq(dx) + Sq(dy)
  }

  /**
   * The clamped projection parameter of `_pt_seg_dist`: where along the
   * segment (0 = first endpoint, 1 = second) the nearest point lies.
   */
  function SegParam(px: real, py: real, x1: real, y1: real, x2: real, y2: real): (t: real)
    ensures 0.0 <= t <= 1.0
  {
    var dx := x2 - x1;
    var dy := y2 - y1;
    if dx == 0.0 && dy == 0.0 then 0.0
    else
      NonZeroLength(dx, dy);
      Clamp01(Dot(px - x1, py - y1, dx, dy) / DistSq(dx, dy))
  }

  function Dot(ux: real, uy: real, vx: real, vy: real): real {
    ux * vx + uy * vy
  }

  /** A segment with distinct endpoints has positive squared length. */
  lemma NonZeroLength(dx: real, dy: real)
    requires !(dx == 0.0 && dy == 0.0)
    ensures DistSq(dx, dy) > 0.0
  {
    SqNonNeg(dx);
    SqNonNeg(dy);
    if dx != 0.0 {
      SqPos(dx);
    } else {
      SqPos(dy);
    }
  }

  function Quad(a: real, b: real, c: real, t: real): real {
    a - 2.0 * t * b + t * t * c
  }

  /** The squared distance `_pt_seg_dist` measures (before its final square root). */
  function PtSegDistSq(px: real, py: real, x1: real, y1: real, x2: real, y2: real): (d: real)
    ensures d >= 0.0
    ensures x1 == x2 && y1 == y2 ==> d == DistSq(px - x1, py - y1)
  {
    var dx := x2 - x1;
    var dy := y2 - y1;
    if dx == 0.0 && dy == 0.0 then DistSq(px - x1, py - y1)
    else
      var t := SegParam(px, py, x1, y1, x2, y2);
      DistSq(px - (x1 + t * dx), py - (y1 + t * dy))
  }

  /** `_pt_seg_dist`: the distance from a point to a segment. */
  function PtSegDist(sq: real -> real, px: real, py: real, x1: real, y1: real, x2: real, y2: real): real {
    sq(PtSegDistSq(px, py, x1, y1, x2, y2))
  }

  /** The squared distance to the point at parameter `t`, as a quadratic in `t`. */
  lemma QuadraticForm(wx: real, wy: real, dx: real, dy: real, t: real)
    ensures DistSq(wx - t * dx, wy - t * dy) == Quad(DistSq(wx, wy), Dot(wx, wy, dx, dy), DistSq(dx, dy), t)
  {
  }

  /**
   * For a quadratic `A - 2tB + t²C` with `C > 0`, its value at the clamped
   * minimiser is no larger than its value at either end of [0, 1].
   */
  lemma ClampedMinimum(a: real, b: real, c: real)
    requires c > 0.0
    ensures Quad(a, b, c, Clamp01(b / c)) <= Quad(a, b, c, 0.0)
    ensures Quad(a, b, c, Clamp01(b / c)) <= Quad(a, b, c, 1.0)
  {
    var t := Clamp01(b / c);
    var tStar := b / c;
    assert tStar * c == b;
    if tStar < 0.0 {
      assert t == 0.0;
      assert b < 0.0;
    } else if tStar > 1.0 {
      assert t == 1.0;
      assert b > c by {
        MulPos(tStar - 1.0, c);
      }
    } else {
      assert t == tStar;
      assert t * t * c == t * b;
      // At the minimiser the quadratic equals A - tB.
      MulNonNeg(t, b);
      MulNonNeg(1.0 - t, c - b) by {
        assert c - b == (1.0 - t) * c;
        MulNonNeg(1.0 - t, c);
      }
      assert (1.0 - t) * (c - b) == c - b - t * c + t * b;
    }
  }

  /**
   * The segment distance never exceeds the distance to either endpoint:
   * the nearest point of a segment is at least as near as its ends.
   */
  lemma PtSegDistSqAtMostEndpoints(px: real, py: real, x1: real, y1: real, x2: real, y2: real)
    ensures PtSegDistSq(px, py, x1, y1, x2, y2) <= DistSq(px - x1, py - y1)
    ensures PtSegDistSq(px, py, x1, y1, x2, y2) <= DistSq(px - x2, py - y2)
  {
    var dx := x2 - x1;
    var dy := y2 - y1;
    if !(dx == 0.0 && dy == 0.0) {
      var wx := px - x1;
      var wy := py - y1;
      var a := DistSq(wx, wy);
      var b := Dot(wx, wy, dx, dy);
      var c := DistSq(dx, dy);
      NonZeroLength(dx, dy);
      var t := Clamp01(b / c);
      assert x2 - x1 == dx && y2 - y1 == dy;
      assert t == SegParam(px, py, x1, y1, x2, y2);
      assert PtSegDistSq(px, py, x1, y1, x2, y2) == DistSq(wx - t * dx, wy - t * dy);
      QuadraticForm(wx, wy, dx, dy, t);
      QuadraticForm(wx, wy, dx, dy, 1.0);
      QuadraticForm(wx, wy, dx, dy, 0.0);
      assert DistSq(px - x2, py - y2) == DistSq(wx - 1.0 * dx, wy - 1.0 * dy);
      assert DistSq(px - x1, py - y1) == DistSq(wx - 0.0 * dx, wy - 0.0 * dy);
      ClampedMinimum(a, b, c);
    }
  }

  /** A square root preserves order, so distances compare as their squares do. */
  lemma SqrtMonotone(sq: real -> real, a: real, b: real)
    requires IsSqrt(sq) && 0.0 <= a <= b
    ensures sq(a) <= sq(b)
  {
    SqrtLeIff(sq, a, sq(b));
  }

  /** `_pt_seg_dist` is non-negative and at most the distance to either endpoint. */
  lemma PtSegDistBounds(sq: real -> real, px: real, py: real, x1: real, y1: real, x2: real, y2: real)
    requires IsSqrt(sq)
    ensures 0.0 <= PtSegDist(sq, px, py, x1, y1, x2, y2)
    ensures PtSegDist(sq, px, py, x1, y1, x2, y2) <= sq(DistSq(px - x1, py - y1))
    ensures PtSegDist(sq, px, py, x1, y1, x2, y2) <= sq(DistSq(px - x2, py - y2))
  {
    PtSegDistSqAtMostEndpoints(px, py, x1, y1, x2, y2);
    SqrtMonotone(sq, PtSegDistSq(px, py, x1, y1, x2, y2), DistSq(px - x1, py - y1));
    SqrtMonotone(sq, PtSegDistSq(px, py, x1, y1, x2, y2), DistSq(px - x2, py - y2));
  }

  /**
   * A Qt integer rectangle at (`left`, `top`) of `width` by `height` pixels.
   * Its last column is `left + width - 1` (Qt's `right()`), likewise `bottom()`.
   */
  datatype Rect = Rect(left: int, top: int, width: int, height: int) {
    function Right(): int {
      left + width - 1
    }

    function Bottom(): int {
      top + height - 1
    }

    /** `QRect.contains(x, y)` for a rectangle of positive size. */
    predicate Contains(x: int, y: int) {
      left <= x <= Right() && top <= y <= Bottom()
    }
  }

  /** A rectangle of positive size contains exactly `width * height` pixels, starting with its corner. */
  lemma RectCorners(r: Rect)
    requires r.width > 0 && r.height > 0
    ensures r.Contains(r.left, r.top) && r.Contains(r.Right(), r.Bottom())
    ensures !r.Contains(r.left + r.width, r.top) && !r.Contains(r.left, r.top + r.height)
  {
  }
}
