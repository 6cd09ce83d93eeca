/**
 * Numeric building blocks shared by the geometry, layout and export code:
 * clamping, Python's `int()` truncation, `round()` (ties to even), `math.ceil`,
 * and a square-root oracle standing in for `math.hypot`.
 */
module Numeric {

  function Min(a: real, b: real): (r: real)
    ensures r <= a && r <= b && (r == a || r == b)
  {
    if a <= b then a else b
  }

  function Max(a: real, b: real): (r: real)
    ensures r >= a && r >= b && (r == a || r == b)
  {
    if a >= b then a else b
  }

  function MaxInt(a: int, b: int): (r: int)
    ensures r >= a && r >= b && (r == a || r == b)
  {
    if a >= b then a else b
  }

  /** `max(lo, min(hi, v))`: the value of the interval closest to `v`. */
  function Clamp(v: real, lo: real, hi: real): (r: real)
    requires lo <= hi
    ensures lo <= r <= hi
    ensures lo <= v <= hi ==> r == v
    ensures v < lo ==> r == lo
    ensures v > hi ==> r == hi
  {
    Max(lo, Min(hi, v))
  }

  /** The `cl` helper of the drag controller: clamp to the unit interval. */
  function Clamp01(v: real): (r: real)
    ensures 0.0 <= r <= 1.0
    ensures 0.0 <= v <= 1.0 ==> r == v
    ensures v < 0.0 ==> r == 0.0
    ensures v > 1.0 ==> r == 1.0
  {
    Clamp(v, 0.0, 1.0)
  }

  /** Clamping is monotone: it never reorders two values. */
  lemma ClampMonotone(a: real, b: real, lo: real, hi: real)
    requires lo <= hi && a <= b
    ensures Clamp(a, lo, hi) <= Clamp(b, lo, hi)
  {
  }

  /** Python's `int(v)` on a float: truncation toward zero. */
  function Trunc(v: real): (r: int)
    ensures v >= 0.0 ==> r as real <= v < r as real + 1.0
    ensures v <= 0.0 ==> r as real - 1.0 < v <= r as real
    ensures v >= 0.0 ==> r >= 0
  {
    if v >= 0.0 then v.Floor else -((-v).Floor)
  }

  /** `int()` of a non-negative value is its floor (the only case the viewer uses). */
  lemma TruncNonNegIsFloor(v: real)
    requires v >= 0.0
    ensures Trunc(v) == v.Floor
  {
  }

  /** Python's `round(v)`: the nearest integer, ties going to the even one. */
  function RoundHalfEven(v: real): (r: int)
    ensures -0.5 <= r as real - v <= 0.5
    ensures r as real - v == 0.5 || v - r as real == 0.5 ==> r % 2 == 0
  {
    var f := v.Floor;
    var d := v - f as real;
    if d < 0.5 then f
    else if d > 0.5 then f + 1
    else if f % 2 == 0 then f
    else f + 1
  }

  /** `math.ceil(v)`: the least integer not below `v`. */
  function Ceil(v: real): (r: int)
    ensures v <= r as real < v + 1.0
  {
    var f := v.Floor;
    if f as real == v then f else f + 1
  }

  /** Any other integer bound above `v` is at least `Ceil(v)`. */
  lemma CeilIsLeast(v: real, n: int)
    requires v <= n as real
    ensures Ceil(v) <= n
  {
  }

  /**
   * `sq` behaves as the square root on non-negative arguments.  The model
   * receives square roots as a parameter so that distances and radii can be
   * stated exactly; every property that depends on them assumes this.
   */
  ghost predicate IsSqrt(sq: real -> real) {
    forall v :: 0.0 <= v ==> 0.0 <= sq(v) && sq(v) * sq(v) == v
  }

  /** A square root is monotone, so comparing distances may compare squares. */
  lemma SqrtLeIff(sq: real -> real, a: real, t: real)
    requires IsSqrt(sq) && 0.0 <= a && 0.0 <= t
    ensures sq(a) <= t <==> a <= t * t
  {
    var s := sq(a);
    if s <= t {
      assert s * s <= t * t by { MulMono(s, t); }
    } else {
      assert t * t < s * s by { MulStrict(t, s); }
    }
  }

  /** `v * v`, kept behind a name so that the solver treats squares uniformly. */
  function Sq(v: real): real {
    v * v
  }

  lemma SqNonNeg(v: real)
    ensures Sq(v) >= 0.0
  {
    if v < 0.0 {
      MulPos(-v, -v);
    }
  }

  lemma SqPos(v: real)
    requires v != 0.0
    ensures Sq(v) > 0.0
  {
    if v > 0.0 {
      calc {
        Sq(v);
        v * v;
      > 0.0;
      }
    } else {
      calc {
        Sq(v);
        (-v) * (-v);
      > 0.0;
      }
    }
  }

  lemma MulMono(a: real, b: real)
    requires 0.0 <= a <= b
    ensures a * a <= b * b
  {
    assert a * a <= a * b <= b * b;
  }

  lemma MulStrict(a: real, b: real)
    requires 0.0 <= a < b
    ensures a * a < b * b
  {
    var d := b - a;
    MulPos(b, d);
    MulNonNeg(a, d);
    calc {
      b * b;
    ==
      (a + d) * (a + d);
    ==
      a * a + a * d + d * a + d * d;
    ==
      a * a + a * d + (a + d) * d;
    ==
      a * a + a * d + b * d;
    >
      a * a;
    }
  }

  lemma MulNonNeg(x: real, y: real)
    requires 0.0 <= x && 0.0 <= y
    ensures 0.0 <= x * y
  {
  }

  lemma MulPos(x: real, y: real)
    requires 0.0 < x && 0.0 < y
    ensures 0.0 < x * y
  {
  }
}
