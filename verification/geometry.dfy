/** Planar vectors over the reals, used for positions, velocities and
    directions of the logo simulation, together with the square-root and
    direction stand-ins for `Math.sqrt` and `Math.atan2`/`cos`/`sin`. */
module Geometry {

  datatype Vec = Vec(x: real, y: real)

  const Zero: Vec := Vec(0.0, 0.0)

  function Add(a: Vec, b: Vec): Vec {
    Vec(a.x + b.x, a.y + b.y)
  }

  function Sub(a: Vec, b: Vec): Vec {
    Vec(a.x - b.x, a.y - b.y)
  }

  function Scale(k: real, v: Vec): Vec {
    Vec(k * v.x, k * v.y)
  }

  function Dot(a: Vec, b: Vec): real {
    a.x * b.x + a.y * b.y
  }

  /** Squared Euclidean length. */
  function Norm2(v: Vec): real {
    v.x * v.x + v.y * v.y
  }

  function Abs(r: real): real {
    if r < 0.0 then -r else r
  }

  /** `root` is the square root on the non-negative reals (the model's
      stand-in for `Math.sqrt`). */
  ghost predicate IsSqrt(root: real -> real) {
    forall q :: 0.0 <= q ==> 0.0 <= root(q) && root(q) * root(q) == q
  }

  /** `d` is the Euclidean length of `delta`. */
  predicate IsLength(delta: Vec, d: real) {
    0.0 <= d && d * d == Norm2(delta)
  }

  /** The length of `delta`, computed by the square-root oracle. */
  function Length(root: real -> real, delta: Vec): (d: real)
    requires IsSqrt(root)
    ensures IsLength(delta, d)
  {
    Norm2NonNegative(delta);
    root(Norm2(delta))
  }

  /** The unit vector `(cos a, sin a)` for `a = atan2(delta.y, delta.x)`, given
      the length `d` of `delta`. Coincident points (`d == 0`) give
      `atan2(0, 0) = 0`, so the direction is the x axis. */
  function Direction(delta: Vec, d: real): (u: Vec)
    requires IsLength(delta, d)
    ensures Norm2(u) == 1.0
    ensures d > 0.0 ==> Scale(d, u) == delta && Dot(u, delta) == d
    ensures !(d > 0.0) ==> u == Vec(1.0, 0.0)
  {
    if d > 0.0 then
      UnitLength(delta.x, delta.y, d);
      DotUnit(delta.x, delta.y, d);
      Vec(delta.x / d, delta.y / d)
    else
      Vec(1.0, 0.0)
  }

  lemma Norm2NonNegative(v: Vec)
    ensures !(0.0 > Norm2(v))
  {
  }

  lemma MulPositive(a: real, b: real)
    requires a > 0.0 && b > 0.0
    ensures a * b > 0.0
  {
  }

  lemma DivMulRight(a: real, b: real, d: real)
    requires d != 0.0
    ensures (a / d) * b == (a * b) / d
  {
  }

  lemma DivAdd(a: real, b: real, d: real)
    requires d != 0.0
    ensures a / d + b / d == (a + b) / d
  {
  }

  lemma DivSelf(d: real)
    requires d != 0.0
    ensures (d * d) / d == d && d / d == 1.0
  {
  }

  /** Projecting `(x, y)` on its own direction gives its length. */
  lemma {:induction false} DotUnit(x: real, y: real, d: real)
    requires d > 0.0 && d * d == x * x + y * y
    ensures (x / d) * x + (y / d) * y == d
  {
    DivMulRight(x, x, d);
    DivMulRight(y, y, d);
    DivAdd(x * x, y * y, d);
    DivSelf(d);
  }

  /** `(x, y) / d` has length one when `d` is the length of `(x, y)`. */
  lemma {:induction false} UnitLength(x: real, y: real, d: real)
    requires d > 0.0 && d * d == x * x + y * y
    ensures (x / d) * (x / d) + (y / d) * (y / d) == 1.0
  {
    var ux, uy := x / d, y / d;
    DotUnit(x, y, d);
    DivMulRight(x, ux, d);
    DivMulRight(y, uy, d);
    assert x * ux == ux * x;
    assert y * uy == uy * y;
    DivAdd(ux * x, uy * y, d);
    DivSelf(d);
  }

  /** Coincident points: the only length of the zero vector is zero. */
  lemma ZeroLength(delta: Vec, d: real)
    requires IsLength(delta, d) && delta == Zero
    ensures d == 0.0
  {
    if d > 0.0 {
      var s := d * d;
      assert s == 0.0;
      DivSelf(d);
      DivZero(s, d);
    }
  }

  lemma ZeroIsLength(delta: Vec)
    requires delta == Zero
    ensures IsLength(delta, 0.0)
  {
  }

  lemma DivZero(s: real, d: real)
    requires s == 0.0 && d != 0.0
    ensures s / d == 0.0
  {
  }

  lemma ScaleDot(k: real, a: Vec, b: Vec)
    ensures Dot(Scale(k, a), b) == k * Dot(a, b)
  {
  }

  lemma ScaleNorm2(k: real, v: Vec)
    ensures Norm2(Scale(k, v)) == k * k * Norm2(v)
  {
    assert (k * v.x) * (k * v.x) == (k * k) * (v.x * v.x);
    assert (k * v.y) * (k * v.y) == (k * k) * (v.y * v.y);
  }
}
