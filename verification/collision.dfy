/** The mass-weighted response to two overlapping logos
    (components/main/Advanced.tsx:197-228). */
module Collision {
  import opened Geometry
  import opened Logos

  /** From the centre of `a` to the centre of `b`. */
  function CentreOffset(a: Logo, b: Logo): Vec {
    Sub(Center(b), Center(a))
  }

  /** The centre distance below which two logos touch: half of each size. */
  function MinDistance(a: Logo, b: Logo): real {
    (a.size + b.size) / 2.0
  }

  /** Half-width of the random spin kick a collision adds to each logo. */
  const SpinKick: real := CollisionSpin / 2.0

  /** The shares of the push taken by bodies of mass `m1` and `m2`
      (lines 213-214). They split the push in inverse proportion to the
      masses, so the lighter body takes the larger share. */
  function MassRatios(m1: real, m2: real): (r: (real, real))
    requires m1 > 0.0 && m2 > 0.0
    ensures r.0 + r.1 == 1.0
    ensures 0.0 < r.0 < 1.0 && 0.0 < r.1 < 1.0
    ensures m1 * r.0 == m2 * r.1
    ensures m1 <= m2 <==> r.1 <= r.0
  {
    var total := m1 + m2;
    RatioFacts(m1, m2, total);
    (m2 / total, m1 / total)
  }

  lemma RatioFacts(m1: real, m2: real, total: real)
    requires m1 > 0.0 && m2 > 0.0 && total == m1 + m2
    ensures m2 / total + m1 / total == 1.0
    ensures 0.0 < m2 / total < 1.0 && 0.0 < m1 / total < 1.0
    ensures m1 * (m2 / total) == m2 * (m1 / total)
    ensures m1 <= m2 <==> m1 / total <= m2 / total
  {
    DivAdd(m2, m1, total);
    DivMulRight(m2, m1, total);
    DivMulRight(m1, m2, total);
    assert m2 * m1 == m1 * m2;
    DivLess(m2, total);
    DivLess(m1, total);
    DivMonotone(m1, m2, total);
  }

  lemma DivLess(a: real, b: real)
    requires 0.0 < a < b
    ensures 0.0 < a / b < 1.0
  {
    var q := a / b;
    assert q * b == a;
    if q >= 1.0 {
      assert false;
    }
  }

  lemma DivMonotone(a: real, b: real, c: real)
    requires c > 0.0
    ensures a <= b <==> a / c <= b / c
  {
    assert a / c * c == a;
    assert b / c * c == b;
  }

  /** The separating push of lines 206-210: aim at the point MinDistance
      from `a`'s centre along the line of centres (the x axis when the
      centres coincide) and close CollisionGain of the gap between that
      point and `b`'s centre. */
  function Push(a: Logo, b: Logo, d: real): (push: Vec)
    requires IsLength(CentreOffset(a, b), d)
  {
    var u := Direction(CentreOffset(a, b), d);
    var target := Add(Center(a), Scale(MinDistance(a, b), u));
    Scale(CollisionGain, Sub(target, Center(b)))
  }

  /** Apart centres: the push lies on the line of centres, pointing from `a`
      to `b`, with length CollisionGain times the overlap. */
  lemma {:induction false} PushAlongCentres(a: Logo, b: Logo, d: real)
    requires IsLength(CentreOffset(a, b), d) && d > 0.0
    ensures Push(a, b, d) ==
            Scale(CollisionGain * (MinDistance(a, b) - d), Direction(CentreOffset(a, b), d))
  {
    var delta := CentreOffset(a, b);
    var u := Direction(delta, d);
    var m := MinDistance(a, b);
    assert Scale(d, u) == delta;
    var gap := Sub(Add(Center(a), Scale(m, u)), Center(b));
    assert gap.x == m * u.x - d * u.x;
    assert gap.y == m * u.y - d * u.y;
    assert CollisionGain * (m * u.x - d * u.x) == (CollisionGain * (m - d)) * u.x;
    assert CollisionGain * (m * u.y - d * u.y) == (CollisionGain * (m - d)) * u.y;
  }

  /** Coincident centres (`atan2(0, 0) = 0`): the push is along the x axis,
      with length CollisionGain times the contact distance. The distance is
      then zero (see ZeroLength). */
  lemma {:induction false} PushCoincident(a: Logo, b: Logo)
    requires Center(a) == Center(b)
    ensures IsLength(CentreOffset(a, b), 0.0)
    ensures Push(a, b, 0.0) == Scale(CollisionGain, Vec(MinDistance(a, b), 0.0))
  {
    CoincidentOffset(a, b);
    assert Direction(CentreOffset(a, b), 0.0) == Vec(1.0, 0.0);
    GapOnAxis(Center(a), Center(b), MinDistance(a, b));
  }

  lemma CoincidentOffset(a: Logo, b: Logo)
    requires Center(a) == Center(b)
    ensures CentreOffset(a, b) == Zero && Norm2(CentreOffset(a, b)) == 0.0
    ensures IsLength(CentreOffset(a, b), 0.0)
  {
    assert CentreOffset(a, b) == Vec(0.0, 0.0);
    ZeroIsLength(CentreOffset(a, b));
  }

  /** From a point to itself via `m` along the x axis. */
  lemma GapOnAxis(ca: Vec, cb: Vec, m: real)
    requires ca == cb
    ensures Sub(Add(ca, Scale(m, Vec(1.0, 0.0))), cb) == Vec(m, 0.0)
  {
    ScaleAxis(m, 1.0);
  }

  /** Scaling a vector on the x axis. */
  lemma ScaleAxis(k: real, m: real)
    ensures Scale(k, Vec(m, 0.0)) == Vec(k * m, 0.0)
  {
  }

  /** One pair test of the collision loop (lines 199-228). `d` is the
      distance between the centres and `drawA`, `drawB` the random values of
      the two spin kicks. Overlapping logos are pushed apart in inverse
      proportion to their masses, brightened and given a small spin; other
      pairs are left alone. Positions never change. */
  function ResolvePair(a: Logo, b: Logo, d: real, drawA: real, drawB: real): (r: (Logo, Logo))
    requires a.mass > 0.0 && b.mass > 0.0
    requires IsLength(CentreOffset(a, b), d)
    requires IsUnitDraw(drawA) && IsUnitDraw(drawB)
    ensures r.0 == a.(velocity := r.0.velocity, rotationSpeed := r.0.rotationSpeed,
                      targetOpacity := r.0.targetOpacity)
    ensures r.1 == b.(velocity := r.1.velocity, rotationSpeed := r.1.rotationSpeed,
                      targetOpacity := r.1.targetOpacity)
    ensures !(d < MinDistance(a, b)) ==> r == (a, b)
    ensures d < MinDistance(a, b) ==>
              && r.0.targetOpacity == 1.0 && r.1.targetOpacity == 1.0
              && -SpinKick <= r.0.rotationSpeed - a.rotationSpeed < SpinKick
              && -SpinKick <= r.1.rotationSpeed - b.rotationSpeed < SpinKick
    ensures d < MinDistance(a, b) ==>
              && r.0.velocity == Sub(a.velocity, Scale(MassRatios(a.mass, b.mass).0, Push(a, b, d)))
              && r.1.velocity == Add(b.velocity, Scale(MassRatios(a.mass, b.mass).1, Push(a, b, d)))
  {
    if d < MinDistance(a, b) then
      var push := Push(a, b, d);
      var ratio := MassRatios(a.mass, b.mass);
      (Struck(a, Sub(a.velocity, Scale(ratio.0, push)), drawA),
       Struck(b, Add(b.velocity, Scale(ratio.1, push)), drawB))
    else
      (a, b)
  }

  /** A logo in a hit (lines 216-227): it takes the new velocity, brightens
      fully and gets a random spin kick of at most SpinKick either way. */
  function Struck(l: Logo, velocity: Vec, draw: real): (r: Logo)
    requires IsUnitDraw(draw)
    ensures r == l.(velocity := velocity, targetOpacity := 1.0, rotationSpeed := r.rotationSpeed)
    ensures -SpinKick <= r.rotationSpeed - l.rotationSpeed < SpinKick
  {
    l.(velocity := velocity, targetOpacity := 1.0,
       rotationSpeed := l.rotationSpeed + (draw - 0.5) * CollisionSpin)
  }

  /** A pair test conserves momentum, hit or not. */
  lemma {:induction false} PairMomentum(a: Logo, b: Logo, d: real, drawA: real, drawB: real)
    requires a.mass > 0.0 && b.mass > 0.0
    requires IsLength(CentreOffset(a, b), d)
    requires IsUnitDraw(drawA) && IsUnitDraw(drawB)
    ensures var r := ResolvePair(a, b, d, drawA, drawB);
            Add(Impulse(r.0), Impulse(r.1)) == Add(Impulse(a), Impulse(b))
  {
    if d < MinDistance(a, b) {
      var push := Push(a, b, d);
      var ratio := MassRatios(a.mass, b.mass);
      var r := ResolvePair(a, b, d, drawA, drawB);
      assert r.0.mass == a.mass && r.1.mass == b.mass;
      Balance(a.mass, b.mass, ratio.0, ratio.1, a.velocity.x, b.velocity.x, push.x);
      Balance(a.mass, b.mass, ratio.0, ratio.1, a.velocity.y, b.velocity.y, push.y);
    }
  }

  /** Shares in inverse proportion to the masses cancel in the momentum. */
  lemma Balance(m1: real, m2: real, r1: real, r2: real, v1: real, v2: real, p: real)
    requires m1 * r1 == m2 * r2
    ensures m1 * (v1 - r1 * p) + m2 * (v2 + r2 * p) == m1 * v1 + m2 * v2
  {
    assert m1 * (r1 * p) == p * (m1 * r1);
    assert m2 * (r2 * p) == p * (m2 * r2);
  }

  /** A hit pushes the logos apart along the line of centres: `b` gains
      velocity away from `a`, and `a` loses velocity towards `b`. */
  lemma {:induction false} CollisionSeparates(a: Logo, b: Logo, d: real, drawA: real, drawB: real)
    requires a.mass > 0.0 && b.mass > 0.0
    requires IsLength(CentreOffset(a, b), d)
    requires IsUnitDraw(drawA) && IsUnitDraw(drawB)
    requires 0.0 < d < MinDistance(a, b)
    ensures var r := ResolvePair(a, b, d, drawA, drawB);
            && Dot(Sub(r.1.velocity, b.velocity), CentreOffset(a, b)) > 0.0
            && Dot(Sub(a.velocity, r.0.velocity), CentreOffset(a, b)) > 0.0
  {
    var delta := CentreOffset(a, b);
    var u := Direction(delta, d);
    var ratio := MassRatios(a.mass, b.mass);
    var k := CollisionGain * (MinDistance(a, b) - d);
    var push := Push(a, b, d);
    PushAlongCentres(a, b, d);
    assert push == Scale(k, u);
    ScaleDot(k, u, delta);
    assert Dot(push, delta) == k * d;
    MulPositive(k, d);
    var r := ResolvePair(a, b, d, drawA, drawB);
    assert Sub(r.1.velocity, b.velocity) == Scale(ratio.1, push);
    assert Sub(a.velocity, r.0.velocity) == Scale(ratio.0, push);
    ScaleDot(ratio.1, push, delta);
    ScaleDot(ratio.0, push, delta);
    MulPositive(ratio.1, k * d);
    MulPositive(ratio.0, k * d);
  }
}
