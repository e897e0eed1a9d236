/** The single-logo stages of one animation tick, in the order the tick runs
    them: pointer attraction, friction, integration, the wall bounce and,
    after the collision pass, opacity relaxation
    (components/main/Advanced.tsx:153-194, 232). */
module Motion {
  import opened Geometry
  import opened Logos
  import opened Input

  /** From the centre of `l` to the pointer. */
  function ToPointer(l: Logo, p: Pointer): Vec {
    Sub(Vec(p.x, p.y), Center(l))
  }

  /** The largest pull the pointer can exert: the pull just outside the cutoff. */
  const MaxPull: real := AttractionStrength / (AttractionCutoff * AttractionCutoff)

  /** The inverse-square pull at distance `d` beyond the cutoff. */
  function Pull(d: real): (f: real)
    requires d > AttractionCutoff
    ensures 0.0 < f < MaxPull
    ensures f * (d * d) == AttractionStrength
  {
    PullBound(d);
    AttractionStrength / (d * d)
  }

  lemma PullBound(d: real)
    requires d > AttractionCutoff
    ensures 0.0 < AttractionStrength / (d * d) < MaxPull
    ensures AttractionStrength / (d * d) * (d * d) == AttractionStrength
  {
    var s := d * d;
    assert s > AttractionCutoff * AttractionCutoff by {
      assert d * d > AttractionCutoff * d;
    }
    assert AttractionStrength / s < AttractionStrength / (AttractionCutoff * AttractionCutoff);
  }

  /** Pointer attraction (lines 153-166). `d` is the distance from the logo's
      centre to the pointer and `draw` the random value used to resample the
      idle target opacity. Only velocity and target opacity can change. */
  function Attract(l: Logo, p: Pointer, d: real, draw: real): (r: Logo)
    requires IsLength(ToPointer(l, p), d) && IsUnitDraw(draw)
    ensures r == l.(velocity := r.velocity, targetOpacity := r.targetOpacity)
    ensures !p.isDown ==>
              r.velocity == l.velocity && MinOpacity <= r.targetOpacity < 1.0
    ensures p.isDown && !(d > AttractionCutoff) ==> r == l
    ensures p.isDown && d > AttractionCutoff ==>
              && r.targetOpacity == 1.0
              && Sub(r.velocity, l.velocity) == Scale(Pull(d), Direction(ToPointer(l, p), d))
  {
    if p.isDown then
      if d > AttractionCutoff then
        var delta := ToPointer(l, p);
        var force := AttractionStrength / (d * d);
        l.(velocity := Vec(l.velocity.x + delta.x / d * force,
                           l.velocity.y + delta.y / d * force),
           targetOpacity := 1.0)
      else
        l
    else
      l.(targetOpacity := MinOpacity + draw * OpacitySpread)
  }

  /** The pull points at the pointer and has length `Pull(d)`, below MaxPull. */
  lemma {:induction false} AttractTowardPointer(l: Logo, p: Pointer, d: real, draw: real)
    requires IsLength(ToPointer(l, p), d) && IsUnitDraw(draw)
    requires p.isDown && d > AttractionCutoff
    ensures Dot(Sub(Attract(l, p, d, draw).velocity, l.velocity), ToPointer(l, p)) > 0.0
    ensures Norm2(Sub(Attract(l, p, d, draw).velocity, l.velocity)) == Pull(d) * Pull(d)
    ensures Norm2(Sub(Attract(l, p, d, draw).velocity, l.velocity)) < MaxPull * MaxPull
  {
    var delta := ToPointer(l, p);
    var f := Pull(d);
    var u := Direction(delta, d);
    var dv := Sub(Attract(l, p, d, draw).velocity, l.velocity);
    assert dv == Scale(f, u);
    ScaleDot(f, u, delta);
    assert Dot(u, delta) == d;
    MulPositive(f, d);
    ScaleNorm2(f, u);
    SquareStrict(f, MaxPull);
  }

  /** Squaring is strictly increasing on the positive reals. */
  lemma SquareStrict(a: real, b: real)
    requires 0.0 < a < b
    ensures a * a < b * b
  {
    assert a * a < b * a;
    assert b * a < b * b;
  }

  /** Friction (lines 169-170): each velocity component shrinks by the factor
      Friction and keeps its sign. Nothing else changes. */
  function ApplyFriction(l: Logo): (r: Logo)
    ensures r == l.(velocity := r.velocity)
    ensures Abs(r.velocity.x) == Friction * Abs(l.velocity.x)
    ensures Abs(r.velocity.y) == Friction * Abs(l.velocity.y)
    ensures (r.velocity.x < 0.0 <==> l.velocity.x < 0.0)
    ensures (r.velocity.y < 0.0 <==> l.velocity.y < 0.0)
  {
    l.(velocity := Vec(l.velocity.x * Friction, l.velocity.y * Friction))
  }

  /** Friction never increases the speed. */
  lemma FrictionSlows(l: Logo)
    ensures Abs(ApplyFriction(l).velocity.x) <= Abs(l.velocity.x)
    ensures Abs(ApplyFriction(l).velocity.y) <= Abs(l.velocity.y)
    ensures Norm2(ApplyFriction(l).velocity) <= Norm2(l.velocity)
  {
    var v := l.velocity;
    assert ApplyFriction(l).velocity == Scale(Friction, v);
    ScaleNorm2(Friction, v);
    Norm2NonNegative(v);
  }

  /** Integration (lines 173-177): the position moves by the velocity and
      the rotation by the spin. Nothing else changes. */
  function Integrate(l: Logo): (r: Logo)
    ensures r == l.(position := r.position, rotation := r.rotation)
    ensures Sub(r.position, l.position) == l.velocity
    ensures r.rotation - l.rotation == l.rotationSpeed
  {
    l.(position := Add(l.position, l.velocity),
       rotation := l.rotation + l.rotationSpeed)
  }

  /** One axis of the wall bounce: a box of width `size` at `pos`, moving at
      `vel`, on a canvas of width `extent`. Touching or crossing a wall clamps
      the box against it and reverses the velocity, keeping Restitution of it. */
  function BounceAxis(pos: real, vel: real, size: real, extent: real): (r: (real, real))
    ensures size <= extent ==> 0.0 <= r.0 <= extent - size
    ensures 0.0 < pos && pos + size < extent ==> r == (pos, vel)
    ensures !(0.0 < pos && pos + size < extent) ==>
              r.1 == -Restitution * vel && (r.0 == 0.0 || r.0 == extent - size)
    ensures pos <= 0.0 ==> r.0 == 0.0
    ensures 0.0 < pos && extent <= pos + size ==> r.0 == extent - size
    ensures Abs(r.1) <= Abs(vel)
  {
    if pos <= 0.0 then (0.0, vel * -Restitution)
    else if pos + size >= extent then (extent - size, vel * -Restitution)
    else (pos, vel)
  }

  /** A clamped position is a resting point of the clamp: bouncing again
      does not move the box. */
  lemma BounceSettles(pos: real, vel: real, size: real, extent: real)
    requires 0.0 <= size <= extent
    ensures var r := BounceAxis(pos, vel, size, extent);
            BounceAxis(r.0, r.1, size, extent).0 == r.0
  {
  }

  /** The wall bounce on both axes (lines 180-194). Each axis is handled on
      its own, so a clamp on one axis leaves the other untouched. */
  function Bounce(l: Logo): (r: Logo)
    ensures r == l.(position := r.position, velocity := r.velocity)
    ensures (r.position.x, r.velocity.x) ==
            BounceAxis(l.position.x, l.velocity.x, l.size, CanvasWidth)
    ensures (r.position.y, r.velocity.y) ==
            BounceAxis(l.position.y, l.velocity.y, l.size, CanvasHeight)
    ensures l.size <= CanvasHeight ==> InBounds(r)
    ensures Abs(r.velocity.x) <= Abs(l.velocity.x)
    ensures Abs(r.velocity.y) <= Abs(l.velocity.y)
  {
    var (x, vx) := BounceAxis(l.position.x, l.velocity.x, l.size, CanvasWidth);
    var (y, vy) := BounceAxis(l.position.y, l.velocity.y, l.size, CanvasHeight);
    l.(position := Vec(x, y), velocity := Vec(vx, vy))
  }

  /** The opacity step (line 232): close a tenth of the gap to the target. */
  function Ease(o: real, t: real): (r: real)
    ensures o <= t ==> o <= r <= t
    ensures t <= o ==> t <= r <= o
    ensures t - r == (1.0 - OpacitySmoothing) * (t - o)
  {
    o + (t - o) * OpacitySmoothing
  }

  /** `k` opacity steps toward a fixed target. */
  function EaseSteps(o: real, t: real, k: nat): real
    decreases k
  {
    if k == 0 then o else EaseSteps(Ease(o, t), t, k - 1)
  }

  function Pow(b: real, k: nat): real
    decreases k
  {
    if k == 0 then 1.0 else b * Pow(b, k - 1)
  }

  /** After `k` steps the gap to the target is 0.9^k of the original, and the
      opacity has never overshot the target. */
  lemma {:induction false} EaseConverges(o: real, t: real, k: nat)
    decreases k
    ensures t - EaseSteps(o, t, k) == Pow(1.0 - OpacitySmoothing, k) * (t - o)
    ensures o <= t ==> o <= EaseSteps(o, t, k) <= t
    ensures t <= o ==> t <= EaseSteps(o, t, k) <= o
  {
    if k > 0 {
      var o' := Ease(o, t);
      EaseConverges(o', t, k - 1);
      var q := Pow(1.0 - OpacitySmoothing, k - 1);
      calc {
        t - EaseSteps(o, t, k);
        q * (t - o');
        q * ((1.0 - OpacitySmoothing) * (t - o));
        Pow(1.0 - OpacitySmoothing, k) * (t - o);
      }
    }
  }

  /** Opacity relaxation for one logo: only the opacity changes, and it stays
      in the visible range when it and the target start there. */
  function Relax(l: Logo): (r: Logo)
    ensures r == l.(opacity := r.opacity)
    ensures r.opacity == Ease(l.opacity, l.targetOpacity)
    ensures OpacityInRange(l.opacity) && OpacityInRange(l.targetOpacity) ==>
              OpacityInRange(r.opacity)
  {
    l.(opacity := l.opacity + (l.targetOpacity - l.opacity) * OpacitySmoothing)
  }
}
