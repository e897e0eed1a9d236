/** The state of one simulated logo body and the fixed constants of the
    draggable-logo canvas (components/main/Advanced.tsx). */
module Logos {
  import opened Geometry

  /** The canvas is always 800 x 600 simulation units. */
  const CanvasWidth: real := 800.0
  const CanvasHeight: real := 600.0

  /** Sizes are drawn from [MinSize, MinSize + SizeSpread). */
  const MinSize: real := 40.0
  const SizeSpread: real := 40.0
  /** Mass is size / MassDivisor. */
  const MassDivisor: real := 20.0

  /** Idle opacities are drawn from [MinOpacity, MinOpacity + OpacitySpread). */
  const MinOpacity: real := 0.7
  const OpacitySpread: real := 0.3

  /** Per-tick velocity damping. */
  const Friction: real := 0.99
  /** Fraction of speed kept, with the sign reversed, after a wall bounce. */
  const Restitution: real := 0.8
  /** Numerator of the inverse-square pull toward the pointer. */
  const AttractionStrength: real := 0.5
  /** No pull is applied within this distance of the pointer. */
  const AttractionCutoff: real := 5.0
  /** Fraction of the overlap correction applied per collision. */
  const CollisionGain: real := 0.05
  /** Width of the random spin kick added on a collision. */
  const CollisionSpin: real := 0.01
  /** Fraction of the opacity gap closed per tick. */
  const OpacitySmoothing: real := 0.1

  /** One body. `position` is the top-left corner of its size x size box. */
  datatype Logo = Logo(
    id: string,
    name: string,
    imagePath: string,
    size: real,
    position: Vec,
    velocity: Vec,
    mass: real,
    rotation: real,
    rotationSpeed: real,
    opacity: real,
    targetOpacity: real)

  /** The random values one tick consumes: `idle(i)` resamples logo i's
      target opacity while the pointer is up, and `spinFirst(i, j)` /
      `spinSecond(i, j)` perturb the spins of logos i and j when they hit. */
  datatype TickDraws = TickDraws(
    idle: nat -> real,
    spinFirst: (nat, nat) -> real,
    spinSecond: (nat, nat) -> real)

  /** A value of `Math.random()`. */
  predicate IsUnitDraw(r: real) {
    0.0 <= r < 1.0
  }

  ghost predicate ValidDraws(dr: TickDraws) {
    && (forall i :: IsUnitDraw(dr.idle(i)))
    && (forall i, j :: IsUnitDraw(dr.spinFirst(i, j)))
    && (forall i, j :: IsUnitDraw(dr.spinSecond(i, j)))
  }

  function Center(l: Logo): Vec {
    Vec(l.position.x + l.size / 2.0, l.position.y + l.size / 2.0)
  }

  /** Mass times velocity. */
  function Impulse(l: Logo): Vec {
    Scale(l.mass, l.velocity)
  }

  /** The whole bounding box lies on the canvas. */
  predicate InBounds(l: Logo) {
    && 0.0 <= l.position.x <= CanvasWidth - l.size
    && 0.0 <= l.position.y <= CanvasHeight - l.size
  }

  predicate OpacityInRange(o: real) {
    MinOpacity <= o <= 1.0
  }

  /** The invariant every logo keeps for the whole life of the simulation. */
  predicate Valid(l: Logo) {
    && 0.0 < l.size <= CanvasHeight
    && l.mass == l.size / MassDivisor
    && InBounds(l)
    && OpacityInRange(l.opacity)
    && OpacityInRange(l.targetOpacity)
  }

  predicate AllValid(ls: seq<Logo>) {
    forall i :: 0 <= i < |ls| ==> Valid(ls[i])
  }

  predicate PositiveMasses(ls: seq<Logo>) {
    forall i :: 0 <= i < |ls| ==> ls[i].mass > 0.0
  }

  /** The parts of a logo fixed at creation. */
  predicate SameBody(a: Logo, b: Logo) {
    && a.id == b.id
    && a.name == b.name
    && a.imagePath == b.imagePath
    && a.size == b.size
    && a.mass == b.mass
  }

  predicate SameBodies(a: seq<Logo>, b: seq<Logo>) {
    |a| == |b| && forall i :: 0 <= i < |a| ==> SameBody(a[i], b[i])
  }
}
