/** Creation of the logo bodies from the static logo list
    (components/main/Advanced.tsx:66-85). */
module Init {
  import opened Geometry
  import opened Logos

  /** One entry of the static logo list. */
  datatype LogoSpec = LogoSpec(id: string, name: string, imagePath: string)

  /** The nine random values drawn, in this order, when one logo is created. */
  datatype InitDraws = InitDraws(
    size: real, x: real, y: real,
    vx: real, vy: real,
    rotation: real, spin: real,
    opacity: real, target: real)

  /** `2 * Math.PI` as the double the browser computes. */
  const Tau: real := 6.283185307179586

  /** Initial speeds lie in [-MaxInitialSpeed, MaxInitialSpeed) per axis. */
  const MaxInitialSpeed: real := 0.75
  /** Initial spins lie in [-MaxInitialSpin, MaxInitialSpin). */
  const MaxInitialSpin: real := 0.015

  predicate ValidInitDraws(dr: InitDraws) {
    && IsUnitDraw(dr.size) && IsUnitDraw(dr.x) && IsUnitDraw(dr.y)
    && IsUnitDraw(dr.vx) && IsUnitDraw(dr.vy)
    && IsUnitDraw(dr.rotation) && IsUnitDraw(dr.spin)
    && IsUnitDraw(dr.opacity) && IsUnitDraw(dr.target)
  }

  /** A draw stretched over [0, extent). */
  function ScaleDraw(draw: real, extent: real): (r: real)
    requires IsUnitDraw(draw) && extent > 0.0
    ensures 0.0 <= r < extent
  {
    draw * extent
  }

  /** A logo with random size, position, velocity, rotation and opacities.
      The box fits on the canvas, the mass is the size over twenty, and both
      opacities start in the idle range. */
  function InitLogo(spec: LogoSpec, dr: InitDraws): (l: Logo)
    requires ValidInitDraws(dr)
    ensures l.id == spec.id && l.name == spec.name && l.imagePath == spec.imagePath
    ensures MinSize <= l.size < MinSize + SizeSpread
    ensures l.mass == l.size / MassDivisor && 2.0 <= l.mass < 4.0
    ensures 0.0 <= l.position.x < CanvasWidth - l.size
    ensures 0.0 <= l.position.y < CanvasHeight - l.size
    ensures -MaxInitialSpeed <= l.velocity.x < MaxInitialSpeed
    ensures -MaxInitialSpeed <= l.velocity.y < MaxInitialSpeed
    ensures 0.0 <= l.rotation < Tau
    ensures -MaxInitialSpin <= l.rotationSpeed < MaxInitialSpin
    ensures MinOpacity <= l.opacity < MinOpacity + OpacitySpread
    ensures MinOpacity <= l.targetOpacity < MinOpacity + OpacitySpread
    ensures Valid(l)
  {
    var size := dr.size * 40.0 + 40.0;
    Logo(
      spec.id, spec.name, spec.imagePath,
      size,
      Vec(ScaleDraw(dr.x, CanvasWidth - size), ScaleDraw(dr.y, CanvasHeight - size)),
      Vec((dr.vx - 0.5) * 1.5, (dr.vy - 0.5) * 1.5),
      size / 20.0,
      ScaleDraw(dr.rotation, Tau),
      (dr.spin - 0.5) * 0.03,
      0.7 + dr.opacity * 0.3,
      0.7 + dr.target * 0.3)
  }

  /** One logo per list entry, in list order, every one satisfying the
      simulation invariant. */
  function InitLogos(specs: seq<LogoSpec>, draws: seq<InitDraws>): (ls: seq<Logo>)
    requires |draws| == |specs|
    requires forall i :: 0 <= i < |draws| ==> ValidInitDraws(draws[i])
    ensures |ls| == |specs|
    ensures forall i :: 0 <= i < |ls| ==>
              && ls[i].id == specs[i].id
              && ls[i].name == specs[i].name
              && ls[i].imagePath == specs[i].imagePath
    ensures AllValid(ls)
    ensures PositiveMasses(ls)
  {
    seq(|specs|, i requires 0 <= i < |specs| => InitLogo(specs[i], draws[i]))
  }
}
