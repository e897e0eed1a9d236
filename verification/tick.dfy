/** One animation tick over all logos (components/main/Advanced.tsx:151-232):
    logos are visited in index order; each is attracted, damped, moved and
    bounced, then tested against every later logo, then its opacity eases. */
module Tick {
  import opened Geometry
  import opened Logos
  import opened Input
  import opened Motion
  import opened Collision
  import opened Pairs

  /** A logo's own stages before its collision pass (lines 153-194), with the
      pointer distance taken from the square-root oracle. */
  function Advance(root: real -> real, l: Logo, p: Pointer, draw: real): (r: Logo)
    requires IsSqrt(root) && IsUnitDraw(draw)
    ensures r == l.(position := r.position, velocity := r.velocity,
                    rotation := r.rotation, targetOpacity := r.targetOpacity)
    ensures r.rotation == l.rotation + l.rotationSpeed
    ensures l.size <= CanvasHeight ==> InBounds(r)
    ensures OpacityInRange(l.targetOpacity) ==> OpacityInRange(r.targetOpacity)
  {
    var d := Length(root, ToPointer(l, p));
    Bounce(Integrate(ApplyFriction(Attract(l, p, d, draw))))
  }

  /** Logo `k` takes part in one of `pairs`. */
  predicate Mentions(pairs: seq<(nat, nat)>, k: nat) {
    exists t :: 0 <= t < |pairs| && (pairs[t].0 == k || pairs[t].1 == k)
  }

  /** The total momentum of all logos. */
  function Momentum(ls: seq<Logo>): Vec
    decreases |ls|
  {
    if |ls| == 0 then Zero else Add(Momentum(ls[..|ls| - 1]), Impulse(ls[|ls| - 1]))
  }

  /** Replacing one logo changes the total by the difference of the impulses. */
  lemma {:induction false} MomentumUpdate(ls: seq<Logo>, k: nat, l: Logo)
    requires k < |ls|
    decreases |ls|
    ensures Momentum(ls[k := l]) == Add(Sub(Momentum(ls), Impulse(ls[k])), Impulse(l))
  {
    var n := |ls|;
    if k < n - 1 {
      assert ls[k := l][..n - 1] == ls[..n - 1][k := l];
      MomentumUpdate(ls[..n - 1], k, l);
    } else {
      assert ls[k := l][..n - 1] == ls[..n - 1];
    }
  }

  /** One pair test applied to the whole list: only logos `i` and `j` can
      change, only in velocity, spin and target opacity, and total momentum
      is conserved. */
  function ResolveAt(root: real -> real, ls: seq<Logo>, i: nat, j: nat, dr: TickDraws): (r: seq<Logo>)
    requires IsSqrt(root) && ValidDraws(dr) && PositiveMasses(ls)
    requires i < j < |ls|
    ensures |r| == |ls|
    ensures forall k :: 0 <= k < |ls| ==>
              r[k] == ls[k].(velocity := r[k].velocity, rotationSpeed := r[k].rotationSpeed,
                             targetOpacity := r[k].targetOpacity)
    ensures forall k :: 0 <= k < |ls| ==>
              r[k].targetOpacity == ls[k].targetOpacity || r[k].targetOpacity == 1.0
    ensures forall k :: 0 <= k < |ls| && k != i && k != j ==> r[k] == ls[k]
    ensures Momentum(r) == Momentum(ls)
  {
    var d := Length(root, CentreOffset(ls[i], ls[j]));
    var hit := ResolvePair(ls[i], ls[j], d, dr.spinFirst(i, j), dr.spinSecond(i, j));
    PairMomentum(ls[i], ls[j], d, dr.spinFirst(i, j), dr.spinSecond(i, j));
    MomentumUpdate(ls, i, hit.0);
    MomentumUpdate(ls[i := hit.0], j, hit.1);
    assert ls[i := hit.0][j] == ls[j];
    ExchangeKeepsTotal(Momentum(ls), Impulse(ls[i]), Impulse(ls[j]), Impulse(hit.0), Impulse(hit.1));
    ls[i := hit.0][j := hit.1]
  }

  /** Swapping two summands for two others with the same sum keeps a total. */
  lemma ExchangeKeepsTotal(total: Vec, a: Vec, b: Vec, a': Vec, b': Vec)
    requires Add(a', b') == Add(a, b)
    ensures Add(Sub(Add(Sub(total, a), a'), b), b') == total
  {
  }

  /** A logo the tail of `pairs` mentions is mentioned by `pairs`. */
  lemma MentionsTail(pairs: seq<(nat, nat)>, k: nat)
    requires |pairs| > 0 && Mentions(pairs[1..], k)
    ensures Mentions(pairs, k)
  {
    var t :| 0 <= t < |pairs[1..]| && (pairs[1..][t].0 == k || pairs[1..][t].1 == k);
    assert pairs[t + 1] == pairs[1..][t];
  }

  /** The collision pass over `pairs` (lines 197-228), in order. Only
      velocities, spins and target opacities change; a logo no pair mentions
      is untouched; total momentum is conserved. */
  function CollidePairs(root: real -> real, ls: seq<Logo>, pairs: seq<(nat, nat)>, dr: TickDraws): (r: seq<Logo>)
    requires IsSqrt(root) && ValidDraws(dr) && PositiveMasses(ls)
    requires forall t :: 0 <= t < |pairs| ==> pairs[t].0 < pairs[t].1 < |ls|
    decreases |pairs|
    ensures |r| == |ls|
    ensures forall k :: 0 <= k < |ls| ==>
              r[k] == ls[k].(velocity := r[k].velocity, rotationSpeed := r[k].rotationSpeed,
                             targetOpacity := r[k].targetOpacity)
    ensures forall k :: 0 <= k < |ls| ==>
              r[k].targetOpacity == ls[k].targetOpacity || r[k].targetOpacity == 1.0
    ensures forall k :: 0 <= k < |ls| && !Mentions(pairs, k) ==> r[k] == ls[k]
    ensures Momentum(r) == Momentum(ls)
  {
    if |pairs| == 0 then ls
    else
      var next := ResolveAt(root, ls, pairs[0].0, pairs[0].1, dr);
      var r := CollidePairs(root, next, pairs[1..], dr);
      assert forall k :: 0 <= k < |ls| && !Mentions(pairs, k) ==> r[k] == ls[k] by {
        forall k | 0 <= k < |ls| && !Mentions(pairs, k)
          ensures r[k] == ls[k]
        {
          if Mentions(pairs[1..], k) {
            MentionsTail(pairs, k);
          }
          assert !(pairs[0].0 == k || pairs[0].1 == k);
        }
      }
      r
  }

  /** Logo `i`'s iteration of the tick: its own stages, its collision pass
      over `row`, the pairs of `i` with every later logo (line 197), then its
      opacity step (line 232). */
  function Step(root: real -> real, ls: seq<Logo>, p: Pointer, dr: TickDraws, i: nat,
                row: seq<(nat, nat)>): (r: seq<Logo>)
    requires IsSqrt(root) && ValidDraws(dr) && PositiveMasses(ls) && i < |ls|
    requires row == Row(i, i + 1, |ls|)
    ensures SameBodies(ls, r) && PositiveMasses(r)
    ensures forall k :: 0 <= k < |ls| && k != i ==> r[k].position == ls[k].position
    ensures forall k :: 0 <= k < i ==> r[k] == ls[k]
    ensures AllValid(ls) ==> AllValid(r)
  {
    var advanced := ls[i := Advance(root, ls[i], p, dr.idle(i))];
    RowSparesEarlier(i, |ls|, row);
    var collided := CollidePairs(root, advanced, row, dr);
    assert AllValid(ls) ==> AllValid(collided) by {
      if AllValid(ls) {
        assert Valid(advanced[i]);
        assert AllValid(advanced);
        PassKeepsValid(advanced, collided);
      }
    }
    collided[i := Relax(collided[i])]
  }

  /** Logo `i`'s row pairs it with later logos only, so it never touches an
      earlier one. */
  lemma RowSparesEarlier(i: nat, n: nat, row: seq<(nat, nat)>)
    requires i < n && row == Row(i, i + 1, n)
    ensures forall t :: 0 <= t < |row| ==> row[t].0 < row[t].1 < n
    ensures forall k :: 0 <= k < i ==> !Mentions(row, k)
  {
    RowShape(i, i + 1, n);
  }

  /** The collision pass keeps every logo valid. */
  lemma PassKeepsValid(ls: seq<Logo>, r: seq<Logo>)
    requires AllValid(ls) && |r| == |ls|
    requires forall k :: 0 <= k < |ls| ==>
               r[k] == ls[k].(velocity := r[k].velocity, rotationSpeed := r[k].rotationSpeed,
                              targetOpacity := r[k].targetOpacity)
    requires forall k :: 0 <= k < |ls| ==>
               r[k].targetOpacity == ls[k].targetOpacity || r[k].targetOpacity == 1.0
    ensures AllValid(r)
  {
    forall k | 0 <= k < |r|
      ensures Valid(r[k])
    {
      StaysValid(ls[k], r[k]);
    }
  }

  /** The collision pass keeps a logo valid: it moves nothing and only ever
      raises the target opacity to full. */
  lemma StaysValid(l: Logo, r: Logo)
    requires Valid(l)
    requires r == l.(velocity := r.velocity, rotationSpeed := r.rotationSpeed,
                     targetOpacity := r.targetOpacity)
    requires r.targetOpacity == l.targetOpacity || r.targetOpacity == 1.0
    ensures Valid(r)
  {
  }

  /** Iterations `i`, ..., `|ls| - 1` of one tick. `pairs` is what is left
      of the tick's pair schedule: iteration `i` takes its first `|ls| - i - 1`
      pairs, its row, and hands the rest on. */
  function TickFrom(root: real -> real, ls: seq<Logo>, p: Pointer, dr: TickDraws, i: nat,
                    pairs: seq<(nat, nat)>): (r: seq<Logo>)
    requires IsSqrt(root) && ValidDraws(dr) && PositiveMasses(ls)
    requires pairs == PairsFrom(i, |ls|)
    decreases |ls| - i
    ensures SameBodies(ls, r) && PositiveMasses(r)
    ensures forall k :: 0 <= k < i && k < |ls| ==> r[k] == ls[k]
    ensures AllValid(ls) ==> AllValid(r)
  {
    if i >= |ls| then ls
    else
      var split := |ls| - i - 1;
      SplitRow(i, |ls|);
      TickFrom(root, Step(root, ls, p, dr, i, pairs[..split]), p, dr, i + 1, pairs[split..])
  }

  /** One whole tick, which tests exactly the pairs of Schedule(|ls|) (each
      pair `i < j` once, see ScheduleOnce). Every logo keeps its body, and
      when every logo starts valid (in bounds, visible opacities) every logo
      ends valid. */
  function Tick(root: real -> real, ls: seq<Logo>, p: Pointer, dr: TickDraws): (r: seq<Logo>)
    requires IsSqrt(root) && ValidDraws(dr) && PositiveMasses(ls)
    ensures SameBodies(ls, r) && PositiveMasses(r)
    ensures AllValid(ls) ==> AllValid(r)
  {
    TickFrom(root, ls, p, dr, 0, Schedule(|ls|))
  }

  /** Successive ticks, one per pointer state and set of draws. */
  function Run(root: real -> real, ls: seq<Logo>, ps: seq<Pointer>, drs: seq<TickDraws>): (r: seq<Logo>)
    requires IsSqrt(root) && PositiveMasses(ls)
    requires |ps| == |drs| && forall t :: 0 <= t < |drs| ==> ValidDraws(drs[t])
    decreases |ps|
    ensures SameBodies(ls, r) && PositiveMasses(r)
    ensures AllValid(ls) ==> AllValid(r)
  {
    if |ps| == 0 then ls
    else Run(root, Tick(root, ls, ps[0], drs[0]), ps[1..], drs[1..])
  }
}
