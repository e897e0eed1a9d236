# Portfolio logo physics and marquee rows, in Dafny

This project models the two pieces of logic in the portfolio site's logo
components:

- **The draggable logo canvas** (`components/main/Advanced.tsx`). Logos are
  bodies on a fixed 800 x 600 canvas. They are created with random size,
  position, velocity, spin and opacity. Each animation tick visits them in
  index order. For each logo the tick:
  - pulls it toward a held pointer with an inverse-square force;
  - damps it by friction;
  - moves it;
  - clamps it against the walls with a 0.8 restitution bounce;
  - tests it against every later logo, pushing overlapping pairs apart in
    inverse proportion to their masses;
  - eases its opacity toward its target.

  The mouse handlers map client coordinates onto the canvas.
- **The marquee rows** (`getLogoSets` in `components/main/Animated.tsx`). The
  logo list is padded with copies until it has at least fifteen entries. It is
  then shuffled and cut into three rows of at most eight.

Modules:

| file | module | contents |
|---|---|---|
| `wrappers.dfy` | `Wrappers` | `Option` |
| `geometry.dfy` | `Geometry` | plane vectors; the square-root stand-in (`IsSqrt`, `IsLength`, `Length`); the `atan2`/`cos`/`sin` stand-in (`Direction`) |
| `logos.dfy` | `Logos` | the `Logo` record, the constants, the per-tick random draws, the invariant `Valid` |
| `input.dfy` | `Input` | the pointer state and the mouse handlers |
| `init.dfy` | `Init` | logo creation |
| `motion.dfy` | `Motion` | attraction, friction, integration, bounce, opacity easing |
| `collision.dfy` | `Collision` | the pair test: mass ratios, the separating push, momentum |
| `pairs.dfy` | `Pairs` | the order in which a tick tests pairs of logos |
| `tick.dfy` | `Tick` | the whole tick as an index-ordered fold; total momentum; validity over many ticks |
| `marquee.dfy` | `Marquee` | padding, shuffle, row slicing |

### How numbers, roots, angles and randomness are modelled

- Numbers are Dafny `real`, not IEEE doubles.
- **Square roots.** `Math.sqrt` becomes a distance `d` with `0 <= d` and
  `d * d` equal to the squared length.
  - A single stage takes `d` as a parameter.
  - The whole tick takes a square-root function `root` with `IsSqrt(root)`,
    because its distances depend on states the tick computes.
- **Angles.** `Math.atan2` followed by `cos`/`sin` becomes the unit vector
  `delta / d`, or `(1, 0)` when `d == 0`, since `atan2(0, 0) = 0`.
- **Randomness.**
  - Every `Math.random()` value is a parameter in `[0, 1)`: nine per created
    logo (`InitDraws`), and per tick `TickDraws`.
  - The random id suffixes of marquee copies are an arbitrary function.
  - The random-comparator sort is an arbitrary sequence of exchanges.

### Two details of the tick's order

- **Attraction has a dead zone.** While the button is held, a logo whose
  centre is within distance 5 of the pointer gets no pull, and its target
  opacity is left alone (`components/main/Advanced.tsx:158`).
- **A collision comes before the later logo's own move.** The pair `(i, j)`,
  `i < j`, is resolved in `i`'s iteration, before `j` is attracted, moved and
  clamped in that tick. `j` then moves once, with the velocity the collision
  gave it.

## Model

| member | source | states |
|---|---|---|
| Geometry.Length | components/main/Advanced.tsx:156 | the square-root oracle gives a non-negative `d` whose square is the squared distance |
| Geometry.Direction | components/main/Advanced.tsx:206-208 | `(cos atan2(dy,dx), sin atan2(dy,dx))` is a unit vector; for apart points `d` times it is the offset and its projection on the offset is `d`; for coincident points it is `(1, 0)` |
| Init.InitLogo | components/main/Advanced.tsx:66-85 | given draws in [0,1), the logo has:<br>• its list entry's id, name and path<br>• size in [40,80) and mass = size/20 in [2,4)<br>• 0 <= x < 800-size and 0 <= y < 600-size<br>• speed per axis in [-0.75,0.75)<br>• rotation in [0,2π) and spin in [-0.015,0.015)<br>• both opacities in [0.7,1.0)<br>• and it is valid |
| Init.InitLogos | components/main/Advanced.tsx:66-85 | one logo per list entry, in order, all valid with positive masses |
| Input.ToCanvas | components/main/Advanced.tsx:89-93 | client-to-canvas scaling. It is defined exactly when the displayed rectangle has non-zero width and height. Its result maps back to the client point |
| Input.CanvasRoundTrip | components/main/Advanced.tsx:91-92 | a canvas point shown on screen and read back is unchanged |
| Input.ToCanvasInside | components/main/Advanced.tsx:91-92 | a client point over the canvas rectangle lands inside 0..800 x 0..600 |
| Input.PointerAfter | components/main/Advanced.tsx:89-101 | after any sequence of mouse events from the initial state of lines 31-35 (origin, no button), the button is held exactly when some mousedown has been followed only by moves |
| Input.Handle | components/main/Advanced.tsx:89-101 | mousedown sets the button flag. Mouseup and mouseleave clear it. A move keeps the flag and stores the point that maps back to the client position |
| Motion.Pull | components/main/Advanced.tsx:158-159 | beyond distance 5 the pull `f` satisfies `f·d² = 0.5` and `0 < f < 0.02` |
| Motion.Attract | components/main/Advanced.tsx:153-166 | only velocity and target opacity change:<br>• pointer up: velocity unchanged, target resampled into [0.7,1)<br>• pointer down and d <= 5: nothing changes<br>• pointer down and d > 5: target 1.0, velocity changed by Pull(d) along the unit direction to the pointer |
| Motion.AttractTowardPointer | components/main/Advanced.tsx:154-162 | the velocity change has positive projection on the offset to the pointer. Its squared length is Pull(d)², below 0.02² |
| Motion.ApplyFriction | components/main/Advanced.tsx:169-170 | only velocity changes; each component keeps its sign and its magnitude becomes 0.99 times the old |
| Motion.FrictionSlows | components/main/Advanced.tsx:169-170 | friction never increases a velocity component's magnitude or the squared speed |
| Motion.Integrate | components/main/Advanced.tsx:173-177 | only position and rotation change: the position moves by the velocity, the rotation by the spin |
| Motion.BounceAxis | components/main/Advanced.tsx:180-194 | one axis of the bounce:<br>• a box strictly inside is untouched<br>• touching or crossing a wall puts it on that wall and turns v into -0.8·v<br>• a box no wider than the canvas ends inside<br>• the speed never grows |
| Motion.BounceSettles | components/main/Advanced.tsx:180-194 | bouncing a clamped box again does not move it |
| Motion.Bounce | components/main/Advanced.tsx:180-194 | each axis is BounceAxis of that axis alone, so a clamp on one axis leaves the other untouched. Only position and velocity change. A logo no larger than the canvas ends in bounds. Neither velocity component grows |
| Motion.Ease | components/main/Advanced.tsx:232 | the new opacity lies between the old one and the target, and the gap to the target shrinks to 0.9 of what it was |
| Motion.EaseConverges | components/main/Advanced.tsx:232 | after k steps the gap is 0.9^k of the first, and the opacity never overshoots the target |
| Motion.Relax | components/main/Advanced.tsx:232 | only the opacity changes; it stays in [0.7,1] when it and the target start there |
| Collision.MassRatios | components/main/Advanced.tsx:213-214 | the two ratios sum to 1 and lie in (0,1). They are inversely proportional to the masses (m1·r1 = m2·r2), so the lighter body takes the larger share |
| Collision.PushAlongCentres | components/main/Advanced.tsx:206-210 | for apart centres the push is 0.05·(minDistance - d) along the unit vector from the first centre to the second |
| Collision.PushCoincident | components/main/Advanced.tsx:206-210 | for coincident centres the distance is 0 and the push is 0.05·(minDistance, 0) |
| Collision.ResolvePair | components/main/Advanced.tsx:198-228 | only velocity, spin and target opacity change, and positions never do. No overlap: nothing changes. Overlap:<br>• both targets become 1.0<br>• each spin moves by a kick in [-0.005,0.005)<br>• the first logo loses ratio1·push of velocity and the second gains ratio2·push |
| Collision.Struck | components/main/Advanced.tsx:216-227 | a struck logo takes the new velocity, gets target opacity 1.0 and a spin kick in [-0.005,0.005), and nothing else changes |
| Collision.PairMomentum | components/main/Advanced.tsx:205-219 | a pair test leaves m1·v1 + m2·v2 unchanged on both axes |
| Collision.CollisionSeparates | components/main/Advanced.tsx:206-219 | when apart centres overlap, the second logo gains velocity away from the first and the first loses velocity toward the second |
| Tick.Advance | components/main/Advanced.tsx:153-194 | a logo's own stages in one tick:<br>• only position, velocity, rotation and target change<br>• rotation grows by the spin<br>• the logo ends in bounds<br>• the target stays in [0.7,1] |
| Pairs.RowShape | components/main/Advanced.tsx:197 | logo i's inner loop tests the pairs (i, i+1), …, (i, n-1) in that order, n - i - 1 of them |
| Pairs.ScheduleOnce | components/main/Advanced.tsx:151-197 | in one tick each pair i < j of logos is tested exactly once, lower index first, and no other pair is tested. `Tick.Tick` runs its iterations over exactly this schedule: `Tick.TickFrom` requires the pairs it is handed to be the schedule's remainder and gives each iteration its row |
| Tick.ResolveAt | components/main/Advanced.tsx:198-228 | one pair test on the list: only the two logos change, positions and opacities stay, targets stay or become 1.0, total momentum is kept |
| Tick.CollidePairs | components/main/Advanced.tsx:197-229 | the collision pass changes no position, rotation or opacity, keeps total momentum, raises targets only to 1.0 and leaves unmentioned logos alone |
| Tick.Step | components/main/Advanced.tsx:151-232 | logo i's iteration, which must be handed its row (i, i+1), …, (i, n-1):<br>• keeps every body (id, size, mass) and leaves earlier logos untouched<br>• moves no other logo<br>• keeps every logo valid: in bounds, opacities in [0.7,1] |
| Tick.TickFrom | components/main/Advanced.tsx:151-232 | the remaining iterations, handed the rest of the pair schedule, keep bodies, leave already-visited logos alone and keep every logo valid |
| Tick.Tick | components/main/Advanced.tsx:151-232 | a whole tick keeps every body and keeps every logo valid. In particular every bounding box is on the canvas at the end of the tick |
| Tick.Run | components/main/Advanced.tsx:140-307 | any number of frames keeps every body and every logo valid |
| Marquee.Duplicate | components/main/Animated.tsx:32-35 | a copy shows the same name and image. Its id is the original id followed by `-dup-` and the suffix |
| Marquee.CopyRound | components/main/Animated.tsx:33-35 | one pass appends a copy of every original, in order, with the originals' pictures |
| Marquee.AfterRoundsShape | components/main/Animated.tsx:29-36 | after k passes:<br>• the list has (k+1)·n entries<br>• the originals are its unchanged prefix<br>• its pictures are the originals' pictures repeated k+1 times |
| Marquee.EmptyNeverExits | components/main/Animated.tsx:21-36 | with the default empty list the length stays below 15 after every pass, so the loop never ends |
| Marquee.PaddingExitsIff | components/main/Animated.tsx:29-36 | some number of passes reaches 15 entries if and only if the list is non-empty |
| Marquee.PadLengthSmallest | components/main/Animated.tsx:29-36 | for n >= 1 the padded length is the smallest multiple k·n (k >= 1) that is at least 15; it is n when n >= 15 |
| Marquee.PaddedLengthUnique | components/main/Animated.tsx:29-36 | that smallest multiple is unique |
| Marquee.PadLengthExamples | components/main/Animated.tsx:29-36 | five logos pad to 15, four to 16, seven to 21, fourteen to 28; twenty stay 20 |
| Marquee.PadLogos | components/main/Animated.tsx:29-36 | the padding loop, returning an empty list at once for an empty input. For non-empty input:<br>• the length is the smallest multiple of n that is >= 15<br>• the result is the as-written list after copies-1 passes<br>• the originals are a prefix<br>• every entry shows an original's picture |
| Marquee.Slice | components/main/Animated.tsx:43-45 | `slice(start, end)` yields the entries from start up to end, cut at the list's end |
| Marquee.Rows | components/main/Animated.tsx:42-46 | three rows of at most 8; the first has 8 whenever the list has 8 |
| Marquee.RowsCover | components/main/Animated.tsx:42-46 | the rows read in order are exactly the first min(24, len) entries |
| Marquee.ShortListThirdRowEmpty | components/main/Animated.tsx:42-46 | a list of at most 16 entries leaves the third row empty |
| Marquee.Swap | components/main/Animated.tsx:39 | an exchange of two entries keeps the multiset of entries |
| Marquee.Shuffle | components/main/Animated.tsx:39 | the shuffle is a permutation: same length, same multiset |
| Marquee.ShuffleComplete | components/main/Animated.tsx:39 | every permutation of the list is some shuffle |
| Marquee.LogoSets | components/main/Animated.tsx:27-47 | `getLogoSets`:<br>• three rows of at most 8<br>• the first row has 8 for any non-empty input<br>• an empty input gives three empty rows: this is `getLogoSets` with the corrected padding (`PadLogos`), since as written it never returns on `[]` (see Findings)<br>• every shown entry shows an original logo's picture |
| Marquee.ShownAreOriginals | components/main/Animated.tsx:29-46 | each entry of each row shows the picture of one of the original logos |

## Left out

- **Canvas drawing** is not modelled: clearing, `drawImage`, glow, hover label and instruction text. These are side effects with no result to state.
- **Image loading and its error path** are not modelled. They are asynchronous browser I/O.
- **Host plumbing** is not modelled: event-listener registration and cleanup, `requestAnimationFrame` scheduling, React refs and effects. `Tick.Run` stands for a sequence of frames, and `Input.Handle` for the listeners' effect on the pointer.
- **IEEE-754 rounding** is not modelled. The model uses exact reals, and the browser's `Math.sqrt`, `Math.atan2`, `Math.cos`, `Math.sin` and `Math.random` are replaced by constrained parameters, as described above.
- **Mouse coordinates over a collapsed canvas.** When the canvas rectangle has zero width or height, the browser stores an infinite or NaN coordinate. The model keeps the previous pointer instead.
- **Uniqueness of the `-dup-` ids** is not modelled: it rests on random strings.
- **The sort's comparator.** The model does not model how a comparator that answers randomly drives `Array.prototype.sort`. It covers only the fact that the result is some permutation.
- **Framer-motion variants, all JSX, the skills section and the page composition** are not modelled. They are UI only.

## Findings

| source | as written | input that shows it | evidently intended | confidence | as-written member | corrected member |
|---|---|---|---|---|---|---|
| components/main/Animated.tsx:21-36 | `while (extendedLogos.length < 15)` appends a copy of `logos` each pass. When `logos` is empty, which is the prop's default, nothing is ever appended, so the loop never exits | `logos = []`, the default | padding always terminates; an empty list yields three empty rows | high; not executed | Marquee.EmptyNeverExits | Marquee.PadLogos, Marquee.LogoSets |
