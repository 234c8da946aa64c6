# Archer scene: collision and projectile core in Dafny

This project models the collision and projectile logic of a small OpenGL archery scene. It has two parts.

- **The AABB library** (`src/collisions.cpp`):
  - the local box of a mesh, folded from its flat x, y, z vertex array;
  - the re-enclosure of a box after an affine model matrix moves its 8 corners;
  - the closed-interval overlap test;
  - the name-keyed table of world boxes;
  - the list of intersecting (moving, static) name pairs.
- **The arrow and session state** (`src/main.cpp`). The source keeps this state in globals. Here it is one immutable `Session` record with pure step functions:
  - the per-frame flight update along a cubic Bézier curve (`UpdateArrow`);
  - the Space key and `FireArrow`;
  - the C (recover) key;
  - the per-frame hit, score and game-over block.
- **The input steps** (`src/main.cpp`), in the `Controls` module: the archer's WASD movement with its same-frame revert on contact, the camera's phi clamp, the zoom floor, and the T and E keys that move target 1 and pulse target 2's scale.

Modules:

- `Geometry` (`geometry.dfy`): real 3-vectors, 4×4 matrices by rows, and the float constants the source uses.
- `Collisions` (`collisions.dfy`): `src/collisions.cpp`.
- `Arrow` (`arrow.dfy`): Bézier evaluation, the session record and its steps, the `Valid` invariant, and the event runner `Run`.
- `Controls` (`controls.dfy`): movement, camera and target-animation steps.

Every float is an exact real. Results about exact equality hold for the real-valued model only:

- reverting a move gives net displacement zero;
- the identity transform returns the same box;
- a translation shifts the box.

The Bézier endpoint results also hold in single precision, because the weights at t = 0 and t = 1 are exactly 0 and 1.

`PointInsideAABB` is called by the frame loop (src/main.cpp:652-654), but its body is not part of this model. It is taken to be inclusive containment on all three axes, which is an assumption.

Behaviour of the code as written worth knowing:

- **The hit block is not gated on the arrow being in flight.** It tests only that the arrow has not already collided (src/main.cpp:655, 668). So an idle arrow whose box touches a wall uses a try (`Arrow.IdleArrowWallContactUsesTry`). After a miss, the arrow's recorded position stays at the flight's end point. If a target box later covers that point, the idle arrow scores (`Arrow.IdleArrowCanScore`). Gating the block on flight would break the intended hit at t = 1, because `UpdateArrow` clears the flight flag in the same frame, before the hit test. For that reason the model keeps the code's behaviour and does not "correct" it.
- **A finished miss does not return the recorded position to the archer.** When the flight ends, `UpdateArrow` leaves the position at the curve's end point, the target (src/main.cpp:1464-1472). Only the drawn model is re-attached to the archer, through the not-fired, not-collided branch of the arrow's model matrix (src/main.cpp:523-534); the position itself is reset only by the C key (src/main.cpp:1268) and by the next shot (src/main.cpp:1452). See `Arrow.UpdateArrow` and `Arrow.CleanMissScenario`.
- **The unprojected aim point has no guard for a ray parallel to the ground plane.** The ray parameter is a plain division by the ray's y component (src/main.cpp:1411-1413), with no test for zero. The model takes the aim point as an opaque input to `FireArrow` and has no rejection path.
- **The empty box only misses everything while it is untransformed** (`Collisions.EmptyBoxIntersection`). A mesh with no vertices keeps the initial max-float/lowest-float box (src/collisions.cpp:15-16), but `CreateWorldBoundingBoxes` always transforms local boxes (src/collisions.cpp:67-68), and the corner fold re-sorts each axis (src/collisions.cpp:37-43). The transformed empty box is therefore well formed and, under the identity, spans the whole float range (`Collisions.EmptyBoxTransformedByIdentity`).
- **The game ends when `tries == 5`, and nothing stops further shots.** The test is an equality (src/main.cpp:676-678) and the Space key checks only the arrow's flags (src/main.cpp:1259), so `tries` can pass 5. `game_over` stays set because no line clears it, and `Valid` records it as `gameOver <==> tries >= 5`.

## Model

| member | source | states |
|---|---|---|
| Collisions.GrowAll | src/collisions.cpp:17-21 | The min/max fold covers its start box and contains every folded point. Each face of the result comes from the start box or from some folded point. |
| Collisions.Vertices | src/collisions.cpp:17-18 | Vertex k of the flat array is (v[3k], v[3k+1], v[3k+2]). There are \|v\|/3 vertices. |
| Collisions.ComputeLocalBoundingBox | src/collisions.cpp:13-23 | An empty array gives the inverted box (min at float max, max at float lowest). Every vertex lies in the result. A non-empty array gives a well-formed box. |
| Collisions.LocalBoxContainsVertices | src/collisions.cpp:17-21 | For a length that is a multiple of 3, each vertex lies component-wise within [min, max] of the computed box. |
| Collisions.LocalBoxIsTight | src/collisions.cpp:15-21 | For non-empty arrays of finite floats, every min and max component of the box equals that component of some vertex. |
| Collisions.TransformBoundingBox | src/collisions.cpp:26-45 | The result has min ≤ max on every axis, whatever the input. It contains the image of all 8 corners. |
| Collisions.TransformBoxIsTight | src/collisions.cpp:37-43 | Each face of the transformed box is the coordinate of some corner's image. |
| Collisions.TightBoxIsUnique | src/collisions.cpp:37-44 | Any box that holds every corner image and has two corner images as its own min and max is the transformed box. |
| Collisions.TransformByIdentity | src/collisions.cpp:26-45 | The identity matrix returns a well-formed box unchanged. |
| Collisions.TransformByTranslation | src/collisions.cpp:26-45 | A pure translation by t returns a well-formed box shifted by t. |
| Collisions.TransformBoxEnclosesImage | src/collisions.cpp:26-45 | The re-enclosure is conservative: the image of every point inside the box lies inside the transformed box. |
| Collisions.EmptyBoxTransformedByIdentity | src/collisions.cpp:15-45 | Under the identity, the transformed empty box spans the whole float range on every axis instead of staying empty. |
| Collisions.PointInsideAABB | src/main.cpp:652-654 | Assumed body: a point is inside a box exactly when, on every axis, it lies between the box's min and max, bounds included. |
| Collisions.IntersectAABB | src/collisions.cpp:48-52 | For well-formed boxes, the test holds exactly when the corner made of the larger of the two mins on each axis lies in both boxes. |
| Collisions.IntersectSymmetric | src/collisions.cpp:48-52 | The overlap test does not depend on argument order. |
| Collisions.TouchingBoxesIntersect | src/collisions.cpp:48-52 | Two well-formed boxes that share only the face a.max.x = b.min.x, and overlap on y and z, intersect. |
| Collisions.SelfIntersection | src/collisions.cpp:48-52 | A box intersects itself exactly when it is well formed. |
| Collisions.EmptyBoxIntersection | src/collisions.cpp:48-52 | The inverted empty box, in either position, intersects exactly the boxes that span the full float range on all axes. So it misses every box with a max component below float max. |
| Collisions.IntersectIffCommonPoint | src/collisions.cpp:48-52 | For well-formed boxes, the closed overlap test holds exactly when the boxes share a point. |
| Collisions.PointInsideIffDegenerateIntersects | src/main.cpp:652-654 | A point is inside a box exactly when the zero-size box at that point intersects it. |
| Collisions.CreateWorldBoundingBoxes | src/collisions.cpp:57-71 | The keys are exactly the names that have both a model and a matrix, so models without a matrix are skipped. Every entry is the well-formed transform of that model's local box. |
| Collisions.CollisionsOf | src/collisions.cpp:80-84 | The inner loop for one moving object reports at most \|statics\| pairs, and every pair starts with the moving object's name. |
| Collisions.CollisionsOfExact | src/collisions.cpp:80-84 | For one moving object, a name pair is reported exactly when some static with that name intersects it. |
| Collisions.CheckCollisionsExact | src/collisions.cpp:74-87 | A name pair is reported exactly when some moving object and some static object with those names have intersecting boxes. |
| Collisions.CheckCollisions | src/collisions.cpp:74-87 | There are at most \|moving\| · \|statics\| pairs. |
| Collisions.CheckCollisionsAppend | src/collisions.cpp:79-85 | The order is moving-major: the pairs of earlier moving objects come before those of later ones. |
| Collisions.CollisionsOfAppend | src/collisions.cpp:80-84 | Within one moving object, pairs follow the statics' order. |
| Arrow.CalculateBezierPoint | src/main.cpp:1375-1385 | The curve starts at the first control point (t = 0) and ends at the last (t = 1). |
| Arrow.BernsteinSum | src/main.cpp:1377-1382 | The four weights sum to 1 for every t. |
| Arrow.BezierTranslates | src/main.cpp:1375-1385 | Shifting all control points by d shifts every curve point by d. |
| Arrow.BlendInRange | src/main.cpp:1377-1382 | For t in [0, 1], each coordinate of the curve lies between the bounds of the control coordinates. |
| Arrow.BezierInControlHull | src/main.cpp:1375-1385 | For t in [0, 1], the curve point stays inside the axis-aligned box of the four control points. |
| Arrow.UpdateArrow | src/main.cpp:1456-1472 | Nothing changes unless the arrow is fired and not collided. When time + dt reaches the 1 s duration, the flight ends, time resets to 0 and the position is the target point. Otherwise time grows by dt and the position is the curve point at time/duration. Score, tries, game over, collision flag and flight path are unchanged. |
| Arrow.FireArrow | src/main.cpp:1420-1453 | Firing while already fired changes nothing. Otherwise it arms the arrow with time 0. Start and target are pushed out along the direction by half the scaled arrow length. The position is set to the start. Counters and the collision flag are unchanged. |
| Arrow.ControlPointsOnChord | src/main.cpp:1437-1450 | When direction·distance spans origin to aim, start and target keep that chord. The control points sit 1/3 and 2/3 of the way along it, lifted by 4.5 and 3. |
| Arrow.PressSpace | src/main.cpp:1256-1262 | The Space key fires only when the arrow is neither flying nor collided. Then it is flying, not collided, at time 0 and at its start. Otherwise nothing changes. Score, tries and game over never change. |
| Arrow.PressRecover | src/main.cpp:1265-1269 | The C key clears the collision and puts the position back at the start point. Fired, time, flight path, score, tries and game over are unchanged. |
| Arrow.ResolveHits | src/main.cpp:652-674 | While collided, nothing changes. A target point-hit takes priority and disarms, marks collided, adds a try and adds 50 to the score. A wall box-hit, when there is no target hit, does the same without scoring. With no hit, nothing changes. The position and flight are never touched. |
| Arrow.CheckGameOver | src/main.cpp:676-678 | Game over becomes set when tries equals 5 and is never cleared. Nothing else changes. |
| Arrow.Frame | src/main.cpp:652-678 | One render-loop pass (the flight update called at src/main.cpp:401, then this block) never lowers the score or the tries, uses at most one try, and uses one only by leaving the arrow collided and disarmed. The score changes only by one 50-point bonus together with a try. A finished session stays finished. |
| Arrow.Step | src/main.cpp:1256-1269 | A key event (Space, C) never changes the score, the tries or the game-over flag. A render-loop pass raises the tries by at most one. |
| Arrow.Run | src/main.cpp:337-687 | The session follows its events in order: each pass of the render loop is one Tick, and key callbacks are applied between passes, as the poll at the end of each pass delivers them. Key events alone leave score, tries and game over unchanged. After n events the tries have grown by at most n. |
| Arrow.InitialSessionValid | src/main.cpp:149-177 | The starting globals satisfy the session invariant. |
| Arrow.UpdateArrowPreservesValid | src/main.cpp:1458-1468 | With a non-negative frame time, the flight update keeps the timer in [0, 1) and keeps the other invariant parts. |
| Arrow.ResolveHitsKeepsCounts | src/main.cpp:652-674 | Hit resolution keeps score ≤ 50·tries in multiples of 50 and never makes the arrow both flying and collided. It can leave tries at 5 with game over still to be set. |
| Arrow.CheckGameOverRestoresValid | src/main.cpp:676-678 | After the terminal check, game over holds exactly when at least 5 tries have been used. |
| Arrow.StepPreservesValid | src/main.cpp:652-678 | Each frame and each key event keeps the invariant. |
| Arrow.RunPreservesValid | src/main.cpp:652-678 | Every event sequence with a forward clock keeps the invariant: score ≤ 50·tries, never flying and collided at once, and game over exactly when tries ≥ 5. |
| Arrow.RunIsMonotone | src/main.cpp:655-678 | Score and tries never decrease, and a finished session stays finished. |
| Arrow.IdleArrowWallContactUsesTry | src/main.cpp:664-673 | An arrow that is not flying, not collided and not on a target, whose box touches a wall, still uses a try without scoring. |
| Arrow.IdleArrowCanScore | src/main.cpp:652-662 | An arrow that is neither flying nor collided, whose recorded position lies in a target box, scores 50 and uses a try. |
| Arrow.CollidedArrowIsFrozen | src/main.cpp:652-678 | In a session satisfying the invariant, a frame leaves a collided arrow's session entirely unchanged, whatever the scene, even when the arrow lies inside a target box: both hit branches are gated on the collision flag, and game over is already set once five tries are used. |
| Arrow.CleanMissScenario | src/main.cpp:1460-1472 | A flight from the origin to (0,0,10), run for 1 s with nothing in the way, ends idle at (0,0,10) with score and tries unchanged. |
| Arrow.TargetHitScenario | src/main.cpp:652-662 | The same flight with target box (-1,-1,9)..(1,1,11) ends collided at the flight's end point with one more try and 50 more points. |
| Arrow.OneWallRound | src/main.cpp:664-678 | Fire, a frame with a wall hit, then recover uses exactly one try, scores nothing and leaves the arrow idle. |
| Arrow.WallRoundsCount | src/main.cpp:664-678 | After n such rounds from the start, n tries are used, the score is 0, and game over holds exactly when n ≥ 5. |
| Arrow.FiveWallHitsEndSession | src/main.cpp:664-678 | Five wall-hit flights end the session. Four do not. |
| Controls.ApplyMovement | src/main.cpp:415-437 | The four key updates, applied W, S, D, A in turn, add up to Speed·dt times forward·(W − S) + right·(D − A). |
| Controls.RevertMovement | src/main.cpp:634-649 | The reversal moves the archer by exactly the negated net step. |
| Controls.RevertUndoesMovement | src/main.cpp:634-649 | The reversal block exactly undoes the movement block over the reals. |
| Controls.OppositeKeysCancel | src/main.cpp:422-437 | Holding W with S and A with D leaves the archer in place. |
| Controls.ForwardStepLength | src/main.cpp:415-425 | With a unit heading, W alone moves the archer by speed·dt. |
| Controls.MovePlayer | src/main.cpp:626-650 | If the archer's box meets any target or wall box, the frame's net displacement is zero. Otherwise the held keys' deltas apply. |
| Controls.PlayerBlockedScenario | src/main.cpp:626-650 | The archer against a wall with W held ends the frame where it started. |
| Controls.ClampPhi | src/main.cpp:1194-1202 | The result is in [-3.141592/2, 3.141592/2]. It equals the input when the input is in range, and the nearer bound otherwise. |
| Controls.ClampPhiIdempotent | src/main.cpp:1198-1202 | Clamping twice is clamping once. |
| Controls.ClampPhiMonotone | src/main.cpp:1198-1202 | The clamp preserves order. |
| Controls.CursorPosCallback | src/main.cpp:1182-1227 | A left drag turns theta by -0.01·dx and tilts phi by 0.01·dy, clamped to the phi range. Without the left button, theta and phi are unchanged. Any held button records the cursor position. With no button held, nothing changes. |
| Controls.ScrollCallback | src/main.cpp:1230-1238 | The distance never drops below float epsilon. It is the decremented distance or epsilon, whichever is larger. Nothing else changes. |
| Controls.ScrollMonotone | src/main.cpp:1233-1237 | Scrolling further in never leaves the camera farther away. |
| Controls.PressT | src/main.cpp:1272-1283 | A press moves target 1 one unit in its current direction. Rising, it turns around exactly when the new position reaches 17. Falling, it turns around exactly when the new position reaches -17. |
| Controls.PressE | src/main.cpp:1286-1297 | A press changes target 2's scale by one 0.002 step in its current direction. Rising, it turns around exactly at the fifth step (0.01). Falling, it turns around exactly on returning to 0. |
| Controls.PressTKeepsRange | src/main.cpp:1272-1283 | One T press keeps target 1 in [-17, 17] with room to move in its current direction. |
| Controls.PressEKeepsRange | src/main.cpp:1286-1297 | One E press keeps target 2's extra scale in [0, 0.01] with room to move in its current direction. |
| Controls.TargetOneStaysInRange | src/main.cpp:1272-1283 | Any number of T presses keeps T1_posx in [-17, 17]. |
| Controls.TargetTwoStaysInRange | src/main.cpp:1286-1297 | Any number of E presses keeps T2_scale in [0, 0.01]. |
| Controls.TargetOneClimbs | src/main.cpp:1274-1277 | While rising, each press adds one unit, and the direction flips exactly on reaching 17. |
| Controls.TargetOneTurnsAtSeventeen | src/main.cpp:1272-1283 | From the start, 17 T presses bring target 1 to 17 and turn it around. |

## Left out

- Rendering, shader, texture, VAO and text-overlay code, OBJ loading, `DrawVirtualObject*`, `ApplyMaterial` and `PrintObjModelInfo`: these are graphics-API and file I/O.
- `ComputeNormals`: normal averaging for shading, not collision logic.
- `ScreenToWorldCoordinates` and the cursor query in `FireArrow`: matrix inversion, normalisation and a framebuffer query. The aim point, the launch origin, the normalised direction and the distance are `Launch` inputs.
- The arrow's orientation (atan2/asin of the launch direction) and all model matrices built from rotations, scales and `sin`/`cos` of theta: trigonometry outside the model. The archer's, arrow's, targets' and walls' world boxes for a frame are inputs. The heading's sine and cosine are inputs.
- The body of `PointInsideAABB`: it is not part of this model. Inclusive containment is assumed.
- The R key (target 3's rotation, an unbounded angle increment), the F, Escape and Shift+digit keys, and the WASD press/release flags: plain flag or exit handling with no bounded state to verify.
- The right and middle mouse button branches compute a delta that is never used. Only their update of the last cursor position is modelled.
- The frame-time measurement: `dt` is an input. The invariant lemmas assume it is non-negative, as the monotonic clock gives.
- Collisions.ComputeLocalBoundingBox: requires the array length to be a multiple of 3, because the source reads past the end of the array otherwise.
- Collisions.LocalBoxIsTight: holds only for coordinates within the finite float range, because a real coordinate beyond float max would leave the initial bound in place.
- Controls.PressEKeepsRange: the bounds [0, 0.01] hold over the reals only. In single precision, 0.002 is not exact, and the accumulated scale can end just outside the interval, by about 7e-10 above 0.01 and about 4.7e-10 below 0; the turning points stay at 5 and 0 presses. Controls.TargetTwoStaysInRange carries the same caveat.
- Controls.MovePlayer: takes the archer's world box at the moved position as an input rather than building it from the archer's model matrix.
- IEEE single-precision rounding in general: every quantity is a real.
- The score and try counters are 32-bit `int` in the source (src/main.cpp:175-176); the model uses unbounded integers. Overflow would need more than 40 million hits, each followed by a C press, so it is not modelled.
