/**
  The bounded input steps of src/main.cpp: the archer's WASD movement and
  its same-frame revert on contact, the camera's phi clamp on mouse drag,
  the zoom floor on scroll, and the T and E keys that move target 1 back and
  forth and pulse target 2's scale.
*/
module Controls {
  import opened Geometry
  import opened Collisions

  /** Which movement keys are held this frame. */
  datatype MoveKeys = MoveKeys(w: bool, a: bool, s: bool, d: bool)

  /** The archer's ground position (pos_x, pos_z); pos_y never changes. */
  datatype Player = Player(x: real, z: real)

  /**
    sin and cos of the camera's theta, computed by the excluded
    trigonometry; forward is (-sin, -cos) and right is (cos, -sin).
  */
  datatype Heading = Heading(sin: real, cos: real)

  const Speed: real := 5.0

  /** The step v when the key is held, nothing otherwise. */
  function KeyStep(held: bool, v: real): real {
    if held then v else 0.0
  }

  /** The net displacement along one ground axis: f per W, -f per S, r per D, -r per A. */
  function NetStep(k: MoveKeys, f: real, r: real): real {
    KeyStep(k.w, f) - KeyStep(k.s, f) + KeyStep(k.d, r) - KeyStep(k.a, r)
  }

  /** The W, S, D, A steps of one frame along the ground axes, Speed * dt long. */
  function StepX(dt: real, h: Heading): (real, real) {
    (Speed * dt * -h.sin, Speed * dt * h.cos)
  }

  function StepZ(dt: real, h: Heading): (real, real) {
    (Speed * dt * -h.cos, Speed * dt * -h.sin)
  }

  /** The net step of one frame: forward for W, back for S, right for D, left for A. */
  function NetStepX(k: MoveKeys, dt: real, h: Heading): real {
    NetStep(k, StepX(dt, h).0, StepX(dt, h).1)
  }

  function NetStepZ(k: MoveKeys, dt: real, h: Heading): real {
    NetStep(k, StepZ(dt, h).0, StepZ(dt, h).1)
  }

  /** One key's update: the archer moves by (dx, dz) when the key is held. */
  function MoveIf(p: Player, held: bool, dx: real, dz: real): (r: Player)
    ensures r == Player(p.x + KeyStep(held, dx), p.z + KeyStep(held, dz))
  {
    if held then Player(p.x + dx, p.z + dz) else p
  }

  /** The four key updates in the source's order W, S, D, A, for given forward and right steps. */
  function MoveKeysInOrder(p: Player, k: MoveKeys, fx: real, fz: real, rx: real, rz: real): (r: Player)
    ensures r == Player(p.x + NetStep(k, fx, rx), p.z + NetStep(k, fz, rz))
  {
    var p1 := MoveIf(p, k.w, fx, fz);
    var p2 := MoveIf(p1, k.s, -fx, -fz);
    var p3 := MoveIf(p2, k.d, rx, rz);
    MoveIf(p3, k.a, -rx, -rz)
  }

  /** The movement block: the W, S, D, A updates of one frame add up to the net step. */
  function ApplyMovement(p: Player, k: MoveKeys, dt: real, h: Heading): (r: Player)
    ensures r == Player(p.x + NetStepX(k, dt, h), p.z + NetStepZ(k, dt, h))
  {
    var (fx, rx) := StepX(dt, h);
    var (fz, rz) := StepZ(dt, h);
    MoveKeysInOrder(p, k, fx, fz, rx, rz)
  }

  /** The same-frame reversal: each held key's delta subtracted again. */
  function RevertMovement(p: Player, k: MoveKeys, dt: real, h: Heading): (r: Player)
    ensures r == Player(p.x - NetStepX(k, dt, h), p.z - NetStepZ(k, dt, h))
  {
    var (fx, rx) := StepX(dt, h);
    var (fz, rz) := StepZ(dt, h);
    MoveKeysInOrder(p, k, -fx, -fz, -rx, -rz)
  }

  /** Over the reals the reversal undoes the movement exactly. */
  lemma RevertUndoesMovement(p: Player, k: MoveKeys, dt: real, h: Heading)
    ensures RevertMovement(ApplyMovement(p, k, dt, h), k, dt, h) == p
  {
  }

  /** Holding opposite keys in pairs leaves the archer where it was. */
  lemma OppositeKeysCancel(p: Player, k: MoveKeys, dt: real, h: Heading)
    requires k.w == k.s && k.a == k.d
    ensures ApplyMovement(p, k, dt, h) == p
  {
  }

  /** Holding W alone moves the archer Speed * dt along a unit heading. */
  lemma ForwardStepLength(p: Player, dt: real, h: Heading)
    requires h.sin * h.sin + h.cos * h.cos == 1.0
    ensures var q := ApplyMovement(p, MoveKeys(true, false, false, false), dt, h);
            (q.x - p.x) * (q.x - p.x) + (q.z - p.z) * (q.z - p.z) == (Speed * dt) * (Speed * dt)
  {
    var q := ApplyMovement(p, MoveKeys(true, false, false, false), dt, h);
    var k := Speed * dt;
    assert q.x - p.x == k * (-h.sin) && q.z - p.z == k * (-h.cos);
    assert (k * (-h.sin)) * (k * (-h.sin)) == (k * k) * (h.sin * h.sin);
    assert (k * (-h.cos)) * (k * (-h.cos)) == (k * k) * (h.cos * h.cos);
    assert (k * k) * (h.sin * h.sin) + (k * k) * (h.cos * h.cos) == (k * k) * (h.sin * h.sin + h.cos * h.cos);
  }

  /** The archer's box meets a target box or a wall box. */
  predicate ArcherBlocked(archer: BoundingBox, targets: seq<BoundingBox>, walls: seq<BoundingBox>) {
    || (exists i :: 0 <= i < |targets| && IntersectAABB(archer, targets[i]))
    || (exists i :: 0 <= i < |walls| && IntersectAABB(archer, walls[i]))
  }

  /**
    The archer's movement for one frame: apply the held keys, then, if the
    archer's world box at the moved position (an input: its model matrix
    comes from the excluded transform stage) meets a target or a wall,
    subtract the same deltas again.
  */
  function MovePlayer(p: Player, k: MoveKeys, dt: real, h: Heading,
                      archerBox: BoundingBox, targets: seq<BoundingBox>, walls: seq<BoundingBox>): (r: Player)
    ensures ArcherBlocked(archerBox, targets, walls) ==> r == p
    ensures !ArcherBlocked(archerBox, targets, walls) ==> r == ApplyMovement(p, k, dt, h)
  {
    var moved := ApplyMovement(p, k, dt, h);
    if ArcherBlocked(archerBox, targets, walls) then
      RevertUndoesMovement(p, k, dt, h);
      RevertMovement(moved, k, dt, h)
    else moved
  }

  /**
    The archer pressed against a wall while walking forward ends the frame
    where it started.
  */
  lemma PlayerBlockedScenario(p: Player, dt: real, h: Heading, archerBox: BoundingBox, wall: BoundingBox)
    requires IntersectAABB(archerBox, wall)
    ensures MovePlayer(p, MoveKeys(true, false, false, false), dt, h, archerBox, [], [wall]) == p
  {
    assert IntersectAABB(archerBox, [wall][0]);
  }

  /** Half of the source's 3.141592 bound on phi. */
  const PhiMax: real := 3.141592 / 2.0
  const PhiMin: real := -PhiMax

  /** The two ifs of the cursor callback that keep phi within [PhiMin, PhiMax]. */
  function ClampPhi(phi: real): (r: real)
    ensures PhiMin <= r <= PhiMax
    ensures PhiMin <= phi <= PhiMax ==> r == phi
    ensures phi > PhiMax ==> r == PhiMax
    ensures phi < PhiMin ==> r == PhiMin
  {
    var p1 := if phi > PhiMax then PhiMax else phi;
    if p1 < PhiMin then PhiMin else p1
  }

  lemma ClampPhiIdempotent(phi: real)
    ensures ClampPhi(ClampPhi(phi)) == ClampPhi(phi)
  {
  }

  lemma ClampPhiMonotone(a: real, b: real)
    requires a <= b
    ensures ClampPhi(a) <= ClampPhi(b)
  {
  }

  /** Mouse buttons currently held. */
  datatype Buttons = Buttons(left: bool, right: bool, middle: bool)

  /** The spherical camera and the last cursor position the callbacks saw. */
  datatype Camera = Camera(theta: real, phi: real, distance: real, lastX: real, lastY: real)

  /**
    CursorPosCallback: a left-button drag turns theta and tilts phi by 0.01
    per pixel, phi clamped; any held button records the cursor position.
  */
  function CursorPosCallback(c: Camera, b: Buttons, xpos: real, ypos: real): (r: Camera)
    ensures b.left ==> PhiMin <= r.phi <= PhiMax
    ensures b.left ==> r.phi == ClampPhi(c.phi + 0.01 * (ypos - c.lastY))
    ensures b.left ==> r.theta == c.theta - 0.01 * (xpos - c.lastX)
    ensures !b.left ==> r.theta == c.theta && r.phi == c.phi
    ensures (b.left || b.right || b.middle) ==> r.lastX == xpos && r.lastY == ypos
    ensures !(b.left || b.right || b.middle) ==> r == c
    ensures r.distance == c.distance
  {
    var c1 :=
      if b.left then
        var dx, dy := xpos - c.lastX, ypos - c.lastY;
        c.(theta := c.theta - 0.01 * dx, phi := ClampPhi(c.phi + 0.01 * dy), lastX := xpos, lastY := ypos)
      else c;
    if b.right || b.middle then c1.(lastX := xpos, lastY := ypos) else c1
  }

  /**
    ScrollCallback: each scroll unit moves the camera 0.1 closer, never
    nearer than the float epsilon.
  */
  function ScrollCallback(c: Camera, yoffset: real): (r: Camera)
    ensures r.distance >= FloatEpsilon
    ensures r.distance == Max(c.distance - 0.1 * yoffset, FloatEpsilon)
    ensures r.(distance := c.distance) == c
  {
    var d := c.distance - 0.1 * yoffset;
    if d < FloatEpsilon then c.(distance := FloatEpsilon) else c.(distance := d)
  }

  /** Scrolling further in never leaves the camera farther away. */
  lemma ScrollMonotone(c: Camera, y1: real, y2: real)
    requires y1 <= y2
    ensures ScrollCallback(c, y2).distance <= ScrollCallback(c, y1).distance
  {
  }

  /**
    A back-and-forth counter: the number of unit steps taken from the start
    position and the direction of the next one.
  */
  datatype Oscillator = Oscillator(steps: int, rising: bool)

  /** T1_flag and T2_flag start true; T1_posx and T2_scale start at 0. */
  const OscillatorStart: Oscillator := Oscillator(0, true)

  /** T1_posx: target 1 moves one unit per press. */
  function TargetOnePosition(o: Oscillator): real {
    o.steps as real
  }

  /** T2_scale: target 2 grows by 0.002 per press. */
  function TargetTwoScale(o: Oscillator): real {
    o.steps as real * 0.002
  }

  /** The T key: step target 1 and turn around on reaching 17 or -17. */
  function PressT(o: Oscillator): (r: Oscillator)
    ensures o.rising ==> r == Oscillator(o.steps + 1, o.steps + 1 < 17)
    ensures !o.rising ==> r == Oscillator(o.steps - 1, o.steps - 1 <= -17)
  {
    if o.rising then
      var n := Oscillator(o.steps + 1, o.rising);
      if TargetOnePosition(n) >= 17.0 then n.(rising := false) else n
    else
      var n := Oscillator(o.steps - 1, o.rising);
      if TargetOnePosition(n) <= -17.0 then n.(rising := true) else n
  }

  /** The E key: step target 2's scale and turn around on reaching 0.01 or 0. */
  function PressE(o: Oscillator): (r: Oscillator)
    ensures o.rising ==> r == Oscillator(o.steps + 1, o.steps + 1 < 5)
    ensures !o.rising ==> r == Oscillator(o.steps - 1, o.steps - 1 <= 0)
  {
    if o.rising then
      var n := Oscillator(o.steps + 1, o.rising);
      if TargetTwoScale(n) >= 0.01 then n.(rising := false) else n
    else
      var n := Oscillator(o.steps - 1, o.rising);
      if TargetTwoScale(n) <= 0.0 then n.(rising := true) else n
  }

  /** lo <= steps <= hi, with room to move in the current direction. */
  predicate Oscillating(o: Oscillator, lo: int, hi: int) {
    && lo <= o.steps <= hi
    && (o.rising ==> o.steps < hi)
    && (!o.rising ==> o.steps > lo)
  }

  lemma PressTKeepsRange(o: Oscillator)
    requires Oscillating(o, -17, 17)
    ensures Oscillating(PressT(o), -17, 17)
    ensures -17.0 <= TargetOnePosition(PressT(o)) <= 17.0
  {
  }

  lemma PressEKeepsRange(o: Oscillator)
    requires Oscillating(o, 0, 5)
    ensures Oscillating(PressE(o), 0, 5)
    ensures 0.0 <= TargetTwoScale(PressE(o)) <= 0.01
  {
  }

  function PressTTimes(o: Oscillator, n: nat): Oscillator
    decreases n
  {
    if n == 0 then o else PressTTimes(PressT(o), n - 1)
  }

  function PressETimes(o: Oscillator, n: nat): Oscillator
    decreases n
  {
    if n == 0 then o else PressETimes(PressE(o), n - 1)
  }

  /** However many times T is pressed from the start, target 1 stays in [-17, 17]. */
  lemma {:induction false} TargetOneStaysInRange(o: Oscillator, n: nat)
    requires Oscillating(o, -17, 17)
    ensures Oscillating(PressTTimes(o, n), -17, 17)
    ensures -17.0 <= TargetOnePosition(PressTTimes(o, n)) <= 17.0
    decreases n
  {
    if n > 0 {
      PressTKeepsRange(o);
      TargetOneStaysInRange(PressT(o), n - 1);
    }
  }

  /** However many times E is pressed from the start, target 2's extra scale stays in [0, 0.01]. */
  lemma {:induction false} TargetTwoStaysInRange(o: Oscillator, n: nat)
    requires Oscillating(o, 0, 5)
    ensures Oscillating(PressETimes(o, n), 0, 5)
    ensures 0.0 <= TargetTwoScale(PressETimes(o, n)) <= 0.01
    decreases n
  {
    if n > 0 {
      PressEKeepsRange(o);
      TargetTwoStaysInRange(PressE(o), n - 1);
    }
  }

  /**
    Rising from k, n presses of T climb n units, and the direction flips
    exactly when 17 is reached.
  */
  lemma {:induction false} TargetOneClimbs(k: int, n: nat)
    requires k < 17 && k + n <= 17
    ensures PressTTimes(Oscillator(k, true), n) == Oscillator(k + n, k + n < 17 || n == 0)
    decreases n
  {
    if n > 0 {
      assert PressT(Oscillator(k, true)) == Oscillator(k + 1, k + 1 < 17);
      if k + 1 < 17 {
        TargetOneClimbs(k + 1, n - 1);
      } else {
        assert n == 1;
      }
    }
  }

  /** From the start, 17 presses of T bring target 1 to 17 and turn it around. */
  lemma TargetOneTurnsAtSeventeen()
    ensures PressTTimes(OscillatorStart, 17) == Oscillator(17, false)
  {
    TargetOneClimbs(0, 17);
  }
}
