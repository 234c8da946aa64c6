/**
  The arrow and the scoring session of src/main.cpp, restated as an
  immutable record with pure step functions: the per-frame flight update,
  the fire and recover keys, the per-frame hit resolution and the game-over
  check. Orientation (atan2/asin of the launch direction) and the matrices
  that place the arrow mesh are not modelled; the arrow's world box and the
  target and wall boxes of a frame are inputs.
*/
module Arrow {
  import opened Geometry
  import opened Collisions

  /**
    One coordinate of the cubic Bezier curve: the control coordinates
    weighted by (1-t)^3, 3(1-t)^2 t, 3(1-t) t^2 and t^3.
  */
  function Blend(t: real, a0: real, a1: real, a2: real, a3: real): real {
    var u := 1.0 - t;
    (u * u * u) * a0 + (3.0 * (u * u) * t) * a1 + (3.0 * u * (t * t)) * a2 + (t * t * t) * a3
  }

  /**
    CalculateBezierPoint: the cubic Bezier curve with control points p0..p3
    at t. It starts at p0 and ends at p3.
  */
  function CalculateBezierPoint(t: real, p0: Vec3, p1: Vec3, p2: Vec3, p3: Vec3): (r: Vec3)
    ensures t == 0.0 ==> r == p0
    ensures t == 1.0 ==> r == p3
  {
    Vec3(Blend(t, p0.x, p1.x, p2.x, p3.x),
         Blend(t, p0.y, p1.y, p2.y, p3.y),
         Blend(t, p0.z, p1.z, p2.z, p3.z))
  }

  /** The four Bernstein weights add up to one for every t. */
  lemma BernsteinSum(t: real)
    ensures var u := 1.0 - t; u * u * u + 3.0 * (u * u) * t + 3.0 * u * (t * t) + t * t * t == 1.0
  {
    var u := 1.0 - t;
    assert u + t == 1.0;
    assert (u + t) * (u + t) == u * u + 2.0 * u * t + t * t;
    assert (u + t) * (u + t) * (u + t) == u * u * u + 3.0 * (u * u) * t + 3.0 * u * (t * t) + t * t * t;
  }

  /** Shifting all four control points by d shifts every point of the curve by d. */
  lemma BezierTranslates(t: real, p0: Vec3, p1: Vec3, p2: Vec3, p3: Vec3, d: Vec3)
    ensures CalculateBezierPoint(t, p0.Add(d), p1.Add(d), p2.Add(d), p3.Add(d))
            == CalculateBezierPoint(t, p0, p1, p2, p3).Add(d)
  {
    BlendShift(t, p0.x, p1.x, p2.x, p3.x, d.x);
    BlendShift(t, p0.y, p1.y, p2.y, p3.y, d.y);
    BlendShift(t, p0.z, p1.z, p2.z, p3.z, d.z);
  }

  lemma BlendShift(t: real, a0: real, a1: real, a2: real, a3: real, d: real)
    ensures Blend(t, a0 + d, a1 + d, a2 + d, a3 + d) == Blend(t, a0, a1, a2, a3) + d
  {
    var u := 1.0 - t;
    var w0, w1, w2, w3 := u * u * u, 3.0 * (u * u) * t, 3.0 * u * (t * t), t * t * t;
    BernsteinSum(t);
    assert w0 + w1 + w2 + w3 == 1.0;
    WeightedShift(w0, w1, w2, w3, a0, a1, a2, a3, d);
  }

  lemma WeightedShift(w0: real, w1: real, w2: real, w3: real, a0: real, a1: real, a2: real, a3: real, d: real)
    requires w0 + w1 + w2 + w3 == 1.0
    ensures w0 * (a0 + d) + w1 * (a1 + d) + w2 * (a2 + d) + w3 * (a3 + d)
            == w0 * a0 + w1 * a1 + w2 * a2 + w3 * a3 + d
  {
    assert w0 * (a0 + d) == w0 * a0 + w0 * d;
    assert w1 * (a1 + d) == w1 * a1 + w1 * d;
    assert w2 * (a2 + d) == w2 * a2 + w2 * d;
    assert w3 * (a3 + d) == w3 * a3 + w3 * d;
    assert w0 * d + w1 * d + w2 * d + w3 * d == (w0 + w1 + w2 + w3) * d;
  }

  /** The axis-aligned box around the four control points. */
  function ControlHull(p0: Vec3, p1: Vec3, p2: Vec3, p3: Vec3): BoundingBox {
    GrowAll(BoundingBox(p0, p0), [p1, p2, p3])
  }

  lemma NonNegProduct(a: real, b: real)
    requires a >= 0.0 && b >= 0.0
    ensures a * b >= 0.0
  {
  }

  /** A convex combination of four values lies between their bounds. */
  lemma ConvexCombination(w0: real, w1: real, w2: real, w3: real, a0: real, a1: real, a2: real, a3: real, lo: real, hi: real)
    requires w0 >= 0.0 && w1 >= 0.0 && w2 >= 0.0 && w3 >= 0.0 && w0 + w1 + w2 + w3 == 1.0
    requires lo <= a0 <= hi && lo <= a1 <= hi && lo <= a2 <= hi && lo <= a3 <= hi
    ensures lo <= w0 * a0 + w1 * a1 + w2 * a2 + w3 * a3 <= hi
  {
    var s := w0 * a0 + w1 * a1 + w2 * a2 + w3 * a3;
    assert s - lo == w0 * (a0 - lo) + w1 * (a1 - lo) + w2 * (a2 - lo) + w3 * (a3 - lo) by {
      Distribute(w0, w1, w2, w3, lo);
    }
    assert hi - s == w0 * (hi - a0) + w1 * (hi - a1) + w2 * (hi - a2) + w3 * (hi - a3) by {
      Distribute(w0, w1, w2, w3, hi);
    }
    NonNegProduct(w0, a0 - lo);
    NonNegProduct(w1, a1 - lo);
    NonNegProduct(w2, a2 - lo);
    NonNegProduct(w3, a3 - lo);
    NonNegProduct(w0, hi - a0);
    NonNegProduct(w1, hi - a1);
    NonNegProduct(w2, hi - a2);
    NonNegProduct(w3, hi - a3);
  }

  /** Weights that sum to 1 give back k when each multiplies k. */
  lemma Distribute(w0: real, w1: real, w2: real, w3: real, k: real)
    requires w0 + w1 + w2 + w3 == 1.0
    ensures w0 * k + w1 * k + w2 * k + w3 * k == k
  {
    assert w0 * k + w1 * k + w2 * k + w3 * k == (w0 + w1 + w2 + w3) * k;
  }

  /** For 0 <= t <= 1 all four Bernstein weights are non-negative. */
  lemma BernsteinNonNegative(t: real)
    requires 0.0 <= t <= 1.0
    ensures var u := 1.0 - t;
            u * u * u >= 0.0 && 3.0 * (u * u) * t >= 0.0 && 3.0 * u * (t * t) >= 0.0 && t * t * t >= 0.0
  {
    var u := 1.0 - t;
    NonNegProduct(u, u);
    NonNegProduct(u * u, u);
    NonNegProduct(u * u, t);
    NonNegProduct(t, t);
    NonNegProduct(u, t * t);
    NonNegProduct(t * t, t);
  }

  /** A curve coordinate for 0 <= t <= 1 lies between the bounds of the control coordinates. */
  lemma BlendInRange(t: real, a0: real, a1: real, a2: real, a3: real, lo: real, hi: real)
    requires 0.0 <= t <= 1.0
    requires lo <= a0 <= hi && lo <= a1 <= hi && lo <= a2 <= hi && lo <= a3 <= hi
    ensures lo <= Blend(t, a0, a1, a2, a3) <= hi
  {
    var u := 1.0 - t;
    BernsteinNonNegative(t);
    BernsteinSum(t);
    ConvexCombination(u * u * u, 3.0 * (u * u) * t, 3.0 * u * (t * t), t * t * t, a0, a1, a2, a3, lo, hi);
  }

  /**
    For 0 <= t <= 1 the curve point lies in the box around the control
    points: the arrow never leaves the hull of its control polygon in flight.
  */
  lemma BezierInControlHull(t: real, p0: Vec3, p1: Vec3, p2: Vec3, p3: Vec3)
    requires 0.0 <= t <= 1.0
    ensures PointInsideAABB(CalculateBezierPoint(t, p0, p1, p2, p3), ControlHull(p0, p1, p2, p3))
  {
    var h := ControlHull(p0, p1, p2, p3);
    assert p1 in [p1, p2, p3] && p2 in [p1, p2, p3] && p3 in [p1, p2, p3];
    assert PointInsideAABB(p0, h) && PointInsideAABB(p1, h) && PointInsideAABB(p2, h) && PointInsideAABB(p3, h);
    BlendInRange(t, p0.x, p1.x, p2.x, p3.x, h.min.x, h.max.x);
    BlendInRange(t, p0.y, p1.y, p2.y, p3.y, h.min.y, h.max.y);
    BlendInRange(t, p0.z, p1.z, p2.z, p3.z, h.min.z, h.max.z);
  }

  /** g_ArrowDuration: the flight lasts one second; it is never reassigned. */
  const FlightDuration: real := 1.0

  /** Points awarded for a target hit. */
  const HitBonus: int := 50

  /** The try count at which the session ends. */
  const MaxTries: int := 5

  /** Rendered arrow length and scale; the shot is pushed out by half the scaled length. */
  const ArrowLength: real := 15.0926
  const ArrowScale: real := 0.3
  const ArrowOffset: real := (ArrowLength / 2.0) * ArrowScale

  /** Vertical lifts of the two control points, which arch the flight. */
  const Lift1: Vec3 := Vec3(0.0, 4.5, 0.0)
  const Lift2: Vec3 := Vec3(0.0, 3.0, 0.0)

  /**
    The arrow and score globals: g_ArrowFired, g_ArrowCollided, g_ArrowTime,
    the four Bezier points, g_ArrowCurrentPos, g_Score, tries and game_over.
  */
  datatype Session = Session(
    fired: bool,
    collided: bool,
    time: real,
    start: Vec3,
    c1: Vec3,
    c2: Vec3,
    target: Vec3,
    current: Vec3,
    score: int,
    tries: int,
    gameOver: bool)

  /** The globals at program start (vectors of static storage are zero). */
  const InitialSession: Session :=
    Session(false, false, 0.0, Origin, Origin, Origin, Origin, Origin, 0, 0, false)

  /** The same flight path: start, both control points and target agree. */
  predicate SameFlight(a: Session, b: Session) {
    a.start == b.start && a.c1 == b.c1 && a.c2 == b.c2 && a.target == b.target
  }

  /**
    UpdateArrow: while the arrow flies and has not collided, advance the
    timer; once the normalised time reaches 1 the flight ends, the timer
    resets and the arrow is left at the target point.
  */
  function UpdateArrow(s: Session, dt: real): (r: Session)
    ensures !s.fired || s.collided ==> r == s
    ensures s.fired && !s.collided && s.time + dt >= FlightDuration ==>
              !r.fired && r.time == 0.0 && r.current == s.target
    ensures s.fired && !s.collided && s.time + dt < FlightDuration ==>
              && r.fired && r.time == s.time + dt
              && r.current == CalculateBezierPoint(r.time / FlightDuration, s.start, s.c1, s.c2, s.target)
    ensures !r.collided <==> !s.collided
    ensures SameFlight(r, s) && r.score == s.score && r.tries == s.tries && r.gameOver == s.gameOver
  {
    if !s.fired || s.collided then s
    else
      var elapsed := s.time + dt;
      var t := elapsed / FlightDuration;
      assert t == elapsed;
      if t >= 1.0 then
        s.(fired := false, time := 0.0, current := CalculateBezierPoint(1.0, s.start, s.c1, s.c2, s.target))
      else
        s.(time := elapsed, current := CalculateBezierPoint(t, s.start, s.c1, s.c2, s.target))
  }

  /**
    What FireArrow needs from the scene: the launch origin beside the archer,
    the aim point on the ground plane, and the normalised direction and
    length from origin to aim. Their trigonometric and unprojection
    computations are not modelled.
  */
  datatype Launch = Launch(origin: Vec3, aim: Vec3, direction: Vec3, distance: real)

  /**
    FireArrow: unless already flying, arm a new flight from the launch
    origin to the aim point, both pushed out along the direction by half the
    arrow's length, with the two lifted control points at a third and two
    thirds of the way.
  */
  function FireArrow(s: Session, l: Launch): (r: Session)
    ensures s.fired ==> r == s
    ensures !s.fired ==>
              && r.fired && r.time == 0.0
              && r.start == l.origin.Add(l.direction.Scale(ArrowOffset))
              && r.target == l.aim.Add(l.direction.Scale(ArrowOffset))
              && r.current == r.start
    ensures r.collided == s.collided && r.score == s.score && r.tries == s.tries && r.gameOver == s.gameOver
  {
    if s.fired then s
    else
      var start := l.origin.Add(l.direction.Scale(ArrowOffset));
      var target := l.aim.Add(l.direction.Scale(ArrowOffset));
      s.(fired := true,
         time := 0.0,
         start := start,
         target := target,
         c1 := start.Add(l.direction.Scale(l.distance * 1.0 / 3.0)).Add(Lift1),
         c2 := start.Add(l.direction.Scale(l.distance * 2.0 / 3.0)).Add(Lift2),
         current := start)
  }

  /**
    When the direction and distance really describe the segment from origin
    to aim, the control points lie a third and two thirds of the way along
    the (shifted) chord from start to target, lifted by 4.5 and 3.
  */
  lemma {:induction false} ControlPointsOnChord(s: Session, l: Launch)
    requires !s.fired
    requires l.aim == l.origin.Add(l.direction.Scale(l.distance))
    ensures var r := FireArrow(s, l);
            && r.target.Sub(r.start) == l.aim.Sub(l.origin)
            && r.c1 == r.start.Add(r.target.Sub(r.start).Scale(1.0 / 3.0)).Add(Lift1)
            && r.c2 == r.start.Add(r.target.Sub(r.start).Scale(2.0 / 3.0)).Add(Lift2)
  {
    var r := FireArrow(s, l);
    var d, k := l.direction, l.distance;
    var off := d.Scale(ArrowOffset);
    assert r.start == l.origin.Add(off) && r.target == l.aim.Add(off);
    assert r.target.Sub(r.start) == l.aim.Sub(l.origin);
    assert l.aim.Sub(l.origin) == d.Scale(k);
    ThirdOfScaled(d, k, 1.0);
    ThirdOfScaled(d, k, 2.0);
  }

  lemma ThirdOfScaled(d: Vec3, k: real, n: real)
    ensures d.Scale(k).Scale(n / 3.0) == d.Scale(k * n / 3.0)
  {
    assert (n / 3.0) * (k * d.x) == (k * n / 3.0) * d.x;
    assert (n / 3.0) * (k * d.y) == (k * n / 3.0) * d.y;
    assert (n / 3.0) * (k * d.z) == (k * n / 3.0) * d.z;
  }

  /** The Space key: fire only when neither flying nor stuck after a collision. */
  function PressSpace(s: Session, l: Launch): (r: Session)
    ensures s.fired || s.collided ==> r == s
    ensures !s.fired && !s.collided ==> r.fired && !r.collided && r.time == 0.0 && r.current == r.start
    ensures r.score == s.score && r.tries == s.tries && r.gameOver == s.gameOver
  {
    if !s.fired && !s.collided then FireArrow(s, l) else s
  }

  /**
    The C key: release a stuck arrow and put it back at the start of its
    last flight, touching nothing else.
  */
  function PressRecover(s: Session): (r: Session)
    ensures !r.collided && r.current == s.start
    ensures r.fired == s.fired && r.time == s.time && SameFlight(r, s)
    ensures r.score == s.score && r.tries == s.tries && r.gameOver == s.gameOver
  {
    s.(collided := false, current := s.start)
  }

  /** The world boxes of one frame, produced by the excluded transform stage. */
  datatype Scene = Scene(targets: seq<BoundingBox>, arrowBox: BoundingBox, walls: seq<BoundingBox>)

  /** The arrow's point lies inside some target box. */
  predicate TargetHit(p: Vec3, targets: seq<BoundingBox>) {
    exists i :: 0 <= i < |targets| && PointInsideAABB(p, targets[i])
  }

  /** The arrow's box meets some wall box. */
  predicate WallHit(arrowBox: BoundingBox, walls: seq<BoundingBox>) {
    exists i :: 0 <= i < |walls| && IntersectAABB(arrowBox, walls[i])
  }

  /**
    The per-frame hit block: a target point-hit wins over a wall box-hit;
    either, if the arrow has not already collided, disarms it, marks it
    collided and uses a try, and only the target hit scores. The block is
    not conditioned on the arrow being in flight.
  */
  function ResolveHits(s: Session, scene: Scene): (r: Session)
    ensures s.collided ==> r == s
    ensures !s.collided && TargetHit(s.current, scene.targets) ==>
              !r.fired && r.collided && r.tries == s.tries + 1 && r.score == s.score + HitBonus
    ensures !s.collided && !TargetHit(s.current, scene.targets) && WallHit(scene.arrowBox, scene.walls) ==>
              !r.fired && r.collided && r.tries == s.tries + 1 && r.score == s.score
    ensures !TargetHit(s.current, scene.targets) && !WallHit(scene.arrowBox, scene.walls) ==> r == s
    ensures r.current == s.current && r.time == s.time && SameFlight(r, s) && r.gameOver == s.gameOver
  {
    if TargetHit(s.current, scene.targets) then
      if !s.collided then s.(fired := false, collided := true, tries := s.tries + 1, score := s.score + HitBonus)
      else s
    else if WallHit(scene.arrowBox, scene.walls) then
      if !s.collided then s.(fired := false, collided := true, tries := s.tries + 1)
      else s
    else s
  }

  /** The terminal check: reaching exactly MaxTries ends the session; it is never cleared. */
  function CheckGameOver(s: Session): (r: Session)
    ensures r.gameOver <==> s.gameOver || s.tries == MaxTries
    ensures r.(gameOver := s.gameOver) == s
  {
    if s.tries == MaxTries then s.(gameOver := true) else s
  }

  /** One pass of the render loop: flight update, then hits, then the terminal check. */
  function Frame(s: Session, dt: real, scene: Scene): (r: Session)
    ensures s.score <= r.score && s.tries <= r.tries <= s.tries + 1
    ensures r.tries == s.tries + 1 ==> r.collided && !r.fired
    ensures r.score != s.score ==> r.score == s.score + HitBonus && r.tries == s.tries + 1
    ensures s.gameOver ==> r.gameOver
  {
    CheckGameOver(ResolveHits(UpdateArrow(s, dt), scene))
  }

  /** Inputs between frames and the frames themselves. */
  datatype Event = Tick(dt: real, scene: Scene) | Space(launch: Launch) | Recover

  /**
    One event: a render-loop pass, or a key callback delivered between
    passes. Only passes move the score, the tries or the game-over flag.
  */
  function Step(s: Session, e: Event): (r: Session)
    ensures !e.Tick? ==> r.score == s.score && r.tries == s.tries && r.gameOver == s.gameOver
    ensures e.Tick? ==> s.tries <= r.tries <= s.tries + 1
  {
    match e
    case Tick(dt, scene) => Frame(s, dt, scene)
    case Space(l) => PressSpace(s, l)
    case Recover => PressRecover(s)
  }

  /**
    The session after a sequence of events, in order. Key presses alone
    leave the counters untouched, and each pass uses at most one try.
  */
  function Run(s: Session, es: seq<Event>): (r: Session)
    ensures (forall i :: 0 <= i < |es| ==> !es[i].Tick?) ==>
              r.score == s.score && r.tries == s.tries && r.gameOver == s.gameOver
    ensures s.tries <= r.tries <= s.tries + |es|
    decreases |es|
  {
    if |es| == 0 then s
    else
      var r := Run(Step(s, es[0]), es[1..]);
      assert forall i :: 0 <= i < |es[1..]| ==> es[1..][i] == es[i + 1];
      r
  }

  /** Frame times never run backwards. */
  predicate ClockForward(es: seq<Event>) {
    forall i :: 0 <= i < |es| && es[i].Tick? ==> es[i].dt >= 0.0
  }

  /**
    What holds of the session at every point: never flying and collided at
    once, the timer within the flight, every point earned together with a
    try (score at most 50 per try, in multiples of 50), and the session over
    exactly when five tries have been used.
  */
  predicate Valid(s: Session) {
    && !(s.fired && s.collided)
    && 0.0 <= s.time < FlightDuration
    && 0 <= s.tries
    && 0 <= s.score <= HitBonus * s.tries
    && s.score % HitBonus == 0
    && (s.gameOver <==> s.tries >= MaxTries)
  }

  lemma InitialSessionValid()
    ensures Valid(InitialSession)
  {
  }

  /** Valid, except that the session may have reached MaxTries without being ended yet. */
  predicate ValidBeforeCheck(s: Session) {
    && !(s.fired && s.collided)
    && 0.0 <= s.time < FlightDuration
    && 0 <= s.tries
    && 0 <= s.score <= HitBonus * s.tries
    && s.score % HitBonus == 0
    && (s.gameOver ==> s.tries >= MaxTries)
    && (s.tries >= MaxTries ==> s.gameOver || s.tries == MaxTries)
  }

  lemma UpdateArrowPreservesValid(s: Session, dt: real)
    requires Valid(s) && dt >= 0.0
    ensures Valid(UpdateArrow(s, dt))
  {
  }

  lemma ResolveHitsKeepsCounts(s: Session, scene: Scene)
    requires Valid(s)
    ensures ValidBeforeCheck(ResolveHits(s, scene))
  {
    var r := ResolveHits(s, scene);
    if r.score != s.score {
      assert r.score == s.score + HitBonus;
      assert r.score % HitBonus == 0;
    }
  }

  lemma CheckGameOverRestoresValid(s: Session)
    requires ValidBeforeCheck(s)
    ensures Valid(CheckGameOver(s))
  {
  }

  lemma StepPreservesValid(s: Session, e: Event)
    requires Valid(s)
    requires e.Tick? ==> e.dt >= 0.0
    ensures Valid(Step(s, e))
  {
    match e
    case Tick(dt, scene) =>
      UpdateArrowPreservesValid(s, dt);
      ResolveHitsKeepsCounts(UpdateArrow(s, dt), scene);
      CheckGameOverRestoresValid(ResolveHits(UpdateArrow(s, dt), scene));
    case Space(l) =>
    case Recover =>
  }

  /** Every run from a valid session with a forward clock stays valid. */
  lemma {:induction false} RunPreservesValid(s: Session, es: seq<Event>)
    requires Valid(s) && ClockForward(es)
    ensures Valid(Run(s, es))
    decreases |es|
  {
    if |es| > 0 {
      StepPreservesValid(s, es[0]);
      assert ClockForward(es[1..]) by {
        forall i | 0 <= i < |es[1..]| && es[1..][i].Tick? ensures es[1..][i].dt >= 0.0 {
          assert es[1..][i] == es[i + 1];
        }
      }
      RunPreservesValid(Step(s, es[0]), es[1..]);
    }
  }

  /** Score and tries never decrease, and a finished session stays finished. */
  lemma {:induction false} RunIsMonotone(s: Session, es: seq<Event>)
    ensures Run(s, es).score >= s.score && Run(s, es).tries >= s.tries
    ensures s.gameOver ==> Run(s, es).gameOver
    decreases |es|
  {
    if |es| > 0 {
      RunIsMonotone(Step(s, es[0]), es[1..]);
    }
  }

  lemma {:induction false} RunAppend(s: Session, a: seq<Event>, b: seq<Event>)
    ensures Run(s, a + b) == Run(Run(s, a), b)
    decreases |a|
  {
    if |a| > 0 {
      assert (a + b)[0] == a[0];
      assert (a + b)[1..] == a[1..] + b;
      RunAppend(Step(s, a[0]), a[1..], b);
    } else {
      assert a + b == b;
    }
  }

  /**
    An arrow that was never fired, or whose flight already ended, is still
    compared with the walls: if its box touches one, a try is used.
  */
  lemma IdleArrowWallContactUsesTry(s: Session, dt: real, scene: Scene)
    requires !s.fired && !s.collided
    requires !TargetHit(s.current, scene.targets) && WallHit(scene.arrowBox, scene.walls)
    ensures Frame(s, dt, scene).tries == s.tries + 1 && Frame(s, dt, scene).collided
    ensures Frame(s, dt, scene).score == s.score
  {
  }

  /**
    An idle arrow whose last position lies inside a target box scores, with
    no shot in flight: after a miss the arrow stays at the flight's end
    point, so a target moved over that point is hit.
  */
  lemma IdleArrowCanScore(s: Session, dt: real, scene: Scene)
    requires !s.fired && !s.collided && TargetHit(s.current, scene.targets)
    ensures Frame(s, dt, scene).score == s.score + HitBonus && Frame(s, dt, scene).tries == s.tries + 1
  {
  }

  /**
    A collided arrow in a valid session is left alone by a whole frame,
    whatever the scene, even inside a target box: the hit block is gated on
    the collision flag, and game over is already set if five tries are used.
  */
  lemma CollidedArrowIsFrozen(s: Session, dt: real, scene: Scene)
    requires Valid(s) && s.collided
    ensures Frame(s, dt, scene) == s
  {
  }

  /**
    A miss: a flight from the origin to (0, 0, 10) that runs its full second
    with nothing in the way ends idle at its end point with the score and
    tries unchanged.
  */
  lemma CleanMissScenario(s: Session, scene: Scene)
    requires s.fired && !s.collided && s.time == 0.0
    requires s.start == Origin && s.target == Vec3(0.0, 0.0, 10.0)
    requires !TargetHit(s.target, scene.targets) && !WallHit(scene.arrowBox, scene.walls)
    ensures var r := Frame(s, 1.0, scene);
            !r.fired && !r.collided && r.current == s.target && r.score == s.score && r.tries == s.tries
  {
  }

  /**
    A hit: the same flight with the target box (-1,-1,9)..(1,1,11) around the end
    point collides at t = 1, scoring 50 and using a try.
  */
  lemma TargetHitScenario(s: Session, scene: Scene)
    requires s.fired && !s.collided && s.time == 0.0
    requires s.start == Origin && s.target == Vec3(0.0, 0.0, 10.0)
    requires scene.targets == [BoundingBox(Vec3(-1.0, -1.0, 9.0), Vec3(1.0, 1.0, 11.0))]
    ensures var r := Frame(s, 1.0, scene);
            !r.fired && r.collided && r.current == s.target
            && r.score == s.score + HitBonus && r.tries == s.tries + 1
  {
    assert PointInsideAABB(s.target, scene.targets[0]);
  }

  /** A frame in which no target is in the way and the arrow's box lies on a wall. */
  function WallScene(box: BoundingBox): Scene {
    Scene([], box, [box])
  }

  /** Fire, strike the wall, recover. */
  function WallRound(l: Launch, dt: real, box: BoundingBox): seq<Event> {
    [Space(l), Tick(dt, WallScene(box)), Recover]
  }

  /** n rounds ending in a wall hit. */
  function WallRounds(n: nat, l: Launch, dt: real, box: BoundingBox): seq<Event>
    decreases n
  {
    if n == 0 then [] else WallRounds(n - 1, l, dt, box) + WallRound(l, dt, box)
  }

  lemma OneWallRound(s: Session, l: Launch, dt: real, box: BoundingBox)
    requires !s.fired && !s.collided && WellFormed(box)
    requires s.gameOver <==> s.tries >= MaxTries
    ensures var r := Run(s, WallRound(l, dt, box));
            && !r.fired && !r.collided && r.tries == s.tries + 1 && r.score == s.score
            && (r.gameOver <==> r.tries >= MaxTries)
  {
    var es := WallRound(l, dt, box);
    assert IntersectAABB(box, [box][0]);
    assert WallHit(box, [box]);
    var s1 := PressSpace(s, l);
    assert s1.fired && !s1.collided && s1.tries == s.tries && s1.score == s.score && s1.gameOver == s.gameOver;
    var s1' := UpdateArrow(s1, dt);
    assert !s1'.collided && s1'.tries == s.tries && s1'.score == s.score && s1'.gameOver == s.gameOver;
    var s2' := ResolveHits(s1', WallScene(box));
    assert !TargetHit(s1'.current, []);
    assert s2'.collided && !s2'.fired && s2'.tries == s.tries + 1 && s2'.score == s.score;
    var s2 := CheckGameOver(s2');
    assert s2 == Frame(s1, dt, WallScene(box));
    var s3 := PressRecover(s2);
    assert es[1..] == [Tick(dt, WallScene(box)), Recover];
    assert es[1..][1..] == [Recover];
    assert Run(s, es) == Run(s1, es[1..]);
    assert Run(s1, es[1..]) == Run(s2, [Recover]);
    assert Run(s2, [Recover]) == Run(s3, []);
  }

  /** After n wall-hit rounds from the start, n tries are used and no point is scored. */
  lemma {:induction false} WallRoundsCount(n: nat, l: Launch, dt: real, box: BoundingBox)
    requires WellFormed(box)
    ensures var r := Run(InitialSession, WallRounds(n, l, dt, box));
            && !r.fired && !r.collided && r.tries == n && r.score == 0
            && (r.gameOver <==> n >= MaxTries)
    decreases n
  {
    if n > 0 {
      WallRoundsCount(n - 1, l, dt, box);
      RunAppend(InitialSession, WallRounds(n - 1, l, dt, box), WallRound(l, dt, box));
      OneWallRound(Run(InitialSession, WallRounds(n - 1, l, dt, box)), l, dt, box);
    }
  }

  /** Five flights that each end on a wall finish the session. */
  lemma FiveWallHitsEndSession(l: Launch, dt: real, box: BoundingBox)
    requires WellFormed(box)
    ensures Run(InitialSession, WallRounds(5, l, dt, box)).gameOver
    ensures Run(InitialSession, WallRounds(4, l, dt, box)).gameOver == false
  {
    WallRoundsCount(5, l, dt, box);
    WallRoundsCount(4, l, dt, box);
  }
}
