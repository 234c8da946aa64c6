/**
  The axis-aligned bounding box (AABB) library of src/collisions.cpp:
  local boxes folded from a mesh's vertex array, re-enclosure of a box under
  an affine model matrix, the closed-interval overlap test, the name-keyed
  world-box table and the moving-by-static collision pair filter.
*/
module Collisions {
  import opened Geometry

  /** An axis-aligned box given by its two extreme corners. */
  datatype BoundingBox = BoundingBox(min: Vec3, max: Vec3)

  /** A named entity with its box in world space. */
  datatype ObjectInstance = ObjectInstance(name: string, boxWorld: BoundingBox)

  /**
    The box the vertex fold starts from: min at the largest float and max at
    the lowest, so that it encloses nothing and every vertex replaces it.
  */
  const EmptyBox: BoundingBox :=
    BoundingBox(Vec3(FloatMax, FloatMax, FloatMax), Vec3(FloatLowest, FloatLowest, FloatLowest))

  /** min is below max on every axis. */
  predicate WellFormed(b: BoundingBox) {
    b.min.x <= b.max.x && b.min.y <= b.max.y && b.min.z <= b.max.z
  }

  /**
    Inclusive containment of a point. The C++ function of this name is called
    by the frame loop but its body is not part of this model; it is taken to
    be the closed containment test the name describes: on every axis the
    point lies between the box's min and max.
  */
  function PointInsideAABB(p: Vec3, b: BoundingBox): (r: bool)
    ensures r <==> forall a: Axis :: b.min.Get(a) <= p.Get(a) <= b.max.Get(a)
  {
    assert p.Get(X) == p.x && p.Get(Y) == p.y && p.Get(Z) == p.z;
    && b.min.x <= p.x <= b.max.x
    && b.min.y <= p.y <= b.max.y
    && b.min.z <= p.z <= b.max.z
  }

  /** outer reaches at least as far as inner in every direction. */
  predicate Covers(outer: BoundingBox, inner: BoundingBox) {
    && outer.min.x <= inner.min.x && outer.min.y <= inner.min.y && outer.min.z <= inner.min.z
    && outer.max.x >= inner.max.x && outer.max.y >= inner.max.y && outer.max.z >= inner.max.z
  }

  /** One step of the fold: glm::min into min, glm::max into max. */
  function Grow(b: BoundingBox, p: Vec3): BoundingBox {
    BoundingBox(MinV(b.min, p), MaxV(b.max, p))
  }

  /** The min of r on axis a is the start box's, or the coordinate of some point. */
  ghost predicate MinAttained(r: BoundingBox, init: BoundingBox, pts: seq<Vec3>, a: Axis) {
    r.min.Get(a) == init.min.Get(a) || exists p :: p in pts && p.Get(a) == r.min.Get(a)
  }

  /** The max of r on axis a is the start box's, or the coordinate of some point. */
  ghost predicate MaxAttained(r: BoundingBox, init: BoundingBox, pts: seq<Vec3>, a: Axis) {
    r.max.Get(a) == init.max.Get(a) || exists p :: p in pts && p.Get(a) == r.max.Get(a)
  }

  /** No face of r lies beyond what the start box or the points demand. */
  ghost predicate Attained(r: BoundingBox, init: BoundingBox, pts: seq<Vec3>) {
    forall a: Axis :: MinAttained(r, init, pts, a) && MaxAttained(r, init, pts, a)
  }

  lemma GrowAttained(b: BoundingBox, p: Vec3)
    ensures Attained(Grow(b, p), b, [p])
  {
    forall a: Axis
      ensures MinAttained(Grow(b, p), b, [p], a) && MaxAttained(Grow(b, p), b, [p], a)
    {
      assert p in [p];
    }
  }

  /**
    The min/max fold of both source loops, from the left: b grown by every
    point of pts in order. The result covers b, contains every point, and
    each of its faces comes from b or from one of the points.
  */
  function GrowAll(b: BoundingBox, pts: seq<Vec3>): (r: BoundingBox)
    ensures Covers(r, b)
    ensures forall p :: p in pts ==> PointInsideAABB(p, r)
    ensures Attained(r, b, pts)
    decreases |pts|
  {
    if |pts| == 0 then b
    else
      var g := Grow(b, pts[0]);
      var r := GrowAll(g, pts[1..]);
      GrowAllStep(b, pts, g, r);
      r
  }

  lemma GrowAllStep(b: BoundingBox, pts: seq<Vec3>, g: BoundingBox, r: BoundingBox)
    requires |pts| > 0 && g == Grow(b, pts[0])
    requires Covers(r, g) && Attained(r, g, pts[1..])
    ensures Attained(r, b, pts)
  {
    GrowAttained(b, pts[0]);
    forall a: Axis
      ensures MinAttained(r, b, pts, a) && MaxAttained(r, b, pts, a)
    {
      assert MinAttained(r, g, pts[1..], a) && MaxAttained(r, g, pts[1..], a);
      assert MinAttained(g, b, [pts[0]], a) && MaxAttained(g, b, [pts[0]], a);
      if r.min.Get(a) != g.min.Get(a) {
        var q :| q in pts[1..] && q.Get(a) == r.min.Get(a);
        assert q in pts;
      } else if g.min.Get(a) != b.min.Get(a) {
        assert pts[0] in pts;
      }
      if r.max.Get(a) != g.max.Get(a) {
        var q :| q in pts[1..] && q.Get(a) == r.max.Get(a);
        assert q in pts;
      } else if g.max.Get(a) != b.max.Get(a) {
        assert pts[0] in pts;
      }
    }
  }

  /**
    The flat x, y, z array of a mesh read as points: vertex k is
    (v[3k], v[3k+1], v[3k+2]).
  */
  function Vertices(v: seq<real>): (r: seq<Vec3>)
    requires |v| % 3 == 0
    ensures |r| == |v| / 3
    ensures forall k :: 0 <= k < |r| ==> 3 * k + 2 < |v| && r[k] == Vec3(v[3 * k], v[3 * k + 1], v[3 * k + 2])
    decreases |v|
  {
    if |v| == 0 then []
    else [Vec3(v[0], v[1], v[2])] + Vertices(v[3..])
  }

  /** Every coordinate is a finite single-precision value. */
  predicate InFloatRange(v: seq<real>) {
    forall i :: 0 <= i < |v| ==> FloatLowest <= v[i] <= FloatMax
  }

  /**
    ComputeLocalBoundingBox: the component-wise min/max over all vertices,
    starting from EmptyBox. An array whose length is not a multiple of three
    makes the source read past its end, so it is excluded.
  */
  function ComputeLocalBoundingBox(v: seq<real>): (r: BoundingBox)
    requires |v| % 3 == 0
    ensures |v| == 0 ==> r == EmptyBox
    ensures forall p :: p in Vertices(v) ==> PointInsideAABB(p, r)
    ensures |v| > 0 ==> WellFormed(r)
  {
    var r := GrowAll(EmptyBox, Vertices(v));
    assert |v| > 0 ==> Vertices(v)[0] in Vertices(v);
    r
  }

  /** Every vertex k of the array lies in the computed box. */
  lemma LocalBoxContainsVertices(v: seq<real>, k: nat)
    requires |v| % 3 == 0 && 3 * k + 2 < |v|
    ensures PointInsideAABB(Vec3(v[3 * k], v[3 * k + 1], v[3 * k + 2]), ComputeLocalBoundingBox(v))
  {
    var vs := Vertices(v);
    assert k < |vs|;
    assert vs[k] in vs;
  }

  lemma VerticesInFloatRange(v: seq<real>, p: Vec3)
    requires |v| % 3 == 0 && InFloatRange(v) && p in Vertices(v)
    ensures FloatLowest <= p.x <= FloatMax && FloatLowest <= p.y <= FloatMax && FloatLowest <= p.z <= FloatMax
  {
    var vs := Vertices(v);
    var k :| 0 <= k < |vs| && vs[k] == p;
    assert p == Vec3(v[3 * k], v[3 * k + 1], v[3 * k + 2]);
  }

  /**
    Tightness: for a non-empty array of finite floats, every face of the
    computed box is the coordinate of some vertex.
  */
  lemma LocalBoxIsTight(v: seq<real>, a: Axis)
    requires |v| % 3 == 0 && |v| > 0 && InFloatRange(v)
    ensures exists p :: p in Vertices(v) && p.Get(a) == ComputeLocalBoundingBox(v).min.Get(a)
    ensures exists p :: p in Vertices(v) && p.Get(a) == ComputeLocalBoundingBox(v).max.Get(a)
  {
    var vs := Vertices(v);
    var r := ComputeLocalBoundingBox(v);
    assert r == GrowAll(EmptyBox, vs);
    assert MinAttained(r, EmptyBox, vs, a) && MaxAttained(r, EmptyBox, vs, a);
    var p0 := vs[0];
    assert p0 in vs;
    VerticesInFloatRange(v, p0);
    if r.min.Get(a) == EmptyBox.min.Get(a) {
      assert p0.Get(a) == r.min.Get(a);
    }
    if r.max.Get(a) == EmptyBox.max.Get(a) {
      assert p0.Get(a) == r.max.Get(a);
    }
  }

  /** The 8 corners of a box in the order the source lists them. */
  function Corners(b: BoundingBox): seq<Vec3> {
    [ Vec3(b.min.x, b.min.y, b.min.z),
      Vec3(b.max.x, b.min.y, b.min.z),
      Vec3(b.min.x, b.max.y, b.min.z),
      Vec3(b.max.x, b.max.y, b.min.z),
      Vec3(b.min.x, b.min.y, b.max.z),
      Vec3(b.max.x, b.min.y, b.max.z),
      Vec3(b.min.x, b.max.y, b.max.z),
      Vec3(b.max.x, b.max.y, b.max.z) ]
  }

  /** The images of the 8 corners under m. */
  function CornerImages(b: BoundingBox, m: Mat4): (q: seq<Vec3>)
    ensures |q| == 8
    ensures forall i :: 0 <= i < 8 ==> q[i] == TransformPoint(m, Corners(b)[i])
  {
    var cs := Corners(b);
    seq(8, i requires 0 <= i < 8 => TransformPoint(m, cs[i]))
  }

  /**
    TransformBoundingBox: the axis-aligned box around the images of the 8
    corners, starting from the first image. It is well formed whatever the
    input and contains every corner image.
  */
  function TransformBoundingBox(box: BoundingBox, m: Mat4): (r: BoundingBox)
    ensures WellFormed(r)
    ensures forall c :: c in Corners(box) ==> PointInsideAABB(TransformPoint(m, c), r)
  {
    var q := CornerImages(box, m);
    var r := GrowAll(BoundingBox(q[0], q[0]), q[1..]);
    assert forall i :: 0 <= i < 8 ==> PointInsideAABB(q[i], r) by {
      forall i | 0 <= i < 8 ensures PointInsideAABB(q[i], r) {
        if i > 0 {
          assert q[i] == q[1..][i - 1];
          assert q[i] in q[1..];
        }
      }
    }
    assert forall c :: c in Corners(box) ==> PointInsideAABB(TransformPoint(m, c), r) by {
      forall c | c in Corners(box) ensures PointInsideAABB(TransformPoint(m, c), r) {
        var i :| 0 <= i < 8 && Corners(box)[i] == c;
        assert q[i] == TransformPoint(m, c);
      }
    }
    r
  }

  /** Each face of the transformed box is the coordinate of some corner image. */
  lemma TransformBoxIsTight(box: BoundingBox, m: Mat4, a: Axis)
    ensures exists c :: c in Corners(box) && TransformPoint(m, c).Get(a) == TransformBoundingBox(box, m).min.Get(a)
    ensures exists c :: c in Corners(box) && TransformPoint(m, c).Get(a) == TransformBoundingBox(box, m).max.Get(a)
  {
    var q := CornerImages(box, m);
    var init := BoundingBox(q[0], q[0]);
    var r := TransformBoundingBox(box, m);
    assert r == GrowAll(init, q[1..]);
    assert MinAttained(r, init, q[1..], a) && MaxAttained(r, init, q[1..], a);
    var cs := Corners(box);
    assert cs[0] in cs;
    if r.min.Get(a) != init.min.Get(a) {
      var p :| p in q[1..] && p.Get(a) == r.min.Get(a);
      var j :| 0 <= j < 7 && q[1..][j] == p;
      assert q[j + 1] == p && cs[j + 1] in cs;
    }
    if r.max.Get(a) != init.max.Get(a) {
      var p :| p in q[1..] && p.Get(a) == r.max.Get(a);
      var j :| 0 <= j < 7 && q[1..][j] == p;
      assert q[j + 1] == p && cs[j + 1] in cs;
    }
  }

  /**
    A box r that contains every image and whose faces are all attained by
    images equals any box B that holds every image and has two of them as
    its own min and max corners.
  */
  lemma TightBoxIsUnique(box: BoundingBox, m: Mat4, expected: BoundingBox, i: int, j: int)
    requires forall c :: c in Corners(box) ==> PointInsideAABB(TransformPoint(m, c), expected)
    requires 0 <= i < 8 && TransformPoint(m, Corners(box)[i]) == expected.min
    requires 0 <= j < 8 && TransformPoint(m, Corners(box)[j]) == expected.max
    ensures TransformBoundingBox(box, m) == expected
  {
    var r := TransformBoundingBox(box, m);
    TightAxis(box, m, expected, i, j, X);
    TightAxis(box, m, expected, i, j, Y);
    TightAxis(box, m, expected, i, j, Z);
    assert r.min == expected.min;
    assert r.max == expected.max;
  }

  /** One axis of TightBoxIsUnique: both faces on axis a agree with the expected box. */
  lemma TightAxis(box: BoundingBox, m: Mat4, expected: BoundingBox, i: int, j: int, a: Axis)
    requires forall c :: c in Corners(box) ==> PointInsideAABB(TransformPoint(m, c), expected)
    requires 0 <= i < 8 && TransformPoint(m, Corners(box)[i]) == expected.min
    requires 0 <= j < 8 && TransformPoint(m, Corners(box)[j]) == expected.max
    ensures TransformBoundingBox(box, m).min.Get(a) == expected.min.Get(a)
    ensures TransformBoundingBox(box, m).max.Get(a) == expected.max.Get(a)
  {
    var r := TransformBoundingBox(box, m);
    var cs := Corners(box);
    assert cs[i] in cs && cs[j] in cs;
    assert PointInsideAABB(expected.min, r) && PointInsideAABB(expected.max, r);
    TransformBoxIsTight(box, m, a);
    var lo :| lo in cs && TransformPoint(m, lo).Get(a) == r.min.Get(a);
    var hi :| hi in cs && TransformPoint(m, hi).Get(a) == r.max.Get(a);
    assert PointInsideAABB(TransformPoint(m, lo), expected);
    assert PointInsideAABB(TransformPoint(m, hi), expected);
  }

  /** The identity matrix maps a well-formed box to itself. */
  lemma TransformByIdentity(box: BoundingBox)
    requires WellFormed(box)
    ensures TransformBoundingBox(box, Identity) == box
  {
    forall c | c in Corners(box) ensures PointInsideAABB(TransformPoint(Identity, c), box) {
      IdentityFixesPoints(c);
    }
    IdentityFixesPoints(Corners(box)[0]);
    IdentityFixesPoints(Corners(box)[7]);
    TightBoxIsUnique(box, Identity, box, 0, 7);
  }

  /** A pure translation shifts a well-formed box by the translation vector. */
  lemma TransformByTranslation(box: BoundingBox, t: Vec3)
    requires WellFormed(box)
    ensures TransformBoundingBox(box, Translation(t)) == BoundingBox(box.min.Add(t), box.max.Add(t))
  {
    var shifted := BoundingBox(box.min.Add(t), box.max.Add(t));
    forall c | c in Corners(box) ensures PointInsideAABB(TransformPoint(Translation(t), c), shifted) {
      TranslationShiftsPoints(t, c);
    }
    TranslationShiftsPoints(t, Corners(box)[0]);
    TranslationShiftsPoints(t, Corners(box)[7]);
    TightBoxIsUnique(box, Translation(t), shifted, 0, 7);
  }

  /** k * a and k * b are ordered as a and b when k >= 0, reversed when k < 0. */
  lemma ScaleMonotone(k: real, a: real, b: real)
    requires a <= b
    ensures k >= 0.0 ==> k * a <= k * b
    ensures k < 0.0 ==> k * a >= k * b
  {
    assert k * b - k * a == k * (b - a);
  }

  /** The corner of b at which the linear form row is largest. */
  function HighCorner(b: BoundingBox, row: Row): Vec3 {
    Vec3(if row.x >= 0.0 then b.max.x else b.min.x,
         if row.y >= 0.0 then b.max.y else b.min.y,
         if row.z >= 0.0 then b.max.z else b.min.z)
  }

  /** The corner of b at which the linear form row is smallest. */
  function LowCorner(b: BoundingBox, row: Row): Vec3 {
    Vec3(if row.x >= 0.0 then b.min.x else b.max.x,
         if row.y >= 0.0 then b.min.y else b.max.y,
         if row.z >= 0.0 then b.min.z else b.max.z)
  }

  lemma RowBoundedByCorners(row: Row, b: BoundingBox, p: Vec3)
    requires PointInsideAABB(p, b)
    ensures row.Apply(LowCorner(b, row)) <= row.Apply(p) <= row.Apply(HighCorner(b, row))
  {
    RowAboveLowCorner(row, b, p);
    RowBelowHighCorner(row, b, p);
  }

  lemma RowAboveLowCorner(row: Row, b: BoundingBox, p: Vec3)
    requires PointInsideAABB(p, b)
    ensures row.Apply(LowCorner(b, row)) <= row.Apply(p)
  {
    var lo := LowCorner(b, row);
    ScaleBelow(row.x, lo.x, p.x);
    ScaleBelow(row.y, lo.y, p.y);
    ScaleBelow(row.z, lo.z, p.z);
    ApplyMonotone(row, lo, p);
  }

  lemma RowBelowHighCorner(row: Row, b: BoundingBox, p: Vec3)
    requires PointInsideAABB(p, b)
    ensures row.Apply(p) <= row.Apply(HighCorner(b, row))
  {
    var hi := HighCorner(b, row);
    ScaleBelow(row.x, p.x, hi.x);
    ScaleBelow(row.y, p.y, hi.y);
    ScaleBelow(row.z, p.z, hi.z);
    ApplyMonotone(row, p, hi);
  }

  /** A row's value grows with each of its three weighted terms. */
  lemma ApplyMonotone(row: Row, u: Vec3, v: Vec3)
    requires row.x * u.x <= row.x * v.x && row.y * u.y <= row.y * v.y && row.z * u.z <= row.z * v.z
    ensures row.Apply(u) <= row.Apply(v)
  {
  }

  /** k * u <= k * v when u and v are ordered in the direction of k's sign. */
  lemma ScaleBelow(k: real, u: real, v: real)
    requires (k >= 0.0 && u <= v) || (k < 0.0 && v <= u)
    ensures k * u <= k * v
  {
    if k >= 0.0 {
      ScaleMonotone(k, u, v);
    } else {
      ScaleMonotone(k, v, u);
    }
  }

  lemma ChosenCornersAreCorners(b: BoundingBox, row: Row)
    ensures HighCorner(b, row) in Corners(b) && LowCorner(b, row) in Corners(b)
  {
    var cs := Corners(b);
    var h := HighCorner(b, row);
    var l := LowCorner(b, row);
    var hi := (if row.x >= 0.0 then 1 else 0) + (if row.y >= 0.0 then 2 else 0) + (if row.z >= 0.0 then 4 else 0);
    assert cs[hi] == h;
    assert cs[7 - hi] == l;
  }

  /**
    Conservative enclosure: the image of every point of the box under the
    affine map lies in the transformed box, so the re-enclosure may be larger
    than the true image under rotation but never smaller.
  */
  lemma TransformBoxEnclosesImage(box: BoundingBox, m: Mat4, p: Vec3)
    requires PointInsideAABB(p, box)
    ensures PointInsideAABB(TransformPoint(m, p), TransformBoundingBox(box, m))
  {
    var r := TransformBoundingBox(box, m);
    RowBoundedByCorners(m.r0, box, p);
    RowBoundedByCorners(m.r1, box, p);
    RowBoundedByCorners(m.r2, box, p);
    ChosenCornersAreCorners(box, m.r0);
    ChosenCornersAreCorners(box, m.r1);
    ChosenCornersAreCorners(box, m.r2);
    assert PointInsideAABB(TransformPoint(m, HighCorner(box, m.r0)), r);
    assert PointInsideAABB(TransformPoint(m, LowCorner(box, m.r0)), r);
    assert PointInsideAABB(TransformPoint(m, HighCorner(box, m.r1)), r);
    assert PointInsideAABB(TransformPoint(m, LowCorner(box, m.r1)), r);
    assert PointInsideAABB(TransformPoint(m, HighCorner(box, m.r2)), r);
    assert PointInsideAABB(TransformPoint(m, LowCorner(box, m.r2)), r);
  }

  /**
    Transforming the empty box does not keep it empty: under the identity it
    becomes the box spanning the whole float range on every axis.
  */
  lemma EmptyBoxTransformedByIdentity()
    ensures TransformBoundingBox(EmptyBox, Identity) ==
            BoundingBox(Vec3(FloatLowest, FloatLowest, FloatLowest), Vec3(FloatMax, FloatMax, FloatMax))
  {
    InvertedBoxUnderIdentity(FloatLowest, FloatMax);
  }

  /** Under the identity, a cube given with its min and max swapped comes back sorted. */
  lemma InvertedBoxUnderIdentity(lo: real, hi: real)
    requires lo <= hi
    ensures TransformBoundingBox(BoundingBox(Vec3(hi, hi, hi), Vec3(lo, lo, lo)), Identity) ==
            BoundingBox(Vec3(lo, lo, lo), Vec3(hi, hi, hi))
  {
    var inverted := BoundingBox(Vec3(hi, hi, hi), Vec3(lo, lo, lo));
    var sorted := BoundingBox(Vec3(lo, lo, lo), Vec3(hi, hi, hi));
    forall c | c in Corners(inverted) ensures PointInsideAABB(TransformPoint(Identity, c), sorted) {
      IdentityFixesPoints(c);
    }
    IdentityFixesPoints(Corners(inverted)[7]);
    IdentityFixesPoints(Corners(inverted)[0]);
    TightBoxIsUnique(inverted, Identity, sorted, 7, 0);
  }

  /** IntersectAABB: closed-interval overlap on all three axes. */
  function IntersectAABB(a: BoundingBox, b: BoundingBox): (r: bool)
    ensures WellFormed(a) && WellFormed(b) ==>
              (r <==> PointInsideAABB(MaxV(a.min, b.min), a) && PointInsideAABB(MaxV(a.min, b.min), b))
  {
    && (a.min.x <= b.max.x && a.max.x >= b.min.x)
    && (a.min.y <= b.max.y && a.max.y >= b.min.y)
    && (a.min.z <= b.max.z && a.max.z >= b.min.z)
  }

  lemma IntersectSymmetric(a: BoundingBox, b: BoundingBox)
    ensures IntersectAABB(a, b) <==> IntersectAABB(b, a)
  {
  }

  /** Boxes sharing the face x = a.max.x = b.min.x and overlapping on y and z intersect. */
  lemma TouchingBoxesIntersect(a: BoundingBox, b: BoundingBox)
    requires WellFormed(a) && WellFormed(b)
    requires a.max.x == b.min.x
    requires a.min.y <= b.max.y && a.max.y >= b.min.y
    requires a.min.z <= b.max.z && a.max.z >= b.min.z
    ensures IntersectAABB(a, b)
  {
  }

  /** A box intersects itself exactly when it is well formed. */
  lemma SelfIntersection(b: BoundingBox)
    ensures IntersectAABB(b, b) <==> WellFormed(b)
  {
  }

  /**
    The empty box intersects, in either argument position, exactly the boxes
    that span the whole float range on every axis: any box with a max
    coordinate below FloatMax is missed.
  */
  lemma EmptyBoxIntersection(b: BoundingBox)
    ensures IntersectAABB(EmptyBox, b) <==>
              (b.max.x >= FloatMax && b.max.y >= FloatMax && b.max.z >= FloatMax &&
               b.min.x <= FloatLowest && b.min.y <= FloatLowest && b.min.z <= FloatLowest)
    ensures IntersectAABB(b, EmptyBox) <==> IntersectAABB(EmptyBox, b)
    ensures (b.max.x < FloatMax || b.max.y < FloatMax || b.max.z < FloatMax) ==>
              !IntersectAABB(EmptyBox, b) && !IntersectAABB(b, EmptyBox)
  {
  }

  /** For well-formed boxes the overlap test means sharing a point. */
  lemma IntersectIffCommonPoint(a: BoundingBox, b: BoundingBox)
    requires WellFormed(a) && WellFormed(b)
    ensures IntersectAABB(a, b) <==> exists p :: PointInsideAABB(p, a) && PointInsideAABB(p, b)
  {
    if IntersectAABB(a, b) {
      var p := MaxV(a.min, b.min);
      assert PointInsideAABB(p, a) && PointInsideAABB(p, b);
    }
  }

  /** A point is inside a box exactly when the degenerate box at that point meets it. */
  lemma PointInsideIffDegenerateIntersects(p: Vec3, b: BoundingBox)
    ensures PointInsideAABB(p, b) <==> IntersectAABB(BoundingBox(p, p), b)
  {
  }

  /**
    CreateWorldBoundingBoxes: for every name that has both a model and a
    matrix, the model's local box transformed by the matrix; models without a
    matrix are skipped.
  */
  function CreateWorldBoundingBoxes(models: map<string, seq<real>>, matrices: map<string, Mat4>): (r: map<string, BoundingBox>)
    requires forall n :: n in models && n in matrices ==> |models[n]| % 3 == 0
    ensures r.Keys == models.Keys * matrices.Keys
    ensures forall n :: n in r ==> WellFormed(r[n])
    ensures forall n :: n in r ==> r[n] == TransformBoundingBox(ComputeLocalBoundingBox(models[n]), matrices[n])
  {
    map n | n in models && n in matrices :: TransformBoundingBox(ComputeLocalBoundingBox(models[n]), matrices[n])
  }

  /** The pairs one moving object forms with the statics it intersects, in order. */
  function CollisionsOf(mov: ObjectInstance, statics: seq<ObjectInstance>): (r: seq<(string, string)>)
    ensures |r| <= |statics|
    ensures forall k :: 0 <= k < |r| ==> r[k].0 == mov.name
    decreases |statics|
  {
    if |statics| == 0 then []
    else
      var rest := CollisionsOf(mov, statics[1..]);
      if IntersectAABB(mov.boxWorld, statics[0].boxWorld) then [(mov.name, statics[0].name)] + rest else rest
  }

  /** CheckCollisions: moving-major, static-minor list of intersecting name pairs. */
  function CheckCollisions(moving: seq<ObjectInstance>, statics: seq<ObjectInstance>): (r: seq<(string, string)>)
    ensures |r| <= |moving| * |statics|
    decreases |moving|
  {
    if |moving| == 0 then []
    else
      var r := CollisionsOf(moving[0], statics) + CheckCollisions(moving[1..], statics);
      assert |moving| * |statics| == |statics| + (|moving| - 1) * |statics|;
      r
  }

  /** The pair (a, b) is witnessed by moving[i] and statics[j]. */
  ghost predicate Witness(moving: seq<ObjectInstance>, statics: seq<ObjectInstance>, i: int, j: int, pair: (string, string)) {
    && 0 <= i < |moving| && 0 <= j < |statics|
    && moving[i].name == pair.0 && statics[j].name == pair.1
    && IntersectAABB(moving[i].boxWorld, statics[j].boxWorld)
  }

  lemma {:induction false} CollisionsOfExact(mov: ObjectInstance, statics: seq<ObjectInstance>, pair: (string, string))
    ensures pair in CollisionsOf(mov, statics) <==>
              exists j :: Witness([mov], statics, 0, j, pair)
    decreases |statics|
  {
    if |statics| > 0 {
      CollisionsOfExact(mov, statics[1..], pair);
      if exists j :: Witness([mov], statics[1..], 0, j, pair) {
        var j :| Witness([mov], statics[1..], 0, j, pair);
        assert Witness([mov], statics, 0, j + 1, pair);
      }
      if exists j :: Witness([mov], statics, 0, j, pair) {
        var j :| Witness([mov], statics, 0, j, pair);
        if j > 0 {
          assert Witness([mov], statics[1..], 0, j - 1, pair);
        } else {
          assert pair == (mov.name, statics[0].name);
        }
      }
      if pair in CollisionsOf(mov, statics) && pair !in CollisionsOf(mov, statics[1..]) {
        assert Witness([mov], statics, 0, 0, pair);
      }
    }
  }

  /**
    Filter exactness: a name pair is reported exactly when some moving object
    and some static object with those names have intersecting world boxes.
  */
  lemma {:induction false} CheckCollisionsExact(moving: seq<ObjectInstance>, statics: seq<ObjectInstance>, pair: (string, string))
    ensures pair in CheckCollisions(moving, statics) <==>
              exists i, j :: Witness(moving, statics, i, j, pair)
    decreases |moving|
  {
    if |moving| > 0 {
      CollisionsOfExact(moving[0], statics, pair);
      CheckCollisionsExact(moving[1..], statics, pair);
      if exists i, j :: Witness(moving, statics, i, j, pair) {
        var i, j :| Witness(moving, statics, i, j, pair);
        if i == 0 {
          assert Witness([moving[0]], statics, 0, j, pair);
        } else {
          assert Witness(moving[1..], statics, i - 1, j, pair);
        }
      }
      if exists j :: Witness([moving[0]], statics, 0, j, pair) {
        var j :| Witness([moving[0]], statics, 0, j, pair);
        assert Witness(moving, statics, 0, j, pair);
      }
      if exists i, j :: Witness(moving[1..], statics, i, j, pair) {
        var i, j :| Witness(moving[1..], statics, i, j, pair);
        assert Witness(moving, statics, i + 1, j, pair);
      }
    }
  }

  /**
    Moving-major order: the pairs of an earlier block of moving objects all
    precede those of a later block.
  */
  lemma {:induction false} CheckCollisionsAppend(m1: seq<ObjectInstance>, m2: seq<ObjectInstance>, statics: seq<ObjectInstance>)
    ensures CheckCollisions(m1 + m2, statics) == CheckCollisions(m1, statics) + CheckCollisions(m2, statics)
    decreases |m1|
  {
    if |m1| > 0 {
      assert (m1 + m2)[0] == m1[0];
      assert (m1 + m2)[1..] == m1[1..] + m2;
      CheckCollisionsAppend(m1[1..], m2, statics);
    } else {
      assert m1 + m2 == m2;
    }
  }

  /**
    Static-minor order: for one moving object the pairs follow the statics'
    order, so a static that is reported before another comes earlier in statics.
  */
  lemma CollisionsOfAppend(mov: ObjectInstance, s1: seq<ObjectInstance>, s2: seq<ObjectInstance>)
    ensures CheckCollisions([mov], s1 + s2) == CheckCollisions([mov], s1) + CheckCollisions([mov], s2)
  {
    assert [mov][1..] == [];
    CollisionsOfAppendRec(mov, s1, s2);
  }

  lemma {:induction false} CollisionsOfAppendRec(mov: ObjectInstance, s1: seq<ObjectInstance>, s2: seq<ObjectInstance>)
    ensures CollisionsOf(mov, s1 + s2) == CollisionsOf(mov, s1) + CollisionsOf(mov, s2)
    decreases |s1|
  {
    if |s1| > 0 {
      assert (s1 + s2)[0] == s1[0];
      assert (s1 + s2)[1..] == s1[1..] + s2;
      CollisionsOfAppendRec(mov, s1[1..], s2);
    } else {
      assert s1 + s2 == s2;
    }
  }
}
