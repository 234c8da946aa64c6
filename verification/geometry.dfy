/**
  Real-valued 3-vectors and affine 4x4 matrices: the part of glm that the
  collision and projectile code relies on. IEEE single-precision rounding is
  not modelled; every quantity is an exact real.
*/
module Geometry {

  /** The three coordinate axes, used to state per-axis facts once. */
  datatype Axis = X | Y | Z

  datatype Vec3 = Vec3(x: real, y: real, z: real) {

    function Get(a: Axis): real {
      match a
      case X => x
      case Y => y
      case Z => z
    }

    function Add(o: Vec3): Vec3 {
      Vec3(x + o.x, y + o.y, z + o.z)
    }

    function Sub(o: Vec3): Vec3 {
      Vec3(x - o.x, y - o.y, z - o.z)
    }

    function Scale(k: real): Vec3 {
      Vec3(k * x, k * y, k * z)
    }
  }

  const Origin: Vec3 := Vec3(0.0, 0.0, 0.0)

  /** Largest finite single-precision value, std::numeric_limits<float>::max(). */
  const FloatMax: real := 340282346638528859811704183484516925440.0

  /** std::numeric_limits<float>::lowest(), the most negative finite float. */
  const FloatLowest: real := -FloatMax

  /** std::numeric_limits<float>::epsilon(), 2^-23. */
  const FloatEpsilon: real := 0.00000011920928955078125

  function Min(a: real, b: real): real {
    if b < a then b else a
  }

  function Max(a: real, b: real): real {
    if a < b then b else a
  }

  /** glm::min on vectors: component-wise minimum. */
  function MinV(a: Vec3, b: Vec3): Vec3 {
    Vec3(Min(a.x, b.x), Min(a.y, b.y), Min(a.z, b.z))
  }

  /** glm::max on vectors: component-wise maximum. */
  function MaxV(a: Vec3, b: Vec3): Vec3 {
    Vec3(Max(a.x, b.x), Max(a.y, b.y), Max(a.z, b.z))
  }

  /** One row of a 4x4 matrix, read as the linear form (x, y, z, w). */
  datatype Row = Row(x: real, y: real, z: real, w: real) {
    /** The row applied to the homogeneous point (p, 1). */
    function Apply(p: Vec3): real {
      x * p.x + y * p.y + z * p.z + w
    }
  }

  /**
    A 4x4 matrix by rows. Transforming a point computes the first three rows
    of M * (p, 1); the fourth row only produces the w component, which the
    conversion back to a 3-vector discards.
  */
  datatype Mat4 = Mat4(r0: Row, r1: Row, r2: Row, r3: Row)

  /** glm::vec3(M * glm::vec4(p, 1.0f)). */
  function TransformPoint(m: Mat4, p: Vec3): Vec3 {
    Vec3(m.r0.Apply(p), m.r1.Apply(p), m.r2.Apply(p))
  }

  const Identity: Mat4 :=
    Mat4(Row(1.0, 0.0, 0.0, 0.0),
         Row(0.0, 1.0, 0.0, 0.0),
         Row(0.0, 0.0, 1.0, 0.0),
         Row(0.0, 0.0, 0.0, 1.0))

  /** The pure translation by t. */
  function Translation(t: Vec3): Mat4 {
    Mat4(Row(1.0, 0.0, 0.0, t.x),
         Row(0.0, 1.0, 0.0, t.y),
         Row(0.0, 0.0, 1.0, t.z),
         Row(0.0, 0.0, 0.0, 1.0))
  }

  lemma IdentityFixesPoints(p: Vec3)
    ensures TransformPoint(Identity, p) == p
  {
  }

  lemma TranslationShiftsPoints(t: Vec3, p: Vec3)
    ensures TransformPoint(Translation(t), p) == p.Add(t)
  {
  }
}
