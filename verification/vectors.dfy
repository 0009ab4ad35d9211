/**
 * Exact three-component vectors, standing for the single-precision `Vector3`
 * the nodes use, and the face normal of a triangle.
 */
module Vectors {

  datatype Vec3 = Vec3(x: real, y: real, z: real)

  /** Texture coordinates. */
  datatype Vec2 = Vec2(u: real, v: real)

  const Zero: Vec3 := Vec3(0.0, 0.0, 0.0)

  function Add(a: Vec3, b: Vec3): Vec3
  {
    Vec3(a.x + b.x, a.y + b.y, a.z + b.z)
  }

  function Sub(a: Vec3, b: Vec3): Vec3
  {
    Vec3(a.x - b.x, a.y - b.y, a.z - b.z)
  }

  function Neg(a: Vec3): Vec3
  {
    Vec3(-a.x, -a.y, -a.z)
  }

  function ScaleBy(a: Vec3, k: real): Vec3
  {
    Vec3(k * a.x, k * a.y, k * a.z)
  }

  function Dot(a: Vec3, b: Vec3): real
  {
    a.x * b.x + a.y * b.y + a.z * b.z
  }

  /** The right-handed cross product. */
  function Cross(a: Vec3, b: Vec3): Vec3
  {
    Vec3(a.y * b.z - a.z * b.y, a.z * b.x - a.x * b.z, a.x * b.y - a.y * b.x)
  }

  /** Adding vectors is commutative and associative, and `Zero` is its unit. */
  lemma AddLaws(a: Vec3, b: Vec3, c: Vec3)
    ensures Add(a, b) == Add(b, a)
    ensures Add(Add(a, b), c) == Add(a, Add(b, c))
    ensures Add(a, Zero) == a && Add(Zero, a) == a
  {
  }

  /** The cross product is antisymmetric. */
  lemma CrossAntisymmetric(a: Vec3, b: Vec3)
    ensures Cross(b, a) == Neg(Cross(a, b))
  {
  }

  /** The cross product of parallel vectors is zero. */
  lemma CrossParallel(a: Vec3, t: real)
    ensures Cross(a, ScaleBy(a, t)) == Zero
  {
    assert a.y * (t * a.z) == a.z * (t * a.y);
    assert a.z * (t * a.x) == a.x * (t * a.z);
    assert a.x * (t * a.y) == a.y * (t * a.x);
  }

  /** The cross product is perpendicular to both of its arguments. */
  lemma CrossPerpendicular(a: Vec3, b: Vec3)
    ensures Dot(Cross(a, b), a) == 0.0 && Dot(Cross(a, b), b) == 0.0
  {
    var c := Cross(a, b);
    assert c.x * a.x + c.y * a.y + c.z * a.z
        == (a.y * b.z * a.x - a.z * b.y * a.x) + (a.z * b.x * a.y - a.x * b.z * a.y) + (a.x * b.y * a.z - a.y * b.x * a.z);
    assert c.x * b.x + c.y * b.y + c.z * b.z
        == (a.y * b.z * b.x - a.z * b.y * b.x) + (a.z * b.x * b.y - a.x * b.z * b.y) + (a.x * b.y * b.z - a.y * b.x * b.z);
  }

  /**
   * The face normal of the triangle `p1 p2 p3`: the cross product of the
   * edges `p1 - p2` and `p1 - p3`. Its length is left as it comes.
   */
  function FaceNormal(p1: Vec3, p2: Vec3, p3: Vec3): Vec3
  {
    Cross(Sub(p1, p2), Sub(p1, p3))
  }

  /** The face normal is perpendicular to both edges, and so to the whole plane of the triangle. */
  lemma FaceNormalPerpendicular(p1: Vec3, p2: Vec3, p3: Vec3)
    ensures Dot(FaceNormal(p1, p2, p3), Sub(p1, p2)) == 0.0
    ensures Dot(FaceNormal(p1, p2, p3), Sub(p1, p3)) == 0.0
    ensures Dot(FaceNormal(p1, p2, p3), Sub(p2, p3)) == 0.0
  {
    CrossPerpendicular(Sub(p1, p2), Sub(p1, p3));
    var n := FaceNormal(p1, p2, p3);
    assert Dot(n, Sub(p2, p3)) == Dot(n, Sub(p1, p3)) - Dot(n, Sub(p1, p2));
  }

  /** Swapping the second and third corner reverses the face normal. */
  lemma FaceNormalAntisymmetric(p1: Vec3, p2: Vec3, p3: Vec3)
    ensures FaceNormal(p1, p3, p2) == Neg(FaceNormal(p1, p2, p3))
  {
    CrossAntisymmetric(Sub(p1, p2), Sub(p1, p3));
  }

  /**
   * The face normal is the cross product of the edges leaving `p1`, the usual
   * textbook form: negating both edges leaves a cross product unchanged.
   */
  lemma FaceNormalFromEdges(p1: Vec3, p2: Vec3, p3: Vec3)
    ensures FaceNormal(p1, p2, p3) == Cross(Sub(p2, p1), Sub(p3, p1))
  {
  }

  /** Moving the whole triangle does not change its face normal. */
  lemma FaceNormalTranslationInvariant(p1: Vec3, p2: Vec3, p3: Vec3, d: Vec3)
    ensures FaceNormal(Add(p1, d), Add(p2, d), Add(p3, d)) == FaceNormal(p1, p2, p3)
  {
    assert Sub(Add(p1, d), Add(p2, d)) == Sub(p1, p2);
    assert Sub(Add(p1, d), Add(p3, d)) == Sub(p1, p3);
  }

  /**
   * A triangle whose third corner lies on the line through the first two,
   * `p3 = p1 + t (p2 - p1)`, has a zero face normal. Taking `t = 0` or `t = 1`
   * covers the triangles with two coincident corners.
   */
  lemma FaceNormalCollinear(p1: Vec3, p2: Vec3, t: real)
    ensures FaceNormal(p1, p2, Add(p1, ScaleBy(Sub(p2, p1), t))) == Zero
  {
    var e := Sub(p1, p2);
    assert Sub(p1, Add(p1, ScaleBy(Sub(p2, p1), t))) == ScaleBy(e, t);
    CrossParallel(e, t);
  }

  /** Coincident corners give a zero face normal. */
  lemma FaceNormalDegenerate(p1: Vec3, p2: Vec3, p3: Vec3)
    requires p1 == p2 || p1 == p3 || p2 == p3
    ensures FaceNormal(p1, p2, p3) == Zero
  {
    if p1 == p3 {
      FaceNormalCollinear(p1, p2, 0.0);
      assert Add(p1, ScaleBy(Sub(p2, p1), 0.0)) == p3;
    } else if p2 == p3 {
      FaceNormalCollinear(p1, p2, 1.0);
      assert Add(p1, ScaleBy(Sub(p2, p1), 1.0)) == p3;
    }
  }
}
