/**
 Exact three-dimensional vector algebra over `real`, standing in for the
 `glm::vec3` arithmetic and the hand-written cross products of the triangulator.
 The identities proved here are the algebra the circumcentre and normal proofs
 rest on.
 */
module Vectors {

  datatype Vec3 = Vec3(x: real, y: real, z: real)

  const Zero: Vec3 := Vec3(0.0, 0.0, 0.0)

  function Add(u: Vec3, v: Vec3): Vec3 {
    Vec3(u.x + v.x, u.y + v.y, u.z + v.z)
  }

  function Sub(u: Vec3, v: Vec3): Vec3 {
    Vec3(u.x - v.x, u.y - v.y, u.z - v.z)
  }

  function Neg(v: Vec3): Vec3 {
    Vec3(-v.x, -v.y, -v.z)
  }

  function Scale(k: real, v: Vec3): Vec3 {
    Vec3(k * v.x, k * v.y, k * v.z)
  }

  function Dot(u: Vec3, v: Vec3): real {
    u.x * v.x + u.y * v.y + u.z * v.z
  }

  /** Right-handed cross product, the convention of `glm::cross`. */
  function Cross(u: Vec3, v: Vec3): Vec3 {
    Vec3(u.y * v.z - u.z * v.y, u.z * v.x - u.x * v.z, u.x * v.y - u.y * v.x)
  }

  function SqNorm(v: Vec3): real {
    Dot(v, v)
  }

  /** Squared Euclidean distance between two positions. */
  function SqDist(p: Vec3, q: Vec3): real {
    SqNorm(Sub(p, q))
  }

  /** A squared norm is never negative. */
  lemma SqNormNonNegative(v: Vec3)
    ensures SqNorm(v) >= 0.0
  {
    SquareNonNegative(v.x);
    SquareNonNegative(v.y);
    SquareNonNegative(v.z);
  }

  lemma SquareNonNegative(r: real)
    ensures r * r >= 0.0
  {
    if r > 0.0 {
      MulPositive(r, r);
    } else if r < 0.0 {
      MulPositive(-r, -r);
    }
  }

  lemma MulPositive(x: real, y: real)
    requires x > 0.0 && y > 0.0
    ensures x * y > 0.0
  {
  }

  lemma SqDistSymmetric(p: Vec3, q: Vec3)
    ensures SqDist(p, q) == SqDist(q, p)
  {
  }

  lemma CrossAntiSymmetric(u: Vec3, v: Vec3)
    ensures Cross(v, u) == Neg(Cross(u, v))
  {
  }

  lemma CrossOrthogonal(u: Vec3, v: Vec3)
    ensures Dot(Cross(u, v), u) == 0.0
    ensures Dot(Cross(u, v), v) == 0.0
  {
  }

  /** The scalar triple product is invariant under cyclic rotation. */
  lemma TripleProductCyclic(a: Vec3, b: Vec3, c: Vec3)
    ensures Dot(Cross(a, b), c) == Dot(a, Cross(b, c))
  {
  }

  /** `(u × v) × u = |u|² v − (u·v) u`, the "BAC−CAB" rule in the form the circumcentre needs. */
  lemma DoubleCross(u: Vec3, v: Vec3)
    ensures Cross(Cross(u, v), u) == Sub(Scale(Dot(u, u), v), Scale(Dot(u, v), u))
  {
    DoubleCrossLeft(u, v, u);
  }

  /** `(u × v) × w = v (u·w) − u (v·w)`. */
  lemma DoubleCrossLeft(u: Vec3, v: Vec3, w: Vec3)
    ensures Cross(Cross(u, v), w) == Sub(Scale(Dot(u, w), v), Scale(Dot(v, w), u))
  {
    DoubleCrossLeftX(u, v, w);
    DoubleCrossLeftY(u, v, w);
    DoubleCrossLeftZ(u, v, w);
  }

  lemma DoubleCrossLeftX(u: Vec3, v: Vec3, w: Vec3)
    ensures Cross(Cross(u, v), w).x == Dot(u, w) * v.x - Dot(v, w) * u.x
  {
    var c := Cross(u, v);
    DoubleCrossComponent(u.x, u.y, u.z, v.x, v.y, v.z, w.x, w.y, w.z, c.y, c.z, Dot(u, w), Dot(v, w));
  }

  lemma DoubleCrossLeftY(u: Vec3, v: Vec3, w: Vec3)
    ensures Cross(Cross(u, v), w).y == Dot(u, w) * v.y - Dot(v, w) * u.y
  {
    var c := Cross(u, v);
    DoubleCrossComponent(u.y, u.z, u.x, v.y, v.z, v.x, w.y, w.z, w.x, c.z, c.x, Dot(u, w), Dot(v, w));
  }

  lemma DoubleCrossLeftZ(u: Vec3, v: Vec3, w: Vec3)
    ensures Cross(Cross(u, v), w).z == Dot(u, w) * v.z - Dot(v, w) * u.z
  {
    var c := Cross(u, v);
    DoubleCrossComponent(u.z, u.x, u.y, v.z, v.x, v.y, w.z, w.x, w.y, c.x, c.y, Dot(u, w), Dot(v, w));
  }

  /**
   The x-component of `DoubleCrossLeft`, with `cy`, `cz` the components of
   `u × v` and `uw`, `vw` the dot products; the other two components are its
   cyclic relabellings.
   */
  lemma DoubleCrossComponent(ux: real, uy: real, uz: real, vx: real, vy: real, vz: real, wx: real, wy: real, wz: real,
                             cy: real, cz: real, uw: real, vw: real)
    requires cy == uz * vx - ux * vz && cz == ux * vy - uy * vx
    requires uw == ux * wx + uy * wy + uz * wz && vw == vx * wx + vy * wy + vz * wz
    ensures cy * wz - cz * wy == uw * vx - vw * ux
  {
  }

  /** `a × (b × c) = b (a·c) − c (a·b)`. */
  lemma CrossOfCross(a: Vec3, b: Vec3, c: Vec3)
    ensures Cross(a, Cross(b, c)) == Sub(Scale(Dot(a, c), b), Scale(Dot(a, b), c))
  {
    CrossAntiSymmetric(Cross(b, c), a);
    DoubleCrossLeft(b, c, a);
    DotSymmetric(a, b);
    DotSymmetric(a, c);
  }

  /** Lagrange's identity: `|u × v|² = |u|²|v|² − (u·v)²`. */
  lemma Lagrange(u: Vec3, v: Vec3)
    ensures SqNorm(Cross(u, v)) == SqNorm(u) * SqNorm(v) - Dot(u, v) * Dot(u, v)
  {
  }

  lemma DotSymmetric(u: Vec3, v: Vec3)
    ensures Dot(u, v) == Dot(v, u)
  {
  }

  lemma DotLinearLeft(p: real, a: Vec3, q: real, b: Vec3, c: Vec3)
    ensures Dot(Sub(Scale(p, a), Scale(q, b)), c) == p * Dot(a, c) - q * Dot(b, c)
  {
  }

  lemma DotLinearRight(c: Vec3, p: real, a: Vec3, q: real, b: Vec3)
    ensures Dot(c, Sub(Scale(p, a), Scale(q, b))) == p * Dot(c, a) - q * Dot(c, b)
  {
  }

  lemma DotNegRight(a: Vec3, b: Vec3)
    ensures Dot(a, Neg(b)) == -Dot(a, b)
  {
  }

  lemma SqNormNeg(v: Vec3)
    ensures SqNorm(Neg(v)) == SqNorm(v)
  {
  }

  /** Scaling by zero gives the zero vector. */
  lemma ScaleByZero(k: real, v: Vec3)
    requires k == 0.0
    ensures Scale(k, v) == Zero
  {
  }

  /** A vector scaled by a non-zero factor is zero only if it was zero. */
  lemma ScaleCancel(k: real, v: Vec3)
    requires k != 0.0 && Scale(k, v) == Zero
    ensures v == Zero
  {
    MulNonZero(k, v.x);
    MulNonZero(k, v.y);
    MulNonZero(k, v.z);
  }

  lemma MulNonZero(x: real, y: real)
    ensures x != 0.0 && y != 0.0 ==> x * y != 0.0
  {
    if x > 0.0 && y > 0.0 {
      MulPositive(x, y);
    } else if x > 0.0 && y < 0.0 {
      MulPositive(x, -y);
    } else if x < 0.0 && y > 0.0 {
      MulPositive(-x, y);
    } else if x < 0.0 && y < 0.0 {
      MulPositive(-x, -y);
    }
  }

  lemma DotScaleLeft(k: real, a: Vec3, b: Vec3)
    ensures Dot(Scale(k, a), b) == k * Dot(a, b)
  {
  }

  lemma DotSubLeft(a: Vec3, b: Vec3, c: Vec3)
    ensures Dot(Sub(a, b), c) == Dot(a, c) - Dot(b, c)
  {
  }

  lemma DotSubRight(a: Vec3, b: Vec3, c: Vec3)
    ensures Dot(a, Sub(b, c)) == Dot(a, b) - Dot(a, c)
  {
  }

  /** `|a − b|² = |a|² − 2 a·b + |b|²`. */
  lemma SqNormSub(a: Vec3, b: Vec3)
    ensures SqNorm(Sub(a, b)) == SqNorm(a) - 2.0 * Dot(a, b) + SqNorm(b)
  {
  }
}
