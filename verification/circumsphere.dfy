/**
 The circumcentre of a triangle in space, computed as `tricircumcenter3d`
 does without the EXACT predicates, and the `Triangle::inside` test built on it.
 The centre is the unique point in the triangle's plane at equal distance from
 its three vertices; everything about `inside` follows from that.
 */
module Circumsphere {
  import opened Vectors
  import opened Geometry

  /** `|(b − a) × (c − a)|²`: twice the triangle's area, squared; zero exactly for collinear vertices. */
  function CrossSq(a: Vec3, b: Vec3, c: Vec3): real {
    SqNorm(Cross(Sub(b, a), Sub(c, a)))
  }

  /** The `denominator` of the circumcentre formula. */
  function HalfInverse(d: real): real
    requires d != 0.0
  {
    0.5 / d
  }

  lemma HalfInverseProduct(d: real)
    requires d != 0.0
    ensures HalfInverse(d) * d == 0.5
  {
  }

  /**
   The offset of the circumcentre from `a`, as `tricircumcenter3d` computes it
   without the EXACT predicates: with `ba = b − a`, `ca = c − a` and
   `crossbc = ba × ca`, each component is the matching component of
   `(balength·ca − calength·ba) × crossbc`, times `denominator = 0.5 / |crossbc|²`.
   The divisor is non-zero only for non-collinear vertices.
   */
  function CircumcenterOffset(a: Vec3, b: Vec3, c: Vec3): Vec3
    requires CrossSq(a, b, c) != 0.0
  {
    var ba, ca := Sub(b, a), Sub(c, a);
    var balength, calength := SqNorm(ba), SqNorm(ca);
    var crossbc := Cross(ba, ca);
    var denominator := HalfInverse(SqNorm(crossbc));
    Scale(denominator, Cross(Sub(Scale(balength, ca), Scale(calength, ba)), crossbc))
  }

  /** `inside` adds the offset back to `a`. */
  function Circumcenter(a: Vec3, b: Vec3, c: Vec3): Vec3
    requires CrossSq(a, b, c) != 0.0
  {
    Add(a, CircumcenterOffset(a, b, c))
  }

  /**
   The offset `o` solves the circumcentre's linear system:
   `2 o·u = |u|²`, `2 o·v = |v|²` and `o·(u × v) = 0`.
   */
  lemma OffsetEquations(a: Vec3, b: Vec3, c: Vec3)
    requires CrossSq(a, b, c) != 0.0
    ensures Dot(CircumcenterOffset(a, b, c), Sub(b, a)) == SqNorm(Sub(b, a)) * 0.5
    ensures Dot(CircumcenterOffset(a, b, c), Sub(c, a)) == SqNorm(Sub(c, a)) * 0.5
    ensures Dot(CircumcenterOffset(a, b, c), Cross(Sub(b, a), Sub(c, a))) == 0.0
  {
    OffsetDotFirst(a, b, c);
    OffsetDotSecond(a, b, c);
    var u, v := Sub(b, a), Sub(c, a);
    var m := Sub(Scale(SqNorm(u), v), Scale(SqNorm(v), u));
    DotScaleLeft(HalfInverse(CrossSq(a, b, c)), Cross(m, Cross(u, v)), Cross(u, v));
    CrossOrthogonal(m, Cross(u, v));
  }

  /** `o·u = k (m × w)·u = k m·(w × u) = k |u|² |w|² = |u|² / 2`. */
  lemma OffsetDotFirst(a: Vec3, b: Vec3, c: Vec3)
    requires CrossSq(a, b, c) != 0.0
    ensures Dot(CircumcenterOffset(a, b, c), Sub(b, a)) == SqNorm(Sub(b, a)) * 0.5
  {
    var u, v := Sub(b, a), Sub(c, a);
    var w, m := Cross(u, v), Sub(Scale(SqNorm(u), v), Scale(SqNorm(v), u));
    var k := HalfInverse(CrossSq(a, b, c));
    assert CircumcenterOffset(a, b, c) == Scale(k, Cross(m, w));
    HalfInverseProduct(CrossSq(a, b, c));
    Lagrange(u, v);
    DotScaleLeft(k, Cross(m, w), u);
    TripleProductCyclic(m, w, u);
    DoubleCross(u, v);
    MomentDot(u, v, Cross(w, u), SqNorm(u), Dot(u, v));
    MulSubstitute(SqNorm(u), SqNorm(u) * SqNorm(v) - Dot(u, v) * Dot(u, v), CrossSq(a, b, c));
    MulSubstitute(k, Dot(Cross(m, w), u), SqNorm(u) * CrossSq(a, b, c));
    CancelFactor(SqNorm(u), k, CrossSq(a, b, c), 0.5);
  }

  /** `o·v = k (m × w)·v = k m·(w × v) = k |v|² |w|² = |v|² / 2`. */
  lemma OffsetDotSecond(a: Vec3, b: Vec3, c: Vec3)
    requires CrossSq(a, b, c) != 0.0
    ensures Dot(CircumcenterOffset(a, b, c), Sub(c, a)) == SqNorm(Sub(c, a)) * 0.5
  {
    var u, v := Sub(b, a), Sub(c, a);
    var w, m := Cross(u, v), Sub(Scale(SqNorm(u), v), Scale(SqNorm(v), u));
    var k := HalfInverse(CrossSq(a, b, c));
    assert CircumcenterOffset(a, b, c) == Scale(k, Cross(m, w));
    HalfInverseProduct(CrossSq(a, b, c));
    Lagrange(u, v);
    DotScaleLeft(k, Cross(m, w), v);
    TripleProductCyclic(m, w, v);
    DoubleCrossLeft(u, v, v);
    MomentDot(u, v, Cross(w, v), Dot(u, v), SqNorm(v));
    MulSubstitute(SqNorm(v), SqNorm(u) * SqNorm(v) - Dot(u, v) * Dot(u, v), CrossSq(a, b, c));
    MulSubstitute(k, Dot(Cross(m, w), v), SqNorm(v) * CrossSq(a, b, c));
    CancelFactor(SqNorm(v), k, CrossSq(a, b, c), 0.5);
  }

  /** The centre lies in the triangle's plane at the same distance from all three vertices. */
  lemma CircumcenterEquidistant(a: Vec3, b: Vec3, c: Vec3)
    requires CrossSq(a, b, c) != 0.0
    ensures SqDist(Circumcenter(a, b, c), b) == SqDist(Circumcenter(a, b, c), a)
    ensures SqDist(Circumcenter(a, b, c), c) == SqDist(Circumcenter(a, b, c), a)
    ensures Dot(Sub(Circumcenter(a, b, c), a), Cross(Sub(b, a), Sub(c, a))) == 0.0
  {
    var o, x := CircumcenterOffset(a, b, c), Circumcenter(a, b, c);
    OffsetEquations(a, b, c);
    assert Sub(x, a) == o;
    assert Sub(x, b) == Sub(o, Sub(b, a));
    assert Sub(x, c) == Sub(o, Sub(c, a));
    SqNormSub(o, Sub(b, a));
    SqNormSub(o, Sub(c, a));
  }

  /** Any point of the plane at equal distance from the three vertices is the centre: the centre is unique. */
  lemma CircumcenterUnique(a: Vec3, b: Vec3, c: Vec3, x: Vec3)
    requires CrossSq(a, b, c) != 0.0
    requires SqDist(x, b) == SqDist(x, a) && SqDist(x, c) == SqDist(x, a)
    requires Dot(Sub(x, a), Cross(Sub(b, a), Sub(c, a))) == 0.0
    ensures x == Circumcenter(a, b, c)
  {
    var u, v := Sub(b, a), Sub(c, a);
    var y, o := Sub(x, a), CircumcenterOffset(a, b, c);
    OffsetEquations(a, b, c);
    assert Sub(x, b) == Sub(y, u);
    assert Sub(x, c) == Sub(y, v);
    SqNormSub(y, u);
    SqNormSub(y, v);
    DotSubLeft(y, o, u);
    DotSubLeft(y, o, v);
    DotSubLeft(y, o, Cross(u, v));
    OrthogonalToFrameIsZero(u, v, Sub(y, o));
    assert x == Add(a, o);
  }

  /** A vector orthogonal to `u`, `v` and `u × v`, for independent `u` and `v`, is zero. */
  lemma OrthogonalToFrameIsZero(u: Vec3, v: Vec3, e: Vec3)
    requires SqNorm(Cross(u, v)) != 0.0
    requires Dot(e, u) == 0.0 && Dot(e, v) == 0.0 && Dot(e, Cross(u, v)) == 0.0
    ensures e == Zero
  {
    var w := Cross(u, v);
    // e × w = u (e·v) − v (e·u) = 0
    CrossOfCross(e, u, v);
    ScaleByZero(Dot(e, v), u);
    ScaleByZero(Dot(e, u), v);
    assert Cross(e, w) == Zero;
    // w × (e × w) = e |w|² − w (w·e), and w × 0 = 0
    CrossOfCross(w, e, w);
    DotSymmetric(w, e);
    ScaleByZero(Dot(w, e), w);
    assert Scale(Dot(w, w), e) == Zero;
    ScaleCancel(Dot(w, w), e);
  }

  /** Swapping two vertices mirrors the cross product, so its squared norm is unchanged. */
  lemma CrossSqSymmetric(a: Vec3, b: Vec3, c: Vec3)
    ensures CrossSq(b, a, c) == CrossSq(a, b, c)
    ensures CrossSq(a, c, b) == CrossSq(a, b, c)
  {
    var w := Cross(Sub(b, a), Sub(c, a));
    assert Cross(Sub(a, b), Sub(c, b)) == Neg(w);
    CrossAntiSymmetric(Sub(b, a), Sub(c, a));
    SqNormNeg(w);
  }

  /** The centre does not depend on the order of the vertices. */
  lemma CircumcenterSymmetric(a: Vec3, b: Vec3, c: Vec3)
    requires CrossSq(a, b, c) != 0.0
    ensures CrossSq(b, a, c) != 0.0 && Circumcenter(b, a, c) == Circumcenter(a, b, c)
    ensures CrossSq(a, c, b) != 0.0 && Circumcenter(a, c, b) == Circumcenter(a, b, c)
  {
    var u, v := Sub(b, a), Sub(c, a);
    var w := Cross(u, v);
    CrossSqSymmetric(a, b, c);
    // (b, a, c): same distances; its plane equation is taken at b with normal −w
    var x := Circumcenter(b, a, c);
    CircumcenterEquidistant(b, a, c);
    assert Cross(Sub(a, b), Sub(c, b)) == Neg(w);
    assert Sub(x, a) == Sub(Sub(x, b), Sub(a, b));
    DotSubLeft(Sub(x, b), Sub(a, b), w);
    DotNegRight(Sub(x, b), w);
    assert Sub(a, b) == Neg(u);
    CrossOrthogonal(u, v);
    DotSymmetric(Neg(u), w);
    DotNegRight(w, u);
    CircumcenterUnique(a, b, c, x);
    // (a, c, b): same distances; normal −w at the same base point
    var x' := Circumcenter(a, c, b);
    CircumcenterEquidistant(a, c, b);
    CrossAntiSymmetric(u, v);
    DotNegRight(Sub(x', a), w);
    CircumcenterUnique(a, b, c, x');
  }

  /**
   `Triangle::inside` for the corners `a = l1.p1`, `b = l2.p1`, `c = l3.p1`:
   `p` is strictly closer to the circumcentre than `c` is. For collinear
   corners the source divides by zero, the centre is not a number and the
   comparison is false.
   */
  predicate InsideCircumsphere(a: Vec3, b: Vec3, c: Vec3, p: Vec3) {
    if CrossSq(a, b, c) == 0.0 then false
    else SqDist(Circumcenter(a, b, c), p) < SqDist(Circumcenter(a, b, c), c)
  }

  predicate Inside(t: Triangle, p: Point) {
    InsideCircumsphere(Pos(t.l1.p1), Pos(t.l2.p1), Pos(t.l3.p1), Pos(p))
  }

  /** The point `inside` builds at the centre: default id 0 and a zero normal. */
  function CentrePoint(x: Vec3): (r: Point)
    ensures Pos(r) == x
  {
    Point(0, x.x, x.y, x.z, Zero)
  }

  /**
   Comparing the exact lengths `e.length()` and `r_` as the source does gives
   the same verdict as comparing squared distances.
   */
  lemma InsideComparesLengths(t: Triangle, p: Point, r: real, s: real)
    requires CrossSq(Pos(t.l1.p1), Pos(t.l2.p1), Pos(t.l3.p1)) != 0.0
    requires IsLength(Edge(CentrePoint(Circumcenter(Pos(t.l1.p1), Pos(t.l2.p1), Pos(t.l3.p1))), p), r)
    requires IsLength(Edge(CentrePoint(Circumcenter(Pos(t.l1.p1), Pos(t.l2.p1), Pos(t.l3.p1))), t.l3.p1), s)
    ensures Inside(t, p) <==> r < s
  {
    var x := CentrePoint(Circumcenter(Pos(t.l1.p1), Pos(t.l2.p1), Pos(t.l3.p1)));
    LengthOrderIsSqLengthOrder(Edge(x, p), r, Edge(x, t.l3.p1), s);
  }

  /** No corner of the triangle is strictly inside its own circumsphere. */
  lemma CornersNotInside(a: Vec3, b: Vec3, c: Vec3)
    ensures !InsideCircumsphere(a, b, c, a)
    ensures !InsideCircumsphere(a, b, c, b)
    ensures !InsideCircumsphere(a, b, c, c)
  {
    if CrossSq(a, b, c) != 0.0 {
      CircumcenterEquidistant(a, b, c);
    }
  }

  /** The verdict does not depend on the order of the corners, though the source measures the radius to `c`. */
  lemma InsideSymmetric(a: Vec3, b: Vec3, c: Vec3, p: Vec3)
    ensures InsideCircumsphere(b, a, c, p) == InsideCircumsphere(a, b, c, p)
    ensures InsideCircumsphere(a, c, b, p) == InsideCircumsphere(a, b, c, p)
  {
    CrossSqSymmetric(a, b, c);
    if CrossSq(a, b, c) != 0.0 {
      CircumcenterSymmetric(a, b, c);
      CircumcenterEquidistant(a, b, c);
    }
  }

  /** Heron's product on the squared side lengths is four times the squared cross product. */
  lemma HeronIsCrossSq(a: Vec3, b: Vec3, c: Vec3)
    ensures Heron16(SqDist(a, b), SqDist(b, c), SqDist(c, a)) == 4.0 * CrossSq(a, b, c)
  {
    var u, v := Sub(b, a), Sub(c, a);
    SqDistSymmetric(a, b);
    assert Sub(b, c) == Sub(u, v);
    HeronOfVectors(u, v);
  }

  lemma HeronOfVectors(u: Vec3, v: Vec3)
    ensures Heron16(SqNorm(u), SqNorm(Sub(u, v)), SqNorm(v)) == 4.0 * SqNorm(Cross(u, v))
  {
    SqNormSub(u, v);
    HeronOfFrame(SqNorm(u), SqNorm(Sub(u, v)), SqNorm(v), Dot(u, v));
    Lagrange(u, v);
  }

  lemma HeronOfFrame(sa: real, sb: real, sc: real, d: real)
    requires sb == sa - 2.0 * d + sc
    ensures Heron16(sa, sb, sc) == 4.0 * (sa * sc - d * d)
  {
  }

  /**
   `isReseaonable` on three sample points holds exactly when the points are
   not collinear, which is exactly when the circumcentre exists.
   */
  lemma ReasonableIffNotCollinear(p1: Point, p2: Point, p3: Point)
    ensures ReasonablePoints(p1, p2, p3) <==> CrossSq(Pos(p1), Pos(p2), Pos(p3)) != 0.0
  {
    HeronIsCrossSq(Pos(p1), Pos(p2), Pos(p3));
    SqNormNonNegative(Cross(Sub(Pos(p2), Pos(p1)), Sub(Pos(p3), Pos(p1))));
  }

  /**
   For `y = p v − q u`: `m·y = |u|²(p|v|² − q u·v) − |v|²(p u·v − q|u|²)`
   where `m = |u|² v − |v|² u`.
   */
  lemma MomentDot(u: Vec3, v: Vec3, y: Vec3, p: real, q: real)
    requires y == Sub(Scale(p, v), Scale(q, u))
    ensures Dot(Sub(Scale(SqNorm(u), v), Scale(SqNorm(v), u)), y)
         == SqNorm(u) * (p * SqNorm(v) - q * Dot(u, v)) - SqNorm(v) * (p * Dot(u, v) - q * SqNorm(u))
  {
    MomentParts(u, v, y, p, q);
    DotLinearLeft(SqNorm(u), v, SqNorm(v), u, y);
    assert Dot(Sub(Scale(SqNorm(u), v), Scale(SqNorm(v), u)), y) == SqNorm(u) * Dot(v, y) - SqNorm(v) * Dot(u, y);
    Substitute(SqNorm(u), SqNorm(v), Dot(v, y), Dot(u, y), p * SqNorm(v) - q * Dot(u, v), p * Dot(u, v) - q * SqNorm(u));
    assert SqNorm(u) * Dot(v, y) - SqNorm(v) * Dot(u, y) == SqNorm(u) * (p * SqNorm(v) - q * Dot(u, v)) - SqNorm(v) * (p * Dot(u, v) - q * SqNorm(u));
  }

  lemma MomentParts(u: Vec3, v: Vec3, y: Vec3, p: real, q: real)
    requires y == Sub(Scale(p, v), Scale(q, u))
    ensures Dot(v, y) == p * SqNorm(v) - q * Dot(u, v)
    ensures Dot(u, y) == p * Dot(u, v) - q * SqNorm(u)
  {
    DotLinearRight(v, p, v, q, u);
    DotSymmetric(u, v);
    MulSubstitute(q, Dot(v, u), Dot(u, v));
    MulSubstitute(p, Dot(v, v), SqNorm(v));
    DotLinearRight(u, p, v, q, u);
    MulSubstitute(q, Dot(u, u), SqNorm(u));
  }

  lemma MulSubstitute(p: real, x: real, x': real)
    requires x == x'
    ensures p * x == p * x'
  {
  }

  lemma CancelFactor(x: real, k: real, d: real, h: real)
    requires k * d == h
    ensures k * (x * d) == x * h
  {
  }

  lemma Substitute(s: real, t: real, x: real, y: real, x': real, y': real)
    requires x == x' && y == y'
    ensures s * x - t * y == s * x' - t * y'
  {
  }
}
