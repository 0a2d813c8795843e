/**
 The value types of the triangulator (`Point`, `Edge`, `Triangle`) and their
 metric primitives, over exact reals.

 Square roots are not computed: an edge length is any `r` with `IsLength(e, r)`,
 that is `r >= 0` and `r * r` equal to the squared length. Constructors that
 cache lengths take the length function as a parameter, and lemmas assume it
 is exact where they need to.
 */
module Geometry {
  import opened Vectors

  /** A loaded sample. `id` is the 1-based load position; `normal` is the face-normal accumulator. */
  datatype Point = Point(id: int, x: real, y: real, z: real, normal: Vec3)

  function Pos(p: Point): Vec3 {
    Vec3(p.x, p.y, p.z)
  }

  // ---------------------------------------------------------------------------
  // Point identity
  // ---------------------------------------------------------------------------

  /** `Point::operator==`: two points are the same when their ids are equal. */
  predicate SamePoint(p: Point, q: Point) {
    if p.id == q.id then true else false
  }

  /** `Point::operator!=`: the negation of `operator==`. */
  predicate DifferentPoint(p: Point, q: Point) {
    !SamePoint(p, q)
  }

  /** Equality is id equality, and `!=` is its exact negation. */
  lemma PointEqualityIsIdEquality(p: Point, q: Point)
    ensures SamePoint(p, q) <==> p.id == q.id
    ensures DifferentPoint(p, q) <==> p.id != q.id
  {
  }

  /** Neither coordinates nor the normal take part: changing them never changes the verdict. */
  lemma PointEqualityIgnoresGeometry(p: Point, q: Point, p': Point, q': Point)
    requires p'.id == p.id && q'.id == q.id
    ensures SamePoint(p', q') == SamePoint(p, q)
  {
  }

  /** Two coincident samples loaded under different ids are different points. */
  lemma CoincidentPointsMayDiffer(p: Point, q: Point)
    requires Pos(p) == Pos(q) && p.id != q.id
    ensures DifferentPoint(p, q)
  {
  }

  lemma PointEqualityIsEquivalence(p: Point, q: Point, r: Point)
    ensures SamePoint(p, p)
    ensures SamePoint(p, q) ==> SamePoint(q, p)
    ensures SamePoint(p, q) && SamePoint(q, r) ==> SamePoint(p, r)
  {
  }

  // ---------------------------------------------------------------------------
  // Edges
  // ---------------------------------------------------------------------------

  datatype Edge = Edge(p1: Point, p2: Point)

  /** `Edge::getEdgeVector`: from `p1` to `p2`. */
  function EdgeVector(e: Edge): Vec3 {
    Sub(Pos(e.p2), Pos(e.p1))
  }

  /** The radicand of `Edge::length`. */
  function SqLength(e: Edge): (r: real)
    ensures r >= 0.0
  {
    SqNormNonNegative(Sub(Pos(e.p1), Pos(e.p2)));
    SqDist(Pos(e.p1), Pos(e.p2))
  }

  /** `r` is the Euclidean length of `e`: the non-negative square root of its squared length. */
  predicate IsLength(e: Edge, r: real) {
    r >= 0.0 && r * r == SqLength(e)
  }

  /** Reversing an edge does not change its length. */
  lemma LengthSymmetric(p: Point, q: Point, r: real, s: real)
    requires IsLength(Edge(p, q), r) && IsLength(Edge(q, p), s)
    ensures r == s
  {
    SqDistSymmetric(Pos(p), Pos(q));
    if r < s {
      SquareStrictlyMonotone(r, s);
    } else if s < r {
      SquareStrictlyMonotone(s, r);
    }
  }

  /** An edge has at most one length. */
  lemma LengthUnique(e: Edge, r: real, s: real)
    requires IsLength(e, r) && IsLength(e, s)
    ensures r == s
  {
    if r < s {
      SquareStrictlyMonotone(r, s);
    } else if s < r {
      SquareStrictlyMonotone(s, r);
    }
  }

  /** The length between coincident points is 0 (and by `LengthUnique`, nothing else). */
  lemma LengthOfCoincidentPoints(e: Edge)
    requires Pos(e.p1) == Pos(e.p2)
    ensures IsLength(e, 0.0)
  {
    assert Sub(Pos(e.p1), Pos(e.p2)) == Zero;
  }

  /** Lengths compare exactly as their squares do, so comparing squared lengths loses nothing. */
  lemma LengthOrderIsSqLengthOrder(e1: Edge, r1: real, e2: Edge, r2: real)
    requires IsLength(e1, r1) && IsLength(e2, r2)
    ensures r1 < r2 <==> SqLength(e1) < SqLength(e2)
  {
    if r1 < r2 {
      SquareStrictlyMonotone(r1, r2);
    } else if r2 < r1 {
      SquareStrictlyMonotone(r2, r1);
    }
  }

  lemma SquareStrictlyMonotone(r: real, s: real)
    requires 0.0 <= r < s
    ensures r * r < s * s
  {
    MulPositive(s - r, s + r);
    assert (s - r) * (s + r) == s * s - r * r;
  }

  // ---------------------------------------------------------------------------
  // Triangles
  // ---------------------------------------------------------------------------

  /** Three edges and the cached lengths `a`, `b`, `c` of `l1`, `l2`, `l3`. */
  datatype Triangle = Triangle(l1: Edge, l2: Edge, l3: Edge, a: real, b: real, c: real)

  /** The edges close up head to tail. */
  predicate IsCycle(t: Triangle) {
    t.l1.p2 == t.l2.p1 && t.l2.p2 == t.l3.p1 && t.l3.p2 == t.l1.p1
  }

  /** Every cached side is the exact length of its edge. */
  predicate ExactSides(t: Triangle) {
    IsLength(t.l1, t.a) && IsLength(t.l2, t.b) && IsLength(t.l3, t.c)
  }

  /** The edge constructor: the lengths are measured edge by edge, in order. */
  function FromEdges(l1: Edge, l2: Edge, l3: Edge, length: Edge -> real): (t: Triangle)
    ensures t.a == length(l1) && t.b == length(l2) && t.c == length(l3)
  {
    Triangle(l1, l2, l3, length(l1), length(l2), length(l3))
  }

  /** The point constructor: the cycle (p1,p2), (p2,p3), (p3,p1). */
  function FromPoints(p1: Point, p2: Point, p3: Point, length: Edge -> real): (t: Triangle)
    ensures IsCycle(t)
    ensures t.l1.p1 == p1 && t.l2.p1 == p2 && t.l3.p1 == p3
    ensures t == FromEdges(Edge(p1, p2), Edge(p2, p3), Edge(p3, p1), length)
  {
    Triangle(Edge(p1, p2), Edge(p2, p3), Edge(p3, p1),
             length(Edge(p1, p2)), length(Edge(p2, p3)), length(Edge(p3, p1)))
  }

  /** With an exact length function both constructors cache exact sides. */
  lemma ExactLengthGivesExactSides(p1: Point, p2: Point, p3: Point, length: Edge -> real)
    requires IsLength(Edge(p1, p2), length(Edge(p1, p2)))
    requires IsLength(Edge(p2, p3), length(Edge(p2, p3)))
    requires IsLength(Edge(p3, p1), length(Edge(p3, p1)))
    ensures ExactSides(FromPoints(p1, p2, p3, length))
  {
  }

  /** `Triangle::isReseaonable` on three side lengths. */
  predicate ReasonableSides(a: real, b: real, c: real) {
    if a + b <= c || a + c <= b || b + c <= a then false else true
  }

  predicate IsReasonable(t: Triangle) {
    ReasonableSides(t.a, t.b, t.c)
  }

  /** The test is the strict triangle inequality, in all three directions. */
  lemma ReasonableIsStrictTriangleInequality(a: real, b: real, c: real)
    ensures ReasonableSides(a, b, c) <==> a + b > c && a + c > b && b + c > a
  {
  }

  /** Relabelling the sides in any order does not change the verdict. */
  lemma ReasonablePermutationInvariant(a: real, b: real, c: real)
    ensures ReasonableSides(a, b, c) == ReasonableSides(b, a, c)
    ensures ReasonableSides(a, b, c) == ReasonableSides(a, c, b)
    ensures ReasonableSides(a, b, c) == ReasonableSides(c, b, a)
    ensures ReasonableSides(a, b, c) == ReasonableSides(b, c, a)
    ensures ReasonableSides(a, b, c) == ReasonableSides(c, a, b)
  {
  }

  /** The semi-perimeter `p` of `Triangle::area`. */
  function SemiPerimeter(t: Triangle): real {
    (t.a + t.b + t.c) / 2.0
  }

  /** The radicand `p(p-a)(p-b)(p-c)` of Heron's formula in `Triangle::area`. */
  function AreaRadicand(t: Triangle): real {
    var p := SemiPerimeter(t);
    p * (p - t.a) * (p - t.b) * (p - t.c)
  }

  /**
   A reasonable triangle has positive sides and positive Heron factors, so the
   square root in `area` has a positive argument and the divisions in
   `minAngle` and `outerRadius` have non-zero divisors.
   */
  lemma HeronFactorsPositive(t: Triangle)
    requires IsReasonable(t)
    ensures t.a > 0.0 && t.b > 0.0 && t.c > 0.0
    ensures SemiPerimeter(t) > 0.0
    ensures SemiPerimeter(t) - t.a > 0.0 && SemiPerimeter(t) - t.b > 0.0 && SemiPerimeter(t) - t.c > 0.0
    ensures AreaRadicand(t) > 0.0
    ensures t.b * t.c > 0.0 && t.a * t.c > 0.0 && t.a * t.b > 0.0
  {
    var p := SemiPerimeter(t);
    MulPositive(p, p - t.a);
    MulPositive(p * (p - t.a), p - t.b);
    MulPositive(p * (p - t.a) * (p - t.b), p - t.c);
    MulPositive(t.b, t.c);
    MulPositive(t.a, t.c);
    MulPositive(t.a, t.b);
  }

  /** The four Heron factors, unhalved: `16 · AreaRadicand`. */
  function HeronProduct(a: real, b: real, c: real): real {
    (a + b + c) * ((-a + b + c) * ((a - b + c) * (a + b - c)))
  }

  /** Heron's product written in the squared sides only. */
  function Heron16(sa: real, sb: real, sc: real): real {
    2.0 * (sa * sb + sb * sc + sc * sa) - (sa * sa + sb * sb + sc * sc)
  }

  lemma HeronExpansion(a: real, b: real, c: real)
    ensures HeronProduct(a, b, c) == Heron16(a * a, b * b, c * c)
  {
  }

  lemma AreaRadicandIsHeronProduct(t: Triangle)
    ensures 16.0 * AreaRadicand(t) == HeronProduct(t.a, t.b, t.c)
  {
  }

  /**
   For non-negative sides the strict triangle inequality holds exactly when
   Heron's radicand is positive: `isReseaonable` rejects precisely the
   triangles of zero (or undefined) area.
   */
  lemma {:induction false} ReasonableIffPositiveArea(t: Triangle)
    requires t.a >= 0.0 && t.b >= 0.0 && t.c >= 0.0
    ensures IsReasonable(t) <==> AreaRadicand(t) > 0.0
  {
    var a, b, c := t.a, t.b, t.c;
    var s, x, y, z := a + b + c, -a + b + c, a - b + c, a + b - c;
    AreaRadicandIsHeronProduct(t);
    assert HeronProduct(a, b, c) == s * (x * (y * z));
    if IsReasonable(t) {
      MulPositive(y, z);
      MulPositive(x, y * z);
      MulPositive(s, x * (y * z));
    } else {
      // one factor is non-positive; the sum of any two factors is twice a side, so the others are not negative
      if x <= 0.0 {
        MulNonNegative(y, z);
        MulNonPositive(x, y * z);
      } else if y <= 0.0 {
        MulNonPositive(y, z);
        MulNonPositive(y * z, x);
      } else {
        MulNonPositive(z, y);
        MulNonPositive(y * z, x);
      }
      MulNonPositive(x * (y * z), s);
    }
  }

  /**
   The test on exact lengths can be decided from squared lengths alone: this is
   how the engine decides it without square roots.
   */
  lemma ReasonableFromSquaredLengths(t: Triangle)
    requires ExactSides(t)
    ensures IsReasonable(t) <==> Heron16(SqLength(t.l1), SqLength(t.l2), SqLength(t.l3)) > 0.0
  {
    ReasonableIffPositiveArea(t);
    AreaRadicandIsHeronProduct(t);
    HeronExpansion(t.a, t.b, t.c);
  }

  /** `isReseaonable` for the triangle on three points, decided on squared lengths. */
  predicate ReasonablePoints(p1: Point, p2: Point, p3: Point) {
    Heron16(SqLength(Edge(p1, p2)), SqLength(Edge(p2, p3)), SqLength(Edge(p3, p1))) > 0.0
  }

  /** Whatever exact length function is used, `FromPoints` is reasonable exactly when `ReasonablePoints` holds. */
  lemma ReasonablePointsAgrees(p1: Point, p2: Point, p3: Point, length: Edge -> real)
    requires IsLength(Edge(p1, p2), length(Edge(p1, p2)))
    requires IsLength(Edge(p2, p3), length(Edge(p2, p3)))
    requires IsLength(Edge(p3, p1), length(Edge(p3, p1)))
    ensures IsReasonable(FromPoints(p1, p2, p3, length)) <==> ReasonablePoints(p1, p2, p3)
  {
    ReasonableFromSquaredLengths(FromPoints(p1, p2, p3, length));
  }

  /** The squared-length test does not depend on the order of the three points. */
  lemma ReasonablePointsSymmetric(p1: Point, p2: Point, p3: Point)
    ensures ReasonablePoints(p1, p2, p3) == ReasonablePoints(p2, p1, p3)
    ensures ReasonablePoints(p1, p2, p3) == ReasonablePoints(p1, p3, p2)
  {
    SqDistSymmetric(Pos(p1), Pos(p2));
    SqDistSymmetric(Pos(p2), Pos(p3));
    SqDistSymmetric(Pos(p3), Pos(p1));
  }

  lemma MulNonNegative(x: real, y: real)
    requires x >= 0.0 && y >= 0.0
    ensures x * y >= 0.0
  {
  }

  lemma MulNonPositive(x: real, y: real)
    requires x <= 0.0 && y >= 0.0
    ensures x * y <= 0.0 && y * x <= 0.0
  {
  }

  // ---------------------------------------------------------------------------
  // Angles
  // ---------------------------------------------------------------------------

  /** The nested ternary of `minAngle`: the least of three values, and one of them. */
  function MinOfThree(x: real, y: real, z: real): (r: real)
    ensures r <= x && r <= y && r <= z
    ensures r == x || r == y || r == z
  {
    if x < y then (if x < z then x else z) else (if y < z then y else z)
  }

  /** The least of three values does not depend on their order. */
  lemma MinOfThreeSymmetric(x: real, y: real, z: real)
    ensures MinOfThree(x, y, z) == MinOfThree(y, z, x)
    ensures MinOfThree(x, y, z) == MinOfThree(y, x, z)
  {
  }

  predicate NonZeroSides(t: Triangle) {
    t.a != 0.0 && t.b != 0.0 && t.c != 0.0
  }

  /** Law of cosines: the cosine of the angle opposite side `a` in a triangle with sides `a`, `b`, `c`. */
  function LawOfCosines(a: real, b: real, c: real): real
    requires b != 0.0 && c != 0.0
  {
    (b * b + c * c - a * a) / (2.0 * b * c)
  }

  /** The two sides adjacent to the angle may be given in either order. */
  lemma LawOfCosinesSymmetric(a: real, b: real, c: real)
    requires b != 0.0 && c != 0.0
    ensures LawOfCosines(a, b, c) == LawOfCosines(a, c, b)
  {
  }

  /** The cosines `minAngle` takes the arc cosine of, opposite `a`, `b` and `c` in turn. */
  function CosA(t: Triangle): real
    requires NonZeroSides(t)
  {
    LawOfCosines(t.a, t.b, t.c)
  }

  function CosB(t: Triangle): real
    requires NonZeroSides(t)
  {
    LawOfCosines(t.b, t.a, t.c)
  }

  function CosC(t: Triangle): real
    requires NonZeroSides(t)
  {
    LawOfCosines(t.c, t.a, t.b)
  }

  /**
   `Triangle::minAngle`, with `acos` as a parameter: the least of the three
   interior angles, and one of them.
   */
  function MinAngle(t: Triangle, acos: real -> real): (r: real)
    requires NonZeroSides(t)
    ensures r <= acos(CosA(t)) && r <= acos(CosB(t)) && r <= acos(CosC(t))
    ensures r == acos(CosA(t)) || r == acos(CosB(t)) || r == acos(CosC(t))
  {
    MinOfThree(acos(CosA(t)), acos(CosB(t)), acos(CosC(t)))
  }

  /**
   In a reasonable triangle every cosine lies strictly inside (-1, 1): each
   `acos` argument is in its domain and each angle is strictly between 0 and π.
   */
  lemma CosinesInOpenInterval(t: Triangle)
    requires IsReasonable(t)
    ensures NonZeroSides(t)
    ensures -1.0 < CosA(t) < 1.0
    ensures -1.0 < CosB(t) < 1.0
    ensures -1.0 < CosC(t) < 1.0
  {
    HeronFactorsPositive(t);
    CosineBound(t.a, t.b, t.c);
    CosineBound(t.b, t.a, t.c);
    CosineBound(t.c, t.a, t.b);
  }

  /** `-1 < (b² + c² - a²) / 2bc < 1` under the strict triangle inequality. */
  lemma CosineBound(a: real, b: real, c: real)
    requires a > 0.0 && b > 0.0 && c > 0.0
    requires a + b > c && a + c > b && b + c > a
    ensures -1.0 < LawOfCosines(a, b, c) < 1.0
  {
    MulPositive(b, c);
    MulPositive(a - b + c, a + b - c);
    MulPositive(b + c - a, a + b + c);
    assert (a - b + c) * (a + b - c) == 2.0 * b * c - (b * b + c * c - a * a);
    assert (b + c - a) * (a + b + c) == 2.0 * b * c + (b * b + c * c - a * a);
    QuotientInOpenUnitInterval(b * b + c * c - a * a, 2.0 * b * c);
  }

  lemma QuotientInOpenUnitInterval(n: real, d: real)
    requires d > 0.0 && -d < n < d
    ensures -1.0 < n / d < 1.0
  {
  }

  /** With an `acos` that is positive on (-1, 1), the minimum angle of a reasonable triangle is positive. */
  lemma MinAngleOfReasonablePositive(t: Triangle, acos: real -> real)
    requires IsReasonable(t)
    requires forall x :: -1.0 < x < 1.0 ==> acos(x) > 0.0
    ensures NonZeroSides(t) && MinAngle(t, acos) > 0.0
  {
    CosinesInOpenInterval(t);
  }

  /** Cyclic relabelling (l2, l3, l1) of a triangle. */
  function Rotate(t: Triangle): Triangle {
    Triangle(t.l2, t.l3, t.l1, t.b, t.c, t.a)
  }

  /** `minAngle` and the area do not depend on which edge comes first. */
  lemma RotationInvariance(t: Triangle, acos: real -> real)
    requires NonZeroSides(t)
    ensures NonZeroSides(Rotate(t))
    ensures MinAngle(Rotate(t), acos) == MinAngle(t, acos)
    ensures AreaRadicand(Rotate(t)) == AreaRadicand(t)
  {
    var r := Rotate(t);
    LawOfCosinesSymmetric(t.b, t.c, t.a);
    LawOfCosinesSymmetric(t.c, t.b, t.a);
    assert CosA(r) == CosB(t);
    assert CosB(r) == CosC(t);
    assert CosC(r) == CosA(t);
    MinOfThreeSymmetric(acos(CosA(t)), acos(CosB(t)), acos(CosC(t)));
  }

  // ---------------------------------------------------------------------------
  // Normals
  // ---------------------------------------------------------------------------

  /**
   `Triangle::getNormal` before normalisation: `l1 × l2`, replaced by `l2 × l1`
   when its z-component is negative, so that it points up.
   */
  function RawNormal(t: Triangle): (n: Vec3)
    ensures n.z >= 0.0
    ensures n == Cross(EdgeVector(t.l1), EdgeVector(t.l2)) || n == Neg(Cross(EdgeVector(t.l1), EdgeVector(t.l2)))
  {
    var u, v := EdgeVector(t.l1), EdgeVector(t.l2);
    CrossAntiSymmetric(u, v);
    if Cross(u, v).z < 0.0 then Cross(v, u) else Cross(u, v)
  }

  /** `Triangle::getNormal` with `glm::normalize` as a parameter, tested after normalising, as the source does. */
  function GetNormal(t: Triangle, normalize: Vec3 -> Vec3): Vec3 {
    var n := normalize(Cross(EdgeVector(t.l1), EdgeVector(t.l2)));
    if n.z < 0.0 then normalize(Cross(EdgeVector(t.l2), EdgeVector(t.l1))) else n
  }

  /**
   When normalising keeps the sign of z (as scaling by a positive factor
   does), `getNormal` is the normalised upward cross product, and points up.
   */
  lemma GetNormalPointsUp(t: Triangle, normalize: Vec3 -> Vec3)
    requires forall v :: normalize(v).z < 0.0 <==> v.z < 0.0
    ensures GetNormal(t, normalize) == normalize(RawNormal(t))
    ensures GetNormal(t, normalize).z >= 0.0
  {
    var u, v := EdgeVector(t.l1), EdgeVector(t.l2);
    CrossAntiSymmetric(u, v);
    if Cross(u, v).z < 0.0 {
      assert normalize(Cross(u, v)).z < 0.0;
      assert RawNormal(t) == Cross(v, u);
    } else {
      assert !(normalize(Cross(u, v)).z < 0.0);
      assert RawNormal(t) == Cross(u, v);
    }
  }
}
