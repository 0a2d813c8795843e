/**
 The engine run on the primitives of `Delaunay.h`: the scan triangle of a
 popped edge `(p1, p2)` and a point `p` is `Triangle(edge, Edge(p2, p), Edge(p, p1))`,
 `reasonable` is `isReseaonable`, `inside` is `Triangle::inside`, the score is
 `minAngle` and the face normal is `getNormal` of the triangle on the lifted
 corners. `sqrt`, `acos` and `glm::normalize` stay oracles; when the length
 oracle is the exact Euclidean length, the engine's tests become statements
 about squared distances and circumcentres.
 */
module ExactPrimitives {
  import opened Vectors
  import opened Geometry
  import opened Circumsphere
  import opened Loader
  import opened Triangulation

  /** What the primitives call but cannot compute over exact reals. */
  datatype Oracles = Oracles(length: Edge -> real, acos: real -> real, normalize: Vec3 -> Vec3)

  /** `length` returns the exact Euclidean length of every edge. */
  ghost predicate ExactLength(length: Edge -> real) {
    forall e :: IsLength(e, length(e))
  }

  /** `length` is exact on the three sides of the triangle on `p1`, `p2`, `p3`. */
  predicate ExactOnSides(length: Edge -> real, p1: Point, p2: Point, p3: Point) {
    && IsLength(Edge(p1, p2), length(Edge(p1, p2)))
    && IsLength(Edge(p2, p3), length(Edge(p2, p3)))
    && IsLength(Edge(p3, p1), length(Edge(p3, p1)))
  }

  /** `acos` maps the open interval (-1, 1) onto positive angles, as the arc cosine does. */
  ghost predicate PositiveArcCosine(acos: real -> real) {
    forall x :: -1.0 < x < 1.0 ==> acos(x) > 0.0
  }

  /** `normalize` keeps the sign of the z-component, as scaling by a positive factor does. */
  ghost predicate KeepsUp(normalize: Vec3 -> Vec3) {
    forall v :: normalize(v).z < 0.0 <==> v.z < 0.0
  }

  /** The triangle the candidate scan tests: the popped edge, then `(p2, p)` and `(p, p1)`. */
  function ScanTriangle(e: Edge, p: Point, length: Edge -> real): (t: Triangle)
    ensures t == FromPoints(e.p1, e.p2, p, length)
    ensures t.l1.p1 == e.p1 && t.l2.p1 == e.p2 && t.l3.p1 == p
  {
    FromEdges(e, Edge(e.p2, p), Edge(p, e.p1), length)
  }

  /** `minAngle` of the scan triangle; the scan only asks for it of a reasonable triangle. */
  function Score(e: Edge, p: Point, o: Oracles): real {
    var t := ScanTriangle(e, p, o.length);
    if IsReasonable(t) then CosinesInOpenInterval(t); MinAngle(t, o.acos) else 0.0
  }

  /** The engine's primitives built from `Delaunay.h`. */
  function Exact(o: Oracles): Primitives {
    Primitives(
      o.length,
      (e: Edge, p: Point) => IsReasonable(ScanTriangle(e, p, o.length)),
      (e: Edge, p: Point, q: Point) => Inside(ScanTriangle(e, p, o.length), q),
      (e: Edge, p: Point) => Score(e, p, o),
      (a: Point, b: Point, c: Point) => GetNormal(FromPoints(a, b, c, o.length), o.normalize))
  }

  /**
   With exact lengths, the scan triangle is reasonable exactly when its
   corners are not collinear, and `inside` is the strict squared-distance
   comparison with the circumcentre of `p1`, `p2`, `p`.
   */
  lemma ExactTests(o: Oracles, e: Edge, p: Point, q: Point)
    requires ExactOnSides(o.length, e.p1, e.p2, p)
    ensures Exact(o).reasonable(e, p) <==> CrossSq(Pos(e.p1), Pos(e.p2), Pos(p)) != 0.0
    ensures Exact(o).inside(e, p, q) <==> InsideCircumsphere(Pos(e.p1), Pos(e.p2), Pos(p), Pos(q))
  {
    ReasonablePointsAgrees(e.p1, e.p2, p, o.length);
    ReasonableIffNotCollinear(e.p1, e.p2, p);
  }

  /**
   With a positive arc cosine, `minAngle > maxMinAngle = 0` holds for every
   reasonable candidate, so the score filter never removes one.
   */
  lemma ExactScorePositive(o: Oracles, e: Edge, p: Point)
    requires PositiveArcCosine(o.acos)
    ensures Exact(o).score(e, p) > 0.0 <==> Exact(o).reasonable(e, p)
  {
    var t := ScanTriangle(e, p, o.length);
    if IsReasonable(t) {
      MinAngleOfReasonablePositive(t, o.acos);
    }
  }

  // ---------------------------------------------------------------------------
  // Seed
  // ---------------------------------------------------------------------------

  function PairSqLength(pts: seq<Point>, i: int, j: int): real
    requires 0 <= i < |pts| && 0 <= j < |pts|
  {
    SqLength(Edge(pts[i], pts[j]))
  }

  /** The closest pair by squared distance, first in row-major order among ties. */
  predicate IsClosestPair(pts: seq<Point>, i: int, j: int) {
    && 0 <= i < j < |pts|
    && (forall i', j' :: 0 <= i' < j' < |pts| ==> PairSqLength(pts, i, j) <= PairSqLength(pts, i', j'))
    && (forall i', j' :: 0 <= i' < j' < |pts| && RowMajorBefore(i', j', i, j) ==>
          PairSqLength(pts, i, j) < PairSqLength(pts, i', j'))
  }

  /** Comparing the `sqrt` lengths picks the same seed as comparing squared distances. */
  lemma SeedIsClosestPair(pts: seq<Point>, o: Oracles, i: int, j: int)
    requires ExactLength(o.length)
    ensures IsSeed(pts, Exact(o), i, j) <==> IsClosestPair(pts, i, j)
  {
    if 0 <= i < j < |pts| {
      forall i', j' | 0 <= i' < j' < |pts|
        ensures PairLength(pts, i, j, Exact(o)) < PairLength(pts, i', j', Exact(o))
                <==> PairSqLength(pts, i, j) < PairSqLength(pts, i', j')
        ensures PairLength(pts, i', j', Exact(o)) < PairLength(pts, i, j, Exact(o))
                <==> PairSqLength(pts, i', j') < PairSqLength(pts, i, j)
      {
        var e, e' := Edge(pts[i], pts[j]), Edge(pts[i'], pts[j']);
        LengthOrderIsSqLengthOrder(e, o.length(e), e', o.length(e'));
        LengthOrderIsSqLengthOrder(e', o.length(e'), e, o.length(e));
      }
    }
  }

  // ---------------------------------------------------------------------------
  // Emitted faces
  // ---------------------------------------------------------------------------

  /** No loaded point is strictly inside the circumsphere of `a`, `b`, `c`. */
  predicate EmptyCircumsphere(a: Vec3, b: Vec3, c: Vec3, pts: seq<Point>) {
    forall k :: 0 <= k < |pts| ==> !InsideCircumsphere(a, b, c, Pos(pts[k]))
  }

  /**
   A face that passed the scan has non-collinear corners and a circumsphere
   with no loaded point strictly inside: the three skipped points are its own
   corners, which are never inside.
   */
  lemma GoodFaceIsDelaunay(pts: seq<Point>, f: Face, o: Oracles)
    requires WellFormed(pts) && ExactOnSides(o.length, f.p1, f.p2, f.apex)
    requires GoodFace(pts, f, Exact(o))
    ensures CrossSq(Pos(f.p1), Pos(f.p2), Pos(f.apex)) != 0.0
    ensures EmptyCircumsphere(Pos(f.p1), Pos(f.p2), Pos(f.apex), pts)
  {
    var e := FaceEdge(f);
    ExactTests(o, e, f.apex, f.apex);
    CornersNotInside(Pos(f.p1), Pos(f.p2), Pos(f.apex));
    forall k | 0 <= k < |pts|
      ensures !InsideCircumsphere(Pos(f.p1), Pos(f.p2), Pos(f.apex), Pos(pts[k]))
    {
      ExactTests(o, e, f.apex, pts[k]);
      assert !Blocks(e, f.apex, pts[k], Exact(o));
      if pts[k].id == f.p1.id {
        assert pts[k] == f.p1;
      } else if pts[k].id == f.p2.id {
        assert pts[k] == f.p2;
      } else if pts[k].id == f.apex.id {
        assert pts[k] == f.apex;
      }
    }
  }

  /** With an upward-keeping `normalize`, every face normal on lifted corners points up. */
  lemma ExactFaceNormalUp(pts: seq<Point>, heights: seq<real>, f: Face, o: Oracles)
    requires FaceOnInput(pts, f) && |heights| == |pts|
    requires KeepsUp(o.normalize)
    ensures FaceNormal(pts, heights, f, Exact(o)).z >= 0.0
  {
    FaceIdsInRange(pts, f);
    var (a, b, c) := FaceIds(f);
    GetNormalPointsUp(FromPoints(Lifted(pts[a - 1], heights[a - 1]), Lifted(pts[b - 1], heights[b - 1]),
                                 Lifted(pts[c - 1], heights[c - 1]), o.length), o.normalize);
  }

  /** Every accumulated normal points up. */
  lemma ExactNormalsPointUp(pts: seq<Point>, heights: seq<real>, faces: seq<Face>, id: int, o: Oracles)
    requires AllOnInput(pts, faces) && |heights| == |pts|
    requires KeepsUp(o.normalize)
    ensures NormalSum(pts, heights, faces, id, Exact(o)).z >= 0.0
  {
    forall k | 0 <= k < |faces|
      ensures FaceNormal(pts, heights, faces[k], Exact(o)).z >= 0.0
    {
      ExactFaceNormalUp(pts, heights, faces[k], o);
    }
    AccumulatedNormalPointsUp(pts, heights, faces, id, Exact(o));
  }

  // ---------------------------------------------------------------------------
  // When the scan finds a winner
  // ---------------------------------------------------------------------------

  /** `p` closes `e` into a non-degenerate triangle whose circumsphere holds no loaded point. */
  predicate Closes(pts: seq<Point>, e: Edge, p: Point) {
    && p.id != e.p1.id && p.id != e.p2.id
    && CrossSq(Pos(e.p1), Pos(e.p2), Pos(p)) != 0.0
    && EmptyCircumsphere(Pos(e.p1), Pos(e.p2), Pos(p), pts)
  }

  /**
   With exact lengths, the points the scan skips as `q == p1`, `q == p2` or
   `q == _p` are corners, which are never strictly inside, so "no other point
   inside" is "no loaded point inside".
   */
  lemma NoneInsideIsEmpty(pts: seq<Point>, e: Edge, p: Point, o: Oracles)
    requires WellFormed(pts) && EdgeOnInput(pts, e) && IsInput(pts, p)
    requires ExactOnSides(o.length, e.p1, e.p2, p)
    ensures SomeoneInside(pts, e, p, Exact(o)) <==> !EmptyCircumsphere(Pos(e.p1), Pos(e.p2), Pos(p), pts)
  {
    CornersNotInside(Pos(e.p1), Pos(e.p2), Pos(p));
    forall m | 0 <= m < |pts|
      ensures Blocks(e, p, pts[m], Exact(o)) <==> InsideCircumsphere(Pos(e.p1), Pos(e.p2), Pos(p), Pos(pts[m]))
    {
      ExactTests(o, e, p, pts[m]);
      if pts[m].id == e.p1.id {
        assert pts[m] == e.p1;
      } else if pts[m].id == e.p2.id {
        assert pts[m] == e.p2;
      } else if pts[m].id == p.id {
        assert pts[m] == p;
      }
    }
  }

  /**
   With exact lengths and a positive arc cosine, the scan of `e` has a winner
   exactly when some loaded point with a fresh key closes `e`.
   */
  lemma ExactWinnerExists(pts: seq<Point>, e: Edge, existed: set<int>, o: Oracles)
    requires WellFormed(pts) && EdgeOnInput(pts, e)
    requires ExactLength(o.length) && PositiveArcCosine(o.acos)
    ensures NoWinner(pts, e, existed, Exact(o)) <==>
      forall k :: 0 <= k < |pts| ==> !(Closes(pts, e, pts[k]) && TriKey(e.p1, e.p2, pts[k]) !in existed)
  {
    forall k | 0 <= k < |pts|
      ensures (Candidate(pts, e, existed, pts[k], Exact(o)) && Exact(o).score(e, pts[k]) > 0.0) <==>
        (Closes(pts, e, pts[k]) && TriKey(e.p1, e.p2, pts[k]) !in existed)
    {
      var p := pts[k];
      assert ExactOnSides(o.length, e.p1, e.p2, p);
      ExactTests(o, e, p, p);
      ExactScorePositive(o, e, p);
      NoneInsideIsEmpty(pts, e, p, o);
    }
  }

  /** Coincident ends make every triangle on the edge collinear. */
  lemma ZeroEdgeIsCollinear(a: Vec3, b: Vec3, c: Vec3)
    requires SqDist(b, a) == 0.0
    ensures CrossSq(a, b, c) == 0.0
  {
    var u, v := Sub(b, a), Sub(c, a);
    Lagrange(u, v);
    SqNormNonNegative(Cross(u, v));
    SquareNonNegative(Dot(u, v));
  }

  /** A coincident pair puts the closest pair at distance 0. */
  lemma ClosestPairAtZero(pts: seq<Point>, i: int, j: int, a: int, b: int)
    requires IsClosestPair(pts, i, j)
    requires 0 <= a < b < |pts| && Pos(pts[a]) == Pos(pts[b])
    ensures SqDist(Pos(pts[j]), Pos(pts[i])) == 0.0
  {
    assert Sub(Pos(pts[a]), Pos(pts[b])) == Zero;
    var zero := PairSqLength(pts, a, b);
    assert zero == 0.0;
    var d := PairSqLength(pts, i, j);
    assert d <= zero;
    assert d == SqDist(Pos(pts[i]), Pos(pts[j])) && d >= 0.0;
    SqDistSymmetric(Pos(pts[i]), Pos(pts[j]));
  }

  /**
   When two loaded points share a position, the closest pair is at distance
   0, and no point closes the seed edge: the scan of the seed finds no winner.
   */
  lemma CoincidentSeedIsDegenerate(pts: seq<Point>, i: int, j: int, a: int, b: int)
    requires IsClosestPair(pts, i, j)
    requires 0 <= a < b < |pts| && Pos(pts[a]) == Pos(pts[b])
    ensures forall k :: 0 <= k < |pts| ==> !Closes(pts, Edge(pts[i], pts[j]), pts[k])
  {
    ClosestPairAtZero(pts, i, j, a, b);
    forall k | 0 <= k < |pts|
      ensures CrossSq(Pos(pts[i]), Pos(pts[j]), Pos(pts[k])) == 0.0
    {
      ZeroEdgeIsCollinear(Pos(pts[i]), Pos(pts[j]), Pos(pts[k]));
    }
  }

  /**
   Rows with the same plane position load to coincident points, so the seed
   edge of their run is degenerate.
   */
  lemma CoincidentRowsDegenerateSeed(rows: seq<Row>, i: int, j: int)
    requires IsClosestPair(Load(rows).0, i, j)
    ensures var pts := Load(rows).0;
      (exists a, b :: 0 <= a < b < |rows| && rows[a].x == rows[b].x && rows[a].y == rows[b].y) ==>
        forall k :: 0 <= k < |pts| ==> !Closes(pts, Edge(pts[i], pts[j]), pts[k])
  {
    if exists a, b :: 0 <= a < b < |rows| && rows[a].x == rows[b].x && rows[a].y == rows[b].y {
      var a, b :| 0 <= a < b < |rows| && rows[a].x == rows[b].x && rows[a].y == rows[b].y;
      CoincidentSeedIsDegenerate(Load(rows).0, i, j, a, b);
    }
  }

  /** The engine's seed outcome, restated with exact primitives. */
  lemma ExactSeedOutcome(pts: seq<Point>, i: int, j: int, faces: seq<Face>, o: Oracles)
    requires WellFormed(pts) && 0 <= i < j < |pts|
    requires ExactLength(o.length) && PositiveArcCosine(o.acos)
    requires faces == [] <==> NoWinner(pts, Edge(pts[i], pts[j]), {}, Exact(o))
    requires faces != [] ==> faces[0].p1 == pts[i] && faces[0].p2 == pts[j] && GoodFace(pts, faces[0], Exact(o))
    ensures faces == [] <==> forall k :: 0 <= k < |pts| ==> !Closes(pts, Edge(pts[i], pts[j]), pts[k])
    ensures faces != [] ==> Closes(pts, Edge(pts[i], pts[j]), faces[0].apex)
  {
    ExactWinnerExists(pts, Edge(pts[i], pts[j]), {}, o);
    if faces != [] {
      var f := faces[0];
      GoodFaceIsDelaunay(pts, f, o);
    }
  }

  // ---------------------------------------------------------------------------
  // The whole run
  // ---------------------------------------------------------------------------

  /**
   `Delaunay(path)` followed by `generateTIN`: load the rows, then triangulate
   with the primitives of `Delaunay.h`. Every emitted triangle is a
   non-degenerate triangle of loaded points whose circumsphere holds no
   loaded point, and none is emitted twice. The output is empty exactly when
   no loaded point closes the seed edge, the first closest pair `(i, j)`;
   otherwise the first triangle is built on that edge. Two samples at the same
   position make the seed edge degenerate, so the output is then empty.
   */
  method Triangulate(rows: seq<Row>, o: Oracles)
    returns (triIds: seq<int>, normals: seq<Vec3>, faces: seq<Face>, i: int, j: int)
    requires |rows| >= 2 && ExactLength(o.length) && PositiveArcCosine(o.acos)
    ensures IsClosestPair(Load(rows).0, i, j)
    ensures |triIds| == 3 * |faces| && |normals| == |rows|
    ensures forall k :: 0 <= k < |faces| ==> 0 <= Triple(triIds, k).0 < Triple(triIds, k).1 < Triple(triIds, k).2 < |rows|
    ensures forall k, k' :: 0 <= k < k' < |faces| ==> Triple(triIds, k) != Triple(triIds, k')
    ensures forall k :: 0 <= k < |faces| ==>
      var f := faces[k];
      && EmittedAt(triIds, k, f) && FaceOnInput(Load(rows).0, f)
      && CrossSq(Pos(f.p1), Pos(f.p2), Pos(f.apex)) != 0.0
      && EmptyCircumsphere(Pos(f.p1), Pos(f.p2), Pos(f.apex), Load(rows).0)
    ensures forall id :: 1 <= id <= |rows| ==> normals[id - 1] == NormalSum(Load(rows).0, Load(rows).1, faces, id, Exact(o))
    ensures var pts := Load(rows).0;
      faces == [] <==> forall k :: 0 <= k < |pts| ==> !Closes(pts, Edge(pts[i], pts[j]), pts[k])
    ensures var pts := Load(rows).0;
      faces != [] ==> faces[0].p1 == pts[i] && faces[0].p2 == pts[j] && Closes(pts, Edge(pts[i], pts[j]), faces[0].apex)
    ensures (exists a, b :: 0 <= a < b < |rows| && rows[a].x == rows[b].x && rows[a].y == rows[b].y) ==> faces == []
  {
    var (pts, heights) := Load(rows);
    triIds, normals, faces, i, j := GenerateTIN(pts, heights, Exact(o));
    SeedIsClosestPair(pts, o, i, j);
    forall k | 0 <= k < |faces|
      ensures CrossSq(Pos(faces[k].p1), Pos(faces[k].p2), Pos(faces[k].apex)) != 0.0
      ensures EmptyCircumsphere(Pos(faces[k].p1), Pos(faces[k].p2), Pos(faces[k].apex), pts)
    {
      GoodFaceIsDelaunay(pts, faces[k], o);
    }
    ExactSeedOutcome(pts, i, j, faces, o);
    CoincidentRowsDegenerateSeed(rows, i, j);
  }
}
