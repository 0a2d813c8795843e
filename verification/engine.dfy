/**
 `Delaunay::generateTIN`: an advancing front over a stack of edges.

 The closest pair of points seeds the stack. Each popped edge is offered to
 every other point; a point survives when its triangle with the edge has not
 been built yet, is reasonable, and has no other point strictly inside its
 circumsphere. The survivor with the largest smallest angle wins. Its sorted,
 zero-based id triple is emitted, its normal is added to the accumulator of the
 smallest-id corner, and its two new edges are pushed.

 Positions and ids never change during a run, and the scan never reads normals,
 so the scan reads the loaded points and the normal accumulators are kept in a
 parallel sequence.
 */
module Triangulation {
  import opened Vectors
  import opened Geometry
  import opened TriangleKeys
  import opened Loader

  /**
   The geometric tests the engine asks of a popped edge `e` and a point `p`,
   on the triangle `Triangle(e, Edge(p2, p), Edge(p, p1))`: `length` is
   `Edge::length`, `reasonable` is `isReseaonable`, `inside(e, p, q)` is
   `inside(q)`, `score` is `minAngle`; `normal` is `getNormal` of the triangle
   on three points.
   */
  datatype Primitives = Primitives(
    length: Edge -> real,
    reasonable: (Edge, Point) -> bool,
    inside: (Edge, Point, Point) -> bool,
    score: (Edge, Point) -> real,
    normal: (Point, Point, Point) -> Vec3)

  /** `p` is the loaded point with its id. */
  predicate IsInput(pts: seq<Point>, p: Point) {
    1 <= p.id <= |pts| && pts[p.id - 1] == p
  }

  /** An edge between two different loaded points. */
  predicate EdgeOnInput(pts: seq<Point>, e: Edge) {
    IsInput(pts, e.p1) && IsInput(pts, e.p2) && e.p1.id != e.p2.id
  }

  // ---------------------------------------------------------------------------
  // Seed edge
  // ---------------------------------------------------------------------------

  function PairLength(pts: seq<Point>, i: int, j: int, g: Primitives): real
    requires 0 <= i < |pts| && 0 <= j < |pts|
  {
    g.length(Edge(pts[i], pts[j]))
  }

  /** `(i', j')` comes before `(i, j)` in the row-major order the distances are listed in. */
  predicate RowMajorBefore(i': int, j': int, i: int, j: int) {
    i' < i || (i' == i && j' < j)
  }

  /** `(i, j)` is a shortest pair, and the first one in row-major order. */
  predicate IsSeed(pts: seq<Point>, g: Primitives, i: int, j: int) {
    && 0 <= i < j < |pts|
    && (forall i', j' :: 0 <= i' < j' < |pts| ==> PairLength(pts, i, j, g) <= PairLength(pts, i', j', g))
    && (forall i', j' :: 0 <= i' < j' < |pts| && RowMajorBefore(i', j', i, j) ==>
          PairLength(pts, i, j, g) < PairLength(pts, i', j', g))
  }

  /**
   The seed of `generateTIN`, before its main loop: `min_element` over the pair lengths listed in
   row-major order returns the first least one. Fewer than two points leave
   the list empty and the source indexes past its end.
   */
  method SeedEdge(pts: seq<Point>, g: Primitives) returns (i: int, j: int)
    requires |pts| >= 2
    ensures IsSeed(pts, g, i, j)
  {
    i, j := 0, 1;
    var best := PairLength(pts, 0, 1, g);
    var r := 0;
    while r < |pts|
      invariant 0 <= r <= |pts|
      invariant 0 <= i < j < |pts| && best == PairLength(pts, i, j, g)
      invariant forall i', j' :: 0 <= i' < r && i' < j' < |pts| ==> best <= PairLength(pts, i', j', g)
      invariant forall i', j' :: 0 <= i' < j' < |pts| && RowMajorBefore(i', j', i, j) ==> best < PairLength(pts, i', j', g)
    {
      var s := r + 1;
      while s < |pts|
        invariant r + 1 <= s <= |pts|
        invariant 0 <= i < j < |pts| && best == PairLength(pts, i, j, g)
        invariant forall i', j' :: 0 <= i' < r && i' < j' < |pts| ==> best <= PairLength(pts, i', j', g)
        invariant forall j' :: r < j' < s ==> best <= PairLength(pts, r, j', g)
        invariant forall i', j' :: 0 <= i' < j' < |pts| && RowMajorBefore(i', j', i, j) ==> best < PairLength(pts, i', j', g)
      {
        var d := PairLength(pts, r, s, g);
        if d < best {
          i, j, best := r, s, d;
        }
        s := s + 1;
      }
      r := r + 1;
    }
  }

  /** Ties go to the first pair, so two seeds are the same pair. */
  lemma SeedUnique(pts: seq<Point>, g: Primitives, i: int, j: int, i': int, j': int)
    requires IsSeed(pts, g, i, j) && IsSeed(pts, g, i', j')
    ensures i == i' && j == j'
  {
    assert PairLength(pts, i, j, g) == PairLength(pts, i', j', g);
  }

  // ---------------------------------------------------------------------------
  // Candidate tests
  // ---------------------------------------------------------------------------

  /** The key of the triangle on three points: their ids sorted, then packed. */
  function TriKey(p: Point, q: Point, r: Point): int {
    var s := Sort3(p.id, q.id, r.id);
    Key(s.0, s.1, s.2)
  }

  /** `q` is not one of the three corners and lies strictly inside the circumsphere. */
  predicate Blocks(e: Edge, p: Point, q: Point, g: Primitives) {
    DifferentPoint(q, e.p1) && DifferentPoint(q, e.p2) && DifferentPoint(q, p) && g.inside(e, p, q)
  }

  predicate SomeoneInside(pts: seq<Point>, e: Edge, p: Point, g: Primitives) {
    exists k :: 0 <= k < |pts| && Blocks(e, p, pts[k], g)
  }

  /** `p` passes every filter of the scan of `e`. */
  predicate Candidate(pts: seq<Point>, e: Edge, existed: set<int>, p: Point, g: Primitives) {
    && DifferentPoint(p, e.p1) && DifferentPoint(p, e.p2)
    && TriKey(e.p1, e.p2, p) !in existed
    && g.reasonable(e, p)
    && !SomeoneInside(pts, e, p, g)
  }

  /** The candidate loop's inner scan for a point inside the circumsphere, with its early `break`. */
  method AnyPointInside(pts: seq<Point>, e: Edge, p: Point, g: Primitives) returns (flag: bool)
    ensures flag <==> SomeoneInside(pts, e, p, g)
  {
    flag := false;
    var k := 0;
    while k < |pts|
      invariant 0 <= k <= |pts|
      invariant forall m :: 0 <= m < k ==> !Blocks(e, p, pts[m], g)
    {
      var q := pts[k];
      if DifferentPoint(q, e.p1) && DifferentPoint(q, e.p2) && DifferentPoint(q, p) && g.inside(e, p, q) {
        flag := true;
        break;
      }
      k := k + 1;
    }
  }

  // ---------------------------------------------------------------------------
  // Winner selection
  // ---------------------------------------------------------------------------

  /** A default-constructed `Point`: id 0, which no loaded point has. */
  const Sentinel: Point := Point(0, 0.0, 0.0, 0.0, Zero)

  /**
   `pts[k]` wins the scan of `e`: a candidate with a positive score that no
   candidate beats, and that every earlier candidate scores strictly below.
   */
  predicate IsWinner(pts: seq<Point>, e: Edge, existed: set<int>, g: Primitives, k: int) {
    && 0 <= k < |pts|
    && Candidate(pts, e, existed, pts[k], g)
    && g.score(e, pts[k]) > 0.0
    && (forall m :: 0 <= m < |pts| && Candidate(pts, e, existed, pts[m], g) ==> g.score(e, pts[m]) <= g.score(e, pts[k]))
    && (forall m :: 0 <= m < k && Candidate(pts, e, existed, pts[m], g) ==> g.score(e, pts[m]) < g.score(e, pts[k]))
  }

  /** No candidate scores above the initial `maxMinAngle` of 0. */
  predicate NoWinner(pts: seq<Point>, e: Edge, existed: set<int>, g: Primitives) {
    forall m :: 0 <= m < |pts| && Candidate(pts, e, existed, pts[m], g) ==> g.score(e, pts[m]) <= 0.0
  }

  /** Ties go to the first candidate, so two winners are the same point. */
  lemma WinnerUnique(pts: seq<Point>, e: Edge, existed: set<int>, g: Primitives, k: int, k': int)
    requires IsWinner(pts, e, existed, g, k) && IsWinner(pts, e, existed, g, k')
    ensures k == k'
  {
    assert g.score(e, pts[k]) == g.score(e, pts[k']);
  }

  /**
   The candidate scan of `generateTIN`'s main loop: `_p` starts as the sentinel and `maxMinAngle`
   at 0, and a candidate replaces them only with a strictly larger score.
   */
  method SelectApex(pts: seq<Point>, e: Edge, existed: set<int>, g: Primitives) returns (apex: Point, best: real)
    requires WellFormed(pts)
    ensures apex.id == 0 <==> NoWinner(pts, e, existed, g)
    ensures apex.id == 0 ==> apex == Sentinel && best == 0.0
    ensures apex.id != 0 ==> IsWinner(pts, e, existed, g, apex.id - 1) && apex == pts[apex.id - 1]
    ensures apex.id != 0 ==> best == g.score(e, apex)
  {
    apex, best := Sentinel, 0.0;
    var k := 0;
    while k < |pts|
      invariant 0 <= k <= |pts|
      invariant apex.id == 0 ==> apex == Sentinel && best == 0.0
      invariant apex.id == 0 ==>
        forall m :: 0 <= m < k && Candidate(pts, e, existed, pts[m], g) ==> g.score(e, pts[m]) <= 0.0
      invariant apex.id != 0 ==>
        && 1 <= apex.id <= k && apex == pts[apex.id - 1]
        && Candidate(pts, e, existed, apex, g) && best == g.score(e, apex) && best > 0.0
        && (forall m :: 0 <= m < k && Candidate(pts, e, existed, pts[m], g) ==> g.score(e, pts[m]) <= best)
        && (forall m :: 0 <= m < apex.id - 1 && Candidate(pts, e, existed, pts[m], g) ==> g.score(e, pts[m]) < best)
    {
      var p := pts[k];
      if DifferentPoint(p, e.p1) && DifferentPoint(p, e.p2) {
        var key := TriKey(e.p1, e.p2, p);
        if key !in existed {
          if g.reasonable(e, p) {
            var inside := AnyPointInside(pts, e, p, g);
            if !inside {
              var score := g.score(e, p);
              if score > best {
                apex, best := p, score;
              }
            }
          }
        }
      }
      k := k + 1;
    }
  }

  // ---------------------------------------------------------------------------
  // Emitted faces
  // ---------------------------------------------------------------------------

  /** A built triangle: the popped edge `(p1, p2)` and the winning apex. */
  datatype Face = Face(p1: Point, p2: Point, apex: Point)

  function FaceEdge(f: Face): Edge {
    Edge(f.p1, f.p2)
  }

  /** The sorted ids `a <= b <= c` of the winner, after the candidate scan. */
  function FaceIds(f: Face): (int, int, int) {
    Sort3(f.p1.id, f.p2.id, f.apex.id)
  }

  function FaceKey(f: Face): int {
    TriKey(f.p1, f.p2, f.apex)
  }

  /** Three different loaded points. */
  predicate FaceOnInput(pts: seq<Point>, f: Face) {
    EdgeOnInput(pts, FaceEdge(f)) && IsInput(pts, f.apex) && f.apex.id != f.p1.id && f.apex.id != f.p2.id
  }

  /** The sorted ids of a face on the input are three different ids in `1..n`. */
  lemma FaceIdsInRange(pts: seq<Point>, f: Face)
    requires FaceOnInput(pts, f)
    ensures 1 <= FaceIds(f).0 < FaceIds(f).1 < FaceIds(f).2 <= |pts|
  {
    Sort3Strict(f.p1.id, f.p2.id, f.apex.id);
  }

  /** What every emitted face satisfies, whenever it was built. */
  predicate GoodFace(pts: seq<Point>, f: Face, g: Primitives) {
    && FaceOnInput(pts, f)
    && g.reasonable(FaceEdge(f), f.apex)
    && g.score(FaceEdge(f), f.apex) > 0.0
    && !SomeoneInside(pts, FaceEdge(f), f.apex, g)
  }

  /** The `k`-th index triple of `triIDs`. */
  function Triple(triIds: seq<int>, k: int): (int, int, int)
    requires 0 <= k && 3 * k + 2 < |triIds|
  {
    (triIds[3 * k], triIds[3 * k + 1], triIds[3 * k + 2])
  }

  /** The triple written for face `f` at position `k`: its sorted ids, made zero-based. */
  predicate EmittedAt(triIds: seq<int>, k: int, f: Face) {
    0 <= k && 3 * k + 2 < |triIds| && Triple(triIds, k) == (FaceIds(f).0 - 1, FaceIds(f).1 - 1, FaceIds(f).2 - 1)
  }

  // ---------------------------------------------------------------------------
  // Normals
  // ---------------------------------------------------------------------------

  /** `Point(x, y, z)` of the normal accumulation: id 0, the loaded x and y, and the height as z. */
  function Lifted(p: Point, h: real): Point {
    Point(0, p.x, p.y, h, Zero)
  }

  /** The normal of the face's triangle lifted to its real heights, corners in sorted-id order. */
  function FaceNormal(pts: seq<Point>, heights: seq<real>, f: Face, g: Primitives): Vec3
    requires FaceOnInput(pts, f) && |heights| == |pts|
  {
    FaceIdsInRange(pts, f);
    var (a, b, c) := FaceIds(f);
    g.normal(Lifted(pts[a - 1], heights[a - 1]), Lifted(pts[b - 1], heights[b - 1]), Lifted(pts[c - 1], heights[c - 1]))
  }

  predicate AllOnInput(pts: seq<Point>, faces: seq<Face>) {
    forall k :: 0 <= k < |faces| ==> FaceOnInput(pts, faces[k])
  }

  /**
   Reference for the accumulator of the point with id `id`: three times the
   normal of every face whose smallest id is `id`, summed over the faces.
   */
  function NormalSum(pts: seq<Point>, heights: seq<real>, faces: seq<Face>, id: int, g: Primitives): Vec3
    requires AllOnInput(pts, faces) && |heights| == |pts|
    decreases |faces|
  {
    if faces == [] then Zero
    else
      var f := faces[|faces| - 1];
      var rest := NormalSum(pts, heights, faces[..|faces| - 1], id, g);
      if FaceIds(f).0 == id then Add(rest, Scale(3.0, FaceNormal(pts, heights, f, g))) else rest
  }

  lemma NormalSumAppend(pts: seq<Point>, heights: seq<real>, faces: seq<Face>, f: Face, id: int, g: Primitives)
    requires AllOnInput(pts, faces) && FaceOnInput(pts, f) && |heights| == |pts|
    ensures AllOnInput(pts, faces + [f])
    ensures NormalSum(pts, heights, faces + [f], id, g) ==
      if FaceIds(f).0 == id then Add(NormalSum(pts, heights, faces, id, g), Scale(3.0, FaceNormal(pts, heights, f, g)))
      else NormalSum(pts, heights, faces, id, g)
  {
    assert (faces + [f])[..|faces|] == faces;
  }

  /** Adding the same vector three times, as the normal accumulation does, adds three times the vector. */
  lemma AddThrice(x: Vec3, n: Vec3)
    ensures Add(Add(Add(x, n), n), n) == Add(x, Scale(3.0, n))
  {
  }

  /** A point that is the smallest corner of no face keeps a zero normal. */
  lemma {:induction false} UntouchedNormalIsZero(pts: seq<Point>, heights: seq<real>, faces: seq<Face>, id: int, g: Primitives)
    requires AllOnInput(pts, faces) && |heights| == |pts|
    requires forall k :: 0 <= k < |faces| ==> FaceIds(faces[k]).0 != id
    ensures NormalSum(pts, heights, faces, id, g) == Zero
    decreases |faces|
  {
    if faces != [] {
      var init := faces[..|faces| - 1];
      assert forall k :: 0 <= k < |init| ==> init[k] == faces[k];
      UntouchedNormalIsZero(pts, heights, init, id, g);
    }
  }

  /**
   When every face normal points up, so does every accumulated normal: the
   accumulators only ever receive upward vectors.
   */
  lemma {:induction false} AccumulatedNormalPointsUp(pts: seq<Point>, heights: seq<real>, faces: seq<Face>, id: int, g: Primitives)
    requires AllOnInput(pts, faces) && |heights| == |pts|
    requires forall k :: 0 <= k < |faces| ==> FaceNormal(pts, heights, faces[k], g).z >= 0.0
    ensures NormalSum(pts, heights, faces, id, g).z >= 0.0
    decreases |faces|
  {
    if faces != [] {
      var init := faces[..|faces| - 1];
      assert forall k :: 0 <= k < |init| ==> init[k] == faces[k];
      AccumulatedNormalPointsUp(pts, heights, init, id, g);
    }
  }

  // ---------------------------------------------------------------------------
  // The front
  // ---------------------------------------------------------------------------

  /** Every key a triangle on ids `1..n` can have. */
  ghost function AllKeys(n: int): set<int> {
    set a, b, c | 1 <= a < b < c <= n :: Key(a, b, c)
  }

  lemma KeyInAllKeys(n: int, a: int, b: int, c: int)
    requires 1 <= a < b < c <= n
    ensures Key(a, b, c) in AllKeys(n)
  {
  }

  /** Recording a key not yet recorded leaves fewer keys to record. */
  lemma FreshKeyShrinks(all: set<int>, existed: set<int>, key: int)
    requires key in all && key !in existed
    ensures |all - (existed + {key})| < |all - existed|
  {
    assert all - (existed + {key}) == (all - existed) - {key};
  }

  /**
   The emitted triples are strictly increasing zero-based ids, and faces with
   different keys have different triples, so no triangle is emitted twice.
   */
  lemma TriplesOfDistinctFaces(triIds: seq<int>, faces: seq<Face>, n: int)
    requires |triIds| == 3 * |faces|
    requires forall k :: 0 <= k < |faces| ==> EmittedAt(triIds, k, faces[k])
    requires forall k :: 0 <= k < |faces| ==> 1 <= FaceIds(faces[k]).0 < FaceIds(faces[k]).1 < FaceIds(faces[k]).2 <= n
    requires forall k, k' :: 0 <= k < k' < |faces| ==> FaceKey(faces[k]) != FaceKey(faces[k'])
    ensures forall k :: 0 <= k < |faces| ==> 0 <= Triple(triIds, k).0 < Triple(triIds, k).1 < Triple(triIds, k).2 < n
    ensures forall k, k' :: 0 <= k < k' < |faces| ==> Triple(triIds, k) != Triple(triIds, k')
  {
    forall k, k' | 0 <= k < k' < |faces|
      ensures Triple(triIds, k) != Triple(triIds, k')
    {
      assert EmittedAt(triIds, k, faces[k]) && EmittedAt(triIds, k', faces[k']);
      assert FaceIds(faces[k]) != FaceIds(faces[k']);
    }
    forall k | 0 <= k < |faces|
      ensures 0 <= Triple(triIds, k).0 < Triple(triIds, k).1 < Triple(triIds, k).2 < n
    {
      assert EmittedAt(triIds, k, faces[k]);
    }
  }

  /** The keys of the faces emitted so far. */
  function FaceKeys(faces: seq<Face>): set<int>
    decreases |faces|
  {
    if faces == [] then {} else FaceKeys(faces[..|faces| - 1]) + {FaceKey(faces[|faces| - 1])}
  }

  lemma FaceKeysAppend(faces: seq<Face>, f: Face)
    ensures FaceKeys(faces + [f]) == FaceKeys(faces) + {FaceKey(f)}
  {
    assert (faces + [f])[..|faces|] == faces;
  }

  /** A key is recorded exactly when some emitted face has it. */
  lemma {:induction false} FaceKeysMembers(faces: seq<Face>, x: int)
    ensures x in FaceKeys(faces) <==> exists k :: 0 <= k < |faces| && FaceKey(faces[k]) == x
    decreases |faces|
  {
    if faces != [] {
      var init := faces[..|faces| - 1];
      FaceKeysMembers(init, x);
      if x in FaceKeys(init) {
        var k :| 0 <= k < |init| && FaceKey(init[k]) == x;
        assert faces[k] == init[k];
      }
      if exists k :: 0 <= k < |faces| && FaceKey(faces[k]) == x {
        var k :| 0 <= k < |faces| && FaceKey(faces[k]) == x;
        if k < |init| {
          assert init[k] == faces[k];
        }
      }
    }
  }

  /**
   While ids stay below 10⁴, a key is recorded exactly when a face with the
   same sorted ids has been emitted: the `existed` test inside the candidate scan rejects
   precisely the triangles already built.
   */
  lemma {:induction false} KeyRecordedIffEmitted(faces: seq<Face>, n: int, p: Point, q: Point, r: Point)
    requires n <= 9999
    requires forall k :: 0 <= k < |faces| ==> 1 <= FaceIds(faces[k]).0 < FaceIds(faces[k]).1 < FaceIds(faces[k]).2 <= n
    requires 1 <= p.id <= n && 1 <= q.id <= n && 1 <= r.id <= n
    ensures TriKey(p, q, r) in FaceKeys(faces) <==>
      exists k :: 0 <= k < |faces| && FaceIds(faces[k]) == Sort3(p.id, q.id, r.id)
  {
    var t := Sort3(p.id, q.id, r.id);
    FaceKeysMembers(faces, TriKey(p, q, r));
    if TriKey(p, q, r) in FaceKeys(faces) {
      var k :| 0 <= k < |faces| && FaceKey(faces[k]) == TriKey(p, q, r);
      SortedKeyDeterminesTriple(t, FaceIds(faces[k]), n);
    }
  }

  /** What the emitted output satisfies after every iteration, given the recorded keys. */
  predicate Emitted(pts: seq<Point>, heights: seq<real>, g: Primitives, existed: set<int>,
                    triIds: seq<int>, normals: seq<Vec3>, faces: seq<Face>)
  {
    && |heights| == |pts|
    && existed == FaceKeys(faces)
    && (forall k, k' :: 0 <= k < k' < |faces| ==> FaceKey(faces[k]) != FaceKey(faces[k']))
    && (forall k :: 0 <= k < |faces| ==> GoodFace(pts, faces[k], g))
    && AllOnInput(pts, faces)
    && |triIds| == 3 * |faces|
    && (forall k :: 0 <= k < |faces| ==> EmittedAt(triIds, k, faces[k]))
    && (forall k :: 0 <= k < |faces| ==> 1 <= FaceIds(faces[k]).0 < FaceIds(faces[k]).1 < FaceIds(faces[k]).2 <= |pts|)
    && |normals| == |pts|
    && (forall id :: 1 <= id <= |pts| ==> normals[id - 1] == NormalSum(pts, heights, faces, id, g))
  }

  /** Appending a face's zero-based sorted ids keeps every earlier triple in place. */
  lemma TriplesAppend(triIds: seq<int>, faces: seq<Face>, f: Face, a: int, b: int, c: int)
    requires |triIds| == 3 * |faces|
    requires forall k :: 0 <= k < |faces| ==> EmittedAt(triIds, k, faces[k])
    requires (a, b, c) == FaceIds(f)
    ensures forall k :: 0 <= k < |faces| + 1 ==> EmittedAt(triIds + [a - 1, b - 1, c - 1], k, (faces + [f])[k])
  {
    var triIds', faces' := triIds + [a - 1, b - 1, c - 1], faces + [f];
    forall k | 0 <= k < |faces'|
      ensures EmittedAt(triIds', k, faces'[k])
    {
      if k < |faces| {
        assert EmittedAt(triIds, k, faces[k]);
        assert Triple(triIds', k) == Triple(triIds, k);
      }
    }
  }

  /** Recording a fresh key keeps the recorded keys those of the emitted faces, all different. */
  lemma KeysAppend(existed: set<int>, faces: seq<Face>, f: Face)
    requires existed == FaceKeys(faces) && FaceKey(f) !in existed
    requires forall k, k' :: 0 <= k < k' < |faces| ==> FaceKey(faces[k]) != FaceKey(faces[k'])
    ensures existed + {FaceKey(f)} == FaceKeys(faces + [f])
    ensures forall k, k' :: 0 <= k < k' < |faces| + 1 ==> FaceKey((faces + [f])[k]) != FaceKey((faces + [f])[k'])
  {
    FaceKeysAppend(faces, f);
    FaceKeysMembers(faces, FaceKey(f));
  }

  /** Adding the face normal three times to the smallest corner keeps every accumulator equal to its reference sum. */
  lemma NormalsAppend(pts: seq<Point>, heights: seq<real>, g: Primitives, normals: seq<Vec3>, faces: seq<Face>,
                      f: Face, a: int, n: Vec3)
    requires AllOnInput(pts, faces) && FaceOnInput(pts, f) && |heights| == |pts| && |normals| == |pts|
    requires forall id :: 1 <= id <= |pts| ==> normals[id - 1] == NormalSum(pts, heights, faces, id, g)
    requires a == FaceIds(f).0 && 1 <= a <= |pts| && n == FaceNormal(pts, heights, f, g)
    ensures AllOnInput(pts, faces + [f])
    ensures forall id :: 1 <= id <= |pts| ==>
      normals[a - 1 := Add(Add(Add(normals[a - 1], n), n), n)][id - 1] == NormalSum(pts, heights, faces + [f], id, g)
  {
    forall id | 1 <= id <= |pts|
      ensures NormalSum(pts, heights, faces + [f], id, g) ==
        if a == id then Add(NormalSum(pts, heights, faces, id, g), Scale(3.0, n)) else NormalSum(pts, heights, faces, id, g)
    {
      NormalSumAppend(pts, heights, faces, f, id, g);
    }
    NormalSumAppend(pts, heights, faces, f, a, g);
    AddThrice(normals[a - 1], n);
  }

  /**
   The emission of a face whose key is fresh: record the key, append the
   zero-based sorted ids, and add the normal three times to the smallest id.
   */
  lemma EmitPreserves(pts: seq<Point>, heights: seq<real>, g: Primitives, existed: set<int>,
                      triIds: seq<int>, normals: seq<Vec3>, faces: seq<Face>, f: Face,
                      a: int, b: int, c: int, n: Vec3)
    requires Emitted(pts, heights, g, existed, triIds, normals, faces)
    requires GoodFace(pts, f, g) && FaceKey(f) !in existed
    requires (a, b, c) == FaceIds(f) && n == FaceNormal(pts, heights, f, g)
    ensures 1 <= a <= |pts|
    ensures Emitted(pts, heights, g, existed + {Key(a, b, c)}, triIds + [a - 1, b - 1, c - 1],
                    normals[a - 1 := Add(Add(Add(normals[a - 1], n), n), n)], faces + [f])
  {
    FaceIdsInRange(pts, f);
    assert Key(a, b, c) == FaceKey(f);
    KeysAppend(existed, faces, f);
    TriplesAppend(triIds, faces, f, a, b, c);
    NormalsAppend(pts, heights, g, normals, faces, f, a, n);
  }

  /**
   The scan's winner makes a face that passes every filter, and its key is
   still absent: `existed` is not written during the candidate scan, so the
   re-check of `existed` after the scan always passes.
   */
  lemma WinnerMakesGoodFace(pts: seq<Point>, e: Edge, existed: set<int>, g: Primitives, apex: Point)
    requires EdgeOnInput(pts, e)
    requires 1 <= apex.id <= |pts| && IsWinner(pts, e, existed, g, apex.id - 1) && apex == pts[apex.id - 1]
    ensures GoodFace(pts, Face(e.p1, e.p2, apex), g)
    ensures FaceKey(Face(e.p1, e.p2, apex)) !in existed
  {
    assert FaceEdge(Face(e.p1, e.p2, apex)) == e;
  }

  /** What the invariant gives the caller once the stack is empty. */
  lemma EmittedOutput(pts: seq<Point>, heights: seq<real>, g: Primitives, existed: set<int>,
                      triIds: seq<int>, normals: seq<Vec3>, faces: seq<Face>)
    requires Emitted(pts, heights, g, existed, triIds, normals, faces)
    ensures |triIds| == 3 * |faces| && |normals| == |pts|
    ensures forall k :: 0 <= k < |faces| ==> EmittedAt(triIds, k, faces[k])
    ensures forall k :: 0 <= k < |faces| ==> 0 <= Triple(triIds, k).0 < Triple(triIds, k).1 < Triple(triIds, k).2 < |pts|
    ensures forall k, k' :: 0 <= k < k' < |faces| ==> Triple(triIds, k) != Triple(triIds, k')
    ensures forall k :: 0 <= k < |faces| ==> GoodFace(pts, faces[k], g)
    ensures AllOnInput(pts, faces)
    ensures forall id :: 1 <= id <= |pts| ==> normals[id - 1] == NormalSum(pts, heights, faces, id, g)
  {
    TriplesOfDistinctFaces(triIds, faces, |pts|);
  }

  /** Before the first iteration: no key, no face, no triple, and every accumulator zero. */
  lemma NothingEmittedYet(pts: seq<Point>, heights: seq<real>, g: Primitives)
    requires |heights| == |pts|
    ensures Emitted(pts, heights, g, {}, [], seq(|pts|, _ => Zero), [])
  {
  }

  /** Every edge on the stack joins two different loaded points. */
  predicate StackOnInput(pts: seq<Point>, stack: seq<Edge>) {
    forall k :: 0 <= k < |stack| ==> EdgeOnInput(pts, stack[k])
  }

  /** The two pushes that end an iteration join the apex to each end of the popped edge. */
  lemma PushKeepsOnInput(pts: seq<Point>, stack: seq<Edge>, f: Face)
    requires StackOnInput(pts, stack) && FaceOnInput(pts, f)
    ensures StackOnInput(pts, stack + [Edge(f.p1, f.apex), Edge(f.p2, f.apex)])
  {
  }

  /**
   The end of an iteration for the scan's winner `apex` of the popped `edge`: record the
   key, append the zero-based sorted ids, add the normal three times to the
   smallest id, and push `(p1, _p)` and `(p2, _p)` on the `rest` of the stack.
   */
  method EmitWinner(pts: seq<Point>, heights: seq<real>, g: Primitives, rest: seq<Edge>, edge: Edge, apex: Point,
                    existed: set<int>, triIds: seq<int>, normals: seq<Vec3>, faces: seq<Face>)
    returns (stack': seq<Edge>, existed': set<int>, triIds': seq<int>, normals': seq<Vec3>, faces': seq<Face>)
    requires StackOnInput(pts, rest) && EdgeOnInput(pts, edge)
    requires existed <= AllKeys(|pts|)
    requires Emitted(pts, heights, g, existed, triIds, normals, faces)
    requires 1 <= apex.id <= |pts| && IsWinner(pts, edge, existed, g, apex.id - 1) && apex == pts[apex.id - 1]
    ensures StackOnInput(pts, stack') && existed' <= AllKeys(|pts|)
    ensures Emitted(pts, heights, g, existed', triIds', normals', faces')
    ensures |AllKeys(|pts|) - existed'| < |AllKeys(|pts|) - existed|
    ensures var f := Face(edge.p1, edge.p2, apex);
      && faces' == faces + [f]
      && existed' == existed + {FaceKey(f)}
      && triIds' == triIds + [FaceIds(f).0 - 1, FaceIds(f).1 - 1, FaceIds(f).2 - 1]
      && stack' == rest + [Edge(edge.p1, apex), Edge(edge.p2, apex)]
      && (forall i :: 0 <= i < |normals| && i != FaceIds(f).0 - 1 ==> normals'[i] == normals[i])
  {
    var f := Face(edge.p1, edge.p2, apex);
    WinnerMakesGoodFace(pts, edge, existed, g, apex);
    FaceIdsInRange(pts, f);
    var (a, b, c) := FaceIds(f);
    var key := Key(a, b, c);
    // The re-check of `existed` after the scan.
    assert key == FaceKey(f) && key !in existed;
    KeyInAllKeys(|pts|, a, b, c);
    FreshKeyShrinks(AllKeys(|pts|), existed, key);
    var n := FaceNormal(pts, heights, f, g);
    EmitPreserves(pts, heights, g, existed, triIds, normals, faces, f, a, b, c, n);
    existed' := existed + {key};
    triIds' := triIds + [a - 1, b - 1, c - 1];
    normals' := normals[a - 1 := Add(Add(Add(normals[a - 1], n), n), n)];
    faces' := faces + [f];
    PushKeepsOnInput(pts, rest, f);
    stack' := rest + [Edge(edge.p1, apex), Edge(edge.p2, apex)];
  }

  /**
   What one iteration does with the top edge of a non-empty `stack`: with no
   winner it only pops; otherwise it appends the winner's face on the popped
   edge, records its key, appends its zero-based sorted ids, and pushes
   `(p1, _p)` then `(p2, _p)`.
   */
  predicate Stepped(pts: seq<Point>, g: Primitives, stack: seq<Edge>, existed: set<int>, triIds: seq<int>,
                    normals: seq<Vec3>, faces: seq<Face>, stack': seq<Edge>, existed': set<int>, triIds': seq<int>,
                    normals': seq<Vec3>, faces': seq<Face>)
    requires stack != []
  {
    var top := stack[|stack| - 1];
    if NoWinner(pts, top, existed, g) then
      && stack' == stack[..|stack| - 1]
      && existed' == existed && triIds' == triIds && normals' == normals && faces' == faces
    else
      && |faces'| == |faces| + 1
      && var f := faces'[|faces|];
      && f.p1 == top.p1 && f.p2 == top.p2
      && 1 <= f.apex.id <= |pts| && f.apex == pts[f.apex.id - 1]
      && IsWinner(pts, top, existed, g, f.apex.id - 1)
      && faces'[..|faces|] == faces
      && existed' == existed + {FaceKey(f)}
      && triIds' == triIds + [FaceIds(f).0 - 1, FaceIds(f).1 - 1, FaceIds(f).2 - 1]
      && stack' == stack[..|stack| - 1] + [Edge(top.p1, f.apex), Edge(top.p2, f.apex)]
  }

  /** A scan with no winner only pops the top edge. */
  lemma DropStepped(pts: seq<Point>, g: Primitives, stack: seq<Edge>, existed: set<int>, triIds: seq<int>,
                    normals: seq<Vec3>, faces: seq<Face>)
    requires stack != [] && NoWinner(pts, stack[|stack| - 1], existed, g)
    ensures Stepped(pts, g, stack, existed, triIds, normals, faces, stack[..|stack| - 1], existed, triIds, normals, faces)
  {
  }

  /** A scan whose winner is `apex` emits its face on the popped edge and pushes the two new edges. */
  lemma WinnerStepped(pts: seq<Point>, g: Primitives, stack: seq<Edge>, existed: set<int>, triIds: seq<int>,
                      normals: seq<Vec3>, faces: seq<Face>, apex: Point,
                      existed': set<int>, triIds': seq<int>, normals': seq<Vec3>)
    requires stack != []
    requires 1 <= apex.id <= |pts| && apex == pts[apex.id - 1]
    requires IsWinner(pts, stack[|stack| - 1], existed, g, apex.id - 1)
    requires var f := Face(stack[|stack| - 1].p1, stack[|stack| - 1].p2, apex);
      && existed' == existed + {FaceKey(f)}
      && triIds' == triIds + [FaceIds(f).0 - 1, FaceIds(f).1 - 1, FaceIds(f).2 - 1]
    ensures var top := stack[|stack| - 1];
      Stepped(pts, g, stack, existed, triIds, normals, faces,
              stack[..|stack| - 1] + [Edge(top.p1, apex), Edge(top.p2, apex)], existed', triIds', normals',
              faces + [Face(top.p1, top.p2, apex)])
  {
    var top := stack[|stack| - 1];
    assert Candidate(pts, top, existed, pts[apex.id - 1], g);
    assert (faces + [Face(top.p1, top.p2, apex)])[|faces|] == Face(top.p1, top.p2, apex);
  }

  /**
   One iteration of `generateTIN`'s main loop: pop the top edge and scan. With no winner
   the edge is dropped; otherwise the winner's face is emitted, its key
   recorded, and `(p1, _p)` and `(p2, _p)` pushed, in that order, on the rest
   of the stack. Either a fresh key is recorded or the stack shrinks with the
   keys unchanged.
   */
  method Advance(pts: seq<Point>, heights: seq<real>, g: Primitives, stack: seq<Edge>, existed: set<int>,
                 triIds: seq<int>, normals: seq<Vec3>, faces: seq<Face>)
    returns (stack': seq<Edge>, existed': set<int>, triIds': seq<int>, normals': seq<Vec3>, faces': seq<Face>)
    requires WellFormed(pts) && stack != [] && StackOnInput(pts, stack)
    requires existed <= AllKeys(|pts|)
    requires Emitted(pts, heights, g, existed, triIds, normals, faces)
    ensures StackOnInput(pts, stack') && existed' <= AllKeys(|pts|)
    ensures Emitted(pts, heights, g, existed', triIds', normals', faces')
    ensures existed <= existed'
    ensures |faces'| == |faces| || |faces'| == |faces| + 1
    ensures faces <= faces' && triIds <= triIds'
    ensures forall i :: 0 <= i < |normals| && (|faces'| == |faces| || i != FaceIds(faces'[|faces|]).0 - 1) ==>
      normals'[i] == normals[i]
    ensures |AllKeys(|pts|) - existed'| < |AllKeys(|pts|) - existed|
         || (existed' == existed && |stack'| < |stack|)
    ensures Stepped(pts, g, stack, existed, triIds, normals, faces, stack', existed', triIds', normals', faces')
  {
    var edge := stack[|stack| - 1];
    stack' := stack[..|stack| - 1];
    existed', triIds', normals', faces' := existed, triIds, normals, faces;
    var apex, maxMinAngle := SelectApex(pts, edge, existed, g);
    if apex.id != 0 {
      stack', existed', triIds', normals', faces' :=
        EmitWinner(pts, heights, g, stack', edge, apex, existed, triIds, normals, faces);
      WinnerStepped(pts, g, stack, existed, triIds, normals, faces, apex, existed', triIds', normals');
    } else {
      DropStepped(pts, g, stack, existed, triIds, normals, faces);
    }
  }

  /**
   What the run has done with the seed edge `e`: either it is still the whole
   stack and nothing is emitted, or it had no winner and was dropped, or the
   first emitted face is its winner's.
   */
  predicate SeedHandled(pts: seq<Point>, g: Primitives, e: Edge, stack: seq<Edge>, faces: seq<Face>) {
    if faces == [] then stack == [e] || (stack == [] && NoWinner(pts, e, {}, g))
    else
      && faces[0].p1 == e.p1 && faces[0].p2 == e.p2
      && 1 <= faces[0].apex.id <= |pts| && faces[0].apex == pts[faces[0].apex.id - 1]
      && IsWinner(pts, e, {}, g, faces[0].apex.id - 1)
  }

  /** One iteration keeps the account of the seed edge: the first pop of the seed either drops it or emits its winner. */
  lemma SeedStep(pts: seq<Point>, g: Primitives, e: Edge, stack: seq<Edge>, existed: set<int>, triIds: seq<int>,
                 normals: seq<Vec3>, faces: seq<Face>, stack': seq<Edge>, existed': set<int>, triIds': seq<int>,
                 normals': seq<Vec3>, faces': seq<Face>)
    requires stack != [] && SeedHandled(pts, g, e, stack, faces)
    requires faces == [] ==> existed == {}
    requires faces <= faces'
    requires Stepped(pts, g, stack, existed, triIds, normals, faces, stack', existed', triIds', normals', faces')
    ensures SeedHandled(pts, g, e, stack', faces')
  {
    if faces != [] {
      assert faces'[0] == faces[0];
    }
  }

  /** The loop invariant of `generateTIN`, for the run seeded with `seed`. */
  ghost predicate Running(pts: seq<Point>, heights: seq<real>, g: Primitives, seed: Edge, stack: seq<Edge>,
                    existed: set<int>, triIds: seq<int>, normals: seq<Vec3>, faces: seq<Face>)
  {
    && StackOnInput(pts, stack)
    && existed <= AllKeys(|pts|)
    && Emitted(pts, heights, g, existed, triIds, normals, faces)
    && SeedHandled(pts, g, seed, stack, faces)
  }

  /** Before the first iteration: the seed edge alone on the stack, nothing recorded or emitted. */
  lemma RunStarts(pts: seq<Point>, heights: seq<real>, g: Primitives, seed: Edge)
    requires |heights| == |pts| && EdgeOnInput(pts, seed)
    ensures Running(pts, heights, g, seed, [seed], {}, [], seq(|pts|, _ => Zero), [])
  {
    NothingEmittedYet(pts, heights, g);
  }

  /** One iteration of the seeded run: `Advance`, keeping the loop invariant and shrinking the measure. */
  method Iterate(pts: seq<Point>, heights: seq<real>, g: Primitives, seed: Edge, stack: seq<Edge>, existed: set<int>,
                 triIds: seq<int>, normals: seq<Vec3>, faces: seq<Face>)
    returns (stack': seq<Edge>, existed': set<int>, triIds': seq<int>, normals': seq<Vec3>, faces': seq<Face>)
    requires WellFormed(pts) && stack != []
    requires Running(pts, heights, g, seed, stack, existed, triIds, normals, faces)
    ensures Running(pts, heights, g, seed, stack', existed', triIds', normals', faces')
    ensures Stepped(pts, g, stack, existed, triIds, normals, faces, stack', existed', triIds', normals', faces')
    ensures |AllKeys(|pts|) - existed'| < |AllKeys(|pts|) - existed|
         || (existed' == existed && |stack'| < |stack|)
  {
    stack', existed', triIds', normals', faces' := Advance(pts, heights, g, stack, existed, triIds, normals, faces);
    SeedStep(pts, g, seed, stack, existed, triIds, normals, faces, stack', existed', triIds', normals', faces');
  }

  /**
   Once the stack is empty, the output is empty exactly when the seed edge had
   no winner, and otherwise starts with its winner's face.
   */
  lemma SeedOutcome(pts: seq<Point>, g: Primitives, e: Edge, faces: seq<Face>)
    requires SeedHandled(pts, g, e, [], faces)
    ensures faces == [] <==> NoWinner(pts, e, {}, g)
    ensures faces != [] ==>
      && faces[0].p1 == e.p1 && faces[0].p2 == e.p2
      && 1 <= faces[0].apex.id <= |pts| && IsWinner(pts, e, {}, g, faces[0].apex.id - 1)
  {
    if faces != [] {
      assert Candidate(pts, e, {}, pts[faces[0].apex.id - 1], g);
    }
  }

  /**
   `generateTIN`. Returns `triIDs`, the final normal accumulators, the built
   faces in emission order, and the seed pair `(i, j)`. The output is empty
   exactly when the seed edge has no winner; otherwise the first face is the
   seed edge's winner.
   */
  method GenerateTIN(pts: seq<Point>, heights: seq<real>, g: Primitives)
    returns (triIds: seq<int>, normals: seq<Vec3>, faces: seq<Face>, i: int, j: int)
    requires WellFormed(pts) && |pts| >= 2 && |heights| == |pts|
    ensures IsSeed(pts, g, i, j)
    ensures |triIds| == 3 * |faces| && |normals| == |pts|
    ensures forall k :: 0 <= k < |faces| ==> EmittedAt(triIds, k, faces[k])
    ensures forall k :: 0 <= k < |faces| ==> 0 <= Triple(triIds, k).0 < Triple(triIds, k).1 < Triple(triIds, k).2 < |pts|
    ensures forall k, k' :: 0 <= k < k' < |faces| ==> Triple(triIds, k) != Triple(triIds, k')
    ensures forall k :: 0 <= k < |faces| ==> GoodFace(pts, faces[k], g)
    ensures AllOnInput(pts, faces)
    ensures forall id :: 1 <= id <= |pts| ==> normals[id - 1] == NormalSum(pts, heights, faces, id, g)
    ensures faces == [] <==> NoWinner(pts, Edge(pts[i], pts[j]), {}, g)
    ensures faces != [] ==>
      && faces[0].p1 == pts[i] && faces[0].p2 == pts[j]
      && 1 <= faces[0].apex.id <= |pts| && IsWinner(pts, Edge(pts[i], pts[j]), {}, g, faces[0].apex.id - 1)
  {
    i, j := SeedEdge(pts, g);
    var seed := Edge(pts[i], pts[j]);
    var stack := [seed];
    var existed: set<int> := {};
    triIds, faces := [], [];
    normals := seq(|pts|, _ => Zero);
    assert EdgeOnInput(pts, seed);
    RunStarts(pts, heights, g, seed);
    while stack != []
      invariant Running(pts, heights, g, seed, stack, existed, triIds, normals, faces)
      decreases |AllKeys(|pts|) - existed|, |stack|
    {
      stack, existed, triIds, normals, faces := Iterate(pts, heights, g, seed, stack, existed, triIds, normals, faces);
    }
    EmittedOutput(pts, heights, g, existed, triIds, normals, faces);
    SeedOutcome(pts, g, seed, faces);
  }
}
