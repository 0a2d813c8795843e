/**
 What `readFile` leaves in the triangulator once a file has been parsed: each
 line's leading column is replaced by the 1-based line number as the id, the
 next two columns are the plane position, the engine's `z` is pinned to 1, and
 the fourth column is kept aside as the height used only for normals.
 */
module Loader {
  import opened Vectors
  import opened Geometry
  import opened Circumsphere

  /** One parsed line: a leading column the loader overwrites, the plane position and the height. */
  datatype Row = Row(first: real, x: real, y: real, height: real)

  /** Ids are the 1-based load positions. */
  predicate WellFormed(pts: seq<Point>) {
    forall i :: 0 <= i < |pts| ==> pts[i].id == i + 1
  }

  /** The loaded points and the parallel sequence of heights (`p_z`). */
  function Load(rows: seq<Row>): (r: (seq<Point>, seq<real>))
    ensures |r.0| == |rows| && |r.1| == |rows|
    ensures WellFormed(r.0)
    ensures forall i :: 0 <= i < |rows| ==>
      Pos(r.0[i]) == Vec3(rows[i].x, rows[i].y, 1.0) && r.0[i].normal == Zero && r.1[i] == rows[i].height
  {
    (seq(|rows|, i requires 0 <= i < |rows| => Point(i + 1, rows[i].x, rows[i].y, 1.0, Zero)),
     seq(|rows|, i requires 0 <= i < |rows| => rows[i].height))
  }

  /** Twice the signed area of the plane triangle `p`, `q`, `r`. */
  function Orient2D(p: Point, q: Point, r: Point): real {
    (q.x - p.x) * (r.y - p.y) - (r.x - p.x) * (q.y - p.y)
  }

  /** On a horizontal plane the cross product of two sides is vertical, of length |Orient2D|. */
  lemma PlanarCrossSq(p: Point, q: Point, r: Point)
    requires p.z == q.z && q.z == r.z
    ensures CrossSq(Pos(p), Pos(q), Pos(r)) == Orient2D(p, q, r) * Orient2D(p, q, r)
  {
    var w := Cross(Sub(Pos(q), Pos(p)), Sub(Pos(r), Pos(p)));
    assert w == Vec3(0.0, 0.0, Orient2D(p, q, r));
  }

  /** On a horizontal plane, points collinear in the plane never form a reasonable triangle. */
  lemma PlanarCollinearNotReasonable(p: Point, q: Point, r: Point)
    requires p.z == q.z && q.z == r.z
    ensures Orient2D(p, q, r) == 0.0 ==> !ReasonablePoints(p, q, r)
  {
    PlanarCrossSq(p, q, r);
    ReasonableIffNotCollinear(p, q, r);
    if Orient2D(p, q, r) == 0.0 {
      MulSubstitute(Orient2D(p, q, r), Orient2D(p, q, r), 0.0);
    }
  }

  /**
   Loading pins every `z` to the same value, so the squared cross product
   that decides reasonableness (and the circumcentre's existence) is the
   square of the plane orientation, and plane-collinear samples never form a
   reasonable triangle.
   */
  lemma LoadedPointsArePlanar(rows: seq<Row>, i: int, j: int, k: int)
    requires 0 <= i < |rows| && 0 <= j < |rows| && 0 <= k < |rows|
    ensures var pts := Load(rows).0;
      CrossSq(Pos(pts[i]), Pos(pts[j]), Pos(pts[k])) == Orient2D(pts[i], pts[j], pts[k]) * Orient2D(pts[i], pts[j], pts[k])
    ensures var pts := Load(rows).0;
      Orient2D(pts[i], pts[j], pts[k]) == 0.0 ==> !ReasonablePoints(pts[i], pts[j], pts[k])
  {
    var pts := Load(rows).0;
    assert Pos(pts[i]).z == 1.0 && Pos(pts[j]).z == 1.0 && Pos(pts[k]).z == 1.0;
    PlanarCrossSq(pts[i], pts[j], pts[k]);
    PlanarCollinearNotReasonable(pts[i], pts[j], pts[k]);
  }
}
