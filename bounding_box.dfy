/**
 * Bounding box (src/math_points_bounding_box.cc): the axis-aligned rectangle enclosing a
 * set of points, found by widening the box to each point in turn.
 */
module BoundingBox {
  datatype Point = Point(x: int, y: int)

  datatype Box = Box(bottomLeft: Point, topRight: Point)

  /** The value-initialised box: both corners at the origin. */
  const Zero := Box(Point(0, 0), Point(0, 0))

  predicate Encloses(b: Box, p: Point)
  {
    b.bottomLeft.x <= p.x <= b.topRight.x && b.bottomLeft.y <= p.y <= b.topRight.y
  }

  /** Each side of the box lies on some point: no side could move inward. */
  ghost predicate Tight(points: seq<Point>, b: Box)
  {
    (exists p :: p in points && p.x == b.bottomLeft.x)
    && (exists p :: p in points && p.y == b.bottomLeft.y)
    && (exists p :: p in points && p.x == b.topRight.x)
    && (exists p :: p in points && p.y == b.topRight.y)
  }

  /**
   * What get_bounding_box returns: the zero box for no points; otherwise a box that
   * encloses every point and is tight on every side.
   */
  ghost predicate IsBoundingBox(points: seq<Point>, b: Box)
  {
    if points == [] then b == Zero
    else (forall p :: p in points ==> Encloses(b, p)) && Tight(points, b)
  }

  function Min(a: int, b: int): int
  {
    if a < b then a else b
  }

  function Max(a: int, b: int): int
  {
    if a < b then b else a
  }

  /** The box widened just enough to take in p. */
  function Widen(b: Box, p: Point): Box
  {
    Box(Point(Min(b.bottomLeft.x, p.x), Min(b.bottomLeft.y, p.y)),
        Point(Max(b.topRight.x, p.x), Max(b.topRight.y, p.y)))
  }

  /** A reference definition: the last point's box, widened by each earlier point in turn. */
  function BoxOf(points: seq<Point>): Box
    requires points != []
  {
    if |points| == 1 then Box(points[0], points[0])
    else Widen(BoxOf(points[1..]), points[0])
  }

  /** The reference definition meets the description of the bounding box. */
  lemma {:induction false} BoxOfIsBoundingBox(points: seq<Point>)
    requires points != []
    ensures IsBoundingBox(points, BoxOf(points))
  {
    if |points| == 1 {
      assert points[0] in points;
    } else {
      var rest := points[1..];
      BoxOfIsBoundingBox(rest);
      assert points == [points[0]] + rest;
      assert forall p :: p in rest ==> p in points;
      assert points[0] in points;
    }
  }

  /** math_points_bounding_box get_bounding_box. */
  method GetBoundingBox(points: seq<Point>) returns (bb: Box)
    ensures IsBoundingBox(points, bb)
  {
    if |points| < 1 {
      return Zero;
    }
    bb := Box(points[0], points[0]);
    assert points[0] in points;
    for i := 0 to |points|
      invariant forall p :: p in points[..i] ==> Encloses(bb, p)
      invariant Tight(points, bb)
    {
      var point := points[i];
      bb := bb.(bottomLeft := bb.bottomLeft.(x := Min(bb.bottomLeft.x, point.x)));
      bb := bb.(bottomLeft := bb.bottomLeft.(y := Min(bb.bottomLeft.y, point.y)));
      bb := bb.(topRight := bb.topRight.(x := Max(bb.topRight.x, point.x)));
      bb := bb.(topRight := bb.topRight.(y := Max(bb.topRight.y, point.y)));
      assert points[..i + 1] == points[..i] + [point];
    }
    assert points[..|points|] == points;
  }

  /** At most one box is the bounding box of given points. */
  lemma BoundingBoxUnique(points: seq<Point>, b: Box, c: Box)
    requires IsBoundingBox(points, b) && IsBoundingBox(points, c)
    ensures b == c
  {
    if points != [] {
      var p1 :| p1 in points && p1.x == b.bottomLeft.x;
      var q1 :| q1 in points && q1.x == c.bottomLeft.x;
      assert Encloses(b, q1) && Encloses(c, p1);
      var p2 :| p2 in points && p2.y == b.bottomLeft.y;
      var q2 :| q2 in points && q2.y == c.bottomLeft.y;
      assert Encloses(b, q2) && Encloses(c, p2);
      var p3 :| p3 in points && p3.x == b.topRight.x;
      var q3 :| q3 in points && q3.x == c.topRight.x;
      assert Encloses(b, q3) && Encloses(c, p3);
      var p4 :| p4 in points && p4.y == b.topRight.y;
      var q4 :| q4 in points && q4.y == c.topRight.y;
      assert Encloses(b, q4) && Encloses(c, p4);
    }
  }

  /** The bounding box depends only on which points there are, not on their order or repeats. */
  lemma BoundingBoxOrder(points: seq<Point>, others: seq<Point>, b: Box)
    requires forall p :: p in points <==> p in others
    requires IsBoundingBox(points, b)
    ensures IsBoundingBox(others, b)
  {
    if others != [] {
      assert others[0] in points;
    }
  }

  /** A single point gives the degenerate box on that point. */
  lemma SinglePoint(p: Point, b: Box)
    requires IsBoundingBox([p], b)
    ensures b == Box(p, p)
  {
    assert IsBoundingBox([p], Box(p, p));
    BoundingBoxUnique([p], b, Box(p, p));
  }

  /** The table row with nine scattered points. */
  lemma BoundingBoxExampleSpread(r: Box)
    requires IsBoundingBox([Point(5, 2), Point(6, 3), Point(7, 4), Point(9, 2), Point(10, 5),
                            Point(11, 1), Point(12, 4), Point(14, 4), Point(15, 2)], r)
    ensures r == Box(Point(5, 1), Point(15, 5))
  {
    var ps := [Point(5, 2), Point(6, 3), Point(7, 4), Point(9, 2), Point(10, 5),
               Point(11, 1), Point(12, 4), Point(14, 4), Point(15, 2)];
    BoxOfSpread();
    BoxOfIsBoundingBox(ps);
    BoundingBoxUnique(ps, r, BoxOf(ps));
  }

  /** The reference box of the nine scattered points. */
  lemma BoxOfSpread()
    ensures BoxOf([Point(5, 2), Point(6, 3), Point(7, 4), Point(9, 2), Point(10, 5),
                   Point(11, 1), Point(12, 4), Point(14, 4), Point(15, 2)]) == Box(Point(5, 1), Point(15, 5))
  {
  }

  /** The table rows with no points, one point, and two points in either order. */
  lemma BoundingBoxExamplesFew(r2: Box, r3: Box, r4: Box, r5: Box)
    requires IsBoundingBox([], r2)
    requires IsBoundingBox([Point(5, 2)], r3)
    requires IsBoundingBox([Point(5, 2), Point(15, 3)], r4)
    requires IsBoundingBox([Point(15, 3), Point(5, 2)], r5)
    ensures r2 == Zero
    ensures r3 == Box(Point(5, 2), Point(5, 2))
    ensures r4 == Box(Point(5, 2), Point(15, 3)) && r5 == Box(Point(5, 2), Point(15, 3))
  {
    SinglePoint(Point(5, 2), r3);
    var qs := [Point(5, 2), Point(15, 3)];
    var b := Box(Point(5, 2), Point(15, 3));
    assert qs[0] in qs && qs[1] in qs;
    assert IsBoundingBox(qs, b);
    BoundingBoxUnique(qs, r4, b);
    BoundingBoxOrder([Point(15, 3), Point(5, 2)], qs, r5);
    BoundingBoxUnique(qs, r5, b);
  }
}
