/**
 * The largest enclosed space (src/graph_islands_enclosed_space.cc): a flood fill over water
 * marks every water tile it reaches as visited and measures the 4-connected body of water, or
 * reports -1 when that body reaches the edge of the grid; the row-major walk keeps the largest
 * body that does not.
 */
module IslandsEnclosedSpace {
  import opened Grids

  const Land := '1'
  const Water := '0'
  const Visited := '2'

  /** The cell lies in a grid of h rows and w columns. */
  predicate Inside(c: Cell, h: int, w: int)
  {
    0 <= c.0 < h && 0 <= c.1 < w
  }

  /** The cell is in the first or last row or column of a grid of h rows and w columns. */
  predicate OnBorder(c: Cell, h: int, w: int)
  {
    c.0 == 0 || c.0 == h - 1 || c.1 == 0 || c.1 == w - 1
  }

  /** Some cell of c is on the border, so the body of water c is not enclosed. */
  ghost predicate Touches(c: set<Cell>, h: int, w: int)
  {
    exists d {:trigger OnBorder(d, h, w)} :: d in c && OnBorder(d, h, w)
  }

  /**
   * What the helper reports for the cell c of the tiles t in a grid of h rows and w columns: -1
   * outside the grid or when the body of water holding c touches the border, otherwise the number
   * of tiles of that body (0 when c is not water).
   */
  ghost function Flooded(t: map<Cell, char>, c: Cell, h: int, w: int): int
  {
    if !Inside(c, h, w) || Touches(Component(Of(t, Water), c), h, w) then -1
    else |Component(Of(t, Water), c)|
  }

  /**
   * largest_enclosed_space_helper: outside the grid, -1. Inside, on a tile that is not water, 0
   * and nothing changes. On water, the whole body of water holding the tile is marked visited,
   * and the result is -1 when that body touches the border of the grid, its number of tiles
   * otherwise.
   */
  method LargestEnclosedSpaceHelper(grid: array2<char>, x: int, y: int) returns (r: int)
    modifies grid
    ensures r == Flooded(old(Tiles(grid)), (x, y), grid.Length0, grid.Length1)
    ensures Tiles(grid) == Paint(old(Tiles(grid)), Component(Of(old(Tiles(grid)), Water), (x, y)), Visited)
    decreases |Of(Tiles(grid), Water)|
  {
    ghost var t0 := Tiles(grid);
    ghost var l := Of(t0, Water);
    if x < 0 || x >= grid.Length0 || y < 0 || y >= grid.Length1 {
      ComponentOutside(l, (x, y));
      PaintNothing(t0, Visited);
      return -1;
    }
    if grid[x, y] != Water {
      ComponentOutside(l, (x, y));
      PaintNothing(t0, Visited);
      return 0;
    }
    assert (x, y) in l;
    grid[x, y] := Visited;
    ghost var t1 := Tiles(grid);
    assert t1 == Paint(t0, {(x, y)}, Visited);
    PaintOne(t0, (x, y), Water, Visited);
    var down := LargestEnclosedSpaceHelper(grid, x + 1, y);
    ghost var t2 := Tiles(grid);
    PaintRegion(t1, (x + 1, y), Water, Visited);
    var up := LargestEnclosedSpaceHelper(grid, x - 1, y);
    ghost var t3 := Tiles(grid);
    PaintRegion(t2, (x - 1, y), Water, Visited);
    var right := LargestEnclosedSpaceHelper(grid, x, y + 1);
    ghost var t4 := Tiles(grid);
    PaintRegion(t3, (x, y + 1), Water, Visited);
    var left := LargestEnclosedSpaceHelper(grid, x, y - 1);
    EnclosedFlood(t0, t1, t2, t3, t4, Tiles(grid), x, y, grid.Length0, grid.Length1, down, up, right, left);
    if down < 0 || up < 0 || right < 0 || left < 0 {
      return -1;
    }
    return 1 + down + up + right + left;
  }

  /**
   * The flood of one water tile as the helper runs it: the tile is marked, then the body of water
   * of each neighbour in what is left is flooded in turn. Together that marks the tile's whole
   * body of water, and the helper's combined result measures that body.
   */
  lemma EnclosedFlood(t0: map<Cell, char>, t1: map<Cell, char>, t2: map<Cell, char>, t3: map<Cell, char>,
                      t4: map<Cell, char>, t5: map<Cell, char>, x: int, y: int, h: int, w: int,
                      down: int, up: int, right: int, left: int)
    requires Inside((x, y), h, w) && (x, y) in Of(t0, Water)
    requires t1 == Paint(t0, {(x, y)}, Visited)
    requires t2 == Paint(t1, Component(Of(t1, Water), (x + 1, y)), Visited)
    requires t3 == Paint(t2, Component(Of(t2, Water), (x - 1, y)), Visited)
    requires t4 == Paint(t3, Component(Of(t3, Water), (x, y + 1)), Visited)
    requires t5 == Paint(t4, Component(Of(t4, Water), (x, y - 1)), Visited)
    requires down == Flooded(t1, (x + 1, y), h, w) && up == Flooded(t2, (x - 1, y), h, w)
    requires right == Flooded(t3, (x, y + 1), h, w) && left == Flooded(t4, (x, y - 1), h, w)
    ensures t5 == Paint(t0, Component(Of(t0, Water), (x, y)), Visited)
    ensures (if down < 0 || up < 0 || right < 0 || left < 0 then -1 else 1 + down + up + right + left)
      == Flooded(t0, (x, y), h, w)
  {
    var l := Of(t0, Water);
    var c1, c2, c3, c4 := Component(Of(t1, Water), (x + 1, y)), Component(Of(t2, Water), (x - 1, y)),
      Component(Of(t3, Water), (x, y + 1)), Component(Of(t4, Water), (x, y - 1));
    PaintOne(t0, (x, y), Water, Visited);
    PaintRegion(t1, (x + 1, y), Water, Visited);
    PaintRegion(t2, (x - 1, y), Water, Visited);
    PaintRegion(t3, (x, y + 1), Water, Visited);
    PaintRegion(t4, (x, y - 1), Water, Visited);
    FloodPaint(t0, t1, t2, t3, t4, t5, x, y, Water, Visited);
    PaintRegion(t0, (x, y), Water, Visited);
    EnclosedStep(Component(l, (x, y)), x, y, h, w, c1, c2, c3, c4, down, up, right, left);
  }

  /**
   * The flood of one water tile: its body of water touches the border exactly when the tile is
   * on the border (a neighbour is outside the grid) or one of the bodies flooded from its
   * neighbours does; when none does, the helper's results are those bodies' sizes.
   */
  lemma EnclosedStep(c: set<Cell>, x: int, y: int, h: int, w: int, c1: set<Cell>, c2: set<Cell>,
                     c3: set<Cell>, c4: set<Cell>, r1: int, r2: int, r3: int, r4: int)
    requires Inside((x, y), h, w)
    requires c == {(x, y)} + c1 + c2 + c3 + c4
    requires r1 == if !Inside((x + 1, y), h, w) then -1 else if Touches(c1, h, w) then -1 else |c1|
    requires r2 == if !Inside((x - 1, y), h, w) then -1 else if Touches(c2, h, w) then -1 else |c2|
    requires r3 == if !Inside((x, y + 1), h, w) then -1 else if Touches(c3, h, w) then -1 else |c3|
    requires r4 == if !Inside((x, y - 1), h, w) then -1 else if Touches(c4, h, w) then -1 else |c4|
    ensures Touches(c, h, w) <==> r1 < 0 || r2 < 0 || r3 < 0 || r4 < 0
    ensures r1 >= 0 && r2 >= 0 && r3 >= 0 && r4 >= 0 ==>
      r1 == |c1| && r2 == |c2| && r3 == |c3| && r4 == |c4|
  {
    if Touches(c, h, w) {
      var d :| d in c && OnBorder(d, h, w);
      if d !in {(x, y)} {
        assert d in c1 || d in c2 || d in c3 || d in c4;
      }
    }
    if r1 < 0 && Inside((x + 1, y), h, w) {
      var d :| d in c1 && OnBorder(d, h, w);
      assert d in c;
    }
    if r2 < 0 && Inside((x - 1, y), h, w) {
      var d :| d in c2 && OnBorder(d, h, w);
      assert d in c;
    }
    if r3 < 0 && Inside((x, y + 1), h, w) {
      var d :| d in c3 && OnBorder(d, h, w);
      assert d in c;
    }
    if r4 < 0 && Inside((x, y - 1), h, w) {
      var d :| d in c4 && OnBorder(d, h, w);
      assert d in c;
    }
    if r1 < 0 || r2 < 0 || r3 < 0 || r4 < 0 {
      if OnBorder((x, y), h, w) {
        assert (x, y) in c;
      }
    }
  }

  /**
   * largest_enclosed_space: the number of tiles of the largest 4-connected body of water that
   * does not reach the border of the grid, 0 when there is none; every water tile ends visited.
   */
  method LargestEnclosedSpace(grid: array2<char>) returns (largest: int)
    modifies grid
    ensures largest >= 0
    ensures forall i :: (i in Regions(Of(old(Tiles(grid)), Water)) && !Touches(i, grid.Length0, grid.Length1)
      ==> |i| <= largest)
    ensures largest != 0 ==> exists i :: (i in Regions(Of(old(Tiles(grid)), Water))
      && !Touches(i, grid.Length0, grid.Length1) && |i| == largest)
    ensures largest == 0 <==> forall i :: i in Regions(Of(old(Tiles(grid)), Water)) ==> Touches(i, grid.Length0, grid.Length1)
    ensures Tiles(grid) == Paint(old(Tiles(grid)), Of(old(Tiles(grid)), Water), Visited)
  {
    largest := 0;
    ghost var t0 := Tiles(grid);
    ghost var l0 := Of(t0, Water);
    ghost var l := l0;
    PaintNothing(t0, Visited);
    for x := 0 to grid.Length0
      invariant Walked(t0, l0, l, Tiles(grid), x, 0, largest, grid.Length0, grid.Length1)
    {
      for y := 0 to grid.Length1
        invariant Walked(t0, l0, l, Tiles(grid), x, y, largest, grid.Length0, grid.Length1)
      {
        ghost var t := Tiles(grid);
        var cur := LargestEnclosedSpaceHelper(grid, x, y);
        WalkStep(t0, l0, l, t, Tiles(grid), x, y, grid.Length0, grid.Length1, cur, largest);
        l := l - Component(l, (x, y));
        largest := if cur > largest then cur else largest;
      }
      RowStep(grid, t0, l0, l, x, largest);
    }
    WalkDone(grid, t0, l0, l, largest);
  }

  /**
   * The state of the walk before (x, y): the water tiles left are those at or past (x, y), every
   * other water tile of t0 is marked visited, and m is the largest enclosed body flooded so far.
   */
  ghost predicate Walked(t0: map<Cell, char>, l0: set<Cell>, l: set<Cell>, t: map<Cell, char>,
                         x: int, y: int, m: int, h: int, w: int)
  {
    l0 == Of(t0, Water) && l <= l0 && Regions(l) <= Regions(l0)
    && t == Paint(t0, l0 - l, Visited) && Of(t, Water) == l
    && (forall c :: c in l ==> NotBefore(c, x, y))
    && Enclosed(Regions(l0) - Regions(l), m, h, w)
  }

  /** At the end of a row, the walk goes on at the start of the next. */
  lemma RowStep(g: array2<char>, t0: map<Cell, char>, l0: set<Cell>, l: set<Cell>, x: int, m: int)
    requires Walked(t0, l0, l, Tiles(g), x, g.Length1, m, g.Length0, g.Length1)
    ensures Walked(t0, l0, l, Tiles(g), x + 1, 0, m, g.Length0, g.Length1)
  {
    NotBeforeRow(g, Water, l, x);
  }

  /** At the end of the last row, every water tile is marked and m is the largest enclosed body. */
  lemma WalkDone(g: array2<char>, t0: map<Cell, char>, l0: set<Cell>, l: set<Cell>, m: int)
    requires Walked(t0, l0, l, Tiles(g), g.Length0, 0, m, g.Length0, g.Length1)
    ensures m >= 0
    ensures forall i :: (i in Regions(l0) && !Touches(i, g.Length0, g.Length1) ==> |i| <= m)
    ensures m != 0 ==> exists i :: (i in Regions(l0) && !Touches(i, g.Length0, g.Length1) && |i| == m)
    ensures m == 0 <==> forall i :: i in Regions(l0) ==> Touches(i, g.Length0, g.Length1)
    ensures Tiles(g) == Paint(t0, l0, Visited)
  {
    NotBeforeEnd(g, Water, l);
    NoRegions(l);
    assert l0 - l == l0;
    assert Regions(l0) - Regions(l) == Regions(l0);
    EnclosedOfAll(l0, m, g.Length0, g.Length1);
  }

  /**
   * m is the size of the largest enclosed body of water among those taken out so far, or 0 when
   * none of them is enclosed.
   */
  ghost predicate Enclosed(taken: set<set<Cell>>, m: int, h: int, w: int)
  {
    m >= 0
    && (forall i :: i in taken && !Touches(i, h, w) ==> |i| <= m)
    && (m == 0 || exists i :: i in taken && !Touches(i, h, w) && |i| == m)
  }

  /**
   * One helper call in the walk: it returns -1 for a body of water that touches the border and
   * the size of one that does not (0 when c is not water), so keeping the larger of it and m
   * keeps the largest enclosed body flooded so far.
   */
  lemma KeepEnclosed(l0: set<Cell>, l: set<Cell>, c: Cell, cur: int, m: int, next: int, h: int, w: int)
    requires Regions(l) <= Regions(l0) && Enclosed(Regions(l0) - Regions(l), m, h, w)
    requires cur == if Touches(Component(l, c), h, w) then -1 else |Component(l, c)|
    requires next == if cur > m then cur else m
    ensures Regions(l - Component(l, c)) <= Regions(l0)
    ensures Enclosed(Regions(l0) - Regions(l - Component(l, c)), next, h, w)
  {
    var done := Regions(l0) - Regions(l);
    if c in l {
      RegionsAfterRemoval(l, c);
      assert Regions(l0) - Regions(l - Component(l, c)) == done + {Component(l, c)};
      if cur > m {
        assert Component(l, c) in done + {Component(l, c)};
      }
    } else {
      ComponentOutside(l, c);
      assert l - Component(l, c) == l;
    }
  }

  /**
   * One helper call in the row-major walk at (x, y): the body of water there joins the water
   * already marked, what is left lies past (x, y), and the larger of the result and m is the
   * largest enclosed body flooded so far.
   */
  lemma WalkStep(t0: map<Cell, char>, l0: set<Cell>, l: set<Cell>, t: map<Cell, char>, t': map<Cell, char>,
                 x: int, y: int, h: int, w: int, cur: int, m: int)
    requires Walked(t0, l0, l, t, x, y, m, h, w)
    requires Inside((x, y), h, w)
    requires cur == Flooded(t, (x, y), h, w)
    requires t' == Paint(t, Component(Of(t, Water), (x, y)), Visited)
    ensures Walked(t0, l0, l - Component(l, (x, y)), t', x, y + 1, if cur > m then cur else m, h, w)
  {
    SinkStep(t0, l0, l, t, (x, y), Water, Visited);
    NotBeforeNext(l, l - Component(l, (x, y)), x, y);
    KeepEnclosed(l0, l, (x, y), cur, m, if cur > m then cur else m, h, w);
  }

  /**
   * Once every body of water is taken out, m is the size of the largest enclosed one, and 0
   * exactly when every one touches the border.
   */
  lemma EnclosedOfAll(l0: set<Cell>, m: int, h: int, w: int)
    requires Enclosed(Regions(l0), m, h, w)
    ensures m >= 0
    ensures forall i :: i in Regions(l0) && !Touches(i, h, w) ==> |i| <= m
    ensures m != 0 ==> exists i :: i in Regions(l0) && !Touches(i, h, w) && |i| == m
    ensures m == 0 <==> forall i :: i in Regions(l0) ==> Touches(i, h, w)
  {
    if m == 0 {
      forall i | i in Regions(l0)
        ensures Touches(i, h, w)
      {
        RegionNotEmpty(l0, i);
      }
    }
  }
}
