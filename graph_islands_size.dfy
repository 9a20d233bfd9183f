/**
 * The largest island by flood fill (src/graph_islands_size.cc): every land tile found in a
 * row-major walk sinks its whole 4-connected island to water and counts its tiles; the walk
 * keeps the largest count.
 */
module IslandsSize {
  import opened Grids

  const Land := '1'
  const Water := '0'

  /**
   * largest_island_helper: on a land tile, sinks the island holding it to water and returns the
   * number of its tiles; outside the grid or on any other tile, returns 0 and changes nothing.
   */
  method LargestIslandHelper(grid: array2<char>, x: int, y: int) returns (r: int)
    modifies grid
    ensures r == |Component(Of(old(Tiles(grid)), Land), (x, y))|
    ensures Tiles(grid) == Paint(old(Tiles(grid)), Component(Of(old(Tiles(grid)), Land), (x, y)), Water)
    decreases |Of(Tiles(grid), Land)|
  {
    ghost var t0 := Tiles(grid);
    ghost var l := Of(t0, Land);
    if x < 0 || x >= grid.Length0 || y < 0 || y >= grid.Length1 || grid[x, y] != Land {
      ComponentOutside(l, (x, y));
      PaintNothing(t0, Water);
      return 0;
    }
    assert (x, y) in l;
    grid[x, y] := Water;
    ghost var t1 := Tiles(grid);
    assert t1 == Paint(t0, {(x, y)}, Water);
    PaintOne(t0, (x, y), Land, Water);
    var below := LargestIslandHelper(grid, x + 1, y);
    ghost var t2 := Tiles(grid);
    PaintRegion(t1, (x + 1, y), Land, Water);
    var above := LargestIslandHelper(grid, x - 1, y);
    ghost var t3 := Tiles(grid);
    PaintRegion(t2, (x - 1, y), Land, Water);
    var right := LargestIslandHelper(grid, x, y + 1);
    ghost var t4 := Tiles(grid);
    PaintRegion(t3, (x, y + 1), Land, Water);
    var left := LargestIslandHelper(grid, x, y - 1);
    FloodCount(t0, t1, t2, t3, t4, Tiles(grid), x, y, Land, Water, below, above, right, left);
    return 1 + below + above + right + left;
  }

  /**
   * largest_island: the number of tiles of the largest 4-connected island of land, 0 when there
   * is no land; the walk sinks every land tile.
   */
  method LargestIsland(grid: array2<char>) returns (largest: int)
    modifies grid
    ensures forall i :: i in Regions(Of(old(Tiles(grid)), Land)) ==> |i| <= largest
    ensures Of(old(Tiles(grid)), Land) != {} ==>
      exists i :: i in Regions(Of(old(Tiles(grid)), Land)) && |i| == largest
    ensures largest == 0 <==> Of(old(Tiles(grid)), Land) == {}
    ensures Tiles(grid) == Paint(old(Tiles(grid)), Of(old(Tiles(grid)), Land), Water)
  {
    largest := 0;
    ghost var t0 := Tiles(grid);
    ghost var l0 := Of(t0, Land);
    ghost var l := l0;
    PaintNothing(t0, Water);
    for x := 0 to grid.Length0
      invariant Sunk(t0, l0, l, Tiles(grid), x, 0, largest)
    {
      for y := 0 to grid.Length1
        invariant Sunk(t0, l0, l, Tiles(grid), x, y, largest)
      {
        ghost var t := Tiles(grid);
        var cur := LargestIslandHelper(grid, x, y);
        SinkIsland(t0, l0, l, t, Tiles(grid), x, y, cur, largest);
        l := l - Component(l, (x, y));
        if cur > largest {
          largest := cur;
        }
      }
      NotBeforeRow(grid, Land, l, x);
    }
    SunkAll(grid, t0, l0, l, largest);
  }

  /**
   * The state of the walk before (x, y): the land tiles left are those at or past (x, y), every
   * other land tile of t0 is sunk, and m is the size of the largest island sunk so far.
   */
  ghost predicate Sunk(t0: map<Cell, char>, l0: set<Cell>, l: set<Cell>, t: map<Cell, char>, x: int, y: int, m: int)
  {
    l0 == Of(t0, Land) && l <= l0 && Regions(l) <= Regions(l0)
    && t == Paint(t0, l0 - l, Water) && Of(t, Land) == l
    && (forall c :: c in l ==> NotBefore(c, x, y))
    && Largest(Regions(l0) - Regions(l), m)
  }

  /**
   * One helper call in the row-major walk at (x, y): the island there joins those sunk, what is
   * left lies past (x, y), and the larger of the result and m is the largest island sunk so far.
   */
  lemma SinkIsland(t0: map<Cell, char>, l0: set<Cell>, l: set<Cell>, t: map<Cell, char>, t': map<Cell, char>,
                   x: int, y: int, cur: int, m: int)
    requires Sunk(t0, l0, l, t, x, y, m)
    requires cur == |Component(Of(t, Land), (x, y))|
    requires t' == Paint(t, Component(Of(t, Land), (x, y)), Water)
    ensures Sunk(t0, l0, l - Component(l, (x, y)), t', x, y + 1, if cur > m then cur else m)
  {
    SinkStep(t0, l0, l, t, (x, y), Land, Water);
    NotBeforeNext(l, l - Component(l, (x, y)), x, y);
    KeepLargest(l0, l, (x, y), cur, m, if cur > m then cur else m);
  }

  /** At the end of the last row, every land tile is sunk and m is the size of the largest island. */
  lemma SunkAll(g: array2<char>, t0: map<Cell, char>, l0: set<Cell>, l: set<Cell>, m: int)
    requires Sunk(t0, l0, l, Tiles(g), g.Length0, 0, m)
    ensures forall i :: i in Regions(l0) ==> |i| <= m
    ensures l0 != {} ==> exists i :: i in Regions(l0) && |i| == m
    ensures m == 0 <==> l0 == {}
    ensures Tiles(g) == Paint(t0, l0, Water)
  {
    NotBeforeEnd(g, Land, l);
    NoRegions(l);
    assert l0 - l == l0;
    assert Regions(l0) - Regions(l) == Regions(l0);
    LargestOfAll(l0, m);
  }

  /** Once every region is taken out, m is the size of the largest, and 0 only when there is none. */
  lemma LargestOfAll(l0: set<Cell>, m: int)
    requires Largest(Regions(l0), m)
    ensures forall i :: i in Regions(l0) ==> |i| <= m
    ensures l0 != {} ==> exists i :: i in Regions(l0) && |i| == m
    ensures m == 0 <==> l0 == {}
  {
    NoRegions(l0);
    if l0 != {} {
      var i :| i in Regions(l0) && |i| == m;
      RegionNotEmpty(l0, i);
    }
  }

  /** m is the size of the largest region taken out so far, or 0 when none was. */
  ghost predicate Largest(taken: set<set<Cell>>, m: int)
  {
    (forall i :: i in taken ==> |i| <= m)
    && ((m == 0 && taken == {}) || exists i :: i in taken && |i| == m)
  }

  /**
   * One helper call in the walk: the size it returns is that of the island of c still left (0
   * when c is not land), and keeping the larger of it and m keeps the largest island sunk so far.
   */
  lemma KeepLargest(l0: set<Cell>, l: set<Cell>, c: Cell, cur: int, m: int, next: int)
    requires Regions(l) <= Regions(l0) && Largest(Regions(l0) - Regions(l), m)
    requires cur == |Component(l, c)| && next == if cur > m then cur else m
    ensures Regions(l - Component(l, c)) <= Regions(l0)
    ensures Largest(Regions(l0) - Regions(l - Component(l, c)), next)
  {
    var done := Regions(l0) - Regions(l);
    if c in l {
      RegionsAfterRemoval(l, c);
      assert Regions(l0) - Regions(l - Component(l, c)) == done + {Component(l, c)};
      if cur <= m {
        if m == 0 && done == {} {
          assert Component(l, c) in done + {Component(l, c)};
        }
      }
    } else {
      ComponentOutside(l, c);
      assert l - Component(l, c) == l;
    }
  }
}
