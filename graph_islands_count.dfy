/**
 * Counting islands by flood fill (src/graph_islands_count.cc): every land tile found in a
 * row-major walk sinks its whole 4-connected island to water and counts one island.
 */
module IslandsCount {
  import opened Grids

  const Land := '1'
  const Water := '0'

  /**
   * count_islands_helper: on a land tile, sinks the island holding it to water and returns true;
   * outside the grid or on any other tile, returns false and changes nothing.
   */
  method CountIslandsHelper(grid: array2<char>, x: int, y: int) returns (r: bool)
    modifies grid
    ensures r <==> (x, y) in Of(old(Tiles(grid)), Land)
    ensures Tiles(grid) == Paint(old(Tiles(grid)), Component(Of(old(Tiles(grid)), Land), (x, y)), Water)
    decreases |Of(Tiles(grid), Land)|
  {
    ghost var t0 := Tiles(grid);
    ghost var l := Of(t0, Land);
    if x < 0 || x >= grid.Length0 || y < 0 || y >= grid.Length1 || grid[x, y] != Land {
      ComponentOutside(l, (x, y));
      PaintNothing(t0, Water);
      return false;
    }
    assert (x, y) in l;
    grid[x, y] := Water;
    ghost var t1 := Tiles(grid);
    assert t1 == Paint(t0, {(x, y)}, Water);
    PaintOne(t0, (x, y), Land, Water);
    var _ := CountIslandsHelper(grid, x + 1, y);
    ghost var t2 := Tiles(grid);
    PaintRegion(t1, (x + 1, y), Land, Water);
    var _ := CountIslandsHelper(grid, x - 1, y);
    ghost var t3 := Tiles(grid);
    PaintRegion(t2, (x - 1, y), Land, Water);
    var _ := CountIslandsHelper(grid, x, y + 1);
    ghost var t4 := Tiles(grid);
    PaintRegion(t3, (x, y + 1), Land, Water);
    var _ := CountIslandsHelper(grid, x, y - 1);
    FloodPaint(t0, t1, t2, t3, t4, Tiles(grid), x, y, Land, Water);
    return true;
  }

  /**
   * count_islands: the number of 4-connected islands of land in the grid; the walk sinks every
   * land tile, so no land is left.
   */
  method CountIslands(grid: array2<char>) returns (count: int)
    modifies grid
    ensures count == |Regions(Of(old(Tiles(grid)), Land))|
    ensures Tiles(grid) == Paint(old(Tiles(grid)), Of(old(Tiles(grid)), Land), Water)
    ensures Of(Tiles(grid), Land) == {}
  {
    count := 0;
    ghost var t0 := Tiles(grid);
    ghost var l0 := Of(t0, Land);
    ghost var l := l0;
    PaintNothing(t0, Water);
    for x := 0 to grid.Length0
      invariant l <= l0
      invariant Tiles(grid) == Paint(t0, l0 - l, Water)
      invariant Of(Tiles(grid), Land) == l
      invariant forall c :: c in l ==> NotBefore(c, x, 0)
      invariant count + |Regions(l)| == |Regions(l0)|
    {
      for y := 0 to grid.Length1
        invariant l <= l0
        invariant Tiles(grid) == Paint(t0, l0 - l, Water)
        invariant Of(Tiles(grid), Land) == l
        invariant forall c :: c in l ==> NotBefore(c, x, y)
        invariant count + |Regions(l)| == |Regions(l0)|
      {
        ghost var t := Tiles(grid);
        var sank := CountIslandsHelper(grid, x, y);
        SinkStep(t0, l0, l, t, (x, y), Land, Water);
        NotBeforeNext(l, l - Component(l, (x, y)), x, y);
        l := l - Component(l, (x, y));
        if sank {
          count := count + 1;
        }
      }
      NotBeforeRow(grid, Land, l, x);
    }
    NotBeforeEnd(grid, Land, l);
    NoRegions(l);
    assert l0 - l == l0;
  }
}
