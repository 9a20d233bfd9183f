/**
 * Grids of tiles and their 4-connected regions, shared by the island searches
 * (src/graph_islands_count.cc, src/graph_islands_size.cc,
 * src/graph_islands_enclosed_space.cc). A grid is a two-dimensional array of tiles; its
 * contents at one moment are a map from (row, column) to the tile there.
 */
module Grids {
  /** A (row, column) position. */
  type Cell = (int, int)

  /** The four positions one step up, down, left or right. */
  predicate Adjacent(a: Cell, b: Cell)
  {
    (a.0 == b.0 && (a.1 - b.1 == 1 || b.1 - a.1 == 1))
    || (a.1 == b.1 && (a.0 - b.0 == 1 || b.0 - a.0 == 1))
  }

  /** A non-empty walk through cells of s, each a step from the one before. */
  predicate IsPath(p: seq<Cell>, s: set<Cell>)
  {
    |p| > 0
    && (forall i :: 0 <= i < |p| ==> p[i] in s)
    && (forall i :: 0 <= i < |p| - 1 ==> Adjacent(p[i], p[i + 1]))
  }

  /** b can be reached from a by a walk through s. */
  ghost predicate Reaches(s: set<Cell>, a: Cell, b: Cell)
  {
    exists p :: IsPath(p, s) && p[0] == a && p[|p| - 1] == b
  }

  /** The 4-connected region of s holding a: empty when a is not in s. */
  ghost function Component(s: set<Cell>, a: Cell): set<Cell>
  {
    set b | b in s && Reaches(s, a, b)
  }

  /** The regions of s, one per 4-connected group of its cells. */
  ghost function Regions(s: set<Cell>): set<set<Cell>>
  {
    set a | a in s :: Component(s, a)
  }

  /** No cell of s outside c is a step from a cell of c. */
  ghost predicate Closed(c: set<Cell>, s: set<Cell>)
  {
    forall a, b :: a in c && b in s && Adjacent(a, b) ==> b in c
  }

  lemma ReachesSelf(s: set<Cell>, a: Cell)
    requires a in s
    ensures Reaches(s, a, a) && a in Component(s, a)
  {
    assert IsPath([a], s);
  }

  lemma ReachesStart(s: set<Cell>, a: Cell, b: Cell)
    requires Reaches(s, a, b)
    ensures a in s && b in s
  {
  }

  /** A walk through a smaller set is a walk through a larger one. */
  lemma ReachesWithin(t: set<Cell>, s: set<Cell>, a: Cell, b: Cell)
    requires t <= s && Reaches(t, a, b)
    ensures Reaches(s, a, b)
  {
    var p :| IsPath(p, t) && p[0] == a && p[|p| - 1] == b;
    assert IsPath(p, s);
  }

  /** One step before a walk through t, from a cell of s ⊇ t. */
  lemma ReachesBefore(t: set<Cell>, s: set<Cell>, a: Cell, n: Cell, b: Cell)
    requires t <= s && a in s && Adjacent(a, n) && Reaches(t, n, b)
    ensures Reaches(s, a, b)
  {
    var p :| IsPath(p, t) && p[0] == n && p[|p| - 1] == b;
    var q := [a] + p;
    assert forall i :: 0 < i < |q| ==> q[i] == p[i - 1];
    assert IsPath(q, s);
  }

  lemma AdjacentSymmetric(a: Cell, b: Cell)
    ensures Adjacent(a, b) <==> Adjacent(b, a)
  {
  }

  /** Walks run both ways. */
  lemma ReachesBack(s: set<Cell>, a: Cell, b: Cell)
    requires Reaches(s, a, b)
    ensures Reaches(s, b, a)
  {
    var p :| IsPath(p, s) && p[0] == a && p[|p| - 1] == b;
    var q := seq(|p|, i requires 0 <= i < |p| => p[|p| - 1 - i]);
    forall i | 0 <= i < |q| - 1
      ensures Adjacent(q[i], q[i + 1])
    {
      AdjacentSymmetric(p[|p| - 2 - i], p[|p| - 1 - i]);
    }
    assert IsPath(q, s);
  }

  /** Two walks joined end to start. */
  lemma ReachesJoin(s: set<Cell>, a: Cell, b: Cell, c: Cell)
    requires Reaches(s, a, b) && Reaches(s, b, c)
    ensures Reaches(s, a, c)
  {
    var p :| IsPath(p, s) && p[0] == a && p[|p| - 1] == b;
    var q :| IsPath(q, s) && q[0] == b && q[|q| - 1] == c;
    var r := p + q[1..];
    assert forall i :: |p| <= i < |r| ==> r[i] == q[i - |p| + 1];
    assert IsPath(r, s);
  }

  /** A walk from inside a closed set never leaves it. */
  lemma {:induction false} ClosedHoldsWalk(c: set<Cell>, s: set<Cell>, p: seq<Cell>)
    requires Closed(c, s) && IsPath(p, s) && p[0] in c
    ensures forall i :: 0 <= i < |p| ==> p[i] in c
  {
    if |p| > 1 {
      var front := p[..|p| - 1];
      assert IsPath(front, s);
      ClosedHoldsWalk(c, s, front);
      assert p[|p| - 2] == front[|p| - 2];
    }
  }

  /** A closed set holding a holds its whole region. */
  lemma ClosedHoldsComponent(c: set<Cell>, s: set<Cell>, a: Cell)
    requires Closed(c, s) && a in c
    ensures Component(s, a) <= c
  {
    forall b | b in Component(s, a)
      ensures b in c
    {
      var p :| IsPath(p, s) && p[0] == a && p[|p| - 1] == b;
      ClosedHoldsWalk(c, s, p);
    }
  }

  /** A region is closed: every cell of s a step from it belongs to it. */
  lemma ComponentClosed(s: set<Cell>, a: Cell)
    ensures Closed(Component(s, a), s)
  {
    forall b, d | b in Component(s, a) && d in s && Adjacent(b, d)
      ensures d in Component(s, a)
    {
      var p :| IsPath(p, s) && p[0] == a && p[|p| - 1] == b;
      var q := p + [d];
      assert IsPath(q, s);
    }
  }

  /** A closed set of cells reachable from a, holding a, is the region of a. */
  lemma ComponentIs(c: set<Cell>, s: set<Cell>, a: Cell)
    requires a in c && Closed(c, s)
    requires forall b :: b in c ==> b in s && Reaches(s, a, b)
    ensures c == Component(s, a)
  {
    ClosedHoldsComponent(c, s, a);
  }

  /** Cells reaching each other have the same region. */
  lemma SameComponent(s: set<Cell>, a: Cell, b: Cell)
    requires Reaches(s, a, b)
    ensures Component(s, a) == Component(s, b)
  {
    ReachesBack(s, a, b);
    forall c | c in Component(s, b)
      ensures c in Component(s, a)
    {
      ReachesJoin(s, a, b, c);
    }
    forall c | c in Component(s, a)
      ensures c in Component(s, b)
    {
      ReachesJoin(s, b, a, c);
    }
  }

  /**
   * Removing the region of a from s leaves every other region as it was: the region of a cell
   * outside it is the same in s and in what is left.
   */
  lemma ComponentAfterRemoval(s: set<Cell>, a: Cell, b: Cell)
    requires b in s && b !in Component(s, a)
    ensures Component(s - Component(s, a), b) == Component(s, b)
  {
    var k := Component(s, a);
    var rest := s - k;
    ReachesSelf(s, b);
    ComponentClosed(s, b);
    // The region of b in s misses k, so it lies in what is left.
    forall c | c in Component(s, b)
      ensures c !in k
    {
      if c in k {
        ReachesBack(s, b, c);
        ReachesJoin(s, a, c, b);
      }
    }
    ReachesSelf(rest, b);
    forall c, d | c in Component(s, b) && d in rest && Adjacent(c, d)
      ensures d in Component(s, b)
    {
    }
    forall c | c in Component(s, b)
      ensures c in rest && Reaches(rest, b, c)
    {
      var p :| IsPath(p, s) && p[0] == b && p[|p| - 1] == c;
      ClosedHoldsWalk(Component(s, b), s, p);
      assert IsPath(p, rest);
    }
    ComponentIs(Component(s, b), rest, b);
    forall c | c in Component(rest, b)
      ensures c in Component(s, b)
    {
      ReachesWithin(rest, s, b, c);
    }
  }

  /** Removing one region removes exactly that region from the regions of s. */
  lemma RegionsAfterRemoval(s: set<Cell>, a: Cell)
    requires a in s
    ensures Component(s, a) in Regions(s)
    ensures Regions(s - Component(s, a)) == Regions(s) - {Component(s, a)}
  {
    var k := Component(s, a);
    var rest := s - k;
    forall r | r in Regions(rest)
      ensures r in Regions(s) && r != k
    {
      var b :| b in rest && r == Component(rest, b);
      ComponentAfterRemoval(s, a, b);
      ReachesSelf(s, b);
    }
    forall r | r in Regions(s) && r != k
      ensures r in Regions(rest)
    {
      var b :| b in s && r == Component(s, b);
      if b in k {
        SameComponent(s, a, b);
      }
      ComponentAfterRemoval(s, a, b);
    }
  }

  /** A region holds at least the cell it was found from. */
  lemma RegionNotEmpty(s: set<Cell>, r: set<Cell>)
    requires r in Regions(s)
    ensures |r| >= 1
  {
    var a :| a in s && r == Component(s, a);
    ReachesSelf(s, a);
  }

  /** There are no regions exactly when there are no cells. */
  lemma NoRegions(s: set<Cell>)
    ensures Regions(s) == {} <==> s == {}
  {
    if s != {} {
      var a :| a in s;
      assert Component(s, a) in Regions(s);
    }
  }

  /**
   * One step of a flood fill from s: s is taken out, then the regions of its four neighbours are
   * taken out one after another, each from what the earlier ones left. Together they are the
   * region of s.
   */
  lemma FloodStep(l: set<Cell>, s: Cell, n1: Cell, n2: Cell, n3: Cell, n4: Cell,
                  l1: set<Cell>, l2: set<Cell>, l3: set<Cell>, l4: set<Cell>, l5: set<Cell>)
    requires s in l
    requires Adjacent(s, n1) && Adjacent(s, n2) && Adjacent(s, n3) && Adjacent(s, n4)
    requires forall d :: Adjacent(s, d) ==> d == n1 || d == n2 || d == n3 || d == n4
    requires l1 == l - {s}
    requires l2 == l1 - Component(l1, n1)
    requires l3 == l2 - Component(l2, n2)
    requires l4 == l3 - Component(l3, n3)
    requires l5 == l4 - Component(l4, n4)
    ensures {s} + Component(l1, n1) + Component(l2, n2) + Component(l3, n3) + Component(l4, n4) == Component(l, s)
    ensures l5 <= l4 <= l3 <= l2 <= l1 < l
  {
    var c1, c2, c3, c4 := Component(l1, n1), Component(l2, n2), Component(l3, n3), Component(l4, n4);
    var r := l - l5;
    assert r == {s} + c1 + c2 + c3 + c4;
    ReachesSelf(l, s);
    forall b | b in r
      ensures b in l && Reaches(l, s, b)
    {
      if b in c1 {
        ReachesBefore(l1, l, s, n1, b);
      } else if b in c2 {
        ReachesBefore(l2, l, s, n2, b);
      } else if b in c3 {
        ReachesBefore(l3, l, s, n3, b);
      } else if b in c4 {
        ReachesBefore(l4, l, s, n4, b);
      }
    }
    ComponentClosed(l1, n1);
    ComponentClosed(l2, n2);
    ComponentClosed(l3, n3);
    ComponentClosed(l4, n4);
    forall a, d | a in r && d in l && Adjacent(a, d)
      ensures d in r
    {
      if d !in r {
        if a == s {
          if d == n1 {
            ReachesSelf(l1, n1);
          } else if d == n2 {
            ReachesSelf(l2, n2);
          } else if d == n3 {
            ReachesSelf(l3, n3);
          } else {
            ReachesSelf(l4, n4);
          }
        }
      }
    }
    ComponentIs(r, l, s);
  }

  /** The four cells a step from (x, y) are the ones below, above, right and left of it. */
  lemma Neighbours(x: int, y: int)
    ensures Adjacent((x, y), (x + 1, y)) && Adjacent((x, y), (x - 1, y))
    ensures Adjacent((x, y), (x, y + 1)) && Adjacent((x, y), (x, y - 1))
    ensures forall d :: Adjacent((x, y), d) ==> d == (x + 1, y) || d == (x - 1, y) || d == (x, y + 1) || d == (x, y - 1)
  {
  }

  /** The cells of t holding tile k. */
  function Of<T(==)>(t: map<Cell, T>, k: T): (r: set<Cell>)
    ensures forall c :: c in r <==> c in t && t[c] == k
  {
    set c | c in t && t[c] == k
  }

  /** t with every cell of c set to tile k. */
  function Paint<T>(t: map<Cell, T>, c: set<Cell>, k: T): (r: map<Cell, T>)
    ensures r.Keys == t.Keys
    ensures forall d :: d in r ==> r[d] == if d in c then k else t[d]
  {
    map d | d in t :: if d in c then k else t[d]
  }

  /** Painting with a tile takes the painted cells out of every other tile's cells. */
  lemma PaintOf<T>(t: map<Cell, T>, c: set<Cell>, k: T, j: T)
    requires j != k
    ensures Of(Paint(t, c, k), j) == Of(t, j) - c
  {
  }

  /** Painting twice with one tile paints the union. */
  lemma PaintTwice<T>(t: map<Cell, T>, a: set<Cell>, b: set<Cell>, k: T)
    ensures Paint(Paint(t, a, k), b, k) == Paint(t, a + b, k)
  {
  }

  /**
   * A flood fill from s over the cells holding k, painting them j, as contents: s is painted,
   * then the region of each neighbour in what is left. Together that paints the region of s.
   */
  lemma FloodPaint<T>(t0: map<Cell, T>, t1: map<Cell, T>, t2: map<Cell, T>, t3: map<Cell, T>,
                   t4: map<Cell, T>, t5: map<Cell, T>, x: int, y: int, k: T, j: T)
    requires k != j && (x, y) in Of(t0, k)
    requires t1 == Paint(t0, {(x, y)}, j)
    requires t2 == Paint(t1, Component(Of(t1, k), (x + 1, y)), j)
    requires t3 == Paint(t2, Component(Of(t2, k), (x - 1, y)), j)
    requires t4 == Paint(t3, Component(Of(t3, k), (x, y + 1)), j)
    requires t5 == Paint(t4, Component(Of(t4, k), (x, y - 1)), j)
    ensures t5 == Paint(t0, Component(Of(t0, k), (x, y)), j)
    ensures Component(Of(t0, k), (x, y)) == {(x, y)} + Component(Of(t1, k), (x + 1, y))
      + Component(Of(t2, k), (x - 1, y)) + Component(Of(t3, k), (x, y + 1)) + Component(Of(t4, k), (x, y - 1))
  {
    var l := Of(t0, k);
    var c1, c2, c3, c4 := Component(Of(t1, k), (x + 1, y)), Component(Of(t2, k), (x - 1, y)),
      Component(Of(t3, k), (x, y + 1)), Component(Of(t4, k), (x, y - 1));
    PaintOf(t0, {(x, y)}, j, k);
    PaintOf(t1, c1, j, k);
    PaintOf(t2, c2, j, k);
    PaintOf(t3, c3, j, k);
    PaintOf(t4, c4, j, k);
    PaintTwice(t0, {(x, y)}, c1, j);
    PaintTwice(t0, {(x, y)} + c1, c2, j);
    PaintTwice(t0, {(x, y)} + c1 + c2, c3, j);
    PaintTwice(t0, {(x, y)} + c1 + c2 + c3, c4, j);
    Neighbours(x, y);
    FloodStep(l, (x, y), (x + 1, y), (x - 1, y), (x, y + 1), (x, y - 1), Of(t1, k), Of(t2, k), Of(t3, k), Of(t4, k), Of(t5, k));
  }

  /**
   * The same flood fill, counted: when each neighbour's flood reports the size of the region it
   * painted, one more than their sum is the size of the region of s.
   */
  lemma FloodCount<T>(t0: map<Cell, T>, t1: map<Cell, T>, t2: map<Cell, T>, t3: map<Cell, T>,
                   t4: map<Cell, T>, t5: map<Cell, T>, x: int, y: int, k: T, j: T,
                   b1: int, b2: int, b3: int, b4: int)
    requires k != j && (x, y) in Of(t0, k)
    requires t1 == Paint(t0, {(x, y)}, j)
    requires t2 == Paint(t1, Component(Of(t1, k), (x + 1, y)), j)
    requires t3 == Paint(t2, Component(Of(t2, k), (x - 1, y)), j)
    requires t4 == Paint(t3, Component(Of(t3, k), (x, y + 1)), j)
    requires t5 == Paint(t4, Component(Of(t4, k), (x, y - 1)), j)
    requires b1 == |Component(Of(t1, k), (x + 1, y))| && b2 == |Component(Of(t2, k), (x - 1, y))|
    requires b3 == |Component(Of(t3, k), (x, y + 1))| && b4 == |Component(Of(t4, k), (x, y - 1))|
    ensures t5 == Paint(t0, Component(Of(t0, k), (x, y)), j)
    ensures 1 + b1 + b2 + b3 + b4 == |Component(Of(t0, k), (x, y))|
  {
    PaintOne(t0, (x, y), k, j);
    PaintRegion(t1, (x + 1, y), k, j);
    PaintRegion(t2, (x - 1, y), k, j);
    PaintRegion(t3, (x, y + 1), k, j);
    PaintRegion(t4, (x, y - 1), k, j);
    FloodPaint(t0, t1, t2, t3, t4, t5, x, y, k, j);
    PaintRegion(t0, (x, y), k, j);
  }

  /** Painting one cell holding k with j leaves one tile k fewer. */
  lemma PaintOne<T>(t: map<Cell, T>, a: Cell, k: T, j: T)
    requires k != j && a in Of(t, k)
    ensures |Of(Paint(t, {a}, j), k)| == |Of(t, k)| - 1
  {
    PaintOf(t, {a}, j, k);
    assert Of(t, k) == Of(Paint(t, {a}, j), k) + {a};
  }

  /** Painting over the region of a (tiles k) with j leaves exactly as many fewer tiles k as it has cells. */
  lemma PaintRegion<T>(t: map<Cell, T>, a: Cell, k: T, j: T)
    requires k != j
    ensures |Of(Paint(t, Component(Of(t, k), a), j), k)| == |Of(t, k)| - |Component(Of(t, k), a)|
  {
    PaintOf(t, Component(Of(t, k), a), j, k);
  }

  /** The contents of a grid, row by column. */
  function Tiles<T>(g: array2<T>): (t: map<Cell, T>)
    reads g
    ensures forall c :: c in t <==> 0 <= c.0 < g.Length0 && 0 <= c.1 < g.Length1
    ensures forall c :: c in t ==> t[c] == g[c.0, c.1]
  {
    map x, y | 0 <= x < g.Length0 && 0 <= y < g.Length1 :: (x, y) := g[x, y]
  }

  /** Writes tile k at (x, y): the contents are those before with that one cell painted k. */
  method Put<T>(g: array2<T>, x: int, y: int, k: T)
    requires 0 <= x < g.Length0 && 0 <= y < g.Length1
    modifies g
    ensures Tiles(g) == Paint(old(Tiles(g)), {(x, y)}, k)
  {
    g[x, y] := k;
  }

  /** The cell is at or past row x, column y in row-major order. */
  predicate NotBefore(c: Cell, x: int, y: int)
  {
    c.0 > x || (c.0 == x && c.1 >= y)
  }

  /** Once (x, y) is gone from what is left, what is left lies past it. */
  lemma NotBeforeNext(l: set<Cell>, rest: set<Cell>, x: int, y: int)
    requires forall c :: c in l ==> NotBefore(c, x, y)
    requires rest <= l && (x, y) !in rest
    ensures forall c :: c in rest ==> NotBefore(c, x, y + 1)
  {
  }

  /** Past the last cell of a row, the cells of g holding k that are left lie from the next row on. */
  lemma NotBeforeRow<T>(g: array2<T>, k: T, l: set<Cell>, x: int)
    requires l == Of(Tiles(g), k)
    requires forall c :: c in l ==> NotBefore(c, x, g.Length1)
    ensures forall c :: c in l ==> NotBefore(c, x + 1, 0)
  {
  }

  /** Past the last row, no cell of g holding k is left. */
  lemma NotBeforeEnd<T>(g: array2<T>, k: T, l: set<Cell>)
    requires l == Of(Tiles(g), k)
    requires forall c :: c in l ==> NotBefore(c, g.Length0, 0)
    ensures l == {}
  {
    forall c | c in l
      ensures false
    {
    }
  }

  /** A position outside the grid, or holding no land, has an empty island. */
  lemma ComponentOutside(s: set<Cell>, a: Cell)
    requires a !in s
    ensures Component(s, a) == {}
  {
    forall b | b in Component(s, a)
      ensures false
    {
      ReachesStart(s, a, b);
    }
  }

  /** Painting nothing changes nothing. */
  lemma PaintNothing<T>(t: map<Cell, T>, k: T)
    ensures Paint(t, {}, k) == t
  {
  }

  /**
   * One flood in a row-major walk: painting the region of c (tiles k) with j, on top of what
   * earlier floods painted, takes that one region out of the regions of k still left.
   */
  lemma SinkStep<T>(t0: map<Cell, T>, l0: set<Cell>, l: set<Cell>, t: map<Cell, T>, c: Cell, k: T, j: T)
    requires k != j && l0 == Of(t0, k) && l <= l0
    requires t == Paint(t0, l0 - l, j) && Of(t, k) == l
    ensures l - Component(l, c) <= l0 && c !in l - Component(l, c)
    ensures Paint(t, Component(l, c), j) == Paint(t0, l0 - (l - Component(l, c)), j)
    ensures Of(Paint(t, Component(l, c), j), k) == l - Component(l, c)
    ensures |Regions(l - Component(l, c))| == |Regions(l)| - if c in l then 1 else 0
  {
    PaintOf(t, Component(l, c), j, k);
    PaintTwice(t0, l0 - l, Component(l, c), j);
    assert (l0 - l) + Component(l, c) == l0 - (l - Component(l, c));
    if c in l {
      RegionsAfterRemoval(l, c);
      ReachesSelf(l, c);
    } else {
      ComponentOutside(l, c);
      assert l - Component(l, c) == l;
    }
  }
}
