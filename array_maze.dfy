/**
 * A path through a maze by depth-first search (src/array_maze.cc). The maze is a grid of tiles
 * where 1 is a wall and every other value is open; the search walls off each tile it visits and
 * keeps the tiles from the start to the tile it is on as the current path.
 */
module Maze {
  import opened Grids

  const Wall := 1
  const Empty := 0

  /** The open tiles of t: every tile that is not a wall. */
  function Free(t: map<Cell, int>): (r: set<Cell>)
    ensures forall c :: c in r <==> c in t && t[c] != Wall
  {
    set c | c in t && t[c] != Wall
  }

  /**
   * p is a route through the cells s from a to b: it starts at a, each cell is a step from the
   * one before, and no cell is visited twice.
   */
  predicate Route(p: seq<Cell>, s: set<Cell>, a: Cell, b: Cell)
    decreases |p|
  {
    |p| > 0 && p[0] == a && a in s
    && if |p| == 1 then a == b else Adjacent(a, p[1]) && a !in p[1..] && Route(p[1..], s, p[1], b)
  }

  /** t differs from t0 only in tiles that were turned into walls. */
  predicate OnlyWalls(t0: map<Cell, int>, t: map<Cell, int>)
  {
    t.Keys == t0.Keys && forall c :: c in t ==> t[c] == t0[c] || t[c] == Wall
  }

  /** What a search leaves: whether it reached the end, the route it found, and the tiles afterwards. */
  datatype Outcome = Outcome(found: bool, route: seq<Cell>, tiles: map<Cell, int>)

  /** The four tiles next to c, in the order the search tries them. */
  function Around(c: Cell): (r: seq<Cell>)
    ensures |r| == 4 && forall i :: 0 <= i < 4 ==> Adjacent(c, r[i])
  {
    [(c.0, c.1 + 1), (c.0, c.1 - 1), (c.0 + 1, c.1), (c.0 - 1, c.1)]
  }

  /**
   * find_path_helper as a function of the tiles: the search from c. Outside the maze or on a wall
   * it finds nothing and changes nothing. On an open tile it walls the tile off and stops when it
   * is the end; otherwise it tries the tiles Around it, and the route is c followed by the route
   * found from the first of them that reaches the end.
   */
  function Search(t: map<Cell, int>, end: Cell, c: Cell): (r: Outcome)
    ensures |Free(r.tiles)| <= |Free(t)|
    ensures !r.found ==> r.route == []
    decreases |Free(t)|, 0, 0
  {
    if c !in Free(t) then Outcome(false, [], t)
    else
      OneFewer(t, c);
      var t1 := Paint(t, {c}, Wall);
      if c == end then Outcome(true, [c], t1)
      else
        var r := Tries(t1, end, Around(c));
        if r.found then Outcome(true, [c] + r.route, r.tiles) else Outcome(false, [], r.tiles)
  }

  /**
   * The searches from the tiles ns in turn, each on the tiles the one before left, up to the first
   * that reaches the end: its outcome, or the last tiles with nothing found when none does.
   */
  function Tries(t: map<Cell, int>, end: Cell, ns: seq<Cell>): (r: Outcome)
    ensures |Free(r.tiles)| <= |Free(t)|
    ensures !r.found ==> r.route == []
    decreases |Free(t)|, 1, |ns|
  {
    if ns == [] then Outcome(false, [], t)
    else
      var r1 := Search(t, end, ns[0]);
      if r1.found then r1 else Tries(r1.tiles, end, ns[1..])
  }

  /**
   * find_path_helper: outside the maze or on a wall, false and nothing changes. On an open tile,
   * the tile is walled off and pushed onto the path; when it is the end the search stops with
   * true. Otherwise the search goes on from the tiles right of, left of, below and above it, and
   * stops at the first one that reaches the end. When none does, the tile is popped again and the
   * result is false. The result, the route pushed and the tiles afterwards are those of Search;
   * so when the result is false the end cannot be reached from the tile and every open tile that
   * can has been walled off, and when it is true the path has grown by a route through open tiles
   * from the tile to the end, and every tile on that route is now a wall.
   */
  method FindPathHelper(maze: array2<int>, end: Cell, current: Cell, path: seq<Cell>)
    returns (found: bool, path': seq<Cell>, ghost route: seq<Cell>)
    modifies maze
    ensures Outcome(found, route, Tiles(maze)) == Search(old(Tiles(maze)), end, current)
    ensures path' == path + route
    decreases |Free(Tiles(maze))|, 0, 0
  {
    ghost var t0 := Tiles(maze);
    var x, y := current.0, current.1;
    assert current == (x, y);
    if x < 0 || x >= maze.Length0 || y < 0 || y >= maze.Length1 || maze[x, y] == Wall {
      Blocked(t0, end, current);
      Unchanged(path);
      return false, path, [];
    }
    Put(maze, x, y, Wall);
    path' := path + [current];
    OneFewer(t0, current);
    if x == end.0 && y == end.1 {
      Reached(t0, current);
      return true, path', [current];
    }
    ghost var r := Tries(Tiles(maze), end, Around(current));
    found, path', route := TryNeighbours(maze, end, current, Around(current), path', path);
    Visit(t0, end, current, r);
    if !found {
      Pop(path, current, path');
      path' := path'[..|path'| - 1];
      Unchanged(path);
    }
  }

  /**
   * The searches from the neighbours ns of the tile a being visited, in turn, with a pushed onto
   * path0, up to the first that succeeds. When one does the path has grown from path0 by a
   * followed by the route it found; when none does the path is unchanged. Which one succeeds,
   * its route and the tiles afterwards are those of Tries.
   */
  method TryNeighbours(maze: array2<int>, end: Cell, a: Cell, ns: seq<Cell>, path: seq<Cell>, ghost path0: seq<Cell>)
    returns (found: bool, path': seq<Cell>, ghost route: seq<Cell>)
    requires path == path0 + [a]
    modifies maze
    ensures var r := Tries(old(Tiles(maze)), end, ns);
      found == r.found && Tiles(maze) == r.tiles && route == (if found then [a] + r.route else [])
    ensures path' == if found then path0 + route else path
    decreases |Free(Tiles(maze))|, 1, |ns|
  {
    if ns == [] {
      return false, path, [];
    }
    found, path', route := FindPathHelper(maze, end, ns[0], path);
    if found {
      Push(path0, a, route);
      route := [a] + route;
    } else {
      found, path', route := TryNeighbours(maze, end, a, ns[1..], path, path0);
    }
  }

  /**
   * Search keeps its promise: it only adds walls; when it reaches the end, its route runs through
   * the open tiles from c to the end and is walled off; when it does not, the end is not in the
   * open region of c, and exactly that region has been walled off.
   */
  lemma {:induction false} SearchSound(t: map<Cell, int>, end: Cell, c: Cell)
    ensures var r := Search(t, end, c);
      OnlyWalls(t, r.tiles) && (r.found ==> Found(t, r.tiles, r.route, c, end))
      && (!r.found ==> Sealed(t, r.tiles, c, end))
    decreases |Free(t)|, 0, 0
  {
    if c !in Free(t) {
      Blocked(t, end, c);
      Untouched(t, c, end);
    } else if c == end {
      Reached(t, c);
      WallFree(t, {c});
      Arrived(t, c);
    } else {
      var t1 := Paint(t, {c}, Wall);
      var r := Tries(t1, end, Around(c));
      Visit(t, end, c, r);
      WallOne(t, c);
      OneFewer(t, c);
      TriesSound(t, t1, c, {c}, Around(c), end);
      if !r.found {
        Enclosed(t, c, end);
      }
    }
  }

  /** Tries from a list that is not empty: the search from its first tile, or the tries of the rest after it. */
  lemma TriesStep(t: map<Cell, int>, end: Cell, ns: seq<Cell>)
    requires ns != []
    ensures var r1 := Search(t, end, ns[0]);
      Tries(t, end, ns) == if r1.found then r1 else Tries(r1.tiles, end, ns[1..])
  {
  }

  /**
   * The tiles after walling off, in turn, the open region of each tile of ns, each in the tiles
   * the one before left: what the tries of ns leave when none of them reaches the end.
   */
  ghost function Sweep(t: map<Cell, int>, ns: seq<Cell>): map<Cell, int>
    decreases |ns|
  {
    if ns == [] then t else Sweep(Paint(t, Component(Free(t), ns[0]), Wall), ns[1..])
  }

  /**
   * The tries of the neighbours ns of the tile a being visited, from tiles t that are t0 with the
   * tiles w walled off: when one succeeds, a followed by its route is a route from a through the
   * open tiles of t0, walled off at the end; when none does, the tiles left are the Sweep of ns,
   * and the end is not among the tiles it walled off.
   */
  lemma {:induction false} TriesSound(t0: map<Cell, int>, t: map<Cell, int>, a: Cell, w: set<Cell>, ns: seq<Cell>,
                                      end: Cell)
    requires Visiting(t0, t, a, w) && forall i :: 0 <= i < |ns| ==> Adjacent(a, ns[i])
    ensures var r := Tries(t, end, ns);
      (r.found ==> OnlyWalls(t0, r.tiles) && Found(t0, r.tiles, [a] + r.route, a, end))
      && (!r.found ==> r.tiles == Sweep(t, ns) && end !in Free(t) - Free(r.tiles))
    decreases |Free(t)|, 2, |ns|
  {
    if ns != [] {
      var r1 := Search(t, end, ns[0]);
      NeighbourSound(t0, t, a, w, ns[0], end);
      if !r1.found {
        var k := Component(Free(t), ns[0]);
        WallFree(t, k);
        TriesSound(t0, r1.tiles, a, w + k, ns[1..], end);
      }
    }
  }

  /**
   * The search from the neighbour n of the tile a being visited, from tiles t that are t0 with
   * the tiles w walled off: when it succeeds, a followed by its route is a route from a through
   * the open tiles of t0; when it fails, the region of n in t was walled off and holds no end,
   * and the visit goes on with that region added to w.
   */
  lemma {:induction false} NeighbourSound(t0: map<Cell, int>, t: map<Cell, int>, a: Cell, w: set<Cell>, n: Cell, end: Cell)
    requires Visiting(t0, t, a, w) && Adjacent(a, n)
    ensures var r := Search(t, end, n);
      (r.found ==> OnlyWalls(t0, r.tiles) && Found(t0, r.tiles, [a] + r.route, a, end))
      && (!r.found ==> Sealed(t, r.tiles, n, end) && Visiting(t0, r.tiles, a, w + Component(Free(t), n)))
    decreases |Free(t)|, 1, 0
  {
    SearchSound(t, end, n);
    var r := Search(t, end, n);
    if r.found {
      Extend(t0, t, r.tiles, a, w, n, end, r.route);
    } else {
      WallRegion(t0, t, r.tiles, a, w, n, end);
    }
  }

  /**
   * A visit of the open tile c, other than the end, where the tries of all four tiles Around it
   * failed: what they left is the region of c walled off, and the end is not in that region.
   */
  lemma Enclosed(t: map<Cell, int>, c: Cell, end: Cell)
    requires c in Free(t) && c != end
    requires var t1 := Paint(t, {c}, Wall); end !in Free(t1) - Free(Sweep(t1, Around(c)))
    ensures Sealed(t, Sweep(Paint(t, {c}, Wall), Around(c)), c, end)
    ensures OnlyWalls(t, Sweep(Paint(t, {c}, Wall), Around(c)))
  {
    var x, y := c.0, c.1;
    var ns := Around(c);
    assert ns[1..] == [(x, y - 1), (x + 1, y), (x - 1, y)] && ns[1..][1..] == [(x + 1, y), (x - 1, y)];
    assert ns[1..][1..][1..] == [(x - 1, y)] && ns[1..][1..][1..][1..] == [];
    var t1 := Paint(t, {c}, Wall);
    var t2 := Paint(t1, Component(Free(t1), (x, y + 1)), Wall);
    var t3 := Paint(t2, Component(Free(t2), (x, y - 1)), Wall);
    var t4 := Paint(t3, Component(Free(t3), (x + 1, y)), Wall);
    var t5 := Paint(t4, Component(Free(t4), (x - 1, y)), Wall);
    assert Sweep(t1, ns) == Sweep(t2, ns[1..]);
    assert Sweep(t2, ns[1..]) == Sweep(t3, ns[1..][1..]);
    assert Sweep(t3, ns[1..][1..]) == Sweep(t4, ns[1..][1..][1..]);
    assert Sweep(t4, ns[1..][1..][1..]) == t5;
    WallFree(t1, Component(Free(t1), (x, y + 1)));
    WallFree(t2, Component(Free(t2), (x, y - 1)));
    WallFree(t3, Component(Free(t3), (x + 1, y)));
    WallFree(t4, Component(Free(t4), (x - 1, y)));
    DeadEnd(t, t1, t2, t3, t4, t5, x, y, end);
  }

  /** Pushing a and then a route from a grows the path by the route [a] + q. */
  lemma Push(path: seq<Cell>, a: Cell, q: seq<Cell>)
    ensures path + [a] + q == path + ([a] + q)
  {
  }

  /** A search that succeeded: q is a route through the open tiles of t0 from a to b, walled off in t. */
  ghost predicate Found(t0: map<Cell, int>, t: map<Cell, int>, q: seq<Cell>, a: Cell, b: Cell)
  {
    Route(q, Free(t0), a, b) && forall c :: c in q ==> c !in Free(t)
  }

  /**
   * A search that failed: b is not in the region of open tiles of t0 holding a, and that region
   * is exactly what was walled off.
   */
  ghost predicate Sealed(t0: map<Cell, int>, t: map<Cell, int>, a: Cell, b: Cell)
  {
    b !in Component(Free(t0), a) && t == Paint(t0, Component(Free(t0), a), Wall)
  }

  /** The search is at the open tile a of t0, and t is t0 with the tiles w, a among them, walled off. */
  ghost predicate Visiting(t0: map<Cell, int>, t: map<Cell, int>, a: Cell, w: set<Cell>)
  {
    a in Free(t0) && a in w && t == Paint(t0, w, Wall)
  }

  /** A search from a tile that is not open finds nothing and changes nothing. */
  lemma Untouched(t: map<Cell, int>, a: Cell, b: Cell)
    requires a !in Free(t)
    ensures Sealed(t, t, a, b) && OnlyWalls(t, t)
  {
    ComponentOutside(Free(t), a);
    PaintNothing(t, Wall);
  }

  /** A search that walls off the open tile a and stops there has found the one-tile route to a. */
  lemma Arrived(t0: map<Cell, int>, a: Cell)
    requires a in Free(t0)
    ensures Found(t0, Paint(t0, {a}, Wall), [a], a, a)
  {
  }

  /**
   * find_path: a route through the open tiles of the maze from start to end when the end can be
   * reached from the start, the empty path when it cannot.
   */
  method FindPath(maze: array2<int>, start: Cell, end: Cell) returns (path: seq<Cell>)
    modifies maze
    ensures path == [] <==> end !in Component(Free(old(Tiles(maze))), start)
    ensures path != [] ==> Route(path, Free(old(Tiles(maze))), start, end)
    ensures OnlyWalls(old(Tiles(maze)), Tiles(maze))
    ensures var r := Search(old(Tiles(maze)), end, start); path == if r.found then r.route else []
  {
    ghost var t0 := Tiles(maze);
    var found;
    ghost var route;
    found, path, route := FindPathHelper(maze, end, start, []);
    Concluded(t0, Tiles(maze), found, path, route, start, end);
    if !found {
      path := [];
    }
  }

  /** What find_path returns, from what the search from the start left. */
  lemma Concluded(t0: map<Cell, int>, t: map<Cell, int>, found: bool, path: seq<Cell>, route: seq<Cell>,
                  start: Cell, end: Cell)
    requires Outcome(found, route, t) == Search(t0, end, start) && path == [] + route
    ensures OnlyWalls(t0, t)
    ensures found ==> path == route && path != [] && end in Component(Free(t0), start) && Route(path, Free(t0), start, end)
    ensures !found ==> end !in Component(Free(t0), start)
  {
    SearchSound(t0, end, start);
    if found {
      assert path == route;
      RouteReaches(path, Free(t0), start, end);
    }
  }

  /** The search from a tile that is not open finds nothing and changes nothing. */
  lemma Blocked(t: map<Cell, int>, end: Cell, c: Cell)
    requires c !in Free(t)
    ensures Search(t, end, c) == Outcome(false, [], t)
  {
  }

  /** The search from the end, when it is open, walls it off and finds the route of that one tile. */
  lemma Reached(t: map<Cell, int>, c: Cell)
    requires c in Free(t)
    ensures Search(t, c, c) == Outcome(true, [c], Paint(t, {c}, Wall))
  {
  }

  /**
   * The search from an open tile c other than the end: the route is c followed by what the tries
   * Around it found, on the tiles with c walled off; when they found nothing, neither does it.
   */
  lemma Visit(t: map<Cell, int>, end: Cell, c: Cell, r: Outcome)
    requires c in Free(t) && c != end && r == Tries(Paint(t, {c}, Wall), end, Around(c))
    ensures Search(t, end, c) == if r.found then Outcome(true, [c] + r.route, r.tiles) else Outcome(false, [], r.tiles)
  {
  }

  /** A path with no route added is the path. */
  lemma Unchanged(path: seq<Cell>)
    ensures path + [] == path
  {
  }

  /** Popping the tile pushed last restores the path. */
  lemma Pop(path: seq<Cell>, a: Cell, p: seq<Cell>)
    requires p == path + [a]
    ensures |p| > 0 && p[..|p| - 1] == path
  {
  }

  /** Every cell of a route lies in the cells it goes through. */
  lemma {:induction false} RouteWithin(p: seq<Cell>, s: set<Cell>, a: Cell, b: Cell)
    requires Route(p, s, a, b)
    ensures forall c :: c in p ==> c in s
  {
    if |p| > 1 {
      RouteWithin(p[1..], s, p[1], b);
      assert p == [a] + p[1..];
    }
  }

  /** A route through s is a route through any larger set of cells. */
  lemma {:induction false} RouteWiden(p: seq<Cell>, s: set<Cell>, s': set<Cell>, a: Cell, b: Cell)
    requires Route(p, s, a, b) && s <= s'
    ensures Route(p, s', a, b)
  {
    if |p| > 1 {
      RouteWiden(p[1..], s, s', p[1], b);
    }
  }

  /** A route is a walk through s from a to b. */
  lemma {:induction false} RouteIsPath(p: seq<Cell>, s: set<Cell>, a: Cell, b: Cell)
    requires Route(p, s, a, b)
    ensures IsPath(p, s) && p[0] == a && p[|p| - 1] == b
  {
    if |p| > 1 {
      RouteIsPath(p[1..], s, p[1], b);
      forall i | 0 <= i < |p| - 1
        ensures Adjacent(p[i], p[i + 1])
      {
        if i > 0 {
          assert p[i] == p[1..][i - 1] && p[i + 1] == p[1..][i];
        }
      }
    }
  }

  /** No cell appears twice on a route. */
  lemma {:induction false} RouteDistinct(p: seq<Cell>, s: set<Cell>, a: Cell, b: Cell)
    requires Route(p, s, a, b)
    ensures forall i, j :: 0 <= i < j < |p| ==> p[i] != p[j]
  {
    if |p| > 1 {
      RouteDistinct(p[1..], s, p[1], b);
      forall i, j | 0 <= i < j < |p|
        ensures p[i] != p[j]
      {
        assert p[j] == p[1..][j - 1];
        if i > 0 {
          assert p[i] == p[1..][i - 1];
        }
      }
    }
  }

  /** A route from a to b through s puts b in the region of s holding a. */
  lemma RouteReaches(p: seq<Cell>, s: set<Cell>, a: Cell, b: Cell)
    requires Route(p, s, a, b)
    ensures b in Component(s, a)
  {
    RouteIsPath(p, s, a, b);
  }

  /** Walling off the tiles c takes them out of the open tiles and changes nothing but walls. */
  lemma WallFree(t: map<Cell, int>, c: set<Cell>)
    ensures Free(Paint(t, c, Wall)) == Free(t) - c
    ensures OnlyWalls(t, Paint(t, c, Wall))
  {
  }

  /** Walling off an open tile leaves fewer open tiles. */
  lemma OneFewer(t: map<Cell, int>, a: Cell)
    requires a in Free(t)
    ensures |Free(Paint(t, {a}, Wall))| < |Free(t)|
  {
    WallOne(t, a);
  }

  /** Walling off one open tile leaves exactly that tile fewer open ones. */
  lemma WallOne(t: map<Cell, int>, a: Cell)
    requires a in Free(t)
    ensures Visiting(t, Paint(t, {a}, Wall), a, {a})
    ensures |Free(Paint(t, {a}, Wall))| == |Free(t)| - 1
  {
    WallFree(t, {a});
    assert Free(t) == Free(Paint(t, {a}, Wall)) + {a};
  }

  /**
   * After a search from n that fails, the open tiles left are those of t minus the region of n:
   * the search is still at a, with no more open tiles than before.
   */
  lemma WallRegion(t0: map<Cell, int>, t: map<Cell, int>, t': map<Cell, int>, a: Cell, w: set<Cell>, n: Cell, b: Cell)
    requires Visiting(t0, t, a, w) && Sealed(t, t', n, b)
    ensures Visiting(t0, t', a, w + Component(Free(t), n)) && |Free(t')| <= |Free(t)|
  {
    WallFree(t, Component(Free(t), n));
    PaintTwice(t0, w, Component(Free(t), n), Wall);
  }

  /**
   * A search from the neighbour n of a that succeeds, from tiles t where a is already walled
   * off: the route it found, with a in front, is a route from a through the open tiles of t0,
   * and every tile on it is a wall in the final tiles t'.
   */
  lemma Extend(t0: map<Cell, int>, t: map<Cell, int>, t': map<Cell, int>, a: Cell, w: set<Cell>, n: Cell, b: Cell,
               q: seq<Cell>)
    requires Visiting(t0, t, a, w) && Adjacent(a, n)
    requires OnlyWalls(t, t') && Found(t, t', q, n, b)
    ensures OnlyWalls(t0, t') && Found(t0, t', [a] + q, a, b)
  {
    WallFree(t0, w);
    RouteWithin(q, Free(t), n, b);
    RouteWiden(q, Free(t), Free(t0), n, b);
    assert ([a] + q)[1..] == q;
  }

  /**
   * A search from (x, y) whose four neighbour searches all fail, none of them finding b: the
   * tiles of the region of (x, y) in t0 are exactly those walled off, and b is not among them.
   */
  lemma DeadEnd(t0: map<Cell, int>, t1: map<Cell, int>, t2: map<Cell, int>, t3: map<Cell, int>,
                t4: map<Cell, int>, t5: map<Cell, int>, x: int, y: int, b: Cell)
    requires (x, y) in Free(t0) && (x, y) != b
    requires t1 == Paint(t0, {(x, y)}, Wall)
    requires t2 == Paint(t1, Component(Free(t1), (x, y + 1)), Wall)
    requires t3 == Paint(t2, Component(Free(t2), (x, y - 1)), Wall)
    requires t4 == Paint(t3, Component(Free(t3), (x + 1, y)), Wall)
    requires t5 == Paint(t4, Component(Free(t4), (x - 1, y)), Wall)
    requires b !in Component(Free(t1), (x, y + 1)) && b !in Component(Free(t2), (x, y - 1))
    requires b !in Component(Free(t3), (x + 1, y)) && b !in Component(Free(t4), (x - 1, y))
    ensures Sealed(t0, t5, (x, y), b) && OnlyWalls(t0, t5)
  {
    var c1, c2, c3, c4 := Component(Free(t1), (x, y + 1)), Component(Free(t2), (x, y - 1)),
      Component(Free(t3), (x + 1, y)), Component(Free(t4), (x - 1, y));
    WallFree(t0, {(x, y)});
    WallFree(t1, c1);
    WallFree(t2, c2);
    WallFree(t3, c3);
    WallFree(t4, c4);
    PaintTwice(t0, {(x, y)}, c1, Wall);
    PaintTwice(t0, {(x, y)} + c1, c2, Wall);
    PaintTwice(t0, {(x, y)} + c1 + c2, c3, Wall);
    PaintTwice(t0, {(x, y)} + c1 + c2 + c3, c4, Wall);
    Neighbours(x, y);
    FloodStep(Free(t0), (x, y), (x, y + 1), (x, y - 1), (x + 1, y), (x - 1, y),
              Free(t1), Free(t2), Free(t3), Free(t4), Free(t5));
    WallFree(t0, Component(Free(t0), (x, y)));
  }

  /** A search reaches the end exactly when the end is in the open region of the tile it starts from. */
  lemma FoundIff(t: map<Cell, int>, end: Cell, c: Cell)
    ensures Search(t, end, c).found <==> end in Component(Free(t), c)
  {
    SearchSound(t, end, c);
    var r := Search(t, end, c);
    if r.found {
      RouteReaches(r.route, Free(t), c, end);
    }
  }

  /**
   * Tries whose first i tiles are not open and whose tile i reaches the end: the outcome is that
   * of the search from tile i.
   */
  lemma {:induction false} TriesSkip(t: map<Cell, int>, end: Cell, ns: seq<Cell>, i: nat)
    requires i < |ns| && forall j :: 0 <= j < i ==> ns[j] !in Free(t)
    requires Search(t, end, ns[i]).found
    ensures Tries(t, end, ns) == Search(t, end, ns[i])
    decreases i
  {
    TriesStep(t, end, ns);
    if i > 0 {
      Blocked(t, end, ns[0]);
      TriesSkip(t, end, ns[1..], i - 1);
    }
  }

  /**
   * The search from the open tile c, other than the end, where the tiles Around c before tile i
   * are not open once c is walled off and the end can be reached from tile i: it reaches the end
   * through tile i.
   */
  lemma Through(t: map<Cell, int>, end: Cell, c: Cell, i: nat)
    requires c in Free(t) && c != end && i < 4
    requires forall j :: 0 <= j < i ==> Around(c)[j] !in Free(Paint(t, {c}, Wall))
    requires end in Component(Free(Paint(t, {c}, Wall)), Around(c)[i])
    ensures var r := Search(Paint(t, {c}, Wall), end, Around(c)[i]);
      Search(t, end, c).found && Search(t, end, c).route == [c] + r.route
  {
    var t1 := Paint(t, {c}, Wall);
    Visit(t, end, c, Tries(t1, end, Around(c)));
    FoundIff(t1, end, Around(c)[i]);
    TriesSkip(t1, end, Around(c), i);
  }

  /** The tiles on p. */
  ghost function Cells(p: seq<Cell>): set<Cell>
  {
    set c | c in p
  }

  /** Where n comes among the tiles Around c: 0 to 3 when it is one of them. */
  function Index(c: Cell, n: Cell): (i: nat)
    ensures i < 4
    ensures Adjacent(c, n) ==> Around(c)[i] == n
  {
    Neighbours(c.0, c.1);
    if n == Around(c)[0] then 0 else if n == Around(c)[1] then 1 else if n == Around(c)[2] then 2 else 3
  }

  /**
   * The search from c, once c is walled off and f is open, goes on at n: n is next to c and the
   * tiles Around c tried before it are not open.
   */
  ghost predicate Step(f: set<Cell>, c: Cell, n: Cell)
  {
    Adjacent(c, n) && forall j :: 0 <= j < Index(c, n) ==> Around(c)[j] !in f
  }

  /** The tile after p[k] on the walk p followed by q. */
  function Next(p: seq<Cell>, k: nat, q: Cell): Cell
    requires k < |p|
  {
    if k + 1 < |p| then p[k + 1] else q
  }

  /**
   * With the open tiles f, the search walks straight along p from p[k] to q: each tile is open,
   * is not the end, and once it is walled off the search Steps from it to the next.
   */
  ghost predicate Walk(f: set<Cell>, end: Cell, p: seq<Cell>, k: nat, q: Cell)
    decreases |p| - k
  {
    k <= |p|
    && (k < |p| ==>
        p[k] in f && p[k] != end && Step(f - {p[k]}, p[k], Next(p, k, q)) && Walk(f - {p[k]}, end, p, k + 1, q))
  }

  /** The tiles on a walk that is not empty: its first and those on the rest. */
  lemma CellsCons(p: seq<Cell>)
    requires |p| > 0
    ensures Cells(p) == {p[0]} + Cells(p[1..])
  {
    assert p == [p[0]] + p[1..];
  }

  /** The tiles on a walk of one tile. */
  lemma CellsOne(p: seq<Cell>)
    requires |p| == 1
    ensures Cells(p) == {p[0]}
  {
  }

  /** A route of p[0] followed by the rest of p and then rq is p followed by rq. */
  lemma Joined(p: seq<Cell>, r1: seq<Cell>, r0: seq<Cell>, rq: seq<Cell>)
    requires |p| > 0 && r0 == [p[0]] + (if |p| == 1 then rq else r1)
    requires |p| > 1 ==> r1 == p[1..] + rq
    ensures r0 == p + rq
  {
    assert p == [p[0]] + p[1..];
  }

  /**
   * The search along a Walk of p from p[k] to q, from which the end can be reached once the tiles
   * of the walk are walls: it goes straight along p, and its route is p[k..] followed by the route
   * of the search from q.
   */
  lemma {:induction false} Straight(t: map<Cell, int>, end: Cell, p: seq<Cell>, k: nat, q: Cell)
    requires k < |p| && Walk(Free(t), end, p, k, q) && end in Component(Free(t) - Cells(p[k..]), q)
    ensures var r := Search(Paint(t, Cells(p[k..]), Wall), end, q);
      Search(t, end, p[k]).found && Search(t, end, p[k]).route == p[k..] + r.route
    decreases |p| - k
  {
    var t1 := Paint(t, {p[k]}, Wall);
    WallFree(t, {p[k]});
    var n := Next(p, k, q);
    var i := Index(p[k], n);
    CellsCons(p[k..]);
    assert p[k..][0] == p[k] && p[k..][1..] == p[k + 1..];
    if k + 1 == |p| {
      assert p[k + 1..] == [];
      CellsOne(p[k..]);
      Through(t, end, p[k], i);
      Joined(p[k..], [], Search(t, end, p[k]).route, Search(Paint(t, Cells(p[k..]), Wall), end, q).route);
    } else {
      assert Free(t1) - Cells(p[k + 1..]) == Free(t) - Cells(p[k..]);
      Straight(t1, end, p, k + 1, q);
      FoundIff(t1, end, p[k + 1]);
      Through(t, end, p[k], i);
      PaintTwice(t, {p[k]}, Cells(p[k + 1..]), Wall);
      Joined(p[k..], Search(t1, end, p[k + 1]).route, Search(t, end, p[k]).route,
             Search(Paint(t, Cells(p[k..]), Wall), end, q).route);
    }
  }

  /**
   * The search from the open tile c, other than the end, where the region of the first tile Around
   * c lies within the closed tiles d without the end, the second tile is not open, and the end can
   * be reached from the third once that region is walled off: it reaches the end through the third.
   */
  lemma Detour(t: map<Cell, int>, t1: map<Cell, int>, t2: map<Cell, int>, end: Cell, c: Cell, ns: seq<Cell>, d: set<Cell>)
    requires c in Free(t) && c != end && t1 == Paint(t, {c}, Wall) && ns == Around(c)
    requires ns[0] in d && Closed(d, Free(t1)) && end !in d && ns[1] !in Free(t1)
    requires t2 == Paint(t1, Component(Free(t1), ns[0]), Wall) && end in Component(Free(t2), ns[2])
    ensures Search(t, end, c).found && Search(t, end, c).route == [c] + Search(t2, end, ns[2]).route
  {
    var k := Component(Free(t1), ns[0]);
    Visit(t, end, c, Tries(t1, end, ns));
    TriesStep(t1, end, ns);
    FailsWithin(t1, end, ns[0], d);
    WallFree(t1, k);
    FoundIff(t2, end, ns[2]);
    var rest := ns[1..];
    assert rest[0] == ns[1] && rest[1..][0] == ns[2];
    TriesStep(t2, end, rest);
    Blocked(t2, end, rest[0]);
    TriesStep(t2, end, rest[1..]);
  }

  /**
   * The search from n, inside closed tiles d that do not hold the end, fails, walling off the
   * region of n.
   */
  lemma FailsWithin(t: map<Cell, int>, end: Cell, n: Cell, d: set<Cell>)
    requires n in d && Closed(d, Free(t)) && end !in d
    ensures var r := Search(t, end, n); !r.found && r.tiles == Paint(t, Component(Free(t), n), Wall)
  {
    ClosedHoldsComponent(d, Free(t), n);
    FoundIff(t, end, n);
    SearchSound(t, end, n);
  }

  /** The first maze of the driver in src/array_maze.cc, row by row: 1 is a wall, 0 an open tile. */
  const MazeOne: seq<seq<int>> := [[0, 0, 0, 0, 0, 0, 0], [0, 0, 1, 0, 0, 1, 0], [0, 0, 1, 0, 1, 1, 0],
                                   [0, 0, 1, 0, 1, 0, 1], [1, 1, 1, 0, 0, 0, 0]]

  /** The second maze of the driver: the first with the tile at (3, 3) a wall. */
  const MazeTwo: seq<seq<int>> := [[0, 0, 0, 0, 0, 0, 0], [0, 0, 1, 0, 0, 1, 0], [0, 0, 1, 0, 1, 1, 0],
                                   [0, 0, 1, 1, 1, 0, 1], [1, 1, 1, 0, 0, 0, 0]]

  /** The tiles of a maze given row by row. */
  function Layout(rows: seq<seq<int>>): (t: map<Cell, int>)
    ensures forall c :: c in t <==> 0 <= c.0 < |rows| && 0 <= c.1 < |rows[c.0]|
    ensures forall c :: c in t ==> t[c] == rows[c.0][c.1]
  {
    map x, y | 0 <= x < |rows| && 0 <= y < |rows[x]| :: (x, y) := rows[x][y]
  }

  /** The first maze's route up to the dead end at (0, 4). */
  const MazeOneHeadRoute: seq<Cell> := [(0, 0), (0, 1), (0, 2), (0, 3)]

  /** The first maze's route after (0, 4), up to the end. */
  const MazeOneTailRoute: seq<Cell> := [(1, 4), (1, 3), (2, 3), (3, 3), (4, 3), (4, 4), (4, 5)]

  /** The route find_path finds through the first maze from (0, 0) to (4, 6): thirteen tiles. */
  const MazeOneRoute: seq<Cell> := MazeOneHeadRoute + ([(0, 4)] + (MazeOneTailRoute + [(4, 6)]))

  /** The path the driver lists as expected for the first maze: eleven tiles. */
  const MazeOneExpected: seq<Cell> := [(0, 0), (0, 1), (0, 2), (0, 3), (1, 3), (2, 3), (3, 3), (4, 3), (4, 4), (4, 5),
                                       (4, 6)]

  /** The tiles of a route of four. */
  lemma CellsFour(a: Cell, b: Cell, c: Cell, d: Cell)
    ensures Cells([a, b, c, d]) == {a, b, c, d}
  {
  }

  /** The tiles of a route of seven. */
  lemma CellsSeven(a: Cell, b: Cell, c: Cell, d: Cell, e: Cell, f: Cell, g: Cell)
    ensures Cells([a, b, c, d, e, f, g]) == {a, b, c, d, e, f, g}
  {
  }

  /** What the first maze holds at the tiles around its route after (0, 4). */
  ghost predicate TailTiles(f: set<Cell>)
  {
    && (1, 4) in f && (1, 3) in f && (2, 3) in f && (3, 3) in f
    && (4, 3) in f && (4, 4) in f && (4, 5) in f && (4, 6) in f
    && (1, 5) !in f && (1, 2) !in f && (2, 4) !in f && (2, 2) !in f && (3, 4) !in f && (3, 2) !in f
  }

  /** The walk of the first maze's route from (1, 4) to the end, with any open tiles f that agree with it. */
  lemma MazeOneTail(f: set<Cell>)
    requires TailTiles(f)
    ensures Walk(f, (4, 6), MazeOneTailRoute, 0, (4, 6))
  {
    var p, e := MazeOneTailRoute, (4, 6);
    var f1 := f - {(1, 4)};
    var f2 := f1 - {(1, 3)};
    var f3 := f2 - {(2, 3)};
    var f4 := f3 - {(3, 3)};
    var f5 := f4 - {(4, 3)};
    var f6 := f5 - {(4, 4)};
    var f7 := f6 - {(4, 5)};
    assert Walk(f7, e, p, 7, e);
    assert Walk(f6, e, p, 6, e);
    assert Walk(f5, e, p, 5, e);
    assert Walk(f4, e, p, 4, e);
    assert Walk(f3, e, p, 3, e);
    assert Walk(f2, e, p, 2, e);
    assert Walk(f1, e, p, 1, e);
  }

  /** The walk of the first maze's route from the start to (0, 4), with any open tiles f holding it. */
  lemma MazeOneHead(f: set<Cell>)
    requires (0, 0) in f && (0, 1) in f && (0, 2) in f && (0, 3) in f
    ensures Walk(f, (4, 6), MazeOneHeadRoute, 0, (0, 4))
  {
    var p, e := MazeOneHeadRoute, (4, 6);
    var f1 := f - {(0, 0)};
    var f2 := f1 - {(0, 1)};
    var f3 := f2 - {(0, 2)};
    assert Walk(f3 - {(0, 3)}, e, p, 4, (0, 4));
    assert Walk(f3, e, p, 3, (0, 4));
    assert Walk(f2, e, p, 2, (0, 4));
    assert Walk(f1, e, p, 1, (0, 4));
  }

  /**
   * The dead end the search of the first maze meets at (0, 4): the tiles right of it, with open
   * tiles f where the tiles around them are not open, are closed.
   */
  lemma MazeOneCorner(f: set<Cell>)
    requires (0, 4) !in f && (1, 5) !in f && (2, 5) !in f && (3, 6) !in f
    requires (-1, 5) !in f && (-1, 6) !in f && (0, 7) !in f && (1, 7) !in f && (2, 7) !in f
    ensures Closed({(0, 5), (0, 6), (1, 6), (2, 6)}, f)
  {
  }

  /** What the first maze holds at the tiles its search looks at. */
  ghost predicate MazeOneTiles(f: set<Cell>)
  {
    && (0, 0) in f && (0, 1) in f && (0, 2) in f && (0, 3) in f && (0, 4) in f
    && TailTiles(f)
    && (2, 5) !in f && (3, 6) !in f
    && (-1, 5) !in f && (-1, 6) !in f && (0, 7) !in f && (1, 7) !in f && (2, 7) !in f
  }

  /** The rows of the first maze, at the tiles MazeOneTiles names. */
  ghost predicate MazeOneRows(rows: seq<seq<int>>)
  {
    && |rows| == 5 && (forall x :: 0 <= x < 5 ==> |rows[x]| == 7)
    && rows[0][0] != Wall && rows[0][1] != Wall && rows[0][2] != Wall && rows[0][3] != Wall && rows[0][4] != Wall
    && rows[1][4] != Wall && rows[1][3] != Wall && rows[2][3] != Wall && rows[3][3] != Wall
    && rows[4][3] != Wall && rows[4][4] != Wall && rows[4][5] != Wall && rows[4][6] != Wall
    && rows[1][5] == Wall && rows[1][2] == Wall && rows[2][4] == Wall && rows[2][2] == Wall
    && rows[3][4] == Wall && rows[3][2] == Wall && rows[2][5] == Wall && rows[3][6] == Wall
  }

  /** Rows like the first maze's lay out the tiles MazeOneTiles names. */
  lemma MazeOneLaidOut(rows: seq<seq<int>>)
    requires MazeOneRows(rows)
    ensures MazeOneTiles(Free(Layout(rows)))
  {
  }

  /** A route split around its fifth tile. */
  lemma Split(a: seq<Cell>, c: Cell, b: seq<Cell>, e: Cell)
    ensures a[0..] + ([c] + (b[0..] + [e])) == a + ([c] + (b + [e]))
  {
  }

  /**
   * Once the route up to (0, 4) is walled, (0, 4) is still open; once it is walled too, the tiles
   * right of it are closed and the rest of the route stays open.
   */
  lemma MazeOneCornered(f0: set<Cell>, fa: set<Cell>, f1: set<Cell>)
    requires MazeOneTiles(f0) && fa == f0 - {(0, 0), (0, 1), (0, 2), (0, 3)} && f1 == fa - {(0, 4)}
    ensures (0, 4) in fa && (0, 3) !in f1 && TailTiles(f1)
    ensures var d := {(0, 5), (0, 6), (1, 6), (2, 6)}; Closed(d, f1) && (0, 5) in d && (4, 6) !in d
  {
    MazeOneCorner(f1);
  }

  /** Walling the tiles reached from (0, 5) leaves the tiles around the rest of the route as they were. */
  lemma MazeOneBeyond(f1: set<Cell>, k: set<Cell>)
    requires TailTiles(f1) && Closed({(0, 5), (0, 6), (1, 6), (2, 6)}, f1) && k == Component(f1, (0, 5))
    ensures TailTiles(f1 - k)
  {
    ClosedHoldsComponent({(0, 5), (0, 6), (1, 6), (2, 6)}, f1, (0, 5));
  }

  /** The tiles around (0, 4), in the order the search tries them. */
  lemma AroundCorner(ns: seq<Cell>)
    requires ns == Around((0, 4))
    ensures ns[0] == (0, 5) && ns[1] == (0, 3) && ns[2] == (1, 4)
  {
  }

  /** The search of the first maze from (1, 4) to the end. */
  lemma MazeOneOnward(t: map<Cell, int>)
    requires TailTiles(Free(t))
    ensures var r := Search(t, (4, 6), (1, 4)); r.found && r.route == MazeOneTailRoute + [(4, 6)]
  {
    var e, b := (4, 6), MazeOneTailRoute;
    MazeOneTail(Free(t));
    CellsSeven((1, 4), (1, 3), (2, 3), (3, 3), (4, 3), (4, 4), (4, 5));
    WallFree(t, Cells(b));
    ReachesSelf(Free(t) - Cells(b), e);
    Straight(t, e, b, 0, e);
    Reached(Paint(t, Cells(b), Wall), e);
    Split([], (0, 4), b, e);
  }

  /** The search of the first maze from (0, 4), once the tiles before it on the route are walls. */
  lemma MazeOneFromCorner(l: map<Cell, int>, ta: map<Cell, int>)
    requires MazeOneTiles(Free(l)) && ta == Paint(l, Cells(MazeOneHeadRoute), Wall)
    ensures var r := Search(ta, (4, 6), (0, 4)); r.found && r.route == [(0, 4)] + (MazeOneTailRoute + [(4, 6)])
  {
    var e, ns := (4, 6), Around((0, 4));
    var t1 := Paint(ta, {(0, 4)}, Wall);
    var d := {(0, 5), (0, 6), (1, 6), (2, 6)};
    AroundCorner(ns);
    var k := Component(Free(t1), ns[0]);
    var t2 := Paint(t1, k, Wall);
    CellsFour((0, 0), (0, 1), (0, 2), (0, 3));
    WallFree(l, Cells(MazeOneHeadRoute));
    WallFree(ta, {(0, 4)});
    MazeOneCornered(Free(l), Free(ta), Free(t1));
    WallFree(t1, k);
    MazeOneBeyond(Free(t1), k);
    MazeOneOnward(t2);
    FoundIff(t2, e, (1, 4));
    Detour(ta, t1, t2, e, (0, 4), ns, d);
  }

  /** The search from (0, 0) through any tiles that agree with the first maze where it looks. */
  lemma MazeOneRoutes(l: map<Cell, int>)
    requires MazeOneTiles(Free(l))
    ensures var r := Search(l, (4, 6), (0, 0)); r.found && r.route == MazeOneRoute
  {
    var e, a := (4, 6), MazeOneHeadRoute;
    var ta := Paint(l, Cells(a), Wall);
    MazeOneFromCorner(l, ta);
    FoundIff(ta, e, (0, 4));
    MazeOneHead(Free(l));
    CellsFour((0, 0), (0, 1), (0, 2), (0, 3));
    WallFree(l, Cells(a));
    Straight(l, e, a, 0, (0, 4));
    Split(a, (0, 4), MazeOneTailRoute, e);
  }

  /**
   * The first maze of the driver: the search from (0, 0) reaches (4, 6), by the thirteen tiles of
   * MazeOneRoute.
   */
  lemma MazeOneSearch()
    ensures var r := Search(Layout(MazeOne), (4, 6), (0, 0)); r.found && r.route == MazeOneRoute
  {
    MazeOneLaidOut(MazeOne);
    MazeOneRoutes(Layout(MazeOne));
  }

  /**
   * The driver's expected path for the first maze differs from what the search returns: the
   * search goes on to (0, 4) before it turns down, so its route is two tiles longer.
   */
  lemma MazeOneExpectedMissed()
    ensures var r := Search(Layout(MazeOne), (4, 6), (0, 0));
      r.found && r.route != MazeOneExpected && |r.route| == |MazeOneExpected| + 2
  {
    MazeOneSearch();
  }

  /** What the second maze holds at its start and around the tiles next to its end. */
  ghost predicate MazeTwoTiles(f: set<Cell>)
  {
    && (0, 0) in f
    && (2, 5) !in f && (3, 4) !in f && (3, 6) !in f && (3, 3) !in f && (4, 2) !in f
    && (5, 3) !in f && (5, 4) !in f && (5, 5) !in f && (5, 6) !in f && (4, 7) !in f
  }

  /** The rows of the second maze, at the tiles MazeTwoTiles names. */
  ghost predicate MazeTwoRows(rows: seq<seq<int>>)
  {
    && |rows| == 5 && (forall x :: 0 <= x < 5 ==> |rows[x]| == 7)
    && rows[0][0] != Wall
    && rows[2][5] == Wall && rows[3][4] == Wall && rows[3][6] == Wall && rows[3][3] == Wall && rows[4][2] == Wall
  }

  /** Rows like the second maze's lay out the tiles MazeTwoTiles names. */
  lemma MazeTwoLaidOut(rows: seq<seq<int>>)
    requires MazeTwoRows(rows)
    ensures MazeTwoTiles(Free(Layout(rows)))
  {
  }

  /** In the second maze the tiles next to the end are walled off from the rest. */
  lemma MazeTwoSealed(f: set<Cell>)
    requires MazeTwoTiles(f)
    ensures var e := {(3, 5), (4, 3), (4, 4), (4, 5), (4, 6)};
      Closed(f - e, f) && (0, 0) in f - e && (4, 6) !in f - e
  {
  }

  /** The second maze of the driver: no route leads from (0, 0) to (4, 6), and the search finds none. */
  lemma MazeTwoSearch()
    ensures (4, 6) !in Component(Free(Layout(MazeTwo)), (0, 0))
    ensures var r := Search(Layout(MazeTwo), (4, 6), (0, 0)); !r.found && r.route == []
  {
    var f := Free(Layout(MazeTwo));
    MazeTwoLaidOut(MazeTwo);
    MazeTwoSealed(f);
    ClosedHoldsComponent(f - {(3, 5), (4, 3), (4, 4), (4, 5), (4, 6)}, f, (0, 0));
    FoundIff(Layout(MazeTwo), (4, 6), (0, 0));
  }

  /** A map holding the tiles of the rows, at the cells of the rows, is their layout. */
  lemma LaidOut(t: map<Cell, int>, rows: seq<seq<int>>)
    requires forall c :: c in t <==> 0 <= c.0 < |rows| && 0 <= c.1 < |rows[c.0]|
    requires forall c :: c in t ==> t[c] == rows[c.0][c.1]
    ensures t == Layout(rows)
  {
  }

  /** A maze laid out in a fresh grid from rows of equal length. */
  method Build(rows: seq<seq<int>>) returns (maze: array2<int>)
    requires |rows| > 0 && forall x :: 0 <= x < |rows| ==> |rows[x]| == |rows[0]|
    ensures fresh(maze) && Tiles(maze) == Layout(rows)
  {
    var n := |rows[0]|;
    maze := new int[|rows|, n]((x: int, y: int) => if 0 <= x < |rows| && 0 <= y < n then rows[x][y] else Empty);
    LaidOut(Tiles(maze), rows);
  }

  /** The search through the tiles of the first maze, whichever grid holds them. */
  lemma MazeOneFound(t: map<Cell, int>)
    requires t == Layout(MazeOne)
    ensures var r := Search(t, (4, 6), (0, 0)); r.found && r.route == MazeOneRoute && r.route != MazeOneExpected
  {
    MazeOneSearch();
    MazeOneExpectedMissed();
  }

  /** The first call of the driver: find_path returns the thirteen tiles of MazeOneRoute. */
  method TestFindPathOne() returns (path: seq<Cell>)
    ensures path == MazeOneRoute && path != MazeOneExpected
  {
    var maze := Build(MazeOne);
    ghost var t := Tiles(maze);
    MazeOneFound(t);
    path := FindPath(maze, (0, 0), (4, 6));
  }

  /** The second call of the driver: find_path returns the empty path, as the driver expects. */
  method TestFindPathTwo() returns (path: seq<Cell>)
    ensures path == []
  {
    var maze := Build(MazeTwo);
    MazeTwoSearch();
    path := FindPath(maze, (0, 0), (4, 6));
  }
}
