/**
 * The city skyline (src/graph_city_skyline.cc): every building gives a left and a right edge;
 * the edges are sorted by x and swept from left to right while a multiset holds the heights of
 * the buildings whose left edge has been seen but not their right edge. A point pair is emitted
 * wherever an edge shows above the height the multiset reports.
 *
 * The std::multiset<int> is kept as an ascending sequence of heights, which is how it iterates.
 */
module Skyline {
  import opened Wrappers

  datatype Building = Building(left: int, right: int, height: int)

  datatype Point = Point(x: int, y: int)

  /** struct Edge; its operator< compares x alone. */
  datatype Edge = Edge(x: int, height: int, isLeft: bool)

  /** The edges in the order find_skyline pushes them: each building's left edge, then its right edge. */
  function EdgesOf(bs: seq<Building>): (es: seq<Edge>)
    ensures |es| == 2 * |bs|
  {
    if bs == [] then []
    else
      var b := bs[|bs| - 1];
      EdgesOf(bs[..|bs| - 1]) + [Edge(b.left, b.height, true), Edge(b.right, b.height, false)]
  }

  /** Building i gives edges 2i and 2i + 1: its left edge, then its right edge, both at its height. */
  lemma {:induction false} EdgesOfBuilding(bs: seq<Building>, i: nat)
    requires i < |bs|
    ensures EdgesOf(bs)[2 * i] == Edge(bs[i].left, bs[i].height, true)
    ensures EdgesOf(bs)[2 * i + 1] == Edge(bs[i].right, bs[i].height, false)
  {
    if i < |bs| - 1 {
      EdgesOfBuilding(bs[..|bs| - 1], i);
    }
  }

  /** The first loop of find_skyline: splits each building into its two edges. */
  method SplitEdges(buildings: seq<Building>) returns (edges: seq<Edge>)
    ensures edges == EdgesOf(buildings)
  {
    edges := [];
    for i := 0 to |buildings|
      invariant edges == EdgesOf(buildings[..i])
    {
      assert buildings[..i + 1][..i] == buildings[..i];
      var b := buildings[i];
      edges := edges + [Edge(b.left, b.height, true), Edge(b.right, b.height, false)];
    }
    assert buildings[..|buildings|] == buildings;
  }

  /** The edges are in ascending x order. */
  ghost predicate SortedByX(es: seq<Edge>)
  {
    forall i, j :: 0 <= i < j < |es| ==> es[i].x <= es[j].x
  }

  /** The first position whose edge lies to the right of x. */
  function After(es: seq<Edge>, x: int): (p: nat)
    ensures p <= |es|
    ensures forall k :: 0 <= k < p ==> es[k].x <= x
    ensures p < |es| ==> es[p].x > x
  {
    if es == [] || es[0].x > x then 0 else 1 + After(es[1..], x)
  }

  /**
   * std::sort of the edges by x: each edge in turn is inserted after the sorted edges whose x is
   * not above its own. The result is sorted and a permutation of the input.
   */
  method SortEdges(edges: seq<Edge>) returns (sorted: seq<Edge>)
    ensures SortedByX(sorted) && multiset(sorted) == multiset(edges)
  {
    sorted := [];
    for i := 0 to |edges|
      invariant SortedByX(sorted) && multiset(sorted) == multiset(edges[..i])
    {
      var e := edges[i];
      var p := After(sorted, e.x);
      InsertEdge(sorted, p, e);
      InsertSorted(sorted, p, e);
      assert multiset(edges[..i + 1]) == multiset(edges[..i]) + multiset{e} by {
        assert edges[..i + 1] == edges[..i] + [e];
      }
      sorted := sorted[..p] + [e] + sorted[p..];
    }
    assert edges[..|edges|] == edges;
  }

  /** Inserting e where After puts it adds e to the edges. */
  lemma InsertEdge(es: seq<Edge>, p: nat, e: Edge)
    requires p <= |es|
    ensures multiset(es[..p] + [e] + es[p..]) == multiset(es) + multiset{e}
  {
    assert es == es[..p] + es[p..];
  }

  /** Inserting e after the edges not right of it and before the rest keeps sorted edges sorted. */
  lemma InsertSorted(es: seq<Edge>, p: nat, e: Edge)
    requires SortedByX(es) && p <= |es|
    requires (forall k :: 0 <= k < p ==> es[k].x <= e.x) && (p < |es| ==> es[p].x > e.x)
    ensures SortedByX(es[..p] + [e] + es[p..])
  {
    var r := es[..p] + [e] + es[p..];
    assert forall k :: 0 <= k < p ==> r[k] == es[k];
    assert forall k :: p < k < |r| ==> r[k] == es[k - 1];
  }

  /** The heights are in ascending order: the iteration order of the multiset. */
  ghost predicate Ascending(ms: seq<int>)
  {
    forall i, j :: 0 <= i < j < |ms| ==> ms[i] <= ms[j]
  }

  /** multiset::upper_bound: the first position whose height is above v. */
  function UpperBound(ms: seq<int>, v: int): (i: nat)
    ensures i <= |ms|
    ensures forall k :: 0 <= k < i ==> ms[k] <= v
    ensures i < |ms| ==> ms[i] > v
  {
    if ms == [] || ms[0] > v then 0 else 1 + UpperBound(ms[1..], v)
  }

  /** multiset::lower_bound: the first position whose height is at least v. */
  function LowerBound(ms: seq<int>, v: int): (i: nat)
    ensures i <= |ms|
    ensures forall k :: 0 <= k < i ==> ms[k] < v
    ensures i < |ms| ==> ms[i] >= v
  {
    if ms == [] || ms[0] >= v then 0 else 1 + LowerBound(ms[1..], v)
  }

  /** multiset::insert: the new height goes after the equal ones. */
  function Insert(ms: seq<int>, h: int): (r: seq<int>)
    ensures multiset(r) == multiset(ms) + multiset{h}
    ensures Ascending(ms) ==> Ascending(r)
  {
    var i := UpperBound(ms, h);
    InsertHeight(ms, i, h);
    InsertAscending(ms, i, h);
    ms[..i] + [h] + ms[i..]
  }

  /** Inserting h at its upper bound adds h to the heights. */
  lemma InsertHeight(ms: seq<int>, i: nat, h: int)
    requires i <= |ms|
    ensures multiset(ms[..i] + [h] + ms[i..]) == multiset(ms) + multiset{h}
  {
    assert ms == ms[..i] + ms[i..];
  }

  /** Inserting h at its upper bound keeps ascending heights ascending. */
  lemma InsertAscending(ms: seq<int>, i: nat, h: int)
    requires i == UpperBound(ms, h)
    ensures Ascending(ms) ==> Ascending(ms[..i] + [h] + ms[i..])
  {
    var r := ms[..i] + [h] + ms[i..];
    if Ascending(ms) {
      forall a, b | 0 <= a < b < |r|
        ensures r[a] <= r[b]
      {
        if b < i {
          assert r[a] == ms[a] && r[b] == ms[b];
        } else if b == i {
          assert r[a] == ms[a];
        } else if a < i {
          assert r[a] == ms[a] && r[b] == ms[b - 1];
        } else if a == i {
          assert r[b] == ms[b - 1];
        } else {
          assert r[a] == ms[a - 1] && r[b] == ms[b - 1];
        }
      }
    }
  }

  /**
   * multiset::erase(multiset::find(h)): one copy of h is removed. When h is not there, find
   * returns end() and erasing it is undefined: None.
   */
  function Erase(ms: seq<int>, h: int): (r: Option<seq<int>>)
    ensures Ascending(ms) ==> (r.Some? <==> h in ms)
    ensures r.Some? ==> h in ms && multiset(r.value) == multiset(ms) - multiset{h}
    ensures r.Some? && Ascending(ms) ==> Ascending(r.value)
  {
    var i := LowerBound(ms, h);
    if i < |ms| && ms[i] == h then
      RemoveHeight(ms, i);
      Some(ms[..i] + ms[i + 1..])
    else
      assert Ascending(ms) ==> h !in ms;
      None
  }

  /** Removing position i takes one copy of its height out and keeps ascending heights ascending. */
  lemma RemoveHeight(ms: seq<int>, i: nat)
    requires i < |ms|
    ensures multiset(ms[..i] + ms[i + 1..]) == multiset(ms) - multiset{ms[i]}
    ensures Ascending(ms) ==> Ascending(ms[..i] + ms[i + 1..])
  {
    assert ms == ms[..i] + [ms[i]] + ms[i + 1..];
    var r := ms[..i] + ms[i + 1..];
    assert forall k :: 0 <= k < |r| ==> r[k] == ms[if k < i then k else k + 1];
  }

  /**
   * The height the sweep compares an edge with: *upper_bound(0), or 0 when there is none. Of an
   * ascending multiset this is its least positive height, or 0 when no height is positive.
   */
  function Reference(ms: seq<int>): (r: int)
    ensures r >= 0
    ensures Ascending(ms) && r == 0 ==> forall y :: y in ms ==> y <= 0
    ensures Ascending(ms) && r > 0 ==> r in ms && forall y :: y in ms && y > 0 ==> r <= y
  {
    var i := UpperBound(ms, 0);
    if i < |ms| then ms[i] else 0
  }

  /**
   * The largest height in progress, or 0 when there is none: *rbegin() of the multiset, which is
   * the height the sweep means to compare an edge with.
   */
  function Tallest(ms: seq<int>): (r: int)
    ensures Ascending(ms) && ms != [] ==> r in ms && forall y :: y in ms ==> y <= r
  {
    if ms == [] then 0 else ms[|ms| - 1]
  }

  /** The height an edge is compared with: as written (Reference), or corrected (Tallest). */
  function Level(ms: seq<int>, corrected: bool): int
  {
    if corrected then Tallest(ms) else Reference(ms)
  }

  /** The state of the sweep: the heights in progress and the points emitted so far. */
  datatype Sky = Sky(inProgress: seq<int>, points: seq<Point>)

  /**
   * One edge of the sweep. A left edge is compared with the reference height before its own
   * height goes in and emits (x, reference), (x, height) when it shows above it; a right edge
   * takes one copy of its height out, is compared with the reference height after that, and
   * emits (x, height), (x, reference) when it shows above it. None: the right edge's height was
   * not in progress.
   */
  function Step(st: Sky, e: Edge, corrected: bool): Option<Sky>
  {
    if e.isLeft then
      var ref := Level(st.inProgress, corrected);
      Some(Sky(Insert(st.inProgress, e.height),
               if e.height > ref then st.points + [Point(e.x, ref), Point(e.x, e.height)] else st.points))
    else
      match Erase(st.inProgress, e.height)
      case None => None
      case Some(ms) =>
        var ref := Level(ms, corrected);
        Some(Sky(ms, if e.height > ref then st.points + [Point(e.x, e.height), Point(e.x, ref)] else st.points))
  }

  /** The sweep over the edges es, in their order. */
  function Sweep(es: seq<Edge>, corrected: bool): Option<Sky>
  {
    if es == [] then Some(Sky([], []))
    else
      match Sweep(es[..|es| - 1], corrected)
      case None => None
      case Some(st) => Step(st, es[|es| - 1], corrected)
  }

  /** The body of the sweep loop: one edge, as Step describes it; stuck when it erases end(). */
  method SweepEdge(inProgress: seq<int>, pts: seq<Point>, e: Edge)
    returns (stuck: bool, inProgress': seq<int>, pts': seq<Point>)
    ensures Step(Sky(inProgress, pts), e, false) == if stuck then None else Some(Sky(inProgress', pts'))
  {
    stuck, inProgress', pts' := false, inProgress, pts;
    if e.isLeft {
      var ref := Reference(inProgress);
      inProgress' := Insert(inProgress, e.height);
      if e.height > ref {
        pts' := pts + [Point(e.x, ref), Point(e.x, e.height)];
      }
    } else {
      var erased := Erase(inProgress, e.height);
      if erased.None? {
        stuck := true;
        return;
      }
      inProgress' := erased.value;
      var ref := Reference(inProgress');
      if e.height > ref {
        pts' := pts + [Point(e.x, e.height), Point(e.x, ref)];
      }
    }
  }

  /** Once the sweep is stuck on a prefix it is stuck on every longer prefix. */
  lemma {:induction false} SweepStuck(es: seq<Edge>, i: nat, corrected: bool)
    requires i <= |es| && Sweep(es[..i], corrected).None?
    ensures Sweep(es, corrected).None?
    decreases |es| - i
  {
    if i < |es| {
      assert es[..i + 1][..i] == es[..i];
      SweepStuck(es, i + 1, corrected);
    } else {
      assert es[..i] == es;
    }
  }

  /** The heights of the left edges of es (left) or of its right edges (!left). */
  function Heights(es: seq<Edge>, left: bool): multiset<int>
  {
    if es == [] then multiset{}
    else Heights(es[..|es| - 1], left) + if es[|es| - 1].isLeft == left then multiset{es[|es| - 1].height} else multiset{}
  }

  /**
   * What the sweep holds in progress: the heights of the left edges it has passed, less one copy
   * per right edge, in ascending order.
   */
  lemma {:induction false} SweepTracks(es: seq<Edge>, corrected: bool)
    requires Sweep(es, corrected).Some?
    ensures Ascending(Sweep(es, corrected).value.inProgress)
    ensures multiset(Sweep(es, corrected).value.inProgress) + Heights(es, false) == Heights(es, true)
  {
    if es != [] {
      var pre, e := es[..|es| - 1], es[|es| - 1];
      SweepTracks(pre, corrected);
      StepTracks(Sweep(pre, corrected).value, e, corrected);
    }
  }

  /** One step keeps the heights ascending, adds a left edge's height and removes a right edge's. */
  lemma StepTracks(st: Sky, e: Edge, corrected: bool)
    requires Ascending(st.inProgress) && Step(st, e, corrected).Some?
    ensures Ascending(Step(st, e, corrected).value.inProgress)
    ensures e.isLeft ==> multiset(Step(st, e, corrected).value.inProgress) == multiset(st.inProgress) + multiset{e.height}
    ensures !e.isLeft ==> multiset(Step(st, e, corrected).value.inProgress) + multiset{e.height} == multiset(st.inProgress)
  {
  }

  /** The number of edges of es on the given side, at height h, whose x is at most bound. */
  function Count(es: seq<Edge>, left: bool, h: int, bound: int): nat
  {
    if es == [] then 0
    else
      var e := es[|es| - 1];
      Count(es[..|es| - 1], left, h, bound) + if e.isLeft == left && e.height == h && e.x <= bound then 1 else 0
  }

  /** Counting is additive over concatenation. */
  lemma {:induction false} CountConcat(a: seq<Edge>, b: seq<Edge>, left: bool, h: int, bound: int)
    ensures Count(a + b, left, h, bound) == Count(a, left, h, bound) + Count(b, left, h, bound)
  {
    if b != [] {
      CountConcat(a, b[..|b| - 1], left, h, bound);
      assert (a + b)[..|a + b| - 1] == a + b[..|b| - 1];
    } else {
      assert a + b == a;
    }
  }

  /** The heights are additive over concatenation. */
  lemma {:induction false} HeightsConcat(a: seq<Edge>, b: seq<Edge>, left: bool)
    ensures Heights(a + b, left) == Heights(a, left) + Heights(b, left)
  {
    if b != [] {
      HeightsConcat(a, b[..|b| - 1], left);
      assert (a + b)[..|a + b| - 1] == a + b[..|b| - 1];
    } else {
      assert a + b == a;
    }
  }

  /** The count of a permutation is the same: it depends on the edges, not on their order. */
  lemma {:induction false} CountPerm(a: seq<Edge>, b: seq<Edge>, left: bool, h: int, bound: int)
    requires multiset(a) == multiset(b)
    ensures Count(a, left, h, bound) == Count(b, left, h, bound)
    decreases |a|
  {
    if a == [] {
      assert |multiset(b)| == 0;
    } else {
      var j := RemoveLast(a, b);
      RemoveCount(b, j, left, h, bound);
      CountPerm(a[..|a| - 1], b[..j] + b[j + 1..], left, h, bound);
    }
  }

  /** The heights of a permutation are the same. */
  lemma {:induction false} HeightsPerm(a: seq<Edge>, b: seq<Edge>, left: bool)
    requires multiset(a) == multiset(b)
    ensures Heights(a, left) == Heights(b, left)
    decreases |a|
  {
    if a == [] {
      assert |multiset(b)| == 0;
    } else {
      var j := RemoveLast(a, b);
      RemoveHeights(b, j, left);
      HeightsPerm(a[..|a| - 1], b[..j] + b[j + 1..], left);
    }
  }

  /** The last edge of a is somewhere in its permutation b; without it, the two are still permutations. */
  lemma RemoveLast(a: seq<Edge>, b: seq<Edge>) returns (j: nat)
    requires multiset(a) == multiset(b) && a != []
    ensures j < |b| && b[j] == a[|a| - 1]
    ensures multiset(a[..|a| - 1]) == multiset(b[..j] + b[j + 1..])
  {
    var x := a[|a| - 1];
    assert x in multiset(b);
    j :| 0 <= j < |b| && b[j] == x;
    assert a == a[..|a| - 1] + [x];
    assert b == b[..j] + [x] + b[j + 1..];
    assert multiset(a[..|a| - 1]) == multiset(a) - multiset{x};
    assert multiset(b[..j] + b[j + 1..]) == multiset(b) - multiset{x};
  }

  /** Taking edge j out of b takes it out of the count. */
  lemma RemoveCount(b: seq<Edge>, j: nat, left: bool, h: int, bound: int)
    requires j < |b|
    ensures Count(b, left, h, bound)
            == Count(b[..j] + b[j + 1..], left, h, bound) + if b[j].isLeft == left && b[j].height == h && b[j].x <= bound then 1 else 0
  {
    assert b == b[..j] + [b[j]] + b[j + 1..];
    assert [b[j]][..0] == [];
    CountConcat(b[..j] + [b[j]], b[j + 1..], left, h, bound);
    CountConcat(b[..j], [b[j]], left, h, bound);
    CountConcat(b[..j], b[j + 1..], left, h, bound);
  }

  /** Taking edge j out of b takes it out of the heights. */
  lemma RemoveHeights(b: seq<Edge>, j: nat, left: bool)
    requires j < |b|
    ensures Heights(b, left) == Heights(b[..j] + b[j + 1..], left) + if b[j].isLeft == left then multiset{b[j].height} else multiset{}
  {
    assert b == b[..j] + [b[j]] + b[j + 1..];
    assert [b[j]][..0] == [];
    HeightsConcat(b[..j] + [b[j]], b[j + 1..], left);
    HeightsConcat(b[..j], [b[j]], left);
    HeightsConcat(b[..j], b[j + 1..], left);
  }

  /** The count and the heights of the two edges of one building. */
  lemma Pair(b: Building, left: bool, h: int, bound: int)
    ensures Count([Edge(b.left, b.height, true), Edge(b.right, b.height, false)], left, h, bound)
            == if b.height == h && (if left then b.left else b.right) <= bound then 1 else 0
    ensures Heights([Edge(b.left, b.height, true), Edge(b.right, b.height, false)], left) == multiset{b.height}
  {
    var l, r := Edge(b.left, b.height, true), Edge(b.right, b.height, false);
    CountConcat([l], [r], left, h, bound);
    HeightsConcat([l], [r], left);
    assert [l] + [r] == [l, r];
    assert [l][..0] == [] && [r][..0] == [];
  }

  /** The count is at most the number of such heights. */
  lemma {:induction false} CountAtMost(es: seq<Edge>, left: bool, h: int, bound: int)
    ensures Count(es, left, h, bound) <= Heights(es, left)[h]
  {
    if es != [] {
      CountAtMost(es[..|es| - 1], left, h, bound);
    }
  }

  /** When no x is above bound, every such height counts. */
  lemma {:induction false} CountAll(es: seq<Edge>, left: bool, h: int, bound: int)
    requires forall k :: 0 <= k < |es| ==> es[k].x <= bound
    ensures Count(es, left, h, bound) == Heights(es, left)[h]
  {
    if es != [] {
      CountAll(es[..|es| - 1], left, h, bound);
    }
  }

  /** No edge counts when every x is above bound. */
  lemma {:induction false} CountNone(es: seq<Edge>, left: bool, h: int, bound: int)
    requires forall k :: 0 <= k < |es| ==> es[k].x > bound
    ensures Count(es, left, h, bound) == 0
  {
    if es != [] {
      CountNone(es[..|es| - 1], left, h, bound);
    }
  }

  /** Every building's left edge lies strictly left of its right edge. */
  ghost predicate Balanced(bs: seq<Building>)
  {
    forall i :: 0 <= i < |bs| ==> bs[i].left < bs[i].right
  }

  /**
   * Of balanced buildings, the right edges at height h up to x are no more than the left edges at
   * height h strictly before x: each such right edge's building has its left edge there.
   */
  lemma {:induction false} CountBalanced(bs: seq<Building>, h: int, x: int)
    requires Balanced(bs)
    ensures Count(EdgesOf(bs), false, h, x) <= Count(EdgesOf(bs), true, h, x - 1)
  {
    if bs != [] {
      var b := bs[|bs| - 1];
      var pair := [Edge(b.left, b.height, true), Edge(b.right, b.height, false)];
      assert EdgesOf(bs) == EdgesOf(bs[..|bs| - 1]) + pair;
      assert b.left < b.right;
      CountBalanced(bs[..|bs| - 1], h, x);
      CountConcat(EdgesOf(bs[..|bs| - 1]), pair, false, h, x);
      CountConcat(EdgesOf(bs[..|bs| - 1]), pair, true, h, x - 1);
      Pair(b, false, h, x);
      Pair(b, true, h, x - 1);
    }
  }

  /** Every building gives one left and one right edge at its height. */
  lemma {:induction false} HeightsMatch(bs: seq<Building>)
    ensures Heights(EdgesOf(bs), true) == Heights(EdgesOf(bs), false)
  {
    if bs != [] {
      var b := bs[|bs| - 1];
      var pair := [Edge(b.left, b.height, true), Edge(b.right, b.height, false)];
      assert EdgesOf(bs) == EdgesOf(bs[..|bs| - 1]) + pair;
      HeightsMatch(bs[..|bs| - 1]);
      HeightsConcat(EdgesOf(bs[..|bs| - 1]), pair, true);
      HeightsConcat(EdgesOf(bs[..|bs| - 1]), pair, false);
      Pair(b, false, 0, 0);
      Pair(b, true, 0, 0);
    }
  }

  /** The right edges at height h up to es[k], es[k] included, all lie at or left of es[k].x. */
  lemma RightsUpTo(es: seq<Edge>, k: nat)
    requires k < |es| && !es[k].isLeft
    requires forall j :: 0 <= j < k ==> es[j].x <= es[k].x
    ensures Heights(es[..k], false)[es[k].height] + 1 <= Count(es, false, es[k].height, es[k].x)
  {
    var h, x := es[k].height, es[k].x;
    assert es[..k + 1][..k] == es[..k];
    CountAll(es[..k + 1], false, h, x);
    assert es == es[..k + 1] + es[k + 1..];
    CountConcat(es[..k + 1], es[k + 1..], false, h, x);
  }

  /** The left edges at height h strictly left of es[k].x all come before es[k]. */
  lemma LeftsBefore(es: seq<Edge>, k: nat)
    requires k < |es|
    requires forall j :: k <= j < |es| ==> es[j].x >= es[k].x
    ensures Count(es, true, es[k].height, es[k].x - 1) <= Heights(es[..k], true)[es[k].height]
  {
    var h, x := es[k].height, es[k].x;
    assert es == es[..k] + es[k..];
    CountConcat(es[..k], es[k..], true, h, x - 1);
    CountNone(es[k..], true, h, x - 1);
    CountAtMost(es[..k], true, h, x - 1);
  }

  /**
   * Of any permutation of balanced buildings' edges, the right edges at height h up to x are no
   * more than the left edges at height h strictly before x.
   */
  lemma PermBalanced(bs: seq<Building>, es: seq<Edge>, h: int, x: int)
    requires Balanced(bs) && multiset(es) == multiset(EdgesOf(bs))
    ensures Count(es, false, h, x) <= Count(es, true, h, x - 1)
  {
    CountPerm(es, EdgesOf(bs), false, h, x);
    CountPerm(es, EdgesOf(bs), true, h, x - 1);
    CountBalanced(bs, h, x);
  }

  /**
   * Before a right edge es[k] of balanced, x-sorted edges, more left edges than right edges at
   * its height have gone by.
   */
  lemma RightsBehindLefts(bs: seq<Building>, es: seq<Edge>, k: nat)
    requires Balanced(bs) && SortedByX(es) && multiset(es) == multiset(EdgesOf(bs))
    requires k < |es| && !es[k].isLeft
    ensures Heights(es[..k], false)[es[k].height] + 1 <= Heights(es[..k], true)[es[k].height]
  {
    PermBalanced(bs, es, es[k].height, es[k].x);
    RightsUpTo(es, k);
    LeftsBefore(es, k);
  }

  /** The height of a right edge is in progress when a sweep of balanced, x-sorted edges reaches it. */
  lemma RightInProgress(bs: seq<Building>, es: seq<Edge>, k: nat, corrected: bool)
    requires Balanced(bs) && SortedByX(es) && multiset(es) == multiset(EdgesOf(bs))
    requires k < |es| && !es[k].isLeft && Sweep(es[..k], corrected).Some?
    ensures es[k].height in Sweep(es[..k], corrected).value.inProgress
  {
    var h := es[k].height;
    var ms := Sweep(es[..k], corrected).value.inProgress;
    RightsBehindLefts(bs, es, k);
    SweepTracks(es[..k], corrected);
    assert multiset(ms)[h] + Heights(es[..k], false)[h] == Heights(es[..k], true)[h];
  }

  /** A sweep of balanced, x-sorted edges gets through every prefix. */
  lemma {:induction false} SweepPrefix(bs: seq<Building>, es: seq<Edge>, k: nat, corrected: bool)
    requires Balanced(bs) && SortedByX(es) && multiset(es) == multiset(EdgesOf(bs)) && k <= |es|
    ensures Sweep(es[..k], corrected).Some?
  {
    if k > 0 {
      SweepPrefix(bs, es, k - 1, corrected);
      assert es[..k][..k - 1] == es[..k - 1];
      if !es[k - 1].isLeft {
        RightInProgress(bs, es, k - 1, corrected);
        SweepTracks(es[..k - 1], corrected);
      }
    }
  }

  /**
   * When every building's left edge lies left of its right edge, the sweep of any x-sorted
   * permutation of their edges never erases a height that is not in progress, and it ends with
   * nothing in progress.
   */
  lemma SweepBalanced(bs: seq<Building>, es: seq<Edge>, corrected: bool)
    requires Balanced(bs) && SortedByX(es) && multiset(es) == multiset(EdgesOf(bs))
    ensures Sweep(es, corrected).Some? && Sweep(es, corrected).value.inProgress == []
  {
    SweepPrefix(bs, es, |es|, corrected);
    assert es[..|es|] == es;
    SweepTracks(es, corrected);
    HeightsPerm(es, EdgesOf(bs), true);
    HeightsPerm(es, EdgesOf(bs), false);
    HeightsMatch(bs);
    var ms := Sweep(es, corrected).value.inProgress;
    assert multiset(ms) == multiset{};
    assert |multiset(ms)| == |ms|;
  }

  /** The points come in pairs, each a vertical step: two points at one x with different heights. */
  ghost predicate Paired(ps: seq<Point>)
  {
    |ps| % 2 == 0 && forall k :: 0 <= k < |ps| / 2 ==> ps[2 * k].x == ps[2 * k + 1].x && ps[2 * k].y != ps[2 * k + 1].y
  }

  /** The points are in ascending x order, none of them right of x. */
  ghost predicate AscendingUpTo(ps: seq<Point>, x: int)
  {
    (forall i, j :: 0 <= i < j < |ps| ==> ps[i].x <= ps[j].x) && forall i :: 0 <= i < |ps| ==> ps[i].x <= x
  }

  /** Appending one more step keeps the points paired. */
  lemma PairedAppend(ps: seq<Point>, x: int, y1: int, y2: int)
    requires Paired(ps) && y1 != y2
    ensures Paired(ps + [Point(x, y1), Point(x, y2)])
  {
    var r := ps + [Point(x, y1), Point(x, y2)];
    forall k | 0 <= k < |r| / 2
      ensures r[2 * k].x == r[2 * k + 1].x && r[2 * k].y != r[2 * k + 1].y
    {
      if k < |ps| / 2 {
        assert r[2 * k] == ps[2 * k] && r[2 * k + 1] == ps[2 * k + 1];
      }
    }
  }

  /** Appending a step at x' no left of the points keeps them in ascending x order. */
  lemma AscendingAppend(ps: seq<Point>, x: int, x': int, y1: int, y2: int)
    requires AscendingUpTo(ps, x) && x <= x'
    ensures AscendingUpTo(ps + [Point(x', y1), Point(x', y2)], x')
  {
  }

  /** One edge keeps the points paired, and in ascending x order when it lies right of them. */
  lemma StepPoints(st: Sky, e: Edge, corrected: bool, x: int)
    requires Paired(st.points) && Step(st, e, corrected).Some?
    ensures Paired(Step(st, e, corrected).value.points)
    ensures AscendingUpTo(st.points, x) && x <= e.x ==> AscendingUpTo(Step(st, e, corrected).value.points, e.x)
  {
    var ps := st.points;
    var ps' := Step(st, e, corrected).value.points;
    if ps' != ps {
      var y1, y2;
      if e.isLeft {
        y1, y2 := Level(st.inProgress, corrected), e.height;
      } else {
        y1, y2 := e.height, Level(Erase(st.inProgress, e.height).value, corrected);
      }
      assert ps' == ps + [Point(e.x, y1), Point(e.x, y2)];
      PairedAppend(ps, e.x, y1, y2);
      if AscendingUpTo(ps, x) && x <= e.x {
        AscendingAppend(ps, x, e.x, y1, y2);
      }
    }
  }

  /**
   * Every point pair the sweep emits is a vertical step at the x of an edge; over x-sorted edges
   * the points are in ascending x order, none right of the last edge.
   */
  lemma {:induction false} SweepPoints(es: seq<Edge>, corrected: bool)
    requires Sweep(es, corrected).Some?
    ensures Paired(Sweep(es, corrected).value.points)
    ensures es != [] && SortedByX(es) ==> AscendingUpTo(Sweep(es, corrected).value.points, es[|es| - 1].x)
  {
    if es != [] {
      var pre := es[..|es| - 1];
      var e := es[|es| - 1];
      SweepPoints(pre, corrected);
      var st := Sweep(pre, corrected).value;
      assert Sweep(es, corrected) == Step(st, e, corrected);
      var x := if pre == [] then e.x else pre[|pre| - 1].x;
      if SortedByX(es) {
        assert SortedByX(pre);
        assert x <= e.x;
      }
      StepPoints(st, e, corrected, x);
    }
  }

  /**
   * With the corrected level, a left edge adds a step exactly when it stands above every height
   * in progress (above the ground when there is none).
   */
  lemma LeftVisible(st: Sky, e: Edge)
    requires Ascending(st.inProgress) && e.isLeft
    ensures Step(st, e, true).Some?
    ensures Step(st, e, true).value.points != st.points
            <==> (forall y :: y in st.inProgress ==> e.height > y) && (st.inProgress == [] ==> e.height > 0)
  {
  }

  /**
   * With the corrected level, a right edge whose height is in progress adds a step exactly when it
   * stands above every height left in progress once it is taken out.
   */
  lemma RightVisible(st: Sky, e: Edge)
    requires Ascending(st.inProgress) && !e.isLeft && e.height in st.inProgress
    ensures Step(st, e, true).Some?
    ensures var ms := Step(st, e, true).value.inProgress;
            Step(st, e, true).value.points != st.points
            <==> (forall y :: y in ms ==> e.height > y) && (ms == [] ==> e.height > 0)
  {
  }

  /**
   * A left edge of height 7 reached while heights 5 and 10 are in progress lies behind the
   * building of height 10, yet as written it is compared with 5 and emits a step; the corrected
   * level emits nothing.
   */
  lemma HiddenCounterexample()
    ensures Step(Sky([5, 10], []), Edge(2, 7, true), false) == Some(Sky([5, 7, 10], [Point(2, 5), Point(2, 7)]))
    ensures Step(Sky([5, 10], []), Edge(2, 7, true), true) == Some(Sky([5, 7, 10], []))
  {
    assert UpperBound([5, 10], 0) == 0 && Level([5, 10], false) == 5 && Level([5, 10], true) == 10;
    assert [5, 10][1..] == [10] && UpperBound([10], 7) == 0;
    assert UpperBound([5, 10], 7) == 1 && [5, 10][..1] + [7] + [5, 10][1..] == [5, 7, 10];
    assert Insert([5, 10], 7) == [5, 7, 10];
    assert [] + [Point(2, 5), Point(2, 7)] == [Point(2, 5), Point(2, 7)];
  }

  /** The x coordinates of the edges are pairwise distinct. */
  ghost predicate DistinctX(es: seq<Edge>)
  {
    forall i, j :: 0 <= i < j < |es| ==> es[i].x != es[j].x
  }

  /**
   * When no two edges share an x, there is one x-sorted order of them: every sorted permutation
   * is the same sequence, whatever order std::sort leaves ties in.
   */
  lemma {:induction false} SortedUnique(a: seq<Edge>, b: seq<Edge>)
    requires SortedByX(a) && SortedByX(b) && multiset(a) == multiset(b) && DistinctX(a)
    ensures a == b
  {
    if a != [] {
      SameLast(a, b);
      DropLast(a, b);
      var a', b' := a[..|a| - 1], b[..|b| - 1];
      assert SortedByX(a') && SortedByX(b') && DistinctX(a');
      SortedUnique(a', b');
      assert a == a' + [a[|a| - 1]] && b == b' + [b[|b| - 1]];
    }
  }

  /** Two permutations that end with the same element are permutations without it. */
  lemma DropLast(a: seq<Edge>, b: seq<Edge>)
    requires multiset(a) == multiset(b) && a != [] && |b| == |a| && b[|b| - 1] == a[|a| - 1]
    ensures multiset(a[..|a| - 1]) == multiset(b[..|b| - 1])
  {
    var a', b' := a[..|a| - 1], b[..|b| - 1];
    assert a == a' + [a[|a| - 1]] && b == b' + [b[|b| - 1]];
    assert multiset(a') == multiset(a) - multiset{a[|a| - 1]};
    assert multiset(b') == multiset(b) - multiset{a[|a| - 1]};
  }

  /** Two x-sorted permutations of edges with distinct x end with the same edge. */
  lemma SameLast(a: seq<Edge>, b: seq<Edge>)
    requires SortedByX(a) && SortedByX(b) && multiset(a) == multiset(b) && DistinctX(a) && a != []
    ensures |b| == |a| && b[|b| - 1] == a[|a| - 1]
  {
    assert |a| == |multiset(a)| == |b|;
    var m, y := a[|a| - 1], b[|b| - 1];
    assert y in multiset(a) && m in multiset(b);
    var i :| 0 <= i < |a| && a[i] == y;
    var j :| 0 <= j < |b| && b[j] == m;
    assert m.x <= y.x;
    assert i == |a| - 1;
  }

  /** One more edge of the sweep is one more Step. */
  lemma SweepNext(es: seq<Edge>, k: nat, corrected: bool, st: Sky)
    requires k < |es| && Sweep(es[..k], corrected) == Some(st)
    ensures Sweep(es[..k + 1], corrected) == Step(st, es[k], corrected)
  {
    assert es[..k + 1][..k] == es[..k];
  }

  /** Sweeping one more edge is one more Step. */
  lemma SweepSnoc(es: seq<Edge>, e: Edge, corrected: bool, st: Sky)
    requires Sweep(es, corrected) == Some(st)
    ensures Sweep(es + [e], corrected) == Step(st, e, corrected)
  {
    assert (es + [e])[..|es|] == es;
  }

  /** The level of no height is 0, and of one positive height that height, either way it is read. */
  lemma LevelOne(h: int, corrected: bool)
    requires h > 0
    ensures Level([], corrected) == 0 && Level([h], corrected) == h
  {
    assert UpperBound([h], 0) == 0;
  }

  /** Inserting into no height or one height. */
  lemma InsertOne(a: int, h: int)
    ensures Insert([], h) == [h]
    ensures Insert([a], h) == if a <= h then [a, h] else [h, a]
  {
    assert [a][1..] == [];
  }

  /** Erasing the one height there is. */
  lemma EraseOne(a: int)
    ensures Erase([a], a) == Some([])
  {
    assert LowerBound([a], a) == 0;
    assert [a][..0] + [a][1..] == [];
  }

  /** Erasing either of two distinct heights. */
  lemma EraseTwo(a: int, b: int)
    requires a < b
    ensures Erase([a, b], a) == Some([b]) && Erase([a, b], b) == Some([a])
  {
    assert LowerBound([a, b], a) == 0;
    assert [a, b][..0] + [a, b][1..] == [b];
    assert [a, b][1..] == [b] && LowerBound([b], b) == 0;
    assert LowerBound([a, b], b) == 1;
    assert [a, b][..1] + [a, b][2..] == [a];
  }

  /** The buildings of the test case. */
  function TestBuildings(): seq<Building>
  {
    [Building(2, 6, 5), Building(4, 10, 10), Building(8, 12, 3), Building(15, 20, 10),
     Building(16, 18, 5), Building(25, 30, 5), Building(26, 27, 10), Building(28, 29, 15)]
  }

  /** Their edges in ascending x order. */
  function TestEdges(): seq<Edge>
  {
    [Edge(2, 5, true), Edge(4, 10, true), Edge(6, 5, false), Edge(8, 3, true),
     Edge(10, 10, false), Edge(12, 3, false), Edge(15, 10, true), Edge(16, 5, true),
     Edge(18, 5, false), Edge(20, 10, false), Edge(25, 5, true), Edge(26, 10, true),
     Edge(27, 10, false), Edge(28, 15, true), Edge(29, 15, false), Edge(30, 5, false)]
  }

  /** The skyline the test case expects. */
  function TestPoints(): seq<Point>
  {
    [Point(2, 0), Point(2, 5), Point(4, 5), Point(4, 10), Point(10, 10), Point(10, 3),
     Point(12, 3), Point(12, 0), Point(15, 0), Point(15, 10), Point(20, 10), Point(20, 0),
     Point(25, 0), Point(25, 5), Point(26, 5), Point(26, 10), Point(27, 10), Point(27, 5),
     Point(28, 5), Point(28, 15), Point(29, 15), Point(29, 5), Point(30, 5), Point(30, 0)]
  }

  /** The test buildings' edges in the order find_skyline pushes them. */
  lemma TestEdgesOf()
    ensures EdgesOf(TestBuildings()) ==
      [Edge(2, 5, true), Edge(6, 5, false), Edge(4, 10, true), Edge(10, 10, false),
       Edge(8, 3, true), Edge(12, 3, false), Edge(15, 10, true), Edge(20, 10, false),
       Edge(16, 5, true), Edge(18, 5, false), Edge(25, 5, true), Edge(30, 5, false),
       Edge(26, 10, true), Edge(27, 10, false), Edge(28, 15, true), Edge(29, 15, false)]
  {
    var bs := TestBuildings();
    EdgesOfBuilding(bs, 0); EdgesOfBuilding(bs, 1); EdgesOfBuilding(bs, 2); EdgesOfBuilding(bs, 3);
    EdgesOfBuilding(bs, 4); EdgesOfBuilding(bs, 5); EdgesOfBuilding(bs, 6); EdgesOfBuilding(bs, 7);
  }

  /** The multiset of the test buildings' edges. */
  lemma TestPushed()
    ensures multiset(EdgesOf(TestBuildings())) == multiset{
       Edge(2, 5, true), Edge(6, 5, false), Edge(4, 10, true), Edge(10, 10, false),
       Edge(8, 3, true), Edge(12, 3, false), Edge(15, 10, true), Edge(20, 10, false),
       Edge(16, 5, true), Edge(18, 5, false), Edge(25, 5, true), Edge(30, 5, false),
       Edge(26, 10, true), Edge(27, 10, false), Edge(28, 15, true), Edge(29, 15, false)}
  {
    TestEdgesOf();
  }

  /** The multiset of the test edges in x order. */
  lemma TestOrdered()
    ensures multiset(TestEdges()) == multiset{
       Edge(2, 5, true), Edge(4, 10, true), Edge(6, 5, false), Edge(8, 3, true),
       Edge(10, 10, false), Edge(12, 3, false), Edge(15, 10, true), Edge(16, 5, true),
       Edge(18, 5, false), Edge(20, 10, false), Edge(25, 5, true), Edge(26, 10, true),
       Edge(27, 10, false), Edge(28, 15, true), Edge(29, 15, false), Edge(30, 5, false)}
  {
  }

  /** Both orders hold the same sixteen edges. */
  lemma TestReordered()
    ensures multiset{
       Edge(2, 5, true), Edge(4, 10, true), Edge(6, 5, false), Edge(8, 3, true),
       Edge(10, 10, false), Edge(12, 3, false), Edge(15, 10, true), Edge(16, 5, true),
       Edge(18, 5, false), Edge(20, 10, false), Edge(25, 5, true), Edge(26, 10, true),
       Edge(27, 10, false), Edge(28, 15, true), Edge(29, 15, false), Edge(30, 5, false)}
         == multiset{
       Edge(2, 5, true), Edge(6, 5, false), Edge(4, 10, true), Edge(10, 10, false),
       Edge(8, 3, true), Edge(12, 3, false), Edge(15, 10, true), Edge(20, 10, false),
       Edge(16, 5, true), Edge(18, 5, false), Edge(25, 5, true), Edge(30, 5, false),
       Edge(26, 10, true), Edge(27, 10, false), Edge(28, 15, true), Edge(29, 15, false)}
  {
  }

  /** The test edges are a permutation of the buildings' edges. */
  lemma TestPermutation()
    ensures multiset(TestEdges()) == multiset(EdgesOf(TestBuildings()))
  {
    TestPushed();
    TestOrdered();
    TestReordered();
  }

  /** Edges whose x rises from each one to the next are sorted by x, with no x twice. */
  lemma {:induction false} Ascend(es: seq<Edge>)
    requires forall k :: 0 <= k < |es| - 1 ==> es[k].x < es[k + 1].x
    ensures SortedByX(es) && DistinctX(es)
    ensures forall i, j :: 0 <= i < j < |es| ==> es[i].x < es[j].x
  {
    if |es| > 1 {
      var pre := es[..|es| - 1];
      assert forall k :: 0 <= k < |pre| - 1 ==> pre[k].x < pre[k + 1].x;
      Ascend(pre);
      forall i, j | 0 <= i < j < |es|
        ensures es[i].x < es[j].x
      {
        if j < |es| - 1 {
          assert es[i] == pre[i] && es[j] == pre[j];
        } else if i < j - 1 {
          assert es[i] == pre[i] && es[j - 1] == pre[j - 1];
        }
      }
    }
  }

  /** The test edges are in strictly ascending x order. */
  lemma TestOrder()
    ensures SortedByX(TestEdges()) && DistinctX(TestEdges())
  {
    var es := TestEdges();
    assert forall k :: 0 <= k < |es| - 1 ==> es[k].x < es[k + 1].x;
    Ascend(es);
  }

  /** Edge 1 of the test case extends the prefix of edges and its points the prefix of points. */
  lemma TestSlice1()
    ensures TestEdges()[..0] + [Edge(2, 5, true)] == TestEdges()[..1]
    ensures TestPoints()[..0] + [Point(2, 0), Point(2, 5)] == TestPoints()[..2]
  {
  }

  /** The sweep of the first 1 test edge: the heights in progress and the points emitted. */
  lemma TestSweep1(corrected: bool)
    ensures Sweep(TestEdges()[..1], corrected) == Some(Sky([5], TestPoints()[..2]))
  {
    assert TestEdges()[..0] == [] && TestPoints()[..0] == [];
    assert Sweep(TestEdges()[..0], corrected) == Some(Sky([], TestPoints()[..0]));
    InsertOne(1, 5);
    LevelOne(1, corrected);
    SweepSnoc(TestEdges()[..0], Edge(2, 5, true), corrected, Sky([], TestPoints()[..0]));
    TestSlice1();
  }

  /** Edge 2 of the test case extends the prefix of edges and its points the prefix of points. */
  lemma TestSlice2()
    ensures TestEdges()[..1] + [Edge(4, 10, true)] == TestEdges()[..2]
    ensures TestPoints()[..2] + [Point(4, 5), Point(4, 10)] == TestPoints()[..4]
  {
  }

  /** The sweep of the first 2 test edges: the heights in progress and the points emitted. */
  lemma TestSweep2(corrected: bool)
    ensures Sweep(TestEdges()[..2], corrected) == Some(Sky([5, 10], TestPoints()[..4]))
  {
    TestSweep1(corrected);
    InsertOne(5, 10);
    LevelOne(5, corrected);
    SweepSnoc(TestEdges()[..1], Edge(4, 10, true), corrected, Sky([5], TestPoints()[..2]));
    TestSlice2();
  }

  /** Edge 3 of the test case extends the prefix of edges. */
  lemma TestSlice3()
    ensures TestEdges()[..2] + [Edge(6, 5, false)] == TestEdges()[..3]
  {
  }

  /** The sweep of the first 3 test edges: the heights in progress and the points emitted. */
  lemma TestSweep3(corrected: bool)
    ensures Sweep(TestEdges()[..3], corrected) == Some(Sky([10], TestPoints()[..4]))
  {
    TestSweep2(corrected);
    EraseTwo(5, 10);
    LevelOne(10, corrected);
    SweepSnoc(TestEdges()[..2], Edge(6, 5, false), corrected, Sky([5, 10], TestPoints()[..4]));
    TestSlice3();
  }

  /** Edge 4 of the test case extends the prefix of edges. */
  lemma TestSlice4()
    ensures TestEdges()[..3] + [Edge(8, 3, true)] == TestEdges()[..4]
  {
  }

  /** The sweep of the first 4 test edges: the heights in progress and the points emitted. */
  lemma TestSweep4(corrected: bool)
    ensures Sweep(TestEdges()[..4], corrected) == Some(Sky([3, 10], TestPoints()[..4]))
  {
    TestSweep3(corrected);
    InsertOne(10, 3);
    LevelOne(10, corrected);
    SweepSnoc(TestEdges()[..3], Edge(8, 3, true), corrected, Sky([10], TestPoints()[..4]));
    TestSlice4();
  }

  /** Edge 5 of the test case extends the prefix of edges and its points the prefix of points. */
  lemma TestSlice5()
    ensures TestEdges()[..4] + [Edge(10, 10, false)] == TestEdges()[..5]
    ensures TestPoints()[..4] + [Point(10, 10), Point(10, 3)] == TestPoints()[..6]
  {
  }

  /** The sweep of the first 5 test edges: the heights in progress and the points emitted. */
  lemma TestSweep5(corrected: bool)
    ensures Sweep(TestEdges()[..5], corrected) == Some(Sky([3], TestPoints()[..6]))
  {
    TestSweep4(corrected);
    EraseTwo(3, 10);
    LevelOne(3, corrected);
    SweepSnoc(TestEdges()[..4], Edge(10, 10, false), corrected, Sky([3, 10], TestPoints()[..4]));
    TestSlice5();
  }

  /** Edge 6 of the test case extends the prefix of edges and its points the prefix of points. */
  lemma TestSlice6()
    ensures TestEdges()[..5] + [Edge(12, 3, false)] == TestEdges()[..6]
    ensures TestPoints()[..6] + [Point(12, 3), Point(12, 0)] == TestPoints()[..8]
  {
  }

  /** The sweep of the first 6 test edges: the heights in progress and the points emitted. */
  lemma TestSweep6(corrected: bool)
    ensures Sweep(TestEdges()[..6], corrected) == Some(Sky([], TestPoints()[..8]))
  {
    TestSweep5(corrected);
    EraseOne(3);
    LevelOne(1, corrected);
    SweepSnoc(TestEdges()[..5], Edge(12, 3, false), corrected, Sky([3], TestPoints()[..6]));
    TestSlice6();
  }

  /** Edge 7 of the test case extends the prefix of edges and its points the prefix of points. */
  lemma TestSlice7()
    ensures TestEdges()[..6] + [Edge(15, 10, true)] == TestEdges()[..7]
    ensures TestPoints()[..8] + [Point(15, 0), Point(15, 10)] == TestPoints()[..10]
  {
  }

  /** The sweep of the first 7 test edges: the heights in progress and the points emitted. */
  lemma TestSweep7(corrected: bool)
    ensures Sweep(TestEdges()[..7], corrected) == Some(Sky([10], TestPoints()[..10]))
  {
    TestSweep6(corrected);
    InsertOne(1, 10);
    LevelOne(1, corrected);
    SweepSnoc(TestEdges()[..6], Edge(15, 10, true), corrected, Sky([], TestPoints()[..8]));
    TestSlice7();
  }

  /** Edge 8 of the test case extends the prefix of edges. */
  lemma TestSlice8()
    ensures TestEdges()[..7] + [Edge(16, 5, true)] == TestEdges()[..8]
  {
  }

  /** The sweep of the first 8 test edges: the heights in progress and the points emitted. */
  lemma TestSweep8(corrected: bool)
    ensures Sweep(TestEdges()[..8], corrected) == Some(Sky([5, 10], TestPoints()[..10]))
  {
    TestSweep7(corrected);
    InsertOne(10, 5);
    LevelOne(10, corrected);
    SweepSnoc(TestEdges()[..7], Edge(16, 5, true), corrected, Sky([10], TestPoints()[..10]));
    TestSlice8();
  }

  /** Edge 9 of the test case extends the prefix of edges. */
  lemma TestSlice9()
    ensures TestEdges()[..8] + [Edge(18, 5, false)] == TestEdges()[..9]
  {
  }

  /** The sweep of the first 9 test edges: the heights in progress and the points emitted. */
  lemma TestSweep9(corrected: bool)
    ensures Sweep(TestEdges()[..9], corrected) == Some(Sky([10], TestPoints()[..10]))
  {
    TestSweep8(corrected);
    EraseTwo(5, 10);
    LevelOne(10, corrected);
    SweepSnoc(TestEdges()[..8], Edge(18, 5, false), corrected, Sky([5, 10], TestPoints()[..10]));
    TestSlice9();
  }

  /** Edge 10 of the test case extends the prefix of edges and its points the prefix of points. */
  lemma TestSlice10()
    ensures TestEdges()[..9] + [Edge(20, 10, false)] == TestEdges()[..10]
    ensures TestPoints()[..10] + [Point(20, 10), Point(20, 0)] == TestPoints()[..12]
  {
  }

  /** The sweep of the first 10 test edges: the heights in progress and the points emitted. */
  lemma TestSweep10(corrected: bool)
    ensures Sweep(TestEdges()[..10], corrected) == Some(Sky([], TestPoints()[..12]))
  {
    TestSweep9(corrected);
    EraseOne(10);
    LevelOne(1, corrected);
    SweepSnoc(TestEdges()[..9], Edge(20, 10, false), corrected, Sky([10], TestPoints()[..10]));
    TestSlice10();
  }

  /** Edge 11 of the test case extends the prefix of edges and its points the prefix of points. */
  lemma TestSlice11()
    ensures TestEdges()[..10] + [Edge(25, 5, true)] == TestEdges()[..11]
    ensures TestPoints()[..12] + [Point(25, 0), Point(25, 5)] == TestPoints()[..14]
  {
  }

  /** The sweep of the first 11 test edges: the heights in progress and the points emitted. */
  lemma TestSweep11(corrected: bool)
    ensures Sweep(TestEdges()[..11], corrected) == Some(Sky([5], TestPoints()[..14]))
  {
    TestSweep10(corrected);
    InsertOne(1, 5);
    LevelOne(1, corrected);
    SweepSnoc(TestEdges()[..10], Edge(25, 5, true), corrected, Sky([], TestPoints()[..12]));
    TestSlice11();
  }

  /** Edge 12 of the test case extends the prefix of edges and its points the prefix of points. */
  lemma TestSlice12()
    ensures TestEdges()[..11] + [Edge(26, 10, true)] == TestEdges()[..12]
    ensures TestPoints()[..14] + [Point(26, 5), Point(26, 10)] == TestPoints()[..16]
  {
  }

  /** The sweep of the first 12 test edges: the heights in progress and the points emitted. */
  lemma TestSweep12(corrected: bool)
    ensures Sweep(TestEdges()[..12], corrected) == Some(Sky([5, 10], TestPoints()[..16]))
  {
    TestSweep11(corrected);
    InsertOne(5, 10);
    LevelOne(5, corrected);
    SweepSnoc(TestEdges()[..11], Edge(26, 10, true), corrected, Sky([5], TestPoints()[..14]));
    TestSlice12();
  }

  /** Edge 13 of the test case extends the prefix of edges and its points the prefix of points. */
  lemma TestSlice13()
    ensures TestEdges()[..12] + [Edge(27, 10, false)] == TestEdges()[..13]
    ensures TestPoints()[..16] + [Point(27, 10), Point(27, 5)] == TestPoints()[..18]
  {
  }

  /** The sweep of the first 13 test edges: the heights in progress and the points emitted. */
  lemma TestSweep13(corrected: bool)
    ensures Sweep(TestEdges()[..13], corrected) == Some(Sky([5], TestPoints()[..18]))
  {
    TestSweep12(corrected);
    EraseTwo(5, 10);
    LevelOne(5, corrected);
    SweepSnoc(TestEdges()[..12], Edge(27, 10, false), corrected, Sky([5, 10], TestPoints()[..16]));
    TestSlice13();
  }

  /** Edge 14 of the test case extends the prefix of edges and its points the prefix of points. */
  lemma TestSlice14()
    ensures TestEdges()[..13] + [Edge(28, 15, true)] == TestEdges()[..14]
    ensures TestPoints()[..18] + [Point(28, 5), Point(28, 15)] == TestPoints()[..20]
  {
  }

  /** The sweep of the first 14 test edges: the heights in progress and the points emitted. */
  lemma TestSweep14(corrected: bool)
    ensures Sweep(TestEdges()[..14], corrected) == Some(Sky([5, 15], TestPoints()[..20]))
  {
    TestSweep13(corrected);
    InsertOne(5, 15);
    LevelOne(5, corrected);
    SweepSnoc(TestEdges()[..13], Edge(28, 15, true), corrected, Sky([5], TestPoints()[..18]));
    TestSlice14();
  }

  /** Edge 15 of the test case extends the prefix of edges and its points the prefix of points. */
  lemma TestSlice15()
    ensures TestEdges()[..14] + [Edge(29, 15, false)] == TestEdges()[..15]
    ensures TestPoints()[..20] + [Point(29, 15), Point(29, 5)] == TestPoints()[..22]
  {
  }

  /** The sweep of the first 15 test edges: the heights in progress and the points emitted. */
  lemma TestSweep15(corrected: bool)
    ensures Sweep(TestEdges()[..15], corrected) == Some(Sky([5], TestPoints()[..22]))
  {
    TestSweep14(corrected);
    EraseTwo(5, 15);
    LevelOne(5, corrected);
    SweepSnoc(TestEdges()[..14], Edge(29, 15, false), corrected, Sky([5, 15], TestPoints()[..20]));
    TestSlice15();
  }

  /** Edge 16 of the test case extends the prefix of edges and its points the prefix of points. */
  lemma TestSlice16()
    ensures TestEdges()[..15] + [Edge(30, 5, false)] == TestEdges()[..16]
    ensures TestPoints()[..22] + [Point(30, 5), Point(30, 0)] == TestPoints()[..24]
  {
  }

  /** The sweep of the first 16 test edges: the heights in progress and the points emitted. */
  lemma TestSweep16(corrected: bool)
    ensures Sweep(TestEdges()[..16], corrected) == Some(Sky([], TestPoints()[..24]))
  {
    TestSweep15(corrected);
    EraseOne(5);
    LevelOne(1, corrected);
    SweepSnoc(TestEdges()[..15], Edge(30, 5, false), corrected, Sky([5], TestPoints()[..22]));
    TestSlice16();
  }

  /** The test edges and points are their own whole prefixes. */
  lemma TestWhole()
    ensures TestEdges()[..16] == TestEdges() && TestPoints()[..24] == TestPoints()
  {
  }

  /** The sweep of the test edges, either way the height is read, ends with the expected skyline. */
  lemma TestSweep(corrected: bool)
    ensures Sweep(TestEdges(), corrected) == Some(Sky([], TestPoints()))
  {
    TestWhole();
    TestSweep16(corrected);
  }

  /**
   * The test case: find_skyline on the test buildings sweeps the test edges, the one x-sorted
   * order of their edges, and returns the expected points; the corrected height gives the same.
   */
  lemma TestSkyline(edges: seq<Edge>)
    requires SortedByX(edges) && multiset(edges) == multiset(EdgesOf(TestBuildings()))
    ensures Sweep(edges, false) == Some(Sky([], TestPoints()))
    ensures Sweep(edges, true) == Some(Sky([], TestPoints()))
  {
    TestOrder();
    TestPermutation();
    SortedUnique(TestEdges(), edges);
    TestSweep(false);
    TestSweep(true);
  }

  /**
   * find_skyline: splits the buildings into edges, sorts them by x and sweeps them. The result is
   * the sweep of an x-sorted permutation of the edges (edges); None when a right edge's height was
   * not in progress, where find_skyline erases end().
   */
  method FindSkyline(buildings: seq<Building>) returns (points: Option<seq<Point>>, ghost edges: seq<Edge>)
    ensures SortedByX(edges) && multiset(edges) == multiset(EdgesOf(buildings))
    ensures points == if Sweep(edges, false).Some? then Some(Sweep(edges, false).value.points) else None
  {
    var all := SplitEdges(buildings);
    var sorted := SortEdges(all);
    edges := sorted;
    var inProgress: seq<int> := [];
    var pts: seq<Point> := [];
    for i := 0 to |sorted|
      invariant Sweep(sorted[..i], false) == Some(Sky(inProgress, pts))
    {
      assert sorted[..i + 1][..i] == sorted[..i];
      var stuck;
      stuck, inProgress, pts := SweepEdge(inProgress, pts, sorted[i]);
      if stuck {
        SweepStuck(sorted, i + 1, false);
        points := None;
        return;
      }
    }
    assert sorted[..|sorted|] == sorted;
    points := Some(pts);
  }
}
