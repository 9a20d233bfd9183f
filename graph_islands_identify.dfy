/**
 * Counting islands by labelling chunks (src/graph_islands_identify.cc; src/count_islands.cc is
 * the same code without templates, plus two unused neighbour readers). A row-major walk gives
 * every land tile a chunk id, fresh or taken from the tile in the row before or the column
 * before, and records in an equivalence map which chunk ids touch. The map is then merged so
 * that each group of touching chunks keeps one non-empty set, and the non-empty sets are
 * counted: that is the number of 4-connected islands.
 */
module IslandsIdentify {
  import opened Grids

  /** The tile codes: the characters '0' (water) and '1' (land, and the first chunk id). */
  const Water := 48
  const Land := 49

  // ---------------------------------------------------------------------------------------
  // Equivalence maps: from a chunk id to the set of chunk ids recorded as the same island.
  // ---------------------------------------------------------------------------------------

  /** A walk through the map: each id is a key, and each next id is in the set of the one before. */
  ghost predicate IsWalk(m: map<int, set<int>>, p: seq<int>)
  {
    |p| > 0
    && (forall i :: 0 <= i < |p| ==> p[i] in m)
    && (forall i :: 0 <= i < |p| - 1 ==> p[i + 1] in m[p[i]])
  }

  /** b is reached from a through the sets of the map. */
  ghost predicate Joined(m: map<int, set<int>>, a: int, b: int)
  {
    exists p :: IsWalk(m, p) && p[0] == a && p[|p| - 1] == b
  }

  /** The ids reached from a: its group of chunks. */
  ghost function Class(m: map<int, set<int>>, a: int): set<int>
  {
    set b | b in m && Joined(m, a, b)
  }

  /**
   * The shape isolate_island_chunks leaves the map in: every set holds keys only, each key is
   * in its own set, and each id is in the set of every id in its set.
   */
  ghost predicate WellFormed(m: map<int, set<int>>)
  {
    forall k :: k in m ==> k in m[k] && forall j :: j in m[k] ==> j in m && k in m[j]
  }

  lemma JoinedSelf(m: map<int, set<int>>, a: int)
    requires a in m
    ensures Joined(m, a, a) && a in Class(m, a)
  {
    assert IsWalk(m, [a]);
  }

  /** A walk extended by one more id from the set of its last. */
  lemma JoinedStep(m: map<int, set<int>>, a: int, b: int, c: int)
    requires Joined(m, a, b) && b in m && c in m[b] && c in m
    ensures Joined(m, a, c)
  {
    var p :| IsWalk(m, p) && p[0] == a && p[|p| - 1] == b;
    var q := p + [c];
    assert forall i :: 0 <= i < |p| ==> q[i] == p[i];
    assert IsWalk(m, q);
  }

  /** Two walks joined end to start. */
  lemma JoinedJoin(m: map<int, set<int>>, a: int, b: int, c: int)
    requires Joined(m, a, b) && Joined(m, b, c)
    ensures Joined(m, a, c)
  {
    var p :| IsWalk(m, p) && p[0] == a && p[|p| - 1] == b;
    var q :| IsWalk(m, q) && q[0] == b && q[|q| - 1] == c;
    var r := p + q[1..];
    assert forall i :: 0 <= i < |p| ==> r[i] == p[i];
    assert forall i :: |p| <= i < |r| ==> r[i] == q[i - |p| + 1];
    assert IsWalk(m, r);
  }

  /** In a well-formed map walks run both ways. */
  lemma JoinedBack(m: map<int, set<int>>, a: int, b: int)
    requires WellFormed(m) && Joined(m, a, b)
    ensures Joined(m, b, a)
  {
    var p :| IsWalk(m, p) && p[0] == a && p[|p| - 1] == b;
    var q := seq(|p|, i requires 0 <= i < |p| => p[|p| - 1 - i]);
    forall i | 0 <= i < |q| - 1
      ensures q[i + 1] in m[q[i]]
    {
      assert q[i] == p[|p| - 1 - i] && q[i + 1] == p[|p| - 2 - i];
    }
    assert IsWalk(m, q);
  }

  /** A set of keys that holds the set of each of its ids holds the whole group of each. */
  lemma {:induction false} ClosedHoldsWalk(m: map<int, set<int>>, s: set<int>, p: seq<int>)
    requires (forall x :: x in s ==> x in m && m[x] <= s) && IsWalk(m, p) && p[0] in s
    ensures forall i :: 0 <= i < |p| ==> p[i] in s
  {
    if |p| > 1 {
      var front := p[..|p| - 1];
      assert IsWalk(m, front);
      ClosedHoldsWalk(m, s, front);
      assert p[|p| - 2] == front[|p| - 2];
    }
  }

  lemma ClosedHoldsClass(m: map<int, set<int>>, s: set<int>, a: int)
    requires (forall x :: x in s ==> x in m && m[x] <= s) && a in s
    ensures Class(m, a) <= s
  {
    forall b | b in Class(m, a)
      ensures b in s
    {
      var p :| IsWalk(m, p) && p[0] == a && p[|p| - 1] == b;
      ClosedHoldsWalk(m, s, p);
    }
  }

  /** A group holds the set of each of its ids. */
  lemma ClassClosed(m: map<int, set<int>>, a: int, x: int)
    requires WellFormed(m) && x in Class(m, a)
    ensures m[x] <= Class(m, a)
  {
    forall y | y in m[x]
      ensures y in Class(m, a)
    {
      JoinedStep(m, a, x, y);
    }
  }

  /** Two ids of one group have the same group. */
  lemma ClassOf(m: map<int, set<int>>, a: int, b: int)
    requires WellFormed(m) && b in Class(m, a)
    ensures Class(m, b) == Class(m, a)
  {
    JoinedBack(m, a, b);
    forall c | c in Class(m, b)
      ensures c in Class(m, a)
    {
      JoinedJoin(m, a, b, c);
    }
    forall c | c in Class(m, a)
      ensures c in Class(m, b)
    {
      JoinedJoin(m, b, a, c);
    }
  }

  /** Two keys have the same group exactly when one is reached from the other. */
  lemma SameClass(m: map<int, set<int>>, a: int, b: int)
    requires WellFormed(m) && a in m && b in m
    ensures Class(m, a) == Class(m, b) <==> Joined(m, a, b)
  {
    JoinedSelf(m, b);
    if Joined(m, a, b) {
      ClassOf(m, a, b);
    }
  }

  /** A non-empty set has an element. */
  lemma Inhabited(s: set<int>)
    requires s != {}
    ensures exists y :: y in s
  {
    if forall y :: y !in s {
      assert false;
    }
  }

  lemma LeastExists(s: set<int>)
    requires s != {}
    ensures exists k :: k in s && forall x :: x in s ==> k <= x
  {
    Inhabited(s);
    var y :| y in s;
    if s != {y} {
      LeastExists(s - {y});
      var k :| k in s - {y} && forall x :: x in s - {y} ==> k <= x;
      var least := if y < k then y else k;
      forall x | x in s
        ensures least <= x
      {
        if x != y {
          assert x in s - {y};
        }
      }
    } else {
      assert forall x :: x in s ==> y <= x;
    }
  }

  /** The smallest element of a non-empty set. */
  ghost function Least(s: set<int>): (k: int)
    requires s != {}
    ensures k in s && forall x :: x in s ==> k <= x
  {
    LeastExists(s);
    var k :| k in s && forall x :: x in s ==> k <= x;
    k
  }

  /** The smallest id of the group of a: the one a map iterated in increasing order meets first. */
  ghost function Root(m: map<int, set<int>>, a: int): int
  {
    Least(Class(m, a) + {a})
  }

  /** The root of a key's group is in the group and is its smallest id. */
  lemma RootIn(m: map<int, set<int>>, a: int)
    requires a in m
    ensures Root(m, a) in Class(m, a) && Root(m, a) <= a
    ensures forall j :: j in Class(m, a) ==> Root(m, a) <= j
  {
    JoinedSelf(m, a);
    assert Class(m, a) + {a} == Class(m, a);
  }

  /** Two ids of one group have the same root. */
  lemma RootOf(m: map<int, set<int>>, a: int, b: int)
    requires WellFormed(m) && a in m && b in Class(m, a)
    ensures Root(m, b) == Root(m, a)
  {
    ClassOf(m, a, b);
    JoinedSelf(m, a);
    JoinedSelf(m, b);
    assert Class(m, a) + {a} == Class(m, b) + {b};
  }

  /** The keys other than k whose sets are not empty. */
  ghost function Pending(m: map<int, set<int>>, k: int): set<int>
  {
    set c | c in m && c != k && m[c] != {}
  }

  /**
   * One pass of merge_equivalent_island_map's loop, for the key k: the ids of k's set go on a
   * stack; each id popped other than k has its set moved into k's set, each moved id pushed in
   * turn, and is then left with an empty set. When k is the smallest id of its group and the
   * group is untouched, k's set ends up the whole group and every other set of the group empty;
   * when k's set is already empty nothing changes.
   */
  method MergeInto(m: map<int, set<int>>, k: int, ghost m0: map<int, set<int>>) returns (r: map<int, set<int>>)
    requires WellFormed(m0) && k in m0 && m.Keys == m0.Keys
    requires m[k] == {} || forall c :: c in Class(m0, k) ==> m[c] == m0[c]
    ensures r.Keys == m.Keys
    ensures m[k] == {} ==> r == m
    ensures m[k] != {} ==> r[k] == Class(m0, k)
    ensures m[k] != {} ==> forall c :: c in m && c != k ==> r[c] == if c in Class(m0, k) then {} else m[c]
  {
    r := m;
    var stack := PushAll([], m[k]);
    if m[k] == {} {
      return;
    }
    MergeStart(m, m0, k, stack);
    while stack != []
      invariant r.Keys == m.Keys && Merging(m, m0, k, r, stack)
      decreases |Pending(r, k)|, |stack|
    {
      r, stack := MergePop(m, k, m0, r, stack);
    }
    MergeDone(m, m0, k, r);
  }

  /**
   * One turn of that loop: the id on top of the stack is popped; unless it is k, its set is
   * moved into k's set, its ids pushed, and its own set emptied.
   */
  method MergePop(m: map<int, set<int>>, k: int, ghost m0: map<int, set<int>>, r: map<int, set<int>>, stack: seq<int>)
    returns (r': map<int, set<int>>, stack': seq<int>)
    requires WellFormed(m0) && k in m0 && m.Keys == m0.Keys && r.Keys == m.Keys && m[k] != {}
    requires stack != [] && Merging(m, m0, k, r, stack)
    ensures r'.Keys == m.Keys && Merging(m, m0, k, r', stack')
    ensures |Pending(r', k)| < |Pending(r, k)| || (|Pending(r', k)| == |Pending(r, k)| && |stack'| < |stack|)
  {
    var f := stack[|stack| - 1];
    stack' := stack[..|stack| - 1];
    assert stack == stack' + [f];
    if k == f {
      r' := r;
      MergePopSelf(m, m0, k, r, stack');
    } else {
      ghost var stack0 := stack';
      var moving := if f in r then r[f] else {};
      r', stack' := MoveInto(r, k, moving, stack');
      r' := r'[f := {}];
      MergeStep(m, m0, k, r, stack0, f, r', stack');
    }
  }

  /** The loop that pushes every id of a set on the stack, in the set's own order. */
  method PushAll(stack: seq<int>, s: set<int>) returns (st: seq<int>)
    ensures stack <= st && (s == {} ==> st == stack)
    ensures forall i :: |stack| <= i < |st| ==> st[i] in s
    ensures forall x :: x in s ==> x in st[|stack|..]
  {
    st := stack;
    var rest := s;
    while rest != {}
      invariant rest <= s && stack <= st && (s - rest == {} ==> st == stack)
      invariant forall i :: |stack| <= i < |st| ==> st[i] in s - rest
      invariant forall x :: x in s - rest ==> x in st[|stack|..]
      decreases rest
    {
      Inhabited(rest);
      var n :| n in rest;
      ghost var pushed := st[|stack|..];
      st := st + [n];
      assert st[|stack|..] == pushed + [n];
      rest := rest - {n};
      assert n in s - rest;
    }
  }

  /** The loop that inserts every id of a moved set into k's set and pushes it on the stack. */
  method MoveInto(m: map<int, set<int>>, k: int, s: set<int>, stack: seq<int>) returns (r: map<int, set<int>>, st: seq<int>)
    requires k in m
    ensures r.Keys == m.Keys && r[k] == m[k] + s
    ensures forall c :: c in m && c != k ==> r[c] == m[c]
    ensures stack <= st && (s == {} ==> st == stack)
    ensures forall i :: |stack| <= i < |st| ==> st[i] in s
    ensures forall x :: x in s ==> x in st[|stack|..]
  {
    r, st := m, stack;
    var rest := s;
    while rest != {}
      invariant rest <= s && stack <= st && (s - rest == {} ==> st == stack)
      invariant r.Keys == m.Keys && r[k] == m[k] + (s - rest)
      invariant forall c :: c in m && c != k ==> r[c] == m[c]
      invariant forall i :: |stack| <= i < |st| ==> st[i] in s - rest
      invariant forall x :: x in s - rest ==> x in st[|stack|..]
      decreases rest
    {
      Inhabited(rest);
      var n :| n in rest;
      r := r[k := r[k] + {n}];
      ghost var pushed := st[|stack|..];
      st := st + [n];
      assert st[|stack|..] == pushed + [n];
      rest := rest - {n};
      assert n in s - rest;
    }
  }

  /** The loop state once k's first set is on the stack. */
  lemma MergeStart(m: map<int, set<int>>, m0: map<int, set<int>>, k: int, stack: seq<int>)
    requires WellFormed(m0) && k in m0 && m.Keys == m0.Keys
    requires forall c :: c in Class(m0, k) ==> m[c] == m0[c]
    requires forall i :: 0 <= i < |stack| ==> stack[i] in m[k]
    requires forall x :: x in m[k] ==> x in stack[0..]
    ensures Merging(m, m0, k, m, stack)
  {
    JoinedSelf(m0, k);
    ClassClosed(m0, k, k);
    assert stack[0..] == stack;
  }

  /**
   * The state of the stack loop for a key k whose group was untouched: k's set lies in the group
   * and holds k's first set; the sets outside the group are as they were; every other id of
   * the group keeps its first set or has had it moved into k's set and emptied; the stack holds
   * ids of k's set; and every id of k's set is k, on the stack, or already moved.
   */
  ghost predicate Merging(m: map<int, set<int>>, m0: map<int, set<int>>, k: int, r: map<int, set<int>>, stack: seq<int>)
    requires k in m0 && m.Keys == m0.Keys && r.Keys == m.Keys
  {
    r[k] <= Class(m0, k) && m0[k] <= r[k]
    && (forall c :: c in m && c != k && c !in Class(m0, k) ==> r[c] == m[c])
    && (forall c :: c in Class(m0, k) && c != k ==> r[c] == m0[c] || (r[c] == {} && m0[c] <= r[k]))
    && (forall i :: 0 <= i < |stack| ==> stack[i] in r[k])
    && (forall x :: x in r[k] ==> x == k || x in stack || (r[x] == {} && m0[x] <= r[k]))
  }

  /** One popped id other than k keeps the loop state, and either empties a set or shortens the stack. */
  lemma MergeStep(m: map<int, set<int>>, m0: map<int, set<int>>, k: int, r0: map<int, set<int>>, stack0: seq<int>,
                  f: int, r: map<int, set<int>>, stack: seq<int>)
    requires WellFormed(m0) && k in m0 && m.Keys == m0.Keys && r0.Keys == m.Keys
    requires m[k] != {} && Merging(m, m0, k, r0, stack0 + [f])
    requires f != k && f in r0
    requires r.Keys == r0.Keys && r[k] == r0[k] + r0[f] && r[f] == {}
    requires forall c :: c in r && c != k && c != f ==> r[c] == r0[c]
    requires stack0 <= stack
    requires forall i :: |stack0| <= i < |stack| ==> stack[i] in r0[f]
    requires forall x :: x in r0[f] ==> x in stack[|stack0|..]
    requires r0[f] == {} ==> stack == stack0
    ensures r.Keys == m.Keys && Merging(m, m0, k, r, stack)
    ensures |Pending(r, k)| < |Pending(r0, k)| || (|Pending(r, k)| == |Pending(r0, k)| && |stack| < |stack0| + 1)
  {
    assert (stack0 + [f])[|stack0|] == f;
    MergeStepSets(m, m0, k, r0, f, r);
    MergeStepStack(m0, k, r0, stack0 + [f], stack0, f, r, stack);
    MergeStepCover(m0, k, r0, stack0 + [f], stack0, f, r, stack);
    PendingShrinks(r0, r, k, f);
  }

  /** Emptying the set of a key other than k removes it from the pending keys. */
  lemma PendingShrinks(r0: map<int, set<int>>, r: map<int, set<int>>, k: int, f: int)
    requires r.Keys == r0.Keys && f != k && f in r0 && r[f] == {}
    requires forall c :: c in r && c != k && c != f ==> r[c] == r0[c]
    ensures r0[f] == {} ==> Pending(r, k) == Pending(r0, k)
    ensures r0[f] != {} ==> Pending(r, k) == Pending(r0, k) - {f} && |Pending(r, k)| < |Pending(r0, k)|
  {
  }

  /** Popping k itself keeps the loop state. */
  lemma MergePopSelf(m: map<int, set<int>>, m0: map<int, set<int>>, k: int, r: map<int, set<int>>, stack: seq<int>)
    requires k in m0 && m.Keys == m0.Keys && r.Keys == m.Keys
    requires Merging(m, m0, k, r, stack + [k])
    ensures Merging(m, m0, k, r, stack)
  {
    assert forall i :: 0 <= i < |stack| ==> stack[i] == (stack + [k])[i];
  }

  lemma MergeStepSets(m: map<int, set<int>>, m0: map<int, set<int>>, k: int, r0: map<int, set<int>>, f: int, r: map<int, set<int>>)
    requires WellFormed(m0) && k in m0 && m.Keys == m0.Keys && r0.Keys == m.Keys && r.Keys == m.Keys
    requires r0[k] <= Class(m0, k) && m0[k] <= r0[k]
    requires forall c :: c in m && c != k && c !in Class(m0, k) ==> r0[c] == m[c]
    requires forall c :: c in Class(m0, k) && c != k ==> r0[c] == m0[c] || (r0[c] == {} && m0[c] <= r0[k])
    requires f != k && f in r0[k]
    requires r[k] == r0[k] + r0[f] && r[f] == {}
    requires forall c :: c in r && c != k && c != f ==> r[c] == r0[c]
    ensures r[k] <= Class(m0, k) && m0[k] <= r[k]
    ensures forall c :: c in m && c != k && c !in Class(m0, k) ==> r[c] == m[c]
    ensures forall c :: c in Class(m0, k) && c != k ==> r[c] == m0[c] || (r[c] == {} && m0[c] <= r[k])
  {
    if r0[f] == m0[f] {
      ClassClosed(m0, k, f);
    }
  }

  lemma MergeStepStack(m0: map<int, set<int>>, k: int, r0: map<int, set<int>>, popped: seq<int>, stack0: seq<int>,
                       f: int, r: map<int, set<int>>, stack: seq<int>)
    requires popped == stack0 + [f] && k in r0 && f in r0 && k in r
    requires forall i :: 0 <= i < |popped| ==> popped[i] in r0[k]
    requires r[k] == r0[k] + r0[f]
    requires stack0 <= stack
    requires forall i :: |stack0| <= i < |stack| ==> stack[i] in r0[f]
    ensures forall i :: 0 <= i < |stack| ==> stack[i] in r[k]
  {
    forall i | 0 <= i < |stack|
      ensures stack[i] in r[k]
    {
      if i < |stack0| {
        assert stack[i] == stack0[i] == popped[i];
      }
    }
  }

  lemma MergeStepCover(m0: map<int, set<int>>, k: int, r0: map<int, set<int>>, popped: seq<int>, stack0: seq<int>,
                       f: int, r: map<int, set<int>>, stack: seq<int>)
    requires popped == stack0 + [f] && k in r0 && f in r0 && f != k && f in m0
    requires r0.Keys == r.Keys && r0.Keys == m0.Keys && (forall x :: x in r0[k] ==> x in m0) && forall x :: x in r0[f] ==> x in m0
    requires forall x :: x in r0[k] ==> x == k || x in popped || (r0[x] == {} && m0[x] <= r0[k])
    requires r0[f] == m0[f] || (r0[f] == {} && m0[f] <= r0[k])
    requires r[k] == r0[k] + r0[f] && r[f] == {}
    requires forall c :: c in r && c != k && c != f ==> r[c] == r0[c]
    requires stack0 <= stack
    requires forall x :: x in r0[f] ==> x in stack[|stack0|..]
    ensures forall x :: x in r[k] ==> x == k || x in stack || (r[x] == {} && m0[x] <= r[k])
  {
    forall x | x in r[k]
      ensures x == k || x in stack || (r[x] == {} && m0[x] <= r[k])
    {
      if x in r0[f] {
        var i :| 0 <= i < |stack[|stack0|..]| && stack[|stack0|..][i] == x;
        assert stack[|stack0| + i] == x;
      } else if x != k && x != f && x in popped {
        var i :| 0 <= i < |popped| && popped[i] == x;
        assert i < |stack0|;
        assert stack[i] == x;
      }
    }
  }

  /** When the stack is empty, k's set is its whole group and every other set of the group is empty. */
  lemma MergeDone(m: map<int, set<int>>, m0: map<int, set<int>>, k: int, r: map<int, set<int>>)
    requires WellFormed(m0) && k in m0 && m.Keys == m0.Keys && r.Keys == m.Keys
    requires Merging(m, m0, k, r, [])
    ensures r[k] == Class(m0, k)
    ensures forall c :: c in m && c != k ==> r[c] == if c in Class(m0, k) then {} else m[c]
  {
    JoinedSelf(m0, k);
    forall x | x in r[k]
      ensures x in m0 && m0[x] <= r[k]
    {
    }
    ClosedHoldsClass(m0, r[k], k);
  }

  /**
   * merge_equivalent_island_map: the keys are visited in increasing order, each with one pass
   * of MergeInto. Afterwards the smallest id of each group holds the whole group and every
   * other set is empty.
   */
  method MergeEquivalentIslandMap(m: map<int, set<int>>) returns (r: map<int, set<int>>)
    requires WellFormed(m)
    ensures r.Keys == m.Keys
    ensures forall k :: k in m ==> r[k] == if Root(m, k) == k then Class(m, k) else {}
  {
    r := m;
    var rest := m.Keys;
    while rest != {}
      invariant rest <= m.Keys && r.Keys == m.Keys
      invariant forall d, e :: d in m.Keys - rest && e in rest ==> d < e
      invariant forall c :: c in m ==> r[c] == Merged(m, rest, c)
      decreases rest
    {
      LeastExists(rest);
      var k :| k in rest && forall j :: j in rest ==> k <= j;
      VisitedBelow(m.Keys, rest, k);
      r := VisitKey(m, rest, r, k);
      rest := rest - {k};
    }
  }

  /** The visit of the smallest key left: one pass of MergeInto. */
  method VisitKey(m: map<int, set<int>>, rest: set<int>, r: map<int, set<int>>, k: int) returns (r': map<int, set<int>>)
    requires WellFormed(m) && rest <= m.Keys && r.Keys == m.Keys
    requires forall c :: c in m ==> r[c] == Merged(m, rest, c)
    requires k in rest && forall j :: j in rest ==> k <= j
    ensures r'.Keys == m.Keys
    ensures forall c :: c in m ==> r'[c] == Merged(m, rest - {k}, c)
  {
    MergeVisit(m, rest, r, k);
    r' := MergeInto(r, k, m);
    MergeVisited(m, rest, r, k, r');
  }

  /** Visiting the smallest key left keeps every visited key below every key left. */
  lemma VisitedBelow(keys: set<int>, rest: set<int>, k: int)
    requires forall d, e :: d in keys - rest && e in rest ==> d < e
    requires k in rest && forall j :: j in rest ==> k <= j
    ensures forall d, e :: d in keys - (rest - {k}) && e in rest - {k} ==> d < e
  {
    forall d, e | d in keys - (rest - {k}) && e in rest - {k}
      ensures d < e
    {
      if d != k {
        assert d in keys - rest;
      }
    }
  }

  /** The set of c while the keys of rest are still to be visited. */
  ghost function Merged(m: map<int, set<int>>, rest: set<int>, c: int): set<int>
    requires c in m
  {
    if Root(m, c) in rest then m[c] else if Root(m, c) == c then Class(m, c) else {}
  }

  /** The next key visited meets MergeInto's demands: its set is empty, or its group is untouched. */
  lemma MergeVisit(m: map<int, set<int>>, rest: set<int>, r: map<int, set<int>>, k: int)
    requires WellFormed(m) && rest <= m.Keys && r.Keys == m.Keys
    requires forall c :: c in m ==> r[c] == Merged(m, rest, c)
    requires k in rest && forall j :: j in rest ==> k <= j
    ensures r[k] == {} || forall c :: c in Class(m, k) ==> r[c] == m[c]
  {
    if Root(m, k) in rest {
      forall c | c in Class(m, k)
        ensures r[c] == m[c]
      {
        RootOf(m, k, c);
      }
    }
  }

  /** After the visit of k the sets are those for the keys left. */
  lemma MergeVisited(m: map<int, set<int>>, rest: set<int>, r: map<int, set<int>>, k: int, r': map<int, set<int>>)
    requires WellFormed(m) && rest <= m.Keys && r.Keys == m.Keys && r'.Keys == m.Keys
    requires forall c :: c in m ==> r[c] == Merged(m, rest, c)
    requires k in rest && forall j :: j in rest ==> k <= j
    requires r[k] == {} ==> r' == r
    requires r[k] != {} ==> r'[k] == Class(m, k)
    requires r[k] != {} ==> forall c :: c in r && c != k ==> r'[c] == if c in Class(m, k) then {} else r[c]
    ensures forall c :: c in m ==> r'[c] == Merged(m, rest - {k}, c)
  {
    forall c | c in m
      ensures r'[c] == Merged(m, rest - {k}, c)
    {
      MergedOne(m, rest, r, k, r', c);
    }
  }

  lemma MergedOne(m: map<int, set<int>>, rest: set<int>, r: map<int, set<int>>, k: int, r': map<int, set<int>>, c: int)
    requires WellFormed(m) && rest <= m.Keys && r.Keys == m.Keys && r'.Keys == m.Keys
    requires k in rest && forall j :: j in rest ==> k <= j
    requires r[k] == Merged(m, rest, k) && c in m && r[c] == Merged(m, rest, c)
    requires r[k] == {} ==> r' == r
    requires r[k] != {} ==> r'[k] == Class(m, k)
    requires r[k] != {} ==> forall c :: c in r && c != k ==> r'[c] == if c in Class(m, k) then {} else r[c]
    ensures r'[c] == Merged(m, rest - {k}, c)
  {
    JoinedSelf(m, k);
    var rk := Root(m, k);
    if rk != k {
      assert rk !in rest;
      assert r[k] == {};
      if Root(m, c) == k {
        JoinedSelf(m, c);
        RootOf(m, c, k);
      }
    } else if c == k {
    } else if c in Class(m, k) {
      RootOf(m, k, c);
      assert r'[c] == {};
    } else {
      assert r'[c] == r[c];
      if Root(m, c) == k {
        JoinedSelf(m, c);
        ClassOf(m, c, k);
      }
    }
  }

  // ---------------------------------------------------------------------------------------
  // Chunk isolation: one row-major walk over the grid.
  // ---------------------------------------------------------------------------------------

  /** The land cells of the tiles t: every cell that is not water. */
  function LandOf(t: map<Cell, int>): (l: set<Cell>)
    ensures forall c :: c in l <==> c in t && t[c] != Water
  {
    set c | c in t && t[c] != Water
  }

  /** equivalent_island_map[k].insert(v): the set of k, empty if k is new, with v added. */
  function Insert(m: map<int, set<int>>, k: int, v: int): (r: map<int, set<int>>)
    ensures r.Keys == m.Keys + {k}
    ensures r[k] == (if k in m then m[k] else {}) + {v}
    ensures forall j :: j in m && j != k ==> r[j] == m[j]
  {
    m[k := (if k in m then m[k] else {}) + {v}]
  }

  /** get_left: the tile of the row before (index x - 1), water on the first row. */
  function GetLeft(grid: array2<int>, x: int, y: int): (t: int)
    requires 0 <= x < grid.Length0 && 0 <= y < grid.Length1
    reads grid
    ensures t == if (x - 1, y) in Tiles(grid) then Tiles(grid)[(x - 1, y)] else Water
  {
    if x == 0 then Water else grid[x - 1, y]
  }

  /** get_above: the tile of the column before (index y - 1), water in the first column. */
  function GetAbove(grid: array2<int>, x: int, y: int): (t: int)
    requires 0 <= x < grid.Length0 && 0 <= y < grid.Length1
    reads grid
    ensures t == if (x, y - 1) in Tiles(grid) then Tiles(grid)[(x, y - 1)] else Water
  {
    if y == 0 then Water else grid[x, y - 1]
  }

  /** get_right (src/count_islands.cc only, never called): the tile of the row after, water on the last row. */
  function GetRight(grid: array2<int>, x: int, y: int): (t: int)
    requires 0 <= x < grid.Length0 && 0 <= y < grid.Length1
    reads grid
    ensures t == if (x + 1, y) in Tiles(grid) then Tiles(grid)[(x + 1, y)] else Water
  {
    if x == grid.Length0 - 1 then Water else grid[x + 1, y]
  }

  /** get_below (src/count_islands.cc only, never called): the tile of the column after, water in the last column. */
  function GetBelow(grid: array2<int>, x: int, y: int): (t: int)
    requires 0 <= x < grid.Length0 && 0 <= y < grid.Length1
    reads grid
    ensures t == if (x, y + 1) in Tiles(grid) then Tiles(grid)[(x, y + 1)] else Water
  {
    if y == grid.Length1 - 1 then Water else grid[x, y + 1]
  }

  /**
   * The walk has labelled the cells before row x, column y. Over the land of the first tiles
   * t0, the tiles t: the keys of eq are the chunk ids handed out, Land up to next, and eq is well
   * formed; each id has a seed, a land cell already labelled with it; the cells not yet reached
   * are unchanged and the water reached stays water; each land cell reached holds an id and
   * reaches its id's seed through land; each id in a set reaches (seed to seed) its key; and two
   * adjacent land cells reached hold the same id or each other's ids in their sets.
   */
  ghost predicate Labelled(t0: map<Cell, int>, t: map<Cell, int>, eq: map<int, set<int>>, seed: map<int, Cell>,
                           next: int, x: int, y: int)
  {
    Ids(t0, t, eq, next) && Seeded(t0, t, eq, seed, x, y) && Walked(t0, t, x, y)
    && Chunks(t0, t, seed, next, x, y) && Links(t0, eq, seed) && Touching(t0, t, eq, x, y)
  }

  /** The tiles cover the grid, the keys of eq are the ids from Land up to next, and eq is well formed. */
  ghost predicate Ids(t0: map<Cell, int>, t: map<Cell, int>, eq: map<int, set<int>>, next: int)
  {
    t.Keys == t0.Keys && Land <= next && (forall k :: k in eq <==> Land <= k < next) && WellFormed(eq)
  }

  /** Each id has a seed: a land cell before (x, y) holding that id. */
  ghost predicate Seeded(t0: map<Cell, int>, t: map<Cell, int>, eq: map<int, set<int>>, seed: map<int, Cell>, x: int, y: int)
  {
    forall k :: k in eq ==> k in seed && seed[k] in LandOf(t0) && !NotBefore(seed[k], x, y) && seed[k] in t && t[seed[k]] == k
  }

  /** The cells from (x, y) on are unchanged, and the water before it is still water. */
  ghost predicate Walked(t0: map<Cell, int>, t: map<Cell, int>, x: int, y: int)
  {
    (forall c :: c in t && c in t0 && NotBefore(c, x, y) ==> t[c] == t0[c])
    && (forall c :: c in t && c in t0 && !NotBefore(c, x, y) && t0[c] == Water ==> t[c] == Water)
  }

  /** Each land cell before (x, y) holds an id below next and reaches that id's seed through land. */
  ghost predicate Chunks(t0: map<Cell, int>, t: map<Cell, int>, seed: map<int, Cell>, next: int, x: int, y: int)
  {
    forall c :: c in LandOf(t0) && !NotBefore(c, x, y) ==>
      c in t && Land <= t[c] < next && t[c] in seed && Reaches(LandOf(t0), c, seed[t[c]])
  }

  /** Each id in the set of a key reaches it, seed to seed, through land. */
  ghost predicate Links(t0: map<Cell, int>, eq: map<int, set<int>>, seed: map<int, Cell>)
  {
    forall a, b :: a in eq && b in eq[a] ==> a in seed && b in seed && Reaches(LandOf(t0), seed[a], seed[b])
  }

  /** Two adjacent land cells before (x, y) hold the same id, or the second's id is in the first's set. */
  ghost predicate Touching(t0: map<Cell, int>, t: map<Cell, int>, eq: map<int, set<int>>, x: int, y: int)
  {
    forall c, d :: c in LandOf(t0) && d in LandOf(t0) && !NotBefore(c, x, y) && !NotBefore(d, x, y) && Adjacent(c, d) ==>
      c in t && d in t && (t[c] == t[d] || (t[c] in eq && t[d] in eq[t[c]]))
  }

  /** Nothing is labelled before the walk starts. */
  lemma LabelledStart(t0: map<Cell, int>)
    requires forall c :: c in t0 ==> c.0 >= 0 && c.1 >= 0
    ensures Labelled(t0, t0, map[], map[], Land, 0, 0)
  {
  }

  /** The same cells lie before (x, y) and before (x', y'): nothing else changes. */
  lemma LabelledMove(t0: map<Cell, int>, t: map<Cell, int>, eq: map<int, set<int>>, seed: map<int, Cell>,
                     next: int, x: int, y: int, x': int, y': int)
    requires Labelled(t0, t, eq, seed, next, x, y)
    requires forall c :: c in t0 ==> (NotBefore(c, x, y) <==> NotBefore(c, x', y'))
    ensures Labelled(t0, t, eq, seed, next, x', y')
  {
  }

  /**
   * A cell the walk has reached holds water exactly when it is not land, and a land cell
   * reached holds an id of eq.
   */
  lemma Reached(t0: map<Cell, int>, t: map<Cell, int>, eq: map<int, set<int>>, seed: map<int, Cell>,
                next: int, x: int, y: int, d: Cell)
    requires Labelled(t0, t, eq, seed, next, x, y)
    requires d in t && !NotBefore(d, x, y)
    ensures t[d] == Water <==> d !in LandOf(t0)
    ensures d in LandOf(t0) ==> t[d] in eq
  {
  }

  /** A water tile leaves everything as it was. */
  lemma VisitWater(t0: map<Cell, int>, t: map<Cell, int>, eq: map<int, set<int>>, seed: map<int, Cell>,
                   next: int, x: int, y: int)
    requires Labelled(t0, t, eq, seed, next, x, y)
    requires (x, y) in t && t[(x, y)] == Water
    ensures Labelled(t0, t, eq, seed, next, x, y + 1)
  {
    assert (x, y) !in LandOf(t0);
  }

  /** Labelling (x, y), a land cell, with v leaves the ids and seeds before it as they were. */
  lemma LabelSeeds(t0: map<Cell, int>, t: map<Cell, int>, eq: map<int, set<int>>, seed: map<int, Cell>, x: int, y: int, v: int)
    requires Seeded(t0, t, eq, seed, x, y) && Walked(t0, t, x, y) && (x, y) in LandOf(t0) && (x, y) in t
    ensures Seeded(t0, t[(x, y) := v], eq, seed, x, y + 1) && Walked(t0, t[(x, y) := v], x, y + 1)
  {
  }

  /** A land tile with no land reached next to it starts a new chunk with id next. */
  lemma VisitFresh(t0: map<Cell, int>, t: map<Cell, int>, eq: map<int, set<int>>, seed: map<int, Cell>,
                   next: int, x: int, y: int)
    requires Labelled(t0, t, eq, seed, next, x, y)
    requires (x, y) in LandOf(t0)
    requires forall d :: d in LandOf(t0) && !NotBefore(d, x, y) ==> !Adjacent((x, y), d)
    ensures Labelled(t0, t[(x, y) := next], Insert(eq, next, next), seed[next := (x, y)], next + 1, x, y + 1)
  {
    var z := (x, y);
    var t', eq', seed' := t[z := next], Insert(eq, next, next), seed[next := z];
    assert Ids(t0, t', eq', next + 1);
    LabelSeeds(t0, t, eq, seed, x, y, next);
    assert Seeded(t0, t', eq', seed', x, y + 1);
    ChunksFresh(t0, t, seed, next, x, y);
    LinksFresh(t0, eq, seed, next, z);
    TouchingFresh(t0, t, eq, x, y, next);
  }

  lemma ChunksFresh(t0: map<Cell, int>, t: map<Cell, int>, seed: map<int, Cell>, next: int, x: int, y: int)
    requires Chunks(t0, t, seed, next, x, y) && (x, y) in LandOf(t0) && Land <= next
    ensures Chunks(t0, t[(x, y) := next], seed[next := (x, y)], next + 1, x, y + 1)
  {
    var l := LandOf(t0);
    var z := (x, y);
    var t', seed' := t[z := next], seed[next := z];
    ReachesSelf(l, z);
    forall c | c in l && !NotBefore(c, x, y + 1)
      ensures c in t' && Land <= t'[c] < next + 1 && t'[c] in seed' && Reaches(l, c, seed'[t'[c]])
    {
      if c != z {
        assert seed'[t'[c]] == seed[t[c]];
      }
    }
  }

  lemma LinksFresh(t0: map<Cell, int>, eq: map<int, set<int>>, seed: map<int, Cell>, next: int, z: Cell)
    requires Links(t0, eq, seed) && z in LandOf(t0) && next !in eq && forall a :: a in eq ==> a in seed
    requires forall a :: a in eq ==> next !in eq[a]
    ensures Links(t0, Insert(eq, next, next), seed[next := z])
  {
    var l := LandOf(t0);
    var eq', seed' := Insert(eq, next, next), seed[next := z];
    ReachesSelf(l, z);
    forall a, b | a in eq' && b in eq'[a]
      ensures a in seed' && b in seed' && Reaches(l, seed'[a], seed'[b])
    {
      if a != next {
        assert a in eq && eq'[a] == eq[a];
        assert b in eq[a] && b != next;
        assert seed'[a] == seed[a] && seed'[b] == seed[b];
      } else {
        assert eq'[a] == {next};
        assert b == next;
      }
    }
  }

  lemma TouchingFresh(t0: map<Cell, int>, t: map<Cell, int>, eq: map<int, set<int>>, x: int, y: int, next: int)
    requires Touching(t0, t, eq, x, y) && (x, y) in LandOf(t0) && (x, y) in t
    requires forall d :: d in LandOf(t0) && !NotBefore(d, x, y) ==> !Adjacent((x, y), d)
    requires forall c :: c in t && c != (x, y) ==> t[c] in eq ==> t[c] != next
    ensures Touching(t0, t[(x, y) := next], Insert(eq, next, next), x, y + 1)
  {
    var l := LandOf(t0);
    var t', eq' := t[(x, y) := next], Insert(eq, next, next);
    forall c, d | c in l && d in l && !NotBefore(c, x, y + 1) && !NotBefore(d, x, y + 1) && Adjacent(c, d)
      ensures c in t' && d in t' && (t'[c] == t'[d] || (t'[c] in eq' && t'[d] in eq'[t'[c]]))
    {
      AdjacentSymmetric(c, d);
    }
  }

  /** A land tile whose land neighbours reached all hold v joins the chunk v of the neighbour nb. */
  lemma VisitCopy(t0: map<Cell, int>, t: map<Cell, int>, eq: map<int, set<int>>, seed: map<int, Cell>,
                  next: int, x: int, y: int, nb: Cell, v: int)
    requires Labelled(t0, t, eq, seed, next, x, y)
    requires (x, y) in LandOf(t0) && nb in LandOf(t0) && !NotBefore(nb, x, y) && Adjacent((x, y), nb) && t[nb] == v
    requires forall d :: d in LandOf(t0) && !NotBefore(d, x, y) && Adjacent((x, y), d) ==> t[d] == v
    ensures Labelled(t0, t[(x, y) := v], eq, seed, next, x, y + 1)
  {
    LabelSeeds(t0, t, eq, seed, x, y, v);
    ChunksJoin(t0, t, seed, next, x, y, nb, v);
    TouchingCopy(t0, t, eq, x, y, v);
  }

  lemma ChunksJoin(t0: map<Cell, int>, t: map<Cell, int>, seed: map<int, Cell>, next: int, x: int, y: int, nb: Cell, v: int)
    requires Chunks(t0, t, seed, next, x, y) && (x, y) in LandOf(t0) && (x, y) in t
    requires nb in LandOf(t0) && !NotBefore(nb, x, y) && Adjacent((x, y), nb) && t[nb] == v
    ensures Chunks(t0, t[(x, y) := v], seed, next, x, y + 1)
  {
    var l := LandOf(t0);
    var z := (x, y);
    var t' := t[z := v];
    forall c | c in l && !NotBefore(c, x, y + 1)
      ensures c in t' && Land <= t'[c] < next && t'[c] in seed && Reaches(l, c, seed[t'[c]])
    {
      if c == z {
        ReachesBefore(l, l, z, nb, seed[v]);
      }
    }
  }

  lemma TouchingCopy(t0: map<Cell, int>, t: map<Cell, int>, eq: map<int, set<int>>, x: int, y: int, v: int)
    requires Touching(t0, t, eq, x, y) && (x, y) in LandOf(t0) && (x, y) in t
    requires forall d :: d in LandOf(t0) && !NotBefore(d, x, y) && Adjacent((x, y), d) ==> d in t && t[d] == v
    ensures Touching(t0, t[(x, y) := v], eq, x, y + 1)
  {
    var l := LandOf(t0);
    var t' := t[(x, y) := v];
    forall c, d | c in l && d in l && !NotBefore(c, x, y + 1) && !NotBefore(d, x, y + 1) && Adjacent(c, d)
      ensures c in t' && d in t' && (t'[c] == t'[d] || (t'[c] in eq && t'[d] in eq[t'[c]]))
    {
      AdjacentSymmetric(c, d);
    }
  }

  /**
   * A land tile between two chunks a (the row before) and b (the column before) joins a, and
   * each of a and b goes into the other's set.
   */
  lemma VisitLink(t0: map<Cell, int>, t: map<Cell, int>, eq: map<int, set<int>>, seed: map<int, Cell>,
                  next: int, x: int, y: int, a: int, b: int)
    requires Labelled(t0, t, eq, seed, next, x, y)
    requires (x, y) in LandOf(t0) && a != b
    requires (x - 1, y) in LandOf(t0) && t[(x - 1, y)] == a && (x, y - 1) in LandOf(t0) && t[(x, y - 1)] == b
    requires forall d :: d in LandOf(t0) && !NotBefore(d, x, y) && Adjacent((x, y), d) ==> t[d] == a || t[d] == b
    ensures Labelled(t0, t[(x, y) := a], Insert(Insert(eq, a, b), b, a), seed, next, x, y + 1)
  {
    var l := LandOf(t0);
    var eq' := Insert(Insert(eq, a, b), b, a);
    Reached(t0, t, eq, seed, next, x, y, (x - 1, y));
    Reached(t0, t, eq, seed, next, x, y, (x, y - 1));
    LinkReaches(l, seed[a], seed[b], x, y);
    LinkWellFormed(eq, a, b);
    assert Ids(t0, t[(x, y) := a], eq', next);
    LabelSeeds(t0, t, eq, seed, x, y, a);
    Neighbours(x, y);
    ChunksJoin(t0, t, seed, next, x, y, (x - 1, y), a);
    LinksLink(t0, eq, seed, a, b);
    TouchingLink(t0, t, eq, x, y, a, b);
  }

  lemma LinksLink(t0: map<Cell, int>, eq: map<int, set<int>>, seed: map<int, Cell>, a: int, b: int)
    requires Links(t0, eq, seed) && a in eq && b in eq && a in seed && b in seed
    requires Reaches(LandOf(t0), seed[a], seed[b]) && Reaches(LandOf(t0), seed[b], seed[a])
    ensures Links(t0, Insert(Insert(eq, a, b), b, a), seed)
  {
  }

  lemma TouchingLink(t0: map<Cell, int>, t: map<Cell, int>, eq: map<int, set<int>>, x: int, y: int, a: int, b: int)
    requires Touching(t0, t, eq, x, y) && (x, y) in LandOf(t0) && (x, y) in t && a in eq && b in eq
    requires forall d :: d in LandOf(t0) && !NotBefore(d, x, y) && Adjacent((x, y), d) ==> d in t && (t[d] == a || t[d] == b)
    ensures Touching(t0, t[(x, y) := a], Insert(Insert(eq, a, b), b, a), x, y + 1)
  {
    var l := LandOf(t0);
    var t', eq' := t[(x, y) := a], Insert(Insert(eq, a, b), b, a);
    forall c, d | c in l && d in l && !NotBefore(c, x, y + 1) && !NotBefore(d, x, y + 1) && Adjacent(c, d)
      ensures c in t' && d in t' && (t'[c] == t'[d] || (t'[c] in eq' && t'[d] in eq'[t'[c]]))
    {
      AdjacentSymmetric(c, d);
    }
  }

  /** The seeds of the chunks on either side of a land cell (x, y) reach each other through it. */
  lemma LinkReaches(l: set<Cell>, sa: Cell, sb: Cell, x: int, y: int)
    requires (x, y) in l && Reaches(l, (x - 1, y), sa) && Reaches(l, (x, y - 1), sb)
    ensures Reaches(l, sa, sb) && Reaches(l, sb, sa)
  {
    var z := (x, y);
    ReachesStart(l, (x, y - 1), sb);
    ReachesSelf(l, (x, y - 1));
    ReachesBefore(l, l, z, (x, y - 1), (x, y - 1));
    ReachesBefore(l, l, (x - 1, y), z, (x, y - 1));
    ReachesBack(l, (x - 1, y), sa);
    ReachesJoin(l, sa, (x - 1, y), (x, y - 1));
    ReachesJoin(l, sa, (x, y - 1), sb);
    ReachesBack(l, sa, sb);
  }

  /** Putting two keys into each other's sets keeps a map well formed. */
  lemma LinkWellFormed(eq: map<int, set<int>>, a: int, b: int)
    requires WellFormed(eq) && a in eq && b in eq
    ensures WellFormed(Insert(Insert(eq, a, b), b, a))
  {
  }

  /**
   * What a land tile at (x, y) sees: left and above, as get_left and get_above read them, are
   * water or the ids of land cells already labelled, and those two cells are the only land
   * reached next to it.
   */
  lemma Around(t0: map<Cell, int>, t: map<Cell, int>, eq: map<int, set<int>>, seed: map<int, Cell>,
               next: int, x: int, y: int, left: int, above: int)
    requires Labelled(t0, t, eq, seed, next, x, y)
    requires (x, y) in t && t[(x, y)] != Water
    requires left == if (x - 1, y) in t then t[(x - 1, y)] else Water
    requires above == if (x, y - 1) in t then t[(x, y - 1)] else Water
    ensures (x, y) in LandOf(t0)
    ensures left != Water ==> (x - 1, y) in LandOf(t0) && t[(x - 1, y)] == left && left in eq
    ensures above != Water ==> (x, y - 1) in LandOf(t0) && t[(x, y - 1)] == above && above in eq
    ensures forall d :: d in LandOf(t0) && !NotBefore(d, x, y) && Adjacent((x, y), d) ==>
      (d == (x - 1, y) && left != Water && t[d] == left) || (d == (x, y - 1) && above != Water && t[d] == above)
  {
    Neighbours(x, y);
    if (x - 1, y) in t {
      Reached(t0, t, eq, seed, next, x, y, (x - 1, y));
    }
    if (x, y - 1) in t {
      Reached(t0, t, eq, seed, next, x, y, (x, y - 1));
    }
  }

  /** Labelled holds of equal states alike. */
  lemma LabelledAs(t0: map<Cell, int>, t: map<Cell, int>, eq: map<int, set<int>>, seed: map<int, Cell>, next: int,
                   t': map<Cell, int>, eq': map<int, set<int>>, seed': map<int, Cell>, next': int, x: int, y: int)
    requires Labelled(t0, t, eq, seed, next, x, y)
    requires t' == t && eq' == eq && seed' == seed && next' == next
    ensures Labelled(t0, t', eq', seed', next', x, y)
  {
  }

  /** grid[x][y] = v: the contents are those before with the one tile changed. */
  method SetTile(grid: array2<int>, x: int, y: int, v: int)
    requires 0 <= x < grid.Length0 && 0 <= y < grid.Length1
    modifies grid
    ensures Tiles(grid) == old(Tiles(grid))[(x, y) := v]
  {
    grid[x, y] := v;
  }

  /** The body of isolate_island_chunks' walk for the tile (x, y): it labels one more tile. */
  method VisitTile(grid: array2<int>, x: int, y: int, eq: map<int, set<int>>, ghost seed: map<int, Cell>, next: int,
                   ghost t0: map<Cell, int>)
    returns (eq': map<int, set<int>>, ghost seed': map<int, Cell>, next': int)
    requires 0 <= x < grid.Length0 && 0 <= y < grid.Length1
    requires Labelled(t0, Tiles(grid), eq, seed, next, x, y)
    modifies grid
    ensures Labelled(t0, Tiles(grid), eq', seed', next', x, y + 1)
  {
    eq', seed', next' := eq, seed, next;
    if grid[x, y] != Water {
      var left := GetLeft(grid, x, y);
      var above := GetAbove(grid, x, y);
      Around(t0, Tiles(grid), eq, seed, next, x, y, left, above);
      if left == Water && above == Water {
        eq', seed', next' := FreshTile(grid, x, y, eq, seed, next, t0);
      } else if above == Water || left == above {
        CopyTile(grid, x, y, eq, seed, next, t0, (x - 1, y), left);
      } else if left == Water {
        CopyTile(grid, x, y, eq, seed, next, t0, (x, y - 1), above);
      } else {
        eq' := LinkTile(grid, x, y, eq, seed, next, t0, left, above);
      }
    } else {
      VisitWater(t0, Tiles(grid), eq, seed, next, x, y);
    }
  }

  /** A land tile with no land reached next to it: it gets the id next, a chunk of its own. */
  method FreshTile(grid: array2<int>, x: int, y: int, eq: map<int, set<int>>, ghost seed: map<int, Cell>, next: int,
                   ghost t0: map<Cell, int>)
    returns (eq': map<int, set<int>>, ghost seed': map<int, Cell>, next': int)
    requires 0 <= x < grid.Length0 && 0 <= y < grid.Length1
    requires Labelled(t0, Tiles(grid), eq, seed, next, x, y)
    requires (x, y) in LandOf(t0)
    requires forall d :: d in LandOf(t0) && !NotBefore(d, x, y) ==> !Adjacent((x, y), d)
    modifies grid
    ensures Labelled(t0, Tiles(grid), eq', seed', next', x, y + 1)
  {
    VisitFresh(t0, Tiles(grid), eq, seed, next, x, y);
    SetTile(grid, x, y, next);
    eq', seed', next' := Insert(eq, next, next), seed[next := (x, y)], next + 1;
  }

  /** A land tile whose land neighbours reached all hold v: it gets the id v. */
  method CopyTile(grid: array2<int>, x: int, y: int, eq: map<int, set<int>>, ghost seed: map<int, Cell>, next: int,
                  ghost t0: map<Cell, int>, ghost nb: Cell, v: int)
    requires 0 <= x < grid.Length0 && 0 <= y < grid.Length1
    requires Labelled(t0, Tiles(grid), eq, seed, next, x, y)
    requires (x, y) in LandOf(t0) && nb in LandOf(t0) && !NotBefore(nb, x, y) && Adjacent((x, y), nb) && Tiles(grid)[nb] == v
    requires forall d :: d in LandOf(t0) && !NotBefore(d, x, y) && Adjacent((x, y), d) ==> Tiles(grid)[d] == v
    modifies grid
    ensures Labelled(t0, Tiles(grid), eq, seed, next, x, y + 1)
  {
    VisitCopy(t0, Tiles(grid), eq, seed, next, x, y, nb, v);
    SetTile(grid, x, y, v);
  }

  /** A land tile between the chunks a and b: it gets the id a, and a and b go into each other's sets. */
  method LinkTile(grid: array2<int>, x: int, y: int, eq: map<int, set<int>>, ghost seed: map<int, Cell>, next: int,
                  ghost t0: map<Cell, int>, a: int, b: int)
    returns (eq': map<int, set<int>>)
    requires 0 <= x < grid.Length0 && 0 <= y < grid.Length1
    requires Labelled(t0, Tiles(grid), eq, seed, next, x, y)
    requires (x, y) in LandOf(t0) && a != b
    requires (x - 1, y) in LandOf(t0) && Tiles(grid)[(x - 1, y)] == a && (x, y - 1) in LandOf(t0) && Tiles(grid)[(x, y - 1)] == b
    requires forall d :: d in LandOf(t0) && !NotBefore(d, x, y) && Adjacent((x, y), d) ==> Tiles(grid)[d] == a || Tiles(grid)[d] == b
    modifies grid
    ensures Labelled(t0, Tiles(grid), eq', seed, next, x, y + 1)
  {
    VisitLink(t0, Tiles(grid), eq, seed, next, x, y, a, b);
    SetTile(grid, x, y, a);
    eq' := Insert(eq, a, b);
    eq' := Insert(eq', b, a);
  }

  /**
   * isolate_island_chunks: a walk over the grid row by row, starting from an empty map. A land
   * tile with water both left and above starts a new chunk with the next id (equivalent to
   * itself); with land on one side only, or the same id on both, it takes that id; between two
   * different ids it takes the left one and the two ids go into each other's sets. Afterwards
   * every tile is labelled as Labelled states.
   */
  method IsolateIslandChunks(grid: array2<int>) returns (eq: map<int, set<int>>, ghost seed: map<int, Cell>, ghost next: int)
    modifies grid
    ensures Labelled(old(Tiles(grid)), Tiles(grid), eq, seed, next, grid.Length0, 0)
  {
    ghost var t0 := Tiles(grid);
    LabelledStart(t0);
    eq, seed := map[], map[];
    var nextIsland := Land;
    for x := 0 to grid.Length0
      invariant Labelled(t0, Tiles(grid), eq, seed, nextIsland, x, 0)
    {
      for y := 0 to grid.Length1
        invariant Labelled(t0, Tiles(grid), eq, seed, nextIsland, x, y)
      {
        eq, seed, nextIsland := VisitTile(grid, x, y, eq, seed, nextIsland, t0);
      }
      LabelledMove(t0, Tiles(grid), eq, seed, nextIsland, x, grid.Length1, x + 1, 0);
    }
    next := nextIsland;
  }

  // ---------------------------------------------------------------------------------------
  // Counting: one non-empty set per island.
  // ---------------------------------------------------------------------------------------

  /** The keys of m whose sets are not empty. */
  ghost function NonEmpty(m: map<int, set<int>>): set<int>
  {
    set k | k in m && m[k] != {}
  }

  /** count_unique_islands: the number of keys whose set is not empty. */
  method CountUniqueIslands(m: map<int, set<int>>) returns (count: int)
    ensures count == |NonEmpty(m)|
  {
    count := 0;
    var rest := m.Keys;
    ghost var seen: set<int> := {};
    while rest != {}
      invariant rest == m.Keys - seen && seen <= m.Keys
      invariant count == |set k | k in seen && m[k] != {}|
      decreases rest
    {
      Inhabited(rest);
      var k :| k in rest;
      ghost var before := set j | j in seen && m[j] != {};
      if m[k] != {} {
        assert (set j | j in seen + {k} && m[j] != {}) == before + {k};
        count := count + 1;
      } else {
        assert (set j | j in seen + {k} && m[j] != {}) == before;
      }
      seen := seen + {k};
      rest := rest - {k};
    }
    assert seen == m.Keys;
  }

  /** The ids that are the smallest of their group. */
  ghost function Roots(m: map<int, set<int>>): set<int>
  {
    set k | k in m && Root(m, k) == k
  }

  /** After the merge the keys with a non-empty set are the roots of the groups. */
  lemma MergedRoots(m: map<int, set<int>>, r: map<int, set<int>>)
    requires WellFormed(m) && r.Keys == m.Keys
    requires forall k :: k in m ==> r[k] == if Root(m, k) == k then Class(m, k) else {}
    ensures NonEmpty(r) == Roots(m)
  {
    forall k | k in m
      ensures r[k] != {} <==> Root(m, k) == k
    {
      JoinedSelf(m, k);
    }
  }

  /**
   * What the finished walk leaves: every land cell holds an id of eq that reaches (through
   * land) the id's seed, every id's seed is a land cell holding it, each id in a set reaches
   * its key seed to seed, and two adjacent land cells hold one id or each other's ids.
   */
  ghost predicate Final(l: set<Cell>, t: map<Cell, int>, eq: map<int, set<int>>, seed: map<int, Cell>)
  {
    WellFormed(eq)
    && (forall c :: c in l ==> c in t && t[c] in eq && t[c] in seed && Reaches(l, c, seed[t[c]]))
    && (forall k :: k in eq ==> k in seed && seed[k] in l && seed[k] in t && t[seed[k]] == k)
    && (forall a, b :: a in eq && b in eq[a] ==> a in seed && b in seed && Reaches(l, seed[a], seed[b]))
    && (forall c, d :: c in l && d in l && Adjacent(c, d) ==> t[c] == t[d] || t[d] in eq[t[c]])
  }

  /** Once every tile lies before (x, y), Labelled gives Final. */
  lemma Finished(t0: map<Cell, int>, t: map<Cell, int>, eq: map<int, set<int>>, seed: map<int, Cell>,
                 next: int, x: int, y: int)
    requires Labelled(t0, t, eq, seed, next, x, y) && forall c :: c in t0 ==> !NotBefore(c, x, y)
    ensures Final(LandOf(t0), t, eq, seed)
  {
    forall c | c in LandOf(t0)
      ensures t[c] in eq
    {
      Reached(t0, t, eq, seed, next, x, y, c);
    }
  }

  /** A walk through land ends on a tile whose id is reached from the id of the tile it starts on. */
  lemma {:induction false} PathJoined(l: set<Cell>, t: map<Cell, int>, eq: map<int, set<int>>, seed: map<int, Cell>,
                                      p: seq<Cell>)
    requires Final(l, t, eq, seed) && IsPath(p, l)
    ensures p[0] in t && p[|p| - 1] in t && Joined(eq, t[p[0]], t[p[|p| - 1]])
  {
    var c := p[|p| - 1];
    if |p| == 1 {
      JoinedSelf(eq, t[c]);
    } else {
      var front := p[..|p| - 1];
      assert IsPath(front, l);
      PathJoined(l, t, eq, seed, front);
      var b := front[|front| - 1];
      assert Adjacent(b, c);
      if t[b] != t[c] {
        JoinedStep(eq, t[p[0]], t[b], t[c]);
      }
    }
  }

  /** A walk through the map leads from the seed of its first id to the seed of its last, through land. */
  lemma {:induction false} WalkReaches(l: set<Cell>, t: map<Cell, int>, eq: map<int, set<int>>, seed: map<int, Cell>,
                                       p: seq<int>)
    requires Final(l, t, eq, seed) && IsWalk(eq, p)
    ensures p[0] in seed && p[|p| - 1] in seed && Reaches(l, seed[p[0]], seed[p[|p| - 1]])
  {
    SeedOf(l, t, eq, seed, p[0]);
    SeedOf(l, t, eq, seed, p[|p| - 1]);
    if |p| == 1 {
      ReachesSelf(l, seed[p[0]]);
    } else {
      var front := p[..|p| - 1];
      assert IsWalk(eq, front);
      WalkReaches(l, t, eq, seed, front);
      var b := front[|front| - 1];
      assert b == p[|p| - 2] && b in eq && p[|p| - 1] in eq[b];
      ReachesJoin(l, seed[p[0]], seed[b], seed[p[|p| - 1]]);
    }
  }

  lemma SeedOf(l: set<Cell>, t: map<Cell, int>, eq: map<int, set<int>>, seed: map<int, Cell>, k: int)
    requires Final(l, t, eq, seed) && k in eq
    ensures k in seed && seed[k] in l
  {
  }

  /** Two ids are joined in the map exactly when their seeds are on one island. */
  lemma JoinedIsReaches(l: set<Cell>, t: map<Cell, int>, eq: map<int, set<int>>, seed: map<int, Cell>, a: int, b: int)
    requires Final(l, t, eq, seed) && a in eq && b in eq
    ensures Joined(eq, a, b) <==> Reaches(l, seed[a], seed[b])
  {
    if Joined(eq, a, b) {
      var p :| IsWalk(eq, p) && p[0] == a && p[|p| - 1] == b;
      WalkReaches(l, t, eq, seed, p);
    }
    if Reaches(l, seed[a], seed[b]) {
      var p :| IsPath(p, l) && p[0] == seed[a] && p[|p| - 1] == seed[b];
      PathJoined(l, t, eq, seed, p);
    }
  }

  /** The island of the seed of each id. */
  ghost function IslandOf(l: set<Cell>, seed: map<int, Cell>): int -> set<Cell>
  {
    k => if k in seed then Component(l, seed[k]) else {}
  }

  /** A map one-to-one on s has as many images as s has elements. */
  lemma {:induction false} ImageSize(s: set<int>, f: int -> set<Cell>)
    requires forall a, b :: a in s && b in s && f(a) == f(b) ==> a == b
    ensures |set k | k in s :: f(k)| == |s|
    decreases |s|
  {
    if s != {} {
      Inhabited(s);
      var a :| a in s;
      ImageSize(s - {a}, f);
      assert (set k | k in s :: f(k)) == (set k | k in s - {a} :: f(k)) + {f(a)};
    }
  }

  /** The islands are the islands of the roots' seeds, each from one root. */
  lemma RootsAreIslands(l: set<Cell>, t: map<Cell, int>, eq: map<int, set<int>>, seed: map<int, Cell>)
    requires Final(l, t, eq, seed)
    ensures |Roots(eq)| == |Regions(l)|
  {
    var f := IslandOf(l, seed);
    forall a, b | a in Roots(eq) && b in Roots(eq) && f(a) == f(b)
      ensures a == b
    {
      RootsOneToOne(l, t, eq, seed, a, b);
    }
    ImageSize(Roots(eq), f);
    forall r | r in Regions(l)
      ensures r in set k | k in Roots(eq) :: f(k)
    {
      var c :| c in l && r == Component(l, c);
      var k := RegionRoot(l, t, eq, seed, c);
      assert f(k) == r;
    }
    assert (set k | k in Roots(eq) :: f(k)) == Regions(l);
  }

  /** Two roots whose seeds lie on one island are the same root. */
  lemma RootsOneToOne(l: set<Cell>, t: map<Cell, int>, eq: map<int, set<int>>, seed: map<int, Cell>, a: int, b: int)
    requires Final(l, t, eq, seed) && a in Roots(eq) && b in Roots(eq)
    requires IslandOf(l, seed)(a) == IslandOf(l, seed)(b)
    ensures a == b
  {
    ReachesSelf(l, seed[b]);
    assert seed[b] in Component(l, seed[a]);
    JoinedIsReaches(l, t, eq, seed, a, b);
    RootOf(eq, a, b);
  }

  /** The island of a land cell is the island of the seed of a root. */
  lemma RegionRoot(l: set<Cell>, t: map<Cell, int>, eq: map<int, set<int>>, seed: map<int, Cell>, c: Cell) returns (k: int)
    requires Final(l, t, eq, seed) && c in l
    ensures k in Roots(eq) && k in seed && Component(l, c) == Component(l, seed[k])
  {
    var a := t[c];
    k := Root(eq, a);
    RootIn(eq, a);
    RootOf(eq, a, k);
    JoinedIsReaches(l, t, eq, seed, a, k);
    ReachesJoin(l, c, seed[a], seed[k]);
    SameComponent(l, c, seed[k]);
  }

  /**
   * count_islands: the chunks are isolated, the map merged and its non-empty sets counted; the
   * count is the number of 4-connected islands of the grid as it was.
   */
  method CountIslands(grid: array2<int>) returns (count: int)
    modifies grid
    ensures count == |Regions(LandOf(old(Tiles(grid))))|
  {
    ghost var t0 := Tiles(grid);
    var eq, seed, next := IsolateIslandChunks(grid);
    var merged := MergeEquivalentIslandMap(eq);
    count := CountUniqueIslands(merged);
    MergedRoots(eq, merged);
    Finished(t0, Tiles(grid), eq, seed, next, grid.Length0, 0);
    RootsAreIslands(LandOf(t0), Tiles(grid), eq, seed);
  }
}
