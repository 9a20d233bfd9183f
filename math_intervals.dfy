/**
 * The coalescing interval set of src/math_intervals.cc: a vector of closed intervals sorted by
 * left edge, to which intervals are added (merging with the ones they collide with) and in which
 * points are looked up. The float edges of the C++ code are modelled as reals.
 */
module Intervals {
  /** A closed interval [left, right]. */
  datatype Interval = Interval(left: real, right: real)

  predicate Contains(i: Interval, x: real)
  {
    i.left <= x <= i.right
  }

  /** Every point of inner lies in outer. */
  predicate Within(inner: Interval, outer: Interval)
  {
    outer.left <= inner.left && inner.right <= outer.right
  }

  /** The two intervals share a point. */
  predicate Meets(a: Interval, b: Interval)
  {
    a.left <= b.right && b.left <= a.right
  }

  /** Some stored interval contains x. */
  predicate Covered(s: seq<Interval>, x: real)
  {
    exists k :: 0 <= k < |s| && Contains(s[k], x)
  }

  /** Sorted by left edge, the order Interval::operator< gives. */
  predicate SortedByLeft(s: seq<Interval>)
  {
    forall j, k :: 0 <= j < k < |s| ==> s[j].left <= s[k].left
  }

  /** Every interval is well formed and ends strictly before the next one begins. */
  predicate Separated(s: seq<Interval>)
  {
    (forall k :: 0 <= k < |s| ==> s[k].left <= s[k].right)
    && forall j, k :: 0 <= j < k < |s| ==> s[j].right < s[k].left
  }

  /** vector::erase at i. */
  function Erase(s: seq<Interval>, i: nat): (r: seq<Interval>)
    requires i < |s|
    ensures |r| == |s| - 1
    ensures forall k :: 0 <= k < |r| ==> r[k] == if k < i then s[k] else s[k + 1]
  {
    s[..i] + s[i + 1..]
  }

  /**
   * push_back followed by std::sort on a vector already sorted by left edge: the new interval
   * goes after every interval whose left edge is not above its own. (std::sort leaves the order
   * of equal left edges open; this is one of the orders it may produce.)
   */
  function Place(s: seq<Interval>, n: Interval): (r: seq<Interval>)
    ensures |r| == |s| + 1
  {
    if s == [] then [n]
    else if n.left < s[0].left then [n] + s
    else [s[0]] + Place(s[1..], n)
  }

  /** Placing is a permutation of the vector with the new interval pushed back. */
  lemma {:induction false} PlacePermutes(s: seq<Interval>, n: Interval)
    ensures multiset(Place(s, n)) == multiset(s) + multiset{n}
  {
    if s != [] && !(n.left < s[0].left) {
      PlacePermutes(s[1..], n);
      assert s == [s[0]] + s[1..];
    }
  }

  /** What std::sort promises: placing into a sorted vector leaves it sorted. */
  lemma {:induction false} PlaceSorted(s: seq<Interval>, n: Interval)
    requires SortedByLeft(s)
    ensures SortedByLeft(Place(s, n))
  {
    if s != [] && !(n.left < s[0].left) {
      PlaceSorted(s[1..], n);
      PlacePermutes(s[1..], n);
      var r := Place(s[1..], n);
      forall k | 0 <= k < |r|
        ensures s[0].left <= r[k].left
      {
        assert r[k] in multiset(s[1..]) + multiset{n};
        if r[k] != n {
          var j :| 0 <= j < |s[1..]| && s[1..][j] == r[k];
          assert s[j + 1] == r[k];
        }
      }
    }
  }

  /** Placing adds the points of the new interval and keeps every other point as it was. */
  lemma PlaceCovered(s: seq<Interval>, n: Interval, x: real)
    ensures Covered(Place(s, n), x) <==> Covered(s, x) || Contains(n, x)
  {
    var r := Place(s, n);
    PlacePermutes(s, n);
    if Covered(r, x) {
      var k :| 0 <= k < |r| && Contains(r[k], x);
      assert r[k] in multiset(s) + multiset{n};
      if r[k] != n {
        assert r[k] in s;
      }
    }
    if Covered(s, x) {
      var k :| 0 <= k < |s| && Contains(s[k], x);
      assert s[k] in multiset(r);
      assert s[k] in r;
    }
    if Contains(n, x) {
      assert n in multiset(r);
      assert n in r;
    }
  }

  /** Placing between the intervals that start at or before it and those that start after it. */
  lemma {:induction false} PlaceAt(s: seq<Interval>, n: Interval, j: nat)
    requires j <= |s|
    requires forall k :: 0 <= k < j ==> s[k].left <= n.left
    requires forall k :: j <= k < |s| ==> n.left < s[k].left
    ensures Place(s, n) == s[..j] + [n] + s[j..]
  {
    if s != [] {
      if j == 0 {
        assert n.left < s[0].left;
      } else {
        PlaceAt(s[1..], n, j - 1);
        assert s[1..][..j - 1] == s[1..j] && s[1..][j - 1..] == s[j..];
        assert [s[0]] + (s[1..j] + [n] + s[j..]) == s[..j] + [n] + s[j..];
      }
    }
  }

  /** Erasing one interval removes its points, unless another interval holds them too. */
  lemma EraseCovered(s: seq<Interval>, i: nat, x: real)
    requires i < |s|
    ensures Covered(s, x) <==> Covered(Erase(s, i), x) || Contains(s[i], x)
  {
    var r := Erase(s, i);
    if Covered(s, x) && !Contains(s[i], x) {
      var k :| 0 <= k < |s| && Contains(s[k], x);
      if k < i {
        assert r[k] == s[k];
      } else {
        assert r[k - 1] == s[k];
      }
    }
    if Covered(r, x) {
      var k :| 0 <= k < |r| && Contains(r[k], x);
      assert r[k] == s[if k < i then k else k + 1];
    }
  }

  lemma EraseSorted(s: seq<Interval>, i: nat)
    requires i < |s| && SortedByLeft(s)
    ensures SortedByLeft(Erase(s, i))
  {
    var r := Erase(s, i);
    forall j, k | 0 <= j < k < |r|
      ensures r[j].left <= r[k].left
    {
      assert r[j] == s[if j < i then j else j + 1] && r[k] == s[if k < i then k else k + 1];
    }
  }

  lemma EraseSeparated(s: seq<Interval>, i: nat)
    requires i < |s| && Separated(s)
    ensures Separated(Erase(s, i))
  {
    var r := Erase(s, i);
    forall j, k | 0 <= j < k < |r|
      ensures r[j].right < r[k].left
    {
      assert r[j] == s[if j < i then j else j + 1] && r[k] == s[if k < i then k else k + 1];
    }
    forall k | 0 <= k < |r|
      ensures r[k].left <= r[k].right
    {
      assert r[k] == s[if k < i then k else k + 1];
    }
  }

  /**
   * The walk of addInterval from index i, with n the interval being added as it has grown so far.
   * addInterval as written is checksGap == false: an interval that starts before the stored one
   * at i is coalesced with it even when it ends before that one begins. checksGap == true adds
   * that missing test, in which case the new interval is placed on its own.
   */
  function Coalesce(s: seq<Interval>, i: nat, n: Interval, checksGap: bool): seq<Interval>
    requires i <= |s|
    decreases |s| - i
  {
    if i == |s| then Place(s, n)
    else
      var c := s[i];
      if n.left < c.left then
        if n.right > c.right then Coalesce(Erase(s, i), i, n, checksGap)
        else if checksGap && n.right < c.left then Place(s, n)
        else Place(Erase(s, i), Interval(n.left, c.right))
      else if n.left > c.right then Coalesce(s, i + 1, n, checksGap)
      else if n.right > c.right then Coalesce(Erase(s, i), i, Interval(c.left, n.right), checksGap)
      else s
  }

  /** addInterval, as a function of the stored intervals. */
  function Add(s: seq<Interval>, n: Interval, checksGap: bool): seq<Interval>
  {
    Coalesce(s, 0, n, checksGap)
  }

  /** The set stays sorted by left edge, on every path, the early return included. */
  lemma {:induction false} CoalesceSorted(s: seq<Interval>, i: nat, n: Interval, checksGap: bool)
    requires i <= |s| && SortedByLeft(s)
    ensures SortedByLeft(Coalesce(s, i, n, checksGap))
    decreases |s| - i
  {
    if i == |s| {
      PlaceSorted(s, n);
    } else {
      var c := s[i];
      if n.left < c.left {
        EraseSorted(s, i);
        if n.right > c.right {
          CoalesceSorted(Erase(s, i), i, n, checksGap);
        } else if checksGap && n.right < c.left {
          PlaceSorted(s, n);
        } else {
          PlaceSorted(Erase(s, i), Interval(n.left, c.right));
        }
      } else if n.left > c.right {
        CoalesceSorted(s, i + 1, n, checksGap);
      } else if n.right > c.right {
        EraseSorted(s, i);
        CoalesceSorted(Erase(s, i), i, Interval(c.left, n.right), checksGap);
      }
    }
  }

  /** Coverage only grows: every point covered before, and every point of n, is covered after. */
  lemma {:induction false} CoalesceCovers(s: seq<Interval>, i: nat, n: Interval, checksGap: bool, x: real)
    requires i <= |s|
    requires Covered(s, x) || Contains(n, x)
    ensures Covered(Coalesce(s, i, n, checksGap), x)
    decreases |s| - i
  {
    if i == |s| {
      PlaceCovered(s, n, x);
    } else {
      var c := s[i];
      EraseCovered(s, i, x);
      if n.left < c.left {
        if n.right > c.right {
          CoalesceCovers(Erase(s, i), i, n, checksGap, x);
        } else if checksGap && n.right < c.left {
          PlaceCovered(s, n, x);
        } else {
          PlaceCovered(Erase(s, i), Interval(n.left, c.right), x);
        }
      } else if n.left > c.right {
        CoalesceCovers(s, i + 1, n, checksGap, x);
      } else if n.right > c.right {
        CoalesceCovers(Erase(s, i), i, Interval(c.left, n.right), checksGap, x);
      }
    }
  }

  /** With the gap test, every point covered after was covered before or lies in n. */
  lemma {:induction false} CoalesceCoversOnly(s: seq<Interval>, i: nat, n: Interval, x: real)
    requires i <= |s|
    requires Covered(Coalesce(s, i, n, true), x)
    ensures Covered(s, x) || Contains(n, x)
    decreases |s| - i
  {
    if i == |s| {
      PlaceCovered(s, n, x);
    } else {
      var c := s[i];
      EraseCovered(s, i, x);
      if n.left < c.left {
        if n.right > c.right {
          CoalesceCoversOnly(Erase(s, i), i, n, x);
        } else if n.right < c.left {
          PlaceCovered(s, n, x);
        } else {
          PlaceCovered(Erase(s, i), Interval(n.left, c.right), x);
        }
      } else if n.left > c.right {
        CoalesceCoversOnly(s, i + 1, n, x);
      } else if n.right > c.right {
        CoalesceCoversOnly(Erase(s, i), i, Interval(c.left, n.right), x);
      }
    }
  }

  /** With the gap test, the set after covers exactly the points of the set before and of n. */
  lemma AddCoversExactly(s: seq<Interval>, n: Interval, x: real)
    ensures Covered(Add(s, n, true), x) <==> Covered(s, x) || Contains(n, x)
  {
    if Covered(s, x) || Contains(n, x) {
      CoalesceCovers(s, 0, n, true, x);
    }
    if Covered(Add(s, n, true), x) {
      CoalesceCoversOnly(s, 0, n, x);
    }
  }

  /** As written, adding [0, 1] to {[5, 6]} stores [0, 6], which covers 3 although neither did. */
  lemma AddCounterexample()
    ensures Add([Interval(5.0, 6.0)], Interval(0.0, 1.0), false) == [Interval(0.0, 6.0)]
    ensures Covered(Add([Interval(5.0, 6.0)], Interval(0.0, 1.0), false), 3.0)
    ensures !Covered([Interval(5.0, 6.0)], 3.0) && !Contains(Interval(0.0, 1.0), 3.0)
  {
    var r := Add([Interval(5.0, 6.0)], Interval(0.0, 1.0), false);
    assert Erase([Interval(5.0, 6.0)], 0) == [];
    assert r == [Interval(0.0, 6.0)];
    assert Contains(r[0], 3.0);
  }

  /** An interval lying inside a stored one leaves a separated set unchanged. */
  lemma {:induction false} CoalesceContained(s: seq<Interval>, i: nat, n: Interval, checksGap: bool, k: nat)
    requires Separated(s) && n.left <= n.right
    requires i <= k < |s| && Within(n, s[k])
    ensures Coalesce(s, i, n, checksGap) == s
    decreases k - i
  {
    if i < k {
      assert s[i].left <= s[i].right < s[k].left;
      CoalesceContained(s, i + 1, n, checksGap, k);
    }
  }

  lemma AddContained(s: seq<Interval>, n: Interval, checksGap: bool, k: nat)
    requires Separated(s) && n.left <= n.right
    requires k < |s| && Within(n, s[k])
    ensures Add(s, n, checksGap) == s
  {
    CoalesceContained(s, 0, n, checksGap, k);
  }

  /**
   * A separated set stays separated: the intervals the walk passed end before the new interval,
   * the ones after it begin after it.
   */
  lemma {:induction false} CoalesceSeparated(s: seq<Interval>, i: nat, n: Interval, checksGap: bool)
    requires i <= |s| && Separated(s) && n.left <= n.right
    requires forall k :: 0 <= k < i ==> s[k].right < n.left
    ensures Separated(Coalesce(s, i, n, checksGap))
    decreases |s| - i
  {
    if i == |s| {
      PlaceBetween(s, n, i);
    } else {
      var c := s[i];
      if n.left < c.left {
        EraseSeparated(s, i);
        var e := Erase(s, i);
        if n.right > c.right {
          CoalesceSeparated(e, i, n, checksGap);
        } else if checksGap && n.right < c.left {
          PlaceBetween(s, n, i);
        } else {
          assert forall k :: i <= k < |e| ==> c.right < e[k].left by {
            forall k | i <= k < |e|
              ensures c.right < e[k].left
            {
              assert e[k] == s[k + 1];
            }
          }
          PlaceBetween(e, Interval(n.left, c.right), i);
        }
      } else if n.left > c.right {
        CoalesceSeparated(s, i + 1, n, checksGap);
      } else if n.right > c.right {
        EraseSeparated(s, i);
        CoalesceSeparated(Erase(s, i), i, Interval(c.left, n.right), checksGap);
      }
    }
  }

  /** Placing an interval between the ones ending before it and the ones beginning after it. */
  lemma PlaceBetween(s: seq<Interval>, n: Interval, j: nat)
    requires j <= |s| && Separated(s) && n.left <= n.right
    requires forall k :: 0 <= k < j ==> s[k].right < n.left
    requires forall k :: j <= k < |s| ==> n.right < s[k].left
    ensures Separated(Place(s, n))
  {
    PlaceAt(s, n, j);
    var r := s[..j] + [n] + s[j..];
    assert r[j] == n;
    assert forall k :: 0 <= k < j ==> r[k] == s[k];
    assert forall k :: j < k < |r| ==> r[k] == s[k - 1];
    Splice(s, n, j, r);
  }

  /** An interval spliced in at j, between the ones ending before it and the ones beginning after it. */
  lemma Splice(s: seq<Interval>, n: Interval, j: nat, r: seq<Interval>)
    requires j <= |s| && Separated(s) && n.left <= n.right
    requires forall k :: 0 <= k < j ==> s[k].right < n.left
    requires forall k :: j <= k < |s| ==> n.right < s[k].left
    requires |r| == |s| + 1 && r[j] == n
    requires forall k :: 0 <= k < j ==> r[k] == s[k]
    requires forall k :: j < k < |r| ==> r[k] == s[k - 1]
    ensures Separated(r)
  {
    forall a, b | 0 <= a < b < |r|
      ensures r[a].right < r[b].left
    {
      if b < j {
        assert r[a] == s[a] && r[b] == s[b];
      } else if a < j && b == j {
        assert r[a] == s[a];
      } else if a < j {
        assert r[a] == s[a] && r[b] == s[b - 1];
      } else if a == j {
        assert r[b] == s[b - 1];
      } else {
        assert r[a] == s[a - 1] && r[b] == s[b - 1];
      }
    }
    forall k | 0 <= k < |r|
      ensures r[k].left <= r[k].right
    {
      if k < j {
        assert r[k] == s[k];
      } else if k > j {
        assert r[k] == s[k - 1];
      }
    }
  }

  /**
   * After adding n to a separated set, each stored interval either was stored before and shares
   * no point with n, or holds all of n: the intervals n collided with are merged into one.
   */
  lemma {:induction false} CoalesceApart(s0: seq<Interval>, s: seq<Interval>, i: nat, n0: Interval, n: Interval, checksGap: bool)
    requires i <= |s| && Separated(s) && n0.left <= n0.right && Within(n0, n)
    requires forall r :: r in s ==> r in s0
    requires forall k :: 0 <= k < i ==> s[k].right < n.left
    ensures forall r :: r in Coalesce(s, i, n, checksGap) ==> (r in s0 && !Meets(r, n0)) || Within(n0, r)
    decreases |s| - i
  {
    if i == |s| {
      PlacedApart(s0, s, i, n0, n);
    } else {
      var c := s[i];
      if n.left < c.left {
        EraseSeparated(s, i);
        var e := Erase(s, i);
        if n.right > c.right {
          CoalesceApart(s0, e, i, n0, n, checksGap);
        } else if checksGap && n.right < c.left {
          PlacedApart(s0, s, i, n0, n);
        } else {
          assert forall k :: i <= k < |e| ==> e[k] == s[k + 1];
          PlacedApart(s0, e, i, n0, Interval(n.left, c.right));
        }
      } else if n.left > c.right {
        CoalesceApart(s0, s, i + 1, n0, n, checksGap);
      } else if n.right > c.right {
        EraseSeparated(s, i);
        CoalesceApart(s0, Erase(s, i), i, n0, Interval(c.left, n.right), checksGap);
      } else {
        forall r | r in s
          ensures (r in s0 && !Meets(r, n0)) || Within(n0, r)
        {
          var k :| 0 <= k < |s| && s[k] == r;
        }
      }
    }
  }

  /** The last step of the walk: the grown interval placed among stored ones apart from n0. */
  lemma PlacedApart(s0: seq<Interval>, t: seq<Interval>, i: nat, n0: Interval, m: Interval)
    requires i <= |t| && Separated(t) && n0.left <= n0.right && Within(n0, m)
    requires forall r :: r in t ==> r in s0
    requires forall k :: 0 <= k < i ==> t[k].right < m.left
    requires forall k :: i <= k < |t| ==> m.right < t[k].left
    ensures forall r :: r in Place(t, m) ==> (r in s0 && !Meets(r, n0)) || Within(n0, r)
  {
    PlacePermutes(t, m);
    forall r | r in Place(t, m)
      ensures (r in s0 && !Meets(r, n0)) || Within(n0, r)
    {
      assert r in multiset(t) + multiset{m};
      if r != m {
        assert r in t;
        var k :| 0 <= k < |t| && t[k] == r;
      }
    }
  }

  /** Adding a well-formed interval to a separated set keeps it separated. */
  lemma AddSeparated(s: seq<Interval>, n: Interval, checksGap: bool)
    requires Separated(s) && n.left <= n.right
    ensures Separated(Add(s, n, checksGap))
  {
    CoalesceSeparated(s, 0, n, checksGap);
  }

  /**
   * In a separated set, the stored intervals the new one collides with are erased or merged:
   * afterwards each interval was stored before and shares no point with n, or holds all of n.
   */
  lemma AddMerges(s: seq<Interval>, n: Interval, checksGap: bool)
    requires Separated(s) && n.left <= n.right
    ensures forall r :: r in Add(s, n, checksGap) ==> (r in s && !Meets(r, n)) || Within(n, r)
  {
    CoalesceApart(s, s, 0, n, n, checksGap);
  }

  /** The stored intervals an interval is added to, one after the other from an empty set. */
  function Build(added: seq<Interval>, checksGap: bool): seq<Interval>
  {
    if added == [] then [] else Add(Build(added[..|added| - 1], checksGap), added[|added| - 1], checksGap)
  }

  /** With the gap test, a set built by adding intervals covers exactly the points of the intervals added. */
  lemma {:induction false} BuildCovers(added: seq<Interval>, x: real)
    ensures Covered(Build(added, true), x) <==> Covered(added, x)
  {
    if added != [] {
      var front := added[..|added| - 1];
      BuildCovers(front, x);
      AddCoversExactly(Build(front, true), added[|added| - 1], x);
      EraseCovered(added, |added| - 1, x);
      assert Erase(added, |added| - 1) == front;
    }
  }

  /** A built set is sorted by left edge, with or without the gap test. */
  lemma {:induction false} BuildSorted(added: seq<Interval>, checksGap: bool)
    ensures SortedByLeft(Build(added, checksGap))
  {
    if added != [] {
      BuildSorted(added[..|added| - 1], checksGap);
      CoalesceSorted(Build(added[..|added| - 1], checksGap), 0, added[|added| - 1], checksGap);
    }
  }

  /** Every stored interval begins at or before b. */
  predicate LeftsAtMost(s: seq<Interval>, b: real)
  {
    forall k :: 0 <= k < |s| ==> s[k].left <= b
  }

  /** Placing an interval that begins at or before b keeps every left edge at or before b. */
  lemma {:induction false} PlaceLefts(s: seq<Interval>, n: Interval, b: real)
    requires LeftsAtMost(s, b) && n.left <= b
    ensures LeftsAtMost(Place(s, n), b)
  {
    if s != [] && n.left >= s[0].left {
      PlaceLefts(s[1..], n, b);
    }
  }

  /** The walk only keeps, merges in or places left edges that were there, or the new one's. */
  lemma {:induction false} CoalesceLefts(s: seq<Interval>, i: nat, n: Interval, checksGap: bool, b: real)
    requires i <= |s| && LeftsAtMost(s, b) && n.left <= b
    ensures LeftsAtMost(Coalesce(s, i, n, checksGap), b)
    decreases |s| - i
  {
    if i == |s| {
      PlaceLefts(s, n, b);
    } else {
      var c := s[i];
      if n.left < c.left {
        if n.right > c.right {
          CoalesceLefts(Erase(s, i), i, n, checksGap, b);
        } else if checksGap && n.right < c.left {
          PlaceLefts(s, n, b);
        } else {
          PlaceLefts(Erase(s, i), Interval(n.left, c.right), b);
        }
      } else if n.left > c.right {
        CoalesceLefts(s, i + 1, n, checksGap, b);
      } else if n.right > c.right {
        CoalesceLefts(Erase(s, i), i, Interval(c.left, n.right), checksGap, b);
      }
    }
  }

  /**
   * The missing gap test only matters for a stored interval that begins after the new one ends:
   * when none does, the walk as written and the walk with the test agree.
   */
  lemma {:induction false} CoalesceAgrees(s: seq<Interval>, i: nat, n: Interval)
    requires i <= |s| && forall k :: i <= k < |s| ==> s[k].left <= n.right
    ensures Coalesce(s, i, n, false) == Coalesce(s, i, n, true)
    decreases |s| - i
  {
    if i < |s| {
      var c := s[i];
      if n.left < c.left {
        if n.right > c.right {
          CoalesceAgrees(Erase(s, i), i, n);
        }
      } else if n.left > c.right {
        CoalesceAgrees(s, i + 1, n);
      } else if n.right > c.right {
        CoalesceAgrees(Erase(s, i), i, Interval(c.left, n.right));
      }
    }
  }

  /** Each interval added ends at or after the left edge of every interval added before it. */
  predicate ReachesBack(added: seq<Interval>)
  {
    forall j, k :: 0 <= j < k < |added| ==> added[j].left <= added[k].right
  }

  /** Every left edge of a built set is the left edge of an added interval, so at most their bound. */
  lemma {:induction false} BuildLefts(added: seq<Interval>, b: real)
    requires forall k :: 0 <= k < |added| ==> added[k].left <= b
    ensures LeftsAtMost(Build(added, true), b)
  {
    if added != [] {
      BuildLefts(added[..|added| - 1], b);
      CoalesceLefts(Build(added[..|added| - 1], true), 0, added[|added| - 1], true, b);
    }
  }

  /** When every interval added reaches back to the ones before it, the gap test never fires. */
  lemma {:induction false} BuildAgrees(added: seq<Interval>)
    requires ReachesBack(added)
    ensures Build(added, false) == Build(added, true)
  {
    if added != [] {
      var front, n := added[..|added| - 1], added[|added| - 1];
      assert ReachesBack(front);
      BuildAgrees(front);
      BuildLefts(front, n.right);
      CoalesceAgrees(Build(front, true), 0, n);
    }
  }

  /**
   * The driver's set, built with addInterval as written, covers exactly the points of the
   * intervals added, provided each one reaches back to the ones added before it.
   */
  lemma BuildCoversAsWritten(added: seq<Interval>, x: real)
    requires ReachesBack(added)
    ensures Covered(Build(added, false), x) <==> Covered(added, x)
  {
    BuildAgrees(added);
    BuildCovers(added, x);
  }

  /** The membership rows over [(-1, 5), (3, 8), (12, 15)]. */
  lemma ThreeRows()
    ensures Covered(Build([Interval(-1.0, 5.0), Interval(3.0, 8.0), Interval(12.0, 15.0)], false), 4.0)
    ensures !Covered(Build([Interval(-1.0, 5.0), Interval(3.0, 8.0), Interval(12.0, 15.0)], false), 9.0)
    ensures Covered(Build([Interval(-1.0, 5.0), Interval(3.0, 8.0), Interval(12.0, 15.0)], false), 13.0)
  {
    BuildCoversAsWritten([Interval(-1.0, 5.0), Interval(3.0, 8.0), Interval(12.0, 15.0)], 4.0);
    BuildCoversAsWritten([Interval(-1.0, 5.0), Interval(3.0, 8.0), Interval(12.0, 15.0)], 9.0);
    BuildCoversAsWritten([Interval(-1.0, 5.0), Interval(3.0, 8.0), Interval(12.0, 15.0)], 13.0);
  }

  /** The membership rows over [(0, 5), (2, 10)]. */
  lemma OverlapRows()
    ensures Covered(Build([Interval(0.0, 5.0), Interval(2.0, 10.0)], false), 8.0)
    ensures !Covered(Build([Interval(0.0, 5.0), Interval(2.0, 10.0)], false), 12.0)
  {
    BuildCoversAsWritten([Interval(0.0, 5.0), Interval(2.0, 10.0)], 8.0);
    BuildCoversAsWritten([Interval(0.0, 5.0), Interval(2.0, 10.0)], 12.0);
  }

  /** The membership rows over [(0, 5), (-5, 2)]. */
  lemma LeftOverlapRows()
    ensures Covered(Build([Interval(0.0, 5.0), Interval(-5.0, 2.0)], false), 4.0)
    ensures !Covered(Build([Interval(0.0, 5.0), Interval(-5.0, 2.0)], false), -6.0)
  {
    BuildCoversAsWritten([Interval(0.0, 5.0), Interval(-5.0, 2.0)], 4.0);
    BuildCoversAsWritten([Interval(0.0, 5.0), Interval(-5.0, 2.0)], -6.0);
  }

  /** The membership rows over [(0, 5), (2, 4)]. */
  lemma InsideRows()
    ensures Covered(Build([Interval(0.0, 5.0), Interval(2.0, 4.0)], false), 1.0)
    ensures !Covered(Build([Interval(0.0, 5.0), Interval(2.0, 4.0)], false), 6.0)
  {
    BuildCoversAsWritten([Interval(0.0, 5.0), Interval(2.0, 4.0)], 1.0);
    BuildCoversAsWritten([Interval(0.0, 5.0), Interval(2.0, 4.0)], 6.0);
  }

  /** The membership rows over [(0, 5), (-2, 6)]. */
  lemma AroundRows()
    ensures Covered(Build([Interval(0.0, 5.0), Interval(-2.0, 6.0)], false), 3.0)
    ensures !Covered(Build([Interval(0.0, 5.0), Interval(-2.0, 6.0)], false), 7.0)
  {
    BuildCoversAsWritten([Interval(0.0, 5.0), Interval(-2.0, 6.0)], 3.0);
    BuildCoversAsWritten([Interval(0.0, 5.0), Interval(-2.0, 6.0)], 7.0);
  }

  /** The membership rows over [(0, 5), (7, 10), (3, 12)]. */
  lemma SpanningRows()
    ensures Covered(Build([Interval(0.0, 5.0), Interval(7.0, 10.0), Interval(3.0, 12.0)], false), 11.0)
    ensures !Covered(Build([Interval(0.0, 5.0), Interval(7.0, 10.0), Interval(3.0, 12.0)], false), -2.0)
  {
    BuildCoversAsWritten([Interval(0.0, 5.0), Interval(7.0, 10.0), Interval(3.0, 12.0)], 11.0);
    BuildCoversAsWritten([Interval(0.0, 5.0), Interval(7.0, 10.0), Interval(3.0, 12.0)], -2.0);
  }

  /** The membership rows over [(0, 5), (7, 10), (3, 9)]. */
  lemma BridgingRows()
    ensures Covered(Build([Interval(0.0, 5.0), Interval(7.0, 10.0), Interval(3.0, 9.0)], false), 8.0)
    ensures !Covered(Build([Interval(0.0, 5.0), Interval(7.0, 10.0), Interval(3.0, 9.0)], false), 12.0)
  {
    BuildCoversAsWritten([Interval(0.0, 5.0), Interval(7.0, 10.0), Interval(3.0, 9.0)], 8.0);
    BuildCoversAsWritten([Interval(0.0, 5.0), Interval(7.0, 10.0), Interval(3.0, 9.0)], 12.0);
  }

  /** The membership rows over [(0, 5), (7, 10), (6, 9)]. */
  lemma GapRows()
    ensures Covered(Build([Interval(0.0, 5.0), Interval(7.0, 10.0), Interval(6.0, 9.0)], false), 8.0)
    ensures !Covered(Build([Interval(0.0, 5.0), Interval(7.0, 10.0), Interval(6.0, 9.0)], false), 5.5)
  {
    BuildCoversAsWritten([Interval(0.0, 5.0), Interval(7.0, 10.0), Interval(6.0, 9.0)], 8.0);
    BuildCoversAsWritten([Interval(0.0, 5.0), Interval(7.0, 10.0), Interval(6.0, 9.0)], 5.5);
  }

  class IntervalSet {
    /** intervals_ */
    var intervals: seq<Interval>

    predicate Valid()
      reads this
    {
      SortedByLeft(intervals)
    }

    constructor ()
      ensures intervals == [] && Valid()
    {
      intervals := [];
    }

    /**
     * addInterval as written: the walk with its erases, the early return and the final push_back
     * and sort. Every point covered before, and every point of the interval, is covered after.
     */
    method AddInterval(interval: Interval)
      requires Valid()
      modifies this
      ensures intervals == Add(old(intervals), interval, false) && Valid()
      ensures forall x :: Covered(old(intervals), x) || Contains(interval, x) ==> Covered(intervals, x)
    {
      CoalesceSorted(intervals, 0, interval, false);
      forall x | Covered(intervals, x) || Contains(interval, x)
        ensures Covered(Add(intervals, interval, false), x)
      {
        CoalesceCovers(intervals, 0, interval, false, x);
      }
      var newInterval := interval;
      var iter := 0;
      while iter < |intervals|
        invariant iter <= |intervals| && SortedByLeft(intervals)
        invariant Coalesce(intervals, iter, newInterval, false) == Add(old(intervals), interval, false)
        decreases |intervals| - iter
      {
        var i := intervals[iter];
        if newInterval.left < i.left {
          if newInterval.right > i.right {
            EraseSorted(intervals, iter);
            intervals := Erase(intervals, iter);
            continue;
          }
          newInterval := Interval(newInterval.left, i.right);
          EraseSorted(intervals, iter);
          intervals := Erase(intervals, iter);
          break;
        }
        if newInterval.left > i.right {
          iter := iter + 1;
          continue;
        }
        if newInterval.right > i.right {
          newInterval := Interval(i.left, newInterval.right);
          EraseSorted(intervals, iter);
          intervals := Erase(intervals, iter);
          continue;
        }
        return;
      }
      // push_back, then std::sort by left edge
      PlaceSorted(intervals, newInterval);
      intervals := Place(intervals, newInterval);
    }

    /**
     * addInterval with the test it misses, for an interval that ends before the stored one it
     * starts left of: that interval is placed on its own. The set then covers exactly the points
     * it covered before and those of the interval.
     */
    method AddIntervalChecked(interval: Interval)
      requires Valid()
      modifies this
      ensures intervals == Add(old(intervals), interval, true) && Valid()
      ensures forall x :: Covered(intervals, x) <==> Covered(old(intervals), x) || Contains(interval, x)
    {
      CoalesceSorted(intervals, 0, interval, true);
      forall x
        ensures Covered(Add(intervals, interval, true), x) <==> Covered(intervals, x) || Contains(interval, x)
      {
        AddCoversExactly(intervals, interval, x);
      }
      var newInterval := interval;
      var iter := 0;
      while iter < |intervals|
        invariant iter <= |intervals| && SortedByLeft(intervals)
        invariant Coalesce(intervals, iter, newInterval, true) == Add(old(intervals), interval, true)
        decreases |intervals| - iter
      {
        var i := intervals[iter];
        if newInterval.left < i.left {
          if newInterval.right > i.right {
            EraseSorted(intervals, iter);
            intervals := Erase(intervals, iter);
            continue;
          }
          if newInterval.right < i.left {
            break;
          }
          newInterval := Interval(newInterval.left, i.right);
          EraseSorted(intervals, iter);
          intervals := Erase(intervals, iter);
          break;
        }
        if newInterval.left > i.right {
          iter := iter + 1;
          continue;
        }
        if newInterval.right > i.right {
          newInterval := Interval(i.left, newInterval.right);
          EraseSorted(intervals, iter);
          intervals := Erase(intervals, iter);
          continue;
        }
        return;
      }
      // push_back, then std::sort by left edge
      PlaceSorted(intervals, newInterval);
      intervals := Place(intervals, newInterval);
    }

    /** isInSet: on a set sorted by left edge, whether some stored interval contains x. */
    method IsInSet(x: real) returns (r: bool)
      requires Valid()
      ensures r <==> Covered(intervals, x)
    {
      for k := 0 to |intervals|
        invariant forall j :: 0 <= j < k ==> !Contains(intervals[j], x)
      {
        var i := intervals[k];
        if x < i.left {
          return false;
        }
        if x > i.right {
          continue;
        }
        return true;
      }
      return false;
    }
  }
}

/**
 * The fastest segment of an activity (src/math_intervals.cc): trackpoints at multiples of ten
 * distance units, and the least time taken over any stretch of a benchmark distance.
 */
module Segments {
  /** At time, the activity had covered distance units. */
  datatype Trackpoint = Trackpoint(time: int, distance: int)

  /** C++ integer division by ten, which truncates toward zero. */
  function Div10(a: int): (q: int)
    ensures 0 <= a ==> 0 <= 10 * q <= a < 10 * q + 10
    ensures a < 0 ==> 10 * q - 10 < a <= 10 * q <= 0
  {
    if a >= 0 then a / 10 else -((-a) / 10)
  }

  /** The starting value of current_fastest. */
  const Sentinel := 10000

  /** current_fastest after std::min with each time in turn, from the sentinel. */
  function FastestOf(times: seq<int>): int
  {
    if times == [] then Sentinel
    else
      var rest := FastestOf(times[..|times| - 1]);
      if times[|times| - 1] < rest then times[|times| - 1] else rest
  }

  /** The fastest is the least time, unless the sentinel is smaller or there are no times. */
  lemma {:induction false} FastestIsLeast(times: seq<int>)
    ensures FastestOf(times) <= Sentinel
    ensures forall k :: 0 <= k < |times| ==> FastestOf(times) <= times[k]
    ensures FastestOf(times) == Sentinel || exists k :: 0 <= k < |times| && times[k] == FastestOf(times)
  {
    if times != [] {
      var front := times[..|times| - 1];
      FastestIsLeast(front);
      assert forall k :: 0 <= k < |front| ==> front[k] == times[k];
      if FastestOf(times) != Sentinel && FastestOf(times) == FastestOf(front) {
        var k :| 0 <= k < |front| && front[k] == FastestOf(front);
        assert times[k] == FastestOf(times);
      }
    }
  }

  /** One more time: the fastest so far is replaced when the new time is smaller. */
  lemma FastestAppend(times: seq<int>, d: int)
    ensures FastestOf(times + [d]) == if d < FastestOf(times) then d else FastestOf(times)
  {
    assert (times + [d])[..|times|] == times;
  }

  /** The times taken over the windows of length trackpoints that start before n, in order. */
  function Windows(tp: seq<Trackpoint>, length: nat, n: nat): (times: seq<int>)
    requires n + length <= |tp|
    ensures |times| == n
    ensures forall i :: 0 <= i < n ==> times[i] == tp[i + length].time - tp[i].time
  {
    if n == 0 then [] else Windows(tp, length, n - 1) + [tp[n - 1 + length].time - tp[n - 1].time]
  }

  /** fastest_segment: the least time over every window of benchmark / 10 trackpoints. */
  method FastestSegment(trackpoints: seq<Trackpoint>, benchmarkDistance: int) returns (r: int)
    requires 0 <= Div10(benchmarkDistance) <= |trackpoints|
    ensures r == FastestOf(Windows(trackpoints, Div10(benchmarkDistance), |trackpoints| - Div10(benchmarkDistance)))
  {
    r := Sentinel;
    var length := Div10(benchmarkDistance);
    for i := 0 to |trackpoints| - length
      invariant r == FastestOf(Windows(trackpoints, length, i))
    {
      var endIndex := i + length;
      var delta := trackpoints[endIndex].time - trackpoints[i].time;
      FastestAppend(Windows(trackpoints, length, i), delta);
      r := if delta < r then delta else r;
    }
  }

  /** The driver row: over windows of 20 distance units the fastest takes 5. */
  lemma FastestSegmentRow()
    ensures FastestOf(Windows([Trackpoint(0, 0), Trackpoint(4, 10), Trackpoint(9, 20), Trackpoint(15, 30),
      Trackpoint(18, 40), Trackpoint(22, 50), Trackpoint(23, 60)], Div10(20), 7 - Div10(20))) == 5
  {
    var tp := [Trackpoint(0, 0), Trackpoint(4, 10), Trackpoint(9, 20), Trackpoint(15, 30),
      Trackpoint(18, 40), Trackpoint(22, 50), Trackpoint(23, 60)];
    var w := Windows(tp, 2, 5);
    assert w == [9, 11, 9, 7, 5];
    FastestIsLeast(w);
  }

  /** The expected index of a trackpoint: its distance over ten. */
  function Slot(t: Trackpoint): int
  {
    Div10(t.distance)
  }

  /** trackpoint_index_map, filled in trackpoint order so that later positions overwrite. */
  function IndexMap(tp: seq<Trackpoint>): map<int, nat>
  {
    if tp == [] then map[] else IndexMap(tp[..|tp| - 1])[Slot(tp[|tp| - 1]) := |tp| - 1]
  }

  /** Recording one more trackpoint of tp. */
  lemma IndexMapStep(tp: seq<Trackpoint>, i: nat)
    requires i < |tp|
    ensures IndexMap(tp[..i + 1]) == IndexMap(tp[..i])[Slot(tp[i]) := i]
  {
    assert tp[..i + 1][..i] == tp[..i];
  }

  /** Every position in the index map is a position of tp. */
  lemma {:induction false} IndexMapBounds(tp: seq<Trackpoint>)
    ensures forall k :: k in IndexMap(tp) ==> IndexMap(tp)[k] < |tp|
  {
    if tp != [] {
      IndexMapBounds(tp[..|tp| - 1]);
    }
  }

  /** Every trackpoint's expected index is in the index map of tp. */
  lemma {:induction false} IndexMapHas(tp: seq<Trackpoint>)
    ensures forall i :: 0 <= i < |tp| ==> Slot(tp[i]) in IndexMap(tp)
  {
    if tp != [] {
      var front := tp[..|tp| - 1];
      IndexMapHas(front);
      assert forall i :: 0 <= i < |front| ==> front[i] == tp[i];
    }
  }

  /** Each expected index present maps to a trackpoint with that expected index. */
  lemma {:induction false} IndexMapSlot(tp: seq<Trackpoint>)
    ensures forall k :: k in IndexMap(tp) ==> IndexMap(tp)[k] < |tp| && Slot(tp[IndexMap(tp)[k]]) == k
  {
    IndexMapBounds(tp);
    if tp != [] {
      var front := tp[..|tp| - 1];
      IndexMapSlot(front);
      IndexMapBounds(front);
    }
  }

  /** ... and to the last such trackpoint: none after it has that expected index. */
  lemma {:induction false} IndexMapLatest(tp: seq<Trackpoint>)
    ensures forall k, j :: k in IndexMap(tp) && IndexMap(tp)[k] < j < |tp| ==> Slot(tp[j]) != k
  {
    if tp != [] {
      var front := tp[..|tp| - 1];
      IndexMapLatest(front);
      IndexMapBounds(front);
      assert forall j :: 0 <= j < |front| ==> front[j] == tp[j];
    }
  }

  /** The times between expected indices i and i + length, for the i below n whose both ends m holds. */
  function GapWindows(tp: seq<Trackpoint>, m: map<int, nat>, length: nat, n: nat): seq<int>
    requires forall k :: k in m ==> m[k] < |tp|
  {
    if n == 0 then []
    else
      var i := n - 1;
      GapWindows(tp, m, length, i)
        + if i in m && i + length in m then [tp[m[i + length]].time - tp[m[i]].time] else []
  }

  /** A window with an end missing adds no time. */
  lemma GapSkip(tp: seq<Trackpoint>, m: map<int, nat>, length: nat, i: nat)
    requires forall k :: k in m ==> m[k] < |tp|
    requires i !in m || i + length !in m
    ensures GapWindows(tp, m, length, i + 1) == GapWindows(tp, m, length, i)
  {
  }

  /** A window with both ends present adds the time between them. */
  lemma GapTake(tp: seq<Trackpoint>, m: map<int, nat>, length: nat, i: nat)
    requires forall k :: k in m ==> m[k] < |tp|
    requires i in m && i + length in m
    ensures GapWindows(tp, m, length, i + 1) == GapWindows(tp, m, length, i) + [tp[m[i + length]].time - tp[m[i]].time]
  {
  }

  /** A time is listed exactly when it is taken over a window whose ends are both present. */
  lemma {:induction false} GapWindowsMembers(tp: seq<Trackpoint>, m: map<int, nat>, length: nat, n: nat, d: int)
    requires forall k :: k in m ==> m[k] < |tp|
    ensures d in GapWindows(tp, m, length, n) <==>
      exists i :: 0 <= i < n && i in m && i + length in m && d == tp[m[i + length]].time - tp[m[i]].time
  {
    if n > 0 {
      GapWindowsMembers(tp, m, length, n - 1, d);
    }
  }

  /** max_expected_index: one past the expected index of the last trackpoint. */
  function MaxExpected(tp: seq<Trackpoint>): int
    requires tp != []
  {
    Slot(tp[|tp| - 1]) + 1
  }

  /**
   * fastest_segment_with_gaps: the least time over the windows of benchmark / 10 expected
   * indices whose two ends are both present.
   */
  method FastestSegmentWithGaps(trackpoints: seq<Trackpoint>, benchmarkDistance: int) returns (r: int)
    requires trackpoints != []
    requires 0 <= Div10(benchmarkDistance) <= MaxExpected(trackpoints)
    ensures (IndexMapBounds(trackpoints);
      r == FastestOf(GapWindows(trackpoints, IndexMap(trackpoints), Div10(benchmarkDistance),
        MaxExpected(trackpoints) - Div10(benchmarkDistance))))
  {
    r := Sentinel;
    var length := Div10(benchmarkDistance);
    var indexMap: map<int, nat> := map[];
    for i := 0 to |trackpoints|
      invariant indexMap == IndexMap(trackpoints[..i])
    {
      IndexMapStep(trackpoints, i);
      indexMap := indexMap[Slot(trackpoints[i]) := i];
    }
    assert trackpoints[..|trackpoints|] == trackpoints;
    IndexMapBounds(trackpoints);
    var maxExpectedIndex := Slot(trackpoints[|trackpoints| - 1]) + 1;
    for i := 0 to maxExpectedIndex - length
      invariant r == FastestOf(GapWindows(trackpoints, indexMap, length, i))
    {
      if i !in indexMap {
        GapSkip(trackpoints, indexMap, length, i);
        continue;
      }
      var startActualIndex := indexMap[i];
      var expectedEndIndex := i + length;
      if expectedEndIndex !in indexMap {
        GapSkip(trackpoints, indexMap, length, i);
        continue;
      }
      var endActualIndex := indexMap[expectedEndIndex];
      var delta := trackpoints[endActualIndex].time - trackpoints[startActualIndex].time;
      GapTake(trackpoints, indexMap, length, i);
      FastestAppend(GapWindows(trackpoints, indexMap, length, i), delta);
      r := if delta < r then delta else r;
    }
  }

  /** Every trackpoint sits at its expected index: the activity has no gaps. */
  predicate NoGaps(tp: seq<Trackpoint>)
  {
    forall i :: 0 <= i < |tp| ==> Slot(tp[i]) == i
  }

  /** Without gaps, the index map sends each position of tp to itself. */
  lemma NoGapsIndexMap(tp: seq<Trackpoint>)
    requires NoGaps(tp)
    ensures forall k :: k in IndexMap(tp) <==> 0 <= k < |tp|
    ensures forall k :: k in IndexMap(tp) ==> IndexMap(tp)[k] == k
  {
    IndexMapHas(tp);
    IndexMapSlot(tp);
  }

  /** Without gaps, the windows with both ends present are all the windows. */
  lemma {:induction false} NoGapsWindows(tp: seq<Trackpoint>, length: nat, n: nat)
    requires NoGaps(tp) && n + length <= |tp|
    ensures (IndexMapBounds(tp); GapWindows(tp, IndexMap(tp), length, n) == Windows(tp, length, n))
  {
    IndexMapBounds(tp);
    if n > 0 {
      NoGapsWindows(tp, length, n - 1);
      NoGapsIndexMap(tp);
      GapTake(tp, IndexMap(tp), length, n - 1);
    }
  }

  /** Without gaps, fastest_segment_with_gaps agrees with fastest_segment. */
  lemma NoGapsAgree(tp: seq<Trackpoint>, benchmarkDistance: int)
    requires tp != [] && NoGaps(tp)
    requires 0 <= Div10(benchmarkDistance) <= |tp|
    ensures (IndexMapBounds(tp);
      FastestOf(GapWindows(tp, IndexMap(tp), Div10(benchmarkDistance), MaxExpected(tp) - Div10(benchmarkDistance)))
      == FastestOf(Windows(tp, Div10(benchmarkDistance), |tp| - Div10(benchmarkDistance))))
  {
    var length := Div10(benchmarkDistance);
    assert Slot(tp[|tp| - 1]) == |tp| - 1;
    assert MaxExpected(tp) - length == |tp| - length;
    NoGapsWindows(tp, length, |tp| - length);
  }

  /** The trackpoints of the driver row with gaps: distances 30, 50 and 60 are missing. */
  const GapsRowTrackpoints := [Trackpoint(0, 0), Trackpoint(4, 10), Trackpoint(9, 20), Trackpoint(18, 40),
    Trackpoint(31, 70), Trackpoint(34, 80), Trackpoint(38, 90)]

  /** The index map of the row with gaps. */
  lemma GapsRowIndexMap()
    ensures IndexMap(GapsRowTrackpoints) == map[0 := 0, 1 := 1, 2 := 2, 4 := 3, 7 := 4, 8 := 5, 9 := 6]
  {
    var tp := GapsRowTrackpoints;
    assert IndexMap(tp[..0]) == map[];
    IndexMapStep(tp, 0);
    IndexMapStep(tp, 1);
    IndexMapStep(tp, 2);
    IndexMapStep(tp, 3);
    IndexMapStep(tp, 4);
    IndexMapStep(tp, 5);
    IndexMapStep(tp, 6);
    assert tp[..7] == tp;
  }

  /** The windows of the row with gaps: three of the eight have both ends present. */
  lemma GapsRowWindows(m: map<int, nat>)
    requires m == map[0 := 0, 1 := 1, 2 := 2, 4 := 3, 7 := 4, 8 := 5, 9 := 6]
    ensures GapWindows(GapsRowTrackpoints, m, 2, 8) == [9, 9, 7]
  {
    var tp := GapsRowTrackpoints;
    GapTake(tp, m, 2, 0);
    GapSkip(tp, m, 2, 1);
    GapTake(tp, m, 2, 2);
    GapSkip(tp, m, 2, 3);
    GapSkip(tp, m, 2, 4);
    GapSkip(tp, m, 2, 5);
    GapSkip(tp, m, 2, 6);
    GapTake(tp, m, 2, 7);
  }

  /** The driver row with gaps: over windows of 20 distance units the fastest takes 7. */
  lemma FastestSegmentWithGapsRow()
    ensures (IndexMapBounds(GapsRowTrackpoints);
      FastestOf(GapWindows(GapsRowTrackpoints, IndexMap(GapsRowTrackpoints), Div10(20),
        MaxExpected(GapsRowTrackpoints) - Div10(20))) == 7)
  {
    IndexMapBounds(GapsRowTrackpoints);
    GapsRowIndexMap();
    GapsRowWindows(IndexMap(GapsRowTrackpoints));
    FastestIsLeast([9, 9, 7]);
  }
}
