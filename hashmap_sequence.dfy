/**
 * Longest consecutive sequence (src/hashmap_sequence.cc): the length of the longest run of
 * consecutive integers that all occur somewhere in an array, found in one pass by keeping
 * each run's length at both of its ends.
 */
module HashmapSequence {
  /** The values of nums. */
  function Elems(nums: seq<int>): (s: set<int>)
    ensures forall v :: v in s <==> v in nums
  {
    set v | v in nums
  }

  /** Every one of the len integers from a on occurs in s. */
  ghost predicate Run(s: set<int>, a: int, len: nat)
  {
    forall v :: a <= v < a + len ==> v in s
  }

  /** The run of len integers from a can be widened on neither side. */
  ghost predicate Maximal(s: set<int>, a: int, len: nat)
  {
    Run(s, a, len) && a - 1 !in s && a + len !in s
  }

  /** len is the length of the longest run in s. */
  ghost predicate IsLongest(s: set<int>, len: nat)
  {
    (exists a :: Run(s, a, len)) && forall a, k: nat :: Run(s, a, k) ==> k <= len
  }

  /** The length std::unordered_map<int, int>::operator[] reports for v: zero when v has no entry. */
  function Get(m: map<int, int>, v: int): int
  {
    if v in m then m[v] else 0
  }

  /**
   * The map after the values of s: no entry is negative, exactly the values of s have a
   * positive entry, and the entry at each end of a maximal run is that run's length.
   */
  ghost predicate Ends(s: set<int>, m: map<int, int>)
  {
    (forall v {:trigger Get(m, v)} :: Get(m, v) >= 0 && (v in s <==> Get(m, v) > 0))
    && (forall v {:trigger Get(m, v)} :: v in s && v - 1 !in s ==> Maximal(s, v, Get(m, v)))
    && (forall v {:trigger Get(m, v)} :: v in s && v + 1 !in s ==> Maximal(s, v - Get(m, v) + 1, Get(m, v)))
  }

  /** A run of s cannot reach past a value missing from s. */
  lemma RunBound(s: set<int>, a: int, k: nat, j: nat)
    requires Run(s, a, k) && a + j !in s
    ensures k <= j
  {
  }

  /** A run that overlaps a maximal run lies inside it. */
  lemma RunInside(s: set<int>, a: int, len: nat, b: int, k: nat)
    requires Maximal(s, a, len) && Run(s, b, k) && b < a + len && a < b + k
    ensures a <= b && b + k <= a + len
  {
  }

  /** Two overlapping maximal runs are the same run. */
  lemma SameRun(s: set<int>, a: int, len: nat, b: int, k: nat)
    requires Maximal(s, a, len) && Maximal(s, b, k) && b < a + len && a < b + k
    ensures a == b && len == k
  {
    RunInside(s, a, len, b, k);
    RunInside(s, b, k, a, len);
  }

  /** A run of a set is a run of any larger set. */
  lemma RunGrows(s: set<int>, n: int, b: int, k: nat)
    requires Run(s, b, k)
    ensures Run(s + {n}, b, k)
  {
  }

  /** A run of a larger set that misses n is a run of the set without n, on one side of n. */
  lemma RunMisses(s: set<int>, n: int, b: int, k: nat)
    requires Run(s + {n}, b, k) && !(b <= n < b + k)
    ensures Run(s, b, k)
  {
    forall v | b <= v < b + k
      ensures v in s
    {
      assert v in s + {n};
    }
  }

  /**
   * Adding n, which s lacks, between a maximal run of p values ending at n - 1 and one of q
   * values starting at n + 1 (either may be empty) gives a maximal run of p + 1 + q values.
   */
  lemma Join(s: set<int>, n: int, p: nat, q: nat)
    requires n !in s && Run(s, n - p, p) && n - p - 1 !in s && Run(s, n + 1, q) && n + 1 + q !in s
    ensures Maximal(s + {n}, n - p, p + 1 + q)
  {
    forall v | n - p <= v < n - p + p + 1 + q
      ensures v in s + {n}
    {
      if v != n {
        assert v in s;
      }
    }
  }

  /** The entries at n's neighbours describe the runs n joins, each empty when the neighbour is missing. */
  lemma Neighbours(s: set<int>, m: map<int, int>, n: int)
    requires Ends(s, m) && n !in s
    ensures Get(m, n - 1) >= 0 && Get(m, n + 1) >= 0
    ensures Run(s, n - Get(m, n - 1), Get(m, n - 1)) && n - Get(m, n - 1) - 1 !in s
    ensures Run(s, n + 1, Get(m, n + 1)) && n + 1 + Get(m, n + 1) !in s
  {
    var prev, next := Get(m, n - 1), Get(m, n + 1);
    if prev > 0 {
      assert Maximal(s, n - 1 - prev + 1, prev);
    }
    if next > 0 {
      assert Maximal(s, n + 1, next);
    }
  }

  /** A maximal run of s that ends just before n is the run n joins on its left. */
  lemma EndsBefore(s: set<int>, m: map<int, int>, n: int, v: int)
    requires Ends(s, m) && n !in s && v in s && v - 1 !in s
    ensures v + Get(m, v) == n ==> v == n - Get(m, n - 1)
  {
    var g := Get(m, v);
    if v + g == n {
      assert Maximal(s, v, g);
      assert n - 1 in s;
      var prev := Get(m, n - 1);
      assert Maximal(s, n - 1 - prev + 1, prev);
      SameRun(s, v, g, n - prev, prev);
    }
  }

  /** A maximal run of s that starts just after n is the run n joins on its right. */
  lemma StartsAfter(s: set<int>, m: map<int, int>, n: int, v: int)
    requires Ends(s, m) && n !in s && v in s && v + 1 !in s
    ensures v - Get(m, v) == n ==> v == n + Get(m, n + 1)
  {
    var g := Get(m, v);
    if v - g == n {
      assert Maximal(s, v - g + 1, g);
      assert n + 1 in s;
      var next := Get(m, n + 1);
      assert Maximal(s, n + 1, next);
      SameRun(s, v - g + 1, g, n + 1, next);
    }
  }

  /**
   * The map Extend writes: the new length at n and at both ends of the joined run, every other
   * entry as before.
   */
  ghost predicate Written(m: map<int, int>, n: int, m': map<int, int>)
  {
    forall v {:trigger Get(m', v)} :: Get(m', v) ==
      if v == n || v == n - Get(m, n - 1) || v == n + Get(m, n + 1) then Get(m, n - 1) + 1 + Get(m, n + 1) else Get(m, v)
  }

  /** After Extend no entry is negative and exactly the values seen have a positive entry. */
  lemma ExtendPositive(s: set<int>, m: map<int, int>, n: int, m': map<int, int>)
    requires Ends(s, m) && n !in s && Written(m, n, m')
    ensures forall v {:trigger Get(m', v)} :: Get(m', v) >= 0 && (v in s + {n} <==> Get(m', v) > 0)
  {
    Neighbours(s, m, n);
    var prev, next := Get(m, n - 1), Get(m, n + 1);
    forall v
      ensures Get(m', v) >= 0 && (v in s + {n} <==> Get(m', v) > 0)
    {
      if v == n - prev && prev > 0 {
        assert v in s;
      } else if v == n + next && next > 0 {
        assert v in s;
      } else if v != n && v != n - prev && v != n + next {
        assert Get(m', v) == Get(m, v);
      }
    }
  }

  /** After Extend the entry at the start of each maximal run is its length. */
  lemma ExtendLeft(s: set<int>, m: map<int, int>, n: int, m': map<int, int>)
    requires Ends(s, m) && n !in s && Written(m, n, m')
    ensures forall v {:trigger Get(m', v)} :: v in s + {n} && v - 1 !in s + {n} ==> Maximal(s + {n}, v, Get(m', v))
  {
    Neighbours(s, m, n);
    var prev, next := Get(m, n - 1), Get(m, n + 1);
    Join(s, n, prev, next);
    forall v | v in s + {n} && v - 1 !in s + {n}
      ensures Maximal(s + {n}, v, Get(m', v))
    {
      if v == n {
        assert n - 1 !in s;
        assert Get(m', v) == prev + 1 + next;
      } else if v != n - prev {
        assert v in s && v - 1 !in s;
        var g := Get(m, v);
        assert Maximal(s, v, g);
        assert v != n + next;
        assert Get(m', v) == g;
        EndsBefore(s, m, n, v);
        RunGrows(s, n, v, g);
      } else {
        assert Get(m', v) == prev + 1 + next;
      }
    }
  }

  /** After Extend the entry at the end of each maximal run is its length. */
  lemma ExtendRight(s: set<int>, m: map<int, int>, n: int, m': map<int, int>)
    requires Ends(s, m) && n !in s && Written(m, n, m')
    ensures forall v {:trigger Get(m', v)} :: v in s + {n} && v + 1 !in s + {n} ==> Maximal(s + {n}, v - Get(m', v) + 1, Get(m', v))
  {
    Neighbours(s, m, n);
    var prev, next := Get(m, n - 1), Get(m, n + 1);
    Join(s, n, prev, next);
    forall v | v in s + {n} && v + 1 !in s + {n}
      ensures Maximal(s + {n}, v - Get(m', v) + 1, Get(m', v))
    {
      if v == n {
        assert n + 1 !in s;
        assert Get(m', v) == prev + 1 + next;
      } else if v != n + next {
        assert v in s && v + 1 !in s;
        var g := Get(m, v);
        assert Maximal(s, v - g + 1, g);
        assert v != n - prev;
        assert Get(m', v) == g;
        StartsAfter(s, m, n, v);
        RunGrows(s, n, v - g + 1, g);
      } else {
        assert Get(m', v) == prev + 1 + next;
      }
    }
  }

  /**
   * One pass of longest_consecutive_sequence's loop for a value n not seen before: the entries
   * of its neighbours give the runs it joins, the new length is written at both ends of the
   * joined run and at n itself.
   */
  method Extend(ghost s: set<int>, m: map<int, int>, n: int) returns (m': map<int, int>, len: int, ghost start: int)
    requires Ends(s, m) && n !in s
    ensures Ends(s + {n}, m')
    ensures len > 0 && Maximal(s + {n}, start, len) && start <= n < start + len
  {
    m' := m;
    var prev := Get(m', n - 1);
    var next := Get(m', n + 1);
    Neighbours(s, m, n);
    len := 1;
    if prev == 0 {
      if next != 0 {
        len := next + 1;
        m' := m'[n + next := len];
      }
    } else {
      if next == 0 {
        len := prev + 1;
        m' := m'[n - prev := len];
      } else {
        len := next + prev + 1;
        m' := m'[n + next := len];
        m' := m'[n - prev := len];
      }
    }
    m' := m'[n := len];
    start := n - prev;
    assert Written(m, n, m');
    ExtendPositive(s, m, n, m');
    ExtendLeft(s, m, n, m');
    ExtendRight(s, m, n, m');
    Join(s, n, prev, next);
  }

  /** Adding n keeps the longest length known when the run through n is counted. */
  lemma LongestStep(s: set<int>, n: int, longest: nat, start: int, len: nat)
    requires forall a, k: nat :: Run(s, a, k) ==> k <= longest
    requires Maximal(s + {n}, start, len) && start <= n < start + len
    ensures forall a, k: nat :: Run(s + {n}, a, k) ==> k <= if longest < len then len else longest
  {
    forall a, k: nat | Run(s + {n}, a, k)
      ensures k <= if longest < len then len else longest
    {
      if a <= n < a + k {
        RunInside(s + {n}, start, len, a, k);
      } else {
        RunMisses(s, n, a, k);
      }
    }
  }

  /** hashmap_sequence longest_consecutive_sequence. */
  method LongestConsecutiveSequence(nums: seq<int>) returns (longest: int)
    ensures longest >= 0 && IsLongest(Elems(nums), longest)
    ensures longest == 0 <==> nums == []
  {
    var lengths: map<int, int> := map[];
    longest := 0;
    ghost var s: set<int> := {};
    ghost var start := 0;
    forall a, k: nat | Run(s, a, k)
      ensures k <= 0
    {
      RunBound(s, a, k, 0);
    }
    for i := 0 to |nums|
      invariant s == Elems(nums[..i]) && Ends(s, lengths)
      invariant longest >= 0 && Run(s, start, longest)
      invariant forall a, k: nat :: Run(s, a, k) ==> k <= longest
      invariant longest == 0 <==> i == 0
    {
      var n := nums[i];
      assert nums[..i + 1] == nums[..i] + [n];
      if Get(lengths, n) > 0 {
        continue;
      }
      var len;
      ghost var from;
      lengths, len, from := Extend(s, lengths, n);
      LongestStep(s, n, longest, from, len);
      if longest < len {
        longest, start := len, from;
      }
      s := s + {n};
    }
    assert nums[..|nums|] == nums;
  }

  /** The longest run's length is determined by the values. */
  lemma LongestUnique(s: set<int>, len: nat, len': nat)
    requires IsLongest(s, len) && IsLongest(s, len')
    ensures len == len'
  {
    var a :| Run(s, a, len);
    var a' :| Run(s, a', len');
  }

  /** The first table row: 1, 2, 3, 4 is the longest run of 100, 4, 200, 1, 3, 2. */
  lemma SequenceExampleFour(r: nat)
    requires IsLongest(Elems([100, 4, 200, 1, 3, 2]), r)
    ensures r == 4
  {
    var s := Elems([100, 4, 200, 1, 3, 2]);
    assert s == {100, 4, 200, 1, 3, 2};
    forall a, k: nat | Run(s, a, k)
      ensures k <= 4
    {
      if k > 0 {
        assert a in s;
        if a == 100 || a == 200 {
          RunBound(s, a, k, 1);
        } else {
          RunBound(s, a, k, 5 - a);
        }
      }
    }
    assert Run(s, 1, 4);
    LongestUnique(s, r, 4);
  }

  /** The second table row: 0 to 8, with 0 twice, is one run of nine. */
  lemma SequenceExampleNine(r: nat)
    requires IsLongest(Elems([0, 3, 7, 2, 5, 8, 4, 6, 0, 1]), r)
    ensures r == 9
  {
    var s := Elems([0, 3, 7, 2, 5, 8, 4, 6, 0, 1]);
    assert s == {0, 1, 2, 3, 4, 5, 6, 7, 8};
    forall a, k: nat | Run(s, a, k)
      ensures k <= 9
    {
      if k > 0 {
        assert a in s;
        RunBound(s, a, k, 9 - a);
      }
    }
    assert Run(s, 0, 9);
    LongestUnique(s, r, 9);
  }

  /** The third table row: the repeated 1 is counted once, giving 0, 1, 2. */
  lemma SequenceExampleThree(r: nat)
    requires IsLongest(Elems([1, 2, 0, 1]), r)
    ensures r == 3
  {
    var s := Elems([1, 2, 0, 1]);
    assert s == {0, 1, 2};
    forall a, k: nat | Run(s, a, k)
      ensures k <= 3
    {
      if k > 0 {
        assert a in s;
        RunBound(s, a, k, 3 - a);
      }
    }
    assert Run(s, 0, 3);
    LongestUnique(s, r, 3);
  }
}
