/**
 * Remove duplicates from a sorted array leaving at most two copies of each value
 * (sorted_array_remove_all_but_2_duplicates in src/array_remove_duplicates.cc): the
 * routine as written, a counterexample to it, and the routine with its intent restored.
 */
module RemoveTwoDuplicates {
  import opened RemoveDuplicates

  /** How many copies of a value the all-but-2 version keeps. */
  function AtMostTwo(c: nat): nat
  {
    if c < 2 then c else 2
  }

  /** The swap walk of the all-but-2 version: past every element at most both a and b. */
  function SkipNotAboveBoth(s: seq<int>, a: int, b: int, swap: nat): (r: nat)
    requires swap <= |s|
    ensures swap <= r <= |s|
    ensures forall j :: swap <= j < r ==> s[j] <= a && s[j] <= b
    ensures r < |s| ==> a < s[r] || b < s[r]
    decreases |s| - swap
  {
    if swap < |s| && a >= s[swap] && b >= s[swap] then SkipNotAboveBoth(s, a, b, swap + 1) else swap
  }

  /**
   * The all-but-2 loop as written, from current index cur (the two previous indices
   * are cur - 2 and cur - 1): a duplicate is overwritten by the element the swap walk
   * stops at, and the swap index is left on that element.
   */
  function ButTwoFrom(s: seq<int>, cur: nat, swap: nat, dup: nat): (r: int)
    requires 2 <= cur && swap <= |s| && dup <= cur - 2
    ensures 0 <= r <= |s| || |s| < cur
    decreases |s| - cur
  {
    if cur >= |s| then |s| - dup
    else if (s[cur - 2] == s[cur - 1] && s[cur - 1] == s[cur]) || s[cur - 1] > s[cur] then
      var sw := SkipNotAboveBoth(s, s[cur - 2], s[cur - 1], swap);
      if sw < |s| then ButTwoFrom(s[cur := s[sw]], cur + 1, sw, dup + 1) else cur
    else ButTwoFrom(s, cur + 1, swap, dup)
  }

  /** The count sorted_array_remove_all_but_2_duplicates returns, as written. */
  function RemoveAllButTwoAsWritten(s: seq<int>): (r: int)
    ensures 0 <= r <= |s|
  {
    if |s| <= 2 then |s| else ButTwoFrom(s, 2, 2, 0)
  }

  /**
   * The reference answer: a0[..i] with every value kept at most twice. On sorted input
   * a value is dropped exactly when the kept sequence already ends in two copies of it.
   */
  ghost function KeepTwo(a0: seq<int>, i: nat): seq<int>
    requires i <= |a0|
  {
    if i == 0 then []
    else
      var k := KeepTwo(a0, i - 1);
      if |k| >= 2 && k[|k| - 2] == a0[i - 1] then k else k + [a0[i - 1]]
  }

  /** On sorted input KeepTwo is sorted and ends in a0[i - 1]. */
  lemma {:induction false} KeepTwoSorted(a0: seq<int>, i: nat)
    requires Sorted(a0) && i <= |a0|
    ensures Sorted(KeepTwo(a0, i))
    ensures i >= 1 ==> |KeepTwo(a0, i)| >= 1 && KeepTwo(a0, i)[|KeepTwo(a0, i)| - 1] == a0[i - 1]
  {
    if i > 0 {
      KeepTwoSorted(a0, i - 1);
      var k := KeepTwo(a0, i - 1);
      forall j | 0 <= j < |k|
        ensures k[j] <= a0[i - 1]
      {
        assert k[j] <= k[|k| - 1];
        assert a0[i - 2] <= a0[i - 1];
      }
    }
  }

  /** Counts kept against counts seen: each value at most twice. */
  ghost predicate KeepsAtMostTwo(k: seq<int>, seen: seq<int>)
  {
    forall v :: multiset(k)[v] == AtMostTwo(multiset(seen)[v])
  }

  /** A value already kept twice at the end is dropped without breaking the counts. */
  lemma DropThird(k: seq<int>, seen: seq<int>, x: int)
    requires KeepsAtMostTwo(k, seen) && |k| >= 2 && k[|k| - 2] == x && k[|k| - 1] == x
    ensures KeepsAtMostTwo(k, seen + [x])
  {
    assert k == k[..|k| - 2] + [x, x];
    assert multiset(k)[x] >= 2;
    assert multiset(seen + [x]) == multiset(seen) + multiset{x};
  }

  /** A value kept fewer than twice is appended and its count goes up by one. */
  lemma KeepNext(k: seq<int>, seen: seq<int>, x: int)
    requires KeepsAtMostTwo(k, seen) && multiset(k)[x] < 2
    ensures KeepsAtMostTwo(k + [x], seen + [x])
  {
    assert multiset(seen + [x]) == multiset(seen) + multiset{x};
    assert multiset(k + [x]) == multiset(k) + multiset{x};
  }

  /** A value present in a sorted sequence whose last element is at most that value is the last element. */
  lemma PresentIsLast(k: seq<int>, x: int)
    requires Sorted(k) && |k| >= 1 && k[|k| - 1] <= x && multiset(k)[x] > 0
    ensures k[|k| - 1] == x
  {
    assert x in k;
    var j :| 0 <= j < |k| && k[j] == x;
    assert k[j] <= k[|k| - 1];
  }

  /** On sorted input KeepTwo holds two copies of its last value only at its end. */
  lemma KeepTwoTail(a0: seq<int>, i: nat)
    requires Sorted(a0) && 1 <= i <= |a0|
    ensures var k := KeepTwo(a0, i);
      |k| >= 1 && (multiset(k)[k[|k| - 1]] >= 2 ==> |k| >= 2 && k[|k| - 2] == k[|k| - 1])
  {
    KeepTwoSorted(a0, i);
    var k := KeepTwo(a0, i - 1);
    var x := a0[i - 1];
    if !(|k| >= 2 && k[|k| - 2] == x) {
      var k' := k + [x];
      assert KeepTwo(a0, i) == k';
      if multiset(k')[x] >= 2 {
        assert multiset(k') == multiset(k) + multiset{x};
        KeepTwoSorted(a0, i - 1);
        assert a0[i - 2] <= x;
        PresentIsLast(k, x);
        assert k'[|k'| - 2] == k[|k| - 1];
      }
    }
  }

  /** Step of KeepTwoCounts where a0[i - 1] is a third copy and is dropped. */
  lemma CountsDropStep(a0: seq<int>, i: nat)
    requires Sorted(a0) && 1 <= i <= |a0|
    requires KeepsAtMostTwo(KeepTwo(a0, i - 1), a0[..i - 1])
    requires |KeepTwo(a0, i - 1)| >= 2 && KeepTwo(a0, i - 1)[|KeepTwo(a0, i - 1)| - 2] == a0[i - 1]
    ensures KeepsAtMostTwo(KeepTwo(a0, i), a0[..i])
  {
    var k := KeepTwo(a0, i - 1);
    var x := a0[i - 1];
    assert a0[..i] == a0[..i - 1] + [x];
    KeepTwoSorted(a0, i - 1);
    assert a0[i - 2] <= x;
    assert k[|k| - 2] <= k[|k| - 1];
    DropThird(k, a0[..i - 1], x);
  }

  /**
   * In a sorted sequence that holds two copies of its last value only at its end, a
   * value at least the last one occurs fewer than twice unless it fills the last two slots.
   */
  lemma FewerThanTwo(k: seq<int>, x: int)
    requires Sorted(k) && |k| >= 1 && k[|k| - 1] <= x
    requires multiset(k)[k[|k| - 1]] >= 2 ==> |k| >= 2 && k[|k| - 2] == k[|k| - 1]
    requires !(|k| >= 2 && k[|k| - 2] == x)
    ensures multiset(k)[x] < 2
  {
    if multiset(k)[x] > 0 {
      PresentIsLast(k, x);
    }
  }

  /** A value that is not already kept twice at the end is kept fewer than twice. */
  lemma FewerThanTwoKept(a0: seq<int>, i: nat)
    requires Sorted(a0) && 1 <= i <= |a0|
    requires !(|KeepTwo(a0, i - 1)| >= 2 && KeepTwo(a0, i - 1)[|KeepTwo(a0, i - 1)| - 2] == a0[i - 1])
    ensures multiset(KeepTwo(a0, i - 1))[a0[i - 1]] < 2
  {
    var k := KeepTwo(a0, i - 1);
    if i == 1 {
      assert k == [];
    } else {
      KeepTwoSorted(a0, i - 1);
      KeepTwoTail(a0, i - 1);
      assert a0[i - 2] <= a0[i - 1];
      FewerThanTwo(k, a0[i - 1]);
    }
  }

  /** Step of KeepTwoCounts where a0[i - 1] is appended. */
  lemma CountsKeepStep(a0: seq<int>, i: nat)
    requires 1 <= i <= |a0|
    requires KeepsAtMostTwo(KeepTwo(a0, i - 1), a0[..i - 1])
    requires !(|KeepTwo(a0, i - 1)| >= 2 && KeepTwo(a0, i - 1)[|KeepTwo(a0, i - 1)| - 2] == a0[i - 1])
    requires multiset(KeepTwo(a0, i - 1))[a0[i - 1]] < 2
    ensures KeepsAtMostTwo(KeepTwo(a0, i), a0[..i])
  {
    var k := KeepTwo(a0, i - 1);
    var x := a0[i - 1];
    assert a0[..i] == a0[..i - 1] + [x];
    assert KeepTwo(a0, i) == k + [x];
    KeepNext(k, a0[..i - 1], x);
  }

  /** On sorted input KeepTwo keeps every value min(count, 2) times. */
  lemma {:induction false} KeepTwoCounts(a0: seq<int>, i: nat)
    requires Sorted(a0) && i <= |a0|
    ensures KeepsAtMostTwo(KeepTwo(a0, i), a0[..i])
  {
    if i > 0 {
      KeepTwoCounts(a0, i - 1);
      var k := KeepTwo(a0, i - 1);
      if |k| >= 2 && k[|k| - 2] == a0[i - 1] {
        CountsDropStep(a0, i);
      } else {
        FewerThanTwoKept(a0, i);
        CountsKeepStep(a0, i);
      }
    }
  }

  /**
   * sorted_array_remove_all_but_2_duplicates with its evident intent restored: a write
   * index takes each element that is not a third copy, so each value is kept at most
   * twice and the count is the number kept.
   */
  method RemoveAllButTwoDuplicates(nums: array<int>) returns (r: int)
    requires Sorted(nums[..])
    modifies nums
    ensures 0 <= r <= nums.Length
    ensures Sorted(nums[..r])
    ensures KeepsAtMostTwo(nums[..r], old(nums[..]))
  {
    ghost var a0 := nums[..];
    var writeIndex := 0;
    var currentIndex := 0;
    while currentIndex < nums.Length
      invariant 0 <= writeIndex <= currentIndex <= nums.Length
      invariant forall j :: currentIndex <= j < nums.Length ==> nums[j] == a0[j]
      invariant nums[..writeIndex] == KeepTwo(a0, currentIndex)
      decreases nums.Length - currentIndex
    {
      KeepTwoStep(nums[..], a0, writeIndex, currentIndex);
      if writeIndex < 2 || nums[writeIndex - 2] != nums[currentIndex] {
        nums[writeIndex] := nums[currentIndex];
        writeIndex := writeIndex + 1;
      }
      currentIndex := currentIndex + 1;
    }
    KeepTwoDone(nums[..], a0, writeIndex);
    r := writeIndex;
  }

  /** One step of the write-index loop extends the kept prefix as KeepTwo does. */
  lemma KeepTwoStep(s: seq<int>, a0: seq<int>, w: int, i: int)
    requires |s| == |a0| && 0 <= w <= i < |s|
    requires forall j :: i <= j < |s| ==> s[j] == a0[j]
    requires s[..w] == KeepTwo(a0, i)
    ensures w < 2 || s[w - 2] != s[i] ==>
      s[w := s[i]][..w + 1] == KeepTwo(a0, i + 1) && forall j :: i + 1 <= j < |s| ==> s[w := s[i]][j] == a0[j]
    ensures !(w < 2 || s[w - 2] != s[i]) ==> s[..w] == KeepTwo(a0, i + 1)
  {
    if w >= 2 {
      assert s[w - 2] == s[..w][w - 2];
    }
    assert s[w := s[i]][..w + 1] == s[..w] + [a0[i]];
  }

  /** At the end of the loop the kept prefix has the promised shape. */
  lemma KeepTwoDone(s: seq<int>, a0: seq<int>, w: int)
    requires Sorted(a0) && 0 <= w <= |s| && s[..w] == KeepTwo(a0, |a0|)
    ensures Sorted(s[..w]) && KeepsAtMostTwo(s[..w], a0)
  {
    KeepTwoSorted(a0, |a0|);
    KeepTwoCounts(a0, |a0|);
    assert a0[..|a0|] == a0;
  }

  /** The driver row {1,1,1,2,2,3}: as written the count is 4 ... */
  lemma ButTwoCounterexample()
    ensures RemoveAllButTwoAsWritten([1, 1, 1, 2, 2, 3]) == 4
  {
    var s0 := [1, 1, 1, 2, 2, 3];
    // cur 2 is a third 1: the walk stops on the 2 at index 3, which is copied down
    assert SkipNotAboveBoth(s0, 1, 1, 2) == 3;
    var s1 := s0[2 := 2];
    assert s1 == [1, 1, 2, 2, 2, 3];
    // cur 3 is not a duplicate, although its 2 was the one just copied
    assert ButTwoFrom(s1, 3, 3, 1) == ButTwoFrom(s1, 4, 3, 1);
    // cur 4 is a third 2: the walk stops on the 3 at index 5
    assert SkipNotAboveBoth(s1, 2, 2, 3) == SkipNotAboveBoth(s1, 2, 2, 4) == SkipNotAboveBoth(s1, 2, 2, 5) == 5;
    var s2 := s1[4 := 3];
    assert s2 == [1, 1, 2, 2, 3, 3];
    // cur 5 is not a duplicate and the loop ends with two duplicates counted
    assert ButTwoFrom(s2, 5, 5, 2) == ButTwoFrom(s2, 6, 5, 2) == 4;
  }

  /** ... while five elements, {1,1,2,2,3}, should remain. */
  lemma ButTwoIntended()
    ensures KeepTwo([1, 1, 1, 2, 2, 3], 6) == [1, 1, 2, 2, 3]
  {
  }

  /** Two sorted sequences with the same values start with the same (least) value. */
  lemma SortedHeads(s: seq<int>, t: seq<int>)
    requires Sorted(s) && Sorted(t) && multiset(s) == multiset(t) && s != [] && t != []
    ensures s[0] == t[0]
  {
    assert s[0] in multiset(t) && t[0] in multiset(s);
    var i :| 0 <= i < |t| && t[i] == s[0];
    var j :| 0 <= j < |s| && s[j] == t[0];
  }

  /** A sorted sequence is fixed by its multiset of values. */
  lemma {:induction false} SortedUnique(s: seq<int>, t: seq<int>)
    requires Sorted(s) && Sorted(t) && multiset(s) == multiset(t)
    ensures s == t
  {
    assert |s| == |multiset(s)| == |multiset(t)| == |t|;
    if s != [] {
      SortedHeads(s, t);
      assert multiset(s[1..]) == multiset(s) - multiset{s[0]} by {
        assert s == [s[0]] + s[1..];
      }
      assert multiset(t[1..]) == multiset(t) - multiset{t[0]} by {
        assert t == [t[0]] + t[1..];
      }
      assert Sorted(s[1..]) && Sorted(t[1..]);
      SortedUnique(s[1..], t[1..]);
      assert s == [s[0]] + s[1..];
    }
  }

  /** Two sorted sequences that keep each value of the same input at most twice are the same. */
  lemma SameKept(k: seq<int>, k2: seq<int>, a0: seq<int>)
    requires Sorted(k) && KeepsAtMostTwo(k, a0)
    requires Sorted(k2) && KeepsAtMostTwo(k2, a0)
    ensures k == k2
  {
    assert multiset(k) == multiset(k2) by {
      forall v
        ensures multiset(k)[v] == multiset(k2)[v]
      {
      }
    }
    SortedUnique(k, k2);
  }

  /** The promised shape pins the result down to KeepTwo of the whole input. */
  lemma KeptIsKeepTwo(k: seq<int>, a0: seq<int>)
    requires Sorted(a0) && Sorted(k) && KeepsAtMostTwo(k, a0)
    ensures k == KeepTwo(a0, |a0|)
  {
    KeepTwoSorted(a0, |a0|);
    KeepTwoCounts(a0, |a0|);
    assert a0[..|a0|] == a0;
    SameKept(k, KeepTwo(a0, |a0|), a0);
  }

  /** Row 1 of the driver for the all-but-2 version: [1, 2, 2, 2, 3, 3] leaves [1, 2, 2, 3, 3]. */
  lemma ButTwoRow1(k: seq<int>)
    requires Sorted(k) && KeepsAtMostTwo(k, [1, 2, 2, 2, 3, 3])
    ensures k == [1, 2, 2, 3, 3]
  {
    KeptIsKeepTwo(k, [1, 2, 2, 2, 3, 3]);
    ButTwoRow1Kept([1, 2, 2, 2, 3, 3]);
  }

  lemma ButTwoRow1Kept(a0: seq<int>)
    requires a0 == [1, 2, 2, 2, 3, 3]
    ensures KeepTwo(a0, 6) == [1, 2, 2, 3, 3]
  {
    assert KeepTwo(a0, 1) == [1];
    assert KeepTwo(a0, 2) == [1, 2];
    assert KeepTwo(a0, 3) == [1, 2, 2];
    assert KeepTwo(a0, 4) == [1, 2, 2];
    assert KeepTwo(a0, 5) == [1, 2, 2, 3];
    assert KeepTwo(a0, 6) == [1, 2, 2, 3, 3];
  }

  /** Row 2 of the driver for the all-but-2 version: [1] leaves [1]. */
  lemma ButTwoRow2(k: seq<int>)
    requires Sorted(k) && KeepsAtMostTwo(k, [1])
    ensures k == [1]
  {
    KeptIsKeepTwo(k, [1]);
    ButTwoRow2Kept([1]);
  }

  lemma ButTwoRow2Kept(a0: seq<int>)
    requires a0 == [1]
    ensures KeepTwo(a0, 1) == [1]
  {
    assert KeepTwo(a0, 1) == [1];
  }

  /** Row 3 of the driver for the all-but-2 version: [] leaves []. */
  lemma ButTwoRow3(k: seq<int>)
    requires Sorted(k) && KeepsAtMostTwo(k, [])
    ensures k == []
  {
    KeptIsKeepTwo(k, []);
    ButTwoRow3Kept([]);
  }

  lemma ButTwoRow3Kept(a0: seq<int>)
    requires a0 == []
    ensures KeepTwo(a0, 0) == []
  {

  }

  /** Row 4 of the driver for the all-but-2 version: [1, 1, 2, 2, 3, 3] leaves [1, 1, 2, 2, 3, 3]. */
  lemma ButTwoRow4(k: seq<int>)
    requires Sorted(k) && KeepsAtMostTwo(k, [1, 1, 2, 2, 3, 3])
    ensures k == [1, 1, 2, 2, 3, 3]
  {
    KeptIsKeepTwo(k, [1, 1, 2, 2, 3, 3]);
    ButTwoRow4Kept([1, 1, 2, 2, 3, 3]);
  }

  lemma ButTwoRow4Kept(a0: seq<int>)
    requires a0 == [1, 1, 2, 2, 3, 3]
    ensures KeepTwo(a0, 6) == [1, 1, 2, 2, 3, 3]
  {
    assert KeepTwo(a0, 1) == [1];
    assert KeepTwo(a0, 2) == [1, 1];
    assert KeepTwo(a0, 3) == [1, 1, 2];
    assert KeepTwo(a0, 4) == [1, 1, 2, 2];
    assert KeepTwo(a0, 5) == [1, 1, 2, 2, 3];
    assert KeepTwo(a0, 6) == [1, 1, 2, 2, 3, 3];
  }

  /** Row 5 of the driver for the all-but-2 version: [1, 1, 1, 1, 2, 2, 2, 2, 3, 3, 3, 3] leaves [1, 1, 2, 2, 3, 3]. */
  lemma ButTwoRow5(k: seq<int>)
    requires Sorted(k) && KeepsAtMostTwo(k, [1, 1, 1, 1, 2, 2, 2, 2, 3, 3, 3, 3])
    ensures k == [1, 1, 2, 2, 3, 3]
  {
    KeptIsKeepTwo(k, [1, 1, 1, 1, 2, 2, 2, 2, 3, 3, 3, 3]);
    ButTwoRow5Kept([1, 1, 1, 1, 2, 2, 2, 2, 3, 3, 3, 3]);
  }

  lemma ButTwoRow5Kept(a0: seq<int>)
    requires a0 == [1, 1, 1, 1, 2, 2, 2, 2, 3, 3, 3, 3]
    ensures KeepTwo(a0, 12) == [1, 1, 2, 2, 3, 3]
  {
    assert KeepTwo(a0, 1) == [1];
    assert KeepTwo(a0, 2) == [1, 1];
    assert KeepTwo(a0, 3) == [1, 1];
    assert KeepTwo(a0, 4) == [1, 1];
    assert KeepTwo(a0, 5) == [1, 1, 2];
    assert KeepTwo(a0, 6) == [1, 1, 2, 2];
    assert KeepTwo(a0, 7) == [1, 1, 2, 2];
    assert KeepTwo(a0, 8) == [1, 1, 2, 2];
    assert KeepTwo(a0, 9) == [1, 1, 2, 2, 3];
    assert KeepTwo(a0, 10) == [1, 1, 2, 2, 3, 3];
    assert KeepTwo(a0, 11) == [1, 1, 2, 2, 3, 3];
    assert KeepTwo(a0, 12) == [1, 1, 2, 2, 3, 3];
  }

  /** Row 6 of the driver for the all-but-2 version: [1, 2, 3] leaves [1, 2, 3]. */
  lemma ButTwoRow6(k: seq<int>)
    requires Sorted(k) && KeepsAtMostTwo(k, [1, 2, 3])
    ensures k == [1, 2, 3]
  {
    KeptIsKeepTwo(k, [1, 2, 3]);
    ButTwoRow6Kept([1, 2, 3]);
  }

  lemma ButTwoRow6Kept(a0: seq<int>)
    requires a0 == [1, 2, 3]
    ensures KeepTwo(a0, 3) == [1, 2, 3]
  {
    assert KeepTwo(a0, 1) == [1];
    assert KeepTwo(a0, 2) == [1, 2];
    assert KeepTwo(a0, 3) == [1, 2, 3];
  }

  /** Row 7 of the driver for the all-but-2 version: [1, 1, 1, 1, 1, 1] leaves [1, 1]. */
  lemma ButTwoRow7(k: seq<int>)
    requires Sorted(k) && KeepsAtMostTwo(k, [1, 1, 1, 1, 1, 1])
    ensures k == [1, 1]
  {
    KeptIsKeepTwo(k, [1, 1, 1, 1, 1, 1]);
    ButTwoRow7Kept([1, 1, 1, 1, 1, 1]);
  }

  lemma ButTwoRow7Kept(a0: seq<int>)
    requires a0 == [1, 1, 1, 1, 1, 1]
    ensures KeepTwo(a0, 6) == [1, 1]
  {
    assert KeepTwo(a0, 1) == [1];
    assert KeepTwo(a0, 2) == [1, 1];
    assert KeepTwo(a0, 3) == [1, 1];
    assert KeepTwo(a0, 4) == [1, 1];
    assert KeepTwo(a0, 5) == [1, 1];
    assert KeepTwo(a0, 6) == [1, 1];
  }

  /** Row 8 of the driver for the all-but-2 version: [1, 1, 1, 2, 2, 3] leaves [1, 1, 2, 2, 3]. */
  lemma ButTwoRow8(k: seq<int>)
    requires Sorted(k) && KeepsAtMostTwo(k, [1, 1, 1, 2, 2, 3])
    ensures k == [1, 1, 2, 2, 3]
  {
    KeptIsKeepTwo(k, [1, 1, 1, 2, 2, 3]);
    ButTwoRow8Kept([1, 1, 1, 2, 2, 3]);
  }

  lemma ButTwoRow8Kept(a0: seq<int>)
    requires a0 == [1, 1, 1, 2, 2, 3]
    ensures KeepTwo(a0, 6) == [1, 1, 2, 2, 3]
  {
    assert KeepTwo(a0, 1) == [1];
    assert KeepTwo(a0, 2) == [1, 1];
    assert KeepTwo(a0, 3) == [1, 1];
    assert KeepTwo(a0, 4) == [1, 1, 2];
    assert KeepTwo(a0, 5) == [1, 1, 2, 2];
    assert KeepTwo(a0, 6) == [1, 1, 2, 2, 3];
  }
}
