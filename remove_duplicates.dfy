/**
 * Remove duplicates from a sorted array (src/array_remove_duplicates.cc), in place.
 * The remove-all version leaves each distinct value once, in increasing order, at the
 * front of the array and returns how many there are.
 */
module RemoveDuplicates {
  /** Non-decreasing, the shape remove_all_duplicates demands of its input. */
  ghost predicate Sorted(s: seq<int>)
  {
    forall i, j :: 0 <= i <= j < |s| ==> s[i] <= s[j]
  }

  ghost predicate StrictlyIncreasing(s: seq<int>)
  {
    forall i, j :: 0 <= i < j < |s| ==> s[i] < s[j]
  }

  /** The first r slots of s hold each value of a0 exactly once, in increasing order. */
  ghost predicate DistinctPrefix(s: seq<int>, a0: seq<int>, r: int)
  {
    0 <= r <= |s| && StrictlyIncreasing(s[..r]) && forall v :: v in s[..r] <==> v in a0
  }

  /** The head of an increasing sequence is its least element. */
  lemma HeadIsLeast(s: seq<int>, v: int)
    requires StrictlyIncreasing(s) && v in s
    ensures s[0] <= v
  {
    var i :| 0 <= i < |s| && s[i] == v;
    assert s[0] <= s[i] by {
      if i > 0 {
        assert s[0] < s[i];
      }
    }
  }

  /** An increasing sequence is fixed by its set of values: the prefix above is the only answer. */
  lemma {:induction false} IncreasingUnique(s: seq<int>, t: seq<int>)
    requires StrictlyIncreasing(s) && StrictlyIncreasing(t)
    requires forall v :: v in s <==> v in t
    ensures s == t
  {
    assert |s| > 0 ==> s[0] in s;
    assert |t| > 0 ==> t[0] in t;
    if |s| > 0 && |t| > 0 {
      // both heads are the smallest value of the common set
      assert s[0] in s && t[0] in t;
      HeadIsLeast(s, t[0]);
      HeadIsLeast(t, s[0]);
      forall v
        ensures v in s[1..] <==> v in t[1..]
      {
        if v in s[1..] {
          var i :| 1 <= i < |s| && s[i] == v;
          assert s[0] < v;
        }
        if v in t[1..] {
          var i :| 1 <= i < |t| && t[i] == v;
          assert t[0] < v;
        }
        assert v in s <==> v == s[0] || v in s[1..] by { assert s == [s[0]] + s[1..]; }
        assert v in t <==> v == t[0] || v in t[1..] by { assert t == [t[0]] + t[1..]; }
      }
      IncreasingUnique(s[1..], t[1..]);
      assert s == [s[0]] + s[1..];
      assert t == [t[0]] + t[1..];
    }
  }

  /** The distinct values among a0[..k], in order of first appearance. */
  ghost function Dedup(a0: seq<int>, k: nat): seq<int>
    requires k <= |a0|
  {
    if k == 0 then []
    else if k > 1 && a0[k - 1] == a0[k - 2] then Dedup(a0, k - 1)
    else Dedup(a0, k - 1) + [a0[k - 1]]
  }

  /** For sorted input Dedup is increasing, ends in a0[k - 1] and holds exactly the values of a0[..k]. */
  lemma {:induction false} DedupShape(a0: seq<int>, k: nat)
    requires Sorted(a0) && 1 <= k <= |a0|
    ensures |Dedup(a0, k)| >= 1 && Dedup(a0, k)[|Dedup(a0, k)| - 1] == a0[k - 1]
    ensures StrictlyIncreasing(Dedup(a0, k))
    ensures forall v :: v in Dedup(a0, k) <==> v in a0[..k]
  {
    assert a0[..k] == a0[..k - 1] + [a0[k - 1]];
    if k > 1 {
      DedupShape(a0, k - 1);
    }
  }

  /** Values equal to the last one seen add nothing. */
  lemma {:induction false} DedupFlat(a0: seq<int>, top: nat, k: nat)
    requires 1 <= top <= k <= |a0|
    requires forall j :: top <= j < k ==> a0[j] == a0[top - 1]
    ensures Dedup(a0, k) == Dedup(a0, top)
  {
    if k > top {
      DedupFlat(a0, top, k - 1);
    }
  }

  /**
   * The state at the top of the remove-all loop, with cur the current index (the
   * previous index is cur - 1), swap the swap index and dup the duplicate count:
   * slots from cur on are untouched and the slots before cur hold the distinct values
   * of a0[..top]. Before the first duplicate nothing has moved (top == cur); after it,
   * top is one past the swap index, which then lies in [cur, |s|).
   */
  ghost predicate Walking(s: seq<int>, a0: seq<int>, cur: int, swap: int, dup: int, top: int)
  {
    |s| == |a0| && Sorted(a0) &&
    1 <= cur <= |s| && 1 <= top <= |s| && 1 <= swap <= |s| && 0 <= dup &&
    (forall j :: cur <= j < |s| ==> s[j] == a0[j]) &&
    s[..cur] == Dedup(a0, top) && s[cur - 1] == a0[top - 1] &&
    (dup == 0 ==> s == a0 && top == cur && swap <= cur) &&
    (dup > 0 ==> top == swap + 1 && cur <= swap < |s|)
  }

  /** A current element above the previous one is new: the prefix grows by it. */
  lemma WalkFresh(s: seq<int>, a0: seq<int>, cur: int, swap: int, dup: int, top: int)
    requires Walking(s, a0, cur, swap, dup, top) && cur < |s| && s[cur - 1] < s[cur]
    ensures dup == 0
    ensures Walking(s, a0, cur + 1, swap, dup, cur + 1)
  {
    assert s[..cur + 1] == s[..cur] + [s[cur]];
  }

  /** After the swap walk stops below the end, copying its element extends the prefix. */
  lemma WalkCopy(s: seq<int>, a0: seq<int>, cur: int, swap0: int, dup: int, top: int, swap: int)
    requires Walking(s, a0, cur, swap0, dup, top) && cur < |s| && s[cur] <= s[cur - 1]
    requires swap0 <= swap < |s| && s[cur - 1] < s[swap]
    requires forall j :: swap0 <= j < swap ==> s[j] <= s[cur - 1]
    ensures Walking(s[cur := s[swap]], a0, cur + 1, swap, dup + 1, swap + 1)
  {
    assert cur < swap;
    forall j | top <= j < swap
      ensures a0[j] == a0[top - 1]
    {
      assert a0[top - 1] <= a0[j];
    }
    DedupFlat(a0, top, swap);
    assert s[cur := s[swap]][..cur + 1] == s[..cur] + [a0[swap]];
  }

  /** When the swap walk reaches the end, the prefix up to cur is the answer. */
  lemma WalkExhausted(s: seq<int>, a0: seq<int>, cur: int, swap0: int, dup: int, top: int)
    requires Walking(s, a0, cur, swap0, dup, top) && cur < |s| && s[cur] <= s[cur - 1]
    requires forall j :: swap0 <= j < |s| ==> s[j] <= s[cur - 1]
    ensures DistinctPrefix(s, a0, cur)
  {
    forall j | top <= j < |a0|
      ensures a0[j] == a0[top - 1]
    {
      assert a0[top - 1] <= a0[j];
    }
    DedupFlat(a0, top, |a0|);
    DedupShape(a0, |a0|);
    assert a0[..|a0|] == a0;
  }

  /** A walk that runs to the end never met a duplicate and keeps every slot. */
  lemma WalkFinished(s: seq<int>, a0: seq<int>, swap: int, dup: int, top: int)
    requires Walking(s, a0, |s|, swap, dup, top)
    ensures dup == 0 && DistinctPrefix(s, a0, |s|)
  {
    DedupShape(a0, |a0|);
    assert a0[..|a0|] == a0;
  }

  /**
   * The swap walk: from `from`, the first index whose element is above `bound`, or the
   * length when there is none.
   */
  method SkipNotAbove(nums: array<int>, bound: int, from: int) returns (swap: int)
    requires 0 <= from <= nums.Length
    ensures from <= swap <= nums.Length
    ensures forall j :: from <= j < swap ==> nums[j] <= bound
    ensures swap < nums.Length ==> bound < nums[swap]
  {
    swap := from;
    while swap < nums.Length && bound >= nums[swap]
      invariant from <= swap <= nums.Length
      invariant forall j :: from <= j < swap ==> nums[j] <= bound
      decreases nums.Length - swap
    {
      swap := swap + 1;
    }
  }

  /**
   * sorted_array_remove_all_duplicates: a current element not above the previous one
   * is a duplicate and is overwritten by the next larger value found by walking the
   * swap index forward; when the walk runs off the end the current index is the
   * answer.
   */
  method RemoveAllDuplicates(nums: array<int>) returns (r: int)
    requires Sorted(nums[..])
    modifies nums
    ensures DistinctPrefix(nums[..], old(nums[..]), r)
  {
    ghost var a0 := nums[..];
    ghost var top := 1;
    var n := nums.Length;
    var previousIndex := 0;
    var currentIndex := 1;
    var swapIndex := 1;
    var duplicateCount := 0;
    if n > 0 {
      assert nums[..1] == Dedup(a0, 1);
    }
    while currentIndex < n
      invariant previousIndex == currentIndex - 1
      invariant n == 0 ==> duplicateCount == 0
      invariant n > 0 ==> Walking(nums[..], a0, currentIndex, swapIndex, duplicateCount, top)
      decreases n - currentIndex
    {
      if nums[previousIndex] >= nums[currentIndex] {
        ghost var swap0 := swapIndex;
        duplicateCount := duplicateCount + 1;
        swapIndex := SkipNotAbove(nums, nums[previousIndex], swapIndex);
        if swapIndex < n {
          WalkCopy(nums[..], a0, currentIndex, swap0, duplicateCount - 1, top, swapIndex);
          nums[currentIndex] := nums[swapIndex];
          top := swapIndex + 1;
        } else {
          WalkExhausted(nums[..], a0, currentIndex, swap0, duplicateCount - 1, top);
          return currentIndex;
        }
      } else {
        WalkFresh(nums[..], a0, currentIndex, swapIndex, duplicateCount, top);
        top := currentIndex + 1;
      }
      currentIndex := currentIndex + 1;
      previousIndex := previousIndex + 1;
    }
    if n > 0 {
      WalkFinished(nums[..], a0, swapIndex, duplicateCount, top);
    }
    r := n - duplicateCount;
  }

  /** Two rows of the driver: the distinct values the prefix must hold. */
  lemma RemoveAllDuplicatesExamples()
    ensures Dedup([1, 2, 2, 3, 3], 5) == [1, 2, 3]
    ensures Dedup([1, 1, 1, 3, 3, 3, 4], 7) == [1, 3, 4]
  {
  }

  /** Row 1 of the driver: [1, 2, 2, 3, 3] leaves [1, 2, 3], 3 values. */
  lemma AllRow1(s: seq<int>, r: int)
    requires DistinctPrefix(s, [1, 2, 2, 3, 3], r)
    ensures r == 3 && s[..r] == [1, 2, 3]
  {
    IncreasingUnique(s[..r], [1, 2, 3]);
  }

  /** Row 2 of the driver: [1, 1, 2] leaves [1, 2], 2 values. */
  lemma AllRow2(s: seq<int>, r: int)
    requires DistinctPrefix(s, [1, 1, 2], r)
    ensures r == 2 && s[..r] == [1, 2]
  {
    IncreasingUnique(s[..r], [1, 2]);
  }

  /** Row 3 of the driver: [1] leaves [1], 1 values. */
  lemma AllRow3(s: seq<int>, r: int)
    requires DistinctPrefix(s, [1], r)
    ensures r == 1 && s[..r] == [1]
  {
    IncreasingUnique(s[..r], [1]);
  }

  /** Row 4 of the driver: [1, 2, 2, 3, 4] leaves [1, 2, 3, 4], 4 values. */
  lemma AllRow4(s: seq<int>, r: int)
    requires DistinctPrefix(s, [1, 2, 2, 3, 4], r)
    ensures r == 4 && s[..r] == [1, 2, 3, 4]
  {
    IncreasingUnique(s[..r], [1, 2, 3, 4]);
  }

  /** Row 5 of the driver: [1, 1, 1, 1, 1, 1] leaves [1], 1 values. */
  lemma AllRow5(s: seq<int>, r: int)
    requires DistinctPrefix(s, [1, 1, 1, 1, 1, 1], r)
    ensures r == 1 && s[..r] == [1]
  {
    IncreasingUnique(s[..r], [1]);
  }

  /** Row 6 of the driver: [] leaves [], 0 values. */
  lemma AllRow6(s: seq<int>, r: int)
    requires DistinctPrefix(s, [], r)
    ensures r == 0 && s[..r] == []
  {
    IncreasingUnique(s[..r], []);
  }

  /** Row 7 of the driver: [1, 1, 1, 3] leaves [1, 3], 2 values. */
  lemma AllRow7(s: seq<int>, r: int)
    requires DistinctPrefix(s, [1, 1, 1, 3], r)
    ensures r == 2 && s[..r] == [1, 3]
  {
    IncreasingUnique(s[..r], [1, 3]);
  }

  /** Row 8 of the driver: [1, 1, 1, 3, 3, 3] leaves [1, 3], 2 values. */
  lemma AllRow8(s: seq<int>, r: int)
    requires DistinctPrefix(s, [1, 1, 1, 3, 3, 3], r)
    ensures r == 2 && s[..r] == [1, 3]
  {
    IncreasingUnique(s[..r], [1, 3]);
  }

  /** Row 9 of the driver: [1, 1, 1, 3, 3, 3, 4] leaves [1, 3, 4], 3 values. */
  lemma AllRow9(s: seq<int>, r: int)
    requires DistinctPrefix(s, [1, 1, 1, 3, 3, 3, 4], r)
    ensures r == 3 && s[..r] == [1, 3, 4]
  {
    IncreasingUnique(s[..r], [1, 3, 4]);
  }

  /** Row 10 of the driver: [1, 1, 1, 3, 3, 3, 4, 4, 4] leaves [1, 3, 4], 3 values. */
  lemma AllRow10(s: seq<int>, r: int)
    requires DistinctPrefix(s, [1, 1, 1, 3, 3, 3, 4, 4, 4], r)
    ensures r == 3 && s[..r] == [1, 3, 4]
  {
    IncreasingUnique(s[..r], [1, 3, 4]);
  }

  /** Row 11 of the driver: [1, 2, 3, 4] leaves [1, 2, 3, 4], 4 values. */
  lemma AllRow11(s: seq<int>, r: int)
    requires DistinctPrefix(s, [1, 2, 3, 4], r)
    ensures r == 4 && s[..r] == [1, 2, 3, 4]
  {
    IncreasingUnique(s[..r], [1, 2, 3, 4]);
  }
}
