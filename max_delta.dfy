/**
 * Maximum deltas (src/array_max_delta.cc): the largest rise nums[j] - nums[i] with
 * i < j, and the sum of the rises of every increasing window, which is the sum of the
 * positive steps between neighbours.
 */
module MaxDelta {
  /** The smallest of the first n elements. */
  function MinBefore(s: seq<int>, n: nat): int
    requires 0 < n <= |s|
  {
    if n == 1 then s[0]
    else
      var m := MinBefore(s, n - 1);
      if s[n - 1] < m then s[n - 1] else m
  }

  /** MinBefore is the minimum of the first n elements. */
  lemma {:induction false} MinBeforeIsMinimum(s: seq<int>, n: nat)
    requires 0 < n <= |s|
    ensures forall i :: 0 <= i < n ==> MinBefore(s, n) <= s[i]
    ensures exists i :: 0 <= i < n && MinBefore(s, n) == s[i]
  {
    if n > 1 {
      MinBeforeIsMinimum(s, n - 1);
      if s[n - 1] >= MinBefore(s, n - 1) {
        var k :| 0 <= k < n - 1 && MinBefore(s, n - 1) == s[k];
        assert MinBefore(s, n) == s[k];
      }
    } else {
      assert MinBefore(s, n) == s[0];
    }
  }

  /**
   * The reference answer over the first n elements: the better of the best rise among
   * the first n - 1 and the rise from their minimum onto element n - 1; 0 for n < 2.
   */
  function BestRiseBefore(s: seq<int>, n: nat): int
    requires n <= |s|
  {
    if n < 2 then 0
    else
      var rise := s[n - 1] - MinBefore(s, n - 1);
      var best := BestRiseBefore(s, n - 1);
      if rise > best then rise else best
  }

  /** The best rise of the whole sequence. */
  function BestRise(s: seq<int>): int
  {
    BestRiseBefore(s, |s|)
  }

  /** BestRiseBefore is the largest rise over the ordered pairs below n, and 0 when none rises. */
  lemma {:induction false} BestRiseIsMaximum(s: seq<int>, n: nat)
    requires n <= |s|
    ensures BestRiseBefore(s, n) >= 0
    ensures forall i, j :: 0 <= i < j < n ==> s[j] - s[i] <= BestRiseBefore(s, n)
    ensures BestRiseBefore(s, n) == 0 || exists i, j :: 0 <= i < j < n && s[j] - s[i] == BestRiseBefore(s, n)
  {
    if n >= 2 {
      BestRiseIsMaximum(s, n - 1);
      MinBeforeIsMinimum(s, n - 1);
      var k :| 0 <= k < n - 1 && MinBefore(s, n - 1) == s[k];
      if BestRiseBefore(s, n) != BestRiseBefore(s, n - 1) {
        assert s[n - 1] - s[k] == BestRiseBefore(s, n);
      }
    }
  }

  /**
   * array_max_delta: one pass from the front, remembering the smallest element so far
   * and the best rise onto the current element.
   */
  method ArrayMaxDelta(nums: seq<int>) returns (bestDelta: int)
    ensures bestDelta == BestRise(nums)
    ensures bestDelta >= 0
    ensures forall i, j :: 0 <= i < j < |nums| ==> nums[j] - nums[i] <= bestDelta
    ensures bestDelta == 0 || exists i, j :: 0 <= i < j < |nums| && nums[j] - nums[i] == bestDelta
  {
    var minElementIndex := 0;
    bestDelta := 0;
    var currentIndex := 1;
    while currentIndex < |nums|
      invariant 1 <= currentIndex
      invariant |nums| > 0 ==> currentIndex <= |nums|
      invariant minElementIndex < currentIndex
      invariant |nums| > 0 ==> nums[minElementIndex] == MinBefore(nums, currentIndex)
      invariant |nums| > 0 ==> bestDelta == BestRiseBefore(nums, currentIndex)
      invariant |nums| == 0 ==> bestDelta == 0
    {
      if nums[currentIndex] < nums[minElementIndex] {
        minElementIndex := currentIndex;
        currentIndex := currentIndex + 1;
        continue;
      }
      var currentDelta := nums[currentIndex] - nums[minElementIndex];
      if currentDelta > bestDelta {
        bestDelta := currentDelta;
      }
      currentIndex := currentIndex + 1;
    }
    BestRiseIsMaximum(nums, |nums|);
  }

  /** The sum of the positive steps between neighbours. */
  function RiseSum(s: seq<int>): (r: int)
    ensures r >= 0
  {
    if |s| < 2 then 0
    else (if s[1] > s[0] then s[1] - s[0] else 0) + RiseSum(s[1..])
  }

  /** The step sum splits at any position shared by both halves. */
  lemma {:induction false} RiseSumSplit(s: seq<int>, k: nat)
    requires k < |s|
    ensures RiseSum(s) == RiseSum(s[..k + 1]) + RiseSum(s[k..])
  {
    if k > 0 {
      RiseSumSplit(s[1..], k - 1);
      assert s[1..][..k] == s[..k + 1][1..];
      assert s[1..][k - 1..] == s[k..];
    } else {
      assert s[0..] == s;
    }
  }

  /** A single rise never exceeds the step sum. */
  lemma {:induction false} RiseAtMostRiseSum(s: seq<int>, i: nat, j: nat)
    requires i < j < |s|
    ensures s[j] - s[i] <= RiseSum(s)
  {
    if i > 0 {
      RiseAtMostRiseSum(s[1..], i - 1, j - 1);
    } else if j > 1 {
      RiseAtMostRiseSum(s[1..], 0, j - 1);
    }
  }

  /** Hence the best single rise never exceeds the sum of rises. */
  lemma BestRiseAtMostRiseSum(s: seq<int>)
    ensures BestRise(s) <= RiseSum(s)
  {
    BestRiseIsMaximum(s, |s|);
    if BestRise(s) != 0 {
      var i, j :| 0 <= i < j < |s| && s[j] - s[i] == BestRise(s);
      RiseAtMostRiseSum(s, i, j);
    }
  }

  /** A non-increasing sequence has no positive step. */
  lemma {:induction false} NonIncreasingRiseSum(s: seq<int>)
    requires forall i :: 0 < i < |s| ==> s[i] <= s[i - 1]
    ensures RiseSum(s) == 0
  {
    if |s| >= 2 {
      assert forall i :: 0 < i < |s| - 1 ==> s[1..][i] <= s[1..][i - 1];
      NonIncreasingRiseSum(s[1..]);
    }
  }

  /** Hence a non-increasing sequence has no rise at all. */
  lemma NonIncreasingHasNoRise(s: seq<int>)
    requires forall i :: 0 < i < |s| ==> s[i] <= s[i - 1]
    ensures BestRise(s) == 0
  {
    NonIncreasingRiseSum(s);
    BestRiseAtMostRiseSum(s);
    BestRiseIsMaximum(s, |s|);
  }

  /** What the backward walk of array_max_delta_sum is looking for. */
  datatype SearchState = FindMaxValue | FindMinValue

  /**
   * array_max_delta_sum: walking backwards, each window runs from its smallest element
   * up to its largest; a window's rise is added once a larger element ahead of it
   * closes it, and the last open window is added at the end.
   */
  method ArrayMaxDeltaSum(nums: seq<int>) returns (deltaSum: int)
    ensures deltaSum == RiseSum(nums)
    ensures deltaSum >= 0
  {
    if |nums| < 2 {
      return 0;
    }
    var state := FindMaxValue;
    var currentMaxValueIndex := |nums| - 1;
    var currentMinValueIndex := currentMaxValueIndex;
    deltaSum := 0;
    var currentIndex := currentMaxValueIndex - 1;
    while currentIndex >= 0
      decreases currentIndex + 1
      invariant -1 <= currentIndex < |nums| - 1
      invariant currentIndex + 1 <= currentMaxValueIndex < |nums| && 0 <= currentMinValueIndex < |nums|
      invariant state == FindMinValue ==> currentMinValueIndex == currentIndex + 1
      invariant state == FindMaxValue ==>
        currentMaxValueIndex == currentIndex + 1 && deltaSum == RiseSum(nums[currentIndex + 1..])
      invariant state == FindMinValue ==>
        deltaSum + nums[currentMaxValueIndex] - nums[currentMinValueIndex] == RiseSum(nums[currentIndex + 1..])
    {
      assert nums[currentIndex..][1..] == nums[currentIndex + 1..];
      match state {
      case FindMinValue =>
        if nums[currentIndex] > nums[currentMinValueIndex] {
          deltaSum := deltaSum + nums[currentMaxValueIndex] - nums[currentMinValueIndex];
          currentMaxValueIndex := currentIndex;
          currentMinValueIndex := currentIndex;
          state := FindMaxValue;
        } else {
          currentMinValueIndex := currentIndex;
        }
      case FindMaxValue =>
        if nums[currentIndex] < nums[currentMaxValueIndex] {
          currentMinValueIndex := currentIndex;
          state := FindMinValue;
        } else {
          currentMaxValueIndex := currentIndex;
        }
      }
      currentIndex := currentIndex - 1;
    }
    assert nums[0..] == nums;
    if state == FindMinValue {
      deltaSum := deltaSum + nums[currentMaxValueIndex] - nums[currentMinValueIndex];
    }
  }

  /** The driver's cases for array_max_delta. */
  lemma MaxDeltaExamples()
    ensures BestRise([3, 4, 2, 2, 3, 5, 2, 3]) == 3
    ensures BestRise([]) == 0 && BestRise([1]) == 0 && BestRise([1, 1]) == 0
    ensures BestRise([1, 2, 3]) == 2 && BestRise([2, 3, 1]) == 1
  {
    var s := [3, 4, 2, 2, 3, 5, 2, 3];
    assert MinBefore(s, 7) == 2 && BestRiseBefore(s, 7) == 3;
  }

  /** The driver's remaining cases for array_max_delta. */
  lemma MaxDeltaMoreExamples()
    ensures BestRise([2, 3, 1, 2, 3, 4]) == 3
    ensures BestRise([3, 2, 1]) == 0
  {
    var s := [2, 3, 1, 2, 3, 4];
    assert MinBefore(s, 5) == 1 && BestRiseBefore(s, 5) == 2;
  }

  /** The driver's cases for array_max_delta_sum. */
  lemma MaxDeltaSumExamples()
    ensures RiseSum([7, 1, 5, 3, 6, 4]) == 7 && RiseSum([1, 2, 3]) == 2
    ensures RiseSum([]) == 0 && RiseSum([1]) == 0 && RiseSum([1, 1]) == 0
    ensures RiseSum([1, 8, 2, 10]) == 15
  {
  }

  /** The driver's longest case for array_max_delta_sum. */
  lemma MaxDeltaSumLongExample()
    ensures RiseSum([10, 1, 2, 5, 2, 3, 6, 5, 4, 3, 2, 1]) == 8
  {
    assert RiseSum([6, 5, 4, 3, 2, 1]) == 0;
  }
}
