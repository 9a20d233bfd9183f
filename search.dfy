/**
 * Search-insert position (src/array_search.cc): the index of `target` in a sorted
 * array of unique numbers, or the index at which inserting it keeps the array sorted.
 */
module ArraySearch {
  /** Sorted and unique: what the caller of binary_search promises. */
  predicate StrictlySorted(s: seq<int>)
  {
    forall i, j :: 0 <= i < j < |s| ==> s[i] < s[j]
  }

  /** The reference answer: how many elements are smaller than `target`. */
  function CountLess(s: seq<int>, target: int): (n: nat)
    ensures n <= |s|
  {
    if |s| == 0 then 0 else (if s[0] < target then 1 else 0) + CountLess(s[1..], target)
  }

  /** A boundary with every element below it smaller than `target`, and none after it, is CountLess. */
  lemma {:induction false} BoundaryIsCountLess(s: seq<int>, target: int, r: nat)
    requires r <= |s|
    requires forall i :: 0 <= i < r ==> s[i] < target
    requires forall i :: r <= i < |s| ==> target <= s[i]
    ensures CountLess(s, target) == r
  {
    if |s| > 0 {
      if r > 0 {
        BoundaryIsCountLess(s[1..], target, r - 1);
      } else {
        BoundaryIsCountLess(s[1..], target, 0);
      }
    }
  }

  /** When the target is present, the insertion index is its index. */
  lemma FoundAtCountLess(s: seq<int>, target: int, k: nat)
    requires StrictlySorted(s) && k < |s| && s[k] == target
    ensures CountLess(s, target) == k
  {
    BoundaryIsCountLess(s, target, k);
  }

  /**
   * binary_search: every probe stays inside the array (the early return handles a
   * target beyond the last element); the result is the number of smaller elements.
   */
  method BinarySearch(nums: seq<int>, target: int) returns (r: int)
    requires |nums| > 0 && StrictlySorted(nums)
    ensures 0 <= r <= |nums|
    ensures forall i :: 0 <= i < r ==> nums[i] < target
    ensures forall i :: r <= i < |nums| ==> target <= nums[i]
    ensures r == CountLess(nums, target)
    ensures target in nums ==> nums[r] == target
  {
    if target > nums[|nums| - 1] {
      BoundaryIsCountLess(nums, target, |nums|);
      return |nums|;
    }
    var left := 0;
    var right := |nums|;
    while left <= right
      invariant 0 <= left <= |nums| - 1
      invariant -1 <= right <= |nums|
      invariant forall i :: 0 <= i < left ==> nums[i] < target
      invariant forall i :: right < i < |nums| ==> target < nums[i]
      decreases right - left
    {
      var current := (left + right) / 2;
      var value := nums[current];
      if target < value {
        right := current - 1;
      } else if target > value {
        left := current + 1;
      } else {
        BoundaryIsCountLess(nums, target, current);
        return current;
      }
    }
    BoundaryIsCountLess(nums, target, left);
    return left;
  }

  /** The driver's cases over {1, 3, 5, 6}. */
  lemma SearchExamples()
    ensures CountLess([1, 3, 5, 6], 5) == 2
    ensures CountLess([1, 3, 5, 6], 2) == 1
    ensures CountLess([1, 3, 5, 6], 7) == 4
  {
  }
}
