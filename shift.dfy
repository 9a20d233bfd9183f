/**
 * Rotating an array right in place (src/array_shift.cc): the last k elements are
 * stashed, the rest move k places towards the back, and the stash fills the front.
 */
module Shift {
  /** The sequence rotated right by k places: the last k elements wrap to the front. */
  function RotateRight(s: seq<int>, k: int): (r: seq<int>)
    requires 0 <= k <= |s|
    ensures |r| == |s|
  {
    s[|s| - k..] + s[..|s| - k]
  }

  /**
   * The shift that `k % nums.size()` leaves: k is an int converted to size_t before
   * the remainder, so a negative k first wraps to 2^64 + k.
   */
  function EffectiveShift(k: int, n: int): (r: int)
    requires n > 0 && -0x8000_0000 <= k < 0x8000_0000
    ensures 0 <= r < n
    ensures k >= 0 ==> r == k % n
  {
    if k >= 0 then k % n else (k + 0x1_0000_0000_0000_0000) % n
  }

  /** The first k places of the rotation hold the old last k elements, the rest the old front. */
  lemma RotateRightParts(s: seq<int>, k: int)
    requires 0 <= k <= |s|
    ensures forall j :: 0 <= j < k ==> RotateRight(s, k)[j] == s[|s| - k + j]
    ensures forall j :: k <= j < |s| ==> RotateRight(s, k)[j] == s[j - k]
  {
  }

  /** The remainder is the r of any split x == c * n + r with 0 <= r < n. */
  lemma ModUnique(x: int, n: int, c: int, r: int)
    requires n > 0 && 0 <= r < n && x == c * n + r
    ensures x % n == r
  {
    var d := x / n;
    assert x == d * n + x % n;
    assert (c - d) * n == x % n - r;
    MulAwayFromZero(c - d, n);
  }

  /** A nonzero multiple of n is at least n away from zero. */
  lemma MulAwayFromZero(e: int, n: int)
    requires n > 0
    ensures e >= 1 ==> e * n >= n
    ensures e <= -1 ==> e * n <= -n
  {
    if e >= 1 {
      assert e * n == (e - 1) * n + n;
    } else if e <= -1 {
      assert e * n == (e + 1) * n - n;
    }
  }

  /** Position by position, each element of the rotation comes from k places earlier, wrapping. */
  lemma RotateRightIndex(s: seq<int>, k: int, i: int)
    requires 0 <= k <= |s| && 0 <= i < |s|
    ensures RotateRight(s, k)[i] == s[(i - k) % |s|]
  {
    if i < k {
      ModUnique(i - k, |s|, -1, |s| - k + i);
    } else {
      ModUnique(i - k, |s|, 0, i - k);
    }
  }

  /**
   * For a shift k that is not negative, also k >= n: the new element at i is the old
   * element at (i - k) mod n.
   */
  lemma ShiftIndex(s: seq<int>, k: int, i: int)
    requires |s| > 0 && 0 <= k < 0x8000_0000 && 0 <= i < |s|
    ensures RotateRight(s, EffectiveShift(k, |s|))[i] == s[(i - k) % |s|]
  {
    var n := |s|;
    var r := k % n;
    RotateRightIndex(s, r, i);
    var t := (i - r) % n;
    assert i - r == ((i - r) / n) * n + t;
    assert k == (k / n) * n + r;
    assert i - k == ((i - r) / n - k / n) * n + t;
    ModUnique(i - k, n, (i - r) / n - k / n, t);
  }

  /** Rotating keeps every element: the length and the multiset are unchanged. */
  lemma RotateRightPermutes(s: seq<int>, k: int)
    requires 0 <= k <= |s|
    ensures multiset(RotateRight(s, k)) == multiset(s)
  {
    assert s == s[..|s| - k] + s[|s| - k..];
  }

  /** A rotation by 0 leaves the sequence as it was. */
  lemma RotateRightZero(s: seq<int>)
    ensures RotateRight(s, 0) == s
  {
    assert s[|s|..] == [];
  }

  /**
   * array_shift_right: nums becomes its old contents rotated right by k mod n (k taken
   * through size_t, as the remainder in the C++ code does); a shift of 0 mod n leaves it
   * untouched.
   */
  method ArrayShiftRight(nums: array<int>, k: int)
    requires nums.Length > 0 && -0x8000_0000 <= k < 0x8000_0000
    modifies nums
    ensures nums[..] == RotateRight(old(nums[..]), EffectiveShift(k, nums.Length))
  {
    var shift := EffectiveShift(k, nums.Length);
    if shift == 0 {
      RotateRightZero(nums[..]);
      return;
    }
    RotateByStash(nums, shift);
  }

  /**
   * The work of array_shift_right once 0 < shift < n: the last shift elements are
   * stashed, the others move shift places back from the end down, and the stash fills
   * the front.
   */
  method RotateByStash(nums: array<int>, shift: int)
    requires 0 < shift < nums.Length
    modifies nums
    ensures nums[..] == RotateRight(old(nums[..]), shift)
  {
    ghost var s := nums[..];
    var n := nums.Length;
    var lastK := nums[n - shift..];
    var currentInsertIndex := n - 1;
    var currentSourceIndex := n - 1 - shift;
    while currentInsertIndex >= shift
      invariant shift - 1 <= currentInsertIndex <= n - 1
      invariant currentSourceIndex == currentInsertIndex - shift
      invariant forall j :: 0 <= j <= currentInsertIndex ==> nums[j] == s[j]
      invariant forall j :: currentInsertIndex < j < n ==> nums[j] == s[j - shift]
      decreases currentInsertIndex
    {
      nums[currentInsertIndex] := nums[currentSourceIndex];
      currentInsertIndex := currentInsertIndex - 1;
      currentSourceIndex := currentSourceIndex - 1;
    }
    for i := 0 to shift
      invariant forall j :: 0 <= j < i ==> nums[j] == s[n - shift + j]
      invariant forall j :: shift <= j < n ==> nums[j] == s[j - shift]
    {
      nums[i] := lastK[i];
    }
    RotateRightParts(s, shift);
    assert forall j :: 0 <= j < n ==> nums[..][j] == RotateRight(s, shift)[j];
  }

  /** The rows of the driver: {3,2,3} by 1, and {0,...,5} by every shift from 0 to 11. */
  lemma ShiftExamples()
    ensures RotateRight([3, 2, 3], EffectiveShift(1, 3)) == [3, 3, 2]
    ensures RotateRight([0, 1, 2, 3, 4, 5], EffectiveShift(0, 6)) == [0, 1, 2, 3, 4, 5]
    ensures RotateRight([0, 1, 2, 3, 4, 5], EffectiveShift(1, 6)) == [5, 0, 1, 2, 3, 4]
    ensures RotateRight([0, 1, 2, 3, 4, 5], EffectiveShift(2, 6)) == [4, 5, 0, 1, 2, 3]
    ensures RotateRight([0, 1, 2, 3, 4, 5], EffectiveShift(3, 6)) == [3, 4, 5, 0, 1, 2]
    ensures RotateRight([0, 1, 2, 3, 4, 5], EffectiveShift(4, 6)) == [2, 3, 4, 5, 0, 1]
    ensures RotateRight([0, 1, 2, 3, 4, 5], EffectiveShift(5, 6)) == [1, 2, 3, 4, 5, 0]
    ensures RotateRight([0, 1, 2, 3, 4, 5], EffectiveShift(6, 6)) == [0, 1, 2, 3, 4, 5]
    ensures RotateRight([0, 1, 2, 3, 4, 5], EffectiveShift(7, 6)) == [5, 0, 1, 2, 3, 4]
    ensures RotateRight([0, 1, 2, 3, 4, 5], EffectiveShift(8, 6)) == [4, 5, 0, 1, 2, 3]
    ensures RotateRight([0, 1, 2, 3, 4, 5], EffectiveShift(9, 6)) == [3, 4, 5, 0, 1, 2]
    ensures RotateRight([0, 1, 2, 3, 4, 5], EffectiveShift(10, 6)) == [2, 3, 4, 5, 0, 1]
    ensures RotateRight([0, 1, 2, 3, 4, 5], EffectiveShift(11, 6)) == [1, 2, 3, 4, 5, 0]
  {
  }
}
