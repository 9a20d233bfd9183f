/**
 * Next smaller digit permutation (src/math_permutations.cc): the digits of a number
 * rearranged into the largest number below it, by a scan from the rear for the split
 * digit, a swap, and a recursive pass over the digits after the split.
 */
module Permutations {
  /** s with the elements at i and j exchanged. */
  function Swap(s: seq<int>, i: nat, j: nat): (r: seq<int>)
    requires i < |s| && j < |s|
    ensures |r| == |s| && r[i] == s[j] && r[j] == s[i]
  {
    s[i := s[j]][j := s[i]]
  }

  /** Swapping two elements keeps the multiset of elements. */
  lemma SwapPermutes(s: seq<int>, i: nat, j: nat)
    requires i < |s| && j < |s|
    ensures multiset(Swap(s, i, j)) == multiset(s)
  {
  }

  /**
   * Whether a digit followed by `next` is where the scan stops: when minimizing, a digit
   * above the one after it; when maximizing, a digit below it.
   */
  predicate Splits(current: int, next: int, maximize: bool)
  {
    (!maximize && current > next) || (maximize && next > current)
  }

  /** Whether the scan stops at position k, comparing its digit with the one after it. */
  predicate SplitsAt(s: seq<int>, k: int, maximize: bool)
    requires 0 <= k < |s| - 1
  {
    Splits(s[k], s[k + 1], maximize)
  }

  /**
   * The position the scan from the rear stops at, looking at positions hi down to lo:
   * the last one whose digit splits with the digit after it, or lo - 1 when none does.
   */
  function SplitAt(s: seq<int>, lo: nat, hi: int, maximize: bool): (c: int)
    requires lo - 1 <= hi < |s| - 1
    ensures lo - 1 <= c <= hi
    ensures c >= lo ==> SplitsAt(s, c, maximize)
    ensures forall k :: c < k <= hi ==> !SplitsAt(s, k, maximize)
    decreases hi - lo + 1
  {
    if hi < lo then lo - 1
    else if SplitsAt(s, hi, maximize) then hi
    else SplitAt(s, lo, hi - 1, maximize)
  }

  /**
   * next_permutation_helper as written: from position msd on, find the split, swap it
   * with the last digit, and maximize the digits after the split.
   */
  function Helper(s: seq<int>, msd: nat, maximize: bool): (r: seq<int>)
    requires 0 < |s| && msd < |s|
    decreases |s| - msd
  {
    if msd >= |s| - 1 then s
    else
      var c := SplitAt(s, msd, |s| - 2, maximize);
      if c < msd then s else Helper(Swap(s, c, |s| - 1), c + 1, true)
  }

  /** Where the scan finds a split, the helper swaps it with the last digit and maximizes after it. */
  lemma HelperAtSplit(s: seq<int>, msd: nat, maximize: bool, c: nat)
    requires msd <= c < |s| - 1 && SplitAt(s, msd, |s| - 2, maximize) == c
    ensures Helper(s, msd, maximize) == Helper(Swap(s, c, |s| - 1), c + 1, true)
  {
  }

  /** The helper never changes the number of digits. */
  lemma {:induction false} HelperLength(s: seq<int>, msd: nat, maximize: bool)
    requires 0 < |s| && msd < |s|
    ensures |Helper(s, msd, maximize)| == |s|
    decreases |s| - msd
  {
    if msd < |s| - 1 {
      var c := SplitAt(s, msd, |s| - 2, maximize);
      if c >= msd {
        HelperAtSplit(s, msd, maximize, c);
        HelperLength(Swap(s, c, |s| - 1), c + 1, true);
      }
    }
  }

  /** The helper leaves the digits before msd alone. */
  lemma {:induction false} HelperKeepsPrefix(s: seq<int>, msd: nat, maximize: bool)
    requires 0 < |s| && msd < |s|
    ensures |Helper(s, msd, maximize)| == |s|
    ensures Helper(s, msd, maximize)[..msd] == s[..msd]
    decreases |s| - msd
  {
    HelperLength(s, msd, maximize);
    if msd < |s| - 1 {
      var c := SplitAt(s, msd, |s| - 2, maximize);
      if c >= msd {
        var t := Swap(s, c, |s| - 1);
        HelperAtSplit(s, msd, maximize, c);
        HelperKeepsPrefix(t, c + 1, true);
        assert Helper(t, c + 1, true)[..msd] == Helper(t, c + 1, true)[..c + 1][..msd];
        assert t[..msd] == s[..msd];
      }
    }
  }

  /** Digits with no descent scanned from the rear (non-decreasing) are returned unchanged. */
  lemma NonDecreasingUnchanged(s: seq<int>)
    requires 0 < |s|
    requires forall k :: 0 <= k < |s| - 1 ==> s[k] <= s[k + 1]
    ensures Helper(s, 0, false) == s
  {
    if |s| > 1 {
      var c := SplitAt(s, 0, |s| - 2, false);
      assert c < 0;
    }
  }

  /** Where the scan finds no split, the helper changes nothing. */
  lemma HelperNoSplit(s: seq<int>, msd: nat, maximize: bool)
    requires msd < |s| - 1 && SplitAt(s, msd, |s| - 2, maximize) < msd
    ensures Helper(s, msd, maximize) == s
  {
  }

  /**
   * The scan of next_permutation_helper: from the rear, the last position at or after msd
   * whose digit splits with the one after it, or msd - 1.
   */
  method FindSplit(result: array<int>, msd: nat, maximize: bool) returns (current: int)
    requires msd < result.Length - 1
    ensures current == SplitAt(result[..], msd, result.Length - 2, maximize)
  {
    ghost var s := result[..];
    var start := result.Length - 1;
    var nextDigit := result[start];
    current := start - 1;
    while current >= msd
      invariant msd - 1 <= current <= start - 1 && start == |s| - 1
      invariant nextDigit == s[current + 1]
      invariant SplitAt(s, msd, start - 1, maximize) == SplitAt(s, msd, current, maximize)
    {
      var currentDigit := result[current];
      if (!maximize && currentDigit > nextDigit) || (maximize && nextDigit > currentDigit) {
        return;
      }
      nextDigit := currentDigit;
      current := current - 1;
    }
  }

  /** math_permutations next_permutation_helper, on the vector it rearranges in place. */
  method NextPermutationHelper(result: array<int>, msd: nat, maximize: bool)
    requires 0 < result.Length && msd < result.Length
    modifies result
    ensures result[..] == Helper(old(result[..]), msd, maximize)
    ensures multiset(result[..]) == multiset(old(result[..]))
    decreases result.Length - msd
  {
    if msd >= result.Length - 1 {
      return;
    }
    ghost var s := result[..];
    var start := result.Length - 1;
    var current := FindSplit(result, msd, maximize);
    if current < msd {
      HelperNoSplit(s, msd, maximize);
      return;
    }
    var temp := result[current];
    result[current] := result[start];
    result[start] := temp;
    assert result[..] == Swap(s, current, start);
    SwapPermutes(s, current, start);
    HelperAtSplit(s, msd, maximize, current);
    NextPermutationHelper(result, current + 1, true);
  }

  /** math_permutations next_permutation: a rearranged copy of the digits. */
  method NextPermutation(digits: seq<int>) returns (r: seq<int>)
    requires 0 < |digits|
    ensures r == Helper(digits, 0, false)
    ensures |r| == |digits| && multiset(r) == multiset(digits)
  {
    var result := new int[|digits|](i requires 0 <= i < |digits| => digits[i]);
    assert result[..] == digits;
    NextPermutationHelper(result, 0, false);
    r := result[..];
  }

  /** a comes before b in dictionary order: they agree up to some position, where a is smaller. */
  ghost predicate LexLess(a: seq<int>, b: seq<int>)
  {
    exists k :: 0 <= k < |a| && k < |b| && a[..k] == b[..k] && a[k] < b[k]
  }

  /** As written, the table row 9102 comes out as 9210, which is larger, not smaller. */
  lemma HelperCounterexample()
    ensures Helper([9, 1, 0, 2], 0, false) == [9, 2, 1, 0]
    ensures LexLess([9, 1, 0, 2], Helper([9, 1, 0, 2], 0, false))
  {
    assert SplitAt([9, 1, 0, 2], 0, 2, false) == 1;
    assert Swap([9, 1, 0, 2], 1, 3) == [9, 2, 0, 1];
    assert SplitAt([9, 2, 0, 1], 2, 2, true) == 2;
    assert Swap([9, 2, 0, 1], 2, 3) == [9, 2, 1, 0];
    assert [9, 1, 0, 2][..1] == [9, 2, 1, 0][..1];
  }

  /** As written, the table row 9012 comes out as 2091 where 2910 is expected. */
  lemma HelperCounterexampleCarried()
    ensures Helper([9, 0, 1, 2], 0, false) == [2, 0, 9, 1]
  {
    assert SplitAt([9, 0, 1, 2], 0, 2, false) == 0;
    assert Swap([9, 0, 1, 2], 0, 3) == [2, 0, 1, 9];
    assert SplitAt([2, 0, 1, 9], 1, 2, true) == 2;
    assert Swap([2, 0, 1, 9], 2, 3) == [2, 0, 9, 1];
  }

  // The corrected routine: the largest smaller permutation.

  /** The elements of s in reverse order. */
  function Reverse(s: seq<int>): (r: seq<int>)
    ensures |r| == |s| && forall i :: 0 <= i < |s| ==> r[i] == s[|s| - 1 - i]
  {
    if s == [] then [] else Reverse(s[1..]) + [s[0]]
  }

  /** Reversing keeps the multiset of elements. */
  lemma {:induction false} ReversePermutes(s: seq<int>)
    ensures multiset(Reverse(s)) == multiset(s)
  {
    if s != [] {
      ReversePermutes(s[1..]);
      assert s == [s[0]] + s[1..];
    }
  }

  ghost predicate NonDecreasing(a: seq<int>)
  {
    forall i, j :: 0 <= i <= j < |a| ==> a[i] <= a[j]
  }

  ghost predicate NonIncreasing(a: seq<int>)
  {
    forall i, j :: 0 <= i <= j < |a| ==> a[i] >= a[j]
  }

  /**
   * The position the second scan stops at, looking from hi down past the split c: the
   * last digit below the split digit.
   */
  function LastBelow(s: seq<int>, c: nat, hi: nat): (j: nat)
    requires c < hi < |s| && s[c + 1] < s[c]
    ensures c < j <= hi && s[j] < s[c]
    ensures forall k :: j < k <= hi ==> s[k] >= s[c]
  {
    if s[hi] < s[c] then hi else LastBelow(s, c, hi - 1)
  }

  /**
   * The largest permutation of s below s: swap the split digit with the last digit after
   * it that is smaller, then reverse the digits after the split, which puts them in
   * decreasing order.
   */
  function PrevPermutation(s: seq<int>): seq<int>
    requires 0 < |s|
  {
    if |s| == 1 then s
    else
      var c := SplitAt(s, 0, |s| - 2, false);
      if c < 0 then s else SwapAndReverse(s, c, LastBelow(s, c, |s| - 1))
  }

  /** s with the digits at c and j exchanged and the digits after c reversed. */
  function SwapAndReverse(s: seq<int>, c: nat, j: nat): (r: seq<int>)
    requires c < j < |s|
    ensures |r| == |s|
  {
    var t := Swap(s, c, j);
    t[..c + 1] + Reverse(t[c + 1..])
  }

  /** Where there is a split, the corrected routine swaps and reverses there. */
  lemma PrevUnfold(s: seq<int>, c: nat)
    requires c < |s| - 1 && SplitAt(s, 0, |s| - 2, false) == c
    ensures PrevPermutation(s) == SwapAndReverse(s, c, LastBelow(s, c, |s| - 1))
  {
  }

  /** Neighbouring elements in order put the whole sequence in order. */
  lemma AdjacentSorted(a: seq<int>)
    requires forall k :: 0 <= k < |a| - 1 ==> a[k] <= a[k + 1]
    ensures NonDecreasing(a)
  {
    forall i, j | 0 <= i <= j < |a|
      ensures a[i] <= a[j]
    {
      var m := i;
      while m < j
        invariant i <= m <= j && a[i] <= a[m]
      {
        m := m + 1;
      }
    }
  }

  /** Reversing a non-decreasing sequence gives a non-increasing one. */
  lemma ReverseNonDecreasing(a: seq<int>)
    requires NonDecreasing(a)
    ensures NonIncreasing(Reverse(a))
  {
    var r := Reverse(a);
    forall i, j | 0 <= i <= j < |r|
      ensures r[i] >= r[j]
    {
      assert r[i] == a[|a| - 1 - i] && r[j] == a[|a| - 1 - j];
    }
  }

  /** With the digits before position k equal, the digits from k on are the same multiset. */
  lemma PermutationTail(p: seq<int>, s: seq<int>, k: nat)
    requires |p| == |s| && k <= |s| && multiset(p) == multiset(s) && p[..k] == s[..k]
    ensures multiset(p[k..]) == multiset(s[k..])
  {
    assert p == p[..k] + p[k..];
    assert s == s[..k] + s[k..];
    assert multiset(p) == multiset(p[..k]) + multiset(p[k..]);
    assert multiset(s) == multiset(s[..k]) + multiset(s[k..]);
    calc {
      multiset(p[k..]);
      multiset(p) - multiset(p[..k]);
      multiset(s) - multiset(s[..k]);
      multiset(s[k..]);
    }
  }

  /** No rearrangement of a non-decreasing tail starts with a smaller digit. */
  lemma NotBelowSortedTail(p: seq<int>, s: seq<int>, k: nat)
    requires k < |s| == |p| && multiset(p[k..]) == multiset(s[k..]) && NonDecreasing(s[k..])
    ensures p[k] >= s[k]
  {
    assert p[k..][0] == p[k];
    assert p[k] in multiset(s[k..]);
    var i :| 0 <= i < |s[k..]| && s[k..][i] == p[k];
    assert s[k..][0] == s[k];
  }

  /** No rearrangement of a non-increasing tail starts with a larger digit. */
  lemma NotAboveSortedTail(p: seq<int>, r: seq<int>, k: nat)
    requires k < |r| == |p| && multiset(p[k..]) == multiset(r[k..]) && NonIncreasing(r[k..])
    ensures p[k] <= r[k]
  {
    assert p[k..][0] == p[k];
    assert p[k] in multiset(r[k..]);
    var i :| 0 <= i < |r[k..]| && r[k..][i] == p[k];
    assert r[k..][0] == r[k];
  }

  /** Two different sequences of one length have a first position where they differ. */
  lemma FirstDifference(a: seq<int>, b: seq<int>) returns (m: nat)
    requires |a| == |b| && a != b
    ensures m < |a| && a[..m] == b[..m] && a[m] != b[m]
  {
    assert a[..|a|] == a && b[..|b|] == b;
    m := 0;
    while m < |a| && a[m] == b[m]
      invariant m <= |a| && a[..m] == b[..m]
    {
      m := m + 1;
    }
  }

  /** After the split, the digits do not descend. */
  lemma TailAfterSplit(s: seq<int>, c: nat)
    requires c < |s| - 1 && SplitAt(s, 0, |s| - 2, false) == c
    ensures NonDecreasing(s[c + 1..])
  {
    var a := s[c + 1..];
    forall k | 0 <= k < |a| - 1
      ensures a[k] <= a[k + 1]
    {
      assert !SplitsAt(s, c + 1 + k, false);
    }
    AdjacentSorted(a);
  }

  /** Swapping in the split digit for the last smaller digit keeps the tail non-decreasing. */
  lemma TailAfterSwap(s: seq<int>, c: nat, j: nat)
    requires c < |s| - 1 && SplitAt(s, 0, |s| - 2, false) == c
    requires j == LastBelow(s, c, |s| - 1)
    ensures NonDecreasing(Swap(s, c, j)[c + 1..])
  {
    TailAfterSplit(s, c);
    var t := Swap(s, c, j);
    var a := t[c + 1..];
    forall k | 0 <= k < |a| - 1
      ensures a[k] <= a[k + 1]
    {
      var x := c + 1 + k;
      assert a[k] == t[x] && a[k + 1] == t[x + 1];
      assert s[c + 1..][k] == s[x] && s[c + 1..][k + 1] == s[x + 1];
      if x + 1 < j {
        assert t[x] == s[x] && t[x + 1] == s[x + 1];
      } else if x + 1 == j {
        assert t[x] == s[x] && s[c + 1..][j - c - 1] == s[j];
      } else if x == j {
        assert t[x + 1] == s[x + 1] >= s[c];
      } else {
        assert t[x] == s[x] && t[x + 1] == s[x + 1];
      }
    }
    AdjacentSorted(a);
  }

  /** Swapping and reversing only rearranges the digits. */
  lemma SwapAndReversePermutes(s: seq<int>, c: nat, j: nat)
    requires c < j < |s|
    ensures multiset(SwapAndReverse(s, c, j)) == multiset(s)
  {
    var t := Swap(s, c, j);
    var front, back := t[..c + 1], t[c + 1..];
    SwapPermutes(s, c, j);
    ReversePermutes(back);
    assert t == front + back;
    assert SwapAndReverse(s, c, j) == front + Reverse(back);
    calc {
      multiset(SwapAndReverse(s, c, j));
      multiset(front) + multiset(Reverse(back));
      multiset(front) + multiset(back);
      multiset(t);
    }
  }

  /** The corrected routine only rearranges the digits. */
  lemma PrevPermutes(s: seq<int>)
    requires 0 < |s|
    ensures |PrevPermutation(s)| == |s| && multiset(PrevPermutation(s)) == multiset(s)
  {
    if |s| > 1 {
      var c := SplitAt(s, 0, |s| - 2, false);
      if c >= 0 {
        PrevUnfold(s, c);
        SwapAndReversePermutes(s, c, LastBelow(s, c, |s| - 1));
      }
    }
  }

  /** Swapping and reversing keeps the digits before c and puts the one from j at c. */
  lemma SwapAndReverseShape(s: seq<int>, c: nat, j: nat)
    requires c < j < |s|
    ensures SwapAndReverse(s, c, j)[..c] == s[..c] && SwapAndReverse(s, c, j)[c] == s[j]
    ensures SwapAndReverse(s, c, j)[c + 1..] == Reverse(Swap(s, c, j)[c + 1..])
  {
    var t := Swap(s, c, j);
    var r := t[..c + 1] + Reverse(t[c + 1..]);
    assert r[..c] == t[..c];
    assert forall i :: 0 <= i < c ==> t[i] == s[i];
    assert r[c + 1..] == Reverse(t[c + 1..]);
  }

  /**
   * Where there is a split c, the result keeps the digits before it, puts the last smaller
   * digit after it in its place, and has the remaining digits in decreasing order.
   */
  lemma PrevAtSplit(s: seq<int>, c: nat) returns (j: nat)
    requires c < |s| - 1 && SplitAt(s, 0, |s| - 2, false) == c
    ensures j == LastBelow(s, c, |s| - 1) && c < j < |s| && s[j] < s[c]
    ensures |PrevPermutation(s)| == |s|
    ensures PrevPermutation(s)[..c] == s[..c] && PrevPermutation(s)[c] == s[j]
    ensures NonIncreasing(PrevPermutation(s)[c + 1..])
  {
    j := LastBelow(s, c, |s| - 1);
    PrevUnfold(s, c);
    SwapAndReverseShape(s, c, j);
    TailAfterSwap(s, c, j);
    ReverseNonDecreasing(Swap(s, c, j)[c + 1..]);
  }

  /** Where the digits descend somewhere, the result is smaller than the input. */
  lemma PrevSmaller(s: seq<int>, d: nat)
    requires d < |s| - 1 && s[d] > s[d + 1]
    ensures LexLess(PrevPermutation(s), s)
  {
    var c := SplitAt(s, 0, |s| - 2, false);
    assert SplitsAt(s, d, false);
    var j := PrevAtSplit(s, c);
    var r := PrevPermutation(s);
    assert r[..c] == s[..c] && r[c] < s[c];
  }

  /** Digits that never descend (non-decreasing) are the smallest arrangement and stay as they are. */
  lemma PrevNoDescent(s: seq<int>)
    requires 0 < |s| && forall k :: 0 <= k < |s| - 1 ==> s[k] <= s[k + 1]
    ensures PrevPermutation(s) == s
  {
    if |s| > 1 {
      assert forall k :: 0 <= k < |s| - 1 ==> !SplitsAt(s, k, false);
    }
  }

  /** A smaller arrangement differs from s first at or before the split. */
  lemma SmallerDiffersByTheSplit(s: seq<int>, p: seq<int>, c: nat, k: nat)
    requires c < |s| - 1 && SplitAt(s, 0, |s| - 2, false) == c
    requires |p| == |s| && multiset(p) == multiset(s)
    requires k < |s| && p[..k] == s[..k] && p[k] < s[k]
    ensures k <= c
  {
    if c < k {
      TailAfterSplit(s, c);
      assert s[k..] == s[c + 1..][k - c - 1..];
      PermutationTail(p, s, k);
      NotBelowSortedTail(p, s, k);
    }
  }

  /** A smaller arrangement that differs first at the split has there at most the last smaller digit. */
  lemma SplitDigitBound(s: seq<int>, p: seq<int>, c: nat, j: nat)
    requires c < |s| - 1 && SplitAt(s, 0, |s| - 2, false) == c && j == LastBelow(s, c, |s| - 1)
    requires |p| == |s| && multiset(p) == multiset(s)
    requires p[..c] == s[..c] && p[c] < s[c]
    ensures p[c] <= s[j]
  {
    PermutationTail(p, s, c);
    assert p[c..][0] == p[c];
    assert p[c] in multiset(s[c..]);
    var i :| 0 <= i < |s[c..]| && s[c..][i] == p[c];
    TailAfterSplit(s, c);
    assert s[c + 1..][i - 1] == s[c + i];
    assert s[c + 1..][j - c - 1] == s[j];
  }

  /**
   * An arrangement r of s that keeps the digits before the split, has the last smaller
   * digit at the split and decreasing digits after it, is not below any arrangement p
   * that agrees with it up to and including the split.
   */
  lemma AtSplitNotBelow(p: seq<int>, r: seq<int>, c: nat)
    requires c < |r| == |p| && multiset(p) == multiset(r) && NonIncreasing(r[c + 1..])
    requires p[..c + 1] == r[..c + 1]
    ensures p == r || LexLess(p, r)
  {
    if p != r {
      var m := FirstDifference(p, r);
      assert c < m by {
        assert p[..m][..c + 1] == p[..c + 1];
      }
      PermutationTail(p, r, m);
      assert r[m..] == r[c + 1..][m - c - 1..];
      NotAboveSortedTail(p, r, m);
      assert p[..m] == r[..m] && p[m] < r[m];
    }
  }

  /** The arrangement r described above is the largest one below s. */
  lemma LargestBelow(s: seq<int>, p: seq<int>, r: seq<int>, c: nat, j: nat, k: nat)
    requires c < |s| - 1 && SplitAt(s, 0, |s| - 2, false) == c && j == LastBelow(s, c, |s| - 1)
    requires |r| == |s| && multiset(r) == multiset(s) && r[..c] == s[..c] && r[c] == s[j]
    requires NonIncreasing(r[c + 1..])
    requires |p| == |s| && multiset(p) == multiset(s) && k < |s| && p[..k] == s[..k] && p[k] < s[k]
    ensures p == r || LexLess(p, r)
  {
    SmallerDiffersByTheSplit(s, p, c, k);
    if k < c {
      assert r[..k] == s[..k] && r[k] == s[k];
      assert p[..k] == r[..k] && p[k] < r[k];
    } else {
      SplitDigitBound(s, p, c, j);
      if p[c] < r[c] {
        assert p[..c] == r[..c];
      } else {
        assert p[..c + 1] == r[..c + 1];
        AtSplitNotBelow(p, r, c);
      }
    }
  }

  /**
   * The corrected routine gives the largest permutation below s: every permutation of s
   * that is smaller than s is the result or smaller than it.
   */
  lemma PrevLargest(s: seq<int>, p: seq<int>)
    requires 0 < |s| && |p| == |s| && multiset(p) == multiset(s) && LexLess(p, s)
    ensures p == PrevPermutation(s) || LexLess(p, PrevPermutation(s))
  {
    var k :| 0 <= k < |p| && k < |s| && p[..k] == s[..k] && p[k] < s[k];
    if 1 < |s| {
      var c := SplitAt(s, 0, |s| - 2, false);
      if c >= 0 {
        var j := PrevAtSplit(s, c);
        PrevPermutes(s);
        LargestBelow(s, p, PrevPermutation(s), c, j, k);
      }
    }
  }

  /** The second scan of the corrected routine: from the rear, the last digit below the split digit. */
  method FindBelow(result: array<int>, c: nat) returns (j: nat)
    requires c < result.Length - 1 && result[c + 1] < result[c]
    ensures j == LastBelow(result[..], c, result.Length - 1)
  {
    ghost var s := result[..];
    j := result.Length - 1;
    while result[j] >= result[c]
      invariant c < j < result.Length
      invariant LastBelow(s, c, result.Length - 1) == LastBelow(s, c, j)
      decreases j
    {
      j := j - 1;
    }
  }

  /** Reverses, in place, the digits of result from position `from` on. */
  method ReverseFrom(result: array<int>, from: nat)
    requires from <= result.Length
    modifies result
    ensures result[..] == old(result[..])[..from] + Reverse(old(result[..])[from..])
  {
    ghost var s := result[..];
    var n := result.Length;
    var i, k := from, n - 1;
    while i < k
      invariant from <= i && i - from == n - 1 - k && k < n && i <= k + 1
      invariant n == |s|
      invariant forall q :: 0 <= q < from || i <= q <= k ==> result[q] == s[q]
      invariant forall q :: from <= q < i || k < q < n ==> result[q] == s[n - 1 + from - q]
    {
      result[i], result[k] := result[k], result[i];
      i, k := i + 1, k - 1;
    }
    MirroredIsReverse(result[..], s, from);
  }

  /** A sequence that keeps s before `from` and mirrors it after is the reversal of that tail. */
  lemma MirroredIsReverse(r: seq<int>, s: seq<int>, from: nat)
    requires from <= |s| == |r|
    requires forall q :: 0 <= q < from ==> r[q] == s[q]
    requires forall q :: from <= q < |s| ==> r[q] == s[|s| - 1 + from - q]
    ensures r == s[..from] + Reverse(s[from..])
  {
    var want := s[..from] + Reverse(s[from..]);
    forall q | 0 <= q < |s|
      ensures r[q] == want[q]
    {
      if q >= from {
        assert want[q] == Reverse(s[from..])[q - from];
      }
    }
  }

  /** The corrected next_permutation_helper, on the vector it rearranges in place. */
  method PreviousPermutationHelper(result: array<int>)
    requires 0 < result.Length
    modifies result
    ensures result[..] == PrevPermutation(old(result[..]))
  {
    if result.Length == 1 {
      return;
    }
    ghost var s := result[..];
    var c := FindSplit(result, 0, false);
    if c < 0 {
      return;
    }
    assert SplitsAt(s, c, false);
    var j := FindBelow(result, c);
    var temp := result[c];
    result[c] := result[j];
    result[j] := temp;
    assert result[..] == Swap(s, c, j);
    ReverseFrom(result, c + 1);
    PrevUnfold(s, c);
  }

  /** The corrected next_permutation: a copy of the digits rearranged into the largest smaller number. */
  method PreviousPermutation(digits: seq<int>) returns (r: seq<int>)
    requires 0 < |digits|
    ensures r == PrevPermutation(digits)
    ensures |r| == |digits| && multiset(r) == multiset(digits)
  {
    var result := new int[|digits|](i requires 0 <= i < |digits| => digits[i]);
    assert result[..] == digits;
    PreviousPermutationHelper(result);
    r := result[..];
    PrevPermutes(digits);
  }

  /** The corrected routine on the first table rows. */
  lemma PrevExamplesNineTwo()
    ensures PrevPermutation([9, 2, 1, 0]) == [9, 2, 0, 1]
    ensures PrevPermutation([9, 2, 0, 1]) == [9, 1, 2, 0]
  {
    assert SplitAt([9, 2, 1, 0], 0, 2, false) == 2;
    assert SwapAndReverse([9, 2, 1, 0], 2, 3) == [9, 2, 0] + Reverse([1]);
    assert SplitAt([9, 2, 0, 1], 0, 2, false) == 1;
    assert LastBelow([9, 2, 0, 1], 1, 3) == 3;
    assert SwapAndReverse([9, 2, 0, 1], 1, 3) == [9, 1] + Reverse([0, 2]);
  }

  /** The corrected routine on the table rows that next_permutation_helper as written gets wrong. */
  lemma PrevExamplesCorrected()
    ensures PrevPermutation([9, 1, 0, 2]) == [9, 0, 2, 1]
    ensures PrevPermutation([9, 0, 1, 2]) == [2, 9, 1, 0]
  {
    assert SplitAt([9, 1, 0, 2], 0, 2, false) == 1;
    assert LastBelow([9, 1, 0, 2], 1, 3) == 2;
    assert SwapAndReverse([9, 1, 0, 2], 1, 2) == [9, 0] + Reverse([1, 2]);
    assert SplitAt([9, 0, 1, 2], 0, 2, false) == 0;
    assert LastBelow([9, 0, 1, 2], 0, 3) == 3;
    assert SwapAndReverse([9, 0, 1, 2], 0, 3) == [2] + Reverse([0, 1, 9]);
  }

  /** The corrected routine on the table rows that swap the last two digits. */
  lemma PrevExamplesLastTwo()
    ensures PrevPermutation([9, 1, 2, 0]) == [9, 1, 0, 2]
    ensures PrevPermutation([9, 0, 2, 1]) == [9, 0, 1, 2]
    ensures PrevPermutation([2, 9, 1, 0]) == [2, 9, 0, 1]
    ensures PrevPermutation([1, 9, 2, 0]) == [1, 9, 0, 2]
  {
    assert SplitAt([9, 1, 2, 0], 0, 2, false) == 2;
    assert SwapAndReverse([9, 1, 2, 0], 2, 3) == [9, 1, 0] + Reverse([2]);
    assert SplitAt([9, 0, 2, 1], 0, 2, false) == 2;
    assert SwapAndReverse([9, 0, 2, 1], 2, 3) == [9, 0, 1] + Reverse([2]);
    assert SplitAt([2, 9, 1, 0], 0, 2, false) == 2;
    assert SwapAndReverse([2, 9, 1, 0], 2, 3) == [2, 9, 0] + Reverse([1]);
    assert SplitAt([1, 9, 2, 0], 0, 2, false) == 2;
    assert SwapAndReverse([1, 9, 2, 0], 2, 3) == [1, 9, 0] + Reverse([2]);
  }

  /** The version in this file gets the other table rows right. */
  lemma HelperExamples()
    ensures Helper([9, 2, 1, 0], 0, false) == [9, 2, 0, 1]
    ensures Helper([9, 2, 0, 1], 0, false) == [9, 1, 2, 0]
    ensures Helper([9, 1, 2, 0], 0, false) == [9, 1, 0, 2]
  {
    assert SplitAt([9, 2, 1, 0], 0, 2, false) == 2;
    assert Swap([9, 2, 1, 0], 2, 3) == [9, 2, 0, 1];
    assert SplitAt([9, 2, 0, 1], 0, 2, false) == 1;
    assert Swap([9, 2, 0, 1], 1, 3) == [9, 1, 0, 2];
    assert SplitAt([9, 1, 0, 2], 2, 2, true) == 2;
    assert Swap([9, 1, 0, 2], 2, 3) == [9, 1, 2, 0];
    assert SplitAt([9, 1, 2, 0], 0, 2, false) == 2;
    assert Swap([9, 1, 2, 0], 2, 3) == [9, 1, 0, 2];
  }

  /** The version in this file on the remaining table rows it gets right. */
  lemma HelperExamplesLastTwo()
    ensures Helper([9, 0, 2, 1], 0, false) == [9, 0, 1, 2]
    ensures Helper([2, 9, 1, 0], 0, false) == [2, 9, 0, 1]
    ensures Helper([1, 9, 2, 0], 0, false) == [1, 9, 0, 2]
  {
    assert SplitAt([9, 0, 2, 1], 0, 2, false) == 2;
    assert Swap([9, 0, 2, 1], 2, 3) == [9, 0, 1, 2];
    assert SplitAt([2, 9, 1, 0], 0, 2, false) == 2;
    assert Swap([2, 9, 1, 0], 2, 3) == [2, 9, 0, 1];
    assert SplitAt([1, 9, 2, 0], 0, 2, false) == 2;
    assert Swap([1, 9, 2, 0], 2, 3) == [1, 9, 0, 2];
  }
}
