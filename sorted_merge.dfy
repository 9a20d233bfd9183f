/**
 * Merge two sorted arrays (src/array_sorted_merge.cc): nums1 holds m sorted values
 * followed by room for n more; the n sorted values of nums2 are merged in place,
 * filling nums1 from the back with the larger of the two last remaining values.
 */
module SortedMerge {
  ghost predicate Sorted(s: seq<int>)
  {
    forall i, j :: 0 <= i <= j < |s| ==> s[i] <= s[j]
  }

  /**
   * The merge of a[..p] and b[..q] built from the back: the larger last element goes
   * last, and on a tie the element of b does.
   */
  ghost function MergeAt(a: seq<int>, b: seq<int>, p: nat, q: nat): seq<int>
    requires p <= |a| && q <= |b|
    decreases p + q
  {
    if p == 0 then b[..q]
    else if q == 0 then a[..p]
    else if a[p - 1] > b[q - 1] then MergeAt(a, b, p - 1, q) + [a[p - 1]]
    else MergeAt(a, b, p, q - 1) + [b[q - 1]]
  }

  /** The merge of all of a and all of b. */
  ghost function MergeBack(a: seq<int>, b: seq<int>): seq<int>
  {
    MergeAt(a, b, |a|, |b|)
  }

  /** The merge holds exactly the elements of both prefixes. */
  lemma {:induction false} MergeAtPermutes(a: seq<int>, b: seq<int>, p: nat, q: nat)
    requires p <= |a| && q <= |b|
    ensures |MergeAt(a, b, p, q)| == p + q
    ensures multiset(MergeAt(a, b, p, q)) == multiset(a[..p]) + multiset(b[..q])
    decreases p + q
  {
    if p > 0 && q > 0 {
      if a[p - 1] > b[q - 1] {
        MergeAtPermutes(a, b, p - 1, q);
        assert a[..p] == a[..p - 1] + [a[p - 1]];
      } else {
        MergeAtPermutes(a, b, p, q - 1);
        assert b[..q] == b[..q - 1] + [b[q - 1]];
      }
    }
  }

  /** Every element of a sorted prefix is at most its last. */
  lemma AtMostLast(s: seq<int>, k: nat, x: int)
    requires Sorted(s) && 0 < k <= |s| && x in multiset(s[..k])
    ensures x <= s[k - 1]
  {
    assert x in s[..k];
  }

  /** Appending a value not below anything already there keeps a sequence sorted. */
  lemma SortedSnoc(s: seq<int>, x: int)
    requires Sorted(s) && forall y :: y in multiset(s) ==> y <= x
    ensures Sorted(s + [x])
  {
    forall i | 0 <= i < |s|
      ensures s[i] <= x
    {
      assert s[i] in multiset(s);
    }
  }

  /** Every element of the merge of two sorted prefixes is at most the larger last element. */
  lemma MergeAtBound(a: seq<int>, b: seq<int>, p: nat, q: nat, x: int)
    requires Sorted(a) && Sorted(b) && p <= |a| && q <= |b|
    requires p > 0 ==> a[p - 1] <= x
    requires q > 0 ==> b[q - 1] <= x
    ensures forall z :: z in multiset(MergeAt(a, b, p, q)) ==> z <= x
  {
    MergeAtPermutes(a, b, p, q);
    forall z | z in multiset(MergeAt(a, b, p, q))
      ensures z <= x
    {
      if z in multiset(a[..p]) {
        AtMostLast(a, p, z);
      } else {
        AtMostLast(b, q, z);
      }
    }
  }

  /** The merge of two sorted prefixes is sorted. */
  lemma {:induction false} MergeAtSorted(a: seq<int>, b: seq<int>, p: nat, q: nat)
    requires Sorted(a) && Sorted(b) && p <= |a| && q <= |b|
    ensures Sorted(MergeAt(a, b, p, q))
    decreases p + q
  {
    if p == 0 {
      assert forall i, j :: 0 <= i <= j < q ==> b[..q][i] == b[i] && b[..q][j] == b[j];
    } else if q == 0 {
      assert forall i, j :: 0 <= i <= j < p ==> a[..p][i] == a[i] && a[..p][j] == a[j];
    } else if a[p - 1] > b[q - 1] {
      MergeAtSorted(a, b, p - 1, q);
      MergeAtBound(a, b, p - 1, q, a[p - 1]);
      SortedSnoc(MergeAt(a, b, p - 1, q), a[p - 1]);
    } else {
      MergeAtSorted(a, b, p, q - 1);
      MergeAtBound(a, b, p, q - 1, b[q - 1]);
      SortedSnoc(MergeAt(a, b, p, q - 1), b[q - 1]);
    }
  }

  /** Merging sorted inputs gives a sorted permutation of both. */
  lemma MergeSortedPermutation(a: seq<int>, b: seq<int>)
    requires Sorted(a) && Sorted(b)
    ensures Sorted(MergeBack(a, b)) && multiset(MergeBack(a, b)) == multiset(a) + multiset(b)
  {
    MergeAtSorted(a, b, |a|, |b|);
    MergeAtPermutes(a, b, |a|, |b|);
    assert a[..|a|] == a && b[..|b|] == b;
  }

  /**
   * The state of the merge loop with p elements of a and q of b still to place: the
   * first p slots still hold a's, and the merge of what remains followed by the slots
   * from p + q to the end of the output is the whole merge.
   */
  ghost predicate Merging(s: seq<int>, a: seq<int>, b: seq<int>, whole: seq<int>, p: int, q: int)
  {
    |a| + |b| <= |s| && 0 <= p <= |a| && 0 <= q <= |b| && s[..p] == a[..p] &&
    MergeAt(a, b, p, q) + s[p + q..|a| + |b|] == whole
  }

  /** Before the loop everything remains to be placed. */
  lemma MergeStart(s: seq<int>, a: seq<int>, b: seq<int>)
    requires |a| + |b| <= |s| && s[..|a|] == a
    ensures Merging(s, a, b, MergeBack(a, b), |a|, |b|)
  {
    assert a[..|a|] == a;
  }

  /** After the loop the output slots hold the whole merge. */
  lemma MergeDone(s: seq<int>, a: seq<int>, b: seq<int>, whole: seq<int>, p: int, q: int)
    requires Merging(s, a, b, whole, p, q) && p + q <= 0
    ensures s[..|a| + |b|] == whole
  {
    assert b[..0] == [];
  }

  /** Taking the last remaining element of a into slot p + q - 1. */
  lemma TakeFromFirst(s: seq<int>, s': seq<int>, a: seq<int>, b: seq<int>, whole: seq<int>, p: int, q: int, p': int, q': int)
    requires Merging(s, a, b, whole, p, q) && p > 0 && (q == 0 || s[p - 1] > b[q - 1])
    requires s' == s[p + q - 1 := s[p - 1]] && p' == p - 1 && q' == q
    ensures Merging(s', a, b, whole, p', q')
  {
    assert s[p - 1] == s[..p][p - 1];
    if q == 0 {
      assert a[..p] == a[..p - 1] + [a[p - 1]];
    }
    assert s'[p + q - 1..|a| + |b|] == [a[p - 1]] + s[p + q..|a| + |b|];
    assert s'[..p - 1] == s[..p - 1];
  }

  /** Taking the last remaining element of b into slot p + q - 1. */
  lemma TakeFromSecond(s: seq<int>, s': seq<int>, a: seq<int>, b: seq<int>, whole: seq<int>, p: int, q: int, p': int, q': int)
    requires Merging(s, a, b, whole, p, q) && q > 0 && (p == 0 || !(s[p - 1] > b[q - 1]))
    requires s' == s[p + q - 1 := b[q - 1]] && p' == p && q' == q - 1
    ensures Merging(s', a, b, whole, p', q')
  {
    if p > 0 {
      assert s[p - 1] == s[..p][p - 1];
    } else {
      assert b[..q] == b[..q - 1] + [b[q - 1]];
    }
    assert s'[p + q - 1..|a| + |b|] == [b[q - 1]] + s[p + q..|a| + |b|];
    assert s'[..p] == s[..p];
  }

  /**
   * merge: nums1[..m + n] becomes the merge of the old nums1[..m] and nums2[..n];
   * the slots past m + n are left alone and nums2 is only read.
   */
  method Merge(nums1: array<int>, m: int, nums2: seq<int>, n: int)
    requires 0 <= m && 0 <= n && m + n <= nums1.Length && n <= |nums2|
    modifies nums1
    ensures nums1[..m + n] == MergeBack(old(nums1[..m]), nums2[..n])
    ensures nums1[m + n..] == old(nums1[m + n..])
  {
    ghost var a := nums1[..m];
    ghost var b := nums2[..n];
    ghost var whole := MergeBack(a, b);
    var currentInsertPoint := m + n - 1;
    var currentNums1Index := m - 1;
    var currentNums2Index := n - 1;
    ghost var p, q := m, n;
    MergeStart(nums1[..], a, b);
    while currentInsertPoint >= 0
      invariant p == currentNums1Index + 1 && q == currentNums2Index + 1
      invariant currentInsertPoint == p + q - 1
      invariant Merging(nums1[..], a, b, whole, p, q)
      invariant nums1[m + n..] == old(nums1[m + n..])
      decreases currentInsertPoint + 1
    {
      ghost var before, p0, q0 := nums1[..], p, q;
      ghost var fromFirst := true;
      var currentBiggest;
      if currentNums1Index < 0 {
        currentBiggest := nums2[currentNums2Index];
        currentNums2Index := currentNums2Index - 1;
        q, fromFirst := q - 1, false;
      } else if currentNums2Index < 0 {
        currentBiggest := nums1[currentNums1Index];
        currentNums1Index := currentNums1Index - 1;
        p := p - 1;
      } else if nums1[currentNums1Index] > nums2[currentNums2Index] {
        currentBiggest := nums1[currentNums1Index];
        currentNums1Index := currentNums1Index - 1;
        p := p - 1;
      } else {
        currentBiggest := nums2[currentNums2Index];
        currentNums2Index := currentNums2Index - 1;
        q, fromFirst := q - 1, false;
      }
      nums1[currentInsertPoint] := currentBiggest;
      assert nums1[..] == before[currentInsertPoint := currentBiggest];
      if fromFirst {
        TakeFromFirst(before, nums1[..], a, b, whole, p0, q0, p, q);
      } else {
        TakeFromSecond(before, nums1[..], a, b, whole, p0, q0, p, q);
      }
      currentInsertPoint := currentInsertPoint - 1;
    }
    MergeDone(nums1[..], a, b, whole, p, q);
  }

  /** The two rows of the driver. */
  lemma MergeExamples()
    ensures MergeBack([1, 2, 3], [2, 5, 6]) == [1, 2, 2, 3, 5, 6]
    ensures MergeBack([], [1]) == [1]
  {
  }
}
