/**
 * Remove element (src/array_remove_element.cc): removes every occurrence of a value
 * from an array in place, leaving the other elements, in some order, at the front and
 * returning how many there are.
 */
module RemoveElement {
  /** The elements of `s` other than `val`, as a multiset. */
  function Kept(s: seq<int>, val: int): multiset<int>
  {
    multiset(s)[val := 0]
  }

  /** Peeling the first element off: it is kept unless it is `val`. */
  lemma KeptCons(s: seq<int>, val: int)
    requires |s| > 0
    ensures Kept(s, val) == if s[0] == val then Kept(s[1..], val) else Kept(s[1..], val) + multiset{s[0]}
  {
    assert s == [s[0]] + s[1..];
  }

  /** An array holding only `val` keeps nothing. */
  lemma {:induction false} KeptAllVal(s: seq<int>, val: int)
    requires forall j :: 0 <= j < |s| ==> s[j] == val
    ensures Kept(s, val) == multiset{}
  {
    if |s| > 0 {
      KeptCons(s, val);
      KeptAllVal(s[1..], val);
    }
  }

  /** Copying the element at g down to i shifts the window (i, g] to [i, g). */
  lemma CopyDown(before: seq<int>, i: nat, g: nat)
    requires i < g < |before|
    ensures multiset(before[i := before[g]][i..g]) == multiset(before[i + 1..g + 1])
  {
    var after := before[i := before[g]];
    assert after[i..g] == [before[g]] + before[i + 1..g];
    assert before[i + 1..g + 1] == before[i + 1..g] + [before[g]];
  }

  /** Extending the window of kept elements downwards by one kept element. */
  lemma GrowDown(s: seq<int>, i: nat, g: nat)
    requires i <= g < |s|
    ensures multiset(s[i..g + 1]) == multiset(s[i + 1..g + 1]) + multiset{s[i]}
  {
    assert s[i..g + 1] == [s[i]] + s[i + 1..g + 1];
  }

  /**
   * What holds after the elements from index i + 1 onwards have been examined: the
   * prefix up to i is untouched, count is how many of the examined elements were
   * `val`, and either no kept element has been met yet (g is the array length) or
   * the window (i, g] holds exactly the kept examined elements.
   */
  ghost predicate Scanned(s: seq<int>, a0: seq<int>, val: int, i: int, g: int, count: int)
  {
    |s| == |a0| && -1 <= i < |s| && g <= |s| &&
    (forall j :: 0 <= j <= i ==> s[j] == a0[j]) &&
    count == multiset(a0[i + 1..])[val] &&
    (g == |s| ==> count == |s| - 1 - i && forall j :: i < j < |s| ==> a0[j] == val) &&
    (g < |s| ==> i < g == |s| - 1 - count && multiset(s[i + 1..g + 1]) == Kept(a0[i + 1..], val))
  }

  /** Examining a `val` while the window is open: it is overwritten from the window's top. */
  lemma ScanValOpen(s: seq<int>, a0: seq<int>, val: int, i: int, g: int, count: int)
    requires Scanned(s, a0, val, i, g, count) && i >= 0 && g < |s| && s[i] == val
    ensures Scanned(s[i := s[g]], a0, val, i - 1, g - 1, count + 1)
  {
    KeptCons(a0[i..], val);
    assert a0[i..][1..] == a0[i + 1..];
    CopyDown(s, i, g);
  }

  /** Examining a `val` before any kept element: only the count changes. */
  lemma ScanValClosed(s: seq<int>, a0: seq<int>, val: int, i: int, g: int, count: int)
    requires Scanned(s, a0, val, i, g, count) && i >= 0 && g == |s| && s[i] == val
    ensures Scanned(s, a0, val, i - 1, g, count + 1)
  {
    assert a0[i..] == [a0[i]] + a0[i + 1..];
  }

  /** The first kept element opens the window at i. */
  lemma ScanOpen(s: seq<int>, a0: seq<int>, val: int, i: int, g: int, count: int)
    requires Scanned(s, a0, val, i, g, count) && i >= 0 && g == |s| && s[i] != val
    ensures Scanned(s, a0, val, i - 1, i, count)
  {
    KeptCons(a0[i..], val);
    assert a0[i..][1..] == a0[i + 1..];
    KeptAllVal(a0[i + 1..], val);
    assert s[i..i + 1] == [a0[i]];
  }

  /** A further kept element extends the window downwards. */
  lemma ScanKeep(s: seq<int>, a0: seq<int>, val: int, i: int, g: int, count: int)
    requires Scanned(s, a0, val, i, g, count) && i >= 0 && g < |s| && s[i] != val
    ensures Scanned(s, a0, val, i - 1, g, count)
  {
    KeptCons(a0[i..], val);
    assert a0[i..][1..] == a0[i + 1..];
    GrowDown(s, i, g);
  }

  /** Once everything is examined the kept elements sit at the front. */
  lemma ScanDone(s: seq<int>, a0: seq<int>, val: int, g: int, count: int)
    requires Scanned(s, a0, val, -1, g, count)
    ensures count == multiset(a0)[val] && 0 <= |s| - count <= |s|
    ensures multiset(s[..|s| - count]) == Kept(a0, val)
  {
    assert a0[0..] == a0;
    if g == |s| {
      KeptAllVal(a0, val);
    } else {
      assert s[..|s| - count] == s[0..g + 1];
    }
  }

  /**
   * The loop of remove: walking from the back, the first element other than `val`
   * opens a window of kept elements; each later `val` is overwritten by the element at
   * the window's top, which moves down by one.
   */
  method ScanFromBack(nums: array<int>, val: int) returns (currentGoodIndex: int, countVal: int)
    modifies nums
    ensures Scanned(nums[..], old(nums[..]), val, -1, currentGoodIndex, countVal)
  {
    ghost var a0 := nums[..];
    var n := nums.Length;
    currentGoodIndex := n;
    var currentIndex := currentGoodIndex - 1;
    countVal := 0;
    assert a0[n..] == [];
    while currentIndex >= 0
      invariant Scanned(nums[..], a0, val, currentIndex, currentGoodIndex, countVal)
      decreases currentIndex + 1
    {
      if nums[currentIndex] == val {
        if currentGoodIndex < n {
          ScanValOpen(nums[..], a0, val, currentIndex, currentGoodIndex, countVal);
          nums[currentIndex] := nums[currentGoodIndex];
          currentGoodIndex := currentGoodIndex - 1;
        } else {
          ScanValClosed(nums[..], a0, val, currentIndex, currentGoodIndex, countVal);
        }
        countVal := countVal + 1;
      } else if currentGoodIndex == n {
        ScanOpen(nums[..], a0, val, currentIndex, currentGoodIndex, countVal);
        currentGoodIndex := currentIndex;
      } else {
        ScanKeep(nums[..], a0, val, currentIndex, currentGoodIndex, countVal);
      }
      currentIndex := currentIndex - 1;
    }
  }

  /**
   * remove: returns the number of elements other than `val`, and leaves exactly those
   * elements, in some order, at the front of the array.
   */
  method Remove(nums: array<int>, val: int) returns (r: int)
    modifies nums
    ensures r == nums.Length - multiset(old(nums[..]))[val]
    ensures 0 <= r <= nums.Length
    ensures multiset(nums[..r]) == Kept(old(nums[..]), val)
  {
    var currentGoodIndex, countVal := ScanFromBack(nums, val);
    ScanDone(nums[..], old(nums[..]), val, currentGoodIndex, countVal);
    r := nums.Length - countVal;
  }

  /** The kept elements number the length less the occurrences of `val`: the two halves of remove's result agree. */
  lemma {:induction false} KeptSize(s: seq<int>, val: int)
    ensures |Kept(s, val)| == |s| - multiset(s)[val]
  {
    if |s| > 0 {
      KeptCons(s, val);
      KeptSize(s[1..], val);
      assert s == [s[0]] + s[1..];
    }
  }

  /** The first array of the driver: two elements kept. */
  lemma RemoveExample1()
    ensures Kept([3, 2, 2, 3], 3) == multiset{2, 2}
    ensures 4 - multiset([3, 2, 2, 3])[3] == 2
  {
    assert [3, 2, 2, 3] == [3, 2] + [2, 3];
  }

  /** The second array of the driver: the five elements other than 2 kept. */
  lemma RemoveExample2()
    ensures 8 - multiset([0, 1, 2, 2, 3, 0, 4, 2])[2] == 5
    ensures Kept([0, 1, 2, 2, 3, 0, 4, 2], 2) == multiset{0, 1, 0, 4, 3}
  {
    assert multiset([0, 1, 2, 2, 3, 0, 4, 2]) == multiset{0, 1, 2, 2, 3, 0, 4, 2};
  }

  /**
   * The header of remove() promises the number of removed elements, but Remove returns the number
   * kept, as the driver expects: on the second array it returns 5 while 3 elements are removed.
   */
  lemma RemoveCountIsKept()
    ensures 8 - multiset([0, 1, 2, 2, 3, 0, 4, 2])[2] == 5
    ensures multiset([0, 1, 2, 2, 3, 0, 4, 2])[2] == 3
  {
    assert multiset([0, 1, 2, 2, 3, 0, 4, 2]) == multiset{0, 1, 2, 2, 3, 0, 4, 2};
  }
}
