/**
 * H-index (src/array_h_index.cc): the largest n such that n of the citation counts are
 * at least n. The C++ code counts occurrences in a map ordered by decreasing key and
 * walks it once; here the ascending count map is walked from its end.
 */
module HIndex {
  import opened CountMap

  /** How many citation counts are at least `h`. */
  function CountAtLeast(c: seq<int>, h: int): (n: nat)
    ensures n <= |c|
  {
    if |c| == 0 then 0 else (if c[0] >= h then 1 else 0) + CountAtLeast(c[1..], h)
  }

  /** `h` is the h-index: at least h counts reach h, and fewer than h + 1 reach h + 1. */
  ghost predicate IsHIndex(c: seq<int>, h: int)
  {
    h >= 0 && CountAtLeast(c, h) >= h && CountAtLeast(c, h + 1) < h + 1
  }

  /** Raising the threshold by one drops exactly the counts equal to the old threshold. */
  lemma {:induction false} CountStep(c: seq<int>, h: int)
    ensures CountAtLeast(c, h) == CountAtLeast(c, h + 1) + multiset(c)[h]
  {
    if |c| > 0 {
      CountStep(c[1..], h);
      assert c == [c[0]] + c[1..];
    }
  }

  /** Raising the threshold never raises the count. */
  lemma {:induction false} CountMonotone(c: seq<int>, h: int, h': int)
    requires h <= h'
    ensures CountAtLeast(c, h') <= CountAtLeast(c, h)
  {
    if |c| > 0 {
      CountMonotone(c[1..], h, h');
    }
  }

  /** Across a range of thresholds that no count falls into, the count is constant. */
  lemma {:induction false} CountGap(c: seq<int>, lo: int, hi: int)
    requires lo <= hi
    requires forall v :: lo <= v < hi ==> v !in multiset(c)
    ensures CountAtLeast(c, lo) == CountAtLeast(c, hi)
    decreases hi - lo
  {
    if lo < hi {
      CountStep(c, lo);
      CountGap(c, lo + 1, hi);
    }
  }

  /** The h-index is the largest h with CountAtLeast(c, h) >= h. */
  lemma HIndexIsLargest(c: seq<int>, h: int, h': int)
    requires IsHIndex(c, h) && h' > h
    ensures CountAtLeast(c, h') < h'
  {
    CountMonotone(c, h + 1, h');
  }

  /** There is only one h-index. */
  lemma HIndexUnique(c: seq<int>, h1: int, h2: int)
    requires IsHIndex(c, h1) && IsHIndex(c, h2)
    ensures h1 == h2
  {
    if h1 < h2 {
      HIndexIsLargest(c, h1, h2);
    } else if h2 < h1 {
      HIndexIsLargest(c, h2, h1);
    }
  }

  /** A reference computation: the first h, counting down from `h`, that enough counts reach. */
  function SearchDown(c: seq<int>, h: nat): (r: nat)
    requires CountAtLeast(c, h + 1) < h + 1
    ensures IsHIndex(c, r) && r <= h
  {
    if CountAtLeast(c, h) >= h then h else SearchDown(c, h - 1)
  }

  /** The h-index of `c`, which is at most |c|. */
  function HIndexOf(c: seq<int>): (h: nat)
    ensures IsHIndex(c, h) && h <= |c|
  {
    SearchDown(c, |c|)
  }

  /** No count reaches a threshold above all of them. */
  lemma CountAboveAll(c: seq<int>, h: int)
    requires forall i :: 0 <= i < |c| ==> c[i] < h
    ensures CountAtLeast(c, h) == 0
  {
  }

  /** A plateau of the count below `top` that no count interrupts yields the h-index `s`. */
  lemma PlateauIsHIndex(c: seq<int>, s: int, top: int)
    requires 0 <= s < top && CountAtLeast(c, top) == s
    requires forall v :: (if s < 1 then 1 else s) <= v < top ==> v !in multiset(c)
    ensures IsHIndex(c, s)
  {
    var lo := if s < 1 then 1 else s;
    CountGap(c, lo, top);
    CountGap(c, s + 1, top);
  }

  /**
   * h_index: counts occurrences into the ordered map, then visits its keys from the
   * largest down, skipping 0. With `elementSum` counts above the current key, a sum
   * exceeding the key is the answer; otherwise the key is, once the sum reaches it.
   */
  method HIndex(citations: seq<int>) returns (h: int)
    ensures IsHIndex(citations, h) && h == HIndexOf(citations)
    ensures 0 <= h <= |citations|
  {
    var hMap := CountElements(citations);
    h := WalkDescending(citations, hMap);
  }

  /** The second loop of h_index: the walk over the count map in decreasing key order. */
  method WalkDescending(citations: seq<int>, hMap: seq<Entry>) returns (h: int)
    requires Ascending(hMap) && forall j :: 0 <= j < |hMap| ==> hMap[j].count > 0
    requires forall k :: CountOf(hMap, k) == multiset(citations)[k]
    ensures IsHIndex(citations, h) && h == HIndexOf(citations)
    ensures 0 <= h <= |citations|
  {
    ghost var top := if |hMap| == 0 || hMap[|hMap| - 1].key < 0 then 1 else hMap[|hMap| - 1].key + 1;
    forall j | 0 <= j < |citations|
      ensures citations[j] < top
    {
      assert citations[j] in multiset(citations);
      if citations[j] >= top {
        CountOfAbsent(hMap, citations[j]);
      }
    }
    CountAboveAll(citations, top);
    var elementSum := 0;
    var idx := |hMap|;
    while idx > 0
      invariant 0 <= idx <= |hMap|
      invariant 0 <= elementSum < top
      invariant elementSum == CountAtLeast(citations, top)
      invariant forall j :: 0 <= j < idx ==> hMap[j].key < top
      invariant forall j :: idx <= j < |hMap| ==> hMap[j].key >= top || hMap[j].key == 0
    {
      idx := idx - 1;
      var key := hMap[idx].key;
      // Every count that lies strictly between `key` and `top` would have an entry there.
      forall v | key < v < top && v != 0
        ensures v !in multiset(citations)
      {
        CountOfAbsent(hMap, v);
      }
      if key == 0 {
        continue;
      }
      if elementSum > key {
        PlateauIsHIndex(citations, elementSum, top);
        h := elementSum;
        HIndexUnique(citations, h, HIndexOf(citations));
        return;
      }
      CountGap(citations, key + 1, top);
      CountStep(citations, key);
      CountOfAt(hMap, idx);
      elementSum := elementSum + hMap[idx].count;
      if elementSum >= key {
        h := key;
        HIndexUnique(citations, h, HIndexOf(citations));
        return;
      }
      top := key;
    }
    forall v | (if elementSum < 1 then 1 else elementSum) <= v < top
      ensures v !in multiset(citations)
    {
      CountOfAbsent(hMap, v);
    }
    PlateauIsHIndex(citations, elementSum, top);
    h := elementSum;
    HIndexUnique(citations, h, HIndexOf(citations));
  }

  /** The driver's cases. */
  lemma HIndexExamples()
    ensures HIndexOf([1, 2, 3]) == 2
    ensures HIndexOf([1, 2, 1]) == 1
    ensures HIndexOf([3, 0, 6, 1, 5]) == 3
    ensures HIndexOf([100]) == 1
  {
  }

  /** The driver's remaining cases. */
  lemma HIndexMoreExamples()
    ensures HIndexOf([100, 15]) == 2
    ensures HIndexOf([100, 15, 0]) == 2
    ensures HIndexOf([100, 15, 4, 0, 0, 0]) == 3
    ensures HIndexOf([1, 7, 9, 4]) == 3
  {
  }
}
