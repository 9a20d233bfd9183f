/**
 * Majority elements (src/array_majority_element.cc): the values that occur more than
 * n/2, respectively n/3, times in an array of n values, found by walking the ordered
 * count map in increasing key order.
 */
module Majority {
  import opened CountMap

  /** `v` occurs more than |nums| / parts times (integer division, as with size_t). */
  predicate Exceeds(nums: seq<int>, v: int, parts: nat)
    requires parts > 0
  {
    multiset(nums)[v] > |nums| / parts
  }

  /** Two different values together occur at most |nums| times. */
  lemma {:induction false} TwoCounts(nums: seq<int>, a: int, b: int)
    requires a != b
    ensures multiset(nums)[a] + multiset(nums)[b] <= |nums|
  {
    if |nums| > 0 {
      assert nums == [nums[0]] + nums[1..];
      TwoCounts(nums[1..], a, b);
    }
  }

  /** Three different values together occur at most |nums| times. */
  lemma {:induction false} ThreeCounts(nums: seq<int>, a: int, b: int, c: int)
    requires a != b && b != c && a != c
    ensures multiset(nums)[a] + multiset(nums)[b] + multiset(nums)[c] <= |nums|
  {
    if |nums| > 0 {
      assert nums == [nums[0]] + nums[1..];
      ThreeCounts(nums[1..], a, b, c);
    }
  }

  /** There is at most one value occurring more than n/2 times. */
  lemma MajorityUnique(nums: seq<int>, a: int, b: int)
    requires Exceeds(nums, a, 2) && Exceeds(nums, b, 2)
    ensures a == b
  {
    if a != b {
      TwoCounts(nums, a, b);
    }
  }

  /** There are at most two values occurring more than n/3 times. */
  lemma AtMostTwoFrequent(nums: seq<int>, a: int, b: int, c: int)
    requires Exceeds(nums, a, 3) && Exceeds(nums, b, 3) && Exceeds(nums, c, 3)
    ensures a == b || b == c || a == c
  {
    if a != b && b != c && a != c {
      ThreeCounts(nums, a, b, c);
    }
  }

  /** The count the map built from `nums` holds for any value is its number of occurrences. */
  lemma MapCount(nums: seq<int>, m: seq<Entry>, v: int)
    requires Ascending(m) && forall k :: CountOf(m, k) == multiset(nums)[k]
    ensures v in multiset(nums) ==> exists j :: 0 <= j < |m| && m[j].key == v && m[j].count == multiset(nums)[v]
  {
    if forall j :: 0 <= j < |m| ==> m[j].key != v {
      CountOfAbsent(m, v);
    } else {
      var j :| 0 <= j < |m| && m[j].key == v;
      CountOfAt(m, j);
    }
  }

  /**
   * array_majority_element: the value occurring more than n/2 times, which is unique,
   * or 0 when there is none.
   */
  method MajorityElement(nums: seq<int>) returns (e: int)
    ensures forall v :: Exceeds(nums, v, 2) ==> e == v
    ensures (forall v :: !Exceeds(nums, v, 2)) ==> e == 0
  {
    var m := CountElements(nums);
    var floor := |nums| / 2;
    var i := 0;
    while i < |m|
      invariant 0 <= i <= |m|
      invariant forall j :: 0 <= j < i ==> m[j].count <= floor
    {
      if m[i].count > floor {
        CountOfAt(m, i);
        assert Exceeds(nums, m[i].key, 2);
        forall v | Exceeds(nums, v, 2)
          ensures m[i].key == v
        {
          MajorityUnique(nums, m[i].key, v);
        }
        return m[i].key;
      }
      i := i + 1;
    }
    forall v
      ensures !Exceeds(nums, v, 2)
    {
      MapCount(nums, m, v);
    }
    return 0;
  }

  /**
   * array_majority_elements: in increasing order, exactly the values occurring more
   * than n/3 times; there are never more than two.
   */
  method MajorityElements(nums: seq<int>) returns (r: seq<int>)
    ensures forall i, j :: 0 <= i < j < |r| ==> r[i] < r[j]
    ensures forall v :: v in r <==> Exceeds(nums, v, 3)
    ensures |r| <= 2
  {
    var m := CountElements(nums);
    var floor := |nums| / 3;
    r := [];
    var i := 0;
    while i < |m|
      invariant 0 <= i <= |m|
      invariant forall a, b :: 0 <= a < b < |r| ==> r[a] < r[b]
      invariant forall a :: 0 <= a < |r| ==> exists j :: 0 <= j < i && r[a] == m[j].key
      invariant forall v :: v in r <==> exists j :: 0 <= j < i && m[j].key == v && m[j].count > floor
    {
      if m[i].count > floor {
        r := r + [m[i].key];
      }
      i := i + 1;
    }
    forall v
      ensures v in r <==> Exceeds(nums, v, 3)
    {
      MapCount(nums, m, v);
      if v in r {
        var j :| 0 <= j < |m| && m[j].key == v && m[j].count > floor;
        CountOfAt(m, j);
      }
    }
    if |r| > 2 {
      AtMostTwoFrequent(nums, r[0], r[1], r[2]);
    }
  }

  /** The driver's cases. */
  lemma MajorityExamples()
    ensures Exceeds([3, 2, 3], 3, 2)
    ensures Exceeds([2, 2, 1, 1, 1, 2, 2], 2, 2)
    ensures Exceeds([1], 1, 2)
    ensures Exceeds([1, 2], 1, 3) && Exceeds([1, 2], 2, 3)
    ensures forall v :: !Exceeds([], v, 3)
  {
    assert multiset([3, 2, 3])[3] == 2;
    assert multiset([2, 2, 1, 1, 1, 2, 2])[2] == 4;
  }
}
