/**
 * Nearby duplicates (src/hashmap_duplicates.cc): whether two positions at most k apart
 * hold the same value, found by keeping the set of earlier positions of every value.
 */
module HashmapDuplicates {
  /** 2^64: the number of size_t values. */
  const SizeRange: int := 0x1_0000_0000_0000_0000

  /** The int k converted to size_t, as the comparison delta <= k does: a negative k wraps around. */
  function AsSize(k: int): (r: int)
    requires -SizeRange < k < SizeRange
    ensures 0 <= r < SizeRange
    ensures k >= 0 ==> r == k
    ensures k < 0 ==> r == k + SizeRange
  {
    if k >= 0 then k else k + SizeRange
  }

  /** The int range of k. */
  predicate IsInt(k: int)
  {
    -0x8000_0000 <= k < 0x8000_0000
  }

  /** Some earlier position j < i of the first n holds the same value within distance k (as size_t). */
  ghost predicate NearDuplicate(nums: seq<int>, k: int, n: nat)
    requires n <= |nums| && IsInt(k)
  {
    exists i, j :: 0 <= j < i < n && nums[i] == nums[j] && i - j <= AsSize(k)
  }

  /** The positions before i that hold v. */
  function Positions(nums: seq<int>, i: nat, v: int): (r: set<nat>)
    requires i <= |nums|
    ensures forall j :: j in r <==> 0 <= j < i && nums[j] == v
  {
    set j: nat | j < i && nums[j] == v
  }

  /** The index set std::unordered_map<int, std::unordered_set<size_t>>::operator[] reports: empty when v has no entry. */
  function Indices(m: map<int, set<nat>>, v: int): set<nat>
  {
    if v in m then m[v] else {}
  }

  /**
   * The inner loop of contains_duplicate: visit the earlier positions of nums[i] in any order,
   * and stop at the first one at most k away.
   */
  method AnyClose(nums: seq<int>, k: int, i: nat, earlier: set<nat>) returns (found: bool)
    requires i < |nums| && IsInt(k)
    requires forall j :: j in earlier ==> j < i && nums[j] == nums[i]
    ensures found <==> exists j :: j in earlier && i - j <= AsSize(k)
  {
    var rest := earlier;
    while rest != {}
      invariant rest <= earlier
      invariant forall j :: j in earlier && j !in rest ==> i - j > AsSize(k)
      decreases |rest|
    {
      var j :| j in rest;
      var delta := if i >= j then i - j else j - i;
      if delta <= AsSize(k) {
        return true;
      }
      rest := rest - {j};
    }
    return false;
  }

  /** hashmap_duplicates contains_duplicate. */
  method ContainsDuplicate(nums: seq<int>, k: int) returns (r: bool)
    requires IsInt(k)
    ensures r <==> NearDuplicate(nums, k, |nums|)
  {
    var positions: map<int, set<nat>> := map[];
    for i := 0 to |nums|
      invariant forall v {:trigger Indices(positions, v)} :: Indices(positions, v) == Positions(nums, i, v)
      invariant !NearDuplicate(nums, k, i)
    {
      var n := nums[i];
      var found := AnyClose(nums, k, i, Indices(positions, n));
      assert Indices(positions, n) == Positions(nums, i, n);
      if found {
        ghost var j :| j in Positions(nums, i, n) && i - j <= AsSize(k);
        assert nums[i] == nums[j];
        return true;
      }
      forall i', j | 0 <= j < i' < i + 1 && nums[i'] == nums[j]
        ensures i' - j > AsSize(k)
      {
        if i' == i {
          assert j in Positions(nums, i, n);
        }
      }
      ghost var before := positions;
      positions := positions[n := Indices(positions, n) + {i}];
      forall v
        ensures Indices(positions, v) == Positions(nums, i + 1, v)
      {
        if v != n {
          assert Indices(positions, v) == Indices(before, v) == Positions(nums, i, v);
        }
      }
    }
    r := false;
  }

  /** The search in either direction: two different positions, |i - j| at most k. */
  lemma NearDuplicateSymmetric(nums: seq<int>, k: int)
    requires IsInt(k)
    ensures NearDuplicate(nums, k, |nums|) <==>
      exists i, j :: 0 <= i < |nums| && 0 <= j < |nums| && i != j && nums[i] == nums[j]
        && (if i >= j then i - j else j - i) <= AsSize(k)
  {
    if i, j :| 0 <= i < |nums| && 0 <= j < |nums| && i != j && nums[i] == nums[j] && (if i >= j then i - j else j - i) <= AsSize(k) {
      if i < j {
        assert nums[j] == nums[i];
      }
    }
  }

  /** An array whose values are all different never has a nearby duplicate, whatever k is. */
  lemma DistinctHasNone(nums: seq<int>, k: int)
    requires IsInt(k) && forall p, q :: 0 <= p < q < |nums| ==> nums[p] != nums[q]
    ensures !NearDuplicate(nums, k, |nums|)
  {
  }

  /**
   * A negative k turns into a size_t above any distance within a 32-bit-indexed array, so any
   * repeated value counts.
   */
  lemma NegativeKMatchesAny(nums: seq<int>, k: int)
    requires IsInt(k) && k < 0 && |nums| < 0x1_0000_0000
    ensures NearDuplicate(nums, k, |nums|) <==> exists i, j :: 0 <= j < i < |nums| && nums[i] == nums[j]
  {
  }

  /** Allowing a larger distance finds at least what a smaller one does. */
  lemma NearDuplicateMonotone(nums: seq<int>, k: int, k': int)
    requires IsInt(k) && IsInt(k') && 0 <= k <= k'
    ensures NearDuplicate(nums, k, |nums|) ==> NearDuplicate(nums, k', |nums|)
  {
    if NearDuplicate(nums, k, |nums|) {
      var i, j :| 0 <= j < i < |nums| && nums[i] == nums[j] && i - j <= AsSize(k);
      assert i - j <= AsSize(k');
    }
  }

  /** The three table rows. */
  lemma DuplicateExamples()
    ensures NearDuplicate([1, 2, 3, 1], 3, 4)
    ensures NearDuplicate([1, 0, 1, 1], 1, 4)
    ensures !NearDuplicate([1, 2, 3, 1, 2, 3], 2, 6)
  {
    assert [1, 2, 3, 1][3] == [1, 2, 3, 1][0];
    assert [1, 0, 1, 1][3] == [1, 0, 1, 1][2];
  }
}
