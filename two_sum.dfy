/**
 * Two sum (src/array_two_sum.cc): a pair of positions whose values add up to a target,
 * found in one pass with a map from the value still needed to the position that needs it.
 */
module TwoSum {
  /** Positions i < j whose values add up to the target. */
  predicate SumsTo(nums: seq<int>, target: int, i: int, j: int)
  {
    0 <= i < j < |nums| && nums[i] + nums[j] == target
  }

  /** Some earlier position pairs up with position j. */
  ghost predicate EndsPair(nums: seq<int>, target: int, j: int)
  {
    exists i :: SumsTo(nums, target, i, j)
  }

  /**
   * What find_two_sum returns: the empty vector when no pair exists; otherwise the pair
   * whose second position is the smallest one that completes a pair, with the latest
   * earlier position that completes it (later positions overwrite the map entry).
   */
  ghost predicate IsTwoSum(nums: seq<int>, target: int, r: seq<int>)
  {
    if r == [] then
      forall j :: 0 <= j < |nums| ==> !EndsPair(nums, target, j)
    else
      |r| == 2 && SumsTo(nums, target, r[0], r[1])
      && (forall j :: 0 <= j < r[1] ==> !EndsPair(nums, target, j))
      && (forall i :: r[0] < i < r[1] ==> nums[i] + nums[r[1]] != target)
  }

  /** The value position i still needs to reach the target. */
  function Needs(nums: seq<int>, target: int, i: nat): int
    requires i < |nums|
  {
    target - nums[i]
  }

  /** The map after positions [0, k): every needed value points at its latest position. */
  ghost predicate NeededMap(nums: seq<int>, target: int, needed: map<int, nat>, k: nat)
    requires k <= |nums|
  {
    (forall i :: 0 <= i < k ==> Needs(nums, target, i) in needed)
    && (forall v :: v in needed ==> needed[v] < k && nums[needed[v]] + v == target)
    && (forall v, i :: v in needed && needed[v] < i < k ==> nums[i] + v != target)
  }

  /** Entering position i into the map keeps it the map after positions [0, i + 1). */
  lemma NeededStep(nums: seq<int>, target: int, needed: map<int, nat>, i: nat)
    requires i < |nums| && NeededMap(nums, target, needed, i)
    ensures NeededMap(nums, target, needed[Needs(nums, target, i) := i], i + 1)
  {
  }

  /** A value nobody needs completes no pair with the positions before it. */
  lemma NotNeeded(nums: seq<int>, target: int, needed: map<int, nat>, i: nat)
    requires i < |nums| && NeededMap(nums, target, needed, i) && nums[i] !in needed
    ensures !EndsPair(nums, target, i)
  {
    forall k | 0 <= k < i
      ensures nums[k] + nums[i] != target
    {
      assert Needs(nums, target, k) in needed;
    }
  }

  /** A value somebody needs completes the pair with the latest position needing it. */
  lemma Needed(nums: seq<int>, target: int, needed: map<int, nat>, i: nat)
    requires i < |nums| && NeededMap(nums, target, needed, i) && nums[i] in needed
    requires forall j :: 0 <= j < i ==> !EndsPair(nums, target, j)
    ensures IsTwoSum(nums, target, [needed[nums[i]], i])
  {
    var r := [needed[nums[i]], i];
    assert r[0] == needed[nums[i]] && r[1] == i;
    assert SumsTo(nums, target, r[0], r[1]);
  }

  /** array_two_sum find_two_sum. */
  method FindTwoSum(nums: seq<int>, target: int) returns (r: seq<int>)
    ensures IsTwoSum(nums, target, r)
  {
    var needed: map<int, nat> := map[];
    var i := 0;
    while i < |nums|
      invariant 0 <= i <= |nums|
      invariant NeededMap(nums, target, needed, i)
      invariant forall j :: 0 <= j < i ==> !EndsPair(nums, target, j)
    {
      var n := nums[i];
      if n in needed {
        Needed(nums, target, needed, i);
        return [needed[n], i];
      }
      NotNeeded(nums, target, needed, i);
      NeededStep(nums, target, needed, i);
      needed := needed[target - n := i];
      i := i + 1;
    }
    return [];
  }

  /** The description of the result pins it down: at most one vector meets it. */
  lemma TwoSumUnique(nums: seq<int>, target: int, r: seq<int>, s: seq<int>)
    requires IsTwoSum(nums, target, r) && IsTwoSum(nums, target, s)
    ensures r == s
  {
    if r != [] && s != [] {
      if r[1] < s[1] {
        assert EndsPair(nums, target, r[1]);
      } else if s[1] < r[1] {
        assert EndsPair(nums, target, s[1]);
      } else {
        assert r[0] == s[0];
      }
    } else if r != [] {
      assert EndsPair(nums, target, r[1]);
    } else if s != [] {
      assert EndsPair(nums, target, s[1]);
    }
  }

  /** There is a result exactly when two values add up to the target. */
  lemma TwoSumFound(nums: seq<int>, target: int, r: seq<int>)
    requires IsTwoSum(nums, target, r)
    ensures r != [] <==> exists i, j :: SumsTo(nums, target, i, j)
  {
    if r != [] {
      assert SumsTo(nums, target, r[0], r[1]);
    } else {
      forall i, j
        ensures !SumsTo(nums, target, i, j)
      {
        if 0 <= j < |nums| {
          assert !EndsPair(nums, target, j);
        }
      }
    }
  }

  /** The driver rows. */
  lemma TwoSumExamples(r1: seq<int>, r2: seq<int>, r3: seq<int>)
    requires IsTwoSum([2, 7, 11, 15], 9, r1)
    requires IsTwoSum([3, 2, 4], 6, r2)
    requires IsTwoSum([3, 3], 6, r3)
    ensures r1 == [0, 1] && r2 == [1, 2] && r3 == [0, 1]
  {
    assert !EndsPair([2, 7, 11, 15], 9, 0);
    TwoSumUnique([2, 7, 11, 15], 9, r1, [0, 1]);
    assert !EndsPair([3, 2, 4], 6, 0);
    assert !EndsPair([3, 2, 4], 6, 1);
    TwoSumUnique([3, 2, 4], 6, r2, [1, 2]);
    assert !EndsPair([3, 3], 6, 0);
    TwoSumUnique([3, 3], 6, r3, [0, 1]);
  }
}
