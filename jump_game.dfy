/**
 * Jump game (src/array_jump_game.cc): each element is the longest forward jump allowed
 * from it; the game is solvable when the last index can be reached from index 0.
 */
module JumpGame {
  /** Index `i` can be reached from index 0 by jumps of at most nums[j] from each visited j. */
  ghost predicate Reachable(nums: seq<int>, i: nat)
    decreases i
  {
    i < |nums| &&
    (i == 0 || exists j :: 0 <= j < i && Reachable(nums, j) && j + nums[j] >= i)
  }

  /** The reachable indices form a prefix of the array. */
  lemma {:induction false} ReachableDownward(nums: seq<int>, i: nat, j: nat)
    requires Reachable(nums, i) && j <= i
    ensures Reachable(nums, j)
    decreases i
  {
    if j < i {
      var k :| 0 <= k < i && Reachable(nums, k) && k + nums[k] >= i;
      if j < k {
        ReachableDownward(nums, k, j);
      } else if k < j {
        assert Reachable(nums, j);
      }
    }
  }

  /**
   * can_solve walks backwards keeping the nearest index known to lead to the end
   * (`index + 1 + currentSteps`); the game is solvable iff that index ends at 0.
   * Steps are unsigned in the C++ code, so the values must be non-negative.
   */
  method CanSolve(nums: seq<int>) returns (solvable: bool)
    requires forall i :: 0 <= i < |nums| ==> nums[i] >= 0
    ensures |nums| < 2 ==> solvable
    ensures |nums| > 0 ==> (solvable <==> Reachable(nums, |nums| - 1))
  {
    if |nums| < 2 {
      if |nums| == 1 {
        assert Reachable(nums, 0);
      }
      return true;
    }
    var currentSteps: nat := 0;
    var index := |nums| - 2;
    while index >= 0
      invariant -1 <= index <= |nums| - 2
      invariant index + 1 + currentSteps <= |nums| - 1
      invariant Reachable(nums, |nums| - 1) <==> Reachable(nums, index + 1 + currentSteps)
      invariant forall j :: index < j < index + 1 + currentSteps ==> j + nums[j] < index + 1 + currentSteps
    {
      currentSteps := currentSteps + 1;
      if nums[index] >= currentSteps {
        ghost var goal := index + currentSteps;
        if Reachable(nums, index) {
          assert Reachable(nums, goal);
        }
        if Reachable(nums, goal) {
          ReachableDownward(nums, goal, index);
        }
        currentSteps := 0;
      }
      index := index - 1;
    }
    assert Reachable(nums, 0);
    return currentSteps == 0;
  }

  /** The examples of the doc comment and the driver. */
  lemma JumpExamples()
    ensures Reachable([2, 0, 1, 4], 3)
    ensures !Reachable([2, 1, 0, 3], 3)
    ensures Reachable([2, 3, 1, 1, 4], 4)
    ensures !Reachable([3, 2, 1, 0, 4], 4)
  {
    assert Reachable([2, 0, 1, 4], 0);
    assert Reachable([2, 0, 1, 4], 2);
    assert Reachable([2, 3, 1, 1, 4], 0);
    assert Reachable([2, 3, 1, 1, 4], 1);
  }
}
