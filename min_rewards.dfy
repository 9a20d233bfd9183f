/**
 * The minimum number of rewards for a row of ratings (src/array_min_rewards.cc): every
 * individual gets at least one reward, and one rated higher than a neighbour gets more
 * than that neighbour. allocate_min_rewards computes the total in one pass by tracking the
 * lengths of the current increasing and decreasing streaks.
 */
module MinRewards {
  /**
   * The streak counters of the pass: less and greater are the lengths of the current
   * decreasing and increasing streaks, tracked the increasing streak that led up to
   * the peak before the current decreasing one.
   */
  datatype Streaks = Streaks(less: nat, greater: nat, tracked: nat)

  /** One iteration of the loop: the counters after rating cur follows prev, and the delta added. */
  function Step(st: Streaks, prev: int, cur: int): (r: (Streaks, nat))
  {
    if prev > cur then
      var st' := if st.greater > 0 then Streaks(0, 0, st.greater) else st;
      (st'.(less := st'.less + 1), st'.less)
    else if prev < cur then
      if st.less > 0 then
        var delta := if st.tracked > 0 then Max(st.tracked, st.less) else st.less;
        (Streaks(0, 1, 0), delta)
      else
        (st.(greater := st.greater + 1), st.greater)
    else
      (Streaks(0, 0, 0), Cleanup(st))
  }

  function Max(a: nat, b: nat): nat
  {
    if a >= b then a else b
  }

  /** What the lines after the loop add for the streaks still open. */
  function Cleanup(st: Streaks): nat
  {
    (if st.tracked > 0 then Max(st.tracked, st.less) else st.less) + st.greater
  }

  /** The counters and the running total after the loop has looked at ratings[..i]. */
  function Run(ratings: seq<int>, i: nat): (r: (Streaks, nat))
    requires 1 <= i <= |ratings|
    ensures r.1 >= |ratings|
  {
    if i == 1 then (Streaks(0, 0, 0), |ratings|)
    else
      var before := Run(ratings, i - 1);
      var step := Step(before.0, ratings[i - 2], ratings[i - 1]);
      (step.0, before.1 + step.1)
  }

  /** The value allocate_min_rewards returns. */
  function AllocateMinRewardsResult(ratings: seq<int>): (r: nat)
    ensures |ratings| < 2 ==> r == |ratings|
    ensures r >= |ratings|
  {
    if |ratings| < 2 then |ratings|
    else
      var (st, total) := Run(ratings, |ratings|);
      total + Cleanup(st)
  }

  /**
   * allocate_min_rewards: the one-pass streak computation. It returns the total of the
   * reference allocation, which follows the rule on rewards, and no allocation that
   * follows the rule hands out fewer rewards.
   */
  method AllocateMinRewards(ratings: seq<int>) returns (r: nat)
    ensures r == AllocateMinRewardsResult(ratings) == Sum(Allocation(ratings))
    ensures forall a :: ValidAllocation(ratings, a) ==> r <= Sum(a)
  {
    if |ratings| < 2 {
      ResultIsMinimum(ratings);
      return |ratings|;
    }
    var minRewards := |ratings|;
    var curLessThanStreak := 0;
    var curGreaterThanStreak := 0;
    var trackedGreaterThanStreak := 0;
    var prev := ratings[0];
    for i := 1 to |ratings|
      invariant prev == ratings[i - 1]
      invariant Run(ratings, i) ==
        (Streaks(curLessThanStreak, curGreaterThanStreak, trackedGreaterThanStreak), minRewards)
    {
      var cur := ratings[i];
      var rewardsDelta := 0;
      if prev > cur {
        if curGreaterThanStreak > 0 {
          trackedGreaterThanStreak := curGreaterThanStreak;
          curLessThanStreak := 0;
          curGreaterThanStreak := 0;
        }
        rewardsDelta := curLessThanStreak;
        curLessThanStreak := curLessThanStreak + 1;
      } else if prev < cur {
        if curLessThanStreak > 0 {
          if trackedGreaterThanStreak > 0 {
            rewardsDelta := Max(trackedGreaterThanStreak, curLessThanStreak);
            trackedGreaterThanStreak := 0;
          } else {
            rewardsDelta := curLessThanStreak;
          }
          curGreaterThanStreak := 0;
          curLessThanStreak := 0;
        } else {
          rewardsDelta := curGreaterThanStreak;
        }
        curGreaterThanStreak := curGreaterThanStreak + 1;
      } else {
        if trackedGreaterThanStreak > 0 {
          rewardsDelta := Max(trackedGreaterThanStreak, curLessThanStreak);
          curLessThanStreak := 0;
          trackedGreaterThanStreak := 0;
        }
        rewardsDelta := rewardsDelta + curLessThanStreak + curGreaterThanStreak;
        curLessThanStreak := 0;
        curGreaterThanStreak := 0;
      }
      minRewards := minRewards + rewardsDelta;
      prev := cur;
    }
    var rewardsDelta := 0;
    if trackedGreaterThanStreak > 0 {
      rewardsDelta := rewardsDelta + Max(trackedGreaterThanStreak, curLessThanStreak);
    } else {
      rewardsDelta := rewardsDelta + curLessThanStreak;
    }
    rewardsDelta := rewardsDelta + curGreaterThanStreak;
    r := minRewards + rewardsDelta;
    ResultIsMinimum(ratings);
  }

  /** The rewards a valid allocation must give: length of the increasing run ending at i. */
  function UpRun(ratings: seq<int>, i: nat): (r: nat)
    requires i < |ratings|
    ensures r >= 1
  {
    if i > 0 && ratings[i - 1] < ratings[i] then UpRun(ratings, i - 1) + 1 else 1
  }

  /** The length of the decreasing run starting at i. */
  function DownRun(ratings: seq<int>, i: nat): (r: nat)
    requires i < |ratings|
    ensures r >= 1
    decreases |ratings| - i
  {
    if i + 1 < |ratings| && ratings[i + 1] < ratings[i] then DownRun(ratings, i + 1) + 1 else 1
  }

  /** The reference allocation: each individual gets the longer of its two runs. */
  function Allocation(ratings: seq<int>): (a: seq<int>)
    ensures |a| == |ratings|
  {
    seq(|ratings|, i requires 0 <= i < |ratings| => Max(UpRun(ratings, i), DownRun(ratings, i)))
  }

  /** The sum of a[..k]. */
  function SumTo(a: seq<int>, k: nat): int
    requires k <= |a|
  {
    if k == 0 then 0 else SumTo(a, k - 1) + a[k - 1]
  }

  function Sum(a: seq<int>): int
  {
    SumTo(a, |a|)
  }

  /**
   * The rule on rewards: everyone gets at least one, and of two neighbours the one
   * with the higher rating gets more.
   */
  ghost predicate ValidAllocation(ratings: seq<int>, a: seq<int>)
  {
    |a| == |ratings| &&
    (forall i :: 0 <= i < |a| ==> a[i] >= 1) &&
    (forall i :: 0 < i < |a| ==>
      (ratings[i - 1] < ratings[i] ==> a[i - 1] < a[i]) &&
      (ratings[i - 1] > ratings[i] ==> a[i - 1] > a[i]))
  }

  /** The reference allocation follows the rule. */
  lemma AllocationValid(ratings: seq<int>)
    ensures ValidAllocation(ratings, Allocation(ratings))
  {
    var a := Allocation(ratings);
    forall i | 0 < i < |a|
      ensures ratings[i - 1] < ratings[i] ==> a[i - 1] < a[i]
      ensures ratings[i - 1] > ratings[i] ==> a[i - 1] > a[i]
    {
      if ratings[i - 1] < ratings[i] {
        assert UpRun(ratings, i) == UpRun(ratings, i - 1) + 1;
        assert DownRun(ratings, i - 1) == 1;
      }
      if ratings[i - 1] > ratings[i] {
        assert DownRun(ratings, i - 1) == DownRun(ratings, i) + 1;
        assert UpRun(ratings, i) == 1;
      }
    }
  }

  /** Every valid allocation gives i at least the length of the increasing run ending at i. */
  lemma {:induction false} UpRunBelow(ratings: seq<int>, a: seq<int>, i: nat)
    requires ValidAllocation(ratings, a) && i < |ratings|
    ensures a[i] >= UpRun(ratings, i)
  {
    if i > 0 && ratings[i - 1] < ratings[i] {
      UpRunBelow(ratings, a, i - 1);
    }
  }

  /** Every valid allocation gives i at least the length of the decreasing run starting at i. */
  lemma {:induction false} DownRunBelow(ratings: seq<int>, a: seq<int>, i: nat)
    requires ValidAllocation(ratings, a) && i < |ratings|
    ensures a[i] >= DownRun(ratings, i)
    decreases |ratings| - i
  {
    if i + 1 < |ratings| && ratings[i + 1] < ratings[i] {
      DownRunBelow(ratings, a, i + 1);
    }
  }

  /** A sum of pointwise larger values is larger. */
  lemma {:induction false} SumMonotone(a: seq<int>, b: seq<int>, k: nat)
    requires |a| == |b| && k <= |a| && forall i :: 0 <= i < |a| ==> a[i] >= b[i]
    ensures SumTo(a, k) >= SumTo(b, k)
  {
    if k > 0 {
      SumMonotone(a, b, k - 1);
    }
  }

  /** No valid allocation uses fewer rewards in total than the reference. */
  lemma AllocationMinimal(ratings: seq<int>, a: seq<int>)
    requires ValidAllocation(ratings, a)
    ensures Sum(a) >= Sum(Allocation(ratings))
  {
    var b := Allocation(ratings);
    forall i | 0 <= i < |a|
      ensures a[i] >= b[i]
    {
      UpRunBelow(ratings, a, i);
      DownRunBelow(ratings, a, i);
    }
    SumMonotone(a, b, |a|);
  }

  /** 0 + 1 + ... + (k - 1): the rewards above one handed out along a falling run of k + 1. */
  function Tri(k: nat): nat
  {
    if k == 0 then 0 else Tri(k - 1) + (k - 1)
  }

  /** Each rating from p up to q is above the next one. */
  ghost predicate Falling(ratings: seq<int>, p: nat, q: nat)
    requires p <= q < |ratings|
  {
    forall j :: p <= j < q ==> ratings[j] > ratings[j + 1]
  }

  /**
   * What the streak counters and the running total mean once the loop has looked at
   * ratings[..i], whose last individual is i - 1. Outside a decreasing streak, greater is
   * the increasing run ending at i - 1 less one, and every individual before i - 1 has
   * been charged its reward less one. Inside a decreasing streak from the peak p, tracked
   * is the increasing run ending at p less one, every individual before p has been
   * charged, and the falling individuals after p have been charged Tri(less) together.
   */
  ghost predicate Charged(ratings: seq<int>, i: nat, st: Streaks, total: int)
    requires 1 <= i <= |ratings|
  {
    var a := Allocation(ratings);
    if st.less == 0 then
      st.tracked == 0 && st.greater + 1 == UpRun(ratings, i - 1)
      && total == |ratings| + SumTo(a, i - 1) - (i - 1)
    else
      var p := i - 1 - st.less;
      st.greater == 0 && st.less < i && Falling(ratings, p, i - 1)
      && st.tracked + 1 == UpRun(ratings, p)
      && total == |ratings| + SumTo(a, p) - p + Tri(st.less)
  }

  /** The falling run from p ends at q: the decreasing run from each j in between reaches q. */
  lemma {:induction false} RunEnds(ratings: seq<int>, p: nat, q: nat)
    requires p <= q < |ratings| && Falling(ratings, p, q)
    requires q + 1 == |ratings| || ratings[q] <= ratings[q + 1]
    ensures forall j :: p <= j <= q ==> DownRun(ratings, j) == q - j + 1
    decreases q - p
  {
    if p < q {
      RunEnds(ratings, p + 1, q);
      assert DownRun(ratings, p) == DownRun(ratings, p + 1) + 1;
    }
  }

  /** The sum of a run of rewards m, m - 1, ..., 1 ending at q. */
  lemma {:induction false} SumDown(a: seq<int>, q: nat, m: nat)
    requires m <= q + 1 <= |a| && forall j :: q + 1 - m <= j <= q ==> a[j] == q - j + 1
    ensures SumTo(a, q + 1) == SumTo(a, q + 1 - m) + Tri(m) + m
  {
    if m > 0 {
      SumDown(a, q, m - 1);
      assert a[q + 1 - m] == m;
    }
  }

  /** The reward the reference allocation gives i. */
  lemma AllocationAt(ratings: seq<int>, i: nat)
    requires i < |ratings|
    ensures Allocation(ratings)[i] == Max(UpRun(ratings, i), DownRun(ratings, i))
  {
  }

  /** Closing outside a decreasing streak: i - 1 is charged the increasing run ending at it. */
  lemma CloseRising(ratings: seq<int>, i: nat, st: Streaks, total: int)
    requires 1 <= i <= |ratings| && Charged(ratings, i, st, total) && st.less == 0
    requires i == |ratings| || ratings[i - 1] <= ratings[i]
    ensures total + Cleanup(st) == |ratings| + SumTo(Allocation(ratings), i) - i
  {
    assert DownRun(ratings, i - 1) == 1;
    AllocationAt(ratings, i - 1);
  }

  /**
   * Closing a decreasing streak from the peak p: the peak is charged the longer of its two
   * runs, the falling individuals after it were charged as they came.
   */
  lemma CloseFalling(ratings: seq<int>, i: nat, st: Streaks, total: int)
    requires 1 <= i <= |ratings| && Charged(ratings, i, st, total) && st.less > 0
    requires i == |ratings| || ratings[i - 1] <= ratings[i]
    ensures total + Cleanup(st) == |ratings| + SumTo(Allocation(ratings), i) - i
  {
    var a := Allocation(ratings);
    var last, m := i - 1, st.less;
    var p := last - m;
    RunEnds(ratings, p, last);
    forall j | p + 1 <= j <= last
      ensures a[j] == last - j + 1
    {
      assert ratings[j - 1] > ratings[j];
      assert UpRun(ratings, j) == 1;
      AllocationAt(ratings, j);
    }
    SumDown(a, last, m);
    AllocationAt(ratings, p);
    assert a[p] == Max(st.tracked + 1, m + 1);
    assert SumTo(a, p + 1) == SumTo(a, p) + a[p];
  }

  /** A fall after no fall starts a decreasing streak whose peak is i - 1. */
  lemma FallStarts(ratings: seq<int>, i: nat, st: Streaks, total: int)
    requires 1 <= i < |ratings| && Charged(ratings, i, st, total) && ratings[i - 1] > ratings[i]
    requires st.less == 0
    ensures Charged(ratings, i + 1, Streaks(1, 0, st.greater), total)
  {
    assert Falling(ratings, i - 1, i);
  }

  /** A fall after a fall extends the decreasing streak and charges its falling individuals one more each. */
  lemma FallContinues(ratings: seq<int>, i: nat, st: Streaks, total: int)
    requires 1 <= i < |ratings| && Charged(ratings, i, st, total) && ratings[i - 1] > ratings[i]
    requires st.less > 0
    ensures Charged(ratings, i + 1, st.(less := st.less + 1), total + st.less)
  {
    assert Falling(ratings, i - 1 - st.less, i);
    assert Tri(st.less + 1) == Tri(st.less) + st.less;
  }

  /** A fall keeps the meaning of the counters: it starts or extends a decreasing streak. */
  lemma StepFalling(ratings: seq<int>, i: nat, st: Streaks, total: int)
    requires 1 <= i < |ratings| && Charged(ratings, i, st, total) && ratings[i - 1] > ratings[i]
    ensures Charged(ratings, i + 1, Step(st, ratings[i - 1], ratings[i]).0, total + Step(st, ratings[i - 1], ratings[i]).1)
  {
    if st.less > 0 {
      FallContinues(ratings, i, st, total);
    } else {
      FallStarts(ratings, i, st, total);
    }
  }

  /** A rise or a tie keeps the meaning of the counters: it closes the streaks at i - 1. */
  lemma StepRising(ratings: seq<int>, i: nat, st: Streaks, total: int)
    requires 1 <= i < |ratings| && Charged(ratings, i, st, total) && ratings[i - 1] <= ratings[i]
    ensures Charged(ratings, i + 1, Step(st, ratings[i - 1], ratings[i]).0, total + Step(st, ratings[i - 1], ratings[i]).1)
  {
    var prev, cur := ratings[i - 1], ratings[i];
    if st.less > 0 {
      CloseFalling(ratings, i, st, total);
      if prev < cur {
        assert ratings[i - 2] > ratings[i - 1];
        assert UpRun(ratings, i - 1) == 1;
      }
    } else {
      CloseRising(ratings, i, st, total);
    }
    assert Step(st, prev, cur).1 == Cleanup(st);
  }

  /** One pass of the loop keeps the meaning of the counters and the total. */
  lemma StepCharged(ratings: seq<int>, i: nat, st: Streaks, total: int)
    requires 1 <= i < |ratings| && Charged(ratings, i, st, total)
    ensures Charged(ratings, i + 1, Step(st, ratings[i - 1], ratings[i]).0, total + Step(st, ratings[i - 1], ratings[i]).1)
  {
    if ratings[i - 1] > ratings[i] {
      StepFalling(ratings, i, st, total);
    } else {
      StepRising(ratings, i, st, total);
    }
  }

  /** The counters and the total of the loop keep their meaning on every pass. */
  lemma {:induction false} RunCharged(ratings: seq<int>, i: nat, st: Streaks, total: int)
    requires 1 <= i <= |ratings| && Run(ratings, i) == (st, total)
    ensures Charged(ratings, i, st, total)
  {
    if i > 1 {
      var (st0, total0) := Run(ratings, i - 1);
      RunCharged(ratings, i - 1, st0, total0);
      StepCharged(ratings, i - 1, st0, total0);
    }
  }

  /**
   * allocate_min_rewards returns the total of the reference allocation: a valid allocation
   * that no valid allocation undercuts, so the least total of rewards.
   */
  lemma ResultIsMinimum(ratings: seq<int>)
    ensures AllocateMinRewardsResult(ratings) == Sum(Allocation(ratings))
    ensures ValidAllocation(ratings, Allocation(ratings))
    ensures forall a :: ValidAllocation(ratings, a) ==> AllocateMinRewardsResult(ratings) <= Sum(a)
  {
    AllocationValid(ratings);
    forall a | ValidAllocation(ratings, a)
      ensures Sum(Allocation(ratings)) <= Sum(a)
    {
      AllocationMinimal(ratings, a);
    }
    if |ratings| < 2 {
      if |ratings| == 1 {
        AllocationAt(ratings, 0);
        assert SumTo(Allocation(ratings), 1) == SumTo(Allocation(ratings), 0) + Allocation(ratings)[0];
      }
    } else {
      var (st, total) := Run(ratings, |ratings|);
      RunCharged(ratings, |ratings|, st, total);
      if st.less > 0 {
        CloseFalling(ratings, |ratings|, st, total);
      } else {
        CloseRising(ratings, |ratings|, st, total);
      }
    }
  }

  /** Adding up the reference allocation of a literal row. */
  lemma AllocationIs(ratings: seq<int>, a: seq<int>)
    requires |a| == |ratings|
    requires forall i :: 0 <= i < |a| ==> a[i] == Max(UpRun(ratings, i), DownRun(ratings, i))
    ensures Sum(Allocation(ratings)) == Sum(a)
  {
    assert Allocation(ratings) == a;
  }

  /** The rows {1,0,2} -> 5 and {1,2,2} -> 4 of the driver, which the reference agrees with. */
  lemma MinRewardsExamplesShort()
    ensures AllocateMinRewardsResult([1, 0, 2]) == 5 == Sum(Allocation([1, 0, 2]))
    ensures AllocateMinRewardsResult([1, 2, 2]) == 4 == Sum(Allocation([1, 2, 2]))
    ensures AllocateMinRewardsResult([3, 3, 3, 3]) == 4 == Sum(Allocation([3, 3, 3, 3]))
  {
    AllocationIs([1, 0, 2], [2, 1, 2]);
    assert SumTo([2, 1, 2], 3) == 5;
    AllocationIs([1, 2, 2], [1, 2, 1]);
    assert SumTo([1, 2, 1], 3) == 4;
    AllocationIs([3, 3, 3, 3], [1, 1, 1, 1]);
    assert SumTo([1, 1, 1, 1], 4) == 4;
  }

  /** The worked trace of the comment: {2,3,4,5,3,2,4} -> 15, the reference minimum. */
  lemma MinRewardsExampleTrace()
    ensures AllocateMinRewardsResult([2, 3, 4, 5, 3, 2, 4]) == 15 == Sum(Allocation([2, 3, 4, 5, 3, 2, 4]))
  {
    AllocationIs([2, 3, 4, 5, 3, 2, 4], [1, 2, 3, 4, 2, 1, 2]);
    assert SumTo([1, 2, 3, 4, 2, 1, 2], 7) == 15;
  }

  /** Row 3 of the driver, {4,3,2,0,1,5} -> 15: the least total is that of the rewards [4, 3, 2, 1, 2, 3]. */
  lemma Row3()
    ensures AllocateMinRewardsResult([4, 3, 2, 0, 1, 5]) == 15
  {
    ResultIsMinimum([4, 3, 2, 0, 1, 5]);
    AllocationIs([4, 3, 2, 0, 1, 5], [4, 3, 2, 1, 2, 3]);
    assert SumTo([4, 3, 2, 1, 2, 3], 6) == 15;
  }

  /** Row 4 of the driver, {5,1,0,2,3,4} -> 15: the least total is that of the rewards [3, 2, 1, 2, 3, 4]. */
  lemma Row4()
    ensures AllocateMinRewardsResult([5, 1, 0, 2, 3, 4]) == 15
  {
    ResultIsMinimum([5, 1, 0, 2, 3, 4]);
    AllocationIs([5, 1, 0, 2, 3, 4], [3, 2, 1, 2, 3, 4]);
    assert SumTo([3, 2, 1, 2, 3, 4], 6) == 15;
  }

  /** Row 6 of the driver, {2,4,2,4} -> 6: the least total is that of the rewards [1, 2, 1, 2]. */
  lemma Row6()
    ensures AllocateMinRewardsResult([2, 4, 2, 4]) == 6
  {
    ResultIsMinimum([2, 4, 2, 4]);
    AllocationIs([2, 4, 2, 4], [1, 2, 1, 2]);
    assert SumTo([1, 2, 1, 2], 4) == 6;
  }

  /** Row 7 of the driver, {2,4,2,4,2} -> 7: the least total is that of the rewards [1, 2, 1, 2, 1]. */
  lemma Row7()
    ensures AllocateMinRewardsResult([2, 4, 2, 4, 2]) == 7
  {
    ResultIsMinimum([2, 4, 2, 4, 2]);
    AllocationIs([2, 4, 2, 4, 2], [1, 2, 1, 2, 1]);
    assert SumTo([1, 2, 1, 2, 1], 5) == 7;
  }

  /** Row 8 of the driver, {4,2,4,2,4} -> 8: the least total is that of the rewards [2, 1, 2, 1, 2]. */
  lemma Row8()
    ensures AllocateMinRewardsResult([4, 2, 4, 2, 4]) == 8
  {
    ResultIsMinimum([4, 2, 4, 2, 4]);
    AllocationIs([4, 2, 4, 2, 4], [2, 1, 2, 1, 2]);
    assert SumTo([2, 1, 2, 1, 2], 5) == 8;
  }

  /** Row 9 of the driver, {4,2,4,2} -> 6: the least total is that of the rewards [2, 1, 2, 1]. */
  lemma Row9()
    ensures AllocateMinRewardsResult([4, 2, 4, 2]) == 6
  {
    ResultIsMinimum([4, 2, 4, 2]);
    AllocationIs([4, 2, 4, 2], [2, 1, 2, 1]);
    assert SumTo([2, 1, 2, 1], 4) == 6;
  }

  /** Row 10 of the driver, {1,3,2,2,1} -> 7: the least total is that of the rewards [1, 2, 1, 2, 1]. */
  lemma Row10()
    ensures AllocateMinRewardsResult([1, 3, 2, 2, 1]) == 7
  {
    ResultIsMinimum([1, 3, 2, 2, 1]);
    AllocationIs([1, 3, 2, 2, 1], [1, 2, 1, 2, 1]);
    assert SumTo([1, 2, 1, 2, 1], 5) == 7;
  }

  /** Row 11 of the driver, {1,6,10,8} -> 7: the least total is that of the rewards [1, 2, 3, 1]. */
  lemma Row11()
    ensures AllocateMinRewardsResult([1, 6, 10, 8]) == 7
  {
    ResultIsMinimum([1, 6, 10, 8]);
    AllocationIs([1, 6, 10, 8], [1, 2, 3, 1]);
    assert SumTo([1, 2, 3, 1], 4) == 7;
  }

  /** Row 12 of the driver, {1,6,10,8,7} -> 9: the least total is that of the rewards [1, 2, 3, 2, 1]. */
  lemma Row12()
    ensures AllocateMinRewardsResult([1, 6, 10, 8, 7]) == 9
  {
    ResultIsMinimum([1, 6, 10, 8, 7]);
    AllocationIs([1, 6, 10, 8, 7], [1, 2, 3, 2, 1]);
    assert SumTo([1, 2, 3, 2, 1], 5) == 9;
  }

  /** Row 13 of the driver, {1,6,10,8,7,3} -> 13: the least total is that of the rewards [1, 2, 4, 3, 2, 1]. */
  lemma Row13()
    ensures AllocateMinRewardsResult([1, 6, 10, 8, 7, 3]) == 13
  {
    ResultIsMinimum([1, 6, 10, 8, 7, 3]);
    AllocationIs([1, 6, 10, 8, 7, 3], [1, 2, 4, 3, 2, 1]);
    assert SumTo([1, 2, 4, 3, 2, 1], 6) == 13;
  }

  /** Row 14 of the driver, {1,6,10,8,7,3,2} -> 18: the least total is that of the rewards [1, 2, 5, 4, 3, 2, 1]. */
  lemma Row14()
    ensures AllocateMinRewardsResult([1, 6, 10, 8, 7, 3, 2]) == 18
  {
    ResultIsMinimum([1, 6, 10, 8, 7, 3, 2]);
    AllocationIs([1, 6, 10, 8, 7, 3, 2], [1, 2, 5, 4, 3, 2, 1]);
    assert SumTo([1, 2, 5, 4, 3, 2, 1], 7) == 18;
  }

  /** Row 15 of the driver, {3,2,1} -> 6: the least total is that of the rewards [3, 2, 1]. */
  lemma Row15()
    ensures AllocateMinRewardsResult([3, 2, 1]) == 6
  {
    ResultIsMinimum([3, 2, 1]);
    AllocationIs([3, 2, 1], [3, 2, 1]);
    assert SumTo([3, 2, 1], 3) == 6;
  }

  /** Row 16 of the driver, {1,2,3} -> 6: the least total is that of the rewards [1, 2, 3]. */
  lemma Row16()
    ensures AllocateMinRewardsResult([1, 2, 3]) == 6
  {
    ResultIsMinimum([1, 2, 3]);
    AllocationIs([1, 2, 3], [1, 2, 3]);
    assert SumTo([1, 2, 3], 3) == 6;
  }

  /** The ratings of row 17 of the driver. */
  function Row17Ratings(): seq<int>
  {
    [1, 2, 3, 5, 4, 3, 2, 1, 4, 3, 2, 1, 3, 2, 1, 1, 2, 3, 4]
  }

  /** The increasing runs of row 17, one index after the other. */
  lemma Row17Up()
    ensures forall i :: 0 <= i < 19 ==> UpRun(Row17Ratings(), i) == [1, 2, 3, 4, 1, 1, 1, 1, 2, 1, 1, 1, 2, 1, 1, 1, 2, 3, 4][i]
  {
    var r := Row17Ratings();
    assert UpRun(r, 0) == 1;
    assert UpRun(r, 1) == 2;
    assert UpRun(r, 2) == 3;
    assert UpRun(r, 3) == 4;
    assert UpRun(r, 4) == 1;
    assert UpRun(r, 5) == 1;
    assert UpRun(r, 6) == 1;
    assert UpRun(r, 7) == 1;
    assert UpRun(r, 8) == 2;
    assert UpRun(r, 9) == 1;
    assert UpRun(r, 10) == 1;
    assert UpRun(r, 11) == 1;
    assert UpRun(r, 12) == 2;
    assert UpRun(r, 13) == 1;
    assert UpRun(r, 14) == 1;
    assert UpRun(r, 15) == 1;
    assert UpRun(r, 16) == 2;
    assert UpRun(r, 17) == 3;
    assert UpRun(r, 18) == 4;
  }

  /** The decreasing runs of row 17, from the last index back. */
  lemma Row17Down()
    ensures forall i :: 0 <= i < 19 ==> DownRun(Row17Ratings(), i) == [1, 1, 1, 5, 4, 3, 2, 1, 4, 3, 2, 1, 3, 2, 1, 1, 1, 1, 1][i]
  {
    var r := Row17Ratings();
    assert DownRun(r, 18) == 1;
    assert DownRun(r, 17) == 1;
    assert DownRun(r, 16) == 1;
    assert DownRun(r, 15) == 1;
    assert DownRun(r, 14) == 1;
    assert DownRun(r, 13) == 2;
    assert DownRun(r, 12) == 3;
    assert DownRun(r, 11) == 1;
    assert DownRun(r, 10) == 2;
    assert DownRun(r, 9) == 3;
    assert DownRun(r, 8) == 4;
    assert DownRun(r, 7) == 1;
    assert DownRun(r, 6) == 2;
    assert DownRun(r, 5) == 3;
    assert DownRun(r, 4) == 4;
    assert DownRun(r, 3) == 5;
    assert DownRun(r, 2) == 1;
    assert DownRun(r, 1) == 1;
    assert DownRun(r, 0) == 1;
  }

  /** The rewards of row 17 add up to 47. */
  lemma Row17Sum()
    ensures SumTo([1, 2, 3, 5, 4, 3, 2, 1, 4, 3, 2, 1, 3, 2, 1, 1, 2, 3, 4], 19) == 47
  {
    var a := [1, 2, 3, 5, 4, 3, 2, 1, 4, 3, 2, 1, 3, 2, 1, 1, 2, 3, 4];
    assert SumTo(a, 1) == 1;
    assert SumTo(a, 2) == 3;
    assert SumTo(a, 3) == 6;
    assert SumTo(a, 4) == 11;
    assert SumTo(a, 5) == 15;
    assert SumTo(a, 6) == 18;
    assert SumTo(a, 7) == 20;
    assert SumTo(a, 8) == 21;
    assert SumTo(a, 9) == 25;
    assert SumTo(a, 10) == 28;
    assert SumTo(a, 11) == 30;
    assert SumTo(a, 12) == 31;
    assert SumTo(a, 13) == 34;
    assert SumTo(a, 14) == 36;
    assert SumTo(a, 15) == 37;
    assert SumTo(a, 16) == 38;
    assert SumTo(a, 17) == 40;
    assert SumTo(a, 18) == 43;
    assert SumTo(a, 19) == 47;
  }

  /** The reference allocation of row 17: the longer of the two runs of each individual. */
  lemma Row17Allocation()
    ensures Allocation(Row17Ratings()) == [1, 2, 3, 5, 4, 3, 2, 1, 4, 3, 2, 1, 3, 2, 1, 1, 2, 3, 4]
  {
    Row17Up();
    Row17Down();
  }

  /** Row 17 of the driver, {1,2,3,5,4,3,2,1,4,3,2,1,3,2,1,1,2,3,4} -> 47: each individual gets the longer of its runs. */
  lemma Row17()
    ensures AllocateMinRewardsResult([1, 2, 3, 5, 4, 3, 2, 1, 4, 3, 2, 1, 3, 2, 1, 1, 2, 3, 4]) == 47
  {
    ResultIsMinimum(Row17Ratings());
    Row17Allocation();
    Row17Sum();
  }
}
