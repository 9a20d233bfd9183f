/**
 * Gas station circuit (src/array_gas_stations.cc): station i offers gas[i] and the
 * road to the next station costs cost[i]; find the first station from which a full
 * clockwise loop never lets the tank go negative.
 */
module GasStations {
  /** The station reached `x` steps past station 0 of a circuit of n, for x < 2n. */
  function Wrap(x: nat, n: nat): (i: nat)
    requires x < 2 * n
    ensures i < n
  {
    if x < n then x else x - n
  }

  /** The tank after k legs starting at station s with an empty tank. */
  function Tank(gas: seq<int>, cost: seq<int>, s: nat, k: nat): int
    requires |gas| == |cost| && s < |gas| && k <= |gas|
  {
    if k == 0 then 0
    else
      var i := Wrap(s + k - 1, |gas|);
      Tank(gas, cost, s, k - 1) + gas[i] - cost[i]
  }

  /** After each of the first k legs from s the tank is non-negative. */
  function TankNeverNegative(gas: seq<int>, cost: seq<int>, s: nat, k: nat): bool
    requires |gas| == |cost| && s < |gas| && k <= |gas|
  {
    k == 0 || (TankNeverNegative(gas, cost, s, k - 1) && Tank(gas, cost, s, k) >= 0)
  }

  /** The loop from s completes: the tank stays non-negative over all |gas| legs. */
  predicate Completes(gas: seq<int>, cost: seq<int>, s: nat)
    requires |gas| == |cost| && s < |gas|
  {
    TankNeverNegative(gas, cost, s, |gas|)
  }

  /** A tank that never went negative over k legs was non-negative after each of them. */
  lemma {:induction false} NeverNegativeAt(gas: seq<int>, cost: seq<int>, s: nat, k: nat, j: nat)
    requires |gas| == |cost| && s < |gas| && k <= |gas|
    requires TankNeverNegative(gas, cost, s, k) && 1 <= j <= k
    ensures Tank(gas, cost, s, j) >= 0
  {
    if j < k {
      NeverNegativeAt(gas, cost, s, k - 1, j);
    }
  }

  /** Conversely, a tank non-negative after each of the first k legs never went negative. */
  lemma {:induction false} NeverNegativeFromAll(gas: seq<int>, cost: seq<int>, s: nat, k: nat)
    requires |gas| == |cost| && s < |gas| && k <= |gas|
    requires forall j :: 1 <= j <= k ==> Tank(gas, cost, s, j) >= 0
    ensures TankNeverNegative(gas, cost, s, k)
  {
    if k > 0 {
      NeverNegativeFromAll(gas, cost, s, k - 1);
    }
  }

  /** The first station at or after s from which the loop completes, or -1. */
  function FirstCompleting(gas: seq<int>, cost: seq<int>, s: nat): (r: int)
    requires |gas| == |cost|
    ensures r == -1 <==> forall i :: s <= i < |gas| ==> !Completes(gas, cost, i)
    ensures r != -1 ==> s <= r < |gas| && Completes(gas, cost, r)
    ensures r != -1 ==> forall i :: s <= i < r ==> !Completes(gas, cost, i)
    decreases |gas| - s
  {
    if s >= |gas| then -1
    else if Completes(gas, cost, s) then s
    else FirstCompleting(gas, cost, s + 1)
  }

  /**
   * get_next_potential_starting_station: the first station at or after `start` whose
   * gas covers its cost, or -1. A negative start converts to a huge size_t in the loop
   * test, so it yields -1 as well.
   */
  method NextPotentialStart(gas: seq<int>, cost: seq<int>, start: int) returns (r: int)
    requires |gas| == |cost|
    ensures start < 0 ==> r == -1
    ensures r != -1 ==> 0 <= start <= r < |gas| && gas[r] >= cost[r]
    ensures start >= 0 ==> forall i :: start <= i < |gas| && (r == -1 || i < r) ==> gas[i] < cost[i]
  {
    var startingStation := start;
    while 0 <= startingStation < |gas|
      invariant start <= startingStation
      invariant start < 0 ==> startingStation == start
      invariant start >= 0 ==> forall i :: start <= i < startingStation && i < |gas| ==> gas[i] < cost[i]
      decreases |gas| - startingStation
    {
      if gas[startingStation] >= cost[startingStation] {
        return startingStation;
      }
      startingStation := startingStation + 1;
    }
    return -1;
  }

  /** `(x + 1) % n` for a station index x: the next station round the circuit. */
  lemma NextStation(x: nat, n: nat)
    requires x < n
    ensures (x + 1) % n == Wrap(x + 1, n) % n && Wrap(x + 1, n) % n == (if x + 1 < n then x + 1 else 0)
  {
  }

  /**
   * can_complete_circuit(start): drive leg by leg from `start`, refuelling and paying
   * each leg, until the tank goes negative or the loop is back at `start`.
   */
  method CanCompleteFrom(gas: seq<int>, cost: seq<int>, start: nat) returns (ok: bool)
    requires |gas| == |cost| && start < |gas|
    ensures ok == Completes(gas, cost, start)
  {
    var n := |gas|;
    var currentTank := 0;
    var currentStation := start;
    ghost var legs := 0;
    while true
      invariant 0 <= legs < n
      invariant currentStation == Wrap(start + legs, n)
      invariant currentTank == Tank(gas, cost, start, legs)
      invariant TankNeverNegative(gas, cost, start, legs)
      decreases n - legs
    {
      currentTank := currentTank + gas[currentStation];
      currentTank := currentTank - cost[currentStation];
      legs := legs + 1;
      assert currentTank == Tank(gas, cost, start, legs);
      if currentTank < 0 {
        if Completes(gas, cost, start) {
          NeverNegativeAt(gas, cost, start, n, legs);
        }
        return false;
      }
      NextStation(currentStation, n);
      currentStation := (currentStation + 1) % n;
      if currentStation == start {
        assert legs == n;
        return true;
      }
    }
  }

  /** A station whose gas does not cover its cost cannot start a loop. */
  lemma ShortStationFails(gas: seq<int>, cost: seq<int>, s: nat)
    requires |gas| == |cost| && s < |gas| && gas[s] < cost[s]
    ensures !Completes(gas, cost, s)
  {
    if Completes(gas, cost, s) {
      NeverNegativeAt(gas, cost, s, |gas|, 1);
    }
  }

  /** Skipping stations that cannot complete does not change the first completing one. */
  lemma {:induction false} SkipFailing(gas: seq<int>, cost: seq<int>, a: nat, b: nat)
    requires |gas| == |cost| && a <= b
    requires forall i :: a <= i < b && i < |gas| ==> !Completes(gas, cost, i)
    ensures FirstCompleting(gas, cost, a) == FirstCompleting(gas, cost, b) || (b > |gas| && FirstCompleting(gas, cost, a) == -1)
    decreases b - a
  {
    if a < b && a < |gas| {
      SkipFailing(gas, cost, a + 1, b);
    }
  }

  /**
   * can_complete_circuit: try each potential starting station in increasing order and
   * return the first one whose loop completes, or -1.
   */
  method CanCompleteCircuit(gas: seq<int>, cost: seq<int>) returns (r: int)
    requires |gas| == |cost|
    ensures r == FirstCompleting(gas, cost, 0)
  {
    var startingStation := NextPotentialStart(gas, cost, 0);
    SkipUpTo(gas, cost, 0, startingStation);
    while startingStation != -1
      invariant startingStation == -1 || 0 <= startingStation < |gas|
      invariant FirstCompleting(gas, cost, 0) == if startingStation == -1 then -1 else FirstCompleting(gas, cost, startingStation)
      decreases if startingStation == -1 then 0 else |gas| + 1 - startingStation
    {
      var ok := CanCompleteFrom(gas, cost, startingStation);
      if ok {
        return startingStation;
      }
      var next := NextPotentialStart(gas, cost, startingStation + 1);
      SkipUpTo(gas, cost, startingStation + 1, next);
      startingStation := next;
    }
    return -1;
  }

  /** What a call of NextPotentialStart from `from` means for FirstCompleting. */
  lemma SkipUpTo(gas: seq<int>, cost: seq<int>, from: nat, next: int)
    requires |gas| == |cost|
    requires next != -1 ==> from <= next < |gas|
    requires forall i :: from <= i < |gas| && (next == -1 || i < next) ==> gas[i] < cost[i]
    ensures FirstCompleting(gas, cost, from) == if next == -1 then -1 else FirstCompleting(gas, cost, next)
  {
    var stop: nat := if next == -1 then |gas| else next;
    forall i | from <= i < stop && i < |gas|
      ensures !Completes(gas, cost, i)
    {
      ShortStationFails(gas, cost, i);
    }
    if from <= stop {
      SkipFailing(gas, cost, from, stop);
    }
  }

  /** The net gain gas[i] - cost[i] summed over the stations lo <= i < hi. */
  function Net(gas: seq<int>, cost: seq<int>, lo: nat, hi: nat): int
    requires |gas| == |cost| && lo <= hi <= |gas|
    decreases hi - lo
  {
    if lo == hi then 0 else Net(gas, cost, lo, hi - 1) + gas[hi - 1] - cost[hi - 1]
  }

  /** Net gains over adjacent ranges add up. */
  lemma {:induction false} NetSplit(gas: seq<int>, cost: seq<int>, lo: nat, mid: nat, hi: nat)
    requires |gas| == |cost| && lo <= mid <= hi <= |gas|
    ensures Net(gas, cost, lo, hi) == Net(gas, cost, lo, mid) + Net(gas, cost, mid, hi)
    decreases hi - mid
  {
    if mid < hi {
      NetSplit(gas, cost, lo, mid, hi - 1);
    }
  }

  /** The tank after k legs from s is the net gain of the stations passed, wrapping round once. */
  lemma {:induction false} TankIsNet(gas: seq<int>, cost: seq<int>, s: nat, k: nat)
    requires |gas| == |cost| && s < |gas| && k <= |gas|
    ensures s + k <= |gas| ==> Tank(gas, cost, s, k) == Net(gas, cost, s, s + k)
    ensures s + k > |gas| ==> Tank(gas, cost, s, k) == Net(gas, cost, s, |gas|) + Net(gas, cost, 0, s + k - |gas|)
  {
    if k > 0 {
      TankIsNet(gas, cost, s, k - 1);
    }
  }

  /** Whatever the start, the tank after the full loop is the total gas minus the total cost. */
  lemma FullLoopTank(gas: seq<int>, cost: seq<int>, s: nat)
    requires |gas| == |cost| && s < |gas|
    ensures Tank(gas, cost, s, |gas|) == Net(gas, cost, 0, |gas|)
  {
    TankIsNet(gas, cost, s, |gas|);
    NetSplit(gas, cost, 0, s, |gas|);
  }

  /** When the stations offer less gas in total than the loop costs, no station can start it. */
  lemma ShortfallMeansNoCircuit(gas: seq<int>, cost: seq<int>)
    requires |gas| == |cost| && Net(gas, cost, 0, |gas|) < 0
    ensures FirstCompleting(gas, cost, 0) == -1
  {
    forall s | 0 <= s < |gas|
      ensures !Completes(gas, cost, s)
    {
      FullLoopTank(gas, cost, s);
    }
  }

  /** The first row of the test table. */
  lemma GasStationExample1()
    ensures FirstCompleting([1, 2, 3, 4, 5], [3, 4, 5, 1, 2], 0) == 3
  {
  }

  /** The second row of the test table. */
  lemma GasStationExample2()
    ensures FirstCompleting([2, 3, 4], [3, 4, 3], 0) == -1
  {
  }

  /** The third row of the test table. */
  lemma GasStationExample3()
    ensures FirstCompleting([5, 1, 2, 3, 4], [4, 4, 1, 5, 1], 0) == 4
  {
  }

  /** The last two rows of the test table. */
  lemma GasStationExamples4And5()
    ensures FirstCompleting([2], [2], 0) == 0
    ensures FirstCompleting([2, 3], [2, 3], 0) == 0
  {
  }
}
