/**
 * Happy numbers (src/hashmap_happy_number.cc): a number is happy when repeatedly replacing
 * it by the sum of the squares of its decimal digits reaches 1.
 */
module HappyNumber {
  /** The range of a C++ int. */
  predicate IsInt(n: int)
  {
    -0x8000_0000 <= n < 0x8000_0000
  }

  /** C++ n / 10, truncating toward zero. */
  function CDiv10(n: int): int
  {
    if n >= 0 then n / 10 else -((-n) / 10)
  }

  /** C++ n % 10, which takes the sign of n. */
  function CRem10(n: int): int
  {
    if n >= 0 then n % 10 else -((-n) % 10)
  }

  /** The sum of the squares of the decimal digits of n, digits taken with C++ division. */
  function SquareSum(n: int): (r: int)
    ensures r >= 0
    decreases if n >= 0 then n else -n
  {
    if n == 0 then 0 else CRem10(n) * CRem10(n) + SquareSum(CDiv10(n))
  }

  /** The number reached from n after k steps. */
  function Iterate(n: int, k: nat): int
  {
    if k == 0 then n else SquareSum(Iterate(n, k - 1))
  }

  /** n is happy: some number of steps reaches 1. */
  ghost predicate Happy(n: int)
  {
    exists k: nat :: Iterate(n, k) == 1
  }

  /** A number with at most d digits has a square sum of at most 81 d. */
  lemma {:induction false} SquareSumBound(n: int, d: nat)
    requires -Pow10(d) < n < Pow10(d)
    ensures SquareSum(n) <= 81 * d
    decreases d
  {
    if n != 0 {
      var r := CRem10(n);
      assert -9 <= r <= 9;
      assert r * r <= 81;
      assert d > 0;
      assert -Pow10(d - 1) < CDiv10(n) < Pow10(d - 1);
      SquareSumBound(CDiv10(n), d - 1);
    }
  }

  /** 10 to the power d. */
  function Pow10(d: nat): (p: int)
    ensures p >= 1
  {
    if d == 0 then 1 else 10 * Pow10(d - 1)
  }

  /** After one step an int is below 1000, and a number below 1000 steps to one below 1000. */
  lemma StepBound(n: int)
    requires IsInt(n) || 0 <= n < 1000
    ensures 0 <= SquareSum(n) < 1000
  {
    if 0 <= n < 1000 {
      SquareSumBound(n, 3);
    } else {
      SquareSumBound(n, 10);
    }
  }

  /** Steps compose. */
  lemma {:induction false} IterateAdd(n: int, a: nat, b: nat)
    ensures Iterate(n, a + b) == Iterate(Iterate(n, a), b)
  {
    if b > 0 {
      IterateAdd(n, a, b - 1);
    }
  }

  /**
   * A number that comes back without 1 having been reached cycles for ever: no number of
   * steps reaches 1.
   */
  lemma {:induction false} Cycle(n: int, first: nat, again: nat, k: nat)
    requires first < again && Iterate(n, first) == Iterate(n, again)
    requires forall t: nat :: t < again ==> Iterate(n, t) != 1
    ensures Iterate(n, k) != 1
    decreases k
  {
    if k >= again {
      var back := first + (k - again);
      calc {
        Iterate(n, k);
        { IterateAdd(n, again, k - again); }
        Iterate(Iterate(n, again), k - again);
        { IterateAdd(n, first, k - again); }
        Iterate(n, back);
      }
      Cycle(n, first, again, back);
    }
  }

  /** The inner loop of is_happy: peel off the last digit, square it and add it up. */
  method SumOfSquares(n: int) returns (sum: int)
    ensures sum == SquareSum(n)
  {
    var m := n;
    sum := 0;
    while m != 0
      invariant sum + SquareSum(m) == SquareSum(n)
      decreases if m >= 0 then m else -m
    {
      var factor := CRem10(m);
      m := CDiv10(m);
      sum := sum + factor * factor;
    }
  }

  /** The numbers below 1000 not yet visited. */
  function Unvisited(visited: set<int>): set<int>
  {
    set x | 0 <= x < 1000 && x !in visited
  }

  /** Visiting x takes it off the numbers below 1000 still unvisited. */
  lemma UnvisitedAdd(visited: set<int>, x: int)
    ensures Unvisited(visited + {x}) == Unvisited(visited) - {x}
    ensures !(0 <= x < 1000) ==> Unvisited(visited + {x}) == Unvisited(visited)
    ensures 0 <= x < 1000 && x !in visited ==> x in Unvisited(visited)
  {
  }

  /** hashmap_happy_number is_happy. */
  method IsHappy(n: int) returns (r: bool)
    requires IsInt(n)
    ensures r <==> Happy(n)
  {
    var visited: set<int> := {};
    var cur := n;
    ghost var steps: nat := 0;
    while cur != 1
      invariant cur == Iterate(n, steps) && (IsInt(cur) || 0 <= cur < 1000)
      invariant forall x :: x in visited <==> exists t: nat :: t < steps && Iterate(n, t) == x
      invariant forall t: nat :: t < steps ==> Iterate(n, t) != 1
      invariant steps > 0 ==> 0 <= cur < 1000
      decreases Unvisited(visited), if 0 <= cur < 1000 then 0 else 1
    {
      if cur in visited {
        ghost var first: nat :| first < steps && Iterate(n, first) == cur;
        forall k: nat
          ensures Iterate(n, k) != 1
        {
          Cycle(n, first, steps, k);
        }
        return false;
      }
      ghost var before := visited;
      UnvisitedAdd(visited, cur);
      visited := visited + {cur};
      StepBound(cur);
      cur := SumOfSquares(cur);
      steps := steps + 1;
      forall x
        ensures x in visited <==> exists t: nat :: t < steps && Iterate(n, t) == x
      {
        if x in visited && x !in before {
          assert Iterate(n, steps - 1) == x;
        }
      }
    }
    return true;
  }

  /** Once at 1, a number stays at 1. */
  lemma {:induction false} OneStays(n: int, k: nat, j: nat)
    requires Iterate(n, k) == 1 && k <= j
    ensures Iterate(n, j) == 1
    decreases j - k
  {
    if k < j {
      OneStays(n, k, j - 1);
    }
  }

  /** The table row for 19: 82, 68, 100, then 1. */
  lemma NineteenIsHappy()
    ensures Happy(19)
  {
    assert SquareSum(19) == 82 && SquareSum(82) == 68;
    assert SquareSum(68) == 100 && SquareSum(100) == 1;
    assert Iterate(19, 4) == 1;
  }

  /** The table row for 2: 4, 16, 37, 58, 89, 145, 42, 20, then 4 again. */
  lemma TwoIsNotHappy()
    ensures !Happy(2)
  {
    assert SquareSum(2) == 4 && SquareSum(4) == 16 && SquareSum(16) == 37;
    assert SquareSum(37) == 58 && SquareSum(58) == 89 && SquareSum(89) == 145;
    assert SquareSum(145) == 42 && SquareSum(42) == 20 && SquareSum(20) == 4;
    assert Iterate(2, 1) == 4 && Iterate(2, 9) == 4;
    forall k: nat
      ensures Iterate(2, k) != 1
    {
      Cycle(2, 1, 9, k);
    }
  }
}
