/**
 * Distributing chickens (src/math_make_change.cc): an order of chickens packed into
 * boxes of 12 (L), 6 (M) and 3 (S), with as few extra chickens as possible and then
 * as few boxes as possible.
 */
module MakeChange {
  /** C++ integer division, which truncates toward zero. */
  function CDiv(a: int, b: int): int
    requires b > 0
  {
    if a >= 0 then a / b else -((-a) / b)
  }

  /** C++ remainder, which takes the sign of the dividend. */
  function CRem(a: int, b: int): int
    requires b > 0
  {
    if a >= 0 then a % b else -((-a) % b)
  }

  /** The chickens in l large, m medium and s small boxes. */
  function Chickens(l: int, m: int, s: int): int
  {
    12 * l + 6 * m + 3 * s
  }

  /** The count after the first step of distribute: rounded up to a multiple of three. */
  function RoundedUp(count: int): int
  {
    count + CRem(3 - CRem(count, 3), 3)
  }

  /** For an order that is not negative, the rounding gives the least multiple of three not below it. */
  lemma RoundedUpLeast(count: int)
    requires count >= 0
    ensures RoundedUp(count) % 3 == 0 && count <= RoundedUp(count) < count + 3
  {
  }

  /**
   * The fewest boxes holding the least number of chickens not below the order: of the
   * t small-box units, as many groups of four as fit go in large boxes, a pair left over
   * in a medium box and a single unit in a small box.
   */
  function Fewest(count: int): (r: seq<int>)
    requires count >= 0
    ensures |r| == 3 && 0 <= r[0] && 0 <= r[1] <= 1 && 0 <= r[2] <= 1
  {
    var t := (count + 2) / 3;
    [t / 4, (t % 4) / 2, t % 2]
  }

  /**
   * Every packing in whole boxes that covers the order holds at least as many chickens as
   * the fewest-boxes packing, and when it holds exactly as many, uses at least as many boxes.
   */
  lemma FewestIsBest(count: int, l: int, m: int, s: int)
    requires count >= 0 && 0 <= l && 0 <= m && 0 <= s && Chickens(l, m, s) >= count
    ensures Chickens(l, m, s) >= Chickens(Fewest(count)[0], Fewest(count)[1], Fewest(count)[2])
    ensures Chickens(l, m, s) == Chickens(Fewest(count)[0], Fewest(count)[1], Fewest(count)[2])
      ==> l + m + s >= Fewest(count)[0] + Fewest(count)[1] + Fewest(count)[2]
  {
    var t := (count + 2) / 3;
    var u := 4 * l + 2 * m + s;
    assert Chickens(l, m, s) == 3 * u;
    assert 3 * u >= count;
    assert u >= t;
    var f := Fewest(count);
    assert 4 * f[0] + 2 * f[1] + f[2] == t;
    if u == t {
      assert l <= t / 4;
    }
  }

  /** The packing is unique: no other packing with as few chickens has as few boxes. */
  lemma FewestUnique(count: int, l: int, m: int, s: int)
    requires count >= 0 && 0 <= l && 0 <= m && 0 <= s
    requires Chickens(l, m, s) == Chickens(Fewest(count)[0], Fewest(count)[1], Fewest(count)[2])
    requires l + m + s == Fewest(count)[0] + Fewest(count)[1] + Fewest(count)[2]
    ensures [l, m, s] == Fewest(count)
  {
    var t := (count + 2) / 3;
    assert 4 * l + 2 * m + s == t;
    assert l <= t / 4;
  }

  /** A count that is not negative rounds up to three times the units of Fewest. */
  lemma RoundedUpUnits(count: int)
    ensures count >= 0 ==> RoundedUp(count) == 3 * ((count + 2) / 3)
  {
  }

  /** Any count, negative ones too, rounds to a multiple of three. */
  lemma RoundedUpMultiple(count: int)
    ensures RoundedUp(count) % 3 == 0
  {
  }

  /** Truncating division is symmetric around zero. */
  lemma CDivNegate(a: int, b: int)
    requires b > 0
    ensures CDiv(-a, b) == -CDiv(a, b)
  {
  }

  /** Taking large, then medium, then small boxes from 3t chickens gives Fewest's counts. */
  lemma GreedySteps(n: int, t: int)
    requires t >= 0 && n == 3 * t
    ensures CDiv(n, 12) == t / 4
    ensures CDiv(n - 12 * (t / 4), 6) == (t % 4) / 2
    ensures CDiv(n - 12 * (t / 4) - 6 * ((t % 4) / 2), 3) == t % 2
    ensures Chickens(t / 4, (t % 4) / 2, t % 2) == n
  {
    var q, r := t / 4, t % 4;
    assert t == 4 * q + r && 0 <= r < 4;
    assert n == 12 * q + 3 * r;
    DivUnique(n, 12, q, 3 * r);
    var n1 := n - 12 * q;
    assert n1 == 3 * r;
    if r < 2 {
      DivUnique(n1, 6, 0, n1);
      DivUnique(n1, 3, r, 0);
    } else {
      DivUnique(n1, 6, 1, n1 - 6);
      DivUnique(n1 - 6, 3, r - 2, 0);
    }
    assert t % 2 == r % 2 by {
      DivUnique(t, 2, 2 * q + r / 2, r % 2);
    }
  }

  /** Euclidean division is pinned down by any quotient and remainder that fit. */
  lemma DivUnique(a: int, b: int, q: int, r: int)
    requires b > 0 && a == b * q + r && 0 <= r < b
    ensures a / b == q && a % b == r
  {
    var d := q - a / b;
    assert b * d == a % b - r by {
      assert a == b * (a / b) + a % b;
      assert b * q == b * (a / b) + b * d;
    }
  }

  /** The three steps of distribute use up any multiple of three exactly, negative ones too. */
  lemma StepsUseUp(n: int)
    requires n % 3 == 0
    ensures var l := CDiv(n, 12); var m := CDiv(n - 12 * l, 6); Chickens(l, m, CDiv(n - 12 * l - 6 * m, 3)) == n
  {
    var a := if n >= 0 then n else -n;
    GreedySteps(a, a / 3);
    if n < 0 {
      var l := CDiv(a, 12);
      CDivNegate(a, 12);
      var m := CDiv(a - 12 * l, 6);
      CDivNegate(a - 12 * l, 6);
      assert n - 12 * -l == -(a - 12 * l);
      CDivNegate(a - 12 * l - 6 * m, 3);
      assert n - 12 * -l - 6 * -m == -(a - 12 * l - 6 * m);
    }
  }

  /** math_make_change distribute: the numbers of L, M and S boxes. */
  method Distribute(count: int) returns (boxes: seq<int>)
    ensures |boxes| == 3
    ensures Chickens(boxes[0], boxes[1], boxes[2]) == RoundedUp(count)
    ensures count >= 0 ==> boxes == Fewest(count)
  {
    var n := count;
    n := n + CRem(3 - CRem(n, 3), 3);
    ghost var rounded := n;
    boxes := [];

    var cur := CDiv(n, 12);
    boxes := boxes + [cur];
    n := n - cur * 12;

    cur := CDiv(n, 6);
    boxes := boxes + [cur];
    n := n - cur * 6;

    cur := CDiv(n, 3);
    boxes := boxes + [cur];
    n := n - cur * 3;

    RoundedUpMultiple(count);
    StepsUseUp(rounded);
    if count >= 0 {
      RoundedUpUnits(count);
      GreedySteps(rounded, (count + 2) / 3);
    }
  }

  /** The table rows from 29 down to 7. */
  lemma DistributeExamplesLarge()
    ensures Fewest(29) == [2, 1, 0] && Fewest(13) == [1, 0, 1]
    ensures Fewest(12) == [1, 0, 0] && Fewest(11) == [1, 0, 0] && Fewest(10) == [1, 0, 0]
    ensures Fewest(9) == [0, 1, 1] && Fewest(8) == [0, 1, 1] && Fewest(7) == [0, 1, 1]
  {
  }

  /** The table rows from 6 down to 1. */
  lemma DistributeExamplesSmall()
    ensures Fewest(6) == [0, 1, 0] && Fewest(5) == [0, 1, 0] && Fewest(4) == [0, 1, 0]
    ensures Fewest(3) == [0, 0, 1] && Fewest(2) == [0, 0, 1] && Fewest(1) == [0, 0, 1]
  {
  }
}
