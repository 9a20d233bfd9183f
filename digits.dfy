/**
 * Add one (src/math_digits.cc): a number held as its digits, most significant first,
 * and the digits of the next number, found by carrying from the least significant end.
 */
module Digits {
  function Pow10(n: nat): nat
  {
    if n == 0 then 1 else 10 * Pow10(n - 1)
  }

  /** The number the digits stand for, most significant digit first. */
  function Value(ds: seq<int>): int
  {
    if ds == [] then 0 else Value(ds[..|ds| - 1]) * 10 + ds[|ds| - 1]
  }

  /** n copies of the digit d. */
  function Repeat(d: int, n: nat): (r: seq<int>)
    ensures |r| == n && forall k :: 0 <= k < n ==> r[k] == d
  {
    if n == 0 then [] else Repeat(d, n - 1) + [d]
  }

  predicate AllNines(ds: seq<int>)
  {
    forall k :: 0 <= k < |ds| ==> ds[k] == 9
  }

  predicate IsDigits(ds: seq<int>)
  {
    forall k :: 0 <= k < |ds| ==> 0 <= ds[k] <= 9
  }

  /**
   * r is d with the digit at p, the last one that is not a 9, incremented, the nines
   * after it turned into zeros, and the digits before it unchanged.
   */
  predicate IncrementedAt(d: seq<int>, r: seq<int>, p: int)
  {
    |r| == |d| && 0 <= p < |d| && d[p] != 9 && r[p] == d[p] + 1
    && r[..p] == d[..p] && d[p + 1..] == Repeat(9, |d| - p - 1) && r[p + 1..] == Repeat(0, |d| - p - 1)
  }

  /** The digits of a concatenation: the first part shifted left by the length of the second. */
  lemma {:induction false} ValueConcat(a: seq<int>, b: seq<int>)
    ensures Value(a + b) == Value(a) * Pow10(|b|) + Value(b)
    decreases |b|
  {
    if b != [] {
      var b' := b[..|b| - 1];
      assert (a + b)[..|a + b| - 1] == a + b';
      ValueConcat(a, b');
      calc {
        Value(a + b);
        Value(a + b') * 10 + b[|b| - 1];
        (Value(a) * Pow10(|b'|) + Value(b')) * 10 + b[|b| - 1];
        Value(a) * (Pow10(|b'|) * 10) + (Value(b') * 10 + b[|b| - 1]);
        Value(a) * Pow10(|b|) + Value(b);
      }
    } else {
      assert a + b == a;
    }
  }

  /** A row of n nines stands for 10^n - 1. */
  lemma {:induction false} ValueNines(n: nat)
    ensures Value(Repeat(9, n)) == Pow10(n) - 1
  {
    if n > 0 {
      assert Repeat(9, n)[..n - 1] == Repeat(9, n - 1);
      ValueNines(n - 1);
    }
  }

  /** A row of zeros stands for 0. */
  lemma {:induction false} ValueZeros(n: nat)
    ensures Value(Repeat(0, n)) == 0
  {
    if n > 0 {
      assert Repeat(0, n)[..n - 1] == Repeat(0, n - 1);
      ValueZeros(n - 1);
    }
  }

  /** Appending a digit shifts the number left by one place. */
  lemma ValueSnoc(a: seq<int>, x: int)
    ensures Value(a + [x]) == Value(a) * 10 + x
  {
    assert (a + [x])[..|a|] == a;
  }

  /** The number split around one digit x: the digits a before it, x, and the digits b after it. */
  lemma SplitValue(a: seq<int>, x: int, b: seq<int>)
    ensures Value(a + [x] + b) == (Value(a) * 10 + x) * Pow10(|b|) + Value(b)
  {
    var front := a + [x];
    ValueConcat(front, b);
    ValueSnoc(a, x);
    var u, pw := Value(front), Pow10(|b|);
    assert Value(front + b) == u * pw + Value(b);
    assert u == Value(a) * 10 + x;
  }

  /** One more of pw, added to u copies of it. */
  lemma AddOnce(u: int, pw: int)
    ensures (u + 1) * pw == u * pw + pw
  {
  }

  /** Incrementing the last digit that is not a 9 adds one to the number. */
  lemma IncrementedValue(d: seq<int>, r: seq<int>, p: int)
    requires IncrementedAt(d, r, p)
    ensures Value(r) == Value(d) + 1
  {
    var t, front := |d| - p - 1, d[..p];
    var nines, zeros := Repeat(9, t), Repeat(0, t);
    assert d == front + [d[p]] + nines;
    assert r == front + [d[p] + 1] + zeros;
    SplitValue(front, d[p], nines);
    SplitValue(front, d[p] + 1, zeros);
    ValueNines(t);
    ValueZeros(t);
    var u, pw := Value(front) * 10 + d[p], Pow10(t);
    assert Value(d) == u * pw + (pw - 1);
    assert Value(r) == (u + 1) * pw;
    AddOnce(u, pw);
  }

  /** A leading 1 and n zeros stand for one more than n nines. */
  lemma CarryOutValue(n: nat)
    ensures Value([1] + Repeat(0, n)) == Value(Repeat(9, n)) + 1
  {
    ValueConcat([1], Repeat(0, n));
    assert [1][..0] == [];
    ValueNines(n);
    ValueZeros(n);
  }

  /** Adding one to digits keeps them digits. */
  lemma IncrementedDigits(d: seq<int>, r: seq<int>, p: int)
    requires IsDigits(d) && IncrementedAt(d, r, p)
    ensures IsDigits(r)
  {
    forall k | 0 <= k < |r|
      ensures 0 <= r[k] <= 9
    {
      if k < p {
        assert r[k] == r[..p][k];
      } else if k > p {
        assert r[k] == r[p + 1..][k - p - 1];
      }
    }
  }

  /** What add_one returns for digits. */
  ghost predicate AddedOne(digits: seq<int>, r: seq<int>)
  {
    if digits == [] then r == []
    else if AllNines(digits) then r == [1] + Repeat(0, |digits|)
    else exists p :: IncrementedAt(digits, r, p)
  }

  /** The result of add_one stands for one more than its input, unless the input is empty. */
  lemma AddedOneValue(digits: seq<int>, r: seq<int>)
    requires AddedOne(digits, r) && digits != []
    ensures Value(r) == Value(digits) + 1
    ensures |r| == |digits| + 1 <==> AllNines(digits)
  {
    if AllNines(digits) {
      assert digits == Repeat(9, |digits|);
      CarryOutValue(|digits|);
    } else {
      var p :| IncrementedAt(digits, r, p);
      IncrementedValue(digits, r, p);
    }
  }

  /** math_digits add_one. */
  method AddOne(digits: seq<int>) returns (r: seq<int>)
    ensures AddedOne(digits, r)
    ensures digits != [] ==> Value(r) == Value(digits) + 1
  {
    if |digits| == 0 {
      return [];
    }
    r := digits;
    var i := |r|;
    while i > 0
      invariant 1 <= i <= |digits| && |r| == |digits|
      invariant r[..i] == digits[..i]
      invariant digits[i..] == Repeat(9, |digits| - i)
      invariant r[i..] == Repeat(0, |digits| - i)
    {
      var index := i - 1;
      if r[index] != 9 {
        r := r[index := r[index] + 1];
        assert IncrementedAt(digits, r, index) by {
          assert r[..index] == digits[..index];
          assert digits[index + 1..] == digits[i..];
        }
        IncrementedValue(digits, r, index);
        return r;
      }
      r := r[index := 0];
      if index == 0 {
        assert digits == Repeat(9, |digits|) by {
          assert digits == [digits[0]] + digits[1..];
        }
        r := [1] + r;
        assert r[1..] == Repeat(0, |digits|);
        CarryOutValue(|digits|);
        return r;
      }
      assert digits[index..] == [digits[index]] + digits[i..];
      assert r[index..] == [0] + r[i..];
      i := i - 1;
    }
    assert false;
  }

  /** At most one digit position is the last one that is not a 9, so the result is unique. */
  lemma IncrementedUnique(d: seq<int>, r: seq<int>, s: seq<int>, p: int, q: int)
    requires IncrementedAt(d, r, p) && IncrementedAt(d, s, q)
    ensures p == q && r == s
  {
    assert p == q;
    assert r == r[..p] + [r[p]] + r[p + 1..];
    assert s == s[..p] + [s[p]] + s[p + 1..];
  }

  /** At most one vector is what add_one returns for given digits. */
  lemma AddedOneUnique(digits: seq<int>, r: seq<int>, s: seq<int>)
    requires AddedOne(digits, r) && AddedOne(digits, s)
    ensures r == s
  {
    if digits != [] && !AllNines(digits) {
      var p :| IncrementedAt(digits, r, p);
      var q :| IncrementedAt(digits, s, q);
      IncrementedUnique(digits, r, s, p, q);
    }
  }

  /** The table rows that increment the last digit. */
  lemma AddOneLastExamples(r1: seq<int>, r2: seq<int>)
    requires AddedOne([1, 2, 3, 4], r1) && AddedOne([0, 0], r2)
    ensures r1 == [1, 2, 3, 5] && r2 == [0, 1]
  {
    assert IncrementedAt([1, 2, 3, 4], [1, 2, 3, 5], 3);
    AddedOneUnique([1, 2, 3, 4], r1, [1, 2, 3, 5]);
    assert IncrementedAt([0, 0], [0, 1], 1);
    AddedOneUnique([0, 0], r2, [0, 1]);
  }

  /** The table rows that increment a single digit, or carry once. */
  lemma AddOneSingleExamples(r1: seq<int>, r2: seq<int>)
    requires AddedOne([0], r1) && AddedOne([0, 0, 1, 9], r2)
    ensures r1 == [1] && r2 == [0, 0, 2, 0]
  {
    assert IncrementedAt([0], [1], 0);
    AddedOneUnique([0], r1, [1]);
    assert IncrementedAt([0, 0, 1, 9], [0, 0, 2, 0], 2);
    AddedOneUnique([0, 0, 1, 9], r2, [0, 0, 2, 0]);
  }

  /** The table rows that carry: into an earlier digit, or out of the front. */
  lemma AddOneCarryExamples(r1: seq<int>, r2: seq<int>, r3: seq<int>, r4: seq<int>)
    requires AddedOne([], r1) && AddedOne([9], r2) && AddedOne([1, 9, 9], r3) && AddedOne([9, 9, 9], r4)
    ensures r1 == [] && r2 == [1, 0] && r3 == [2, 0, 0] && r4 == [1, 0, 0, 0]
  {
    assert IncrementedAt([1, 9, 9], [2, 0, 0], 0);
    AddedOneUnique([1, 9, 9], r3, [2, 0, 0]);
  }
}
