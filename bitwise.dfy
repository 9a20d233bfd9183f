/**
 * Bitwise operations (src/bitwise_ops.cc): adding two binary numerals held as strings.
 */
module Bitwise {
  function Max(a: int, b: int): int
  {
    if a < b then b else a
  }

  function Pow2(n: nat): nat
    ensures Pow2(n) >= 1
  {
    if n == 0 then 1 else 2 * Pow2(n - 1)
  }

  /**
   * The number a binary numeral stands for, most significant character first; a '1' counts
   * as one and any other character as zero.
   */
  function BinValue(s: string): nat
  {
    if s == [] then 0 else (if s[0] == '1' then Pow2(|s| - 1) else 0) + BinValue(s[1..])
  }

  predicate IsBinary(s: string)
  {
    forall c :: c in s ==> c == '0' || c == '1'
  }

  /** The last j characters of s, or all of s when it is shorter. */
  function Suffix(s: string, j: nat): string
  {
    if j >= |s| then s else s[|s| - j..]
  }

  lemma {:induction false} Pow2Monotone(m: nat, n: nat)
    requires m <= n
    ensures Pow2(m) <= Pow2(n)
    decreases n
  {
    if m < n {
      Pow2Monotone(m, n - 1);
    }
  }

  /** A character in front of a numeral adds its weight at the numeral's length. */
  lemma BinValuePrepend(c: char, s: string)
    ensures BinValue([c] + s) == (if c == '1' then Pow2(|s|) else 0) + BinValue(s)
  {
    assert ([c] + s)[1..] == s;
  }

  /** A numeral of n characters stands for less than 2^n. */
  lemma {:induction false} BinValueBound(s: string)
    ensures BinValue(s) < Pow2(|s|)
    decreases |s|
  {
    if s != [] {
      BinValueBound(s[1..]);
    }
  }

  /** Taking one more character of s from the back adds that character at its weight. */
  lemma SuffixStep(s: string, j: nat)
    ensures BinValue(Suffix(s, j + 1))
      == (if j < |s| then (if s[|s| - 1 - j] == '1' then Pow2(j) else 0) else 0) + BinValue(Suffix(s, j))
  {
    if j < |s| {
      var i := |s| - 1 - j;
      var tail := s[i + 1..];
      assert Suffix(s, j) == tail && Suffix(s, j + 1) == s[i..];
      assert s[i..] == [s[i]] + tail;
      BinValuePrepend(s[i], tail);
    }
  }

  /**
   * What binary_add returns: a numeral of zeros and ones for the sum, one character
   * longer than the longer input exactly when the sum does not fit in that many bits.
   */
  ghost predicate IsBinarySum(a: string, b: string, r: string)
  {
    IsBinary(r) && BinValue(r) == BinValue(a) + BinValue(b)
    && |r| == (if BinValue(a) + BinValue(b) >= Pow2(Max(|a|, |b|)) then Max(|a|, |b|) + 1 else Max(|a|, |b|))
  }

  /** One column of the addition: the sum bit and the carry out, from the carry in and two bits. */
  lemma AddColumn(r: int, x: int, y: int, p: nat, carry: bool, da: nat, db: nat, cur: bool, carryOut: bool)
    requires r + (if carry then p else 0) == x + y && da <= 1 && db <= 1
    requires (if cur then 1 else 0) + (if carryOut then 2 else 0) == (if carry then 1 else 0) + da + db
    ensures (if cur then p else 0) + r + (if carryOut then 2 * p else 0)
      == (if da == 1 then p else 0) + x + (if db == 1 then p else 0) + y
  {
  }

  /** The digits written for the last j columns, with the carry out of them, add up the last j characters of both inputs. */
  ghost predicate Columns(a: string, b: string, digits: string, carry: bool)
  {
    IsBinary(digits)
    && BinValue(digits) + (if carry then Pow2(|digits|) else 0)
       == BinValue(Suffix(a, |digits|)) + BinValue(Suffix(b, |digits|))
  }

  /** The bit of s at the j-th column from the right, or 0 past its front. */
  function BitAt(s: string, j: nat): nat
  {
    if j < |s| && s[|s| - 1 - j] == '1' then 1 else 0
  }

  /** Writing the sum bit of the next column in front keeps the columns adding up. */
  lemma ColumnStep(a: string, b: string, digits: string, carry: bool, cur: bool, carryOut: bool)
    requires Columns(a, b, digits, carry)
    requires (if cur then 1 else 0) + (if carryOut then 2 else 0)
      == (if carry then 1 else 0) + BitAt(a, |digits|) + BitAt(b, |digits|)
    ensures Columns(a, b, [if cur then '1' else '0'] + digits, carryOut)
  {
    var j := |digits|;
    var c: char := if cur then '1' else '0';
    BinValuePrepend(c, digits);
    SuffixStep(a, j);
    SuffixStep(b, j);
    AddColumn(BinValue(digits), BinValue(Suffix(a, j)), BinValue(Suffix(b, j)), Pow2(j), carry,
              BitAt(a, j), BitAt(b, j), cur, carryOut);
  }

  /** A string of n null characters, as resizing an empty std::string leaves it. */
  function Blank(n: nat): (r: string)
    ensures |r| == n
  {
    if n == 0 then [] else Blank(n - 1) + ['\0']
  }

  /**
   * One column of binary_add: the digits of a and b at the two cursors, if the cursors are
   * still inside the strings, added to the carry; the cursors move one place left.
   */
  method AddDigits(a: string, b: string, ia: int, ib: int, carryIn: bool)
    returns (cur: bool, carry: bool, ia': int, ib': int)
    requires -1 <= ia < |a| && -1 <= ib < |b|
    ensures ia' == Max(ia - 1, -1) && ib' == Max(ib - 1, -1)
    ensures (if cur then 1 else 0) + (if carry then 2 else 0)
      == (if carryIn then 1 else 0) + (if ia >= 0 && a[ia] == '1' then 1 else 0)
         + (if ib >= 0 && b[ib] == '1' then 1 else 0)
  {
    ia', ib' := ia, ib;
    cur := carryIn;
    carry := false;
    if ia' >= 0 {
      if a[ia'] == '1' {
        carry := cur;
        cur := !cur;
      }
      ia' := ia' - 1;
    }
    if ib' >= 0 {
      if b[ib'] == '1' {
        if cur {
          carry := true;
        }
        cur := !cur;
      }
      ib' := ib' - 1;
    }
  }

  /** The digits of the last j columns of a + b, and the carry out of them. */
  datatype Partial = Partial(digits: string, carry: bool)

  /** A reference definition of the column loop: column j added to the carry out of columns 0 to j - 1. */
  function Sum(a: string, b: string, j: nat): (p: Partial)
    ensures |p.digits| == j
  {
    if j == 0 then Partial([], false)
    else
      var prev := Sum(a, b, j - 1);
      var t := (if prev.carry then 1 else 0) + BitAt(a, j - 1) + BitAt(b, j - 1);
      Partial([if t == 1 || t == 3 then '1' else '0'] + prev.digits, t >= 2)
  }

  /** The reference digits and carry add up the last j characters of both inputs. */
  lemma {:induction false} SumColumns(a: string, b: string, j: nat)
    ensures Columns(a, b, Sum(a, b, j).digits, Sum(a, b, j).carry)
  {
    if j == 0 {
      assert Suffix(a, 0) == [] && Suffix(b, 0) == [];
    } else {
      var prev := Sum(a, b, j - 1);
      SumColumns(a, b, j - 1);
      var t := (if prev.carry then 1 else 0) + BitAt(a, j - 1) + BitAt(b, j - 1);
      ColumnStep(a, b, prev.digits, prev.carry, t == 1 || t == 3, t >= 2);
    }
  }

  /**
   * The state of binary_add's column loop with k columns still to write: the cursors stand
   * on the next column of each input, and result[k..] holds the digits written so far.
   */
  ghost predicate Written(a: string, b: string, result: string, k: int, ia: int, ib: int, carry: bool)
  {
    var n := Max(|a|, |b|) + 1;
    0 <= k <= n && |result| == n
    && ia == Max(|a| - 1 - (n - k), -1) && ib == Max(|b| - 1 - (n - k), -1)
    && result[k..] == Sum(a, b, n - k).digits && carry == Sum(a, b, n - k).carry
  }

  /** One pass of binary_add's column loop: add the next column and write its digit at k - 1. */
  method WriteColumn(a: string, b: string, result: string, k: int, ia: int, ib: int, carry: bool)
    returns (result': string, ia': int, ib': int, carry': bool)
    requires Written(a, b, result, k, ia, ib, carry) && k > 0
    ensures Written(a, b, result', k - 1, ia', ib', carry')
  {
    var n := |result|;
    ghost var j := n - k;
    ghost var t := (if carry then 1 else 0) + BitAt(a, j) + BitAt(b, j);
    assert Sum(a, b, j + 1).digits == [if t == 1 || t == 3 then '1' else '0'] + result[k..];
    var cur;
    cur, carry', ia', ib' := AddDigits(a, b, ia, ib, carry);
    result' := result[k - 1 := if cur then '1' else '0'];
    assert result'[k - 1..] == [result'[k - 1]] + result[k..];
  }

  /**
   * The column loop of binary_add: a string one longer than the longer input, written from
   * the back one column at a time, and the carry out of the last column.
   */
  method AddColumns(a: string, b: string) returns (result: string, carry: bool)
    ensures |result| == Max(|a|, |b|) + 1
    ensures result == Sum(a, b, |result|).digits && carry == Sum(a, b, |result|).carry
  {
    var n := Max(|a|, |b|) + 1;
    result := Blank(n);
    var ia, ib := |a| - 1, |b| - 1;
    var k := n;
    carry := false;
    while k > 0
      invariant Written(a, b, result, k, ia, ib, carry)
    {
      result, ia, ib, carry := WriteColumn(a, b, result, k, ia, ib, carry);
      k := k - 1;
    }
    assert result[0..] == result;
  }

  /** bitwise_ops binary_add: the columns, with a leading zero removed. */
  method BinaryAdd(a: string, b: string) returns (r: string)
    ensures IsBinarySum(a, b, r)
  {
    var result, carry := AddColumns(a, b);
    SumColumns(a, b, |result|);
    Finish(a, b, result, carry);
    if result[0] == '0' {
      r := result[1..];
    } else {
      r := result;
    }
  }

  /** Two numerals no longer than m add up to less than twice 2^m. */
  lemma SumBound(a: string, b: string, m: nat)
    requires |a| <= m && |b| <= m
    ensures BinValue(a) + BinValue(b) < 2 * Pow2(m)
  {
    BinValueBound(a);
    BinValueBound(b);
    Pow2Monotone(|a|, m);
    Pow2Monotone(|b|, m);
  }

  /** Once every column is written, no carry is left and the digits hold the sum. */
  lemma NoCarryLeft(a: string, b: string, digits: string, carry: bool)
    requires |digits| == Max(|a|, |b|) + 1 && Columns(a, b, digits, carry)
    ensures !carry && BinValue(digits) == BinValue(a) + BinValue(b)
    ensures BinValue(a) + BinValue(b) < 2 * Pow2(Max(|a|, |b|))
  {
    var m := Max(|a|, |b|);
    assert Suffix(a, m + 1) == a && Suffix(b, m + 1) == b;
    SumBound(a, b, m);
  }

  /** Dropping a leading zero keeps the value; a leading one means the value needs every digit. */
  lemma LeadingDigit(digits: string)
    requires IsBinary(digits) && digits != []
    ensures digits[0] == '0' ==> IsBinary(digits[1..]) && BinValue(digits[1..]) == BinValue(digits)
    ensures digits[0] != '0' ==> BinValue(digits) >= Pow2(|digits| - 1)
    ensures BinValue(digits[1..]) < Pow2(|digits| - 1)
  {
    BinaryRest(digits);
    BinValueBound(digits[1..]);
  }

  /** The digits with one leading zero dropped, if there is one, are what binary_add returns. */
  lemma Finish(a: string, b: string, digits: string, carry: bool)
    requires |digits| == Max(|a|, |b|) + 1 && Columns(a, b, digits, carry)
    ensures digits[0] == '0' ==> IsBinarySum(a, b, digits[1..])
    ensures digits[0] != '0' ==> IsBinarySum(a, b, digits)
  {
    NoCarryLeft(a, b, digits, carry);
    LeadingDigit(digits);
  }

  lemma BinaryRest(s: string)
    requires IsBinary(s) && s != []
    ensures IsBinary(s[1..]) && (s[0] == '0' || s[0] == '1')
  {
    assert s[0] in s;
    forall c | c in s[1..]
      ensures c == '0' || c == '1'
    {
      var i :| 0 <= i < |s| - 1 && s[1..][i] == c;
      assert s[i + 1] in s;
    }
  }

  /** Two numerals of zeros and ones with the same length and value are the same numeral. */
  lemma {:induction false} BinaryUnique(r: string, s: string)
    requires IsBinary(r) && IsBinary(s) && |r| == |s| && BinValue(r) == BinValue(s)
    ensures r == s
    decreases |r|
  {
    if r != [] {
      BinaryRest(r);
      BinaryRest(s);
      BinValueBound(r[1..]);
      BinValueBound(s[1..]);
      assert r[0] == s[0];
      BinaryUnique(r[1..], s[1..]);
      assert r == [r[0]] + r[1..];
      assert s == [s[0]] + s[1..];
    }
  }

  /** A string whose every position holds a zero or a one is a binary numeral. */
  lemma BinaryByIndex(s: string)
    requires forall k :: 0 <= k < |s| ==> s[k] == '0' || s[k] == '1'
    ensures IsBinary(s)
  {
  }

  /** The two addition calls of the driver. */
  lemma BinaryAddExamples(r1: string, r2: string)
    requires IsBinarySum("11", "1", r1) && IsBinarySum("1010", "1011", r2)
    ensures r1 == "100" && r2 == "10101"
  {
    assert "1"[1..] == "" && "11"[1..] == "1" && "100"[1..] == "00" && "00"[1..] == "0" && "0"[1..] == "";
    assert BinValue("11") == 3 && BinValue("1") == 1 && BinValue("100") == 4;
    BinaryByIndex("100");
    BinaryUnique(r1, "100");
    assert "1010"[1..] == "010" && "010"[1..] == "10" && "10"[1..] == "0";
    assert "1011"[1..] == "011" && "011"[1..] == "11";
    assert "10101"[1..] == "0101" && "0101"[1..] == "101" && "101"[1..] == "01" && "01"[1..] == "1";
    assert BinValue("1010") == 10 && BinValue("1011") == 11 && BinValue("10101") == 21;
    BinaryByIndex("10101");
    BinaryUnique(r2, "10101");
  }
}

/** Counting the set bits of a 32-bit unsigned integer (src/bitwise_ops.cc). */
module BitCount {
  import opened Bitwise

  lemma Pow2Of32()
    ensures Pow2(32) == 0x1_0000_0000
  {
    assert Pow2(8) == 0x100;
    assert Pow2(16) == 0x1_0000;
    assert Pow2(24) == 0x100_0000;
  }

  newtype u32 = x: int | 0 <= x < 0x1_0000_0000

  /** The number of one bits among the low w bits of n. */
  function BitsSet(n: nat, w: nat): nat
  {
    if w == 0 then 0 else n % 2 + BitsSet(n / 2, w - 1)
  }

  /** No more bits are set than there are bits. */
  lemma {:induction false} BitsSetBound(n: nat, w: nat)
    ensures BitsSet(n, w) <= w
  {
    if w > 0 {
      BitsSetBound(n / 2, w - 1);
    }
  }

  /** Zero has no bits set. */
  lemma {:induction false} BitsSetZero(w: nat)
    ensures BitsSet(0, w) == 0
  {
    if w > 0 {
      BitsSetZero(w - 1);
    }
  }

  /** Every low bit is set in n or in its complement, never in both. */
  lemma {:induction false} BitsSetComplement(n: nat, w: nat)
    requires n < Pow2(w)
    ensures BitsSet(n, w) + BitsSet(Pow2(w) - 1 - n, w) == w
  {
    if w > 0 {
      var m := Pow2(w) - 1 - n;
      var h := Pow2(w - 1);
      assert m == 2 * (h - 1 - n / 2) + (1 - n % 2);
      assert m % 2 == 1 - n % 2 && m / 2 == h - 1 - n / 2;
      BitsSetComplement(n / 2, w - 1);
    }
  }

  /** bitwise_ops count_bits_set: the low bit is added and n shifted right until n is zero. */
  method CountBitsSet(n0: u32) returns (count: int)
    ensures count == BitsSet(n0 as nat, 32) && 0 <= count <= 32
  {
    count := 0;
    var n := n0;
    Pow2Of32();
    ghost var w: nat := 32;
    while n != 0
      invariant (n as nat) < Pow2(w) && w <= 32
      invariant count + BitsSet(n as nat, w) == BitsSet(n0 as nat, 32)
    {
      count := count + (n % 2) as int;
      n := n / 2;
      w := w - 1;
    }
    BitsSetZero(w);
    BitsSetBound(n0 as nat, 32);
  }

  /** The three count_bits_set calls of the driver: 0b1011, bit 7 alone, and all bits but bit 1. */
  lemma CountBitsSetExamples()
    ensures BitsSet(11, 32) == 3 && BitsSet(128, 32) == 1 && BitsSet(0xFFFF_FFFD, 32) == 31
  {
    BitsSetZero(28);
    BitsSetZero(24);
    Pow2Of32();
    BitsSetComplement(2, 32);
    BitsSetZero(30);
  }
}
