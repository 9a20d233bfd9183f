/**
 * Largest palindromic number (src/string_palindromes.cc): from a string of decimal digits,
 * the largest palindrome that uses each digit at most as often as it occurs, with no
 * leading zero.
 */
module Palindromes {
  import opened Wrappers

  predicate IsDigit(c: char)
  {
    '0' <= c <= '9'
  }

  /** The digit_to_char table. */
  function DigitChar(d: int): (c: char)
    requires 0 <= d < 10
    ensures IsDigit(c) && c as int - '0' as int == d
  {
    ('0' as int + d) as char
  }

  /** Counters for the ten digits, none negative. */
  predicate IsCounts(counts: seq<int>)
  {
    |counts| == 10 && forall d :: 0 <= d < 10 ==> counts[d] >= 0
  }

  /** How often each digit occurs in str. */
  function DigitCounts(str: string): (counts: seq<int>)
    ensures IsCounts(counts)
    ensures forall d :: 0 <= d < 10 ==> counts[d] == multiset(str)[DigitChar(d)]
  {
    seq(10, d requires 0 <= d < 10 => multiset(str)[DigitChar(d)])
  }

  /** Every element of ds is a digit no smaller than lo. */
  predicate DigitsFrom(ds: seq<int>, lo: int)
  {
    forall i :: 0 <= i < |ds| ==> lo <= ds[i] < 10
  }

  /** The elements of ds never increase. */
  predicate Descending(ds: seq<int>)
  {
    forall i, j :: 0 <= i < j < |ds| ==> ds[i] >= ds[j]
  }

  /** How often the character c stands for a digit of ds. */
  function DigitCount(ds: seq<int>, c: char): nat
  {
    if IsDigit(c) then multiset(ds)[c as int - '0' as int] else 0
  }

  /** k copies of d. */
  function Repeat(d: int, k: nat): seq<int>
  {
    if k == 0 then [] else Repeat(d, k - 1) + [d]
  }

  /** The pairs of digit d put in the half palindrome: none for a leading zero, else as many as there are. */
  function Pairs(counts: seq<int>, d: int, above: seq<int>): nat
    requires IsCounts(counts) && 0 <= d < 10
  {
    if d == 0 && above == [] then 0 else counts[d] / 2
  }

  /** The half palindrome after the digits from 9 down to d: each digit's pairs, largest first. */
  function Half(counts: seq<int>, d: int): seq<int>
    requires IsCounts(counts) && 0 <= d <= 10
    decreases |counts| - d
  {
    if d == 10 then []
    else
      var above := Half(counts, d + 1);
      above + Repeat(d, Pairs(counts, d, above))
  }

  /** The copies of d left after its pairs are taken. */
  function Leftover(counts: seq<int>, d: int): int
    requires IsCounts(counts) && 0 <= d < 10
  {
    counts[d] - 2 * Pairs(counts, d, Half(counts, d + 1))
  }

  /** The middle digit chosen among the digits from 9 down to d: the largest one with a copy left over. */
  function Middle(counts: seq<int>, d: int): (m: Option<int>)
    requires IsCounts(counts) && 0 <= d <= 10
    ensures m.Some? ==> d <= m.value < 10
    decreases |counts| - d
  {
    if d == 10 then None
    else
      match Middle(counts, d + 1)
      case Some(m) => Some(m)
      case None => if Leftover(counts, d) > 0 then Some(d) else None
  }

  /** The characters of the digits ds, in order. */
  function Chars(ds: seq<int>): (s: string)
    requires DigitsFrom(ds, 0)
    ensures |s| == |ds|
  {
    if ds == [] then [] else Chars(ds[..|ds| - 1]) + [DigitChar(ds[|ds| - 1])]
  }

  /** The characters of the digits ds, last digit first. */
  function Mirror(ds: seq<int>): (s: string)
    requires DigitsFrom(ds, 0)
    ensures |s| == |ds|
  {
    if ds == [] then [] else Mirror(ds[1..]) + [DigitChar(ds[0])]
  }

  /** The middle digit as a string of at most one character. */
  function MiddleChars(m: Option<int>): string
    requires m.Some? ==> 0 <= m.value < 10
  {
    match m
    case None => []
    case Some(d) => [DigitChar(d)]
  }

  /** The string of a half palindrome, its middle digit if any, and the half backwards. */
  function Build(half: seq<int>, m: Option<int>): string
    requires DigitsFrom(half, 0) && (m.Some? ==> 0 <= m.value < 10)
  {
    Chars(half) + MiddleChars(m) + Mirror(half)
  }

  /** The palindrome largest_palindrome builds from the digit counts. */
  function Largest(counts: seq<int>): string
    requires IsCounts(counts)
  {
    HalfDigits(counts, 0);
    Build(Half(counts, 0), Middle(counts, 0))
  }

  /** The half palindrome holds digits only, largest first, and never starts with 0. */
  lemma {:induction false} HalfDigits(counts: seq<int>, d: int)
    requires IsCounts(counts) && 0 <= d <= 10
    ensures DigitsFrom(Half(counts, d), d) && Descending(Half(counts, d))
    ensures Half(counts, d) != [] ==> Half(counts, d)[0] != 0
    decreases 10 - d
  {
    if d < 10 {
      HalfDigits(counts, d + 1);
      var above := Half(counts, d + 1);
      AppendRepeat(above, d, Pairs(counts, d, above));
    }
  }

  /** Copies of a digit appended below larger ones keep the sequence descending. */
  lemma AppendRepeat(above: seq<int>, d: int, k: nat)
    requires 0 <= d < 10 && DigitsFrom(above, d + 1) && Descending(above)
    ensures var h := above + Repeat(d, k);
      DigitsFrom(h, d) && Descending(h)
      && (above != [] ==> h[0] == above[0]) && (above == [] && k > 0 ==> h[0] == d)
  {
    RepeatIs(d, k);
    var h := above + Repeat(d, k);
    assert forall i :: |above| <= i < |h| ==> h[i] == d;
    assert forall i :: 0 <= i < |above| ==> h[i] == above[i];
  }

  /** Every element of Repeat(d, k) is d, and there are k of them. */
  lemma {:induction false} RepeatIs(d: int, k: nat)
    ensures |Repeat(d, k)| == k && forall i :: 0 <= i < k ==> Repeat(d, k)[i] == d
  {
    if k > 0 {
      RepeatIs(d, k - 1);
    }
  }

  /** Repeat(d, k) holds k copies of d and nothing else. */
  lemma {:induction false} RepeatCount(d: int, k: nat, e: int)
    ensures multiset(Repeat(d, k))[e] == if e == d then k else 0
  {
    if k > 0 {
      RepeatCount(d, k - 1, e);
    }
  }

  /** The half palindrome holds each digit from d up as often as its pairs, and no smaller digit. */
  lemma {:induction false} HalfCount(counts: seq<int>, d: int, e: int)
    requires IsCounts(counts) && 0 <= d <= 10
    ensures multiset(Half(counts, d))[e] == if d <= e < 10 then Pairs(counts, e, Half(counts, e + 1)) else 0
    decreases 10 - d
  {
    if d < 10 {
      var above := Half(counts, d + 1);
      var k := Pairs(counts, d, above);
      HalfCount(counts, d + 1, e);
      CountAppend(above, d, k, e);
      if d < e < 10 {
        assert multiset(Half(counts, d))[e] == multiset(above)[e];
      }
    }
  }

  /** Appending k copies of d adds k to the count of d and nothing to the others. */
  lemma CountAppend(above: seq<int>, d: int, k: nat, e: int)
    ensures multiset(above + Repeat(d, k))[e] == multiset(above)[e] + if e == d then k else 0
  {
    RepeatCount(d, k, e);
  }

  /** The middle digit is the largest with a copy left over, and there is none only when nothing is left over. */
  lemma {:induction false} MiddleIsLargest(counts: seq<int>, d: int)
    requires IsCounts(counts) && 0 <= d <= 10
    ensures Middle(counts, d).Some? ==> Leftover(counts, Middle(counts, d).value) > 0
    ensures forall e :: d <= e < 10 && (Middle(counts, d).Some? ==> Middle(counts, d).value < e) ==> Leftover(counts, e) == 0
    decreases 10 - d
  {
    if d < 10 {
      MiddleIsLargest(counts, d + 1);
      LeftoverRange(counts, d);
    }
  }

  /** What is left of a digit after its pairs is never negative; it is at most one except for unused zeros. */
  lemma LeftoverRange(counts: seq<int>, d: int)
    requires IsCounts(counts) && 0 <= d < 10
    ensures 0 <= Leftover(counts, d)
    ensures (d != 0 || Half(counts, 1) != []) ==> Leftover(counts, d) <= 1
  {
  }

  /** The characters of the digits count each digit as often as the digits do, and nothing else. */
  lemma {:induction false} CharsCount(ds: seq<int>, c: char)
    requires DigitsFrom(ds, 0)
    ensures multiset(Chars(ds))[c] == DigitCount(ds, c)
  {
    if ds != [] {
      var init, last := ds[..|ds| - 1], ds[|ds| - 1];
      CharsCount(init, c);
      assert multiset(ds) == multiset(init) + multiset{last} by {
        assert ds == init + [last];
      }
      assert Chars(ds) == Chars(init) + [DigitChar(last)];
      AddDigit(init, last, c);
    }
  }

  /** Adding one digit to ds adds one to the count of its character. */
  lemma AddDigit(ds: seq<int>, last: int, c: char)
    requires 0 <= last < 10
    ensures DigitCount(ds, c) + (if DigitChar(last) == c then 1 else 0) ==
      if IsDigit(c) then (multiset(ds) + multiset{last})[c as int - '0' as int] else 0
  {
  }

  /** The mirrored characters count each digit as often as the digits do, and nothing else. */
  lemma {:induction false} MirrorCount(ds: seq<int>, c: char)
    requires DigitsFrom(ds, 0)
    ensures multiset(Mirror(ds))[c] == DigitCount(ds, c)
  {
    if ds != [] {
      var first, rest := ds[0], ds[1..];
      MirrorCount(rest, c);
      assert multiset(ds) == multiset(rest) + multiset{first} by {
        assert ds == [first] + rest;
      }
      assert Mirror(ds) == Mirror(rest) + [DigitChar(first)];
      AddDigit(rest, first, c);
    }
  }

  /** The mirrored characters are the characters read backwards. */
  lemma {:induction false} MirrorReverses(ds: seq<int>)
    requires DigitsFrom(ds, 0)
    ensures forall i :: 0 <= i < |ds| ==> Mirror(ds)[i] == Chars(ds)[|ds| - 1 - i]
  {
    if ds != [] {
      MirrorReverses(ds[1..]);
      CharsAt(ds);
      CharsAt(ds[1..]);
    }
  }

  /** Chars(ds) holds the character of each digit at its position. */
  lemma {:induction false} CharsAt(ds: seq<int>)
    requires DigitsFrom(ds, 0)
    ensures forall i :: 0 <= i < |ds| ==> Chars(ds)[i] == DigitChar(ds[i])
  {
    if ds != [] {
      CharsAt(ds[..|ds| - 1]);
    }
  }

  predicate IsPalindrome(s: string)
  {
    forall i :: 0 <= i < |s| ==> s[i] == s[|s| - 1 - i]
  }

  /** The string built from a half and a middle digit counts each digit twice per copy in the half, plus the middle. */
  lemma Count(half: seq<int>, m: Option<int>, c: char)
    requires DigitsFrom(half, 0) && (m.Some? ==> 0 <= m.value < 10)
    ensures multiset(Build(half, m))[c] ==
      2 * DigitCount(half, c) + (if m.Some? && DigitChar(m.value) == c then 1 else 0)
  {
    CharsCount(half, c);
    MirrorCount(half, c);
    var mc := MiddleChars(m);
    assert multiset(Chars(half) + mc + Mirror(half)) == multiset(Chars(half)) + multiset(mc) + multiset(Mirror(half));
  }

  /** The built string holds digit d twice per copy in the half, plus one if it is the middle digit. */
  lemma CountDigit(half: seq<int>, m: Option<int>, d: int)
    requires DigitsFrom(half, 0) && (m.Some? ==> 0 <= m.value < 10) && 0 <= d < 10
    ensures multiset(Build(half, m))[DigitChar(d)] == 2 * multiset(half)[d] + (if m == Some(d) then 1 else 0)
  {
    var c := DigitChar(d);
    Count(half, m, c);
    assert DigitCount(half, c) == multiset(half)[d];
    assert (m.Some? && DigitChar(m.value) == c) == (m == Some(d));
  }

  /** The built string holds nothing but digits. */
  lemma CountOther(half: seq<int>, m: Option<int>, c: char)
    requires DigitsFrom(half, 0) && (m.Some? ==> 0 <= m.value < 10) && !IsDigit(c)
    ensures multiset(Build(half, m))[c] == 0
  {
    Count(half, m, c);
  }

  /** How often digit d occurs in the palindrome: twice per pair, plus one for the middle digit. */
  lemma LargestCount(counts: seq<int>, d: int)
    requires IsCounts(counts) && 0 <= d < 10
    ensures multiset(Largest(counts))[DigitChar(d)] ==
      2 * Pairs(counts, d, Half(counts, d + 1)) + (if Middle(counts, 0) == Some(d) then 1 else 0)
  {
    HalfDigits(counts, 0);
    CountDigit(Half(counts, 0), Middle(counts, 0), d);
    HalfCount(counts, 0, d);
  }

  /** The palindrome holds digits only. */
  lemma LargestDigitsOnly(counts: seq<int>, c: char)
    requires IsCounts(counts) && !IsDigit(c)
    ensures multiset(Largest(counts))[c] == 0
  {
    HalfDigits(counts, 0);
    CountOther(Half(counts, 0), Middle(counts, 0), c);
  }

  /**
   * The string built from a descending half without a leading zero and a middle digit is a
   * palindrome, largest digits first, with no leading zero unless it is "0".
   */
  lemma Shape(half: seq<int>, m: Option<int>)
    requires DigitsFrom(half, 0) && Descending(half) && (half != [] ==> half[0] != 0)
    requires m.Some? ==> 0 <= m.value < 10
    ensures var r := Build(half, m);
      IsPalindrome(r)
      && (forall i, j :: 0 <= i < j < |r| / 2 ==> r[i] >= r[j])
      && (r != [] && r[0] == '0' ==> r == "0")
  {
    MirrorReverses(half);
    CharsDescending(half);
    var cs, mc, ms := Chars(half), MiddleChars(m), Mirror(half);
    var r := cs + mc + ms;
    assert |r| == 2 * |half| + |mc|;
    forall i | 0 <= i < |r|
      ensures r[i] == r[|r| - 1 - i]
    {
      if i < |half| {
        assert r[i] == cs[i] && r[|r| - 1 - i] == ms[|half| - 1 - i];
      } else if i >= |half| + |mc| {
        assert r[i] == ms[i - |half| - |mc|] && r[|r| - 1 - i] == cs[|r| - 1 - i];
      }
    }
    forall i, j | 0 <= i < j < |r| / 2
      ensures r[i] >= r[j]
    {
      assert r[i] == cs[i] && r[j] == cs[j];
    }
    if half != [] {
      assert r[0] == cs[0];
    }
  }

  /** The characters of descending digits descend, and the first is '0' only when the first digit is 0. */
  lemma CharsDescending(ds: seq<int>)
    requires DigitsFrom(ds, 0) && Descending(ds)
    ensures forall i, j :: 0 <= i < j < |ds| ==> Chars(ds)[i] >= Chars(ds)[j]
    ensures ds != [] && ds[0] != 0 ==> Chars(ds)[0] != '0'
  {
    CharsAt(ds);
  }

  /** The result is a palindrome, largest digits first, with no leading zero unless it is "0". */
  lemma LargestShape(counts: seq<int>)
    requires IsCounts(counts)
    ensures IsPalindrome(Largest(counts))
    ensures var r := Largest(counts); forall i, j :: 0 <= i < j < |r| / 2 ==> r[i] >= r[j]
    ensures var r := Largest(counts); r != [] && r[0] == '0' ==> r == "0"
  {
    HalfDigits(counts, 0);
    Shape(Half(counts, 0), Middle(counts, 0));
  }

  /** The length of the palindrome: two per digit of the half, plus one for the middle digit. */
  lemma LargestLength(counts: seq<int>)
    requires IsCounts(counts)
    ensures |Largest(counts)| == 2 * |Half(counts, 0)| + (if Middle(counts, 0).Some? then 1 else 0)
    ensures Middle(counts, 0).Some? ==> Largest(counts)[|Largest(counts)| / 2] == DigitChar(Middle(counts, 0).value)
  {
    HalfDigits(counts, 0);
    BuildLength(Half(counts, 0), Middle(counts, 0));
  }

  /** The built string is twice as long as the half, plus the middle digit, which sits at its centre. */
  lemma BuildLength(half: seq<int>, m: Option<int>)
    requires DigitsFrom(half, 0) && (m.Some? ==> 0 <= m.value < 10)
    ensures |Build(half, m)| == 2 * |half| + (if m.Some? then 1 else 0)
    ensures m.Some? ==> Build(half, m)[|Build(half, m)| / 2] == DigitChar(m.value)
  {
  }

  /** No digit is used more often than it occurs. */
  lemma LargestWithin(counts: seq<int>, d: int)
    requires IsCounts(counts) && 0 <= d < 10
    ensures multiset(Largest(counts))[DigitChar(d)] <= counts[d]
  {
    LargestCount(counts, d);
    MiddleIsLargest(counts, 0);
    LeftoverRange(counts, d);
  }

  /** A palindrome of even length uses every digit as often as it occurs. */
  lemma LargestEven(counts: seq<int>, d: int)
    requires IsCounts(counts) && 0 <= d < 10 && |Largest(counts)| % 2 == 0
    ensures multiset(Largest(counts))[DigitChar(d)] == counts[d]
  {
    LargestLength(counts);
    assert Middle(counts, 0) == None;
    MiddleIsLargest(counts, 0);
    assert Leftover(counts, d) == 0;
    LargestCount(counts, d);
  }

  /** A palindrome of odd length uses every digit above its middle one as often as it occurs. */
  lemma LargestOdd(counts: seq<int>, d: int)
    requires IsCounts(counts) && 0 <= d < 10 && |Largest(counts)| % 2 == 1
    requires Largest(counts)[|Largest(counts)| / 2] < DigitChar(d)
    ensures multiset(Largest(counts))[DigitChar(d)] == counts[d]
  {
    LargestLength(counts);
    var m := Middle(counts, 0).value;
    assert DigitChar(m) < DigitChar(d);
    MiddleIsLargest(counts, 0);
    assert Leftover(counts, d) == 0;
    LargestCount(counts, d);
  }

  /** Once the half holds a digit, at most one copy of each digit is left out. */
  lemma LargestNearlyAll(counts: seq<int>, d: int)
    requires IsCounts(counts) && 0 <= d < 10 && |Largest(counts)| > 1
    ensures counts[d] <= multiset(Largest(counts))[DigitChar(d)] + 1
  {
    LargestLength(counts);
    LargestCount(counts, d);
    LeftoverRange(counts, d);
    assert Half(counts, 1) != [] by {
      assert Half(counts, 0) == Half(counts, 1) + Repeat(0, Pairs(counts, 0, Half(counts, 1)));
    }
  }

  /** A palindrome of at most one digit means no digit from 1 to 9 had a pair. */
  lemma LargestShort(counts: seq<int>, d: int)
    requires IsCounts(counts) && 1 <= d < 10 && |Largest(counts)| <= 1
    ensures counts[d] <= 1
  {
    LargestLength(counts);
    HalfCount(counts, 0, d);
  }

  /** The digit the character c stands for. */
  function DigitOf(c: char): (d: int)
    requires IsDigit(c)
    ensures 0 <= d < 10 && DigitChar(d) == c
  {
    c as int - '0' as int
  }

  /** The digits the characters of s stand for. */
  function Digits(s: string): (ds: seq<int>)
    requires forall i :: 0 <= i < |s| ==> IsDigit(s[i])
    ensures |ds| == |s| && DigitsFrom(ds, 0)
    ensures forall i :: 0 <= i < |s| ==> DigitChar(ds[i]) == s[i]
  {
    if s == [] then [] else [DigitOf(s[0])] + Digits(s[1..])
  }

  /**
   * Every palindrome of digits is built from its first half and its middle digit, if its
   * length is odd, as largest_palindrome builds its result.
   */
  lemma Decompose(p: string) returns (h: seq<int>, m: Option<int>)
    requires IsPalindrome(p) && forall i :: 0 <= i < |p| ==> IsDigit(p[i])
    ensures DigitsFrom(h, 0) && (m.Some? ==> 0 <= m.value < 10) && |h| == |p| / 2
    ensures p == Build(h, m)
  {
    h := Digits(p[..|p| / 2]);
    m := if |p| % 2 == 1 then Some(DigitOf(p[|p| / 2])) else None;
    BuildLength(h, m);
    forall i | 0 <= i < |p|
      ensures Build(h, m)[i] == p[i]
    {
      DecomposeAt(p, h, m, i);
    }
  }

  /** One character of the rebuilt palindrome. */
  lemma DecomposeAt(p: string, h: seq<int>, m: Option<int>, i: int)
    requires IsPalindrome(p) && forall i :: 0 <= i < |p| ==> IsDigit(p[i])
    requires h == Digits(p[..|p| / 2]) && m == if |p| % 2 == 1 then Some(DigitOf(p[|p| / 2])) else None
    requires 0 <= i < |p|
    ensures |Build(h, m)| == |p| && Build(h, m)[i] == p[i]
  {
    var r := Build(h, m);
    BuildLength(h, m);
    var k := |h|;
    var b := |MiddleChars(m)|;
    if i < k {
      CharsAt(h);
      assert r[i] == Chars(h)[i];
    } else if i < k + b {
      assert r[i] == DigitChar(m.value);
    } else {
      var j := i - k - b;
      var q := k - 1 - j;
      assert q == |p| - 1 - i;
      assert r[i] == Mirror(h)[j];
      MirrorReverses(h);
      assert Mirror(h)[j] == Chars(h)[q];
      CharsAt(h);
      assert Chars(h)[q] == DigitChar(h[q]) == p[..|p| / 2][q] == p[q];
    }
  }

  /** Characters of digits compare as the digits do. */
  lemma CharOrder(a: int, b: int)
    requires 0 <= a < 10 && 0 <= b < 10
    ensures DigitChar(a) < DigitChar(b) <==> a < b
  {
  }

  /** A candidate's half that starts with a digit other than 0 leaves the result's half non-empty above 0. */
  lemma HalfStarts(counts: seq<int>, h: seq<int>, m: Option<int>)
    requires IsCounts(counts) && DigitsFrom(h, 0) && (m.Some? ==> 0 <= m.value < 10)
    requires forall d :: 0 <= d < 10 ==> multiset(Build(h, m))[DigitChar(d)] <= counts[d]
    requires h != [] && h[0] != 0
    ensures Half(counts, 1) != []
  {
    var e := h[0];
    assert e in multiset(h);
    CountDigit(h, m, e);
    HalfCount(counts, 1, e);
    assert multiset(Half(counts, 1))[e] > 0;
  }

  /** A candidate's half holds no more copies of a digit than the digit has pairs. */
  lemma DigitBound(counts: seq<int>, h: seq<int>, m: Option<int>, x: int)
    requires IsCounts(counts) && DigitsFrom(h, 0) && (m.Some? ==> 0 <= m.value < 10) && 0 <= x < 10
    requires multiset(Build(h, m))[DigitChar(x)] <= counts[x]
    requires x == 0 && h != [] ==> Half(counts, 1) != []
    ensures multiset(h)[x] <= multiset(Half(counts, 0))[x]
  {
    if h != [] {
      CountDigit(h, m, x);
      HalfCount(counts, 0, x);
    }
  }

  /**
   * A candidate uses each digit at most as often as it occurs: its half holds no more copies of
   * a digit than that digit has pairs, zeros included once the half starts with another digit.
   */
  lemma HalfBounds(counts: seq<int>, h: seq<int>, m: Option<int>)
    requires IsCounts(counts) && DigitsFrom(h, 0) && (m.Some? ==> 0 <= m.value < 10)
    requires forall d :: 0 <= d < 10 ==> multiset(Build(h, m))[DigitChar(d)] <= counts[d]
    requires h != [] ==> h[0] != 0
    ensures multiset(h) <= multiset(Half(counts, 0))
  {
    if h != [] {
      HalfStarts(counts, h, m);
    }
    forall x
      ensures multiset(h)[x] <= multiset(Half(counts, 0))[x]
    {
      if 0 <= x < 10 {
        DigitBound(counts, h, m, x);
      } else {
        assert x !in h;
      }
    }
  }

  /**
   * When a candidate's half uses every pair, its middle digit has a copy left over, so it is at
   * most the middle digit of the result.
   */
  lemma MiddleBound(counts: seq<int>, h: seq<int>, m: Option<int>)
    requires IsCounts(counts) && DigitsFrom(h, 0) && m.Some? && 0 <= m.value < 10
    requires multiset(Build(h, m))[DigitChar(m.value)] <= counts[m.value]
    requires multiset(h) == multiset(Half(counts, 0))
    ensures Middle(counts, 0).Some? && m.value <= Middle(counts, 0).value
  {
    var d := m.value;
    CountDigit(h, m, d);
    HalfCount(counts, 0, d);
    assert Leftover(counts, d) > 0;
    MiddleIsLargest(counts, 0);
  }

  /** A sub-multiset is no larger, and one as large is the same. */
  lemma SubMultiset(a: multiset<int>, b: multiset<int>)
    requires a <= b
    ensures |a| <= |b| && (|a| == |b| ==> a == b)
  {
    assert b == a + (b - a);
    if |a| == |b| {
      assert |b - a| == 0;
    }
  }

  /** Dropping the same first element from two orderings of the same elements leaves orderings of the same elements. */
  lemma SameTail(h: seq<int>, H: seq<int>)
    requires h != [] && H != [] && h[0] == H[0] && multiset(h) == multiset(H)
    ensures multiset(h[1..]) == multiset(H[1..])
  {
    assert h == [h[0]] + h[1..] && H == [H[0]] + H[1..];
    assert multiset(h[1..]) == multiset(h) - multiset{h[0]};
    assert multiset(H[1..]) == multiset(H) - multiset{H[0]};
  }

  /**
   * Among the orderings of the same digits, the descending one comes last: any other has a
   * smaller digit at the first place where they differ.
   */
  lemma {:induction false} DescendingLast(H: seq<int>, h: seq<int>)
    requires Descending(H) && multiset(h) == multiset(H)
    ensures |h| == |H|
    ensures h == H || exists i :: 0 <= i < |h| && h[..i] == H[..i] && h[i] < H[i]
  {
    assert |h| == |multiset(h)| == |multiset(H)| == |H|;
    if h != [] {
      if h[0] == H[0] {
        SameTail(h, H);
        DescendingLast(H[1..], h[1..]);
        if h[1..] != H[1..] {
          var i :| 0 <= i < |h[1..]| && h[1..][..i] == H[1..][..i] && h[1..][i] < H[1..][i];
          assert h[..i + 1] == [h[0]] + h[1..][..i] && H[..i + 1] == [H[0]] + H[1..][..i];
          assert h[i + 1] < H[i + 1];
        }
      } else {
        assert h[0] in multiset(H);
        var j :| 0 <= j < |H| && H[j] == h[0];
        assert h[..0] == H[..0];
      }
    }
  }

  /**
   * a comes no later than b among numbers written without leading zeros: it is shorter, or as
   * long and no larger character by character from the left.
   */
  predicate Precedes(a: string, b: string)
  {
    |a| < |b| || (|a| == |b| && (a == b || exists i :: 0 <= i < |a| && a[..i] == b[..i] && a[i] < b[i]))
  }

  /** Two built strings whose halves first differ at i, where the first is smaller. */
  lemma BuildBelow(h: seq<int>, m: Option<int>, H: seq<int>, M: Option<int>, i: nat)
    requires DigitsFrom(h, 0) && DigitsFrom(H, 0) && (m.Some? ==> 0 <= m.value < 10) && (M.Some? ==> 0 <= M.value < 10)
    requires |h| == |H| && m.Some? == M.Some?
    requires i < |h| && h[..i] == H[..i] && h[i] < H[i]
    ensures Precedes(Build(h, m), Build(H, M))
  {
    var p, r := Build(h, m), Build(H, M);
    BuildLength(h, m);
    BuildLength(H, M);
    CharsAt(h);
    CharsAt(H);
    forall k | 0 <= k < i
      ensures p[k] == r[k]
    {
      assert p[k] == Chars(h)[k] && r[k] == Chars(H)[k];
      assert h[k] == h[..i][k] == H[..i][k] == H[k];
    }
    assert p[i] == Chars(h)[i] && r[i] == Chars(H)[i];
    CharOrder(h[i], H[i]);
    assert p[..i] == r[..i];
  }

  /** Two built strings with the same half, whose middle digits are in order. */
  lemma BuildMiddle(h: seq<int>, m: Option<int>, M: Option<int>)
    requires DigitsFrom(h, 0) && (m.Some? ==> 0 <= m.value < 10) && (M.Some? ==> 0 <= M.value < 10)
    requires m.Some? == M.Some? && (m.Some? ==> m.value <= M.value)
    ensures Precedes(Build(h, m), Build(h, M))
  {
    var p, r := Build(h, m), Build(h, M);
    if m != M {
      var k := |h|;
      BuildLength(h, m);
      BuildLength(h, M);
      assert p[..k] == Chars(h) == r[..k];
      CharOrder(m.value, M.value);
      assert p[k] == DigitChar(m.value) && r[k] == DigitChar(M.value);
    }
  }

  /**
   * A built string whose half is a sub-multiset of a descending half, and whose middle digit is
   * at most the other's when the halves hold the same digits, comes no later than the other.
   */
  lemma CompareBuilt(h: seq<int>, m: Option<int>, H: seq<int>, M: Option<int>)
    requires DigitsFrom(h, 0) && DigitsFrom(H, 0) && (m.Some? ==> 0 <= m.value < 10) && (M.Some? ==> 0 <= M.value < 10)
    requires Descending(H) && multiset(h) <= multiset(H)
    requires m.Some? && multiset(h) == multiset(H) ==> M.Some? && m.value <= M.value
    ensures Precedes(Build(h, m), Build(H, M))
  {
    SubMultiset(multiset(h), multiset(H));
    BuildLength(h, m);
    BuildLength(H, M);
    if |h| == |H| && |Build(h, m)| == |Build(H, M)| {
      DescendingLast(H, h);
      if h == H {
        BuildMiddle(H, m, M);
      } else {
        var i :| 0 <= i < |h| && h[..i] == H[..i] && h[i] < H[i];
        BuildBelow(h, m, H, M, i);
      }
    }
  }

  /**
   * The result is the largest candidate: every palindrome of digits that uses each digit at
   * most as often as the counts allow, with no leading zero unless it is "0", comes no later
   * than it (shorter, or as long and no larger from the left).
   */
  lemma LargestIsLargest(counts: seq<int>, p: string)
    requires IsCounts(counts)
    requires IsPalindrome(p) && forall i :: 0 <= i < |p| ==> IsDigit(p[i])
    requires forall d :: 0 <= d < 10 ==> multiset(p)[DigitChar(d)] <= counts[d]
    requires p != [] && p[0] == '0' ==> p == "0"
    ensures Precedes(p, Largest(counts))
  {
    var h, m := Decompose(p);
    HalfDigits(counts, 0);
    var H, M := Half(counts, 0), Middle(counts, 0);
    if h != [] {
      CharsAt(h);
      BuildLength(h, m);
      assert p[0] == Chars(h)[0] == DigitChar(h[0]);
    }
    HalfBounds(counts, h, m);
    if m.Some? && multiset(h) == multiset(H) {
      MiddleBound(counts, h, m);
    }
    CompareBuilt(h, m, H, M);
  }

  /**
   * A palindrome that can be made from the characters of str, each used at most as often as it
   * occurs there, with no leading zero unless it is "0".
   */
  predicate Candidate(str: string, p: string)
  {
    IsPalindrome(p) && multiset(p) <= multiset(str) && (p != [] && p[0] == '0' ==> p == "0")
  }

  /** The result is itself a candidate. */
  lemma LargestIsCandidate(str: string)
    requires forall i :: 0 <= i < |str| ==> IsDigit(str[i])
    ensures Candidate(str, Largest(DigitCounts(str)))
  {
    var counts := DigitCounts(str);
    var r := Largest(counts);
    LargestShape(counts);
    forall c
      ensures multiset(r)[c] <= multiset(str)[c]
    {
      if IsDigit(c) {
        LargestWithin(counts, DigitOf(c));
      } else {
        LargestDigitsOnly(counts, c);
      }
    }
  }

  /** Every candidate comes no later than the result. */
  lemma CandidatePrecedes(str: string, p: string)
    requires forall i :: 0 <= i < |str| ==> IsDigit(str[i])
    requires Candidate(str, p)
    ensures Precedes(p, Largest(DigitCounts(str)))
  {
    forall i | 0 <= i < |p|
      ensures IsDigit(p[i])
    {
      assert p[i] in multiset(p);
      assert p[i] in multiset(str);
    }
    LargestIsLargest(DigitCounts(str), p);
  }

  /** The first loop of largest_palindrome: count each digit. */
  method CountDigits(str: string) returns (counters: array<int>)
    requires forall i :: 0 <= i < |str| ==> IsDigit(str[i])
    ensures fresh(counters) && counters[..] == DigitCounts(str)
  {
    counters := new int[10](_ => 0);
    for i := 0 to |str|
      invariant counters.Length == 10
      invariant forall d :: 0 <= d < 10 ==> counters[d] == multiset(str[..i])[DigitChar(d)]
    {
      var digit := str[i] as int - '0' as int;
      assert str[..i + 1] == str[..i] + [str[i]];
      assert DigitChar(digit) == str[i];
      counters[digit] := counters[digit] + 1;
    }
    assert str[..|str|] == str;
  }

  /**
   * One pass of the digit loop: take the pairs of digit d into the half palindrome (none while
   * the half is empty and d is 0), then make d the middle digit if none is chosen yet and a
   * copy is left.
   */
  method PairDigit(counters: array<int>, ghost counts: seq<int>, d: int, half: seq<int>, useMiddle: bool, middle: int)
    returns (half': seq<int>, useMiddle': bool, middle': int)
    modifies counters
    requires IsCounts(counts) && counters.Length == 10 && 0 <= d < 10
    requires forall e :: 0 <= e <= d ==> counters[e] == counts[e]
    requires half == Half(counts, d + 1) && (if useMiddle then Middle(counts, d + 1) == Some(middle) else Middle(counts, d + 1) == None)
    ensures forall e :: 0 <= e < d ==> counters[e] == counts[e]
    ensures half' == Half(counts, d) && (if useMiddle' then Middle(counts, d) == Some(middle') else Middle(counts, d) == None)
  {
    half' := half;
    ghost var k: nat := 0;
    while counters[d] >= 2
      invariant 0 <= counters[d] == counts[d] - 2 * k && half' == half + Repeat(d, k)
      invariant d == 0 && half == [] ==> k == 0
      invariant forall e :: 0 <= e < d ==> counters[e] == counts[e]
      decreases counters[d]
    {
      if half' == [] && d == 0 {
        break;
      }
      counters[d] := counters[d] - 2;
      half' := half' + [d];
      k := k + 1;
    }
    assert k == Pairs(counts, d, half);
    useMiddle', middle' := useMiddle, middle;
    if !useMiddle' && counters[d] > 0 {
      counters[d] := counters[d] - 1;
      useMiddle' := true;
      middle' := d;
    }
  }

  /** The digit loop of largest_palindrome, from 9 down to 0. */
  method PairUp(counters: array<int>, ghost counts: seq<int>) returns (half: seq<int>, useMiddle: bool, middle: int)
    modifies counters
    requires IsCounts(counts) && counters[..] == counts
    ensures half == Half(counts, 0) && (if useMiddle then Middle(counts, 0) == Some(middle) else Middle(counts, 0) == None)
  {
    half, useMiddle, middle := [], false, 0;
    var d := 9;
    while d >= 0
      invariant -1 <= d <= 9
      invariant forall e :: 0 <= e <= d ==> counters[e] == counts[e]
      invariant half == Half(counts, d + 1) && (if useMiddle then Middle(counts, d + 1) == Some(middle) else Middle(counts, d + 1) == None)
    {
      half, useMiddle, middle := PairDigit(counters, counts, d, half, useMiddle, middle);
      d := d - 1;
    }
  }

  /** The last part of largest_palindrome: the half, the middle digit if any, then the half backwards. */
  method Assemble(half: seq<int>, useMiddle: bool, middle: int) returns (result: string)
    requires DigitsFrom(half, 0)
    requires useMiddle ==> 0 <= middle < 10
    ensures result == Chars(half) + (if useMiddle then [DigitChar(middle)] else []) + Mirror(half)
  {
    result := [];
    for i := 0 to |half|
      invariant result == Chars(half[..i])
    {
      assert half[..i + 1][..i] == half[..i];
      result := result + [DigitChar(half[i])];
    }
    assert half[..|half|] == half;
    if useMiddle {
      result := result + [DigitChar(middle)];
    }
    ghost var prefix := result;
    var j := |half|;
    while j > 0
      invariant 0 <= j <= |half|
      invariant result == prefix + Mirror(half[j..])
    {
      assert half[j - 1..][1..] == half[j..];
      result := result + [DigitChar(half[j - 1])];
      j := j - 1;
    }
  }

  /** string_palindromes largest_palindrome. */
  method LargestPalindrome(str: string) returns (result: string)
    requires forall i :: 0 <= i < |str| ==> IsDigit(str[i])
    ensures result == Largest(DigitCounts(str))
    ensures Candidate(str, result) && forall p :: Candidate(str, p) ==> Precedes(p, result)
  {
    var counters := CountDigits(str);
    var half, useMiddle, middle := PairUp(counters, DigitCounts(str));
    HalfDigits(DigitCounts(str), 0);
    result := Assemble(half, useMiddle, middle);
    LargestIsCandidate(str);
    forall p | Candidate(str, p)
      ensures Precedes(p, result)
    {
      CandidatePrecedes(str, p);
    }
  }

  /** A pair of 8s around the 9 left over: "9888" gives "898". */
  lemma PairAroundMiddle()
    ensures Largest(DigitCounts("9888")) == "898"
  {
    PairAroundMiddleCounts();
    PairAroundMiddleResult();
  }

  lemma PairAroundMiddleCounts()
    ensures DigitCounts("9888") == [0, 0, 0, 0, 0, 0, 0, 0, 3, 1]
  {
  }

  lemma PairAroundMiddleResult()
    ensures Largest([0, 0, 0, 0, 0, 0, 0, 0, 3, 1]) == "898"
  {
  }

  /** No pairs: the largest digit alone: "12345" gives "5". */
  lemma NoPairs()
    ensures Largest(DigitCounts("12345")) == "5"
  {
    NoPairsCounts();
    NoPairsResult();
  }

  lemma NoPairsCounts()
    ensures DigitCounts("12345") == [0, 1, 1, 1, 1, 1, 0, 0, 0, 0]
  {
  }

  lemma NoPairsResult()
    ensures Largest([0, 1, 1, 1, 1, 1, 0, 0, 0, 0]) == "5"
  {
  }

  /** Zeros alone give a single zero, not a leading one: "0000" gives "0". */
  lemma ZerosOnly()
    ensures Largest(DigitCounts("0000")) == "0"
  {
    ZerosOnlyCounts();
    ZerosOnlyResult();
  }

  lemma ZerosOnlyCounts()
    ensures DigitCounts("0000") == [4, 0, 0, 0, 0, 0, 0, 0, 0, 0]
  {
  }

  lemma ZerosOnlyResult()
    ensures Largest([4, 0, 0, 0, 0, 0, 0, 0, 0, 0]) == "0"
  {
  }

  /** Row 2 of the driver: "001010" gives "100001". */
  lemma Row2()
    ensures Largest(DigitCounts("001010")) == "100001"
  {
    Row2Counts();
    Row2Result(DigitCounts("001010"));
  }

  lemma Row2Counts()
    ensures DigitCounts("001010") == [4, 2, 0, 0, 0, 0, 0, 0, 0, 0]
  {
  }

  lemma Row2High(c: seq<int>)
    requires c == [4, 2, 0, 0, 0, 0, 0, 0, 0, 0]
    ensures IsCounts(c)
    ensures Half(c, 9) == []
    ensures Half(c, 8) == []
    ensures Half(c, 7) == []
    ensures Half(c, 6) == []
    ensures Half(c, 5) == []
  {
    assert Half(c, 9) == [];
    assert Half(c, 8) == [];
    assert Half(c, 7) == [];
    assert Half(c, 6) == [];
    assert Half(c, 5) == [];
  }

  lemma Row2Low(c: seq<int>)
    requires c == [4, 2, 0, 0, 0, 0, 0, 0, 0, 0] && IsCounts(c)
    requires Half(c, 5) == []
    ensures Half(c, 4) == []
    ensures Half(c, 3) == []
    ensures Half(c, 2) == []
    ensures Half(c, 1) == [1]
    ensures Half(c, 0) == [1, 0, 0]
  {
    assert Half(c, 4) == [];
    assert Half(c, 3) == [];
    assert Half(c, 2) == [];
    assert Repeat(1, 1) == [1];
    assert Half(c, 1) == [1];
    assert Repeat(0, 2) == [0, 0];
    assert Half(c, 0) == [1, 0, 0];
  }

  lemma Row2Middle(c: seq<int>)
    requires c == [4, 2, 0, 0, 0, 0, 0, 0, 0, 0] && IsCounts(c)
    requires Half(c, 9) == []
    requires Half(c, 8) == []
    requires Half(c, 7) == []
    requires Half(c, 6) == []
    requires Half(c, 5) == []
    requires Half(c, 4) == []
    requires Half(c, 3) == []
    requires Half(c, 2) == []
    requires Half(c, 1) == [1]
    ensures Middle(c, 0) == None
  {
    assert Middle(c, 9) == None;
    assert Middle(c, 8) == None;
    assert Middle(c, 7) == None;
    assert Middle(c, 6) == None;
    assert Middle(c, 5) == None;
    assert Middle(c, 4) == None;
    assert Middle(c, 3) == None;
    assert Middle(c, 2) == None;
    assert Middle(c, 1) == None;
    assert Middle(c, 0) == None;
  }

  lemma Row2Result(c: seq<int>)
    requires c == [4, 2, 0, 0, 0, 0, 0, 0, 0, 0]
    ensures IsCounts(c) && Largest(c) == "100001"
  {
    Row2High(c);
    Row2Low(c);
    Row2Middle(c);
    assert Chars([1, 0, 0]) == "100";
    assert Mirror([1, 0, 0]) == "001";
  }

  /** Row 3 of the driver: "777" gives "777". */
  lemma Row3()
    ensures Largest(DigitCounts("777")) == "777"
  {
    Row3Counts();
    Row3Result(DigitCounts("777"));
  }

  lemma Row3Counts()
    ensures DigitCounts("777") == [0, 0, 0, 0, 0, 0, 0, 3, 0, 0]
  {
  }

  lemma Row3High(c: seq<int>)
    requires c == [0, 0, 0, 0, 0, 0, 0, 3, 0, 0]
    ensures IsCounts(c)
    ensures Half(c, 9) == []
    ensures Half(c, 8) == []
    ensures Half(c, 7) == [7]
    ensures Half(c, 6) == [7]
    ensures Half(c, 5) == [7]
  {
    assert Half(c, 9) == [];
    assert Half(c, 8) == [];
    assert Repeat(7, 1) == [7];
    assert Half(c, 7) == [7];
    assert Half(c, 6) == [7];
    assert Half(c, 5) == [7];
  }

  lemma Row3Low(c: seq<int>)
    requires c == [0, 0, 0, 0, 0, 0, 0, 3, 0, 0] && IsCounts(c)
    requires Half(c, 5) == [7]
    ensures Half(c, 4) == [7]
    ensures Half(c, 3) == [7]
    ensures Half(c, 2) == [7]
    ensures Half(c, 1) == [7]
    ensures Half(c, 0) == [7]
  {
    assert Half(c, 4) == [7];
    assert Half(c, 3) == [7];
    assert Half(c, 2) == [7];
    assert Half(c, 1) == [7];
    assert Half(c, 0) == [7];
  }

  lemma Row3Middle(c: seq<int>)
    requires c == [0, 0, 0, 0, 0, 0, 0, 3, 0, 0] && IsCounts(c)
    requires Half(c, 9) == []
    requires Half(c, 8) == []
    requires Half(c, 7) == [7]
    requires Half(c, 6) == [7]
    requires Half(c, 5) == [7]
    requires Half(c, 4) == [7]
    requires Half(c, 3) == [7]
    requires Half(c, 2) == [7]
    requires Half(c, 1) == [7]
    ensures Middle(c, 0) == Some(7)
  {
    assert Middle(c, 9) == None;
    assert Middle(c, 8) == None;
    assert Middle(c, 7) == Some(7);
    assert Middle(c, 6) == Some(7);
    assert Middle(c, 5) == Some(7);
    assert Middle(c, 4) == Some(7);
    assert Middle(c, 3) == Some(7);
    assert Middle(c, 2) == Some(7);
    assert Middle(c, 1) == Some(7);
    assert Middle(c, 0) == Some(7);
  }

  lemma Row3Result(c: seq<int>)
    requires c == [0, 0, 0, 0, 0, 0, 0, 3, 0, 0]
    ensures IsCounts(c) && Largest(c) == "777"
  {
    Row3High(c);
    Row3Low(c);
    Row3Middle(c);
    assert Chars([7]) == "7";
    assert Mirror([7]) == "7";
  }

  /** Row 4 of the driver: "" gives "". */
  lemma Row4()
    ensures Largest(DigitCounts("")) == ""
  {
    Row4Counts();
    Row4Result(DigitCounts(""));
  }

  lemma Row4Counts()
    ensures DigitCounts("") == [0, 0, 0, 0, 0, 0, 0, 0, 0, 0]
  {
  }

  lemma Row4High(c: seq<int>)
    requires c == [0, 0, 0, 0, 0, 0, 0, 0, 0, 0]
    ensures IsCounts(c)
    ensures Half(c, 9) == []
    ensures Half(c, 8) == []
    ensures Half(c, 7) == []
    ensures Half(c, 6) == []
    ensures Half(c, 5) == []
  {
    assert Half(c, 9) == [];
    assert Half(c, 8) == [];
    assert Half(c, 7) == [];
    assert Half(c, 6) == [];
    assert Half(c, 5) == [];
  }

  lemma Row4Low(c: seq<int>)
    requires c == [0, 0, 0, 0, 0, 0, 0, 0, 0, 0] && IsCounts(c)
    requires Half(c, 5) == []
    ensures Half(c, 4) == []
    ensures Half(c, 3) == []
    ensures Half(c, 2) == []
    ensures Half(c, 1) == []
    ensures Half(c, 0) == []
  {
    assert Half(c, 4) == [];
    assert Half(c, 3) == [];
    assert Half(c, 2) == [];
    assert Half(c, 1) == [];
    assert Half(c, 0) == [];
  }

  lemma Row4Middle(c: seq<int>)
    requires c == [0, 0, 0, 0, 0, 0, 0, 0, 0, 0] && IsCounts(c)
    requires Half(c, 9) == []
    requires Half(c, 8) == []
    requires Half(c, 7) == []
    requires Half(c, 6) == []
    requires Half(c, 5) == []
    requires Half(c, 4) == []
    requires Half(c, 3) == []
    requires Half(c, 2) == []
    requires Half(c, 1) == []
    ensures Middle(c, 0) == None
  {
    assert Middle(c, 9) == None;
    assert Middle(c, 8) == None;
    assert Middle(c, 7) == None;
    assert Middle(c, 6) == None;
    assert Middle(c, 5) == None;
    assert Middle(c, 4) == None;
    assert Middle(c, 3) == None;
    assert Middle(c, 2) == None;
    assert Middle(c, 1) == None;
    assert Middle(c, 0) == None;
  }

  lemma Row4Result(c: seq<int>)
    requires c == [0, 0, 0, 0, 0, 0, 0, 0, 0, 0]
    ensures IsCounts(c) && Largest(c) == ""
  {
    Row4High(c);
    Row4Low(c);
    Row4Middle(c);
    assert Chars([]) == "";
    assert Mirror([]) == "";
  }

  /** Row 5 of the driver: "5" gives "5". */
  lemma Row5()
    ensures Largest(DigitCounts("5")) == "5"
  {
    Row5Counts();
    Row5Result(DigitCounts("5"));
  }

  lemma Row5Counts()
    ensures DigitCounts("5") == [0, 0, 0, 0, 0, 1, 0, 0, 0, 0]
  {
  }

  lemma Row5High(c: seq<int>)
    requires c == [0, 0, 0, 0, 0, 1, 0, 0, 0, 0]
    ensures IsCounts(c)
    ensures Half(c, 9) == []
    ensures Half(c, 8) == []
    ensures Half(c, 7) == []
    ensures Half(c, 6) == []
    ensures Half(c, 5) == []
  {
    assert Half(c, 9) == [];
    assert Half(c, 8) == [];
    assert Half(c, 7) == [];
    assert Half(c, 6) == [];
    assert Half(c, 5) == [];
  }

  lemma Row5Low(c: seq<int>)
    requires c == [0, 0, 0, 0, 0, 1, 0, 0, 0, 0] && IsCounts(c)
    requires Half(c, 5) == []
    ensures Half(c, 4) == []
    ensures Half(c, 3) == []
    ensures Half(c, 2) == []
    ensures Half(c, 1) == []
    ensures Half(c, 0) == []
  {
    assert Half(c, 4) == [];
    assert Half(c, 3) == [];
    assert Half(c, 2) == [];
    assert Half(c, 1) == [];
    assert Half(c, 0) == [];
  }

  lemma Row5Middle(c: seq<int>)
    requires c == [0, 0, 0, 0, 0, 1, 0, 0, 0, 0] && IsCounts(c)
    requires Half(c, 9) == []
    requires Half(c, 8) == []
    requires Half(c, 7) == []
    requires Half(c, 6) == []
    requires Half(c, 5) == []
    requires Half(c, 4) == []
    requires Half(c, 3) == []
    requires Half(c, 2) == []
    requires Half(c, 1) == []
    ensures Middle(c, 0) == Some(5)
  {
    assert Middle(c, 9) == None;
    assert Middle(c, 8) == None;
    assert Middle(c, 7) == None;
    assert Middle(c, 6) == None;
    assert Middle(c, 5) == Some(5);
    assert Middle(c, 4) == Some(5);
    assert Middle(c, 3) == Some(5);
    assert Middle(c, 2) == Some(5);
    assert Middle(c, 1) == Some(5);
    assert Middle(c, 0) == Some(5);
  }

  lemma Row5Result(c: seq<int>)
    requires c == [0, 0, 0, 0, 0, 1, 0, 0, 0, 0]
    ensures IsCounts(c) && Largest(c) == "5"
  {
    Row5High(c);
    Row5Low(c);
    Row5Middle(c);
    assert Chars([]) == "";
    assert Mirror([]) == "";
  }

  /** Row 7 of the driver: "909" gives "909". */
  lemma Row7()
    ensures Largest(DigitCounts("909")) == "909"
  {
    Row7Counts();
    Row7Result(DigitCounts("909"));
  }

  lemma Row7Counts()
    ensures DigitCounts("909") == [1, 0, 0, 0, 0, 0, 0, 0, 0, 2]
  {
  }

  lemma Row7High(c: seq<int>)
    requires c == [1, 0, 0, 0, 0, 0, 0, 0, 0, 2]
    ensures IsCounts(c)
    ensures Half(c, 9) == [9]
    ensures Half(c, 8) == [9]
    ensures Half(c, 7) == [9]
    ensures Half(c, 6) == [9]
    ensures Half(c, 5) == [9]
  {
    assert Repeat(9, 1) == [9];
    assert Half(c, 9) == [9];
    assert Half(c, 8) == [9];
    assert Half(c, 7) == [9];
    assert Half(c, 6) == [9];
    assert Half(c, 5) == [9];
  }

  lemma Row7Low(c: seq<int>)
    requires c == [1, 0, 0, 0, 0, 0, 0, 0, 0, 2] && IsCounts(c)
    requires Half(c, 5) == [9]
    ensures Half(c, 4) == [9]
    ensures Half(c, 3) == [9]
    ensures Half(c, 2) == [9]
    ensures Half(c, 1) == [9]
    ensures Half(c, 0) == [9]
  {
    assert Half(c, 4) == [9];
    assert Half(c, 3) == [9];
    assert Half(c, 2) == [9];
    assert Half(c, 1) == [9];
    assert Half(c, 0) == [9];
  }

  lemma Row7Middle(c: seq<int>)
    requires c == [1, 0, 0, 0, 0, 0, 0, 0, 0, 2] && IsCounts(c)
    requires Half(c, 9) == [9]
    requires Half(c, 8) == [9]
    requires Half(c, 7) == [9]
    requires Half(c, 6) == [9]
    requires Half(c, 5) == [9]
    requires Half(c, 4) == [9]
    requires Half(c, 3) == [9]
    requires Half(c, 2) == [9]
    requires Half(c, 1) == [9]
    ensures Middle(c, 0) == Some(0)
  {
    assert Middle(c, 9) == None;
    assert Middle(c, 8) == None;
    assert Middle(c, 7) == None;
    assert Middle(c, 6) == None;
    assert Middle(c, 5) == None;
    assert Middle(c, 4) == None;
    assert Middle(c, 3) == None;
    assert Middle(c, 2) == None;
    assert Middle(c, 1) == None;
    assert Middle(c, 0) == Some(0);
  }

  lemma Row7Result(c: seq<int>)
    requires c == [1, 0, 0, 0, 0, 0, 0, 0, 0, 2]
    ensures IsCounts(c) && Largest(c) == "909"
  {
    Row7High(c);
    Row7Low(c);
    Row7Middle(c);
    assert Chars([9]) == "9";
    assert Mirror([9]) == "9";
  }

  /** Row 8 of the driver: "0" gives "0". */
  lemma Row8()
    ensures Largest(DigitCounts("0")) == "0"
  {
    Row8Counts();
    Row8Result(DigitCounts("0"));
  }

  lemma Row8Counts()
    ensures DigitCounts("0") == [1, 0, 0, 0, 0, 0, 0, 0, 0, 0]
  {
  }

  lemma Row8High(c: seq<int>)
    requires c == [1, 0, 0, 0, 0, 0, 0, 0, 0, 0]
    ensures IsCounts(c)
    ensures Half(c, 9) == []
    ensures Half(c, 8) == []
    ensures Half(c, 7) == []
    ensures Half(c, 6) == []
    ensures Half(c, 5) == []
  {
    assert Half(c, 9) == [];
    assert Half(c, 8) == [];
    assert Half(c, 7) == [];
    assert Half(c, 6) == [];
    assert Half(c, 5) == [];
  }

  lemma Row8Low(c: seq<int>)
    requires c == [1, 0, 0, 0, 0, 0, 0, 0, 0, 0] && IsCounts(c)
    requires Half(c, 5) == []
    ensures Half(c, 4) == []
    ensures Half(c, 3) == []
    ensures Half(c, 2) == []
    ensures Half(c, 1) == []
    ensures Half(c, 0) == []
  {
    assert Half(c, 4) == [];
    assert Half(c, 3) == [];
    assert Half(c, 2) == [];
    assert Half(c, 1) == [];
    assert Half(c, 0) == [];
  }

  lemma Row8Middle(c: seq<int>)
    requires c == [1, 0, 0, 0, 0, 0, 0, 0, 0, 0] && IsCounts(c)
    requires Half(c, 9) == []
    requires Half(c, 8) == []
    requires Half(c, 7) == []
    requires Half(c, 6) == []
    requires Half(c, 5) == []
    requires Half(c, 4) == []
    requires Half(c, 3) == []
    requires Half(c, 2) == []
    requires Half(c, 1) == []
    ensures Middle(c, 0) == Some(0)
  {
    assert Middle(c, 9) == None;
    assert Middle(c, 8) == None;
    assert Middle(c, 7) == None;
    assert Middle(c, 6) == None;
    assert Middle(c, 5) == None;
    assert Middle(c, 4) == None;
    assert Middle(c, 3) == None;
    assert Middle(c, 2) == None;
    assert Middle(c, 1) == None;
    assert Middle(c, 0) == Some(0);
  }

  lemma Row8Result(c: seq<int>)
    requires c == [1, 0, 0, 0, 0, 0, 0, 0, 0, 0]
    ensures IsCounts(c) && Largest(c) == "0"
  {
    Row8High(c);
    Row8Low(c);
    Row8Middle(c);
    assert Chars([]) == "";
    assert Mirror([]) == "";
  }

  /** Row 10 of the driver: "00000" gives "0". */
  lemma Row10()
    ensures Largest(DigitCounts("00000")) == "0"
  {
    Row10Counts();
    Row10Result(DigitCounts("00000"));
  }

  lemma Row10Counts()
    ensures DigitCounts("00000") == [5, 0, 0, 0, 0, 0, 0, 0, 0, 0]
  {
  }

  lemma Row10High(c: seq<int>)
    requires c == [5, 0, 0, 0, 0, 0, 0, 0, 0, 0]
    ensures IsCounts(c)
    ensures Half(c, 9) == []
    ensures Half(c, 8) == []
    ensures Half(c, 7) == []
    ensures Half(c, 6) == []
    ensures Half(c, 5) == []
  {
    assert Half(c, 9) == [];
    assert Half(c, 8) == [];
    assert Half(c, 7) == [];
    assert Half(c, 6) == [];
    assert Half(c, 5) == [];
  }

  lemma Row10Low(c: seq<int>)
    requires c == [5, 0, 0, 0, 0, 0, 0, 0, 0, 0] && IsCounts(c)
    requires Half(c, 5) == []
    ensures Half(c, 4) == []
    ensures Half(c, 3) == []
    ensures Half(c, 2) == []
    ensures Half(c, 1) == []
    ensures Half(c, 0) == []
  {
    assert Half(c, 4) == [];
    assert Half(c, 3) == [];
    assert Half(c, 2) == [];
    assert Half(c, 1) == [];
    assert Half(c, 0) == [];
  }

  lemma Row10Middle(c: seq<int>)
    requires c == [5, 0, 0, 0, 0, 0, 0, 0, 0, 0] && IsCounts(c)
    requires Half(c, 9) == []
    requires Half(c, 8) == []
    requires Half(c, 7) == []
    requires Half(c, 6) == []
    requires Half(c, 5) == []
    requires Half(c, 4) == []
    requires Half(c, 3) == []
    requires Half(c, 2) == []
    requires Half(c, 1) == []
    ensures Middle(c, 0) == Some(0)
  {
    assert Middle(c, 9) == None;
    assert Middle(c, 8) == None;
    assert Middle(c, 7) == None;
    assert Middle(c, 6) == None;
    assert Middle(c, 5) == None;
    assert Middle(c, 4) == None;
    assert Middle(c, 3) == None;
    assert Middle(c, 2) == None;
    assert Middle(c, 1) == None;
    assert Middle(c, 0) == Some(0);
  }

  lemma Row10Result(c: seq<int>)
    requires c == [5, 0, 0, 0, 0, 0, 0, 0, 0, 0]
    ensures IsCounts(c) && Largest(c) == "0"
  {
    Row10High(c);
    Row10Low(c);
    Row10Middle(c);
    assert Chars([]) == "";
    assert Mirror([]) == "";
  }

  /** Row 11 of the driver: "000010" gives "1". */
  lemma Row11()
    ensures Largest(DigitCounts("000010")) == "1"
  {
    Row11Counts();
    Row11Result(DigitCounts("000010"));
  }

  lemma Row11Counts()
    ensures DigitCounts("000010") == [5, 1, 0, 0, 0, 0, 0, 0, 0, 0]
  {
  }

  lemma Row11High(c: seq<int>)
    requires c == [5, 1, 0, 0, 0, 0, 0, 0, 0, 0]
    ensures IsCounts(c)
    ensures Half(c, 9) == []
    ensures Half(c, 8) == []
    ensures Half(c, 7) == []
    ensures Half(c, 6) == []
    ensures Half(c, 5) == []
  {
    assert Half(c, 9) == [];
    assert Half(c, 8) == [];
    assert Half(c, 7) == [];
    assert Half(c, 6) == [];
    assert Half(c, 5) == [];
  }

  lemma Row11Low(c: seq<int>)
    requires c == [5, 1, 0, 0, 0, 0, 0, 0, 0, 0] && IsCounts(c)
    requires Half(c, 5) == []
    ensures Half(c, 4) == []
    ensures Half(c, 3) == []
    ensures Half(c, 2) == []
    ensures Half(c, 1) == []
    ensures Half(c, 0) == []
  {
    assert Half(c, 4) == [];
    assert Half(c, 3) == [];
    assert Half(c, 2) == [];
    assert Half(c, 1) == [];
    assert Half(c, 0) == [];
  }

  lemma Row11Middle(c: seq<int>)
    requires c == [5, 1, 0, 0, 0, 0, 0, 0, 0, 0] && IsCounts(c)
    requires Half(c, 9) == []
    requires Half(c, 8) == []
    requires Half(c, 7) == []
    requires Half(c, 6) == []
    requires Half(c, 5) == []
    requires Half(c, 4) == []
    requires Half(c, 3) == []
    requires Half(c, 2) == []
    requires Half(c, 1) == []
    ensures Middle(c, 0) == Some(1)
  {
    assert Middle(c, 9) == None;
    assert Middle(c, 8) == None;
    assert Middle(c, 7) == None;
    assert Middle(c, 6) == None;
    assert Middle(c, 5) == None;
    assert Middle(c, 4) == None;
    assert Middle(c, 3) == None;
    assert Middle(c, 2) == None;
    assert Middle(c, 1) == Some(1);
    assert Middle(c, 0) == Some(1);
  }

  lemma Row11Result(c: seq<int>)
    requires c == [5, 1, 0, 0, 0, 0, 0, 0, 0, 0]
    ensures IsCounts(c) && Largest(c) == "1"
  {
    Row11High(c);
    Row11Low(c);
    Row11Middle(c);
    assert Chars([]) == "";
    assert Mirror([]) == "";
  }

  /** Row 12 of the driver: "5259190" gives "95259". */
  lemma Row12()
    ensures Largest(DigitCounts("5259190")) == "95259"
  {
    Row12Counts();
    Row12Result(DigitCounts("5259190"));
  }

  lemma Row12Counts()
    ensures DigitCounts("5259190") == [1, 1, 1, 0, 0, 2, 0, 0, 0, 2]
  {
  }

  lemma Row12High(c: seq<int>)
    requires c == [1, 1, 1, 0, 0, 2, 0, 0, 0, 2]
    ensures IsCounts(c)
    ensures Half(c, 9) == [9]
    ensures Half(c, 8) == [9]
    ensures Half(c, 7) == [9]
    ensures Half(c, 6) == [9]
    ensures Half(c, 5) == [9, 5]
  {
    assert Repeat(9, 1) == [9];
    assert Half(c, 9) == [9];
    assert Half(c, 8) == [9];
    assert Half(c, 7) == [9];
    assert Half(c, 6) == [9];
    assert Repeat(5, 1) == [5];
    assert Half(c, 5) == [9, 5];
  }

  lemma Row12Low(c: seq<int>)
    requires c == [1, 1, 1, 0, 0, 2, 0, 0, 0, 2] && IsCounts(c)
    requires Half(c, 5) == [9, 5]
    ensures Half(c, 4) == [9, 5]
    ensures Half(c, 3) == [9, 5]
    ensures Half(c, 2) == [9, 5]
    ensures Half(c, 1) == [9, 5]
    ensures Half(c, 0) == [9, 5]
  {
    assert Half(c, 4) == [9, 5];
    assert Half(c, 3) == [9, 5];
    assert Half(c, 2) == [9, 5];
    assert Half(c, 1) == [9, 5];
    assert Half(c, 0) == [9, 5];
  }

  lemma Row12Middle(c: seq<int>)
    requires c == [1, 1, 1, 0, 0, 2, 0, 0, 0, 2] && IsCounts(c)
    requires Half(c, 9) == [9]
    requires Half(c, 8) == [9]
    requires Half(c, 7) == [9]
    requires Half(c, 6) == [9]
    requires Half(c, 5) == [9, 5]
    requires Half(c, 4) == [9, 5]
    requires Half(c, 3) == [9, 5]
    requires Half(c, 2) == [9, 5]
    requires Half(c, 1) == [9, 5]
    ensures Middle(c, 0) == Some(2)
  {
    assert Middle(c, 9) == None;
    assert Middle(c, 8) == None;
    assert Middle(c, 7) == None;
    assert Middle(c, 6) == None;
    assert Middle(c, 5) == None;
    assert Middle(c, 4) == None;
    assert Middle(c, 3) == None;
    assert Middle(c, 2) == Some(2);
    assert Middle(c, 1) == Some(2);
    assert Middle(c, 0) == Some(2);
  }

  lemma Row12Result(c: seq<int>)
    requires c == [1, 1, 1, 0, 0, 2, 0, 0, 0, 2]
    ensures IsCounts(c) && Largest(c) == "95259"
  {
    Row12High(c);
    Row12Low(c);
    Row12Middle(c);
    assert Chars([9, 5]) == "95";
    assert Mirror([9, 5]) == "59";
  }

  /** Row 13 of the driver: "55990" gives "95059". */
  lemma Row13()
    ensures Largest(DigitCounts("55990")) == "95059"
  {
    Row13Counts();
    Row13Result(DigitCounts("55990"));
  }

  lemma Row13Counts()
    ensures DigitCounts("55990") == [1, 0, 0, 0, 0, 2, 0, 0, 0, 2]
  {
  }

  lemma Row13High(c: seq<int>)
    requires c == [1, 0, 0, 0, 0, 2, 0, 0, 0, 2]
    ensures IsCounts(c)
    ensures Half(c, 9) == [9]
    ensures Half(c, 8) == [9]
    ensures Half(c, 7) == [9]
    ensures Half(c, 6) == [9]
    ensures Half(c, 5) == [9, 5]
  {
    assert Repeat(9, 1) == [9];
    assert Half(c, 9) == [9];
    assert Half(c, 8) == [9];
    assert Half(c, 7) == [9];
    assert Half(c, 6) == [9];
    assert Repeat(5, 1) == [5];
    assert Half(c, 5) == [9, 5];
  }

  lemma Row13Low(c: seq<int>)
    requires c == [1, 0, 0, 0, 0, 2, 0, 0, 0, 2] && IsCounts(c)
    requires Half(c, 5) == [9, 5]
    ensures Half(c, 4) == [9, 5]
    ensures Half(c, 3) == [9, 5]
    ensures Half(c, 2) == [9, 5]
    ensures Half(c, 1) == [9, 5]
    ensures Half(c, 0) == [9, 5]
  {
    assert Half(c, 4) == [9, 5];
    assert Half(c, 3) == [9, 5];
    assert Half(c, 2) == [9, 5];
    assert Half(c, 1) == [9, 5];
    assert Half(c, 0) == [9, 5];
  }

  lemma Row13Middle(c: seq<int>)
    requires c == [1, 0, 0, 0, 0, 2, 0, 0, 0, 2] && IsCounts(c)
    requires Half(c, 9) == [9]
    requires Half(c, 8) == [9]
    requires Half(c, 7) == [9]
    requires Half(c, 6) == [9]
    requires Half(c, 5) == [9, 5]
    requires Half(c, 4) == [9, 5]
    requires Half(c, 3) == [9, 5]
    requires Half(c, 2) == [9, 5]
    requires Half(c, 1) == [9, 5]
    ensures Middle(c, 0) == Some(0)
  {
    assert Middle(c, 9) == None;
    assert Middle(c, 8) == None;
    assert Middle(c, 7) == None;
    assert Middle(c, 6) == None;
    assert Middle(c, 5) == None;
    assert Middle(c, 4) == None;
    assert Middle(c, 3) == None;
    assert Middle(c, 2) == None;
    assert Middle(c, 1) == None;
    assert Middle(c, 0) == Some(0);
  }

  lemma Row13Result(c: seq<int>)
    requires c == [1, 0, 0, 0, 0, 2, 0, 0, 0, 2]
    ensures IsCounts(c) && Largest(c) == "95059"
  {
    Row13High(c);
    Row13Low(c);
    Row13Middle(c);
    assert Chars([9, 5]) == "95";
    assert Mirror([9, 5]) == "59";
  }

  /** Row 14 of the driver: "444947137" gives "7449447". */
  lemma Row14()
    ensures Largest(DigitCounts("444947137")) == "7449447"
  {
    Row14Counts();
    Row14Result(DigitCounts("444947137"));
  }

  lemma Row14Counts()
    ensures DigitCounts("444947137") == [0, 1, 0, 1, 4, 0, 0, 2, 0, 1]
  {
  }

  lemma Row14High(c: seq<int>)
    requires c == [0, 1, 0, 1, 4, 0, 0, 2, 0, 1]
    ensures IsCounts(c)
    ensures Half(c, 9) == []
    ensures Half(c, 8) == []
    ensures Half(c, 7) == [7]
    ensures Half(c, 6) == [7]
    ensures Half(c, 5) == [7]
  {
    assert Half(c, 9) == [];
    assert Half(c, 8) == [];
    assert Repeat(7, 1) == [7];
    assert Half(c, 7) == [7];
    assert Half(c, 6) == [7];
    assert Half(c, 5) == [7];
  }

  lemma Row14Low(c: seq<int>)
    requires c == [0, 1, 0, 1, 4, 0, 0, 2, 0, 1] && IsCounts(c)
    requires Half(c, 5) == [7]
    ensures Half(c, 4) == [7, 4, 4]
    ensures Half(c, 3) == [7, 4, 4]
    ensures Half(c, 2) == [7, 4, 4]
    ensures Half(c, 1) == [7, 4, 4]
    ensures Half(c, 0) == [7, 4, 4]
  {
    assert Repeat(4, 2) == [4, 4];
    assert Half(c, 4) == [7, 4, 4];
    assert Half(c, 3) == [7, 4, 4];
    assert Half(c, 2) == [7, 4, 4];
    assert Half(c, 1) == [7, 4, 4];
    assert Half(c, 0) == [7, 4, 4];
  }

  lemma Row14Middle(c: seq<int>)
    requires c == [0, 1, 0, 1, 4, 0, 0, 2, 0, 1] && IsCounts(c)
    requires Half(c, 9) == []
    requires Half(c, 8) == []
    requires Half(c, 7) == [7]
    requires Half(c, 6) == [7]
    requires Half(c, 5) == [7]
    requires Half(c, 4) == [7, 4, 4]
    requires Half(c, 3) == [7, 4, 4]
    requires Half(c, 2) == [7, 4, 4]
    requires Half(c, 1) == [7, 4, 4]
    ensures Middle(c, 0) == Some(9)
  {
    assert Middle(c, 9) == Some(9);
    assert Middle(c, 8) == Some(9);
    assert Middle(c, 7) == Some(9);
    assert Middle(c, 6) == Some(9);
    assert Middle(c, 5) == Some(9);
    assert Middle(c, 4) == Some(9);
    assert Middle(c, 3) == Some(9);
    assert Middle(c, 2) == Some(9);
    assert Middle(c, 1) == Some(9);
    assert Middle(c, 0) == Some(9);
  }

  lemma Row14Result(c: seq<int>)
    requires c == [0, 1, 0, 1, 4, 0, 0, 2, 0, 1]
    ensures IsCounts(c) && Largest(c) == "7449447"
  {
    Row14High(c);
    Row14Low(c);
    Row14Middle(c);
    assert Chars([7, 4, 4]) == "744";
    assert Mirror([7, 4, 4]) == "447";
  }

  /** Row 15 of the driver: "00009" gives "9". */
  lemma Row15()
    ensures Largest(DigitCounts("00009")) == "9"
  {
    Row15Counts();
    Row15Result(DigitCounts("00009"));
  }

  lemma Row15Counts()
    ensures DigitCounts("00009") == [4, 0, 0, 0, 0, 0, 0, 0, 0, 1]
  {
  }

  lemma Row15High(c: seq<int>)
    requires c == [4, 0, 0, 0, 0, 0, 0, 0, 0, 1]
    ensures IsCounts(c)
    ensures Half(c, 9) == []
    ensures Half(c, 8) == []
    ensures Half(c, 7) == []
    ensures Half(c, 6) == []
    ensures Half(c, 5) == []
  {
    assert Half(c, 9) == [];
    assert Half(c, 8) == [];
    assert Half(c, 7) == [];
    assert Half(c, 6) == [];
    assert Half(c, 5) == [];
  }

  lemma Row15Low(c: seq<int>)
    requires c == [4, 0, 0, 0, 0, 0, 0, 0, 0, 1] && IsCounts(c)
    requires Half(c, 5) == []
    ensures Half(c, 4) == []
    ensures Half(c, 3) == []
    ensures Half(c, 2) == []
    ensures Half(c, 1) == []
    ensures Half(c, 0) == []
  {
    assert Half(c, 4) == [];
    assert Half(c, 3) == [];
    assert Half(c, 2) == [];
    assert Half(c, 1) == [];
    assert Half(c, 0) == [];
  }

  lemma Row15Middle(c: seq<int>)
    requires c == [4, 0, 0, 0, 0, 0, 0, 0, 0, 1] && IsCounts(c)
    requires Half(c, 9) == []
    requires Half(c, 8) == []
    requires Half(c, 7) == []
    requires Half(c, 6) == []
    requires Half(c, 5) == []
    requires Half(c, 4) == []
    requires Half(c, 3) == []
    requires Half(c, 2) == []
    requires Half(c, 1) == []
    ensures Middle(c, 0) == Some(9)
  {
    assert Middle(c, 9) == Some(9);
    assert Middle(c, 8) == Some(9);
    assert Middle(c, 7) == Some(9);
    assert Middle(c, 6) == Some(9);
    assert Middle(c, 5) == Some(9);
    assert Middle(c, 4) == Some(9);
    assert Middle(c, 3) == Some(9);
    assert Middle(c, 2) == Some(9);
    assert Middle(c, 1) == Some(9);
    assert Middle(c, 0) == Some(9);
  }

  lemma Row15Result(c: seq<int>)
    requires c == [4, 0, 0, 0, 0, 0, 0, 0, 0, 1]
    ensures IsCounts(c) && Largest(c) == "9"
  {
    Row15High(c);
    Row15Low(c);
    Row15Middle(c);
    assert Chars([]) == "";
    assert Mirror([]) == "";
  }
}
