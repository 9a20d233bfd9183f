/**
 * Letter combinations of a phone number (src/array_combinations.cc): each digit
 * stands for a few letters, and the combinations are grown digit by digit by
 * appending every letter of the next digit to every string so far.
 */
module Combinations {
  /** The letters a phone digit 0..9 stands for; 0 and 1 stand for none. */
  function Letters(n: int): (letters: seq<char>)
    requires 0 <= n <= 9
    ensures 2 <= n ==> 3 <= |letters| <= 4
    ensures n < 2 ==> letters == []
  {
    [[], [], ['a', 'b', 'c'], ['d', 'e', 'f'], ['g', 'h', 'i'], ['j', 'k', 'l'],
     ['m', 'n', 'o'], ['p', 'q', 'r', 's'], ['t', 'u', 'v'], ['w', 'x', 'y', 'z']][n]
  }

  /** The copies of the existing strings with letter c appended, or c alone when there are none. */
  function Appended(existing: seq<string>, c: char): (r: seq<string>)
    ensures |r| == if existing == [] then 1 else |existing|
  {
    if existing == [] then [[c]] else seq(|existing|, i requires 0 <= i < |existing| => existing[i] + [c])
  }

  /** What explode has built after the first k letters of newChars. */
  function ExplodeUpTo(existing: seq<string>, newChars: seq<char>, k: nat): seq<string>
    requires k <= |newChars|
  {
    if k == 0 then [] else ExplodeUpTo(existing, newChars, k - 1) + Appended(existing, newChars[k - 1])
  }

  /** The result of explode. */
  function ExplodeResult(existing: seq<string>, newChars: seq<char>): seq<string>
  {
    ExplodeUpTo(existing, newChars, |newChars|)
  }

  /** The number of strings explode builds: one per letter, times the existing strings if any. */
  lemma {:induction false} ExplodeLength(existing: seq<string>, newChars: seq<char>, k: nat)
    requires k <= |newChars|
    ensures |ExplodeUpTo(existing, newChars, k)| == k * (if existing == [] then 1 else |existing|)
  {
    if k > 0 {
      ExplodeLength(existing, newChars, k - 1);
      var m := if existing == [] then 1 else |existing|;
      assert k * m == (k - 1) * m + m;
    }
  }

  /** The copies for one letter: strings ending in c, made of c alone or of an existing string and c. */
  lemma AppendedMember(existing: seq<string>, c: char, x: string)
    ensures x in Appended(existing, c) <==>
      |x| > 0 && x[|x| - 1] == c && (if existing == [] then |x| == 1 else x[..|x| - 1] in existing)
  {
    if existing != [] {
      if x in Appended(existing, c) {
        var i :| 0 <= i < |existing| && Appended(existing, c)[i] == x;
        assert x[..|x| - 1] == existing[i];
      }
      if |x| > 0 && x[|x| - 1] == c && x[..|x| - 1] in existing {
        var i :| 0 <= i < |existing| && existing[i] == x[..|x| - 1];
        assert Appended(existing, c)[i] == x;
      }
    } else if |x| == 1 && x[0] == c {
      assert x == [c];
    }
  }

  /**
   * The strings explode builds end in one of the letters; with no existing strings they
   * are that letter alone, and otherwise an existing string comes before it.
   */
  lemma {:induction false} ExplodeMember(existing: seq<string>, newChars: seq<char>, k: nat, x: string)
    requires k <= |newChars|
    ensures x in ExplodeUpTo(existing, newChars, k) <==>
      |x| > 0 && x[|x| - 1] in newChars[..k] &&
      (if existing == [] then |x| == 1 else x[..|x| - 1] in existing)
  {
    if k > 0 {
      ExplodeMember(existing, newChars, k - 1, x);
      AppendedMember(existing, newChars[k - 1], x);
      assert newChars[..k] == newChars[..k - 1] + [newChars[k - 1]];
    }
  }

  /** explode: each letter of newChars, in order, appended to each existing string in order. */
  method Explode(existingStrings: seq<string>, newChars: seq<char>) returns (newStrings: seq<string>)
    ensures newStrings == ExplodeResult(existingStrings, newChars)
    ensures |newStrings| == |newChars| * (if existingStrings == [] then 1 else |existingStrings|)
  {
    newStrings := [];
    for l := 0 to |newChars|
      invariant newStrings == ExplodeUpTo(existingStrings, newChars, l)
    {
      var letter := newChars[l];
      if |existingStrings| == 0 {
        newStrings := newStrings + [[letter]];
      } else {
        for i := 0 to |existingStrings|
          invariant newStrings == ExplodeUpTo(existingStrings, newChars, l) + Appended(existingStrings, letter)[..i]
        {
          assert Appended(existingStrings, letter)[..i + 1] ==
            Appended(existingStrings, letter)[..i] + [existingStrings[i] + [letter]];
          newStrings := newStrings + [existingStrings[i] + [letter]];
        }
        assert Appended(existingStrings, letter)[..|existingStrings|] == Appended(existingStrings, letter);
      }
    }
    ExplodeLength(existingStrings, newChars, |newChars|);
  }

  predicate IsDigitChar(c: char)
  {
    '0' <= c <= '9'
  }

  /** The digit a character stands for, as c - '0'. */
  function DigitValue(c: char): (n: int)
    requires IsDigitChar(c)
    ensures 0 <= n <= 9
  {
    c as int - '0' as int
  }

  /** The results after the first k digits: each digit's letters exploded onto the results so far. */
  function PhoneUpTo(digits: string, k: nat): seq<string>
    requires k <= |digits| && forall j :: 0 <= j < |digits| ==> IsDigitChar(digits[j])
  {
    if k == 0 then [] else ExplodeResult(PhoneUpTo(digits, k - 1), Letters(DigitValue(digits[k - 1])))
  }

  /** phone_number_letters: the results are folded through explode, one digit at a time. */
  method PhoneNumberLetters(digits: string) returns (results: seq<string>)
    requires forall j :: 0 <= j < |digits| ==> IsDigitChar(digits[j])
    ensures results == PhoneUpTo(digits, |digits|)
  {
    results := [];
    for k := 0 to |digits|
      invariant results == PhoneUpTo(digits, k)
    {
      var n := DigitValue(digits[k]);
      results := Explode(results, Letters(n));
    }
  }

  predicate AllLetterDigits(digits: string)
  {
    forall j :: 0 <= j < |digits| ==> '2' <= digits[j] <= '9'
  }

  /** The number of combinations of the first k digits: the product of their letter counts. */
  function Combinations(digits: string, k: nat): nat
    requires k <= |digits| && AllLetterDigits(digits)
  {
    if k == 0 then 1 else |Letters(DigitValue(digits[k - 1]))| * Combinations(digits, k - 1)
  }

  /** For digits 2..9, the number of combinations is the product of the letter counts. */
  lemma {:induction false} PhoneCount(digits: string, k: nat)
    requires 1 <= k <= |digits| && AllLetterDigits(digits)
    ensures |PhoneUpTo(digits, k)| == Combinations(digits, k) > 0
  {
    var letters := Letters(DigitValue(digits[k - 1]));
    var before := PhoneUpTo(digits, k - 1);
    ExplodeLength(before, letters, |letters|);
    if k > 1 {
      PhoneCount(digits, k - 1);
      MulPositive(|letters|, Combinations(digits, k - 1));
    }
  }

  lemma MulPositive(a: nat, b: nat)
    requires a > 0 && b > 0
    ensures a * b > 0
  {
  }

  /** Every choice of one letter per digit, in digit order. */
  ghost predicate OneLetterEach(digits: string, k: nat, x: string)
    requires k <= |digits| && forall j :: 0 <= j < |digits| ==> IsDigitChar(digits[j])
  {
    |x| == k && forall j :: 0 <= j < k ==> x[j] in Letters(DigitValue(digits[j]))
  }

  /** A choice for k digits is a choice for the first k - 1 followed by a letter of digit k. */
  lemma OneLetterEachSnoc(digits: string, k: nat, x: string)
    requires 1 <= k <= |digits| && forall j :: 0 <= j < |digits| ==> IsDigitChar(digits[j])
    ensures OneLetterEach(digits, k, x) <==>
      |x| > 0 && x[|x| - 1] in Letters(DigitValue(digits[k - 1])) && OneLetterEach(digits, k - 1, x[..|x| - 1])
  {
    if |x| == k {
      assert forall j :: 0 <= j < k - 1 ==> x[..|x| - 1][j] == x[j];
    }
  }

  /** One digit more: the results are the earlier ones, or nothing for the first digit, followed by one of its letters. */
  lemma PhoneStep(digits: string, k: nat, x: string)
    requires 1 <= k <= |digits| && AllLetterDigits(digits)
    ensures x in PhoneUpTo(digits, k) <==>
      |x| > 0 && x[|x| - 1] in Letters(DigitValue(digits[k - 1])) &&
      (if k == 1 then |x| == 1 else x[..|x| - 1] in PhoneUpTo(digits, k - 1))
  {
    var letters := Letters(DigitValue(digits[k - 1]));
    ExplodeMember(PhoneUpTo(digits, k - 1), letters, |letters|, x);
    assert letters[..|letters|] == letters;
    if k > 1 {
      PhoneCount(digits, k - 1);
    }
  }

  /**
   * For digits 2..9 and at least one digit, the results are exactly the strings with one
   * letter of each digit in turn.
   */
  lemma {:induction false} PhoneCombinations(digits: string, k: nat, x: string)
    requires 1 <= k <= |digits| && AllLetterDigits(digits)
    ensures x in PhoneUpTo(digits, k) <==> OneLetterEach(digits, k, x)
  {
    PhoneStep(digits, k, x);
    OneLetterEachSnoc(digits, k, x);
    if k > 1 && |x| > 0 {
      PhoneCombinations(digits, k - 1, x[..|x| - 1]);
    }
  }

  /** No digits give no combinations. */
  lemma PhoneEmpty()
    ensures PhoneUpTo("", 0) == []
  {
  }

  /** The first row of the driver: "1" gives nothing. */
  lemma PhoneExampleOne()
    ensures PhoneUpTo("1", 1) == []
  {
  }

  /** The second row of the driver: "23" gives the nine pairs, the letter of 2 varying fastest. */
  lemma PhoneExampleTwoThree()
    ensures PhoneUpTo("23", 2) == ["ad", "bd", "cd", "ae", "be", "ce", "af", "bf", "cf"]
  {
    var abc := ["a", "b", "c"];
    assert PhoneUpTo("23", 1) == abc;
    assert Letters(DigitValue('3')) == "def";
    AppendedToThree(abc, 'd');
    AppendedToThree(abc, 'e');
    AppendedToThree(abc, 'f');
    assert ExplodeUpTo(abc, "def", 1) == ["ad", "bd", "cd"];
    assert ExplodeUpTo(abc, "def", 2) == ["ad", "bd", "cd", "ae", "be", "ce"];
  }

  /** The copies of a, b and c with one letter appended. */
  lemma AppendedToThree(abc: seq<string>, c: char)
    requires abc == ["a", "b", "c"]
    ensures Appended(abc, c) == [['a', c], ['b', c], ['c', c]]
  {
    assert Appended(abc, c)[0] == ['a', c];
    assert Appended(abc, c)[1] == ['b', c];
    assert Appended(abc, c)[2] == ['c', c];
  }

  /**
   * A 1 empties the results, so a later digit starts again from its letters alone:
   * "213" gives d, e and f.
   */
  lemma PhoneOneRestarts()
    ensures PhoneUpTo("213", 3) == ["d", "e", "f"]
  {
    assert PhoneUpTo("213", 1) == ["a", "b", "c"];
    assert PhoneUpTo("213", 2) == [];
  }
}
