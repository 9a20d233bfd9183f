/**
 * String puzzles solved with hash maps (src/hashmap_strings.cc): isomorphic strings,
 * words following a letter pattern, anagrams, and grouping words into anagram classes.
 */
module HashmapStrings {
  /** Among the first n positions, x repeats an element exactly where y does. */
  ghost predicate PatternUpTo<A, B>(x: seq<A>, y: seq<B>, n: nat)
    requires n <= |x| && n <= |y|
  {
    forall p, q :: 0 <= p < n && 0 <= q < n ==> (x[p] == x[q] <==> y[p] == y[q])
  }

  /** x and y have the same shape: equal length, and equal elements at the same positions. */
  ghost predicate SamePattern<A, B>(x: seq<A>, y: seq<B>)
  {
    |x| == |y| && PatternUpTo(x, y, |x|)
  }

  /** m sends each element of x to the element of y at the same position, and no two keys to one value. */
  ghost predicate OneToOne<A, B>(m: map<A, B>, x: seq<A>, y: seq<B>)
    requires |x| == |y|
  {
    (forall k :: 0 <= k < |x| ==> x[k] in m && m[x[k]] == y[k])
    && (forall u, v :: u in m && v in m && m[u] == m[v] ==> u == v)
  }

  /** Having the same shape is having a one-to-one mapping between the elements, position by position. */
  lemma PatternMapping<A, B>(x: seq<A>, y: seq<B>)
    requires |x| == |y|
    ensures SamePattern(x, y) <==> exists m :: OneToOne(m, x, y)
  {
    if SamePattern(x, y) {
      var m := map k | 0 <= k < |x| :: x[k] := y[k];
      forall k | 0 <= k < |x|
        ensures x[k] in m && m[x[k]] == y[k]
      {
        var k' :| 0 <= k' < |x| && x[k'] == x[k] && m[x[k]] == y[k'];
      }
      forall u, v | u in m && v in m && m[u] == m[v]
        ensures u == v
      {
        var p :| 0 <= p < |x| && x[p] == u && m[u] == y[p];
        var q :| 0 <= q < |x| && x[q] == v && m[v] == y[q];
      }
      assert OneToOne(m, x, y);
    }
    if m :| OneToOne(m, x, y) {
      forall p, q | 0 <= p < |x| && 0 <= q < |x|
        ensures x[p] == x[q] <==> y[p] == y[q]
      {
        assert m[x[p]] == y[p] && m[x[q]] == y[q];
      }
    }
  }

  /**
   * The maps built so far for the pairs (xs[k], ys[k]): fwd sends each xs[k] to ys[k] and bwd
   * sends it back, both hold nothing else, and the pairs seen so far have the same shape.
   */
  ghost predicate Agree<A, B>(xs: seq<A>, ys: seq<B>, fwd: map<A, B>, bwd: map<B, A>)
  {
    |xs| == |ys|
    && (forall k :: 0 <= k < |xs| ==> xs[k] in fwd && fwd[xs[k]] == ys[k] && ys[k] in bwd && bwd[ys[k]] == xs[k])
    && (forall u :: u in fwd ==> u in xs)
    && (forall v :: v in bwd ==> v in ys)
    && SamePattern(xs, ys)
  }

  /**
   * The step are_isomorphic and words_follow_pattern take for each pair: an element with no
   * mapping yet may map to one that nothing maps to yet, and an element already mapped must
   * meet its counterpart again.
   */
  method Bind<A(==), B(==)>(x: A, y: B, fwd: map<A, B>, bwd: map<B, A>, ghost xs: seq<A>, ghost ys: seq<B>)
    returns (ok: bool, fwd': map<A, B>, bwd': map<B, A>)
    requires Agree(xs, ys, fwd, bwd)
    ensures ok <==> SamePattern(xs + [x], ys + [y])
    ensures ok ==> Agree(xs + [x], ys + [y], fwd', bwd')
  {
    var n := |xs|;
    fwd', bwd' := fwd, bwd;
    if x !in fwd {
      if y !in bwd {
        fwd' := fwd[x := y];
        bwd' := bwd[y := x];
        ok := true;
      } else {
        ghost var k :| 0 <= k < n && ys[k] == y;
        Mismatch(xs + [x], ys + [y], k, n);
        ok := false;
      }
    } else {
      ghost var k :| 0 <= k < n && xs[k] == x;
      if fwd[x] != y {
        Mismatch(xs + [x], ys + [y], k, n);
        ok := false;
      } else {
        assert bwd[y] == x by {
          assert ys[k] == y;
        }
        ok := true;
      }
    }
  }

  /** A prefix of two sequences of the same shape has that shape too. */
  lemma PrefixPattern<A, B>(x: seq<A>, y: seq<B>, n: nat)
    requires SamePattern(x, y) && n <= |x|
    ensures SamePattern(x[..n], y[..n])
  {
  }

  /** A prefix of the pattern whose shape differs from the first words rules out the whole. */
  lemma PrefixBreaks<A, B>(x: seq<A>, ys: seq<B>, rest: seq<B>)
    requires |ys| <= |x| && !SamePattern(x[..|ys|], ys)
    ensures !SamePattern(x, ys + rest)
  {
    assert (ys + rest)[..|ys|] == ys;
    if SamePattern(x, ys + rest) {
      PrefixPattern(x, ys + rest, |ys|);
    }
  }

  /** hashmap_strings are_isomorphic: a letter mapping from s to t and its inverse are built up together. */
  method AreIsomorphic(s: string, t: string) returns (r: bool)
    ensures r <==> SamePattern(s, t)
  {
    if |s| != |t| {
      return false;
    }
    var sToT: map<char, char> := map[];
    var tToS: map<char, char> := map[];
    for i := 0 to |s|
      invariant Agree(s[..i], t[..i], sToT, tToS)
    {
      var ok;
      ok, sToT, tToS := Bind(s[i], t[i], sToT, tToS, s[..i], t[..i]);
      assert s[..i + 1] == s[..i] + [s[i]] && t[..i + 1] == t[..i] + [t[i]];
      if !ok {
        if SamePattern(s, t) {
          PrefixPattern(s, t, i + 1);
        }
        return false;
      }
    }
    assert s[..|s|] == s && t[..|t|] == t;
    return true;
  }

  /** Swapping the two strings keeps them isomorphic. */
  lemma PatternSymmetric<A, B>(x: seq<A>, y: seq<B>)
    requires SamePattern(x, y)
    ensures SamePattern(y, x)
  {
  }

  /** The five are_isomorphic calls of the driver. */
  lemma IsomorphicExamples()
    ensures SamePattern("a", "b") && SamePattern("egg", "add") && SamePattern("paper", "title")
    ensures !SamePattern("foo", "bar") && !SamePattern("badc", "baba")
  {
    assert "foo"[1] == "foo"[2] && "bar"[1] != "bar"[2];
    assert "badc"[1] != "badc"[3] && "baba"[1] == "baba"[3];
  }

  /** The index of the first space at or after i, or the end of str. */
  function WordEnd(str: string, i: nat): (e: nat)
    requires i <= |str|
    ensures i <= e <= |str| && (e == |str| || str[e] == ' ')
    ensures forall k :: i <= k < e ==> str[k] != ' '
    decreases |str| - i
  {
    if i == |str| || str[i] == ' ' then i else WordEnd(str, i + 1)
  }

  /**
   * The words of str from index i on: each runs up to the next space, and the next one
   * starts just after it; nothing is left once i reaches the end.
   */
  function WordsFrom(str: string, i: nat): seq<string>
    decreases |str| - i
  {
    if i >= |str| then []
    else
      var e := WordEnd(str, i);
      [str[i..e]] + WordsFrom(str, e + 1)
  }

  /** The space-separated words of str. */
  function Words(str: string): seq<string>
  {
    WordsFrom(str, 0)
  }

  /**
   * Reading the next word in words_follow_pattern: walk from start to the next space or the
   * end; the word is what lies in between, and the next one starts just after.
   */
  method NextWord(str: string, start: nat) returns (word: string, next: nat)
    requires start < |str|
    ensures WordsFrom(str, start) == [word] + WordsFrom(str, next)
  {
    var wordEnd := start;
    while wordEnd < |str| && str[wordEnd] != ' '
      invariant start <= wordEnd <= |str|
      invariant WordEnd(str, start) == WordEnd(str, wordEnd)
    {
      wordEnd := wordEnd + 1;
    }
    word := str[start..wordEnd];
    next := wordEnd + 1;
  }

  /** Two positions where one sequence repeats and the other does not break the shape. */
  lemma Mismatch<A, B>(x: seq<A>, y: seq<B>, p: nat, q: nat)
    requires p < |x| && q < |x| && p < |y| && q < |y| && (x[p] == x[q] <==> y[p] != y[q])
    ensures !SamePattern(x, y)
  {
  }

  /**
   * The state of words_follow_pattern after i letters: seen holds the words read so far, one
   * per letter, the rest of the words start at strIndex, and the maps pair the letters read
   * with the words read.
   */
  ghost predicate Matched(pattern: string, str: string, i: nat, strIndex: nat,
                          letterToWord: map<char, string>, wordToLetter: map<string, char>, seen: seq<string>)
  {
    i <= |pattern| && |seen| == i && seen + WordsFrom(str, strIndex) == Words(str)
    && Agree(pattern[..i], seen, letterToWord, wordToLetter)
  }

  /**
   * One pass of words_follow_pattern's loop while words remain: read the next word and pair
   * it with the next letter, or find that no letter mapping can fit.
   */
  method MatchNext(pattern: string, str: string, i: nat, strIndex: nat,
                   letterToWord: map<char, string>, wordToLetter: map<string, char>, ghost seen: seq<string>)
    returns (ok: bool, strIndex': nat, letterToWord': map<char, string>, wordToLetter': map<string, char>,
             ghost seen': seq<string>)
    requires Matched(pattern, str, i, strIndex, letterToWord, wordToLetter, seen)
    requires i < |pattern| && strIndex < |str|
    ensures ok ==> Matched(pattern, str, i + 1, strIndex', letterToWord', wordToLetter', seen')
    ensures !ok ==> !SamePattern(pattern, Words(str))
  {
    var word;
    word, strIndex' := NextWord(str, strIndex);
    var letter := pattern[i];
    assert pattern[..i + 1] == pattern[..i] + [letter];
    ok, letterToWord', wordToLetter' := Bind(letter, word, letterToWord, wordToLetter, pattern[..i], seen);
    seen' := seen + [word];
    assert Words(str) == seen' + WordsFrom(str, strIndex');
    if !ok {
      PrefixBreaks(pattern, seen', WordsFrom(str, strIndex'));
    }
  }

  /** When the words run out before the letters, the pattern cannot fit. */
  lemma OutOfWords(pattern: string, str: string, i: nat, strIndex: nat,
                   letterToWord: map<char, string>, wordToLetter: map<string, char>, seen: seq<string>)
    requires Matched(pattern, str, i, strIndex, letterToWord, wordToLetter, seen)
    requires i < |pattern| && strIndex >= |str|
    ensures !SamePattern(pattern, Words(str))
  {
    assert seen == Words(str);
  }

  /** Once every letter is paired, the pattern fits exactly when no words are left. */
  lemma AllLetters(pattern: string, str: string, strIndex: nat,
                   letterToWord: map<char, string>, wordToLetter: map<string, char>, seen: seq<string>)
    requires Matched(pattern, str, |pattern|, strIndex, letterToWord, wordToLetter, seen)
    ensures strIndex >= |str| <==> SamePattern(pattern, Words(str))
  {
    assert pattern[..|pattern|] == pattern;
    assert WordsFrom(str, strIndex) == [] <==> strIndex >= |str|;
  }

  /** hashmap_strings words_follow_pattern: one letter of the pattern and one word of str at a time. */
  method WordsFollowPattern(pattern: string, str: string) returns (r: bool)
    ensures r <==> SamePattern(pattern, Words(str))
  {
    var strIndex: nat := 0;
    var letterToWord: map<char, string> := map[];
    var wordToLetter: map<string, char> := map[];
    ghost var seen: seq<string> := [];
    for i := 0 to |pattern|
      invariant Matched(pattern, str, i, strIndex, letterToWord, wordToLetter, seen)
    {
      if strIndex >= |str| {
        OutOfWords(pattern, str, i, strIndex, letterToWord, wordToLetter, seen);
        return false;
      }
      var ok;
      ok, strIndex, letterToWord, wordToLetter, seen := MatchNext(pattern, str, i, strIndex, letterToWord, wordToLetter, seen);
      if !ok {
        return false;
      }
    }
    AllLetters(pattern, str, strIndex, letterToWord, wordToLetter, seen);
    return strIndex >= |str|;
  }

  /** The words of "foo bar foo". */
  lemma WordsFooBarFoo()
    ensures Words("foo bar foo") == ["foo", "bar", "foo"]
  {
    JoinThree("foo bar foo", "foo", "bar", "foo");
  }

  /** The words of "foo bar bar". */
  lemma WordsFooBarBar()
    ensures Words("foo bar bar") == ["foo", "bar", "bar"]
  {
    JoinThree("foo bar bar", "foo", "bar", "bar");
  }

  /** The words of "foo foo foo". */
  lemma WordsFooFooFoo()
    ensures Words("foo foo foo") == ["foo", "foo", "foo"]
  {
    JoinThree("foo foo foo", "foo", "foo", "foo");
  }

  /** The words of "foo". */
  lemma WordsFoo()
    ensures Words("foo") == ["foo"]
  {
    assert WordEnd("foo", 0) == 3;
    assert "foo"[0..3] == "foo";
  }

  /** A driver row of words_follow_pattern: "aba" fits "foo bar foo". */
  lemma PatternExampleFits()
    ensures SamePattern("aba", Words("foo bar foo"))
  {
    WordsFooBarFoo();
  }

  /** A driver row of words_follow_pattern: "aba" does not fit "foo bar bar". */
  lemma PatternExampleBreaks()
    ensures !SamePattern("aba", Words("foo bar bar"))
  {
    WordsFooBarBar();
    Mismatch("aba", ["foo", "bar", "bar"], 0, 2);
  }

  /** Driver rows of words_follow_pattern: "aa" does not fit three words, nor "aaaa" one. */
  lemma PatternExamplesCount()
    ensures !SamePattern("aa", Words("foo foo foo")) && !SamePattern("aaaa", Words("foo"))
  {
    WordsFooFooFoo();
    WordsFoo();
  }

  /** A word is the run of non-spaces up to the first space or the end. */
  lemma {:induction false} WordEndAt(str: string, i: nat, e: nat)
    requires i <= e <= |str| && (e == |str| || str[e] == ' ')
    requires forall k :: i <= k < e ==> str[k] != ' '
    ensures WordEnd(str, i) == e
    decreases e - i
  {
    if i < e {
      WordEndAt(str, i + 1, e);
    }
  }

  /** A string with spaces exactly at 3, 7 and 11 splits into the four runs between them. */
  lemma SplitFour(s: string)
    requires 12 < |s| && s[3] == ' ' && s[7] == ' ' && s[11] == ' '
    requires forall k :: 0 <= k < |s| && k != 3 && k != 7 && k != 11 ==> s[k] != ' '
    ensures Words(s) == [s[0..3], s[4..7], s[8..11], s[12..|s|]]
  {
    WordEndAt(s, 12, |s|);
    WordEndAt(s, 8, 11);
    WordEndAt(s, 4, 7);
    WordEndAt(s, 0, 3);
    assert WordsFrom(s, |s| + 1) == [];
    assert WordsFrom(s, 12) == [s[12..|s|]];
    assert WordsFrom(s, 8) == [s[8..11], s[12..|s|]];
    assert WordsFrom(s, 4) == [s[4..7], s[8..11], s[12..|s|]];
  }

  /** A string with spaces exactly at 3 and 7 splits into the three runs between them. */
  lemma SplitThree(s: string)
    requires 8 < |s| && s[3] == ' ' && s[7] == ' '
    requires forall k :: 0 <= k < |s| && k != 3 && k != 7 ==> s[k] != ' '
    ensures Words(s) == [s[0..3], s[4..7], s[8..|s|]]
  {
    WordEndAt(s, 8, |s|);
    WordEndAt(s, 4, 7);
    WordEndAt(s, 0, 3);
    assert WordsFrom(s, |s| + 1) == [];
    assert WordsFrom(s, 8) == [s[8..|s|]];
    assert WordsFrom(s, 4) == [s[4..7], s[8..|s|]];
  }

  /** Four words, the first three of three letters, joined by single spaces. */
  lemma JoinFour(s: string, a: string, b: string, c: string, d: string)
    requires |a| == 3 && |b| == 3 && |c| == 3 && 0 < |d|
    requires forall k :: 0 <= k < 3 ==> a[k] != ' ' && b[k] != ' ' && c[k] != ' '
    requires forall k :: 0 <= k < |d| ==> d[k] != ' '
    requires s == a + " " + b + " " + c + " " + d
    ensures Words(s) == [a, b, c, d]
  {
    forall k | 0 <= k < |s| && k != 3 && k != 7 && k != 11
      ensures s[k] != ' '
    {
      if k < 3 { assert s[k] == a[k]; }
      else if k < 7 { assert s[k] == b[k - 4]; }
      else if k < 11 { assert s[k] == c[k - 8]; }
      else { assert s[k] == d[k - 12]; }
    }
    SplitFour(s);
    assert s[0..3] == a && s[4..7] == b && s[8..11] == c && s[12..|s|] == d;
  }

  /** Three words, the first two of three letters, joined by single spaces. */
  lemma JoinThree(s: string, a: string, b: string, c: string)
    requires |a| == 3 && |b| == 3 && 0 < |c|
    requires forall k :: 0 <= k < 3 ==> a[k] != ' ' && b[k] != ' '
    requires forall k :: 0 <= k < |c| ==> c[k] != ' '
    requires s == a + " " + b + " " + c
    ensures Words(s) == [a, b, c]
  {
    forall k | 0 <= k < |s| && k != 3 && k != 7
      ensures s[k] != ' '
    {
      if k < 3 { assert s[k] == a[k]; }
      else if k < 7 { assert s[k] == b[k - 4]; }
      else { assert s[k] == c[k - 8]; }
    }
    SplitThree(s);
    assert s[0..3] == a && s[4..7] == b && s[8..|s|] == c;
  }

  /** The words of "foo foo bar bar". */
  lemma WordsFooFooBarBar()
    ensures Words("foo foo bar bar") == ["foo", "foo", "bar", "bar"]
  {
    JoinFour("foo foo bar bar", "foo", "foo", "bar", "bar");
  }

  /** The words of "dog cat cat dog". */
  lemma WordsDogCatCatDog()
    ensures Words("dog cat cat dog") == ["dog", "cat", "cat", "dog"]
  {
    JoinFour("dog cat cat dog", "dog", "cat", "cat", "dog");
  }

  /** The words of "dog cat cat fish". */
  lemma WordsDogCatCatFish()
    ensures Words("dog cat cat fish") == ["dog", "cat", "cat", "fish"]
  {
    JoinFour("dog cat cat fish", "dog", "cat", "cat", "fish");
  }

  /** The words of "foo foo foo foo". */
  lemma WordsFooFooFooFoo()
    ensures Words("foo foo foo foo") == ["foo", "foo", "foo", "foo"]
  {
    JoinFour("foo foo foo foo", "foo", "foo", "foo", "foo");
  }

  /** The words of "foo bar foo baz". */
  lemma WordsFooBarFooBaz()
    ensures Words("foo bar foo baz") == ["foo", "bar", "foo", "baz"]
  {
    JoinFour("foo bar foo baz", "foo", "bar", "foo", "baz");
  }

  /** The words of "foo foo bar". */
  lemma WordsFooFooBar()
    ensures Words("foo foo bar") == ["foo", "foo", "bar"]
  {
    JoinThree("foo foo bar", "foo", "foo", "bar");
  }

  /** Driver rows of words_follow_pattern: "aabb" fits "foo foo bar bar" and "abba" fits "dog cat cat dog". */
  lemma PatternExamplesFit()
    ensures SamePattern("aabb", Words("foo foo bar bar")) && SamePattern("abba", Words("dog cat cat dog"))
  {
    WordsFooFooBarBar();
    FitsFooFooBarBar();
    WordsDogCatCatDog();
    FitsDogCatCatDog();
  }

  /** "aabb" repeats where ["foo", "foo", "bar", "bar"] does. */
  lemma FitsFooFooBarBar()
    ensures SamePattern("aabb", ["foo", "foo", "bar", "bar"])
  {
    var w: seq<string> := ["foo", "foo", "bar", "bar"];
    assert w[0] == w[1] && w[2] == w[3] && w[0][0] != w[2][0];
  }

  /** "abba" repeats where ["dog", "cat", "cat", "dog"] does. */
  lemma FitsDogCatCatDog()
    ensures SamePattern("abba", ["dog", "cat", "cat", "dog"])
  {
    var w: seq<string> := ["dog", "cat", "cat", "dog"];
    assert w[0] == w[3] && w[1] == w[2] && w[0][0] != w[1][0];
  }

  /**
   * Driver rows of words_follow_pattern that break on a repeated letter or word: "abba" against
   * "dog cat cat fish" and "foo foo foo foo", "aaaa" against "dog cat cat dog", and "badc"
   * against "foo bar foo baz".
   */
  lemma PatternExamplesBreak()
    ensures !SamePattern("abba", Words("dog cat cat fish")) && !SamePattern("abba", Words("foo foo foo foo"))
    ensures !SamePattern("aaaa", Words("dog cat cat dog")) && !SamePattern("badc", Words("foo bar foo baz"))
  {
    WordsDogCatCatFish();
    Mismatch("abba", ["dog", "cat", "cat", "fish"], 0, 3);
    WordsFooFooFooFoo();
    Mismatch("abba", ["foo", "foo", "foo", "foo"], 0, 1);
    WordsDogCatCatDog();
    Mismatch("aaaa", ["dog", "cat", "cat", "dog"], 0, 1);
    WordsFooBarFooBaz();
    Mismatch("badc", ["foo", "bar", "foo", "baz"], 0, 2);
  }

  /** A driver row of words_follow_pattern: "aa" does not fit the three words of "foo foo bar". */
  lemma PatternExampleLonger()
    ensures !SamePattern("aa", Words("foo foo bar"))
  {
    WordsFooFooBar();
  }

  /** t has the same letters as s, each as often. */
  ghost predicate IsAnagram(s: string, t: string)
  {
    multiset(s) == multiset(t)
  }

  /** The count a std::unordered_map<char, int> reports for c: zero when c has no entry. */
  function Count(m: map<char, int>, c: char): int
  {
    if c in m then m[c] else 0
  }

  /** A multiset that fits inside another of the same size is that multiset. */
  lemma SubMultisetEqual(a: multiset<char>, b: multiset<char>)
    requires a <= b && |a| == |b|
    ensures a == b
  {
    var d := b - a;
    assert b == a + d;
    assert |d| == 0;
  }

  /** The first loop of is_anagram: how often each letter occurs in s. */
  method LetterCounts(s: string) returns (counts: map<char, int>)
    ensures forall c :: Count(counts, c) == multiset(s)[c]
  {
    counts := map[];
    for i := 0 to |s|
      invariant forall c :: Count(counts, c) == multiset(s[..i])[c]
    {
      counts := counts[s[i] := Count(counts, s[i]) + 1];
      assert s[..i + 1] == s[..i] + [s[i]];
    }
    assert s[..|s|] == s;
  }

  /** A letter taken from the first n letters of t more often than s holds it rules out an anagram. */
  lemma Overdrawn(s: string, t: string, n: nat, c: char)
    requires n <= |t| && multiset(t[..n])[c] > multiset(s)[c]
    ensures !IsAnagram(s, t)
  {
    assert t == t[..n] + t[n..];
    assert multiset(t) == multiset(t[..n]) + multiset(t[n..]);
  }

  /** hashmap_strings is_anagram: count the letters of s, then take away those of t. */
  method IsAnagramCheck(s: string, t: string) returns (r: bool)
    ensures r <==> IsAnagram(s, t)
  {
    if |s| != |t| {
      assert |multiset(s)| != |multiset(t)|;
      return false;
    }
    var counts := LetterCounts(s);
    ghost var taken: multiset<char> := multiset{};
    for j := 0 to |t|
      invariant taken == multiset(t[..j])
      invariant forall c :: Count(counts, c) == multiset(s)[c] as int - taken[c] as int
      invariant taken <= multiset(s)
    {
      var letter := t[j];
      assert t[..j + 1] == t[..j] + [letter];
      taken := taken + multiset{letter};
      counts := counts[letter := Count(counts, letter) - 1];
      if counts[letter] < 0 {
        Overdrawn(s, t, j + 1, letter);
        return false;
      }
    }
    assert t[..|t|] == t;
    SubMultisetEqual(taken, multiset(s));
    return true;
  }

  /** The first is_anagram call of the driver. */
  lemma AnagramNagaram()
    ensures IsAnagram("anagram", "nagaram")
  {
    assert "anagram" == "a" + "n" + "a" + "g" + "ram" && "nagaram" == "n" + "a" + "g" + "a" + "ram";
  }

  /** The other two is_anagram calls of the driver: different letters, and different lengths. */
  lemma NotAnagramExamples()
    ensures !IsAnagram("rat", "car") && !IsAnagram("ab", "b")
  {
    assert 't' in multiset("rat") && 't' !in multiset("car");
    assert |multiset("ab")| == 2;
  }

  /** All the words in the groups, each as often as it occurs. */
  function AllWords(groups: seq<seq<string>>): multiset<string>
  {
    if groups == [] then multiset{} else AllWords(groups[..|groups| - 1]) + multiset(groups[|groups| - 1])
  }

  /**
   * What group_anagrams returns for strs: no empty group, each group's words anagrams of its
   * first, no two groups' first words anagrams, and every word of strs in the groups as often
   * as in strs.
   */
  ghost predicate IsGrouping(strs: seq<string>, groups: seq<seq<string>>)
  {
    (forall i :: 0 <= i < |groups| ==> groups[i] != [] && forall w :: w in groups[i] ==> IsAnagram(groups[i][0], w))
    && (forall i, j :: 0 <= i < |groups| && 0 <= j < |groups| && i != j ==> !IsAnagram(groups[i][0], groups[j][0]))
    && AllWords(groups) == multiset(strs)
  }

  /** Appending w to group k adds w once to the words. */
  lemma {:induction false} AllWordsAppend(groups: seq<seq<string>>, k: nat, w: string)
    requires k < |groups|
    ensures AllWords(groups[k := groups[k] + [w]]) == AllWords(groups) + multiset{w}
  {
    var n := |groups| - 1;
    var gs := groups[k := groups[k] + [w]];
    if k == n {
      assert gs[..n] == groups[..n];
    } else {
      assert gs[..n] == groups[..n][k := groups[k] + [w]];
      assert gs[n] == groups[n];
      AllWordsAppend(groups[..n], k, w);
    }
  }

  /** A word is among all the words exactly when some group holds it. */
  lemma {:induction false} AllWordsMember(groups: seq<seq<string>>, w: string)
    ensures w in AllWords(groups) <==> exists i :: 0 <= i < |groups| && w in groups[i]
  {
    if groups != [] {
      var n := |groups| - 1;
      AllWordsMember(groups[..n], w);
      if w in AllWords(groups[..n]) {
        var i :| 0 <= i < n && w in groups[..n][i];
      }
      if i :| 0 <= i < |groups| && w in groups[i] {
        if i < n {
          assert w in groups[..n][i];
        }
      }
    }
  }

  /** Adding a word to a group whose first word it is an anagram of keeps a grouping. */
  lemma JoinGroup(strs: seq<string>, groups: seq<seq<string>>, j: nat, word: string)
    requires IsGrouping(strs, groups) && j < |groups| && IsAnagram(groups[j][0], word)
    ensures IsGrouping(strs + [word], groups[j := groups[j] + [word]])
  {
    AllWordsAppend(groups, j, word);
    assert multiset(strs + [word]) == multiset(strs) + multiset{word};
  }

  /** A word that is no anagram of any group's first word starts a group of its own. */
  lemma NewGroup(strs: seq<string>, groups: seq<seq<string>>, word: string)
    requires IsGrouping(strs, groups)
    requires forall l :: 0 <= l < |groups| ==> !IsAnagram(groups[l][0], word)
    ensures IsGrouping(strs + [word], groups + [[word]])
  {
    assert (groups + [[word]])[..|groups|] == groups;
    assert multiset(strs + [word]) == multiset(strs) + multiset{word};
  }

  /**
   * One pass of group_anagrams' outer loop: the word joins the first group whose first word
   * it is an anagram of, or starts a new group.
   */
  method AddWord(ghost strs: seq<string>, groups: seq<seq<string>>, word: string) returns (groups': seq<seq<string>>)
    requires IsGrouping(strs, groups)
    ensures IsGrouping(strs + [word], groups')
  {
    var j := 0;
    while j < |groups|
      invariant 0 <= j <= |groups|
      invariant forall l :: 0 <= l < j ==> !IsAnagram(groups[l][0], word)
    {
      var same := IsAnagramCheck(groups[j][0], word);
      if same {
        JoinGroup(strs, groups, j, word);
        return groups[j := groups[j] + [word]];
      }
      j := j + 1;
    }
    NewGroup(strs, groups, word);
    groups' := groups + [[word]];
  }

  /** hashmap_strings group_anagrams: the words are added one at a time, and the groups listed. */
  method GroupAnagrams(strs: seq<string>) returns (groups: seq<seq<string>>)
    ensures IsGrouping(strs, groups)
  {
    groups := [];
    for i := 0 to |strs|
      invariant IsGrouping(strs[..i], groups)
    {
      groups := AddWord(strs[..i], groups, strs[i]);
      assert strs[..i + 1] == strs[..i] + [strs[i]];
    }
    assert strs[..|strs|] == strs;
  }

  /** In a grouping, each group holds exactly the words of strs that are anagrams of its first word. */
  lemma GroupIsClass(strs: seq<string>, groups: seq<seq<string>>, i: nat, w: string)
    requires IsGrouping(strs, groups) && i < |groups|
    ensures w in groups[i] <==> w in strs && IsAnagram(groups[i][0], w)
  {
    AllWordsMember(groups, w);
    if w in strs && IsAnagram(groups[i][0], w) {
      assert w in multiset(strs);
      var j :| 0 <= j < |groups| && w in groups[j];
      assert IsAnagram(groups[j][0], w);
    }
    if w in groups[i] {
      assert w in AllWords(groups);
    }
  }

  /** Two groupings of the same words have the same groups: each group of one has the words of a group of the other. */
  lemma GroupingsAgree(strs: seq<string>, groups: seq<seq<string>>, others: seq<seq<string>>, i: nat)
    requires IsGrouping(strs, groups) && IsGrouping(strs, others) && i < |groups|
    ensures exists j :: 0 <= j < |others| && forall w :: w in groups[i] <==> w in others[j]
  {
    var first := groups[i][0];
    GroupIsClass(strs, groups, i, first);
    AllWordsMember(others, first);
    assert first in multiset(strs);
    var j :| 0 <= j < |others| && first in others[j];
    forall w
      ensures w in groups[i] <==> w in others[j]
    {
      GroupIsClass(strs, groups, i, w);
      GroupIsClass(strs, others, j, w);
    }
  }

  /** "eat", "tea" and "ate" are anagrams of each other. */
  lemma EatTeaAte()
    ensures IsAnagram("eat", "tea") && IsAnagram("eat", "ate")
  {
    assert "eat" == "ea" + "t" && "tea" == "t" + "ea";
    assert "eat" == "e" + "at" && "ate" == "at" + "e";
  }

  /** "tan" and "nat" are anagrams. */
  lemma TanNat()
    ensures IsAnagram("tan", "nat")
  {
    assert "tan" == "t" + "a" + "n" && "nat" == "n" + "a" + "t";
  }

  /** The letters 'b', 'e' and 'n' tell the three anagram classes of the first driver row apart. */
  lemma Marks(w: string)
    requires w in ["eat", "tea", "tan", "ate", "nat", "bat"]
    ensures multiset(w)['b'] == (if w == "bat" then 1 else 0)
    ensures multiset(w)['e'] == (if w in ["eat", "tea", "ate"] then 1 else 0)
    ensures multiset(w)['n'] == (if w in ["tan", "nat"] then 1 else 0)
    ensures w in ["eat", "tea", "ate"] ==> IsAnagram(w, "eat")
    ensures w in ["tan", "nat"] ==> IsAnagram(w, "tan")
  {
    EatTeaAte();
    TanNat();
  }

  /** The first group_anagrams call of the driver: "bat" is alone in its group. */
  lemma GroupOfBat(groups: seq<seq<string>>, i: nat)
    requires IsGrouping(["eat", "tea", "tan", "ate", "nat", "bat"], groups) && i < |groups| && "bat" in groups[i]
    ensures forall w :: w in groups[i] <==> w in ["bat"]
  {
    var strs := ["eat", "tea", "tan", "ate", "nat", "bat"];
    GroupIsClass(strs, groups, i, "bat");
    Marks("bat");
    forall w
      ensures w in groups[i] <==> w in ["bat"]
    {
      GroupIsClass(strs, groups, i, w);
      if w in strs {
        Marks(w);
      }
    }
  }

  /** The first group_anagrams call of the driver: "eat" shares its group with "tea" and "ate" and no other word. */
  lemma GroupOfEat(groups: seq<seq<string>>, i: nat)
    requires IsGrouping(["eat", "tea", "tan", "ate", "nat", "bat"], groups) && i < |groups| && "eat" in groups[i]
    ensures forall w :: w in groups[i] <==> w in ["eat", "tea", "ate"]
  {
    var strs := ["eat", "tea", "tan", "ate", "nat", "bat"];
    GroupIsClass(strs, groups, i, "eat");
    Marks("eat");
    forall w
      ensures w in groups[i] <==> w in ["eat", "tea", "ate"]
    {
      GroupIsClass(strs, groups, i, w);
      if w in strs {
        Marks(w);
      }
    }
  }

  /** The first group_anagrams call of the driver: "tan" shares its group with "nat" and no other word. */
  lemma GroupOfTan(groups: seq<seq<string>>, i: nat)
    requires IsGrouping(["eat", "tea", "tan", "ate", "nat", "bat"], groups) && i < |groups| && "tan" in groups[i]
    ensures forall w :: w in groups[i] <==> w in ["tan", "nat"]
  {
    var strs := ["eat", "tea", "tan", "ate", "nat", "bat"];
    GroupIsClass(strs, groups, i, "tan");
    Marks("tan");
    forall w
      ensures w in groups[i] <==> w in ["tan", "nat"]
    {
      GroupIsClass(strs, groups, i, w);
      if w in strs {
        Marks(w);
      }
    }
  }

  /** Groups none of which is empty hold at least as many words as there are groups. */
  lemma {:induction false} AllWordsSize(groups: seq<seq<string>>)
    requires forall i :: 0 <= i < |groups| ==> groups[i] != []
    ensures |AllWords(groups)| >= |groups|
  {
    if groups != [] {
      var n := |groups| - 1;
      AllWordsSize(groups[..n]);
      assert |multiset(groups[n])| == |groups[n]| > 0;
    }
  }

  /** A single word makes a single group holding just that word. */
  lemma SingleWordGroup(w: string, groups: seq<seq<string>>)
    requires IsGrouping([w], groups)
    ensures groups == [[w]]
  {
    AllWordsSize(groups);
    assert |AllWords(groups)| == 1;
    assert groups[..0] == [];
    var g := groups[0];
    assert multiset(g) == multiset{w};
    assert |g| == 1 && g[0] in multiset(g);
    assert g == [w];
    assert |groups| == 1;
  }

  /** The second group_anagrams call of the driver: the empty word makes one group holding it, not one empty group. */
  lemma GroupOfEmptyWord(groups: seq<seq<string>>)
    requires IsGrouping([""], groups)
    ensures groups == [[""]] && groups != [[]]
  {
    SingleWordGroup("", groups);
  }

  /** The third group_anagrams call of the driver: "a" makes one group of its own. */
  lemma GroupOfA(groups: seq<seq<string>>)
    requires IsGrouping(["a"], groups)
    ensures groups == [["a"]]
  {
    SingleWordGroup("a", groups);
  }
}
