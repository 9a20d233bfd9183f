/**
 * Ransom note (src/hashmap_ransom.cc): whether a note can be cut out of the letters of a
 * magazine, each letter used at most once.
 */
module HashmapRansom {
  import opened HashmapStrings

  /** Every letter occurs in note at most as often as in letters. */
  ghost predicate CanBuild(note: string, letters: string)
  {
    multiset(note) <= multiset(letters)
  }

  /** A letter taken from the first n letters of the note more often than letters hold it rules the note out. */
  lemma Short(note: string, letters: string, n: nat, c: char)
    requires n <= |note| && multiset(note[..n])[c] > multiset(letters)[c]
    ensures !CanBuild(note, letters)
  {
    assert note == note[..n] + note[n..];
    assert multiset(note) == multiset(note[..n]) + multiset(note[n..]);
  }

  /**
   * hashmap_ransom can_construct: count the letters (the same counting loop as is_anagram),
   * then take away those of the note and stop at the first count below zero.
   */
  method CanConstruct(note: string, letters: string) returns (r: bool)
    ensures r <==> CanBuild(note, letters)
  {
    var counts := LetterCounts(letters);
    ghost var taken: multiset<char> := multiset{};
    for j := 0 to |note|
      invariant taken == multiset(note[..j])
      invariant forall c :: Count(counts, c) == multiset(letters)[c] as int - taken[c] as int
      invariant taken <= multiset(letters)
    {
      var letter := note[j];
      assert note[..j + 1] == note[..j] + [letter];
      taken := taken + multiset{letter};
      counts := counts[letter := Count(counts, letter) - 1];
      if counts[letter] < 0 {
        Short(note, letters, j + 1, letter);
        return false;
      }
    }
    assert note[..|note|] == note;
    return true;
  }

  /** An empty note can always be built; a note can be built from itself and from any anagram of it. */
  lemma CanBuildBasics(note: string, letters: string)
    ensures CanBuild("", letters)
    ensures IsAnagram(note, letters) ==> CanBuild(note, letters)
  {
  }

  /** Extra letters never hurt: a note buildable from letters is buildable from more letters. */
  lemma CanBuildMore(note: string, letters: string, extra: string)
    requires CanBuild(note, letters)
    ensures CanBuild(note, letters + extra)
  {
    assert multiset(letters + extra) == multiset(letters) + multiset(extra);
  }

  /** The three table rows. */
  lemma RansomExamples()
    ensures !CanBuild("a", "b") && !CanBuild("aa", "ab") && CanBuild("aa", "aab")
  {
    assert multiset("a")['a'] == 1 && multiset("b")['a'] == 0;
    assert multiset("aa")['a'] == 2 && multiset("ab")['a'] == 1;
    assert "aab" == "aa" + "b";
    assert multiset("aab") == multiset("aa") + multiset("b");
  }
}
