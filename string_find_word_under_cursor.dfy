/**
 * The word under a text cursor (src/string_find_word_under_cursor.cc): the run of non-space
 * characters of a buffer that the cursor touches, either from inside or from just after its
 * last character.
 */
module WordUnderCursor {
  /** is_character: only ' ' separates words. */
  predicate IsCharacter(letter: char)
  {
    letter != ' '
  }

  /** Where the forward walk from i stops: the first space at or after i, or the end of the buffer. */
  function WordEnd(buffer: string, i: nat): (right: nat)
    requires i <= |buffer|
    ensures i <= right <= |buffer|
    ensures right == |buffer| || !IsCharacter(buffer[right])
    ensures forall k :: i <= k < right ==> IsCharacter(buffer[k])
    decreases |buffer| - i
  {
    if i < |buffer| && IsCharacter(buffer[i]) then WordEnd(buffer, i + 1) else i
  }

  /** Where the backward walk from i stops: just after the last space before i, or the start of the buffer. */
  function WordStart(buffer: string, i: nat): (left: nat)
    requires i <= |buffer|
    ensures left <= i
    ensures left == 0 || !IsCharacter(buffer[left - 1])
    ensures forall k :: left <= k < i ==> IsCharacter(buffer[k])
  {
    if i > 0 && IsCharacter(buffer[i - 1]) then WordStart(buffer, i - 1) else i
  }

  /** The word under the cursor: empty for a cursor past the end of the buffer. */
  function Word(buffer: string, cursor: nat): string
  {
    if cursor <= |buffer| then buffer[WordStart(buffer, cursor)..WordEnd(buffer, cursor)] else ""
  }

  /** word_under_cursor. */
  method FindWordUnderCursor(buffer: string, cursorIndex: nat) returns (word: string)
    ensures word == Word(buffer, cursorIndex)
  {
    var rightIndex: nat := cursorIndex;
    while rightIndex < |buffer| && IsCharacter(buffer[rightIndex])
      invariant cursorIndex <= rightIndex
      invariant cursorIndex <= |buffer| ==> rightIndex <= |buffer| && WordEnd(buffer, rightIndex) == WordEnd(buffer, cursorIndex)
      invariant cursorIndex > |buffer| ==> rightIndex == cursorIndex
      decreases |buffer| - rightIndex
    {
      rightIndex := rightIndex + 1;
    }
    var leftIndex: nat := cursorIndex;
    while leftIndex > 0 && leftIndex <= |buffer| && IsCharacter(buffer[leftIndex - 1])
      invariant leftIndex <= cursorIndex
      invariant cursorIndex <= |buffer| ==> WordStart(buffer, leftIndex) == WordStart(buffer, cursorIndex)
      invariant cursorIndex > |buffer| ==> leftIndex == cursorIndex
    {
      leftIndex := leftIndex - 1;
    }
    if rightIndex == leftIndex {
      return "";
    }
    word := buffer[leftIndex..rightIndex];
  }

  /** The word holds no space. */
  lemma WordHasNoSpace(buffer: string, cursor: nat)
    ensures ' ' !in Word(buffer, cursor)
  {
    if cursor <= |buffer| {
      var left, right := WordStart(buffer, cursor), WordEnd(buffer, cursor);
      forall k | 0 <= k < right - left
        ensures buffer[left..right][k] != ' '
      {
        assert IsCharacter(buffer[left + k]);
      }
    }
  }

  /**
   * Within the buffer, the word is a slice reaching from a space or the start to a space or the
   * end, around the cursor.
   */
  lemma WordIsSlice(buffer: string, cursor: nat)
    requires cursor <= |buffer|
    ensures exists left, right ::
      0 <= left <= cursor <= right <= |buffer| && Word(buffer, cursor) == buffer[left..right]
      && (left == 0 || !IsCharacter(buffer[left - 1]))
      && (right == |buffer| || !IsCharacter(buffer[right]))
  {
    var left, right := WordStart(buffer, cursor), WordEnd(buffer, cursor);
    assert Word(buffer, cursor) == buffer[left..right];
  }

  /**
   * The word is the longest run of non-space characters around the cursor: any slice around the
   * cursor without a space lies inside it.
   */
  lemma WordIsLongest(buffer: string, cursor: nat, left: nat, right: nat)
    requires left <= cursor <= right <= |buffer|
    requires forall k :: left <= k < right ==> IsCharacter(buffer[k])
    ensures left >= WordStart(buffer, cursor) && right <= WordEnd(buffer, cursor)
  {
  }

  /**
   * The word is empty exactly when the cursor is past the end of the buffer, or neither the
   * character at the cursor nor the one before it is a word character.
   */
  lemma WordEmpty(buffer: string, cursor: nat)
    ensures Word(buffer, cursor) == "" <==>
      cursor > |buffer|
      || ((cursor == |buffer| || !IsCharacter(buffer[cursor])) && (cursor == 0 || !IsCharacter(buffer[cursor - 1])))
  {
    if cursor < |buffer| && IsCharacter(buffer[cursor]) {
      assert buffer[cursor] in Word(buffer, cursor);
    } else if 0 < cursor <= |buffer| && IsCharacter(buffer[cursor - 1]) {
      assert buffer[cursor - 1] in Word(buffer, cursor);
    }
  }

  /**
   * Conversely, a slice around the cursor without a space, reaching from a space or the start to
   * a space or the end, is the word.
   */
  lemma WordIs(buffer: string, cursor: nat, left: nat, right: nat)
    requires left <= cursor <= right <= |buffer| && ' ' !in buffer[left..right]
    requires left == 0 || buffer[left - 1] == ' '
    requires right == |buffer| || buffer[right] == ' '
    ensures Word(buffer, cursor) == buffer[left..right]
  {
    forall k | left <= k < right
      ensures IsCharacter(buffer[k])
    {
      assert buffer[k] == buffer[left..right][k - left];
    }
    WordIsLongest(buffer, cursor, left, right);
  }

  /** The rows whose cursor touches "lorem". */
  lemma LoremRows()
    ensures Word("lorem ipsum something else", 2) == "lorem"
    ensures Word("lorem ipsum something else", 0) == "lorem"
    ensures Word("lorem ipsum something else", 4) == "lorem"
    ensures Word("lorem ipsum something else", 5) == "lorem"
  {
    var buffer := "lorem ipsum something else";
    assert buffer[0..5] == "lorem";
    WordIs(buffer, 2, 0, 5);
    WordIs(buffer, 0, 0, 5);
    WordIs(buffer, 4, 0, 5);
    WordIs(buffer, 5, 0, 5);
  }

  /** The rows whose cursor touches "ipsum". */
  lemma IpsumRows()
    ensures Word("lorem ipsum something else", 6) == "ipsum"
    ensures Word("lorem ipsum something else", 9) == "ipsum"
    ensures Word("lorem ipsum something else", 10) == "ipsum"
    ensures Word("lorem ipsum something else", 11) == "ipsum"
  {
    var buffer := "lorem ipsum something else";
    assert buffer[6..11] == "ipsum";
    WordIs(buffer, 6, 6, 11);
    WordIs(buffer, 9, 6, 11);
    WordIs(buffer, 10, 6, 11);
    WordIs(buffer, 11, 6, 11);
  }

  /** The rows whose cursor touches "something". */
  lemma SomethingRows()
    ensures Word("lorem ipsum something else", 12) == "something"
    ensures Word("lorem ipsum something else", 15) == "something"
    ensures Word("lorem ipsum something else", 21) == "something"
  {
    var buffer := "lorem ipsum something else";
    assert buffer[12..21] == "something";
    WordIs(buffer, 12, 12, 21);
    WordIs(buffer, 15, 12, 21);
    WordIs(buffer, 21, 12, 21);
  }

  /** The rows whose cursor touches "else". */
  lemma ElseRows()
    ensures Word("lorem ipsum something else", 22) == "else"
    ensures Word("lorem ipsum something else", 26) == "else"
  {
    var buffer := "lorem ipsum something else";
    assert buffer[22..26] == "else";
    WordIs(buffer, 22, 22, 26);
    WordIs(buffer, 26, 22, 26);
  }

  /** The rows whose cursor touches "word2". */
  lemma Word2Rows()
    ensures Word("word1 word2   word3", 11) == "word2"
  {
    var buffer := "word1 word2   word3";
    assert buffer[6..11] == "word2";
    WordIs(buffer, 11, 6, 11);
  }

  /** The rows whose cursor touches "word3". */
  lemma Word3Rows()
    ensures Word("word1 word2   word3", 14) == "word3"
  {
    var buffer := "word1 word2   word3";
    assert buffer[14..19] == "word3";
    WordIs(buffer, 14, 14, 19);
  }

  /** The rows with a cursor between two spaces, and with an empty buffer: no word. */
  lemma NoWordRows()
    ensures Word("word1 word2   word3", 12) == "" && Word("word1 word2   word3", 13) == ""
    ensures Word("", 10) == ""
  {
    var buffer := "word1 word2   word3";
    WordEmpty(buffer, 12);
    WordEmpty(buffer, 13);
  }
}
