/**
 * Unbalanced parentheses (src/string_paren_parsing.cc): delete as few characters as the
 * method finds necessary to make a string balanced. Every character other than '(' counts
 * as a closing parenthesis.
 */
module ParenParsing {
  /** The depth a string leaves: one up for each '(', one down for every other character. */
  function Depth(t: string): int
  {
    if t == [] then 0 else Depth(t[..|t| - 1]) + (if t[|t| - 1] == '(' then 1 else -1)
  }

  /** No prefix of t closes more than it opens. */
  ghost predicate NoDip(t: string)
  {
    forall j :: 0 <= j <= |t| ==> Depth(t[..j]) >= 0
  }

  /** t is balanced: no prefix dips below zero and the whole string ends at zero. */
  ghost predicate Balanced(t: string)
  {
    NoDip(t) && Depth(t) == 0
  }

  /** The open counter of the first loop after the first n characters: a closer with nothing open leaves it at 0. */
  function Open(s: string, n: nat): (r: nat)
    requires n <= |s|
  {
    if n == 0 then 0
    else if s[n - 1] == '(' then Open(s, n - 1) + 1
    else if Open(s, n - 1) == 0 then 0
    else Open(s, n - 1) - 1
  }

  /** The indices the first loop deletes among the first n: the closers seen while nothing is open. */
  function FirstDeleted(s: string, n: nat): set<nat>
    requires n <= |s|
  {
    if n == 0 then {}
    else FirstDeleted(s, n - 1) + if s[n - 1] != '(' && Open(s, n - 1) == 0 then {n - 1} else {}
  }

  /** The first loop deletes exactly the closers it meets while its counter is at zero. */
  lemma {:induction false} FirstDeletedMembers(s: string, n: nat)
    requires n <= |s|
    ensures forall j {:trigger j in FirstDeleted(s, n)} :: j in FirstDeleted(s, n) <==> 0 <= j < n && s[j] != '(' && Open(s, j) == 0
  {
    if n > 0 {
      FirstDeletedMembers(s, n - 1);
      var last := if s[n - 1] != '(' && Open(s, n - 1) == 0 then {n - 1} else {};
      assert FirstDeleted(s, n) == FirstDeleted(s, n - 1) + last;
      forall j
        ensures j in FirstDeleted(s, n) <==> 0 <= j < n && s[j] != '(' && Open(s, j) == 0
      {
        if j == n - 1 {
          assert j !in FirstDeleted(s, n - 1);
        } else {
          assert j in FirstDeleted(s, n) <==> j in FirstDeleted(s, n - 1);
        }
      }
    }
  }

  /** The indices the second loop deletes below n: walking down, the first r characters '(' it meets. */
  function LastOpens(s: string, n: nat, r: nat): (del: set<nat>)
    requires n <= |s|
    ensures forall j :: j in del ==> j < n && s[j] == '('
  {
    if n == 0 || r == 0 then {}
    else if s[n - 1] == '(' then LastOpens(s, n - 1, r - 1) + {n - 1}
    else LastOpens(s, n - 1, r)
  }

  /** Every index fix_unbalanced_string deletes. */
  function Deleted(s: string): set<nat>
  {
    DeletedBelow(s, |s|, Open(s, |s|))
  }

  /** The first n characters of s without those at the indices in del, in order. */
  function Keep(s: string, del: set<nat>, n: nat): string
    requires n <= |s|
  {
    if n == 0 then [] else Keep(s, del, n - 1) + if n - 1 in del then [] else [s[n - 1]]
  }

  /** What fix_unbalanced_string returns. */
  function Fixed(s: string): string
  {
    Keep(s, Deleted(s), |s|)
  }

  /** A string extended by one character dips nowhere exactly when it did not before and does not at its end. */
  lemma NoDipAppend(t: string, c: char)
    ensures NoDip(t + [c]) <==> NoDip(t) && Depth(t + [c]) >= 0
  {
    var u := t + [c];
    assert u[..|u|] == u;
    assert forall j :: 0 <= j <= |t| ==> u[..j] == t[..j];
  }

  /** Only indices below n decide Keep(s, del, n). */
  lemma {:induction false} KeepAgree(s: string, a: set<nat>, b: set<nat>, n: nat)
    requires n <= |s| && forall j :: 0 <= j < n ==> (j in a <==> j in b)
    ensures Keep(s, a, n) == Keep(s, b, n)
  {
    if n > 0 {
      KeepAgree(s, a, b, n - 1);
    }
  }

  /** The indices deleted below n: the closers the first loop drops and the last r characters '(' before n. */
  function DeletedBelow(s: string, n: nat, r: nat): set<nat>
    requires n <= |s|
  {
    FirstDeleted(s, n) + LastOpens(s, n, r)
  }

  /** Below n - 1, the indices deleted below n are those deleted below n - 1, one '(' fewer to go if n - 1 was one. */
  lemma DeletedBelowStep(s: string, n: nat, r: nat)
    requires 0 < n <= |s|
    ensures var r' := if r > 0 && s[n - 1] == '(' then r - 1 else r;
      forall j :: 0 <= j < n - 1 ==> (j in DeletedBelow(s, n, r) <==> j in DeletedBelow(s, n - 1, r'))
    ensures n - 1 in DeletedBelow(s, n, r) <==> (s[n - 1] != '(' && Open(s, n - 1) == 0) || (s[n - 1] == '(' && r > 0)
  {
    FirstDeletedMembers(s, n);
    FirstDeletedMembers(s, n - 1);
  }

  /**
   * The heart of the balance proof: keeping the first n characters without the closers the first
   * loop drops and without the last r characters '(' (r at most what is still open) never dips,
   * and ends r below the open count.
   */
  lemma {:induction false} DropLastOpens(s: string, n: nat, r: nat)
    requires n <= |s| && r <= Open(s, n)
    ensures var u := Keep(s, DeletedBelow(s, n, r), n);
      NoDip(u) && Depth(u) == Open(s, n) - r
  {
    if n == 0 {
      assert Keep(s, {}, 0) == [];
    } else {
      var c := s[n - 1];
      var r' := if r > 0 && c == '(' then r - 1 else r;
      DeletedBelowStep(s, n, r);
      KeepAgree(s, DeletedBelow(s, n, r), DeletedBelow(s, n - 1, r'), n - 1);
      DropLastOpens(s, n - 1, r');
      var u0 := Keep(s, DeletedBelow(s, n - 1, r'), n - 1);
      if n - 1 !in DeletedBelow(s, n, r) {
        assert Keep(s, DeletedBelow(s, n, r), n) == u0 + [c];
        KeepOne(u0, c);
      } else {
        assert Keep(s, DeletedBelow(s, n, r), n) == u0;
      }
    }
  }

  /** One more character: the depth moves by one, and the string still dips nowhere if it ends at zero or above. */
  lemma KeepOne(t: string, c: char)
    ensures Depth(t + [c]) == Depth(t) + if c == '(' then 1 else -1
    ensures NoDip(t + [c]) <==> NoDip(t) && Depth(t + [c]) >= 0
  {
    NoDipAppend(t, c);
    assert (t + [c])[..|t|] == t;
  }

  /** fix_unbalanced_string returns a balanced string. */
  lemma FixedBalanced(s: string)
    ensures Balanced(Fixed(s))
  {
    DropLastOpens(s, |s|, Open(s, |s|));
    assert Deleted(s) == DeletedBelow(s, |s|, Open(s, |s|));
  }

  /** On a string that dips nowhere the counter never clamps: it is the depth of the prefix. */
  lemma {:induction false} OpenIsDepth(s: string, n: nat)
    requires NoDip(s) && n <= |s|
    ensures Open(s, n) == Depth(s[..n])
  {
    if n > 0 {
      OpenIsDepth(s, n - 1);
      assert s[..n][..n - 1] == s[..n - 1];
      assert Depth(s[..n]) >= 0;
    }
  }

  /** Keeping every character of the first n gives them back. */
  lemma {:induction false} KeepNone(s: string, n: nat)
    requires n <= |s|
    ensures Keep(s, {}, n) == s[..n]
  {
    if n > 0 {
      KeepNone(s, n - 1);
      assert s[..n] == s[..n - 1] + [s[n - 1]];
    }
  }

  /** A balanced string is left as it is. */
  lemma BalancedUnchanged(s: string)
    requires Balanced(s)
    ensures Deleted(s) == {} && Fixed(s) == s
  {
    FirstDeletedMembers(s, |s|);
    forall j | 0 <= j < |s| && s[j] != '('
      ensures Open(s, j) != 0
    {
      OpenIsDepth(s, j);
      assert s[..j + 1][..j] == s[..j];
      assert Depth(s[..j + 1]) >= 0;
    }
    OpenIsDepth(s, |s|);
    assert s[..|s|] == s;
    KeepNone(s, |s|);
  }

  /** Fixing is idempotent: a fixed string needs no further deletion. */
  lemma FixedIdempotent(s: string)
    ensures Fixed(Fixed(s)) == Fixed(s)
  {
    FixedBalanced(s);
    BalancedUnchanged(Fixed(s));
  }

  /** The indices of the first n characters of s not in del, in increasing order. */
  function Kept(del: set<nat>, n: nat): (idx: seq<nat>)
    ensures forall k :: 0 <= k < |idx| ==> idx[k] < n && idx[k] !in del
  {
    if n == 0 then [] else Kept(del, n - 1) + if n - 1 in del then [] else [n - 1]
  }

  /** a is b with some characters left out: a strictly increasing choice of positions of b spells a. */
  ghost predicate IsSubsequence(a: string, b: string)
  {
    exists idx: seq<nat> :: |idx| == |a|
      && (forall k :: 0 <= k < |idx| ==> idx[k] < |b| && a[k] == b[idx[k]])
      && (forall k, l :: 0 <= k < l < |idx| ==> idx[k] < idx[l])
  }

  /** Keep(s, del, n) spells out s at the positions Kept(del, n), which increase. */
  lemma {:induction false} KeepIsKept(s: string, del: set<nat>, n: nat)
    requires n <= |s|
    ensures var u, idx := Keep(s, del, n), Kept(del, n);
      |idx| == |u|
      && (forall k :: 0 <= k < |idx| ==> u[k] == s[idx[k]])
      && (forall k, l :: 0 <= k < l < |idx| ==> idx[k] < idx[l])
  {
    if n > 0 {
      KeepIsKept(s, del, n - 1);
    }
  }

  /** The output consists of characters of the input, in their order. */
  lemma FixedIsSubsequence(s: string)
    ensures IsSubsequence(Fixed(s), s)
  {
    KeepIsKept(s, Deleted(s), |s|);
    var idx := Kept(Deleted(s), |s|);
    assert |idx| == |Fixed(s)|;
  }

  /**
   * Only two kinds of character are deleted: closers met while nothing was open, and characters
   * '(' every later one of which is deleted too.
   */
  lemma DeletedKinds(s: string, j: nat)
    requires j in Deleted(s)
    ensures j < |s| && ((s[j] != '(' && Open(s, j) == 0)
      || (s[j] == '(' && forall j' :: j < j' < |s| && s[j'] == '(' ==> j' in Deleted(s)))
  {
    FirstDeletedMembers(s, |s|);
    if j !in FirstDeleted(s, |s|) {
      LastOpensRightmost(s, |s|, Open(s, |s|), j);
    }
  }

  /** The characters '(' the second loop deletes are the last ones: every later '(' is deleted as well. */
  lemma {:induction false} LastOpensRightmost(s: string, n: nat, r: nat, j: nat)
    requires n <= |s| && j in LastOpens(s, n, r)
    ensures forall j' :: j < j' < n && s[j'] == '(' ==> j' in LastOpens(s, n, r)
  {
    if s[n - 1] == '(' {
      if j < n - 1 {
        LastOpensRightmost(s, n - 1, r - 1, j);
      }
    } else {
      LastOpensRightmost(s, n - 1, r, j);
    }
  }

  /** The open counter depends on a character only through whether it is '('. */
  lemma {:induction false} OpenClosersAlike(s: string, i: nat, c: char, n: nat)
    requires i < |s| && s[i] != '(' && c != '(' && n <= |s|
    ensures Open(s[i := c], n) == Open(s, n)
  {
    if n > 0 {
      OpenClosersAlike(s, i, c, n - 1);
    }
  }

  /** The second loop depends on a character only through whether it is '('. */
  lemma {:induction false} LastOpensClosersAlike(s: string, i: nat, c: char, n: nat, r: nat)
    requires i < |s| && s[i] != '(' && c != '(' && n <= |s|
    ensures LastOpens(s[i := c], n, r) == LastOpens(s, n, r)
  {
    if n > 0 && r > 0 {
      LastOpensClosersAlike(s, i, c, n - 1, r - 1);
      LastOpensClosersAlike(s, i, c, n - 1, r);
    }
  }

  /** Any character other than '(' is treated as a closer: exchanging one for another deletes the same indices. */
  lemma ClosersAlike(s: string, i: nat, c: char)
    requires i < |s| && s[i] != '(' && c != '('
    ensures Deleted(s[i := c]) == Deleted(s)
  {
    var t := s[i := c];
    OpenClosersAlike(s, i, c, |s|);
    forall j | 0 <= j < |s|
      ensures Open(t, j) == Open(s, j)
    {
      OpenClosersAlike(s, i, c, j);
    }
    LastOpensClosersAlike(s, i, c, |s|, Open(s, |s|));
    FirstDeletedMembers(s, |s|);
    FirstDeletedMembers(t, |s|);
  }

  /** The first loop of fix_unbalanced_string: count the open parentheses and mark the closers that have nothing to close. */
  method MarkClosers(str: string) returns (countOpenParens: nat, deletedIndices: set<nat>)
    ensures countOpenParens == Open(str, |str|) && deletedIndices == FirstDeleted(str, |str|)
  {
    countOpenParens, deletedIndices := 0, {};
    for i := 0 to |str|
      invariant countOpenParens == Open(str, i) && deletedIndices == FirstDeleted(str, i)
    {
      if str[i] == '(' {
        countOpenParens := countOpenParens + 1;
      } else {
        if countOpenParens == 0 {
          deletedIndices := deletedIndices + {i};
        } else {
          countOpenParens := countOpenParens - 1;
        }
      }
    }
  }

  /** The second loop: walking backwards, mark the last countOpenParens characters '('. */
  method MarkOpens(str: string, countOpenParens: nat, deletedIndices: set<nat>) returns (marked: set<nat>)
    ensures marked == deletedIndices + LastOpens(str, |str|, countOpenParens)
  {
    var i := |str|;
    var count := countOpenParens;
    marked := deletedIndices;
    while i != 0 && count > 0
      invariant 0 <= i <= |str|
      invariant marked + LastOpens(str, i, count) == deletedIndices + LastOpens(str, |str|, countOpenParens)
    {
      if str[i - 1] == '(' {
        assert LastOpens(str, i, count) == LastOpens(str, i - 1, count - 1) + {i - 1};
        marked := marked + {i - 1};
        count := count - 1;
      } else {
        assert LastOpens(str, i, count) == LastOpens(str, i - 1, count);
      }
      i := i - 1;
    }
    assert LastOpens(str, i, count) == {};
  }

  /** The third loop: copy the characters whose indices are not marked. */
  method CopyKept(str: string, deletedIndices: set<nat>) returns (result: string)
    ensures result == Keep(str, deletedIndices, |str|)
  {
    result := [];
    for i := 0 to |str|
      invariant result == Keep(str, deletedIndices, i)
    {
      if i !in deletedIndices {
        result := result + [str[i]];
      }
    }
  }

  /** fix_unbalanced_string. */
  method FixUnbalancedString(str: string) returns (result: string)
    ensures result == Fixed(str)
    ensures Balanced(result) && IsSubsequence(result, str)
  {
    var countOpenParens, deletedIndices := MarkClosers(str);
    deletedIndices := MarkOpens(str, countOpenParens, deletedIndices);
    result := CopyKept(str, deletedIndices);
    FixedBalanced(str);
    FixedIsSubsequence(str);
  }

  /** Table row: a closer before an opener, both deleted. */
  lemma CloserBeforeOpener()
    ensures Fixed(")(") == ""
  {
    var s := ")(";
    assert Open(s, 1) == 0;
    assert Open(s, 2) == 1;
    assert FirstDeleted(s, 1) == {0};
    assert FirstDeleted(s, 2) == {0};
    assert LastOpens(s, 2, 1) == {1};
    assert Deleted(s) == {0, 1};
    assert Keep(s, {0, 1}, 1) == "";
    assert Keep(s, {0, 1}, 2) == "";
  }

  /** Table row: the unmatched opener goes. */
  lemma UnclosedOpener()
    ensures Fixed("(()") == "()"
  {
    var s := "(()";
    assert Open(s, 1) == 1;
    assert Open(s, 2) == 2;
    assert Open(s, 3) == 1;
    assert FirstDeleted(s, 1) == {};
    assert FirstDeleted(s, 2) == {};
    assert FirstDeleted(s, 3) == {};
    assert LastOpens(s, 2, 1) == {1};
    assert LastOpens(s, 3, 1) == {1};
    assert Deleted(s) == {1};
    assert Keep(s, {1}, 1) == "(";
    assert Keep(s, {1}, 2) == "(";
    assert Keep(s, {1}, 3) == "()";
  }

  /** Table row: a lone closer goes. */
  lemma LoneCloser()
    ensures Fixed(")") == ""
  {
    var s := ")";
    assert Open(s, 1) == 0;
    assert FirstDeleted(s, 1) == {0};
    assert Deleted(s) == {0};
    assert Keep(s, {0}, 1) == "";
  }

  /** Table row: a lone opener goes. */
  lemma LoneOpener()
    ensures Fixed("(") == ""
  {
    var s := "(";
    assert Open(s, 1) == 1;
    assert FirstDeleted(s, 1) == {};
    assert LastOpens(s, 1, 1) == {0};
    assert Deleted(s) == {0};
    assert Keep(s, {0}, 1) == "";
  }

  /** The first loop on the longest table row: three openers left over, the closer at index 4 deleted. */
  lemma LongFirstLoop()
    ensures Open("()())((((())", 12) == 3 && FirstDeleted("()())((((())", 12) == {4}
  {
    var s := "()())((((())";
    assert Open(s, 1) == 1;
    assert Open(s, 2) == 0;
    assert Open(s, 3) == 1;
    assert Open(s, 4) == 0;
    assert Open(s, 5) == 0;
    assert Open(s, 6) == 1;
    assert Open(s, 7) == 2;
    assert Open(s, 8) == 3;
    assert Open(s, 9) == 4;
    assert Open(s, 10) == 5;
    assert Open(s, 11) == 4;
    assert Open(s, 12) == 3;
    assert FirstDeleted(s, 1) == {};
    assert FirstDeleted(s, 2) == {};
    assert FirstDeleted(s, 3) == {};
    assert FirstDeleted(s, 4) == {};
    assert FirstDeleted(s, 5) == {4};
    assert FirstDeleted(s, 6) == {4};
    assert FirstDeleted(s, 7) == {4};
    assert FirstDeleted(s, 8) == {4};
    assert FirstDeleted(s, 9) == {4};
    assert FirstDeleted(s, 10) == {4};
    assert FirstDeleted(s, 11) == {4};
    assert FirstDeleted(s, 12) == {4};
  }

  /** The second loop on the longest table row: the openers at 7, 8 and 9 deleted. */
  lemma LongSecondLoop()
    ensures LastOpens("()())((((())", 12, 3) == {7, 8, 9}
  {
    var s := "()())((((())";
    assert LastOpens(s, 8, 1) == {7};
    assert LastOpens(s, 9, 2) == {7, 8};
    assert LastOpens(s, 10, 3) == {7, 8, 9};
    assert LastOpens(s, 11, 3) == {7, 8, 9};
    assert LastOpens(s, 12, 3) == {7, 8, 9};
  }

  /** The longest table row: one stray closer and the last three unmatched openers go. */
  lemma LongExample()
    ensures Fixed("()())((((())") == "()()(())"
  {
    var s := "()())((((())";
    LongFirstLoop();
    LongSecondLoop();
    assert Deleted(s) == {4, 7, 8, 9};
    assert Keep(s, {4, 7, 8, 9}, 1) == "(";
    assert Keep(s, {4, 7, 8, 9}, 2) == "()";
    assert Keep(s, {4, 7, 8, 9}, 3) == "()(";
    assert Keep(s, {4, 7, 8, 9}, 4) == "()()";
    assert Keep(s, {4, 7, 8, 9}, 5) == "()()";
    assert Keep(s, {4, 7, 8, 9}, 6) == "()()(";
    assert Keep(s, {4, 7, 8, 9}, 7) == "()()((";
    assert Keep(s, {4, 7, 8, 9}, 8) == "()()((";
    assert Keep(s, {4, 7, 8, 9}, 9) == "()()((";
    assert Keep(s, {4, 7, 8, 9}, 10) == "()()((";
    assert Keep(s, {4, 7, 8, 9}, 11) == "()()(()";
    assert Keep(s, {4, 7, 8, 9}, 12) == "()()(())";
  }
}
