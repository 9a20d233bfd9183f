/**
 * The first version of dead code elimination (dead_code.cc at the top of the repository). The
 * block is a list of pointers to instructions; the walk back from its last entry is the same as in
 * the later pass, but instead of marking anything GetDeadInstrs returns, in block order, the
 * entries the walk did not record as live.
 */
module DeadCodeList {
  import opened Ir
  import opened DeadCode

  /** The entries of bb that are not in live, in the order of bb. */
  function NotIn(bb: seq<Ref>, live: set<Ref>): (r: seq<Ref>)
    ensures |r| <= |bb|
  {
    if bb == [] then []
    else NotIn(bb[..|bb| - 1], live) + if bb[|bb| - 1] in live then [] else [bb[|bb| - 1]]
  }

  /** Every entry of the block is null or points into the store. */
  ghost predicate Entries(s: Store, bb: seq<Ref>)
  {
    forall k :: 0 <= k < |bb| ==> Points(s, bb[k])
  }

  /**
   * GetDeadInstrs: walks back from the block's last entry, taken to be its return, then collects
   * every entry of the block the walk did not find.
   */
  method GetDeadInstrs(s: Store, bb: seq<Ref>, ghost rank: Ref -> nat) returns (dead: seq<Ref>)
    requires WellFormed(s) && Ranked(s, rank) && Entries(s, bb) && |bb| > 0
    ensures dead == NotIn(bb, LiveFrom(s, rank, bb[|bb| - 1]))
  {
    var live := LiveInstrs(s, bb[|bb| - 1], rank);
    dead := [];
    for i := 0 to |bb|
      invariant dead == NotIn(bb[..i], live)
    {
      assert bb[..i + 1][..i] == bb[..i];
      if bb[i] !in live {
        dead := dead + [bb[i]];
      }
    }
    assert bb[..|bb|] == bb;
  }

  /** An entry is collected exactly when it is in the block and not live. */
  lemma {:induction false} NotInMember(bb: seq<Ref>, live: set<Ref>, x: Ref)
    ensures x in NotIn(bb, live) <==> x in bb && x !in live
  {
    if bb != [] {
      NotInMember(bb[..|bb| - 1], live, x);
      assert bb == bb[..|bb| - 1] + [bb[|bb| - 1]];
    }
  }

  /** a is a subsequence of b: a can be got from b by deleting entries. */
  ghost predicate Subsequence(a: seq<Ref>, b: seq<Ref>)
    decreases |b|
  {
    if a == [] then true
    else if b == [] then false
    else if a[|a| - 1] == b[|b| - 1] then Subsequence(a[..|a| - 1], b[..|b| - 1])
    else Subsequence(a, b[..|b| - 1])
  }

  /** The entries collected keep the order they have in the block. */
  lemma {:induction false} NotInOrdered(bb: seq<Ref>, live: set<Ref>)
    ensures Subsequence(NotIn(bb, live), bb)
  {
    if bb != [] {
      var r := NotIn(bb[..|bb| - 1], live);
      NotInOrdered(bb[..|bb| - 1], live);
      if bb[|bb| - 1] !in live {
        assert (r + [bb[|bb| - 1]])[..|r|] == r;
      } else {
        assert NotIn(bb, live) == r;
        SubsequenceOfPrefix(r, bb[..|bb| - 1], bb[|bb| - 1]);
      }
    }
  }

  /** A subsequence of b is a subsequence of b with one more entry at the end. */
  lemma {:induction false} SubsequenceOfPrefix(a: seq<Ref>, b: seq<Ref>, x: Ref)
    requires Subsequence(a, b)
    ensures Subsequence(a, b + [x])
    decreases |b|, 1
  {
    assert (b + [x])[..|b|] == b;
    if a != [] && a[|a| - 1] == x {
      SubsequenceShorter(a, b);
    }
  }

  /** Dropping the last entry of a subsequence leaves a subsequence. */
  lemma {:induction false} SubsequenceShorter(a: seq<Ref>, b: seq<Ref>)
    requires Subsequence(a, b) && a != []
    ensures Subsequence(a[..|a| - 1], b)
    decreases |b|, 0
  {
    if a[|a| - 1] == b[|b| - 1] {
      SubsequenceOfPrefix(a[..|a| - 1], b[..|b| - 1], b[|b| - 1]);
      assert b[..|b| - 1] + [b[|b| - 1]] == b;
    } else {
      SubsequenceShorter(a, b[..|b| - 1]);
      SubsequenceOfPrefix(a[..|a| - 1], b[..|b| - 1], b[|b| - 1]);
      assert b[..|b| - 1] + [b[|b| - 1]] == b;
    }
  }

  /**
   * The entries GetDeadInstrs returns are exactly the entries of the block that are not
   * Instruction operands reachable from its last entry.
   */
  lemma DeadUnreached(s: Store, bb: seq<Ref>, rank: Ref -> nat, x: Ref)
    requires WellFormed(s) && Ranked(s, rank) && Entries(s, bb) && |bb| > 0
    ensures x in NotIn(bb, LiveFrom(s, rank, bb[|bb| - 1])) <==>
            x in bb && !(x in Reached(s, rank, bb[|bb| - 1]) && x != Null && Points(s, x) && Deref(s, x).opndType == Instruction)
  {
    NotInMember(bb, LiveFrom(s, rank, bb[|bb| - 1]), x);
    LiveReached(s, rank, bb[|bb| - 1], x);
  }

  /** The block's last entry, when it is an instruction, is never returned as dead. */
  lemma ReturnNotDead(s: Store, bb: seq<Ref>, rank: Ref -> nat)
    requires WellFormed(s) && Ranked(s, rank) && Entries(s, bb) && |bb| > 0
    requires bb[|bb| - 1] != Null && Deref(s, bb[|bb| - 1]).opndType == Instruction
    ensures bb[|bb| - 1] !in NotIn(bb, LiveFrom(s, rank, bb[|bb| - 1]))
  {
    Unfold(s, rank, bb[|bb| - 1]);
    NotInMember(bb, LiveFrom(s, rank, bb[|bb| - 1]), bb[|bb| - 1]);
  }

  /** When every entry but the k-th is live, exactly that entry is collected. */
  lemma {:induction false} NotInOne(bb: seq<Ref>, live: set<Ref>, k: nat)
    requires k < |bb| && bb[k] !in live
    requires forall j :: 0 <= j < |bb| && j != k ==> bb[j] in live
    ensures NotIn(bb, live) == [bb[k]]
  {
    if k < |bb| - 1 {
      NotInOne(bb[..|bb| - 1], live, k);
    } else {
      NotInNone(bb[..|bb| - 1], live);
    }
  }

  /** When every entry is live, nothing is collected. */
  lemma {:induction false} NotInNone(bb: seq<Ref>, live: set<Ref>)
    requires forall j :: 0 <= j < |bb| ==> bb[j] in live
    ensures NotIn(bb, live) == []
  {
    if bb != [] {
      NotInNone(bb[..|bb| - 1], live);
    }
  }

  /**
   * The block built by main: names a..e, constants 1..7 and
   *   a = 1 + 2; b = a + 3; c = 5; d = 6 + 7; e = d + b; return e
   * where each name is declared by the instruction that assigns it.
   */
  function Root(): Store
  {
    Store(
      [NameNode("a", InstrAt(0)), NameNode("b", InstrAt(1)), NameNode("c", InstrAt(2)),
       NameNode("d", InstrAt(3)), NameNode("e", InstrAt(4))],
      [ConstNode(1), ConstNode(2), ConstNode(3), ConstNode(4), ConstNode(5), ConstNode(6), ConstNode(7)],
      [InstrNode(Add, NameAt(0), ConstAt(0), ConstAt(1)),
       InstrNode(Add, NameAt(1), NameAt(0), ConstAt(2)),
       InstrNode(Assignment, NameAt(2), ConstAt(4), Null),
       InstrNode(Add, NameAt(3), ConstAt(5), ConstAt(6)),
       InstrNode(Add, NameAt(4), NameAt(3), NameAt(1)),
       InstrNode(Return, Null, NameAt(4), Null)])
  }

  /** main's block: the six instructions in order. */
  function RootBlock(): seq<Ref>
  {
    [InstrAt(0), InstrAt(1), InstrAt(2), InstrAt(3), InstrAt(4), InstrAt(5)]
  }

  /** The block of main is well formed. */
  lemma RootWellFormed()
    ensures WellFormed(Root())
  {
    var s := Root();
    forall i | 0 <= i < |s.instrs|
      ensures Sound(s, s.instrs[i])
    {
    }
  }

  /** Every edge of main's block goes down in OrderRank. */
  lemma RootBelow(r: Ref)
    requires r != Null && Points(Root(), r)
    ensures Below(Root(), OrderRank, r)
  {
  }

  /** The block of main is well formed and ranked, and its entries point into it. */
  lemma RootRanked()
    ensures WellFormed(Root()) && Ranked(Root(), OrderRank) && Entries(Root(), RootBlock())
  {
    RootWellFormed();
    forall r | r != Null && Points(Root(), r)
      ensures Below(Root(), OrderRank, r)
    {
      RootBelow(r);
    }
  }

  /** The walk from a constant of main's block meets no instruction. */
  lemma RootFromConst(j: nat)
    requires j < 7
    ensures LiveFrom(Root(), OrderRank, ConstAt(j)) == {}
  {
    assert Followed(Root(), OrderRank, ConstAt(j)) && Deref(Root(), ConstAt(j)) == Root().consts[j];
    FromNull(Root(), OrderRank);
    FromNode(Root(), OrderRank, ConstAt(j), Root().consts[j], {}, {}, {});
  }

  /** The walk from a = 1 + 2. */
  lemma RootFromInstr0()
    ensures LiveFrom(Root(), OrderRank, InstrAt(0)) == {InstrAt(0)}
  {
    var n := InstrNode(Add, NameAt(0), ConstAt(0), ConstAt(1));
    assert Followed(Root(), OrderRank, InstrAt(0)) && Deref(Root(), InstrAt(0)) == n;
    RootFromConst(0);
    RootFromConst(1);
    FromNull(Root(), OrderRank);
    FromNode(Root(), OrderRank, InstrAt(0), n, {}, {}, {});
  }

  /** The walk from the name a, declared by a = 1 + 2. */
  lemma RootFromNameA()
    ensures LiveFrom(Root(), OrderRank, NameAt(0)) == {InstrAt(0)}
  {
    var n := NameNode("a", InstrAt(0));
    assert Followed(Root(), OrderRank, NameAt(0)) && Deref(Root(), NameAt(0)) == n;
    RootFromInstr0();
    FromNull(Root(), OrderRank);
    FromNode(Root(), OrderRank, NameAt(0), n, {}, {}, {InstrAt(0)});
  }

  /** The walk from b = a + 3. */
  lemma RootFromInstr1()
    ensures LiveFrom(Root(), OrderRank, InstrAt(1)) == {InstrAt(1), InstrAt(0)}
  {
    var n := InstrNode(Add, NameAt(1), NameAt(0), ConstAt(2));
    assert Followed(Root(), OrderRank, InstrAt(1)) && Deref(Root(), InstrAt(1)) == n;
    assert {InstrAt(1)} + {InstrAt(0)} + {} + {} == {InstrAt(1), InstrAt(0)};
    RootFromNameA();
    RootFromConst(2);
    FromNull(Root(), OrderRank);
    FromNode(Root(), OrderRank, InstrAt(1), n, {InstrAt(0)}, {}, {});
  }

  /** The walk from the name b, declared by b = a + 3. */
  lemma RootFromNameB()
    ensures LiveFrom(Root(), OrderRank, NameAt(1)) == {InstrAt(1), InstrAt(0)}
  {
    var n := NameNode("b", InstrAt(1));
    assert Followed(Root(), OrderRank, NameAt(1)) && Deref(Root(), NameAt(1)) == n;
    RootFromInstr1();
    FromNull(Root(), OrderRank);
    FromNode(Root(), OrderRank, NameAt(1), n, {}, {}, {InstrAt(1), InstrAt(0)});
  }

  /** The walk from d = 6 + 7. */
  lemma RootFromInstr3()
    ensures LiveFrom(Root(), OrderRank, InstrAt(3)) == {InstrAt(3)}
  {
    var n := InstrNode(Add, NameAt(3), ConstAt(5), ConstAt(6));
    assert Followed(Root(), OrderRank, InstrAt(3)) && Deref(Root(), InstrAt(3)) == n;
    RootFromConst(5);
    RootFromConst(6);
    FromNull(Root(), OrderRank);
    FromNode(Root(), OrderRank, InstrAt(3), n, {}, {}, {});
  }

  /** The walk from the name d, declared by d = 6 + 7. */
  lemma RootFromNameD()
    ensures LiveFrom(Root(), OrderRank, NameAt(3)) == {InstrAt(3)}
  {
    var n := NameNode("d", InstrAt(3));
    assert Followed(Root(), OrderRank, NameAt(3)) && Deref(Root(), NameAt(3)) == n;
    RootFromInstr3();
    FromNull(Root(), OrderRank);
    FromNode(Root(), OrderRank, NameAt(3), n, {}, {}, {InstrAt(3)});
  }

  /** The walk from e = d + b. */
  lemma RootFromInstr4()
    ensures LiveFrom(Root(), OrderRank, InstrAt(4)) == {InstrAt(4), InstrAt(3), InstrAt(1), InstrAt(0)}
  {
    var n := InstrNode(Add, NameAt(4), NameAt(3), NameAt(1));
    assert Followed(Root(), OrderRank, InstrAt(4)) && Deref(Root(), InstrAt(4)) == n;
    assert {InstrAt(4)} + {InstrAt(3)} + {InstrAt(1), InstrAt(0)} + {} == {InstrAt(4), InstrAt(3), InstrAt(1), InstrAt(0)};
    RootFromNameD();
    RootFromNameB();
    FromNull(Root(), OrderRank);
    FromNode(Root(), OrderRank, InstrAt(4), n, {InstrAt(3)}, {InstrAt(1), InstrAt(0)}, {});
  }

  /** The walk from the name e, declared by e = d + b. */
  lemma RootFromNameE()
    ensures LiveFrom(Root(), OrderRank, NameAt(4)) == {InstrAt(4), InstrAt(3), InstrAt(1), InstrAt(0)}
  {
    var n := NameNode("e", InstrAt(4));
    assert Followed(Root(), OrderRank, NameAt(4)) && Deref(Root(), NameAt(4)) == n;
    RootFromInstr4();
    FromNull(Root(), OrderRank);
    FromNode(Root(), OrderRank, NameAt(4), n, {}, {}, {InstrAt(4), InstrAt(3), InstrAt(1), InstrAt(0)});
  }

  /** The walk from return e finds every instruction of main's block but c = 5. */
  lemma RootLive()
    ensures LiveFrom(Root(), OrderRank, InstrAt(5)) == {InstrAt(5), InstrAt(4), InstrAt(3), InstrAt(1), InstrAt(0)}
  {
    var n := InstrNode(Return, Null, NameAt(4), Null);
    assert Followed(Root(), OrderRank, InstrAt(5)) && Deref(Root(), InstrAt(5)) == n;
    RootFromNameE();
    FromNull(Root(), OrderRank);
    FromNode(Root(), OrderRank, InstrAt(5), n, {InstrAt(4), InstrAt(3), InstrAt(1), InstrAt(0)}, {}, {});
  }

  /** main: GetDeadInstrs on its block returns c = 5 alone. */
  lemma RootDead()
    ensures WellFormed(Root()) && Ranked(Root(), OrderRank) && Entries(Root(), RootBlock())
    ensures NotIn(RootBlock(), LiveFrom(Root(), OrderRank, RootBlock()[5])) == [InstrAt(2)]
  {
    RootRanked();
    RootLive();
    NotInOne(RootBlock(), {InstrAt(5), InstrAt(4), InstrAt(3), InstrAt(1), InstrAt(0)}, 2);
  }
}
