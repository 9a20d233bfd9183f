/**
 * Dead code elimination over one basic block (src/dead_code.cc). The last instruction is taken to
 * be the block's return; a worklist walks back from it through src1, src2 and decl, and every
 * Instruction operand it meets is live. Every other Instruction entry of the block is marked
 * ignored by turning its operand type into Temp.
 *
 * The worklist has no visited set, so the walk ends only when the operands reachable from the
 * return form no cycle through src1, src2 and decl. The model asks for a ghost rank that every
 * such edge decreases.
 */
module DeadCode {
  import opened Ir

  /** Every src1, src2 and decl edge from an operand of s leads to an operand of smaller rank. */
  ghost predicate Ranked(s: Store, rank: Ref -> nat)
  {
    forall r :: r != Null && Points(s, r) ==> Below(s, rank, r)
  }

  /** The non-null operands r reads have a rank below that of r. */
  ghost predicate Below(s: Store, rank: Ref -> nat, r: Ref)
    requires r != Null && Points(s, r)
  {
    var n := Deref(s, r);
    (n.src1 != Null ==> rank(n.src1) < rank(r))
    && (n.src2 != Null ==> rank(n.src2) < rank(r))
    && (n.decl != Null ==> rank(n.decl) < rank(r))
  }

  /**
   * The walk can follow r: r is an operand of the block whose edges go down in rank. In a well
   * formed, ranked block this holds of every non-null pointer.
   */
  ghost predicate Followed(s: Store, rank: Ref -> nat, r: Ref)
  {
    r != Null && Points(s, r) && Below(s, rank, r)
  }

  /** The measure of the walk from r: r itself, then what the walk from each pushed operand costs. */
  ghost function Weight(s: Store, rank: Ref -> nat, r: Ref): (w: nat)
    ensures w >= 1
    decreases if r == Null then 0 else rank(r) + 1
  {
    if !Followed(s, rank, r) then 1
    else
      var n := Deref(s, r);
      1 + Weight(s, rank, n.src1) + Weight(s, rank, n.src2) + Weight(s, rank, n.decl)
  }

  /** The operands reachable from r through src1, src2 and decl, r included. */
  ghost function Reached(s: Store, rank: Ref -> nat, r: Ref): (c: set<Ref>)
    decreases if r == Null then 0 else rank(r) + 1
  {
    if !Followed(s, rank, r) then {}
    else
      var n := Deref(s, r);
      {r} + Reached(s, rank, n.src1) + Reached(s, rank, n.src2) + Reached(s, rank, n.decl)
  }

  /** The Instruction operands the walk from r meets: the live instructions when r is the return. */
  ghost function LiveFrom(s: Store, rank: Ref -> nat, r: Ref): set<Ref>
    decreases if r == Null then 0 else rank(r) + 1
  {
    if !Followed(s, rank, r) then {}
    else
      var n := Deref(s, r);
      (if n.opndType == Instruction then {r} else {})
      + LiveFrom(s, rank, n.src1) + LiveFrom(s, rank, n.src2) + LiveFrom(s, rank, n.decl)
  }

  /** Every operand on the stack is null or points into the block. */
  ghost predicate AllPoint(s: Store, stack: seq<Ref>)
  {
    forall k :: 0 <= k < |stack| ==> Points(s, stack[k])
  }

  /** The measure of the walk from every operand of the stack. */
  ghost function StackWeight(s: Store, rank: Ref -> nat, stack: seq<Ref>): nat
  {
    if stack == [] then 0
    else StackWeight(s, rank, stack[..|stack| - 1]) + Weight(s, rank, stack[|stack| - 1])
  }

  /** The Instruction operands the walk from the operands of the stack still meets. */
  ghost function StackLive(s: Store, rank: Ref -> nat, stack: seq<Ref>): set<Ref>
  {
    if stack == [] then {}
    else StackLive(s, rank, stack[..|stack| - 1]) + LiveFrom(s, rank, stack[|stack| - 1])
  }

  /** GetReturnStatementFromBlock: the block's last instruction, taken to be its return. */
  function ReturnStatement(s: Store): (r: Ref)
    requires |s.instrs| > 0
    ensures r != Null && Points(s, r) && Deref(s, r) == s.instrs[|s.instrs| - 1]
  {
    InstrAt(|s.instrs| - 1)
  }

  /**
   * The walk of EliminateDeadInstrs: a stack starting at ret; each operand popped pushes its src1,
   * src2 and decl, null ones included, and is recorded when it is an Instruction. The result is
   * the set of Instruction operands reachable from ret.
   */
  method LiveInstrs(s: Store, ret: Ref, ghost rank: Ref -> nat) returns (live: set<Ref>)
    requires WellFormed(s) && Ranked(s, rank) && Points(s, ret)
    ensures live == LiveFrom(s, rank, ret)
  {
    var stack := [ret];
    live := {};
    assert [ret][..0] == [];
    while stack != []
      invariant AllPoint(s, stack)
      invariant live + StackLive(s, rank, stack) == LiveFrom(s, rank, ret)
      decreases StackWeight(s, rank, stack)
    {
      var r := stack[|stack| - 1];
      var rest := stack[..|stack| - 1];
      Popped(s, rank, stack, rest, r);
      stack := rest;
      if r != Null {
        var n := Deref(s, r);
        Unfold(s, rank, r);
        ghost var live0 := live;
        Pushed(s, rank, stack, n.src1);
        stack := stack + [n.src1];
        Pushed(s, rank, stack, n.src2);
        stack := stack + [n.src2];
        Pushed(s, rank, stack, n.decl);
        stack := stack + [n.decl];
        if n.opndType == Instruction {
          live := live + {r};
          Regroup(live0, StackLive(s, rank, rest), {r},
                  LiveFrom(s, rank, n.src1), LiveFrom(s, rank, n.src2), LiveFrom(s, rank, n.decl));
        } else {
          Regroup(live0, StackLive(s, rank, rest), {},
                  LiveFrom(s, rank, n.src1), LiveFrom(s, rank, n.src2), LiveFrom(s, rank, n.decl));
        }
      } else {
        assert StackLive(s, rank, rest) + LiveFrom(s, rank, r) == StackLive(s, rank, rest);
      }
    }
  }

  /** The set algebra of one step of the walk: the popped operand's share moves from the stack to live. */
  lemma Regroup<T>(live: set<T>, rest: set<T>, mine: set<T>, a: set<T>, b: set<T>, c: set<T>)
    ensures live + (rest + (mine + a + b + c)) == (live + mine) + (rest + a + b + c)
    ensures mine == {} ==> live + (rest + (mine + a + b + c)) == live + (rest + a + b + c)
  {
  }

  /** Popping r off the stack takes r's walk out of the stack's measure and its live set. */
  lemma Popped(s: Store, rank: Ref -> nat, stack: seq<Ref>, rest: seq<Ref>, r: Ref)
    requires AllPoint(s, stack) && stack != []
    requires rest == stack[..|stack| - 1] && r == stack[|stack| - 1]
    ensures AllPoint(s, rest) && Points(s, r)
    ensures StackWeight(s, rank, stack) == StackWeight(s, rank, rest) + Weight(s, rank, r)
    ensures StackLive(s, rank, stack) == StackLive(s, rank, rest) + LiveFrom(s, rank, r)
  {
  }

  /** Pushing r onto the stack adds r's walk to the stack's measure and its live set. */
  lemma Pushed(s: Store, rank: Ref -> nat, stack: seq<Ref>, r: Ref)
    requires AllPoint(s, stack) && Points(s, r)
    ensures AllPoint(s, stack + [r])
    ensures StackWeight(s, rank, stack + [r]) == StackWeight(s, rank, stack) + Weight(s, rank, r)
    ensures StackLive(s, rank, stack + [r]) == StackLive(s, rank, stack) + LiveFrom(s, rank, r)
  {
    assert (stack + [r])[..|stack|] == stack;
  }

  /** The walk from r is r, then the walks from src1, src2 and decl. */
  lemma Unfold(s: Store, rank: Ref -> nat, r: Ref)
    requires WellFormed(s) && Ranked(s, rank) && r != Null && Points(s, r)
    ensures Sound(s, Deref(s, r)) && Below(s, rank, r)
    ensures Weight(s, rank, r)
            == 1 + Weight(s, rank, Deref(s, r).src1) + Weight(s, rank, Deref(s, r).src2) + Weight(s, rank, Deref(s, r).decl)
    ensures LiveFrom(s, rank, r)
            == (if Deref(s, r).opndType == Instruction then {r} else {})
               + LiveFrom(s, rank, Deref(s, r).src1) + LiveFrom(s, rank, Deref(s, r).src2) + LiveFrom(s, rank, Deref(s, r).decl)
  {
    assert Sound(s, Deref(s, r)) && Below(s, rank, r);
  }

  /** The walk from a followed operand r, given the walks from the three operands it reads. */
  lemma FromNode(s: Store, rank: Ref -> nat, r: Ref, n: Node, a: set<Ref>, b: set<Ref>, c: set<Ref>)
    requires Followed(s, rank, r) && Deref(s, r) == n
    requires LiveFrom(s, rank, n.src1) == a && LiveFrom(s, rank, n.src2) == b && LiveFrom(s, rank, n.decl) == c
    ensures LiveFrom(s, rank, r) == (if n.opndType == Instruction then {r} else {}) + a + b + c
  {
  }

  /** Every non-null operand of a well-formed, ranked block can be followed by the walk. */
  lemma Follows(s: Store, rank: Ref -> nat, r: Ref)
    requires WellFormed(s) && Ranked(s, rank) && r != Null && Points(s, r)
    ensures Followed(s, rank, r) && Sound(s, Deref(s, r))
  {
    assert Sound(s, Deref(s, r));
  }

  /** The live instructions the walk from r finds are the Instruction operands reachable from r. */
  lemma {:induction false} LiveReached(s: Store, rank: Ref -> nat, r: Ref, x: Ref)
    requires WellFormed(s) && Ranked(s, rank) && Points(s, r)
    ensures x in LiveFrom(s, rank, r) <==>
            x in Reached(s, rank, r) && Points(s, x) && x != Null && Deref(s, x).opndType == Instruction
    decreases if r == Null then 0 else rank(r) + 1
  {
    if r != Null {
      Follows(s, rank, r);
      var n := Deref(s, r);
      LiveReached(s, rank, n.src1, x);
      LiveReached(s, rank, n.src2, x);
      LiveReached(s, rank, n.decl, x);
    }
  }

  /** c holds, with each of its operands, the non-null operands that operand reads or is declared by. */
  ghost predicate Closed(s: Store, c: set<Ref>)
  {
    forall x :: x in c && x != Null && Points(s, x) ==>
      (Deref(s, x).src1 != Null ==> Deref(s, x).src1 in c)
      && (Deref(s, x).src2 != Null ==> Deref(s, x).src2 in c)
      && (Deref(s, x).decl != Null ==> Deref(s, x).decl in c)
  }

  /** Everything reached from r is a non-null operand of the block. */
  lemma {:induction false} ReachedPoints(s: Store, rank: Ref -> nat, r: Ref, x: Ref)
    requires WellFormed(s) && Ranked(s, rank) && Points(s, r) && x in Reached(s, rank, r)
    ensures x != Null && Points(s, x)
    decreases if r == Null then 0 else rank(r) + 1
  {
    Follows(s, rank, r);
    var n := Deref(s, r);
    if x != r {
      if x in Reached(s, rank, n.src1) {
        ReachedPoints(s, rank, n.src1, x);
      } else if x in Reached(s, rank, n.src2) {
        ReachedPoints(s, rank, n.src2, x);
      } else {
        ReachedPoints(s, rank, n.decl, x);
      }
    }
  }

  /** The operands reached from r are closed: the walk misses no operand one of them reads. */
  lemma {:induction false} ReachedClosed(s: Store, rank: Ref -> nat, r: Ref)
    requires WellFormed(s) && Ranked(s, rank) && Points(s, r)
    ensures Closed(s, Reached(s, rank, r))
    decreases if r == Null then 0 else rank(r) + 1
  {
    if r != Null {
      Follows(s, rank, r);
      var n := Deref(s, r);
      ReachedClosed(s, rank, n.src1);
      ReachedClosed(s, rank, n.src2);
      ReachedClosed(s, rank, n.decl);
      forall x | x in Reached(s, rank, r) && x != Null && Points(s, x)
        ensures (Deref(s, x).src1 != Null ==> Deref(s, x).src1 in Reached(s, rank, r))
        ensures (Deref(s, x).src2 != Null ==> Deref(s, x).src2 in Reached(s, rank, r))
        ensures (Deref(s, x).decl != Null ==> Deref(s, x).decl in Reached(s, rank, r))
      {
        if x != r {
          assert x in Reached(s, rank, n.src1) || x in Reached(s, rank, n.src2) || x in Reached(s, rank, n.decl);
        }
      }
    }
  }

  /** Any closed set holding r holds everything reached from r: Reached is the least such set. */
  lemma {:induction false} ReachedLeast(s: Store, rank: Ref -> nat, r: Ref, c: set<Ref>)
    requires WellFormed(s) && Ranked(s, rank) && Points(s, r)
    requires Closed(s, c) && (r != Null ==> r in c)
    ensures Reached(s, rank, r) <= c
    decreases if r == Null then 0 else rank(r) + 1
  {
    if r != Null {
      Follows(s, rank, r);
      var n := Deref(s, r);
      ReachedLeast(s, rank, n.src1, c);
      ReachedLeast(s, rank, n.src2, c);
      ReachedLeast(s, rank, n.decl, c);
    }
  }

  /** An Instruction entry the walk did not find is dead: it becomes a Temp; any other entry stays. */
  function MarkOne(n: Node, live: bool): (m: Node)
    ensures m.opndType == (if n.opndType == Instruction && !live then Temp else n.opndType)
    ensures m == n.(opndType := m.opndType)
  {
    if n.opndType == Instruction && !live then n.(opndType := Temp) else n
  }

  /**
   * The marking loop of EliminateDeadInstrs: every Instruction entry of the block whose position
   * is not in live gets operand type Temp, and nothing else changes. It returns the number of
   * entries it marked, which is what the pass's change count is there for.
   */
  method MarkDead(bb: BasicBlock, live: set<Ref>) returns (marked: nat)
    modifies bb
    ensures bb.names == old(bb.names) && bb.consts == old(bb.consts) && |bb.instrs| == |old(bb.instrs)|
    ensures forall k :: 0 <= k < |bb.instrs| ==> bb.instrs[k] == MarkOne(old(bb.instrs[k]), InstrAt(k) in live)
    ensures marked == Changed(old(bb.instrs), bb.instrs)
  {
    ghost var s0 := bb.instrs;
    marked := 0;
    for i := 0 to |bb.instrs|
      invariant bb.names == old(bb.names) && bb.consts == old(bb.consts) && |bb.instrs| == |s0|
      invariant forall k :: 0 <= k < i ==> bb.instrs[k] == MarkOne(s0[k], InstrAt(k) in live)
      invariant forall k :: i <= k < |s0| ==> bb.instrs[k] == s0[k]
      invariant marked == Changed(s0[..i], bb.instrs[..i])
    {
      ghost var before := bb.instrs;
      if bb.instrs[i].opndType == Instruction && InstrAt(i) !in live {
        bb.instrs := bb.instrs[i := bb.instrs[i].(opndType := Temp)];
        marked := marked + 1;
      }
      ChangedNext(s0, before, bb.instrs, i);
    }
    assert s0[..|s0|] == s0 && bb.instrs[..|bb.instrs|] == bb.instrs;
  }

  /** Changing at most position i of b extends the count of differences by whether a[i] and b'[i] differ. */
  lemma ChangedNext(a: seq<Node>, b: seq<Node>, b': seq<Node>, i: nat)
    requires |a| == |b| == |b'| && i < |a|
    requires forall k :: 0 <= k < |b| && k != i ==> b'[k] == b[k]
    ensures Changed(a[..i + 1], b'[..i + 1])
            == Changed(a[..i], b[..i]) + (if a[i] != b'[i] then 1 else 0)
  {
    assert a[..i + 1][..i] == a[..i];
    assert b'[..i + 1][..i] == b[..i];
  }

  /**
   * EliminateDeadInstrs: the Instruction entries that the walk back from the block's last
   * instruction does not reach become Temp. As written, the pass returns a change count it never
   * increments.
   */
  method EliminateDeadInstrs(bb: BasicBlock, ghost rank: Ref -> nat) returns (changeCount: nat)
    requires WellFormed(bb.Contents()) && Ranked(bb.Contents(), rank) && |bb.instrs| > 0
    modifies bb
    ensures bb.names == old(bb.names) && bb.consts == old(bb.consts) && |bb.instrs| == |old(bb.instrs)|
    ensures forall k :: 0 <= k < |bb.instrs| ==>
      bb.instrs[k] == MarkOne(old(bb.instrs[k]), InstrAt(k) in LiveFrom(old(bb.Contents()), rank, ReturnStatement(old(bb.Contents()))))
    ensures changeCount == 0
  {
    var ret := ReturnStatement(bb.Contents());
    var live := LiveInstrs(bb.Contents(), ret, rank);
    var marked := MarkDead(bb, live);
    changeCount := 0;
  }

  /** The last instruction, the return, is never marked dead. */
  lemma ReturnKept(s: Store, rank: Ref -> nat)
    requires WellFormed(s) && Ranked(s, rank) && |s.instrs| > 0
    ensures MarkOne(s.instrs[|s.instrs| - 1], ReturnStatement(s) in LiveFrom(s, rank, ReturnStatement(s)))
            == s.instrs[|s.instrs| - 1]
  {
    Unfold(s, rank, ReturnStatement(s));
  }

  /**
   * A rank for the fixture blocks: each instruction reads constants and names declared before it,
   * and name j is declared by instruction j, so instruction i ranks 2i + 2 and name j ranks 2j + 3.
   */
  function OrderRank(r: Ref): nat
  {
    match r
    case InstrAt(i) => 2 * i + 2
    case NameAt(j) => 2 * j + 3
    case _ => 0
  }

  /** The fixture block is well formed and ranked: the walk ends on it. */
  lemma SimpleRanked()
    ensures WellFormed(Simple()) && Ranked(Simple(), OrderRank)
  {
    SimpleWellFormed();
    forall r | r != Null && Points(Simple(), r)
      ensures Below(Simple(), OrderRank, r)
    {
      SimpleBelow(r);
    }
  }

  /** Every edge of the fixture block goes down in OrderRank. */
  lemma SimpleBelow(r: Ref)
    requires r != Null && Points(Simple(), r)
    ensures Below(Simple(), OrderRank, r)
  {
  }

  /** The walk from null meets nothing. */
  lemma FromNull(s: Store, rank: Ref -> nat)
    ensures LiveFrom(s, rank, Null) == {}
  {
  }

  /** The walk from a constant of the fixture meets no instruction. */
  lemma SimpleFromConst(j: nat)
    requires j < 7
    ensures LiveFrom(Simple(), OrderRank, ConstAt(j)) == {}
  {
    assert Followed(Simple(), OrderRank, ConstAt(j)) && Deref(Simple(), ConstAt(j)) == Simple().consts[j];
    FromNull(Simple(), OrderRank);
    FromNode(Simple(), OrderRank, ConstAt(j), Simple().consts[j], {}, {}, {});
  }

  /** The walk from a = 1 + 2. */
  lemma SimpleFromInstr0()
    ensures LiveFrom(Simple(), OrderRank, InstrAt(0)) == {InstrAt(0)}
  {
    var n := InstrNode(Add, NameAt(0), ConstAt(0), ConstAt(1));
    assert Followed(Simple(), OrderRank, InstrAt(0)) && Deref(Simple(), InstrAt(0)) == n;
    assert {InstrAt(0)} + {} + {} + {} == {InstrAt(0)};
    SimpleFromConst(0);
    SimpleFromConst(1);
    FromNull(Simple(), OrderRank);
    FromNode(Simple(), OrderRank, InstrAt(0), n, {}, {}, {});
  }

  /** The walk from the name a, declared by a = 1 + 2. */
  lemma SimpleFromNameA()
    ensures LiveFrom(Simple(), OrderRank, NameAt(0)) == {InstrAt(0)}
  {
    var n := NameNode("a", InstrAt(0));
    assert Followed(Simple(), OrderRank, NameAt(0)) && Deref(Simple(), NameAt(0)) == n;
    SimpleFromInstr0();
    FromNull(Simple(), OrderRank);
    FromNode(Simple(), OrderRank, NameAt(0), n, {}, {}, {InstrAt(0)});
  }

  /** The walk from b = a + 3. */
  lemma SimpleFromInstr1()
    ensures LiveFrom(Simple(), OrderRank, InstrAt(1)) == {InstrAt(1), InstrAt(0)}
  {
    var n := InstrNode(Add, NameAt(1), NameAt(0), ConstAt(2));
    assert Followed(Simple(), OrderRank, InstrAt(1)) && Deref(Simple(), InstrAt(1)) == n;
    assert {InstrAt(1)} + {InstrAt(0)} + {} + {} == {InstrAt(1), InstrAt(0)};
    SimpleFromNameA();
    SimpleFromConst(2);
    FromNull(Simple(), OrderRank);
    FromNode(Simple(), OrderRank, InstrAt(1), n, {InstrAt(0)}, {}, {});
  }

  /** The walk from the name b, declared by b = a + 3. */
  lemma SimpleFromNameB()
    ensures LiveFrom(Simple(), OrderRank, NameAt(1)) == {InstrAt(1), InstrAt(0)}
  {
    var n := NameNode("b", InstrAt(1));
    assert Followed(Simple(), OrderRank, NameAt(1)) && Deref(Simple(), NameAt(1)) == n;
    SimpleFromInstr1();
    FromNull(Simple(), OrderRank);
    FromNode(Simple(), OrderRank, NameAt(1), n, {}, {}, {InstrAt(1), InstrAt(0)});
  }

  /** The walk from d = a. */
  lemma SimpleFromInstr3()
    ensures LiveFrom(Simple(), OrderRank, InstrAt(3)) == {InstrAt(3), InstrAt(0)}
  {
    var n := InstrNode(Assignment, NameAt(3), NameAt(0), Null);
    assert Followed(Simple(), OrderRank, InstrAt(3)) && Deref(Simple(), InstrAt(3)) == n;
    assert {InstrAt(3)} + {InstrAt(0)} + {} + {} == {InstrAt(3), InstrAt(0)};
    SimpleFromNameA();
    FromNull(Simple(), OrderRank);
    FromNode(Simple(), OrderRank, InstrAt(3), n, {InstrAt(0)}, {}, {});
  }

  /** The walk from the name d, declared by d = a. */
  lemma SimpleFromNameD()
    ensures LiveFrom(Simple(), OrderRank, NameAt(3)) == {InstrAt(3), InstrAt(0)}
  {
    var n := NameNode("d", InstrAt(3));
    assert Followed(Simple(), OrderRank, NameAt(3)) && Deref(Simple(), NameAt(3)) == n;
    SimpleFromInstr3();
    FromNull(Simple(), OrderRank);
    FromNode(Simple(), OrderRank, NameAt(3), n, {}, {}, {InstrAt(3), InstrAt(0)});
  }

  /** The walk from e = d + b. */
  lemma SimpleFromInstr4()
    ensures LiveFrom(Simple(), OrderRank, InstrAt(4)) == {InstrAt(4), InstrAt(3), InstrAt(1), InstrAt(0)}
  {
    var n := InstrNode(Add, NameAt(4), NameAt(3), NameAt(1));
    assert Followed(Simple(), OrderRank, InstrAt(4)) && Deref(Simple(), InstrAt(4)) == n;
    assert {InstrAt(4)} + {InstrAt(3), InstrAt(0)} + {InstrAt(1), InstrAt(0)} + {} == {InstrAt(4), InstrAt(3), InstrAt(1), InstrAt(0)};
    SimpleFromNameD();
    SimpleFromNameB();
    FromNull(Simple(), OrderRank);
    FromNode(Simple(), OrderRank, InstrAt(4), n, {InstrAt(3), InstrAt(0)}, {InstrAt(1), InstrAt(0)}, {});
  }

  /** The walk from the name e, declared by e = d + b. */
  lemma SimpleFromNameE()
    ensures LiveFrom(Simple(), OrderRank, NameAt(4)) == {InstrAt(4), InstrAt(3), InstrAt(1), InstrAt(0)}
  {
    var n := NameNode("e", InstrAt(4));
    assert Followed(Simple(), OrderRank, NameAt(4)) && Deref(Simple(), NameAt(4)) == n;
    SimpleFromInstr4();
    FromNull(Simple(), OrderRank);
    FromNode(Simple(), OrderRank, NameAt(4), n, {}, {}, {InstrAt(4), InstrAt(3), InstrAt(1), InstrAt(0)});
  }

  /**
   * dead_code_main: on the fixture block the walk back from return e finds e = d + b, d = a,
   * b = a + 3 and a = 1 + 2; exactly c = 5 and f = c + d are dead.
   */
  lemma SimpleLive()
    ensures WellFormed(Simple()) && Ranked(Simple(), OrderRank)
    ensures LiveFrom(Simple(), OrderRank, ReturnStatement(Simple()))
            == {InstrAt(6), InstrAt(4), InstrAt(3), InstrAt(1), InstrAt(0)}
  {
    var n := InstrNode(Return, Null, NameAt(4), Null);
    assert Followed(Simple(), OrderRank, InstrAt(6)) && Deref(Simple(), InstrAt(6)) == n;
    SimpleFromNameE();
    FromNull(Simple(), OrderRank);
    FromNode(Simple(), OrderRank, InstrAt(6), n, {InstrAt(4), InstrAt(3), InstrAt(1), InstrAt(0)}, {}, {});
    SimpleRanked();
  }

  /** What the marking loop leaves of the fixture given its live set: c = 5 and f = c + d become Temp. */
  lemma SimpleMarked(s: Store, live: set<Ref>)
    requires |s.instrs| == 7 && live == {InstrAt(6), InstrAt(4), InstrAt(3), InstrAt(1), InstrAt(0)}
    requires forall k :: 0 <= k < 7 ==> s.instrs[k] == MarkOne(Simple().instrs[k], InstrAt(k) in live)
    ensures s.instrs[2] == Simple().instrs[2].(opndType := Temp)
    ensures s.instrs[5] == Simple().instrs[5].(opndType := Temp)
    ensures forall k :: 0 <= k < 7 && k != 2 && k != 5 ==> s.instrs[k] == Simple().instrs[k]
  {
    forall k | 0 <= k < 7 && k != 2 && k != 5
      ensures s.instrs[k] == Simple().instrs[k]
    {
      assert InstrAt(k) in live;
    }
    assert InstrAt(2) !in live && InstrAt(5) !in live;
  }

  /** Marking c = 5 and f = c + d and nothing else changes two entries of the fixture. */
  lemma SimpleChanged(b: seq<Node>)
    requires |b| == 7
    requires b[2] == Simple().instrs[2].(opndType := Temp) && b[5] == Simple().instrs[5].(opndType := Temp)
    requires forall k :: 0 <= k < 7 && k != 2 && k != 5 ==> b[k] == Simple().instrs[k]
    ensures Changed(Simple().instrs, b) == 2
  {
    var a := Simple().instrs;
    ChangedDiffs(a, b, 7);
    assert a[..7] == a && b[..7] == b;
    assert Diffs(a, b, 7) == {2, 5};
  }

  /**
   * EliminateDeadInstrs on the fixture block changes two entries, c = 5 and f = c + d, yet the
   * count it returns is 0.
   */
  lemma SimpleEliminated(s: Store, changeCount: nat)
    requires |s.instrs| == 7 && changeCount == 0
    requires forall k :: 0 <= k < 7 ==>
      s.instrs[k] == MarkOne(Simple().instrs[k], InstrAt(k) in LiveFrom(Simple(), OrderRank, ReturnStatement(Simple())))
    ensures Changed(Simple().instrs, s.instrs) == 2 != changeCount
  {
    SimpleLive();
    SimpleMarked(s, LiveFrom(Simple(), OrderRank, ReturnStatement(Simple())));
    SimpleChanged(s.instrs);
  }
}
