/**
 * Constant propagation over one basic block (src/constant_prop.cc): a source operand that is a
 * name assigned a constant is replaced by that constant. An Add tries its second source and then
 * its first; an Assignment or a Return tries its one source. The block is rewritten in order, so
 * a later instruction sees the rewrites of the earlier ones. The pass returns the number of
 * operands it replaced.
 */
module ConstantProp {
  import opened Ir

  /**
   * CanReplaceSrcByConstant: src is a name, declared by an Assignment instruction whose source is
   * a constant.
   */
  predicate CanReplace(s: Store, src: Ref)
    requires WellFormed(s) && Points(s, src) && src != Null
  {
    var n := Deref(s, src);
    n.opndType == Name && n.decl != Null
    && Deref(s, n.decl).opndType == Instruction && Deref(s, n.decl).instrType == Assignment
    && Deref(s, Deref(s, n.decl).src1).opndType == Constant
  }

  /** The constant operand that replaces src: the source of the Assignment that declares it. */
  function Replacement(s: Store, src: Ref): (c: Ref)
    requires WellFormed(s) && Points(s, src) && src != Null && CanReplace(s, src)
    ensures c != Null && Points(s, c) && Deref(s, c).opndType == Constant && c != src
  {
    Deref(s, Deref(s, src).decl).src1
  }

  /** Instruction k with its first source propagated, when that source can be replaced. */
  function PropSrc1(s: Store, k: nat): (r: Store)
    requires WellFormed(s) && k < |s.instrs| && s.instrs[k].src1 != Null
    ensures WellFormed(r) && |r.instrs| == |s.instrs|
  {
    var n := s.instrs[k];
    if CanReplace(s, n.src1) then
      var c := Replacement(s, n.src1);
      WithInstr(s, k, n.(src1 := c));
      s.(instrs := s.instrs[k := n.(src1 := c)])
    else s
  }

  /** Instruction k with its second source propagated, when that source can be replaced. */
  function PropSrc2(s: Store, k: nat): (r: Store)
    requires WellFormed(s) && k < |s.instrs| && s.instrs[k].src2 != Null
    ensures WellFormed(r) && |r.instrs| == |s.instrs|
  {
    var n := s.instrs[k];
    if CanReplace(s, n.src2) then
      var c := Replacement(s, n.src2);
      WithInstr(s, k, n.(src2 := c));
      s.(instrs := s.instrs[k := n.(src2 := c)])
    else s
  }

  /**
   * The pass at instruction k of the block s: an Add propagates its second and then its first
   * source, an Assignment or a Return its first, and any other entry is left alone.
   */
  function Step(s: Store, k: nat): (r: Store)
    requires WellFormed(s) && k < |s.instrs|
    ensures WellFormed(r) && |r.instrs| == |s.instrs|
  {
    var n := s.instrs[k];
    assert Sound(s, n);
    if n.opndType != Instruction then s
    else if n.instrType == Add then PropSrc1(PropSrc2(s, k), k)
    else if n.instrType == Assignment || n.instrType == Return then PropSrc1(s, k)
    else s
  }

  /** The block after the pass has gone through the first i instructions of s0. */
  function PropUpTo(s0: Store, i: nat): (s: Store)
    requires WellFormed(s0) && i <= |s0.instrs|
    ensures WellFormed(s) && |s.instrs| == |s0.instrs|
  {
    if i == 0 then s0 else Step(PropUpTo(s0, i - 1), i - 1)
  }

  /** The number of sources that differ between the instruction lists a and b. */
  function SrcChanges(a: seq<Node>, b: seq<Node>): (r: nat)
    requires |a| == |b|
    ensures r <= 2 * |a|
  {
    if a == [] then 0
    else SrcChanges(a[..|a| - 1], b[..|b| - 1])
         + (if a[|a| - 1].src1 != b[|b| - 1].src1 then 1 else 0)
         + (if a[|a| - 1].src2 != b[|b| - 1].src2 then 1 else 0)
  }

  /**
   * PropConstants: propagates constants through the block in order and returns how many source
   * operands it replaced.
   */
  method PropConstants(bb: BasicBlock) returns (count: nat)
    requires WellFormed(bb.Contents())
    modifies bb
    ensures bb.Contents() == PropUpTo(old(bb.Contents()), |old(bb.instrs)|)
    ensures |bb.instrs| == |old(bb.instrs)|
    ensures count == SrcChanges(old(bb.instrs), bb.instrs)
  {
    ghost var s0 := bb.Contents();
    count := 0;
    for i := 0 to |bb.instrs|
      invariant |bb.instrs| == |s0.instrs|
      invariant bb.Contents() == PropUpTo(s0, i)
      invariant count == SrcChanges(s0.instrs[..i], bb.instrs[..i])
    {
      ghost var s := bb.Contents();
      var replaced := PropInstr(bb, i);
      ghost var c0 := count;
      count := count + replaced;
      StepChanges(s0, s, i, bb.Contents(), c0, count);
    }
    assert s0.instrs[..|s0.instrs|] == s0.instrs;
    assert bb.instrs[..|bb.instrs|] == bb.instrs;
  }

  /**
   * The body of the loop for instruction k: the switch on its kind, which replaces the sources an
   * Add, an Assignment or a Return reads when they can be, and returns how many it replaced.
   */
  method PropInstr(bb: BasicBlock, k: nat) returns (replaced: nat)
    requires WellFormed(bb.Contents()) && k < |bb.instrs|
    modifies bb
    ensures bb.Contents() == Step(old(bb.Contents()), k)
    ensures replaced == (if bb.instrs[k].src1 != old(bb.instrs[k].src1) then 1 else 0)
                        + (if bb.instrs[k].src2 != old(bb.instrs[k].src2) then 1 else 0)
  {
    var instr := bb.instrs[k];
    assert Sound(bb.Contents(), instr);
    var replaced1, replaced2 := false, false;
    if instr.opndType == Instruction && instr.instrType == Add {
      replaced2 := ReplaceSrc2(bb, k);
    }
    if instr.opndType == Instruction
       && (instr.instrType == Add || instr.instrType == Assignment || instr.instrType == Return) {
      replaced1 := ReplaceSrc1(bb, k);
    }
    replaced := (if replaced1 then 1 else 0) + (if replaced2 then 1 else 0);
  }

  /** The src1 half of the switch: replaces the first source of instruction k when it can. */
  method ReplaceSrc1(bb: BasicBlock, k: nat) returns (replaced: bool)
    requires WellFormed(bb.Contents()) && k < |bb.instrs| && bb.instrs[k].src1 != Null
    modifies bb
    ensures bb.Contents() == PropSrc1(old(bb.Contents()), k)
    ensures replaced <==> bb.instrs[k].src1 != old(bb.instrs[k].src1)
  {
    var instr := bb.instrs[k];
    replaced := CanReplace(bb.Contents(), instr.src1);
    if replaced {
      var c := Replacement(bb.Contents(), instr.src1);
      bb.instrs := bb.instrs[k := instr.(src1 := c)];
    }
  }

  /** The src2 half of the switch for an Add: replaces its second source when it can. */
  method ReplaceSrc2(bb: BasicBlock, k: nat) returns (replaced: bool)
    requires WellFormed(bb.Contents()) && k < |bb.instrs| && bb.instrs[k].src2 != Null
    modifies bb
    ensures bb.Contents() == PropSrc2(old(bb.Contents()), k)
    ensures bb.instrs[k] == old(bb.instrs[k]).(src2 := bb.instrs[k].src2)
    ensures replaced <==> bb.instrs[k].src2 != old(bb.instrs[k].src2)
  {
    var instr := bb.instrs[k];
    replaced := CanReplace(bb.Contents(), instr.src2);
    if replaced {
      var c := Replacement(bb.Contents(), instr.src2);
      bb.instrs := bb.instrs[k := instr.(src2 := c)];
    }
  }

  /**
   * One step of the loop: the block goes from PropUpTo(s0, i) to PropUpTo(s0, i + 1), and the
   * count grows by the number of sources of instruction i that the step replaced.
   */
  lemma StepChanges(s0: Store, s: Store, i: nat, s': Store, c0: nat, c: nat)
    requires WellFormed(s0) && i < |s0.instrs| && s == PropUpTo(s0, i)
    requires c0 == SrcChanges(s0.instrs[..i], s.instrs[..i])
    requires s' == Step(s, i)
    requires c == c0 + (if s'.instrs[i].src1 != s.instrs[i].src1 then 1 else 0)
                     + (if s'.instrs[i].src2 != s.instrs[i].src2 then 1 else 0)
    ensures s' == PropUpTo(s0, i + 1)
    ensures c == SrcChanges(s0.instrs[..i + 1], s'.instrs[..i + 1])
  {
    StepFrame(s, i);
    PropFrame(s0, i);
    assert s0.instrs[..i + 1][..i] == s0.instrs[..i];
    assert s'.instrs[..i + 1][..i] == s.instrs[..i];
  }

  /** A step rewrites only the sources of instruction k; names, constants and other instructions stay. */
  lemma StepFrame(s: Store, k: nat)
    requires WellFormed(s) && k < |s.instrs|
    ensures Step(s, k).names == s.names && Step(s, k).consts == s.consts
    ensures forall j :: 0 <= j < |s.instrs| && j != k ==> Step(s, k).instrs[j] == s.instrs[j]
    ensures Step(s, k).instrs[k] == s.instrs[k].(src1 := Step(s, k).instrs[k].src1, src2 := Step(s, k).instrs[k].src2)
  {
  }

  /** The first i steps leave instructions i and later as they were in s0. */
  lemma {:induction false} PropFrame(s0: Store, i: nat)
    requires WellFormed(s0) && i <= |s0.instrs|
    ensures PropUpTo(s0, i).names == s0.names && PropUpTo(s0, i).consts == s0.consts
    ensures forall j :: i <= j < |s0.instrs| ==> PropUpTo(s0, i).instrs[j] == s0.instrs[j]
  {
    if i > 0 {
      PropFrame(s0, i - 1);
      StepFrame(PropUpTo(s0, i - 1), i - 1);
    }
  }

  /**
   * s is s0 with only sources of instructions rewritten: the names, the constants, and every
   * instruction's kind, dest and decl are as they were.
   */
  ghost predicate Shape(s0: Store, s: Store)
  {
    s.names == s0.names && s.consts == s0.consts && |s.instrs| == |s0.instrs|
    && forall j :: 0 <= j < |s.instrs| ==>
         s.instrs[j] == s0.instrs[j].(src1 := s.instrs[j].src1, src2 := s.instrs[j].src2)
  }

  /**
   * The source x became y: it is unchanged, or x is a name whose declaring Assignment in the
   * block s assigns the constant y, so reading y gives the value reading x gave.
   */
  ghost predicate Replaced(s: Store, x: Ref, y: Ref)
    requires WellFormed(s)
  {
    x == y || (x != Null && Points(s, x) && CanReplace(s, x) && Replacement(s, x) == y)
  }

  /** Every source of every instruction of s0 is, in s, itself or the constant its name is assigned. */
  ghost predicate Propagated(s0: Store, s: Store)
    requires WellFormed(s)
  {
    s.names == s0.names && s.consts == s0.consts && |s.instrs| == |s0.instrs|
    && forall j :: 0 <= j < |s.instrs| ==> PropagatedAt(s0, s, j)
  }

  /**
   * Instruction j of s is instruction j of s0 with each source itself or the constant its name is
   * assigned.
   */
  ghost predicate PropagatedAt(s0: Store, s: Store, j: nat)
    requires WellFormed(s) && j < |s.instrs| && j < |s0.instrs|
  {
    s.instrs[j] == s0.instrs[j].(src1 := s.instrs[j].src1, src2 := s.instrs[j].src2)
    && Replaced(s, s0.instrs[j].src1, s.instrs[j].src1) && Replaced(s, s0.instrs[j].src2, s.instrs[j].src2)
  }

  /** An operand of a block whose sources alone were rewritten keeps its kind, its decl and its dest. */
  lemma DerefShape(s0: Store, s: Store, r: Ref)
    requires Shape(s0, s) && r != Null && Points(s0, r)
    ensures Points(s, r) && Deref(s, r) == Deref(s0, r).(src1 := Deref(s, r).src1, src2 := Deref(s, r).src2)
  {
  }

  /**
   * Propagating the first source of instruction k keeps every replacement made so far: the
   * rewrite reads a name, never the constant an Assignment assigns.
   */
  lemma Keep1(s: Store, k: nat, x: Ref, y: Ref)
    requires WellFormed(s) && k < |s.instrs| && s.instrs[k].src1 != Null && Replaced(s, x, y)
    ensures Shape(s, PropSrc1(s, k)) && Replaced(PropSrc1(s, k), x, y)
  {
    var s' := PropSrc1(s, k);
    assert Shape(s, s');
    if x != y {
      var d := Deref(s, x).decl;
      DerefShape(s, s', x);
      DerefShape(s, s', d);
      DerefShape(s, s', y);
    }
  }

  /** Propagating the second source of instruction k keeps every replacement made so far. */
  lemma Keep2(s: Store, k: nat, x: Ref, y: Ref)
    requires WellFormed(s) && k < |s.instrs| && s.instrs[k].src2 != Null && Replaced(s, x, y)
    ensures Shape(s, PropSrc2(s, k)) && Replaced(PropSrc2(s, k), x, y)
  {
    var s' := PropSrc2(s, k);
    assert Shape(s, s');
    if x != y {
      var d := Deref(s, x).decl;
      DerefShape(s, s', x);
      DerefShape(s, s', d);
      DerefShape(s, s', y);
    }
  }

  /** Propagating the first source of instruction k, still as in s0, keeps s propagated from s0. */
  lemma Prop1Keeps(s0: Store, s: Store, k: nat)
    requires WellFormed(s) && Propagated(s0, s) && k < |s.instrs|
    requires s.instrs[k].src1 == s0.instrs[k].src1 && s.instrs[k].src1 != Null
    ensures Propagated(s0, PropSrc1(s, k))
  {
    var s' := PropSrc1(s, k);
    Keep1(s, k, Null, Null);
    forall j | 0 <= j < |s.instrs|
      ensures PropagatedAt(s0, s', j)
    {
      assert PropagatedAt(s0, s, j);
      Keep1(s, k, s0.instrs[j].src2, s.instrs[j].src2);
      if j == k {
        Keep1(s, k, s0.instrs[k].src1, s'.instrs[k].src1);
      } else {
        Keep1(s, k, s0.instrs[j].src1, s.instrs[j].src1);
      }
    }
  }

  /** Propagating the second source of instruction k, still as in s0, keeps s propagated from s0. */
  lemma Prop2Keeps(s0: Store, s: Store, k: nat)
    requires WellFormed(s) && Propagated(s0, s) && k < |s.instrs|
    requires s.instrs[k].src2 == s0.instrs[k].src2 && s.instrs[k].src2 != Null
    ensures Propagated(s0, PropSrc2(s, k))
  {
    var s' := PropSrc2(s, k);
    Keep2(s, k, Null, Null);
    forall j | 0 <= j < |s.instrs|
      ensures PropagatedAt(s0, s', j)
    {
      assert PropagatedAt(s0, s, j);
      Keep2(s, k, s0.instrs[j].src1, s.instrs[j].src1);
      if j == k {
        Keep2(s, k, s0.instrs[k].src2, s'.instrs[k].src2);
      } else {
        Keep2(s, k, s0.instrs[j].src2, s.instrs[j].src2);
      }
    }
  }

  /** The step at an instruction not yet visited keeps the block propagated from s0. */
  lemma StepKeeps(s0: Store, s: Store, k: nat)
    requires WellFormed(s) && Propagated(s0, s) && k < |s.instrs| && s.instrs[k] == s0.instrs[k]
    ensures Propagated(s0, Step(s, k))
  {
    var n := s.instrs[k];
    assert Sound(s, n);
    if n.opndType == Instruction && n.instrType == Add {
      Prop2Keeps(s0, s, k);
      Prop1Keeps(s0, PropSrc2(s, k), k);
    } else if n.opndType == Instruction && (n.instrType == Assignment || n.instrType == Return) {
      Prop1Keeps(s0, s, k);
    }
  }

  /** Before the step at instruction i, that instruction is still as it was in s0. */
  lemma NotYetVisited(s0: Store, i: nat)
    requires WellFormed(s0) && i < |s0.instrs|
    ensures PropUpTo(s0, i).instrs[i] == s0.instrs[i]
  {
    PropFrame(s0, i);
  }

  /**
   * The pass only ever replaces a source by the constant that the Assignment declaring it assigns
   * in the rewritten block, and it changes nothing but sources: the block computes what it did.
   */
  lemma {:induction false} PropPropagates(s0: Store, i: nat, s: Store)
    requires WellFormed(s0) && i <= |s0.instrs| && s == PropUpTo(s0, i)
    ensures Propagated(s0, s)
  {
    if i == 0 {
      NothingPropagated(s0);
    } else {
      var p := PropUpTo(s0, i - 1);
      PropPropagates(s0, i - 1, p);
      NotYetVisited(s0, i - 1);
      StepKeeps(s0, p, i - 1);
    }
  }

  /** Before the pass, every source is itself. */
  lemma NothingPropagated(s0: Store)
    requires WellFormed(s0)
    ensures Propagated(s0, s0)
  {
    forall j | 0 <= j < |s0.instrs|
      ensures PropagatedAt(s0, s0, j)
    {
      assert s0.instrs[j] == s0.instrs[j].(src1 := s0.instrs[j].src1, src2 := s0.instrs[j].src2);
    }
  }

  /** The fixture block with f = c + d propagated into f = 5 + d. */
  function SimplePropagated(): Store
  {
    Simple().(instrs := Simple().instrs[5 := InstrNode(Add, NameAt(5), ConstAt(4), NameAt(3))])
  }

  /** The pass leaves alone an instruction none of whose sources can be replaced. */
  lemma StepKeepsAll(s: Store, k: nat)
    requires WellFormed(s) && k < |s.instrs| && Sound(s, s.instrs[k])
    requires s.instrs[k].src1 != Null ==> !CanReplace(s, s.instrs[k].src1)
    requires s.instrs[k].src2 != Null ==> !CanReplace(s, s.instrs[k].src2)
    ensures Step(s, k) == s
  {
  }

  /** In the fixture block, c is declared by the Assignment c = 5, so it can be replaced by 5. */
  lemma SimpleAssigned()
    ensures WellFormed(Simple())
    ensures CanReplace(Simple(), NameAt(2)) && Replacement(Simple(), NameAt(2)) == ConstAt(4)
  {
    SimpleWellFormed();
  }

  /**
   * In the fixture block, no other name can be replaced: an Add declares a, b and e, and d is
   * assigned the name a.
   */
  lemma SimpleNotAssigned()
    ensures WellFormed(Simple())
    ensures !CanReplace(Simple(), NameAt(0)) && !CanReplace(Simple(), NameAt(1))
    ensures !CanReplace(Simple(), NameAt(3)) && !CanReplace(Simple(), NameAt(4))
  {
    SimpleWellFormed();
  }

  /** In the fixture block, a constant source is never replaced: it is not a name. */
  lemma SimpleConstants(j: nat)
    requires j < 7
    ensures WellFormed(Simple()) && !CanReplace(Simple(), ConstAt(j))
  {
    SimpleWellFormed();
    assert Deref(Simple(), ConstAt(j)).opndType == Constant;
  }

  /** On the fixture block, the first five instructions read no name an Assignment of a constant declares. */
  lemma SimpleKept(k: nat)
    requires k < 5
    ensures WellFormed(Simple()) && Step(Simple(), k) == Simple()
  {
    SimpleNotAssigned();
    SimpleConstants(0);
    SimpleConstants(1);
    SimpleConstants(2);
    SimpleConstants(4);
    StepKeepsAll(Simple(), k);
  }

  /** On the fixture block, f = c + d becomes f = 5 + d. */
  lemma SimpleReplaced()
    ensures WellFormed(Simple()) && Step(Simple(), 5) == SimplePropagated()
  {
    SimpleAssigned();
    SimpleNotAssigned();
  }

  /** In the propagated fixture block, return e is left alone: an Add declares e. */
  lemma SimpleReturn()
    ensures WellFormed(SimplePropagated()) && Step(SimplePropagated(), 6) == SimplePropagated()
  {
    SimpleWellFormed();
    WithInstr(Simple(), 5, InstrNode(Add, NameAt(5), ConstAt(4), NameAt(3)));
  }

  /**
   * constant_prop_main: in the fixture block only f = c + d changes; c is assigned the constant 5,
   * so it becomes f = 5 + d, and the pass counts one replacement. The names a and d are not
   * replaced, since an Add, not an Assignment, declares a, and d is assigned the name a.
   */
  lemma SimpleProp()
    ensures WellFormed(Simple())
    ensures PropUpTo(Simple(), 7) == SimplePropagated()
    ensures SrcChanges(Simple().instrs, PropUpTo(Simple(), 7).instrs) == 1
  {
    var s0 := Simple();
    SimpleKept(0);
    SimpleKept(1);
    SimpleKept(2);
    SimpleKept(3);
    SimpleKept(4);
    SimpleReplaced();
    SimpleReturn();
    assert PropUpTo(s0, 1) == s0;
    assert PropUpTo(s0, 2) == s0;
    assert PropUpTo(s0, 3) == s0;
    assert PropUpTo(s0, 4) == s0;
    assert PropUpTo(s0, 5) == s0;
    assert PropUpTo(s0, 6) == SimplePropagated();
    SrcOne(s0.instrs, 5, InstrNode(Add, NameAt(5), ConstAt(4), NameAt(3)));
  }

  /** Rewriting one instruction changes as many sources as it rewrites. */
  lemma {:induction false} SrcOne(a: seq<Node>, k: nat, n: Node)
    requires k < |a|
    ensures SrcChanges(a, a[k := n]) == (if a[k].src1 != n.src1 then 1 else 0) + (if a[k].src2 != n.src2 then 1 else 0)
  {
    var b := a[k := n];
    if k == |a| - 1 {
      assert b[..|b| - 1] == a[..|a| - 1];
      SrcSame(a[..|a| - 1]);
    } else {
      assert b[..|b| - 1] == a[..|a| - 1][k := n];
      SrcOne(a[..|a| - 1], k, n);
    }
  }

  /** Equal instruction lists differ in no source. */
  lemma {:induction false} SrcSame(a: seq<Node>)
    ensures SrcChanges(a, a) == 0
  {
    if a != [] {
      SrcSame(a[..|a| - 1]);
    }
  }
}
