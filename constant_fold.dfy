/**
 * Constant folding over one basic block (src/constant_fold.cc): every Add of two constant
 * operands becomes an Assignment of a new constant, their uint32 sum, which is appended to the
 * block's constants. The pass returns the number of instructions it folded.
 */
module ConstantFold {
  import opened Ir

  /** An Instruction entry that adds two Constant operands: the pass folds it. */
  predicate Foldable(s: Store, n: Node)
    requires Sound(s, n)
  {
    n.opndType == Instruction && n.instrType == Add
    && Deref(s, n.src1).opndType == Constant && Deref(s, n.src2).opndType == Constant
  }

  /** The value of the constant that replaces the Add n: the uint32 sum of its two operands. */
  function Sum(s: Store, n: Node): u32
    requires Sound(s, n) && n.opndType == Instruction && n.instrType == Add
  {
    AddU32(Deref(s, n.src1).constantValue, Deref(s, n.src2).constantValue)
  }

  /** The number of foldable instructions among the first k of the block. */
  function FoldCount(s: Store, k: nat): (r: nat)
    requires WellFormed(s) && k <= |s.instrs|
    ensures r <= k
  {
    if k == 0 then 0
    else FoldCount(s, k - 1) + if Foldable(s, s.instrs[k - 1]) then 1 else 0
  }

  /** The instruction n once folded: an Assignment of the constant at position c to the same dest. */
  function Folded(n: Node, c: nat): Node
  {
    n.(instrType := Assignment, src1 := ConstAt(c), src2 := Null)
  }

  /**
   * Instruction k of s0 as the pass leaves it in s: a foldable Add is folded into an Assignment of
   * the constant appended for it, which is the sum of its operands, and it is the constant appended
   * after those of the foldable instructions before it; any other entry is unchanged.
   */
  ghost predicate FoldedAt(s0: Store, s: Store, k: nat)
    requires WellFormed(s0) && k < |s0.instrs| && k < |s.instrs|
  {
    var c := |s0.consts| + FoldCount(s0, k);
    if Foldable(s0, s0.instrs[k]) then
      c < |s.consts| && s.instrs[k] == Folded(s0.instrs[k], c) && s.consts[c] == ConstNode(Sum(s0, s0.instrs[k]))
    else s.instrs[k] == s0.instrs[k]
  }

  /**
   * The block s after the pass has gone through the first i instructions of s0: the names are
   * unchanged, one constant was appended per fold after the old ones, those instructions are
   * folded as FoldedAt says and the rest are untouched.
   */
  ghost predicate FoldedUpTo(s0: Store, s: Store, i: nat, count: nat)
  {
    WellFormed(s0) && i <= |s0.instrs| && s.names == s0.names && |s.instrs| == |s0.instrs|
    && count == FoldCount(s0, i)
    && |s.consts| == |s0.consts| + count && s.consts[..|s0.consts|] == s0.consts
    && (forall c :: |s0.consts| <= c < |s.consts| ==> s.consts[c] == ConstNode(s.consts[c].constantValue))
    && (forall k :: 0 <= k < i ==> FoldedAt(s0, s, k))
    && (forall k :: i <= k < |s0.instrs| ==> s.instrs[k] == s0.instrs[k])
  }

  /**
   * FoldConstants: folds every Add of two constants, in block order, and returns how many it
   * folded.
   */
  method FoldConstants(bb: BasicBlock) returns (count: nat)
    requires WellFormed(bb.Contents())
    modifies bb
    ensures FoldedUpTo(old(bb.Contents()), bb.Contents(), |old(bb.instrs)|, count)
  {
    ghost var s0 := bb.Contents();
    count := 0;
    for i := 0 to |bb.instrs|
      invariant FoldedUpTo(s0, bb.Contents(), i, count)
    {
      var instr := bb.instrs[i];
      ghost var s := bb.Contents();
      if instr.opndType == Instruction && instr.instrType == Add {
        KeepsOperand(s0, s, i, count, instr.src1);
        KeepsOperand(s0, s, i, count, instr.src2);
        var a := Deref(bb.Contents(), instr.src1);
        var b := Deref(bb.Contents(), instr.src2);
        if a.opndType == Constant && b.opndType == Constant {
          var v := AddU32(a.constantValue, b.constantValue);
          FoldOne(s0, s, i, count, v);
          bb.consts, bb.instrs := bb.consts + [ConstNode(v)], bb.instrs[i := Folded(instr, |bb.consts|)];
          count := count + 1;
        } else {
          FoldSkip(s0, s, i, count);
        }
      } else {
        FoldSkip(s0, s, i, count);
      }
    }
  }

  /**
   * While the pass runs, an operand of the original block still has its kind and its value: names
   * are untouched, constants are only appended, and a fold changes neither of an instruction.
   */
  lemma KeepsOperand(s0: Store, s: Store, i: nat, count: nat, r: Ref)
    requires FoldedUpTo(s0, s, i, count) && Points(s0, r) && r != Null
    ensures Points(s, r)
    ensures Deref(s, r).opndType == Deref(s0, r).opndType
    ensures Deref(s, r).constantValue == Deref(s0, r).constantValue
  {
    if r.ConstAt? {
      assert s.consts[r.i] == s.consts[..|s0.consts|][r.i];
    } else if r.InstrAt? && r.i < i {
      assert FoldedAt(s0, s, r.i);
    }
  }

  /** The pass folds instruction i, a foldable Add. */
  lemma FoldOne(s0: Store, s: Store, i: nat, count: nat, v: u32)
    requires FoldedUpTo(s0, s, i, count) && i < |s0.instrs| && Foldable(s0, s0.instrs[i])
    requires v == Sum(s0, s0.instrs[i])
    ensures FoldedUpTo(s0, Store(s.names, s.consts + [ConstNode(v)], s.instrs[i := Folded(s.instrs[i], |s.consts|)]),
                       i + 1, count + 1)
  {
    var s' := Store(s.names, s.consts + [ConstNode(v)], s.instrs[i := Folded(s.instrs[i], |s.consts|)]);
    assert s'.consts[..|s0.consts|] == s.consts[..|s0.consts|];
    forall k | 0 <= k < i + 1
      ensures FoldedAt(s0, s', k)
    {
      if k < i {
        assert FoldedAt(s0, s, k);
      }
    }
  }

  /** The pass leaves instruction i, which is not a foldable Add, as it is. */
  lemma FoldSkip(s0: Store, s: Store, i: nat, count: nat)
    requires FoldedUpTo(s0, s, i, count) && i < |s0.instrs| && !Foldable(s0, s0.instrs[i])
    ensures FoldedUpTo(s0, s, i + 1, count)
  {
    assert FoldedAt(s0, s, i);
  }

  /** After the pass, the block is still well formed: every fold points at a constant that exists. */
  lemma FoldWellFormed(s0: Store, s: Store, count: nat)
    requires FoldedUpTo(s0, s, |s0.instrs|, count)
    ensures WellFormed(s)
  {
    forall k | 0 <= k < |s.names|
      ensures Sound(s, s.names[k])
    {
      assert Sound(s0, s0.names[k]);
    }
    forall k | 0 <= k < |s.consts|
      ensures Sound(s, s.consts[k])
    {
      if k < |s0.consts| {
        assert s.consts[k] == s.consts[..|s0.consts|][k];
        assert Sound(s0, s0.consts[k]);
      }
    }
    forall k | 0 <= k < |s.instrs|
      ensures Sound(s, s.instrs[k])
    {
      assert FoldedAt(s0, s, k);
      assert Sound(s0, s0.instrs[k]);
    }
  }

  /** The count the pass returns is the number of instructions it changed. */
  lemma FoldChanges(s0: Store, s: Store, count: nat)
    requires FoldedUpTo(s0, s, |s0.instrs|, count)
    ensures count == Changed(s0.instrs, s.instrs)
  {
    FoldCountChanged(s0, s, count, |s0.instrs|);
    assert s0.instrs[..|s0.instrs|] == s0.instrs;
    assert s.instrs[..|s.instrs|] == s.instrs;
  }

  /** Among the first k instructions, the folded ones are exactly those the pass changed. */
  lemma {:induction false} FoldCountChanged(s0: Store, s: Store, count: nat, k: nat)
    requires FoldedUpTo(s0, s, |s0.instrs|, count) && k <= |s0.instrs|
    ensures FoldCount(s0, k) == Changed(s0.instrs[..k], s.instrs[..k])
  {
    if k > 0 {
      FoldCountChanged(s0, s, count, k - 1);
      assert s0.instrs[..k][..k - 1] == s0.instrs[..k - 1];
      assert s.instrs[..k][..k - 1] == s.instrs[..k - 1];
      assert FoldedAt(s0, s, k - 1);
    }
  }

  /** In the fixture block, a = 1 + 2 is the one foldable instruction, and it folds to 3. */
  lemma SimpleFoldable()
    ensures WellFormed(Simple())
    ensures Foldable(Simple(), Simple().instrs[0]) && Sum(Simple(), Simple().instrs[0]) == 3
    ensures !Foldable(Simple(), Simple().instrs[1]) && !Foldable(Simple(), Simple().instrs[2])
    ensures !Foldable(Simple(), Simple().instrs[3]) && !Foldable(Simple(), Simple().instrs[4])
    ensures !Foldable(Simple(), Simple().instrs[5]) && !Foldable(Simple(), Simple().instrs[6])
    ensures FoldCount(Simple(), 0) == 0 && FoldCount(Simple(), 7) == 1
  {
    SimpleWellFormed();
  }

  /**
   * constant_fold_main: on the fixture block only a = 1 + 2 folds; it becomes a = 3, with 3
   * appended as the eighth constant, and the other instructions stay as they are.
   */
  lemma SimpleFold(s: Store, count: nat)
    requires FoldedUpTo(Simple(), s, 7, count)
    ensures count == 1 && |s.consts| == 8 && s.consts[7] == ConstNode(3)
    ensures s.instrs[0] == InstrNode(Assignment, NameAt(0), ConstAt(7), Null)
    ensures s.instrs[1..] == Simple().instrs[1..]
  {
    var s0 := Simple();
    SimpleFoldable();
    forall k | 1 <= k < 7
      ensures s.instrs[k] == s0.instrs[k]
    {
      assert FoldedAt(s0, s, k);
    }
    assert FoldedAt(s0, s, 0);
  }
}
