/**
 * The intermediate representation the three toy optimizer passes work on (src/compiler_structs.h).
 * Every operand and every instruction is one struct, Instruction, which extends Opnd; a basic
 * block owns three vectors of them: the names, the constants and the instructions. The C++ links
 * them with raw pointers into those vectors; here a pointer is an index into one of the three
 * arenas, or null.
 */
module Ir {
  datatype OpndType = Constant | Name | Temp | Instruction

  datatype InstructionType = Invalid | Add | Assignment | Return

  /** A pointer to an operand: null, or the position of the operand in one of the three arenas. */
  datatype Ref = Null | NameAt(i: nat) | ConstAt(i: nat) | InstrAt(i: nat)

  /** uint32_t. */
  newtype u32 = x: int | 0 <= x < 0x1_0000_0000

  /** Addition of two uint32_t values, which wraps around modulo 2^32. */
  function AddU32(a: u32, b: u32): (r: u32)
    ensures r as int == if a as int + b as int < 0x1_0000_0000 then a as int + b as int
                        else a as int + b as int - 0x1_0000_0000
  {
    ((a as int + b as int) % 0x1_0000_0000) as u32
  }

  /** struct Instruction: the Opnd fields, then the instruction fields. */
  datatype Node = Node(opndType: OpndType, name: string, constantValue: u32, tempNumber: u32, decl: Ref,
                       instrType: InstructionType, dest: Ref, src1: Ref, src2: Ref)

  /** A name operand declared by the instruction decl. */
  function NameNode(name: string, decl: Ref): Node
  {
    Node(Name, name, 0, 0, decl, Invalid, Null, Null, Null)
  }

  /** A constant operand, as the passes and the fixture create them: {OpndType::Constant, "", value}. */
  function ConstNode(value: u32): Node
  {
    Node(Constant, "", value, 0, Null, Invalid, Null, Null, Null)
  }

  /** An instruction dest = src1 (+ src2). */
  function InstrNode(t: InstructionType, dest: Ref, src1: Ref, src2: Ref): Node
  {
    Node(Instruction, "", 0, 0, Null, t, dest, src1, src2)
  }

  /** struct BasicBlock, as a value: the three arenas. */
  datatype Store = Store(names: seq<Node>, consts: seq<Node>, instrs: seq<Node>)

  /** r is null or points into its arena. */
  predicate Points(s: Store, r: Ref)
  {
    match r
    case Null => true
    case NameAt(i) => i < |s.names|
    case ConstAt(i) => i < |s.consts|
    case InstrAt(i) => i < |s.instrs|
  }

  /** The operand r points to. */
  function Deref(s: Store, r: Ref): (n: Node)
    requires r != Null && Points(s, r)
    ensures r.NameAt? ==> n == s.names[r.i]
    ensures r.ConstAt? ==> n == s.consts[r.i]
    ensures r.InstrAt? ==> n == s.instrs[r.i]
  {
    match r
    case NameAt(i) => s.names[i]
    case ConstAt(i) => s.consts[i]
    case InstrAt(i) => s.instrs[i]
  }

  /**
   * Every pointer of n is null or points into the block, and an instruction has the sources its
   * kind reads: two for an Add, src1 for an Assignment or a Return.
   */
  predicate Sound(s: Store, n: Node)
  {
    Points(s, n.decl) && Points(s, n.dest) && Points(s, n.src1) && Points(s, n.src2)
    && (n.opndType == Instruction && n.instrType == Add ==> n.src1 != Null && n.src2 != Null)
    && (n.opndType == Instruction && (n.instrType == Assignment || n.instrType == Return) ==> n.src1 != Null)
  }

  /** Every operand of every arena is sound: the pointers the passes follow are never dangling. */
  predicate WellFormed(s: Store)
  {
    (forall i :: 0 <= i < |s.names| ==> Sound(s, s.names[i]))
    && (forall i :: 0 <= i < |s.consts| ==> Sound(s, s.consts[i]))
    && (forall i :: 0 <= i < |s.instrs| ==> Sound(s, s.instrs[i]))
  }

  /** The operand a well-formed block's pointer leads to is itself sound. */
  lemma DerefSound(s: Store, r: Ref)
    requires WellFormed(s) && r != Null && Points(s, r)
    ensures Sound(s, Deref(s, r))
  {
  }

  /** Replacing an instruction by a sound one keeps a block well formed. */
  lemma WithInstr(s: Store, k: nat, n: Node)
    requires WellFormed(s) && k < |s.instrs| && Sound(s, n)
    ensures WellFormed(s.(instrs := s.instrs[k := n]))
  {
    var s' := s.(instrs := s.instrs[k := n]);
    assert forall r :: Points(s', r) == Points(s, r);
  }

  /** The number of positions at which the instruction lists a and b differ. */
  function Changed(a: seq<Node>, b: seq<Node>): (r: nat)
    requires |a| == |b|
    ensures r <= |a|
  {
    if a == [] then 0
    else Changed(a[..|a| - 1], b[..|b| - 1]) + if a[|a| - 1] != b[|b| - 1] then 1 else 0
  }

  /** The positions below n at which a and b differ. */
  ghost function Diffs(a: seq<Node>, b: seq<Node>, n: nat): set<nat>
    requires n <= |a| == |b|
  {
    set k: nat | k < n && a[k] != b[k]
  }

  /** Changed counts the positions at which the two lists differ. */
  lemma {:induction false} ChangedDiffs(a: seq<Node>, b: seq<Node>, n: nat)
    requires n <= |a| == |b|
    ensures Changed(a[..n], b[..n]) == |Diffs(a, b, n)|
  {
    if n > 0 {
      ChangedDiffs(a, b, n - 1);
      assert a[..n][..n - 1] == a[..n - 1] && b[..n][..n - 1] == b[..n - 1];
      if a[n - 1] != b[n - 1] {
        assert Diffs(a, b, n) == Diffs(a, b, n - 1) + {n - 1};
      } else {
        assert Diffs(a, b, n) == Diffs(a, b, n - 1);
      }
    }
  }

  /** struct BasicBlock, whose vectors the passes update in place. */
  class BasicBlock {
    var names: seq<Node>
    var consts: seq<Node>
    var instrs: seq<Node>

    /** The block's three arenas as a value. */
    function Contents(): Store
      reads this
    {
      Store(names, consts, instrs)
    }

    constructor (s: Store)
      ensures Contents() == s
    {
      names, consts, instrs := s.names, s.consts, s.instrs;
    }
  }

  /**
   * BuildSimpleBasicBlock: the names a..f, the constants 1..7 and the block
   *   a = 1 + 2; b = a + 3; c = 5; d = a; e = d + b; f = c + d; return e
   * where each name is declared by the instruction that assigns it.
   */
  function Simple(): Store
  {
    Store(
      [NameNode("a", InstrAt(0)), NameNode("b", InstrAt(1)), NameNode("c", InstrAt(2)),
       NameNode("d", InstrAt(3)), NameNode("e", InstrAt(4)), NameNode("f", InstrAt(5))],
      [ConstNode(1), ConstNode(2), ConstNode(3), ConstNode(4), ConstNode(5), ConstNode(6), ConstNode(7)],
      [InstrNode(Add, NameAt(0), ConstAt(0), ConstAt(1)),
       InstrNode(Add, NameAt(1), NameAt(0), ConstAt(2)),
       InstrNode(Assignment, NameAt(2), ConstAt(4), Null),
       InstrNode(Assignment, NameAt(3), NameAt(0), Null),
       InstrNode(Add, NameAt(4), NameAt(3), NameAt(1)),
       InstrNode(Add, NameAt(5), NameAt(2), NameAt(3)),
       InstrNode(Return, Null, NameAt(4), Null)])
  }

  /** The fixture is well formed: the passes can run on it. */
  lemma SimpleWellFormed()
    ensures WellFormed(Simple())
  {
    var s := Simple();
    forall i | 0 <= i < |s.instrs|
      ensures Sound(s, s.instrs[i])
    {
    }
  }
}
