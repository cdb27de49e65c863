/** What the structured-language compiler's output means. Generated labels
    never clash; on the emulated CPU the XOR/OR pair written for `Rd = Rs`
    copies one register into another (and clears it when the two are the
    same), while the CMP and conditional jump written for an IF enter
    the block exactly when the condition holds. */
module LangSemantics {
  import opened Wrappers
  import opened Text
  import opened MachCode
  import opened LangLexer
  import opened Lang
  import Assembler
  import Cpu

  // ---------------------------------------------------------------- labels

  /** Generated labels are equal exactly when they were made from the same
      counter value, so a compilation never writes one label twice. */
  lemma MakeLabelInjective(m: nat, n: nat)
    ensures MakeLabel(m) == MakeLabel(n) <==> m == n
  {
    if m != n {
      NatToDecimalInjective(m, n);
      assert MakeLabel(m)[2..] != MakeLabel(n)[2..];
    }
  }

  // ---------------------------------------------------------------- on the CPU

  /** Two cycles of the emulator. */
  lemma RunTwo(s: Cpu.State)
    ensures Cpu.Run(s, 2) == Cpu.Step(Cpu.Step(s))
  {
  }

  /** The emulator's decoder reads the opcode the assembler encoded. */
  lemma CpuDecodesEncoded(i: Instruction)
    requires WellFormed(i)
    ensures Cpu.Decode(Assembler.Encode(i)[0]) == OpOf(i)
  {
    Assembler.EncodeFields(i);
    OpcodeOfCode(Cpu.Decode(Assembler.Encode(i)[0]));
    OpcodeOfCode(OpOf(i));
  }

  /** The emulator reads RA and RB of an encoded two-register instruction from
      the general registers the instruction names. */
  lemma RegPairSlots(op: Opcode, a: Reg, b: Reg)
    requires IsRegPairOp(op)
    ensures var ir := Assembler.Encode(RegPair(op, a, b))[0];
      Cpu.RaSlot(ir) == Cpu.GReg(a) && Cpu.RbSlot(ir) == Cpu.GReg(b)
  {
    Assembler.EncodeFields(RegPair(op, a, b));
    RegFieldOfBits(a);
    RegFieldOfBits(b);
  }

  /** A byte is determined by its eight bits. */
  lemma BitsDetermine(x: byte, y: byte)
    requires forall k: nat | k < 8 :: Cpu.BitAt(x, k) == Cpu.BitAt(y, k)
    ensures x == y
  {
    assert Cpu.BitAt(x, 0) == Cpu.BitAt(y, 0) && Cpu.BitAt(x, 1) == Cpu.BitAt(y, 1);
    assert Cpu.BitAt(x, 2) == Cpu.BitAt(y, 2) && Cpu.BitAt(x, 3) == Cpu.BitAt(y, 3);
    assert Cpu.BitAt(x, 4) == Cpu.BitAt(y, 4) && Cpu.BitAt(x, 5) == Cpu.BitAt(y, 5);
    assert Cpu.BitAt(x, 6) == Cpu.BitAt(y, 6) && Cpu.BitAt(x, 7) == Cpu.BitAt(y, 7);
  }

  /** The fetch of an encoded two-register instruction `op RA, RB` at IAR: the
      decoder sees `op` and the operand slots are the named registers. */
  lemma FetchRegPair(s: Cpu.State, op: Opcode, a: Reg, b: Reg)
    requires op == XOR || op == OR || op == CMP
    requires s.ram[s.regs[Cpu.IAR] as int] == Assembler.Encode(RegPair(op, a, b))[0]
    ensures var f := Cpu.Fetch(s);
      && Cpu.RaSlot(f.regs[Cpu.IR]) == Cpu.GReg(a) && Cpu.RbSlot(f.regs[Cpu.IR]) == Cpu.GReg(b)
      && Cpu.Decode(f.regs[Cpu.IR]) == op
      && f.ram == s.ram && f.regs[Cpu.IAR] == s.regs[Cpu.IAR] + 1
      && (forall g: Reg :: f.regs[Cpu.GReg(g)] == s.regs[Cpu.GReg(g)])
  {
    CpuDecodesEncoded(RegPair(op, a, b));
    RegPairSlots(op, a, b);
    var f := Cpu.Fetch(s);
    forall g: Reg ensures f.regs[Cpu.GReg(g)] == s.regs[Cpu.GReg(g)] {
      assert Cpu.GReg(g) !in {Cpu.MAR, Cpu.IR, Cpu.IAR};
    }
  }

  /** A cycle on XOR RA, RB is the XOR handler on the fetched state. */
  lemma StepIsXor(s: Cpu.State, a: Reg, b: Reg)
    requires s.ram[s.regs[Cpu.IAR] as int] == Assembler.Encode(RegPair(XOR, a, b))[0]
    ensures Cpu.Step(s) == Cpu.Xor(Cpu.Fetch(s))
  {
    CpuDecodesEncoded(RegPair(XOR, a, b));
  }

  /** A cycle on OR RA, RB is the OR handler on the fetched state. */
  lemma StepIsOr(s: Cpu.State, a: Reg, b: Reg)
    requires s.ram[s.regs[Cpu.IAR] as int] == Assembler.Encode(RegPair(OR, a, b))[0]
    ensures Cpu.Step(s) == Cpu.Or(Cpu.Fetch(s))
  {
    CpuDecodesEncoded(RegPair(OR, a, b));
  }

  /** A cycle on CMP RA, RB is the CMP handler on the fetched state. */
  lemma StepIsCmp(s: Cpu.State, a: Reg, b: Reg)
    requires s.ram[s.regs[Cpu.IAR] as int] == Assembler.Encode(RegPair(CMP, a, b))[0]
    ensures Cpu.Step(s) == Cpu.Cmp(Cpu.Fetch(s))
  {
    CpuDecodesEncoded(RegPair(CMP, a, b));
  }

  /** XOR of a register with itself leaves zero in it. */
  lemma XorSelfClears(f: Cpu.State, d: Reg)
    requires Cpu.RaSlot(f.regs[Cpu.IR]) == Cpu.GReg(d) && Cpu.RbSlot(f.regs[Cpu.IR]) == Cpu.GReg(d)
    ensures Cpu.Xor(f).regs[Cpu.GReg(d)] == 0
  {
    var t := Cpu.Xor(f);
    forall k: nat | k < 8 ensures Cpu.BitAt(t.regs[Cpu.GReg(d)], k) == Cpu.BitAt(0, k) {
    }
    BitsDetermine(t.regs[Cpu.GReg(d)], 0);
  }

  /** OR into a register holding zero copies RA into it. */
  lemma OrIntoZeroCopies(f: Cpu.State, r: Reg, d: Reg)
    requires Cpu.RaSlot(f.regs[Cpu.IR]) == Cpu.GReg(r) && Cpu.RbSlot(f.regs[Cpu.IR]) == Cpu.GReg(d)
    requires f.regs[Cpu.GReg(d)] == 0
    ensures Cpu.Or(f).regs[Cpu.GReg(d)] == f.regs[Cpu.GReg(r)]
  {
    var t := Cpu.Or(f);
    forall k: nat | k < 8 ensures Cpu.BitAt(t.regs[Cpu.GReg(d)], k) == Cpu.BitAt(f.regs[Cpu.GReg(r)], k) {
      assert !Cpu.BitAt(f.regs[Cpu.GReg(d)], k);
    }
    BitsDetermine(t.regs[Cpu.GReg(d)], f.regs[Cpu.GReg(r)]);
  }

  /** XOR Rd, Rd executed at IAR: Rd becomes zero, the other general registers
      and memory are kept, and IAR moves on by one. */
  lemma XorSelfFetched(s: Cpu.State, d: Reg)
    requires s.ram[s.regs[Cpu.IAR] as int] == Assembler.Encode(RegPair(XOR, d, d))[0]
    ensures var t := Cpu.Xor(Cpu.Fetch(s));
      && t.regs[Cpu.GReg(d)] == 0
      && (forall g: Reg :: g != d ==> t.regs[Cpu.GReg(g)] == s.regs[Cpu.GReg(g)])
      && t.ram == s.ram && t.regs[Cpu.IAR] == s.regs[Cpu.IAR] + 1
  {
    FetchRegPair(s, XOR, d, d);
    XorSelfClears(Cpu.Fetch(s), d);
  }

  /** OR Rs, Rd executed at IAR with zero in Rd: Rd receives Rs, the other
      general registers and memory are kept, and IAR moves on by one. */
  lemma OrIntoZeroFetched(s: Cpu.State, r: Reg, d: Reg)
    requires s.ram[s.regs[Cpu.IAR] as int] == Assembler.Encode(RegPair(OR, r, d))[0]
    requires s.regs[Cpu.GReg(d)] == 0
    ensures var t := Cpu.Or(Cpu.Fetch(s));
      && t.regs[Cpu.GReg(d)] == s.regs[Cpu.GReg(r)]
      && (forall g: Reg :: g != d ==> t.regs[Cpu.GReg(g)] == s.regs[Cpu.GReg(g)])
      && t.ram == s.ram && t.regs[Cpu.IAR] == s.regs[Cpu.IAR] + 1
  {
    FetchRegPair(s, OR, r, d);
    OrIntoZeroCopies(Cpu.Fetch(s), r, d);
  }

  /** The first of the two lines: the destination becomes zero, nothing else a
      program can observe changes but the zero flag, and IAR moves on by one. */
  lemma StepXorSelf(s: Cpu.State, d: Reg)
    requires s.ram[s.regs[Cpu.IAR] as int] == Assembler.Encode(RegPair(XOR, d, d))[0]
    ensures var t := Cpu.Step(s);
      && t.regs[Cpu.GReg(d)] == 0
      && (forall g: Reg :: g != d ==> t.regs[Cpu.GReg(g)] == s.regs[Cpu.GReg(g)])
      && t.ram == s.ram && t.regs[Cpu.IAR] == s.regs[Cpu.IAR] + 1
  {
    StepIsXor(s, d, d);
    XorSelfFetched(s, d);
  }

  /** `Rd = Rs` for two different registers: after XOR Rd, Rd and OR Rs, Rd the
      destination holds the source's old value, the other general registers and
      memory are unchanged, and execution continues after the two bytes. */
  lemma MoveOnCpu(s: Cpu.State, d: Reg, r: Reg)
    requires d != r
    requires var p := s.regs[Cpu.IAR];
      s.ram[p as int] == Assembler.Encode(RegPair(XOR, d, d))[0]
      && s.ram[(p + 1) as int] == Assembler.Encode(RegPair(OR, r, d))[0]
    ensures var t := Cpu.Run(s, 2);
      && t.regs[Cpu.GReg(d)] == s.regs[Cpu.GReg(r)]
      && (forall g: Reg :: g != d ==> t.regs[Cpu.GReg(g)] == s.regs[Cpu.GReg(g)])
      && t.ram == s.ram && t.regs[Cpu.IAR] == s.regs[Cpu.IAR] + 2
  {
    RunTwo(s);
    StepXorSelf(s, d);
    var s1 := Cpu.Step(s);
    StepIsOr(s1, r, d);
    OrIntoZeroFetched(s1, r, d);
  }

  /** `Rd = Rd` as compiled: XOR Rd, Rd then OR Rd, Rd leaves zero in Rd, so a
      self-assignment clears the register instead of keeping it. */
  lemma SelfMoveClears(s: Cpu.State, d: Reg)
    requires var p := s.regs[Cpu.IAR];
      s.ram[p as int] == Assembler.Encode(RegPair(XOR, d, d))[0]
      && s.ram[(p + 1) as int] == Assembler.Encode(RegPair(OR, d, d))[0]
    ensures var t := Cpu.Run(s, 2);
      && t.regs[Cpu.GReg(d)] == 0
      && (forall g: Reg :: g != d ==> t.regs[Cpu.GReg(g)] == s.regs[Cpu.GReg(g)])
  {
    RunTwo(s);
    StepXorSelf(s, d);
    var s1 := Cpu.Step(s);
    StepIsOr(s1, d, d);
    OrIntoZeroFetched(s1, d, d);
  }

  // ---------------------------------------------------------------- conditions

  /** What an IF condition `a k b` means: the usual comparison of unsigned bytes. */
  predicate Holds(k: Kind, a: byte, b: byte)
    requires IsComparison(k)
  {
    match k
    case LESS => a < b
    case EQLESS => a <= b
    case DIFF => a != b
    case EQ => a == b
    case GREAT => a > b
    case _ => a >= b
  }

  /** The condition mask of the jump an IF with comparison `k` writes: it tests
      A for the comparisons involving an order and E for those including
      equality, never C or Z. */
  function IfMask(k: Kind): (m: Mask)
    requires IsComparison(k)
    ensures !MaskBits(m).0 && !MaskBits(m).3
    ensures MaskBits(m).1 <==> k in {LESS, EQLESS, GREAT, EQGREAT}
    ensures MaskBits(m).2 <==> k in {LESS, DIFF, EQ, EQGREAT}
  {
    if k == LESS || k == EQGREAT then 6
    else if k == EQLESS || k == GREAT then 4
    else 2
  }

  /** The assembler reads the jump mnemonic an IF writes ("JEA", "JA", "JE",
      "JAE") as that IF's mask. */
  lemma IfMaskAssembles(k: Kind)
    requires IsComparison(k)
    ensures Assembler.ParseMask(IfJump(k).value.mnemonic[1..]) == Some(IfMask(k))
  {
    var letters := IfJump(k).value.mnemonic[1..];
    if k == LESS || k == EQGREAT {
      assert letters == "EA" || letters == "AE";
    } else if k == EQLESS || k == GREAT {
      assert letters == "A";
    } else {
      assert letters == "E";
    }
    assert forall i :: 0 <= i < |letters| ==> letters[i] in "CAEZ";
    var r := Assembler.ParseMask(letters);
    assert 'C' !in letters && 'Z' !in letters;
    MaskOfBits(r.value);
    MaskOfBits(IfMask(k));
  }

  /** The conditional jump's packed flag test, with an IF's mask in the low
      nibble and truth-valued flags: the jump is taken exactly when a flag the
      mask tests is set. */
  lemma IfJumpTest(k: Kind, ir: byte, c: byte, a: byte, e: byte, z: byte)
    requires IsComparison(k)
    requires ir & 0x0F == MaskByte(IfMask(k))
    requires c <= 1 && a <= 1 && e <= 1 && z <= 1
    ensures (ir & ((c << 3) | (a << 2) | (e << 1) | z) != 0) == Taken(k, a == 1, e == 1)
  {
    var flags := (c << 3) | (a << 2) | (e << 1) | z;
    assert ir & flags == (ir & 0x0F) & flags;
    if k == LESS || k == EQGREAT {
      assert MaskByte(IfMask(k)) == 6;
    } else if k == EQLESS || k == GREAT {
      assert MaskByte(IfMask(k)) == 4;
    } else {
      assert MaskByte(IfMask(k)) == 2;
    }
  }

  /** CMP RA, RB executed at IAR: A and E record the unsigned comparison of the
      two registers, the flags stay truth values, and IAR moves on by one;
      memory and the general registers are left alone. */
  lemma CmpFetched(s: Cpu.State, ra: Reg, rb: Reg)
    requires Cpu.FlagsWellFormed(s)
    requires s.ram[s.regs[Cpu.IAR] as int] == Assembler.Encode(RegPair(CMP, ra, rb))[0]
    ensures var t := Cpu.Cmp(Cpu.Fetch(s));
      && t.regs[Cpu.AF] == Cpu.Bit(s.regs[Cpu.GReg(ra)] > s.regs[Cpu.GReg(rb)])
      && t.regs[Cpu.EF] == Cpu.Bit(s.regs[Cpu.GReg(ra)] == s.regs[Cpu.GReg(rb)])
      && Cpu.FlagsWellFormed(t)
      && t.regs[Cpu.IAR] == s.regs[Cpu.IAR] + 1
      && t.ram == s.ram
      && (forall g: Reg :: t.regs[Cpu.GReg(g)] == s.regs[Cpu.GReg(g)])
  {
    FetchRegPair(s, CMP, ra, rb);
    var f := Cpu.Fetch(s);
    assert Cpu.RegA(f) == s.regs[Cpu.GReg(ra)] && Cpu.RegB(f) == s.regs[Cpu.GReg(rb)];
    assert f.regs[Cpu.CF] == s.regs[Cpu.CF] && f.regs[Cpu.ZF] == s.regs[Cpu.ZF];
    CmpKeeps(f);
  }

  /** CMP writes only A and E: the other flags, IAR and the general registers
      keep their values. */
  lemma CmpKeeps(f: Cpu.State)
    ensures var t := Cpu.Cmp(f);
      && t.regs[Cpu.CF] == f.regs[Cpu.CF] && t.regs[Cpu.ZF] == f.regs[Cpu.ZF]
      && t.regs[Cpu.IAR] == f.regs[Cpu.IAR] && t.ram == f.ram
      && (forall g: Reg :: t.regs[Cpu.GReg(g)] == f.regs[Cpu.GReg(g)])
  {
    var t := Cpu.Cmp(f);
    forall g: Reg ensures t.regs[Cpu.GReg(g)] == f.regs[Cpu.GReg(g)] {
      assert Cpu.GReg(g) !in {Cpu.AF, Cpu.EF};
    }
  }

  /** The CMP of an IF condition, as a cycle of the emulator. */
  lemma StepCmp(s: Cpu.State, ra: Reg, rb: Reg)
    requires Cpu.FlagsWellFormed(s)
    requires s.ram[s.regs[Cpu.IAR] as int] == Assembler.Encode(RegPair(CMP, ra, rb))[0]
    ensures var t := Cpu.Step(s);
      && t.regs[Cpu.AF] == Cpu.Bit(s.regs[Cpu.GReg(ra)] > s.regs[Cpu.GReg(rb)])
      && t.regs[Cpu.EF] == Cpu.Bit(s.regs[Cpu.GReg(ra)] == s.regs[Cpu.GReg(rb)])
      && Cpu.FlagsWellFormed(t)
      && t.regs[Cpu.IAR] == s.regs[Cpu.IAR] + 1
      && t.ram == s.ram
      && (forall g: Reg :: t.regs[Cpu.GReg(g)] == s.regs[Cpu.GReg(g)])
  {
    StepIsCmp(s, ra, rb);
    CmpFetched(s, ra, rb);
  }

  /** The fetch of an IF's conditional jump leaves the IF's mask in the low
      nibble of IR. */
  lemma FetchIfJumpMask(s: Cpu.State, k: Kind, target: byte)
    requires IsComparison(k)
    requires s.ram[s.regs[Cpu.IAR] as int] == Assembler.Encode(Jcond(IfMask(k), target))[0]
    ensures Cpu.Fetch(s).regs[Cpu.IR] & 0x0F == MaskByte(IfMask(k))
  {
    Assembler.EncodeFields(Jcond(IfMask(k), target));
  }

  /** The decoder sees JCOND in an IF's conditional jump, so the cycle is the
      JCOND handler on the fetched state. */
  lemma FetchIfJump(s: Cpu.State, k: Kind, target: byte)
    requires IsComparison(k)
    requires s.ram[s.regs[Cpu.IAR] as int] == Assembler.Encode(Jcond(IfMask(k), target))[0]
    ensures Cpu.Step(s) == Cpu.JCond(Cpu.Fetch(s))
  {
    CpuDecodesEncoded(Jcond(IfMask(k), target));
  }

  /** The conditional jump changes neither memory nor a general register. */
  lemma IfJumpKeeps(s: Cpu.State, k: Kind, target: byte)
    requires IsComparison(k)
    requires s.ram[s.regs[Cpu.IAR] as int] == Assembler.Encode(Jcond(IfMask(k), target))[0]
    ensures Cpu.Step(s).ram == s.ram
    ensures forall g: Reg :: Cpu.Step(s).regs[Cpu.GReg(g)] == s.regs[Cpu.GReg(g)]
  {
    FetchIfJump(s, k, target);
    var f := Cpu.Fetch(s);
    forall g: Reg ensures Cpu.Step(s).regs[Cpu.GReg(g)] == s.regs[Cpu.GReg(g)] {
      assert f.regs[Cpu.GReg(g)] == s.regs[Cpu.GReg(g)];
    }
  }

  /** Whether an IF's conditional jump is taken when CMP has set A to `gt`
      and E to `eq`. */
  function Taken(k: Kind, gt: bool, eq: bool): bool
    requires IsComparison(k)
  {
    if k == LESS || k == EQGREAT then gt || eq
    else if k == EQLESS || k == GREAT then gt
    else eq
  }

  /** The jump pattern of each comparison decides correctly: with A and E as CMP
      leaves them, the IF's jump is taken exactly when the condition holds for
      a pattern that jumps into the block, and exactly when it fails for one
      that jumps past it. */
  lemma TakenDecides(k: Kind, a: byte, b: byte)
    requires IsComparison(k)
    ensures Taken(k, a > b, a == b) == (Holds(k, a, b) != IfJump(k).value.skip)
  {
  }

  /** A fetch moves IAR on by one and leaves memory and the flags alone. */
  lemma FetchKeepsFlags(s: Cpu.State)
    requires Cpu.FlagsWellFormed(s)
    ensures var f := Cpu.Fetch(s);
      && f.regs[Cpu.AF] == s.regs[Cpu.AF] && f.regs[Cpu.EF] == s.regs[Cpu.EF]
      && Cpu.FlagsWellFormed(f) && f.ram == s.ram && f.regs[Cpu.IAR] == s.regs[Cpu.IAR] + 1
  {
    var f := Cpu.Fetch(s);
    assert f.regs[Cpu.CF] == s.regs[Cpu.CF] && f.regs[Cpu.ZF] == s.regs[Cpu.ZF];
  }

  /** The JCOND handler on the fetched jump of an IF, with the flags as a CMP
      of `gt` and `eq` leaves them: it goes to the address byte `target` when
      the mask's flags are set and to `next`, past that byte, otherwise. */
  lemma JCondIfJump(f: Cpu.State, k: Kind, target: byte, next: byte, gt: bool, eq: bool)
    requires IsComparison(k)
    requires f.regs[Cpu.IR] & 0x0F == MaskByte(IfMask(k))
    requires f.regs[Cpu.CF] <= 1 && f.regs[Cpu.ZF] <= 1
    requires f.regs[Cpu.AF] == Cpu.Bit(gt) && f.regs[Cpu.EF] == Cpu.Bit(eq)
    requires f.ram[f.regs[Cpu.IAR] as int] == target && next == f.regs[Cpu.IAR] + 1
    ensures Cpu.JCond(f).regs[Cpu.IAR] == if Taken(k, gt, eq) then target else next
  {
    IfJumpTest(k, f.regs[Cpu.IR], f.regs[Cpu.CF], f.regs[Cpu.AF], f.regs[Cpu.EF], f.regs[Cpu.ZF]);
  }

  /** The JCOND handler applied to the fetched jump of an IF, with the flags
      as a CMP of `gt` and `eq` leaves them. */
  lemma JumpFetched(s: Cpu.State, k: Kind, target: byte, next: byte, gt: bool, eq: bool)
    requires IsComparison(k)
    requires Cpu.FlagsWellFormed(s)
    requires var p := s.regs[Cpu.IAR];
      && s.ram[p as int] == Assembler.Encode(Jcond(IfMask(k), target))[0]
      && s.ram[(p + 1) as int] == target
    requires next == s.regs[Cpu.IAR] + 2
    requires s.regs[Cpu.AF] == Cpu.Bit(gt) && s.regs[Cpu.EF] == Cpu.Bit(eq)
    ensures Cpu.JCond(Cpu.Fetch(s)).regs[Cpu.IAR] == if Taken(k, gt, eq) then target else next
  {
    FetchIfJumpMask(s, k, target);
    FetchKeepsFlags(s);
    JCondIfJump(Cpu.Fetch(s), k, target, next, gt, eq);
  }

  /** The conditional jump of an IF right after a CMP that recorded `gt` in A
      and `eq` in E: it goes to `target` when the mask's flags are set and past
      its two bytes otherwise; `dest` names where it goes. */
  lemma StepIfJump(s: Cpu.State, k: Kind, target: byte, gt: bool, eq: bool, dest: byte)
    requires IsComparison(k)
    requires Cpu.FlagsWellFormed(s)
    requires var p := s.regs[Cpu.IAR];
      && s.ram[p as int] == Assembler.Encode(Jcond(IfMask(k), target))[0]
      && s.ram[(p + 1) as int] == target
    requires s.regs[Cpu.AF] == Cpu.Bit(gt) && s.regs[Cpu.EF] == Cpu.Bit(eq)
    requires dest == if Taken(k, gt, eq) then target else s.regs[Cpu.IAR] + 2
    ensures Cpu.Step(s).regs[Cpu.IAR] == dest
  {
    FetchIfJump(s, k, target);
    JumpFetched(s, k, target, s.regs[Cpu.IAR] + 2, gt, eq);
  }

  /** The code of an IF condition at IAR: CMP RA, RB, then the IF's conditional
      jump to `target`. */
  predicate IfCodeAt(s: Cpu.State, k: Kind, ra: Reg, rb: Reg, target: byte)
    requires IsComparison(k)
  {
    var p := s.regs[Cpu.IAR];
    && s.ram[p as int] == Assembler.Encode(RegPair(CMP, ra, rb))[0]
    && s.ram[(p + 1) as int] == Assembler.Encode(Jcond(IfMask(k), target))[0]
    && s.ram[(p + 2) as int] == target
  }

  /** The two cycles of an IF condition's code: control reaches `dest`, the
      target when the jump is taken for the registers compared and the byte
      after the code otherwise. */
  lemma IfCodeSteps(s: Cpu.State, k: Kind, ra: Reg, rb: Reg, target: byte, dest: byte)
    requires IsComparison(k)
    requires Cpu.FlagsWellFormed(s)
    requires IfCodeAt(s, k, ra, rb, target)
    requires var a, b := s.regs[Cpu.GReg(ra)], s.regs[Cpu.GReg(rb)];
      dest == if Taken(k, a > b, a == b) then target else s.regs[Cpu.IAR] + 3
    ensures Cpu.Step(Cpu.Step(s)).regs[Cpu.IAR] == dest
  {
    var a, b := s.regs[Cpu.GReg(ra)], s.regs[Cpu.GReg(rb)];
    StepCmp(s, ra, rb);
    StepIfJump(Cpu.Step(s), k, target, a > b, a == b, dest);
  }

  /** The same two cycles as a run of the emulator. */
  lemma IfCodeRuns(s: Cpu.State, k: Kind, ra: Reg, rb: Reg, target: byte, dest: byte)
    requires IsComparison(k)
    requires Cpu.FlagsWellFormed(s)
    requires IfCodeAt(s, k, ra, rb, target)
    requires var a, b := s.regs[Cpu.GReg(ra)], s.regs[Cpu.GReg(rb)];
      dest == if Taken(k, a > b, a == b) then target else s.regs[Cpu.IAR] + 3
    ensures Cpu.Run(s, 2).regs[Cpu.IAR] == dest
  {
    IfCodeSteps(s, k, ra, rb, target, dest);
    RunTwo(s);
  }

  /** An IF condition on the emulator: after CMP RA, RB and the IF's conditional
      jump, control is at `target` exactly when the block is entered by jumping
      (the condition holds and the pattern jumps into the block, or it fails and
      the pattern jumps past it); otherwise it falls through past the three
      bytes. */
  lemma IfConditionOnCpu(s: Cpu.State, k: Kind, ra: Reg, rb: Reg, target: byte)
    requires IsComparison(k)
    requires Cpu.FlagsWellFormed(s)
    requires IfCodeAt(s, k, ra, rb, target)
    ensures var holds := Holds(k, s.regs[Cpu.GReg(ra)], s.regs[Cpu.GReg(rb)]);
      Cpu.Run(s, 2).regs[Cpu.IAR] == if holds != IfJump(k).value.skip then target else s.regs[Cpu.IAR] + 3
  {
    var a, b := s.regs[Cpu.GReg(ra)], s.regs[Cpu.GReg(rb)];
    TakenDecides(k, a, b);
    IfCodeRuns(s, k, ra, rb, target,
      if Holds(k, a, b) != IfJump(k).value.skip then target else s.regs[Cpu.IAR] + 3);
  }

  /** The code of an IF condition changes neither memory nor a general register. */
  lemma IfConditionKeeps(s: Cpu.State, k: Kind, ra: Reg, rb: Reg, target: byte)
    requires IsComparison(k)
    requires Cpu.FlagsWellFormed(s)
    requires IfCodeAt(s, k, ra, rb, target)
    ensures Cpu.Run(s, 2).ram == s.ram
    ensures forall g: Reg :: Cpu.Run(s, 2).regs[Cpu.GReg(g)] == s.regs[Cpu.GReg(g)]
  {
    RunTwo(s);
    StepCmp(s, ra, rb);
    IfJumpKeeps(Cpu.Step(s), k, target);
  }
}
