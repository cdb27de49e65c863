/** The emulated CPU: 256 bytes of RAM and eleven one-byte registers, advanced one
    fetch-decode-execute cycle at a time. The machine state is an immutable value;
    `Step` is the whole cycle and the sixteen instruction handlers are the
    execute phase. */
module Cpu {
  import opened MachCode

  const RAM_S: nat := 256
  /** Offset of R0 in the register file. */
  const GREG_OFF: nat := 7
  const NUM_REGS: nat := 11

  // Slots of the register file, in the order MAR, IAR, IR, CF, AF, EF, ZF, R0..R3.
  const MAR: nat := 0
  const IAR: nat := 1
  const IR: nat := 2
  const CF: nat := 3
  const AF: nat := 4
  const EF: nat := 5
  const ZF: nat := 6

  type Ram = s: seq<byte> | |s| == RAM_S witness seq(256, (i: int) => 0 as bv8)
  type Regs = s: seq<byte> | |s| == NUM_REGS witness seq(11, (i: int) => 0 as bv8)

  datatype State = State(ram: Ram, regs: Regs)

  /** The register file slot of general register `k`. */
  function GReg(k: Reg): (slot: nat)
    ensures CF < ZF < slot < NUM_REGS
  {
    GREG_OFF + k
  }

  /** Slot of the RA operand: general register `(ir & 0x0C) >> 2`. */
  function RaSlot(ir: byte): (slot: nat)
    ensures slot == GReg(RegField((ir & 0x0C) >> 2))
  {
    GREG_OFF + RegField((ir & 0x0C) >> 2)
  }

  /** Slot of the RB operand: general register `ir & 0x03`. */
  function RbSlot(ir: byte): (slot: nat)
    ensures slot == GReg(RegField(ir & 0x03))
  {
    GREG_OFF + RegField(ir & 0x03)
  }

  /** The C truth value of a comparison stored in a byte. */
  function Bit(b: bool): byte {
    if b then 1 else 0
  }

  function Set(s: State, slot: nat, v: byte): State
    requires slot < NUM_REGS
  {
    s.(regs := s.regs[slot := v])
  }

  /** Registers outside `slots`, and RAM, are the same in `s` and `t`. */
  predicate OnlyChanged(s: State, t: State, slots: set<nat>) {
    t.ram == s.ram && forall i :: 0 <= i < NUM_REGS && i !in slots ==> t.regs[i] == s.regs[i]
  }

  /** The flag registers hold C truth values. Every flag-writing handler keeps this. */
  predicate FlagsWellFormed(s: State) {
    s.regs[CF] <= 1 && s.regs[AF] <= 1 && s.regs[EF] <= 1 && s.regs[ZF] <= 1
  }

  /** The all-zero machine of a freshly started emulator. */
  function Reset(): (s: State)
    ensures forall i :: 0 <= i < RAM_S ==> s.ram[i] == 0
    ensures forall i :: 0 <= i < NUM_REGS ==> s.regs[i] == 0
    ensures FlagsWellFormed(s)
  {
    State(seq(256, (i: int) => 0 as bv8), seq(11, (i: int) => 0 as bv8))
  }

  // ---------------------------------------------------------------- loading

  /** Copies the first `csize` bytes of `code`, at most 256 of them, into RAM from
      address 0. Registers and the rest of RAM are left alone. */
  method LoadProgram(s: State, code: seq<byte>, csize: int) returns (t: State)
    requires csize <= |code|
    ensures t.regs == s.regs
    ensures forall i :: 0 <= i < RAM_S ==> t.ram[i] == (if i < csize then code[i] else s.ram[i])
  {
    var ram := s.ram;
    var i := 0;
    while i <= 0xFF && i < csize
      invariant 0 <= i <= RAM_S
      invariant i <= csize || i == 0
      invariant |ram| == RAM_S
      invariant forall k :: 0 <= k < RAM_S ==> ram[k] == (if k < i then code[k] else s.ram[k])
    {
      ram := ram[i := code[i]];
      i := i + 1;
    }
    t := State(ram, s.regs);
  }

  // ---------------------------------------------------------------- the cycle

  /** `++` on an unsigned char: the next byte value, wrapping from 255 to 0. */
  function Inc(x: byte): (y: byte)
    ensures y as int == (x as int + 1) % 256
    ensures y == x + 1
  {
    if x == 255 then 0 else x + 1
  }

  /** Steps 1-3 of every cycle: MAR <- IAR, IR <- RAM[MAR], IAR <- IAR + 1. */
  function Fetch(s: State): (t: State)
    ensures t.regs[MAR] == s.regs[IAR]
    ensures t.regs[IR] == s.ram[s.regs[IAR] as int]
    ensures t.regs[IAR] as int == (s.regs[IAR] as int + 1) % 256
    ensures t.regs[IAR] == s.regs[IAR] + 1
    ensures OnlyChanged(s, t, {MAR, IR, IAR})
  {
    var s1 := Set(s, MAR, s.regs[IAR]);
    var s2 := Set(s1, IR, s1.ram[s1.regs[MAR] as int]);
    Set(s2, IAR, Inc(s2.regs[IAR]))
  }

  /** The opcode named by the high nibble of a byte. */
  function Decode(ir: byte): (op: Opcode)
    ensures CodeBits(op) == ir >> 4
  {
    OpcodeOfBits(ir >> 4)
  }

  /** Steps 4-6: dispatch on the high nibble of IR to one of the sixteen handlers. */
  function Execute(s: State): (t: State)
    ensures t.regs[IR] == s.regs[IR]
    ensures Decode(s.regs[IR]) != STORE ==> t.ram == s.ram
  {
    match Decode(s.regs[IR])
    case LOAD => Load(s)
    case STORE => Store(s)
    case DATA => DataOp(s)
    case JMPR => JmpR(s)
    case JMP => JmpOp(s)
    case JCOND => JCond(s)
    case CLF => ClearFlags(s)
    case PAD => s
    case ADD => Add(s)
    case SHR => Shr(s)
    case SHL => Shl(s)
    case NOT => Not(s)
    case AND => And(s)
    case OR => Or(s)
    case XOR => Xor(s)
    case CMP => Cmp(s)
  }

  /** One complete fetch-decode-execute cycle; defined for every state. */
  function Step(s: State): (t: State)
    ensures t.regs[IR] == s.ram[s.regs[IAR] as int]
    ensures Decode(t.regs[IR]) != STORE ==> t.ram == s.ram
  {
    Execute(Fetch(s))
  }

  // What any instruction may touch, one fact per lemma.

  /** No instruction changes a general register other than its RB. */
  lemma ExecuteWritesOnlyRb(s: State)
    ensures forall k: Reg :: GReg(k) != RbSlot(s.regs[IR]) ==> Execute(s).regs[GReg(k)] == s.regs[GReg(k)]
  {
    if s.regs[IR] < 0x80 { ControlWritesOnlyRb(s); } else { AluWritesOnlyRb(s); }
  }

  lemma ControlWritesOnlyRb(s: State)
    requires s.regs[IR] < 0x80
    ensures forall k: Reg :: GReg(k) != RbSlot(s.regs[IR]) ==> Execute(s).regs[GReg(k)] == s.regs[GReg(k)]
  {
    var t, rb, op := Execute(s), RbSlot(s.regs[IR]), Decode(s.regs[IR]);
    if op == LOAD { GRegsKept(s, t, {MAR, rb}); }
    else if op == STORE { GRegsKept(s, t.(ram := s.ram), {MAR}); }
    else if op == DATA { GRegsKept(s, t, {MAR, IAR, rb}); }
    else if op == JMPR { GRegsKept(s, t, {IAR}); }
    else if op == JMP || op == JCOND { GRegsKept(s, t, {MAR, IAR}); }
    else if op == CLF { GRegsKept(s, t, {CF, AF, EF, ZF}); }
    else { assert t == s; }
  }

  lemma AluWritesOnlyRb(s: State)
    requires s.regs[IR] >= 0x80
    ensures forall k: Reg :: GReg(k) != RbSlot(s.regs[IR]) ==> Execute(s).regs[GReg(k)] == s.regs[GReg(k)]
  {
    var t, rb, op := Execute(s), RbSlot(s.regs[IR]), Decode(s.regs[IR]);
    if op == ADD || op == SHR || op == SHL { GRegsKept(s, t, {rb, CF, ZF}); }
    else if op == CMP { GRegsKept(s, t, {AF, EF}); }
    else { GRegsKept(s, t, {rb, ZF}); }
  }

  /** A change confined to RB and the special registers keeps every other
      general register. */
  lemma GRegsKept(s: State, t: State, slots: set<nat>)
    requires OnlyChanged(s, t, slots)
    requires forall i | i in slots :: i <= ZF || i == RbSlot(s.regs[IR])
    ensures forall k: Reg :: GReg(k) != RbSlot(s.regs[IR]) ==> t.regs[GReg(k)] == s.regs[GReg(k)]
  {
  }

  /** Every flag an instruction writes is a truth value. */
  lemma ExecuteKeepsFlagsWellFormed(s: State)
    requires FlagsWellFormed(s)
    ensures FlagsWellFormed(Execute(s))
  {
    var ir := s.regs[IR];
    if ir < 0x40 { MemoryKeepsFlags(s); }
    else if ir < 0x80 { JumpsKeepFlags(s); }
    else if ir < 0xC0 { ArithKeepsFlags(s); }
    else { LogicKeepsFlags(s); }
  }

  /** LD, ST, DATA and JMPR leave the flags alone. */
  lemma MemoryKeepsFlags(s: State)
    requires FlagsWellFormed(s) && s.regs[IR] < 0x40
    ensures FlagsWellFormed(Execute(s))
  {
    var t, rb, op := Execute(s), RbSlot(s.regs[IR]), Decode(s.regs[IR]);
    if op == LOAD { assert t == Load(s); FlagsKept(s, t, {MAR, rb}); }
    else if op == STORE { assert t == Store(s); FlagsKept(s, t.(ram := s.ram), {MAR}); }
    else if op == DATA { assert t == DataOp(s); FlagsKept(s, t, {MAR, IAR, rb}); }
    else { assert t == JmpR(s); FlagsKept(s, t, {IAR}); }
  }

  /** JMP, J<flags> and PAD leave the flags alone; CLF zeroes them. */
  lemma JumpsKeepFlags(s: State)
    requires FlagsWellFormed(s) && 0x40 <= s.regs[IR] < 0x80
    ensures FlagsWellFormed(Execute(s))
  {
    var t, op := Execute(s), Decode(s.regs[IR]);
    if op == JMP { assert t == JmpOp(s); FlagsKept(s, t, {MAR, IAR}); }
    else if op == JCOND { assert t == JCond(s); FlagsKept(s, t, {MAR, IAR}); }
    else if op == CLF { assert t == ClearFlags(s); FlagsKept(s, t, {CF, AF, EF, ZF}); }
    else { assert t == s; }
  }

  /** ADD, SHR and SHL set CF and ZF to truth values; NOT sets ZF. */
  lemma ArithKeepsFlags(s: State)
    requires FlagsWellFormed(s) && 0x80 <= s.regs[IR] < 0xC0
    ensures FlagsWellFormed(Execute(s))
  {
    var t, rb, op := Execute(s), RbSlot(s.regs[IR]), Decode(s.regs[IR]);
    if op == ADD { assert t == Add(s); FlagsKept(s, t, {rb, CF, ZF}); }
    else if op == SHR { assert t == Shr(s); FlagsKept(s, t, {rb, CF, ZF}); }
    else if op == SHL { assert t == Shl(s); FlagsKept(s, t, {rb, CF, ZF}); }
    else { assert t == Not(s); FlagsKept(s, t, {rb, ZF}); }
  }

  /** AND, OR and XOR set ZF to a truth value; CMP sets AF and EF. */
  lemma LogicKeepsFlags(s: State)
    requires FlagsWellFormed(s) && s.regs[IR] >= 0xC0
    ensures FlagsWellFormed(Execute(s))
  {
    var t, rb, op := Execute(s), RbSlot(s.regs[IR]), Decode(s.regs[IR]);
    if op == AND { assert t == And(s); FlagsKept(s, t, {rb, ZF}); }
    else if op == OR { assert t == Or(s); FlagsKept(s, t, {rb, ZF}); }
    else if op == XOR { assert t == Xor(s); FlagsKept(s, t, {rb, ZF}); }
    else { assert t == Cmp(s); FlagsKept(s, t, {AF, EF}); }
  }

  /** A change confined to `slots` keeps the flags truth values when every flag
      among the slots is given a truth value. */
  lemma FlagsKept(s: State, t: State, slots: set<nat>)
    requires FlagsWellFormed(s) && OnlyChanged(s, t, slots)
    requires CF in slots ==> t.regs[CF] <= 1
    requires AF in slots ==> t.regs[AF] <= 1
    requires EF in slots ==> t.regs[EF] <= 1
    requires ZF in slots ==> t.regs[ZF] <= 1
    ensures FlagsWellFormed(t)
  {
  }

  /** Only the jumps and DATA (which reads past its operand) touch IAR once the
      fetch is done. */
  lemma ExecuteKeepsIar(s: State)
    ensures var op := Decode(s.regs[IR]);
      op != JMP && op != JMPR && op != JCOND && op != DATA ==> Execute(s).regs[IAR] == s.regs[IAR]
  {
    match Decode(s.regs[IR])
    case LOAD => case STORE => case DATA => case JMPR =>
    case JMP => case JCOND => case CLF => case PAD =>
    case ADD => case SHR => case SHL => case NOT =>
    case AND => case OR => case XOR => case CMP =>
  }

  /** Every cycle leaves the fetched byte in IR, writes memory only for a store,
      changes at most one general register, and keeps the flags truth values. */
  lemma StepFootprint(s: State)
    ensures Step(s).regs[IR] == s.ram[s.regs[IAR] as int]
    ensures Decode(Step(s).regs[IR]) != STORE ==> Step(s).ram == s.ram
    ensures var rb := RbSlot(s.ram[s.regs[IAR] as int]);
      forall k: Reg :: GReg(k) != rb ==> Step(s).regs[GReg(k)] == s.regs[GReg(k)]
    ensures FlagsWellFormed(s) ==> FlagsWellFormed(Step(s))
  {
    ExecuteWritesOnlyRb(Fetch(s));
    if FlagsWellFormed(s) {
      ExecuteKeepsFlagsWellFormed(Fetch(s));
    }
  }

  /** A cycle that does not jump moves IAR on by the size the opcode table gives
      the instruction, wrapping at 256. */
  lemma StepAdvancesBySize(s: State)
    ensures var op := Decode(s.ram[s.regs[IAR] as int]);
      op != JMP && op != JMPR && op != JCOND ==>
        Step(s).regs[IAR] as int == (s.regs[IAR] as int + Size(op)) % 256
  {
    var f := Fetch(s);
    ExecuteKeepsIar(f);
    if Decode(f.regs[IR]) == DATA {
      assert Execute(f) == DataOp(f);
    }
  }

  /** One cycle keeps the flags truth values: the fetch does not touch them and
      every handler writes 0 or 1. */
  lemma StepKeepsFlagsWellFormed(s: State)
    requires FlagsWellFormed(s)
    ensures FlagsWellFormed(Step(s))
  {
    var f := Fetch(s);
    assert f.regs[CF] == s.regs[CF] && f.regs[AF] == s.regs[AF];
    assert f.regs[EF] == s.regs[EF] && f.regs[ZF] == s.regs[ZF];
    ExecuteKeepsFlagsWellFormed(f);
  }

  /** `n` applications of `f`. */
  function Iterate(f: State -> State, s: State, n: nat): State
    decreases n
  {
    if n == 0 then s else Iterate(f, f(s), n - 1)
  }

  /** A property every application of `f` preserves holds after any number of them. */
  lemma {:induction false} IterateKeeps(f: State -> State, inv: State -> bool, s: State, n: nat)
    requires forall x :: inv(x) ==> inv(f(x))
    requires inv(s)
    ensures inv(Iterate(f, s, n))
    decreases n
  {
    if n > 0 {
      IterateKeeps(f, inv, f(s), n - 1);
    }
  }

  /** `n` consecutive cycles. Flags stay truth values however many run. */
  function Run(s: State, n: nat): (t: State)
    ensures FlagsWellFormed(s) ==> FlagsWellFormed(t)
  {
    StepsKeepFlagsWellFormed(s, n);
    Iterate(Step, s, n)
  }

  lemma StepsKeepFlagsWellFormed(s: State, n: nat)
    ensures FlagsWellFormed(s) ==> FlagsWellFormed(Iterate(Step, s, n))
  {
    forall x | FlagsWellFormed(x) ensures FlagsWellFormed(Step(x)) {
      StepKeepsFlagsWellFormed(x);
    }
    if FlagsWellFormed(s) {
      IterateKeeps(Step, FlagsWellFormed, s, n);
    }
  }

  /** Running `m` cycles and then `n` more is running `m + n` cycles: the machine
      has no state outside `State`. */
  lemma RunSplits(s: State, m: nat, n: nat)
    ensures Run(s, m + n) == Run(Run(s, m), n)
  {
    IterateSplits(Step, s, m, n);
  }

  lemma {:induction false} IterateSplits(f: State -> State, s: State, m: nat, n: nat)
    ensures Iterate(f, s, m + n) == Iterate(f, Iterate(f, s, m), n)
    decreases m
  {
    if m > 0 {
      IterateSplits(f, f(s), m - 1, n);
      assert m + n - 1 == (m - 1) + n;
    }
  }

  // ---------------------------------------------------------------- handlers
  // Each handler receives the state right after the fetch, with the opcode in IR.

  /** LD RA, RB: MAR <- RA, RB <- RAM[MAR]. */
  function Load(s: State): (t: State)
    ensures var ra := s.regs[RaSlot(s.regs[IR])];
      t.regs[MAR] == ra && t.regs[RbSlot(s.regs[IR])] == s.ram[ra as int]
    ensures OnlyChanged(s, t, {MAR, RbSlot(s.regs[IR])})
  {
    var ir := s.regs[IR];
    var s1 := Set(s, MAR, s.regs[RaSlot(ir)]);
    Set(s1, RbSlot(ir), s1.ram[s1.regs[MAR] as int])
  }

  /** ST RA, RB: MAR <- RA, RAM[MAR] <- RB. The only handler that writes memory. */
  function Store(s: State): (t: State)
    ensures var ra := s.regs[RaSlot(s.regs[IR])];
      t.regs[MAR] == ra && t.ram == s.ram[ra as int := s.regs[RbSlot(s.regs[IR])]]
    ensures forall i :: 0 <= i < NUM_REGS && i != MAR ==> t.regs[i] == s.regs[i]
  {
    var ir := s.regs[IR];
    var s1 := Set(s, MAR, s.regs[RaSlot(ir)]);
    s1.(ram := s1.ram[s1.regs[MAR] as int := s1.regs[RbSlot(ir)]])
  }

  /** DATA RB, value: MAR <- IAR, RB <- RAM[MAR], IAR <- IAR + 1, skipping the operand. */
  function DataOp(s: State): (t: State)
    ensures t.regs[MAR] == s.regs[IAR]
    ensures t.regs[RbSlot(s.regs[IR])] == s.ram[s.regs[IAR] as int]
    ensures t.regs[IAR] as int == (s.regs[IAR] as int + 1) % 256
    ensures OnlyChanged(s, t, {MAR, IAR, RbSlot(s.regs[IR])})
  {
    var ir := s.regs[IR];
    var s1 := Set(s, MAR, s.regs[IAR]);
    var s2 := Set(s1, RbSlot(ir), s1.ram[s1.regs[MAR] as int]);
    Set(s2, IAR, Inc(s2.regs[IAR]))
  }

  /** JMPR RB: IAR <- RB. */
  function JmpR(s: State): (t: State)
    ensures t.regs[IAR] == s.regs[RbSlot(s.regs[IR])]
    ensures OnlyChanged(s, t, {IAR})
  {
    Set(s, IAR, s.regs[RbSlot(s.regs[IR])])
  }

  /** JMP addr: MAR <- IAR, IAR <- RAM[MAR]; the operand byte itself is the target. */
  function JmpOp(s: State): (t: State)
    ensures t.regs[MAR] == s.regs[IAR]
    ensures t.regs[IAR] == s.ram[s.regs[IAR] as int]
    ensures OnlyChanged(s, t, {MAR, IAR})
  {
    var s1 := Set(s, MAR, s.regs[IAR]);
    Set(s1, IAR, s1.ram[s1.regs[MAR] as int])
  }

  /** The live flags packed as the conditional jump reads them: C<<3 | A<<2 | E<<1 | Z. */
  function FlagBits(s: State): byte {
    (s.regs[CF] << 3) | (s.regs[AF] << 2) | (s.regs[EF] << 1) | s.regs[ZF]
  }

  /** J<flags> addr: MAR <- IAR, IAR <- IAR + 1, then IAR <- RAM[MAR] when any
      requested flag bit of IR is among the live flags. */
  function JCond(s: State): (t: State)
    ensures t.regs[MAR] == s.regs[IAR]
    ensures t.regs[IAR] == if s.regs[IR] & FlagBits(s) != 0 then s.ram[s.regs[IAR] as int]
                           else s.regs[IAR] + 1
    ensures OnlyChanged(s, t, {MAR, IAR})
  {
    var taken := s.regs[IR] & FlagBits(s) != 0;
    var s1 := Set(s, MAR, s.regs[IAR]);
    var s2 := Set(s1, IAR, Inc(s1.regs[IAR]));
    assert s2.regs[IR] & FlagBits(s2) != 0 <==> taken;
    if taken then Set(s2, IAR, s2.ram[s2.regs[MAR] as int]) else s2
  }

  /** CLF: the four consecutive flag slots CF, AF, EF, ZF become zero. */
  function ClearFlags(s: State): (t: State)
    ensures t.regs[CF] == 0 && t.regs[AF] == 0 && t.regs[EF] == 0 && t.regs[ZF] == 0
    ensures OnlyChanged(s, t, {CF, AF, EF, ZF})
  {
    s.(regs := s.regs[CF := 0][AF := 0][EF := 0][ZF := 0])
  }

  // ---------------------------------------------------------------- the ALU
  // Values are computed on bytes; wide (16-bit) arithmetic states what the
  // byte results mean without wrap-around.

  /** The byte with only bit `k` set. */
  const BitMask: seq<byte> := [0x01, 0x02, 0x04, 0x08, 0x10, 0x20, 0x40, 0x80]

  /** Bit `k` of a byte. */
  function BitAt(x: byte, k: nat): bool
    requires k < 8
  {
    x & BitMask[k] != 0
  }

  /** `RA + RB + CF` truncated to a byte. */
  function AddBits(a: byte, b: byte, cf: byte): (r: byte)
    ensures r as bv16 == (a as bv16 + b as bv16 + cf as bv16) % 256
  {
    a + b + cf
  }

  /** `(RA >> 1) | (CF << 7)` truncated to a byte: only bit 0 of CF survives. */
  function ShrBits(a: byte, cf: byte): (r: byte)
    ensures r as bv16 == a as bv16 / 2 + 128 * (cf as bv16 % 2)
  {
    (a >> 1) | (cf << 7)
  }

  /** `(RA << 1) | CF` truncated to a byte. */
  function ShlBits(a: byte, cf: byte): (r: byte)
    ensures cf <= 1 ==> r as bv16 == (2 * a as bv16 + cf as bv16) % 256
    ensures BitAt(a, 7) ==> BitAt(r, 0) == BitAt(cf, 0)
  {
    (a << 1) | cf
  }

  function NotBits(a: byte): (r: byte)
    ensures r as int == 255 - a as int
  {
    !a
  }

  function AndBits(a: byte, b: byte): (r: byte)
    ensures forall k: nat | k < 8 :: BitAt(r, k) == (BitAt(a, k) && BitAt(b, k))
  {
    forall k: nat | k < 8 ensures BitAt(a & b, k) == (BitAt(a, k) && BitAt(b, k)) {
      SingleBit(k);
      AndOneBit(a, b, BitMask[k]);
    }
    a & b
  }

  function OrBits(a: byte, b: byte): (r: byte)
    ensures forall k: nat | k < 8 :: BitAt(r, k) == (BitAt(a, k) || BitAt(b, k))
  {
    forall k: nat | k < 8 ensures BitAt(a | b, k) == (BitAt(a, k) || BitAt(b, k)) {
      SingleBit(k);
      OrOneBit(a, b, BitMask[k]);
    }
    a | b
  }

  function XorBits(a: byte, b: byte): (r: byte)
    ensures forall k: nat | k < 8 :: BitAt(r, k) == (BitAt(a, k) != BitAt(b, k))
  {
    forall k: nat | k < 8 ensures BitAt(a ^ b, k) == (BitAt(a, k) != BitAt(b, k)) {
      SingleBit(k);
      XorOneBit(a, b, BitMask[k]);
    }
    a ^ b
  }

  /** Each entry of the mask table has exactly one bit set. */
  lemma SingleBit(k: nat)
    requires k < 8
    ensures var m := BitMask[k];
      m == 1 || m == 2 || m == 4 || m == 8 || m == 16 || m == 32 || m == 64 || m == 128
  {
  }

  // Through a one-bit mask, AND, OR and XOR act on the selected bit alone.

  lemma AndOneBit(a: byte, b: byte, m: byte)
    requires m == 1 || m == 2 || m == 4 || m == 8 || m == 16 || m == 32 || m == 64 || m == 128
    ensures ((a & b) & m != 0) == ((a & m != 0) && (b & m != 0))
  {
  }

  lemma OrOneBit(a: byte, b: byte, m: byte)
    requires m == 1 || m == 2 || m == 4 || m == 8 || m == 16 || m == 32 || m == 64 || m == 128
    ensures ((a | b) & m != 0) == ((a & m != 0) || (b & m != 0))
  {
  }

  lemma XorOneBit(a: byte, b: byte, m: byte)
    requires m == 1 || m == 2 || m == 4 || m == 8 || m == 16 || m == 32 || m == 64 || m == 128
    ensures ((a ^ b) & m != 0) == ((a & m != 0) != (b & m != 0))
  {
  }

  /** Writes an ALU result to RB and sets ZF from it. */
  function SetResult(s: State, v: byte): (t: State)
    ensures t.regs[RbSlot(s.regs[IR])] == v && t.regs[ZF] == Bit(v == 0)
    ensures OnlyChanged(s, t, {RbSlot(s.regs[IR]), ZF})
  {
    var s1 := Set(s, RbSlot(s.regs[IR]), v);
    Set(s1, ZF, Bit(s1.regs[RbSlot(s.regs[IR])] == 0))
  }

  /** The value of RA. */
  function RegA(s: State): byte {
    s.regs[RaSlot(s.regs[IR])]
  }

  /** The value of RB. */
  function RegB(s: State): byte {
    s.regs[RbSlot(s.regs[IR])]
  }

  /** ADD RA, RB: RB <- RA + RB + CF modulo 256; CF <- whether RA + RB, without the
      carry in, exceeds 255; ZF <- whether the new RB is zero. */
  function Add(s: State): (t: State)
    ensures t.regs[RbSlot(s.regs[IR])] as bv16
              == (RegA(s) as bv16 + RegB(s) as bv16 + s.regs[CF] as bv16) % 256
    ensures t.regs[CF] == Bit(RegA(s) as bv16 + RegB(s) as bv16 > 255)
    ensures t.regs[ZF] == Bit(t.regs[RbSlot(s.regs[IR])] == 0)
    ensures OnlyChanged(s, t, {RbSlot(s.regs[IR]), CF, ZF})
  {
    var tmp := AddBits(RegA(s), RegB(s), s.regs[CF]);
    var s1 := Set(s, CF, Bit(RegA(s) as bv16 + RegB(s) as bv16 > 0xFF));
    SetResult(s1, tmp)
  }

  /** SHR RA, RB: RB <- RA shifted right with bit 0 of the old CF entering bit 7;
      CF <- the bit shifted out; ZF from the result. */
  function Shr(s: State): (t: State)
    ensures t.regs[RbSlot(s.regs[IR])] as bv16
              == RegA(s) as bv16 / 2 + 128 * (s.regs[CF] as bv16 % 2)
    ensures t.regs[CF] == Bit(RegA(s) % 2 == 1)
    ensures t.regs[ZF] == Bit(t.regs[RbSlot(s.regs[IR])] == 0)
    ensures OnlyChanged(s, t, {RbSlot(s.regs[IR]), CF, ZF})
  {
    var s1 := Set(s, RbSlot(s.regs[IR]), ShrBits(RegA(s), s.regs[CF]));
    var s2 := Set(s1, CF, Bit(RegA(s) & 0x01 > 0));
    Set(s2, ZF, Bit(s2.regs[RbSlot(s.regs[IR])] == 0))
  }

  /** SHL RA, RB: RB <- RA shifted left with the old CF (a truth value) entering
      bit 0; CF <- the bit shifted out of bit 7; ZF from the result. */
  function Shl(s: State): (t: State)
    ensures s.regs[CF] <= 1 ==>
      t.regs[RbSlot(s.regs[IR])] as bv16 == (2 * RegA(s) as bv16 + s.regs[CF] as bv16) % 256
    ensures t.regs[CF] == Bit(2 * RegA(s) as bv16 > 255)
    ensures t.regs[ZF] == Bit(t.regs[RbSlot(s.regs[IR])] == 0)
    ensures OnlyChanged(s, t, {RbSlot(s.regs[IR]), CF, ZF})
  {
    var s1 := Set(s, RbSlot(s.regs[IR]), ShlBits(RegA(s), s.regs[CF]));
    var s2 := Set(s1, CF, Bit(RegA(s) >= 0x80));
    Set(s2, ZF, Bit(s2.regs[RbSlot(s.regs[IR])] == 0))
  }

  /** NOT RA, RB: RB <- the complement of RA; ZF from the result. */
  function Not(s: State): (t: State)
    ensures t.regs[RbSlot(s.regs[IR])] as int == 255 - RegA(s) as int
    ensures t.regs[ZF] == Bit(t.regs[RbSlot(s.regs[IR])] == 0)
    ensures OnlyChanged(s, t, {RbSlot(s.regs[IR]), ZF})
  {
    SetResult(s, NotBits(RegA(s)))
  }

  /** AND RA, RB: each bit of RB becomes set iff it was set in both RA and RB. */
  function And(s: State): (t: State)
    ensures forall k: nat | k < 8 ::
      BitAt(t.regs[RbSlot(s.regs[IR])], k) == (BitAt(RegA(s), k) && BitAt(RegB(s), k))
    ensures t.regs[ZF] == Bit(t.regs[RbSlot(s.regs[IR])] == 0)
    ensures OnlyChanged(s, t, {RbSlot(s.regs[IR]), ZF})
  {
    SetResult(s, AndBits(RegB(s), RegA(s)))
  }

  /** OR RA, RB: each bit of RB becomes set iff it was set in RA or RB. */
  function Or(s: State): (t: State)
    ensures forall k: nat | k < 8 ::
      BitAt(t.regs[RbSlot(s.regs[IR])], k) == (BitAt(RegA(s), k) || BitAt(RegB(s), k))
    ensures t.regs[ZF] == Bit(t.regs[RbSlot(s.regs[IR])] == 0)
    ensures OnlyChanged(s, t, {RbSlot(s.regs[IR]), ZF})
  {
    SetResult(s, OrBits(RegB(s), RegA(s)))
  }

  /** XOR RA, RB: each bit of RB becomes set iff it differed between RA and RB. */
  function Xor(s: State): (t: State)
    ensures forall k: nat | k < 8 ::
      BitAt(t.regs[RbSlot(s.regs[IR])], k) == (BitAt(RegA(s), k) != BitAt(RegB(s), k))
    ensures t.regs[ZF] == Bit(t.regs[RbSlot(s.regs[IR])] == 0)
    ensures OnlyChanged(s, t, {RbSlot(s.regs[IR]), ZF})
  {
    SetResult(s, XorBits(RegB(s), RegA(s)))
  }

  /** CMP RA, RB: AF <- RA > RB (unsigned), EF <- RA == RB; nothing else changes. */
  function Cmp(s: State): (t: State)
    ensures t.regs[AF] == Bit(RegA(s) as int > RegB(s) as int)
    ensures t.regs[AF] == Bit(RegA(s) > RegB(s))
    ensures t.regs[EF] == Bit(RegA(s) == RegB(s))
    ensures OnlyChanged(s, t, {AF, EF})
  {
    var ra, rb := RaSlot(s.regs[IR]), RbSlot(s.regs[IR]);
    var s1 := Set(s, AF, Bit(s.regs[ra] > s.regs[rb]));
    Set(s1, EF, Bit(s1.regs[ra] == s1.regs[rb]))
  }

  // ---------------------------------------------------------------- conditions

  /** The four conditions a conditional jump can test. */
  datatype Flag = Carry | Greater | Equal | Zero

  const AllFlags: set<Flag> := {Carry, Greater, Equal, Zero}

  /** The register slot holding a flag. */
  function FlagSlot(f: Flag): nat {
    match f
    case Carry => CF
    case Greater => AF
    case Equal => EF
    case Zero => ZF
  }

  /** The bit of a conditional jump's low nibble that requests a flag. */
  function FlagMaskBit(f: Flag): byte {
    match f
    case Carry => 0x08
    case Greater => 0x04
    case Equal => 0x02
    case Zero => 0x01
  }

  /** The flags a conditional jump instruction byte asks about. */
  function Requested(ir: byte): set<Flag> {
    set f | f in AllFlags && ir & FlagMaskBit(f) != 0
  }

  /** The flags that are set. */
  function Live(s: State): set<Flag> {
    set f | f in AllFlags && s.regs[FlagSlot(f)] == 1
  }

  /** The live flags depend on the flag registers alone. */
  lemma LiveFlagsOnly(s: State, t: State)
    requires s.regs[CF] == t.regs[CF] && s.regs[AF] == t.regs[AF]
    requires s.regs[EF] == t.regs[EF] && s.regs[ZF] == t.regs[ZF]
    ensures Live(s) == Live(t)
  {
    forall f | f in AllFlags ensures s.regs[FlagSlot(f)] == t.regs[FlagSlot(f)] {
      match f
      case Carry =>
      case Greater =>
      case Equal =>
      case Zero =>
    }
  }

  /** With truth-valued flags, the packed test of a conditional jump succeeds
      exactly when some requested flag is set. */
  lemma JCondTakenIff(s: State)
    requires FlagsWellFormed(s)
    ensures s.regs[IR] & FlagBits(s) != 0 <==> Requested(s.regs[IR]) * Live(s) != {}
  {
    var ir := s.regs[IR];
    var c, a, e, z := s.regs[CF], s.regs[AF], s.regs[EF], s.regs[ZF];
    assert FlagBits(s) == (c << 3) | (a << 2) | (e << 1) | z;
    if ir & FlagBits(s) != 0 {
      if ir & 0x08 != 0 && c == 1 {
        assert Carry in Requested(ir) * Live(s);
      } else if ir & 0x04 != 0 && a == 1 {
        assert Greater in Requested(ir) * Live(s);
      } else if ir & 0x02 != 0 && e == 1 {
        assert Equal in Requested(ir) * Live(s);
      } else {
        assert Zero in Requested(ir) * Live(s);
      }
    } else {
      forall f | f in Requested(ir) * Live(s)
        ensures false
      {
        match f
        case Carry =>
        case Greater =>
        case Equal =>
        case Zero =>
      }
    }
  }

  /** A whole cycle on a conditional jump: the target in the operand byte is taken
      when a requested flag is set; otherwise execution falls through past the
      operand. */
  lemma StepJCond(s: State)
    requires FlagsWellFormed(s)
    requires Decode(s.ram[s.regs[IAR] as int]) == JCOND
    ensures var ir, next := s.ram[s.regs[IAR] as int], s.regs[IAR] + 1;
      Step(s).regs[IAR]
        == if Requested(ir) * Live(s) != {} then s.ram[next as int] else next + 1
  {
    var f := Fetch(s);
    assert Decode(f.regs[IR]) == JCOND;
    assert Step(s) == JCond(f);
    LiveFlagsOnly(s, f);
    JCondTakenIff(f);
  }

  /** CLF leaves no flag set, so no conditional jump after it is taken, and
      clearing twice is clearing once. */
  lemma ClearFlagsDisablesJumps(s: State, ir: byte)
    ensures Live(ClearFlags(s)) == {}
    ensures Requested(ir) * Live(ClearFlags(s)) == {}
    ensures FlagsWellFormed(ClearFlags(s))
    ensures ClearFlags(ClearFlags(s)) == ClearFlags(s)
  {
    var t := ClearFlags(s);
    forall f | f in Live(t)
      ensures false
    {
      match f
      case Carry =>
      case Greater =>
      case Equal =>
      case Zero =>
    }
  }

  // ---------------------------------------------------------------- addition

  /** 0xFF + 0x01 with CF clear: R1 wraps to zero, and both CF and ZF are set. */
  lemma AddCarryExample(s: State)
    requires s.regs[IR] == 0x81 && s.regs[CF] == 0
    requires s.regs[GReg(0)] == 0xFF && s.regs[GReg(1)] == 0x01
    ensures Add(s).regs[GReg(1)] == 0x00
    ensures Add(s).regs[CF] == 1 && Add(s).regs[ZF] == 1
    ensures Add(s).regs[GReg(0)] == 0xFF
  {
  }

  /** Multi-byte addition: adding the low bytes with CF clear, then the high bytes
      with the carry that produced, yields the 16-bit sum modulo 65536. */
  lemma AddChainsBytes(al: byte, ah: byte, bl: byte, bh: byte)
    ensures var lo := AddBits(al, bl, 0);
      var hi := AddBits(ah, bh, Bit(al as bv16 + bl as bv16 > 255));
      (hi as bv16 << 8) | lo as bv16
        == ((ah as bv16 << 8) | al as bv16) + ((bh as bv16 << 8) | bl as bv16)
  {
  }
}
