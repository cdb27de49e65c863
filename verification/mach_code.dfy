/** The instruction set of the computer from "But How Do It Know?": sixteen
    opcodes selected by the high nibble of an instruction byte, the table of
    sizes and mnemonics the assembler, emulator and disassembler share, the
    register and flag name tables, and the shape of one instruction with its
    operands. */
module MachCode {
  import opened Wrappers

  /** `unsigned char`: every register, memory cell and instruction byte. */
  type byte = bv8

  const INSTR_COUNT: nat := 16
  /** Number of general registers. */
  const GREGS: nat := 4
  /** Four flags plus five padding indices, so that a single flag bit indexes `flags`. */
  const FLAGSN: nat := 9

  /** The opcodes, in the order of their numeric codes. */
  datatype Opcode =
    | LOAD | STORE | DATA | JMPR | JMP | JCOND | CLF | PAD
    | ADD | SHR | SHL | NOT | AND | OR | XOR | CMP

  /** The numeric code of an opcode: its position in the enumeration. */
  function Code(op: Opcode): (c: nat)
    ensures c < INSTR_COUNT
  {
    match op
    case LOAD => 0   case STORE => 1  case DATA => 2  case JMPR => 3
    case JMP => 4    case JCOND => 5  case CLF => 6   case PAD => 7
    case ADD => 8    case SHR => 9    case SHL => 10  case NOT => 11
    case AND => 12   case OR => 13    case XOR => 14  case CMP => 15
  }

  /** The opcode a 4-bit code names: every value 0..15 names one. */
  function OpcodeOf(c: nat): (op: Opcode)
    requires c < INSTR_COUNT
    ensures Code(op) == c
  {
    [LOAD, STORE, DATA, JMPR, JMP, JCOND, CLF, PAD,
     ADD, SHR, SHL, NOT, AND, OR, XOR, CMP][c]
  }

  /** Codes and opcodes are in one-to-one correspondence. */
  lemma OpcodeOfCode(op: Opcode)
    ensures OpcodeOf(Code(op)) == op
  {
  }

  /** One row of the opcode table. */
  datatype InstrInfo = InstrInfo(size: nat, code: nat, name: string)

  /** The opcode table, ordered by code. JCOND's name is the bare "J": the
      conditions are appended from the low nibble when an instruction is shown. */
  const mcode: seq<InstrInfo> := [
    InstrInfo(1, 0, "LD"),
    InstrInfo(1, 1, "ST"),
    InstrInfo(2, 2, "DATA"),
    InstrInfo(1, 3, "JMPR"),
    InstrInfo(2, 4, "JMP"),
    InstrInfo(2, 5, "J"),
    InstrInfo(1, 6, "CLF"),
    InstrInfo(1, 7, "PAD"),
    InstrInfo(1, 8, "ADD"),
    InstrInfo(1, 9, "SHR"),
    InstrInfo(1, 10, "SHL"),
    InstrInfo(1, 11, "NOT"),
    InstrInfo(1, 12, "AND"),
    InstrInfo(1, 13, "OR"),
    InstrInfo(1, 14, "XOR"),
    InstrInfo(1, 15, "CMP")
  ]

  /** The opcodes whose instruction carries a second byte. */
  predicate HasOperandByte(op: Opcode) {
    op == DATA || op == JMP || op == JCOND
  }

  /** Instruction size in bytes: the opcodes with an operand byte take two. */
  function Size(op: Opcode): (n: nat)
    ensures n == 1 || n == 2
    ensures n == 2 <==> HasOperandByte(op)
  {
    if HasOperandByte(op) then 2 else 1
  }

  /** The sizes are the ones the table lists. */
  lemma SizeFromTable(op: Opcode)
    ensures Size(op) == mcode[Code(op)].size
  {
  }

  /** Mnemonic of an opcode. */
  function Name(op: Opcode): (s: string)
    ensures |s| > 0
    ensures s == "J" <==> op == JCOND
    ensures s[0] == 'J' <==> op == JMPR || op == JMP || op == JCOND
  {
    match op
    case LOAD => "LD"   case STORE => "ST"  case DATA => "DATA" case JMPR => "JMPR"
    case JMP => "JMP"   case JCOND => "J"   case CLF => "CLF"   case PAD => "PAD"
    case ADD => "ADD"   case SHR => "SHR"   case SHL => "SHL"   case NOT => "NOT"
    case AND => "AND"   case OR => "OR"     case XOR => "XOR"   case CMP => "CMP"
  }

  /** The mnemonics are the ones the table lists. */
  lemma NameFromTable(op: Opcode)
    ensures Name(op) == mcode[Code(op)].name
  {
  }

  /** The table is ordered by code, so row `i` describes opcode `i`. */
  lemma TableOrdered()
    ensures |mcode| == INSTR_COUNT
    ensures forall i :: 0 <= i < INSTR_COUNT ==> mcode[i].code == i && Code(OpcodeOf(i)) == i
  {
  }

  /** No two rows share a mnemonic, so looking an opcode up by name is deterministic. */
  lemma NamesDistinct()
    ensures forall i, j :: 0 <= i < j < |mcode| ==> mcode[i].name != mcode[j].name
  {
  }

  /** Register mnemonics. */
  const gregs: seq<string> := ["R0", "R1", "R2", "R3"]

  /** Flag letters indexed by a single flag bit; every other index is empty. */
  const flags: seq<string> := ["", "Z", "E", "", "A", "", "", "", "C"]

  /** The name of general register `k`. */
  function GregName(k: nat): (s: string)
    requires k < GREGS
    ensures |s| == 2 && s[0] == 'R' && s[1] as int == '0' as int + k
  {
    gregs[k]
  }

  /** The letter shown for flag index `i`: nonempty exactly for the single bits. */
  function FlagName(i: nat): (s: string)
    requires i < FLAGSN
    ensures i == 8 ==> s == "C"
    ensures i == 4 ==> s == "A"
    ensures i == 2 ==> s == "E"
    ensures i == 1 ==> s == "Z"
    ensures i != 1 && i != 2 && i != 4 && i != 8 ==> s == ""
  {
    flags[i]
  }

  // ---------------------------------------------------------------- instructions

  /** A general register number. */
  type Reg = k: nat | k < 4

  /** The four condition bits of a conditional jump: C=8, A=4, E=2, Z=1. */
  type Mask = m: nat | m < 16

  /** The 2-bit field that names general register `k`. */
  function RegBits(k: Reg): (f: byte)
    ensures f < 4
  {
    if k == 0 then 0 else if k == 1 then 1 else if k == 2 then 2 else 3
  }

  /** The register a 2-bit operand field names. */
  function RegField(f: byte): (k: Reg)
    requires f < 4
    ensures RegBits(k) == f
  {
    if f == 0 then 0 else if f == 1 then 1 else if f == 2 then 2 else 3
  }

  /** Register fields read back the register written into them. */
  lemma RegFieldOfBits(k: Reg)
    ensures RegField(RegBits(k)) == k
  {
  }

  /** An opcode's code as the high nibble value of an instruction byte. */
  function CodeBits(op: Opcode): (b: byte)
    ensures b < 16 && b as nat == Code(op)
  {
    match op
    case LOAD => 0   case STORE => 1  case DATA => 2  case JMPR => 3
    case JMP => 4    case JCOND => 5  case CLF => 6   case PAD => 7
    case ADD => 8    case SHR => 9    case SHL => 10  case NOT => 11
    case AND => 12   case OR => 13    case XOR => 14  case CMP => 15
  }

  /** The opcode whose code is the high-nibble value `n`. */
  function OpcodeOfBits(n: byte): (op: Opcode)
    requires n < 16
    ensures CodeBits(op) == n
  {
    OpcodeOf(n as nat)
  }

  /** The low nibble that holds mask `m`. */
  function MaskByte(m: Mask): (f: byte)
    ensures f < 16
  {
    (if m >= 8 then 8 else 0) | (if (m / 4) % 2 == 1 then 4 else 0)
    | (if (m / 2) % 2 == 1 then 2 else 0) | (if m % 2 == 1 then 1 else 0)
  }

  /** The mask a low nibble holds. */
  function MaskField(f: byte): (m: Mask)
    requires f < 16
    ensures MaskByte(m) == f
  {
    (if f & 8 != 0 then 8 else 0) + (if f & 4 != 0 then 4 else 0)
    + (if f & 2 != 0 then 2 else 0) + (if f & 1 != 0 then 1 else 0)
  }

  /** A low nibble reads back the mask written into it. */
  lemma MaskFieldOfBits(m: Mask)
    ensures MaskField(MaskByte(m)) == m
  {
  }

  /** The four condition bits of a mask, in the order C, A, E, Z. */
  function MaskBits(m: Mask): (bits: (bool, bool, bool, bool)) {
    (m >= 8, (m / 4) % 2 == 1, (m / 2) % 2 == 1, m % 2 == 1)
  }

  /** The mask with the given condition bits. */
  function MaskOf(c: bool, a: bool, e: bool, z: bool): (m: Mask)
    ensures MaskBits(m) == (c, a, e, z)
  {
    (if c then 8 else 0) + (if a then 4 else 0) + (if e then 2 else 0) + (if z then 1 else 0)
  }

  /** A mask is determined by its four bits. */
  lemma MaskOfBits(m: Mask)
    ensures MaskOf(MaskBits(m).0, MaskBits(m).1, MaskBits(m).2, MaskBits(m).3) == m
  {
  }

  /** The opcodes written with two register operands `RA, RB`. */
  predicate IsRegPairOp(op: Opcode) {
    op == LOAD || op == STORE || op == PAD || op == ADD || op == SHR || op == SHL
    || op == NOT || op == AND || op == OR || op == XOR || op == CMP
  }

  /** One instruction with its operands, by operand shape. */
  datatype Instruction =
    | Bare(op: Opcode)                       // CLF; PAD as the disassembler shows it
    | Jmp(addr: byte)
    | Jmpr(rb: Reg)
    | Data(rb: Reg, value: byte)
    | Jcond(mask: Mask, addr: byte)
    | RegPair(op: Opcode, ra: Reg, rb: Reg)

  /** The opcode of an instruction. */
  function OpOf(i: Instruction): Opcode {
    match i
    case Bare(op) => op
    case Jmp(_) => JMP
    case Jmpr(_) => JMPR
    case Data(_, _) => DATA
    case Jcond(_, _) => JCOND
    case RegPair(op, _, _) => op
  }

  /** The instructions that have an encoding: operand shapes match the opcode. */
  predicate WellFormed(i: Instruction) {
    match i
    case Bare(op) => op == CLF || op == PAD
    case RegPair(op, _, _) => IsRegPairOp(op)
    case _ => true
  }
}
