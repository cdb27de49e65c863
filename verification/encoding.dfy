/** How the assembler's encoder and the disassembler's decoder fit together, and
    how the processor reads the same bytes: decoding an encoded instruction gives
    it back, encoding a decoded byte gives the byte back up to the bits the
    opcode ignores, and disassembling an assembled program lists its
    instructions at their offsets. */
module Encoding {
  import opened Wrappers
  import opened MachCode
  import Assembler
  import Disasm
  import Cpu

  /** The high nibble reads back the opcode written into it. */
  lemma OpcodeOfCodeBits(op: Opcode)
    ensures OpcodeOfBits(CodeBits(op)) == op
  {
    OpcodeOfCode(op);
  }

  /** The instruction as the disassembler shows it: PAD without its ignored
      register operands. */
  function AsDisassembled(i: Instruction): (j: Instruction)
    ensures OpOf(j) == OpOf(i)
    ensures j != i <==> i.RegPair? && i.op == PAD
  {
    if i.RegPair? && i.op == PAD then Bare(PAD) else i
  }

  /** The opcode a decoded instruction carries is the one its high nibble names. */
  lemma DecodedOpcode(b0: byte, b1: byte, op: Opcode)
    requires b0 >> 4 == CodeBits(op)
    ensures OpOf(Disasm.Decode(b0, b1)) == op
  {
    OpcodeOfCodeBits(op);
    OpcodeOfCodeBits(OpOf(Disasm.Decode(b0, b1)));
  }

  lemma DecodeEncodeJmpr(rb: Reg, next: byte)
    ensures Disasm.Decode(Assembler.Encode(Jmpr(rb))[0], next) == Jmpr(rb)
  {
    var e := Assembler.Encode(Jmpr(rb));
    Assembler.EncodeFields(Jmpr(rb));
    DecodedOpcode(e[0], next, JMPR);
    RegFieldOfBits(rb);
  }

  lemma DecodeEncodeData(rb: Reg, v: byte)
    ensures var e := Assembler.Encode(Data(rb, v)); Disasm.Decode(e[0], e[1]) == Data(rb, v)
  {
    var e := Assembler.Encode(Data(rb, v));
    Assembler.EncodeFields(Data(rb, v));
    DecodedOpcode(e[0], e[1], DATA);
    RegFieldOfBits(rb);
  }

  lemma DecodeEncodeRegPair(op: Opcode, ra: Reg, rb: Reg, next: byte)
    requires IsRegPairOp(op)
    ensures Disasm.Decode(Assembler.Encode(RegPair(op, ra, rb))[0], next)
      == AsDisassembled(RegPair(op, ra, rb))
  {
    var e := Assembler.Encode(RegPair(op, ra, rb));
    Assembler.EncodeFields(RegPair(op, ra, rb));
    DecodedOpcode(e[0], next, op);
    RegFieldOfBits(ra);
    RegFieldOfBits(rb);
  }

  lemma DecodeEncodeJcond(m: Mask, addr: byte, next: byte)
    ensures var e := Assembler.Encode(Jcond(m, addr));
      Disasm.Decode(e[0], e[1]) == Jcond(m, addr)
  {
    var e := Assembler.Encode(Jcond(m, addr));
    Assembler.EncodeFields(Jcond(m, addr));
    DecodedOpcode(e[0], e[1], JCOND);
    var d := Disasm.Decode(e[0], e[1]);
    MaskFieldOfBits(m);
    MaskFieldOfBits(d.mask);
  }

  /** Decoding the bytes of an instruction gives the instruction back; `next`
      stands for whatever follows a one-byte instruction. */
  lemma DecodeEncode(i: Instruction, next: byte)
    requires WellFormed(i)
    ensures var e := Assembler.Encode(i);
      Disasm.Decode(e[0], if |e| == 2 then e[1] else next) == AsDisassembled(i)
  {
    var e := Assembler.Encode(i);
    Assembler.EncodeFields(i);
    match i
    case Jcond(m, addr) => DecodeEncodeJcond(m, addr, next);
    case Jmpr(rb) => DecodeEncodeJmpr(rb, next);
    case Data(rb, v) => DecodeEncodeData(rb, v);
    case RegPair(op, ra, rb) => DecodeEncodeRegPair(op, ra, rb, next);
    case Bare(op) => DecodedOpcode(e[0], next, op);
    case Jmp(_) => DecodedOpcode(e[0], e[1], JMP);
  }

  /** Encoding what a byte decodes to restores the byte, except for the bits the
      opcode ignores: CLF, PAD and JMP drop the whole low nibble, DATA and JMPR
      the RA field. The operand of a two-byte instruction is restored too. */
  lemma EncodeDecode(b0: byte, b1: byte)
    ensures var e := Assembler.Encode(Disasm.Decode(b0, b1));
      var op := OpOf(Disasm.Decode(b0, b1));
      && e[0] == (if op == CLF || op == PAD || op == JMP then b0 & 0xF0
                  else if op == DATA || op == JMPR then b0 & 0xF3
                  else b0)
      && (|e| == 2 ==> e[1] == b1)
  {
    var d := Disasm.Decode(b0, b1);
    RestoredByte(d, b0);
    Assembler.EncodeFields(d);
  }

  /** The first byte of an instruction whose fields were read from `b0`. */
  lemma RestoredByte(d: Instruction, b0: byte)
    requires WellFormed(d)
    requires CodeBits(OpOf(d)) == b0 >> 4
    requires d.Jmpr? || d.Data? || d.RegPair? ==> RegBits(d.rb) == b0 & 0x03
    requires d.RegPair? ==> RegBits(d.ra) == (b0 & 0x0C) >> 2
    requires d.Jcond? ==> MaskByte(d.mask) == b0 & 0x0F
    requires d.RegPair? ==> d.op != PAD
    ensures var op := OpOf(d);
      Assembler.Encode(d)[0] == (if op == CLF || op == PAD || op == JMP then b0 & 0xF0
                                 else if op == DATA || op == JMPR then b0 & 0xF3
                                 else b0)
  {
    var e := Assembler.Encode(d);
    Assembler.EncodeFields(d);
    match d
    case Bare(_) => SameHighNibble(e[0], b0);
    case Jmp(_) => SameHighNibble(e[0], b0);
    case Jmpr(_) => SameExceptRa(e[0], b0);
    case Data(_, _) => SameExceptRa(e[0], b0);
    case Jcond(_, _) => SameNibbles(e[0], b0);
    case RegPair(_, _, _) => SameFields(e[0], b0);
  }

  /** A byte with a clear low nibble is determined by its high nibble. */
  lemma SameHighNibble(x: byte, b: byte)
    requires x >> 4 == b >> 4 && x & 0x0F == 0
    ensures x == b & 0xF0
  {
  }

  /** A byte with a clear RA field is determined by its high nibble and RB field. */
  lemma SameExceptRa(x: byte, b: byte)
    requires x >> 4 == b >> 4 && x & 0x03 == b & 0x03 && x & 0x0C == 0
    ensures x == b & 0xF3
  {
  }

  /** A byte is determined by its two nibbles. */
  lemma SameNibbles(x: byte, b: byte)
    requires x >> 4 == b >> 4 && x & 0x0F == b & 0x0F
    ensures x == b
  {
  }

  /** A byte is determined by its high nibble, its RA field and its RB field. */
  lemma SameFields(x: byte, b: byte)
    requires x >> 4 == b >> 4 && (x & 0x0C) >> 2 == (b & 0x0C) >> 2 && x & 0x03 == b & 0x03
    ensures x == b
  {
  }

  // ---------------------------------------------------------------- conditions

  /** A mask is determined by its four bits. */
  lemma MaskBitsInjective(a: Mask, b: Mask)
    requires MaskBits(a) == MaskBits(b)
    ensures a == b
  {
    MaskOfBits(a);
    MaskOfBits(b);
  }

  /** The condition letters the disassembler prints read back as the same mask. */
  lemma ParseMaskOfSuffix(m: Mask)
    ensures Assembler.ParseMask(Disasm.FlagSuffix(m)) == Some(m)
  {
    var r := Assembler.ParseMask(Disasm.FlagSuffix(m));
    MaskBitsInjective(r.value, m);
  }

  /** Any accepted spelling of a condition, in any order and with repeats, is
      printed back in the one canonical order C, A, E, Z. */
  lemma SuffixOfParsedMask(letters: string)
    requires Assembler.ParseMask(letters).Some?
    ensures var s := Disasm.FlagSuffix(Assembler.ParseMask(letters).value);
      forall c :: c in s <==> c in letters
  {
  }

  // ---------------------------------------------------------------- programs

  /** The listing of a program: each instruction as the disassembler shows it, at
      the offset where its bytes start. */
  function Listing(prog: seq<Instruction>, addr: nat): (rows: seq<Disasm.Row>)
    requires forall k :: 0 <= k < |prog| ==> WellFormed(prog[k])
    ensures |rows| == |prog|
    ensures |rows| > 0 ==> rows[0] == Disasm.Row(addr, AsDisassembled(prog[0]))
    decreases |prog|
  {
    if |prog| == 0 then []
    else [Disasm.Row(addr, AsDisassembled(prog[0]))] + Listing(prog[1..], addr + Size(OpOf(prog[0])))
  }

  /** The bytes of an instruction, found at `off`, decode to the instruction. */
  lemma DecodeAt(code: seq<byte>, off: nat, i: Instruction)
    requires WellFormed(i)
    requires off + Size(OpOf(i)) <= |code|
    requires code[off..off + Size(OpOf(i))] == Assembler.Encode(i)
    ensures Disasm.Decode(code[off], Disasm.OperandAt(code, off)) == AsDisassembled(i)
  {
    var e := Assembler.Encode(i);
    assert code[off] == e[0];
    if |e| == 2 {
      assert code[off + 1] == e[1];
    }
    DecodeEncode(i, Disasm.OperandAt(code, off));
  }

  /** One step of the disassembler's walk over an encoded instruction. */
  lemma DisasmOne(code: seq<byte>, size: nat, off: nat, i: Instruction)
    requires WellFormed(i)
    requires off + Size(OpOf(i)) <= size <= |code|
    requires code[off..off + Size(OpOf(i))] == Assembler.Encode(i)
    ensures Disasm.DisasmFrom(code, size, off)
      == [Disasm.Row(off, AsDisassembled(i))] + Disasm.DisasmFrom(code, size, off + Size(OpOf(i)))
  {
    DecodeAt(code, off, i);
    Disasm.DisasmFromFirst(code, size, off);
    var d := Disasm.Decode(code[off], Disasm.OperandAt(code, off));
    assert d == AsDisassembled(i);
    var next := off + Size(OpOf(d));
    assert next == off + Size(OpOf(i));
  }

  lemma ListingCons(prog: seq<Instruction>, addr: nat)
    requires |prog| > 0
    requires forall k :: 0 <= k < |prog| ==> WellFormed(prog[k])
    ensures Listing(prog, addr)
      == [Disasm.Row(addr, AsDisassembled(prog[0]))] + Listing(prog[1..], addr + Size(OpOf(prog[0])))
  {
  }

  /** One instruction's row ahead of the rows of what follows it. */
  lemma DisasmStep(code: seq<byte>, size: nat, off: nat, i: Instruction, later: seq<Disasm.Row>)
    requires WellFormed(i)
    requires off + Size(OpOf(i)) <= size <= |code|
    requires code[off..off + Size(OpOf(i))] == Assembler.Encode(i)
    requires Disasm.DisasmFrom(code, size, off + Size(OpOf(i))) == later
    ensures Disasm.DisasmFrom(code, size, off) == [Disasm.Row(off, AsDisassembled(i))] + later
  {
    DisasmOne(code, size, off, i);
  }

  /** The two halves of a slice that holds `a + b`. */
  lemma SliceSplit<T>(code: seq<T>, off: nat, all: seq<T>, a: seq<T>, b: seq<T>)
    requires all == a + b
    requires off + |all| <= |code|
    requires code[off..off + |all|] == all
    ensures code[off..off + |a|] == a
    ensures code[off + |a|..off + |all|] == b
  {
    assert all[..|a|] == a && all[|a|..] == b;
    assert code[off..off + |a|] == all[..|a|];
    assert code[off + |a|..off + |all|] == all[|a|..];
  }

  /** The bytes of a nonempty program: its first instruction's, then the rest's. */
  lemma EncodeAllCons(prog: seq<Instruction>)
    requires |prog| > 0
    requires forall k :: 0 <= k < |prog| ==> WellFormed(prog[k])
    ensures Assembler.EncodeAll(prog) == Assembler.Encode(prog[0]) + Assembler.EncodeAll(prog[1..])
  {
  }

  /** Where a program's bytes sit, its first instruction's bytes come first and
      the rest's follow them. */
  lemma SplitEncoded(code: seq<byte>, off: nat, prog: seq<Instruction>)
    requires |prog| > 0
    requires forall k :: 0 <= k < |prog| ==> WellFormed(prog[k])
    requires off + |Assembler.EncodeAll(prog)| <= |code|
    requires code[off..off + |Assembler.EncodeAll(prog)|] == Assembler.EncodeAll(prog)
    ensures var n := Size(OpOf(prog[0]));
      && n + |Assembler.EncodeAll(prog[1..])| == |Assembler.EncodeAll(prog)|
      && code[off..off + n] == Assembler.Encode(prog[0])
      && code[off + n..off + |Assembler.EncodeAll(prog)|] == Assembler.EncodeAll(prog[1..])
  {
    EncodeAllCons(prog);
    SliceSplit(code, off, Assembler.EncodeAll(prog), Assembler.Encode(prog[0]), Assembler.EncodeAll(prog[1..]));
  }

  /** The walk over a program's bytes lists the program once the walk from its
      second instruction lists the rest. */
  lemma ListingStep(code: seq<byte>, size: nat, off: nat, prog: seq<Instruction>)
    requires |prog| > 0
    requires forall k :: 0 <= k < |prog| ==> WellFormed(prog[k])
    requires off + |Assembler.EncodeAll(prog)| == size <= |code|
    requires code[off..size] == Assembler.EncodeAll(prog)
    requires var n := Size(OpOf(prog[0]));
      Disasm.DisasmFrom(code, size, off + n) == Listing(prog[1..], off + n)
    ensures Disasm.DisasmFrom(code, size, off) == Listing(prog, off)
  {
    var n := Size(OpOf(prog[0]));
    SplitEncoded(code, off, prog);
    DisasmStep(code, size, off, prog[0], Listing(prog[1..], off + n));
    ListingCons(prog, off);
  }

  /** Disassembling the bytes of a program, starting where they start and
      stopping where they end, lists the program's instructions at their
      offsets: the walk lands on every instruction boundary and on nothing else. */
  lemma {:induction false} DisasmEncoded(code: seq<byte>, size: nat, off: nat, prog: seq<Instruction>, bytes: seq<byte>)
    requires forall k :: 0 <= k < |prog| ==> WellFormed(prog[k])
    requires bytes == Assembler.EncodeAll(prog)
    requires off + |bytes| == size <= |code|
    requires code[off..size] == bytes
    ensures Disasm.DisasmFrom(code, size, off) == Listing(prog, off)
    decreases |prog|
  {
    if |prog| > 0 {
      var n := Size(OpOf(prog[0]));
      var rest := Assembler.EncodeAll(prog[1..]);
      SplitEncoded(code, off, prog);
      DisasmEncoded(code, size, off + n, prog[1..], rest);
      ListingStep(code, size, off, prog);
    } else {
      assert Disasm.DisasmFrom(code, off, off) == [];
    }
  }

  /** The disassembler's listing of an assembled program, read from a zeroed
      256-byte buffer, is the program. */
  lemma DisassembleAssembled(prog: seq<Instruction>)
    requires forall k :: 0 <= k < |prog| ==> WellFormed(prog[k])
    requires |Assembler.EncodeAll(prog)| <= 256
    ensures var e := Assembler.EncodeAll(prog);
      Disasm.Disassemble(e + seq(256 - |e|, _ => 0 as bv8), |e|) == Listing(prog, 0)
  {
    var e := Assembler.EncodeAll(prog);
    var buf := e + seq(256 - |e|, _ => 0 as bv8);
    assert buf[0..|e|] == e;
    DisasmEncoded(buf, |e|, 0, prog, e);
  }

  /** The processor and the disassembler read the same opcode from a byte. */
  lemma CpuDecodeAgrees(b: byte, next: byte)
    ensures Cpu.Decode(b) == OpOf(Disasm.Decode(b, next))
  {
    OpcodeOfCode(Cpu.Decode(b));
    OpcodeOfCode(OpOf(Disasm.Decode(b, next)));
  }
}
