/** The disassembler: walks a code buffer from offset 0, decoding the instruction
    at each offset and moving on by that instruction's size, so that the operand
    byte of a two-byte instruction is never read as an instruction. */
module Disasm {
  import opened MachCode

  /** The instruction that the byte `b0`, followed by `b1`, encodes. The high
      nibble selects the opcode; the low nibble holds the register fields or a
      conditional jump's mask; `b1` is used only by the two-byte instructions. */
  function Decode(b0: byte, b1: byte): (i: Instruction)
    ensures WellFormed(i)
    ensures CodeBits(OpOf(i)) == b0 >> 4
    ensures i.Jmp? || i.Jcond? ==> i.addr == b1
    ensures i.Data? ==> i.value == b1
    ensures i.Jmpr? || i.Data? || i.RegPair? ==> RegBits(i.rb) == b0 & 0x03
    ensures i.RegPair? ==> RegBits(i.ra) == (b0 & 0x0C) >> 2
    ensures i.Jcond? ==> MaskByte(i.mask) == b0 & 0x0F
    ensures i.RegPair? ==> i.op != PAD
  {
    var op := OpcodeOfBits(b0 >> 4);
    var rb := RegField(b0 & 0x03);
    match op
    case DATA => Data(rb, b1)
    case JMP => Jmp(b1)
    case JMPR => Jmpr(rb)
    case JCOND => Jcond(MaskField(b0 & 0x0F), b1)
    case CLF => Bare(CLF)
    case PAD => Bare(PAD)
    case _ => RegPair(op, RegField((b0 & 0x0C) >> 2), rb)
  }

  /** The letters shown after a conditional jump's "J": one per set bit of the
      mask, looked up in the flag name table, in the order C, A, E, Z. */
  function FlagSuffix(m: Mask): (s: string)
    ensures |s| <= 4
    ensures forall k :: 0 <= k < |s| ==> s[k] in "CAEZ"
    ensures ('C' in s, 'A' in s, 'E' in s, 'Z' in s) == MaskBits(m)
  {
    var bits := MaskBits(m);
    var s := FlagName(8 * (m / 8 % 2)) + FlagName(4 * (m / 4 % 2)) + FlagName(2 * (m / 2 % 2)) + FlagName(m % 2);
    assert s == Letter(bits.0, 'C') + Letter(bits.1, 'A') + Letter(bits.2, 'E') + Letter(bits.3, 'Z');
    LettersIn(bits.0, bits.1, bits.2, bits.3);
    s
  }

  /** The one-letter name of a set flag bit, nothing for a clear one. */
  function Letter(on: bool, c: char): (s: string)
    ensures |s| <= 1 && (c in s <==> on)
    ensures forall k :: 0 <= k < |s| ==> s[k] == c
  {
    if on then [c] else []
  }

  /** The letters of four flag bits, in order C, A, E, Z, name exactly the set bits. */
  lemma LettersIn(c: bool, a: bool, e: bool, z: bool)
    ensures var s := Letter(c, 'C') + Letter(a, 'A') + Letter(e, 'E') + Letter(z, 'Z');
      && |s| <= 4
      && (forall k :: 0 <= k < |s| ==> s[k] in "CAEZ")
      && ('C' in s, 'A' in s, 'E' in s, 'Z' in s) == (c, a, e, z)
  {
    var s := Letter(c, 'C') + Letter(a, 'A') + Letter(e, 'E') + Letter(z, 'Z');
    assert forall ch :: ch in s <==> ch in Letter(c, 'C') || ch in Letter(a, 'A') || ch in Letter(e, 'E') || ch in Letter(z, 'Z');
  }

  /** The mnemonic the disassembler shows for an instruction. */
  function Mnemonic(i: Instruction): (s: string)
    ensures |s| > 0 && s[0] == Name(OpOf(i))[0]
    ensures !i.Jcond? ==> s == Name(OpOf(i))
    ensures i.Jcond? ==> s[0] == 'J' && (|s| == 1 || s[1] != 'M')
  {
    match i
    case Jcond(m, _) => Name(JCOND) + FlagSuffix(m)
    case _ => Name(OpOf(i))
  }

  /** The byte after offset `off`, where bytes past the buffer read as zero. */
  function OperandAt(code: seq<byte>, off: nat): (b: byte)
    ensures off + 1 < |code| ==> b == code[off + 1]
    ensures off + 1 >= |code| ==> b == 0
  {
    if off + 1 < |code| then code[off + 1] else 0
  }

  /** One line of a listing: an instruction and the offset it starts at. */
  datatype Row = Row(addr: nat, instr: Instruction)

  /** `disasm_dis` from offset `off`: a row for each instruction that starts
      below `size`, each offset being the previous one plus its instruction's
      size. */
  function DisasmFrom(code: seq<byte>, size: nat, off: nat): (rows: seq<Row>)
    requires size <= |code|
    ensures off >= size <==> rows == []
    ensures |rows| > 0 ==> rows[0].addr == off
    decreases size - off
  {
    if off >= size then []
    else
      var i := Decode(code[off], OperandAt(code, off));
      [Row(off, i)] + DisasmFrom(code, size, off + Size(OpOf(i)))
  }

  /** A row at or after `off` and below `size` that holds the decoding of the
      bytes at its offset. */
  predicate RowDecodes(code: seq<byte>, size: nat, off: nat, r: Row)
    requires size <= |code|
  {
    off <= r.addr < size && r.instr == Decode(code[r.addr], OperandAt(code, r.addr))
  }

  /** The rows of a walk: each lies in `[off, size)` and holds the decoding of
      the bytes at its offset. */
  lemma {:induction false} DisasmFromDecodes(code: seq<byte>, size: nat, off: nat)
    requires size <= |code|
    ensures forall k :: 0 <= k < |DisasmFrom(code, size, off)| ==>
      RowDecodes(code, size, off, DisasmFrom(code, size, off)[k])
    decreases size - off
  {
    if off < size {
      var i := Decode(code[off], OperandAt(code, off));
      var next := off + Size(OpOf(i));
      DisasmFromDecodes(code, size, next);
      var rest := DisasmFrom(code, size, next);
      var rows := DisasmFrom(code, size, off);
      DisasmFromFirst(code, size, off);
      forall k | 0 <= k < |rows| ensures RowDecodes(code, size, off, rows[k]) {
        if k > 0 {
          assert rows[k] == rest[k - 1];
          assert RowDecodes(code, size, next, rest[k - 1]);
        }
      }
    }
  }

  /** Row `r` starts where the instruction of row `q` ends. */
  predicate Follows(q: Row, r: Row) {
    r.addr == q.addr + Size(OpOf(q.instr))
  }

  /** The rows of a walk are chained: each next row starts where the previous
      instruction ends, and the last instruction reaches `size`. */
  lemma {:induction false} DisasmFromChained(code: seq<byte>, size: nat, off: nat)
    requires size <= |code|
    ensures forall k :: 0 < k < |DisasmFrom(code, size, off)| ==>
      Follows(DisasmFrom(code, size, off)[k - 1], DisasmFrom(code, size, off)[k])
    ensures var rows := DisasmFrom(code, size, off);
      |rows| > 0 ==> rows[|rows| - 1].addr + Size(OpOf(rows[|rows| - 1].instr)) >= size
    decreases size - off
  {
    if off < size {
      var i := Decode(code[off], OperandAt(code, off));
      var next := off + Size(OpOf(i));
      DisasmFromChained(code, size, next);
      var rest := DisasmFrom(code, size, next);
      var rows := DisasmFrom(code, size, off);
      DisasmFromFirst(code, size, off);
      forall k | 0 < k < |rows| ensures Follows(rows[k - 1], rows[k]) {
        assert rows[k] == rest[k - 1];
        if k > 1 {
          assert rows[k - 1] == rest[k - 2];
          assert Follows(rest[k - 2], rest[k - 1]);
        }
      }
      if |rest| > 0 {
        assert rows[|rows| - 1] == rest[|rest| - 1];
      }
    }
  }

  /** The walk from an offset below `size`: that offset's row, then the walk
      from the next instruction. */
  lemma DisasmFromFirst(code: seq<byte>, size: nat, off: nat)
    requires size <= |code| && off < size
    ensures var i := Decode(code[off], OperandAt(code, off));
      DisasmFrom(code, size, off) == [Row(off, i)] + DisasmFrom(code, size, off + Size(OpOf(i)))
  {
  }

  /** The listing of the first `size` bytes of a code buffer. */
  function Disassemble(code: seq<byte>, size: nat): (rows: seq<Row>)
    requires size <= |code|
    ensures size > 0 ==> |rows| > 0 && rows[0].addr == 0
  {
    DisasmFrom(code, size, 0)
  }
}
