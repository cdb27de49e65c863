/** The assembler: reads the token stream, translates each instruction with its
    operands into one or two bytes, and stops once the code passes 256 bytes,
    keeping the first 256. Mnemonics are found in a 26-bucket hash table filled
    from the opcode table; conditional jumps are recognised before the lookup,
    since their names carry the condition letters. */
module Assembler {
  import opened Wrappers
  import opened Text
  import opened MachCode
  import opened AsmLexer
  import Chtbl

  /** One bucket per letter of the alphabet. */
  const BUCKETS: nat := 26
  /** No more than 256 bytes are kept. */
  const MAX_CODE: nat := 256

  /** The fatal errors, each of which aborts the whole assembly. */
  datatype AsmError =
    | LexFailure(e: LexError)                       // misplaced character
    | Expected(want: Kind, got: Current)            // token of the wrong kind
    | InvalidInstruction(text: string, line: nat)   // unknown mnemonic or condition letter
    | InvalidAddress(text: string, line: nat)       // unreadable number or one above 0xFF
    | BadRegister(text: string, line: nat)          // not R0..R3

  // ---------------------------------------------------------------- mnemonic table

  /** The bucket hash: the position in the alphabet of the first letter. Names
      not starting with a letter are sent to bucket 0; no instruction token
      starts with anything else. */
  function HashName(name: string): (h: nat)
    ensures |name| > 0 && IsAlpha(name[0]) ==> h < BUCKETS
  {
    if |name| > 0 && IsAlpha(name[0]) then ToLower(name[0]) as int - 'a' as int else 0
  }

  function NameOf(info: InstrInfo): string { info.name }

  /** The table row of the opcode called `name`, if there is one. */
  function MnemonicRow(name: string): (row: Option<InstrInfo>)
    ensures row.Some? ==> row.value.name == name && row.value.code < INSTR_COUNT
    ensures row.Some? ==> mcode[row.value.code] == row.value
    ensures row.Some? <==> exists k :: 0 <= k < |mcode| && mcode[k].name == name
  {
    TableOrdered();
    match RowIndex(name, 0)
    case Some(k) => Some(mcode[k])
    case None => None
  }

  /** The first row at index `from` or later whose name is `name`. */
  function RowIndex(name: string, from: nat): (r: Option<nat>)
    requires from <= |mcode|
    ensures r.Some? ==> from <= r.value < |mcode| && mcode[r.value].name == name
    ensures r.None? ==> forall k :: from <= k < |mcode| ==> mcode[k].name != name
    decreases |mcode| - from
  {
    if from == |mcode| then None
    else if mcode[from].name == name then Some(from)
    else RowIndex(name, from + 1)
  }

  /** A mnemonic table: looking up any name gives that name's opcode-table row. */
  ghost predicate IsInstrTable(tbl: Chtbl.Table<InstrInfo, string>) {
    |tbl.table| > 0 && forall name :: Chtbl.Lookup(tbl, name) == MnemonicRow(name)
  }

  /** The mnemonic table after the first `i` rows of the opcode table went in:
      exactly those rows' names are found, each giving its row. */
  ghost predicate HoldsFirstRows(tbl: Chtbl.Table<InstrInfo, string>, i: nat) {
    && i <= INSTR_COUNT
    && Chtbl.Valid(tbl) && tbl.size == i && tbl.key == NameOf && |tbl.table| == BUCKETS
    && (forall k :: 0 <= k < i ==> Chtbl.Lookup(tbl, mcode[k].name) == Some(mcode[k]))
    && (forall name :: (forall k :: 0 <= k < i ==> mcode[k].name != name) ==>
          Chtbl.Lookup(tbl, name).None?)
  }

  /** Inserting the next row keeps the table holding a prefix of the rows. */
  lemma InsertNextRow(tbl: Chtbl.Table<InstrInfo, string>, i: nat)
    requires HoldsFirstRows(tbl, i) && i < INSTR_COUNT
    ensures Chtbl.Insert(tbl, mcode[i]).0 == 0
    ensures HoldsFirstRows(Chtbl.Insert(tbl, mcode[i]).1, i + 1)
  {
    NamesDistinct();
    TableOrdered();
    var row := mcode[i];
    assert tbl.key(row) == row.name;
    assert Chtbl.Lookup(tbl, row.name).None?;
    Chtbl.InsertKeepsValid(tbl, row);
    Chtbl.InsertThenLookup(tbl, row);
    var next := Chtbl.Insert(tbl, row).1;
    forall k | 0 <= k < i + 1 ensures Chtbl.Lookup(next, mcode[k].name) == Some(mcode[k]) {
      if k < i {
        Chtbl.InsertKeepsOthers(tbl, row, mcode[k].name);
      }
    }
    forall name | forall k :: 0 <= k < i + 1 ==> mcode[k].name != name
      ensures Chtbl.Lookup(next, name).None?
    {
      Chtbl.InsertKeepsOthers(tbl, row, name);
    }
  }

  /** Building the mnemonic table: a 26-bucket table keyed by name, hashed by
      first letter, with every row of the opcode table inserted in order. */
  method BuildInstrTable() returns (tbl: Chtbl.Table<InstrInfo, string>)
    ensures Chtbl.Valid(tbl) && tbl.size == INSTR_COUNT
    ensures IsInstrTable(tbl)
  {
    tbl := Chtbl.Init(BUCKETS, HashName, NameOf, false);
    var i := 0;
    while i < INSTR_COUNT
      invariant i <= INSTR_COUNT && HoldsFirstRows(tbl, i)
    {
      InsertNextRow(tbl, i);
      tbl := Chtbl.Insert(tbl, mcode[i]).1;
      i := i + 1;
    }
    TableOrdered();
    forall name ensures Chtbl.Lookup(tbl, name) == MnemonicRow(name) {
      var row := MnemonicRow(name);
      if row.Some? {
        var k :| 0 <= k < |mcode| && mcode[k].name == name;
        assert mcode[k] == row.value by {
          assert mcode[k] == mcode[row.value.code];
        }
      }
    }
  }

  // ---------------------------------------------------------------- parser

  /** `e_match`: takes the current token when it has kind `k`. Taking it makes the
      lexer read the next one, so a lexical error right behind it surfaces here. */
  function Accept(lx: Lexed, pos: nat, k: Kind): (r: Result<(Token, nat), AsmError>)
    ensures r.Success? <==>
      pos < |lx.tokens| && lx.tokens[pos].kind == k && (pos + 1 < |lx.tokens| || lx.error.None?)
    ensures r.Success? ==> r.value == (lx.tokens[pos], pos + 1)
    ensures r.Failure? && pos < |lx.tokens| && lx.tokens[pos].kind == k ==>
      r.error == LexFailure(lx.error.value)
  {
    match Match(lx, pos, k)
    case None => Failure(Expected(k, CurrentAt(lx, pos)))
    case Some(p) =>
      if p == |lx.tokens| && lx.error.Some? then Failure(LexFailure(lx.error.value))
      else Success((lx.tokens[pos], p))
  }

  /** The number a literal denotes: hexadecimal when its second character is 'X'
      (as in "0X1F"), decimal otherwise. */
  function LiteralValue(text: string): (v: Option<int>)
    ensures v.Some? ==> |text| > 0
  {
    if |text| > 1 && text[1] == 'X' then
      match ScanHex(text)
      case Some(n) => Some(n)
      case None => None
    else ScanDecimal(text)
  }

  /** A number in 0..255 as a byte, built from its binary expansion. */
  function ToByte(v: int): (b: byte)
    requires 0 <= v < 256
    ensures b as int == v
    decreases v
  {
    if v == 0 then 0
    else
      var high := ToByte(v / 2);
      assert high < 128;
      (high << 1) | (if v % 2 == 1 then 1 else 0)
  }

  /** `parse_address`: a literal token whose value fits a byte. The value is read
      into an unsigned variable, so a negative one is rejected as too large. */
  function ParseAddress(lx: Lexed, pos: nat): (r: Result<(byte, nat), AsmError>)
    ensures r.Success? ==>
      && pos < |lx.tokens| && lx.tokens[pos].kind == LITERAL && r.value.1 == pos + 1
      && LiteralValue(lx.tokens[pos].text) == Some(r.value.0 as int)
    ensures (Accept(lx, pos, LITERAL).Success? && LiteralValue(lx.tokens[pos].text).Some?
             && 0 <= LiteralValue(lx.tokens[pos].text).value < 256) ==> r.Success?
  {
    var a :- Accept(lx, pos, LITERAL);
    var t := a.0;
    var v := LiteralValue(t.text);
    if v.None? || v.value < 0 || v.value > 0xFF then Failure(InvalidAddress(t.text, t.line))
    else Success((ToByte(v.value), a.1))
  }

  /** `parse_register`: a register token 'R' followed by a decimal number 0..3. */
  function ParseRegister(lx: Lexed, pos: nat): (r: Result<(Reg, nat), AsmError>)
    ensures r.Success? ==>
      && pos < |lx.tokens| && lx.tokens[pos].kind == REGISTER && r.value.1 == pos + 1
      && |lx.tokens[pos].text| > 0 && lx.tokens[pos].text[0] == 'R'
      && ScanDecimal(lx.tokens[pos].text[1..]) == Some(r.value.0 as int)
  {
    var a :- Accept(lx, pos, REGISTER);
    var (t, p) := a;
    if |t.text| == 0 || t.text[0] != 'R' then Failure(BadRegister(t.text, t.line))
    else
      match ScanDecimal(t.text[1..])
      case None => Failure(BadRegister(t.text, t.line))
      case Some(v) =>
        if v < 0 || v > 3 then Failure(BadRegister(t.text, t.line))
        else Success((v, p))
  }

  /** The four condition letters among `letters`, or nothing when another letter
      occurs. Letters may repeat and come in any order. */
  function ScanFlags(letters: string): (r: Option<(bool, bool, bool, bool)>)
    ensures r.Some? <==> forall i :: 0 <= i < |letters| ==> letters[i] in "CAEZ"
    ensures r.Some? ==> r.value == ('C' in letters, 'A' in letters, 'E' in letters, 'Z' in letters)
  {
    if |letters| == 0 then Some((false, false, false, false))
    else
      var c := letters[0];
      match ScanFlags(letters[1..])
      case None => None
      case Some(f) =>
        assert letters == [c] + letters[1..];
        if c == 'C' then Some((true, f.1, f.2, f.3))
        else if c == 'A' then Some((f.0, true, f.2, f.3))
        else if c == 'E' then Some((f.0, f.1, true, f.3))
        else if c == 'Z' then Some((f.0, f.1, f.2, true))
        else None
  }

  /** The condition mask of a conditional jump from the letters after its 'J':
      C sets 8, A sets 4, E sets 2 and Z sets 1. */
  function ParseMask(letters: string): (r: Option<Mask>)
    ensures r.Some? <==> forall i :: 0 <= i < |letters| ==> letters[i] in "CAEZ"
    ensures r.Some? ==>
      MaskBits(r.value) == ('C' in letters, 'A' in letters, 'E' in letters, 'Z' in letters)
  {
    match ScanFlags(letters)
    case None => None
    case Some(f) => Some(MaskOf(f.0, f.1, f.2, f.3))
  }

  /** Whether the token text `text` names instruction `i`: a conditional jump's
      text is 'J' and its condition letters, any other's is its table name. */
  predicate NamedBy(i: Instruction, text: string) {
    match i
    case Jcond(m, _) => |text| > 0 && text[0] == 'J' && ParseMask(text[1..]) == Some(m)
    case _ => Name(OpOf(i)) == text
  }

  /** The instructions the assembler produces: PAD is always written with its two
      register operands. */
  predicate Assemblable(i: Instruction) {
    WellFormed(i) && i != Bare(PAD)
  }

  /** The operands of `i` are the tokens from `p` up to `q`: each register operand
      is a register token naming it, each address or value a literal token
      denoting it, in the order RA, RB, then the address or value. */
  predicate OperandsAt(i: Instruction, lx: Lexed, p: nat, q: nat) {
    match i
    case Bare(_) => q == p
    case Jmp(a) => ParseAddress(lx, p) == Success((a, q))
    case Jmpr(rb) => ParseRegister(lx, p) == Success((rb, q))
    case Data(rb, v) => ParseRegister(lx, p) == Success((rb, p + 1)) && ParseAddress(lx, p + 1) == Success((v, q))
    case Jcond(_, a) => ParseAddress(lx, p) == Success((a, q))
    case RegPair(_, ra, rb) =>
      ParseRegister(lx, p) == Success((ra, p + 1)) && ParseRegister(lx, p + 1) == Success((rb, q))
  }

  /** DATA's operands: the destination register, then the value. */
  function ParseDataOperands(lx: Lexed, pos: nat): (r: Result<(Instruction, nat), AsmError>)
    ensures r.Success? <==> ParseRegister(lx, pos).Success? && ParseAddress(lx, pos + 1).Success?
    ensures r.Success? ==> r.value.0.Data? && r.value.1 == pos + 2 <= |lx.tokens|
    ensures r.Success? ==> OperandsAt(r.value.0, lx, pos, r.value.1)
    ensures ParseRegister(lx, pos).Failure? ==> r.Failure? && r.error == ParseRegister(lx, pos).error
  {
    var b :- ParseRegister(lx, pos);
    var a :- ParseAddress(lx, b.1);
    Success((Data(b.0, a.0), a.1))
  }

  /** The two register operands RA, RB of `op`. */
  function ParseRegPair(op: Opcode, lx: Lexed, pos: nat): (r: Result<(Instruction, nat), AsmError>)
    ensures r.Success? <==> ParseRegister(lx, pos).Success? && ParseRegister(lx, pos + 1).Success?
    ensures r.Success? ==> r.value.0.RegPair? && r.value.0.op == op
    ensures r.Success? ==> r.value.1 == pos + 2 <= |lx.tokens|
    ensures r.Success? ==> OperandsAt(r.value.0, lx, pos, r.value.1)
    ensures ParseRegister(lx, pos).Failure? ==> r.Failure? && r.error == ParseRegister(lx, pos).error
  {
    var a :- ParseRegister(lx, pos);
    var b :- ParseRegister(lx, a.1);
    Success((RegPair(op, a.0, b.0), b.1))
  }

  /** The operands that follow opcode `op`. */
  function ParseOperands(op: Opcode, lx: Lexed, pos: nat): (r: Result<(Instruction, nat), AsmError>)
    requires op != JCOND
    ensures r.Success? ==> pos < r.value.1 <= |lx.tokens| || (op == CLF && r.value.1 == pos)
    ensures r.Success? ==> OpOf(r.value.0) == op && OperandsAt(r.value.0, lx, pos, r.value.1)
    ensures r.Success? && op == CLF ==> r.value.0 == Bare(CLF)
    ensures r.Success? && op == JMP ==> r.value.0.Jmp?
    ensures r.Success? && op == JMPR ==> r.value.0.Jmpr?
    ensures r.Success? && op == DATA ==> r.value.0.Data?
    ensures r.Success? && op !in {CLF, JMP, JMPR, DATA} ==> r.value.0.RegPair? && r.value.0.op == op
    ensures op == CLF ==> r.Success?
    ensures op == JMP ==> (r.Success? <==> ParseAddress(lx, pos).Success?)
    ensures op == JMPR ==> (r.Success? <==> ParseRegister(lx, pos).Success?)
  {
    if op == CLF then Success((Bare(CLF), pos))
    else if op == JMP then
      var a :- ParseAddress(lx, pos);
      Success((Jmp(a.0), a.1))
    else if op == JMPR then
      var b :- ParseRegister(lx, pos);
      Success((Jmpr(b.0), b.1))
    else if op == DATA then ParseDataOperands(lx, pos)
    else ParseRegPair(op, lx, pos)
  }

  /** Whether an instruction name is read as a conditional jump: a 'J' not
      followed by 'M', so that JMP and JMPR are looked up instead. */
  predicate CondName(text: string) {
    |text| > 0 && text[0] == 'J' && (|text| == 1 || text[1] != 'M')
  }

  /** `parse_instr`: one instruction token and its operands. */
  function ParseInstr(lx: Lexed, pos: nat): (r: Result<(Instruction, nat), AsmError>)
    ensures r.Success? ==> pos < r.value.1 <= |lx.tokens|
    ensures r.Success? ==> lx.tokens[pos].kind == INSTR && NamedBy(r.value.0, lx.tokens[pos].text)
    ensures r.Success? ==> Assemblable(r.value.0)
    ensures r.Success? ==> OperandsAt(r.value.0, lx, pos + 1, r.value.1)
    ensures Accept(lx, pos, INSTR).Failure? ==> r.Failure? && r.error == Accept(lx, pos, INSTR).error
    ensures Accept(lx, pos, INSTR).Success? ==> var t := lx.tokens[pos];
      && (CondName(t.text) && ParseMask(t.text[1..]).None? ==> r == Failure(InvalidInstruction(t.text, t.line)))
      && (!CondName(t.text) && MnemonicRow(t.text).None? ==> r == Failure(InvalidInstruction(t.text, t.line)))
  {
    var a :- Accept(lx, pos, INSTR);
    var (t, p) := a;
    if CondName(t.text) then
      match ParseMask(t.text[1..])
      case None => Failure(InvalidInstruction(t.text, t.line))
      case Some(m) =>
        var b :- ParseAddress(lx, p);
        Success((Jcond(m, b.0), b.1))
    else
      match MnemonicRow(t.text)
      case None => Failure(InvalidInstruction(t.text, t.line))
      case Some(info) =>
        var op := OpcodeOf(info.code);
        NameFromTable(op);
        assert Name(op) == t.text;
        assert op != JCOND;
        ParseOperands(op, lx, p)
  }

  lemma AddressOperandComplete(lx: Lexed, p: nat, a: byte, q: nat)
    requires ParseAddress(lx, p) == Success((a, q))
    ensures ParseOperands(JMP, lx, p) == Success((Jmp(a), q))
  {
  }

  lemma RegisterOperandComplete(lx: Lexed, p: nat, rb: Reg, q: nat)
    requires ParseRegister(lx, p) == Success((rb, q))
    ensures ParseOperands(JMPR, lx, p) == Success((Jmpr(rb), q))
  {
  }

  lemma DataOperandsComplete(lx: Lexed, p: nat, rb: Reg, v: byte, q: nat)
    requires ParseRegister(lx, p) == Success((rb, p + 1)) && ParseAddress(lx, p + 1) == Success((v, q))
    ensures ParseOperands(DATA, lx, p) == Success((Data(rb, v), q))
  {
  }

  lemma RegPairComplete(op: Opcode, lx: Lexed, p: nat, ra: Reg, rb: Reg, q: nat)
    requires IsRegPairOp(op)
    requires ParseRegister(lx, p) == Success((ra, p + 1)) && ParseRegister(lx, p + 1) == Success((rb, q))
    ensures ParseOperands(op, lx, p) == Success((RegPair(op, ra, rb), q))
  {
  }

  /** The operands of an assemblable instruction other than a conditional jump,
      found behind its opcode, are read back as that instruction. */
  lemma ParseOperandsComplete(i: Instruction, lx: Lexed, p: nat, q: nat)
    requires Assemblable(i) && OpOf(i) != JCOND
    requires OperandsAt(i, lx, p, q)
    ensures ParseOperands(OpOf(i), lx, p) == Success((i, q))
  {
    match i
    case Bare(op) =>
      assert op == CLF;
    case Jmp(a) =>
      AddressOperandComplete(lx, p, a, q);
    case Jmpr(rb) =>
      RegisterOperandComplete(lx, p, rb, q);
    case Data(rb, v) =>
      DataOperandsComplete(lx, p, rb, v, q);
    case RegPair(op, ra, rb) =>
      RegPairComplete(op, lx, p, ra, rb, q);
  }

  lemma CondJumpComplete(i: Instruction, lx: Lexed, pos: nat, q: nat)
    requires Accept(lx, pos, INSTR).Success? && i.Jcond?
    requires NamedBy(i, lx.tokens[pos].text)
    requires ParseAddress(lx, pos + 1) == Success((i.addr, q))
    ensures ParseInstr(lx, pos) == Success((i, q))
  {
    var t := lx.tokens[pos];
    MaskTextIsCondName(t.text, i.mask);
    assert i == Jcond(i.mask, i.addr);
  }

  /** 'J' followed by condition letters is never read as a table name. */
  lemma MaskTextIsCondName(text: string, m: Mask)
    requires |text| > 0 && text[0] == 'J' && ParseMask(text[1..]) == Some(m)
    ensures CondName(text)
  {
    if |text| > 1 { assert text[1..][0] == text[1]; }
  }

  /** Every opcode but the conditional jump is found in the table under its name. */
  lemma MnemonicRowOf(op: Opcode)
    requires op != JCOND
    ensures MnemonicRow(Name(op)) == Some(mcode[Code(op)])
    ensures mcode[Code(op)].code == Code(op)
    ensures !CondName(Name(op))
  {
    NameFromTable(op);
    TableOrdered();
    NamesDistinct();
  }

  /** An instruction token spelling a table name other than a condition jump's
      is read by the operand parser of that opcode, whatever follows it. */
  lemma TableNameOperands(op: Opcode, lx: Lexed, pos: nat)
    requires Accept(lx, pos, INSTR).Success? && op != JCOND
    requires Name(op) == lx.tokens[pos].text
    ensures ParseInstr(lx, pos) == ParseOperands(op, lx, pos + 1)
  {
    MnemonicRowOf(op);
    OpcodeOfCode(op);
    assert OpcodeOf(mcode[Code(op)].code) == op;
  }

  lemma TableNameComplete(op: Opcode, lx: Lexed, pos: nat, i: Instruction, q: nat)
    requires Accept(lx, pos, INSTR).Success? && op != JCOND
    requires Name(op) == lx.tokens[pos].text
    requires ParseOperands(op, lx, pos + 1) == Success((i, q))
    ensures ParseInstr(lx, pos) == Success((i, q))
  {
    MnemonicRowOf(op);
    OpcodeOfCode(op);
    assert OpcodeOf(mcode[Code(op)].code) == op;
  }

  /** An instruction token that names an assemblable instruction, followed by its
      operand tokens, is read back as that instruction: the parser accepts every
      instruction written with its table name or its condition letters. */
  lemma ParseInstrComplete(i: Instruction, lx: Lexed, pos: nat, q: nat)
    requires Accept(lx, pos, INSTR).Success?
    requires Assemblable(i) && NamedBy(i, lx.tokens[pos].text)
    requires OperandsAt(i, lx, pos + 1, q)
    ensures ParseInstr(lx, pos) == Success((i, q))
  {
    var t := lx.tokens[pos];
    if i.Jcond? {
      CondJumpComplete(i, lx, pos, q);
    } else {
      ParseOperandsComplete(i, lx, pos + 1, q);
      TableNameComplete(OpOf(i), lx, pos, i, q);
    }
  }

  // ---------------------------------------------------------------- encoder

  /** The bytes of one instruction: the opcode in the high nibble of the first
      byte, register fields RA in bits 3-2 and RB in bits 1-0 (or the condition
      mask in the low nibble), and the address or value as a second byte. */
  function Encode(i: Instruction): (r: seq<byte>)
    requires WellFormed(i)
    ensures |r| == Size(OpOf(i))
  {
    match i
    case Bare(op) => [CodeBits(op) << 4]
    case Jmp(addr) => [CodeBits(JMP) << 4, addr]
    case Jmpr(rb) => [(CodeBits(JMPR) << 4) | RegBits(rb)]
    case Data(rb, value) => [(CodeBits(DATA) << 4) | RegBits(rb), value]
    case Jcond(mask, addr) => [(CodeBits(JCOND) << 4) | MaskByte(mask), addr]
    case RegPair(op, ra, rb) => [(CodeBits(op) << 4) | (RegBits(ra) << 2) | RegBits(rb)]
  }

  /** Where each operand of an instruction lands in its bytes: the opcode in the
      high nibble, RB in bits 1-0, RA in bits 3-2, a mask in the low nibble, an
      address or value in the second byte. */
  lemma EncodeFields(i: Instruction)
    requires WellFormed(i)
    ensures var r := Encode(i);
      && r[0] >> 4 == CodeBits(OpOf(i))
      && ((i.Jmpr? || i.Data? || i.RegPair?) ==> r[0] & 0x03 == RegBits(i.rb))
      && (i.RegPair? ==> (r[0] & 0x0C) >> 2 == RegBits(i.ra))
      && (i.Jcond? ==> r[0] & 0x0F == MaskByte(i.mask))
      && ((i.Jcond? || i.Jmp?) ==> r[1] == i.addr)
      && (i.Data? ==> r[1] == i.value)
      && ((i.Bare? || i.Jmp?) ==> r[0] & 0x0F == 0)
      && ((i.Jmpr? || i.Data?) ==> r[0] & 0x0C == 0)
  {
    match i
    case Bare(op) =>
    case Jmp(addr) =>
    case Jmpr(rb) =>
    case Data(rb, value) =>
    case Jcond(mask, addr) =>
    case RegPair(op, ra, rb) =>
  }

  /** The bytes of a sequence of instructions, back to back. */
  function EncodeAll(prog: seq<Instruction>): (r: seq<byte>)
    requires forall k :: 0 <= k < |prog| ==> WellFormed(prog[k])
    ensures |prog| <= |r| <= 2 * |prog|
    decreases |prog|
  {
    if |prog| == 0 then [] else Encode(prog[0]) + EncodeAll(prog[1..])
  }

  /** The bytes of one instruction put in front of a program. */
  lemma EncodeAllPrepend(i: Instruction, rest: seq<Instruction>)
    requires WellFormed(i) && forall k :: 0 <= k < |rest| ==> WellFormed(rest[k])
    ensures forall k :: 0 <= k < |[i] + rest| ==> WellFormed(([i] + rest)[k])
    ensures EncodeAll([i] + rest) == Encode(i) + EncodeAll(rest)
  {
    assert ([i] + rest)[1..] == rest;
  }

  // ---------------------------------------------------------------- driver

  /** Every instruction of `prog` is one the assembler produces. */
  predicate AllAssemblable(prog: seq<Instruction>) {
    forall k :: 0 <= k < |prog| ==> Assemblable(prog[k])
  }

  lemma AllAssemblableCons(i: Instruction, rest: seq<Instruction>)
    requires Assemblable(i) && AllAssemblable(rest)
    ensures AllAssemblable([i] + rest)
  {
    assert forall k :: 1 <= k < |[i] + rest| ==> ([i] + rest)[k] == rest[k - 1];
  }

  /** The instructions the main loop reads from token `pos` on, when `size` bytes
      were produced before it: one instruction after another until the tokens
      run out or the code has passed 256 bytes. */
  function Program(lx: Lexed, pos: nat, size: nat): (r: Result<seq<Instruction>, AsmError>)
    requires pos <= |lx.tokens|
    ensures r.Success? ==> AllAssemblable(r.value)
    decreases |lx.tokens| - pos
  {
    if pos == |lx.tokens| || size > MAX_CODE then Success([])
    else
      match ParseInstr(lx, pos)
      case Failure(e) => Failure(e)
      case Success((i, next)) =>
        match Program(lx, next, size + Size(OpOf(i)))
        case Failure(e) => Failure(e)
        case Success(rest) =>
          AllAssemblableCons(i, rest);
          Success([i] + rest)
  }

  /** Reading a program whose first instruction is `i`: the instructions after it
      follow, and so does a failure to read them. */
  lemma ProgramCons(lx: Lexed, pos: nat, size: nat, i: Instruction, next: nat, after: nat)
    requires pos < |lx.tokens| && size <= MAX_CODE && ParseInstr(lx, pos) == Success((i, next))
    requires after == size + Size(OpOf(i))
    ensures next <= |lx.tokens|
    ensures var rest := Program(lx, next, after);
      && (rest.Success? ==> Program(lx, pos, size) == Success([i] + rest.value))
      && (rest.Failure? ==> Program(lx, pos, size) == Failure(rest.error))
  {
  }

  /** `r` is what the main loop gives when it starts from `out` and reads the
      instructions `p`: their encoding after `out`, or the error reading them. */
  predicate EncodesAfter(r: Result<seq<byte>, AsmError>, out: seq<byte>, p: Result<seq<Instruction>, AsmError>) {
    && (r.Success? <==> p.Success?)
    && (r.Success? ==> AllAssemblable(p.value) && r.value == out + EncodeAll(p.value))
    && (r.Failure? ==> r.error == p.error)
  }

  /** Putting an instruction in front of what is read next puts its bytes in
      front of what is written next. */
  lemma EncodesAfterCons(r: Result<seq<byte>, AsmError>, out: seq<byte>, i: Instruction,
                         p: Result<seq<Instruction>, AsmError>, q: Result<seq<Instruction>, AsmError>)
    requires Assemblable(i) && EncodesAfter(r, out + Encode(i), p)
    requires p.Success? ==> q == Success([i] + p.value)
    requires p.Failure? ==> q == Failure(p.error)
    ensures EncodesAfter(r, out, q)
  {
    if p.Success? {
      EncodeAllPrepend(i, p.value);
      AllAssemblableCons(i, p.value);
    }
  }

  /** The main loop: while there is input and at most 256 bytes have been
      produced, translate one more instruction. What it appends to `out` is the
      encoding of the instructions it reads, and it fails exactly when reading
      them fails, with the same error. */
  function ParseFrom(lx: Lexed, pos: nat, out: seq<byte>): (r: Result<seq<byte>, AsmError>)
    requires pos <= |lx.tokens|
    ensures r.Success? ==> out <= r.value
    ensures r.Success? && |out| <= MAX_CODE + 2 ==> |r.value| <= MAX_CODE + 2
    ensures r.Success? && |out| <= MAX_CODE && pos < |lx.tokens| ==> |r.value| > |out|
    ensures EncodesAfter(r, out, Program(lx, pos, |out|))
    decreases |lx.tokens| - pos
  {
    if pos == |lx.tokens| || |out| > MAX_CODE then
      assert EncodeAll([]) == [];
      Success(out)
    else
      match ParseInstr(lx, pos)
      case Failure(e) => Failure(e)
      case Success(x) =>
        var after := out + Encode(x.0);
        var r := ParseFrom(lx, x.1, after);
        ProgramCons(lx, pos, |out|, x.0, x.1, |after|);
        EncodesAfterCons(r, out, x.0, Program(lx, x.1, |after|), Program(lx, pos, |out|));
        r
  }

  /** What the assembler saves, and whether it warned that the code was cut. */
  datatype Output = Output(code: seq<byte>, truncated: bool)

  /** The first 256 bytes of `code`, flagged when that leaves something out. */
  function Cut(code: seq<byte>): (o: Output)
    ensures o.code == code[..Min(MAX_CODE, |code|)]
    ensures o.truncated <==> |code| > MAX_CODE
  {
    if |code| > MAX_CODE then Output(code[..MAX_CODE], true) else Output(code, false)
  }

  /** Assembles a source file given as its lines: the saved code is the encoding
      of the instructions read, cut to its first 256 bytes, with a warning
      exactly when something was cut. A lexical error before the first token
      is reported as such; any other error is the first one the parser meets. */
  function Assemble(lines: seq<string>): (r: Result<Output, AsmError>)
    ensures r.Success? ==> |r.value.code| <= MAX_CODE
    ensures r.Success? ==> r.value.truncated ==> |r.value.code| == MAX_CODE
    ensures var lx := Lex(lines, 1);
      r.Success? <==> (|lx.tokens| > 0 || lx.error.None?) && Program(lx, 0, 0).Success?
    ensures var lx := Lex(lines, 1); r.Success? ==>
      var full := EncodeAll(Program(lx, 0, 0).value);
      && r.value.code == full[..Min(MAX_CODE, |full|)]
      && (r.value.truncated <==> |full| > MAX_CODE)
    ensures var lx := Lex(lines, 1);
      |lx.tokens| == 0 && lx.error.Some? ==> r == Failure(LexFailure(lx.error.value))
    ensures var lx := Lex(lines, 1);
      (|lx.tokens| > 0 || lx.error.None?) && Program(lx, 0, 0).Failure? ==>
        r == Failure(Program(lx, 0, 0).error)
  {
    AssembleTokens(Lex(lines, 1))
  }

  /** The main program once the input is lexed. */
  function AssembleTokens(lx: Lexed): (r: Result<Output, AsmError>)
    ensures r.Success? ==> |r.value.code| <= MAX_CODE
    ensures r.Success? ==> r.value.truncated ==> |r.value.code| == MAX_CODE
    ensures r.Success? <==> (|lx.tokens| > 0 || lx.error.None?) && Program(lx, 0, 0).Success?
    ensures r.Success? ==>
      var full := EncodeAll(Program(lx, 0, 0).value);
      && r.value.code == full[..Min(MAX_CODE, |full|)]
      && (r.value.truncated <==> |full| > MAX_CODE)
    ensures |lx.tokens| == 0 && lx.error.Some? ==> r == Failure(LexFailure(lx.error.value))
    ensures (|lx.tokens| > 0 || lx.error.None?) && Program(lx, 0, 0).Failure? ==>
      r == Failure(Program(lx, 0, 0).error)
  {
    if |lx.tokens| == 0 && lx.error.Some? then Failure(LexFailure(lx.error.value))
    else
      match ParseFrom(lx, 0, [])
      case Failure(e) => Failure(e)
      case Success(code) =>
        var full := EncodeAll(Program(lx, 0, 0).value);
        assert code == [] + full;
        assert [] + full == full;
        Success(Cut(full))
  }
}
