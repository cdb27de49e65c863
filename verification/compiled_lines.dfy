/** The lines the compiler writes for an assignment, read back by the assembler:
    each is prepared, lexed and parsed into the instruction the compiler meant.
    Together with the emulator lemmas about XOR, OR and DATA this closes the
    chain from an assignment in the structured language to its effect. */
module CompiledLines {
  import opened Wrappers
  import opened Text
  import opened MachCode
  import Lang
  import AsmLexer
  import Assembler

  /** One to four upper-case letters, spelled out position by position. */
  predicate ShortUpperWord(s: string) {
    && 0 < |s| <= 4 && IsUpper(s[0])
    && (|s| > 1 ==> IsUpper(s[1]))
    && (|s| > 2 ==> IsUpper(s[2]))
    && (|s| > 3 ==> IsUpper(s[3]))
  }

  lemma ShortUpperWordAll(s: string)
    requires ShortUpperWord(s)
    ensures forall i :: 0 <= i < |s| ==> IsUpper(s[i])
  {
  }

  /** Every mnemonic is an upper-case word that the assembler classifies as an
      instruction, and preparing it changes nothing. */
  lemma NameIsInstrWord(op: Opcode)
    ensures AsmLexer.PlainWord(Name(op)) && AsmLexer.Classify(Name(op)) == Some(AsmLexer.INSTR)
    ensures PrepareLine(Name(op)) == Name(op)
  {
    var n := Name(op);
    assert ShortUpperWord(n) && n[0] != 'R' by {
      match op
      case LOAD =>  case STORE => case DATA => case JMPR => case JMP => case JCOND =>
      case CLF => case PAD => case ADD => case SHR => case SHL => case NOT =>
      case AND => case OR => case XOR => case CMP =>
    }
    ShortUpperWordAll(n);
    PrepareLineKeeps(n);
  }

  /** A register name is a word the assembler classifies as a register, and its
      digit reads back as the register's number. */
  lemma RegNameIsRegisterWord(k: Reg)
    ensures AsmLexer.PlainWord(GregName(k)) && AsmLexer.Classify(GregName(k)) == Some(AsmLexer.REGISTER)
    ensures PrepareLine(GregName(k)) == GregName(k)
    ensures ScanDecimal(GregName(k)[1..]) == Some(k as int)
  {
    var g := GregName(k);
    PrepareLineKeeps(g);
    assert g[1..] == [g[1]];
    ScanDecimalOneDigit(g[1]);
  }

  /** Preparing "OP RA, RB" turns the comma into a space and changes nothing else. */
  lemma PreparedRegPairLine(op: Opcode, a: Reg, b: Reg)
    ensures PrepareLine(Lang.RegPairLine(op, a, b)) == Name(op) + " " + GregName(a) + "  " + GregName(b) + "\n"
  {
    NameIsInstrWord(op);
    RegNameIsRegisterWord(a);
    RegNameIsRegisterWord(b);
    PreparedPairText(Name(op), GregName(a), GregName(b));
  }

  lemma PreparedPairText(n: string, x: string, y: string)
    requires PrepareLine(n) == n && PrepareLine(x) == x
    ensures PrepareLine(n + " " + x + ", " + y + "\n") == n + " " + x + "  " + PrepareLine(y) + "\n"
  {
    var l1 := n + " ";
    var l2 := l1 + x;
    var l3 := l2 + ", ";
    var l4 := l3 + y;
    PrepareLineAppend(n, " ");
    PrepareLineAppend(l1, x);
    PrepareLineAppend(l2, ", ");
    PrepareLineAppend(l3, y);
    PrepareLineAppend(l4, "\n");
    assert PrepareLine(" ") == " " && PrepareLine(", ") == "  " && PrepareLine("\n") == "\n";
  }

  /** Three words, the last two two spaces apart, lex as three tokens. */
  lemma LexThreeWords(x: string, y: string, z: string, line: nat)
    requires AsmLexer.PlainWord(x) && AsmLexer.PlainWord(y) && AsmLexer.PlainWord(z)
    ensures AsmLexer.LexLine(x + " " + y + "  " + z + "\n", line) ==
      AsmLexer.Lexed([AsmLexer.Token(AsmLexer.Classify(x).value, x, line),
                      AsmLexer.Token(AsmLexer.Classify(y).value, y, line),
                      AsmLexer.Token(AsmLexer.Classify(z).value, z, line)], None)
  {
    var rest := y + " " + ([' '] + (z + "\n"));
    Regroup(x, y, z);
    LexTwoWords(y, z, line);
    AsmLexer.LexWordThenSpace(x, rest, line);
  }

  lemma Regroup(x: string, y: string, z: string)
    ensures x + " " + y + "  " + z + "\n" == x + " " + (y + " " + ([' '] + (z + "\n")))
  {
  }

  /** A word, two spaces and a word at the end of the line lex as two tokens. */
  lemma LexTwoWords(y: string, z: string, line: nat)
    requires AsmLexer.PlainWord(y) && AsmLexer.PlainWord(z)
    ensures AsmLexer.LexLine(y + " " + ([' '] + (z + "\n")), line) ==
      AsmLexer.Lexed([AsmLexer.Token(AsmLexer.Classify(y).value, y, line),
                      AsmLexer.Token(AsmLexer.Classify(z).value, z, line)], None)
  {
    AsmLexer.LexWordAtEnd(z, "\n", line);
    AsmLexer.LexLineSkipsSpace(' ', z + "\n", line);
    AsmLexer.LexWordThenSpace(y, [' '] + (z + "\n"), line);
  }

  /** The tokens of a prepared line "OP RA, RB": the mnemonic, then the two
      register names, with no error. */
  lemma RegPairLineLexes(op: Opcode, a: Reg, b: Reg, line: nat)
    ensures AsmLexer.LexLine(PrepareLine(Lang.RegPairLine(op, a, b)), line) ==
      AsmLexer.Lexed([AsmLexer.Token(AsmLexer.INSTR, Name(op), line),
                      AsmLexer.Token(AsmLexer.REGISTER, GregName(a), line),
                      AsmLexer.Token(AsmLexer.REGISTER, GregName(b), line)], None)
  {
    NameIsInstrWord(op);
    RegNameIsRegisterWord(a);
    RegNameIsRegisterWord(b);
    PreparedRegPairLine(op, a, b);
    LexThreeWords(Name(op), GregName(a), GregName(b), line);
  }

  /** The assembler reads the line "OP RA, RB" the compiler writes back as the
      register-pair instruction it stands for, using all three tokens. */
  lemma RegPairLineAssembles(op: Opcode, a: Reg, b: Reg, line: nat)
    requires IsRegPairOp(op)
    ensures var lx := AsmLexer.LexLine(PrepareLine(Lang.RegPairLine(op, a, b)), line);
      Assembler.ParseInstr(lx, 0) == Success((RegPair(op, a, b), 3))
  {
    RegPairLineLexes(op, a, b, line);
    RegPairTokensOfLine(op, a, b, AsmLexer.LexLine(PrepareLine(Lang.RegPairLine(op, a, b)), line), line);
  }

  lemma RegPairTokensOfLine(op: Opcode, a: Reg, b: Reg, lx: AsmLexer.Lexed, line: nat)
    requires IsRegPairOp(op)
    requires lx == AsmLexer.Lexed([AsmLexer.Token(AsmLexer.INSTR, Name(op), line),
                                   AsmLexer.Token(AsmLexer.REGISTER, GregName(a), line),
                                   AsmLexer.Token(AsmLexer.REGISTER, GregName(b), line)], None)
    ensures Assembler.ParseInstr(lx, 0) == Success((RegPair(op, a, b), 3))
  {
    RegPairTokensAt(op, a, b, lx, 0);
  }

  /** Three tokens that end the line, a mnemonic and two register names, are read
      as the register-pair instruction they name. */
  lemma RegPairTokensAt(op: Opcode, a: Reg, b: Reg, lx: AsmLexer.Lexed, p: nat)
    requires IsRegPairOp(op) && lx.error.None? && |lx.tokens| == p + 3
    requires lx.tokens[p].kind == AsmLexer.INSTR && lx.tokens[p].text == Name(op)
    requires lx.tokens[p + 1].kind == AsmLexer.REGISTER && lx.tokens[p + 1].text == GregName(a)
    requires lx.tokens[p + 2].kind == AsmLexer.REGISTER && lx.tokens[p + 2].text == GregName(b)
    ensures Assembler.ParseInstr(lx, p) == Success((RegPair(op, a, b), p + 3))
  {
    RegisterTokenParses(lx, p + 1, a);
    RegisterTokenParses(lx, p + 2, b);
    RegPairTokensParse(op, a, b, lx, p);
  }

  /** A register token that names register `k` is read as `k`. */
  lemma RegisterTokenParses(lx: AsmLexer.Lexed, p: nat, k: Reg)
    requires p < |lx.tokens| && lx.tokens[p].kind == AsmLexer.REGISTER && lx.tokens[p].text == GregName(k)
    requires p + 1 < |lx.tokens| || lx.error.None?
    ensures Assembler.ParseRegister(lx, p) == Success((k, p + 1))
  {
    RegNameIsRegisterWord(k);
  }

  /** A mnemonic token followed by its two register operands is read as the
      register-pair instruction they name. */
  lemma RegPairTokensParse(op: Opcode, a: Reg, b: Reg, lx: AsmLexer.Lexed, p: nat)
    requires IsRegPairOp(op)
    requires Assembler.Accept(lx, p, AsmLexer.INSTR).Success? && lx.tokens[p].text == Name(op)
    requires Assembler.ParseRegister(lx, p + 1) == Success((a, p + 2))
    requires Assembler.ParseRegister(lx, p + 2) == Success((b, p + 3))
    ensures Assembler.ParseInstr(lx, p) == Success((RegPair(op, a, b), p + 3))
  {
    Assembler.RegPairComplete(op, lx, p + 1, a, b, p + 3);
    Assembler.TableNameComplete(op, lx, p, RegPair(op, a, b), p + 3);
  }

  /** The two lines of an assignment `Rd = Rs`: clear Rd with XOR, then OR Rs
      into it. Each is one line of the output and assembles to its instruction. */
  lemma MoveLinesAssemble(d: Reg, s: Reg, line: nat)
    ensures var first, second := Lang.RegPairLine(XOR, d, d), Lang.RegPairLine(OR, s, d);
      && Lang.MoveLines(d, s) == first + second
      && first[|first| - 1] == '\n' && second[|second| - 1] == '\n'
      && Assembler.ParseInstr(AsmLexer.LexLine(PrepareLine(first), line), 0) == Success((RegPair(XOR, d, d), 3))
      && Assembler.ParseInstr(AsmLexer.LexLine(PrepareLine(second), line), 0) == Success((RegPair(OR, s, d), 3))
  {
    RegPairLineAssembles(XOR, d, d, line);
    RegPairLineAssembles(OR, s, d, line);
  }

  /** Upper-casing keeps a word a word, and keeps a leading digit. */
  lemma PreparedWord(w: string)
    requires AsmLexer.PlainWord(w)
    ensures AsmLexer.PlainWord(PrepareLine(w)) && PrepareLine(w)[0] == ToUpper(w[0])
  {
  }

  /** Three tokens that end the line, DATA, a register name and a literal, are
      read as a DATA instruction exactly when the literal's value fits a byte. */
  lemma DataTokensAt(d: Reg, lx: AsmLexer.Lexed, p: nat)
    requires lx.error.None? && |lx.tokens| == p + 3
    requires lx.tokens[p].kind == AsmLexer.INSTR && lx.tokens[p].text == Name(DATA)
    requires lx.tokens[p + 1].kind == AsmLexer.REGISTER && lx.tokens[p + 1].text == GregName(d)
    requires lx.tokens[p + 2].kind == AsmLexer.LITERAL
    ensures var v := Assembler.LiteralValue(lx.tokens[p + 2].text);
      && (Assembler.ParseInstr(lx, p).Success? <==> v.Some? && 0 <= v.value < 256)
      && (v.Some? && 0 <= v.value < 256 ==>
            Assembler.ParseInstr(lx, p) == Success((Data(d, Assembler.ToByte(v.value)), p + 3)))
  {
    RegisterTokenParses(lx, p + 1, d);
    LiteralTokenParses(lx, p + 2);
    Assembler.TableNameOperands(DATA, lx, p);
    assert Assembler.ParseOperands(DATA, lx, p + 1) == Assembler.ParseDataOperands(lx, p + 1);
  }

  /** A literal token is read as an address exactly when its value fits a byte. */
  lemma LiteralTokenParses(lx: AsmLexer.Lexed, q: nat)
    requires q < |lx.tokens| && lx.tokens[q].kind == AsmLexer.LITERAL
    requires q + 1 < |lx.tokens| || lx.error.None?
    ensures var v := Assembler.LiteralValue(lx.tokens[q].text);
      && (Assembler.ParseAddress(lx, q).Success? <==> v.Some? && 0 <= v.value < 256)
      && (v.Some? && 0 <= v.value < 256 ==>
            Assembler.ParseAddress(lx, q) == Success((Assembler.ToByte(v.value), q + 1)))
  {
  }

  /** The line "DATA RD, LIT" the compiler writes for `Rd = LIT` lexes as its three
      tokens, and assembles to DATA with the literal's value exactly when that
      value fits a byte. */
  lemma DataLineAssembles(d: Reg, lit: string, line: nat)
    requires AsmLexer.PlainWord(lit) && IsDigit(lit[0])
    ensures var u := PrepareLine(lit);
      var lx := AsmLexer.LexLine(PrepareLine(Lang.DataLine(d, lit)), line);
      var v := Assembler.LiteralValue(u);
      && lx == AsmLexer.Lexed([AsmLexer.Token(AsmLexer.INSTR, Name(DATA), line),
                               AsmLexer.Token(AsmLexer.REGISTER, GregName(d), line),
                               AsmLexer.Token(AsmLexer.LITERAL, u, line)], None)
      && (Assembler.ParseInstr(lx, 0).Success? <==> v.Some? && 0 <= v.value < 256)
      && (v.Some? && 0 <= v.value < 256 ==>
            Assembler.ParseInstr(lx, 0) == Success((Data(d, Assembler.ToByte(v.value)), 3)))
  {
    var u := PrepareLine(lit);
    NameIsInstrWord(DATA);
    RegNameIsRegisterWord(d);
    PreparedWord(lit);
    PreparedPairText(Name(DATA), GregName(d), lit);
    LexThreeWords(Name(DATA), GregName(d), u, line);
    var lx := AsmLexer.LexLine(PrepareLine(Lang.DataLine(d, lit)), line);
    DataTokensAt(d, lx, 0);
  }
}
