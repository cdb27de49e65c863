/** The structured-language compiler: a one-pass, recursive-descent translator
    from the language's token stream to assembler source text. Instruction,
    label and comment lines pass through as the lexer prepared them;
    `Rx = value` and `Rx = Ry` become DATA or XOR/OR; `IF Ra op Rb … ENDIF`
    becomes CMP, a conditional jump pattern and generated labels;
    `LOOP … ENDLOOP` becomes a start label, the body, a jump back and, when the
    body breaks out, an exit label. Every error is fatal. */
module Lang {
  import opened Wrappers
  import opened Text
  import opened MachCode
  import opened LangLexer

  /** The fatal errors, each of which aborts the whole compilation. */
  datatype LangError =
    | LexFailure(e: LexError)
    | Expected(want: Kind, got: Current)
    | BadRegister(text: string, line: nat)
    | AssignInIf(line: nat)
    | ComparisonOutsideIf(line: nat)
    | LiteralOrRegisterExpected(line: nat)
    | StrayBreak(line: nat)
    | StrayContinue(line: nat)
    | NotAStatement(line: nat)

  /** The translation state threaded through the parser: the position of the
      current token, the text written so far, how many labels have been made,
      the comparison read last (a global in the program, which starts out as
      the assignment token), and whether the innermost loop has been broken out of. */
  datatype St = St(pos: nat, out: string, labels: nat, compar: Kind, brk: bool)

  /** The labels of the innermost enclosing loop. */
  datatype Loop = Loop(start: string, exit: string)

  const Initial: St := St(0, "", 0, ASSIGN, false)

  /** `e_match`: takes the current token when it has kind `k`. Taking it makes the
      lexer read the next one, so a lexical error right behind it surfaces here. */
  function Accept(lx: Lexed, pos: nat, k: Kind): (r: Result<Token, LangError>)
    ensures r.Success? <==>
      pos < |lx.tokens| && lx.tokens[pos].kind == k && (pos + 1 < |lx.tokens| || lx.error.None?)
    ensures r.Success? ==> r.value == lx.tokens[pos]
  {
    match CurrentAt(lx, pos)
    case Tok(t) =>
      if t.kind != k then Failure(Expected(k, Tok(t)))
      else if pos + 1 == |lx.tokens| && lx.error.Some? then Failure(LexFailure(lx.error.value))
      else Success(t)
    case c => Failure(Expected(k, c))
  }

  /** `make_label`: ".L" and the number of labels made before. */
  function MakeLabel(n: nat): (l: string)
    ensures |l| > 2 && l[..2] == ".L" && l[2..] == NatToDecimal(n)
  {
    ".L" + NatToDecimal(n)
  }

  /** The register a register token names: the decimal number after its 'R',
      which must be 0..3. */
  function RegNumber(t: Token): (r: Result<Reg, LangError>)
    ensures r.Success? <==>
      (|t.text| > 0 && ScanDecimal(t.text[1..]).Some? && 0 <= ScanDecimal(t.text[1..]).value <= 3)
    ensures r.Success? ==> ScanDecimal(t.text[1..]) == Some(r.value as int)
  {
    var digits := if |t.text| > 0 then t.text[1..] else [];
    match ScanDecimal(digits)
    case Some(v) => if 0 <= v <= 3 then Success(v) else Failure(BadRegister(t.text, t.line))
    case None => Failure(BadRegister(t.text, t.line))
  }

  /** The kind of the token at `pos`, if there is one. */
  function NextKind(lx: Lexed, pos: nat): (k: Option<Kind>)
    ensures k.Some? <==> pos < |lx.tokens|
    ensures k.Some? ==> k.value == lx.tokens[pos].kind
  {
    if pos < |lx.tokens| then Some(lx.tokens[pos].kind) else None
  }

  /** A two-register instruction line, "OP RA, RB". */
  function RegPairLine(op: Opcode, a: Reg, b: Reg): (s: string)
    ensures |s| > 0 && s[|s| - 1] == '\n'
  {
    Name(op) + " " + GregName(a) + ", " + GregName(b) + "\n"
  }

  /** The lines an assignment `Rd = Rs` becomes: clear the destination, then OR the
      source into it. */
  function MoveLines(d: Reg, s: Reg): string {
    RegPairLine(XOR, d, d) + RegPairLine(OR, s, d)
  }

  /** The line an assignment `Rd = literal` becomes. */
  function DataLine(d: Reg, lit: string): string {
    Name(DATA) + " " + GregName(d) + ", " + lit + "\n"
  }

  /** `parse_register`: a statement that starts with a register. Followed by '='
      it is an assignment (refused inside an IF condition); followed by a
      comparison it is an IF condition (refused elsewhere) and writes CMP; on its
      own it writes nothing. */
  function ParseRegister(lx: Lexed, st: St, inIf: bool): (r: Result<St, LangError>)
    requires st.pos <= |lx.tokens|
    ensures r.Success? ==> st.pos < r.value.pos <= |lx.tokens|
    ensures r.Success? ==> st.out <= r.value.out
    ensures r.Success? ==> r.value.labels == st.labels && r.value.brk == st.brk
    ensures r.Success? ==> lx.tokens[st.pos].kind == REGISTER
    ensures r.Success? && NextKind(lx, st.pos + 1) == Some(ASSIGN) ==> !inIf
    ensures r.Success? && NextKind(lx, st.pos + 1).Some? && IsComparison(NextKind(lx, st.pos + 1).value) ==>
      inIf && r.value.compar == NextKind(lx, st.pos + 1).value
    ensures r.Success? && r.value.compar != st.compar ==> IsComparison(r.value.compar)
  {
    match Accept(lx, st.pos, REGISTER)
    case Failure(e) => Failure(e)
    case Success(t) =>
      match RegNumber(t)
      case Failure(e) => Failure(e)
      case Success(reg) => AfterRegister(lx, st.(pos := st.pos + 1), reg, t.line, inIf)
  }

  /** A statement parsed as starting with a register starts with a valid
      register name, R0 to R3. */
  lemma ParseRegisterNamesRegister(lx: Lexed, st: St, inIf: bool)
    requires st.pos <= |lx.tokens|
    requires ParseRegister(lx, st, inIf).Success?
    ensures RegNumber(lx.tokens[st.pos]).Success?
  {
  }

  /** What follows the first register of a statement. */
  function AfterRegister(lx: Lexed, st: St, reg: Reg, line: nat, inIf: bool): (r: Result<St, LangError>)
    requires st.pos <= |lx.tokens|
    ensures r.Success? ==> st.pos <= r.value.pos <= |lx.tokens|
    ensures r.Success? ==> st.out <= r.value.out
    ensures r.Success? ==> r.value.labels == st.labels && r.value.brk == st.brk
    ensures r.Success? && NextKind(lx, st.pos) == Some(ASSIGN) ==> !inIf
    ensures r.Success? && NextKind(lx, st.pos).Some? && IsComparison(NextKind(lx, st.pos).value) ==>
      inIf && r.value.compar == NextKind(lx, st.pos).value
    ensures r.Success? && r.value.compar != st.compar ==> IsComparison(r.value.compar)
  {
    var next := NextKind(lx, st.pos);
    if next == Some(ASSIGN) then
      if inIf then Failure(AssignInIf(line))
      else ParseAssign(lx, st, reg, line)
    else if next.Some? && IsComparison(next.value) then
      if !inIf then Failure(ComparisonOutsideIf(line))
      else ParseCompare(lx, st, reg, next.value)
    else Success(st)
  }

  /** The rest of an assignment to register `d`, from its '=': a literal becomes
      DATA, a register the XOR/OR pair. */
  function ParseAssign(lx: Lexed, st: St, d: Reg, line: nat): (r: Result<St, LangError>)
    requires st.pos <= |lx.tokens|
    ensures r.Success? ==> st.pos + 2 == r.value.pos <= |lx.tokens|
    ensures r.Success? ==> r.value == st.(pos := r.value.pos, out := r.value.out)
    ensures r.Success? && lx.tokens[st.pos + 1].kind == LITERAL ==>
      r.value.out == st.out + DataLine(d, lx.tokens[st.pos + 1].text)
    ensures r.Success? && lx.tokens[st.pos + 1].kind != LITERAL ==>
      lx.tokens[st.pos + 1].kind == REGISTER && RegNumber(lx.tokens[st.pos + 1]).Success?
      && r.value.out == st.out + MoveLines(d, RegNumber(lx.tokens[st.pos + 1]).value)
    ensures
      (NextKind(lx, st.pos) == Some(ASSIGN) && NextKind(lx, st.pos + 1) !in {Some(LITERAL), Some(REGISTER)}
       && (st.pos + 1 < |lx.tokens| || lx.error.None?))
      ==> r == Failure(LiteralOrRegisterExpected(line))
  {
    var tok :- Accept(lx, st.pos, ASSIGN);
    var p := st.pos + 1;
    var value := NextKind(lx, p);
    if value == Some(LITERAL) then
      var v :- Accept(lx, p, LITERAL);
      var p2 := p + 1;
      Success(st.(pos := p2, out := st.out + DataLine(d, v.text)))
    else if value == Some(REGISTER) then
      var v :- Accept(lx, p, REGISTER);
      var p2 := p + 1;
      var s :- RegNumber(v);
      Success(st.(pos := p2, out := st.out + MoveLines(d, s)))
    else Failure(LiteralOrRegisterExpected(line))
  }

  /** The rest of an IF condition on register `a`, from its comparison `k`: the
      second register, and CMP of the two. */
  function ParseCompare(lx: Lexed, st: St, a: Reg, k: Kind): (r: Result<St, LangError>)
    requires st.pos <= |lx.tokens|
    ensures r.Success? ==> st.pos + 2 == r.value.pos <= |lx.tokens|
    ensures r.Success? ==>
      lx.tokens[st.pos].kind == k && lx.tokens[st.pos + 1].kind == REGISTER
      && RegNumber(lx.tokens[st.pos + 1]).Success?
    ensures r.Success? ==> r.value == st.(pos := r.value.pos, compar := k,
      out := st.out + RegPairLine(CMP, a, RegNumber(lx.tokens[st.pos + 1]).value))
  {
    var tok :- Accept(lx, st.pos, k);
    var p := st.pos + 1;
    var v :- Accept(lx, p, REGISTER);
    var p2 := p + 1;
    var b :- RegNumber(v);
    Success(st.(pos := p2, out := st.out + RegPairLine(CMP, a, b), compar := k))
  }

  /** How an IF with comparison `k` jumps: either a jump past the block when the
      comparison fails (`skip`), or a jump into the block when it holds, with an
      unconditional jump past the block after it. The mnemonic is 'J' and the
      flags to test. Any other token leaves the IF without code. */
  datatype CondJump = CondJump(skip: bool, mnemonic: string)

  function IfJump(k: Kind): (j: Option<CondJump>)
    ensures j.Some? <==> IsComparison(k)
    ensures j.Some? ==> |j.value.mnemonic| > 0 && j.value.mnemonic[0] == 'J'
  {
    match k
    case LESS => Some(CondJump(true, "JEA"))
    case EQLESS => Some(CondJump(true, "JA"))
    case DIFF => Some(CondJump(true, "JE"))
    case EQ => Some(CondJump(false, "JE"))
    case GREAT => Some(CondJump(false, "JA"))
    case EQGREAT => Some(CondJump(false, "JAE"))
    case _ => None
  }

  /** A jump line "J… label". */
  function JumpLine(mnemonic: string, target: string): string {
    mnemonic + " " + target + "\n"
  }

  /** A label definition line "label:". */
  function LabelLine(name: string): string {
    name + ":\n"
  }

  // ---------------------------------------------------------------- statements

  /** One statement starting at token `t`, the current one. Outside a loop BREAK
      and CONTINUE are errors, and so is every token that starts no statement. */
  function Statement(lx: Lexed, st: St, loop: Option<Loop>, t: Token): (r: Result<St, LangError>)
    requires st.pos < |lx.tokens| && lx.tokens[st.pos] == t
    ensures r.Success? ==> st.pos < r.value.pos <= |lx.tokens|
    ensures r.Success? ==> st.out <= r.value.out && st.labels <= r.value.labels
    ensures r.Success? && !st.brk && r.value.brk ==> loop.Some?
    decreases |lx.tokens| - st.pos, 1
  {
    match t.kind
    case NEW_LINE =>
      var tok :- Accept(lx, st.pos, NEW_LINE);
      var p := st.pos + 1;
      Success(st.(pos := p, out := st.out + "\n"))
    case INSTR => Echo(lx, st, t)
    case LABEL => Echo(lx, st, t)
    case COMMENT_TOK => Echo(lx, st, t)
    case REGISTER => ParseRegister(lx, st, false)
    case IF => ParseIf(lx, st, loop)
    case LOOP => ParseLoop(lx, st)
    case JUMP =>
      var tok :- Accept(lx, st.pos, JUMP);
      var p := st.pos + 1;
      Success(st.(pos := p))
    case BREAK =>
      var tok :- Accept(lx, st.pos, BREAK);
      var p := st.pos + 1;
      if loop.None? then Failure(StrayBreak(t.line))
      else Success(st.(pos := p, out := st.out + JumpLine(Name(JMP), loop.value.exit), brk := true))
    case CONTINUE =>
      var tok :- Accept(lx, st.pos, CONTINUE);
      var p := st.pos + 1;
      if loop.None? then Failure(StrayContinue(t.line))
      else Success(st.(pos := p, out := st.out + JumpLine(Name(JMP), loop.value.start)))
    case _ => Failure(NotAStatement(t.line))
  }

  /** An instruction, label or comment: its whole prepared line is copied out. */
  function Echo(lx: Lexed, st: St, t: Token): (r: Result<St, LangError>)
    requires st.pos < |lx.tokens| && lx.tokens[st.pos] == t
    ensures r.Success? ==> r.value == st.(pos := st.pos + 1, out := st.out + t.src)
    ensures r.Success? <==> st.pos + 1 < |lx.tokens| || lx.error.None?
  {
    var tok :- Accept(lx, st.pos, t.kind);
    var p := st.pos + 1;
    Success(st.(pos := p, out := st.out + t.src))
  }

  /** A blank line, an instruction, a label or a comment takes one token and
      copies out a newline or the token's prepared line. */
  lemma StatementEchoes(lx: Lexed, st: St, loop: Option<Loop>, t: Token)
    requires st.pos < |lx.tokens| && lx.tokens[st.pos] == t
    requires t.kind in {NEW_LINE, INSTR, LABEL, COMMENT_TOK}
    ensures Statement(lx, st, loop, t).Success? <==> Accept(lx, st.pos, t.kind).Success?
    ensures Accept(lx, st.pos, t.kind).Success? ==>
      Statement(lx, st, loop, t) == Success(st.(pos := st.pos + 1, out := st.out + (if t.kind == NEW_LINE then "\n" else t.src)))
    ensures Accept(lx, st.pos, t.kind).Failure? ==>
      Statement(lx, st, loop, t) == Failure(Accept(lx, st.pos, t.kind).error)
  {
  }

  /** A token that starts no statement is an error wherever it stands. */
  lemma StatementRejects(lx: Lexed, st: St, loop: Option<Loop>, t: Token)
    requires st.pos < |lx.tokens| && lx.tokens[st.pos] == t
    requires t.kind in {ENDIF, ENDLOOP, LITERAL, ASSIGN, ERR} || IsComparison(t.kind)
    ensures Statement(lx, st, loop, t) == Failure(NotAStatement(t.line))
  {
  }

  /** JUMP is skipped, BREAK jumps to the loop's exit and CONTINUE back to its
      start; outside a loop either of the last two is an error. */
  lemma StatementOfControl(lx: Lexed, st: St, loop: Option<Loop>, t: Token)
    requires st.pos < |lx.tokens| && lx.tokens[st.pos] == t
    requires t.kind in {JUMP, BREAK, CONTINUE}
    ensures Accept(lx, st.pos, t.kind).Failure? ==>
      Statement(lx, st, loop, t) == Failure(Accept(lx, st.pos, t.kind).error)
    ensures Accept(lx, st.pos, t.kind).Success? && t.kind == JUMP ==>
      Statement(lx, st, loop, t) == Success(st.(pos := st.pos + 1))
    ensures Accept(lx, st.pos, t.kind).Success? && t.kind == BREAK ==>
      Statement(lx, st, loop, t) ==
        (if loop.None? then Failure(StrayBreak(t.line))
         else Success(st.(pos := st.pos + 1, out := st.out + JumpLine(Name(JMP), loop.value.exit), brk := true)))
    ensures Accept(lx, st.pos, t.kind).Success? && t.kind == CONTINUE ==>
      Statement(lx, st, loop, t) ==
        (if loop.None? then Failure(StrayContinue(t.line))
         else Success(st.(pos := st.pos + 1, out := st.out + JumpLine(Name(JMP), loop.value.start))))
  {
  }

  /** `parse_block`: statements up to ENDIF, ENDLOOP or the end of input, which
      are left for the caller. */
  function Block(lx: Lexed, st: St, loop: Option<Loop>): (r: Result<St, LangError>)
    requires st.pos <= |lx.tokens|
    ensures r.Success? ==> st.pos <= r.value.pos <= |lx.tokens|
    ensures r.Success? ==> st.out <= r.value.out && st.labels <= r.value.labels
    ensures r.Success? && !st.brk && r.value.brk ==> loop.Some?
    ensures r.Success? ==> r.value.pos == |lx.tokens| || lx.tokens[r.value.pos].kind in {ENDIF, ENDLOOP}
    decreases |lx.tokens| - st.pos, 2
  {
    match CurrentAt(lx, st.pos)
    case EndOfInput => Success(st)
    case Stopped(e) => Failure(LexFailure(e))
    case Tok(t) =>
      if t.kind == ENDIF || t.kind == ENDLOOP then Success(st)
      else
        var s1 :- Statement(lx, st, loop, t);
        Block(lx, s1, loop)
  }

  /** `parse_if`: IF, a condition, the block and ENDIF. */
  function ParseIf(lx: Lexed, st: St, loop: Option<Loop>): (r: Result<St, LangError>)
    requires st.pos <= |lx.tokens|
    ensures r.Success? ==> st.pos < r.value.pos <= |lx.tokens|
    ensures r.Success? ==> st.out <= r.value.out && st.labels <= r.value.labels
    ensures r.Success? && !st.brk && r.value.brk ==> loop.Some?
    decreases |lx.tokens| - st.pos, 0
  {
    var tok :- Accept(lx, st.pos, IF);
    var p := st.pos + 1;
    var s1 :- ParseRegister(lx, st.(pos := p), true);
    var s2 :- IfBody(lx, s1, loop);
    var endif :- Accept(lx, s2.pos, ENDIF);
    var p2 := s2.pos + 1;
    Success(s2.(pos := p2))
  }

  /** `s` ends with `tail`. */
  predicate EndsWith(s: string, tail: string) {
    |tail| <= |s| && s[|s| - |tail|..] == tail
  }

  /** The code of an IF after its CMP: the jump pattern of the comparison read
      last, with one or two fresh labels, around the block. */
  function IfBody(lx: Lexed, st: St, loop: Option<Loop>): (r: Result<St, LangError>)
    requires st.pos <= |lx.tokens|
    ensures r.Success? ==> st.pos <= r.value.pos <= |lx.tokens|
    ensures r.Success? ==> st.out <= r.value.out && st.labels <= r.value.labels
    ensures r.Success? && !st.brk && r.value.brk ==> loop.Some?
    ensures r.Success? && IfJump(st.compar).None? ==> r.value == st
    ensures r.Success? && IfJump(st.compar).Some? && IfJump(st.compar).value.skip ==>
      r.value.labels > st.labels
      && st.out + JumpLine(IfJump(st.compar).value.mnemonic, MakeLabel(st.labels)) <= r.value.out
      && EndsWith(r.value.out, LabelLine(MakeLabel(st.labels)))
    ensures r.Success? && IfJump(st.compar).Some? && !IfJump(st.compar).value.skip ==>
      r.value.labels > st.labels + 1
      && st.out + JumpLine(IfJump(st.compar).value.mnemonic, MakeLabel(st.labels))
         + JumpLine(Name(JMP), MakeLabel(st.labels + 1)) + LabelLine(MakeLabel(st.labels)) <= r.value.out
      && EndsWith(r.value.out, LabelLine(MakeLabel(st.labels + 1)))
    decreases |lx.tokens| - st.pos, 4
  {
    match IfJump(st.compar)
    case None => Success(st)
    case Some(j) =>
      if j.skip then SkipBody(lx, st, loop, j.mnemonic) else BranchBody(lx, st, loop, j.mnemonic)
  }

  /** A condition whose jump skips the body: jump to the end label when it holds,
      the body, the end label. */
  function SkipBody(lx: Lexed, st: St, loop: Option<Loop>, mnemonic: string): (r: Result<St, LangError>)
    requires st.pos <= |lx.tokens|
    ensures r.Success? ==> st.pos <= r.value.pos <= |lx.tokens|
    ensures r.Success? ==> st.out <= r.value.out && st.labels <= r.value.labels
    ensures r.Success? && !st.brk && r.value.brk ==> loop.Some?
    ensures r.Success? ==>
      r.value.labels > st.labels
      && st.out + JumpLine(mnemonic, MakeLabel(st.labels)) <= r.value.out
      && EndsWith(r.value.out, LabelLine(MakeLabel(st.labels)))
    decreases |lx.tokens| - st.pos, 3
  {
    var end := MakeLabel(st.labels);
    var head := st.out + JumpLine(mnemonic, end);
    var b :- Block(lx, st.(out := head, labels := st.labels + 1), loop);
    Success(b.(out := b.out + LabelLine(end)))
  }

  /** A condition whose jump enters the body: jump to the code label when it
      holds, otherwise jump to the end label; the code label, the body, the end
      label. */
  function BranchBody(lx: Lexed, st: St, loop: Option<Loop>, mnemonic: string): (r: Result<St, LangError>)
    requires st.pos <= |lx.tokens|
    ensures r.Success? ==> st.pos <= r.value.pos <= |lx.tokens|
    ensures r.Success? ==> st.out <= r.value.out && st.labels <= r.value.labels
    ensures r.Success? && !st.brk && r.value.brk ==> loop.Some?
    ensures r.Success? ==>
      r.value.labels > st.labels + 1
      && st.out + JumpLine(mnemonic, MakeLabel(st.labels))
         + JumpLine(Name(JMP), MakeLabel(st.labels + 1)) + LabelLine(MakeLabel(st.labels)) <= r.value.out
      && EndsWith(r.value.out, LabelLine(MakeLabel(st.labels + 1)))
    decreases |lx.tokens| - st.pos, 3
  {
    var code, end := MakeLabel(st.labels), MakeLabel(st.labels + 1);
    var head := st.out + JumpLine(mnemonic, code) + JumpLine(Name(JMP), end) + LabelLine(code);
    var b :- Block(lx, st.(out := head, labels := st.labels + 2), loop);
    Success(b.(out := b.out + LabelLine(end)))
  }

  /** The state in which a loop body starts: past LOOP, with the start label
      written, two labels taken and no BREAK seen. */
  function LoopEntry(st: St): St {
    st.(pos := st.pos + 1, out := st.out + LabelLine(MakeLabel(st.labels)), labels := st.labels + 2, brk := false)
  }

  /** `parse_loop`: LOOP, the body and ENDLOOP, with two fresh labels: the start,
      jumped back to after the body and by CONTINUE, and the exit, jumped to by
      BREAK and placed after the loop when some BREAK uses it. */
  function ParseLoop(lx: Lexed, st: St): (r: Result<St, LangError>)
    requires st.pos <= |lx.tokens|
    ensures r.Success? ==> st.pos < r.value.pos <= |lx.tokens|
    ensures r.Success? ==> r.value.brk == st.brk
    ensures r.Success? ==> r.value.labels >= st.labels + 2
    ensures r.Success? ==> st.out + LabelLine(MakeLabel(st.labels)) <= r.value.out
    ensures r.Success? ==> st.out <= r.value.out && st.labels <= r.value.labels
    ensures r.Success? ==> lx.tokens[st.pos].kind == LOOP
    ensures Accept(lx, st.pos, LOOP).Success? ==>
      var b := Block(lx, LoopEntry(st), Some(Loop(MakeLabel(st.labels), MakeLabel(st.labels + 1))));
      b.Success? ==> r == CloseLoop(lx, st, b.value)
    decreases |lx.tokens| - st.pos, 0
  {
    var tok :- Accept(lx, st.pos, LOOP);
    var start, exit := MakeLabel(st.labels), MakeLabel(st.labels + 1);
    var b :- Block(lx, LoopEntry(st), Some(Loop(start, exit)));
    CloseLoop(lx, st, b)
  }

  /** The end of `parse_loop` once the body `b` has been parsed: ENDLOOP, the
      jump back to the start label, and the exit label if the body broke out. */
  function CloseLoop(lx: Lexed, st: St, b: St): (r: Result<St, LangError>)
    requires b.pos <= |lx.tokens|
    ensures r.Success? <==> Accept(lx, b.pos, ENDLOOP).Success?
    ensures r.Success? ==> r.value == b.(pos := b.pos + 1, brk := st.brk,
      out := b.out + JumpLine(Name(JMP), MakeLabel(st.labels)) + (if b.brk then LabelLine(MakeLabel(st.labels + 1)) else ""))
  {
    var endloop :- Accept(lx, b.pos, ENDLOOP);
    var tail := JumpLine(Name(JMP), MakeLabel(st.labels)) + (if b.brk then LabelLine(MakeLabel(st.labels + 1)) else "");
    Success(b.(pos := b.pos + 1, out := b.out + tail, brk := st.brk))
  }

  /** Inside a loop, a BREAK writes the jump to the exit label and sets the break
      flag, and a JUMP writes nothing; the block goes on after either. */
  lemma BlockControlStep(lx: Lexed, st: St, loop: Loop)
    requires st.pos + 1 < |lx.tokens| && lx.tokens[st.pos].kind in {BREAK, JUMP}
    ensures Block(lx, st, Some(loop)) ==
      if lx.tokens[st.pos].kind == BREAK
      then Block(lx, st.(pos := st.pos + 1, out := st.out + JumpLine(Name(JMP), loop.exit), brk := true), Some(loop))
      else Block(lx, st.(pos := st.pos + 1), Some(loop))
  {
    var t := lx.tokens[st.pos];
    assert Accept(lx, st.pos, t.kind).Success?;
    StatementOfControl(lx, st, Some(loop), t);
  }

  /** A block ends at ENDLOOP without consuming it. */
  lemma BlockStopsAtEndloop(lx: Lexed, st: St, loop: Option<Loop>)
    requires st.pos < |lx.tokens| && lx.tokens[st.pos].kind == ENDLOOP
    ensures Block(lx, st, loop) == Success(st)
  {
  }

  /** A LOOP whose body compiles to `b` and is closed by ENDLOOP: the body's
      output, the jump back to the start, and the exit label if the body broke. */
  lemma ParseLoopOf(lx: Lexed, st: St, b: St)
    requires Accept(lx, st.pos, LOOP).Success?
    requires Block(lx, LoopEntry(st), Some(Loop(MakeLabel(st.labels), MakeLabel(st.labels + 1)))) == Success(b)
    requires Accept(lx, b.pos, ENDLOOP).Success?
    ensures ParseLoop(lx, st) == Success(b.(pos := b.pos + 1, brk := st.brk,
      out := b.out + JumpLine(Name(JMP), MakeLabel(st.labels)) + (if b.brk then LabelLine(MakeLabel(st.labels + 1)) else "")))
  {
  }

  // ---------------------------------------------------------------- program

  /** The top-level loop: statements until the end of input. */
  function Top(lx: Lexed, st: St): (r: Result<string, LangError>)
    requires st.pos <= |lx.tokens|
    ensures r.Success? ==> st.out <= r.value
    ensures st.pos == |lx.tokens| ==>
      r == (if lx.error.Some? then Failure(LexFailure(lx.error.value)) else Success(st.out))
    ensures st.pos < |lx.tokens| && Statement(lx, st, None, lx.tokens[st.pos]).Failure? ==>
      r == Failure(Statement(lx, st, None, lx.tokens[st.pos]).error)
    decreases |lx.tokens| - st.pos
  {
    match CurrentAt(lx, st.pos)
    case EndOfInput => Success(st.out)
    case Stopped(e) => Failure(LexFailure(e))
    case Tok(t) =>
      var s1 :- Statement(lx, st, None, t);
      Top(lx, s1)
  }

  /** Compiles a source file given as its lines into assembler source text. */
  function Compile(lines: seq<string>): (r: Result<string, LangError>)
    ensures r.Success? ==> Lex(lines, 1).error.None?
    ensures Lex(lines, 1).error.Some? ==> r.Failure?
    ensures |lines| == 0 ==> r == Success("")
  {
    var lx := Lex(lines, 1);
    TopStopsAtLexError(lx, Initial);
    Top(lx, Initial)
  }

  /** A lexical error is never compiled past: the statements before it may be
      parsed, but the program as a whole fails. */
  lemma {:induction false} TopStopsAtLexError(lx: Lexed, st: St)
    requires st.pos <= |lx.tokens|
    ensures lx.error.Some? ==> Top(lx, st).Failure?
    decreases |lx.tokens| - st.pos
  {
    if lx.error.Some? && st.pos < |lx.tokens| {
      var t := lx.tokens[st.pos];
      var s1 := Statement(lx, st, None, t);
      if s1.Success? {
        TopStopsAtLexError(lx, s1.value);
      }
    }
  }
}
