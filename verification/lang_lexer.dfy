/** The tokenizer of the structured language. A line holding only white space
    is one NEW_LINE token, so that the output keeps the line count; any other
    line is upper-cased, commas become spaces, and it splits into operators,
    words, numbers, labels and comments. Words starting with 'R' are registers,
    with 'J' jumps; six words are keywords and any other word is an instruction,
    which, like a label or a comment, takes the rest of its line with it.
    Lines are given without their newline; every line is taken to end in one,
    and a NUL ends a line early: nothing after it is lexed. */
module LangLexer {
  import opened Wrappers
  import opened Text

  /** The longest literal, prefix included. */
  const LITERAL_LEN: nat := 4

  const COMMENT: char := '#'
  const LBL_START: char := '.'
  const JMP_INSTR: char := 'J'

  datatype Kind =
    | ASSIGN
    | LESS | EQLESS | EQ | GREAT | EQGREAT | DIFF
    | IF | ENDIF
    | LOOP | ENDLOOP | BREAK | CONTINUE
    | JUMP | INSTR
    | REGISTER
    | LABEL
    | LITERAL
    | COMMENT_TOK | NEW_LINE
    | ERR

  /** The six comparison operators. */
  predicate IsComparison(k: Kind) {
    k == LESS || k == EQLESS || k == EQ || k == GREAT || k == EQGREAT || k == DIFF
  }

  /** A token: its kind, its lexeme, the prepared source line it came from (with
      its newline unless a NUL cut the line short), and that line's number. */
  datatype Token = Token(kind: Kind, text: string, src: string, line: nat)

  /** The lexer's fatal errors. */
  datatype LexError =
    | BangWithoutEquals(line: nat)
    | BadLiteral(text: string, line: nat)
    | LiteralTooLong(text: string, line: nat)

  /** The tokens delivered before input ran out (`error == None`) or before the
      lexer stopped the program. */
  datatype Lexed = Lexed(tokens: seq<Token>, error: Option<LexError>)

  /** The keyword a word spells, if any. */
  function Keyword(w: string): (k: Option<Kind>)
    ensures k.Some? ==> k.value in {IF, ENDIF, LOOP, ENDLOOP, BREAK, CONTINUE}
    ensures k == Some(IF) <==> w == "IF"
    ensures k == Some(ENDIF) <==> w == "ENDIF"
    ensures k == Some(LOOP) <==> w == "LOOP"
    ensures k == Some(ENDLOOP) <==> w == "ENDLOOP"
    ensures k == Some(BREAK) <==> w == "BREAK"
    ensures k == Some(CONTINUE) <==> w == "CONTINUE"
  {
    if w == "IF" then Some(IF) else if w == "ENDIF" then Some(ENDIF)
    else if w == "LOOP" then Some(LOOP) else if w == "ENDLOOP" then Some(ENDLOOP)
    else if w == "BREAK" then Some(BREAK) else if w == "CONTINUE" then Some(CONTINUE)
    else None
  }

  /** `get_lexm`: a word starting with 'J' is a jump, whatever follows; then come
      the keywords; every other word is taken for an instruction. */
  function WordKind(w: string): (k: Kind)
    ensures |w| > 0 && w[0] == JMP_INSTR ==> k == JUMP
    ensures (|w| == 0 || w[0] != JMP_INSTR) && Keyword(w).Some? ==> k == Keyword(w).value
    ensures k == INSTR <==> (|w| == 0 || w[0] != JMP_INSTR) && Keyword(w).None?
  {
    if |w| > 0 && w[0] == JMP_INSTR then JUMP
    else match Keyword(w)
      case Some(k) => k
      case None => INSTR
  }

  predicate NotSpace(c: char) { !IsSpace(c) }

  /** `w` is the word at the front of `t`: no white space in it, and white
      space or the end of the line after it. */
  predicate WordAt(t: string, w: string) {
    && |w| <= |t| && t[..|w|] == w
    && (forall i :: 0 <= i < |w| ==> !IsSpace(w[i]))
    && (|w| == |t| || IsSpace(t[|w|]))
  }

  /** The characters up to the next white space, and what follows. */
  function TakeWord(t: string): (r: (string, string))
    ensures r.0 + r.1 == t
    ensures forall i :: 0 <= i < |r.0| ==> !IsSpace(r.0[i])
    ensures |r.1| > 0 ==> IsSpace(r.1[0])
    ensures WordAt(t, r.0)
    ensures |t| > 0 && !IsSpace(t[0]) ==> |r.0| > 0
  {
    var n := RunLength(t, NotSpace);
    (t[..n], t[n..])
  }

  /** The prefix of a literal: an optional '0', then an optional 'X'. */
  function LiteralPrefix(t: string): (p: nat)
    ensures p <= 2 && p <= |t|
    ensures p > 0 ==> t[0] == '0' || t[0] == 'X'
  {
    var p0 := if |t| > 0 && t[0] == '0' then 1 else 0;
    if p0 < |t| && t[p0] == 'X' then p0 + 1 else p0
  }

  /** The digits of a literal from position `p`: up to the next white space they
      must be hexadecimal digits, and the literal no longer than four characters. */
  function ScanLiteralFrom(t: string, p: nat, line: nat): (r: Result<nat, LexError>)
    requires p <= |t| && p <= LITERAL_LEN
    ensures r.Success? ==> p <= r.value <= |t| && r.value <= LITERAL_LEN
    ensures r.Success? ==> (r.value == |t| || IsSpace(t[r.value]))
    ensures r.Success? && p < |t| && !IsSpace(t[p]) ==> r.value > p
    ensures r.Success? ==> forall i :: p <= i < r.value ==> IsXDigit(t[i])
    ensures r.Failure? ==> exists i :: p <= i < |t| && !IsSpace(t[i]) && (!IsXDigit(t[i]) || i >= LITERAL_LEN)
    decreases |t| - p
  {
    if p == |t| || IsSpace(t[p]) then Success(p)
    else if !IsXDigit(t[p]) then Failure(BadLiteral(t[..p + 1], line))
    else if p + 1 > LITERAL_LEN then Failure(LiteralTooLong(t[..p + 1], line))
    else ScanLiteralFrom(t, p + 1, line)
  }

  /** `get_literal`: the lexeme of a number and what follows it. */
  function ScanLiteral(t: string, line: nat): (r: Result<(string, string), LexError>)
    ensures r.Success? ==> r.value.0 + r.value.1 == t
    ensures r.Success? ==> |r.value.0| <= LITERAL_LEN
    ensures r.Success? ==> |r.value.1| > 0 ==> IsSpace(r.value.1[0])
    ensures r.Success? && |t| > 0 && !IsSpace(t[0]) ==> |r.value.1| < |t|
  {
    var n :- ScanLiteralFrom(t, LiteralPrefix(t), line);
    Success((t[..n], t[n..]))
  }

  /** The shape of a literal the lexer accepts: an optional '0', an optional 'X',
      then hexadecimal digits, at most four characters in all. */
  predicate LiteralShape(w: string) {
    var p := LiteralPrefix(w);
    |w| <= LITERAL_LEN && forall i :: p <= i < |w| ==> IsXDigit(w[i])
  }

  /** An operator at the front of `t`: its kind and its length. A '!' not
      followed by '=' is no operator. */
  function Operator(t: string): (r: Option<(Kind, nat)>)
    requires |t| > 0
    ensures r.Some? ==> IsComparison(r.value.0) || r.value.0 == ASSIGN
    ensures r.Some? ==> 0 < r.value.1 <= |t| && (r.value.1 == 2 <==> |t| > 1 && t[1] == '=')
    ensures r.Some? <==> t[0] in "=<>" || (t[0] == '!' && |t| > 1 && t[1] == '=')
  {
    var twoChar := |t| > 1 && t[1] == '=';
    if t[0] == '=' then Some(if twoChar then (EQ, 2) else (ASSIGN, 1))
    else if t[0] == '<' then Some(if twoChar then (EQLESS, 2) else (LESS, 1))
    else if t[0] == '>' then Some(if twoChar then (EQGREAT, 2) else (GREAT, 1))
    else if t[0] == '!' && twoChar then Some((DIFF, 2))
    else None
  }

  /** The tokens of one line: all carry the line's text and number, none is a
      line break, and an instruction, label or comment can only come last since
      it takes the rest of the line. */
  predicate LineTokens(toks: seq<Token>, src: string, line: nat) {
    && (forall i :: 0 <= i < |toks| ==> toks[i].src == src && toks[i].line == line)
    && (forall i :: 0 <= i < |toks| - 1 ==>
          toks[i].kind != INSTR && toks[i].kind != LABEL && toks[i].kind != COMMENT_TOK)
    && (forall i :: 0 <= i < |toks| ==> toks[i].kind != NEW_LINE)
  }

  /** A token that does not end the line may go in front of a line's tokens. */
  lemma ConsLineTokens(t: Token, toks: seq<Token>, src: string, line: nat)
    requires t.src == src && t.line == line
    requires t.kind != INSTR && t.kind != LABEL && t.kind != COMMENT_TOK && t.kind != NEW_LINE
    requires LineTokens(toks, src, line)
    ensures LineTokens([t] + toks, src, line)
  {
  }

  /** The tokens of the rest of a prepared line. `src` is the source line as
      `SrcLine` gives it, which instructions, labels and comments carry along. */
  function LexLine(rest: string, src: string, line: nat): (r: Lexed)
    ensures LineTokens(r.tokens, src, line)
    decreases |rest|, 2
  {
    var t := SkipSpaces(rest);
    if |t| == 0 then Lexed([], None) else LexAt(t, src, line)
  }

  /** What `next_lexm` makes of the lexeme at the front of a line: a token
      followed by more of the line, a token taking the rest of the line, or a
      stop. */
  datatype Lexeme =
    | Emitted(k: Kind, text: string, after: string)
    | WholeLine(k: Kind, text: string)
    | Stop(e: LexError)

  /** The lexeme at a character that is not white space, selected by that
      character: an operator; a '!' without '=' stops the lexer; 'R' starts a
      register word; a label or a comment takes the rest of the line; another
      letter starts a word classified as keyword, jump or instruction, and an
      instruction takes the rest of the line; a digit starts a literal of the
      accepted shape, or stops the lexer; anything else is a one-character ERR. */
  function NextLexeme(t: string, line: nat): (s: Lexeme)
    requires |t| > 0 && !IsSpace(t[0])
    ensures s.Emitted? ==> |s.text| > 0 && s.text + s.after == t
    ensures s.Emitted? ==> s.k !in {INSTR, LABEL, COMMENT_TOK, NEW_LINE}
    ensures Operator(t).Some? ==>
      s.Emitted? && s.k == Operator(t).value.0 && s.text == t[..Operator(t).value.1]
    ensures t[0] == '!' && Operator(t).None? ==> s == Stop(BangWithoutEquals(line))
    ensures t[0] == 'R' ==> s.Emitted? && s.k == REGISTER && WordAt(t, s.text)
    ensures t[0] == LBL_START ==> s == WholeLine(LABEL, t)
    ensures t[0] == COMMENT ==> s == WholeLine(COMMENT_TOK, t)
    ensures IsAlpha(t[0]) && t[0] != 'R' ==>
      && !s.Stop? && |s.text| > 0 && WordAt(t, s.text) && s.k == WordKind(s.text)
      && (s.WholeLine? <==> s.k == INSTR)
    ensures IsDigit(t[0]) ==> (s.Stop? <==> ScanLiteral(t, line).Failure?)
    ensures IsDigit(t[0]) && !s.Stop? ==>
      s.Emitted? && s.k == LITERAL && WordAt(t, s.text) && LiteralShape(s.text)
    ensures Operator(t).None? && !(t[0] in "!R" || t[0] == LBL_START || t[0] == COMMENT || IsAlpha(t[0]) || IsDigit(t[0])) ==>
      s == Emitted(ERR, [t[0]], t[1..])
  {
    var c := t[0];
    match Operator(t)
    case Some((k, n)) => Emitted(k, t[..n], t[n..])
    case None =>
      if c == '!' then Stop(BangWithoutEquals(line))
      else if c == 'R' then
        var (w, after) := TakeWord(t);
        Emitted(REGISTER, w, after)
      else if c == LBL_START then WholeLine(LABEL, t)
      else if c == COMMENT then WholeLine(COMMENT_TOK, t)
      else if IsAlpha(c) then
        var (w, after) := TakeWord(t);
        var k := WordKind(w);
        if k == INSTR then WholeLine(INSTR, w) else Emitted(k, w, after)
      else if IsDigit(c) then
        match ScanLiteral(t, line)
        case Failure(e) => Stop(e)
        case Success((lit, after)) =>
          ScanLiteralWord(t, line);
          Emitted(LITERAL, lit, after)
      else Emitted(ERR, [c], t[1..])
  }

  /** The tokens of a line from a character that is not white space: the token
      of the lexeme there, then the tokens of the rest of the line unless the
      lexeme took all of it. */
  function LexAt(t: string, src: string, line: nat): (r: Lexed)
    requires |t| > 0 && !IsSpace(t[0])
    ensures LineTokens(r.tokens, src, line)
    decreases |t|, 1
  {
    match NextLexeme(t, line)
    case Stop(e) => Lexed([], Some(e))
    case WholeLine(k, w) => Lexed([Token(k, w, src, line)], None)
    case Emitted(k, w, after) => Emit(k, w, after, src, line)
  }

  /** What the lexer promises for a line from a character that is not white
      space, by that character: an operator; a '!' without '=' stops the lexer;
      'R' starts a register word; a label or a comment takes the rest of the
      line; another letter starts a word classified as keyword, jump or
      instruction, and an instruction takes the rest of the line; a digit starts
      a literal of the accepted shape or stops the lexer; anything else is a
      one-character ERR token. A token that does not take the rest of the line
      is followed by the tokens of what comes after its lexeme. */
  predicate ClassifiedAt(t: string, src: string, line: nat, r: Lexed)
    requires |t| > 0
  {
    var c := t[0];
    var first := if |r.tokens| > 0 then Some(r.tokens[0]) else None;
    && (Operator(t).Some? ==>
         first.Some? && first.value.kind == Operator(t).value.0 && first.value.text == t[..Operator(t).value.1])
    && (c == '!' && Operator(t).None? ==> r == Lexed([], Some(BangWithoutEquals(line))))
    && (c == 'R' ==> first.Some? && first.value.kind == REGISTER && |first.value.text| > 0 && WordAt(t, first.value.text))
    && (c == LBL_START ==> r == Lexed([Token(LABEL, t, src, line)], None))
    && (c == COMMENT ==> r == Lexed([Token(COMMENT_TOK, t, src, line)], None))
    && (IsAlpha(c) && c != 'R' ==>
         && first.Some? && |first.value.text| > 0 && WordAt(t, first.value.text)
         && first.value.kind == WordKind(first.value.text)
         && (first.value.kind == INSTR ==> r == Lexed([Token(INSTR, first.value.text, src, line)], None)))
    && (IsDigit(c) && first.None? ==> r.error.Some? && ScanLiteral(t, line).Failure?)
    && (IsDigit(c) && first.Some? ==>
         first.value.kind == LITERAL && |first.value.text| > 0 && WordAt(t, first.value.text) && LiteralShape(first.value.text))
    && (Operator(t).None? && !(c in "!R" || c == LBL_START || c == COMMENT || IsAlpha(c) || IsDigit(c)) ==>
         first == Some(Token(ERR, [c], src, line)))
    && (first.Some? && first.value.kind !in {INSTR, LABEL, COMMENT_TOK} ==>
         var n := |first.value.text|;
         && 0 < n <= |t|
         && r.tokens[1..] == LexLine(t[n..], src, line).tokens
         && r.error == LexLine(t[n..], src, line).error)
  }

  /** The lexer classifies each lexeme by its first character. */
  lemma LexAtFirstToken(t: string, src: string, line: nat)
    requires |t| > 0 && !IsSpace(t[0])
    ensures ClassifiedAt(t, src, line, LexAt(t, src, line))
  {
    var s := NextLexeme(t, line);
    if s.Emitted? {
      assert t[|s.text|..] == s.after;
    }
  }

  /** A token ahead of the tokens of what follows it on the line. */
  function Emit(k: Kind, text: string, after: string, src: string, line: nat): (r: Lexed)
    requires k != INSTR && k != LABEL && k != COMMENT_TOK && k != NEW_LINE
    ensures |r.tokens| > 0 && r.tokens[0] == Token(k, text, src, line)
    ensures r.tokens[1..] == LexLine(after, src, line).tokens && r.error == LexLine(after, src, line).error
    ensures LineTokens(r.tokens, src, line)
    decreases |after|, 3
  {
    var r := LexLine(after, src, line);
    ConsLineTokens(Token(k, text, src, line), r.tokens, src, line);
    Lexed([Token(k, text, src, line)] + r.tokens, r.error)
  }

  // ------------------------------------------------- the signed-char EOF test

  /** The `EOF` that the switch of `next_lexm` tests a character against. */
  const EOF: int := -1

  /** A character of the buffer as the plain (signed) `char` read into `ch_int`:
      the bytes from 128 on are negative, and the byte 0xFF is -1. */
  function SignedChar(c: char): (v: int)
    ensures -128 <= v < 128
    ensures v == EOF <==> c as int % 256 == 255
  {
    var b := c as int % 256;
    if b < 128 then b else b - 256
  }

  /** What the switch at the start of a lexeme does: end the token stream, as at
      the end of the file, or go on with the lexeme. */
  datatype Dispatch = InputEnds | Lexes(s: Lexeme)

  /** The switch as written: its `case EOF` also catches a 0xFF byte of the line,
      since that byte reads back as -1, and then the lexer reports the end of the
      input. Every other character goes on as `NextLexeme` says. */
  function DispatchAsWritten(t: string, line: nat): (d: Dispatch)
    requires |t| > 0 && !IsSpace(t[0])
    ensures d.InputEnds? <==> t[0] as int % 256 == 255
    ensures d.Lexes? ==> d.s == NextLexeme(t, line)
  {
    if SignedChar(t[0]) == EOF then InputEnds else Lexes(NextLexeme(t, line))
  }

  /** A 0xFF byte where a lexeme starts: as written, the input ends there and the
      rest of the file is never read; the model's lexer makes the byte a
      one-character ERR token. */
  lemma HighByteEndsInputAsWritten(rest: string, line: nat)
    ensures DispatchAsWritten(['\U{FF}'] + rest, line) == InputEnds
    ensures NextLexeme(['\U{FF}'] + rest, line) == Emitted(ERR, ['\U{FF}'], rest)
  {
    assert (['\U{FF}'] + rest)[1..] == rest;
  }

  /** As intended, no character of a line ends the input: a 0xFF byte is an ERR
      token, and the tokens of the rest of the line follow it. */
  lemma HighByteIsErrToken(t: string, src: string, line: nat)
    requires |t| > 0 && t[0] == '\U{FF}'
    ensures LexAt(t, src, line).tokens == [Token(ERR, ['\U{FF}'], src, line)] + LexLine(t[1..], src, line).tokens
    ensures LexAt(t, src, line).error == LexLine(t[1..], src, line).error
  {
    HeadThenRest(t);
    HighByteEndsInputAsWritten(t[1..], line);
    LexAtEmitted(t, src, line);
    HeadThenRest(LexAt(t, src, line).tokens);
  }

  /** A lexeme that leaves more of its line is followed by that rest's tokens. */
  lemma LexAtEmitted(t: string, src: string, line: nat)
    requires |t| > 0 && !IsSpace(t[0]) && NextLexeme(t, line).Emitted?
    ensures var s := NextLexeme(t, line);
      && LexAt(t, src, line).tokens == [Token(s.k, s.text, src, line)] + LexLine(s.after, src, line).tokens
      && LexAt(t, src, line).error == LexLine(s.after, src, line).error
  {
    var s := NextLexeme(t, line);
    HeadThenRest(Emit(s.k, s.text, s.after, src, line).tokens);
  }

  /** A line of white space only. */
  predicate BlankLine(line: string) {
    forall i :: 0 <= i < |line| ==> IsSpace(line[i])
  }

  /** Every token comes from a line of `lines`, numbered from `lineNo`; a token
      is a NEW_LINE exactly when its line is blank, and then it is the bare
      newline token. */
  predicate MarksBlankLines(lines: seq<string>, lineNo: nat, toks: seq<Token>) {
    forall i :: 0 <= i < |toks| ==>
      && lineNo <= toks[i].line < lineNo + |lines|
      && (toks[i].kind == NEW_LINE <==> BlankLine(lines[toks[i].line - lineNo]))
      && (toks[i].kind == NEW_LINE ==> toks[i] == Token(NEW_LINE, "", "\n", toks[i].line))
  }

  /** What `%s` prints of the buffer once a line is prepared: the prepared text
      up to the first NUL, with the newline only when no NUL came before it. */
  function SrcLine(line: string): (r: string)
    ensures NUL !in line ==> r == PrepareLine(line) + "\n"
    ensures NUL in line ==> r == PrepareLine(CString(line)) && |r| < |line|
  {
    var c := CString(line);
    if |c| == |line| then
      CStringWhole(line);
      PrepareLine(c) + "\n"
    else
      assert line[|c|] == NUL;
      PrepareLine(c)
  }

  /** The token stream of a file given as its lines, numbered from `lineNo`. A
      blank line is judged on the whole line; any other line is lexed up to its
      first NUL, where the lexer goes on to the next line. */
  function Lex(lines: seq<string>, lineNo: nat): (r: Lexed)
    ensures MarksBlankLines(lines, lineNo, r.tokens)
    ensures |lines| > 0 && BlankLine(lines[0]) ==> |r.tokens| > 0 && r.tokens[0] == Token(NEW_LINE, "", "\n", lineNo)
    decreases |lines|
  {
    if |lines| == 0 then Lexed([], None)
    else
      var first :=
        if BlankLine(lines[0]) then Lexed([Token(NEW_LINE, "", "\n", lineNo)], None)
        else
          LexLine(PrepareLine(CString(lines[0])), SrcLine(lines[0]), lineNo);
      assert MarksBlankLines(lines[..1], lineNo, first.tokens);
      if first.error.Some? then
        MarksBlankLinesPrefix(lines, 1, lineNo, first.tokens);
        first
      else
        var r := Lex(lines[1..], lineNo + 1);
        MarksBlankLinesJoin(lines, lineNo, first.tokens, r.tokens);
        Lexed(first.tokens + r.tokens, r.error)
  }

  /** A NUL ends its line: whatever follows it changes nothing, and the line
      gives the tokens of the text before it, each carrying that text without a
      newline, as `%s` prints the buffer. */
  lemma LexStopsAtNul(x: string, y: string, rest: seq<string>, lineNo: nat)
    requires forall i :: 0 <= i < |x| ==> x[i] != NUL
    ensures Lex([x + [NUL] + y] + rest, lineNo) == Lex([x + [NUL]] + rest, lineNo)
    ensures Lex([x + [NUL] + y], lineNo) == LexLine(PrepareLine(x), PrepareLine(x), lineNo)
  {
    var l := x + [NUL] + y;
    var m := x + [NUL];
    CStringAtNul(x, y);
    CStringAtNul(x, []);
    assert m + [] == m;
    assert l[|x|] == NUL && m[|x|] == NUL;
    assert SrcLine(l) == PrepareLine(x) == SrcLine(m);
    LexHeadLine(l, rest, lineNo);
    LexHeadLine(m, rest, lineNo);
    LexHeadLine(l, [], lineNo);
    assert [l] + [] == [l];
  }

  /** A line that is not blank is lexed on its own, and the following lines
      are lexed only when it raised no error. */
  lemma LexHeadLine(l: string, rest: seq<string>, lineNo: nat)
    requires !BlankLine(l)
    ensures var f := LexLine(PrepareLine(CString(l)), SrcLine(l), lineNo);
      Lex([l] + rest, lineNo) ==
        if f.error.Some? then f
        else Lexed(f.tokens + Lex(rest, lineNo + 1).tokens, Lex(rest, lineNo + 1).error)
  {
    assert ([l] + rest)[0] == l && ([l] + rest)[1..] == rest;
  }

  /** A literal cut short by a NUL is read up to the NUL. */
  lemma NulEndsLiteral()
    ensures Lex(["5" + [NUL] + "X"], 1) == Lexed([Token(LITERAL, "5", "5", 1)], None)
  {
    PrepareLineKeeps("5");
    DigitLexeme();
    NulAfterOneLexeme("5", "X", 1);
  }

  lemma DigitLexeme()
    ensures NextLexeme("5", 1) == Emitted(LITERAL, "5", [])
  {
    ScanLiteralAccepts("5", "", 1);
    assert "5" + "" == "5";
  }

  /** A keyword cut short by a NUL is still that keyword, and nothing follows. */
  lemma NulEndsKeyword()
    ensures Lex(["IF" + [NUL] + "X"], 1) == Lexed([Token(IF, "IF", "IF", 1)], None)
  {
    PrepareLineKeeps("IF");
    KeywordLexeme();
    NulAfterOneLexeme("IF", "X", 1);
  }

  lemma KeywordLexeme()
    ensures NextLexeme("IF", 1) == Emitted(IF, "IF", [])
  {
    assert TakeWord("IF").0 == "IF";
  }

  /** A line whose text before its NUL is one lexeme gives that one token. */
  lemma NulAfterOneLexeme(x: string, y: string, line: nat)
    requires |x| > 0 && !IsSpace(x[0]) && NUL !in x && PrepareLine(x) == x
    requires NextLexeme(x, line).Emitted? && NextLexeme(x, line).after == []
    ensures Lex([x + [NUL] + y], line) == Lexed([Token(NextLexeme(x, line).k, NextLexeme(x, line).text, x, line)], None)
  {
    LexStopsAtNul(x, y, [], line);
    OneLexemeLine(x, line);
  }

  /** A line that is one lexeme, emitted whole, is that one token. */
  lemma OneLexemeLine(t: string, line: nat)
    requires |t| > 0 && !IsSpace(t[0])
    requires NextLexeme(t, line).Emitted? && NextLexeme(t, line).after == []
    ensures LexLine(t, t, line) == Lexed([Token(NextLexeme(t, line).k, NextLexeme(t, line).text, t, line)], None)
  {
    assert SkipSpaces(t) == t;
    LexAtEmitted(t, t, line);
    assert LexLine([], t, line) == Lexed([], None);
  }

  /** Tokens of the first lines are tokens of the whole file. */
  lemma MarksBlankLinesPrefix(lines: seq<string>, n: nat, lineNo: nat, toks: seq<Token>)
    requires n <= |lines|
    requires MarksBlankLines(lines[..n], lineNo, toks)
    ensures MarksBlankLines(lines, lineNo, toks)
  {
    forall i | 0 <= i < |toks| ensures lines[toks[i].line - lineNo] == lines[..n][toks[i].line - lineNo] {
    }
  }

  /** The tokens of the first line ahead of those of the others. */
  lemma MarksBlankLinesJoin(lines: seq<string>, lineNo: nat, first: seq<Token>, rest: seq<Token>)
    requires |lines| > 0
    requires MarksBlankLines(lines[..1], lineNo, first)
    requires MarksBlankLines(lines[1..], lineNo + 1, rest)
    ensures MarksBlankLines(lines, lineNo, first + rest)
  {
    MarksBlankLinesPrefix(lines, 1, lineNo, first);
    forall i | 0 <= i < |rest| ensures lines[rest[i].line - lineNo] == lines[1..][rest[i].line - (lineNo + 1)] {
    }
    var all := first + rest;
    forall i | 0 <= i < |all|
      ensures all[i] == if i < |first| then first[i] else rest[i - |first|]
    {
    }
  }

  /** What the parser sees at a position of the stream. */
  datatype Current = Tok(t: Token) | EndOfInput | Stopped(e: LexError)

  function CurrentAt(lx: Lexed, pos: nat): (c: Current)
    ensures c.Tok? <==> pos < |lx.tokens|
    ensures c.Tok? ==> c.t == lx.tokens[pos]
    ensures c.Stopped? <==> pos >= |lx.tokens| && lx.error.Some?
  {
    if pos < |lx.tokens| then Tok(lx.tokens[pos])
    else if lx.error.Some? then Stopped(lx.error.value)
    else EndOfInput
  }

  // ---------------------------------------------------------------- lemmas

  /** Every literal of the accepted shape, followed by white space or the end of
      the line, is read back as exactly that lexeme. */
  lemma ScanLiteralAccepts(w: string, rest: string, line: nat)
    requires |w| > 0 && IsDigit(w[0]) && LiteralShape(w)
    requires |rest| > 0 ==> IsSpace(rest[0])
    ensures ScanLiteral(w + rest, line) == Success((w, rest))
  {
    var t := w + rest;
    assert LiteralPrefix(t) == LiteralPrefix(w);
    ScanDigitsAccepts(w, rest, LiteralPrefix(w), line);
    assert t[..|w|] == w && t[|w|..] == rest;
  }

  lemma {:induction false} ScanDigitsAccepts(w: string, rest: string, p: nat, line: nat)
    requires p <= |w| <= LITERAL_LEN
    requires forall i :: p <= i < |w| ==> IsXDigit(w[i])
    requires |rest| > 0 ==> IsSpace(rest[0])
    ensures ScanLiteralFrom(w + rest, p, line) == Success(|w|)
    decreases |w| - p
  {
    var t := w + rest;
    if p < |w| {
      assert t[p] == w[p];
      assert !IsSpace(t[p]) by { assert IsXDigit(w[p]); }
      ScanDigitsAccepts(w, rest, p + 1, line);
    }
  }

  /** Conversely, whatever the lexer reads as a literal has the accepted shape. */
  lemma ScanLiteralShape(t: string, line: nat)
    requires ScanLiteral(t, line).Success?
    ensures LiteralShape(ScanLiteral(t, line).value.0)
  {
    var n := ScanLiteralFrom(t, LiteralPrefix(t), line).value;
    var w := t[..n];
    assert LiteralPrefix(w) == LiteralPrefix(t);
  }

  /** A literal read from a digit is the word at the front of the line, and has
      the accepted shape. */
  lemma ScanLiteralWord(t: string, line: nat)
    requires |t| > 0 && IsDigit(t[0]) && ScanLiteral(t, line).Success?
    ensures var w := ScanLiteral(t, line).value.0;
      |w| > 0 && WordAt(t, w) && LiteralShape(w)
  {
    ScanLiteralShape(t, line);
    var (w, after) := ScanLiteral(t, line).value;
    var p := LiteralPrefix(t);
    assert t[..|w|] == w;
    assert forall i :: 0 <= i < |w| ==> !IsSpace(w[i]) by {
      forall i | 0 <= i < |w| ensures !IsSpace(w[i]) {
        assert w[i] == t[i];
        if i >= p {
          assert IsXDigit(t[i]);
        }
      }
    }
  }

  /** A literal longer than four characters stops the lexer. */
  lemma LongLiteralRejected(t: string, line: nat)
    requires |t| > LITERAL_LEN
    requires forall i :: 0 <= i <= LITERAL_LEN ==> IsXDigit(t[i])
    ensures ScanLiteral(t, line).Failure?
  {
  }

  // ---------------------------------------------------------------- round trip

  /** A token that stands between spaces on its own: an operator, a register, a
      jump, a keyword or a literal of the accepted shape, spelled by its lexeme. */
  predicate Standalone(tk: Token) {
    var w := tk.text;
    && |w| > 0 && (forall i :: 0 <= i < |w| ==> !IsSpace(w[i]))
    && (IsComparison(tk.kind) || tk.kind in {ASSIGN, REGISTER, LITERAL} || IsWordKind(tk.kind))
    && (IsComparison(tk.kind) || tk.kind == ASSIGN ==> Operator(w) == Some((tk.kind, |w|)))
    && (tk.kind == REGISTER ==> w[0] == 'R')
    && (tk.kind == LITERAL ==> IsDigit(w[0]) && LiteralShape(w))
    && (IsWordKind(tk.kind) ==> IsAlpha(w[0]) && w[0] != 'R' && WordKind(w) == tk.kind)
  }

  /** The kinds of words that do not take the rest of the line. */
  predicate IsWordKind(k: Kind) {
    k in {JUMP, IF, ENDIF, LOOP, ENDLOOP, BREAK, CONTINUE}
  }

  /** The lexemes of `toks`, each followed by one space. */
  function Spelled(toks: seq<Token>): (s: string) {
    if |toks| == 0 then [] else toks[0].text + " " + Spelled(toks[1..])
  }

  /** White space in front of the rest of a line is skipped. */
  lemma {:induction false} LexLineAfterSpaces(sp: string, rest: string, src: string, line: nat)
    requires forall i :: 0 <= i < |sp| ==> IsSpace(sp[i])
    ensures LexLine(sp + rest, src, line) == LexLine(rest, src, line)
    decreases |sp|
  {
    if |sp| > 0 {
      assert (sp + rest)[1..] == sp[1..] + rest;
      LexLineAfterSpaces(sp[1..], rest, src, line);
    } else {
      assert sp + rest == rest;
    }
  }

  /** At most one word stands at the front of a line. */
  lemma WordAtUnique(t: string, a: string, b: string)
    requires WordAt(t, a) && WordAt(t, b)
    ensures a == b
  {
  }

  /** A standalone token spelled at the front of a line, before a space. */
  lemma StandaloneAtFront(tk: Token, rest: string)
    requires Standalone(tk)
    ensures var t := tk.text + " " + rest;
      && |t| > 0 && !IsSpace(t[0]) && SkipSpaces(t) == t && WordAt(t, tk.text)
      && t[|tk.text|..] == " " + rest
  {
    var w := tk.text;
    var t := w + " " + rest;
    assert t[0] == w[0];
    assert t[..|w|] == w && t[|w|..] == " " + rest;
  }

  /** The lexeme of a line spelled from a standalone token is that token's. */
  lemma StandaloneLexeme(tk: Token, rest: string, line: nat)
    requires Standalone(tk)
    ensures var t := tk.text + " " + rest;
      |t| > 0 && !IsSpace(t[0]) && NextLexeme(t, line) == Emitted(tk.kind, tk.text, " " + rest)
  {
    StandaloneAtFront(tk, rest);
    if IsComparison(tk.kind) || tk.kind == ASSIGN {
      OperatorLexeme(tk, rest, line);
    } else if tk.kind == LITERAL {
      LiteralLexeme(tk, rest, line);
    } else {
      WordLexeme(tk, rest, line);
    }
  }

  lemma OperatorLexeme(tk: Token, rest: string, line: nat)
    requires Standalone(tk) && (IsComparison(tk.kind) || tk.kind == ASSIGN)
    requires var t := tk.text + " " + rest;
      |t| > 0 && !IsSpace(t[0]) && WordAt(t, tk.text) && t[|tk.text|..] == " " + rest
    ensures var t := tk.text + " " + rest; NextLexeme(t, line) == Emitted(tk.kind, tk.text, " " + rest)
  {
    var t := tk.text + " " + rest;
    assert Operator(t) == Operator(tk.text);
  }

  lemma LiteralLexeme(tk: Token, rest: string, line: nat)
    requires Standalone(tk) && tk.kind == LITERAL
    requires var t := tk.text + " " + rest;
      |t| > 0 && !IsSpace(t[0]) && WordAt(t, tk.text) && t[|tk.text|..] == " " + rest
    ensures var t := tk.text + " " + rest; NextLexeme(t, line) == Emitted(tk.kind, tk.text, " " + rest)
  {
    LiteralBeforeSpace(tk.text, rest, line);
  }

  /** A literal of the accepted shape followed by a space is read as that lexeme. */
  lemma LiteralBeforeSpace(w: string, rest: string, line: nat)
    requires |w| > 0 && IsDigit(w[0]) && LiteralShape(w)
    ensures NextLexeme(w + " " + rest, line) == Emitted(LITERAL, w, " " + rest)
  {
    var t := w + " " + rest;
    ScanLiteralAccepts(w, " " + rest, line);
    assert t == w + (" " + rest);
    assert t[0] == w[0];
    ScannedLiteralLexeme(t, w, " " + rest, line);
  }

  /** At a digit, the lexeme is the literal `ScanLiteral` reads. */
  lemma ScannedLiteralLexeme(t: string, w: string, after: string, line: nat)
    requires |t| > 0 && IsDigit(t[0])
    requires ScanLiteral(t, line) == Success((w, after))
    ensures NextLexeme(t, line) == Emitted(LITERAL, w, after)
  {
    assert Operator(t).None?;
    assert !(t[0] in "!R" || t[0] == LBL_START || t[0] == COMMENT || IsAlpha(t[0]));
  }

  lemma WordLexeme(tk: Token, rest: string, line: nat)
    requires Standalone(tk) && (tk.kind == REGISTER || IsWordKind(tk.kind))
    requires var t := tk.text + " " + rest;
      |t| > 0 && !IsSpace(t[0]) && WordAt(t, tk.text) && t[|tk.text|..] == " " + rest
    ensures var t := tk.text + " " + rest; NextLexeme(t, line) == Emitted(tk.kind, tk.text, " " + rest)
  {
    var w := tk.text;
    var t := w + " " + rest;
    assert t[0] == w[0];
    var s := NextLexeme(t, line);
    WordAtUnique(t, s.text, w);
    assert s.after == t[|s.text|..];
  }

  /** A line that starts with no white space is lexed from its first lexeme. */
  lemma LexLineAtLexeme(t: string, src: string, line: nat)
    requires |t| > 0 && !IsSpace(t[0])
    ensures LexLine(t, src, line) == LexAt(t, src, line)
  {
    assert SkipSpaces(t) == t;
  }

  /** One standalone token and the space after it come back as that token ahead
      of the tokens of the rest. */
  lemma LexStandaloneThenSpace(tk: Token, rest: string, src: string, line: nat)
    requires Standalone(tk) && tk.src == src && tk.line == line
    ensures LexLine(tk.text + " " + rest, src, line)
      == Lexed([tk] + LexLine(rest, src, line).tokens, LexLine(rest, src, line).error)
  {
    var t := tk.text + " " + rest;
    StandaloneLexeme(tk, rest, line);
    LexLineAtLexeme(t, src, line);
    EmitThenSpace(tk, rest, src, line);
  }

  /** A standalone token is one the lexer emits and goes on after. */
  lemma StandaloneIsEmitted(tk: Token)
    requires Standalone(tk)
    ensures tk.kind != INSTR && tk.kind != LABEL && tk.kind != COMMENT_TOK && tk.kind != NEW_LINE
  {
  }

  /** A standalone token emitted ahead of a space: the token, then the tokens
      of what follows the space. */
  lemma EmitThenSpace(tk: Token, rest: string, src: string, line: nat)
    requires Standalone(tk) && tk.src == src && tk.line == line
    ensures Emit(tk.kind, tk.text, " " + rest, src, line)
      == Lexed([tk] + LexLine(rest, src, line).tokens, LexLine(rest, src, line).error)
  {
    var a := LexLine(" " + rest, src, line);
    StandaloneIsEmitted(tk);
    LexLineAfterSpaces(" ", rest, src, line);
    assert Emit(tk.kind, tk.text, " " + rest, src, line) == Lexed([Token(tk.kind, tk.text, src, line)] + a.tokens, a.error);
  }

  /** Lexing standalone tokens spelled with a space after each gives back exactly
      those tokens, in order, whatever white space ends the line. */
  lemma {:induction false} LexSpelled(toks: seq<Token>, tail: string, src: string, line: nat)
    requires forall i :: 0 <= i < |toks| ==> Standalone(toks[i]) && toks[i].src == src && toks[i].line == line
    requires BlankLine(tail)
    ensures LexLine(Spelled(toks) + tail, src, line) == Lexed(toks, None)
    decreases |toks|
  {
    if |toks| == 0 {
      assert Spelled(toks) + tail == tail;
      assert |SkipSpaces(tail)| == 0;
    } else {
      LexSpelled(toks[1..], tail, src, line);
      HeadThenRest(toks);
      LexSpelledStep(toks[0], toks[1..], tail, src, line);
    }
  }

  /** A nonempty sequence is its first element ahead of the others. */
  lemma HeadThenRest<T>(toks: seq<T>)
    requires |toks| > 0
    ensures [toks[0]] + toks[1..] == toks
  {
  }

  lemma LexSpelledStep(tk: Token, ts: seq<Token>, tail: string, src: string, line: nat)
    requires Standalone(tk) && tk.src == src && tk.line == line
    requires LexLine(Spelled(ts) + tail, src, line) == Lexed(ts, None)
    ensures LexLine(Spelled([tk] + ts) + tail, src, line) == Lexed([tk] + ts, None)
  {
    var toks := [tk] + ts;
    assert toks[0] == tk && toks[1..] == ts;
    SpelledCons(toks, tail);
    LexedAfterStandalone(tk, Spelled(ts) + tail, Spelled(toks) + tail, ts, toks, src, line);
  }

  /** Tokens lexed cleanly from `rest` stay so behind a standalone token and a space. */
  lemma LexedAfterStandalone(tk: Token, rest: string, whole: string, ts: seq<Token>, all: seq<Token>, src: string, line: nat)
    requires Standalone(tk) && tk.src == src && tk.line == line
    requires whole == tk.text + " " + rest && all == [tk] + ts
    requires LexLine(rest, src, line) == Lexed(ts, None)
    ensures LexLine(whole, src, line) == Lexed(all, None)
  {
    LexStandaloneThenSpace(tk, rest, src, line);
  }

  lemma SpelledCons(toks: seq<Token>, tail: string)
    requires |toks| > 0
    ensures Spelled(toks) + tail == toks[0].text + " " + (Spelled(toks[1..]) + tail)
  {
  }
}
