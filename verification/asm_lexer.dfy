/** The assembler's tokenizer. Source lines are upper-cased with commas turned into
    spaces; each line then splits into lexemes, classified by their first
    character. The C lexer is pulled one token at a time by the parser; here a
    whole file becomes the token stream it would deliver, ending either at the end
    of input or at the fatal error that stops it. */
module AsmLexer {
  import opened Wrappers
  import opened Text

  /** Size of the lexeme buffer, terminator included. */
  const SUB_STR_SZ: nat := 64
  /** The longest lexeme the buffer holds. */
  const MAX_LEXEME: nat := SUB_STR_SZ - 1

  const COMMENT: char := '#'
  const LBL_START: char := '.'

  datatype Kind = INSTR | REGISTER | LABEL | LITERAL

  /** A token with its lexeme and the number of the line it came from. */
  datatype Token = Token(kind: Kind, text: string, line: nat)

  /** The lexer's only fatal error: a character that cannot follow a lexeme. */
  datatype LexError = MisplacedChar(c: char, line: nat)

  /** The tokens delivered before input ran out (`error == None`) or before the
      lexer stopped the program. */
  datatype Lexed = Lexed(tokens: seq<Token>, error: Option<LexError>)

  /** Splits the lexeme off the front of `t`: a '.' with the alphanumeric run after
      it and an optional ':' (a label), or otherwise the alphanumeric run, which
      may be empty. */
  function TakeLexeme(t: string): (r: (string, string))
    ensures r.0 + r.1 == t
    ensures |r.0| <= MAX_LEXEME
    ensures |t| > 0 && t[0] == LBL_START ==> |r.0| > 0 && r.0[0] == LBL_START
    ensures |t| > 0 && t[0] != LBL_START ==> forall i :: 0 <= i < |r.0| ==> IsAlnum(r.0[i])
    ensures |t| > 0 && t[0] != LBL_START && |r.1| > 0 && |r.0| < MAX_LEXEME ==> !IsAlnum(r.1[0])
  {
    if |t| > 0 && t[0] == LBL_START then
      var n := Min(RunLength(t[1..], IsAlnum), MAX_LEXEME - 1);
      if 1 + n < |t| && t[1 + n] == ':' && 1 + n < MAX_LEXEME then (t[..n + 2], t[n + 2..])
      else (t[..1 + n], t[1 + n..])
    else
      var n := Min(RunLength(t, IsAlnum), MAX_LEXEME);
      (t[..n], t[n..])
  }

  /** The lexeme the C loops copy when nothing stops them at the buffer's end: an
      alphanumeric run of up to SUB_STR_SZ characters, or a '.' with up to
      SUB_STR_SZ - 1 of them and an optional ':'. The terminating NUL is then
      stored at index `|r.0|` of a buffer of SUB_STR_SZ characters. */
  function LexemeAsWritten(t: string): (r: (string, string))
    ensures r.0 + r.1 == t
    ensures |r.0| <= SUB_STR_SZ + 1
  {
    if |t| > 0 && t[0] == LBL_START then
      var n := Min(RunLength(t[1..], IsAlnum), SUB_STR_SZ - 1);
      if 1 + n < |t| && t[1 + n] == ':' then (t[..n + 2], t[n + 2..])
      else (t[..1 + n], t[1 + n..])
    else
      var n := Min(RunLength(t, IsAlnum), SUB_STR_SZ);
      (t[..n], t[n..])
  }

  /** The loops agree with the buffer-bounded lexeme exactly when their NUL lands
      inside the buffer. */
  lemma LexemeAsWrittenAgreesIff(t: string)
    ensures LexemeAsWritten(t) == TakeLexeme(t) <==> |LexemeAsWritten(t).0| < SUB_STR_SZ
  {
    if |t| > 0 && t[0] == LBL_START {
      var run := RunLength(t[1..], IsAlnum);
      if 1 + run < |t| {
        assert t[1 + run] == t[1..][run];
      }
    }
  }

  /** Sixty-four letters in a row: the loop copies all of them and stores the NUL
      at index 64, one past the end of the buffer. */
  lemma LongWordOverrunsBuffer()
    ensures var t := seq(SUB_STR_SZ, _ => 'A');
      |LexemeAsWritten(t).0| == SUB_STR_SZ && |TakeLexeme(t).0| == MAX_LEXEME
  {
    var t := seq(SUB_STR_SZ, _ => 'A');
    assert forall i :: 0 <= i < |t| ==> IsAlnum(t[i]);
    RunLengthOfPrefix(t, [], IsAlnum);
    assert t + [] == t;
  }

  /** A label of a '.', 63 letters and a ':' stores its NUL two past the end. */
  lemma LongLabelOverrunsBuffer()
    ensures var t := [LBL_START] + seq(SUB_STR_SZ - 1, _ => 'A') + [':'];
      |LexemeAsWritten(t).0| == SUB_STR_SZ + 1 && |TakeLexeme(t).0| == MAX_LEXEME
  {
    var w := seq(SUB_STR_SZ - 1, _ => 'A');
    var t := [LBL_START] + w + [':'];
    assert t[1..] == w + [':'];
    assert forall i :: 0 <= i < |w| ==> IsAlnum(w[i]);
    RunLengthOfPrefix(w, [':'], IsAlnum);
  }

  /** The token kind of a lexeme, by its first character: 'R' is a register (ahead
      of the other letters), '.' a label, another letter an instruction and a digit
      a literal. An empty lexeme is no token. */
  function Classify(x: string): (k: Option<Kind>)
    ensures |x| > 0 && (x[0] == LBL_START || IsAlnum(x[0])) <==> k.Some?
    ensures k == Some(REGISTER) <==> |x| > 0 && x[0] == 'R'
    ensures k == Some(LABEL) <==> |x| > 0 && x[0] == LBL_START
    ensures k == Some(INSTR) <==> |x| > 0 && IsAlpha(x[0]) && x[0] != 'R'
    ensures k == Some(LITERAL) <==> |x| > 0 && IsDigit(x[0])
  {
    if |x| == 0 then None
    else if x[0] == 'R' then Some(REGISTER)
    else if x[0] == LBL_START then Some(LABEL)
    else if IsAlpha(x[0]) then Some(INSTR)
    else if IsDigit(x[0]) then Some(LITERAL)
    else None
  }

  /** The tokens of the rest of a prepared line. After each lexeme a '#' discards
      the rest of the line; any other character except white space is fatal. */
  function LexLine(rest: string, line: nat): (r: Lexed)
    ensures forall i :: 0 <= i < |r.tokens| ==> TokenOf(r.tokens[i], line)
    decreases |rest|
  {
    var t := SkipSpaces(rest);
    if |t| == 0 then Lexed([], None)
    else
      var (lexeme, after) := TakeLexeme(t);
      var kept := if |after| > 0 && after[0] == COMMENT then [] else after;
      if |kept| > 0 && !IsSpace(kept[0]) then Lexed([], Some(MisplacedChar(kept[0], line)))
      else
        var next := if |kept| > 0 then kept[1..] else kept;
        var r := LexLine(next, line);
        match Classify(lexeme)
        case None => r
        case Some(k) =>
          ConsTokens(Token(k, lexeme, line), r.tokens, line);
          Lexed([Token(k, lexeme, line)] + r.tokens, r.error)
  }

  /** A token as the lexer delivers it for line `line`: a nonempty lexeme that
      fits the buffer, classified by its first character. */
  predicate TokenOf(t: Token, line: nat) {
    0 < |t.text| <= MAX_LEXEME && Classify(t.text) == Some(t.kind) && t.line == line
  }

  lemma ConsTokens(t: Token, toks: seq<Token>, line: nat)
    requires TokenOf(t, line)
    requires forall i :: 0 <= i < |toks| ==> TokenOf(toks[i], line)
    ensures forall i :: 0 <= i < |[t] + toks| ==> TokenOf(([t] + toks)[i], line)
  {
    forall i | 0 <= i < |[t] + toks| ensures TokenOf(([t] + toks)[i], line) {
      if i > 0 {
        assert ([t] + toks)[i] == toks[i - 1];
      }
    }
  }

  /** The token stream of a file given as its lines, numbered from `lineNo`. Each
      line is read as the C string its buffer holds, up to its first NUL. */
  function Lex(lines: seq<string>, lineNo: nat): (r: Lexed)
    ensures forall i :: 0 <= i < |r.tokens| ==>
      && 0 < |r.tokens[i].text| <= MAX_LEXEME
      && Classify(r.tokens[i].text) == Some(r.tokens[i].kind)
      && lineNo <= r.tokens[i].line < lineNo + |lines|
    decreases |lines|
  {
    if |lines| == 0 then Lexed([], None)
    else
      var first := LexLine(PrepareLine(CString(lines[0])), lineNo);
      if first.error.Some? then first
      else
        var r := Lex(lines[1..], lineNo + 1);
        Lexed(first.tokens + r.tokens, r.error)
  }

  /** A NUL ends its line: the lexer never looks past it, so whatever follows it
      on that line changes nothing, and a line holds exactly the tokens of the
      text before its first NUL. */
  lemma LexStopsAtNul(x: string, y: string, rest: seq<string>, lineNo: nat)
    requires forall i :: 0 <= i < |x| ==> x[i] != NUL
    ensures Lex([x + [NUL] + y] + rest, lineNo) == Lex([x] + rest, lineNo)
    ensures Lex([x + [NUL] + y], lineNo).tokens == LexLine(PrepareLine(x), lineNo).tokens
  {
    CStringAtNul(x, y);
    CStringWhole(x);
    assert ([x + [NUL] + y] + rest)[1..] == rest == ([x] + rest)[1..];
    assert [x + [NUL] + y][1..] == [];
  }

  /** What the parser sees at a position of the stream. */
  datatype Current = Tok(t: Token) | EndOfInput | Stopped(e: LexError)

  function CurrentAt(lx: Lexed, pos: nat): (c: Current)
    ensures c.Tok? <==> pos < |lx.tokens|
    ensures c.Stopped? <==> pos >= |lx.tokens| && lx.error.Some?
  {
    if pos < |lx.tokens| then Tok(lx.tokens[pos])
    else if lx.error.Some? then Stopped(lx.error.value)
    else EndOfInput
  }

  /** `match`: consumes the current token when it has kind `k`; otherwise reports
      a mismatch without moving. */
  function Match(lx: Lexed, pos: nat, k: Kind): (r: Option<nat>)
    ensures r.Some? <==> pos < |lx.tokens| && lx.tokens[pos].kind == k
    ensures r.Some? ==> r.value == pos + 1
  {
    match CurrentAt(lx, pos)
    case Tok(t) => if t.kind == k then Some(pos + 1) else None
    case _ => None
  }

  // ---------------------------------------------------------------- lemmas

  /** A line holding only white space, or only a comment after it, yields no
      token and no error. */
  lemma BlankOrCommentLine(rest: string, line: nat)
    requires var t := SkipSpaces(rest); |t| == 0 || t[0] == COMMENT
    ensures LexLine(rest, line) == Lexed([], None)
  {
    var t := SkipSpaces(rest);
    if |t| > 0 {
      TakeAtComment(t);
      var empty := LexLine([], line);
      assert SkipSpaces([]) == [];
      assert empty == Lexed([], None);
      assert Classify([]).None?;
    }
  }

  /** At a '#' there is no lexeme to take. */
  lemma TakeAtComment(t: string)
    requires |t| > 0 && t[0] == COMMENT
    ensures TakeLexeme(t) == ([], t)
  {
    assert RunLength(t, IsAlnum) == 0;
  }

  /** A word the lexer reads back as one token: a nonempty alphanumeric run that
      fits the lexeme buffer. */
  predicate PlainWord(w: string) {
    0 < |w| <= MAX_LEXEME && forall i :: 0 <= i < |w| ==> IsAlnum(w[i])
  }

  /** Words, each followed by one space. */
  function SpaceAfterEach(ws: seq<string>): (s: string) {
    if |ws| == 0 then [] else ws[0] + " " + SpaceAfterEach(ws[1..])
  }

  /** The tokens the lexer gives for `ws` on line `line`. */
  function WordTokens(ws: seq<string>, line: nat): (r: seq<Token>)
    requires forall i :: 0 <= i < |ws| ==> PlainWord(ws[i])
    ensures |r| == |ws|
    ensures forall i :: 0 <= i < |ws| ==> r[i].text == ws[i] && r[i].line == line
  {
    if |ws| == 0 then []
    else
      assert PlainWord(ws[0]);
      [Token(Classify(ws[0]).value, ws[0], line)] + WordTokens(ws[1..], line)
  }

  /** One word and the space after it become one token ahead of the rest. */
  lemma LexWordThenSpace(w: string, rest: string, line: nat)
    requires PlainWord(w)
    ensures LexLine(w + " " + rest, line)
      == Lexed([Token(Classify(w).value, w, line)] + LexLine(rest, line).tokens, LexLine(rest, line).error)
  {
    WordThenSpaceShape(w, rest);
    LexLineAtSpace(w + " " + rest, w, " " + rest, line);
  }

  /** A word followed by a space starts with no white space, and its lexeme is
      the word. */
  lemma WordThenSpaceShape(w: string, rest: string)
    requires PlainWord(w)
    ensures var t := w + " " + rest;
      |t| > 0 && SkipSpaces(t) == t && TakeLexeme(t) == (w, " " + rest)
    ensures (" " + rest)[0] == ' ' && (" " + rest)[1..] == rest
  {
    var t := w + " " + rest;
    assert SkipSpaces(t) == t by {
      assert t[0] == w[0];
    }
    assert TakeLexeme(t) == (w, " " + rest) by {
      TakeWord(w, rest);
    }
  }

  /** One step of `LexLine` at a word followed by a space. */
  lemma LexLineAtSpace(t: string, w: string, after: string, line: nat)
    requires |t| > 0 && SkipSpaces(t) == t
    requires TakeLexeme(t) == (w, after)
    requires |after| > 0 && after[0] == ' '
    requires Classify(w).Some?
    ensures LexLine(t, line)
      == Lexed([Token(Classify(w).value, w, line)] + LexLine(after[1..], line).tokens, LexLine(after[1..], line).error)
  {
  }

  /** A plain word followed by a space is taken whole as the lexeme. */
  lemma TakeWord(w: string, rest: string)
    requires PlainWord(w)
    ensures TakeLexeme(w + " " + rest) == (w, " " + rest)
  {
    var t := w + " " + rest;
    assert t == w + (" " + rest);
    RunLengthOfPrefix(w, " " + rest, IsAlnum);
    assert t[..|w|] == w;
    assert t[|w|..] == " " + rest;
  }

  /** Lexing words separated by spaces gives back exactly those words, in order,
      each as one token classified by its first character. */
  lemma {:induction false} LexSpacedWords(ws: seq<string>, tail: string, line: nat)
    requires forall i :: 0 <= i < |ws| ==> PlainWord(ws[i])
    requires forall i :: 0 <= i < |tail| ==> IsSpace(tail[i])
    ensures LexLine(SpaceAfterEach(ws) + tail, line) == Lexed(WordTokens(ws, line), None)
    decreases |ws|
  {
    if |ws| == 0 {
      assert SpaceAfterEach(ws) + tail == tail;
      assert |SkipSpaces(tail)| == 0;
    } else {
      var rest := SpaceAfterEach(ws[1..]) + tail;
      assert SpaceAfterEach(ws) + tail == ws[0] + " " + rest;
      LexWordThenSpace(ws[0], rest, line);
      LexSpacedWords(ws[1..], tail, line);
    }
  }

  /** White space in front of the rest of a line changes nothing. */
  lemma LexLineSkipsSpace(c: char, x: string, line: nat)
    requires IsSpace(c)
    ensures LexLine([c] + x, line) == LexLine(x, line)
  {
    assert ([c] + x)[1..] == x;
  }

  /** A word that ends the line, before nothing but white space, is the line's
      only token. */
  lemma LexWordAtEnd(w: string, tail: string, line: nat)
    requires PlainWord(w)
    requires |tail| > 0 && forall i :: 0 <= i < |tail| ==> IsSpace(tail[i])
    ensures LexLine(w + tail, line) == Lexed([Token(Classify(w).value, w, line)], None)
  {
    WordThenTailShape(w, tail);
    LexLineAtWord(w + tail, w, tail, line);
    assert |SkipSpaces(tail[1..])| == 0;
  }

  /** A word followed by white space starts with no white space, and its
      lexeme is the word. */
  lemma WordThenTailShape(w: string, tail: string)
    requires PlainWord(w) && |tail| > 0 && IsSpace(tail[0])
    ensures var t := w + tail; |t| > 0 && SkipSpaces(t) == t && TakeLexeme(t) == (w, tail)
  {
    var t := w + tail;
    assert SkipSpaces(t) == t by {
      assert t[0] == w[0];
    }
    WordThenTailLexeme(w, tail);
  }

  /** The lexeme of a word followed by white space is the word. */
  lemma WordThenTailLexeme(w: string, tail: string)
    requires PlainWord(w) && |tail| > 0 && IsSpace(tail[0])
    ensures TakeLexeme(w + tail) == (w, tail)
  {
    var t := w + tail;
    assert t[0] == w[0] && t[0] != LBL_START;
    RunLengthOfPrefix(w, tail, IsAlnum);
    assert t[..|w|] == w && t[|w|..] == tail;
  }

  /** One step of `LexLine` at a word followed by white space. */
  lemma LexLineAtWord(t: string, w: string, after: string, line: nat)
    requires |t| > 0 && SkipSpaces(t) == t
    requires TakeLexeme(t) == (w, after)
    requires |after| > 0 && IsSpace(after[0])
    requires Classify(w).Some?
    ensures LexLine(t, line)
      == Lexed([Token(Classify(w).value, w, line)] + LexLine(after[1..], line).tokens, LexLine(after[1..], line).error)
  {
  }
}
