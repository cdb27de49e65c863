/** The exit label of a LOOP, as lang.c tracks it. The compiler keeps no flag
    for "some BREAK used the exit label": it overwrites the first character of
    the exit label's own text. JUMP stores the byte 1 there, and BREAK stores a
    NUL after writing its jump. ENDLOOP then writes the label only when a NUL is
    left. Two slips follow. First, a second BREAK with no JUMP since the first
    one prints its jump with the NUL still in place, so the target is the empty
    string. Second, a JUMP after the last BREAK hides the NUL, so the label the
    BREAKs jump to is never written.

    The model keeps only the statements of one loop body that touch the
    sentinel, in source order: JUMP and BREAK at the loop's own level or inside
    its IFs, everything else as `OtherStmt` (an inner LOOP has its own labels).
    The output is one string per line. The intended rule, which `Lang.ParseLoop`
    implements with its `brk` flag, is that every BREAK jumps to the exit label
    and that label is written exactly when some BREAK uses it. */
module LoopExits {
  import opened Wrappers
  import opened Text
  import opened MachCode
  import opened Lang
  import opened LangLexer

  /** The statements of a loop body that matter to its exit label. */
  datatype Event = JumpStmt | BreakStmt | OtherStmt

  /** `LBL_START`, `LBL_JUMP` and `LBL_BREAK`: the three first characters of the
      exit label's buffer. */
  const START: char := '.'
  const JUMP_MARK: char := 1 as char

  /** The text of a label `make_label` returns: it starts with '.' and holds no NUL. */
  predicate IsLabelText(l: string) {
    |l| > 0 && l[0] == START && forall i :: 0 <= i < |l| ==> l[i] != NUL
  }

  lemma MakeLabelIsLabelText(n: nat)
    ensures IsLabelText(MakeLabel(n))
  {
    var l := MakeLabel(n);
    forall i | 0 <= i < |l| ensures l[i] != NUL {
      if i >= 2 {
        assert l[i] == l[2..][i - 2];
      }
    }
  }

  /** The exit label's buffer with its first character replaced by `c`. */
  function Marked(exit: string, c: char): (buf: string)
    requires |exit| > 0
    ensures |buf| == |exit| && buf[0] == c && buf[1..] == exit[1..]
  {
    [c] + exit[1..]
  }

  /** The text a BREAK prints as its target when the sentinel holds `c`:
      `*out = *out ? LBL_START : LBL_BREAK`, then `printf("%s")`. */
  function BreakTarget(exit: string, c: char): (t: string)
    requires IsLabelText(exit)
  {
    CString(Marked(exit, if c != NUL then START else NUL))
  }

  /** A BREAK's target is the exit label unless the sentinel already holds NUL,
      in which case it is empty. */
  lemma BreakTargetIs(exit: string, c: char)
    requires IsLabelText(exit)
    ensures BreakTarget(exit, c) == if c != NUL then exit else ""
  {
    if c != NUL {
      assert Marked(exit, START) == exit;
      CStringWhole(exit);
    }
  }

  // ---------------------------------------------------------------- as written

  /** `parse_block` on a loop body as written: the sentinel left in the first
      character of the exit label and the jump lines the BREAKs print, in order.
      The buffer starts as the label itself, whose first character is '.'. */
  function BodyAsWritten(evs: seq<Event>, exit: string): (r: (char, seq<string>))
    requires IsLabelText(exit)
    decreases |evs|
  {
    if evs == [] then (START, [])
    else
      var prev := BodyAsWritten(evs[..|evs| - 1], exit);
      match evs[|evs| - 1]
      case JumpStmt => (JUMP_MARK, prev.1)
      case BreakStmt => (NUL, prev.1 + [JumpLine(Name(JMP), BreakTarget(exit, prev.0))])
      case OtherStmt => prev
  }

  /** `parse_loop` as written, from the body on: the body's lines, the jump back
      to the start, and the exit label only when the sentinel is NUL (after the
      first character is restored to '.'). */
  function LoopAsWritten(evs: seq<Event>, start: string, exit: string): (lines: seq<string>)
    requires IsLabelText(exit)
  {
    var body := BodyAsWritten(evs, exit);
    var wasBreak := body.0 == NUL;
    body.1 + [JumpLine(Name(JMP), start)]
    + (if wasBreak then [LabelLine(CString(Marked(exit, START)))] else [])
  }

  // ---------------------------------------------------------------- intended

  /** The jump lines of a loop body as intended: one jump to the exit label per BREAK. */
  function BodyIntended(evs: seq<Event>, exit: string): (lines: seq<string>)
    decreases |evs|
  {
    if evs == [] then []
    else
      BodyIntended(evs[..|evs| - 1], exit)
      + (if evs[|evs| - 1] == BreakStmt then [JumpLine(Name(JMP), exit)] else [])
  }

  /** The loop as intended: the exit label is written exactly when some BREAK
      jumps to it. */
  function LoopIntended(evs: seq<Event>, start: string, exit: string): (lines: seq<string>) {
    BodyIntended(evs, exit) + [JumpLine(Name(JMP), start)]
    + (if BreakStmt in evs then [LabelLine(exit)] else [])
  }

  /** The number of BREAKs in a body. */
  function Breaks(evs: seq<Event>): (n: nat)
    ensures n <= |evs|
    ensures n > 0 <==> BreakStmt in evs
    decreases |evs|
  {
    if evs == [] then 0
    else
      assert evs == evs[..|evs| - 1] + [evs[|evs| - 1]];
      Breaks(evs[..|evs| - 1]) + (if evs[|evs| - 1] == BreakStmt then 1 else 0)
  }

  /** Every line the intended body writes jumps to the exit label, one per BREAK,
      and the intended loop defines that label exactly when some line uses it. */
  lemma {:induction false} IntendedTargetsDefined(evs: seq<Event>, start: string, exit: string)
    ensures |BodyIntended(evs, exit)| == Breaks(evs)
    ensures forall i :: 0 <= i < |BodyIntended(evs, exit)| ==> BodyIntended(evs, exit)[i] == JumpLine(Name(JMP), exit)
    ensures LabelLine(exit) in LoopIntended(evs, start, exit)[|BodyIntended(evs, exit)| + 1..]
      <==> JumpLine(Name(JMP), exit) in BodyIntended(evs, exit)
    decreases |evs|
  {
    if evs != [] {
      IntendedTargetsDefined(evs[..|evs| - 1], start, exit);
    }
    var body := BodyIntended(evs, exit);
    var tail := LoopIntended(evs, start, exit)[|body| + 1..];
    assert tail == if BreakStmt in evs then [LabelLine(exit)] else [];
    if BreakStmt in evs {
      assert body[0] == JumpLine(Name(JMP), exit);
    }
  }

  // ---------------------------------------------------------------- comparison

  /** The last JUMP or BREAK of a body, if any: the statement that last wrote
      the sentinel. */
  function LastControl(evs: seq<Event>): (e: Option<Event>)
    ensures e.Some? ==> e.value != OtherStmt && e.value in evs
    ensures e.None? ==> JumpStmt !in evs && BreakStmt !in evs
    decreases |evs|
  {
    if evs == [] then None
    else if evs[|evs| - 1] != OtherStmt then Some(evs[|evs| - 1])
    else
      assert evs == evs[..|evs| - 1] + [OtherStmt];
      LastControl(evs[..|evs| - 1])
  }

  /** The sentinel is '.' before any JUMP or BREAK, then the mark of the last one. */
  lemma {:induction false} SentinelTracksLastControl(evs: seq<Event>, exit: string)
    requires IsLabelText(exit)
    ensures BodyAsWritten(evs, exit).0 ==
      match LastControl(evs)
      case None => START
      case Some(JumpStmt) => JUMP_MARK
      case Some(_) => NUL
    decreases |evs|
  {
    if evs != [] {
      SentinelTracksLastControl(evs[..|evs| - 1], exit);
    }
  }

  /** No BREAK follows another BREAK without a JUMP in between. */
  predicate NoRepeatedBreak(evs: seq<Event>) {
    forall i :: 0 <= i < |evs| && evs[i] == BreakStmt ==> LastControl(evs[..i]) != Some(BreakStmt)
  }

  /** Both bodies print one line per BREAK. */
  lemma {:induction false} BodyLengths(evs: seq<Event>, exit: string)
    requires IsLabelText(exit)
    ensures |BodyAsWritten(evs, exit).1| == |BodyIntended(evs, exit)| == Breaks(evs)
    decreases |evs|
  {
    if evs != [] {
      BodyLengths(evs[..|evs| - 1], exit);
    }
  }

  /** `NoRepeatedBreak` of a body extended by one statement. */
  lemma NoRepeatedBreakSnoc(evs: seq<Event>)
    requires evs != []
    ensures NoRepeatedBreak(evs) <==>
      NoRepeatedBreak(evs[..|evs| - 1])
      && (evs[|evs| - 1] == BreakStmt ==> LastControl(evs[..|evs| - 1]) != Some(BreakStmt))
  {
    var init := evs[..|evs| - 1];
    assert forall i :: 0 <= i < |init| ==> evs[..i] == init[..i];
    assert evs[..|init|] == init;
  }

  /** The two bodies' lines match exactly when no BREAK repeats a BREAK: a
      repeated one prints an empty target. */
  lemma {:induction false} BodyAgreesIff(evs: seq<Event>, exit: string)
    requires IsLabelText(exit)
    ensures BodyAsWritten(evs, exit).1 == BodyIntended(evs, exit) <==> NoRepeatedBreak(evs)
    decreases |evs|
  {
    if evs != [] {
      var init, e := evs[..|evs| - 1], evs[|evs| - 1];
      BodyAgreesIff(init, exit);
      NoRepeatedBreakSnoc(evs);
      var w, i := BodyAsWritten(init, exit), BodyIntended(init, exit);
      if e == BreakStmt {
        SentinelTracksLastControl(init, exit);
        BreakTargetIs(exit, w.0);
        assert JumpLine(Name(JMP), "") != JumpLine(Name(JMP), exit) by {
          assert |JumpLine(Name(JMP), "")| < |JumpLine(Name(JMP), exit)|;
        }
        assert BodyAsWritten(evs, exit).1 == w.1 + [JumpLine(Name(JMP), BreakTarget(exit, w.0))];
        assert BodyIntended(evs, exit) == i + [JumpLine(Name(JMP), exit)];
        AppendOneIff(w.1, i, JumpLine(Name(JMP), BreakTarget(exit, w.0)), JumpLine(Name(JMP), exit));
      } else {
        assert BodyAsWritten(evs, exit).1 == w.1;
        assert BodyIntended(evs, exit) == i + [];
      }
    }
  }

  /** Sequences extended by one element are equal exactly when the prefixes
      and the added elements are. */
  lemma AppendOneIff<T>(a: seq<T>, b: seq<T>, x: T, y: T)
    ensures a + [x] == b + [y] <==> a == b && x == y
  {
    if a + [x] == b + [y] {
      assert |a| == |b|;
      assert a == (a + [x])[..|a|] && b == (b + [y])[..|b|];
      assert x == (a + [x])[|a|];
    }
  }

  /** Two line sequences that share a middle line and whose heads have the same
      length are equal exactly when heads and tails are. */
  lemma SplitAtMiddle<T>(a: seq<T>, b: seq<T>, x: T, t: seq<T>, u: seq<T>)
    requires |a| == |b|
    ensures a + [x] + t == b + [x] + u <==> a == b && t == u
  {
    if a + [x] + t == b + [x] + u {
      assert a == (a + [x] + t)[..|a|] && b == (b + [x] + u)[..|b|];
      assert t == (a + [x] + t)[|a| + 1..] && u == (b + [x] + u)[|b| + 1..];
    }
  }

  /** The compiled loop matches the intended one exactly when no BREAK repeats
      a BREAK and, if there is a BREAK at all, no JUMP comes after the last one. */
  lemma LoopAgreesIff(evs: seq<Event>, start: string, exit: string)
    requires IsLabelText(exit)
    ensures LoopAsWritten(evs, start, exit) == LoopIntended(evs, start, exit)
      <==> NoRepeatedBreak(evs) && (BreakStmt in evs ==> LastControl(evs) == Some(BreakStmt))
  {
    var body := BodyAsWritten(evs, exit);
    var bi := BodyIntended(evs, exit);
    BodyLengths(evs, exit);
    BodyAgreesIff(evs, exit);
    SentinelTracksLastControl(evs, exit);
    assert Marked(exit, START) == exit;
    CStringWhole(exit);
    var back := JumpLine(Name(JMP), start);
    var tw: seq<string> := if body.0 == NUL then [LabelLine(exit)] else [];
    var ti: seq<string> := if BreakStmt in evs then [LabelLine(exit)] else [];
    assert LoopAsWritten(evs, start, exit) == body.1 + [back] + tw;
    assert LoopIntended(evs, start, exit) == bi + [back] + ti;
    assert tw == ti <==> (BreakStmt in evs ==> LastControl(evs) == Some(BreakStmt));
    SplitAtMiddle(body.1, bi, back, tw, ti);
  }

  /** Two BREAKs in a row: the second one's jump has no target. */
  lemma TwoBreaksAsWritten(start: string, exit: string)
    requires IsLabelText(exit)
    ensures LoopAsWritten([BreakStmt, BreakStmt], start, exit)
      == [JumpLine(Name(JMP), exit), JumpLine(Name(JMP), ""), JumpLine(Name(JMP), start), LabelLine(exit)]
    ensures LoopAsWritten([BreakStmt, BreakStmt], start, exit) != LoopIntended([BreakStmt, BreakStmt], start, exit)
  {
    var evs := [BreakStmt, BreakStmt];
    assert evs[..1] == [BreakStmt] && [BreakStmt][..0] == [];
    BreakTargetIs(exit, START);
    BreakTargetIs(exit, NUL);
    assert Marked(exit, START) == exit;
    CStringWhole(exit);
    assert LoopAsWritten(evs, start, exit)[1] != LoopIntended(evs, start, exit)[1] by {
      assert |JumpLine(Name(JMP), "")| < |JumpLine(Name(JMP), exit)|;
    }
  }

  /** A BREAK and then a JUMP: the BREAK jumps to the exit label, which is
      never written. */
  lemma BreakThenJumpAsWritten(start: string, exit: string)
    requires IsLabelText(exit)
    ensures LoopAsWritten([BreakStmt, JumpStmt], start, exit)
      == [JumpLine(Name(JMP), exit), JumpLine(Name(JMP), start)]
    ensures LabelLine(exit) !in LoopAsWritten([BreakStmt, JumpStmt], start, exit)
    ensures LabelLine(exit) in LoopIntended([BreakStmt, JumpStmt], start, exit)
  {
    var evs := [BreakStmt, JumpStmt];
    assert evs[..1] == [BreakStmt] && [BreakStmt][..0] == [];
    BreakTargetIs(exit, START);
    var lines := LoopAsWritten(evs, start, exit);
    assert LabelLine(exit) != JumpLine(Name(JMP), exit) by {
      assert |LabelLine(exit)| < |JumpLine(Name(JMP), exit)|;
    }
    assert LabelLine(exit) != JumpLine(Name(JMP), start) by {
      assert LabelLine(exit)[0] == '.' && JumpLine(Name(JMP), start)[0] == 'J';
    }
  }

  // ---------------------------------------------------------------- compiled loops

  /** The text of a run of lines, one after the other. */
  function Joined(lines: seq<string>): (t: string)
    decreases |lines|
  {
    if lines == [] then "" else Joined(lines[..|lines| - 1]) + lines[|lines| - 1]
  }

  lemma {:induction false} JoinedAppend(a: seq<string>, b: seq<string>)
    ensures Joined(a + b) == Joined(a) + Joined(b)
    decreases |b|
  {
    if b == [] {
      assert a + b == a;
    } else {
      var c := b[..|b| - 1];
      assert (a + b)[..|a + b| - 1] == a + c;
      JoinedAppend(a, c);
    }
  }

  /** The statement a JUMP or BREAK token stands for. */
  function EventOf(k: Kind): Event {
    if k == BREAK then BreakStmt else if k == JUMP then JumpStmt else OtherStmt
  }

  function Events(toks: seq<Token>): (evs: seq<Event>)
    ensures |evs| == |toks|
    decreases |toks|
  {
    if toks == [] then [] else Events(toks[..|toks| - 1]) + [EventOf(toks[|toks| - 1].kind)]
  }

  /** The events of the tokens from `a` up to `i + 1`: those up to `i`, then token `i`'s. */
  lemma EventsSnoc(toks: seq<Token>, a: nat, i: nat)
    requires a <= i < |toks|
    ensures Events(toks[a..i + 1]) == Events(toks[a..i]) + [EventOf(toks[i].kind)]
  {
    var w := toks[a..i + 1];
    assert w[..|w| - 1] == toks[a..i];
  }

  /** The intended body of one more statement: one more jump exactly for a BREAK. */
  lemma BodyIntendedSnoc(evs: seq<Event>, ev: Event, exit: string)
    ensures Joined(BodyIntended(evs + [ev], exit)) ==
      Joined(BodyIntended(evs, exit)) + (if ev == BreakStmt then JumpLine(Name(JMP), exit) else "")
  {
    var body := BodyIntended(evs, exit);
    assert (evs + [ev])[..|evs|] == evs;
    if ev == BreakStmt {
      var line := JumpLine(Name(JMP), exit);
      assert BodyIntended(evs + [ev], exit) == body + [line];
      assert (body + [line])[..|body|] == body;
    } else {
      assert BodyIntended(evs + [ev], exit) == body + [];
      assert body + [] == body;
    }
  }

  /** A run of tokens each of which is a JUMP or a BREAK. */
  predicate Controls(toks: seq<Token>) {
    forall i :: 0 <= i < |toks| ==> toks[i].kind in {BREAK, JUMP}
  }

  lemma ControlsAt(toks: seq<Token>, a: nat, e: nat)
    requires a <= e <= |toks| && Controls(toks[a..e])
    ensures forall k :: a <= k < e ==> toks[k].kind in {BREAK, JUMP}
  {
    forall k | a <= k < e ensures toks[k].kind in {BREAK, JUMP} {
      assert toks[k] == toks[a..e][k - a];
    }
  }

  /** The compiler's state after the control tokens from `s0.pos` up to `i`, as
      the intended protocol has it: one jump to the exit label per BREAK, and
      the break flag set once some BREAK occurred. */
  function Through(lx: Lexed, s0: St, exit: string, i: nat): St
    requires s0.pos <= i <= |lx.tokens|
  {
    var evs := Events(lx.tokens[s0.pos..i]);
    s0.(pos := i, out := s0.out + Joined(BodyIntended(evs, exit)), brk := s0.brk || BreakStmt in evs)
  }

  /** A BREAK token in `Through`: one more jump to the exit label, and the flag set. */
  lemma ThroughBreak(lx: Lexed, s0: St, exit: string, i: nat)
    requires s0.pos <= i < |lx.tokens| && lx.tokens[i].kind == BREAK
    ensures var si := Through(lx, s0, exit, i);
      Through(lx, s0, exit, i + 1) == si.(pos := i + 1, out := si.out + JumpLine(Name(JMP), exit), brk := true)
  {
    var evs := Events(lx.tokens[s0.pos..i]);
    EventsSnoc(lx.tokens, s0.pos, i);
    BodyIntendedSnoc(evs, BreakStmt, exit);
    var text := Joined(BodyIntended(evs, exit));
    var line := JumpLine(Name(JMP), exit);
    assert s0.out + (text + line) == s0.out + text + line;
  }

  /** Any other token in `Through` only moves the position. */
  lemma ThroughOther(lx: Lexed, s0: St, exit: string, i: nat)
    requires s0.pos <= i < |lx.tokens| && lx.tokens[i].kind != BREAK
    ensures Through(lx, s0, exit, i + 1) == Through(lx, s0, exit, i).(pos := i + 1)
  {
    var evs := Events(lx.tokens[s0.pos..i]);
    var ev := EventOf(lx.tokens[i].kind);
    EventsSnoc(lx.tokens, s0.pos, i);
    BodyIntendedSnoc(evs, ev, exit);
    var text := Joined(BodyIntended(evs, exit));
    assert text + "" == text;
  }

  /** One control token of a loop body: compiling it takes `Through` one token on. */
  lemma ControlStep(lx: Lexed, s0: St, loop: Loop, i: nat, e: nat)
    requires s0.pos <= i < e < |lx.tokens|
    requires lx.tokens[i].kind in {BREAK, JUMP}
    ensures Block(lx, Through(lx, s0, loop.exit, i), Some(loop)) ==
      Block(lx, Through(lx, s0, loop.exit, i + 1), Some(loop))
  {
    if lx.tokens[i].kind == BREAK {
      BreakStep(lx, s0, loop, i, e);
    } else {
      JumpStep(lx, s0, loop, i, e);
    }
  }

  /** A BREAK: both sides write one more jump to the exit label. */
  lemma BreakStep(lx: Lexed, s0: St, loop: Loop, i: nat, e: nat)
    requires s0.pos <= i < e < |lx.tokens|
    requires lx.tokens[i].kind == BREAK
    ensures Block(lx, Through(lx, s0, loop.exit, i), Some(loop)) ==
      Block(lx, Through(lx, s0, loop.exit, i + 1), Some(loop))
  {
    var si := Through(lx, s0, loop.exit, i);
    BlockControlStep(lx, si, loop);
    ThroughBreak(lx, s0, loop.exit, i);
  }

  /** A JUMP: both sides only move past it. */
  lemma JumpStep(lx: Lexed, s0: St, loop: Loop, i: nat, e: nat)
    requires s0.pos <= i < e < |lx.tokens|
    requires lx.tokens[i].kind == JUMP
    ensures Block(lx, Through(lx, s0, loop.exit, i), Some(loop)) ==
      Block(lx, Through(lx, s0, loop.exit, i + 1), Some(loop))
  {
    var si := Through(lx, s0, loop.exit, i);
    BlockControlStep(lx, si, loop);
    ThroughOther(lx, s0, loop.exit, i);
  }

  /** Values linked step by step from `i` to `e` are all equal. */
  lemma {:induction false} ChainEq<T>(f: nat -> T, i: nat, e: nat)
    requires i <= e
    requires forall j :: i <= j < e ==> f(j) == f(j + 1)
    ensures f(i) == f(e)
    decreases e - i
  {
    if i < e {
      ChainEq(f, i + 1, e);
    }
  }

  /** Every control token of the body leaves what the rest compiles to unchanged. */
  lemma ControlsLinked(lx: Lexed, s0: St, loop: Loop, i: nat, e: nat)
    requires s0.pos <= i <= e < |lx.tokens|
    requires forall k :: i <= k < e ==> lx.tokens[k].kind in {BREAK, JUMP}
    ensures forall j :: i <= j < e ==>
      Block(lx, Through(lx, s0, loop.exit, j), Some(loop)) == Block(lx, Through(lx, s0, loop.exit, j + 1), Some(loop))
  {
    forall j | i <= j < e
      ensures Block(lx, Through(lx, s0, loop.exit, j), Some(loop)) == Block(lx, Through(lx, s0, loop.exit, j + 1), Some(loop))
    {
      ControlStep(lx, s0, loop, j, e);
    }
  }

  /** A loop body made only of JUMP and BREAK tokens compiles, token by token,
      to the intended body: a jump to the exit label for each BREAK. */
  lemma BlockOfControls(lx: Lexed, s0: St, loop: Loop, i: nat, e: nat)
    requires s0.pos <= i <= e < |lx.tokens|
    requires forall k :: i <= k < e ==> lx.tokens[k].kind in {BREAK, JUMP}
    requires lx.tokens[e].kind == ENDLOOP
    ensures Block(lx, Through(lx, s0, loop.exit, i), Some(loop)) == Success(Through(lx, s0, loop.exit, e))
  {
    var f := (j: nat) =>
      if s0.pos <= j <= e then Block(lx, Through(lx, s0, loop.exit, j), Some(loop)) else Success(s0);
    ControlsLinked(lx, s0, loop, i, e);
    ChainEq(f, i, e);
    BlockStopsAtEndloop(lx, Through(lx, s0, loop.exit, e), Some(loop));
  }

  /** The text of the intended loop: the body's jumps, the jump back, and the
      exit label when some BREAK occurs. */
  lemma LoopIntendedText(evs: seq<Event>, start: string, exit: string)
    ensures Joined(LoopIntended(evs, start, exit)) ==
      Joined(BodyIntended(evs, exit)) + JumpLine(Name(JMP), start)
      + (if BreakStmt in evs then LabelLine(exit) else "")
  {
    var body := BodyIntended(evs, exit);
    var back := JumpLine(Name(JMP), start);
    var tail: seq<string> := if BreakStmt in evs then [LabelLine(exit)] else [];
    JoinedAppend(body + [back], tail);
    JoinedAppend(body, [back]);
    assert Joined([back]) == back by {
      assert [back][..0] == [];
    }
    if BreakStmt in evs {
      assert Joined(tail) == LabelLine(exit) by {
        assert tail[..0] == [];
      }
    }
  }

  lemma Regroup(a: string, b: string, c: string, d: string)
    ensures a + b + c + d == a + (b + c + d)
  {
  }

  /** What ParseLoop makes of a body of events `evs` compiled as intended: the
      start label and the text of the intended loop. */
  lemma LoopResultText(st: St, evs: seq<Event>, b: St, e: nat)
    requires b == LoopEntry(st).(pos := e,
      out := LoopEntry(st).out + Joined(BodyIntended(evs, MakeLabel(st.labels + 1))), brk := BreakStmt in evs)
    ensures var start, exit := MakeLabel(st.labels), MakeLabel(st.labels + 1);
      b.(pos := e + 1, brk := st.brk,
         out := b.out + JumpLine(Name(JMP), start) + (if b.brk then LabelLine(exit) else ""))
      == st.(pos := e + 1, labels := st.labels + 2,
         out := st.out + LabelLine(start) + Joined(LoopIntended(evs, start, exit)))
  {
    var start, exit := MakeLabel(st.labels), MakeLabel(st.labels + 1);
    var body := Joined(BodyIntended(evs, exit));
    var back := JumpLine(Name(JMP), start);
    var tail := if BreakStmt in evs then LabelLine(exit) else "";
    LoopIntendedText(evs, start, exit);
    Regroup(st.out + LabelLine(start), body, back, tail);
  }

  /** Nothing has been compiled before the first token of the body. */
  lemma ThroughStart(lx: Lexed, s0: St, exit: string)
    requires s0.pos <= |lx.tokens|
    ensures Through(lx, s0, exit, s0.pos) == s0
  {
    assert Events(lx.tokens[s0.pos..s0.pos]) == [];
  }

  /** The state after the body of a loop entered from `st`. */
  lemma ThroughLoopBody(lx: Lexed, st: St, exit: string, e: nat)
    requires st.pos + 1 <= e <= |lx.tokens|
    ensures Through(lx, LoopEntry(st), exit, e) == LoopEntry(st).(pos := e,
      out := LoopEntry(st).out + Joined(BodyIntended(Events(lx.tokens[st.pos + 1..e]), exit)),
      brk := BreakStmt in Events(lx.tokens[st.pos + 1..e]))
  {
  }

  /** A LOOP whose body is JUMP and BREAK statements compiles to the start label
      and then the intended loop: the body's jumps to the exit label, the jump
      back to the start, and the exit label exactly when some BREAK jumps to it. */
  lemma LoopOfControls(lx: Lexed, st: St, e: nat)
    requires st.pos < e < |lx.tokens| && lx.tokens[st.pos].kind == LOOP
    requires Controls(lx.tokens[st.pos + 1..e]) && lx.tokens[e].kind == ENDLOOP
    requires e + 1 < |lx.tokens| || lx.error.None?
    ensures var start, exit := MakeLabel(st.labels), MakeLabel(st.labels + 1);
      ParseLoop(lx, st) == Success(st.(pos := e + 1, labels := st.labels + 2,
        out := st.out + LabelLine(start) + Joined(LoopIntended(Events(lx.tokens[st.pos + 1..e]), start, exit))))
  {
    var start, exit := MakeLabel(st.labels), MakeLabel(st.labels + 1);
    var s0 := LoopEntry(st);
    ThroughStart(lx, s0, exit);
    ControlsAt(lx.tokens, st.pos + 1, e);
    BlockOfControls(lx, s0, Loop(start, exit), s0.pos, e);
    var evs := Events(lx.tokens[st.pos + 1..e]);
    var b := Through(lx, s0, exit, e);
    ThroughLoopBody(lx, st, exit, e);
    ParseLoopOf(lx, st, b);
    LoopResultText(st, evs, b, e);
  }
}
