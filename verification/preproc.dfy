/** The text preprocessor run ahead of the assembler. The input is read with
    `fgets` into a 256-byte buffer, so a "line" is at most 255 characters up to
    and including its newline. Blank and comment-only lines are echoed. The file
    must begin, after such lines, with `%define name value` directives. Each
    directive is echoed as a comment ("#" + the line) so that the line count is
    kept. The first definition of a name wins: a later duplicate is refused by the
    hash table, and the refusal is only a warning. After the directives every word
    is replaced by the value its name is defined to, in a single pass. A word is
    a maximal run of characters other than white space, ',', '#' and NUL.
    Separators and comments are copied unchanged. */
module Preproc {
  import opened Wrappers
  import opened Text
  import Chtbl

  const BUFF_SZ: nat := 256
  const BUCKETS: nat := 128
  const DRV_START: char := '%'
  const COMMENT: char := '#'
  /** The only directive; `strstr` looks for it anywhere on a line. */
  const DEFINE_TEXT: string := "%define "

  datatype Directive = Directive(dv: string, aux: string)

  /** How a run ends. The three failures other than `NoDirectives` call `quit()`
      and leave a partly written output file. `NoDirectives` removes the output file. */
  datatype Outcome =
    | NoDirectives
    | UnknownDirective(line: nat)
    | IncompleteDirective(line: nat)
    | NothingAfterDirectives
    | Done(out: string)

  // ---------------------------------------------------------------- strings

  /** The concatenation of a sequence of lines. */
  function Concat(ss: seq<string>): string
    decreases |ss|
  {
    if ss == [] then [] else Concat(ss[..|ss| - 1]) + ss[|ss| - 1]
  }

  lemma {:induction false} ConcatAppend(a: seq<string>, b: seq<string>)
    ensures Concat(a + b) == Concat(a) + Concat(b)
    decreases |b|
  {
    if b == [] {
      assert a + b == a;
    } else {
      DropLastOfAppend(a, b);
      ConcatAppend(a, b[..|b| - 1]);
    }
  }

  lemma DropLastOfAppend<T>(a: seq<T>, b: seq<T>)
    requires b != []
    ensures (a + b)[..|a + b| - 1] == a + b[..|b| - 1]
    ensures (a + b)[|a + b| - 1] == b[|b| - 1]
  {
  }

  /** The number of newlines in a text. */
  function Newlines(s: string): nat {
    multiset(s)['\n']
  }

  /** `pat` occurs in `s` at position `i`. */
  predicate OccursAt(s: string, pat: string, i: int) {
    0 <= i <= |s| - |pat| && s[i..i + |pat|] == pat
  }

  /** `strstr(s, pat) != NULL`. */
  predicate Contains(s: string, pat: string) {
    exists i :: 0 <= i <= |s| - |pat| && OccursAt(s, pat, i)
  }

  predicate IsCString(s: string) {
    forall i :: 0 <= i < |s| ==> s[i] != NUL
  }

  // ---------------------------------------------------------------- reading lines

  /** A buffer `fgets` fills: at most `BUFF_SZ - 1` characters, no NUL, and a
      newline only as the last character. */
  predicate IsLine(l: string) {
    && |l| <= BUFF_SZ - 1
    && IsCString(l)
    && forall i :: 0 <= i < |l| - 1 ==> l[i] != '\n'
  }

  /** How many characters one `fgets` with `room` places takes from `text`. */
  function ChunkLength(text: string, room: nat): (n: nat)
    requires room > 0 && text != []
    ensures 0 < n <= |text| && n <= room
    ensures forall i :: 0 <= i < n - 1 ==> text[i] != '\n'
    ensures n < |text| ==> text[n - 1] == '\n' || n == room
    decreases room
  {
    if text[0] == '\n' || |text| == 1 || room == 1 then 1
    else 1 + ChunkLength(text[1..], room - 1)
  }

  /** The successive C strings `read_line` sees: each `fgets` buffer up to its
      first NUL. */
  function Lines(text: string): (ls: seq<string>)
    ensures forall i :: 0 <= i < |ls| ==> IsLine(ls[i])
    decreases |text|
  {
    if text == [] then []
    else
      var n := ChunkLength(text, BUFF_SZ - 1);
      var l := CString(text[..n]);
      assert forall i :: 0 <= i < |l| ==> l[i] == text[i];
      [l] + Lines(text[n..])
  }

  /** For a file without NUL bytes the lines are the file cut into pieces. */
  lemma {:induction false} LinesConcat(text: string)
    requires IsCString(text)
    ensures Concat(Lines(text)) == text
    decreases |text|
  {
    if text != [] {
      var n := ChunkLength(text, BUFF_SZ - 1);
      CStringWhole(text[..n]);
      LinesConcat(text[n..]);
      ConcatAppend([text[..n]], Lines(text[n..]));
      ConcatOne(text[..n]);
      SplitAt(text, n);
    }
  }

  // ---------------------------------------------------------------- scanning one line

  /** Separators between words: white space and ','. */
  predicate IsSep(c: char) { IsSpace(c) || c == ',' }

  /** Characters a word is made of. */
  predicate IsWordChar(c: char) { !IsSpace(c) && c != ',' && c != COMMENT && c != NUL }

  /** `eat_sep`: the position after the separators starting at `i`. */
  function SkipSeps(l: string, i: nat): (j: nat)
    requires i <= |l|
    ensures i <= j <= |l|
    ensures forall k :: i <= k < j ==> IsSep(l[k])
    ensures j < |l| ==> !IsSep(l[j])
    decreases |l| - i
  {
    if i < |l| && IsSep(l[i]) then SkipSeps(l, i + 1) else i
  }

  /** `eat_comnt` on a C string: separators, then a comment to the end of the
      line. Everything skipped is echoed. */
  function EatComment(l: string, i: nat): (j: nat)
    requires i <= |l|
    ensures i <= j <= |l|
    ensures forall k :: i <= k < j && k < SkipSeps(l, i) ==> IsSep(l[k])
    ensures j < |l| ==> j == SkipSeps(l, i) && !IsSep(l[j]) && l[j] != COMMENT
  {
    var k := SkipSeps(l, i);
    if k < |l| && l[k] == COMMENT then |l| else k
  }

  /** The end of the word starting at `k`, as `read_word` copies it. */
  function WordEnd(l: string, k: nat): (w: nat)
    requires k <= |l|
    ensures k <= w <= |l|
    ensures forall i :: k <= i < w ==> IsWordChar(l[i])
    ensures w < |l| ==> !IsWordChar(l[w])
    decreases |l| - k
  {
    if k < |l| && IsWordChar(l[k]) then WordEnd(l, k + 1) else k
  }

  /** A line that `read_line` stops at: something other than separators and a
      comment. */
  predicate IsContent(l: string) {
    EatComment(l, 0) < |l|
  }

  /** `read_line` from line `i`: the index of the next content line, or the end.
      The lines skipped are echoed whole. */
  function NextContent(lines: seq<string>, i: nat): (j: nat)
    requires i <= |lines|
    requires forall k :: 0 <= k < |lines| ==> IsLine(lines[k])
    ensures i <= j <= |lines|
    ensures forall k :: i <= k < j ==> !IsContent(lines[k])
    ensures j < |lines| ==> IsContent(lines[j])
    decreases |lines| - i
  {
    if i == |lines| || IsContent(lines[i]) then i else NextContent(lines, i + 1)
  }

  // ---------------------------------------------------------------- directives

  /** Spaces skipped by `sscanf` before a `%s` conversion. */
  function SpaceEnd(l: string, i: nat): (j: nat)
    requires i <= |l|
    ensures i <= j <= |l|
    ensures forall k :: i <= k < j ==> IsSpace(l[k])
    ensures j < |l| ==> !IsSpace(l[j])
    decreases |l| - i
  {
    if i < |l| && IsSpace(l[i]) then SpaceEnd(l, i + 1) else i
  }

  /** The end of a `%s` token: the run of characters that are neither white space
      nor the terminator. */
  function TokenEnd(l: string, i: nat): (j: nat)
    requires i <= |l|
    ensures i <= j <= |l|
    ensures forall k :: i <= k < j ==> !IsSpace(l[k]) && l[k] != NUL
    ensures j < |l| ==> IsSpace(l[j]) || l[j] == NUL
    decreases |l| - i
  {
    if i < |l| && !IsSpace(l[i]) && l[i] != NUL then TokenEnd(l, i + 1) else i
  }

  /** One `%s` conversion of `sscanf` from position `i`: the token and the
      position after it, or nothing at the end of the input. */
  function ScanToken(l: string, i: nat): (r: Option<(string, nat)>)
    requires i <= |l|
    ensures r.Some? ==> r.value.1 <= |l| && 0 < |r.value.0| <= r.value.1 - i
    ensures r.Some? ==> r.value.0 == l[r.value.1 - |r.value.0|..r.value.1]
    ensures r.Some? ==> forall k :: 0 <= k < |r.value.0| ==> !IsSpace(r.value.0[k])
  {
    var k := SpaceEnd(l, i);
    var w := TokenEnd(l, k);
    if w == k then None else Some((l[k..w], w))
  }

  /** `make_drv_node`: `sscanf(line, "%*s %s %s", dv, aux)` must assign both
      names, otherwise the directive is incomplete. */
  function ParseDefine(l: string, p: nat): (r: Option<Directive>)
    requires p <= |l|
    ensures r.Some? ==> r.value.dv != [] && r.value.aux != []
    ensures r.Some? ==> forall k :: 0 <= k < |r.value.aux| ==> !IsSpace(r.value.aux[k])
    ensures r.Some? ==> Contains(l, r.value.dv) && Contains(l, r.value.aux)
  {
    match ScanToken(l, p)
    case None => None
    case Some((_, a)) =>
      match ScanToken(l, a)
      case None => None
      case Some((dv, b)) =>
        match ScanToken(l, b)
        case None => None
        case Some((aux, e)) =>
          assert OccursAt(l, dv, b - |dv|);
          assert OccursAt(l, aux, e - |aux|);
          Some(Directive(dv, aux))
  }

  // ---------------------------------------------------------------- the table

  type Defs = Chtbl.Table<Directive, string>

  /** `hash_drv`: the lower-cased first character of the name (NUL for "").
      Characters above 127, negative in a signed `char`, are not modelled. */
  function HashDrv(name: string): (h: nat)
    ensures name != [] && !IsUpper(name[0]) ==> h == name[0] as nat
  {
    if name == [] then 0 else ToLower(name[0]) as nat
  }

  /** `compar_drv` compares names only. */
  function DrvName(d: Directive): string { d.dv }

  /** The table after inserting `ds` in order into a fresh table of `BUCKETS`
      buckets; a refused duplicate leaves it unchanged. */
  function Table(ds: seq<Directive>): (t: Defs)
    ensures Chtbl.Valid(t) && |t.table| == BUCKETS && t.key == DrvName
    decreases |ds|
  {
    if ds == [] then Chtbl.Init(BUCKETS, HashDrv, DrvName, true)
    else
      var prev := Table(ds[..|ds| - 1]);
      Chtbl.InsertKeepsValid(prev, ds[|ds| - 1]);
      Chtbl.Insert(prev, ds[|ds| - 1]).1
  }

  /** The value of the first directive of `ds` that defines `name`. */
  function Defined(ds: seq<Directive>, name: string): (r: Option<string>)
    ensures r.Some? <==> exists d :: d in ds && d.dv == name
    ensures r.Some? ==> exists d :: d in ds && d.dv == name && d.aux == r.value
    decreases |ds|
  {
    if ds == [] then None
    else if ds[0].dv == name then Some(ds[0].aux)
    else Defined(ds[1..], name)
  }

  lemma {:induction false} DefinedSnoc(ds: seq<Directive>, d: Directive, name: string)
    ensures Defined(ds + [d], name) ==
      if Defined(ds, name).Some? then Defined(ds, name)
      else if d.dv == name then Some(d.aux) else None
    decreases |ds|
  {
    if ds != [] {
      assert (ds + [d])[1..] == ds[1..] + [d];
      DefinedSnoc(ds[1..], d, name);
    }
  }

  /** What a word is written as: the value stored for it, or the word itself. */
  function Meaning(t: Defs, word: string): string
    requires |t.table| > 0
  {
    match Chtbl.Lookup(t, word)
    case Some(d) => d.aux
    case None => word
  }

  /** The table finds, for every name, the first definition of it; later
      duplicates are never seen. */
  lemma {:induction false} FirstDefinitionWins(ds: seq<Directive>, name: string)
    ensures Chtbl.Lookup(Table(ds), name).Some? <==> Defined(ds, name).Some?
    ensures Chtbl.Lookup(Table(ds), name).Some? ==>
      Chtbl.Lookup(Table(ds), name).value.aux == Defined(ds, name).value
    decreases |ds|
  {
    if ds != [] {
      var init, d := ds[..|ds| - 1], ds[|ds| - 1];
      assert ds == init + [d];
      FirstDefinitionWins(init, name);
      DefinedSnoc(init, d, name);
      Chtbl.LookupAfterInsert(Table(init), d, name);
    }
  }

  /** A word means the value of its first definition, or itself. */
  lemma MeaningIsFirstDefinition(ds: seq<Directive>, word: string)
    ensures Meaning(Table(ds), word) == match Defined(ds, word) case Some(v) => v case None => word
  {
    FirstDefinitionWins(ds, word);
  }

  // ---------------------------------------------------------------- substitution

  /** `drv_define` on the rest of a line from position `i`: separators copied,
      each word written as its meaning, comments copied to the end. */
  function SubstFrom(l: string, i: nat, t: Defs): string
    requires IsCString(l) && i <= |l| && |t.table| > 0
    decreases |l| - i
  {
    if i == |l| then []
    else
      var k := SkipSeps(l, i);
      var w := WordEnd(l, k);
      var m := EatComment(l, w);
      l[i..k] + Meaning(t, l[k..w]) + l[w..m] + SubstFrom(l, m, t)
  }

  /** One line after the directives: what `read_line` echoed, then the
      substituted rest. A blank line comes out as it is. */
  function BodyLine(l: string, t: Defs): string
    requires IsCString(l) && |t.table| > 0
  {
    var p := EatComment(l, 0);
    l[..p] + SubstFrom(l, p, t)
  }

  /** The output for lines `i` onwards, once the directives are known. */
  function BodyOut(lines: seq<string>, i: nat, t: Defs): string
    requires i <= |lines| && |t.table| > 0
    requires forall k :: 0 <= k < |lines| ==> IsLine(lines[k])
    decreases |lines| - i
  {
    if i == |lines| then []
    else
      assert IsLine(lines[i]);
      BodyLine(lines[i], t) + BodyOut(lines, i + 1, t)
  }

  // ---------------------------------------------------------------- the program

  /** The first non-blank line starts with '%'. */
  predicate StartsWithDirective(lines: seq<string>)
    requires forall k :: 0 <= k < |lines| ==> IsLine(lines[k])
  {
    var j := NextContent(lines, 0);
    j < |lines| && lines[j][EatComment(lines[j], 0)] == DRV_START
  }

  /** One directive line, number `n`, whose first non-separator character at
      `p` is '%': it must contain "%define " somewhere and two more tokens after
      its first one. */
  function ReadDefine(l: string, p: nat, n: nat): (r: Result<Directive, Outcome>)
    requires p <= |l|
    ensures r.Success? <==> Contains(l, DEFINE_TEXT) && ParseDefine(l, p).Some?
    ensures r.Success? ==> r.value == ParseDefine(l, p).value
    ensures r.Failure? ==> r.error == (if Contains(l, DEFINE_TEXT) then IncompleteDirective(n) else UnknownDirective(n))
  {
    if !Contains(l, DEFINE_TEXT) then Failure(UnknownDirective(n))
    else
      match ParseDefine(l, p)
      case None => Failure(IncompleteDirective(n))
      case Some(d) => Success(d)
  }

  /** `get_directives` from content line `j`, with the directives `ds` read so
      far and the output `out` written so far, then `drv_define`. */
  function ReadDirectives(lines: seq<string>, j: nat, ds: seq<Directive>, out: string): (o: Outcome)
    requires forall k :: 0 <= k < |lines| ==> IsLine(lines[k])
    requires j < |lines| && IsContent(lines[j])
    ensures o != NoDirectives
    decreases |lines| - j
  {
    var l := lines[j];
    var p := EatComment(l, 0);
    if l[p] != DRV_START then Done(out + BodyOut(lines, j, Table(ds)))
    else
      match ReadDefine(l, p, j + 1)
      case Failure(e) => e
      case Success(d) =>
        var next := NextContent(lines, j + 1);
        var out' := out + l[..p] + [COMMENT] + l + Concat(lines[j + 1..next]);
        if next < |lines| then ReadDirectives(lines, next, ds + [d], out')
        else if next == j + 1 || lines[|lines| - 1] == [] then NothingAfterDirectives
        else Done(out')
  }

  /** The preprocessor on a whole input file. */
  function Preprocess(text: string): (o: Outcome)
    ensures o == NoDirectives <==> !StartsWithDirective(Lines(text))
  {
    var lines := Lines(text);
    if !StartsWithDirective(lines) then NoDirectives
    else
      var j := NextContent(lines, 0);
      ReadDirectives(lines, j, [], Concat(lines[..j]))
  }

  /** A buffer `read_line` fills holds the empty C string exactly when its first
      byte is a NUL. */
  lemma EmptyLineIffNulChunk(text: string)
    requires text != []
    ensures |Lines(text)| > 0 && (Lines(text)[0] == [] <==> text[0] == NUL)
  {
    var n := ChunkLength(text, BUFF_SZ - 1);
    assert text[..n][0] == text[0];
  }

  /** After the last directive, when only lines without content follow: at the
      end of the input `fgets` leaves the last buffer it filled in place, so the
      run stops with nothing after the directives exactly when no line followed
      or the last buffer began with a NUL; otherwise it is done. */
  lemma LastBufferDecidesEnd(lines: seq<string>, j: nat, ds: seq<Directive>, out: string)
    requires forall k :: 0 <= k < |lines| ==> IsLine(lines[k])
    requires j < |lines| && IsContent(lines[j])
    requires lines[j][EatComment(lines[j], 0)] == DRV_START
    requires ReadDefine(lines[j], EatComment(lines[j], 0), j + 1).Success?
    requires NextContent(lines, j + 1) == |lines|
    ensures ReadDirectives(lines, j, ds, out) == NothingAfterDirectives <==>
      j + 1 == |lines| || lines[|lines| - 1] == []
    ensures ReadDirectives(lines, j, ds, out) != NothingAfterDirectives ==> ReadDirectives(lines, j, ds, out).Done?
  {
  }

  /** An empty file has no first line to start with '%', so it is refused as
      having no directives. */
  lemma EmptyHasNoDirectives()
    ensures Preprocess("") == NoDirectives
  {
  }

  /** The check at the start of `main` as written. `inbuff_ptr` is set only when
      a line is read, and it is NULL before that. For an empty file the check
      dereferences NULL, modelled as `None`. Otherwise the pointer is at the
      first non-blank line or, when there is none, at the terminator of the last
      line. */
  function StartCheckAsWritten(lines: seq<string>): (r: Option<bool>)
    requires forall k :: 0 <= k < |lines| ==> IsLine(lines[k])
  {
    if lines == [] then None
    else
      var j := NextContent(lines, 0);
      if j == |lines| then Some(false)
      else Some(lines[j][EatComment(lines[j], 0)] == DRV_START)
  }

  /** The check as written agrees with `StartsWithDirective` on every file except
      the empty one, where it dereferences NULL. */
  lemma StartCheckAsWrittenFailsOnEmpty(lines: seq<string>)
    requires forall k :: 0 <= k < |lines| ==> IsLine(lines[k])
    ensures lines != [] ==> StartCheckAsWritten(lines) == Some(StartsWithDirective(lines))
    ensures lines == [] <==> StartCheckAsWritten(lines).None?
    ensures StartCheckAsWritten(Lines("")).None?
  {
  }

  // ---------------------------------------------------------------- properties

  lemma SplitAt<T>(s: seq<T>, i: nat)
    requires i <= |s|
    ensures s == s[..i] + s[i..]
  {
  }

  lemma PrefixWhole<T>(s: seq<T>)
    ensures s[..|s|] == s
  {
  }

  lemma SuffixCons<T>(s: seq<T>, i: nat)
    requires i < |s|
    ensures s[i..] == [s[i]] + s[i + 1..]
  {
  }

  lemma PrefixAround<T>(s: seq<T>, j: nat, n: nat)
    requires j < n <= |s|
    ensures s[..n] == s[..j] + [s[j]] + s[j + 1..n]
  {
  }

  /** A suffix of a line cut at three positions. */
  lemma SplitSuffix(l: string, i: nat, k: nat, w: nat, m: nat)
    requires i <= k <= w <= m <= |l|
    ensures l[i..] == l[i..k] + l[k..w] + l[w..m] + l[m..]
  {
    assert l[i..] == l[i..k] + l[k..];
    assert l[k..] == l[k..w] + l[w..];
    assert l[w..] == l[w..m] + l[m..];
  }

  /** A word of a line that mentions no defined name is its own meaning. */
  lemma UnmentionedWordKept(l: string, k: nat, w: nat, ds: seq<Directive>)
    requires k <= w <= |l|
    requires forall d :: d in ds ==> !Contains(l, d.dv)
    ensures Meaning(Table(ds), l[k..w]) == l[k..w]
  {
    MeaningIsFirstDefinition(ds, l[k..w]);
    assert OccursAt(l, l[k..w], k);
  }

  /** A line that mentions no defined name passes through unchanged. */
  lemma {:induction false} SubstUnchanged(l: string, i: nat, ds: seq<Directive>)
    requires IsCString(l) && i <= |l|
    requires forall d :: d in ds ==> !Contains(l, d.dv)
    ensures SubstFrom(l, i, Table(ds)) == l[i..]
    decreases |l| - i
  {
    if i < |l| {
      var k := SkipSeps(l, i);
      var w := WordEnd(l, k);
      var m := EatComment(l, w);
      UnmentionedWordKept(l, k, w, ds);
      SubstUnchanged(l, m, ds);
      SplitSuffix(l, i, k, w, m);
    }
  }

  /** A body line that mentions no defined name is written as it is. */
  lemma BodyLineUnchanged(l: string, ds: seq<Directive>)
    requires IsCString(l)
    requires forall d :: d in ds ==> !Contains(l, d.dv)
    ensures BodyLine(l, Table(ds)) == l
  {
    var p := EatComment(l, 0);
    SubstUnchanged(l, p, ds);
    calc {
      BodyLine(l, Table(ds));
      l[..p] + SubstFrom(l, p, Table(ds));
      l[..p] + l[p..];
      l;
    }
  }

  /** Every value read from a `%define` line is a single token. */
  predicate TokenValues(ds: seq<Directive>) {
    forall d :: d in ds ==> forall k :: 0 <= k < |d.aux| ==> !IsSpace(d.aux[k])
  }

  /** A text without white space has no newline. */
  lemma NoSpaceNoNewline(s: string)
    requires forall k :: 0 <= k < |s| ==> !IsSpace(s[k])
    ensures Newlines(s) == 0
  {
    assert '\n' !in s;
  }

  /** No word is written with a newline it did not have. */
  ghost predicate MeaningsKeepLines(t: Defs) {
    |t.table| > 0 && forall w :: Newlines(w) == 0 ==> Newlines(Meaning(t, w)) == 0
  }

  /** Values read from `%define` lines hold no newline, so neither do meanings. */
  lemma TableKeepsLines(ds: seq<Directive>)
    requires TokenValues(ds)
    ensures MeaningsKeepLines(Table(ds))
  {
    forall w | Newlines(w) == 0 ensures Newlines(Meaning(Table(ds), w)) == 0 {
      MeaningIsFirstDefinition(ds, w);
      if Defined(ds, w).Some? {
        var d :| d in ds && d.dv == w && d.aux == Defined(ds, w).value;
        NoSpaceNoNewline(d.aux);
      }
    }
  }

  /** Substitution keeps the newlines of the line: words hold none. */
  lemma {:induction false} SubstKeepsNewlines(l: string, i: nat, t: Defs)
    requires IsCString(l) && i <= |l| && MeaningsKeepLines(t)
    ensures Newlines(SubstFrom(l, i, t)) == Newlines(l[i..])
    decreases |l| - i
  {
    if i < |l| {
      var k := SkipSeps(l, i);
      var w := WordEnd(l, k);
      var m := EatComment(l, w);
      NoSpaceNoNewline(l[k..w]);
      SubstKeepsNewlines(l, m, t);
      SplitSuffix(l, i, k, w, m);
    }
  }

  lemma ConcatOne(l: string)
    ensures Concat([l]) == l
  {
    assert [l][..0] == [];
  }

  /** The body keeps the number of lines. */
  lemma {:induction false} BodyKeepsNewlines(lines: seq<string>, i: nat, t: Defs)
    requires i <= |lines| && MeaningsKeepLines(t)
    requires forall k :: 0 <= k < |lines| ==> IsLine(lines[k])
    ensures Newlines(BodyOut(lines, i, t)) == Newlines(Concat(lines[i..]))
    decreases |lines| - i
  {
    if i < |lines| {
      var l := lines[i];
      assert IsLine(l);
      var p := EatComment(l, 0);
      SubstKeepsNewlines(l, p, t);
      SplitAt(l, p);
      assert Newlines(BodyLine(l, t)) == Newlines(l);
      BodyKeepsNewlines(lines, i + 1, t);
      SuffixCons(lines, i);
      ConcatAppend([l], lines[i + 1..]);
      ConcatOne(l);
    }
  }

  /** A directive line comes out as its leading separators, '#' and the line;
      the separators lie before the last character, so hold no newline. */
  lemma DirectiveLineNewlines(l: string, p: nat)
    requires IsLine(l) && p < |l|
    ensures Newlines(l[..p] + [COMMENT] + l) == Newlines(l)
  {
    assert '\n' !in l[..p] by {
      forall k | 0 <= k < p ensures l[..p][k] != '\n' {
        assert k < |l| - 1;
      }
    }
  }

  /** Once the body starts at line `j`, the output keeps the number of lines. */
  lemma BodyStartKeepsNewlines(lines: seq<string>, j: nat, ds: seq<Directive>, out: string)
    requires forall k :: 0 <= k < |lines| ==> IsLine(lines[k])
    requires j <= |lines| && TokenValues(ds)
    requires Newlines(out) == Newlines(Concat(lines[..j]))
    ensures Newlines(out + BodyOut(lines, j, Table(ds))) == Newlines(Concat(lines))
  {
    TableKeepsLines(ds);
    BodyKeepsNewlines(lines, j, Table(ds));
    SplitAt(lines, j);
    ConcatAppend(lines[..j], lines[j..]);
  }

  /** After directive line `j` and the blank lines up to `next`, the output
      holds as many lines as were read. */
  lemma DirectiveKeepsNewlines(lines: seq<string>, j: nat, next: nat, out: string)
    requires forall k :: 0 <= k < |lines| ==> IsLine(lines[k])
    requires j < next <= |lines|
    requires Newlines(out) == Newlines(Concat(lines[..j]))
    ensures
      var l := lines[j];
      var p := EatComment(l, 0);
      p < |l| ==>
        Newlines(out + l[..p] + [COMMENT] + l + Concat(lines[j + 1..next])) == Newlines(Concat(lines[..next]))
  {
    var l := lines[j];
    assert IsLine(l);
    var p := EatComment(l, 0);
    if p < |l| {
      DirectiveLineNewlines(l, p);
      PrefixAround(lines, j, next);
      ConcatAppend(lines[..j] + [l], lines[j + 1..next]);
      ConcatAppend(lines[..j], [l]);
      ConcatOne(l);
    }
  }

  /** A `%define` line read successfully adds a single-token value. */
  lemma ReadDefineToken(ds: seq<Directive>, l: string, p: nat, n: nat)
    requires p <= |l| && TokenValues(ds) && ReadDefine(l, p, n).Success?
    ensures TokenValues(ds + [ReadDefine(l, p, n).value])
  {
  }

  /** `ReadDirectives` past a well-formed directive line. */
  lemma ReadDirectivesAfterDefine(lines: seq<string>, j: nat, ds: seq<Directive>, out: string, d: Directive, next: nat, out': string)
    requires forall k :: 0 <= k < |lines| ==> IsLine(lines[k])
    requires j < |lines| && IsContent(lines[j])
    requires lines[j][EatComment(lines[j], 0)] == DRV_START
    requires ReadDefine(lines[j], EatComment(lines[j], 0), j + 1) == Success(d)
    requires next == NextContent(lines, j + 1)
    requires out' == out + lines[j][..EatComment(lines[j], 0)] + [COMMENT] + lines[j] + Concat(lines[j + 1..next])
    ensures ReadDirectives(lines, j, ds, out) ==
      if next < |lines| then ReadDirectives(lines, next, ds + [d], out')
      else if next == j + 1 || lines[|lines| - 1] == [] then NothingAfterDirectives
      else Done(out')
  {
  }

  /** When the last directive is followed only by blank lines, what was written
      so far is the whole output, and it holds all the input's lines. */
  lemma LastDirectiveKeepsNewlines(lines: seq<string>, j: nat, ds: seq<Directive>, out: string)
    requires forall k :: 0 <= k < |lines| ==> IsLine(lines[k])
    requires j < |lines| && IsContent(lines[j])
    requires lines[j][EatComment(lines[j], 0)] == DRV_START
    requires ReadDefine(lines[j], EatComment(lines[j], 0), j + 1).Success?
    requires NextContent(lines, j + 1) == |lines|
    requires Newlines(out) == Newlines(Concat(lines[..j]))
    ensures ReadDirectives(lines, j, ds, out).Done? ==>
      Newlines(ReadDirectives(lines, j, ds, out).out) == Newlines(Concat(lines))
  {
    var l := lines[j];
    var p := EatComment(l, 0);
    var d := ReadDefine(l, p, j + 1).value;
    var next := |lines|;
    var out' := out + l[..p] + [COMMENT] + l + Concat(lines[j + 1..next]);
    DirectiveKeepsNewlines(lines, j, next, out);
    ReadDirectivesAfterDefine(lines, j, ds, out, d, next, out');
    PrefixWhole(lines);
  }

  /** Reading the directives and substituting keeps the number of lines. */
  lemma {:induction false} ReadDirectivesKeepsNewlines(lines: seq<string>, j: nat, ds: seq<Directive>, out: string)
    requires forall k :: 0 <= k < |lines| ==> IsLine(lines[k])
    requires j < |lines| && IsContent(lines[j])
    requires TokenValues(ds)
    requires Newlines(out) == Newlines(Concat(lines[..j]))
    ensures ReadDirectives(lines, j, ds, out).Done? ==>
      Newlines(ReadDirectives(lines, j, ds, out).out) == Newlines(Concat(lines))
    decreases |lines| - j
  {
    var l := lines[j];
    var p := EatComment(l, 0);
    if l[p] != DRV_START {
      BodyStartKeepsNewlines(lines, j, ds, out);
    } else if ReadDefine(l, p, j + 1).Success? {
      var d := ReadDefine(l, p, j + 1).value;
      var next := NextContent(lines, j + 1);
      if next < |lines| {
        var out' := out + l[..p] + [COMMENT] + l + Concat(lines[j + 1..next]);
        DirectiveKeepsNewlines(lines, j, next, out);
        ReadDefineToken(ds, l, p, j + 1);
        ReadDirectivesAfterDefine(lines, j, ds, out, d, next, out');
        ReadDirectivesKeepsNewlines(lines, next, ds + [d], out');
      } else {
        LastDirectiveKeepsNewlines(lines, j, ds, out);
      }
    }
  }

  /** A successful run writes as many lines as it reads. */
  lemma PreprocessKeepsLineCount(text: string)
    requires IsCString(text)
    requires Preprocess(text).Done?
    ensures Newlines(Preprocess(text).out) == Newlines(text)
  {
    var lines := Lines(text);
    var j := NextContent(lines, 0);
    ReadDirectivesKeepsNewlines(lines, j, [], Concat(lines[..j]));
    assert lines[..|lines|] == lines;
    LinesConcat(text);
  }
}
