/** The parts of the C library the translators rely on, over ASCII text:
    the `<ctype.h>` classifiers and case mappings, `sprintf("%d")` for naturals,
    and the two `sscanf` conversions the programs use to read numbers
    (`%d` for decimal, `%x` for hexadecimal). */
module Text {
  import opened Wrappers

  // ---------------------------------------------------------------- ctype

  /** `isspace` in the C locale: space, \t, \n, \v, \f and \r. */
  predicate IsSpace(c: char) {
    c == ' ' || c == '\t' || c == '\n' || c == '\U{B}' || c == '\U{C}' || c == '\r'
  }

  predicate IsDigit(c: char) { '0' <= c <= '9' }

  predicate IsUpper(c: char) { 'A' <= c <= 'Z' }

  predicate IsLower(c: char) { 'a' <= c <= 'z' }

  predicate IsAlpha(c: char) { IsUpper(c) || IsLower(c) }

  predicate IsAlnum(c: char) { IsAlpha(c) || IsDigit(c) }

  predicate IsXDigit(c: char) { IsDigit(c) || 'A' <= c <= 'F' || 'a' <= c <= 'f' }

  function ToUpper(c: char): (u: char)
    ensures IsLower(c) ==> IsUpper(u) && u as int == c as int - 32
    ensures !IsLower(c) ==> u == c
  {
    if IsLower(c) then (c as int - 32) as char else c
  }

  function ToLower(c: char): (l: char)
    ensures IsUpper(c) ==> IsLower(l) && l as int == c as int + 32
    ensures !IsUpper(c) ==> l == c
  {
    if IsUpper(c) then (c as int + 32) as char else c
  }

  // ---------------------------------------------------------------- C strings

  /** The string terminator. */
  const NUL: char := 0 as char

  /** The C string a character buffer holds: everything before the first NUL. */
  function CString(s: string): (r: string)
    ensures |r| <= |s| && r == s[..|r|]
    ensures |r| < |s| ==> s[|r|] == NUL
    ensures forall i :: 0 <= i < |r| ==> r[i] != NUL
  {
    if s == [] || s[0] == NUL then [] else [s[0]] + CString(s[1..])
  }

  /** A buffer without NUL holds itself as a C string. */
  lemma {:induction false} CStringWhole(s: string)
    requires forall i :: 0 <= i < |s| ==> s[i] != NUL
    ensures CString(s) == s
    decreases |s|
  {
    if s != [] {
      CStringWhole(s[1..]);
    }
  }

  /** A buffer holds, as a C string, exactly what comes before its first NUL. */
  lemma CStringAtNul(x: string, y: string)
    requires forall i :: 0 <= i < |x| ==> x[i] != NUL
    ensures CString(x + [NUL] + y) == x
  {
    var s := x + [NUL] + y;
    assert s[..|x|] == x && s[|x|] == NUL;
  }

  // ---------------------------------------------------------------- digits

  function DigitValue(c: char): (v: nat)
    requires IsDigit(c)
    ensures v < 10
  {
    c as int - '0' as int
  }

  function XDigitValue(c: char): (v: nat)
    requires IsXDigit(c)
    ensures v < 16
    ensures IsDigit(c) ==> v == DigitValue(c)
  {
    if IsDigit(c) then DigitValue(c)
    else if 'A' <= c <= 'F' then c as int - 'A' as int + 10
    else c as int - 'a' as int + 10
  }

  function DigitChar(d: nat): (c: char)
    requires d < 10
    ensures IsDigit(c) && DigitValue(c) == d
  {
    ('0' as int + d) as char
  }

  /** The upper-case hexadecimal digit `sprintf("%X")` prints. */
  function XDigitChar(d: nat): (c: char)
    requires d < 16
    ensures IsXDigit(c) && XDigitValue(c) == d
    ensures !IsLower(c)
  {
    if d < 10 then DigitChar(d) else ('A' as int + d - 10) as char
  }

  predicate AllDigits(s: string) { forall i :: 0 <= i < |s| ==> IsDigit(s[i]) }

  predicate AllXDigits(s: string) { forall i :: 0 <= i < |s| ==> IsXDigit(s[i]) }

  /** Length of the longest prefix of `s` made of characters satisfying `p`. */
  function RunLength(s: string, p: char -> bool): (n: nat)
    ensures n <= |s|
    ensures forall i :: 0 <= i < n ==> p(s[i])
    ensures n < |s| ==> !p(s[n])
  {
    if |s| == 0 || !p(s[0]) then 0 else 1 + RunLength(s[1..], p)
  }

  /** Value of a string of decimal digits, most significant first. */
  function DecimalValue(s: string): nat
    requires AllDigits(s)
  {
    if |s| == 0 then 0 else DecimalValue(s[..|s| - 1]) * 10 + DigitValue(s[|s| - 1])
  }

  /** Value of a string of hexadecimal digits, most significant first. */
  function HexValue(s: string): nat
    requires AllXDigits(s)
  {
    if |s| == 0 then 0 else HexValue(s[..|s| - 1]) * 16 + XDigitValue(s[|s| - 1])
  }

  // ---------------------------------------------------------------- sscanf

  function SkipSpaces(s: string): (t: string)
    ensures |t| <= |s| && t == s[|s| - |t|..]
    ensures |t| > 0 ==> !IsSpace(t[0])
    ensures forall i :: 0 <= i < |s| - |t| ==> IsSpace(s[i])
  {
    if |s| > 0 && IsSpace(s[0]) then SkipSpaces(s[1..]) else s
  }

  /** Where `%d` wants its first digit: after white space and an optional sign. */
  function AfterSign(s: string): string
  {
    var t := SkipSpaces(s);
    if |t| > 0 && (t[0] == '+' || t[0] == '-') then t[1..] else t
  }

  /** `sscanf(s, "%d", &v) == 1`: optional white space, an optional sign, then at
      least one decimal digit; reading stops at the first non-digit. */
  function ScanDecimal(s: string): (r: Option<int>)
    ensures r.Some? <==> |AfterSign(s)| > 0 && IsDigit(AfterSign(s)[0])
  {
    var t := SkipSpaces(s);
    var neg := |t| > 0 && t[0] == '-';
    match LeadingDecimal(AfterSign(s))
    case None => None
    case Some(v) => var m: int := v; Some(if neg then -m else m)
  }

  /** Value of the run of decimal digits at the front of `u`, if there is one. */
  function LeadingDecimal(u: string): (r: Option<nat>)
    ensures r.Some? <==> |u| > 0 && IsDigit(u[0])
  {
    var n := RunLength(u, IsDigit);
    if n == 0 then None else Some(DecimalValue(u[..n]))
  }

  /** Where `%x` wants its first digit: after white space and an optional `0x`
      or `0X`. */
  function AfterHexPrefix(s: string): string
  {
    var t := SkipSpaces(s);
    if |t| >= 2 && t[0] == '0' && (t[1] == 'X' || t[1] == 'x') then t[2..] else t
  }

  /** `sscanf(s, "%x", &v) == 1`: optional white space, an optional `0x`/`0X`
      prefix, then at least one hexadecimal digit. A prefix with no digit after it
      is a matching failure. */
  function ScanHex(s: string): (r: Option<nat>)
    ensures r.Some? <==> |AfterHexPrefix(s)| > 0 && IsXDigit(AfterHexPrefix(s)[0])
  {
    var u := AfterHexPrefix(s);
    var n := RunLength(u, IsXDigit);
    if n == 0 then None
    else
      Some(HexValue(u[..n]))
  }

  // ---------------------------------------------------------------- sprintf

  /** `sprintf("%d", n)` for a natural number. */
  function NatToDecimal(n: nat): (s: string)
    ensures |s| > 0 && AllDigits(s)
    decreases n
  {
    if n < 10 then [DigitChar(n)] else NatToDecimal(n / 10) + [DigitChar(n % 10)]
  }

  /** A byte value as `0X` and two upper-case hexadecimal digits. */
  function HexByteText(b: nat): (s: string)
    requires b < 256
    ensures |s| == 4 && s[0] == '0' && s[1] == 'X'
    ensures IsXDigit(s[2]) && IsXDigit(s[3])
  {
    ['0', 'X', XDigitChar(b / 16), XDigitChar(b % 16)]
  }

  // ---------------------------------------------------------------- lines

  /** A source line as both translators' lexers scan it: upper-cased, with commas
      replaced by spaces. */
  function PrepareLine(line: string): (u: string)
    ensures |u| == |line|
    ensures forall i :: 0 <= i < |line| ==>
      u[i] == if line[i] == ',' then ' ' else ToUpper(line[i])
  {
    if |line| == 0 then []
    else [if line[0] == ',' then ' ' else ToUpper(line[0])] + PrepareLine(line[1..])
  }

  // ---------------------------------------------------------------- lemmas

  /** Printing then reading a decimal number gives it back. */
  lemma {:induction false} DecimalRoundTrip(n: nat)
    ensures DecimalValue(NatToDecimal(n)) == n
    decreases n
  {
    if n >= 10 {
      var p := NatToDecimal(n / 10);
      var s := p + [DigitChar(n % 10)];
      assert s[..|s| - 1] == p;
      DecimalRoundTrip(n / 10);
    }
  }

  lemma AllDigitsRun(s: string)
    requires AllDigits(s)
    ensures RunLength(s, IsDigit) == |s|
  {
  }

  /** `sscanf("%d")` reads back exactly what `sprintf("%d")` printed. */
  lemma ScanPrintedDecimal(n: nat)
    ensures ScanDecimal(NatToDecimal(n)) == Some(n)
  {
    var s := NatToDecimal(n);
    AllDigitsRun(s);
    assert s[..|s|] == s;
    DecimalRoundTrip(n);
  }

  /** Distinct numbers print as distinct decimal strings. */
  lemma NatToDecimalInjective(m: nat, n: nat)
    requires m != n
    ensures NatToDecimal(m) != NatToDecimal(n)
  {
    DecimalRoundTrip(m);
    DecimalRoundTrip(n);
  }

  /** `sscanf("%x")` reads back a byte printed as `0X` and two hex digits. */
  lemma ScanHexByteText(b: nat)
    requires b < 256
    ensures ScanHex(HexByteText(b)) == Some(b)
  {
    var s := HexByteText(b);
    var u := s[2..];
    assert SkipSpaces(s) == s;
    assert AfterHexPrefix(s) == u;
    assert RunLength(u[2..], IsXDigit) == 0;
    assert RunLength(u, IsXDigit) == 2;
    assert u[..2] == u;
    HexPairValue(u);
    assert XDigitValue(u[0]) * 16 + XDigitValue(u[1]) == b;
  }

  /** The value of two hexadecimal digits. */
  lemma HexPairValue(u: string)
    requires |u| == 2 && AllXDigits(u)
    ensures HexValue(u) == XDigitValue(u[0]) * 16 + XDigitValue(u[1])
  {
    assert u[..1] == [u[0]];
    assert HexValue(u[..1]) == XDigitValue(u[0]);
  }

  /** A run of `p`-characters followed by something that is not one has exactly
      the run's length. */
  lemma {:induction false} RunLengthOfPrefix(w: string, s: string, p: char -> bool)
    requires forall i :: 0 <= i < |w| ==> p(w[i])
    requires |s| > 0 ==> !p(s[0])
    ensures RunLength(w + s, p) == |w|
    decreases |w|
  {
    if |w| > 0 {
      assert (w + s)[1..] == w[1..] + s;
      RunLengthOfPrefix(w[1..], s, p);
    } else {
      assert w + s == s;
    }
  }

  /** White space in front of text that does not start with it is skipped. */
  lemma {:induction false} SkipSpacesPrefix(sp: string, x: string)
    requires forall i :: 0 <= i < |sp| ==> IsSpace(sp[i])
    requires |x| > 0 ==> !IsSpace(x[0])
    ensures SkipSpaces(sp + x) == x
    decreases |sp|
  {
    if |sp| > 0 {
      assert (sp + x)[1..] == sp[1..] + x;
      SkipSpacesPrefix(sp[1..], x);
    } else {
      assert sp + x == x;
    }
  }

  /** `%d` reads a single digit as its value. */
  lemma ScanDecimalOneDigit(c: char)
    requires IsDigit(c)
    ensures ScanDecimal([c]) == Some(DigitValue(c) as int)
  {
    assert [] + [] + ([c] + []) == [c];
    ScanDecimalReads([], [], [c], []);
    assert [c][..0] == [];
  }

  /** `%d` reads white space, an optional sign and a run of digits, and stops at
      the first character that is not a digit. */
  lemma ScanDecimalReads(sp: string, sign: string, w: string, rest: string)
    requires forall i :: 0 <= i < |sp| ==> IsSpace(sp[i])
    requires |sign| <= 1 && (|sign| == 1 ==> sign[0] == '+' || sign[0] == '-')
    requires |w| > 0 && AllDigits(w)
    requires |rest| > 0 ==> !IsDigit(rest[0])
    ensures var v: int := DecimalValue(w);
      ScanDecimal(sp + sign + (w + rest)) == Some(if sign == ['-'] then -v else v)
  {
    SignedText(sp, sign, w + rest);
    ScanDecimalOfRun(sp + sign + (w + rest), w, rest);
  }

  lemma ScanDecimalOfRun(s: string, w: string, rest: string)
    requires AfterSign(s) == w + rest
    requires |w| > 0 && AllDigits(w) && (|rest| > 0 ==> !IsDigit(rest[0]))
    ensures var t := SkipSpaces(s); var v: int := DecimalValue(w);
      ScanDecimal(s) == Some(if |t| > 0 && t[0] == '-' then -v else v)
  {
    LeadingDecimalOfRun(w, rest);
    var t := SkipSpaces(s);
    if |t| > 0 && t[0] == '-' {
      assert ScanDecimal(s) == Some(0 - DecimalValue(w));
    } else {
      assert ScanDecimal(s) == Some(DecimalValue(w));
    }
  }

  lemma LeadingDecimalOfRun(w: string, rest: string)
    requires |w| > 0 && AllDigits(w) && (|rest| > 0 ==> !IsDigit(rest[0]))
    ensures LeadingDecimal(w + rest) == Some(DecimalValue(w))
  {
    RunLengthOfPrefix(w, rest, IsDigit);
    PrefixOfAppend(w, rest);
  }

  /** White space and a sign in front of text that starts with a digit. */
  lemma SignedText(sp: string, sign: string, u: string)
    requires forall i :: 0 <= i < |sp| ==> IsSpace(sp[i])
    requires |sign| <= 1 && (|sign| == 1 ==> sign[0] == '+' || sign[0] == '-')
    requires |u| > 0 && IsDigit(u[0])
    ensures var t := SkipSpaces(sp + sign + u);
      t == sign + u && AfterSign(sp + sign + u) == u && (|t| > 0 && t[0] == '-' <==> sign == ['-'])
  {
    if |sign| == 0 {
      assert sp + sign + u == sp + u;
      SkipSpacesPrefix(sp, u);
    } else {
      SignCharText(sp, sign[0], u);
      assert sign == [sign[0]];
    }
  }

  lemma SignCharText(sp: string, c: char, u: string)
    requires forall i :: 0 <= i < |sp| ==> IsSpace(sp[i])
    requires c == '+' || c == '-'
    ensures SkipSpaces(sp + [c] + u) == [c] + u && AfterSign(sp + [c] + u) == u
  {
    var x := [c] + u;
    assert sp + [c] + u == sp + x;
    SkipSpacesPrefix(sp, x);
    assert x[1..] == u;
  }

  /** `%x` reads white space, an optional `0x` or `0X` and a run of hexadecimal
      digits, and stops at the first character that is not one. Without a prefix
      the digits may not themselves begin with `0x`. */
  lemma ScanHexReads(sp: string, prefix: string, w: string, rest: string)
    requires forall i :: 0 <= i < |sp| ==> IsSpace(sp[i])
    requires prefix == "" || prefix == "0x" || prefix == "0X"
    requires |w| > 0 && AllXDigits(w)
    requires |rest| > 0 ==> !IsXDigit(rest[0])
    requires prefix == "" ==> !(|w + rest| >= 2 && w[0] == '0' && (w + rest)[1] in "xX")
    ensures ScanHex(sp + prefix + (w + rest)) == Some(HexValue(w))
  {
    PrefixedText(sp, prefix, w + rest);
    ScanHexOfRun(sp + prefix + (w + rest), w, rest);
  }

  lemma ScanHexOfRun(s: string, w: string, rest: string)
    requires AfterHexPrefix(s) == w + rest
    requires |w| > 0 && AllXDigits(w) && (|rest| > 0 ==> !IsXDigit(rest[0]))
    ensures ScanHex(s) == Some(HexValue(w))
  {
    RunLengthOfPrefix(w, rest, IsXDigit);
    PrefixOfAppend(w, rest);
  }

  /** White space and a hexadecimal prefix in front of text that starts with a
      hexadecimal digit. */
  lemma PrefixedText(sp: string, prefix: string, u: string)
    requires forall i :: 0 <= i < |sp| ==> IsSpace(sp[i])
    requires prefix == "" || prefix == "0x" || prefix == "0X"
    requires |u| > 0 && IsXDigit(u[0])
    requires prefix == "" ==> !(|u| >= 2 && u[0] == '0' && u[1] in "xX")
    ensures AfterHexPrefix(sp + prefix + u) == u
  {
    if prefix == "" {
      assert sp + prefix + u == sp + u;
      SkipSpacesPrefix(sp, u);
    } else {
      HexMarkText(sp, prefix[1], u);
      assert prefix == ['0', prefix[1]];
    }
  }

  lemma HexMarkText(sp: string, c: char, u: string)
    requires forall i :: 0 <= i < |sp| ==> IsSpace(sp[i])
    requires c == 'x' || c == 'X'
    ensures AfterHexPrefix(sp + ['0', c] + u) == u
  {
    var x := ['0', c] + u;
    assert sp + ['0', c] + u == sp + x;
    SkipSpacesPrefix(sp, x);
    assert x[2..] == u;
  }

  lemma PrefixOfAppend(w: string, rest: string)
    ensures (w + rest)[..|w|] == w
  {
  }

  function Min(a: nat, b: nat): (m: nat)
    ensures m <= a && m <= b && (m == a || m == b)
  {
    if a <= b then a else b
  }

  /** Preparing works character by character, so it distributes over joining. */
  lemma {:induction false} PrepareLineAppend(x: string, y: string)
    ensures PrepareLine(x + y) == PrepareLine(x) + PrepareLine(y)
    decreases |x|
  {
    if |x| > 0 {
      assert (x + y)[1..] == x[1..] + y;
      assert (x + y)[0] == x[0];
      PrepareLineAppend(x[1..], y);
    } else {
      assert x + y == y;
    }
  }

  /** Preparing a line changes nothing that is already upper case and comma-free. */
  lemma PrepareLineKeeps(line: string)
    requires forall i :: 0 <= i < |line| ==> !IsLower(line[i]) && line[i] != ','
    ensures PrepareLine(line) == line
  {
  }
}
