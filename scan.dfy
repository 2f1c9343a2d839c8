/** The pieces of the C library the pattern loaders lean on, reduced to what they
    use: `sscanf` with `%d`, `%s`, white space and literal characters in the
    format, `strcasecmp` for ASCII letters, and the extension found by
    `strrchr(name, '.')`. */
module Scan {

  datatype Option<T> = None | Some(value: T)

  /** One directive of a scanf format. */
  datatype Directive =
    | Lit(c: char)   // an ordinary character: must be the next input character
    | Space          // white space: skips any amount of white space, none included
    | Int            // %d
    | Str            // %s

  /** A converted value. */
  datatype Value = IntVal(n: int) | StrVal(s: string)

  predicate IsSpace(c: char) {
    c == ' ' || c == '\t' || c == '\n' || c == '\r' || c == '\U{B}' || c == '\U{C}'
  }

  predicate IsDigit(c: char) {
    '0' <= c <= '9'
  }

  function DigitValue(c: char): int
    requires IsDigit(c)
  {
    c as int - '0' as int
  }

  /** The index of the first non-white-space character at or after i. */
  function SkipSpace(s: string, i: nat): (j: nat)
    requires i <= |s|
    ensures i <= j <= |s|
    ensures j < |s| ==> !IsSpace(s[j])
    ensures forall k | i <= k < j :: IsSpace(s[k])
    decreases |s| - i
  {
    if i < |s| && IsSpace(s[i]) then SkipSpace(s, i + 1) else i
  }

  /** The index of the first non-digit at or after i. */
  function DigitsEnd(s: string, i: nat): (j: nat)
    requires i <= |s|
    ensures i <= j <= |s|
    ensures j < |s| ==> !IsDigit(s[j])
    ensures forall k | i <= k < j :: IsDigit(s[k])
    decreases |s| - i
  {
    if i < |s| && IsDigit(s[i]) then DigitsEnd(s, i + 1) else i
  }

  /** The index of the first white-space character at or after i. */
  function TokenEnd(s: string, i: nat): (j: nat)
    requires i <= |s|
    ensures i <= j <= |s|
    ensures j < |s| ==> IsSpace(s[j])
    ensures forall k | i <= k < j :: !IsSpace(s[k])
    decreases |s| - i
  {
    if i < |s| && !IsSpace(s[i]) then TokenEnd(s, i + 1) else i
  }

  /** The decimal value of a string of digits. */
  function Decimal(digits: string): (n: int)
    requires forall k | 0 <= k < |digits| :: IsDigit(digits[k])
    ensures n >= 0
  {
    if digits == [] then 0
    else 10 * Decimal(digits[..|digits| - 1]) + DigitValue(digits[|digits| - 1])
  }

  /** `%d`: optional white space, an optional sign and at least one digit.
      Yields the value and the index just after the last digit. */
  function ScanInt(s: string, i: nat): (r: Option<(int, nat)>)
    requires i <= |s|
    ensures r.Some? ==> i < r.value.1 <= |s|
  {
    var j := SkipSpace(s, i);
    var negative := j < |s| && s[j] == '-';
    var k := if j < |s| && (s[j] == '-' || s[j] == '+') then j + 1 else j;
    var e := DigitsEnd(s, k);
    if e == k then None
    else
      var magnitude := Decimal(s[k..e]);
      Some((if negative then -magnitude else magnitude, e))
  }

  /** The values `sscanf(s, format, ...)` converts: the directives are matched in
      order and scanning stops at the first that fails. The C result is the
      length of this sequence, except that `sscanf` returns EOF (-1) instead of 0
      when the input ends before the first conversion; the loaders only compare
      the result with 2 or 3, where the two agree. */
  function ScanFrom(format: seq<Directive>, s: string, i: nat): (vs: seq<Value>)
    requires i <= |s|
    ensures |vs| <= |format|
    decreases |format|, |s| - i
  {
    if format == [] then []
    else match format[0]
      case Lit(c) =>
        if i < |s| && s[i] == c then ScanFrom(format[1..], s, i + 1) else []
      case Space =>
        ScanFrom(format[1..], s, SkipSpace(s, i))
      case Int =>
        (match ScanInt(s, i)
         case None => []
         case Some(r) => [IntVal(r.0)] + ScanFrom(format[1..], s, r.1))
      case Str =>
        var j := SkipSpace(s, i);
        var k := TokenEnd(s, j);
        if k == j then [] else [StrVal(s[j..k])] + ScanFrom(format[1..], s, k)
  }

  /** "%d %d" */
  const Life106Format: seq<Directive> := [Int, Space, Int]

  /** "x = %d, y = %d, rule = %s", in three parts: "x = %d", ", y = %d" and ", rule = %s". */
  const HeaderFormat: seq<Directive> := WidthFormat + HeightFormat + RuleFormat
  const WidthFormat: seq<Directive> := [Lit('x'), Space, Lit('='), Space, Int]
  const HeightFormat: seq<Directive> := [Lit(','), Space, Lit('y'), Space, Lit('='), Space, Int]
  const RuleFormat: seq<Directive> :=
    [Lit(','), Space, Lit('r'), Lit('u'), Lit('l'), Lit('e'), Space, Lit('='), Space, Str]

  /** ASCII `tolower`. */
  function ToLower(c: char): char {
    if 'A' <= c <= 'Z' then (c as int + 32) as char else c
  }

  /** `strcasecmp(a, b) == 0` */
  predicate EqualsIgnoreCase(a: string, b: string) {
    |a| == |b| && forall k | 0 <= k < |a| :: ToLower(a[k]) == ToLower(b[k])
  }

  /** The position of the last '.' in s, if any. */
  function LastDot(s: string): (r: Option<nat>)
    ensures r.Some? ==> r.value < |s| && s[r.value] == '.'
    ensures r.Some? ==> forall k | r.value < k < |s| :: s[k] != '.'
    ensures r.None? ==> forall k | 0 <= k < |s| :: s[k] != '.'
  {
    if s == [] then None
    else if s[|s| - 1] == '.' then Some(|s| - 1)
    else LastDot(s[..|s| - 1])
  }

  /** The text after the last '.' of a file name, or "" when it has none. */
  function Extension(name: string): (ext: string)
    ensures forall k | 0 <= k < |ext| :: ext[k] != '.'
    ensures (ext == [] && forall k | 0 <= k < |name| :: name[k] != '.') || exists stem :: name == stem + "." + ext
  {
    match LastDot(name)
    case None => ""
    case Some(k) =>
      assert name == name[..k] + "." + name[k + 1..];
      name[k + 1..]
  }

  /** Decimal digits of a natural number. */
  function NatDigits(n: nat): (s: string)
    ensures |s| > 0 && forall k | 0 <= k < |s| :: IsDigit(s[k])
  {
    if n < 10 then [('0' as int + n) as char]
    else NatDigits(n / 10) + [('0' as int + n % 10) as char]
  }

  /** How an int prints with "%d". */
  function IntString(n: int): string {
    if n < 0 then "-" + NatDigits(-n) else NatDigits(n)
  }

  lemma {:induction false} DecimalOfNatDigits(n: nat)
    ensures Decimal(NatDigits(n)) == n
  {
    if n >= 10 {
      var s := NatDigits(n);
      DecimalOfNatDigits(n / 10);
      assert s[..|s| - 1] == NatDigits(n / 10);
    }
  }

  /** `%d` reads back what "%d" prints, wherever it stands in the input, when a
      non-digit or the end follows. */
  lemma ScanIntRoundTrip(n: int, s: string, i: nat)
    requires i + |IntString(n)| <= |s| && s[i..i + |IntString(n)|] == IntString(n)
    requires i + |IntString(n)| == |s| || !IsDigit(s[i + |IntString(n)|])
    ensures ScanInt(s, i) == Some((n, i + |IntString(n)|))
  {
    var m: nat := if n < 0 then -n else n;
    var k := if n < 0 then i + 1 else i;
    var e := i + |IntString(n)|;
    DigitsOfIntString(n, s, i);
    ScanIntAt(s, i, k, e);
    assert s[k..e] == NatDigits(m);
    DecimalOfNatDigits(m);
  }

  /** Where "%d" printed n at i, an optional '-' is followed by the digits of |n|. */
  lemma DigitsOfIntString(n: int, s: string, i: nat)
    requires i + |IntString(n)| <= |s| && s[i..i + |IntString(n)|] == IntString(n)
    ensures var k, e := if n < 0 then i + 1 else i, i + |IntString(n)|;
      k < e && (n < 0 ==> s[i] == '-') && s[k..e] == NatDigits(if n < 0 then -n else n) &&
      forall j | k <= j < e :: IsDigit(s[j])
  {
    var digits := NatDigits(if n < 0 then -n else n);
    var k, e := if n < 0 then i + 1 else i, i + |IntString(n)|;
    assert IntString(n)[k - i..] == digits;
    assert s[k..e] == digits;
    forall j | k <= j < e ensures IsDigit(s[j]) {
      assert s[j] == digits[j - k];
    }
  }

  /** `%d` at i on an optional '-' followed by the digits s[k..e]. */
  lemma ScanIntAt(s: string, i: nat, k: nat, e: nat)
    requires i <= k <= i + 1 && k < e <= |s|
    requires k == i + 1 ==> s[i] == '-'
    requires forall j | k <= j < e :: IsDigit(s[j])
    requires e == |s| || !IsDigit(s[e])
    ensures ScanInt(s, i) == Some((if k == i + 1 then -Decimal(s[k..e]) else Decimal(s[k..e]), e))
  {
    assert !IsSpace(s[i]);
    DigitsEndAt(s, k, e);
  }

  // The steps of a scan, one directive at a time.

  lemma ScanIntStep(format: seq<Directive>, j: nat, s: string, i: nat, n: int, e: nat)
    requires j < |format| && i <= |s| && format[j] == Int && ScanInt(s, i) == Some((n, e))
    ensures ScanFrom(format[j..], s, i) == [IntVal(n)] + ScanFrom(format[j + 1..], s, e)
  {
    assert format[j..][1..] == format[j + 1..];
  }

  /** "x = w, y = h, rule = r" */
  function HeaderText(w: int, h: int, rule: string): string {
    "x = " + IntString(w) + ", y = " + IntString(h) + ", rule = " + rule
  }

  /** A `%s` token: not empty, no white space. */
  predicate IsToken(t: string) {
    |t| > 0 && forall k | 0 <= k < |t| :: !IsSpace(t[k])
  }

  /** Trailing white space, such as the newline `fgets` keeps. */
  predicate AllSpace(ws: string) {
    forall k | 0 <= k < |ws| :: IsSpace(ws[k])
  }

  /** Directive d consumes exactly the character s[i]: a literal character, or
      white space standing for a single blank. */
  predicate Consumes(d: Directive, s: string, i: nat)
    requires i < |s|
  {
    match d
    case Lit(c) => s[i] == c
    case Space => s[i] == ' ' && (i + 1 == |s| || !IsSpace(s[i + 1]))
    case _ => false
  }

  /** A run of such directives consumes its characters one by one. */
  lemma {:induction false} ScanSegment(F: seq<Directive>, n: nat, s: string, i: nat)
    requires n <= |F| && i + n <= |s|
    requires forall t | 0 <= t < n :: Consumes(F[t], s, i + t)
    ensures ScanFrom(F, s, i) == ScanFrom(F[n..], s, i + n)
    decreases n
  {
    if n > 0 {
      var G := F[1..];
      assert Consumes(F[0], s, i + 0);
      ScanHead(F, s, i);
      forall t | 0 <= t < n - 1 ensures Consumes(G[t], s, i + 1 + t) {
        assert G[t] == F[t + 1];
        assert Consumes(F[t + 1], s, i + (t + 1));
      }
      ScanSegment(G, n - 1, s, i + 1);
      assert G[n - 1..] == F[n..];
    }
  }

  /** A first directive that consumes exactly s[i] moves the scan one character on. */
  lemma ScanHead(F: seq<Directive>, s: string, i: nat)
    requires 0 < |F| && i < |s| && Consumes(F[0], s, i)
    ensures ScanFrom(F, s, i) == ScanFrom(F[1..], s, i + 1)
  {
    if F[0].Space? {
      assert SkipSpace(s, i + 1) == i + 1;
    }
  }

  /** The header format reads back the three values of a header line, whatever
      white space ends it. */
  lemma ScanHeaderText(w: int, h: int, rule: string, ws: string)
    requires IsToken(rule) && AllSpace(ws)
    ensures ScanFrom(HeaderFormat, HeaderText(w, h, rule) + ws, 0) == [IntVal(w), IntVal(h), StrVal(rule)]
  {
    var s := HeaderText(w, h, rule) + ws;
    var a := 4 + |IntString(w)|;
    var b := a + 6 + |IntString(h)|;
    HeaderTextParts(w, h, rule, ws);
    var rest := HeightFormat + RuleFormat;
    assert HeaderFormat == WidthFormat + rest;
    ScanHeightAndRule(s, a, h, rule, ws);
    ScanWidth(HeaderFormat, rest, s, w);
    var x0, x1 := ScanFrom(HeaderFormat, s, 0), ScanFrom(rest, s, a);
    Prepend(x0, x1, IntVal(w), IntVal(h), StrVal(rule));
  }

  /** A header line without its rule converts only the two sizes, so the
      header test, which asks for three values, rejects it. */
  lemma ScanHeaderWithoutRule()
    ensures ScanFrom(HeaderFormat, "x = 3, y = 3", 0) == [IntVal(3), IntVal(3)]
  {
    var s := "x = 3, y = 3";
    var rest := HeightFormat + RuleFormat;
    assert HeaderFormat == WidthFormat + rest;
    assert IntString(3) == "3";
    assert s[..4] == "x = " && s[4..5] == "3" && s[5] == ',';
    ScanWidth(HeaderFormat, rest, s, 3);
    assert s[5..11] == ", y = " && s[11..] == "3";
    ScanHeightAtEnd(rest, s, 5, 3);
  }

  /** ", y = h" ending the line: the rule directives that follow find nothing. */
  lemma ScanHeightAtEnd(F: seq<Directive>, s: string, a: nat, h: int)
    requires F == HeightFormat + RuleFormat
    requires a + 6 <= |s| && s[a..a + 6] == ", y = " && s[a + 6..] == IntString(h)
    ensures ScanFrom(F, s, a) == [IntVal(h)]
  {
    var e := a + 6 + |IntString(h)|;
    assert s[a + 6..e] == IntString(h) && e == |s|;
    assert IntString(h)[0] == s[a + 6];
    ScanHeightLabel(F, s, a);
    ScanIntRoundTrip(h, s, a + 6);
    ScanIntStep(F, 6, s, a + 6, h, e);
    assert F[0..] == F && F[7..] == RuleFormat;
    ScanLitAtEnd(RuleFormat, s);
  }

  /** A literal character finds nothing once the input has ended. */
  lemma ScanLitAtEnd(format: seq<Directive>, s: string)
    requires |format| > 0 && format[0].Lit?
    ensures ScanFrom(format, s, |s|) == []
  {
  }

  /** ", y = h, rule = r" to the end of the line. */
  lemma ScanHeightAndRule(s: string, a: nat, h: int, rule: string, ws: string)
    requires IsToken(rule) && AllSpace(ws)
    requires var b := a + 6 + |IntString(h)|;
      b + 9 <= |s| && s[a..a + 6] == ", y = " && s[a + 6..b] == IntString(h) && s[b] == ',' &&
      s[b..b + 9] == ", rule = " && s[b + 9..] == rule + ws
    ensures ScanFrom(HeightFormat + RuleFormat, s, a) == [IntVal(h), StrVal(rule)]
  {
    var b := a + 6 + |IntString(h)|;
    ScanRule(RuleFormat, s, b, rule, ws);
    ScanHeight(HeightFormat + RuleFormat, RuleFormat, s, a, h);
  }

  lemma Prepend(x0: seq<Value>, x1: seq<Value>, u: Value, v: Value, t: Value)
    requires x0 == [u] + x1 && x1 == [v, t]
    ensures x0 == [u, v, t]
  {
  }

  lemma HeaderTextParts(w: int, h: int, rule: string, ws: string)
    ensures var s, a := HeaderText(w, h, rule) + ws, 4 + |IntString(w)|;
      var b := a + 6 + |IntString(h)|;
      b + 9 + |rule| + |ws| == |s| &&
      s[..4] == "x = " && s[4..a] == IntString(w) && s[a] == ',' && s[a..a + 6] == ", y = " &&
      s[a + 6..b] == IntString(h) && s[b] == ',' && s[b..b + 9] == ", rule = " && s[b + 9..] == rule + ws
  {
    var W, H := IntString(w), IntString(h);
    var p1 := "x = " + W;
    var p2 := p1 + ", y = ";
    var p3 := p2 + H;
    var p4 := p3 + ", rule = ";
    var p5 := p4 + rule;
    var s := p5 + ws;
    var a, b := |p1|, |p3|;
    assert s == p4 + (rule + ws);
    SliceLeft(p4, rule + ws, 0, |p3|);
    SliceLeft(p3, ", rule = ", 0, |p2|);
    SliceLeft(p2, H, 0, |p1|);
    SliceLeft(p1, ", y = ", 0, 4);
    SliceLeft(p4, rule + ws, b, b + 9);
    SliceLeft(p4, rule + ws, a + 6, b);
    SliceLeft(p4, rule + ws, a, a + 6);
    SliceLeft(p4, rule + ws, 0, a);
    SliceLeft(p3, ", rule = ", 0, a);
    SliceLeft(p3, ", rule = ", a, a + 6);
    SliceLeft(p3, ", rule = ", a + 6, b);
    SliceLeft(p2, H, 0, a);
    SliceLeft(p2, H, a, a + 6);
    assert s[a] == s[a..a + 6][0];
    assert s[b] == s[b..b + 9][0];
  }

  lemma SliceLeft(p: string, q: string, i: nat, j: nat)
    requires i <= j <= |p|
    ensures (p + q)[i..j] == p[i..j]
  {
  }

  /** "x = w" up to the ',' after it. */
  lemma ScanWidth(F: seq<Directive>, G: seq<Directive>, s: string, w: int)
    requires F == WidthFormat + G
    requires 4 + |IntString(w)| < |s|
    requires s[..4] == "x = " && s[4..4 + |IntString(w)|] == IntString(w) && s[4 + |IntString(w)|] == ','
    ensures ScanFrom(F, s, 0) == [IntVal(w)] + ScanFrom(G, s, 4 + |IntString(w)|)
  {
    assert IntString(w)[0] == s[4];
    forall t | 0 <= t < 4 ensures Consumes(F[t], s, t) {
      assert F[t] == WidthFormat[t] && s[t] == "x = "[t];
    }
    ScanSegment(F, 4, s, 0);
    ScanIntRoundTrip(w, s, 4);
    assert F[4] == Int && F[0..] == F && F[5..] == G;
    ScanIntStep(F, 4, s, 4, w, 4 + |IntString(w)|);
  }

  /** ", y = h" up to the ',' after it. */
  lemma ScanHeight(F: seq<Directive>, G: seq<Directive>, s: string, a: nat, h: int)
    requires F == HeightFormat + G
    requires a + 6 + |IntString(h)| < |s|
    requires s[a..a + 6] == ", y = " && s[a + 6..a + 6 + |IntString(h)|] == IntString(h)
    requires s[a + 6 + |IntString(h)|] == ','
    ensures ScanFrom(F, s, a) == [IntVal(h)] + ScanFrom(G, s, a + 6 + |IntString(h)|)
  {
    assert IntString(h)[0] == s[a + 6];
    ScanHeightLabel(F, s, a);
    ScanIntRoundTrip(h, s, a + 6);
    assert F[6] == Int && F[0..] == F && F[7..] == G;
    ScanIntStep(F, 6, s, a + 6, h, a + 6 + |IntString(h)|);
  }

  lemma ScanHeightLabel(F: seq<Directive>, s: string, a: nat)
    requires 6 < |F| && F[..6] == HeightFormat[..6]
    requires a + 6 < |s| && s[a..a + 6] == ", y = " && !IsSpace(s[a + 6])
    ensures ScanFrom(F[0..], s, a) == ScanFrom(F[6..], s, a + 6)
  {
    forall t | 0 <= t < 6 ensures Consumes(F[t], s, a + t) {
      assert F[t] == HeightFormat[t] && s[t + a] == ", y = "[t];
    }
    ScanSegment(F, 6, s, a);
    assert F[0..] == F;
  }

  /** ", rule = r" and trailing white space to the end of the line. */
  lemma ScanRule(F: seq<Directive>, s: string, b: nat, rule: string, ws: string)
    requires F == RuleFormat
    requires IsToken(rule) && AllSpace(ws) && b + 9 <= |s|
    requires s[b..b + 9] == ", rule = " && s[b + 9..] == rule + ws
    ensures ScanFrom(F, s, b) == [StrVal(rule)]
  {
    assert rule[0] == s[b + 9];
    forall t | 0 <= t < 9 ensures Consumes(F[t], s, b + t) {
      assert F[t] == RuleFormat[t] && s[t + b] == ", rule = "[t];
    }
    ScanSegment(F, 9, s, b);
    assert F[9..] == [Str];
    ScanToken(s, b + 9, rule, ws);
  }

  /** `%s` reads a token up to the white space after it. */
  lemma ScanToken(s: string, i: nat, rule: string, ws: string)
    requires IsToken(rule) && AllSpace(ws) && i <= |s| && s[i..] == rule + ws
    ensures ScanFrom([Str], s, i) == [StrVal(rule)]
  {
    var e := i + |rule|;
    assert s[i] == rule[0];
    assert forall k | i <= k < e :: s[k] == rule[k - i];
    assert e < |s| ==> s[e] == ws[0];
    TokenEndAt(s, i, e);
    assert s[i..e] == s[i..][..|rule|] == (rule + ws)[..|rule|] == rule;
  }

  lemma TokenEndAt(s: string, i: nat, e: nat)
    requires i <= e <= |s| && forall k | i <= k < e :: !IsSpace(s[k])
    requires e == |s| || IsSpace(s[e])
    ensures TokenEnd(s, i) == e
    decreases e - i
  {
    if i < e {
      TokenEndAt(s, i + 1, e);
    }
  }

  lemma DigitsEndAt(s: string, i: nat, e: nat)
    requires i <= e <= |s|
    requires forall k | i <= k < e :: IsDigit(s[k])
    requires e == |s| || !IsDigit(s[e])
    ensures DigitsEnd(s, i) == e
    decreases e - i
  {
    if i < e {
      DigitsEndAt(s, i + 1, e);
    }
  }
}
