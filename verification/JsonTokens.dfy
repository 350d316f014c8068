/**
 The tokens of gojson.rs as texts that can be written down, without any scanning: literals,
 numerals put together from their parts, and strings put together from units. What the
 scanners accept as one token is exactly such a text.
 */
module JsonTokens {
  import opened Common
  import opened JsonGrammar
  import opened JsonScanner
  import opened JsonTree
  import opened JsonNormal

  // ---- Strings ---------------------------------------------------------------------------------

  datatype Unit = Plain(c: char) | Short(c: char) | Code(d0: char, d1: char, d2: char, d3: char)

  /** The hexadecimal digits of either case. */
  predicate HexDigit(c: char) {
    '0' <= c <= '9' || 'a' <= c <= 'f' || 'A' <= c <= 'F'
  }

  predicate GoodUnit(u: Unit) {
    match u
    case Plain(c) => c >= ' ' && c != '"' && c != '\\'
    case Short(c) => c in {'"', '\\', '/', 'b', 'f', 'n', 'r', 't'}
    case Code(d0, d1, d2, d3) => HexDigit(d0) && HexDigit(d1) && HexDigit(d2) && HexDigit(d3)
  }

  function UnitText(u: Unit): bytes {
    match u
    case Plain(c) => [c]
    case Short(c) => ['\\', c]
    case Code(d0, d1, d2, d3) => ['\\', 'u', d0, d1, d2, d3]
  }

  ghost predicate GoodUnits(us: seq<Unit>) {
    forall k :: 0 <= k < |us| ==> GoodUnit(us[k])
  }

  function UnitsText(us: seq<Unit>): bytes {
    if us == [] then "" else UnitText(us[0]) + UnitsText(us[1..])
  }

  function Quoted(us: seq<Unit>): bytes {
    "\"" + UnitsText(us) + "\""
  }

  lemma UnitRead(u: Unit, s: bytes)
    requires GoodUnit(u)
    ensures StringBody(UnitText(u) + s) == JsonGrammar.More(|UnitText(u)|, StringBody(s))
  {
    var t := UnitText(u) + s;
    assert t[|UnitText(u)|..] == s;
  }

  lemma {:induction false} UnitsRead(us: seq<Unit>)
    requires GoodUnits(us)
    ensures StringBody(UnitsText(us) + "\"") == Some(|UnitsText(us)| + 1)
    decreases |us|
  {
    if us == [] {
      assert UnitsText(us) + "\"" == "\"";
    } else {
      UnitsRead(us[1..]);
      UnitRead(us[0], UnitsText(us[1..]) + "\"");
      Assoc(UnitText(us[0]), UnitsText(us[1..]), "\"");
    }
  }

  /** The first unit of a string body. */
  lemma FirstUnit(s: bytes) returns (u: Unit)
    requires StringBody(s).Some? && StringBody(s).value > 1
    ensures GoodUnit(u) && 1 <= |UnitText(u)| <= |s| && s[..|UnitText(u)|] == UnitText(u)
    ensures StringBody(s) == JsonGrammar.More(|UnitText(u)|, StringBody(s[|UnitText(u)|..]))
  {
    if s[0] != '\\' {
      u := Plain(s[0]);
    } else if IsShortEscape(s[1]) {
      u := Short(s[1]);
    } else {
      u := Code(s[2], s[3], s[4], s[5]);
    }
  }

  lemma OnlyQuote(s: bytes)
    requires |s| == 1 && StringBody(s).Some?
    ensures s == "\""
  {
    assert s == [s[0]];
  }

  lemma {:induction false} UnitsOf(s: bytes) returns (us: seq<Unit>)
    requires StringBody(s) == Some(|s|)
    ensures GoodUnits(us) && s == UnitsText(us) + "\""
    decreases |s|
  {
    hide StringBody, UnitText, GoodUnit;
    if |s| == 1 {
      us := [];
      OnlyQuote(s);
    } else {
      var u := FirstUnit(s);
      var n := |UnitText(u)|;
      var rest := UnitsOf(s[n..]);
      us := [u] + rest;
      assert us[1..] == rest;
      assert s == s[..n] + s[n..];
      Assoc(UnitText(u), UnitsText(rest), "\"");
    }
  }

  // ---- Numbers ------------------------------------------------------------------------------------

  datatype Power = Power(mark: char, sign: bytes, digits: bytes)

  datatype Numeral = Numeral(negative: bool, whole: bytes, fraction: Option<bytes>, power: Option<Power>)

  /** A non-empty run of decimal digits; leading zeros are allowed. */
  ghost predicate Run(d: bytes) {
    d != "" && forall k :: 0 <= k < |d| ==> '0' <= d[k] <= '9'
  }

  ghost predicate GoodNumeral(n: Numeral) {
    Run(n.whole) && (n.fraction.Some? ==> Run(n.fraction.value))
    && (n.power.Some? ==> (n.power.value.mark == 'e' || n.power.value.mark == 'E')
                          && n.power.value.sign in {"", "+", "-"} && Run(n.power.value.digits))
  }

  function FractionText(f: Option<bytes>): bytes {
    if f.Some? then "." + f.value else ""
  }

  function PowerText(p: Option<Power>): bytes {
    if p.Some? then [p.value.mark] + (p.value.sign + p.value.digits) else ""
  }

  function NumeralText(n: Numeral): bytes {
    (if n.negative then "-" else "") + (n.whole + (FractionText(n.fraction) + PowerText(n.power)))
  }

  lemma {:induction false} RunRead(d: bytes, s: bytes)
    requires forall k :: 0 <= k < |d| ==> '0' <= d[k] <= '9'
    requires s == "" || !('0' <= s[0] <= '9')
    ensures Digits(d + s) == |d|
    decreases |d|
  {
    if d == "" {
      assert d + s == s;
    } else {
      assert (d + s)[1..] == d[1..] + s;
      RunRead(d[1..], s);
    }
  }

  lemma {:induction false} DigitsAre(s: bytes)
    ensures forall k :: 0 <= k < Digits(s) ==> '0' <= s[k] <= '9'
    decreases |s|
  {
    if s != "" && IsDigit(s[0]) { DigitsAre(s[1..]); }
  }

  lemma PowerRead(p: Option<Power>)
    requires p.Some? ==> (p.value.mark == 'e' || p.value.mark == 'E') && p.value.sign in {"", "+", "-"}
                         && Run(p.value.digits)
    ensures Exponent(PowerText(p)) == Some(|PowerText(p)|)
  {
    if p.Some? {
      var q := p.value;
      var t := PowerText(p);
      assert t[1..] == q.sign + q.digits;
      assert Sign(t[1..]) == |q.sign|;
      assert t[1 + |q.sign|..] == q.digits;
      assert q.digits + "" == q.digits;
      RunRead(q.digits, "");
    }
  }

  lemma FractionRead(f: Option<bytes>, rest: bytes)
    requires f.Some? ==> Run(f.value)
    requires rest == "" || (!('0' <= rest[0] <= '9') && rest[0] != '.')
    ensures Fraction(FractionText(f) + rest) == Some(|FractionText(f)|)
  {
    var t := FractionText(f) + rest;
    if f.Some? {
      assert t[1..] == f.value + rest;
      RunRead(f.value, rest);
    } else {
      assert t == rest;
    }
  }

  /** The text without its sign. */
  function UnsignedText(n: Numeral): bytes {
    n.whole + (FractionText(n.fraction) + PowerText(n.power))
  }

  /** What may follow the digits: nothing, a point or the mark of a power. */
  lemma PartFronts(f: Option<bytes>, p: Option<Power>)
    requires p.Some? ==> p.value.mark == 'e' || p.value.mark == 'E'
    ensures var t := PowerText(p); t == "" || (!('0' <= t[0] <= '9') && t[0] != '.')
    ensures var t := FractionText(f) + PowerText(p); t == "" || !('0' <= t[0] <= '9')
  {
  }

  lemma UnsignedRead(n: Numeral)
    requires GoodNumeral(n)
    ensures Unsigned(UnsignedText(n)) == Some(|UnsignedText(n)|)
  {
    hide Run, Digits, Fraction, Exponent, FractionText, PowerText;
    var f, p := FractionText(n.fraction), PowerText(n.power);
    PowerRead(n.power);
    PartFronts(n.fraction, n.power);
    FractionRead(n.fraction, p);
    RunStart(n.whole);
    WholeRead(n.whole, f + p);
    assert UnsignedText(n)[|n.whole|..] == f + p && (f + p)[|f|..] == p;
  }

  lemma SignedRead(s: bytes)
    requires s != "" && IsDigit(s[0]) && Unsigned(s) == Some(|s|)
    ensures TokenLen(s) == Some(|s|) && TokenLen("-" + s) == Some(|s| + 1)
  {
    hide Unsigned, StringBody, LiteralLen;
    assert ("-" + s)[1..] == s;
  }

  lemma NumeralRead(n: Numeral)
    requires GoodNumeral(n)
    ensures TokenLen(NumeralText(n)) == Some(|NumeralText(n)|)
  {
    hide TokenLen, Unsigned, FractionText, PowerText, Run;
    var s := UnsignedText(n);
    UnsignedRead(n);
    RunStart(n.whole);
    assert s[0] == n.whole[0];
    SignedRead(s);
    assert NumeralText(n) == if n.negative then "-" + s else "" + s;
    assert "" + s == s;
  }

  lemma RunStart(d: bytes)
    requires Run(d)
    ensures d != "" && IsDigit(d[0])
  {
  }

  lemma WholeRead(d: bytes, s: bytes)
    requires Run(d) && (s == "" || !('0' <= s[0] <= '9'))
    ensures Digits(d + s) == |d|
  {
    RunRead(d, s);
  }

  lemma NumeralOf(t: bytes) returns (n: Numeral)
    requires NumberLen(t) == Some(|t|)
    ensures GoodNumeral(n) && t == NumeralText(n)
  {
    var negative := t != "" && t[0] == '-';
    n := UnsignedOf(if negative then t[1..] else t, negative);
    hide FractionText, PowerText, GoodNumeral;
    if negative { assert t == "-" + t[1..]; } else { assert t == "" + t; }
  }

  lemma UnsignedOf(s: bytes, negative: bool) returns (n: Numeral)
    requires Unsigned(s) == Some(|s|)
    ensures GoodNumeral(n) && n.negative == negative && s == UnsignedText(n)
  {
    hide Fraction, Exponent, FractionText, PowerText;
    var d := Digits(s);
    DigitsAre(s);
    var rest := s[d..];
    var f := Fraction(rest).value;
    var fraction := FractionOf(rest);
    var power := PowerOf(rest[f..]);
    n := Numeral(negative, s[..d], fraction, power);
    assert rest == rest[..f] + rest[f..];
    assert s == s[..d] + rest;
  }

  lemma FractionOf(s: bytes) returns (f: Option<bytes>)
    requires Fraction(s).Some?
    ensures (f.Some? ==> Run(f.value)) && s[..Fraction(s).value] == FractionText(f)
  {
    if s != "" && s[0] == '.' {
      var d := Digits(s[1..]);
      DigitsAre(s[1..]);
      f := Some(s[1..][..d]);
      assert s[..1 + d] == "." + s[1..][..d];
    } else {
      f := None;
    }
  }

  lemma PowerOf(s: bytes) returns (p: Option<Power>)
    requires Exponent(s) == Some(|s|)
    ensures p.Some? ==> (p.value.mark == 'e' || p.value.mark == 'E') && p.value.sign in {"", "+", "-"}
                        && Run(p.value.digits)
    ensures s == PowerText(p)
  {
    if s == "" {
      p := None;
    } else {
      var k := 1 + Sign(s[1..]);
      DigitsAre(s[k..]);
      p := Some(Power(s[0], s[1..k], s[k..]));
      if k == 2 { assert s[1..k] == [s[1]]; } else { assert s[1..k] == ""; }
      assert s == [s[0]] + (s[1..k] + s[k..]);
    }
  }

  // ---- Main result -----------------------------------------------------------------------------------

  ghost predicate IsNumeral(t: bytes) {
    exists n :: GoodNumeral(n) && t == NumeralText(n)
  }

  ghost predicate IsQuoted(t: bytes) {
    exists us :: GoodUnits(us) && t == Quoted(us)
  }

  /**
   A token is one of the three literals, a numeral or a quoted string, and nothing else; it is
   a string token exactly when it is a quoted string.
   */
  lemma TokenIs(t: bytes)
    ensures IsToken(t) <==> t == "true" || t == "false" || t == "null" || IsNumeral(t) || IsQuoted(t)
    ensures IsString(t) <==> IsQuoted(t)
  {
    if IsToken(t) {
      if t[0] == '"' {
        var us := UnitsOf(t[1..]);
        assert t == ['"'] + t[1..];
        assert t == Quoted(us);
      } else if t[0] == '-' || IsDigit(t[0]) {
        var n := NumeralOf(t);
        assert IsNumeral(t);
      } else {
        assert t[..|t|] == t;
      }
    }
    if IsNumeral(t) {
      var n :| GoodNumeral(n) && t == NumeralText(n);
      NumeralRead(n);
      NumeralFront(n);
    }
    if IsQuoted(t) {
      var us :| GoodUnits(us) && t == Quoted(us);
      QuotedRead(us);
    }
  }

  lemma NumeralFront(n: Numeral)
    requires GoodNumeral(n)
    ensures NumeralText(n) != "" && NumeralText(n)[0] != '"'
  {
  }

  lemma QuotedRead(us: seq<Unit>)
    requires GoodUnits(us)
    ensures TokenLen(Quoted(us)) == Some(|Quoted(us)|) && Quoted(us)[0] == '"'
  {
    UnitsRead(us);
    var t := Quoted(us);
    assert t[1..] == UnitsText(us) + "\"";
  }

  /** White space is any run of the four characters JSON allows between tokens. */
  lemma BlankIs(s: bytes)
    ensures Blank(s) <==> forall k :: 0 <= k < |s| ==> s[k] in {' ', '\t', '\r', '\n'}
  {
  }

  // ---- HTML escaping ------------------------------------------------------------------------------------

  lemma HtmlKeeps(c: char, s: bytes)
    requires c != '<' && c != '>' && c != '&' && !IsLineSep([c] + s)
    ensures Html([c] + s) == [c] + Html(s)
  {
    assert ([c] + s)[1..] == s;
  }

  lemma NoSeparator(a: bytes, s: bytes)
    requires a != "" && !LineSepAt(a, 0) && (s == "" || s[0] < '\U{80}' || s[0] == '\U{E2}')
    ensures !IsLineSep(a + s)
  {
    var t := a + s;
    assert forall i :: 0 <= i < |a| ==> t[i] == a[i];
    if |a| < 3 && s != "" { assert t[|a|] == s[0]; }
  }

  lemma {:induction false} HtmlPasses(a: bytes, s: bytes)
    requires NoRawHtml(a) && (s == "" || s[0] < '\U{80}' || s[0] == '\U{E2}')
    ensures Html(a + s) == a + Html(s)
    decreases |a|
  {
    hide Html, IsLineSep, LineSepAt;
    if a == "" {
      assert a + s == s;
    } else {
      assert a == [a[0]] + a[1..];
      Assoc([a[0]], a[1..], s);
      assert !LineSepAt(a, 0);
      NoSeparator(a, s);
      HtmlKeeps(a[0], a[1..] + s);
      NoRawTail(a);
      HtmlPasses(a[1..], s);
      Assoc([a[0]], a[1..], Html(s));
    }
  }

  lemma NoRawTail(a: bytes)
    requires a != "" && NoRawHtml(a)
    ensures NoRawHtml(a[1..])
  {
    assert forall i :: 0 <= i < |a| - 1 ==> a[1..][i] == a[i + 1] && !LineSepAt(a, i + 1);
  }

  /**
   HTML escaping replaces the first `<`, `>`, `&`, U+2028 or U+2029 by its own escape, leaves
   everything before it as it is and goes on behind it; a text without any is unchanged.
   */
  lemma HtmlIs(a: bytes, s: bytes)
    requires NoRawHtml(a)
    ensures Html(a) == a
    ensures Html(a + "<" + s) == a + "\\u003c" + Html(s)
    ensures Html(a + ">" + s) == a + "\\u003e" + Html(s)
    ensures Html(a + "&" + s) == a + "\\u0026" + Html(s)
    ensures Html(a + "\U{E2}\U{80}\U{A8}" + s) == a + "\\u2028" + Html(s)
    ensures Html(a + "\U{E2}\U{80}\U{A9}" + s) == a + "\\u2029" + Html(s)
  {
    HtmlPasses(a, "");
    assert a + "" == a;
    RawFirst(a, "<", "\\u003c", s) by { assert ("<" + s)[1..] == s; }
    RawFirst(a, ">", "\\u003e", s) by { assert (">" + s)[1..] == s; }
    RawFirst(a, "&", "\\u0026", s) by { assert ("&" + s)[1..] == s; }
    SeparatorFirst('\U{A8}', s);
    SeparatorFirst('\U{A9}', s);
    RawFirst(a, "\U{E2}\U{80}\U{A8}", "\\u2028", s);
    RawFirst(a, "\U{E2}\U{80}\U{A9}", "\\u2029", s);
  }

  lemma SeparatorFirst(c: char, s: bytes)
    requires c == '\U{A8}' || c == '\U{A9}'
    ensures Html(['\U{E2}', '\U{80}', c] + s) == LineSepEscape(c) + Html(s)
  {
    assert (['\U{E2}', '\U{80}', c] + s)[3..] == s;
  }

  lemma RawFirst(a: bytes, raw: bytes, escape: bytes, s: bytes)
    requires NoRawHtml(a) && raw != "" && (raw[0] < '\U{80}' || raw[0] == '\U{E2}')
    requires Html(raw + s) == escape + Html(s)
    ensures Html(a + raw + s) == a + escape + Html(s)
  {
    Assoc(a, raw, s);
    HtmlPasses(a, raw + s);
    Assoc(a, escape, Html(s));
  }
}
