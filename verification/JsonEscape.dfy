/**
 String escaping of gojson.rs (`escape_bytes`): its output is a string token in normal
 form, and on valid UTF-8 it decodes back to its source under section 7 of RFC 8259.
 */
module JsonEscape {
  import opened Common
  import opened JsonGrammar
  import opened JsonScanner
  import opened JsonTree
  import opened JsonNormal

  // ---- UTF-8 ------------------------------------------------------------------

  predicate Between(lo: char, c: char, hi: char) {
    lo <= c <= hi
  }

  predicate Cont(c: char) {
    Between('\U{80}', c, '\U{BF}')
  }

  /** Well-formed multi-byte sequences: table 3-7 of the Unicode standard. */
  predicate Utf8Seq(s: bytes) {
    || (|s| == 2 && Between('\U{C2}', s[0], '\U{DF}') && Cont(s[1]))
    || (|s| == 3 && Cont(s[2]) && Cont(s[1]) && Between('\U{E0}', s[0], '\U{EF}')
        && (s[0] == '\U{E0}' ==> s[1] >= '\U{A0}') && (s[0] == '\U{ED}' ==> s[1] <= '\U{9F}'))
    || (|s| == 4 && Cont(s[3]) && Cont(s[2]) && Cont(s[1]) && Between('\U{F0}', s[0], '\U{F4}')
        && (s[0] == '\U{F0}' ==> s[1] >= '\U{90}') && (s[0] == '\U{F4}' ==> s[1] <= '\U{8F}'))
  }

  /** Width announced by a lead byte; 0 for a byte that cannot lead. */
  function Announced(c: char): nat {
    if c >= '\U{F0}' then 4 else if c >= '\U{E0}' then 3 else if c >= '\U{C0}' then 2 else 0
  }

  /** Width of the UTF-8 sequence at the front of `s`, or 0 when it is invalid. */
  function Utf8Width(s: bytes): (w: nat)
    requires s != []
    ensures w <= |s| && (w > 0 ==> w >= 2 && Utf8Seq(s[..w]))
  {
    var want := Announced(s[0]);
    if want == 0 || want > |s| || !Utf8Seq(s[..want]) then 0 else want
  }

  predicate ValidUtf8(s: bytes) {
    s == [] || if s[0] < '\U{80}' then ValidUtf8(s[1..]) else Utf8Width(s) > 0 && ValidUtf8(s[Utf8Width(s)..])
  }

  // ---- Escaping ---------------------------------------------------------------

  function Hex(n: nat): char
    requires n < 16
  {
    "0123456789abcdef"[n]
  }

  /** How many source bytes one turn of the loop consumes. */
  function Step(s: bytes): (n: nat)
    requires s != []
    ensures 1 <= n <= |s|
  {
    if s[0] < '\U{80}' || Utf8Width(s) == 0 then 1 else Utf8Width(s)
  }

  /** What one turn emits. */
  function Piece(s: bytes): bytes
    requires s != []
  {
    var c := s[0];
    if c == '"' || c == '\\' then ['\\', c]
    else if c == '\n' then "\\n"
    else if c == '\r' then "\\r"
    else if c == '\t' then "\\t"
    else if c == '<' then "\\u003c"
    else if c == '>' then "\\u003e"
    else if c == '&' then "\\u0026"
    else if c < ' ' then "\\u00" + [Hex(c as int / 16), Hex(c as int % 16)]
    else if c < '\U{80}' then [c]
    else if Utf8Width(s) == 0 then "\\ufffd"
    else if IsLineSep(s) then LineSepEscape(s[2])
    else s[..Utf8Width(s)]
  }

  /** The escaped bytes and the closing quote. */
  function Body(s: bytes): bytes {
    if s == [] then "\"" else Piece(s) + Body(s[Step(s)..])
  }

  function Escaped(s: bytes): bytes {
    "\"" + Body(s)
  }

  lemma BodyStep(p: bytes, src: bytes, i: nat)
    requires i < |src|
    ensures p + Body(src[i..]) == p + Piece(src[i..]) + Body(src[i + Step(src[i..])..])
  {
    var s := src[i..];
    assert s[Step(s)..] == src[i + Step(s)..];
    assert p + (Piece(s) + Body(s[Step(s)..])) == p + Piece(s) + Body(s[Step(s)..]);
  }

  method EscapeBytes(out: Buffer, src: bytes)
    modifies out
    ensures out.data == old(out.data) + Escaped(src)
  {
    hide Piece, Step;
    out.Push('"');
    var i := 0;
    ghost var goal := out.data + Body(src);
    assert src[0..] == src;
    Assoc(old(out.data), "\"", Body(src));
    while i < |src|
      invariant i <= |src| && goal == out.data + Body(src[i..])
    {
      BodyStep(out.data, src, i);
      i := EscapeUnit(out, src, i);
    }
    out.Push('"');
  }

  /** One turn of the loop. */
  method EscapeUnit(out: Buffer, src: bytes, i: nat) returns (n: nat)
    requires i < |src|
    modifies out
    ensures n == i + Step(src[i..]) && out.data == old(out.data) + Piece(src[i..])
  {
    var c := src[i];
    n := i + 1;
    if c == '"' || c == '\\' {
      out.Push('\\');
      out.Push(c);
    } else if c == '\n' {
      out.Extend("\\n");
    } else if c == '\r' {
      out.Extend("\\r");
    } else if c == '\t' {
      out.Extend("\\t");
    } else if c == '<' {
      out.Extend("\\u003c");
    } else if c == '>' {
      out.Extend("\\u003e");
    } else if c == '&' {
      out.Extend("\\u0026");
    } else if c < ' ' {
      out.Extend("\\u00");
      out.Push(Hex(c as int / 16));
      out.Push(Hex(c as int % 16));
    } else if c < '\U{80}' {
      out.Push(c);
    } else {
      var width := Utf8Width(src[i..]);
      if width == 0 {
        out.Extend("\\ufffd");
        return;
      }
      var chunk := src[i..i + width];
      assert chunk == src[i..][..width];
      if chunk == "\U{E2}\U{80}\U{A8}" {
        out.Extend("\\u2028");
      } else if chunk == "\U{E2}\U{80}\U{A9}" {
        out.Extend("\\u2029");
      } else {
        out.Extend(chunk);
      }
      n := i + width;
      NotLineSep(src[i..]);
    }
  }

  lemma NotLineSep(s: bytes)
    requires s != [] && Utf8Width(s) > 0
    ensures IsLineSep(s) <==> s[..Utf8Width(s)] == "\U{E2}\U{80}\U{A8}" || s[..Utf8Width(s)] == "\U{E2}\U{80}\U{A9}"
  {
    var t := s[..Utf8Width(s)];
    if IsLineSep(s) {
      assert t == [s[0], s[1], s[2]];
    }
  }

  // ---- The output is a normal string token ------------------------------------

  /** The escapes and characters below 0x80 that `Piece` produces. */
  lemma PieceBody(s: bytes, x: bytes)
    requires s != []
    ensures StringBody(Piece(s) + x) == More(|Piece(s)|, StringBody(x))
  {
    hide StringBody;
    if s[0] >= '\U{80}' && Utf8Width(s) > 0 && !IsLineSep(s) {
      HighBody(Piece(s), x);
    } else {
      PieceForm(s);
      FormBody(Piece(s), x);
    }
  }

  /** One plain character, a short escape or a `\u` escape. */
  predicate AsciiPiece(p: bytes) {
    || (|p| == 1 && p[0] >= ' ' && p[0] != '"' && p[0] != '\\')
    || (|p| == 2 && p[0] == '\\' && IsShortEscape(p[1]))
    || (|p| == 6 && p[0] == '\\' && p[1] == 'u' && IsHex(p[2]) && IsHex(p[3]) && IsHex(p[4]) && IsHex(p[5]))
  }

  lemma PieceForm(s: bytes)
    requires s != [] && (s[0] < '\U{80}' || Utf8Width(s) == 0 || IsLineSep(s))
    ensures AsciiPiece(Piece(s))
  {
  }

  lemma FormBody(p: bytes, x: bytes)
    requires AsciiPiece(p)
    ensures StringBody(p + x) == More(|p|, StringBody(x))
  {
    assert (p + x)[|p|..] == x;
    assert forall i :: 0 <= i < |p| ==> (p + x)[i] == p[i];
  }

  lemma {:induction false} HighBody(p: bytes, x: bytes)
    requires forall i :: 0 <= i < |p| ==> p[i] >= '\U{80}'
    ensures StringBody(p + x) == More(|p|, StringBody(x))
    decreases |p|
  {
    if p == [] {
      assert p + x == x;
    } else {
      assert (p + x)[1..] == p[1..] + x;
      HighBody(p[1..], x);
    }
  }

  lemma {:induction false} BodyIsBody(s: bytes)
    ensures StringBody(Body(s)) == Some(|Body(s)|)
    decreases |s|
  {
    hide Piece, Step;
    if s != [] {
      BodyIsBody(s[Step(s)..]);
      PieceBody(s, Body(s[Step(s)..]));
    }
  }

  lemma PieceHtml(s: bytes, x: bytes)
    requires s != []
    ensures Html(Piece(s) + x) == Piece(s) + Html(x)
  {
    var p := Piece(s);
    if s[0] >= '\U{80}' && Utf8Width(s) > 0 && !IsLineSep(s) {
      HighHtml(s, p, x);
    } else {
      PiecePlain(s);
      hide Html;
      HtmlPlain(p, x);
    }
  }

  lemma PiecePlain(s: bytes)
    requires s != [] && (s[0] < '\U{80}' || Utf8Width(s) == 0 || IsLineSep(s))
    ensures forall k :: 0 <= k < |Piece(s)| ==> PlainAscii(Piece(s)[k])
  {
  }

  lemma HighHtml(s: bytes, p: bytes, x: bytes)
    requires s != [] && s[0] >= '\U{80}' && Utf8Width(s) > 0 && !IsLineSep(s) && p == s[..Utf8Width(s)]
    ensures Html(p + x) == p + Html(x)
  {
    NotLineSep(s);
    assert p[0] == s[0] && p[1] == s[1];
    assert (p + x)[1..] == p[1..] + x;
    assert !IsLineSep(p + x);
    ContHtml(p[1..], x);
  }

  lemma ContOne(c: char, x: bytes)
    requires Cont(c)
    ensures Html([c] + x) == [c] + Html(x)
  {
    assert ([c] + x)[1..] == x;
  }

  lemma {:induction false} ContHtml(p: bytes, x: bytes)
    requires forall i :: 0 <= i < |p| ==> Cont(p[i])
    ensures Html(p + x) == p + Html(x)
    decreases |p|
  {
    hide Html;
    if p == [] {
      assert p + x == x && p + Html(x) == Html(x);
    } else {
      ContHtml(p[1..], x);
      ContOne(p[0], p[1..] + x);
      assert p + x == [p[0]] + (p[1..] + x);
      assert p + Html(x) == [p[0]] + (p[1..] + Html(x));
    }
  }

  lemma {:induction false} BodyHtml(s: bytes)
    ensures Html(Body(s)) == Body(s)
    decreases |s|
  {
    if s == [] {
      assert "\""[1..] == [];
    } else {
      BodyHtml(s[Step(s)..]);
      PieceHtml(s, Body(s[Step(s)..]));
    }
  }

  /** An escaped string is a string token that HTML escaping leaves alone. */
  lemma EscapedNormal(s: bytes)
    ensures IsString(Escaped(s)) && Html(Escaped(s)) == Escaped(s) && Normal(Token(Escaped(s)))
  {
    BodyIsBody(s);
    assert Escaped(s)[1..] == Body(s);
    BodyHtml(s);
  }

  // ---- Decoding ----------------------------------------------------------------

  /** UTF-8 form of a code point. */
  function Utf8(u: nat): bytes
    requires u < 0x110000
  {
    if u < 0x80 then [u as char]
    else if u < 0x800 then [(0xC0 + u / 64) as char, (0x80 + u % 64) as char]
    else if u < 0x10000 then [(0xE0 + u / 4096) as char, (0x80 + u / 64 % 64) as char, (0x80 + u % 64) as char]
    else
      [(0xF0 + u / 262144) as char, (0x80 + u / 4096 % 64) as char, (0x80 + u / 64 % 64) as char,
       (0x80 + u % 64) as char]
  }

  predicate UnicodeEscape(s: bytes) {
    |s| >= 6 && s[0] == '\\' && s[1] == 'u' && IsHex(s[2]) && IsHex(s[3]) && IsHex(s[4]) && IsHex(s[5])
  }

  /** The UTF-16 code unit a `\u` escape names. */
  function CodeUnit(s: bytes): (u: nat)
    requires UnicodeEscape(s)
    ensures u < 0x10000
  {
    ((HexVal(s[2]) * 16 + HexVal(s[3])) * 16 + HexVal(s[4])) * 16 + HexVal(s[5])
  }

  predicate LowSurrogate(s: bytes) {
    UnicodeEscape(s) && 0xDC00 <= CodeUnit(s) < 0xE000
  }

  function ShortEscape(c: char): char
    requires IsShortEscape(c)
  {
    if c == 'b' then '\U{08}' else if c == 'f' then '\U{0C}' else if c == 'n' then '\n'
    else if c == 'r' then '\r' else if c == 't' then '\t' else c
  }

  /**
   Meaning of a string body, closing quote included (section 7 of RFC 8259). A pair of
   escaped surrogates is one character; an escaped surrogate by itself has no meaning.
   */
  function Decode(s: bytes): Option<bytes> {
    if s == [] then None
    else if s[0] == '"' then if |s| == 1 then Some([]) else None
    else if s[0] != '\\' then Prefix([s[0]], Decode(s[1..]))
    else if |s| >= 2 && IsShortEscape(s[1]) then Prefix([ShortEscape(s[1])], Decode(s[2..]))
    else if !UnicodeEscape(s) then None
    else
      var u := CodeUnit(s);
      if u < 0xD800 || u >= 0xE000 then Prefix(Utf8(u), Decode(s[6..]))
      else if u < 0xDC00 && LowSurrogate(s[6..]) then
        Prefix(Utf8(0x10000 + (u - 0xD800) * 0x400 + (CodeUnit(s[6..]) - 0xDC00)), Decode(s[12..]))
      else None
  }

  lemma {:induction false} DecodeVerbatim(p: bytes, x: bytes)
    requires forall i :: 0 <= i < |p| ==> p[i] >= '\U{80}'
    ensures Decode(p + x) == Prefix(p, Decode(x))
    decreases |p|
  {
    if p == [] {
      assert p + x == x;
      if Decode(x).Some? { assert p + Decode(x).value == Decode(x).value; }
    } else {
      assert (p + x)[1..] == p[1..] + x;
      DecodeVerbatim(p[1..], x);
      PrefixAssoc([p[0]], p[1..], Decode(x));
      assert [p[0]] + p[1..] == p;
    }
  }

  lemma DecodeAscii(s: bytes, x: bytes)
    requires s != [] && s[0] < '\U{80}'
    ensures Decode(Piece(s) + x) == Prefix(s[..Step(s)], Decode(x))
  {
    hide Decode, IsLineSep, Utf8Width;
    assert s[..1] == [s[0]];
    var c, p := s[0], Piece(s);
    if |p| == 1 {
      DecodeOne(c, x);
    } else if |p| == 2 {
      DecodeShort(p[1], x);
      assert p == ['\\', p[1]];
    } else {
      if c < ' ' { ControlPiece(c); }
      assert p == "\\u00" + [p[4], p[5]];
      DecodeSmall(p[4], p[5], x);
    }
  }

  lemma DecodePiece(s: bytes, x: bytes)
    requires s != [] && (s[0] < '\U{80}' || Utf8Width(s) > 0)
    ensures Decode(Piece(s) + x) == Prefix(s[..Step(s)], Decode(x))
  {
    hide Decode;
    if s[0] < '\U{80}' {
      DecodeAscii(s, x);
    } else if IsLineSep(s) {
      NotLineSep(s);
      assert s[..3] == [s[0], s[1], s[2]];
      DecodeLineSep(s[2], x);
    } else {
      DecodeVerbatim(Piece(s), x);
    }
  }

  lemma DecodeOne(c: char, x: bytes)
    requires c != '"' && c != '\\'
    ensures Decode([c] + x) == Prefix([c], Decode(x))
  {
    assert ([c] + x)[1..] == x;
  }

  lemma DecodeShort(c: char, x: bytes)
    requires IsShortEscape(c)
    ensures Decode(['\\', c] + x) == Prefix([ShortEscape(c)], Decode(x))
  {
    assert (['\\', c] + x)[2..] == x;
  }

  lemma DecodeSmall(h: char, l: char, x: bytes)
    requires IsHex(h) && IsHex(l) && HexVal(h) < 8
    ensures Decode("\\u00" + [h, l] + x) == Prefix([(HexVal(h) * 16 + HexVal(l)) as char], Decode(x))
  {
    assert ("\\u00" + [h, l] + x)[6..] == x;
  }

  lemma DecodeLineSep(c: char, x: bytes)
    requires c == '\U{A8}' || c == '\U{A9}'
    ensures Decode(LineSepEscape(c) + x) == Prefix(['\U{E2}', '\U{80}', c], Decode(x))
  {
    var d := if c == '\U{A8}' then '8' else '9';
    var u := ((HexVal('2') * 16 + HexVal('0')) * 16 + HexVal('2')) * 16 + HexVal(d);
    assert LineSepEscape(c) == "\\u202" + [d];
    assert (LineSepEscape(c) + x)[6..] == x;
    assert Utf8(u) == ['\U{E2}', '\U{80}', c];
  }

  lemma ControlPiece(c: char)
    requires c < ' '
    ensures var n := c as int;
            IsHex(Hex(n / 16)) && IsHex(Hex(n % 16)) && HexVal(Hex(n / 16)) * 16 + HexVal(Hex(n % 16)) == n
  {
    var n := c as int;
    assert n == n / 16 * 16 + n % 16;
    HexRound(n / 16);
    HexRound(n % 16);
  }

  lemma HexRound(n: nat)
    requires n < 16
    ensures IsHex(Hex(n)) && HexVal(Hex(n)) == n
  {
  }

  /** On valid UTF-8 the escaped form decodes back to its source. */
  lemma {:induction false} DecodeEscaped(s: bytes)
    requires ValidUtf8(s)
    ensures Decode(Body(s)) == Some(s)
    decreases |s|
  {
    if s != [] {
      var n := Step(s);
      DecodeEscaped(s[n..]);
      DecodePiece(s, Body(s[n..]));
      assert s[..n] + s[n..] == s;
    }
  }

  lemma EscapedInjective(s: bytes, t: bytes)
    requires ValidUtf8(s) && ValidUtf8(t) && Escaped(s) == Escaped(t)
    ensures s == t
  {
    assert Escaped(s)[1..] == Body(s) && Escaped(t)[1..] == Body(t);
    DecodeEscaped(s);
    DecodeEscaped(t);
  }

  /** How one ASCII character is written inside a string literal. */
  function Written(c: char): bytes
    requires c < '\U{80}'
  {
    if c == '"' then "\\\"" else if c == '\\' then "\\\\"
    else if c == '\n' then "\\n" else if c == '\r' then "\\r" else if c == '\t' then "\\t"
    else if c < ' ' || c in {'<', '>', '&'} then
      "\\u00" + ["0123456789abcdef"[c as int / 16], "0123456789abcdef"[c as int % 16]]
    else [c]
  }

  /**
   Escaping goes character by character: an ASCII character is written as in the table, a
   multi-byte one as it is unless it is U+2028 or U+2029, and a byte that starts no valid
   sequence as U+FFFD.
   */
  lemma EscapesAs(s: bytes)
    requires s != ""
    ensures Escaped("") == "\"\""
    ensures s[0] < '\U{80}' ==> Escaped(s) == "\"" + Written(s[0]) + Escaped(s[1..])[1..]
    ensures forall n | 2 <= n <= |s| && Utf8Seq(s[..n]) && !IsLineSep(s) ::
              Escaped(s) == "\"" + s[..n] + Escaped(s[n..])[1..]
    ensures IsLineSep(s) ==>
              Escaped(s) == "\"" + (if s[2] == '\U{A8}' then "\\u2028" else "\\u2029") + Escaped(s[3..])[1..]
    ensures s[0] >= '\U{80}' && (forall n :: 2 <= n <= |s| ==> !Utf8Seq(s[..n])) ==>
              Escaped(s) == "\"" + "\\ufffd" + Escaped(s[1..])[1..]
  {
    assert Escaped("") == "\"" + "\"";
    var n := Step(s);
    assert Escaped(s) == "\"" + (Piece(s) + Body(s[n..]));
    Assoc("\"", Piece(s), Body(s[n..]));
    assert Escaped(s[n..])[1..] == Body(s[n..]);
    if s[0] < '\U{80}' {
      PieceWritten(s);
    } else {
      forall w | 2 <= w <= |s| && Utf8Seq(s[..w]) ensures w == Utf8Width(s) { WidthIs(s, w); }
    }
    forall w | 2 <= w <= |s| && Utf8Seq(s[..w]) ensures s[0] >= '\U{80}' { assert s[..w][0] == s[0]; }
    if IsLineSep(s) { assert Utf8Seq(s[..3]); }
  }

  lemma PieceWritten(s: bytes)
    requires s != "" && s[0] < '\U{80}'
    ensures Piece(s) == Written(s[0])
  {
  }

  lemma WidthIs(s: bytes, w: nat)
    requires 2 <= w <= |s| && Utf8Seq(s[..w])
    ensures Utf8Width(s) == w
  {
    assert s[..w][0] == s[0];
  }
}
