/**
 Percent-escaping as gourl.rs does it: the table of bytes each mode leaves alone, escaping,
 unescaping with the extra rules of hosts and zones, and when the two undo each other.
 */
module UrlEscape {
  import opened Common

  datatype Mode = Path | Host | Zone | UserPassword | Fragment

  /** Every character stands for one byte. */
  predicate Bytes(s: bytes) {
    forall k :: 0 <= k < |s| ==> s[k] < 256 as char
  }

  /** Marks every mode leaves alone. */
  predicate IsMark(c: char) {
    c == '$' || c == '&' || c == '+' || c == ',' || c == '-' || c == '.' || c == '_' || c == '~' || c == ';' || c == '='
  }

  predicate IsHostMark(c: char) {
    c == '"' || c == '\'' || c == '[' || c == ']' || c == '<' || c == '>'
  }

  /** The table: the byte may appear unescaped in this mode. */
  predicate Allowed(c: char, m: Mode) {
    if IsAlnum(c) || IsMark(c) then true
    else if c == '!' || c == '(' || c == ')' || c == '*' then m.Fragment? || m.Zone? || m.Host?
    else if IsHostMark(c) then m.Zone? || m.Host?
    else if c == '/' || c == '@' then m.Fragment? || m.Path?
    else if c == ':' then !m.UserPassword?
    else c == '?' && m.Fragment?
  }

  function UpperHex(n: int): (c: char)
    requires 0 <= n < 16
    ensures IsHex(c) && HexVal(c) == n
  {
    if n < 10 then (48 + n) as char else (55 + n) as char
  }

  function Byte(hi: char, lo: char): (c: char)
    requires IsHex(hi) && IsHex(lo)
    ensures c < 256 as char
  {
    (16 * HexVal(hi) + HexVal(lo)) as char
  }

  function EscapeByte(c: char): bytes {
    ['%', UpperHex(c as int / 16 % 16), UpperHex(c as int % 16)]
  }

  function EscapeOne(c: char, m: Mode): bytes {
    if Allowed(c, m) then [c] else EscapeByte(c)
  }

  function Escape(s: bytes, m: Mode): bytes {
    if s == "" then "" else EscapeOne(s[0], m) + Escape(s[1..], m)
  }

  /** The escape may stand at the front of `s`: two hex digits, and what hosts and zones ask of it. */
  predicate EscapeOk(s: bytes, m: Mode) {
    && |s| >= 3 && s[0] == '%' && IsHex(s[1]) && IsHex(s[2])
    && (m.Host? ==> HexVal(s[1]) >= 8 || s[..3] == "%25")
    && (m.Zone? ==> s[..3] == "%25" || Byte(s[1], s[2]) == ' ' || Allowed(Byte(s[1], s[2]), Host))
  }

  /** Hosts and zones reject ASCII bytes outside their table. */
  predicate LiteralOk(c: char, m: Mode) {
    (m.Host? || m.Zone?) && c < 128 as char ==> Allowed(c, m)
  }

  function Cons(c: char, r: Option<bytes>): Option<bytes> {
    if r.Some? then Some([c] + r.value) else None
  }

  function Unescape(s: bytes, m: Mode): Option<bytes>
    decreases |s|
  {
    if s == "" then Some("")
    else if s[0] == '%' then
      if EscapeOk(s, m) then Cons(Byte(s[1], s[2]), Unescape(s[3..], m)) else None
    else if LiteralOk(s[0], m) then Cons(s[0], Unescape(s[1..], m))
    else None
  }

  lemma UnescapeLiteral(c: char, s: bytes, m: Mode)
    requires c != '%' && LiteralOk(c, m)
    ensures Unescape([c] + s, m) == Cons(c, Unescape(s, m))
  {
    assert ([c] + s)[1..] == s;
  }

  // ---- Round trips ---------------------------------------------------------------------------

  /** Marks a mode leaves alone, one by one. */
  function Marks(m: Mode): set<char> {
    match m
    case Path => {'$', '&', '+', ',', '-', '.', '/', ':', ';', '=', '@', '_', '~'}
    case Fragment => {'!', '$', '&', '(', ')', '*', '+', ',', '-', '.', '/', ':', ';', '=', '?', '@', '_', '~'}
    case UserPassword => {'$', '&', '+', ',', '-', '.', ';', '=', '_', '~'}
    case _ => {'!', '"', '$', '&', '\'', '(', ')', '*', '+', ',', '-', '.', ':', ';', '<', '=', '>', '[', ']', '_', '~'}
  }

  /** What becomes of one byte. */
  function Spelled(c: char, m: Mode): bytes
    requires c < 256 as char
  {
    if '0' <= c <= '9' || 'A' <= c <= 'Z' || 'a' <= c <= 'z' || c in Marks(m) then [c]
    else ['%', "0123456789ABCDEF"[c as int / 16], "0123456789ABCDEF"[c as int % 16]]
  }

  lemma HexDigit(n: int)
    requires 0 <= n < 16
    ensures UpperHex(n) == "0123456789ABCDEF"[n]
  {
  }

  lemma MarksAllowed(c: char, m: Mode)
    ensures Allowed(c, m) <==> '0' <= c <= '9' || 'A' <= c <= 'Z' || 'a' <= c <= 'z' || c in Marks(m)
  {
  }

  lemma OneSpelled(c: char, m: Mode)
    requires c < 256 as char
    ensures EscapeOne(c, m) == Spelled(c, m)
  {
    hide Allowed, Marks;
    MarksAllowed(c, m);
    HexDigit(c as int / 16);
    HexDigit(c as int % 16);
  }

  /**
   Escaping goes byte by byte: letters, digits and the marks of the mode stay, any other byte
   becomes a percent sign and two capital hex digits.
   */
  lemma {:induction false} EscapeIs(a: bytes, c: char, b: bytes, m: Mode)
    requires c < 256 as char
    ensures Escape("", m) == ""
    ensures Escape(a + [c] + b, m) == Escape(a, m) + Spelled(c, m) + Escape(b, m)
    decreases |a|
  {
    hide EscapeOne, Spelled;
    if a == "" {
      assert a + [c] + b == [c] + b && ([c] + b)[1..] == b;
      OneSpelled(c, m);
    } else {
      assert (a + [c] + b)[1..] == a[1..] + [c] + b;
      EscapeIs(a[1..], c, b, m);
    }
  }

  /** A byte whose escaped form this mode reads back. */
  predicate Survives(c: char, m: Mode) {
    c < 256 as char
    && (m.Host? ==> Allowed(c, Host) || c >= 128 as char || c == '%')
    && (m.Zone? ==> Allowed(c, Host) || c == '%' || c == ' ')
  }

  ghost predicate AllSurvive(s: bytes, m: Mode) {
    forall k :: 0 <= k < |s| ==> Survives(s[k], m)
  }

  /** The mode that prints what `m` reads: hosts print their zones too. */
  function PrintMode(m: Mode): Mode {
    if m.Zone? then Host else m
  }

  lemma EscapeByteBack(c: char)
    requires c < 256 as char
    ensures var e := EscapeByte(c); Byte(e[1], e[2]) == c
    ensures HexVal(EscapeByte(c)[1]) == c as int / 16
    ensures EscapeByte(c) == "%25" <==> c == '%'
  {
    var n := c as int;
    assert n / 16 % 16 == n / 16 && 16 * (n / 16) + n % 16 == n;
    if EscapeByte(c) == "%25" {
      assert UpperHex(n / 16 % 16) == '2' && UpperHex(n % 16) == '5';
      assert n / 16 == 2 && n % 16 == 5;
    }
  }

  lemma ZoneIsHost(c: char)
    ensures Allowed(c, Zone) == Allowed(c, Host)
    ensures Allowed(c, Host) ==> c != '%' && c < 128 as char
  {
  }

  lemma NeverPercent(m: Mode)
    ensures !Allowed('%', m)
  {
  }

  /** One byte in front, escaped or not. */
  lemma UnescapeOne(c: char, rest: bytes, m: Mode)
    requires c < 256 as char
    ensures Unescape(EscapeOne(c, PrintMode(m)) + rest, m) ==
            if Survives(c, m) then Cons(c, Unescape(rest, m)) else None
  {
    var p := PrintMode(m);
    ZoneIsHost(c);
    NeverPercent(p);
    var s := EscapeOne(c, p) + rest;
    if Allowed(c, p) {
      assert s[1..] == rest;
    } else {
      EscapeByteBack(c);
      assert s[..3] == EscapeByte(c) && s[3..] == rest && s[0] == '%';
      assert s[1] == EscapeByte(c)[1] && s[2] == EscapeByte(c)[2];
    }
  }

  lemma SurviveSplit(s: bytes, m: Mode)
    requires s != ""
    ensures AllSurvive(s, m) <==> Survives(s[0], m) && AllSurvive(s[1..], m)
  {
    hide Survives;
    assert forall k :: 0 <= k < |s| - 1 ==> s[1..][k] == s[k + 1];
    assert forall k :: 0 < k < |s| ==> s[k] == s[1..][k - 1];
  }

  /** Unescaping undoes escaping exactly when every byte is one the mode can read back. */
  lemma {:induction false} EscapeRoundTrip(s: bytes, m: Mode)
    requires Bytes(s)
    ensures Unescape(Escape(s, PrintMode(m)), m) == (if AllSurvive(s, m) then Some(s) else None)
    decreases |s|
  {
    if s != "" {
      UnescapeOne(s[0], Escape(s[1..], PrintMode(m)), m);
      EscapeRoundTrip(s[1..], m);
      hide Unescape, EscapeOne, Survives;
      SurviveSplit(s, m);
      assert s == [s[0]] + s[1..];
    }
  }

  /** Paths, fragments and userinfo always survive. */
  lemma PlainRoundTrip(s: bytes, m: Mode)
    requires Bytes(s) && (m.Path? || m.Fragment? || m.UserPassword?)
    ensures Unescape(Escape(s, m), m) == Some(s)
  {
    EscapeRoundTrip(s, m);
    assert AllSurvive(s, m);
  }

  /** Escaping is injective in every mode. */
  lemma {:induction false} EscapeInjective(s: bytes, t: bytes, m: Mode)
    requires Bytes(s) && Bytes(t) && Escape(s, m) == Escape(t, m)
    ensures s == t
  {
    EscapeReadsBack(s, m);
    EscapeReadsBack(t, m);
  }

  /** Without the host rules the escaped text always reads back. */
  function Plainly(s: bytes): Option<bytes> {
    Unescape(s, Path)
  }

  lemma {:induction false} EscapeReadsBack(s: bytes, m: Mode)
    requires Bytes(s)
    ensures Plainly(Escape(s, m)) == Some(s)
    decreases |s|
  {
    if s != "" {
      EscapeReadsBack(s[1..], m);
      NeverPercent(m);
      EscapeByteBack(s[0]);
      var e, rest := EscapeOne(s[0], m), Escape(s[1..], m);
      assert (e + rest)[|e|..] == rest;
      assert s == [s[0]] + s[1..];
    }
  }

  // ---- What the decoded text is like -----------------------------------------------------------

  lemma {:induction false} UnescapeBytes(s: bytes, m: Mode)
    requires Bytes(s) && Unescape(s, m).Some?
    ensures Bytes(Unescape(s, m).value) && (Unescape(s, m).value == "" <==> s == "")
    decreases |s|
  {
    if s != "" {
      UnescapeBytes(if s[0] == '%' then s[3..] else s[1..], m);
    }
  }

  /** Bytes a host can hold after unescaping. */
  predicate HostByte(c: char) {
    Allowed(c, Host) || 128 as char <= c < 256 as char || c == '%'
  }

  /** Bytes a zone can hold after unescaping. */
  predicate ZoneByte(c: char) {
    HostByte(c) || c == ' '
  }

  ghost predicate AllHost(s: bytes) {
    forall k :: 0 <= k < |s| ==> HostByte(s[k])
  }

  ghost predicate AllZone(s: bytes) {
    forall k :: 0 <= k < |s| ==> ZoneByte(s[k])
  }

  lemma {:induction false} HostUnescaped(s: bytes)
    requires Bytes(s) && Unescape(s, Host).Some?
    ensures AllHost(Unescape(s, Host).value)
    decreases |s|
  {
    if s != "" {
      if s[0] == '%' {
        HostUnescaped(s[3..]);
        assert Byte(s[1], s[2]) >= 128 as char || Byte(s[1], s[2]) == '%';
      } else {
        HostUnescaped(s[1..]);
      }
    }
  }

  lemma ZoneFront(s: bytes)
    requires Bytes(s) && s != ""
    ensures s[0] == '%' && EscapeOk(s, Zone) ==> |s| >= 3 && ZoneByte(Byte(s[1], s[2]))
    ensures s[0] != '%' && LiteralOk(s[0], Zone) ==> ZoneByte(s[0])
  {
    ZoneIsHost(s[0]);
    assert |s| >= 3 && s[..3] == "%25" ==> s[1] == '2' && s[2] == '5';
  }

  lemma {:induction false} ZoneUnescaped(s: bytes)
    requires Bytes(s) && Unescape(s, Zone).Some?
    ensures AllZone(Unescape(s, Zone).value)
    decreases |s|
  {
    if s != "" {
      ZoneFront(s);
      hide Allowed, ZoneByte, EscapeOk, LiteralOk;
      ZoneUnescaped(if s[0] == '%' then s[3..] else s[1..]);
    }
  }

  /** Bytes that a host's escapes never stand for. */
  predicate Literal(c: char) {
    c < 128 as char && c != '%'
  }

  /** Such a byte is in the decoded host exactly when it was written there. */
  lemma {:induction false} LiteralKept(s: bytes, c: char)
    requires Unescape(s, Host).Some? && Literal(c) && !IsHex(c)
    ensures c in Unescape(s, Host).value <==> c in s
    decreases |s|
  {
    if s != "" {
      if s[0] == '%' {
        LiteralKept(s[3..], c);
        assert s == [s[0], s[1], s[2]] + s[3..];
        assert Byte(s[1], s[2]) >= 128 as char || Byte(s[1], s[2]) == '%';
      } else {
        LiteralKept(s[1..], c);
        assert s == [s[0]] + s[1..];
      }
    }
  }

  predicate AllDigits(s: bytes) {
    s == "" || (IsDigit(s[0]) && AllDigits(s[1..]))
  }

  lemma {:induction false} DigitsKept(s: bytes)
    requires Unescape(s, Host).Some?
    ensures AllDigits(Unescape(s, Host).value) <==> AllDigits(s)
    ensures AllDigits(s) ==> Unescape(s, Host).value == s
    decreases |s|
  {
    if s != "" {
      if s[0] == '%' {
        assert Byte(s[1], s[2]) >= 128 as char || Byte(s[1], s[2]) == '%';
      } else {
        DigitsKept(s[1..]);
        assert s == [s[0]] + s[1..];
        var t := Unescape(s[1..], Host).value;
        assert ([s[0]] + t)[1..] == t;
      }
    }
  }

  // ---- The loops -----------------------------------------------------------------------------

  /** `unescape`: a checking pass, then a copying pass. */
  method UnescapeLoop(s: bytes, m: Mode) returns (r: Option<bytes>)
    ensures r == Unescape(s, m)
  {
    var n := CountEscapes(s, m);
    if n.None? { return None; }
    if n.value == 0 {
      return Some(s);
    }
    var t := DecodeLoop(s, m);
    r := Some(t);
  }

  /** The copying pass. */
  method DecodeLoop(s: bytes, m: Mode) returns (t: bytes)
    requires Unescape(s, m).Some?
    ensures t == Unescape(s, m).value
  {
    hide Unescape, EscapeOk, Byte, Allowed;
    t := "";
    var i := 0;
    ghost var all := Unescape(s, m).value;
    assert s[0..] == s && t + all == all;
    while i < |s|
      invariant i <= |s| && Unescape(s[i..], m).Some?
      invariant t + Unescape(s[i..], m).value == all
      decreases |s| - i
    {
      UnescapeStep(s, i, m);
      if s[i] == '%' {
        Assoc(t, [Byte(s[i + 1], s[i + 2])], Unescape(s[i + 3..], m).value);
        t := t + [Byte(s[i + 1], s[i + 2])];
        i := i + 3;
      } else {
        Assoc(t, [s[i]], Unescape(s[i + 1..], m).value);
        t := t + [s[i]];
        i := i + 1;
      }
    }
    UnescapeEnd(s, m);
    assert t + "" == t;
  }

  lemma UnescapeEnd(s: bytes, m: Mode)
    ensures Unescape(s[|s|..], m) == Some("")
  {
  }

  /** What a decodable text starts with. */
  lemma UnescapeStep(s: bytes, i: nat, m: Mode)
    requires i < |s| && Unescape(s[i..], m).Some?
    ensures s[i] == '%' ==> i + 3 <= |s| && IsHex(s[i + 1]) && IsHex(s[i + 2])
                            && Unescape(s[i + 3..], m).Some?
                            && Unescape(s[i..], m).value == [Byte(s[i + 1], s[i + 2])] + Unescape(s[i + 3..], m).value
    ensures s[i] != '%' ==> Unescape(s[i + 1..], m).Some?
                            && Unescape(s[i..], m).value == [s[i]] + Unescape(s[i + 1..], m).value
  {
    var rest := s[i..];
    if s[i] == '%' {
      assert rest[3..] == s[i + 3..];
    } else {
      assert rest[1..] == s[i + 1..];
    }
  }

  lemma {:induction false} NoEscapes(s: bytes, m: Mode)
    requires '%' !in s && Unescape(s, m).Some?
    ensures Unescape(s, m) == Some(s)
    decreases |s|
  {
    if s != "" {
      assert s[0] in s;
      forall k | 0 <= k < |s| - 1 ensures s[1..][k] != '%' { assert s[k + 1] in s; }
      NoEscapes(s[1..], m);
      assert s == [s[0]] + s[1..];
    }
  }

  /** The checking pass: how many escapes there are, or none if one of them, or a literal, is refused. */
  method CountEscapes(s: bytes, m: Mode) returns (n: Option<nat>)
    ensures n.Some? <==> Unescape(s, m).Some?
    ensures n == Some(0) ==> Unescape(s, m) == Some(s)
  {
    var count, i := 0, 0;
    assert s[0..] == s;
    while i < |s|
      invariant i <= |s| && (Unescape(s, m).Some? <==> Unescape(s[i..], m).Some?)
      invariant count == 0 ==> '%' !in s[..i]
      decreases |s| - i
    {
      ghost var rest := s[i..];
      if s[i] == '%' {
        count := count + 1;
        if i + 2 >= |s| || !IsHex(s[i + 1]) || !IsHex(s[i + 2]) { return None; }
        assert rest[..3] == s[i..i + 3];
        if m.Host? && HexVal(s[i + 1]) < 8 && s[i..i + 3] != "%25" { return None; }
        if m.Zone? && s[i..i + 3] != "%25" {
          var v := Byte(s[i + 1], s[i + 2]);
          if v != ' ' && !Allowed(v, Host) { return None; }
        }
        assert rest[3..] == s[i + 3..];
        i := i + 3;
      } else {
        if (m.Host? || m.Zone?) && s[i] < 128 as char && !Allowed(s[i], m) { return None; }
        assert rest[1..] == s[i + 1..];
        assert s[..i + 1] == s[..i] + [s[i]];
        i := i + 1;
      }
    }
    assert s[|s|..] == "" && s[..|s|] == s;
    if count == 0 { NoEscapes(s, m); }
    n := Some(count);
  }

  /** `escape`. */
  method EscapeLoop(s: bytes, m: Mode) returns (out: bytes)
    ensures out == Escape(s, m)
  {
    out := "";
    assert s[0..] == s;
    for i := 0 to |s|
      invariant out + Escape(s[i..], m) == Escape(s, m)
    {
      assert s[i..][1..] == s[i + 1..];
      var c := s[i];
      Assoc(out, EscapeOne(c, m), Escape(s[i + 1..], m));
      if !Allowed(c, m) {
        out := out + ['%', UpperHex(c as int / 16 % 16), UpperHex(c as int % 16)];
      } else {
        out := out + [c];
      }
    }
  }
}
