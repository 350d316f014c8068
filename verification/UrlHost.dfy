/**
 Hosts and authorities in gourl.rs: `host[:port]` and bracketed IP literals with zones, and
 exactly which parsed hosts read back after being printed.
 */
module UrlHost {
  import opened Common
  import opened UrlEscape

  /** Verdict of the IP address parser: absent on failure, else whether it is an IPv4 address. */
  type Addr = bytes -> Option<bool>

  /** Last position, or -1. */
  function LastIndexOf(s: bytes, c: char): (i: int)
    ensures -1 <= i < |s| && (i >= 0 ==> s[i] == c)
  {
    if s == "" then -1
    else if s[|s| - 1] == c then |s| - 1
    else LastIndexOf(s[..|s| - 1], c)
  }

  lemma NotInTail(s: bytes, c: char, i: nat)
    requires i < |s| && s[|s| - 1] != c && c !in s[..|s| - 1][i..]
    ensures c !in s[i..]
  {
    var t := s[..|s| - 1][i..];
    forall k | 0 <= k < |s| - i ensures s[i..][k] != c {
      assert k < |t| ==> s[i..][k] == t[k];
    }
  }

  lemma {:induction false} LastIndexOfLast(s: bytes, c: char)
    ensures c !in s[LastIndexOf(s, c) + 1..]
    decreases |s|
  {
    if s == "" {
    } else if s[|s| - 1] == c {
    } else {
      var p := s[..|s| - 1];
      LastIndexOfLast(p, c);
      NotInTail(s, c, LastIndexOf(p, c) + 1);
    }
  }

  lemma LastIndexOfIs(s: bytes, c: char, i: nat)
    requires i < |s| && s[i] == c && c !in s[i + 1..]
    ensures LastIndexOf(s, c) == i
  {
    var j := LastIndexOf(s, c);
    LastIndexOfLast(s, c);
    NoneIn(s, c, i + 1, |s|);
    NoneIn(s, c, j + 1, |s|);
  }

  lemma {:induction false} LastIndexOfNone(s: bytes, c: char)
    ensures LastIndexOf(s, c) < 0 <==> c !in s
    decreases |s|
  {
    if s != "" {
      var n := |s| - 1;
      LastIndexOfNone(s[..n], c);
      assert s == s[..n] + [s[n]];
    }
  }

  // ---- Ports ----------------------------------------------------------------------------------

  predicate ValidOptionalPort(p: bytes) {
    p == "" || (p[0] == ':' && AllDigits(p[1..]))
  }

  /** Only digits behind the first colon. */
  predicate FirstColonOk(h: bytes) {
    h == "" || (if h[0] == ':' then AllDigits(h[1..]) else FirstColonOk(h[1..]))
  }

  /** Only digits behind the last colon. */
  predicate LastColonOk(h: bytes) {
    h == "" || (if h[0] == ':' && ':' !in h[1..] then AllDigits(h[1..]) else LastColonOk(h[1..]))
  }

  /** `http` and `https` count from the first colon, other schemes from the last. */
  predicate PortOk(scheme: bytes, h: bytes) {
    if scheme == "http" || scheme == "https" then FirstColonOk(h) else LastColonOk(h)
  }

  lemma {:induction false} FirstColonMeans(h: bytes)
    ensures FirstColonOk(h) <==> ValidOptionalPort(h[IndexOf(h, ':')..])
    decreases |h|
  {
    if h != "" && h[0] != ':' {
      FirstColonMeans(h[1..]);
      assert h[IndexOf(h, ':')..] == h[1..][IndexOf(h[1..], ':')..];
    }
  }

  lemma {:induction false} LastColonMeans(h: bytes)
    requires ':' in h
    ensures LastIndexOf(h, ':') >= 0
    ensures LastColonOk(h) <==> ValidOptionalPort(h[LastIndexOf(h, ':')..])
    decreases |h|
  {
    var i := LastIndexOf(h, ':');
    LastIndexOfNone(h, ':');
    assert h == [h[0]] + h[1..];
    if ':' in h[1..] {
      LastColonMeans(h[1..]);
      LastIndexOfNone(h[1..], ':');
      LastIndexOfLast(h[1..], ':');
      var j := LastIndexOf(h[1..], ':');
      assert h[j + 2..] == h[1..][j + 1..];
      LastIndexOfIs(h, ':', j + 1);
      assert h[j + 1..] == h[1..][j..];
    } else {
      LastIndexOfIs(h, ':', 0);
      assert h[0..] == h;
    }
  }

  lemma {:induction false} NoColonOk(h: bytes)
    requires ':' !in h
    ensures FirstColonOk(h) && LastColonOk(h)
    decreases |h|
  {
    if h != "" {
      assert h[0] in h;
      forall k | 0 <= k < |h| - 1 ensures h[1..][k] != ':' { assert h[k + 1] in h; }
      NoColonOk(h[1..]);
    }
  }

  lemma HostEscape(s: bytes)
    requires EscapeOk(s, Host)
    ensures !Literal(Byte(s[1], s[2]))
  {
    hide Allowed;
    assert s[..3] == "%25" ==> s[1] == '2' && s[2] == '5';
  }

  lemma EscapeFront(h: bytes, m: Mode)
    requires h != "" && h[0] == '%' && Unescape(h, m).Some?
    ensures EscapeOk(h, m) && Unescape(h[3..], m).Some?
    ensures Unescape(h, m).value == [Byte(h[1], h[2])] + Unescape(h[3..], m).value
    ensures h == [h[0], h[1], h[2]] + h[3..]
  {
    hide Allowed, HexVal, LiteralOk;
  }

  lemma LiteralFront(h: bytes, m: Mode)
    requires h != "" && h[0] != '%' && Unescape(h, m).Some?
    ensures Unescape(h[1..], m).Some? && h == [h[0]] + h[1..]
    ensures Unescape(h, m).value == [h[0]] + Unescape(h[1..], m).value
  {
    hide Allowed, HexVal, EscapeOk;
  }

  /** The front of a decodable host. */
  lemma HostFront(h: bytes)
    requires h != "" && Unescape(h, Host).Some?
    ensures h[0] == '%' ==> |h| >= 3 && IsHex(h[1]) && IsHex(h[2]) && Unescape(h[3..], Host).Some?
                            && Unescape(h, Host).value == [Byte(h[1], h[2])] + Unescape(h[3..], Host).value
                            && !Literal(Byte(h[1], h[2])) && h == [h[0], h[1], h[2]] + h[3..]
    ensures h[0] != '%' ==> Unescape(h[1..], Host).Some? && h == [h[0]] + h[1..]
                            && Unescape(h, Host).value == [h[0]] + Unescape(h[1..], Host).value
  {
    hide Unescape, Byte, Literal, IsHex, HexVal, Allowed;
    if h[0] == '%' {
      EscapeFront(h, Host);
      HostEscape(h);
    } else {
      LiteralFront(h, Host);
    }
  }

  lemma {:induction false} PortsKept(h: bytes)
    requires Unescape(h, Host).Some?
    ensures FirstColonOk(Unescape(h, Host).value) <==> FirstColonOk(h)
    ensures LastColonOk(Unescape(h, Host).value) <==> LastColonOk(h)
    decreases |h|
  {
    if h != "" {
      HostFront(h);
      var x := Unescape(h, Host).value;
      if h[0] == '%' {
        var t := Unescape(h[3..], Host).value;
        PortsKept(h[3..]);
        assert x[1..] == t && x[0] != ':';
        SkipThree(h);
      } else {
        var t := Unescape(h[1..], Host).value;
        PortsKept(h[1..]);
        DigitsKept(h[1..]);
        LiteralKept(h[1..], ':');
        assert x[1..] == t && x[0] == h[0];
      }
    }
  }

  lemma SkipThree(h: bytes)
    requires |h| >= 3 && h[0] != ':' && h[1] != ':' && h[2] != ':'
    ensures FirstColonOk(h) <==> FirstColonOk(h[3..])
    ensures LastColonOk(h) <==> LastColonOk(h[3..])
  {
    assert h[1..][1..] == h[2..] && h[2..][1..] == h[3..];
    assert FirstColonOk(h[1..]) == FirstColonOk(h[2..]) && FirstColonOk(h[2..]) == FirstColonOk(h[3..]);
    assert LastColonOk(h[1..]) == LastColonOk(h[2..]) && LastColonOk(h[2..]) == LastColonOk(h[3..]);
  }

  // ---- Hosts ------------------------------------------------------------------------------------

  /** Where the zone's introducer `%25` begins, or the length. */
  function FindZone(s: bytes): (z: nat)
    ensures z <= |s| && (z < |s| ==> z + 3 <= |s| && s[z..z + 3] == "%25")
  {
    if |s| < 3 then |s| else if s[..3] == "%25" then 0 else 1 + FindZone(s[1..])
  }

  /** The inside of the brackets, its zone in zone mode. */
  function UnescapeName(s: bytes): Option<bytes> {
    var z := FindZone(s);
    if z < |s| then
      var a, b := Unescape(s[..z], Host), Unescape(s[z..], Zone);
      if a.Some? && b.Some? then Some(a.value + b.value) else None
    else Unescape(s, Host)
  }

  function ParseBracketed(addr: Addr, host: bytes, close: nat): Option<bytes>
    requires 0 < close < |host|
  {
    var colonPort := host[close + 1..];
    if !ValidOptionalPort(colonPort) then None
    else
      var port, name := Unescape(colonPort, Host), UnescapeName(host[1..close]);
      if port.None? || name.None? || addr(name.value) != Some(false) then None
      else Some("[" + name.value + "]" + port.value)
  }

  function ParseHost(addr: Addr, scheme: bytes, host: bytes): Option<bytes> {
    var open := LastIndexOf(host, '[');
    if open > 0 then None
    else if open == 0 then
      var close := LastIndexOf(host, ']');
      if close < 0 then None else ParseBracketed(addr, host, close)
    else if PortOk(scheme, host) then Unescape(host, Host)
    else None
  }

  lemma ZoneTurn(s: bytes, z: nat)
    requires z <= |s|
    ensures FindZone(s[z..]) == if z + 3 > |s| then |s| - z else if s[z..z + 3] == "%25" then 0
                                else 1 + FindZone(s[z + 1..])
  {
    if z + 3 <= |s| { assert s[z..][..3] == s[z..z + 3] && s[z..][1..] == s[z + 1..]; }
  }

  method FindZoneLoop(s: bytes) returns (z: nat)
    ensures z == FindZone(s)
  {
    hide FindZone;
    z := 0;
    assert s[0..] == s;
    while z + 3 <= |s| && s[z..z + 3] != "%25"
      invariant z <= |s| && FindZone(s) == z + FindZone(s[z..])
      decreases |s| - z
    {
      ZoneTurn(s, z);
      z := z + 1;
    }
    ZoneTurn(s, z);
    if z + 3 > |s| { z := |s|; }
  }

  /** The inside of the brackets. */
  method ParseName(s: bytes) returns (r: Option<bytes>)
    ensures r == UnescapeName(s)
  {
    hide Unescape, FindZone;
    var z := FindZoneLoop(s);
    if z < |s| {
      var a := UnescapeLoop(s[..z], Host);
      if a.None? { return None; }
      var b := UnescapeLoop(s[z..], Zone);
      if b.None? { return None; }
      return Some(a.value + b.value);
    }
    r := UnescapeLoop(s, Host);
  }

  method ParseBracketedLoop(addr: Addr, host: bytes, close: nat) returns (r: Option<bytes>)
    requires 0 < close < |host|
    ensures r == ParseBracketed(addr, host, close)
  {
    hide Unescape, UnescapeName, ValidOptionalPort;
    if !ValidOptionalPort(host[close + 1..]) { return None; }
    var port := UnescapeLoop(host[close + 1..], Host);
    if port.None? { return None; }
    var name := ParseName(host[1..close]);
    if name.None? { return None; }
    var v4 := addr(name.value);
    if v4.None? || v4.value { return None; }
    r := Some("[" + name.value + "]" + port.value);
  }

  /** `parse_host`. */
  method ParseHostLoop(addr: Addr, scheme: bytes, host: bytes) returns (r: Option<bytes>)
    ensures r == ParseHost(addr, scheme, host)
  {
    hide Unescape, ParseBracketed, PortOk, LastIndexOf;
    var open := LastIndexOf(host, '[');
    if open >= 0 {
      if open > 0 { return None; }
      var close := LastIndexOf(host, ']');
      if close < 0 { return None; }
      r := ParseBracketedLoop(addr, host, close);
      return;
    }
    var ok := CheckPort(scheme, host);
    if !ok { return None; }
    r := UnescapeLoop(host, Host);
  }

  method CheckPort(scheme: bytes, host: bytes) returns (ok: bool)
    ensures ok == PortOk(scheme, host)
  {
    var first := IndexOf(host, ':');
    ok := true;
    if first < |host| {
      assert host[first] in host;
      FirstColonMeans(host);
      LastColonMeans(host);
      var last := LastIndexOf(host, ':');
      LastIndexOfNone(host, ':');
      var i := first;
      if last != first && !(scheme == "http" || scheme == "https") { i := last; }
      ok := ValidOptionalPort(host[i..]);
    } else {
      IndexOfFirst(host, ':');
      assert host[..first] == host;
      NoColonOk(host);
    }
  }

  // ---- What a parsed host is like ----------------------------------------------------------------

  /** Everything from the first percent sign on is zone. */
  ghost predicate NameForm(name: bytes) {
    var z := IndexOf(name, '%');
    AllHost(name[..z]) && '[' !in name[..z] && AllZone(name[z..])
  }

  ghost predicate PlainForm(scheme: bytes, host: bytes) {
    '[' !in host && AllHost(host) && PortOk(scheme, host)
  }

  ghost predicate BracketForm(addr: Addr, host: bytes, name: bytes, port: bytes) {
    && host == "[" + name + "]" + port
    && ValidOptionalPort(port) && addr(name) == Some(false) && NameForm(name)
  }

  ghost predicate HostForm(addr: Addr, scheme: bytes, host: bytes) {
    PlainForm(scheme, host) || exists name, port :: BracketForm(addr, host, name, port)
  }

  lemma {:induction false} FindZonePrefix(s: bytes)
    ensures FindZone(s[..FindZone(s)]) == FindZone(s)
    decreases |s|
  {
    if |s| >= 3 && s[..3] != "%25" {
      FindZonePrefix(s[1..]);
      var z := FindZone(s);
      var p := s[..z];
      assert p[1..] == s[1..][..z - 1];
      if |p| >= 3 { assert p[..3] == s[..3]; }
    } else if |s| < 3 {
      assert s[..|s|] == s;
    }
  }

  /** Without an introducer no percent sign can be decoded. */
  lemma {:induction false} NoPercent(s: bytes)
    requires FindZone(s) == |s| && Unescape(s, Host).Some?
    ensures '%' !in Unescape(s, Host).value
    decreases |s|
  {
    if s != "" {
      HostFront(s);
      if s[0] == '%' {
        PercentByte(s);
        assert s[1..][1..] == s[2..] && s[2..][1..] == s[3..];
        assert FindZone(s[1..]) == |s| - 1 && FindZone(s[2..]) == |s| - 2 && FindZone(s[3..]) == |s| - 3;
        NoPercent(s[3..]);
      } else {
        NoPercent(s[1..]);
      }
    }
  }

  lemma PercentByte(s: bytes)
    requires |s| >= 3 && s[0] == '%' && IsHex(s[1]) && IsHex(s[2])
    ensures Byte(s[1], s[2]) == '%' ==> s[..3] == "%25"
  {
    if Byte(s[1], s[2]) == '%' {
      assert HexVal(s[1]) == 2 && HexVal(s[2]) == 5;
      assert s[1] == '2' && s[2] == '5';
    }
  }

  lemma SubBytes(s: bytes, i: nat, j: nat)
    requires Bytes(s) && i <= j <= |s|
    ensures Bytes(s[i..j])
  {
  }

  lemma NotInPart(s: bytes, c: char, i: nat, j: nat)
    requires c !in s && i <= j <= |s|
    ensures c !in s[i..j]
  {
    forall k | 0 <= k < j - i ensures s[i..j][k] != c { assert s[i + k] in s; }
  }

  lemma NoZone()
    ensures AllZone("")
  {
  }

  lemma PercentCode()
    ensures IsHex('2') && IsHex('5') && Byte('2', '5') == '%'
  {
    assert HexVal('2') == 2 && HexVal('5') == 5;
  }

  lemma IntroducerFirst(s: bytes)
    requires |s| >= 3 && s[..3] == "%25" && Unescape(s, Zone).Some?
    ensures var b := Unescape(s, Zone).value; b != "" && b[0] == '%'
  {
    hide Unescape, EscapeOk, Byte, HexVal, IsHex;
    assert s[0] == s[..3][0] && s[1] == s[..3][1] && s[2] == s[..3][2];
    EscapeFront(s, Zone);
    PercentCode();
  }

  /** The part in front of the zone. */
  lemma HostPartForm(p: bytes)
    requires Bytes(p) && '[' !in p && FindZone(p) == |p| && Unescape(p, Host).Some?
    ensures var a := Unescape(p, Host).value; AllHost(a) && '[' !in a && '%' !in a
  {
    hide Unescape, FindZone, Allowed;
    NoPercent(p);
    HostUnescaped(p);
    LiteralKept(p, '[');
  }

  lemma NameParsed(s: bytes)
    requires Bytes(s) && '[' !in s && UnescapeName(s).Some?
    ensures NameForm(UnescapeName(s).value)
  {
    var z := FindZone(s);
    FindZonePrefix(s);
    var p := s[..z];
    SubBytes(s, 0, z);
    NotInPart(s, '[', 0, z);
    if z < |s| {
      SubBytes(s, z, |s|);
      assert s[z..|s|] == s[z..] && s[z..][..3] == "%25";
      IntroducerFirst(s[z..]);
    } else {
      assert p == s;
    }
    hide Unescape, FindZone, Allowed, AllZone, AllHost, HostByte, ZoneByte;
    HostPartForm(p);
    var a := Unescape(p, Host).value;
    if z < |s| {
      ZoneUnescaped(s[z..]);
      var b := Unescape(s[z..], Zone).value;
      var name := a + b;
      assert name[..|a|] == a && name[|a|..] == b;
      IndexOfIs(name, '%', |a|);
    } else {
      assert a[..|a|] == a && a[|a|..] == "";
      IndexOfIs(a, '%', |a|);
      NoZone();
    }
  }

  /** Every parsed host has one of the two forms. */
  lemma ParsedHostForm(addr: Addr, scheme: bytes, h: bytes)
    requires Bytes(h) && ParseHost(addr, scheme, h).Some?
    ensures HostForm(addr, scheme, ParseHost(addr, scheme, h).value)
  {
    var host := ParseHost(addr, scheme, h).value;
    LastIndexOfNone(h, '[');
    if LastIndexOf(h, '[') < 0 {
      HostUnescaped(h);
      LiteralKept(h, '[');
      PortsKept(h);
    } else {
      var close := LastIndexOf(h, ']');
      var s, port := h[1..close], h[close + 1..];
      LastIndexOfLast(h, '[');
      assert h[0 + 1..] == h[1..];
      SubBytes(h, 1, close);
      assert '[' !in s by {
        forall k | 0 <= k < |s| ensures s[k] != '[' { assert h[1..][k] == s[k]; }
      }
      NameParsed(s);
      PortLiteral(port);
      assert BracketForm(addr, host, UnescapeName(s).value, port);
    }
  }

  /** A valid port is its own escaped and unescaped form. */
  lemma PortLiteral(port: bytes)
    requires ValidOptionalPort(port)
    ensures Unescape(port, Host) == Some(port) && Escape(port, Host) == port
    ensures '[' !in port && ']' !in port && '%' !in port
    ensures AsciiFrom(port, 0)
  {
    if port != "" {
      DigitsLiteral(port[1..]);
      assert Allowed(':', Host);
      hide Allowed, AllDigits, EscapeOk;
      assert port == [port[0]] + port[1..];
    }
  }

  lemma {:induction false} DigitsLiteral(s: bytes)
    requires AllDigits(s)
    ensures Unescape(s, Host) == Some(s) && Escape(s, Host) == s
    ensures forall k :: 0 <= k < |s| ==> IsDigit(s[k])
    decreases |s|
  {
    if s != "" {
      DigitsLiteral(s[1..]);
      assert s == [s[0]] + s[1..];
    }
  }

  // ---- Reading a printed host back ----------------------------------------------------------------

  ghost predicate AsciiFrom(s: bytes, i: nat) {
    forall k :: i <= k < |s| ==> s[k] < 128 as char
  }

  lemma AsciiConcat(a: bytes, b: bytes, i: nat)
    requires i <= |a|
    ensures AsciiFrom(a + b, i) <==> AsciiFrom(a, i) && AsciiFrom(b, 0)
  {
    var s := a + b;
    assert forall k :: 0 <= k < |a| ==> s[k] == a[k];
    assert forall k :: 0 <= k < |b| ==> s[|a| + k] == b[k];
    if AsciiFrom(a, i) && AsciiFrom(b, 0) {
      forall k | i <= k < |s| ensures s[k] < 128 as char {
        if k >= |a| { assert s[k] == b[k - |a|]; }
      }
    }
  }

  /** Bracketed hosts read back only without a second bracket and with an ASCII zone. */
  ghost predicate HostSafe(host: bytes) {
    host != "" && host[0] == '[' ==>
      '[' !in host[1..] && AsciiFrom(host, IndexOf(host, '%'))
  }

  lemma {:induction false} EscapeAppend(a: bytes, b: bytes, m: Mode)
    ensures Escape(a + b, m) == Escape(a, m) + Escape(b, m)
    decreases |a|
  {
    if a == "" {
      assert a + b == b;
    } else {
      EscapeAppend(a[1..], b, m);
      assert (a + b)[1..] == a[1..] + b;
      Assoc(EscapeOne(a[0], m), Escape(a[1..], m), Escape(b, m));
    }
  }

  /** An allowed byte that is neither a hex digit nor a percent sign shows up exactly where it was. */
  lemma {:induction false} AllowedShown(s: bytes, m: Mode, c: char)
    requires !IsHex(c) && c != '%'
    ensures Allowed(c, m) ==> (c in Escape(s, m) <==> c in s)
    ensures !Allowed(c, m) ==> c !in Escape(s, m)
    decreases |s|
  {
    if s != "" {
      AllowedShown(s[1..], m, c);
      assert s == [s[0]] + s[1..];
      if !Allowed(s[0], m) {
        var e := EscapeByte(s[0]);
        assert forall k :: 0 <= k < 3 ==> e[k] == '%' || IsHex(e[k]);
      }
    }
  }

  lemma PlainReparse(addr: Addr, scheme: bytes, host: bytes)
    requires PlainForm(scheme, host)
    ensures ParseHost(addr, scheme, Escape(host, Host)) == Some(host)
  {
    var e := Escape(host, Host);
    assert AllSurvive(host, Host) && Bytes(host);
    assert Allowed('[', Host);
    hide AllHost, AllSurvive, Allowed, Survives, Unescape, Escape, FirstColonOk, LastColonOk;
    EscapeRoundTrip(host, Host);
    AllowedShown(host, Host, '[');
    LastIndexOfNone(e, '[');
    PortsKept(e);
  }

  lemma ZoneStep(c: char, r: bytes)
    requires c < 256 as char && c != '%'
    ensures FindZone(EscapeOne(c, Host) + r) == |EscapeOne(c, Host)| + FindZone(r)
  {
    var e := EscapeOne(c, Host);
    var s := e + r;
    if Allowed(c, Host) {
      assert s[1..] == r;
      assert |s| >= 3 ==> s[..3][0] == c;
    } else {
      EscapeByteBack(c);
      assert s[..3] == e && s[1..][1..] == s[2..] && s[2..][1..] == r;
      assert FindZone(s) == 1 + FindZone(s[1..]);
      assert IsHex(s[1]) && IsHex(s[2]);
      HexFront(s[1..]);
      HexFront(s[2..]);
    }
  }

  lemma HexFront(s: bytes)
    requires s != "" && IsHex(s[0])
    ensures FindZone(s) == 1 + FindZone(s[1..])
  {
    assert |s| >= 3 ==> s[..3][0] == s[0];
  }

  lemma {:induction false} FindZoneEscaped(a: bytes, rest: bytes)
    requires Bytes(a) && '%' !in a
    ensures FindZone(Escape(a, Host) + rest) == |Escape(a, Host)| + FindZone(rest)
    decreases |a|
  {
    if a == "" {
      assert Escape(a, Host) + rest == rest;
    } else {
      SubBytes(a, 1, |a|);
      NotInPart(a, '%', 1, |a|);
      assert a[1..|a|] == a[1..] && a[0] in a;
      FindZoneEscaped(a[1..], rest);
      ZoneStep(a[0], Escape(a[1..], Host) + rest);
      Assoc(EscapeOne(a[0], Host), Escape(a[1..], Host), rest);
    }
  }

  lemma HostSurvives(a: bytes)
    requires AllHost(a)
    ensures AllSurvive(a, Host) && Bytes(a)
  {
  }

  lemma ZoneBytes(b: bytes)
    requires AllZone(b)
    ensures Bytes(b)
  {
  }

  lemma IntroducerShown(b: bytes)
    requires b != "" && b[0] == '%'
    ensures FindZone(Escape(b, Host)) == 0 && Escape(b, Host) != ""
  {
    EscapeByteBack('%');
    NeverPercent(Host);
    var eb := Escape(b, Host);
    assert eb[..3] == "%25";
  }

  lemma NothingShown()
    ensures Escape("", Host) == "" && FindZone("") == 0
  {
  }

  lemma NothingSurvives(m: Mode)
    ensures AllSurvive("", m)
  {
  }

  lemma NameWithZone(a: bytes, b: bytes)
    requires Bytes(a) && Bytes(b) && '%' !in a && AllSurvive(a, Host) && b != "" && b[0] == '%'
    ensures UnescapeName(Escape(a + b, Host)) == if AllSurvive(b, Zone) then Some(a + b) else None
  {
    hide Bytes, AllSurvive, Unescape, Escape, Allowed;
    EscapeAppend(a, b, Host);
    var ea, eb := Escape(a, Host), Escape(b, Host);
    FindZoneEscaped(a, eb);
    EscapeRoundTrip(a, Host);
    EscapeRoundTrip(b, Zone);
    IntroducerShown(b);
    assert (ea + eb)[..|ea|] == ea && (ea + eb)[|ea|..] == eb;
  }

  lemma NameWithoutZone(a: bytes)
    requires Bytes(a) && '%' !in a && AllSurvive(a, Host)
    ensures UnescapeName(Escape(a, Host)) == Some(a)
  {
    hide Bytes, AllSurvive, Unescape, Escape, Allowed;
    FindZoneEscaped(a, "");
    EscapeRoundTrip(a, Host);
    NothingShown();
    assert Escape(a, Host) + "" == Escape(a, Host);
  }

  /** The inside of the brackets reads back exactly when its zone is ASCII. */
  lemma NameReparse(name: bytes)
    requires NameForm(name)
    ensures UnescapeName(Escape(name, Host)) ==
            if AsciiFrom(name, IndexOf(name, '%')) then Some(name) else None
  {
    var z := IndexOf(name, '%');
    var a, b := name[..z], name[z..];
    assert name == a + b;
    IndexOfFirst(name, '%');
    ZoneSurvives(name, z);
    HostSurvives(a);
    ZoneBytes(b);
    assert b != "" ==> b[0] == '%';
    hide *;
    if b != "" {
      NameWithZone(a, b);
    } else {
      NameWithoutZone(a);
      NothingSurvives(Zone);
      assert a == name;
    }
  }

  lemma ZoneSurvives(name: bytes, z: nat)
    requires z <= |name| && AllZone(name[z..])
    ensures AllSurvive(name[z..], Zone) <==> AsciiFrom(name, z)
  {
    forall k | z <= k < |name| ensures Survives(name[k], Zone) <==> name[k] < 128 as char {
      assert ZoneByte(name[z..][k - z]);
      ZoneIsHost(name[k]);
    }
    hide Survives;
    assert forall k :: 0 <= k < |name| - z ==> name[z..][k] == name[z + k];
    assert forall k :: z <= k < |name| ==> name[k] == name[z..][k - z];
  }

  lemma BracketSafe(addr: Addr, host: bytes, name: bytes, port: bytes)
    requires BracketForm(addr, host, name, port)
    ensures HostSafe(host) <==> '[' !in name && AsciiFrom(name, IndexOf(name, '%'))
  {
    var z := IndexOf(name, '%');
    PortLiteral(port);
    IndexOfFirst(name, '%');
    BracketIndex(name, port, z);
    hide ValidOptionalPort, NameForm, IndexOf, AsciiFrom, HostSafe;
    SafeMeans(name, port);
    AsciiBracket(name, port, z);
  }

  lemma SafeMeans(name: bytes, port: bytes)
    requires '[' !in port
    ensures var host := "[" + name + "]" + port;
            HostSafe(host) <==> '[' !in name && AsciiFrom(host, IndexOf(host, '%'))
  {
    hide IndexOf, AsciiFrom;
    var t := name + "]" + port;
    assert "[" + name + "]" + port == "[" + t && ("[" + t)[1..] == t;
  }

  lemma AsciiBracket(name: bytes, port: bytes, z: nat)
    requires z <= |name| && AsciiFrom(port, 0)
    ensures AsciiFrom("[" + name + "]" + port, if z < |name| then z + 1 else |name| + 2 + |port|)
            <==> AsciiFrom(name, z)
  {
    var host := "[" + name + "]" + port;
    if z < |name| {
      assert host == ("[" + name) + ("]" + port);
      AsciiConcat("[" + name, "]" + port, z + 1);
      AsciiConcat("]", port, 0);
      assert forall k :: 0 <= k < |name| ==> ("[" + name)[k + 1] == name[k];
      assert AsciiFrom("]", 0);
      AsciiShift(name, z);
    }
  }

  lemma AsciiShift(name: bytes, z: nat)
    ensures AsciiFrom("[" + name, z + 1) <==> AsciiFrom(name, z)
  {
    var s := "[" + name;
    assert forall k :: 0 <= k < |name| ==> s[k + 1] == name[k];
    assert forall k :: 0 < k < |s| ==> s[k] == name[k - 1];
  }

  /** The first percent sign of a bracketed host is that of its name. */
  lemma BracketIndex(name: bytes, port: bytes, z: nat)
    requires '%' !in port && z == IndexOf(name, '%') && '%' !in name[..z]
    ensures var host := "[" + name + "]" + port;
            IndexOf(host, '%') == if z < |name| then z + 1 else |host|
  {
    var host := "[" + name + "]" + port;
    if z < |name| {
      assert host[..z + 1] == "[" + name[..z];
      IndexOfIs(host, '%', z + 1);
    } else {
      assert name[..z] == name && host[..|host|] == host;
      IndexOfIs(host, '%', |host|);
    }
  }

  /** Escaping keeps the brackets and the port. */
  lemma BracketShown(name: bytes, port: bytes)
    requires ValidOptionalPort(port)
    ensures Escape("[" + name + "]" + port, Host) == "[" + Escape(name, Host) + "]" + port
  {
    hide AllDigits;
    PortLiteral(port);
    EscapeAppend("[" + name + "]", port, Host);
    EscapeAppend("[" + name, "]", Host);
    EscapeAppend("[", name, Host);
    OneShown('[');
    OneShown(']');
  }

  lemma OneShown(c: char)
    requires Allowed(c, Host)
    ensures Escape([c], Host) == [c]
  {
    assert [c][1..] == "" && Escape("", Host) == "";
  }

  lemma BracketReparse(addr: Addr, scheme: bytes, host: bytes, name: bytes, port: bytes)
    requires BracketForm(addr, host, name, port)
    ensures ParseHost(addr, scheme, Escape(host, Host)) == if HostSafe(host) then Some(host) else None
  {
    BracketSafe(addr, host, name, port);
    NameReparse(name);
    PortLiteral(port);
    BracketShown(name, port);
    AllowedShown(name, Host, '[');
    var en := Escape(name, Host);
    assert Allowed('[', Host) by { BracketAllowed(); }
    hide HostSafe, NameForm, ValidOptionalPort, Escape, Unescape, UnescapeName, Allowed, AllDigits, LastIndexOf,
        AsciiFrom, IndexOf;
    if '[' in name {
      SecondBracket(en, port);
    } else {
      BracketSpots(en, port);
      hide *;
      BracketedText(addr, scheme, en, port);
    }
  }

  lemma BracketedText(addr: Addr, scheme: bytes, en: bytes, port: bytes)
    requires '[' !in en && '[' !in port && ']' !in port
    requires ValidOptionalPort(port) && Unescape(port, Host) == Some(port)
    ensures ParseHost(addr, scheme, "[" + en + "]" + port) ==
            var name := UnescapeName(en);
            if name.Some? && addr(name.value) == Some(false) then Some("[" + name.value + "]" + port) else None
  {
    hide ValidOptionalPort, Unescape, UnescapeName, LastIndexOf;
    BracketSpots(en, port);
  }

  lemma BracketSpots(en: bytes, port: bytes)
    requires '[' !in en && '[' !in port && ']' !in port
    ensures var e := "[" + en + "]" + port;
            LastIndexOf(e, '[') == 0 && LastIndexOf(e, ']') == |en| + 1
            && e[1..|en| + 1] == en && e[|en| + 2..] == port
  {
    var e := "[" + en + "]" + port;
    assert e[0 + 1..] == en + "]" + port;
    LastIndexOfIs(e, '[', 0);
    assert e[|en| + 2..] == port;
    LastIndexOfIs(e, ']', |en| + 1);
  }

  lemma BracketAllowed()
    ensures Allowed('[', Host)
  {
  }

  lemma SecondBracket(en: bytes, port: bytes)
    requires '[' in en
    ensures LastIndexOf("[" + en + "]" + port, '[') > 0
  {
    var e := "[" + en + "]" + port;
    var k :| 0 <= k < |en| && en[k] == '[';
    assert e[k + 1] == '[';
    LastIndexOfLast(e, '[');
    LastIndexOfNone(e, '[');
    NoneIn(e, '[', LastIndexOf(e, '[') + 1, |e|);
  }

  /** A parsed host, printed and parsed again, is itself exactly when it is safe. */
  lemma HostReparse(addr: Addr, scheme: bytes, h: bytes)
    requires Bytes(h) && ParseHost(addr, scheme, h).Some?
    ensures var host := ParseHost(addr, scheme, h).value;
            ParseHost(addr, scheme, Escape(host, Host)) == if HostSafe(host) then Some(host) else None
  {
    var host := ParseHost(addr, scheme, h).value;
    ParsedHostForm(addr, scheme, h);
    if PlainForm(scheme, host) {
      PlainReparse(addr, scheme, host);
      assert host != "" && host[0] == '[' ==> '[' in host;
    } else {
      var name, port :| BracketForm(addr, host, name, port);
      BracketReparse(addr, scheme, host, name, port);
    }
  }

  // ---- Zones of the unspecified address --------------------------------------------------------------

  lemma ColonsExample()
    ensures Escape("::", Host) == "::" && Unescape("::", Host) == Some("::")
  {
    assert "::"[1..] == ":" && ":"[1..] == "" && Escape("", Host) == "" && Escape(":", Host) == ":";
    UnescapeLiteral(':', ":", Host);
    UnescapeLiteral(':', "", Host);
    assert [':'] + ":" == "::" && [':'] + "" == ":" && Unescape("", Host) == Some("");
  }

  /** The unspecified address with an escaped zone decodes to the address and the decoded zone. */
  lemma ZonedName(zone: bytes, decoded: bytes)
    requires Unescape("%25" + zone, Zone) == Some("%" + decoded)
    ensures UnescapeName("::%25" + zone) == Some("::%" + decoded)
  {
    var a, b := "::", "%25" + zone;
    ColonsExample();
    hide Unescape, Escape, Allowed;
    assert b[..3] == "%25" && FindZone(b) == 0;
    FindZoneEscaped(a, b);
    hide FindZone;
    assert a + b == "::%25" + zone && (a + b)[..2] == a && (a + b)[2..] == b;
    assert "::" + ("%" + decoded) == "::%" + decoded;
  }

  /** In brackets it is a host, if the address parser takes it for an IPv6 address. */
  lemma ZonedHost(addr: Addr, scheme: bytes, zone: bytes, decoded: bytes)
    requires '[' !in zone && Unescape("%25" + zone, Zone) == Some("%" + decoded)
    requires addr("::%" + decoded) == Some(false)
    ensures ParseHost(addr, scheme, "[::%25" + zone + "]") == Some("[::%" + decoded + "]")
  {
    hide *;
    ZonedName(zone, decoded);
    EmptyPort();
    BracketTexts(zone, decoded);
    BracketedText(addr, scheme, "::%25" + zone, "");
  }

  lemma EmptyPort()
    ensures ValidOptionalPort("") && Unescape("", Host) == Some("")
  {
  }

  lemma BracketTexts(zone: bytes, decoded: bytes)
    ensures '[' !in zone ==> '[' !in "::%25" + zone
    ensures "[" + ("::%25" + zone) + "]" + "" == "[::%25" + zone + "]"
    ensures "[" + ("::%" + decoded) + "]" + "" == "[::%" + decoded + "]"
  {
  }
}
