/**
 The URL parser and printer of gourl.rs, and the rewrite that strips userinfo: for which
 URLs the stripped text parses to the same URL without the userinfo.
 */
module GoUrl {
  import opened Common
  import opened UrlEscape
  import opened UrlHost

  datatype Url = Url(
    scheme: bytes,
    opaquePart: bytes,
    user: Option<bytes>,
    host: bytes,
    path: bytes,
    rawPath: bytes,
    forceQuery: bool,
    rawQuery: bytes,
    omitHost: bool,
    fragment: bytes,
    rawFragment: bytes)

  const NO_URL: Url := Url("", "", None, "", "", "", false, "", false, "", "")

  predicate Starts(s: bytes, p: bytes) {
    |s| >= |p| && s[..|p|] == p
  }

  // ---- Pieces ------------------------------------------------------------------------------

  predicate IsCtl(c: char) {
    c < ' ' || c == 127 as char
  }

  predicate HasCtl(s: bytes) {
    exists k :: 0 <= k < |s| && IsCtl(s[k])
  }

  predicate IsLetter(c: char) {
    'A' <= c <= 'Z' || 'a' <= c <= 'z'
  }

  predicate IsSchemeMark(c: char) {
    '0' <= c <= '9' || c == '+' || c == '-' || c == '.'
  }

  datatype SchemeScan = NoScheme | Missing | Found(n: nat)

  /** Where the scheme's colon is, looking from `i` on. */
  function ScanScheme(s: bytes, i: nat): (r: SchemeScan)
    requires i <= |s|
    ensures r.Found? ==> r.n < |s|
    decreases |s| - i
  {
    if i == |s| then NoScheme
    else if IsLetter(s[i]) then ScanScheme(s, i + 1)
    else if IsSchemeMark(s[i]) then if i == 0 then NoScheme else ScanScheme(s, i + 1)
    else if s[i] == ':' then if i == 0 then Missing else Found(i)
    else NoScheme
  }

  function LowerChar(c: char): char {
    if 'A' <= c <= 'Z' then (c as int + 32) as char else c
  }

  function Lower(s: bytes): (r: bytes)
    ensures |r| == |s|
  {
    if s == "" then "" else [LowerChar(s[0])] + Lower(s[1..])
  }

  datatype Cut = Cut(force: bool, query: bytes, rest: bytes)

  /** A lone `?` at the end forces an empty query; otherwise the query follows the first `?`. */
  function CutQuery(s: bytes): Cut {
    var i := IndexOf(s, '?');
    if i == |s| then Cut(false, "", s)
    else if i == |s| - 1 then Cut(true, "", s[..i])
    else Cut(false, s[i + 1..], s[..i])
  }

  predicate ValidUserByte(c: char) {
    IsAlnum(c) || c == '-' || c == '.' || c == '_' || c == ':' || c == '~' || c == '!' || c == '$' || c == '&'
    || c == '\''
    || c == '(' || c == ')' || c == '*' || c == '+' || c == ',' || c == ';' || c == '=' || c == '%' || c == '@'
  }

  predicate ValidUserinfo(s: bytes) {
    forall k :: 0 <= k < |s| ==> ValidUserByte(s[k])
  }

  datatype Authority = Authority(user: Option<bytes>, host: bytes)

  /** The userinfo as the program stores it. */
  function ParseUser(info: bytes): Option<bytes> {
    if !ValidUserinfo(info) then None
    else
      var colon := IndexOf(info, ':');
      if colon < |info| then
        var name, password := Unescape(info[..colon], UserPassword), Unescape(info[colon + 1..], UserPassword);
        if name.Some? && password.Some? then
          Some(Escape(name.value, UserPassword) + ":" + Escape(password.value, UserPassword))
        else None
      else Unescape(info, UserPassword)
  }

  function ParseAuthority(addr: Addr, scheme: bytes, a: bytes): Option<Authority> {
    var at := LastIndexOf(a, '@');
    var host := ParseHost(addr, scheme, a[at + 1..]);
    if host.None? then None
    else if at < 0 then Some(Authority(None, host.value))
    else
      var user := ParseUser(a[..at]);
      if user.None? then None else Some(Authority(user, host.value))
  }

  /** The default encoding is not stored. */
  function RawIfNeeded(decoded: bytes, given: bytes, m: Mode): bytes {
    if Escape(decoded, m) == given then "" else given
  }

  function WithPath(u: Url, p: bytes): Option<Url> {
    var path := Unescape(p, Path);
    if path.None? then None else Some(u.(path := path.value, rawPath := RawIfNeeded(path.value, p, Path)))
  }

  function WithFragment(u: Url, f: bytes): Option<Url> {
    var frag := Unescape(f, Fragment);
    if frag.None? then None else Some(u.(fragment := frag.value, rawFragment := RawIfNeeded(frag.value, f, Fragment)))
  }

  predicate ValidEncodedByte(c: char, m: Mode) {
    c == '!' || c == '$' || c == '&' || c == '\'' || c == '(' || c == ')' || c == '*' || c == '+' || c == ','
    || c == ';'
    || c == '=' || c == ':' || c == '@' || c == '[' || c == ']' || c == '%' || Allowed(c, m)
  }

  predicate ValidEncoded(s: bytes, m: Mode) {
    forall k :: 0 <= k < |s| ==> ValidEncodedByte(s[k], m)
  }

  predicate RawUsable(raw: bytes, decoded: bytes, m: Mode) {
    raw != "" && ValidEncoded(raw, m) && Unescape(raw, m) == Some(decoded)
  }

  function EscapedPath(u: Url): bytes {
    if RawUsable(u.rawPath, u.path, Path) then u.rawPath
    else if u.path == "*" then "*"
    else Escape(u.path, Path)
  }

  function EscapedFragment(u: Url): bytes {
    if RawUsable(u.rawFragment, u.fragment, Fragment) then u.rawFragment else Escape(u.fragment, Fragment)
  }

  // ---- Parsing --------------------------------------------------------------------------------

  /** `//` opens an authority, but `///` without a scheme does not. */
  predicate HasAuthority(scheme: bytes, rest: bytes) {
    (scheme != "" || !Starts(rest, "///")) && Starts(rest, "//")
  }

  /** Everything behind scheme and query. */
  function ParseHier(addr: Addr, u: Url, rest: bytes): Option<Url> {
    if !Starts(rest, "/") && u.scheme != "" then Some(u.(opaquePart := rest))
    else if !Starts(rest, "/") && ':' in rest[..IndexOf(rest, '/')] then None
    else if HasAuthority(u.scheme, rest) then
      var after := rest[2..];
      var slash := IndexOf(after, '/');
      var a := ParseAuthority(addr, u.scheme, after[..slash]);
      if a.None? then None else WithPath(u.(user := a.value.user, host := a.value.host), after[slash..])
    else WithPath(if u.scheme != "" && Starts(rest, "/") then u.(omitHost := true) else u, rest)
  }

  function ParseRest(addr: Addr, scheme: bytes, s: bytes): Option<Url> {
    var c := CutQuery(s);
    ParseHier(addr, NO_URL.(scheme := scheme, forceQuery := c.force, rawQuery := c.query), c.rest)
  }

  function ParseInner(addr: Addr, raw: bytes): Option<Url> {
    if HasCtl(raw) then None
    else if raw == "*" then Some(NO_URL.(path := "*"))
    else
      var s := ScanScheme(raw, 0);
      if s.Missing? then None
      else if s.Found? then ParseRest(addr, Lower(raw[..s.n]), raw[s.n + 1..])
      else ParseRest(addr, "", raw)
  }

  function GoParse(addr: Addr, raw: bytes): Option<Url> {
    var i := IndexOf(raw, '#');
    var u := ParseInner(addr, raw[..i]);
    if u.None? || i >= |raw| - 1 then u else WithFragment(u.value, raw[i + 1..])
  }

  // ---- Printing --------------------------------------------------------------------------------

  function SchemePart(u: Url): bytes {
    if u.scheme != "" then u.scheme + ":" else ""
  }

  function AuthorityPart(u: Url): bytes {
    if u.scheme == "" && u.host == "" && u.user.None? then ""
    else if u.omitHost && u.host == "" && u.user.None? then ""
    else
      (if u.host != "" || u.path != "" || u.user.Some? then "//" else "")
      + (if u.user.Some? then u.user.value + "@" else "")
      + (if u.host != "" then Escape(u.host, Host) else "")
  }

  /** The path with its guards; `front` is what has been printed so far. */
  function PathPart(u: Url, front: bytes): bytes {
    var p := EscapedPath(u);
    var doubled := u.omitHost && u.host == "" && u.user.None? && Starts(p, "//");
    var head, q := if doubled then "%2F" else "", if doubled then p[1..] else p;
    var slash := if q != "" && q[0] != '/' && u.host != "" then "/" else "";
    var dot := if front + head + slash == "" && ':' in q[..IndexOf(q, '/')] then "./" else "";
    head + slash + dot + q
  }

  function QueryPart(u: Url): bytes {
    if u.forceQuery || u.rawQuery != "" then "?" + u.rawQuery else ""
  }

  function FragmentPart(u: Url): bytes {
    if u.fragment != "" then "#" + EscapedFragment(u) else ""
  }

  function GoString(u: Url): bytes {
    var front := SchemePart(u) + if u.opaquePart == "" then AuthorityPart(u) else "";
    front + (if u.opaquePart == "" then PathPart(u, front) else u.opaquePart) + QueryPart(u) + FragmentPart(u)
  }

  /** `strip_url_userinfo`: nothing when the text does not parse or has no userinfo. */
  function Strip(addr: Addr, raw: bytes): Option<bytes> {
    var u := GoParse(addr, raw);
    if u.None? || u.value.user.None? then None else Some(GoString(u.value.(user := None)))
  }

  // ---- What a parsed URL with userinfo is like ---------------------------------------------------

  predicate PlainByte(c: char) {
    !IsCtl(c) && c != '#' && c != '?' && c < 256 as char
  }

  predicate QueryByte(c: char) {
    !IsCtl(c) && c != '#' && c < 256 as char
  }

  ghost predicate PlainText(s: bytes) {
    forall k :: 0 <= k < |s| ==> PlainByte(s[k])
  }

  ghost predicate QueryText(s: bytes) {
    forall k :: 0 <= k < |s| ==> QueryByte(s[k])
  }

  predicate SchemeText(s: bytes) {
    s != "" && IsLetter(s[0]) && forall k :: 0 <= k < |s| ==> IsLetter(s[k]) || IsSchemeMark(s[k])
  }

  /** The host came out of the host parser. */
  ghost predicate HostParsed(addr: Addr, scheme: bytes, host: bytes) {
    exists h :: Bytes(h) && ParseHost(addr, scheme, h) == Some(host)
  }

  /** A URL whose text was `[scheme:]//user@host/path…`, with the userinfo taken away. */
  ghost predicate Stripped(addr: Addr, u: Url) {
    && u.user.None? && u.opaquePart == "" && !u.omitHost
    && (u.scheme != "" ==> SchemeText(u.scheme) && Lower(u.scheme) == u.scheme)
    && HostParsed(addr, u.scheme, u.host)
    && Bytes(u.path) && (u.path != "" ==> u.path[0] == '/')
    && PlainText(u.rawPath) && (u.rawPath != "" ==> u.rawPath[0] == '/')
    && QueryText(u.rawQuery) && (u.forceQuery ==> u.rawQuery == "")
    && Bytes(u.fragment)
  }

  lemma TextPart(s: bytes, i: nat, j: nat)
    requires i <= j <= |s|
    ensures PlainText(s) ==> PlainText(s[i..j])
    ensures QueryText(s) ==> QueryText(s[i..j])
    ensures Bytes(s) ==> Bytes(s[i..j])
  {
  }

  lemma {:induction false} LowerKept(s: bytes)
    ensures Lower(Lower(s)) == Lower(s)
    ensures forall k :: 0 <= k < |s| ==> Lower(s)[k] == LowerChar(s[k])
    decreases |s|
  {
    if s != "" {
      LowerKept(s[1..]);
      assert Lower(s)[1..] == Lower(s[1..]);
    }
  }

  lemma LowerScheme(s: bytes)
    requires SchemeText(s)
    ensures SchemeText(Lower(s))
  {
    LowerKept(s);
  }

  lemma {:induction false} ScanFinds(s: bytes, i: nat)
    requires i <= |s|
    ensures ScanScheme(s, i).Found? ==>
              i <= ScanScheme(s, i).n < |s| && s[ScanScheme(s, i).n] == ':' && ScanScheme(s, i).n > 0
              && (forall k :: i <= k < ScanScheme(s, i).n ==> IsLetter(s[k]) || IsSchemeMark(s[k]))
              && (i == 0 ==> IsLetter(s[0]))
    decreases |s| - i
  {
    if i < |s| { ScanFinds(s, i + 1); }
  }

  lemma {:induction false} ScanSchemeText(s: bytes, rest: bytes, i: nat)
    requires SchemeText(s) && i <= |s|
    ensures ScanScheme(s + ":" + rest, i) == Found(|s|)
    decreases |s| - i
  {
    var t := s + ":" + rest;
    if i < |s| {
      assert t[i] == s[i];
      ScanSchemeText(s, rest, i + 1);
    }
  }

  lemma CutShape(s: bytes)
    requires QueryText(s)
    ensures var c := CutQuery(s); QueryText(c.query) && PlainText(c.rest) && (c.force ==> c.query == "")
  {
    var i := IndexOf(s, '?');
    IndexOfFirst(s, '?');
    NoneIn(s, '?', 0, i);
    TextPart(s, if i < |s| then i + 1 else i, |s|);
    assert s[..i] == s[0..i];
    assert s[..|s|] == s;
  }

  lemma PathShape(u: Url, p: bytes)
    requires PlainText(p) && (p == "" || p[0] == '/') && WithPath(u, p).Some?
    ensures var v := WithPath(u, p).value;
            Bytes(v.path) && (v.path != "" ==> v.path[0] == '/')
            && PlainText(v.rawPath) && (v.rawPath != "" ==> v.rawPath[0] == '/')
  {
    PlainIsBytes(p);
    UnescapeBytes(p, Path);
    if p != "" { LiteralFront(p, Path); }
  }

  lemma PlainIsBytes(s: bytes)
    requires PlainText(s)
    ensures Bytes(s)
  {
  }

  lemma AuthorityHost(addr: Addr, scheme: bytes, a: bytes)
    requires Bytes(a) && ParseAuthority(addr, scheme, a).Some?
    ensures HostParsed(addr, scheme, ParseAuthority(addr, scheme, a).value.host)
  {
    var at := LastIndexOf(a, '@');
    TextPart(a, at + 1, |a|);
    assert a[at + 1..|a|] == a[at + 1..];
  }

  lemma HierShape(addr: Addr, u: Url, rest: bytes)
    requires u == NO_URL.(scheme := u.scheme, forceQuery := u.forceQuery, rawQuery := u.rawQuery)
    requires u.scheme != "" ==> SchemeText(u.scheme) && Lower(u.scheme) == u.scheme
    requires QueryText(u.rawQuery) && (u.forceQuery ==> u.rawQuery == "") && PlainText(rest)
    requires ParseHier(addr, u, rest).Some? && ParseHier(addr, u, rest).value.user.Some?
    ensures Stripped(addr, ParseHier(addr, u, rest).value.(user := None))
  {
    hide SchemeText, Lower, PlainText, QueryText, ParseAuthority, HostParsed, Bytes, IndexOf, Unescape, RawIfNeeded;
    var after := rest[2..];
    var slash := IndexOf(after, '/');
    PlainCuts(rest, 2, slash);
    var a := ParseAuthority(addr, u.scheme, after[..slash]);
    AuthorityHost(addr, u.scheme, after[..slash]);
    var v := u.(user := a.value.user, host := a.value.host);
    PathShape(v, after[slash..]);
    PathKeepsRest(v, after[slash..]);
    EmptyBytes();
  }

  lemma PlainCuts(rest: bytes, from: nat, slash: nat)
    requires PlainText(rest) && from + slash <= |rest|
    ensures Bytes(rest[from..][..slash]) && PlainText(rest[from..][slash..])
  {
    hide PlainText;
    var after := rest[from..];
    assert rest[from..|rest|] == after && after[0..slash] == after[..slash] && after[slash..|after|] == after[slash..];
    TextPart(rest, from, |rest|);
    TextPart(after, 0, slash);
    TextPart(after, slash, |after|);
    PlainIsBytes(after[..slash]);
  }

  lemma PathKeepsRest(u: Url, p: bytes)
    requires WithPath(u, p).Some?
    ensures var v := WithPath(u, p).value; v == u.(path := v.path, rawPath := v.rawPath)
  {
  }

  lemma EmptyBytes()
    ensures Bytes("")
  {
  }

  lemma RestShape(addr: Addr, scheme: bytes, s: bytes)
    requires scheme != "" ==> SchemeText(scheme) && Lower(scheme) == scheme
    requires QueryText(s) && ParseRest(addr, scheme, s).Some? && ParseRest(addr, scheme, s).value.user.Some?
    ensures Stripped(addr, ParseRest(addr, scheme, s).value.(user := None))
  {
    hide SchemeText, Lower, PlainText, QueryText, ParseHier, CutQuery, Stripped;
    CutShape(s);
    var c := CutQuery(s);
    HierShape(addr, NO_URL.(scheme := scheme, forceQuery := c.force, rawQuery := c.query), c.rest);
  }

  lemma InnerShape(addr: Addr, raw: bytes)
    requires Bytes(raw) && '#' !in raw
    requires ParseInner(addr, raw).Some? && ParseInner(addr, raw).value.user.Some?
    ensures Stripped(addr, ParseInner(addr, raw).value.(user := None))
  {
    hide ParseRest, Stripped;
    assert QueryText(raw);
    ScanFinds(raw, 0);
    var s := ScanScheme(raw, 0);
    if s.Found? {
      var name := raw[..s.n];
      LowerScheme(name);
      LowerKept(name);
      TextPart(raw, s.n + 1, |raw|);
      assert raw[s.n + 1..|raw|] == raw[s.n + 1..];
      RestShape(addr, Lower(name), raw[s.n + 1..]);
    } else {
      RestShape(addr, "", raw);
    }
  }

  /** What every parsed URL with userinfo is like once the userinfo is gone. */
  lemma ParsedShape(addr: Addr, raw: bytes)
    requires Bytes(raw) && GoParse(addr, raw).Some? && GoParse(addr, raw).value.user.Some?
    ensures Stripped(addr, GoParse(addr, raw).value.(user := None))
  {
    hide ParseInner, Unescape, RawIfNeeded;
    var i := IndexOf(raw, '#');
    IndexOfFirst(raw, '#');
    TextPart(raw, 0, i);
    assert raw[0..i] == raw[..i];
    InnerShape(addr, raw[..i]);
    if i < |raw| - 1 {
      hide HostParsed, SchemeText, PlainText, QueryText, Lower;
      TextPart(raw, i + 1, |raw|);
      assert raw[i + 1..|raw|] == raw[i + 1..];
      UnescapeBytes(raw[i + 1..], Fragment);
    }
  }

  // ---- Reading the stripped text back -----------------------------------------------------------

  /** The part in front of the path. */
  function Front(u: Url): bytes {
    if (u.scheme != "" || u.host != "") && (u.host != "" || u.path != "") then "//" + Escape(u.host, Host) else ""
  }

  /** The stripped text behind its scheme, up to the query. */
  function Body(u: Url): bytes {
    Front(u) + EscapedPath(u)
  }

  lemma EscapedPathFacts(u: Url)
    requires Bytes(u.path) && (u.path != "" ==> u.path[0] == '/')
    requires PlainText(u.rawPath) && (u.rawPath != "" ==> u.rawPath[0] == '/')
    ensures var p := EscapedPath(u);
            Unescape(p, Path) == Some(u.path) && PlainText(p) && (p == "" <==> u.path == "")
                && (p != "" ==> p[0] == '/')
  {
    PlainRoundTrip(u.path, Path);
    EscapePlain(u.path, Path);
    var p := EscapedPath(u);
    if p == u.rawPath { PlainIsBytes(p); UnescapeBytes(p, Path); }
    SlashFirst(u.path);
  }

  lemma SlashFirst(s: bytes)
    requires s != "" ==> s[0] == '/'
    ensures var e := Escape(s, Path); (e == "" <==> s == "") && (e != "" ==> e[0] == '/')
  {
  }

  lemma EscapeOnePlain(c: char, m: Mode)
    requires m.Path? || m.Host?
    ensures PlainText(EscapeOne(c, m))
  {
  }

  lemma {:induction false} EscapePlain(s: bytes, m: Mode)
    requires m.Path? || m.Host?
    ensures PlainText(Escape(s, m))
    decreases |s|
  {
    if s != "" {
      EscapePlain(s[1..], m);
      EscapeOnePlain(s[0], m);
      PlainAppend(EscapeOne(s[0], m), Escape(s[1..], m));
    }
  }

  lemma PlainAppend(a: bytes, b: bytes)
    requires PlainText(a) && PlainText(b)
    ensures PlainText(a + b)
  {
    hide PlainByte;
  }

  lemma FragmentFacts(u: Url)
    requires Bytes(u.fragment)
    ensures Unescape(EscapedFragment(u), Fragment) == Some(u.fragment)
    ensures u.fragment != "" ==> EscapedFragment(u) != ""
  {
    PlainRoundTrip(u.fragment, Fragment);
    assert Unescape("", Fragment) == Some("");
  }

  /** Bytes a path or a fragment may be written with. */
  predicate Writable(c: char, m: Mode) {
    '0' <= c <= '9' || 'A' <= c <= 'Z' || 'a' <= c <= 'z'
    || c in {'-', '.', '_', '~', '!', '$', '&', '\'', '(', ')', '*', '+', ',', ';', '=', ':', '@', '[', ']', '%', '/'}
    || (m.Fragment? && c == '?')
  }

  ghost predicate AllWritable(s: bytes, m: Mode) {
    forall k :: 0 <= k < |s| ==> Writable(s[k], m)
  }

  lemma WritableIs(s: bytes, m: Mode)
    requires m.Path? || m.Fragment?
    ensures ValidEncoded(s, m) <==> AllWritable(s, m)
  {
  }

  lemma {:induction false} EscapeWritable(s: bytes, m: Mode)
    requires m.Path? || m.Fragment?
    ensures AllWritable(Escape(s, m), m)
    decreases |s|
  {
    if s != "" {
      EscapeWritable(s[1..], m);
      EscapedByteWritable(s[0], m);
    }
  }

  lemma EscapedByteWritable(c: char, m: Mode)
    requires m.Path? || m.Fragment?
    ensures AllWritable(EscapeOne(c, m), m)
  {
  }

  /**
   A path that was parsed is printed as it was written exactly when it holds no byte outside
   the path alphabet and is not `%2A`, which comes back as a star; otherwise it is printed
   with the default escapes of what it stands for.
   */
  lemma PathAsWritten(u: Url, p: bytes)
    requires WithPath(u, p).Some?
    ensures var v := WithPath(u, p).value;
            Unescape(p, Path) == Some(v.path)
            && (EscapedPath(v) == p <==> AllWritable(p, Path) && p != "%2A")
            && (!AllWritable(p, Path) ==> EscapedPath(v) == Escape(v.path, Path))
            && (p == "%2A" ==> EscapedPath(v) == "*")
  {
    hide Unescape, AllWritable, ValidEncoded;
    var v := WithPath(u, p).value;
    WritableIs(p, Path);
    EscapeWritable(v.path, Path);
    assert Escape("*", Path) == "%2A" by { assert "*"[1..] == ""; }
    NoneDecoded(Path);
    StarDecoded();
    if v.path == "*" { StarWritten(p); }
    StarsWritable();
  }

  lemma NoneDecoded(m: Mode)
    ensures Unescape("", m) == Some("") && Escape("", m) == ""
  {
  }

  lemma StarDecoded()
    ensures Unescape("%2A", Path) == Some("*")
  {
    NoneDecoded(Path);
    assert "%2A"[3..] == "";
    assert EscapeOk("%2A", Path);
    assert Byte('2', 'A') == '*' by { assert 16 * 2 + 10 == 42; }
    assert Unescape("%2A", Path) == Cons(Byte('2', 'A'), Unescape("", Path));
    assert ['*'] + "" == "*";
  }

  lemma StarsWritable()
    ensures AllWritable("*", Path) && AllWritable("%2A", Path) && AllWritable("%2a", Path)
  {
  }

  lemma StarWritten(p: bytes)
    requires Unescape(p, Path) == Some("*")
    ensures p == "*" || p == "%2A" || p == "%2a"
  {
    if p[0] == '%' {
      OnlyEmpty(p[3..]);
      assert Unescape(p, Path) == Cons(Byte(p[1], p[2]), Unescape(p[3..], Path));
      assert Unescape(p, Path).value == [Byte(p[1], p[2])] + Unescape(p[3..], Path).value;
      assert Unescape(p, Path).value[0] == Byte(p[1], p[2]);
      assert |Unescape(p, Path).value| == 1 + |Unescape(p[3..], Path).value|;
      assert p == ['%', p[1], p[2]];
      StarDigits(p[1], p[2]);
    } else {
      OnlyEmpty(p[1..]);
      assert p == [p[0]];
    }
  }

  lemma StarDigits(hi: char, lo: char)
    requires IsHex(hi) && IsHex(lo) && Byte(hi, lo) == '*'
    ensures hi == '2' && (lo == 'A' || lo == 'a')
  {
    assert 16 * HexVal(hi) + HexVal(lo) == 42;
  }

  lemma OnlyEmpty(s: bytes)
    ensures Unescape(s, Path) == Some("") ==> s == ""
  {
  }

  /** A fragment is printed as it was written exactly when it holds no byte outside the fragment alphabet. */
  lemma FragmentAsWritten(u: Url, f: bytes)
    requires WithFragment(u, f).Some?
    ensures var v := WithFragment(u, f).value;
            Unescape(f, Fragment) == Some(v.fragment)
            && (EscapedFragment(v) == f <==> AllWritable(f, Fragment))
            && (!AllWritable(f, Fragment) ==> EscapedFragment(v) == Escape(v.fragment, Fragment))
  {
    hide Unescape, AllWritable, ValidEncoded;
    var v := WithFragment(u, f).value;
    NoneDecoded(Fragment);
    WritableIs(f, Fragment);
    EscapeWritable(v.fragment, Fragment);
  }

  lemma BodyPlain(u: Url)
    requires PlainText(EscapedPath(u))
    ensures PlainText(Body(u))
  {
    EscapePlain(u.host, Host);
    PlainAppend("//", Escape(u.host, Host)) by { assert PlainText("//"); }
    PlainAppend(Front(u), EscapedPath(u)) by { assert PlainText(""); }
  }

  /** The stripped URL prints as scheme, body, query and fragment. */
  lemma StrippedText(addr: Addr, u: Url)
    requires Stripped(addr, u)
    ensures GoString(u) == SchemePart(u) + Body(u) + QueryPart(u) + FragmentPart(u)
  {
    hide HostParsed, SchemeText, PlainText, QueryText, Escape, Unescape;
    EscapedPathFacts(u);
    hide EscapedPath;
    var p := EscapedPath(u);
    AuthorityIsFront(u);
    PathIsPath(u, SchemePart(u) + AuthorityPart(u));
    hide PathPart, AuthorityPart, Front, QueryPart, FragmentPart, SchemePart;
    Assoc(SchemePart(u), Front(u), p);
  }

  lemma AuthorityIsFront(u: Url)
    requires u.user.None? && !u.omitHost
    ensures AuthorityPart(u) == Front(u)
  {
    if u.host == "" {
      assert Escape(u.host, Host) == "";
      assert "//" + "" + "" == "//" + "";
    } else {
      assert "//" + "" + Escape(u.host, Host) == "//" + Escape(u.host, Host);
    }
  }

  lemma PathIsPath(u: Url, front: bytes)
    requires !u.omitHost && (EscapedPath(u) != "" ==> EscapedPath(u)[0] == '/')
    ensures PathPart(u, front) == EscapedPath(u)
  {
    hide EscapedPath;
    var p := EscapedPath(u);
    assert p[..IndexOf(p, '/')] == "";
    assert "" + "" + "" + p == p;
  }

  lemma CutQueryBack(body: bytes, force: bool, query: bytes)
    requires PlainText(body) && (force ==> query == "")
    ensures CutQuery(body + if force || query != "" then "?" + query else "") == Cut(force, query, body)
  {
    var q := if force || query != "" then "?" + query else "";
    var s := body + q;
    assert s[..|body|] == body;
    assert '?' !in body by { PlainHas(body); }
    IndexOfIs(s, '?', |body|);
    if q != "" {
      assert s[|body| + 1..] == query;
    } else {
      assert s == body;
    }
  }

  lemma PlainHas(s: bytes)
    requires PlainText(s)
    ensures '?' !in s && '#' !in s && !HasCtl(s)
  {
  }

  /** The text in front of the fragment. */
  function Inner(u: Url): bytes {
    SchemePart(u) + Body(u) + QueryPart(u)
  }

  lemma QueryAppend(a: bytes, b: bytes)
    requires QueryText(a) && QueryText(b)
    ensures QueryText(a + b)
  {
    hide QueryByte;
  }

  lemma QueryHas(s: bytes)
    requires QueryText(s)
    ensures '#' !in s && !HasCtl(s)
  {
  }

  lemma InnerClean(addr: Addr, u: Url)
    requires Stripped(addr, u)
    ensures '#' !in Inner(u) && !HasCtl(Inner(u)) && PlainText(Body(u))
  {
    EscapedPathFacts(u);
    BodyPlain(u);
    assert QueryText(Body(u));
    assert QueryText(SchemePart(u)) by { SchemePlain(u); }
    assert QueryText(QueryPart(u)) by { assert QueryText("?"); QueryAppend("?", u.rawQuery); }
    hide Body, SchemePart, QueryPart, QueryText;
    QueryAppend(SchemePart(u), Body(u));
    QueryAppend(SchemePart(u) + Body(u), QueryPart(u));
    QueryHas(Inner(u));
  }

  lemma SchemePlain(u: Url)
    requires u.scheme != "" ==> SchemeText(u.scheme)
    ensures QueryText(SchemePart(u))
  {
  }

  lemma InnerWithScheme(addr: Addr, scheme: bytes, rest: bytes)
    requires SchemeText(scheme) && Lower(scheme) == scheme && !HasCtl(scheme + ":" + rest)
    ensures ParseInner(addr, scheme + ":" + rest) == ParseRest(addr, scheme, rest)
  {
    hide HasCtl, ParseRest, Lower;
    ScanSchemeText(scheme, rest, 0);
    SchemeCut(scheme, rest);
  }

  lemma InnerWithoutScheme(addr: Addr, rest: bytes)
    requires !HasCtl(rest) && (rest != "" ==> rest[0] == '/' || rest[0] == '?')
    ensures ParseInner(addr, rest) == ParseRest(addr, "", rest)
  {
    hide HasCtl, ParseRest;
    NoSchemeStart(rest);
  }

  lemma RestBack(addr: Addr, u: Url)
    requires PlainText(Body(u)) && (u.forceQuery ==> u.rawQuery == "")
    ensures ParseRest(addr, u.scheme, Body(u) + QueryPart(u)) == ParseHier(addr, Base(u), Body(u))
  {
    hide Body, ParseHier, CutQuery;
    CutQueryBack(Body(u), u.forceQuery, u.rawQuery);
  }

  /** Parsing the text in front of the fragment comes down to parsing the body. */
  lemma InnerParse(addr: Addr, u: Url)
    requires Stripped(addr, u)
    ensures ParseInner(addr, Inner(u)) ==
            ParseHier(addr, NO_URL.(scheme := u.scheme, forceQuery := u.forceQuery, rawQuery := u.rawQuery), Body(u))
  {
    hide Body, CutQuery, ParseHier, PlainText, HasCtl, HostParsed, SchemeText, Lower, Bytes, QueryText, ParseRest,
        ParseInner;
    InnerClean(addr, u);
    BodyStart(addr, u);
    RestBack(addr, u);
    var rest := Body(u) + QueryPart(u);
    Assoc(u.scheme + ":", Body(u), QueryPart(u));
    assert "" + Body(u) + QueryPart(u) == rest;
    assert Inner(u) == if u.scheme != "" then u.scheme + ":" + rest else rest;
    hide Inner, SchemePart;
    if u.scheme != "" {
      InnerWithScheme(addr, u.scheme, rest);
    } else {
      InnerWithoutScheme(addr, rest);
    }
  }

  lemma SchemeCut(scheme: bytes, rest: bytes)
    ensures var s := scheme + ":" + rest; s[..|scheme|] == scheme && s[|scheme| + 1..] == rest
  {
  }

  lemma NoSchemeStart(s: bytes)
    requires s != "" ==> s[0] == '/' || s[0] == '?'
    ensures ScanScheme(s, 0) == NoScheme && s != "*"
  {
  }

  /** Without a scheme the body is empty or starts with a slash. */
  lemma BodyStart(addr: Addr, u: Url)
    requires Stripped(addr, u)
    ensures Body(u) != "" ==> Body(u)[0] == '/'
  {
    EscapedPathFacts(u);
  }

  // ---- The body -----------------------------------------------------------------------------------

  /** The stripped text parses to the same URL, without userinfo. */
  predicate SameUrl(u: Url, r: Option<Url>) {
    r.Some? && r.value.user.None? && r.value.scheme == u.scheme && r.value.host == u.host && r.value.path == u.path
    && r.value.forceQuery == u.forceQuery && r.value.rawQuery == u.rawQuery && r.value.fragment == u.fragment
  }

  /** The printed path would be taken for an authority. */
  predicate PathLooksLikeAuthority(u: Url) {
    u.scheme == "" && u.host == "" && Starts(EscapedPath(u), "//") && !Starts(EscapedPath(u), "///")
  }

  /** What a caller can check on the parsed URL before stripping it. */
  ghost predicate StripSafe(u: Url) {
    HostSafe(u.host) && !PathLooksLikeAuthority(u)
  }

  function Base(u: Url): Url {
    NO_URL.(scheme := u.scheme, forceQuery := u.forceQuery, rawQuery := u.rawQuery)
  }

  lemma EscapedHostText(host: bytes)
    ensures '/' !in Escape(host, Host) && '@' !in Escape(host, Host)
    ensures Escape(host, Host) == "" <==> host == ""
  {
    AllowedShown(host, Host, '/');
    AllowedShown(host, Host, '@');
  }

  /** An authority without userinfo is its host. */
  lemma HostOnly(addr: Addr, scheme: bytes, a: bytes)
    requires '@' !in a
    ensures var h := ParseHost(addr, scheme, a);
            ParseAuthority(addr, scheme, a) == if h.Some? then Some(Authority(None, h.value)) else None
  {
    hide ParseHost;
    LastIndexOfNone(a, '@');
    assert a[-1 + 1..] == a;
  }

  lemma WithPathFields(u: Url, p: bytes)
    requires Unescape(p, Path).Some?
    ensures WithPath(u, p) ==
            Some(u.(path := Unescape(p, Path).value, rawPath := RawIfNeeded(Unescape(p, Path).value, p, Path)))
  {
  }

  /** With `//` in front, host and path come back exactly when the host is safe. */
  lemma AuthorityBody(addr: Addr, u: Url)
    requires Stripped(addr, u) && (u.scheme != "" || u.host != "") && (u.host != "" || u.path != "")
    ensures var r := ParseHier(addr, Base(u), Body(u));
            if HostSafe(u.host) then
              r.Some? && r.value.user.None? && r.value.host == u.host && r.value.path == u.path
              && r.value.scheme == u.scheme && r.value.forceQuery == u.forceQuery && r.value.rawQuery == u.rawQuery
              && r.value.fragment == ""
            else r.None?
  {
    EscapedPathFacts(u);
    EscapedHostText(u.host);
    var h :| Bytes(h) && ParseHost(addr, u.scheme, h) == Some(u.host);
    HostReparse(addr, u.scheme, h);
    var e, p, b := Escape(u.host, Host), EscapedPath(u), Base(u);
    HostOnly(addr, u.scheme, e);
    BodyCuts(e, p, u.scheme);
    assert Body(u) == "//" + e + p;
    assert b.scheme == u.scheme && b.forceQuery == u.forceQuery && b.rawQuery == u.rawQuery && b.fragment == "";
    WithPathFields(b.(user := None, host := u.host), p);
    hide *;
    HierWithAuthority(addr, b, e, p);
  }

  lemma HierWithAuthority(addr: Addr, u: Url, e: bytes, p: bytes)
    requires HasAuthority(u.scheme, "//" + e + p) && Starts("//" + e + p, "/")
    requires ("//" + e + p)[2..] == e + p && IndexOf(e + p, '/') == |e|
    requires (e + p)[..|e|] == e && (e + p)[|e|..] == p
    ensures ParseHier(addr, u, "//" + e + p) ==
            var a := ParseAuthority(addr, u.scheme, e);
            if a.None? then None else WithPath(u.(user := a.value.user, host := a.value.host), p)
  {
  }

  lemma AuthorityOpens(e: bytes, p: bytes, scheme: bytes)
    requires '/' !in e
    ensures var s := "//" + e + p; Starts(s, "/") && (scheme != "" || e != "" ==> HasAuthority(scheme, s))
  {
    var s := "//" + e + p;
    assert s[..2] == "//" && s[..1] == "/";
    if e != "" {
      assert s[2] == e[0] && e[0] in e;
      assert s[..3][2] == e[0];
    }
  }

  lemma BodyCuts(e: bytes, p: bytes, scheme: bytes)
    requires '/' !in e && (p == "" || p[0] == '/') && (scheme != "" || e != "")
    ensures var s := "//" + e + p;
            s[2..] == e + p && IndexOf(e + p, '/') == |e| && (e + p)[..|e|] == e && (e + p)[|e|..] == p
            && HasAuthority(scheme, s) && Starts(s, "/")
  {
    hide IndexOf, Starts, HasAuthority;
    var s := "//" + e + p;
    assert s[2..] == e + p && (e + p)[..|e|] == e && (e + p)[|e|..] == p;
    IndexOfIs(e + p, '/', |e|);
    AuthorityOpens(e, p, scheme);
  }

  /** `scheme:` alone. */
  lemma SchemeOnlyBody(addr: Addr, u: Url)
    requires Stripped(addr, u) && u.scheme != "" && u.host == "" && u.path == ""
    ensures ParseHier(addr, Base(u), Body(u)) == Some(Base(u))
  {
    EscapedPathFacts(u);
    assert Body(u) == "";
  }

  lemma AuthorityTaken(addr: Addr, u: Url, p: bytes)
    requires u.scheme == "" && HasAuthority("", p) && Unescape(p, Path).Some?
    ensures ParseHier(addr, u, p).Some? ==> ParseHier(addr, u, p).value.path != Unescape(p, Path).value
  {
    hide ParseAuthority, Unescape, RawIfNeeded;
    assert p[0] == p[..2][0];
    ShorterPath(p, IndexOf(p[2..], '/'));
  }

  lemma NoAuthorityTaken(addr: Addr, u: Url, p: bytes)
    requires u.scheme == "" && !HasAuthority("", p) && Unescape(p, Path).Some? && (p != "" ==> p[0] == '/')
    ensures ParseHier(addr, u, p) == WithPath(u, p)
    ensures WithPath(u, p) ==
            Some(u.(path := Unescape(p, Path).value, rawPath := RawIfNeeded(Unescape(p, Path).value, p, Path)))
  {
    hide Unescape, RawIfNeeded, HasAuthority;
    assert p[..IndexOf(p, '/')] == "";
  }

  /** Neither scheme nor host: the path comes back unless it looks like an authority. */
  lemma PathBody(addr: Addr, u: Url)
    requires Stripped(addr, u) && u.scheme == "" && u.host == ""
    ensures var r := ParseHier(addr, Base(u), Body(u));
            if PathLooksLikeAuthority(u) then r.None? || r.value.path != u.path
            else r.Some? && r.value.path == u.path && r.value.host == "" && r.value.user.None? && r.value.scheme == ""
                 && r.value.forceQuery == u.forceQuery && r.value.rawQuery == u.rawQuery && r.value.fragment == ""
  {
    EscapedPathFacts(u);
    var p, b := EscapedPath(u), Base(u);
    assert "" + p == p;
    assert Body(u) == p;
    assert b.scheme == "" && b.user.None? && b.host == "" && b.fragment == "";
    assert b.forceQuery == u.forceQuery && b.rawQuery == u.rawQuery;
    assert PathLooksLikeAuthority(u) <==> HasAuthority("", p);
    hide Body, EscapedPath, Escape, Stripped, PathLooksLikeAuthority, Base, PlainText;
    if HasAuthority("", p) {
      AuthorityTaken(addr, b, p);
    } else {
      NoAuthorityTaken(addr, b, p);
    }
  }

  /** What is left of a path behind an authority is shorter than the path. */
  lemma ShorterPath(p: bytes, slash: nat)
    requires Starts(p, "//") && Unescape(p, Path).Some?
    requires slash <= |p| - 2 && (slash < |p| - 2 ==> p[2..][slash] == '/')
    ensures Unescape(p[2..][slash..], Path).Some?
    ensures |Unescape(p[2..][slash..], Path).value| < |Unescape(p, Path).value|
  {
    assert p[0] == p[..2][0] && p[1] == p[..2][1];
    LiteralFront(p, Path);
    LiteralFront(p[1..], Path);
    assert p[1..][1..] == p[2..];
    SuffixLength(p[2..], slash);
  }

  lemma {:induction false} SuffixLength(s: bytes, n: nat)
    requires n <= |s| && (n < |s| ==> s[n] == '/') && Unescape(s, Path).Some?
    ensures Unescape(s[n..], Path).Some? && |Unescape(s[n..], Path).value| <= |Unescape(s, Path).value|
    decreases |s|
  {
    if n > 0 {
      if s[0] == '%' {
        EscapeFront(s, Path);
        assert n >= 3;
        assert s[3..][n - 3..] == s[n..];
        SuffixLength(s[3..], n - 3);
      } else {
        LiteralFront(s, Path);
        assert s[1..][n - 1..] == s[n..];
        SuffixLength(s[1..], n - 1);
      }
    } else {
      assert s[0..] == s;
    }
  }

  /** Up to the fragment the parse gives the same URL exactly when stripping is safe. */
  lemma InnerFaithful(addr: Addr, u: Url)
    requires Stripped(addr, u)
    ensures SameUrl(u.(fragment := ""), ParseInner(addr, Inner(u))) <==> StripSafe(u)
    ensures !HostSafe(u.host) ==> ParseInner(addr, Inner(u)).None?
    ensures ParseInner(addr, Inner(u)).Some? ==> ParseInner(addr, Inner(u)).value.fragment == ""
  {
    InnerParse(addr, u);
    HierNoFragment(addr, Base(u), Body(u));
    if u.scheme == "" && u.host == "" {
      PathBody(addr, u);
      assert HostSafe("");
    } else if u.host == "" && u.path == "" {
      SchemeOnlyBody(addr, u);
      assert HostSafe("");
    } else {
      AuthorityBody(addr, u);
    }
  }

  lemma HierNoFragment(addr: Addr, u: Url, rest: bytes)
    requires u.fragment == ""
    ensures ParseHier(addr, u, rest).Some? ==> ParseHier(addr, u, rest).value.fragment == ""
  {
    hide ParseAuthority, Unescape, RawIfNeeded;
  }

  lemma ParseWithFragment(addr: Addr, inner: bytes, f: bytes)
    requires '#' !in inner && f != ""
    ensures GoParse(addr, inner + "#" + f) ==
            var r := ParseInner(addr, inner); if r.None? then r else WithFragment(r.value, f)
  {
    hide ParseInner, WithFragment, IndexOf;
    var s := inner + "#" + f;
    assert s[..|inner|] == inner && s[|inner| + 1..] == f;
    IndexOfIs(s, '#', |inner|);
  }

  lemma ParseWithoutFragment(addr: Addr, inner: bytes)
    requires '#' !in inner
    ensures GoParse(addr, inner) == ParseInner(addr, inner)
  {
    hide ParseInner, IndexOf;
    assert inner[..|inner|] == inner;
    IndexOfIs(inner, '#', |inner|);
  }

  /** The fragment always comes back: its printed form is read, and read as the fragment. */
  lemma FragmentBack(addr: Addr, u: Url)
    requires Bytes(u.fragment) && '#' !in Inner(u)
    ensures Unescape(EscapedFragment(u), Fragment) == Some(u.fragment)
    ensures GoParse(addr, Inner(u) + FragmentPart(u)) ==
            var r := ParseInner(addr, Inner(u));
            if r.None? || u.fragment == "" then r else WithFragment(r.value, EscapedFragment(u))
  {
    FragmentFacts(u);
    hide Inner, EscapedFragment, Unescape, GoParse, Bytes;
    if u.fragment != "" {
      ParseWithFragment(addr, Inner(u), EscapedFragment(u));
      Assoc(Inner(u), "#", EscapedFragment(u));
    } else {
      ParseWithoutFragment(addr, Inner(u));
      assert Inner(u) + "" == Inner(u);
    }
  }

  lemma SameUpToFragment(u: Url, r: Option<Url>, full: Option<Url>, f: bytes)
    requires r.Some? ==> r.value.fragment == ""
    requires full == if r.None? || u.fragment == "" then r else WithFragment(r.value, f)
    requires Unescape(f, Fragment) == Some(u.fragment)
    ensures SameUrl(u, full) <==> SameUrl(u.(fragment := ""), r)
  {
    hide Unescape, RawIfNeeded;
  }

  /**
   Stripping userinfo is faithful exactly when the host is safe and the path cannot be
   mistaken for an authority: then, and only then, the stripped text parses to the same
   scheme, host, path, query, force-query flag and fragment, without userinfo. With an
   unsafe host it does not parse at all.
   */
  lemma StripFaithful(addr: Addr, raw: bytes)
    requires Bytes(raw) && GoParse(addr, raw).Some? && GoParse(addr, raw).value.user.Some?
    ensures Strip(addr, raw).Some?
    ensures var u := GoParse(addr, raw).value.(user := None);
            (SameUrl(u, GoParse(addr, Strip(addr, raw).value)) <==> StripSafe(u))
            && (!HostSafe(u.host) ==> GoParse(addr, Strip(addr, raw).value).None?)
  {
    ParsedShape(addr, raw);
    var u := GoParse(addr, raw).value.(user := None);
    StrippedText(addr, u);
    InnerClean(addr, u);
    InnerFaithful(addr, u);
    assert Bytes(u.fragment);
    FragmentBack(addr, u);
    FragmentFacts(u);
    assert Strip(addr, raw) == Some(Inner(u) + FragmentPart(u));
    hide *;
    SameUpToFragment(u, ParseInner(addr, Inner(u)), GoParse(addr, Inner(u) + FragmentPart(u)), EscapedFragment(u));
  }

  /** For an unbracketed, non-empty host stripping is always faithful. */
  lemma StripFaithfulForHosts(addr: Addr, raw: bytes)
    requires Bytes(raw) && GoParse(addr, raw).Some? && GoParse(addr, raw).value.user.Some?
    requires var h := GoParse(addr, raw).value.host; h != "" && h[0] != '['
    ensures Strip(addr, raw).Some?
    ensures SameUrl(GoParse(addr, raw).value.(user := None), GoParse(addr, Strip(addr, raw).value))
  {
    hide GoParse, Strip, SameUrl;
    StripFaithful(addr, raw);
  }

  /** A text whose path is taken for an authority once the userinfo is gone. */
  lemma PathTakenForAuthority(addr: Addr)
    ensures var raw := "//u@//";
            GoParse(addr, raw).Some? && GoParse(addr, raw).value.user.Some?
            && GoParse(addr, raw).value.host == "" && GoParse(addr, raw).value.path == "//"
            && Strip(addr, raw).Some?
            && !SameUrl(GoParse(addr, raw).value.(user := None), GoParse(addr, Strip(addr, raw).value))
  {
    hide GoParse, Strip, SameUrl, StripSafe, HostSafe, Bytes;
    ParseExample(addr);
    ExampleBytes();
    PathUnsafe();
    StripFaithful(addr, "//u@//");
  }

  lemma ExampleBytes()
    ensures Bytes("//u@//")
  {
  }

  lemma PathUnsafe()
    ensures !StripSafe(NO_URL.(path := "//", user := None))
  {
    Slashes();
    hide Escape, Unescape;
    var p := EscapedPath(NO_URL.(path := "//", user := None));
    assert p == "//" && p[..2] == "//";
  }

  lemma ParseExample(addr: Addr)
    ensures GoParse(addr, "//u@//") == Some(NO_URL.(user := Some("u"), path := "//"))
  {
    var raw := "//u@//";
    NoSchemeStart(raw);
    assert !HasCtl(raw);
    IndexOfIs(raw, '#', 6);
    IndexOfIs(raw, '?', 6);
    assert raw[..6] == raw;
    HierExample(addr);
    hide ParseHier, IndexOf, HasCtl, ScanScheme;
    assert CutQuery(raw) == Cut(false, "", raw);
    assert NO_URL == NO_URL.(scheme := "", forceQuery := false, rawQuery := "");
  }

  lemma HierExample(addr: Addr)
    ensures ParseHier(addr, NO_URL, "//u@//") == Some(NO_URL.(user := Some("u"), path := "//"))
  {
    var rest, after := "//u@//", "u@//";
    assert rest[2..] == after && rest[..2] == "//" && rest[..1] == "/" && rest[..3] == "//u";
    IndexOfIs(after, '/', 2);
    assert after[..2] == "u@" && after[2..] == "//";
    AuthorityExample(addr);
    Slashes();
    hide ParseAuthority, Unescape, IndexOf, Escape;
  }

  lemma AuthorityExample(addr: Addr)
    ensures ParseAuthority(addr, "", "u@") == Some(Authority(Some("u"), ""))
  {
    var a := "u@";
    LastIndexOfIs(a, '@', 1);
    assert a[2..] == "" && a[..1] == "u";
    EmptyHost(addr);
    IndexOfIs("u", ':', 1);
    UnescapeLiteral('u', "", UserPassword);
    assert ['u'] + "" == "u" && Unescape("", UserPassword) == Some("");
    hide ParseHost, Unescape, LastIndexOf, IndexOf;
    assert ParseUser("u") == Some("u");
  }

  lemma EmptyHost(addr: Addr)
    ensures ParseHost(addr, "", "") == Some("")
  {
  }

  lemma Slashes()
    ensures Unescape("//", Path) == Some("//") && Escape("//", Path) == "//"
  {
    UnescapeLiteral('/', "/", Path);
    UnescapeLiteral('/', "", Path);
    assert ['/'] + "/" == "//" && ['/'] + "" == "/" && Unescape("", Path) == Some("");
    assert "//"[1..] == "/" && "/"[1..] == "" && Escape("", Path) == "" && Escape("/", Path) == "/";
  }

  // ---- The loops ------------------------------------------------------------------------------

  method ContainsCtl(s: bytes) returns (b: bool)
    ensures b == HasCtl(s)
  {
    for i := 0 to |s|
      invariant forall k :: 0 <= k < i ==> !IsCtl(s[k])
    {
      if s[i] < ' ' || s[i] == 127 as char { return true; }
    }
    b := false;
  }

  method GetScheme(raw: bytes) returns (r: SchemeScan)
    ensures r == ScanScheme(raw, 0)
  {
    var i := 0;
    while i < |raw|
      invariant i <= |raw| && ScanScheme(raw, i) == ScanScheme(raw, 0)
    {
      if IsLetter(raw[i]) {
      } else if IsSchemeMark(raw[i]) {
        if i == 0 { return NoScheme; }
      } else if raw[i] == ':' {
        if i == 0 { return Missing; }
        return Found(i);
      } else {
        return NoScheme;
      }
      i := i + 1;
    }
    r := NoScheme;
  }

  method ToLower(s: bytes) returns (r: bytes)
    ensures r == Lower(s)
  {
    r := "";
    assert s[0..] == s;
    for i := 0 to |s|
      invariant r + Lower(s[i..]) == Lower(s)
    {
      assert s[i..][1..] == s[i + 1..];
      r := r + [LowerChar(s[i])];
    }
  }

  /** The query branch of the parser: a lone `?` at the end, or a cut at the first one. */
  method SplitQuery(s: bytes) returns (c: Cut)
    ensures c == CutQuery(s)
  {
    var marks := CountMarks(s);
    var i := IndexOf(s, '?');
    IndexOfFirst(s, '?');
    OneMark(s);
    if s != "" && s[|s| - 1] == '?' && marks == 1 {
      c := Cut(true, "", s[..|s| - 1]);
    } else if i < |s| {
      c := Cut(false, s[i + 1..], s[..i]);
    } else {
      c := Cut(false, "", s);
    }
  }

  function Marks(s: bytes): nat {
    if s == "" then 0 else Marks(s[..|s| - 1]) + (if s[|s| - 1] == '?' then 1 else 0)
  }

  method CountMarks(s: bytes) returns (n: nat)
    ensures n == Marks(s)
  {
    n := 0;
    for i := 0 to |s|
      invariant n == Marks(s[..i])
    {
      assert s[..i + 1][..i] == s[..i];
      if s[i] == '?' { n := n + 1; }
    }
    assert s[..|s|] == s;
  }

  lemma {:induction false} NoMarks(s: bytes)
    ensures Marks(s) == 0 <==> IndexOf(s, '?') == |s|
    decreases |s|
  {
    if s != "" {
      var n := |s| - 1;
      NoMarks(s[..n]);
      FirstOfSnoc(s);
    }
  }

  lemma FirstOfSnoc(s: bytes)
    requires s != ""
    ensures var n := |s| - 1;
            IndexOf(s, '?') ==
            if IndexOf(s[..n], '?') < n then IndexOf(s[..n], '?') else if s[n] == '?' then n else n + 1
  {
    hide IndexOf;
    var n := |s| - 1;
    var i := IndexOf(s[..n], '?');
    IndexOfFirst(s[..n], '?');
    assert s[..n][..i] == s[..i];
    if i < n || s[n] == '?' {
      IndexOfIs(s, '?', i);
    } else {
      assert s[..n + 1] == s[..n] + [s[n]];
      IndexOfIs(s, '?', n + 1);
    }
  }

  /** The first `?` is the last byte exactly when it is the only one and the text ends with it. */
  lemma OneMark(s: bytes)
    ensures (s != "" && s[|s| - 1] == '?' && Marks(s) == 1) <==> IndexOf(s, '?') == |s| - 1
  {
    if s != "" {
      NoMarks(s[..|s| - 1]);
      FirstOfSnoc(s);
    }
  }

  method UserinfoOk(info: bytes) returns (b: bool)
    ensures b == ValidUserinfo(info)
  {
    for i := 0 to |info|
      invariant forall k :: 0 <= k < i ==> ValidUserByte(info[k])
    {
      if !ValidUserByte(info[i]) { return false; }
    }
    b := true;
  }

  method ReadUser(info: bytes) returns (r: Option<bytes>)
    ensures r == ParseUser(info)
  {
    hide Unescape, Escape, ValidUserinfo;
    var valid := UserinfoOk(info);
    if !valid { return None; }
    var colon := IndexOf(info, ':');
    if colon < |info| {
      var name := UnescapeLoop(info[..colon], UserPassword);
      if name.None? { return None; }
      var password := UnescapeLoop(info[colon + 1..], UserPassword);
      if password.None? { return None; }
      var a := EscapeLoop(name.value, UserPassword);
      var b := EscapeLoop(password.value, UserPassword);
      return Some(a + ":" + b);
    }
    r := UnescapeLoop(info, UserPassword);
  }

  /** `parse_authority`. */
  method ReadAuthority(addr: Addr, scheme: bytes, a: bytes) returns (r: Option<Authority>)
    ensures r == ParseAuthority(addr, scheme, a)
  {
    hide ParseHost, ParseUser;
    var at := LastIndexOf(a, '@');
    var host := ParseHostLoop(addr, scheme, a[at + 1..]);
    if host.None? { return None; }
    if at < 0 { return Some(Authority(None, host.value)); }
    var user := ReadUser(a[..at]);
    if user.None? { return None; }
    r := Some(Authority(user, host.value));
  }

  method RawStillValid(raw: bytes, decoded: bytes, m: Mode) returns (b: bool)
    ensures b == RawUsable(raw, decoded, m)
  {
    hide Unescape;
    if raw == "" { return false; }
    for i := 0 to |raw|
      invariant forall k :: 0 <= k < i ==> ValidEncodedByte(raw[k], m)
    {
      if !ValidEncodedByte(raw[i], m) { return false; }
    }
    var back := UnescapeLoop(raw, m);
    b := back == Some(decoded);
  }

  // ---- The object -----------------------------------------------------------------------------

  /** The URL the parser fills in. */
  class UrlParts {
    var scheme: bytes
    var opaquePart: bytes
    var user: Option<bytes>
    var host: bytes
    var path: bytes
    var rawPath: bytes
    var forceQuery: bool
    var rawQuery: bytes
    var omitHost: bool
    var fragment: bytes
    var rawFragment: bytes

    function Value(): Url
      reads this
    {
      Url(scheme, opaquePart, user, host, path, rawPath, forceQuery, rawQuery, omitHost, fragment, rawFragment)
    }

    constructor ()
      ensures Value() == NO_URL
    {
      scheme, opaquePart, user, host, path, rawPath := "", "", None, "", "", "";
      forceQuery, rawQuery, omitHost, fragment, rawFragment := false, "", false, "", "";
    }

    /** `set_path`. */
    method SetPath(p: bytes) returns (ok: bool)
      modifies `path, `rawPath
      ensures ok == WithPath(old(Value()), p).Some?
      ensures Value() == if ok then WithPath(old(Value()), p).value else old(Value())
    {
      hide Unescape, Escape;
      var decoded := UnescapeLoop(p, Path);
      if decoded.None? { return false; }
      var again := EscapeLoop(decoded.value, Path);
      rawPath := if again == p then "" else p;
      path := decoded.value;
      ok := true;
    }

    /** `set_fragment`. */
    method SetFragment(f: bytes) returns (ok: bool)
      modifies `fragment, `rawFragment
      ensures ok == WithFragment(old(Value()), f).Some?
      ensures Value() == if ok then WithFragment(old(Value()), f).value else old(Value())
    {
      hide Unescape, Escape;
      var decoded := UnescapeLoop(f, Fragment);
      if decoded.None? { return false; }
      var again := EscapeLoop(decoded.value, Fragment);
      rawFragment := if again == f then "" else f;
      fragment := decoded.value;
      ok := true;
    }

    /** The part of the inner parser behind scheme and query. */
    method ReadHier(addr: Addr, rest: bytes) returns (ok: bool)
      modifies this
      ensures ok == ParseHier(addr, old(Value()), rest).Some?
      ensures ok ==> Value() == ParseHier(addr, old(Value()), rest).value
    {
      hide ParseAuthority, WithPath;
      if !Starts(rest, "/") {
        if scheme != "" {
          opaquePart := rest;
          return true;
        }
        if ':' in rest[..IndexOf(rest, '/')] { return false; }
      }
      if (scheme != "" || !Starts(rest, "///")) && Starts(rest, "//") {
        var after := rest[2..];
        var slash := IndexOf(after, '/');
        var a := ReadAuthority(addr, scheme, after[..slash]);
        if a.None? { return false; }
        user, host := a.value.user, a.value.host;
        ok := SetPath(after[slash..]);
        return;
      } else if scheme != "" && Starts(rest, "/") {
        omitHost := true;
      }
      ok := SetPath(rest);
    }

    /** `parse_inner`. */
    method ReadInner(addr: Addr, raw: bytes) returns (ok: bool)
      requires Value() == NO_URL
      modifies this
      ensures ok == ParseInner(addr, raw).Some?
      ensures ok ==> Value() == ParseInner(addr, raw).value
    {
      hide HasCtl, ScanScheme, CutQuery, ParseHier, Lower;
      var ctl := ContainsCtl(raw);
      if ctl { return false; }
      if raw == "*" {
        path := "*";
        return true;
      }
      var s := GetScheme(raw);
      var rest := raw;
      match s {
        case Missing => return false;
        case Found(n) =>
          scheme := ToLower(raw[..n]);
          rest := raw[n + 1..];
        case NoScheme =>
      }
      var c := SplitQuery(rest);
      forceQuery, rawQuery := c.force, c.query;
      ok := ReadHier(addr, c.rest);
    }

    method PathText() returns (p: bytes)
      ensures p == EscapedPath(Value())
    {
      hide RawUsable, Escape;
      var usable := RawStillValid(rawPath, path, Path);
      if usable { return rawPath; }
      if path == "*" { return "*"; }
      p := EscapeLoop(path, Path);
    }

    method FragmentText() returns (f: bytes)
      ensures f == EscapedFragment(Value())
    {
      hide RawUsable, Escape;
      var usable := RawStillValid(rawFragment, fragment, Fragment);
      if usable { return rawFragment; }
      f := EscapeLoop(fragment, Fragment);
    }

    method AuthorityText() returns (buf: bytes)
      ensures buf == AuthorityPart(Value())
    {
      hide Escape;
      buf := "";
      if scheme != "" || host != "" || user.Some? {
        if !(omitHost && host == "" && user.None?) {
          buf := if host != "" || path != "" || user.Some? then "//" else "";
          buf := buf + if user.Some? then user.value + "@" else "";
          var e := "";
          if host != "" { e := EscapeLoop(host, Host); }
          buf := buf + e;
        }
      }
    }

    method GuardedPath(front: bytes) returns (buf: bytes)
      ensures buf == PathPart(Value(), front)
    {
      hide EscapedPath;
      var p := PathText();
      buf := "";
      if omitHost && host == "" && user.None? && Starts(p, "//") {
        buf := "%2F";
        p := p[1..];
      }
      if p != "" && p[0] != '/' && host != "" { buf := buf + "/"; }
      if front + buf == "" && ':' in p[..IndexOf(p, '/')] { buf := buf + "./"; }
      buf := buf + p;
    }

    /** `go_string`. */
    method Print() returns (buf: bytes)
      ensures buf == GoString(Value())
    {
      hide AuthorityPart, PathPart, EscapedFragment;
      buf := "";
      if scheme != "" { buf := scheme + ":"; }
      if opaquePart == "" {
        var a := AuthorityText();
        buf := buf + a;
        var p := GuardedPath(buf);
        buf := buf + p;
      } else {
        buf := buf + "" + opaquePart;
      }
      if forceQuery || rawQuery != "" { buf := buf + ("?" + rawQuery); }
      if fragment != "" {
        var f := FragmentText();
        buf := buf + ("#" + f);
      }
    }
  }

  /** `go_parse`. */
  method ReadUrl(addr: Addr, raw: bytes) returns (ok: bool, url: UrlParts)
    ensures fresh(url)
    ensures ok == GoParse(addr, raw).Some? && (ok ==> url.Value() == GoParse(addr, raw).value)
  {
    hide ParseInner, WithFragment;
    url := new UrlParts();
    var i := IndexOf(raw, '#');
    ok := url.ReadInner(addr, raw[..i]);
    if !ok { return; }
    var frag := if i < |raw| then raw[i + 1..] else "";
    if frag != "" {
      ok := url.SetFragment(frag);
    }
  }

  /** `strip_url_userinfo`. */
  method StripUserinfo(addr: Addr, raw: bytes) returns (r: Option<bytes>)
    ensures r == Strip(addr, raw)
  {
    hide GoParse, GoString;
    var ok, url := ReadUrl(addr, raw);
    if !ok || url.user.None? { return None; }
    url.user := None;
    var out := url.Print();
    r := Some(out);
  }
}
