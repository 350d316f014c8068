/**
 What stripping does to the text of a URL: from one written with userinfo in front of a plain
 host, exactly the userinfo and its at-sign go, and every other byte stays where it was.
 */
module UrlStrip {
  import opened Common
  import opened UrlEscape
  import opened UrlHost
  import opened GoUrl

  /** Each percent sign starts an escape. */
  ghost predicate Percents(s: bytes) {
    forall k :: 0 <= k < |s| && s[k] == '%' ==> k + 2 < |s| && IsHex(s[k + 1]) && IsHex(s[k + 2])
  }

  /** A letter, then letters, digits and `+-.`, all letters small. */
  ghost predicate SmallScheme(s: bytes) {
    s != "" && 'a' <= s[0] <= 'z'
    && forall k :: 0 <= k < |s| ==> 'a' <= s[k] <= 'z' || '0' <= s[k] <= '9' || s[k] in {'+', '-', '.'}
  }

  ghost predicate UserText(s: bytes) {
    Percents(s)
    && forall k :: 0 <= k < |s| ==>
         '0' <= s[k] <= '9' || 'A' <= s[k] <= 'Z' || 'a' <= s[k] <= 'z'
         || s[k] in {'-', '.', '_', ':', '~', '!', '$', '&', '\'', '(', ')', '*', '+', ',', ';', '=', '%', '@'}
  }

  ghost predicate NameText(s: bytes) {
    forall k :: 0 <= k < |s| ==>
      '0' <= s[k] <= '9' || 'A' <= s[k] <= 'Z' || 'a' <= s[k] <= 'z' || s[k] in {'-', '.', '_', '~'}
  }

  /** Nothing, or a colon and any number of digits. */
  ghost predicate PortText(s: bytes) {
    s == "" || (s[0] == ':' && forall k :: 1 <= k < |s| ==> '0' <= s[k] <= '9')
  }

  ghost predicate PathText(s: bytes) {
    Percents(s) && AllWritable(s, Path) && (s == "" || s[0] == '/')
  }

  /** Nothing, or a mark and any bytes but controls and `#`. */
  ghost predicate QuestionText(s: bytes) {
    s == "" || (s[0] == '?' && QueryText(s[1..]))
  }

  /** Nothing, or `#` and a text that needs no escaping. */
  ghost predicate HashText(s: bytes) {
    s == "" || (s[0] == '#' && |s| > 1 && Percents(s[1..]) && AllWritable(s[1..], Fragment))
  }

  // ---- Reading the parts ----------------------------------------------------------------------------

  lemma {:induction false} Decodes(s: bytes, m: Mode)
    requires Percents(s) && !m.Host? && !m.Zone?
    ensures Unescape(s, m).Some?
    decreases |s|
  {
    if s != "" {
      var n := if s[0] == '%' then 3 else 1;
      assert n <= |s|;
      forall k | 0 <= k < |s| - n && s[n..][k] == '%'
        ensures k + 2 < |s| - n && IsHex(s[n..][k + 1]) && IsHex(s[n..][k + 2])
      {
        assert s[k + n] == '%';
      }
      Decodes(s[n..], m);
    }
  }

  lemma PercentsPart(s: bytes, i: nat)
    requires Percents(s) && i <= |s| && (i < |s| ==> !IsHex(s[i]) && s[i] != '%')
    ensures Percents(s[..i]) && (i < |s| ==> Percents(s[i + 1..]))
  {
    forall k | 0 <= k < i && s[..i][k] == '%' ensures k + 2 < i && IsHex(s[..i][k + 1]) && IsHex(s[..i][k + 2]) {
      assert s[k] == '%';
    }
    if i < |s| {
      var t := s[i + 1..];
      forall k | 0 <= k < |t| && t[k] == '%' ensures k + 2 < |t| && IsHex(t[k + 1]) && IsHex(t[k + 2]) {
        assert s[i + 1 + k] == '%';
      }
    }
  }

  lemma UserReads(info: bytes)
    requires UserText(info)
    ensures ParseUser(info).Some?
  {
    hide Unescape, Escape, Percents;
    assert ValidUserinfo(info);
    var colon := IndexOf(info, ':');
    PercentsPart(info, colon);
    if colon < |info| {
      Decodes(info[..colon], UserPassword);
      Decodes(info[colon + 1..], UserPassword);
    } else {
      Decodes(info, UserPassword);
    }
  }

  lemma {:induction false} PlainHost(s: bytes)
    requires forall k :: 0 <= k < |s| ==> s[k] != '%' && Allowed(s[k], Host)
    ensures Unescape(s, Host) == Some(s) && Escape(s, Host) == s
    decreases |s|
  {
    if s != "" {
      PlainHost(s[1..]);
      assert s == [s[0]] + s[1..];
    }
  }

  lemma HostReads(addr: Addr, scheme: bytes, name: bytes, port: bytes)
    requires NameText(name) && PortText(port)
    ensures var h := name + port; ParseHost(addr, scheme, h) == Some(h) && Escape(h, Host) == h
                                  && '@' !in h && '/' !in h
  {
    var h := name + port;
    forall k | 0 <= k < |h| ensures h[k] != '%' && Allowed(h[k], Host) && h[k] != '[' && h[k] != '@' && h[k] != '/' {
      if k < |name| { assert h[k] == name[k]; } else { assert h[k] == port[k - |name|]; }
    }
    PlainHost(h);
    assert '[' !in h;
    LastIndexOfNone(h, '[');
    PortReads(scheme, name, port);
  }

  lemma {:induction false} DigitRun(s: bytes)
    requires forall k :: 0 <= k < |s| ==> '0' <= s[k] <= '9'
    ensures AllDigits(s)
    decreases |s|
  {
    if s != "" { DigitRun(s[1..]); }
  }

  lemma PortReads(scheme: bytes, name: bytes, port: bytes)
    requires NameText(name) && PortText(port)
    ensures PortOk(scheme, name + port)
  {
    var h := name + port;
    forall k | 0 <= k < |name| ensures h[k] != ':' { assert h[k] == name[k]; }
    FirstColonMeans(h);
    if port == "" {
      assert h == name;
      IndexOfIs(h, ':', |h|);
      NoColons(h);
    } else {
      assert ':' !in h[..|name|];
      IndexOfIs(h, ':', |name|);
      assert h[|name|..] == port;
      forall k | |name| + 1 <= k < |h| ensures h[k] != ':' && IsDigit(h[k]) { assert h[k] == port[k - |name|]; }
      assert ':' !in h[|name| + 1..];
      LastIndexOfIs(h, ':', |name|);
      assert h[|name|] == ':';
      LastColonMeans(h);
      DigitRun(port[1..]);
    }
  }

  lemma {:induction false} NoColons(h: bytes)
    requires ':' !in h
    ensures FirstColonOk(h) && LastColonOk(h)
    decreases |h|
  {
    if h != "" {
      assert h[0] in h;
      forall k | 0 <= k < |h| - 1 ensures h[1..][k] != ':' { assert h[k + 1] in h; }
      NoColons(h[1..]);
    }
  }

  lemma AuthorityReads(addr: Addr, scheme: bytes, info: bytes, host: bytes)
    requires ParseUser(info).Some? && '@' !in host && ParseHost(addr, scheme, host) == Some(host)
    ensures ParseAuthority(addr, scheme, info + "@" + host) == Some(Authority(ParseUser(info), host))
  {
    hide ParseUser, ParseHost;
    var a := info + "@" + host;
    assert a[|info|] == '@' && a[|info| + 1..] == host && a[..|info|] == info;
    LastIndexOfIs(a, '@', |info|);
  }

  // ---- The whole text ---------------------------------------------------------------------------------

  /** What the reader makes of the part in front of the fragment. */
  function Read(scheme: bytes, user: Option<bytes>, host: bytes, path: bytes, question: bytes): Url
    requires Unescape(path, Path).Some?
  {
    var p := Unescape(path, Path).value;
    Url(scheme, "", user, host, p, RawIfNeeded(p, path, Path), question == "?",
        if question == "" then "" else question[1..], false, "", "")
  }

  lemma SchemeReads(s: bytes)
    requires SmallScheme(s)
    ensures SchemeText(s) && Lower(s) == s
  {
    LowerKept(s);
  }

  lemma PathPlain(p: bytes)
    requires AllWritable(p, Path)
    ensures PlainText(p)
  {
  }

  /** `//`, the authority, the path and the query, read one after the other. */
  lemma RestReads(addr: Addr, scheme: bytes, info: bytes, host: bytes, path: bytes, question: bytes)
    requires SchemeText(scheme) && ParseUser(info).Some? && '@' !in host && '/' !in info + "@" + host
    requires ParseHost(addr, scheme, host) == Some(host)
    requires PlainText(info) && PlainText(host) && PathText(path) && QuestionText(question)
    ensures Unescape(path, Path).Some?
    ensures ParseRest(addr, scheme, "//" + (info + "@" + host) + path + question)
            == Some(Read(scheme, ParseUser(info), host, path, question))
  {
    hide ParseUser, ParseHost, Unescape, Percents, PlainByte, ParseAuthority, HasAuthority, Starts;
    var a := info + "@" + host;
    var body := "//" + a + path;
    var force, query := question == "?", if question == "" then "" else question[1..];
    Decodes(path, Path);
    PathPlain(path);
    PlainPieces(info, host, path);
    CutQueryBack(body, force, query);
    assert question == if force || query != "" then "?" + query else "";
    BodyCuts(a, path, scheme);
    var base := NO_URL.(scheme := scheme, forceQuery := force, rawQuery := query);
    HierWithAuthority(addr, base, a, path);
    AuthorityReads(addr, scheme, info, host);
    WithPathFields(base.(user := ParseUser(info), host := host), path);
  }

  lemma PlainPieces(info: bytes, host: bytes, path: bytes)
    requires PlainText(info) && PlainText(host) && PlainText(path)
    ensures PlainText("//" + (info + "@" + host) + path)
  {
    assert PlainText("//") && PlainText("@");
    PlainAppend(info, "@");
    PlainAppend(info + "@", host);
    PlainAppend("//", info + "@" + host);
    PlainAppend("//" + (info + "@" + host), path);
  }

  lemma QueryPieces(scheme: bytes, body: bytes, question: bytes)
    requires SchemeText(scheme) && PlainText(body) && QuestionText(question)
    ensures var inner := scheme + ":" + (body + question); '#' !in inner && !HasCtl(inner)
  {
    var inner := scheme + ":" + (body + question);
    assert QueryText(scheme) && QueryText(":") && QueryText(body);
    assert QueryText(question) by {
      if question != "" { assert forall k :: 1 <= k < |question| ==> question[k] == question[1..][k - 1]; }
    }
    QueryAppend(body, question);
    QueryAppend(scheme, ":");
    QueryAppend(scheme + ":", body + question);
    QueryHas(inner);
  }

  /** The URL without its userinfo is printed part by part as it was written. */
  lemma Prints(scheme: bytes, host: bytes, path: bytes, question: bytes, u: Url)
    requires scheme != "" && host != "" && Escape(host, Host) == host && PathText(path) && QuestionText(question)
    requires u.scheme == scheme && u.opaquePart == "" && u.user.None? && u.host == host && !u.omitHost
    requires EscapedPath(u) == path
    requires u.forceQuery == (question == "?") && u.rawQuery == if question == "" then "" else question[1..]
    ensures GoString(u) == scheme + ":" + ("//" + host + path + question) + FragmentPart(u)
  {
    hide Escape, EscapedPath, FragmentPart, Percents;
    AuthorityIsFront(u);
    PathIsPath(u, SchemePart(u) + AuthorityPart(u));
    assert QueryPart(u) == question;
    hide AuthorityPart, PathPart, QueryPart;
    var front := scheme + ":" + ("//" + host);
    assert SchemePart(u) + AuthorityPart(u) == front;
    assert front + path + question == scheme + ":" + ("//" + host + path + question);
  }

  /**
   Stripping a URL written with userinfo in front of a plain host and an optional port takes
   away the userinfo and its at-sign, and not one byte more: scheme, host, port, path, query
   and fragment stay as they were written, escapes included.
   */
  lemma OnlyCredentialsGo(addr: Addr, scheme: bytes, info: bytes, name: bytes, port: bytes, path: bytes,
      question: bytes, hash: bytes)
    requires SmallScheme(scheme) && UserText(info) && NameText(name) && PortText(port) && name + port != ""
    requires PathText(path) && QuestionText(question) && HashText(hash)
    ensures Strip(addr, scheme + "://" + info + "@" + name + port + path + question + hash)
            == Some(scheme + "://" + name + port + path + question + hash)
  {
    hide SmallScheme, UserText, NameText, PortText, PathText, QuestionText, HashText, Strip, ParseUser, ParseHost,
        ParseRest;
    var host := name + port;
    var inner := scheme + ":" + ("//" + (info + "@" + host) + path + question);
    SchemeReads(scheme);
    UserReads(info);
    HostReads(addr, scheme, name, port);
    NoSlashes(info, name, port);
    RestReads(addr, scheme, info, host, path, question);
    PathPlainOf(path);
    PlainPieces(info, host, path);
    QueryPieces(scheme, "//" + (info + "@" + host) + path, question);
    InnerWithScheme(addr, scheme, "//" + (info + "@" + host) + path + question);
    Joins(scheme, info, name, port, path, question, hash);
    StripText(addr, inner, scheme, ParseUser(info), host, path, question, hash);
  }

  lemma PathPlainOf(p: bytes)
    requires PathText(p)
    ensures PlainText(p)
  {
    PathPlain(p);
  }

  lemma NoSlashes(info: bytes, name: bytes, port: bytes)
    requires UserText(info) && NameText(name) && PortText(port)
    ensures '/' !in info + "@" + (name + port) && PlainText(info) && PlainText(name + port)
  {
    var a := info + "@" + (name + port);
    forall k | 0 <= k < |a| ensures a[k] != '/' {
      if k < |info| { assert a[k] == info[k]; }
      else if k > |info| + |name| { assert a[k] == port[k - |info| - 1 - |name|]; }
      else if k > |info| { assert a[k] == name[k - |info| - 1]; }
    }
  }

  lemma Joins(scheme: bytes, info: bytes, name: bytes, port: bytes, path: bytes, question: bytes, hash: bytes)
    ensures scheme + "://" + info + "@" + name + port + path + question + hash
            == scheme + ":" + ("//" + (info + "@" + (name + port)) + path + question) + hash
    ensures scheme + "://" + name + port + path + question + hash
            == scheme + ":" + ("//" + (name + port) + path + question) + hash
  {
    assert scheme + "://" == scheme + ":" + "//";
  }

  lemma StripText(addr: Addr, inner: bytes, scheme: bytes, user: Option<bytes>, host: bytes, path: bytes,
      question: bytes, hash: bytes)
    requires '#' !in inner && user.Some? && scheme != "" && host != "" && Escape(host, Host) == host
    requires PathText(path) && QuestionText(question) && HashText(hash) && Unescape(path, Path).Some?
    requires ParseInner(addr, inner) == Some(Read(scheme, user, host, path, question))
    ensures Strip(addr, inner + hash) == Some(scheme + ":" + ("//" + host + path + question) + hash)
  {
    hide ParseInner, Escape, Unescape, Percents, AllWritable, GoParse, EscapedPath, EscapedFragment, GoString,
        RawIfNeeded;
    var u := Read(scheme, user, host, path, question);
    PathBack(u, path);
    var full := GoParse(addr, inner + hash);
    if hash == "" {
      ParseWithoutFragment(addr, inner);
      assert inner + hash == inner;
      Prints(scheme, host, path, question, u.(user := None));
    } else {
      var f := hash[1..];
      assert hash == "#" + f;
      Assoc(inner, "#", f);
      ParseWithFragment(addr, inner, f);
      Decodes(f, Fragment);
      FragmentReads(u, f);
      var v := WithFragment(u, f).value;
      Prints(scheme, host, path, question, v.(user := None));
    }
  }

  lemma FragmentReads(u: Url, f: bytes)
    requires f != "" && AllWritable(f, Fragment) && Unescape(f, Fragment).Some?
    ensures WithFragment(u, f).Some?
    ensures var v := WithFragment(u, f).value;
            v == u.(fragment := v.fragment, rawFragment := v.rawFragment) && v.fragment != ""
            && FragmentPart(v.(user := None)) == "#" + f
  {
    FragmentAsWritten(u, f);
  }

  lemma PathBack(u: Url, path: bytes)
    requires PathText(path) && Unescape(path, Path).Some?
    requires u.path == Unescape(path, Path).value && u.rawPath == RawIfNeeded(u.path, path, Path)
    ensures forall v: Url :: v.path == u.path && v.rawPath == u.rawPath ==> EscapedPath(v) == path
  {
    hide Unescape, AllWritable, Percents, RawUsable;
    PathAsWritten(u, path);
    assert WithPath(u, path) == Some(u);
  }
}
