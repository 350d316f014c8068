/**
 Bracketed hosts whose zone is refused after stripping: the text of gourl.rs parses, but the
 stripped text, with the zone printed in host mode, does not.
 */
module UrlZone {
  import opened Common
  import opened UrlEscape
  import opened UrlHost
  import opened UrlAddr
  import opened GoUrl

  /** Bytes an authority may have behind its `@`. */
  predicate HostText(h: bytes) {
    forall k :: 0 <= k < |h| ==> h[k] != '/' && h[k] != '@' && h[k] != '#' && h[k] != '?' && !IsCtl(h[k])
                                 && h[k] < 256 as char
  }

  lemma TextWith(h: bytes)
    requires HostText(h)
    ensures var raw := "//u@" + h + "/";
            Bytes(raw) && !HasCtl(raw) && IndexOf(raw, '#') == |raw| && IndexOf(raw, '?') == |raw|
            && raw[..|raw|] == raw
  {
    var raw := "//u@" + h + "/";
    assert raw[..|raw|] == raw;
    assert forall k :: 0 <= k < |raw| ==> raw[k] != '#' && raw[k] != '?' && !IsCtl(raw[k]);
    IndexOfIs(raw, '#', |raw|);
    IndexOfIs(raw, '?', |raw|);
  }

  lemma UserAuthority(addr: Addr, h: bytes, host: bytes)
    requires HostText(h) && ParseHost(addr, "", h) == Some(host)
    ensures ParseAuthority(addr, "", "u@" + h) == Some(Authority(Some("u"), host))
  {
    var a := "u@" + h;
    assert a[2..] == h && a[..1] == "u";
    LastIndexOfIs(a, '@', 1);
    IndexOfIs("u", ':', 1);
    UnescapeLiteral('u', "", UserPassword);
    assert ['u'] + "" == "u" && Unescape("", UserPassword) == Some("");
    hide ParseHost, Unescape, LastIndexOf, IndexOf;
    assert ParseUser("u") == Some("u");
  }

  lemma SlashPath(u: Url)
    requires u.path == "" && u.rawPath == ""
    ensures WithPath(u, "/") == Some(u.(path := "/"))
  {
    UnescapeLiteral('/', "", Path);
    assert ['/'] + "" == "/" && Unescape("", Path) == Some("");
    assert "/"[1..] == "" && Escape("", Path) == "" && Escape("/", Path) == "/";
  }

  lemma UserCuts(h: bytes)
    requires HostText(h)
    ensures var rest, after := "//u@" + h + "/", "u@" + h + "/";
            rest[2..] == after && Starts(rest, "/") && HasAuthority("", rest)
            && IndexOf(after, '/') == 2 + |h| && after[..2 + |h|] == "u@" + h && after[2 + |h|..] == "/"
  {
    var rest, after := "//u@" + h + "/", "u@" + h + "/";
    assert rest[2..] == after && rest[..2] == "//" && rest[..1] == "/" && rest[..3][2] == 'u';
    assert after[..2 + |h|] == "u@" + h && after[2 + |h|..] == "/";
    IndexOfIs(after, '/', 2 + |h|);
  }

  lemma UserHier(addr: Addr, h: bytes, host: bytes)
    requires HostText(h) && ParseHost(addr, "", h) == Some(host)
    ensures ParseHier(addr, NO_URL, "//u@" + h + "/") == Some(NO_URL.(user := Some("u"), host := host, path := "/"))
  {
    hide ParseAuthority, ParseHost, WithPath, IndexOf, Starts, HasAuthority, HostText;
    UserAuthority(addr, h, host);
    SlashPath(NO_URL.(user := Some("u"), host := host));
    UserCuts(h);
  }

  /** A text with a user and a host, and what it parses to. */
  lemma UserAndHost(addr: Addr, h: bytes, host: bytes)
    requires HostText(h) && ParseHost(addr, "", h) == Some(host)
    ensures GoParse(addr, "//u@" + h + "/") == Some(NO_URL.(user := Some("u"), host := host, path := "/"))
  {
    var raw := "//u@" + h + "/";
    NoSchemeStart(raw);
    TextWith(h);
    UserHier(addr, h, host);
    hide ParseHier, IndexOf, HasCtl, ScanScheme;
    assert CutQuery(raw) == Cut(false, "", raw);
    assert NO_URL == NO_URL.(scheme := "", forceQuery := false, rawQuery := "");
  }

  /** A zone the host parser decodes to something unsafe: the stripped text is refused. */
  lemma ZoneRefused(zone: bytes, decoded: bytes)
    requires HostText(zone) && '[' !in zone && Unescape("%25" + zone, Zone) == Some("%" + decoded)
    requires decoded != "" && !HostSafe("[::%" + decoded + "]")
    ensures var raw := "//u@[::%25" + zone + "]/";
            var u := GoParse(ParseAddr, raw);
            u == Some(NO_URL.(user := Some("u"), host := "[::%" + decoded + "]", path := "/"))
            && Strip(ParseAddr, raw).Some? && GoParse(ParseAddr, Strip(ParseAddr, raw).value).None?
  {
    hide *;
    UnspecifiedZone(decoded);
    ZonedHost(ParseAddr, "", zone, decoded);
    BracketedZone(zone);
    UserAndHost(ParseAddr, "[::%25" + zone + "]", "[::%" + decoded + "]");
    TextWith("[::%25" + zone + "]");
    StripFaithful(ParseAddr, "//u@[::%25" + zone + "]/");
  }

  lemma BracketedZone(zone: bytes)
    requires HostText(zone)
    ensures HostText("[::%25" + zone + "]") && "//u@" + ("[::%25" + zone + "]") + "/" == "//u@[::%25" + zone + "]/"
  {
  }

  /** An escaped bracket. */
  lemma BracketInZone()
    ensures var raw := "//u@[::%25%5B]/";
            GoParse(ParseAddr, raw) == Some(NO_URL.(user := Some("u"), host := "[::%[]", path := "/"))
            && Strip(ParseAddr, raw).Some? && GoParse(ParseAddr, Strip(ParseAddr, raw).value).None?
  {
    hide *;
    BracketZone();
    BracketText();
    ZoneRefused("%5B", "[");
  }

  lemma BracketText()
    ensures "%25" + "%5B" == "%25%5B" && "%" + "[" == "%[" && "[::%" + "[" + "]" == "[::%[]"
    ensures "//u@[::%25" + "%5B" + "]/" == "//u@[::%25%5B]/" && HostText("%5B") && '[' !in "%5B"
    ensures !HostSafe("[::%[]")
  {
    hide AsciiFrom, IndexOf;
    assert "[::%[]"[1..][3] == '[';
  }

  lemma BracketZone()
    ensures Unescape("%25%5B", Zone) == Some("%[")
  {
    var t, u := "%5B", "%25%5B";
    EscapeByteBack('%');
    EscapeByteBack('[');
    assert u[3..] == t && u[..3] == "%25" && t[3..] == "" && Unescape("", Zone) == Some("");
    assert Byte(t[1], t[2]) == '[' && Byte(u[1], u[2]) == '%';
    assert EscapeOk(t, Zone) && EscapeOk(u, Zone);
    assert Unescape(t, Zone) == Cons(Byte(t[1], t[2]), Unescape(t[3..], Zone));
    assert Unescape(u, Zone) == Cons(Byte(u[1], u[2]), Unescape(u[3..], Zone));
    assert ['%'] + (['['] + "") == "%[";
  }

  /** A letter outside ASCII: its two bytes stand in the zone as they are. */
  lemma AccentInZone()
    ensures var raw := "//u@[::%25\U{C3}\U{A9}]/";
            GoParse(ParseAddr, raw) == Some(NO_URL.(user := Some("u"), host := "[::%\U{C3}\U{A9}]", path := "/"))
            && Strip(ParseAddr, raw).Some? && GoParse(ParseAddr, Strip(ParseAddr, raw).value).None?
  {
    hide *;
    AccentZone();
    AccentText();
    ZoneRefused("\U{C3}\U{A9}", "\U{C3}\U{A9}");
  }

  lemma AccentText()
    ensures var zone := "\U{C3}\U{A9}";
            "[::%" + zone + "]" == "[::%\U{C3}\U{A9}]" && "//u@[::%25" + zone + "]/" == "//u@[::%25\U{C3}\U{A9}]/"
            && HostText(zone) && '[' !in zone && !HostSafe("[::%" + zone + "]")
  {
    hide AsciiFrom, IndexOf;
    var host := "[::%" + "\U{C3}\U{A9}" + "]";
    assert host[4] == '\U{C3}';
    AccentUnsafe(host);
  }

  lemma AccentUnsafe(host: bytes)
    requires |host| > 4 && host[3] == '%' && host[0] == '[' && host[1] == ':' && host[2] == ':' && host[4] == '\U{C3}'
    ensures !HostSafe(host)
  {
    IndexOfIs(host, '%', 3);
  }

  lemma AccentZone()
    ensures Unescape("%25" + "\U{C3}\U{A9}", Zone) == Some("%" + "\U{C3}\U{A9}")
  {
    var z, u := "\U{C3}\U{A9}", "%25" + "\U{C3}\U{A9}";
    EscapeByteBack('%');
    UnescapeLiteral('\U{A9}', "", Zone);
    UnescapeLiteral('\U{C3}', "\U{A9}", Zone);
    assert ['\U{A9}'] + "" == "\U{A9}" && ['\U{C3}'] + "\U{A9}" == z && Unescape("", Zone) == Some("");
    assert u[3..] == z && u[..3] == "%25" && Byte(u[1], u[2]) == '%' && EscapeOk(u, Zone);
    assert Unescape(u, Zone) == Cons('%', Unescape(z, Zone));
    assert ['%'] + z == "%" + z;
  }
}
