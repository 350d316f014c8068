/**
 What JSON text means: strings are decoded, documents become value trees. Compaction keeps
 the meaning of every token, and what the printer prints reads back as what it was given.
 */
module JsonMeaning {
  import opened Common
  import opened Decimal
  import opened JsonGrammar
  import opened JsonScanner
  import opened JsonTree
  import opened JsonNormal
  import opened JsonEscape
  import opened JsonValue

  // ---- Value trees of documents --------------------------------------------------------------

  /** Ordered-map insertion; a later value replaces an earlier one. */
  function Insert(members: seq<Entry>, e: Entry): seq<Entry> {
    if members == [] then [e]
    else if members[0].key == e.key then [e] + members[1..]
    else if StrBefore(e.key, members[0].key) then [e] + members
    else [members[0]] + Insert(members[1..], e)
  }

  /** The bytes a string token means; empty when it means nothing. */
  function Meaning(t: bytes): bytes {
    if |t| < 1 || Decode(t[1..]).None? then [] else Decode(t[1..]).value
  }

  /** The value tree of a document. Numbers keep their spelling as float text. */
  function Parsed(n: Node): JVal {
    match n
    case Token(t) =>
      if t == "null" then Null
      else if t == "true" then Bool(true)
      else if t == "false" then Bool(false)
      else if t != [] && t[0] == '"' then Str(Meaning(t))
      else Float(Some(t))
    case Arr(_, e) => List(ParsedItems(e))
    case Obj(_, e) => Map(ParsedMembers(e, []))
  }

  function ParsedItems(e: Elems): seq<JVal> {
    if e.Nil? then [] else [Parsed(e.value)] + ParsedItems(e.rest)
  }

  function ParsedMembers(e: Elems, sofar: seq<Entry>): seq<Entry> {
    if e.Nil? then sofar
    else ParsedMembers(e.rest, Insert(sofar, Entry(if e.tag.Key? then Meaning(e.tag.name) else [], Parsed(e.value))))
  }

  // ---- HTML escaping keeps what a string means -------------------------------------------------

  lemma HtmlHead(c: char, x: bytes)
    requires c == '<' || c == '>' || c == '&'
    ensures |Html([c] + x)| >= 6 && Decode(Html([c] + x)) == Prefix([c], Decode(Html(x)))
  {
    assert ([c] + x)[1..] == x;
    var h, l := if c == '&' then '2' else '3', if c == '&' then '6' else if c == '<' then 'c' else 'e';
    assert Html([c] + x) == "\\u00" + [h, l] + Html(x);
    DecodeSmall(h, l, Html(x));
  }

  lemma HtmlSeparator(s: bytes)
    requires IsLineSep(s)
    ensures Decode(Html(s)) == Prefix(s[..3], Decode(Html(s[3..])))
    ensures Decode(s) == Prefix(s[..3], Decode(s[3..]))
  {
    var p, x := s[..3], s[3..];
    assert s == p + x && p == ['\U{E2}', '\U{80}', s[2]];
    DecodeVerbatim(p, x);
    DecodeLineSep(s[2], Html(x));
  }

  lemma DecodeUnicode(p: bytes, x: bytes)
    requires |p| == 6 && UnicodeEscape(p) && !(0xD800 <= CodeUnit(p) < 0xE000)
    ensures Decode(p + x) == Prefix(Utf8(CodeUnit(p)), Decode(x))
  {
    assert (p + x)[6..] == x && forall i :: 0 <= i < 6 ==> (p + x)[i] == p[i];
  }

  lemma DecodeLone(p: bytes, x: bytes)
    requires |p| == 6 && UnicodeEscape(p) && 0xD800 <= CodeUnit(p) < 0xE000
    requires CodeUnit(p) >= 0xDC00 || !LowSurrogate(x)
    ensures Decode(p + x).None?
  {
    assert (p + x)[6..] == x && forall i :: 0 <= i < 6 ==> (p + x)[i] == p[i];
  }

  lemma DecodePair(p: bytes, q: bytes, x: bytes)
    requires |p| == 6 && UnicodeEscape(p) && 0xD800 <= CodeUnit(p) < 0xDC00 && |q| == 6 && LowSurrogate(q)
    ensures Decode(p + q + x)
            == Prefix(Utf8(0x10000 + (CodeUnit(p) - 0xD800) * 0x400 + (CodeUnit(q) - 0xDC00)), Decode(x))
  {
    var s := p + q + x;
    assert s[6..] == q + x && s[12..] == x && forall i :: 0 <= i < 6 ==> s[i] == p[i] && s[6 + i] == q[i];
  }

  lemma EscapePlain(p: bytes)
    requires |p| == 6 && UnicodeEscape(p)
    ensures forall i :: 0 <= i < 6 ==> PlainAscii(p[i])
  {
  }

  /** An escaped low surrogate stays one, and escaping makes no new one. */
  lemma HtmlSurrogate(x: bytes)
    ensures LowSurrogate(Html(x)) == LowSurrogate(x)
    ensures LowSurrogate(x) ==> Html(x) == x[..6] + Html(x[6..])
  {
    if UnicodeEscape(x) {
      EscapePlain(x[..6]);
      assert x == x[..6] + x[6..];
      HtmlPlain(x[..6], x[6..]);
    } else if x != [] && x[0] == '\\' {
      HtmlNoEscape(x);
    }
  }

  /** A byte of the output that is not a backslash was there before. */
  lemma HtmlFirst(x: bytes)
    requires Html(x) != [] && Html(x)[0] != '\\'
    ensures x != [] && Html(x)[0] == x[0] && Html(x)[1..] == Html(x[1..])
  {
  }

  lemma HtmlNoEscape(x: bytes)
    requires x != [] && x[0] == '\\' && !UnicodeEscape(x)
    ensures !LowSurrogate(Html(x))
  {
    var h := Html(x);
    assert h == ['\\'] + Html(x[1..]) && h[1..] == Html(x[1..]);
    hide Html;
    if UnicodeEscape(h) {
      HtmlFirst(x[1..]);
      HtmlFirst(x[1..][1..]);
      HtmlFirst(x[1..][1..][1..]);
      HtmlFirst(x[1..][1..][1..][1..]);
      HtmlFirst(x[1..][1..][1..][1..][1..]);
    }
  }

  /** One escape at the front of a string body. */
  lemma EscapeKept(s: bytes)
    requires StringBody(s) == Some(|s|) && s[0] == '\\'
    ensures UnitLen(s).Some? && UnitLen(s).value < |s|
    ensures Html(s) == s[..UnitLen(s).value] + Html(s[UnitLen(s).value..])
  {
    BodyUnit(s);
    var u := UnitLen(s).value;
    assert s == s[..u] + s[u..];
    HtmlPlain(s[..u], s[u..]);
  }

  lemma UnitRest(s: bytes)
    requires StringBody(s) == Some(|s|) && s[0] != '"'
    ensures UnitLen(s).Some? && UnitLen(s).value < |s|
    ensures StringBody(s[UnitLen(s).value..]) == Some(|s| - UnitLen(s).value)
  {
    hide StringBody, UnitLen;
    BodyUnit(s);
  }

  lemma QuoteEnds(s: bytes)
    requires StringBody(s) == Some(|s|) && s[0] == '"'
    ensures Html(s) == s
  {
    assert s[1..] == [] && [s[0]] + [] == s;
  }

  lemma HtmlOther(s: bytes)
    requires s != [] && s[0] != '\\' && s[0] != '<' && s[0] != '>' && s[0] != '&' && !IsLineSep(s)
    ensures Html(s) == [s[0]] + Html(s[1..])
  {
  }

  /** Escaping a string body for HTML does not change what it means. */
  lemma {:induction false} DecodeHtml(s: bytes)
    requires StringBody(s) == Some(|s|)
    ensures Decode(Html(s)) == Decode(s)
    decreases |s|
  {
    hide Decode, Html, IsLineSep, StringBody;
    if s[0] == '"' {
      QuoteEnds(s);
    } else {
      UnitRest(s);
      var u := UnitLen(s).value;
      var x := s[u..];
      DecodeHtml(x);
      if s[0] == '\\' {
        EscapeKept(s);
        DecodeEscape(s, x);
      } else if IsLineSep(s) {
        HtmlSeparator(s);
      } else {
        assert s == [s[0]] + x && s[1..] == x;
        if s[0] == '<' || s[0] == '>' || s[0] == '&' {
          HtmlHead(s[0], x);
        } else {
          HtmlOther(s);
          DecodeOne(s[0], Html(x));
        }
        DecodeOne(s[0], x);
      }
    }
  }

  lemma {:induction false} DecodeEscape(s: bytes, x: bytes)
    requires StringBody(s) == Some(|s|) && s[0] == '\\' && UnitLen(s).Some? && x == s[UnitLen(s).value..]
    requires Html(s) == s[..UnitLen(s).value] + Html(x) && Decode(Html(x)) == Decode(x)
    requires StringBody(x) == Some(|x|)
    ensures Decode(Html(s)) == Decode(s)
    decreases |s|, 0
  {
    hide Decode, Html, StringBody;
    var p := s[..UnitLen(s).value];
    assert s == p + x;
    if |p| == 2 {
      assert p == ['\\', s[1]];
      DecodeShort(s[1], x);
      DecodeShort(s[1], Html(x));
    } else if !(0xD800 <= CodeUnit(p) < 0xE000) {
      DecodeUnicode(p, x);
      DecodeUnicode(p, Html(x));
    } else {
      HtmlSurrogate(x);
      if CodeUnit(p) < 0xDC00 && LowSurrogate(x) {
        var q, y := x[..6], x[6..];
        UnitRest(x);
        DecodeHtml(y);
        assert s == p + q + y && p + (q + Html(y)) == p + q + Html(y);
        DecodePair(p, q, y);
        DecodePair(p, q, Html(y));
      } else {
        DecodeLone(p, x);
        DecodeLone(p, Html(x));
      }
    }
  }

  // ---- Compaction keeps what a document means ------------------------------------------------------

  /** The tokens say the same: numbers and literals byte for byte, strings by what they decode to. */
  predicate SameToken(t: bytes, u: bytes) {
    if IsString(t) then IsString(u) && Decode(t[1..]) == Decode(u[1..]) else u == t
  }

  /** Two documents of one shape whose tokens and keys say the same. */
  predicate SameMeaning(n: Node, m: Node) {
    match n
    case Token(t) => m.Token? && SameToken(t, m.text)
    case Arr(_, e) => m.Arr? && SameElems(e, m.elems)
    case Obj(_, e) => m.Obj? && SameElems(e, m.elems)
  }

  predicate SameElems(e: Elems, f: Elems) {
    if e.Nil? then f.Nil?
    else
      f.Cons? && SameMeaning(e.value, f.value) && SameElems(e.rest, f.rest)
      && (e.tag.Key? <==> f.tag.Key?) && (e.tag.Key? ==> SameToken(e.tag.name, f.tag.name))
  }

  lemma TokenKept(t: bytes)
    requires IsToken(t)
    ensures SameToken(t, Html(t))
  {
    HtmlToken(t);
    if t[0] == '"' {
      assert Html(t) == ['"'] + Html(t[1..]) && Html(t)[1..] == Html(t[1..]);
      StringTail(t);
      DecodeHtml(t[1..]);
    } else {
      PlainToken(t);
    }
  }

  lemma StringTail(t: bytes)
    requires IsString(t)
    ensures StringBody(t[1..]) == Some(|t[1..]|)
  {
  }

  lemma {:induction false} StripMeans(n: Node)
    requires Wf(n)
    ensures SameMeaning(n, Strip(n))
    decreases n
  {
    hide Html, IsToken, SameToken;
    match n
    case Token(t) => TokenKept(t);
    case Arr(_, e) => StripElemsMean(e, false);
    case Obj(_, e) => StripElemsMean(e, true);
  }

  lemma {:induction false} StripElemsMean(e: Elems, labelled: bool)
    requires WfElems(e, labelled)
    ensures SameElems(e, StripElems(e))
    decreases e
  {
    hide Html, SameToken;
    if e.Cons? {
      StripMeans(e.value);
      StripElemsMean(e.rest, labelled);
      if e.tag.Key? { TokenKept(e.tag.name); }
    }
  }

  /**
   Compaction keeps what a document means: its output is the text of a tree of the same shape
   whose numbers and literals are the same bytes and whose strings and keys decode to the same.
   */
  lemma CompactionKeepsMeaning(src: bytes, lead: bytes, n: Node, trail: bytes) returns (m: Node)
    requires IsDocument(src, lead, n, trail)
    ensures Compacted(src).Some? && IsDocument(Compacted(src).value, [], m, [])
    ensures SameMeaning(n, m) && Parsed(m) == Parsed(n)
  {
    DocumentComplete(src, lead, n, trail);
    StripNormal(n);
    StripMeans(n);
    m := Strip(n);
    SameParsed(n, m);
    assert [] + TextOn(m, []) == TextOn(m, []);
  }

  lemma SameTokenParsed(t: bytes, u: bytes)
    requires SameToken(t, u) && IsToken(t)
    ensures Parsed(Token(u)) == Parsed(Token(t)) && Meaning(u) == Meaning(t)
  {
  }

  lemma {:induction false} SameParsed(n: Node, m: Node)
    requires Wf(n) && SameMeaning(n, m)
    ensures Parsed(m) == Parsed(n)
    decreases n
  {
    match n
    case Token(t) => SameTokenParsed(t, m.text);
    case Arr(_, e) => SameItems(e, m.elems);
    case Obj(_, e) => SameMembers(e, m.elems, []);
  }

  lemma {:induction false} SameItems(e: Elems, f: Elems)
    requires WfElems(e, false) && SameElems(e, f)
    ensures ParsedItems(f) == ParsedItems(e)
    decreases e
  {
    if e.Cons? {
      SameParsed(e.value, f.value);
      SameItems(e.rest, f.rest);
    }
  }

  lemma {:induction false} SameMembers(e: Elems, f: Elems, sofar: seq<Entry>)
    requires WfElems(e, true) && SameElems(e, f)
    ensures ParsedMembers(f, sofar) == ParsedMembers(e, sofar)
    decreases e
  {
    hide Insert, Meaning;
    if e.Cons? {
      SameParsed(e.value, f.value);
      SameTokenParsed(e.tag.name, f.tag.name);
      SameMembers(e.rest, f.rest, Insert(sofar, Entry(Meaning(e.tag.name), Parsed(e.value))));
    }
  }

  // ---- What is printed reads back -----------------------------------------------------------------------

  /** Strings and keys are UTF-8 and the keys of every object ascend, as those of an ordered map do. */
  predicate Readable(v: JVal) {
    match v
    case Str(s) => ValidUtf8(s)
    case List(items) => forall i :: 0 <= i < |items| ==> Readable(items[i])
    case Map(members) =>
      (forall i :: 0 <= i < |members| ==> ValidUtf8(members[i].key) && Readable(members[i].value))
      && forall i, j :: 0 <= i < j < |members| ==> StrBefore(members[i].key, members[j].key)
    case _ => true
  }

  /** `w` is `v` as a reader sees it: an integer is its decimal text, a raw payload the document it holds. */
  ghost predicate ReadsAs(v: JVal, w: JVal) {
    match v
    case Int(n) => w.Float? && w.text.Some? && ReadInt(w.text.value) == n
    case List(items) =>
      w.List? && |w.items| == |items| && forall i :: 0 <= i < |items| ==> ReadsAs(items[i], w.items[i])
    case Map(members) =>
      w.Map? && |w.members| == |members|
      && forall i :: 0 <= i < |members| ==>
           w.members[i].key == members[i].key && ReadsAs(members[i].value, w.members[i].value)
    case Raw(raw) => exists lead, n, trail :: IsDocument(raw, lead, n, trail) && w == Parsed(n)
    case _ => w == v
  }

  /** Only a float without text, or raw bytes that are no document, cannot be printed. */
  ghost predicate Printable(v: JVal) {
    match v
    case Float(t) => t.Some?
    case List(items) => forall i :: 0 <= i < |items| ==> Printable(items[i])
    case Map(members) => forall i :: 0 <= i < |members| ==> Printable(members[i].value)
    case Raw(raw) => exists lead, n, trail :: IsDocument(raw, lead, n, trail)
    case _ => true
  }

  lemma {:induction false} PrintableTree(v: JVal)
    ensures Tree(v).Some? <==> Printable(v)
    decreases v, 1, 0
  {
    match v
    case List(items) => PrintableItems(v, 0);
    case Map(members) => PrintableMembers(v, 0);
    case Raw(raw) => RawPrintable(raw);
    case _ =>
  }

  lemma RawPrintable(raw: bytes)
    ensures RawTree(raw).Some? <==> exists lead, n, trail :: IsDocument(raw, lead, n, trail)
  {
    if Compacted(raw).Some? { var lead, n, trail := DocumentSound(raw); }
    forall lead, n, trail | IsDocument(raw, lead, n, trail) ensures Compacted(raw).Some? {
      DocumentComplete(raw, lead, n, trail);
    }
  }

  lemma {:induction false} PrintableItems(v: JVal, i: nat)
    requires v.List? && i <= |v.items|
    ensures ItemTrees(v, i).Some? <==> forall j :: i <= j < |v.items| ==> Printable(v.items[j])
    decreases v, 0, |v.items| - i
  {
    hide Printable, Tree;
    if i < |v.items| {
      PrintableTree(v.items[i]);
      PrintableItems(v, i + 1);
    }
  }

  lemma {:induction false} PrintableMembers(v: JVal, i: nat)
    requires v.Map? && i <= |v.members|
    ensures MemberTrees(v, i).Some? <==> forall j :: i <= j < |v.members| ==> Printable(v.members[j].value)
    decreases v, 0, |v.members| - i
  {
    hide Printable, Tree;
    if i < |v.members| {
      PrintableTree(v.members[i].value);
      PrintableMembers(v, i + 1);
    }
  }

  lemma EscapedMeaning(s: bytes)
    requires ValidUtf8(s)
    ensures Meaning(Escaped(s)) == s && IsString(Escaped(s))
  {
    DecodeEscaped(s);
    EscapedNormal(s);
    assert Escaped(s)[1..] == Body(s);
  }

  /** The tree of a printable value reads back as the value. */
  lemma {:induction false} TreeReads(v: JVal)
    requires FloatsWf(v) && Readable(v) && Tree(v).Some?
    ensures ReadsAs(v, Parsed(Tree(v).value))
    decreases v, 1, 0
  {
    hide ValidUtf8, StrBefore, Escaped, IntText, ReadInt;
    match v
    case Int(n) =>
      ReadIntText(n);
      IntToken(n);
      IntNotWord(n);
    case Str(s) => EscapedMeaning(s);
    case List(items) => ItemsRead(v, 0);
    case Map(members) => MembersRead(v, 0, []);
    case Raw(raw) => RawReads(raw);
    case _ =>
  }

  lemma IntNotWord(n: int)
    ensures IntText(n) != "null" && IntText(n) != "true" && IntText(n) != "false"
  {
    NatTextDigits(if n < 0 then -n else n);
    var t := IntText(n);
    assert t[0] == '-' || '0' <= t[0] <= '9';
    assert "null"[0] == 'n' && "true"[0] == 't' && "false"[0] == 'f';
  }

  lemma RawReads(raw: bytes)
    requires RawTree(raw).Some?
    ensures exists lead, n, trail :: IsDocument(raw, lead, n, trail) && Parsed(RawTree(raw).value) == Parsed(n)
  {
    var lead, n, trail :| IsDocument(raw, lead, n, trail) && RawTree(raw) == Some(Strip(n));
    StripMeans(n);
    SameParsed(n, Strip(n));
  }

  lemma {:induction false} ItemsRead(v: JVal, i: nat)
    requires v.List? && i <= |v.items| && FloatsWf(v) && Readable(v) && ItemTrees(v, i).Some?
    ensures var r := ParsedItems(ItemTrees(v, i).value);
            |r| == |v.items| - i && forall j :: i <= j < |v.items| ==> ReadsAs(v.items[j], r[j - i])
    decreases v, 0, |v.items| - i
  {
    hide ReadsAs, Tree, FloatsWf, Readable, Parsed;
    if i < |v.items| {
      PartsOk(v);
      TreeReads(v.items[i]);
      ItemsRead(v, i + 1);
      FirstItem(ItemTrees(v, i).value, ItemTrees(v, i + 1).value);
    }
  }

  /** The parts of a value meet the conditions on the whole. */
  lemma PartsOk(v: JVal)
    requires FloatsWf(v) && Readable(v)
    ensures v.List? ==> forall i :: 0 <= i < |v.items| ==> FloatsWf(v.items[i]) && Readable(v.items[i])
    ensures v.Map? ==>
              forall i :: 0 <= i < |v.members| ==>
                FloatsWf(v.members[i].value) && Readable(v.members[i].value) && ValidUtf8(v.members[i].key)
    ensures v.Map? ==> forall i, j :: 0 <= i < j < |v.members| ==> StrBefore(v.members[i].key, v.members[j].key)
  {
    hide StrBefore, ValidUtf8;
  }

  lemma FirstItem(e: Elems, rest: Elems)
    requires e.Cons? && e.rest == rest
    ensures ParsedItems(e) == [Parsed(e.value)] + ParsedItems(rest)
  {
  }

  /** A key behind all others goes to the end. */
  lemma {:induction false} InsertLast(members: seq<Entry>, e: Entry)
    requires forall i :: 0 <= i < |members| ==> StrBefore(members[i].key, e.key)
    ensures Insert(members, e) == members + [e]
    decreases |members|
  {
    if members != [] {
      StrOrder(members[0].key, e.key, members[0].key);
      assert StrBefore(members[0].key, e.key);
      InsertLast(members[1..], e);
      assert members == [members[0]] + members[1..];
    }
  }

  lemma {:induction false} MembersRead(v: JVal, i: nat, sofar: seq<Entry>)
    requires v.Map? && i <= |v.members| && FloatsWf(v) && Readable(v) && MemberTrees(v, i).Some?
    requires |sofar| == i && forall j :: 0 <= j < i ==>
               sofar[j].key == v.members[j].key && ReadsAs(v.members[j].value, sofar[j].value)
    ensures var r := ParsedMembers(MemberTrees(v, i).value, sofar);
            |r| == |v.members| && forall j :: 0 <= j < |r| ==>
              r[j].key == v.members[j].key && ReadsAs(v.members[j].value, r[j].value)
    decreases v, 0, |v.members| - i
  {
    hide ReadsAs, Tree, Meaning, Insert, StrBefore, FloatsWf, Readable, Parsed, ValidUtf8;
    if i < |v.members| {
      PartsOk(v);
      var m := v.members[i];
      TreeReads(m.value);
      EscapedMeaning(m.key);
      var e := Entry(m.key, Parsed(Tree(m.value).value));
      InsertLast(sofar, e);
      MembersRead(v, i + 1, sofar + [e]);
    }
  }

  /** Printing succeeds exactly for printable values, and the printed text reads back as the value. */
  lemma PrintReads(v: JVal)
    requires FloatsWf(v) && Readable(v)
    ensures Marshalled(v).Some? <==> Printable(v)
    ensures Marshalled(v).Some? ==>
              exists n :: IsDocument(Marshalled(v).value, [], n, []) && ReadsAs(v, Parsed(n))
  {
    hide Tree, ReadsAs, Printable, FloatsWf, Readable;
    PrintableTree(v);
    if Tree(v).Some? {
      TreeReads(v);
      TreeNormal(v);
      var n := Tree(v).value;
      assert [] + TextOn(n, []) == TextOn(n, []);
      assert IsDocument(Marshalled(v).value, [], n, []);
    }
  }
}
