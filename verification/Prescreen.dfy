/**
 The byte prescreen of sanitize.rs: a flat quote scan over raw JSON that decides whether
 the payload must be parsed and walked. On every valid document it answers exactly
 whether some object key of the tree is escaped or named in the redaction list.
 */
module Prescreen {
  import opened Common
  import opened JsonGrammar
  import opened JsonScanner
  import opened JsonTree

  // ---- Names -----------------------------------------------------------------

  const SECRET_KEY_NAMES: seq<bytes> := [
    "authorization", "cookie", "setcookie", "apikey", "accesskey", "token", "sessiontoken", "accesstoken",
    "refreshtoken", "bearertoken", "password", "clientsecret", "devicefingerprint", "modelassignmentjwt"
  ]

  const METADATA_SECRET_KEY_NAMES: seq<bytes> := ["f"]

  predicate IsSeparator(c: char) {
    c == '_' || c == '-'
  }

  function LowerAscii(c: char): char {
    if 'A' <= c <= 'Z' then (c as int + 32) as char else c
  }

  /** A key without `_` and `-`, ASCII letters in lower case. */
  function Normalized(s: bytes): bytes {
    if s == [] then []
    else if IsSeparator(s[0]) then Normalized(s[1..])
    else [LowerAscii(s[0])] + Normalized(s[1..])
  }

  /** Normalising goes character by character: separators go, capitals become small, the rest stays. */
  lemma {:induction false} NormalizedIs(a: bytes, c: char, b: bytes)
    ensures Normalized("") == ""
    ensures Normalized(a + [c] + b)
            == Normalized(a)
               + (if c in {'_', '-'} then "" else if 'A' <= c <= 'Z' then [c - 'A' + 'a'] else [c])
               + Normalized(b)
    decreases |a|
  {
    if a == "" {
      assert a + [c] + b == [c] + b && ([c] + b)[1..] == b;
    } else {
      assert (a + [c] + b)[1..] == a[1..] + [c] + b;
      NormalizedIs(a[1..], c, b);
    }
  }

  method EqualFoldKey(span: bytes, name: bytes) returns (same: bool)
    ensures same <==> Normalized(span) == name
  {
    var i, j := 0, 0;
    assert span[0..] == span && name[0..] == name;
    while j < |name|
      invariant i <= |span| && j <= |name|
      invariant Normalized(span) == name <==> Normalized(span[i..]) == name[j..]
    {
      i := SkipSeparators(span, i);
      if i >= |span| { return false; }
      assert span[i..][1..] == span[i + 1..] && name[j..] == [name[j]] + name[j + 1..];
      if LowerAscii(span[i]) != name[j] { return false; }
      i, j := i + 1, j + 1;
    }
    i := SkipSeparators(span, i);
    return i == |span|;
  }

  method SkipSeparators(span: bytes, start: nat) returns (i: nat)
    requires start <= |span|
    ensures start <= i <= |span| && Normalized(span[i..]) == Normalized(span[start..])
    ensures i == |span| || !IsSeparator(span[i])
  {
    i := start;
    while i < |span| && IsSeparator(span[i])
      invariant start <= i <= |span| && Normalized(span[i..]) == Normalized(span[start..])
    {
      assert span[i..][1..] == span[i + 1..];
      i := i + 1;
    }
  }

  /** The span of a quoted key hits one of the two lists. */
  predicate SecretSpan(span: bytes) {
    Normalized(span) in SECRET_KEY_NAMES || Normalized(span) in METADATA_SECRET_KEY_NAMES
  }

  method SecretKeySpan(span: bytes) returns (hit: bool)
    ensures hit == SecretSpan(span)
  {
    var names := SECRET_KEY_NAMES + METADATA_SECRET_KEY_NAMES;
    for k := 0 to |names|
      invariant Normalized(span) !in names[..k]
    {
      var same := EqualFoldKey(span, names[k]);
      if same {
        assert names[k] in names;
        return true;
      }
      assert names[..k + 1] == names[..k] + [names[k]];
    }
    assert names[..|names|] == names;
    return false;
  }

  // ---- The scan as a function of the unread input ------------------------------

  /** Characters before the closing quote, a backslash hiding the next one. */
  function SpanLen(s: bytes): (r: Option<nat>)
    ensures r.Some? ==> r.value < |s| && s[r.value] == '"'
  {
    if s == [] then None
    else if s[0] == '"' then Some(0)
    else if s[0] == '\\' then if |s| < 2 then None else More(2, SpanLen(s[2..]))
    else More(1, SpanLen(s[1..]))
  }

  predicate FlaggedSpan(span: bytes) {
    '\\' in span || SecretSpan(span)
  }

  /** The first character after insignificant whitespace is a colon. */
  predicate ColonNext(s: bytes) {
    TrimStart(s) != [] && TrimStart(s)[0] == ':'
  }

  /** A quoted span directly before a colon is escaped or secret. */
  predicate QuoteScan(s: bytes)
    decreases |s|
  {
    if s == [] then false
    else if s[0] != '"' then QuoteScan(s[1..])
    else match SpanLen(s[1..])
      case None => false
      case Some(n) =>
        var rest := s[n + 2..];
        (ColonNext(rest) && FlaggedSpan(s[1..n + 1])) || QuoteScan(rest)
  }

  predicate ImageAt(s: bytes, i: nat) {
    i + 6 <= |s| && s[i..i + 6] == "image/"
  }

  predicate HasImage(s: bytes) {
    exists i :: 0 <= i < |s| && ImageAt(s, i)
  }

  method FindImage(s: bytes) returns (found: bool)
    ensures found == HasImage(s)
  {
    for i := 0 to |s|
      invariant forall k :: 0 <= k < i ==> !ImageAt(s, k)
    {
      if i + 6 <= |s| && s[i..i + 6] == "image/" {
        assert ImageAt(s, i);
        return true;
      }
    }
    return false;
  }

  predicate NeedsSanitize(s: bytes) {
    HasImage(s) || QuoteScan(s)
  }

  /** Where a span scan stops. */
  lemma SpanEnds(data: bytes)
    ensures forall i :: 0 <= i < |data| && data[i] == '"' ==> SpanLen(data[i..]) == Some(0)
    ensures SpanLen(data[|data|..]).None?
  {
    forall i | 0 <= i < |data| && data[i] == '"' ensures SpanLen(data[i..]) == Some(0) {
      SpanStep(data[i..]);
    }
  }

  /** The inner loop: the end of a quoted span and whether it holds a backslash. */
  method FindQuote(data: bytes, start: nat) returns (end: nat, escaped: bool)
    requires start <= |data|
    ensures SpanLen(data[start..]).None? ==> end >= |data|
    ensures SpanLen(data[start..]).Some? ==> end == start + SpanLen(data[start..]).value
                                             && (escaped <==> '\\' in data[start..end])
  {
    hide SpanLen, SpanSoFar;
    end, escaped := start, false;
    ghost var whole := SpanLen(data[start..]);
    assert SpanSoFar(data, start, end, escaped, whole) by { SpanStarts(data, start); }
    while end < |data| && data[end] != '"'
      invariant SpanSoFar(data, start, end, escaped, whole)
      decreases |data| + 2 - end
    {
      SpanGoesOn(data, start, end, escaped, whole);
      if data[end] == '\\' {
        escaped := true;
        end := end + 1;
      }
      end := end + 1;
    }
    SpanStops(data, start, end, escaped, whole);
  }

  /** What the search knows at `end`; `whole` is the span it looks for. */
  ghost predicate SpanSoFar(data: bytes, start: nat, end: nat, escaped: bool, whole: Option<nat>) {
    && start <= end && (end > |data| ==> whole.None?)
    && (end <= |data| ==> whole == More(end - start, SpanLen(data[end..])) && (escaped <==> '\\' in data[start..end]))
  }

  lemma SpanStarts(data: bytes, start: nat)
    requires start <= |data|
    ensures SpanSoFar(data, start, start, false, SpanLen(data[start..]))
  {
    hide SpanLen;
  }

  lemma SpanGoesOn(data: bytes, start: nat, end: nat, escaped: bool, whole: Option<nat>)
    requires SpanSoFar(data, start, end, escaped, whole) && end < |data| && data[end] != '"'
    ensures if data[end] == '\\' then SpanSoFar(data, start, end + 2, true, whole)
            else SpanSoFar(data, start, end + 1, escaped, whole)
  {
    hide SpanLen;
    SpanTurn(data, start, end);
  }

  lemma SpanStops(data: bytes, start: nat, end: nat, escaped: bool, whole: Option<nat>)
    requires SpanSoFar(data, start, end, escaped, whole) && (end >= |data| || data[end] == '"')
    ensures whole.None? ==> end >= |data|
    ensures whole.Some? ==> end == start + whole.value <= |data| && (escaped <==> '\\' in data[start..end])
  {
    SpanEnds(data);
    hide SpanLen;
  }

  lemma SpanTurn(data: bytes, start: nat, i: nat)
    requires start <= i < |data| && data[i] != '"'
    ensures data[i] != '\\' ==>
              SpanLen(data[i..]) == More(1, SpanLen(data[i + 1..]))
              && ('\\' in data[start..i + 1] <==> '\\' in data[start..i])
    ensures data[i] == '\\' && i + 2 <= |data| ==>
              SpanLen(data[i..]) == More(2, SpanLen(data[i + 2..])) && '\\' in data[start..i + 2]
    ensures data[i] == '\\' && i + 2 > |data| ==> SpanLen(data[i..]).None?
  {
    assert data[i..][1..] == data[i + 1..];
    assert data[start..i + 1] == data[start..i] + [data[i]];
    if i + 2 <= |data| {
      assert data[i..][2..] == data[i + 2..];
      assert data[start..i + 2] == data[start..i] + [data[i]] + [data[i + 1]];
    }
  }

  method RawNeedsSanitize(data: bytes) returns (needs: bool)
    ensures needs == NeedsSanitize(data)
  {
    var image := FindImage(data);
    if image { return true; }
    needs := ScanQuotes(data);
  }

  /** The quote loop of `RawNeedsSanitize`. */
  method ScanQuotes(data: bytes) returns (hit: bool)
    ensures hit == QuoteScan(data)
  {
    hide QuoteScan, SpanLen, SecretSpan, TrimStart, ColonNext;
    var i := 0;
    assert data[0..] == data;
    while i < |data|
      invariant i <= |data| && QuoteScan(data) == QuoteScan(data[i..])
    {
      ScanTurn(data, i);
      if data[i] != '"' {
        i := i + 1;
        continue;
      }
      var end, escaped := FindQuote(data, i + 1);
      if end >= |data| { return false; }
      var flagged := CheckSpan(data, i + 1, end, escaped);
      if flagged { return true; }
      i := end + 1;
    }
    ScanNil();
    assert data[i..] == [];
    return false;
  }

  /** The test on one quoted span. */
  method CheckSpan(data: bytes, start: nat, end: nat, escaped: bool) returns (flagged: bool)
    requires start <= end < |data| && (escaped <==> '\\' in data[start..end])
    ensures flagged == (ColonNext(data[end + 1..]) && FlaggedSpan(data[start..end]))
  {
    hide TrimStart, SecretSpan, ColonNext;
    var colon := SkipSpace(data, end + 1);
    ColonAfter(data, end + 1, colon);
    var secret := SecretKeySpan(data[start..end]);
    flagged := colon < |data| && data[colon] == ':' && (escaped || secret);
  }

  /** One turn of the scan, on positions of `data`. */
  lemma ScanTurn(data: bytes, i: nat)
    requires i < |data|
    ensures data[i] != '"' ==> QuoteScan(data[i..]) == QuoteScan(data[i + 1..])
    ensures data[i] == '"' && SpanLen(data[i + 1..]).None? ==> !QuoteScan(data[i..])
    ensures data[i] == '"' && SpanLen(data[i + 1..]).Some? ==>
              var end := i + 1 + SpanLen(data[i + 1..]).value;
              QuoteScan(data[i..])
              == ((ColonNext(data[end + 1..]) && FlaggedSpan(data[i + 1..end])) || QuoteScan(data[end + 1..]))
  {
    hide SpanLen, SecretSpan, ColonNext, TrimStart;
    var s := data[i..];
    assert s[1..] == data[i + 1..];
    if data[i] == '"' && SpanLen(s[1..]).Some? {
      var n := SpanLen(s[1..]).value;
      assert s[1..n + 1] == data[i + 1..i + 1 + n] && s[n + 2..] == data[i + n + 2..];
    }
  }

  lemma ColonAfter(data: bytes, start: nat, colon: nat)
    requires start <= colon <= |data| && data[colon..] == TrimStart(data[start..])
    ensures ColonNext(data[start..]) <==> colon < |data| && data[colon] == ':'
  {
    if colon < |data| { assert data[colon..][0] == data[colon]; }
  }

  // ---- The scan on the text of a tree -------------------------------------------

  /** What is between the quotes of a string token. */
  function Inner(t: bytes): bytes
    requires |t| >= 2
  {
    t[1..|t| - 1]
  }

  lemma StringSize(t: bytes)
    requires IsString(t)
    ensures |t| >= 2
  {
  }

  /** Some object key of the tree is escaped or secret. */
  predicate AnyFlagged(n: Node) {
    match n
    case Token(_) => false
    case Arr(_, e) => AnyFlaggedElem(e)
    case Obj(_, e) => AnyFlaggedElem(e)
  }

  predicate AnyFlaggedElem(e: Elems) {
    e.Cons? && (FlaggedTag(e.tag) || AnyFlagged(e.value) || AnyFlaggedElem(e.rest))
  }

  predicate FlaggedTag(tag: Label) {
    tag.Key? && |tag.name| >= 2 && FlaggedSpan(Inner(tag.name))
  }

  predicate NoQuote(p: bytes) {
    forall i :: 0 <= i < |p| ==> p[i] != '"'
  }

  lemma {:induction false} ScanSkips(p: bytes, k: bytes)
    requires NoQuote(p)
    ensures QuoteScan(p + k) == QuoteScan(k)
    decreases |p|
  {
    if p == [] {
      assert p + k == k;
    } else {
      assert (p + k)[1..] == p[1..] + k;
      ScanSkips(p[1..], k);
    }
  }

  /** The scan and the grammar agree on where a string ends. */
  lemma {:induction false} SpanIsBody(s: bytes, k: bytes)
    requires StringBody(s) == Some(|s|)
    ensures SpanLen(s + k) == Some(|s| - 1)
    decreases |s|
  {
    hide StringBody, SpanLen;
    var c := s[0];
    if c == '"' {
      SpanStep(s + k);
      BodyQuote(s);
    } else {
      BodyUnitPlain(s);
      var u := Unit(s);
      assert (s + k)[u..] == s[u..] + k;
      SpanIsBody(s[u..], k);
      StringBodyOn(s, k);
      assert |s| >= 2 ==> (s + k)[1] == s[1];
      SpanUnit(s + k, u);
    }
  }

  lemma BodyQuote(s: bytes)
    requires s != [] && s[0] == '"' && StringBody(s) == Some(|s|)
    ensures |s| == 1
  {
  }

  lemma SpanStep(s: bytes)
    requires s != [] && s[0] == '"'
    ensures SpanLen(s) == Some(0)
  {
  }

  /** A unit of a string body: an escape or one character. */
  lemma SpanUnit(s: bytes, u: nat)
    requires s != [] && s[0] != '"' && u <= |s| && StringBody(s).Some? && u == Unit(s)
    ensures SpanLen(s) == More(u, SpanLen(s[u..]))
  {
    if u == 6 {
      assert s[2..][1..] == s[3..] && s[3..][1..] == s[4..] && s[4..][1..] == s[5..] && s[5..][1..] == s[6..];
      SpanPlain(s[2..]);
      SpanPlain(s[3..]);
      SpanPlain(s[4..]);
      SpanPlain(s[5..]);
    }
  }

  lemma SpanPlain(s: bytes)
    requires s != [] && s[0] != '"' && s[0] != '\\'
    ensures SpanLen(s) == More(1, SpanLen(s[1..]))
  {
  }

  lemma ScanFirstString(t: bytes, k: bytes)
    requires IsString(t)
    ensures |t| >= 2 && QuoteScan(t + k) == ((ColonNext(k) && FlaggedSpan(Inner(t))) || QuoteScan(k))
  {
    hide SpanLen, FlaggedSpan, ColonNext, StringBody, Inner;
    StringSize(t);
    FirstStringCuts(t, k);
    SpanIsBody(t[1..], k);
  }

  lemma FirstStringCuts(t: bytes, k: bytes)
    requires |t| >= 2
    ensures var s := t + k; s[1..] == t[1..] + k && s[|t|..] == k && s[1..|t| - 1] == Inner(t)
  {
  }

  lemma TokenNoQuote(t: bytes)
    requires IsToken(t) && t[0] != '"'
    ensures NoQuote(t)
  {
    TokenScalar(t);
  }

  /** A value is never followed by a colon. */
  lemma DelimitsNoColon(k: bytes)
    requires AfterValue(k)
    ensures !ColonNext(k)
  {
  }

  predicate AfterValue(k: bytes) {
    TrimStart(k) == [] || TrimStart(k)[0] == ',' || TrimStart(k)[0] == ']' || TrimStart(k)[0] == '}'
  }

  lemma RestAfterValue(e: Elems, close: char, k: bytes)
    requires e.Cons? && Blank(e.post) && (close == ']' || close == '}')
    ensures AfterValue(e.post + RestOn(e, close, k))
  {
    TrimTo(e.post, RestOn(e, close, k));
  }

  lemma {:induction false} ScanValueText(n: Node, k: bytes)
    requires Wf(n) && AfterValue(k)
    ensures QuoteScan(TextOn(n, k)) == (AnyFlagged(n) || QuoteScan(k))
    decreases n
  {
    hide QuoteScan;
    match n
    case Token(t) =>
      if t[0] == '"' {
        DelimitsNoColon(k);
        ScanFirstString(t, k);
      } else {
        TokenNoQuote(t);
        ScanSkips(t, k);
      }
    case Arr(blank, e) =>
      if e.Nil? {
        ScanBrackets("[" + blank + "]", k);
        assert "[" + blank + "]" + k == TextOn(n, k);
      } else {
        ScanSkips("[", ElemsOn(e, ']', k));
        ScanElemsText(e, false, ']', k);
      }
    case Obj(blank, e) =>
      if e.Nil? {
        ScanBrackets("{" + blank + "}", k);
        assert "{" + blank + "}" + k == TextOn(n, k);
      } else {
        ScanSkips("{", ElemsOn(e, '}', k));
        ScanElemsText(e, true, '}', k);
      }
  }

  lemma ScanBrackets(p: bytes, k: bytes)
    requires |p| >= 2 && p[0] != '"' && p[|p| - 1] != '"' && Blank(p[1..|p| - 1])
    ensures QuoteScan(p + k) == QuoteScan(k)
  {
    forall i | 0 <= i < |p| ensures p[i] != '"' {
      if 0 < i < |p| - 1 { assert p[i] == p[1..|p| - 1][i - 1]; }
    }
    ScanSkips(p, k);
  }

  lemma {:induction false} ScanElemsText(e: Elems, labelled: bool, close: char, k: bytes)
    requires e.Cons? && WfElems(e, labelled) && (close == ']' || close == '}')
    ensures QuoteScan(ElemsOn(e, close, k)) == (AnyFlaggedElem(e) || QuoteScan(k))
    decreases e
  {
    hide QuoteScan, FlaggedSpan, TextOn;
    var r := RestOn(e, close, k);
    var m := e.post + r;
    var v := TextOn(e.value, m);
    ScanSkips(e.pre, LabelOn(e.tag, v));
    RestAfterValue(e, close, k);
    ScanValueText(e.value, m);
    ScanSkips(e.post, r);
    if e.rest.Nil? {
      ScanSkips([close], k);
    } else {
      ScanSkips(",", ElemsOn(e.rest, close, k));
      ScanElemsText(e.rest, labelled, close, k);
    }
    if e.tag.Key? { ScanKeyText(e.tag, v); }
  }

  lemma ScanKeyText(tag: Label, v: bytes)
    requires tag.Key? && WfLabel(tag, true)
    ensures QuoteScan(LabelOn(tag, v)) == (FlaggedTag(tag) || QuoteScan(v))
  {
    hide QuoteScan, FlaggedSpan;
    var a := tag.after + v;
    var b := ":" + a;
    TrimTo(tag.before, b);
    ScanFirstString(tag.name, tag.before + b);
    ScanSkips(tag.before, b);
    ScanSkips(":", a);
    ScanSkips(tag.after, v);
  }

  /** On a valid document the flat scan answers exactly whether the tree has a flagged key. */
  lemma QuoteScanIffFlaggedKey(src: bytes, lead: bytes, n: Node, trail: bytes)
    requires IsDocument(src, lead, n, trail)
    ensures QuoteScan(src) <==> AnyFlagged(n)
  {
    hide QuoteScan;
    ScanSkips(lead, TextOn(n, trail));
    TrimBlank(trail, []);
    assert trail + [] == trail;
    ScanValueText(n, trail);
    ScanSkips(trail, []);
    ScanNil();
  }

  lemma ScanNil()
    ensures !QuoteScan([])
  {
  }
}
