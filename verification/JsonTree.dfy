/**
 JSON documents as concrete syntax trees, independent of any scanner: a tree keeps every
 token and every stretch of whitespace, so its text is a plain rendering. The recursive
 grammar of JsonGrammar accepts exactly the texts of well-formed trees.
 */
module JsonTree {
  import opened Common
  import opened JsonGrammar
  import opened JsonScanner

  datatype Node =
    | Token(text: bytes)
    | Arr(blank: bytes, elems: Elems)
    | Obj(blank: bytes, elems: Elems)

  /** Elements of an array (no labels) or members of an object (all labelled). */
  datatype Elems = Nil | Cons(pre: bytes, tag: Label, value: Node, post: bytes, rest: Elems)

  datatype Label = NoLabel | Key(name: bytes, before: bytes, after: bytes)

  // ---- Text of a tree, followed by `k` --------------------------------------

  function TextOn(n: Node, k: bytes): bytes
    decreases n, 0
  {
    match n
    case Token(t) => t + k
    case Arr(blank, e) => "[" + (if e.Nil? then blank + ("]" + k) else ElemsOn(e, ']', k))
    case Obj(blank, e) => "{" + (if e.Nil? then blank + ("}" + k) else ElemsOn(e, '}', k))
  }

  function ElemsOn(e: Elems, close: char, k: bytes): bytes
    requires e.Cons?
    decreases e, 1
  {
    e.pre + LabelOn(e.tag, TextOn(e.value, e.post + RestOn(e, close, k)))
  }

  function RestOn(e: Elems, close: char, k: bytes): bytes
    requires e.Cons?
    decreases e, 0
  {
    if e.rest.Nil? then [close] + k else "," + ElemsOn(e.rest, close, k)
  }

  function LabelOn(tag: Label, k: bytes): bytes {
    match tag
    case NoLabel => k
    case Key(name, before, after) => name + (before + (":" + (after + k)))
  }

  function Text(n: Node): bytes {
    TextOn(n, [])
  }

  // ---- Well-formed trees ----------------------------------------------------

  predicate IsToken(t: bytes) {
    TokenLen(t) == Some(|t|)
  }

  predicate IsString(t: bytes) {
    IsToken(t) && t[0] == '"'
  }

  predicate Wf(n: Node) {
    match n
    case Token(t) => IsToken(t)
    case Arr(blank, e) => Blank(blank) && WfElems(e, false)
    case Obj(blank, e) => Blank(blank) && WfElems(e, true)
  }

  predicate WfElems(e: Elems, labelled: bool) {
    e.Cons? ==>
      Blank(e.pre) && Blank(e.post) && WfLabel(e.tag, labelled) && Wf(e.value) && WfElems(e.rest, labelled)
  }

  predicate WfLabel(tag: Label, labelled: bool) {
    match tag
    case NoLabel => !labelled
    case Key(name, before, after) => labelled && IsString(name) && Blank(before) && Blank(after)
  }

  /** `src` is the text of the tree `n` between two stretches of whitespace. */
  predicate IsDocument(src: bytes, lead: bytes, n: Node, trail: bytes) {
    Blank(lead) && Blank(trail) && Wf(n) && src == lead + TextOn(n, trail)
  }

  // ---- Recursive compaction -------------------------------------------------

  /** Drops all whitespace between tokens and HTML-escapes every token. */
  function Compact(n: Node): bytes
    decreases n, 0
  {
    match n
    case Token(t) => Html(t)
    case Arr(_, e) => "[" + CompactElems(e, "]")
    case Obj(_, e) => "{" + CompactElems(e, "}")
  }

  function CompactElems(e: Elems, close: bytes): bytes
    decreases e, 0
  {
    match e
    case Nil => close
    case Cons(_, tag, value, _, rest) =>
      CompactLabel(tag, Compact(value) + CompactRest(rest, close))
  }

  function CompactRest(rest: Elems, close: bytes): bytes
    decreases rest, 1
  {
    if rest.Nil? then close else "," + CompactElems(rest, close)
  }

  function CompactLabel(tag: Label, k: bytes): bytes {
    match tag
    case NoLabel => k
    case Key(name, _, _) => Html(name) + (":" + k)
  }

  // ---- Tokens keep their length in context ----------------------------------

  /** What may follow a value: nothing, whitespace, a comma or a closing bracket. */
  predicate Delimits(k: bytes) {
    k == [] || IsSpace(k[0]) || k[0] == ',' || k[0] == ']' || k[0] == '}'
  }

  lemma {:induction false} StringBodyOn(t: bytes, k: bytes)
    requires StringBody(t).Some?
    ensures StringBody(t + k) == StringBody(t)
    decreases |t|
  {
    var s := t + k;
    if t[0] != '"' {
      BodyUnitPlain(t);
      BodyUnitPlain(s);
      var n := Unit(t);
      assert s[n..] == t[n..] + k;
      StringBodyOn(t[n..], k);
    }
  }

  /** Characters of a string body consumed together by the grammar. */
  function Unit(s: bytes): (n: nat)
    requires s != []
    ensures 1 <= n
  {
    if s[0] != '\\' then 1 else if |s| >= 2 && IsShortEscape(s[1]) then 2 else 6
  }

  lemma BodyUnitPlain(s: bytes)
    requires s != [] && s[0] != '"'
    ensures StringBody(s).Some? ==> Unit(s) <= |s| && StringBody(s) == More(Unit(s), StringBody(s[Unit(s)..]))
  {
  }

  lemma {:induction false} DigitsOn(t: bytes, k: bytes)
    requires Delimits(k)
    ensures Digits(t + k) == Digits(t)
    decreases |t|
  {
    if t == [] {
      assert t + k == k;
    } else if IsDigit(t[0]) {
      assert (t + k)[1..] == t[1..] + k;
      DigitsOn(t[1..], k);
    }
  }

  lemma NumberOn(t: bytes, k: bytes)
    requires t != [] && Delimits(k)
    ensures NumberLen(t + k) == NumberLen(t)
  {
    if t[0] == '-' {
      assert (t + k)[1..] == t[1..] + k;
      UnsignedOn(t[1..], k);
    } else {
      UnsignedOn(t, k);
    }
  }

  lemma UnsignedOn(t: bytes, k: bytes)
    requires Delimits(k)
    ensures Unsigned(t + k) == Unsigned(t)
  {
    DigitsOn(t, k);
    var d := Digits(t);
    assert (t + k)[d..] == t[d..] + k;
    FractionOn(t[d..], k);
  }

  lemma FractionOn(t: bytes, k: bytes)
    requires Delimits(k)
    ensures FractionExponent(t + k) == FractionExponent(t)
  {
    if t == [] {
      assert t + k == k;
    } else {
      assert (t + k)[1..] == t[1..] + k;
      DigitsOn(t[1..], k);
    }
    assert Fraction(t + k) == Fraction(t);
    if Fraction(t).Some? {
      var f := Fraction(t).value;
      assert (t + k)[f..] == t[f..] + k;
      ExponentOn(t[f..], k);
    }
  }

  lemma ExponentOn(t: bytes, k: bytes)
    requires Delimits(k)
    ensures Exponent(t + k) == Exponent(t)
  {
    hide Digits;
    if t == [] {
      assert t + k == k;
    } else if t[0] == 'e' || t[0] == 'E' {
      assert (t + k)[1..] == t[1..] + k;
      assert t[1..] == [] ==> t[1..] + k == k;
      var c := 1 + Sign(t[1..]);
      assert (t + k)[c..] == t[c..] + k;
      DigitsOn(t[c..], k);
    }
  }

  lemma TokenOn(t: bytes, k: bytes)
    requires IsToken(t) && (t[0] == '"' || Delimits(k))
    ensures TokenLen(t + k) == Some(|t|)
  {
    if t[0] == '"' {
      assert (t + k)[1..] == t[1..] + k;
      StringBodyOn(t[1..], k);
    } else if t[0] == '-' || IsDigit(t[0]) {
      NumberOn(t, k);
    } else {
      assert (t + k)[..|t|] == t;
      assert t[..|t|] == t;
    }
  }

  // ---- Completeness: the grammar accepts every well-formed tree --------------

  lemma {:induction false} TrimBlank(w: bytes, s: bytes)
    requires Blank(w)
    ensures TrimStart(w + s) == TrimStart(s)
    decreases |w|
  {
    if w == [] {
      assert w + s == s;
    } else {
      assert (w + s)[1..] == w[1..] + s;
      TrimBlank(w[1..], s);
    }
  }

  lemma TrimTo(w: bytes, s: bytes)
    requires Blank(w) && s != [] && !IsSpace(s[0])
    ensures TrimStart(w + s) == s
  {
    TrimBlank(w, s);
  }

  /** The first character of a value. */
  lemma TextHead(n: Node, k: bytes)
    requires Wf(n)
    ensures TextOn(n, k) != []
    ensures var c := TextOn(n, k)[0]; !IsSpace(c) && c != ']' && c != '}' && c != ',' && c != ':'
  {
  }

  lemma BlankDelimits(w: bytes, k: bytes)
    requires Blank(w) && Delimits(k)
    ensures Delimits(w + k)
  {
    if w != [] { assert (w + k)[0] == w[0]; } else { assert w + k == k; }
  }

  lemma {:induction false} ValueComplete(n: Node, k: bytes)
    requires Wf(n) && Delimits(k)
    ensures Value(TextOn(n, k)) == Done(Compact(n), k)
    decreases n
  {
    var s := TextOn(n, k);
    match n
    case Token(t) =>
      TokenOn(t, k);
      assert s[..|t|] == t && s[|t|..] == k && s[0] == t[0];
    case Arr(blank, e) =>
      if e.Nil? {
        assert s[1..] == blank + ("]" + k);
        TrimTo(blank, "]" + k);
        assert ("]" + k)[1..] == k;
      } else {
        assert s[1..] == ElemsOn(e, ']', k);
        ArrComplete(ArrValueOrEnd, e, k);
      }
    case Obj(blank, e) =>
      if e.Nil? {
        assert s[1..] == blank + ("}" + k);
        TrimTo(blank, "}" + k);
        assert ("}" + k)[1..] == k;
      } else {
        assert s[1..] == ElemsOn(e, '}', k);
        ObjComplete(ObjKeyOrEnd, e, k);
      }
  }

  lemma {:induction false} ArrComplete(f: Frame, e: Elems, k: bytes)
    requires e.Cons? && WfElems(e, false) && (f == ArrValueOrEnd || f == ArrValue)
    ensures Tail(f, ElemsOn(e, ']', k)) == Done(CompactElems(e, "]"), k)
    decreases e
  {
    var m := RestOn(e, ']', k);
    var v := TextOn(e.value, e.post + m);
    BlankDelimits(e.post, m);
    TextHead(e.value, e.post + m);
    TrimTo(e.pre, v);
    ValueComplete(e.value, e.post + m);
    ArrRest(e, k);
  }

  lemma {:induction false} ArrRest(e: Elems, k: bytes)
    requires e.Cons? && WfElems(e, false)
    ensures Tail(ArrCommaOrEnd, e.post + RestOn(e, ']', k))
            == Done(CompactRest(e.rest, "]"), k)
    decreases e, 0
  {
    var m := RestOn(e, ']', k);
    TrimTo(e.post, m);
    if e.rest.Nil? {
      assert m[1..] == k;
    } else {
      assert m[1..] == ElemsOn(e.rest, ']', k);
      ArrComplete(ArrValue, e.rest, k);
    }
  }

  lemma {:induction false} ObjComplete(f: Frame, e: Elems, k: bytes)
    requires e.Cons? && WfElems(e, true) && (f == ObjKeyOrEnd || f == ObjKey)
    ensures Tail(f, ElemsOn(e, '}', k)) == Done(CompactElems(e, "}"), k)
    decreases e
  {
    var m := RestOn(e, '}', k);
    var v := TextOn(e.value, e.post + m);
    var name, before, after := e.tag.name, e.tag.before, e.tag.after;
    var t := name + (before + (":" + (after + v)));
    TrimTo(e.pre, t);
    TokenOn(name, before + (":" + (after + v)));
    assert t[..|name|] == name && t[|name|..] == before + (":" + (after + v));
    BlankDelimits(e.post, m);
    ColonValue(before, after, v, e);
    ValueComplete(e.value, e.post + m);
    ObjRest(e, k);
  }

  /** From the end of a key to the start of its value. */
  lemma ColonValue(before: bytes, after: bytes, v: bytes, e: Elems)
    requires Blank(before) && Blank(after) && e.Cons? && Wf(e.value)
    requires exists k :: v == TextOn(e.value, k)
    ensures v != [] && Tail(ObjColon, before + (":" + (after + v))) == Emit(":", ValueTail(v, ObjCommaOrEnd))
  {
    var k :| v == TextOn(e.value, k);
    TextHead(e.value, k);
    TrimTo(before, ":" + (after + v));
    assert (":" + (after + v))[1..] == after + v;
    TrimTo(after, v);
  }

  lemma {:induction false} ObjRest(e: Elems, k: bytes)
    requires e.Cons? && WfElems(e, true)
    ensures Tail(ObjCommaOrEnd, e.post + RestOn(e, '}', k))
            == Done(CompactRest(e.rest, "}"), k)
    decreases e, 0
  {
    var m := RestOn(e, '}', k);
    TrimTo(e.post, m);
    if e.rest.Nil? {
      assert m[1..] == k;
    } else {
      assert m[1..] == ElemsOn(e.rest, '}', k);
      ObjComplete(ObjKey, e.rest, k);
    }
  }

  // ---- Soundness: whatever the grammar accepts is the text of a tree ---------

  /** The whitespace `TrimStart` removed. */
  function Lead(s: bytes): bytes {
    s[..|s| - |TrimStart(s)|]
  }

  lemma {:induction false} LeadTrim(s: bytes)
    ensures s == Lead(s) + TrimStart(s) && Blank(Lead(s))
    decreases |s|
  {
    if s != [] && IsSpace(s[0]) {
      LeadTrim(s[1..]);
      assert Lead(s) == [s[0]] + Lead(s[1..]);
    }
  }

  lemma TokenExact(s: bytes)
    requires TokenLen(s).Some?
    ensures IsToken(s[..TokenLen(s).value])
  {
    hide StringBody, Unsigned;
    var n := TokenLen(s).value;
    var t := s[..n];
    if s[0] == '"' {
      assert t[1..] == s[1..][..n - 1];
      StringBodyExact(s[1..]);
    } else if s[0] == '-' {
      assert t[1..] == s[1..][..n - 1];
      UnsignedExact(s[1..]);
    } else if IsDigit(s[0]) {
      UnsignedExact(s);
    } else {
      assert t[..n] == s[..n];
    }
  }

  lemma {:induction false} StringBodyExact(s: bytes)
    requires StringBody(s).Some?
    ensures StringBody(s[..StringBody(s).value]) == StringBody(s)
    decreases |s|
  {
    var n := StringBody(s).value;
    var t := s[..n];
    if s[0] != '"' {
      BodyUnitPlain(s);
      var u := Unit(s);
      StringBodyExact(s[u..]);
      assert t[u..] == s[u..][..n - u];
    }
  }

  lemma {:induction false} DigitsExact(s: bytes, n: nat)
    requires Digits(s) <= n <= |s|
    ensures Digits(s[..n]) == Digits(s)
    decreases |s|
  {
    if s != [] && IsDigit(s[0]) {
      assert s[..n][1..] == s[1..][..n - 1];
      DigitsExact(s[1..], n - 1);
    }
  }

  lemma UnsignedExact(s: bytes)
    requires Unsigned(s).Some?
    ensures Unsigned(s[..Unsigned(s).value]) == Unsigned(s)
  {
    var n, d := Unsigned(s).value, Digits(s);
    DigitsExact(s, n);
    assert s[..n][d..] == s[d..][..n - d];
    FractionExponentExact(s[d..]);
  }

  lemma FractionExponentExact(s: bytes)
    requires FractionExponent(s).Some?
    ensures FractionExponent(s[..FractionExponent(s).value]) == FractionExponent(s)
  {
    var n, f := FractionExponent(s).value, Fraction(s).value;
    var t := s[..n];
    if f > 0 {
      assert t[1..] == s[1..][..n - 1];
      DigitsExact(s[1..], n - 1);
    }
    assert Fraction(t) == Fraction(s);
    assert t[f..] == s[f..][..n - f];
    ExponentExact(s[f..]);
  }

  lemma ExponentExact(s: bytes)
    requires Exponent(s).Some?
    ensures Exponent(s[..Exponent(s).value]) == Exponent(s)
  {
    var n := Exponent(s).value;
    if n > 0 {
      var c := 1 + Sign(s[1..]);
      assert s[..n][1..] == s[1..][..n - 1];
      assert s[..n][c..] == s[c..][..n - c];
      DigitsExact(s[c..], n - c);
    }
  }

  lemma {:induction false} ValueSound(s: bytes) returns (n: Node)
    requires Value(s).Done?
    ensures Wf(n) && s == TextOn(n, Value(s).rest) && Value(s).out == Compact(n)
    decreases |s|, 0
  {
    if s[0] == '{' || s[0] == '[' {
      var blank, e := TailSound(Opening(s[0]), s[1..]);
      n := if s[0] == '{' then Obj(blank, e) else Arr(blank, e);
      assert s == [s[0]] + s[1..];
    } else {
      TokenExact(s);
      var k := TokenLen(s).value;
      assert s == s[..k] + s[k..];
      n := Token(s[..k]);
    }
  }

  predicate Starts(f: Frame) {
    f == ObjKeyOrEnd || f == ObjKey || f == ArrValueOrEnd || f == ArrValue
  }

  predicate InObject(f: Frame) {
    f == ObjKeyOrEnd || f == ObjKey
  }

  function Closer(f: Frame): char {
    if InObject(f) then '}' else ']'
  }

  lemma {:induction false} TailSound(f: Frame, s: bytes) returns (blank: bytes, e: Elems)
    requires Starts(f) && Tail(f, s).Done?
    ensures Blank(blank) && WfElems(e, InObject(f))
    ensures e.Nil? ==> (f == ObjKeyOrEnd || f == ArrValueOrEnd) && s == blank + ([Closer(f)] + Tail(f, s).rest)
    ensures e.Cons? ==> s == ElemsOn(e, Closer(f), Tail(f, s).rest)
    ensures Tail(f, s).out == CompactElems(e, [Closer(f)])
    decreases |s|, 2
  {
    LeadTrim(s);
    var t := TrimStart(s);
    if (f == ObjKeyOrEnd || f == ArrValueOrEnd) && t[0] == Closer(f) {
      assert t == [Closer(f)] + t[1..];
      return Lead(s), Nil;
    }
    if InObject(f) {
      e := MemberSound(Lead(s), t);
    } else {
      e := ElemSound(ArrCommaOrEnd, t, Lead(s), NoLabel);
    }
    blank := [];
  }

  /** A key, its colon, its value and everything after them up to the closing brace. */
  lemma {:induction false} MemberSound(pre: bytes, t: bytes) returns (e: Elems)
    requires Blank(pre) && t != [] && KeyTail(t).Done?
    ensures e.Cons? && WfElems(e, true) && pre + t == ElemsOn(e, '}', KeyTail(t).rest)
    ensures KeyTail(t).out == CompactElems(e, "}")
    decreases |t|, 1
  {
    var name, before, after, v := KeySound(t);
    e := ElemSound(ObjCommaOrEnd, v, pre, Label.Key(name, before, after));
  }

  lemma KeySound(t: bytes) returns (name: bytes, before: bytes, after: bytes, v: bytes)
    requires t != [] && KeyTail(t).Done?
    ensures IsString(name) && Blank(before) && Blank(after) && v != [] && |v| < |t|
    ensures t == name + (before + (":" + (after + v)))
    ensures KeyTail(t) == Emit(Html(name), Emit(":", ValueTail(v, ObjCommaOrEnd)))
  {
    var n := TokenLen(t).value;
    TokenExact(t);
    name := t[..n];
    before, after, v := ColonSound(t[n..]);
    assert t == name + t[n..];
  }

  lemma ColonSound(a: bytes) returns (before: bytes, after: bytes, v: bytes)
    requires Tail(ObjColon, a).Done?
    ensures Blank(before) && Blank(after) && v != [] && |v| <= |a| && a == before + (":" + (after + v))
    ensures Tail(ObjColon, a) == Emit(":", ValueTail(v, ObjCommaOrEnd))
  {
    LeadTrim(a);
    before := Lead(a);
    var c := TrimStart(a)[1..];
    assert TrimStart(a) == ":" + c;
    LeadTrim(c);
    after, v := Lead(c), TrimStart(c);
  }

  function Follow(next: Frame): Frame {
    if next == ObjCommaOrEnd then ObjKey else ArrValue
  }

  /** A value and everything after it up to the closing bracket. */
  lemma {:induction false} ElemSound(next: Frame, t: bytes, pre: bytes, tag: Label) returns (e: Elems)
    requires (next == ObjCommaOrEnd || next == ArrCommaOrEnd) && t != [] && ValueTail(t, next).Done?
    requires Blank(pre) && WfLabel(tag, next == ObjCommaOrEnd)
    ensures e.Cons? && e.pre == pre && e.tag == tag && WfElems(e, next == ObjCommaOrEnd)
    ensures t == TextOn(e.value, e.post + RestOn(e, Closer(Follow(next)), ValueTail(t, next).rest))
    ensures ValueTail(t, next).out == Compact(e.value) + CompactRest(e.rest, [Closer(Follow(next))])
    decreases |t|, 1
  {
    var value := ValueSound(t);
    var a := Value(t).rest;
    LeadTrim(a);
    var m := TrimStart(a);
    assert m == [m[0]] + m[1..];
    var rest := Nil;
    if m[0] == ',' {
      var blank;
      blank, rest := TailSound(Follow(next), m[1..]);
    }
    e := Cons(pre, tag, value, Lead(a), rest);
  }

  // ---- The theorem -----------------------------------------------------------

  lemma DocumentComplete(src: bytes, lead: bytes, n: Node, trail: bytes)
    requires IsDocument(src, lead, n, trail)
    ensures Compacted(src) == Some(Compact(n))
  {
    TextHead(n, trail);
    TrimTo(lead, TextOn(n, trail));
    assert Delimits(trail);
    ValueComplete(n, trail);
    TrimBlank(trail, []);
    assert trail + [] == trail;
  }

  lemma DocumentSound(src: bytes) returns (lead: bytes, n: Node, trail: bytes)
    requires Compacted(src).Some?
    ensures IsDocument(src, lead, n, trail) && Compacted(src) == Some(Compact(n))
  {
    LeadTrim(src);
    lead := Lead(src);
    n := ValueSound(TrimStart(src));
    trail := Value(TrimStart(src)).rest;
    LeadTrim(trail);
    assert Lead(trail) == trail;
  }

  /** A byte string compacts to `out` exactly when it is the text of a tree whose compaction is `out`. */
  lemma CompactedIffDocument(src: bytes, out: bytes)
    ensures Compacted(src) == Some(out)
            <==> exists lead, n, trail :: IsDocument(src, lead, n, trail) && out == Compact(n)
  {
    if Compacted(src) == Some(out) {
      var lead, n, trail := DocumentSound(src);
      assert IsDocument(src, lead, n, trail) && out == Compact(n);
    }
    if exists lead, n, trail :: IsDocument(src, lead, n, trail) && out == Compact(n) {
      var lead, n, trail :| IsDocument(src, lead, n, trail) && out == Compact(n);
      DocumentComplete(src, lead, n, trail);
    }
  }
}
