/**
 The normal form of compaction: trees without whitespace whose tokens need no HTML
 escaping. Compaction lands in it, fixes it, and its text holds no raw HTML character.
 */
module JsonNormal {
  import opened Common
  import opened JsonGrammar
  import opened JsonScanner
  import opened JsonTree

  /** The tree compaction prints. */
  function Strip(n: Node): Node {
    match n
    case Token(t) => Token(Html(t))
    case Arr(_, e) => Arr([], StripElems(e))
    case Obj(_, e) => Obj([], StripElems(e))
  }

  function StripElems(e: Elems): Elems {
    match e
    case Nil => Nil
    case Cons(_, tag, value, _, rest) => Cons([], StripTag(tag), Strip(value), [], StripElems(rest))
  }

  function StripTag(tag: Label): Label {
    match tag
    case NoLabel => NoLabel
    case Key(name, _, _) => Label.Key(Html(name), [], [])
  }

  predicate Normal(n: Node) {
    Wf(n) && Strip(n) == n
  }

  // ---- The text of the stripped tree is the compaction ----------------------

  lemma {:induction false} StripText(n: Node, k: bytes)
    ensures TextOn(Strip(n), k) == Compact(n) + k
    decreases n
  {
    match n
    case Token(t) =>
    case Arr(_, e) => StripInnerText(e, "[", ']', k);
    case Obj(_, e) => StripInnerText(e, "{", '}', k);
  }

  lemma {:induction false} StripInnerText(e: Elems, open: bytes, close: char, k: bytes)
    ensures open + (if StripElems(e).Nil? then [] + ([close] + k) else ElemsOn(StripElems(e), close, k))
            == open + CompactElems(e, [close]) + k
    decreases e, 1
  {
    if e.Cons? { StripElemsText(e, close, k); }
    assert [] + ([close] + k) == [close] + k;
    assert open + (CompactElems(e, [close]) + k) == open + CompactElems(e, [close]) + k;
  }

  lemma {:induction false} StripElemsText(e: Elems, close: char, k: bytes)
    requires e.Cons?
    ensures ElemsOn(StripElems(e), close, k) == CompactElems(e, [close]) + k
    decreases e, 0
  {
    var s := StripElems(e);
    var m := RestOn(s, close, k);
    var c := CompactRest(e.rest, [close]);
    if e.rest.Cons? {
      StripElemsText(e.rest, close, k);
      Assoc(",", CompactElems(e.rest, [close]), k);
    }
    assert s.rest == StripElems(e.rest);
    assert m == c + k;
    StripText(e.value, m);
    StripElemsHead(e, close, k);
    StripTagText(e.tag, Compact(e.value) + m);
    Assoc(Compact(e.value), c, k);
    CompactLabelOn(e.tag, Compact(e.value) + c, k);
  }

  lemma StripElemsHead(e: Elems, close: char, k: bytes)
    requires e.Cons?
    ensures ElemsOn(StripElems(e), close, k)
            == LabelOn(StripTag(e.tag), TextOn(Strip(e.value), RestOn(StripElems(e), close, k)))
  {
    var m := RestOn(StripElems(e), close, k);
    assert [] + m == m;
    var x := LabelOn(StripTag(e.tag), TextOn(Strip(e.value), m));
    assert [] + x == x;
  }

  lemma StripTagText(tag: Label, x: bytes)
    ensures LabelOn(StripTag(tag), x) == CompactLabel(tag, x)
  {
    assert [] + x == x && [] + (":" + x) == ":" + x;
  }

  lemma CompactLabelOn(tag: Label, x: bytes, k: bytes)
    ensures CompactLabel(tag, x + k) == CompactLabel(tag, x) + k
  {
    if tag.Key? { assert Html(tag.name) + (":" + (x + k)) == Html(tag.name) + (":" + x) + k; }
  }

  // ---- The stripped tree is well formed -------------------------------------

  lemma {:induction false} HtmlBody(s: bytes)
    requires StringBody(s).Some?
    ensures var h := Html(s[..StringBody(s).value]); StringBody(h) == Some(|h|)
    decreases |s|
  {
    var n := StringBody(s).value;
    if s[0] == '"' {
      assert s[..1] == ['"'] && ['"'][1..] == [];
    } else {
      BodyUnit(s);
      var k := UnitLen(s).value;
      HtmlUnit(s, n);
      HtmlBody(s[k..]);
      assert s[k..n] == s[k..][..n - k];
      UnitBody(s, Html(s[k..n]));
    }
  }

  lemma UnitBody(s: bytes, x: bytes)
    requires s != [] && s[0] != '"' && UnitLen(s).Some?
    ensures StringBody(UnitOut(s) + x) == More(|UnitOut(s)|, StringBody(x))
  {
    var u := UnitOut(s);
    assert (u + x)[|u|..] == x;
    assert forall i :: 0 <= i < |u| ==> (u + x)[i] == u[i];
  }

  lemma HtmlToken(t: bytes)
    requires IsToken(t)
    ensures IsToken(Html(t)) && Html(t) != [] && Html(t)[0] == t[0]
  {
    if t[0] == '"' {
      HtmlBody(t[1..]);
      assert t[1..][..|t| - 1] == t[1..];
      assert Html(t)[1..] == Html(t[1..]);
    } else {
      TokenPlain(t);
      HtmlPlain(t, []);
      assert t + [] == t;
    }
  }

  lemma {:induction false} StripWf(n: Node)
    requires Wf(n)
    ensures Wf(Strip(n))
    decreases n
  {
    match n
    case Token(t) => HtmlToken(t);
    case Arr(_, e) => StripElemsWf(e, false);
    case Obj(_, e) => StripElemsWf(e, true);
  }

  lemma {:induction false} StripElemsWf(e: Elems, labelled: bool)
    requires WfElems(e, labelled)
    ensures WfElems(StripElems(e), labelled)
    decreases e
  {
    if e.Cons? {
      if e.tag.Key? { HtmlToken(e.tag.name); }
      StripWf(e.value);
      StripElemsWf(e.rest, labelled);
    }
  }

  // ---- No raw HTML characters ------------------------------------------------

  predicate LineSepAt(s: bytes, i: nat)
    requires i < |s|
  {
    i + 2 < |s| && s[i] == '\U{E2}' && s[i + 1] == '\U{80}' && (s[i + 2] == '\U{A8}' || s[i + 2] == '\U{A9}')
  }

  /** No `<`, `>`, `&`, U+2028 or U+2029 anywhere. */
  predicate NoRawHtml(s: bytes) {
    forall i :: 0 <= i < |s| ==> s[i] != '<' && s[i] != '>' && s[i] != '&' && !LineSepAt(s, i)
  }

  /** A head of `Html` output that is no escape comes from the same input character. */
  lemma HtmlHead(s: bytes)
    requires s != []
    ensures Html(s) != []
    ensures Html(s)[0] != '\\' ==> Html(s)[0] == s[0] && Html(s)[1..] == Html(s[1..])
  {
  }

  lemma CleanPlain(u: bytes, x: bytes)
    requires NoRawHtml(x) && forall i :: 0 <= i < |u| ==> PlainAscii(u[i])
    ensures NoRawHtml(u + x)
  {
    var s := u + x;
    forall i | 0 <= i < |s| ensures s[i] != '<' && s[i] != '>' && s[i] != '&' && !LineSepAt(s, i) {
      if i < |u| { assert s[i] == u[i]; } else { assert x[i - |u|] != '<' && !LineSepAt(x, i - |u|); }
    }
  }

  lemma CleanChar(c: char, x: bytes)
    requires NoRawHtml(x) && c != '<' && c != '>' && c != '&' && !LineSepAt([c] + x, 0)
    ensures NoRawHtml([c] + x)
  {
    var s := [c] + x;
    forall i | 0 <= i < |s| ensures s[i] != '<' && s[i] != '>' && s[i] != '&' && !LineSepAt(s, i) {
      if i > 0 { assert x[i - 1] != '<' && !LineSepAt(x, i - 1); }
    }
  }

  /** A line separator in the output would have been one in the input. */
  lemma HtmlNoLineSep(s: bytes)
    requires s != [] && !IsLineSep(s) && s[0] == '\U{E2}'
    ensures !LineSepAt([s[0]] + Html(s[1..]), 0)
  {
    var x := Html(s[1..]);
    if |x| >= 2 && x[0] == '\U{80}' && (x[1] == '\U{A8}' || x[1] == '\U{A9}') {
      HtmlHead(s[1..]);
      assert s[1..][1..] == s[2..] && s[2..] != [];
      HtmlHead(s[2..]);
    }
  }

  lemma {:induction false} HtmlClean(s: bytes)
    ensures NoRawHtml(Html(s))
    decreases |s|
  {
    if s == [] {
    } else if IsLineSep(s) {
      HtmlClean(s[3..]);
      CleanPlain(LineSepEscape(s[2]), Html(s[3..]));
    } else {
      HtmlClean(s[1..]);
      var x := Html(s[1..]);
      if s[0] == '<' { CleanPlain("\\u003c", x); }
      else if s[0] == '>' { CleanPlain("\\u003e", x); }
      else if s[0] == '&' { CleanPlain("\\u0026", x); }
      else {
        if s[0] == '\U{E2}' { HtmlNoLineSep(s); }
        CleanChar(s[0], x);
      }
    }
  }

  lemma {:induction false} HtmlFixed(s: bytes)
    requires NoRawHtml(s)
    ensures Html(s) == s
    decreases |s|
  {
    if s != [] {
      assert !LineSepAt(s, 0);
      assert forall i :: 0 <= i < |s| - 1 ==> s[1..][i] == s[i + 1] && LineSepAt(s[1..], i) == LineSepAt(s, i + 1);
      HtmlFixed(s[1..]);
    }
  }

  lemma CleanJoin(a: bytes, b: bytes)
    requires NoRawHtml(a) && NoRawHtml(b) && (b == [] || b[0] < '\U{80}')
    ensures NoRawHtml(a + b)
  {
    var s := a + b;
    forall i | 0 <= i < |s|
      ensures s[i] != '<' && s[i] != '>' && s[i] != '&' && !LineSepAt(s, i)
    {
      if i < |a| {
        assert a[i] != '<' && !LineSepAt(a, i);
      } else {
        assert b[i - |a|] != '<' && !LineSepAt(b, i - |a|);
      }
    }
  }

  lemma TokenHead(t: bytes)
    requires IsToken(t)
    ensures t[0] < '\U{80}'
  {
  }

  lemma {:induction false} CompactClean(n: Node)
    requires Wf(n)
    ensures NoRawHtml(Compact(n)) && Compact(n) != [] && Compact(n)[0] < '\U{80}'
    decreases n
  {
    match n
    case Token(t) =>
      HtmlClean(t);
      HtmlToken(t);
      TokenHead(t);
    case Arr(_, e) =>
      CompactElemsClean(e, ']', false);
      CleanJoin("[", CompactElems(e, "]"));
    case Obj(_, e) =>
      CompactElemsClean(e, '}', true);
      CleanJoin("{", CompactElems(e, "}"));
  }

  lemma {:induction false} CompactElemsClean(e: Elems, close: char, labelled: bool)
    requires WfElems(e, labelled) && (close == ']' || close == '}')
    ensures var c := CompactElems(e, [close]); NoRawHtml(c) && c != [] && c[0] < '\U{80}'
    decreases e
  {
    if e.Cons? {
      var m := CompactRest(e.rest, [close]);
      if e.rest.Cons? {
        CompactElemsClean(e.rest, close, labelled);
        CleanJoin(",", CompactElems(e.rest, [close]));
      }
      CompactClean(e.value);
      CleanJoin(Compact(e.value), m);
      if e.tag.Key? {
        var name := e.tag.name;
        HtmlClean(name);
        HtmlToken(name);
        TokenHead(name);
        CleanJoin(":", Compact(e.value) + m);
        CleanJoin(Html(name), ":" + (Compact(e.value) + m));
      }
    }
  }

  // ---- Strip is a projection; compaction is idempotent -----------------------

  lemma {:induction false} StripStrip(n: Node)
    ensures Strip(Strip(n)) == Strip(n)
    decreases n
  {
    match n
    case Token(t) =>
      HtmlClean(t);
      HtmlFixed(Html(t));
    case Arr(_, e) => StripStripElems(e);
    case Obj(_, e) => StripStripElems(e);
  }

  lemma {:induction false} StripStripElems(e: Elems)
    ensures StripElems(StripElems(e)) == StripElems(e)
    decreases e
  {
    if e.Cons? {
      if e.tag.Key? {
        HtmlClean(e.tag.name);
        HtmlFixed(Html(e.tag.name));
      }
      StripStrip(e.value);
      StripStripElems(e.rest);
    }
  }

  lemma StripNormal(n: Node)
    requires Wf(n)
    ensures Normal(Strip(n)) && Text(Strip(n)) == Compact(n)
  {
    StripWf(n);
    StripStrip(n);
    StripText(n, []);
    assert Compact(n) + [] == Compact(n);
  }

  lemma CompactedText(n: Node)
    requires Wf(n)
    ensures Compacted(Text(n)) == Some(Compact(n))
  {
    assert [] + Text(n) == Text(n);
    DocumentComplete(Text(n), [], n, []);
  }

  /** The text of a normal tree is valid, free of raw HTML characters and a fixed point of compaction. */
  lemma NormalText(n: Node)
    requires Normal(n)
    ensures Compacted(Text(n)) == Some(Text(n))
    ensures NoRawHtml(Text(n))
  {
    StripNormal(n);
    CompactedText(n);
    CompactClean(n);
  }

  lemma CompactionIdempotent(src: bytes)
    requires Compacted(src).Some?
    ensures Compacted(Compacted(src).value) == Compacted(src)
    ensures NoRawHtml(Compacted(src).value)
  {
    var lead, n, trail := DocumentSound(src);
    StripNormal(n);
    NormalText(Strip(n));
  }
}
