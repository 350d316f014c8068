/**
 The value tree of gojson.rs and its compact printer, proved to print the normal-form
 document of the tree it is given.
 */
module JsonValue {
  import opened Common
  import opened Decimal
  import opened JsonGrammar
  import opened JsonScanner
  import opened JsonTree
  import opened JsonNormal
  import opened JsonEscape

  datatype JVal =
    | Null
    | Bool(b: bool)
    | Int(v: int)
    /** The formatted text of a float; `None` stands for NaN and the infinities. */
    | Float(text: Option<bytes>)
    | Str(s: bytes)
    | List(items: seq<JVal>)
    /** Members in key order, as the ordered map iterates them. */
    | Map(members: seq<Entry>)
    /** Verbatim JSON bytes. */
    | Raw(raw: bytes)

  datatype Entry = Entry(key: bytes, value: JVal)

  /** Float texts follow the number grammar. */
  predicate FloatsWf(v: JVal) {
    match v
    case Float(t) => t.Some? ==> IsToken(t.value) && (t.value[0] == '-' || IsDigit(t.value[0]))
    case List(items) => forall i :: 0 <= i < |items| ==> FloatsWf(items[i])
    case Map(members) => forall i :: 0 <= i < |members| ==> FloatsWf(members[i].value)
    case _ => true
  }

  /** The normal tree of a raw payload, when it is JSON. */
  ghost function RawTree(raw: bytes): (r: Option<Node>)
    ensures r.Some? == Compacted(raw).Some?
    ensures r.Some? ==> Normal(r.value) && Text(r.value) == Compacted(raw).value
  {
    if exists lead, n, trail :: IsDocument(raw, lead, n, trail) then
      var lead, n, trail :| IsDocument(raw, lead, n, trail);
      DocumentComplete(raw, lead, n, trail);
      StripNormal(n);
      Some(Strip(n))
    else
      assert Compacted(raw).Some? ==> exists out :: Compacted(raw) == Some(out);
      assert Compacted(raw).None? by {
        if Compacted(raw).Some? { var lead, n, trail := DocumentSound(raw); }
      }
      None
  }

  /** The document `v` stands for; `None` when printing it is an error. */
  ghost function Tree(v: JVal): Option<Node>
    decreases v, 1, 0
  {
    match v
    case Null => Some(Token("null"))
    case Bool(b) => Some(Token(if b then "true" else "false"))
    case Int(n) => Some(Token(IntText(n)))
    case Float(t) => if t.None? then None else Some(Token(t.value))
    case Str(s) => Some(Token(Escaped(s)))
    case List(items) => Wrap(false, ItemTrees(v, 0))
    case Map(members) => Wrap(true, MemberTrees(v, 0))
    case Raw(raw) => RawTree(raw)
  }

  function Wrap(isMap: bool, e: Option<Elems>): Option<Node> {
    match e
    case None => None
    case Some(elems) => Some(if isMap then Obj([], elems) else Arr([], elems))
  }

  function ConsElem(tag: Label, value: Option<Node>, rest: Option<Elems>): Option<Elems> {
    if value.None? || rest.None? then None else Some(Cons([], tag, value.value, [], rest.value))
  }

  ghost function ItemTrees(v: JVal, i: nat): Option<Elems>
    requires v.List? && i <= |v.items|
    decreases v, 0, |v.items| - i
  {
    if i == |v.items| then Some(Nil)
    else ConsElem(NoLabel, Tree(v.items[i]), ItemTrees(v, i + 1))
  }

  ghost function MemberTrees(v: JVal, i: nat): Option<Elems>
    requires v.Map? && i <= |v.members|
    decreases v, 0, |v.members| - i
  {
    if i == |v.members| then Some(Nil)
    else ConsElem(Label.Key(Escaped(v.members[i].key), [], []), Tree(v.members[i].value), MemberTrees(v, i + 1))
  }

  // ---- Every printed tree is in normal form ----------------------------------

  lemma PlainToken(t: bytes)
    requires IsToken(t) && t[0] != '"'
    ensures Normal(Token(t))
  {
    TokenPlain(t);
    HtmlPlain(t, []);
    assert t + [] == t;
  }

  lemma {:induction false} AllDigits(t: bytes)
    requires forall i :: 0 <= i < |t| ==> IsDigit(t[i])
    ensures Digits(t) == |t|
    decreases |t|
  {
    if t != [] { AllDigits(t[1..]); }
  }

  lemma IntToken(n: int)
    ensures IsToken(IntText(n)) && IntText(n)[0] != '"'
  {
    var m := if n < 0 then -n else n;
    var t := NatText(m);
    NatTextDigits(m);
    AllDigits(t);
    assert t[|t|..] == [];
    assert Unsigned(t) == Some(|t|);
    if n < 0 { assert ("-" + t)[1..] == t; }
  }

  lemma {:induction false} TreeNormal(v: JVal)
    requires FloatsWf(v) && Tree(v).Some?
    ensures Normal(Tree(v).value)
    decreases v, 1, 0
  {
    match v
    case Null => assert "null"[..4] == "null"; PlainToken("null");
    case Bool(b) =>
      assert "true"[..4] == "true" && "false"[..5] == "false";
      PlainToken(if b then "true" else "false");
    case Int(n) => IntToken(n); PlainToken(IntText(n));
    case Float(t) => PlainToken(t.value);
    case Str(s) => EscapedNormal(s);
    case List(items) => ItemsNormal(v, 0);
    case Map(members) => MembersNormal(v, 0);
    case Raw(raw) =>
  }

  lemma {:induction false} ItemsNormal(v: JVal, i: nat)
    requires v.List? && i <= |v.items| && FloatsWf(v) && ItemTrees(v, i).Some?
    ensures var e := ItemTrees(v, i).value; WfElems(e, false) && StripElems(e) == e
    decreases v, 0, |v.items| - i
  {
    if i < |v.items| {
      TreeNormal(v.items[i]);
      ItemsNormal(v, i + 1);
    }
  }

  lemma {:induction false} MembersNormal(v: JVal, i: nat)
    requires v.Map? && i <= |v.members| && FloatsWf(v) && MemberTrees(v, i).Some?
    ensures var e := MemberTrees(v, i).value; WfElems(e, true) && StripElems(e) == e
    decreases v, 0, |v.members| - i
  {
    if i < |v.members| {
      EscapedNormal(v.members[i].key);
      TreeNormal(v.members[i].value);
      MembersNormal(v, i + 1);
    }
  }

  /** Printer output is valid JSON, free of raw HTML characters, and a fixed point of compaction. */
  lemma MarshalNormalForm(v: JVal)
    requires FloatsWf(v) && Tree(v).Some?
    ensures Compacted(Text(Tree(v).value)) == Some(Text(Tree(v).value))
    ensures NoRawHtml(Text(Tree(v).value))
  {
    TreeNormal(v);
    NormalText(Tree(v).value);
  }

  // ---- The printer ------------------------------------------------------------

  lemma {:induction false} TextAppend(n: Node, k: bytes)
    ensures TextOn(n, k) == Text(n) + k
    decreases n
  {
    match n
    case Token(t) => assert t + [] == t;
    case Arr(blank, e) =>
      if e.Cons? { ElemsAppend(e, ']', k); } else { assert blank + ("]" + k) == blank + ("]" + []) + k; }
    case Obj(blank, e) =>
      if e.Cons? { ElemsAppend(e, '}', k); } else { assert blank + ("}" + k) == blank + ("}" + []) + k; }
  }

  lemma {:induction false} ElemsAppend(e: Elems, close: char, k: bytes)
    requires e.Cons?
    ensures ElemsOn(e, close, k) == ElemsOn(e, close, []) + k
    decreases e
  {
    var m, m0 := RestOn(e, close, k), RestOn(e, close, []);
    if e.rest.Cons? { ElemsAppend(e.rest, close, k); }
    assert m == m0 + k;
    TextAppend(e.value, e.post + m);
    TextAppend(e.value, e.post + m0);
    assert Text(e.value) + (e.post + m) == Text(e.value) + (e.post + m0) + k;
    LabelAppend(e.tag, TextOn(e.value, e.post + m0), k);
  }

  lemma LabelAppend(tag: Label, x: bytes, k: bytes)
    ensures LabelOn(tag, x + k) == LabelOn(tag, x) + k
  {
    if tag.Key? {
      assert tag.after + (x + k) == tag.after + x + k;
      assert tag.before + (":" + (tag.after + x + k)) == tag.before + (":" + (tag.after + x)) + k;
    }
  }

  /** The printed form of `v`. */
  ghost function Marshalled(v: JVal): Option<bytes> {
    match Tree(v)
    case None => None
    case Some(n) => Some(Text(n))
  }

  function Comma(i: nat): bytes {
    if i > 0 then "," else ""
  }

  /** What the element loop owes after `i` elements: separators, elements and the closing bracket. */
  ghost function Owed(i: nat, rest: Option<Elems>, close: char): Option<bytes> {
    match rest
    case None => None
    case Some(e) => Some(if e.Nil? then [close] else Comma(i) + ElemsOn(e, close, []))
  }

  lemma OwedStep(out: bytes, i: nat, tag: Label, value: Node, rest: Option<Elems>, close: char)
    ensures Prefix(out, Owed(i, ConsElem(tag, Some(value), rest), close))
            == Prefix(out + Comma(i) + LabelOn(tag, Text(value)), Owed(i + 1, rest, close))
  {
    if rest.Some? {
      var e := Cons([], tag, value, [], rest.value);
      OwedText(e, i, close);
      PrefixAssoc(out, Comma(i) + LabelOn(tag, Text(value)), Owed(i + 1, rest, close));
      PrefixAssoc(Comma(i), LabelOn(tag, Text(value)), Owed(i + 1, rest, close));
      assert out + (Comma(i) + LabelOn(tag, Text(value))) == out + Comma(i) + LabelOn(tag, Text(value));
    }
  }

  lemma OwedText(e: Elems, i: nat, close: char)
    requires e.Cons? && e.pre == [] && e.post == []
    ensures ElemsOn(e, close, []) == LabelOn(e.tag, Text(e.value)) + Owed(i + 1, Some(e.rest), close).value
  {
    var m := RestOn(e, close, []);
    assert [close] + [] == [close];
    assert Owed(i + 1, Some(e.rest), close) == Some(m);
    assert [] + m == m;
    TextAppend(e.value, m);
    LabelAppend(e.tag, Text(e.value), m);
    var x := LabelOn(e.tag, TextOn(e.value, m));
    assert [] + x == x;
  }

  method MarshalInto(out: Buffer, v: JVal) returns (ok: bool)
    modifies out
    ensures ok == Marshalled(v).Some?
    ensures old(out.data) <= out.data
    ensures ok ==> out.data == old(out.data) + Marshalled(v).value
    decreases v, 1
  {
    match v
    case Null => out.Extend("null"); ok := true; AppendNil("null");
    case Bool(b) =>
      out.Extend(if b then "true" else "false");
      AppendNil(if b then "true" else "false");
      ok := true;
    case Int(n) => out.Extend(IntText(n)); AppendNil(IntText(n)); ok := true;
    case Float(t) =>
      if t.None? { return false; }
      out.Extend(t.value);
      AppendNil(t.value);
      ok := true;
    case Str(s) =>
      EscapeBytes(out, s);
      AppendNil(Escaped(s));
      ok := true;
    case List(items) => ok := MarshalItems(out, v);
    case Map(members) => ok := MarshalMembers(out, v);
    case Raw(raw) => ok := CompactEscapeInto(out, raw);
  }

  lemma AppendNil(t: bytes)
    ensures Text(Token(t)) == t
  {
    assert t + [] == t;
  }

  method MarshalItems(out: Buffer, v: JVal) returns (ok: bool)
    requires v.List?
    modifies out
    ensures ok == Marshalled(v).Some?
    ensures old(out.data) <= out.data
    ensures ok ==> out.data == old(out.data) + Marshalled(v).value
    decreases v, 0
  {
    ghost var goal := Prefix(old(out.data), Marshalled(v));
    out.Push('[');
    OwedAll(old(out.data), v);
    for i := 0 to |v.items|
      invariant old(out.data) <= out.data
      invariant goal == Prefix(out.data, Owed(i, ItemTrees(v, i), ']'))
    {
      if Tree(v.items[i]).Some? {
        OwedStep(out.data, i, NoLabel, Tree(v.items[i]).value, ItemTrees(v, i + 1), ']');
      }
      assert out.data + "" == out.data;
      if i > 0 { out.Push(','); }
      var k := MarshalInto(out, v.items[i]);
      if !k { return false; }
    }
    out.Push(']');
    return true;
  }

  method MarshalMembers(out: Buffer, v: JVal) returns (ok: bool)
    requires v.Map?
    modifies out
    ensures ok == Marshalled(v).Some?
    ensures old(out.data) <= out.data
    ensures ok ==> out.data == old(out.data) + Marshalled(v).value
    decreases v, 0
  {
    ghost var goal := Prefix(old(out.data), Marshalled(v));
    out.Push('{');
    OwedAll(old(out.data), v);
    for i := 0 to |v.members|
      invariant old(out.data) <= out.data
      invariant goal == Prefix(out.data, Owed(i, MemberTrees(v, i), '}'))
    {
      ghost var was := out.data;
      ghost var tag := Label.Key(Escaped(v.members[i].key), [], []);
      if Tree(v.members[i].value).Some? {
        OwedStep(out.data, i, tag, Tree(v.members[i].value).value, MemberTrees(v, i + 1), '}');
      }
      assert out.data + "" == out.data;
      if i > 0 { out.Push(','); }
      EscapeBytes(out, v.members[i].key);
      out.Push(':');
      var k := MarshalInto(out, v.members[i].value);
      if !k { return false; }
      KeyText(was + Comma(i), Escaped(v.members[i].key), Text(Tree(v.members[i].value).value));
    }
    out.Push('}');
    return true;
  }

  lemma KeyText(p: bytes, name: bytes, x: bytes)
    ensures p + LabelOn(Label.Key(name, [], []), x) == p + name + ":" + x
  {
    assert [] + x == x && [] + (":" + x) == ":" + x;
    assert p + (name + (":" + x)) == p + name + ":" + x;
  }

  lemma OwedAll(out: bytes, v: JVal)
    requires v.List? || v.Map?
    ensures v.List? ==> Prefix(out, Marshalled(v)) == Prefix(out + "[", Owed(0, ItemTrees(v, 0), ']'))
    ensures v.Map? ==> Prefix(out, Marshalled(v)) == Prefix(out + "{", Owed(0, MemberTrees(v, 0), '}'))
  {
    var e := if v.List? then ItemTrees(v, 0) else MemberTrees(v, 0);
    var c, o := if v.List? then ']' else '}', if v.List? then "[" else "{";
    if e.Some? {
      var x := if e.value.Nil? then [c] else ElemsOn(e.value, c, []);
      assert "" + ([c] + []) == [c] && "" + x == x;
      assert out + (o + x) == out + o + x;
    }
  }
}
