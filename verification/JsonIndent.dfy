/**
 The two indenters of gojson.rs: the streaming re-indenter `indent_bytes`, a character
 machine over compact text, and the recursive printer `marshal_indent_into`. Both produce
 the text of one laid-out tree.
 */
module JsonIndent {
  import opened Common
  import opened JsonGrammar
  import opened JsonScanner
  import opened JsonTree
  import opened JsonNormal
  import opened JsonEscape
  import opened JsonValue

  function Spaces(n: nat): bytes {
    if n == 0 then [] else "  " + Spaces(n - 1)
  }

  function NewLine(depth: nat): bytes {
    "\n" + Spaces(depth)
  }

  // ---- Layout: the tree with the whitespace of a pretty print ------------------

  function Layout(n: Node, depth: nat): Node {
    match n
    case Token(t) => n
    case Arr(_, e) => Arr([], LayElems(e, depth))
    case Obj(_, e) => Obj([], LayElems(e, depth))
  }

  function LayElems(e: Elems, depth: nat): Elems {
    match e
    case Nil => Nil
    case Cons(_, tag, value, _, rest) =>
      Cons(NewLine(depth + 1), LayTag(tag), Layout(value, depth + 1),
           if rest.Nil? then NewLine(depth) else [], LayElems(rest, depth))
  }

  function LayTag(tag: Label): Label {
    match tag
    case NoLabel => NoLabel
    case Key(name, _, _) => Label.Key(name, [], " ")
  }

  lemma {:induction false} SpacesBlank(n: nat)
    ensures Blank(Spaces(n)) && Blank(NewLine(n))
  {
    if n > 0 { SpacesBlank(n - 1); }
  }

  function Blanks(n: nat): bytes {
    seq(n, _ => ' ')
  }

  /** Two blanks for each level. */
  lemma {:induction false} SpacesAre(n: nat)
    ensures Spaces(n) == Blanks(2 * n)
  {
    if n > 0 { SpacesAre(n - 1); }
  }

  lemma TagText(tag: Label, m: bytes)
    ensures LabelOn(LayTag(tag), m) == (if tag.Key? then tag.name + ": " else "") + m
  {
    if tag.Key? {
      assert [] + (":" + (" " + m)) == ": " + m;
      assert tag.name + (": " + m) == tag.name + ": " + m;
    }
  }

  /** What follows an element: the next one, or the closing bracket on its own line. */
  lemma AfterText(e: Elems, d: nat, close: char, k: bytes)
    requires e.Cons?
    ensures LayElems(e, d).post + RestOn(LayElems(e, d), close, k)
            == if e.rest.Nil? then "\n" + Blanks(2 * d) + ([close] + k)
               else "," + ElemsOn(LayElems(e.rest, d), close, k)
  {
    SpacesAre(d);
    var rest := RestOn(LayElems(e, d), close, k);
    assert [] + rest == rest;
  }

  lemma LayParts(e: Elems, d: nat)
    requires e.Cons?
    ensures var l := LayElems(e, d);
            l.Cons? && l.pre == NewLine(d + 1) && l.tag == LayTag(e.tag) && l.value == Layout(e.value, d + 1)
  {
  }

  lemma ElemsParts(e: Elems, close: char, k: bytes)
    requires e.Cons?
    ensures ElemsOn(e, close, k) == e.pre + LabelOn(e.tag, TextOn(e.value, e.post + RestOn(e, close, k)))
  {
  }

  lemma LineBreak(d: nat)
    ensures NewLine(d) == "\n" + Blanks(2 * d)
  {
    SpacesAre(d);
  }

  /** The text of a laid-out container, element by element. */
  lemma LineText(e: Elems, d: nat, close: char, k: bytes)
    requires e.Cons?
    ensures var after := if e.rest.Nil? then "\n" + Blanks(2 * d) + ([close] + k)
                         else "," + ElemsOn(LayElems(e.rest, d), close, k);
            ElemsOn(LayElems(e, d), close, k)
            == "\n" + Blanks(2 * (d + 1))
               + ((if e.tag.Key? then e.tag.name + ": " else "") + TextOn(Layout(e.value, d + 1), after))
  {
    hide *;
    LayParts(e, d);
    ElemsParts(LayElems(e, d), close, k);
    LineBreak(d + 1);
    AfterText(e, d, close, k);
    TagText(e.tag, TextOn(Layout(e.value, d + 1), LayElems(e, d).post + RestOn(LayElems(e, d), close, k)));
  }

  /** Laying a tree out changes whitespace only. */
  lemma {:induction false} LayoutStrip(n: Node, depth: nat)
    requires Wf(n)
    ensures Wf(Layout(n, depth)) && Strip(Layout(n, depth)) == Strip(n)
    decreases n
  {
    match n
    case Token(t) =>
    case Arr(_, e) => LayElemsStrip(e, depth, false);
    case Obj(_, e) => LayElemsStrip(e, depth, true);
  }

  lemma {:induction false} LayElemsStrip(e: Elems, depth: nat, labelled: bool)
    requires WfElems(e, labelled)
    ensures WfElems(LayElems(e, depth), labelled)
    ensures StripElems(LayElems(e, depth)) == StripElems(e)
    decreases e
  {
    if e.Cons? {
      SpacesBlank(depth);
      SpacesBlank(depth + 1);
      LayoutStrip(e.value, depth + 1);
      LayElemsStrip(e.rest, depth, labelled);
    }
  }

  // ---- The streaming machine ---------------------------------------------------

  /** `clamped` records that the level was about to go below zero. */
  datatype State = State(inStr: bool, esc: bool, needIndent: bool, level: nat, clamped: bool)

  datatype Ran = Ran(out: bytes, st: State)

  function Open(st: State): State {
    if st.needIndent then st.(needIndent := false, level := st.level + 1) else st
  }

  function OpenText(st: State): bytes {
    if st.needIndent then NewLine(st.level + 1) else []
  }

  function StepState(st: State, c: char): State {
    if st.inStr then
      if st.esc then st.(esc := false)
      else if c == '\\' then st.(esc := true)
      else if c == '"' then st.(inStr := false)
      else st
    else if IsSpace(c) then st
    else if c == '"' then Open(st).(inStr := true)
    else if c == '{' || c == '[' then Open(st).(needIndent := true)
    else if c == ',' || c == ':' then st
    else if c == '}' || c == ']' then
      if st.needIndent then st.(needIndent := false)
      else if st.level == 0 then st.(clamped := true)
      else st.(level := st.level - 1)
    else Open(st)
  }

  function StepText(st: State, c: char): bytes {
    if st.inStr then [c]
    else if IsSpace(c) then []
    else if c == ',' then [c] + NewLine(st.level)
    else if c == ':' then ": "
    else if c == '}' || c == ']' then (if st.needIndent then [] else NewLine(StepState(st, c).level)) + [c]
    else OpenText(st) + [c]
  }

  function Run(st: State, s: bytes): Ran
    decreases |s|
  {
    if s == [] then Ran([], st)
    else
      var r := Run(StepState(st, s[0]), s[1..]);
      Ran(StepText(st, s[0]) + r.out, r.st)
  }

  method NewLineIndent(out: Buffer, depth: nat)
    modifies out
    ensures out.data == old(out.data) + NewLine(depth)
  {
    out.Push('\n');
    ghost var goal := out.data + Spaces(depth);
    assert old(out.data) + NewLine(depth) == goal;
    for i := 0 to depth
      invariant goal == out.data + Spaces(depth - i)
    {
      assert out.data + ("  " + Spaces(depth - i - 1)) == out.data + "  " + Spaces(depth - i - 1);
      out.Extend("  ");
    }
  }

  /** The body of the streaming loop, outside strings. */
  method IndentMark(out: Buffer, st: State, c: char) returns (st': State)
    requires !st.inStr
    modifies out
    ensures st' == StepState(st, c) && out.data == old(out.data) + StepText(st, c)
  {
    hide NewLine;
    st' := st;
    if IsSpace(c) {
      assert out.data + [] == out.data;
    } else if c == ',' {
      out.Push(c);
      NewLineIndent(out, st.level);
      Assoc(old(out.data), [c], NewLine(st.level));
    } else if c == ':' {
      out.Extend(": ");
    } else if c == '}' || c == ']' {
      if st.needIndent {
        st' := st.(needIndent := false);
        assert [] + [c] == [c];
      } else {
        st' := if st.level == 0 then st.(clamped := true) else st.(level := st.level - 1);
        NewLineIndent(out, st'.level);
        Assoc(old(out.data), NewLine(st'.level), [c]);
      }
      out.Push(c);
    } else {
      st' := IndentOpen(out, st);
      Assoc(old(out.data), OpenText(st), [c]);
      if c == '"' { st' := st'.(inStr := true); }
      if c == '{' || c == '[' { st' := st'.(needIndent := true); }
      out.Push(c);
    }
  }

  /** Starts the first line of a container when one is due. */
  method IndentOpen(out: Buffer, st: State) returns (st': State)
    modifies out
    ensures st' == Open(st) && out.data == old(out.data) + OpenText(st)
  {
    st' := st;
    if st.needIndent {
      st' := st.(needIndent := false, level := st.level + 1);
      NewLineIndent(out, st'.level);
    } else {
      assert out.data + [] == out.data;
    }
  }

  /** The body of the streaming loop. */
  method IndentByte(out: Buffer, st: State, c: char) returns (st': State)
    modifies out
    ensures st' == StepState(st, c) && out.data == old(out.data) + StepText(st, c)
  {
    if !st.inStr {
      st' := IndentMark(out, st, c);
      return;
    }
    out.Push(c);
    if st.esc { st' := st.(esc := false); }
    else if c == '\\' { st' := st.(esc := true); }
    else if c == '"' { st' := st.(inStr := false); }
    else { st' := st; }
  }

  function Start(depth: nat): State {
    State(false, false, false, depth, false)
  }

  method IndentBytes(out: Buffer, src: bytes, depth: nat)
    modifies out
    ensures out.data == old(out.data) + Run(Start(depth), src).out
  {
    hide StepState, StepText;
    var st := Start(depth);
    var i := 0;
    ghost var goal := out.data + Run(st, src).out;
    assert src[0..] == src;
    while i < |src|
      invariant i <= |src| && goal == out.data + Run(st, src[i..]).out
    {
      ghost var was, s := out.data, src[i..];
      assert s[1..] == src[i + 1..];
      var next := IndentByte(out, st, src[i]);
      assert was + (StepText(st, s[0]) + Run(next, s[1..]).out) == was + StepText(st, s[0]) + Run(next, s[1..]).out;
      st, i := next, i + 1;
    }
  }

  // ---- What the machine does on the text of a normal tree ----------------------

  function Emitted(p: bytes, r: Ran): Ran {
    Ran(p + r.out, r.st)
  }

  lemma RunOne(st: State, c: char, k: bytes)
    ensures Run(st, [c] + k) == Emitted(StepText(st, c), Run(StepState(st, c), k))
  {
    assert ([c] + k)[1..] == k;
  }

  lemma EmittedAssoc(p: bytes, q: bytes, r: Ran)
    ensures Emitted(p, Emitted(q, r)) == Emitted(p + q, r)
  {
    assert p + (q + r.out) == p + q + r.out;
  }

  predicate Ready(st: State) {
    !st.inStr && !st.esc
  }

  lemma RunOpen(st: State, c: char, k: bytes)
    requires Ready(st) && (c == '{' || c == '[')
    ensures Run(st, [c] + k) == Emitted(OpenText(st) + [c], Run(Open(st).(needIndent := true), k))
  {
    RunOne(st, c, k);
  }

  lemma RunComma(st: State, k: bytes)
    requires Ready(st)
    ensures Run(st, "," + k) == Emitted("," + NewLine(st.level), Run(st, k))
  {
    RunOne(st, ',', k);
  }

  lemma RunColon(st: State, k: bytes)
    requires Ready(st)
    ensures Run(st, ":" + k) == Emitted(": ", Run(st, k))
  {
    RunOne(st, ':', k);
  }

  lemma RunClose(st: State, c: char, k: bytes)
    requires Ready(st) && (c == '}' || c == ']') && (st.needIndent || st.level >= 1)
    ensures st.needIndent ==> Run(st, [c] + k) == Emitted([c], Run(st.(needIndent := false), k))
    ensures !st.needIndent ==>
              Run(st, [c] + k) == Emitted(NewLine(st.level - 1) + [c], Run(st.(level := st.level - 1), k))
  {
    hide Run, NewLine;
    RunOne(st, c, k);
    assert [] + [c] == [c];
  }

  lemma RunHead(st: State, c: char, k: bytes)
    requires Ready(st) && (c == '"' || Scalar(c))
    ensures Run(st, [c] + k) == Emitted(OpenText(st) + [c], Run(Open(st).(inStr := c == '"'), k))
  {
    RunOne(st, c, k);
  }

  lemma RunInside(st: State, c: char, k: bytes)
    requires st.inStr
    ensures Run(st, [c] + k)
            == Emitted([c], Run(if st.esc then st.(esc := false) else st.(esc := c == '\\', inStr := c != '"'), k))
  {
    RunOne(st, c, k);
  }

  /** Inside a string the machine copies. */
  lemma {:induction false} RunString(st: State, s: bytes, k: bytes)
    requires st.inStr && !st.esc && StringBody(s) == Some(|s|)
    ensures Run(st, s + k) == Emitted(s, Run(st.(inStr := false), k))
    decreases |s|
  {
    hide Run, StepState, StepText;
    var c, after := s[0], Run(st.(inStr := false), k);
    assert s + k == [c] + (s[1..] + k);
    RunInside(st, c, s[1..] + k);
    if c == '"' {
      assert s[1..] == [] && [] + k == k;
      assert s == [c];
    } else if c == '\\' {
      BodyUnitPlain(s);
      var u := Unit(s);
      var esc := st.(esc := true);
      assert s[1..] + k == [s[1]] + (s[2..] + k);
      RunInside(esc, s[1], s[2..] + k);
      assert esc.(esc := false) == st;
      RunCopy(st, s, 2, u, k);
      RunString(st, s[u..], k);
      EmittedAssoc(s[2..u], s[u..], after);
      EmittedAssoc([s[1]], s[2..u] + s[u..], after);
      EmittedAssoc([c], [s[1]] + (s[2..u] + s[u..]), after);
      assert [c] + ([s[1]] + (s[2..u] + s[u..])) == s;
    } else {
      assert StringBody(s) == More(1, StringBody(s[1..]));
      assert st.(esc := false, inStr := true) == st;
      RunString(st, s[1..], k);
      EmittedAssoc([c], s[1..], after);
      assert [c] + s[1..] == s;
    }
  }

  /** Characters that are neither quotes nor backslashes, inside a string. */
  lemma {:induction false} RunCopy(st: State, s: bytes, i: nat, j: nat, k: bytes)
    requires st.inStr && !st.esc && i <= j <= |s|
    requires forall m :: i <= m < j ==> s[m] != '"' && s[m] != '\\'
    ensures Run(st, s[i..] + k) == Emitted(s[i..j], Run(st, s[j..] + k))
    decreases j - i
  {
    hide Run;
    if i < j {
      assert s[i..] + k == [s[i]] + (s[i + 1..] + k);
      RunOne(st, s[i], s[i + 1..] + k);
      RunCopy(st, s, i + 1, j, k);
      EmittedAssoc([s[i]], s[i + 1..j], Run(st, s[j..] + k));
      assert [s[i]] + s[i + 1..j] == s[i..j];
    }
  }

  lemma {:induction false} RunScalars(st: State, s: bytes, k: bytes)
    requires !st.inStr && !st.needIndent && forall i :: 0 <= i < |s| ==> Scalar(s[i])
    ensures Run(st, s + k) == Emitted(s, Run(st, k))
    decreases |s|
  {
    hide Run;
    if s == [] {
      assert s + k == k;
    } else {
      assert s + k == [s[0]] + (s[1..] + k);
      RunOne(st, s[0], s[1..] + k);
      RunScalars(st, s[1..], k);
      EmittedAssoc([s[0]], s[1..], Run(st, k));
      assert [s[0]] + s[1..] == s;
    }
  }

  lemma RunToken(st: State, t: bytes, k: bytes)
    requires Ready(st) && IsToken(t)
    ensures Run(st, t + k) == Emitted(OpenText(st) + t, Run(Open(st), k))
  {
    hide Run, StepState, StepText, OpenText, NumberLen;
    var c := t[0];
    assert t + k == [c] + (t[1..] + k);
    if c == '"' {
      RunHead(st, c, t[1..] + k);
      RunString(Open(st).(inStr := true), t[1..], k);
      assert Open(st).(inStr := true).(inStr := false) == Open(st);
    } else {
      TokenScalar(t);
      RunHead(st, c, t[1..] + k);
      assert Open(st).(inStr := false) == Open(st);
      RunScalars(Open(st), t[1..], k);
    }
    EmittedAssoc(OpenText(st) + [c], t[1..], Run(Open(st), k));
    assert OpenText(st) + [c] + t[1..] == OpenText(st) + t;
  }

  /** Reading a normal value: it is laid out at the level in force, which is left as it was. */
  lemma {:induction false} RunValue(st: State, n: Node, k: bytes)
    requires Ready(st) && Normal(n)
    ensures Run(st, TextOn(n, k)).st == Run(Open(st), k).st
    ensures Run(st, TextOn(n, k)).out == OpenText(st) + TextOn(Layout(n, Open(st).level), Run(Open(st), k).out)
    decreases n, 1
  {
    match n
    case Token(t) =>
      RunToken(st, t, k);
      assert OpenText(st) + t + Run(Open(st), k).out == OpenText(st) + (t + Run(Open(st), k).out);
    case Arr(blank, e) => RunContainer(st, n, '[', ']', e, k);
    case Obj(blank, e) => RunContainer(st, n, '{', '}', e, k);
  }

  lemma {:induction false} RunContainer(st: State, n: Node, open: char, close: char, e: Elems, k: bytes)
    requires Ready(st) && Normal(n)
    requires (n.Arr? && open == '[' && close == ']') || (n.Obj? && open == '{' && close == '}')
    requires e == n.elems
    ensures Run(st, TextOn(n, k)).st == Run(Open(st), k).st
    ensures Run(st, TextOn(n, k)).out == OpenText(st) + TextOn(Layout(n, Open(st).level), Run(Open(st), k).out)
    decreases n, 0
  {
    hide *;
    var o := Open(st);
    var body := if e.Nil? then [close] + k else ElemsOn(e, close, k);
    OpenOpen(st);
    BracketText(n, k);
    RunOpen(st, open, body);
    NormalElems(n);
    RunInner(o, e, n.Obj?, close, k);
    BracketLayout(n, o.level, Run(o, k).out);
    var r := Run(o.(needIndent := true), body);
    EmittedParts(OpenText(st) + [open], r);
    Assoc(OpenText(st), [open], r.out);
  }

  lemma EmittedParts(p: bytes, r: Ran)
    ensures Emitted(p, r).out == p + r.out && Emitted(p, r).st == r.st
  {
  }

  lemma NormalElems(n: Node)
    requires Normal(n) && !n.Token?
    ensures WfElems(n.elems, n.Obj?) && StripElems(n.elems) == n.elems && n.blank == []
  {
  }

  lemma BracketText(n: Node, k: bytes)
    requires Normal(n) && !n.Token?
    ensures var c := if n.Obj? then '}' else ']';
            TextOn(n, k) == (if n.Obj? then "{" else "[") + if n.elems.Nil? then [c] + k else ElemsOn(n.elems, c, k)
  {
    var c := if n.Obj? then '}' else ']';
    assert [] + ([c] + k) == [c] + k;
  }

  lemma BracketLayout(n: Node, d: nat, x: bytes)
    requires !n.Token?
    ensures var c := if n.Obj? then '}' else ']';
            TextOn(Layout(n, d), x)
            == (if n.Obj? then "{" else "[") + if n.elems.Nil? then [c] + x else ElemsOn(LayElems(n.elems, d), c, x)
  {
    var c := if n.Obj? then '}' else ']';
    assert [] + ([c] + x) == [c] + x;
  }

  /** Everything after an opening bracket. */
  lemma {:induction false} RunInner(o: State, e: Elems, labelled: bool, close: char, k: bytes)
    requires Ready(o) && !o.needIndent && WfElems(e, labelled) && StripElems(e) == e && (close == ']' || close == '}')
    ensures var body := if e.Nil? then [close] + k else ElemsOn(e, close, k);
            var r := Run(o.(needIndent := true), body);
            r.st == Run(o, k).st
            && r.out == if e.Nil? then [close] + Run(o, k).out else ElemsOn(LayElems(e, o.level), close, Run(o, k).out)
    decreases e, 2
  {
    var inner := o.(needIndent := true);
    var due := LineDue(inner);
    assert due == [];
    assert Base(inner) == o.level && Open(inner).(level := Base(inner)) == o && Ready(inner);
    hide *;
    if e.Nil? {
      RunClose(inner, close, k);
      assert inner.(needIndent := false) == o;
      EmittedParts([close], Run(o, k));
    } else {
      RunElems(inner, e, labelled, close, k);
      var r := Run(inner, ElemsOn(e, close, k)).out;
      assert due == [] && [] + r == r;
    }
  }

  /** The level of the container whose elements are being read. */
  function Base(st: State): int {
    Open(st).level - 1
  }

  /** What follows the first element of a laid-out container. */
  function LayAfter(e: Elems, d: nat, close: char, x: bytes): bytes
    requires e.Cons?
  {
    LayElems(e, d).post + RestOn(LayElems(e, d), close, x)
  }

  lemma LayHead(e: Elems, d: nat, close: char, x: bytes)
    requires e.Cons?
    ensures ElemsOn(LayElems(e, d), close, x)
            == NewLine(d + 1) + LabelOn(LayTag(e.tag), TextOn(Layout(e.value, d + 1), LayAfter(e, d, close, x)))
  {
  }

  lemma LayAfterSplit(e: Elems, d: nat, close: char, x: bytes)
    requires e.Cons?
    ensures e.rest.Nil? ==> LayAfter(e, d, close, x) == NewLine(d) + ([close] + x)
    ensures e.rest.Cons? ==> LayAfter(e, d, close, x) == "," + ElemsOn(LayElems(e.rest, d), close, x)
  {
    var l := LayElems(e, d);
    if e.rest.Cons? {
      assert RestOn(l, close, x) == "," + ElemsOn(LayElems(e.rest, d), close, x);
      assert [] + RestOn(l, close, x) == RestOn(l, close, x);
    }
  }

  lemma ElemsHead(e: Elems, labelled: bool, close: char, k: bytes)
    requires e.Cons? && WfElems(e, labelled) && StripElems(e) == e
    ensures ElemsOn(e, close, k) == LabelOn(e.tag, TextOn(e.value, RestOn(e, close, k)))
    ensures Normal(e.value) && StripTag(e.tag) == e.tag && (e.tag.Key? ==> IsString(e.tag.name))
    ensures WfElems(e.rest, labelled) && StripElems(e.rest) == e.rest
    ensures e.rest.Nil? ==> RestOn(e, close, k) == [close] + k
    ensures e.rest.Cons? ==> RestOn(e, close, k) == "," + ElemsOn(e.rest, close, k)
  {
    assert [] + RestOn(e, close, k) == RestOn(e, close, k);
    var x := LabelOn(e.tag, TextOn(e.value, RestOn(e, close, k)));
    assert [] + x == x;
  }

  /** The line break already written before an element other than the first. */
  function LineDue(st: State): bytes {
    if st.needIndent then [] else NewLine(Open(st).level)
  }

  lemma LineStart(st: State, x: bytes)
    ensures LineDue(st) + (OpenText(st) + x) == NewLine(Open(st).level) + x
  {
    hide NewLine;
    var n := NewLine(Open(st).level);
    assert [] + (n + x) == n + x && [] + x == x;
  }

  /** Elements of a container at level `Base(st)`, up to and including its closing bracket. */
  lemma {:induction false} RunElems(st: State, e: Elems, labelled: bool, close: char, k: bytes)
    requires Ready(st) && e.Cons? && WfElems(e, labelled) && StripElems(e) == e && (close == ']' || close == '}')
    requires Base(st) >= 0
    ensures Run(st, ElemsOn(e, close, k)).st == Run(Open(st).(level := Base(st)), k).st
    ensures LineDue(st) + Run(st, ElemsOn(e, close, k)).out
            == ElemsOn(LayElems(e, Base(st)), close, Run(Open(st).(level := Base(st)), k).out)
    decreases e, 1
  {
    hide Run, ElemsOn, LayElems, WfElems, StripElems, Normal;
    var o, d := Open(st), Base(st);
    var after := o.(level := d);
    assert o.level == d + 1;
    hide *;
    OpenOpen(st);
    ElemsHead(e, labelled, close, k);
    var m := RestOn(e, close, k);
    RunTag(st, e.tag, e.value, m);
    RunRest(o, e, labelled, close, k);
    var x := LabelOn(LayTag(e.tag), TextOn(Layout(e.value, o.level), Run(o, m).out));
    assert Run(st, ElemsOn(e, close, k)).out == OpenText(st) + x;
    LineStart(st, x);
    LayHead(e, d, close, Run(after, k).out);
    assert Run(o, m).out == LayAfter(e, d, close, Run(after, k).out);
  }

  /** After an element: a comma and the other elements, or the closing bracket. */
  lemma {:induction false} RunRest(o: State, e: Elems, labelled: bool, close: char, k: bytes)
    requires Ready(o) && !o.needIndent && o.level >= 1
    requires e.Cons? && WfElems(e, labelled) && StripElems(e) == e && (close == ']' || close == '}')
    ensures Run(o, RestOn(e, close, k)).st == Run(o.(level := o.level - 1), k).st
    ensures Run(o, RestOn(e, close, k)).out
            == LayAfter(e, o.level - 1, close, Run(o.(level := o.level - 1), k).out)
    decreases e, 0
  {
    var d := o.level - 1;
    assert Base(o) == d && Open(o) == o && LineDue(o) == NewLine(d + 1);
    hide *;
    var after := Run(o.(level := d), k);
    ElemsHead(e, labelled, close, k);
    LayAfterSplit(e, d, close, after.out);
    if e.rest.Nil? {
      RunClose(o, close, k);
      EmittedParts(NewLine(d) + [close], after);
      Assoc(NewLine(d), [close], after.out);
    } else {
      var x := ElemsOn(e.rest, close, k);
      RunComma(o, x);
      RunElems(o, e.rest, labelled, close, k);
      EmittedParts("," + NewLine(d + 1), Run(o, x));
      Assoc(",", NewLine(d + 1), Run(o, x).out);
    }
  }

  /** A label, its colon and its value. */
  lemma {:induction false} RunTag(st: State, tag: Label, value: Node, m: bytes)
    requires Ready(st) && Normal(value) && StripTag(tag) == tag && (tag.Key? ==> IsString(tag.name))
    ensures var o := Open(st);
            Run(st, LabelOn(tag, TextOn(value, m))).st == Run(o, m).st
            && Run(st, LabelOn(tag, TextOn(value, m))).out
               == OpenText(st) + LabelOn(LayTag(tag), TextOn(Layout(value, o.level), Run(o, m).out))
    decreases value, 2
  {
    hide Run, StepState, StepText, OpenText;
    var o := Open(st);
    if tag.NoLabel? {
      RunValue(st, value, m);
    } else {
      var v := TextOn(value, m);
      assert [] + v == v && [] + (":" + v) == ":" + v;
      RunKey(st, tag.name, v);
      RunValue(o, value, m);
      var x := TextOn(Layout(value, o.level), Run(o, m).out);
      OpenOpen(st);
      assert Run(o, v).out == [] + x == x;
      KeyLine(OpenText(st), tag.name, x);
    }
  }

  lemma OpenOpen(st: State)
    ensures Open(Open(st)) == Open(st) && OpenText(Open(st)) == [] && !Open(st).needIndent
    ensures Ready(st) ==> Ready(Open(st))
  {
  }

  lemma RunKey(st: State, name: bytes, v: bytes)
    requires Ready(st) && IsString(name)
    ensures Run(st, name + (":" + v)) == Emitted(OpenText(st) + name + ": ", Run(Open(st), v))
  {
    hide Run, StepState, StepText, NewLine;
    RunToken(st, name, ":" + v);
    RunColon(Open(st), v);
    EmittedAssoc(OpenText(st) + name, ": ", Run(Open(st), v));
  }

  lemma KeyLine(p: bytes, name: bytes, x: bytes)
    ensures p + LabelOn(Label.Key(name, [], " "), x) == p + name + ": " + x
  {
    assert [] + (":" + (" " + x)) == ": " + x;
    assert p + (name + (": " + x)) == p + name + ": " + x;
  }

  /** Streaming over the text of a normal tree lays it out, ends at the starting level and never clamps. */
  lemma IndentNormal(n: Node, depth: nat)
    requires Normal(n)
    ensures Run(Start(depth), Text(n)) == Ran(Text(Layout(n, depth)), Start(depth))
  {
    RunValue(Start(depth), n, []);
    assert [] + Text(Layout(n, depth)) == Text(Layout(n, depth));
  }

  lemma NormalStrip(n: Node)
    requires Normal(n)
    ensures Wf(n) && Strip(n) == n
  {
  }

  /** Compacting the laid-out text gives back the compact text. */
  lemma CompactLayout(n: Node, depth: nat)
    requires Normal(n)
    ensures Compacted(Text(Layout(n, depth))) == Some(Text(n))
  {
    NormalStrip(n);
    LayoutStrip(n, depth);
    StripNormal(Layout(n, depth));
    hide *;
    CompactedText(Layout(n, depth));
  }

  // ---- The recursive indenting printer -----------------------------------------

  ghost function Indented(v: JVal, depth: nat): Option<bytes> {
    match Tree(v)
    case None => None
    case Some(n) => Some(Text(Layout(n, depth)))
  }

  /** What the element loop owes after `i` elements. */
  ghost function OwedLines(i: nat, rest: Option<Elems>, depth: nat, close: char): Option<bytes> {
    match rest
    case None => None
    case Some(e) =>
      Some(if e.Nil? then NewLine(depth) + [close] else Comma(i) + ElemsOn(LayElems(e, depth), close, []))
  }

  lemma OwedLinesStep(out: bytes, i: nat, tag: Label, value: Node, rest: Option<Elems>, depth: nat, close: char)
    ensures Prefix(out, OwedLines(i, ConsElem(tag, Some(value), rest), depth, close))
            == Prefix(out + Comma(i) + NewLine(depth + 1) + LabelOn(LayTag(tag), Text(Layout(value, depth + 1))),
                      OwedLines(i + 1, rest, depth, close))
  {
    hide Layout, LayElems, NewLine, ElemsOn, LabelOn, TextOn, LayTag;
    if rest.Some? {
      var e := Cons([], tag, value, [], rest.value);
      LinesText(e, i, depth, close);
      LinesAssoc(out, Comma(i), NewLine(depth + 1), LabelOn(LayTag(tag), Text(Layout(value, depth + 1))),
                 OwedLines(i + 1, rest, depth, close).value);
    }
  }

  lemma LinesAssoc(out: bytes, a: bytes, b: bytes, c: bytes, d: bytes)
    ensures out + (a + (b + (c + d))) == out + a + b + c + d
  {
  }

  lemma LinesText(e: Elems, i: nat, depth: nat, close: char)
    requires e.Cons?
    ensures ElemsOn(LayElems(e, depth), close, [])
            == NewLine(depth + 1) + (LabelOn(LayTag(e.tag), Text(Layout(e.value, depth + 1)))
                                     + OwedLines(i + 1, Some(e.rest), depth, close).value)
  {
    var l := LayElems(e, depth);
    var m := l.post + RestOn(l, close, []);
    assert [close] + [] == [close];
    assert m == OwedLines(i + 1, Some(e.rest), depth, close).value by {
      if e.rest.Cons? { assert [] + RestOn(l, close, []) == RestOn(l, close, []); }
    }
    TextAppend(l.value, m);
    LabelAppend(l.tag, Text(l.value), m);
  }

  method MarshalIndentInto(out: Buffer, v: JVal, depth: nat) returns (ok: bool)
    requires FloatsWf(v)
    modifies out
    ensures ok == Indented(v, depth).Some?
    ensures old(out.data) <= out.data
    ensures ok ==> out.data == old(out.data) + Indented(v, depth).value
    decreases v, 1
  {
    if v.List? && |v.items| > 0 {
      ok := IndentItems(out, v, depth);
    } else if v.Map? && |v.members| > 0 {
      ok := IndentMembers(out, v, depth);
    } else if v.Raw? {
      var compact := new Buffer();
      ok := CompactEscapeInto(compact, v.raw);
      if !ok { return; }
      assert compact.data == Text(RawTree(v.raw).value);
      IndentBytes(out, compact.data, depth);
      IndentNormal(RawTree(v.raw).value, depth);
    } else {
      assert Tree(v).Some? ==> Layout(Tree(v).value, depth) == Tree(v).value;
      ok := MarshalInto(out, v);
    }
  }

  lemma LinesAll(out: bytes, v: JVal, depth: nat)
    requires (v.List? && |v.items| > 0) || (v.Map? && |v.members| > 0)
    ensures v.List? ==> Prefix(out, Indented(v, depth)) == Prefix(out + "[", OwedLines(0, ItemTrees(v, 0), depth, ']'))
    ensures v.Map? ==> Prefix(out, Indented(v, depth)) == Prefix(out + "{", OwedLines(0, MemberTrees(v, 0), depth, '}'))
  {
    var e := if v.List? then ItemTrees(v, 0) else MemberTrees(v, 0);
    var c, o := if v.List? then ']' else '}', if v.List? then "[" else "{";
    if e.Some? {
      var x := ElemsOn(LayElems(e.value, depth), c, []);
      assert "" + x == x;
      assert out + (o + x) == out + o + x;
    }
  }

  method IndentItems(out: Buffer, v: JVal, depth: nat) returns (ok: bool)
    requires v.List? && |v.items| > 0 && FloatsWf(v)
    modifies out
    ensures ok == Indented(v, depth).Some?
    ensures old(out.data) <= out.data
    ensures ok ==> out.data == old(out.data) + Indented(v, depth).value
    decreases v, 0
  {
    hide Layout, LayElems, NewLine;
    ghost var goal := Prefix(old(out.data), Indented(v, depth));
    LinesAll(old(out.data), v, depth);
    out.Push('[');
    for i := 0 to |v.items|
      invariant old(out.data) <= out.data
      invariant goal == Prefix(out.data, OwedLines(i, ItemTrees(v, i), depth, ']'))
    {
      if Tree(v.items[i]).Some? {
        OwedLinesStep(out.data, i, NoLabel, Tree(v.items[i]).value, ItemTrees(v, i + 1), depth, ']');
      }
      assert out.data + "" == out.data;
      if i > 0 { out.Push(','); }
      NewLineIndent(out, depth + 1);
      var k := MarshalIndentInto(out, v.items[i], depth + 1);
      if !k { return false; }
    }
    ghost var was := out.data;
    NewLineIndent(out, depth);
    out.Push(']');
    assert was + NewLine(depth) + "]" == was + (NewLine(depth) + "]");
    return true;
  }

  method IndentMembers(out: Buffer, v: JVal, depth: nat) returns (ok: bool)
    requires v.Map? && |v.members| > 0 && FloatsWf(v)
    modifies out
    ensures ok == Indented(v, depth).Some?
    ensures old(out.data) <= out.data
    ensures ok ==> out.data == old(out.data) + Indented(v, depth).value
    decreases v, 0
  {
    hide Layout, LayElems, NewLine, LabelOn, ElemsOn, Escaped, TextOn;
    ghost var goal := Prefix(old(out.data), Indented(v, depth));
    LinesAll(old(out.data), v, depth);
    out.Push('{');
    for i := 0 to |v.members|
      invariant old(out.data) <= out.data
      invariant goal == Prefix(out.data, OwedLines(i, MemberTrees(v, i), depth, '}'))
    {
      ghost var was := out.data;
      ghost var name := Escaped(v.members[i].key);
      if Tree(v.members[i].value).Some? {
        OwedLinesStep(out.data, i, Label.Key(name, [], []), Tree(v.members[i].value).value, MemberTrees(v, i + 1),
            depth, '}');
      }
      assert out.data + "" == out.data;
      if i > 0 { out.Push(','); }
      NewLineIndent(out, depth + 1);
      EscapeBytes(out, v.members[i].key);
      out.Extend(": ");
      var k := MarshalIndentInto(out, v.members[i].value, depth + 1);
      if !k { return false; }
      KeyLine(was + Comma(i) + NewLine(depth + 1), name, Indented(v.members[i].value, depth + 1).value);
    }
    ghost var was := out.data;
    NewLineIndent(out, depth);
    out.Push('}');
    assert was + NewLine(depth) + "}" == was + (NewLine(depth) + "}");
    return true;
  }

  // ---- The two indenters agree --------------------------------------------------

  /**
   Re-indenting the compact print of `v` gives the bytes of its indented print, ends at the
   starting level without clamping, and compacting those bytes gives the compact print back.
   */
  lemma StreamingEqualsRecursive(v: JVal, depth: nat)
    requires FloatsWf(v) && Marshalled(v).Some?
    ensures Indented(v, depth) == Some(Run(Start(depth), Marshalled(v).value).out)
    ensures Run(Start(depth), Marshalled(v).value).st == Start(depth)
    ensures Compacted(Indented(v, depth).value) == Marshalled(v)
  {
    TreeNormal(v);
    IndentNormal(Tree(v).value, depth);
    CompactLayout(Tree(v).value, depth);
  }
}
