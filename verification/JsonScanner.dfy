/**
 The two iterative pushdown scanners of gojson.rs, each proved against the recursive
 grammar: the fused validate-compact-escape pass and the validate-only pass.
 */
module JsonScanner {
  import opened Common
  import opened JsonGrammar

  // ---- What the stack still owes --------------------------------------------

  function Prefix(p: bytes, r: Option<bytes>): Option<bytes> {
    match r
    case None => None
    case Some(out) => Some(p + out)
  }

  /** Output still owed when the containers on `stack` are open and `s` is unread. */
  function Resume(stack: seq<Frame>, s: bytes): Option<bytes>
    decreases |stack|
  {
    if stack == [] then if TrimStart(s) == [] then Some([]) else None
    else match Tail(stack[|stack| - 1], s)
      case Fail => None
      case Done(out, rest) => Prefix(out, Resume(stack[..|stack| - 1], rest))
  }

  /** Continues with the open containers once a construct has been read. */
  function Then(r: Parse, stack: seq<Frame>): Option<bytes> {
    match r
    case Fail => None
    case Done(out, rest) => Prefix(out, Resume(stack, rest))
  }

  lemma PrefixAssoc(p: bytes, q: bytes, r: Option<bytes>)
    ensures Prefix(p + q, r) == Prefix(p, Prefix(q, r))
  {
    if r.Some? { assert (p + q) + r.value == p + (q + r.value); }
  }

  lemma ThenEmit(p: bytes, r: Parse, stack: seq<Frame>)
    ensures Then(Emit(p, r), stack) == Prefix(p, Then(r, stack))
  {
    if r.Done? { PrefixAssoc(p, r.out, Resume(stack, r.rest)); }
  }

  lemma ResumeTop(stack: seq<Frame>, f: Frame, s: bytes)
    ensures Resume(stack + [f], s) == Then(Tail(f, s), stack)
  {
    assert (stack + [f])[..|stack + [f]| - 1] == stack;
  }

  lemma TrimTrim(s: bytes)
    ensures TrimStart(TrimStart(s)) == TrimStart(s)
  {
  }

  lemma TailTrim(f: Frame, s: bytes)
    ensures Tail(f, TrimStart(s)) == Tail(f, s)
  {
    TrimTrim(s);
  }

  lemma ResumeTrim(stack: seq<Frame>, s: bytes)
    ensures Resume(stack, s) == Resume(stack, TrimStart(s))
  {
    TrimTrim(s);
    if stack != [] { TailTrim(stack[|stack| - 1], s); }
  }

  /** A value inside a container: read it, then expect the follow frame. */
  lemma ResumeValue(stack: seq<Frame>, t: bytes, next: Frame)
    requires t != []
    ensures Then(ValueTail(t, next), stack) == Then(Value(t), stack + [next])
  {
    var v := Value(t);
    if v.Done? {
      ThenEmit(v.out, Tail(next, v.rest), stack);
      ResumeTop(stack, next, v.rest);
    }
  }

  // ---- One step of the pushdown machine -------------------------------------

  /** What the machine does in frame `f` on character `c`. */
  datatype Move = Stuck | Close | Key | Next(frame: Frame) | Read(next: Frame)

  function Choose(f: Frame, c: char): Move {
    match f
    case ObjKeyOrEnd => if c == '"' then Key else if c == '}' then Close else Stuck
    case ObjKey => if c == '"' then Key else Stuck
    case ObjColon => if c == ':' then Next(ObjValue) else Stuck
    case ObjValue => Read(ObjCommaOrEnd)
    case ObjCommaOrEnd => if c == ',' then Next(ObjKey) else if c == '}' then Close else Stuck
    case ArrValueOrEnd => if c == ']' then Close else Read(ArrCommaOrEnd)
    case ArrValue => Read(ArrCommaOrEnd)
    case ArrCommaOrEnd => if c == ',' then Next(ArrValue) else if c == ']' then Close else Stuck
  }

  /** The step lemma: what is owed before a move equals its output and what is owed after it. */
  lemma Step(base: seq<Frame>, f: Frame, t: bytes)
    requires t != [] && TrimStart(t) == t
    ensures Choose(f, t[0]).Stuck? ==> Resume(base + [f], t).None?
    ensures Choose(f, t[0]).Close? ==> Resume(base + [f], t) == Prefix([t[0]], Resume(base, t[1..]))
    ensures Choose(f, t[0]).Next? ==>
              Resume(base + [f], t) == Prefix([t[0]], Resume(base + [Choose(f, t[0]).frame], t[1..]))
    ensures Choose(f, t[0]).Read? ==> Resume(base + [f], t) == Then(Value(t), base + [Choose(f, t[0]).next])
  {
    ResumeTop(base, f, t);
    match Choose(f, t[0])
    case Next(g) =>
      ThenEmit([t[0]], Tail(g, t[1..]), base);
      ResumeTop(base, g, t[1..]);
    case Read(g) =>
      ResumeValue(base, t, g);
    case _ =>
  }

  lemma StepKey(base: seq<Frame>, f: Frame, t: bytes)
    requires t != [] && TrimStart(t) == t && Choose(f, t[0]) == Key
    ensures TokenLen(t).None? ==> Resume(base + [f], t).None?
    ensures TokenLen(t).Some? ==>
              var n := TokenLen(t).value;
              Resume(base + [f], t) == Prefix(Html(t[..n]), Resume(base + [ObjColon], t[n..]))
  {
    ResumeTop(base, f, t);
    match TokenLen(t)
    case None =>
    case Some(n) =>
      ThenEmit(Html(t[..n]), Tail(ObjColon, t[n..]), base);
      ResumeTop(base, ObjColon, t[n..]);
  }

  function Opening(c: char): Frame {
    if c == '{' then ObjKeyOrEnd else ArrValueOrEnd
  }

  lemma StepOpen(stack: seq<Frame>, t: bytes)
    requires t != [] && (t[0] == '{' || t[0] == '[')
    ensures Then(Value(t), stack) == Prefix([t[0]], Resume(stack + [Opening(t[0])], t[1..]))
  {
    ThenEmit([t[0]], Tail(Opening(t[0]), t[1..]), stack);
    ResumeTop(stack, Opening(t[0]), t[1..]);
  }

  lemma StepToken(stack: seq<Frame>, t: bytes)
    requires t != [] && t[0] != '{' && t[0] != '['
    ensures TokenLen(t).None? ==> Then(Value(t), stack).None?
    ensures TokenLen(t).Some? ==>
              var n := TokenLen(t).value;
              Then(Value(t), stack) == Prefix(Html(t[..n]), Resume(stack, t[n..]))
  {
  }

  // ---- Shared index scans ---------------------------------------------------

  method SkipSpace(src: bytes, start: nat) returns (i: nat)
    requires start <= |src|
    ensures start <= i <= |src| && src[i..] == TrimStart(src[start..])
  {
    i := start;
    while i < |src| && IsSpace(src[i])
      invariant start <= i <= |src| && TrimStart(src[i..]) == TrimStart(src[start..])
    {
      assert src[i..][1..] == src[i + 1..];
      i := i + 1;
    }
  }

  method SkipDigits(src: bytes, start: nat) returns (i: nat)
    requires start <= |src|
    ensures start <= i <= |src| && i - start == Digits(src[start..])
  {
    i := start;
    while i < |src| && IsDigit(src[i])
      invariant start <= i <= |src| && Digits(src[start..]) == i - start + Digits(src[i..])
    {
      assert src[i..][1..] == src[i + 1..];
      i := i + 1;
    }
  }

  /** The optional `.digits` part of `ScanNumber`. */
  method ScanFraction(src: bytes, start: nat) returns (r: Option<nat>)
    requires start <= |src|
    ensures r == More(start, Fraction(src[start..]))
  {
    if start < |src| && src[start] == '.' {
      assert src[start..][1..] == src[start + 1..];
      var i := SkipDigits(src, start + 1);
      return if i == start + 1 then None else Some(i);
    }
    return Some(start);
  }

  /** The optional exponent part of `ScanNumber`. */
  method ScanExponent(src: bytes, start: nat) returns (r: Option<nat>)
    requires start <= |src|
    ensures r == More(start, Exponent(src[start..]))
  {
    if start < |src| && (src[start] == 'e' || src[start] == 'E') {
      assert src[start..][1..] == src[start + 1..];
      var i := start + 1;
      if i < |src| && (src[i] == '+' || src[i] == '-') { i := i + 1; }
      assert src[start..][i - start..] == src[i..];
      var j := SkipDigits(src, i);
      return if j == i then None else Some(j);
    }
    return Some(start);
  }

  method ScanFractionExponent(src: bytes, start: nat) returns (r: Option<nat>)
    requires start <= |src|
    ensures r == More(start, FractionExponent(src[start..]))
  {
    var f := ScanFraction(src, start);
    if f.None? { return None; }
    assert src[start..][f.value - start..] == src[f.value..];
    r := ScanExponent(src, f.value);
  }

  method ScanUnsigned(src: bytes, start: nat) returns (r: Option<nat>)
    requires start <= |src|
    ensures r == More(start, Unsigned(src[start..]))
  {
    var i := SkipDigits(src, start);
    if i == start { return None; }
    assert src[start..][i - start..] == src[i..];
    r := ScanFractionExponent(src, i);
  }

  method ScanNumber(src: bytes, start: nat) returns (r: Option<nat>)
    requires start <= |src|
    ensures r == More(start, NumberLen(src[start..]))
  {
    if start < |src| && src[start] == '-' {
      assert src[start..][1..] == src[start + 1..];
      r := ScanUnsigned(src, start + 1);
    } else {
      r := ScanUnsigned(src, start);
    }
  }

  method ScanLiteral(src: bytes, start: nat, lit: bytes) returns (r: Option<nat>)
    requires start <= |src|
    ensures r == More(start, LiteralLen(src[start..], lit))
  {
    if |src| - start >= |lit| && src[start..start + |lit|] == lit {
      assert src[start..][..|lit|] == lit;
      return Some(start + |lit|);
    }
    if |src| - start >= |lit| { assert src[start..][..|lit|] == src[start..start + |lit|]; }
    return None;
  }

  /** Reads the escape whose backslash is at `i`; the new position, or none when malformed. */
  method ScanEscape(src: bytes, i: nat) returns (r: Option<nat>)
    requires i < |src| && src[i] == '\\'
    ensures r.None? ==> StringBody(src[i..]).None?
    ensures r.Some? ==> i + 2 <= r.value <= |src|
                        && StringBody(src[i..]) == More(r.value - i, StringBody(src[r.value..]))
  {
    var j := i + 1;
    if j >= |src| { return None; }
    if IsShortEscape(src[j]) {
      assert src[i..][2..] == src[j + 1..];
      return Some(j + 1);
    }
    if src[j] == 'u' {
      if j + 4 >= |src| || !(IsHex(src[j + 1]) && IsHex(src[j + 2]) && IsHex(src[j + 3]) && IsHex(src[j + 4])) {
        return None;
      }
      assert src[i..][6..] == src[j + 5..];
      return Some(j + 5);
    }
    return None;
  }

  /** Characters the HTML escaping never touches or looks at. */
  predicate PlainAscii(c: char) {
    ' ' <= c < '\U{80}' && c != '<' && c != '>' && c != '&'
  }

  lemma HtmlOne(c: char, s: bytes)
    requires PlainAscii(c)
    ensures Html([c] + s) == [c] + Html(s)
  {
    assert ([c] + s)[1..] == s;
  }

  lemma {:induction false} HtmlPlain(p: bytes, s: bytes)
    requires forall k :: 0 <= k < |p| ==> PlainAscii(p[k])
    ensures Html(p + s) == p + Html(s)
    decreases |p|
  {
    hide Html;
    if p == [] {
      assert p + s == s;
      assert p + Html(s) == Html(s);
    } else {
      HtmlPlain(p[1..], s);
      HtmlOne(p[0], p[1..] + s);
      assert p + s == [p[0]] + (p[1..] + s);
      assert p + Html(s) == [p[0]] + (p[1..] + Html(s));
    }
  }

  // ---- The validate-only scanner --------------------------------------------

  /** `start` is the position after the opening quote. */
  method ScanString(src: bytes, start: nat) returns (r: Option<nat>)
    requires start <= |src|
    ensures r == More(start, StringBody(src[start..]))
  {
    hide StringBody;
    var i := start;
    while i < |src|
      invariant start <= i <= |src|
      invariant StringBody(src[start..]) == More(i - start, StringBody(src[i..]))
    {
      StringTurn(src, i);
      if src[i] == '"' { return Some(i + 1); }
      if src[i] == '\\' {
        var e := ScanEscape(src, i);
        if e.None? { return None; }
        i := e.value;
      } else if src[i] < ' ' {
        return None;
      } else {
        i := i + 1;
      }
    }
    assert src[i..] == [] && StringBody([]).None? by { NoString(); }
    return None;
  }

  lemma NoString()
    ensures StringBody([]).None?
  {
  }

  /** What a byte other than a backslash does to the string literal it is in. */
  lemma StringTurn(src: bytes, i: nat)
    requires i < |src|
    ensures src[i] == '"' ==> StringBody(src[i..]) == Some(1)
    ensures src[i] < ' ' ==> StringBody(src[i..]).None?
    ensures src[i] >= ' ' && src[i] != '"' && src[i] != '\\' ==>
              StringBody(src[i..]) == More(1, StringBody(src[i + 1..]))
  {
    assert src[i..][1..] == src[i + 1..];
  }

  method ScanToken(src: bytes, i: nat) returns (r: Option<nat>)
    requires i < |src|
    ensures r == More(i, TokenLen(src[i..]))
  {
    assert src[i..][1..] == src[i + 1..];
    if src[i] == '"' { r := ScanString(src, i + 1); }
    else if src[i] == 't' { r := ScanLiteral(src, i, "true"); }
    else if src[i] == 'f' { r := ScanLiteral(src, i, "false"); }
    else if src[i] == 'n' { r := ScanLiteral(src, i, "null"); }
    else if src[i] == '-' || IsDigit(src[i]) { r := ScanNumber(src, i); }
    else { r := None; }
  }

  /** One scalar or container opening; an opening pushes its frame. */
  method ScanValue(src: bytes, i: nat, stack: seq<Frame>) returns (r: Option<nat>, stack': seq<Frame>)
    requires i <= |src|
    ensures r.None? ==> Then(Value(src[i..]), stack).None?
    ensures r.Some? ==> i < r.value <= |src|
                        && Then(Value(src[i..]), stack).Some? == Resume(stack', src[r.value..]).Some?
  {
    stack' := stack;
    if i >= |src| { return None, stack; }
    if src[i] == '{' || src[i] == '[' {
      assert src[i..][1..] == src[i + 1..];
      StepOpen(stack, src[i..]);
      return Some(i + 1), stack + [Opening(src[i])];
    }
    r := ScanToken(src, i);
    StepToken(stack, src[i..]);
    if r.Some? { assert src[i..][r.value - i..] == src[r.value..]; }
  }

  /** One turn of the main loop, whitespace already skipped. */
  method Advance(src: bytes, i: nat, stack: seq<Frame>) returns (r: Option<nat>, stack': seq<Frame>)
    requires i < |src| && stack != [] && TrimStart(src[i..]) == src[i..]
    ensures r.None? ==> Resume(stack, src[i..]).None?
    ensures r.Some? ==> i < r.value <= |src|
                        && Resume(stack, src[i..]).Some? == Resume(stack', src[r.value..]).Some?
  {
    hide Value, Tail, KeyTail, ValueTail, Resume, Then, StringBody;
    var top, base := stack[|stack| - 1], stack[..|stack| - 1];
    assert stack == base + [top];
    ghost var t := src[i..];
    assert t[1..] == src[i + 1..];
    Step(base, top, t);
    stack' := base;
    match top {
      case ObjKeyOrEnd =>
        if src[i] == '}' {
          r := Some(i + 1);
        } else {
          r, stack' := AdvanceKey(src, i, base, top);
        }
      case ObjKey =>
        r, stack' := AdvanceKey(src, i, base, top);
      case ObjColon =>
        if src[i] != ':' { return None, base; }
        r, stack' := Some(i + 1), base + [ObjValue];
      case ObjValue =>
        r, stack' := ScanValue(src, i, base + [ObjCommaOrEnd]);
      case ObjCommaOrEnd =>
        if src[i] == ',' {
          r, stack' := Some(i + 1), base + [ObjKey];
        } else if src[i] == '}' {
          r := Some(i + 1);
        } else {
          r := None;
        }
      case ArrValueOrEnd =>
        if src[i] == ']' {
          r := Some(i + 1);
        } else {
          r, stack' := ScanValue(src, i, base + [ArrCommaOrEnd]);
        }
      case ArrValue =>
        r, stack' := ScanValue(src, i, base + [ArrCommaOrEnd]);
      case ArrCommaOrEnd =>
        if src[i] == ',' {
          r, stack' := Some(i + 1), base + [ArrValue];
        } else if src[i] == ']' {
          r := Some(i + 1);
        } else {
          r := None;
        }
    }
  }

  /** A key string in an object. */
  method AdvanceKey(src: bytes, i: nat, base: seq<Frame>, ghost top: Frame)
    returns (r: Option<nat>, stack': seq<Frame>)
    requires i < |src| && TrimStart(src[i..]) == src[i..] && (top == ObjKey || (top == ObjKeyOrEnd && src[i] != '}'))
    ensures r.None? ==> Resume(base + [top], src[i..]).None?
    ensures r.Some? ==> i < r.value <= |src|
                        && Resume(base + [top], src[i..]).Some? == Resume(stack', src[r.value..]).Some?
  {
    hide Value, Tail, KeyTail, ValueTail, Resume, Then, StringBody, TrimStart, Html;
    stack' := base + [ObjColon];
    ghost var t := src[i..];
    assert t[1..] == src[i + 1..];
    Step(base, top, t);
    if src[i] != '"' { return None, stack'; }
    StepKey(base, top, t);
    r := ScanString(src, i + 1);
    if r.Some? { assert t[r.value - i..] == src[r.value..]; }
  }

  method JsonValid(src: bytes) returns (ok: bool)
    ensures ok == Compacted(src).Some?
  {
    assert src[0..] == src;
    var start := SkipSpace(src, 0);
    ghost var goal := Then(Value(src[start..]), []);
    assert goal.Some? == Compacted(src).Some?;
    var r, stack := ScanValue(src, start, []);
    if r.None? { return false; }
    var i := r.value;
    while true
      invariant i <= |src|
      invariant goal.Some? == Resume(stack, src[i..]).Some?
      decreases |src| - i
    {
      ResumeTrim(stack, src[i..]);
      i := SkipSpace(src, i);
      if stack == [] { return i == |src|; }
      if i >= |src| { return false; }
      TrimTrim(src[i..]);
      r, stack := Advance(src, i, stack);
      if r.None? { return false; }
      i := r.value;
    }
  }

  // ---- The fused validate, compact and escape pass --------------------------

  /** A line separator inside a string literal is three ordinary string characters. */
  lemma BodyLineSep(s: bytes)
    requires IsLineSep(s)
    ensures StringBody(s) == More(3, StringBody(s[3..]))
  {
    assert s[1..][1..] == s[2..] && s[2..][1..] == s[3..];
    assert StringBody(s) == More(1, StringBody(s[1..]));
    assert StringBody(s[1..]) == More(1, StringBody(s[2..]));
    assert StringBody(s[2..]) == More(1, StringBody(s[3..]));
  }

  /** Length of the escape sequence at the front of `s`, when well formed. */
  function EscapeLen(s: bytes): (r: Option<nat>)
    requires s != [] && s[0] == '\\'
    ensures r.Some? ==> 2 <= r.value <= |s|
  {
    if |s| >= 2 && IsShortEscape(s[1]) then Some(2)
    else if |s| >= 6 && s[1] == 'u' && IsHex(s[2]) && IsHex(s[3]) && IsHex(s[4]) && IsHex(s[5]) then Some(6)
    else None
  }

  /** How much of a string literal one turn of the emitting loop consumes. */
  function UnitLen(s: bytes): (r: Option<nat>)
    requires s != []
    ensures r.Some? ==> 1 <= r.value <= |s|
  {
    if s[0] == '\\' then EscapeLen(s)
    else if IsLineSep(s) then Some(3)
    else if s[0] < ' ' then None
    else Some(1)
  }

  /** What one turn emits. */
  function UnitOut(s: bytes): bytes
    requires s != [] && UnitLen(s).Some?
  {
    if s[0] == '\\' then s[..UnitLen(s).value]
    else if s[0] == '<' then "\\u003c"
    else if s[0] == '>' then "\\u003e"
    else if s[0] == '&' then "\\u0026"
    else if IsLineSep(s) then LineSepEscape(s[2])
    else [s[0]]
  }

  /** What the loop emits from here to the closing quote, and where it stops. */
  function StringOut(s: bytes): Parse {
    if s == [] then Fail
    else if s[0] == '"' then Done(['"'], s[1..])
    else if UnitLen(s).None? then Fail
    else Emit(UnitOut(s), StringOut(s[UnitLen(s).value..]))
  }

  lemma EmitAssoc(p: bytes, q: bytes, r: Parse)
    ensures Emit(p + q, r) == Emit(p, Emit(q, r))
  {
    if r.Done? { assert (p + q) + r.out == p + (q + r.out); }
  }

  lemma BodyUnit(s: bytes)
    requires s != [] && s[0] != '"'
    ensures UnitLen(s).None? ==> StringBody(s).None?
    ensures UnitLen(s).Some? ==> StringBody(s) == More(UnitLen(s).value, StringBody(s[UnitLen(s).value..]))
  {
    if IsLineSep(s) { BodyLineSep(s); }
  }

  lemma HtmlUnit(s: bytes, n: nat)
    requires s != [] && UnitLen(s).Some? && UnitLen(s).value <= n <= |s|
    ensures Html(s[..n]) == UnitOut(s) + Html(s[UnitLen(s).value..n])
  {
    var k, w := UnitLen(s).value, s[..n];
    assert w[k..] == s[k..n] && w[0] == s[0];
    if s[0] == '\\' {
      assert w == s[..k] + s[k..n];
      HtmlPlain(s[..k], s[k..n]);
    }
  }

  lemma HtmlQuote()
    ensures Html("\"") == "\""
  {
    assert "\""[1..] == [];
  }

  /** The emitting loop computes the flat escaping of the literal. */
  lemma {:induction false} StringOutIsHtml(s: bytes)
    ensures StringBody(s).None? ==> StringOut(s).Fail?
    ensures StringBody(s).Some? ==>
              StringOut(s) == Done(Html(s[..StringBody(s).value]), s[StringBody(s).value..])
    decreases |s|
  {
    hide Html, UnitOut, UnitLen;
    if s == [] {
    } else if s[0] == '"' {
      assert s[..1] == ['"'];
      HtmlQuote();
    } else {
      BodyUnit(s);
      if UnitLen(s).Some? {
        var k := UnitLen(s).value;
        StringOutIsHtml(s[k..]);
        if StringBody(s).Some? {
          var n := StringBody(s).value;
          HtmlUnit(s, n);
          assert s[k..n] == s[k..][..n - k] && s[k..][n - k..] == s[n..];
        }
      }
    }
  }

  /** One turn of the string loop, not at the closing quote. */
  method EmitStringUnit(out: Buffer, src: bytes, i: nat) returns (r: Option<nat>)
    requires i < |src| && src[i] != '"'
    modifies out
    ensures r == More(i, UnitLen(src[i..]))
    ensures old(out.data) <= out.data
    ensures r.Some? ==> out.data == old(out.data) + UnitOut(src[i..])
  {
    if src[i] == '\\' {
      out.Push('\\');
      var j := i + 1;
      if j >= |src| { return None; }
      if IsShortEscape(src[j]) {
        out.Push(src[j]);
        assert src[i..][..2] == ['\\', src[j]];
        return Some(j + 1);
      }
      if src[j] == 'u' {
        if j + 4 >= |src| || !(IsHex(src[j + 1]) && IsHex(src[j + 2]) && IsHex(src[j + 3]) && IsHex(src[j + 4])) {
          return None;
        }
        out.Extend(src[j..j + 5]);
        assert src[i..][..6] == ['\\'] + src[j..j + 5];
        return Some(j + 5);
      }
      return None;
    } else if src[i] == '<' {
      out.Extend("\\u003c");
      return Some(i + 1);
    } else if src[i] == '>' {
      out.Extend("\\u003e");
      return Some(i + 1);
    } else if src[i] == '&' {
      out.Extend("\\u0026");
      return Some(i + 1);
    } else if src[i] == '\U{E2}' && i + 2 < |src| && src[i + 1] == '\U{80}'
              && (src[i + 2] == '\U{A8}' || src[i + 2] == '\U{A9}') {
      out.Extend(LineSepEscape(src[i + 2]));
      return Some(i + 3);
    } else if src[i] < ' ' {
      return None;
    } else {
      out.Push(src[i]);
      return Some(i + 1);
    }
  }

  lemma StringLiteral(src: bytes, start: nat, end: nat, was: bytes, now: bytes)
    requires start < end <= |src| && src[start] == '"'
    requires Emit(was + ['"'], StringOut(src[start + 1..])) == Done(now, src[end..])
    ensures StringBody(src[start + 1..]) == Some(end - start - 1)
    ensures now == was + Html(src[start..end])
  {
    hide StringOut, Html, StringBody;
    var s := src[start + 1..];
    StringOutIsHtml(s);
    var n := StringBody(s).value;
    assert |s[n..]| == |s| - n;
    assert s[..n] == src[start + 1..end];
    assert src[start..end] == ['"'] + s[..n];
    HtmlPlain(['"'], s[..n]);
  }

  /** `start` is the position of the opening quote. */
  method ScanStringEmit(out: Buffer, src: bytes, start: nat) returns (r: Option<nat>)
    requires start < |src| && src[start] == '"'
    modifies out
    ensures r == More(start + 1, StringBody(src[start + 1..]))
    ensures old(out.data) <= out.data
    ensures r.Some? ==> out.data == old(out.data) + Html(src[start..r.value])
  {
    r := StringLoop(out, src, start + 1);
    if r.Some? {
      StringLiteral(src, start, r.value, old(out.data), out.data);
    } else {
      StringOutIsHtml(src[start + 1..]);
    }
  }

  /** The loop of `ScanStringEmit`, the opening quote emitted first. */
  method StringLoop(out: Buffer, src: bytes, start: nat) returns (r: Option<nat>)
    requires start <= |src|
    modifies out
    ensures old(out.data) <= out.data
    ensures r.None? ==> StringOut(src[start..]).Fail?
    ensures r.Some? ==> start <= r.value <= |src|
                        && Emit(old(out.data) + ['"'], StringOut(src[start..])) == Done(out.data, src[r.value..])
  {
    out.Push('"');
    ghost var whole := Emit(out.data, StringOut(src[start..]));
    var i := start;
    while i < |src|
      invariant start <= i <= |src|
      invariant old(out.data) <= out.data
      invariant whole == Emit(out.data, StringOut(src[i..]))
    {
      if src[i] == '"' {
        out.Push('"');
        assert src[i..][1..] == src[i + 1..];
        return Some(i + 1);
      }
      ghost var was := out.data;
      var e := EmitStringUnit(out, src, i);
      if e.None? { return None; }
      assert src[i..][e.value - i..] == src[e.value..];
      EmitAssoc(was, UnitOut(src[i..]), StringOut(src[e.value..]));
      i := e.value;
    }
    return None;
  }

  method ScanTokenEmit(out: Buffer, src: bytes, i: nat) returns (r: Option<nat>)
    requires i < |src|
    modifies out
    ensures r == More(i, TokenLen(src[i..]))
    ensures old(out.data) <= out.data
    ensures r.Some? ==> out.data == old(out.data) + Html(src[i..r.value])
  {
    assert src[i..][1..] == src[i + 1..];
    if src[i] == '"' {
      r := ScanStringEmit(out, src, i);
      return;
    }
    // Numbers and literals are copied verbatim once recognised.
    r := ScanToken(src, i);
    if r.Some? {
      TokenPlain(src[i..]);
      assert src[i..][..r.value - i] == src[i..r.value];
      HtmlPlain(src[i..r.value], []);
      assert src[i..r.value] + [] == src[i..r.value];
      out.Extend(src[i..r.value]);
    }
  }

  /** Characters of numbers and literals. */
  predicate Scalar(c: char) {
    IsDigit(c) || c == '-' || c == '+' || c == '.' || 'a' <= c <= 'z' || c == 'E'
  }

  predicate Scalars(s: bytes, n: nat)
    requires n <= |s|
  {
    forall k :: 0 <= k < n ==> Scalar(s[k])
  }

  lemma ScalarsShift(s: bytes, d: nat, n: nat)
    requires d <= |s| && n <= |s| - d && Scalars(s, d) && Scalars(s[d..], n)
    ensures Scalars(s, d + n)
  {
    forall k | 0 <= k < d + n ensures Scalar(s[k]) {
      if k >= d { assert s[k] == s[d..][k - d]; }
    }
  }

  lemma {:induction false} DigitsScalar(s: bytes)
    ensures Scalars(s, Digits(s))
    decreases |s|
  {
    if s != [] && IsDigit(s[0]) {
      DigitsScalar(s[1..]);
      ScalarsShift(s, 1, Digits(s[1..]));
    }
  }

  lemma ExponentScalar(s: bytes)
    requires Exponent(s).Some?
    ensures Scalars(s, Exponent(s).value)
  {
    if s != [] && (s[0] == 'e' || s[0] == 'E') {
      var k := 1 + Sign(s[1..]);
      DigitsScalar(s[k..]);
      ScalarsShift(s, k, Digits(s[k..]));
    }
  }

  lemma FractionExponentScalar(s: bytes)
    requires FractionExponent(s).Some?
    ensures Scalars(s, FractionExponent(s).value)
  {
    hide Digits, Exponent;
    var f := Fraction(s).value;
    if f > 0 {
      DigitsScalar(s[1..]);
      ScalarsShift(s, 1, f - 1);
    }
    ExponentScalar(s[f..]);
    ScalarsShift(s, f, Exponent(s[f..]).value);
  }

  lemma UnsignedScalar(s: bytes)
    requires Unsigned(s).Some?
    ensures Scalars(s, Unsigned(s).value)
  {
    hide Digits, FractionExponent;
    DigitsScalar(s);
    FractionExponentScalar(s[Digits(s)..]);
    ScalarsShift(s, Digits(s), FractionExponent(s[Digits(s)..]).value);
  }

  lemma LiteralScalar(s: bytes, lit: bytes)
    requires LiteralLen(s, lit).Some? && Scalars(lit, |lit|)
    ensures Scalars(s, |lit|)
  {
    assert forall k :: 0 <= k < |lit| ==> s[k] == s[..|lit|][k];
  }

  lemma TokenScalar(s: bytes)
    requires s != [] && s[0] != '"' && TokenLen(s).Some?
    ensures Scalars(s, TokenLen(s).value)
  {
    hide Unsigned, LiteralLen, StringBody;
    if s[0] == '-' {
      UnsignedScalar(s[1..]);
      ScalarsShift(s, 1, Unsigned(s[1..]).value);
    } else if IsDigit(s[0]) {
      UnsignedScalar(s);
    } else if s[0] == 't' {
      LiteralScalar(s, "true");
    } else if s[0] == 'f' {
      LiteralScalar(s, "false");
    } else {
      LiteralScalar(s, "null");
    }
  }

  /** A token other than a string holds no character the escaping touches. */
  lemma TokenPlain(s: bytes)
    requires s != [] && s[0] != '"' && TokenLen(s).Some?
    ensures forall k :: 0 <= k < TokenLen(s).value ==> PlainAscii(s[k])
  {
    hide TokenLen;
    TokenScalar(s);
  }

  /** One scalar or container opening, emitted in compacted form. */
  method ScanValueEmit(out: Buffer, src: bytes, i: nat, stack: seq<Frame>)
    returns (r: Option<nat>, stack': seq<Frame>)
    requires i <= |src|
    modifies out
    ensures old(out.data) <= out.data
    ensures r.None? ==> Then(Value(src[i..]), stack).None?
    ensures r.Some? ==> i < r.value <= |src|
                        && Prefix(old(out.data), Then(Value(src[i..]), stack))
                           == Prefix(out.data, Resume(stack', src[r.value..]))
  {
    stack' := stack;
    if i >= |src| { return None, stack; }
    if src[i] == '{' || src[i] == '[' {
      assert src[i..][1..] == src[i + 1..];
      StepOpen(stack, src[i..]);
      PrefixAssoc(out.data, [src[i]], Resume(stack + [Opening(src[i])], src[i + 1..]));
      out.Push(src[i]);
      return Some(i + 1), stack + [Opening(src[i])];
    }
    r := ScanTokenEmit(out, src, i);
    StepToken(stack, src[i..]);
    if r.Some? {
      assert src[i..][r.value - i..] == src[r.value..];
      assert src[i..][..r.value - i] == src[i..r.value];
      PrefixAssoc(old(out.data), Html(src[i..r.value]), Resume(stack, src[r.value..]));
    }
  }

  /** A key string in an object. */
  method KeyEmit(out: Buffer, src: bytes, i: nat, base: seq<Frame>, ghost top: Frame) returns (r: Option<nat>)
    requires i < |src| && TrimStart(src[i..]) == src[i..] && (top == ObjKey || (top == ObjKeyOrEnd && src[i] != '}'))
    modifies out
    ensures old(out.data) <= out.data
    ensures r.None? ==> Resume(base + [top], src[i..]).None?
    ensures r.Some? ==> i < r.value <= |src|
                        && Prefix(old(out.data), Resume(base + [top], src[i..]))
                           == Prefix(out.data, Resume(base + [ObjColon], src[r.value..]))
  {
    hide Value, Tail, KeyTail, ValueTail, Resume, Then, StringBody, Html;
    ghost var t := src[i..];
    Step(base, top, t);
    if src[i] != '"' { return None; }
    StepKey(base, top, t);
    assert t[1..] == src[i + 1..];
    r := ScanStringEmit(out, src, i);
    if r.Some? {
      assert t[r.value - i..] == src[r.value..] && t[..r.value - i] == src[i..r.value];
      PrefixAssoc(old(out.data), Html(src[i..r.value]), Resume(base + [ObjColon], src[r.value..]));
    }
  }

  /** A structural character: `}`, `]`, `,` or `:`. */
  method MarkEmit(out: Buffer, c: char, ghost owed: Option<bytes>)
    modifies out
    ensures out.data == old(out.data) + [c]
    ensures Prefix(old(out.data), Prefix([c], owed)) == Prefix(out.data, owed)
  {
    PrefixAssoc(out.data, [c], owed);
    out.Push(c);
  }

  /** One turn of the emitting loop, whitespace already skipped. */
  method AdvanceEmit(out: Buffer, src: bytes, i: nat, stack: seq<Frame>)
    returns (r: Option<nat>, stack': seq<Frame>)
    requires i < |src| && stack != [] && TrimStart(src[i..]) == src[i..]
    modifies out
    ensures old(out.data) <= out.data
    ensures r.None? ==> Resume(stack, src[i..]).None?
    ensures r.Some? ==> i < r.value <= |src|
                        && Prefix(old(out.data), Resume(stack, src[i..]))
                           == Prefix(out.data, Resume(stack', src[r.value..]))
  {
    hide Value, Tail, KeyTail, ValueTail, Resume, Then;
    var top, base := stack[|stack| - 1], stack[..|stack| - 1];
    assert stack == base + [top];
    ghost var t := src[i..];
    assert t[1..] == src[i + 1..];
    Step(base, top, t);
    stack' := base;
    match top {
      case ObjKeyOrEnd =>
        if src[i] == '}' {
          MarkEmit(out, '}', Resume(base, src[i + 1..]));
          r := Some(i + 1);
        } else {
          r := KeyEmit(out, src, i, base, top);
          stack' := base + [ObjColon];
        }
      case ObjKey =>
        r := KeyEmit(out, src, i, base, top);
        stack' := base + [ObjColon];
      case ObjColon =>
        if src[i] != ':' { return None, base; }
        stack' := base + [ObjValue];
        MarkEmit(out, ':', Resume(stack', src[i + 1..]));
        r := Some(i + 1);
      case ObjValue =>
        r, stack' := ScanValueEmit(out, src, i, base + [ObjCommaOrEnd]);
      case ObjCommaOrEnd =>
        if src[i] == ',' {
          stack' := base + [ObjKey];
          MarkEmit(out, ',', Resume(stack', src[i + 1..]));
          r := Some(i + 1);
        } else if src[i] == '}' {
          MarkEmit(out, '}', Resume(base, src[i + 1..]));
          r := Some(i + 1);
        } else {
          r := None;
        }
      case ArrValueOrEnd =>
        if src[i] == ']' {
          MarkEmit(out, ']', Resume(base, src[i + 1..]));
          r := Some(i + 1);
        } else {
          r, stack' := ScanValueEmit(out, src, i, base + [ArrCommaOrEnd]);
        }
      case ArrValue =>
        r, stack' := ScanValueEmit(out, src, i, base + [ArrCommaOrEnd]);
      case ArrCommaOrEnd =>
        if src[i] == ',' {
          stack' := base + [ArrValue];
          MarkEmit(out, ',', Resume(stack', src[i + 1..]));
          r := Some(i + 1);
        } else if src[i] == ']' {
          MarkEmit(out, ']', Resume(base, src[i + 1..]));
          r := Some(i + 1);
        } else {
          r := None;
        }
    }
  }

  /** The emitting loop; on failure `out` may hold a partial document. */
  method CompactEscapeInner(out: Buffer, src: bytes) returns (ok: bool)
    modifies out
    ensures ok == Compacted(src).Some?
    ensures old(out.data) <= out.data
    ensures ok ==> out.data == old(out.data) + Compacted(src).value
  {
    assert src[0..] == src;
    var start := SkipSpace(src, 0);
    ghost var goal := Prefix(out.data, Then(Value(src[start..]), []));
    assert goal == Prefix(out.data, Compacted(src)) by {
      var v := Value(src[start..]);
      if v.Done? && TrimStart(v.rest) == [] { assert v.out + [] == v.out; }
    }
    var r, stack := ScanValueEmit(out, src, start, []);
    if r.None? { return false; }
    var i := r.value;
    while true
      invariant i <= |src|
      invariant old(out.data) <= out.data
      invariant goal == Prefix(out.data, Resume(stack, src[i..]))
      decreases |src| - i
    {
      ResumeTrim(stack, src[i..]);
      i := SkipSpace(src, i);
      if stack == [] {
        assert i == |src| ==> out.data + [] == out.data;
        return i == |src|;
      }
      if i >= |src| { return false; }
      TrimTrim(src[i..]);
      r, stack := AdvanceEmit(out, src, i, stack);
      if r.None? { return false; }
      i := r.value;
    }
  }

  /** Appends the compacted form of `src`, or leaves `out` as it was. */
  method CompactEscapeInto(out: Buffer, src: bytes) returns (ok: bool)
    modifies out
    ensures ok == Compacted(src).Some?
    ensures out.data == old(out.data) + if ok then Compacted(src).value else []
  {
    var start := |out.data|;
    ok := CompactEscapeInner(out, src);
    if !ok { out.Truncate(start); }
  }
}
