/**
 The JSON grammar accepted by the two scanners of gojson.rs, as recursive functions:
 lengths of tokens, a recursive-descent reading of values and containers that also
 yields the compacted text, and the flat HTML escaping applied to every token.
 */
module JsonGrammar {
  import opened Common

  // ---- Characters -----------------------------------------------------------

  /** The characters that may follow a backslash on their own. */
  predicate IsShortEscape(c: char) {
    c == '"' || c == '\\' || c == '/' || c == 'b' || c == 'f' || c == 'n' || c == 'r' || c == 't'
  }

  predicate Blank(s: bytes) {
    forall i :: 0 <= i < |s| ==> IsSpace(s[i])
  }

  // ---- Tokens ---------------------------------------------------------------

  function More(k: nat, r: Option<nat>): Option<nat> {
    match r
    case None => None
    case Some(n) => Some(k + n)
  }

  /** Length of the rest of a string literal, the closing quote included. */
  function StringBody(s: bytes): (r: Option<nat>)
    ensures r.Some? ==> 1 <= r.value <= |s|
  {
    if s == [] then None
    else if s[0] == '"' then Some(1)
    else if s[0] == '\\' then
      if |s| >= 2 && IsShortEscape(s[1]) then More(2, StringBody(s[2..]))
      else if |s| >= 6 && s[1] == 'u' && IsHex(s[2]) && IsHex(s[3]) && IsHex(s[4]) && IsHex(s[5])
      then More(6, StringBody(s[6..]))
      else None
    else if s[0] < ' ' then None
    else More(1, StringBody(s[1..]))
  }

  /** Number of leading digits. */
  function Digits(s: bytes): (n: nat)
    ensures n <= |s|
  {
    if s != [] && IsDigit(s[0]) then 1 + Digits(s[1..]) else 0
  }

  /** Length of an optional `.digits` part. */
  function Fraction(s: bytes): (r: Option<nat>)
    ensures r.Some? ==> r.value <= |s|
  {
    if s != [] && s[0] == '.' then
      if Digits(s[1..]) == 0 then None else Some(1 + Digits(s[1..]))
    else Some(0)
  }

  /** Length of an optional sign. */
  function Sign(s: bytes): (n: nat)
    ensures n <= |s|
  {
    if s != [] && (s[0] == '+' || s[0] == '-') then 1 else 0
  }

  /** Length of an optional exponent part. */
  function Exponent(s: bytes): (r: Option<nat>)
    ensures r.Some? ==> r.value <= |s|
  {
    if s != [] && (s[0] == 'e' || s[0] == 'E') then
      var k := 1 + Sign(s[1..]);
      if Digits(s[k..]) == 0 then None else Some(k + Digits(s[k..]))
    else Some(0)
  }

  function FractionExponent(s: bytes): (r: Option<nat>)
    ensures r.Some? ==> r.value <= |s|
  {
    match Fraction(s)
    case None => None
    case Some(f) => More(f, Exponent(s[f..]))
  }

  function Unsigned(s: bytes): (r: Option<nat>)
    ensures r.Some? ==> 1 <= r.value <= |s|
  {
    var d := Digits(s);
    if d == 0 then None else More(d, FractionExponent(s[d..]))
  }

  /** Length of the leading number. Any non-empty digit run is accepted, leading zeros included. */
  function NumberLen(s: bytes): (r: Option<nat>)
    ensures r.Some? ==> 1 <= r.value <= |s|
  {
    if s != [] && s[0] == '-' then More(1, Unsigned(s[1..])) else Unsigned(s)
  }

  function LiteralLen(s: bytes, lit: bytes): (r: Option<nat>)
    ensures r.Some? ==> r.value == |lit| <= |s|
  {
    if |s| >= |lit| && s[..|lit|] == lit then Some(|lit|) else None
  }

  /** Length of the scalar token at the front of `s`. */
  function TokenLen(s: bytes): (r: Option<nat>)
    ensures r.Some? ==> 1 <= r.value <= |s|
  {
    if s == [] then None
    else if s[0] == '"' then More(1, StringBody(s[1..]))
    else if s[0] == 't' then LiteralLen(s, "true")
    else if s[0] == 'f' then LiteralLen(s, "false")
    else if s[0] == 'n' then LiteralLen(s, "null")
    else if s[0] == '-' || IsDigit(s[0]) then NumberLen(s)
    else None
  }

  // ---- HTML escaping --------------------------------------------------------

  /** `s` starts with the UTF-8 form of U+2028 or U+2029. */
  predicate IsLineSep(s: bytes) {
    |s| >= 3 && s[0] == '\U{E2}' && s[1] == '\U{80}' && (s[2] == '\U{A8}' || s[2] == '\U{A9}')
  }

  function LineSepEscape(c: char): bytes {
    if c == '\U{A8}' then "\\u2028" else "\\u2029"
  }

  /** Replaces `<`, `>`, `&`, U+2028 and U+2029 by their six-character escapes. */
  function Html(s: bytes): bytes {
    if s == [] then []
    else if s[0] == '<' then "\\u003c" + Html(s[1..])
    else if s[0] == '>' then "\\u003e" + Html(s[1..])
    else if s[0] == '&' then "\\u0026" + Html(s[1..])
    else if IsLineSep(s) then LineSepEscape(s[2]) + Html(s[3..])
    else [s[0]] + Html(s[1..])
  }

  // ---- Recursive descent ----------------------------------------------------

  /** What a container expects next. */
  datatype Frame =
    | ObjKeyOrEnd
    | ObjColon
    | ObjValue
    | ObjCommaOrEnd
    | ObjKey
    | ArrValueOrEnd
    | ArrValue
    | ArrCommaOrEnd

  /** Outcome of reading one construct: its compacted text and the unread input. */
  datatype Parse = Fail | Done(out: bytes, rest: bytes)

  function Emit(p: bytes, r: Parse): Parse {
    match r
    case Fail => Fail
    case Done(out, rest) => Done(p + out, rest)
  }

  /** Reads one value standing at the very front of `s`. */
  function Value(s: bytes): (r: Parse)
    ensures r.Done? ==> |r.rest| < |s|
    decreases |s|, 0
  {
    if s == [] then Fail
    else if s[0] == '{' then Emit("{", Tail(ObjKeyOrEnd, s[1..]))
    else if s[0] == '[' then Emit("[", Tail(ArrValueOrEnd, s[1..]))
    else match TokenLen(s)
      case None => Fail
      case Some(n) => Done(Html(s[..n]), s[n..])
  }

  /** Reads the rest of a container up to and including its closing bracket. */
  function Tail(f: Frame, s: bytes): (r: Parse)
    ensures r.Done? ==> |r.rest| < |s|
    decreases |s|, 2
  {
    var t := TrimStart(s);
    if t == [] then Fail
    else match f
      case ObjKeyOrEnd => if t[0] == '}' then Done("}", t[1..]) else KeyTail(t)
      case ObjKey => KeyTail(t)
      case ObjColon => if t[0] == ':' then Emit(":", Tail(ObjValue, t[1..])) else Fail
      case ObjValue => ValueTail(t, ObjCommaOrEnd)
      case ObjCommaOrEnd =>
        if t[0] == ',' then Emit(",", Tail(ObjKey, t[1..]))
        else if t[0] == '}' then Done("}", t[1..])
        else Fail
      case ArrValueOrEnd => if t[0] == ']' then Done("]", t[1..]) else ValueTail(t, ArrCommaOrEnd)
      case ArrValue => ValueTail(t, ArrCommaOrEnd)
      case ArrCommaOrEnd =>
        if t[0] == ',' then Emit(",", Tail(ArrValue, t[1..]))
        else if t[0] == ']' then Done("]", t[1..])
        else Fail
  }

  function KeyTail(t: bytes): (r: Parse)
    requires t != []
    ensures r.Done? ==> |r.rest| < |t|
    decreases |t|, 0
  {
    if t[0] != '"' then Fail
    else match TokenLen(t)
      case None => Fail
      case Some(n) => Emit(Html(t[..n]), Tail(ObjColon, t[n..]))
  }

  function ValueTail(t: bytes, next: Frame): (r: Parse)
    requires t != []
    ensures r.Done? ==> |r.rest| < |t|
    decreases |t|, 1
  {
    match Value(t)
    case Fail => Fail
    case Done(out, rest) => Emit(out, Tail(next, rest))
  }

  /** The compacted, HTML-escaped form of a whole document; `None` when it is not JSON. */
  function Compacted(src: bytes): Option<bytes> {
    match Value(TrimStart(src))
    case Fail => None
    case Done(out, rest) => if TrimStart(rest) == [] then Some(out) else None
  }
}
