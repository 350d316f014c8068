/**
 The IP address parser of gourl.rs: which texts it takes for an IPv4 address (the four
 decimal octets of a dotted quad) and which for an IPv6 address (the text forms of section
 2.2 of RFC 4291, with an optional zone).
 */
module UrlAddr {
  import opened Common
  import opened Decimal

  // ---- IPv4 -------------------------------------------------------------------------------

  /** What the scan makes of `s` from position `i`: octet `pos` has `digits` digits so far, worth `value`. */
  predicate Octets(s: bytes, i: nat, value: nat, pos: nat, digits: nat)
    requires i <= |s|
    decreases |s| - i
  {
    if i == |s| then pos == 3
    else if IsDigit(s[i]) then
      var v := 10 * value + (s[i] as int - '0' as int);
      !(digits == 1 && value == 0) && v <= 255 && Octets(s, i + 1, v, pos, digits + 1)
    else
      s[i] == '.' && i != 0 && i != |s| - 1 && s[i - 1] != '.' && pos != 3 && Octets(s, i + 1, 0, pos + 1, 0)
  }

  predicate ParsesIPv4(s: bytes) {
    Octets(s, 0, 0, 0, 0)
  }

  /** `parse_ipv4_fields`. */
  method ParseIPv4Fields(s: bytes) returns (ok: bool)
    ensures ok == ParsesIPv4(s)
  {
    var value: nat, pos: nat, digits: nat := 0, 0, 0;
    for i := 0 to |s|
      invariant pos <= 3 && Octets(s, i, value, pos, digits) == ParsesIPv4(s)
    {
      var c := s[i];
      if IsDigit(c) {
        if digits == 1 && value == 0 { return false; }
        value := 10 * value + (c as int - '0' as int);
        digits := digits + 1;
        if value > 255 { return false; }
      } else if c == '.' {
        if i == 0 || i == |s| - 1 || s[i - 1] == '.' { return false; }
        if pos == 3 { return false; }
        pos, value, digits := pos + 1, 0, 0;
      } else {
        return false;
      }
    }
    ok := pos >= 3;
  }

  /** A decimal number from 0 to 255, as it is printed. */
  ghost predicate IsOctet(t: bytes) {
    exists v: nat :: v <= 255 && t == NatText(v)
  }

  /** Texts joined by dots. */
  function Dotted(ts: seq<bytes>): bytes {
    if ts == [] then "" else if |ts| == 1 then ts[0] else ts[0] + "." + Dotted(ts[1..])
  }

  /** `n` octets joined by dots. */
  ghost predicate IsQuad(s: bytes, n: nat) {
    exists ts: seq<bytes> :: |ts| == n && s == Dotted(ts) && forall k :: 0 <= k < n ==> IsOctet(ts[k])
  }

  lemma DigitBack(c: char)
    requires IsDigit(c)
    ensures Digit(c as int - '0' as int) == c
  {
  }

  lemma SmallText(d: nat)
    requires d < 10
    ensures NatText(d) == [Digit(d)] && |NatText(d)| == 1
  {
  }

  /** One more digit behind the printed number. */
  lemma LongerText(value: nat, d: nat)
    requires value > 0 && d < 10
    ensures NatText(10 * value + d) == NatText(value) + [Digit(d)]
  {
    assert (10 * value + d) / 10 == value && (10 * value + d) % 10 == d;
  }

  lemma ZeroText(value: nat)
    ensures |NatText(value)| == 1 <==> value < 10
    ensures value <= 255 ==> |NatText(value)| <= 3
  {
    if value >= 10 { assert NatText(value / 10) != ""; }
    if 100 <= value <= 255 { SmallText(value / 100); assert value / 10 / 10 == value / 100; }
  }

  /** The digits read so far, back to `start`, are the printed value. */
  ghost predicate Reading(s: bytes, i: nat, value: nat, digits: nat) {
    && digits <= i <= |s| && value <= 255
    && s[i - digits..i] == (if digits == 0 then "" else NatText(value))
    && (digits == 0 ==> value == 0)
    && (i == digits || s[i - digits - 1] == '.')
  }

  lemma ReadingDigit(s: bytes, i: nat, value: nat, digits: nat)
    requires Reading(s, i, value, digits) && i < |s| && IsDigit(s[i]) && !(digits == 1 && value == 0)
    requires 10 * value + (s[i] as int - '0' as int) <= 255
    ensures Reading(s, i + 1, 10 * value + (s[i] as int - '0' as int), digits + 1)
  {
    hide NatText, Digit;
    var d := s[i] as int - '0' as int;
    DigitBack(s[i]);
    SmallText(d);
    assert s[i - digits..i + 1] == s[i - digits..i] + [s[i]];
    if digits > 0 {
      SmallText(0);
      LongerText(value, d);
    }
  }

  lemma DottedCons(t: bytes, ts: seq<bytes>)
    requires ts != []
    ensures Dotted([t] + ts) == t + "." + Dotted(ts)
  {
    assert ([t] + ts)[1..] == ts;
  }

  lemma ReadingDone(s: bytes, i: nat, value: nat, digits: nat)
    requires Reading(s, i, value, digits) && digits > 0
    ensures IsOctet(s[i - digits..i]) && s[i - digits..] == s[i - digits..i] + s[i..]
  {
  }

  lemma ReadingWithin(s: bytes, i: nat, value: nat, digits: nat)
    requires Reading(s, i, value, digits)
    ensures digits <= i <= |s| && (digits == 0 && i > 0 ==> s[i - 1] == '.')
  {
  }

  lemma ReadingMark(s: bytes, i: nat, value: nat, digits: nat)
    requires Reading(s, i, value, digits) && i < |s| && s[i] == '.' && i != 0 && s[i - 1] != '.'
    ensures digits > 0 && s[i..] == "." + s[i + 1..] && Reading(s, i + 1, 0, 0)
  {
    assert s[i + 1..i + 1] == "";
  }

  lemma OneOctet(t: bytes)
    requires IsOctet(t)
    ensures Dotted([t]) == t
  {
  }

  /** Accepted text is made of octets. */
  lemma {:induction false} OctetsSound(s: bytes, i: nat, value: nat, pos: nat, digits: nat) returns (ts: seq<bytes>)
    requires Reading(s, i, value, digits) && pos <= 3 && Octets(s, i, value, pos, digits)
    requires i == |s| && digits == 0 ==> pos == 0
    ensures |ts| == 4 - pos && s[i - digits..] == Dotted(ts) && forall k :: 0 <= k < |ts| ==> IsOctet(ts[k])
    decreases |s| - i
  {
    hide IsOctet, Dotted, NatText, Digit, Reading;
    ReadingWithin(s, i, value, digits);
    if i == |s| {
      ReadingDone(s, i, value, digits);
      ts := [s[i - digits..i]];
      OneOctet(ts[0]);
      assert s[i..] == "";
    } else if IsDigit(s[i]) {
      ReadingDigit(s, i, value, digits);
      ts := OctetsSound(s, i + 1, 10 * value + (s[i] as int - '0' as int), pos, digits + 1);
    } else {
      ReadingMark(s, i, value, digits);
      ReadingDone(s, i, value, digits);
      var rest := OctetsSound(s, i + 1, 0, pos + 1, 0);
      ts := [s[i - digits..i]] + rest;
      DottedCons(ts[0], rest);
    }
  }

  lemma OneDigit(s: bytes, i: nat, value: nat, pos: nat, digits: nat, d: nat)
    requires i < |s| && d < 10 && s[i] == Digit(d) && 10 * value + d <= 255 && !(digits == 1 && value == 0)
    ensures Octets(s, i, value, pos, digits) == Octets(s, i + 1, 10 * value + d, pos, digits + 1)
  {
  }

  lemma PrefixAt(s: bytes, start: nat, u: bytes, c: char)
    requires start <= |s| && u + [c] <= s[start..]
    ensures u <= s[start..] && start + |u| < |s| && s[start + |u|] == c
  {
    var t := u + [c];
    assert s[start..][..|t|] == t;
    assert s[start..][..|u|] == t[..|u|] == u;
    assert s[start..][|u|] == t[|u|];
  }

  /** Reading a printed octet. */
  lemma {:induction false} ReadOctet(s: bytes, start: nat, v: nat, pos: nat)
    requires v <= 255 && start <= |s| && NatText(v) <= s[start..]
    ensures start + |NatText(v)| <= |s|
    ensures Octets(s, start, 0, pos, 0) == Octets(s, start + |NatText(v)|, v, pos, |NatText(v)|)
    decreases v
  {
    hide Octets, Digit;
    ZeroText(v / 10);
    if v < 10 {
      PrefixAt(s, start, "", Digit(v));
      assert "" + [Digit(v)] == NatText(v);
      OneDigit(s, start, 0, pos, 0, v);
    } else {
      var u := NatText(v / 10);
      PrefixAt(s, start, u, Digit(v % 10));
      ReadOctet(s, start, v / 10, pos);
      OneDigit(s, start + |u|, v / 10, pos, |u|, v % 10);
    }
  }

  lemma OctetIsFront(t: bytes, rest: bytes, s: bytes, start: nat)
    requires start <= |s| && s[start..] == t + rest
    ensures t <= s[start..] && s[start + |t|..] == rest
  {
    assert s[start + |t|..] == s[start..][|t|..];
  }

  lemma OctetText(t: bytes) returns (v: nat)
    requires IsOctet(t)
    ensures v <= 255 && t == NatText(v) && t[|t| - 1] != '.'
  {
    v :| v <= 255 && t == NatText(v);
    NatTextDigits(v);
  }

  /** Octets joined by dots are accepted. */
  lemma {:induction false} OctetsComplete(s: bytes, start: nat, pos: nat, ts: seq<bytes>)
    requires start <= |s| && pos <= 3 && |ts| == 4 - pos && s[start..] == Dotted(ts)
    requires forall k :: 0 <= k < |ts| ==> IsOctet(ts[k])
    ensures Octets(s, start, 0, pos, 0)
    decreases |ts|
  {
    hide IsOctet, NatText;
    var v := OctetText(ts[0]);
    var rest := if |ts| == 1 then "" else "." + Dotted(ts[1..]);
    assert Dotted(ts) == ts[0] + rest;
    OctetIsFront(ts[0], rest, s, start);
    ReadOctet(s, start, v, pos);
    var i := start + |ts[0]|;
    if |ts| > 1 {
      assert s[i] == s[i..][0] == '.' && s[i + 1..] == s[i..][1..];
      assert s[i - 1] == s[start..][|ts[0]| - 1] == ts[0][|ts[0]| - 1];
      DottedNotEmpty(ts[1..]);
      OctetsComplete(s, i + 1, pos + 1, ts[1..]);
    }
  }

  lemma DottedNotEmpty(ts: seq<bytes>)
    requires ts != [] && forall k :: 0 <= k < |ts| ==> IsOctet(ts[k])
    ensures Dotted(ts) != ""
  {
    assert IsOctet(ts[0]);
  }

  /** The scan accepts exactly the four octets of a dotted quad. */
  lemma IPv4Exact(s: bytes)
    ensures ParsesIPv4(s) <==> IsQuad(s, 4)
  {
    assert s[0..0] == "" && s[0..] == s;
    if ParsesIPv4(s) {
      var ts := OctetsSound(s, 0, 0, 0, 0);
    }
    if IsQuad(s, 4) {
      var ts: seq<bytes> :| |ts| == 4 && s == Dotted(ts) && forall k :: 0 <= k < 4 ==> IsOctet(ts[k]);
      OctetsComplete(s, 0, 0, ts);
    }
  }

  // ---- IPv6 -------------------------------------------------------------------------------

  /** Number of leading hexadecimal digits. */
  function HexLen(s: bytes): (n: nat)
    ensures n <= |s|
  {
    if s != "" && IsHex(s[0]) then 1 + HexLen(s[1..]) else 0
  }

  /** Eight 16-bit fields, or fewer when a `::` stands for the missing ones. */
  predicate Complete(n: nat, gap: bool) {
    if n < 8 then gap else !gap
  }

  /** How the loop goes on after a field. */
  datatype Turn = Stop(ok: bool) | Next(rest: bytes, gap: bool)

  /** One turn of the loop on `s` after `n` fields; `gap` says whether a `::` was read. */
  function TakeField(s: bytes, n: nat, gap: bool): (t: Turn)
    ensures t.Next? ==> |t.rest| < |s|
  {
    var k := HexLen(s);
    if k == 0 || k > 4 then Stop(false)
    else if k == |s| then Stop(Complete(n + 1, gap))
    else if s[k] == '.' then Stop((gap || n == 6) && n <= 6 && ParsesIPv4(s) && Complete(n + 2, gap))
    else if s[k] != ':' || k + 1 == |s| then Stop(false)
    else if s[k + 1] != ':' then Next(s[k + 1..], gap)
    else if gap then Stop(false)
    else if k + 2 == |s| then Stop(Complete(n + 1, true))
    else Next(s[k + 2..], true)
  }

  /** What the loop makes of `s` after `n` fields. */
  predicate Fields(s: bytes, n: nat, gap: bool)
    decreases |s|
  {
    if n >= 8 then s == "" && Complete(n, gap)
    else
      var t := TakeField(s, n, gap);
      if t.Stop? then t.ok else Fields(t.rest, n + 1, t.gap)
  }

  /** The address without its zone. */
  predicate ParsesFields(s: bytes) {
    if |s| >= 2 && s[..2] == "::" then |s| == 2 || Fields(s[2..], 0, true) else Fields(s, 0, false)
  }

  /** A zone follows the first percent sign and is not empty. */
  predicate ParsesIPv6(s: bytes) {
    var z := IndexOf(s, '%');
    if z < |s| then z + 1 < |s| && ParsesFields(s[..z]) else ParsesFields(s)
  }

  lemma {:induction false} HexLenIs(s: bytes, k: nat)
    requires k <= |s| && (forall i :: 0 <= i < k ==> IsHex(s[i])) && (k < |s| ==> !IsHex(s[k]))
    ensures HexLen(s) == k
    decreases k
  {
    if k > 0 { HexLenIs(s[1..], k - 1); }
  }

  lemma {:induction false} HexLenMeans(s: bytes)
    ensures forall i :: 0 <= i < HexLen(s) ==> IsHex(s[i])
    ensures HexLen(s) < |s| ==> !IsHex(s[HexLen(s)])
    decreases |s|
  {
    if s != "" && IsHex(s[0]) {
      HexLenMeans(s[1..]);
      forall i | 0 <= i < HexLen(s) ensures IsHex(s[i]) { if i > 0 { assert s[i] == s[1..][i - 1]; } }
    }
  }

  /** One hexadecimal group: absent when it has more than four digits or a value over 16 bits. */
  method ReadGroup(s: bytes) returns (off: Option<nat>)
    ensures off == if HexLen(s) > 4 then None else Some(HexLen(s))
  {
    var n, acc := 0, 0;
    HexLenMeans(s);
    while n < |s| && IsHex(s[n])
      invariant n <= |s| && n <= 4 && forall i :: 0 <= i < n ==> IsHex(s[i])
      invariant n <= HexLen(s)
      invariant acc < [1, 16, 256, 4096, 65536][n]
    {
      acc := acc * 16 + HexVal(s[n]);
      if n > 3 { return None; }
      if acc > 0xffff { return None; }
      n := n + 1;
    }
    HexLenIs(s, n);
    off := Some(n);
  }

  /** One turn of the loop; `input[..end]` is the address without its zone and `s` its unread end. */
  method ReadField(input: bytes, end: nat, s: bytes, n: nat, gap: bool) returns (t: Turn)
    requires n < 8 && |s| <= end <= |input| && input[end - |s|..end] == s
    ensures t == TakeField(s, n, gap) && (t.Next? ==> t.rest == input[end - |t.rest|..end])
  {
    hide ParsesIPv4;
    var off := ReadGroup(s);
    if off.None? || off.value == 0 { return Stop(false); }
    var k := off.value;
    if k < |s| && s[k] == '.' {
      if !gap && n != 6 { return Stop(false); }
      if n + 2 > 8 { return Stop(false); }
      var quad := ParseIPv4Fields(input[end - |s|..end]);
      return Stop(quad && Complete(n + 2, gap));
    }
    var rest := s[k..];
    if rest == "" { return Stop(Complete(n + 1, gap)); }
    if rest[0] != ':' { return Stop(false); }
    if |rest| == 1 { return Stop(false); }
    rest := rest[1..];
    assert rest == s[k + 1..];
    if rest[0] == ':' {
      if gap { return Stop(false); }
      rest := rest[1..];
      assert rest == s[k + 2..];
      if rest == "" { return Stop(Complete(n + 1, true)); }
      t := Next(rest, true);
    } else {
      t := Next(rest, gap);
    }
  }

  /** `parse_ipv6`. */
  method ParseIPv6(input: bytes) returns (ok: bool)
    ensures ok == ParsesIPv6(input)
  {
    hide TakeField;
    var z := IndexOf(input, '%');
    if z + 1 == |input| { return false; }
    if z == |input| { assert input[..z] == input; }
    assert ParsesIPv6(input) == ParsesFields(input[..z]);
    var s, gap, n := input[..z], false, 0;
    if |s| >= 2 && s[..2] == "::" {
      gap, s := true, s[2..];
      if s == "" { return true; }
    }
    while n < 8
      invariant n <= 8 && |s| <= z && s == input[z - |s|..z]
      invariant Fields(s, n, gap) == ParsesFields(input[..z])
      decreases 8 - n
    {
      var t := ReadField(input, z, s, n, gap);
      if t.Stop? { return t.ok; }
      s, gap, n := t.rest, t.gap, n + 1;
    }
    ok := s == "" && Complete(n, gap);
  }

  // ---- The text forms of an IPv6 address ---------------------------------------------------------

  predicate IsGroup(t: bytes) {
    1 <= |t| <= 4 && forall i :: 0 <= i < |t| ==> IsHex(t[i])
  }

  predicate AreGroups(ts: seq<bytes>) {
    forall k :: 0 <= k < |ts| ==> IsGroup(ts[k])
  }

  /** Texts joined by colons. */
  function Colons(ts: seq<bytes>): bytes {
    if ts == [] then "" else if |ts| == 1 then ts[0] else ts[0] + ":" + Colons(ts[1..])
  }

  /** Groups worth `w` fields; the last one may be a dotted quad, worth two. */
  ghost predicate Run(ts: seq<bytes>, w: nat)
    decreases |ts|
  {
    if ts == [] then false
    else if |ts| == 1 then (IsGroup(ts[0]) && w == 1) || (IsQuad(ts[0], 4) && w == 2)
    else IsGroup(ts[0]) && w >= 1 && Run(ts[1..], w - 1)
  }

  ghost predicate RunOrNothing(ts: seq<bytes>, w: nat) {
    if ts == [] then w == 0 else Run(ts, w)
  }

  /** The fields from the n-th on, all written out. */
  ghost predicate FullForm(s: bytes, n: nat) {
    exists ts, w: nat :: Run(ts, w) && n + w == 8 && s == Colons(ts)
  }

  /** The fields from the n-th on, with `::` for at least one zero field. */
  ghost predicate ShortForm(s: bytes, n: nat) {
    exists a, b, w: nat ::
      AreGroups(a) && RunOrNothing(b, w) && n + |a| + w <= 7 && s == Colons(a) + "::" + Colons(b)
  }

  /** An IPv6 address in the text forms of RFC 4291, section 2.2. */
  ghost predicate IPv6Text(s: bytes) {
    FullForm(s, 0) || ShortForm(s, 0)
  }

  lemma ColonsCons(t: bytes, ts: seq<bytes>)
    ensures Colons([t] + ts) == if ts == [] then t else t + ":" + Colons(ts)
  {
    assert ([t] + ts)[1..] == ts;
  }

  lemma RunCons(t: bytes, ts: seq<bytes>, w: nat)
    requires IsGroup(t) && Run(ts, w)
    ensures Run([t] + ts, w + 1)
  {
    assert ([t] + ts)[1..] == ts;
  }

  lemma GroupLen(t: bytes, rest: bytes)
    requires IsGroup(t) && (rest == "" || !IsHex(rest[0]))
    ensures HexLen(t + rest) == |t|
  {
    HexLenIs(t + rest, |t|);
  }

  /** A quad starts with one to three digits and a dot. */
  lemma QuadFront(s: bytes)
    requires IsQuad(s, 4)
    ensures 1 <= HexLen(s) <= 3 && HexLen(s) < |s| && s[HexLen(s)] == '.'
    ensures forall i :: 0 <= i < HexLen(s) ==> IsDigit(s[i])
  {
    hide IsOctet, NatText;
    var ts: seq<bytes> :| |ts| == 4 && s == Dotted(ts) && forall k :: 0 <= k < 4 ==> IsOctet(ts[k]);
    var v := OctetText(ts[0]);
    NatTextDigits(v);
    ZeroText(v);
    assert s == ts[0] + "." + Dotted(ts[1..]);
    HexLenIs(s, |ts[0]|);
  }

  // ---- What one turn does ----------------------------------------------------------------------------

  lemma TakeLast(t: bytes, n: nat, gap: bool)
    requires IsGroup(t)
    ensures TakeField(t, n, gap) == Stop(Complete(n + 1, gap))
  {
    GroupLen(t, "");
    assert t + "" == t;
  }

  lemma TakeQuad(s: bytes, n: nat, gap: bool)
    requires IsQuad(s, 4)
    ensures TakeField(s, n, gap) == Stop((gap || n == 6) && n <= 6 && Complete(n + 2, gap))
  {
    hide IsQuad, ParsesIPv4, HexLen;
    QuadFront(s);
    IPv4Exact(s);
  }

  lemma TakeGroup(t: bytes, rest: bytes, n: nat, gap: bool)
    requires IsGroup(t) && rest != "" && rest[0] != ':'
    ensures TakeField(t + ":" + rest, n, gap) == Next(rest, gap)
  {
    hide HexLen, ParsesIPv4;
    var s := t + ":" + rest;
    assert s == t + (":" + rest);
    GroupLen(t, ":" + rest);
    assert s[|t|] == ':' && s[|t| + 1] == rest[0] && s[|t| + 1..] == rest;
  }

  lemma TakeGap(t: bytes, rest: bytes, n: nat)
    requires IsGroup(t)
    ensures TakeField(t + "::" + rest, n, false) == if rest == "" then Stop(Complete(n + 1, true)) else Next(rest, true)
  {
    hide HexLen, ParsesIPv4;
    var s := t + "::" + rest;
    assert s == t + ("::" + rest);
    GroupLen(t, "::" + rest);
    assert s[|t|] == ':' && s[|t| + 1] == ':' && s[|t| + 2..] == rest;
  }

  /** What is in front of the text a turn goes on with. */
  lemma TakenGroup(s: bytes, n: nat, gap: bool) returns (t: bytes)
    requires TakeField(s, n, gap).Next?
    ensures IsGroup(t) && var r := TakeField(s, n, gap);
            if r.gap == gap then s == t + ":" + r.rest else !gap && s == t + "::" + r.rest
  {
    HexLenMeans(s);
    hide HexLen, ParsesIPv4;
    var k := HexLen(s);
    t := s[..k];
    assert s == t + [s[k]] + s[k + 1..];
    assert s[k + 1] == ':' ==> s[k + 1..] == ":" + s[k + 2..];
    assert t + ":" + (":" + s[k + 2..]) == t + "::" + s[k + 2..];
  }

  /** The text of a last turn that accepts. */
  lemma TakenLast(s: bytes, n: nat, gap: bool) returns (ts: seq<bytes>, w: nat, open: bool)
    requires TakeField(s, n, gap) == Stop(true) && n < 8
    ensures if open then !gap && n + 1 <= 7 && w == 1 && |ts| == 1 && IsGroup(ts[0]) && s == ts[0] + "::"
            else Run(ts, w) && s == Colons(ts) && Complete(n + w, gap) && n + w <= 8
  {
    HexLenMeans(s);
    IPv4Exact(s);
    hide HexLen, ParsesIPv4, IsQuad;
    var k := HexLen(s);
    open := false;
    if k == |s| {
      ts, w := [s], 1;
    } else if s[k] == '.' {
      ts, w := [s], 2;
    } else {
      open, ts, w := true, [s[..k]], 1;
      assert s == s[..k] + "::";
    }
  }

  // ---- Whole addresses ---------------------------------------------------------------------------------

  lemma RunFront(ts: seq<bytes>, w: nat)
    requires Run(ts, w)
    ensures Colons(ts) != "" && Colons(ts)[0] != ':' && IsHex(Colons(ts)[0])
  {
    hide IsQuad;
    if IsGroup(ts[0]) {
      assert IsHex(ts[0][0]);
    } else {
      QuadFront(ts[0]);
    }
  }

  /** Behind a `::`, a run that leaves at least one field open is accepted. */
  lemma {:induction false} TailComplete(ts: seq<bytes>, w: nat, n: nat)
    requires Run(ts, w) && n + w <= 7
    ensures Fields(Colons(ts), n, true)
    decreases |ts|
  {
    hide TakeField, IsQuad;
    if |ts| == 1 {
      if IsGroup(ts[0]) { TakeLast(ts[0], n, true); } else { TakeQuad(ts[0], n, true); }
    } else {
      RunFront(ts[1..], w - 1);
      TakeGroup(ts[0], Colons(ts[1..]), n, true);
      TailComplete(ts[1..], w - 1, n + 1);
    }
  }

  lemma {:induction false} TailSound(s: bytes, n: nat) returns (ts: seq<bytes>, w: nat)
    requires Fields(s, n, true) && n <= 8
    ensures Run(ts, w) && n + w <= 7 && s == Colons(ts)
    decreases |s|
  {
    hide TakeField, IsQuad;
    var t := TakeField(s, n, true);
    if t.Stop? {
      var open: bool;
      ts, w, open := TakenLast(s, n, true);
    } else {
      var g := TakenGroup(s, n, true);
      assert t.gap by { StaysGap(s, n); }
      var rest, v := TailSound(t.rest, n + 1);
      ts, w := [g] + rest, v + 1;
      RunCons(g, rest, v);
      ColonsCons(g, rest);
    }
  }

  lemma StaysGap(s: bytes, n: nat)
    ensures TakeField(s, n, true).Next? ==> TakeField(s, n, true).gap
  {
    hide HexLen, ParsesIPv4;
  }

  /** Eight fields written out are accepted. */
  lemma {:induction false} FullComplete(ts: seq<bytes>, w: nat, n: nat)
    requires Run(ts, w) && n + w == 8
    ensures Fields(Colons(ts), n, false)
    decreases |ts|
  {
    hide TakeField, IsQuad;
    if |ts| == 1 {
      if w == 1 { TakeLast(ts[0], n, false); } else { TakeQuad(ts[0], n, false); }
    } else {
      RunFront(ts[1..], w - 1);
      TakeGroup(ts[0], Colons(ts[1..]), n, false);
      FullComplete(ts[1..], w - 1, n + 1);
    }
  }

  /** Groups, a `::` and a run that together leave at least one field open are accepted. */
  lemma {:induction false} ShortComplete(a: seq<bytes>, b: seq<bytes>, w: nat, n: nat)
    requires a != [] && AreGroups(a) && RunOrNothing(b, w) && n + |a| + w <= 7
    ensures Fields(Colons(a) + "::" + Colons(b), n, false)
    decreases |a|
  {
    hide TakeField, Run;
    var r := Colons(b);
    if |a| == 1 {
      TakeGap(a[0], r, n);
      if b != [] {
        RunFront(b, w);
        TailComplete(b, w, n + 1);
      }
    } else {
      var rest := Colons(a[1..]) + "::" + r;
      assert AreGroups(a[1..]);
      GroupsFront(a[1..]);
      assert Colons(a) + "::" + r == a[0] + ":" + rest;
      TakeGroup(a[0], rest, n, false);
      ShortComplete(a[1..], b, w, n + 1);
    }
  }

  lemma GroupsFront(a: seq<bytes>)
    requires a != [] && AreGroups(a)
    ensures Colons(a) != "" && Colons(a)[0] != ':' && IsHex(Colons(a)[0])
  {
    assert IsGroup(a[0]) && IsHex(a[0][0]);
  }

  /** Without a `::` in front, accepted text has one of the two forms. */
  lemma {:induction false} HeadSound(s: bytes, n: nat)
    requires Fields(s, n, false) && n <= 8 && s != ""
    ensures FullForm(s, n) || ShortForm(s, n)
    decreases |s|
  {
    hide TakeField, IsQuad, Run;
    var t := TakeField(s, n, false);
    if t.Stop? {
      var ts, w, open := TakenLast(s, n, false);
      if open {
        assert Colons(ts) + "::" + Colons([]) == s;
        assert AreGroups(ts) && RunOrNothing([], 0);
        ShortIs(s, n, ts, [], 0);
      } else {
        assert FullForm(s, n);
      }
    } else {
      var g := TakenGroup(s, n, false);
      if t.gap {
        var b, w := TailSound(t.rest, n + 1);
        RunNotEmpty(b, w);
        ShortIs(s, n, [g], b, w);
      } else {
        RestNotEmpty(s, n, false);
        HeadSound(t.rest, n + 1);
        Longer(s, g, t.rest, n);
      }
    }
  }

  lemma RunNotEmpty(b: seq<bytes>, w: nat)
    requires Run(b, w)
    ensures b != [] && w >= 1
  {
  }

  lemma RestNotEmpty(s: bytes, n: nat, gap: bool)
    ensures var t := TakeField(s, n, gap); t.Next? ==> t.rest != "" && (!t.gap ==> t.rest[0] != ':')
  {
    hide HexLen, ParsesIPv4;
  }

  lemma ShortIs(s: bytes, n: nat, a: seq<bytes>, b: seq<bytes>, w: nat)
    requires AreGroups(a) && RunOrNothing(b, w) && n + |a| + w <= 7 && s == Colons(a) + "::" + Colons(b)
    ensures ShortForm(s, n)
  {
  }

  /** A group in front of a form. */
  lemma Longer(s: bytes, g: bytes, rest: bytes, n: nat)
    requires IsGroup(g) && s == g + ":" + rest && rest != "" && rest[0] != ':'
    requires FullForm(rest, n + 1) || ShortForm(rest, n + 1)
    ensures FullForm(s, n) || ShortForm(s, n)
  {
    if FullForm(rest, n + 1) { LongerFull(s, g, rest, n); } else { LongerShort(s, g, rest, n); }
  }

  lemma LongerFull(s: bytes, g: bytes, rest: bytes, n: nat)
    requires IsGroup(g) && s == g + ":" + rest && FullForm(rest, n + 1)
    ensures FullForm(s, n)
  {
    hide Run;
    var ts, w: nat :| Run(ts, w) && n + 1 + w == 8 && rest == Colons(ts);
    RunCons(g, ts, w);
    RunNotEmpty(ts, w);
    ColonsCons(g, ts);
  }

  lemma LongerShort(s: bytes, g: bytes, rest: bytes, n: nat)
    requires IsGroup(g) && s == g + ":" + rest && rest != "" && rest[0] != ':' && ShortForm(rest, n + 1)
    ensures ShortForm(s, n)
  {
    hide Run, IsGroup, Colons;
    var a, b, w: nat :|
      AreGroups(a) && RunOrNothing(b, w) && n + 1 + |a| + w <= 7 && rest == Colons(a) + "::" + Colons(b);
    GapInFront(b);
    JoinFront(g, a, b);
    ShortIs(s, n, [g] + a, b, w);
  }

  lemma GapInFront(b: seq<bytes>)
    ensures (Colons([]) + "::" + Colons(b))[0] == ':'
  {
  }

  lemma JoinFront(g: bytes, a: seq<bytes>, b: seq<bytes>)
    requires a != []
    ensures g + ":" + (Colons(a) + "::" + Colons(b)) == Colons([g] + a) + "::" + Colons(b)
  {
    ColonsCons(g, a);
    hide Colons;
    var x, y := Colons(a), Colons(b);
    assert g + ":" + (x + "::" + y) == g + ":" + x + "::" + y;
  }

  lemma HexNoColon(s: bytes)
    requires s != "" && IsHex(s[0])
    ensures !(|s| >= 2 && s[..2] == "::")
  {
    if |s| >= 2 { assert s[..2][0] == s[0]; }
  }

  lemma NothingFails()
    ensures !Fields("", 0, false)
  {
  }

  lemma TailIsShort(s: bytes, ts: seq<bytes>, w: nat)
    requires |s| >= 2 && s[..2] == "::" && RunOrNothing(ts, w) && w <= 7 && s[2..] == Colons(ts)
    ensures ShortForm(s, 0)
  {
    hide Run;
    assert s == Colons([]) + "::" + Colons(ts);
    ShortIs(s, 0, [], ts, w);
  }

  /** Accepted addresses without a zone are the text forms. */
  lemma FieldsExact(s: bytes)
    ensures ParsesFields(s) <==> IPv6Text(s)
  {
    hide Fields, Run, IsGroup, TakeField;
    if ParsesFields(s) {
      if |s| >= 2 && s[..2] == "::" {
        if |s| == 2 {
          TailIsShort(s, [], 0);
        } else {
          var ts, w := TailSound(s[2..], 0);
          RunNotEmpty(ts, w);
          TailIsShort(s, ts, w);
        }
      } else {
        NothingFails();
        HeadSound(s, 0);
      }
    }
    if FullForm(s, 0) {
      FullParses(s);
    }
    if ShortForm(s, 0) {
      ShortParses(s);
    }
  }

  lemma FullParses(s: bytes)
    requires FullForm(s, 0)
    ensures ParsesFields(s)
  {
    hide Fields, Run;
    var ts, w: nat :| Run(ts, w) && 0 + w == 8 && s == Colons(ts);
    RunFront(ts, w);
    HexNoColon(s);
    FullComplete(ts, w, 0);
  }

  lemma ShortParses(s: bytes)
    requires ShortForm(s, 0)
    ensures ParsesFields(s)
  {
    hide Fields, Run, IsGroup;
    var a, b, w: nat :| AreGroups(a) && RunOrNothing(b, w) && 0 + |a| + w <= 7 && s == Colons(a) + "::" + Colons(b);
    if a == [] {
      assert s == "::" + Colons(b) && s[2..] == Colons(b);
      if b != [] { TailComplete(b, w, 0); }
    } else {
      GroupsFront(a);
      HexNoColon(s);
      ShortComplete(a, b, w, 0);
    }
  }

  // ---- Zones and the verdict ----------------------------------------------------------------------------

  /** Only hexadecimal digits, dots and colons. */
  predicate AddressChars(s: bytes) {
    forall i :: 0 <= i < |s| ==> IsHex(s[i]) || s[i] == '.' || s[i] == ':'
  }

  lemma {:induction false} DottedChars(ts: seq<bytes>)
    requires forall k :: 0 <= k < |ts| ==> IsOctet(ts[k])
    ensures forall i :: 0 <= i < |Dotted(ts)| ==> IsDigit(Dotted(ts)[i]) || Dotted(ts)[i] == '.'
    decreases |ts|
  {
    if ts != [] {
      var v: nat :| v <= 255 && ts[0] == NatText(v);
      NatTextDigits(v);
      DottedChars(ts[1..]);
    }
  }

  lemma {:induction false} RunChars(ts: seq<bytes>, w: nat)
    requires RunOrNothing(ts, w)
    ensures AddressChars(Colons(ts))
    decreases |ts|
  {
    if ts == [] {
    } else if |ts| == 1 {
      if !IsGroup(ts[0]) {
        var qs: seq<bytes> :| |qs| == 4 && ts[0] == Dotted(qs) && forall k :: 0 <= k < 4 ==> IsOctet(qs[k]);
        DottedChars(qs);
      }
    } else {
      RunChars(ts[1..], w - 1);
    }
  }

  lemma {:induction false} GroupsChars(a: seq<bytes>)
    requires AreGroups(a)
    ensures AddressChars(Colons(a))
    decreases |a|
  {
    if |a| > 1 {
      assert AreGroups(a[1..]);
      GroupsChars(a[1..]);
    }
    if a != [] { assert IsGroup(a[0]); }
  }

  lemma TextChars(s: bytes)
    requires IPv6Text(s)
    ensures AddressChars(s)
  {
    hide Run, IsGroup, Colons;
    if FullForm(s, 0) {
      var ts, w: nat :| Run(ts, w) && 0 + w == 8 && s == Colons(ts);
      RunNotEmpty(ts, w);
      RunChars(ts, w);
    } else {
      var a, b, w: nat :| AreGroups(a) && RunOrNothing(b, w) && 0 + |a| + w <= 7 && s == Colons(a) + "::" + Colons(b);
      GroupsChars(a);
      RunChars(b, w);
    }
  }

  /** An IPv6 address with an optional zone behind a percent sign. */
  ghost predicate ZonedText(s: bytes) {
    IPv6Text(s) || exists t, z :: IPv6Text(t) && z != "" && s == t + "%" + z
  }

  lemma ZoneCut(t: bytes, z: bytes)
    requires AddressChars(t)
    ensures IndexOf(t, '%') == |t| && IndexOf(t + "%" + z, '%') == |t| && (t + "%" + z)[..|t|] == t
  {
    assert t[..|t|] == t && (t + "%" + z)[..|t|] == t;
    IndexOfIs(t, '%', |t|);
    IndexOfIs(t + "%" + z, '%', |t|);
  }

  /** The IPv6 parser accepts exactly the text forms, with or without a zone. */
  lemma IPv6Exact(s: bytes)
    ensures ParsesIPv6(s) <==> ZonedText(s)
  {
    hide IPv6Text, ParsesFields, AddressChars;
    var z := IndexOf(s, '%');
    if ParsesIPv6(s) {
      FieldsExact(if z < |s| then s[..z] else s);
      if z < |s| { assert s == s[..z] + "%" + s[z + 1..]; }
    }
    if IPv6Text(s) {
      TextChars(s);
      ZoneCut(s, "");
      FieldsExact(s);
    } else if ZonedText(s) {
      var t, zone :| IPv6Text(t) && zone != "" && s == t + "%" + zone;
      TextChars(t);
      ZoneCut(t, zone);
      FieldsExact(t);
    }
  }

  /** The verdict: absent for no address, else whether it is an IPv4 address. The first mark decides. */
  function AddrFrom(s: bytes, i: nat): Option<bool>
    requires i <= |s|
    decreases |s| - i
  {
    if i == |s| then None
    else if s[i] == '.' then if ParsesIPv4(s) then Some(true) else None
    else if s[i] == ':' then if ParsesIPv6(s) then Some(false) else None
    else if s[i] == '%' then None
    else AddrFrom(s, i + 1)
  }

  function ParseAddr(s: bytes): Option<bool> {
    AddrFrom(s, 0)
  }

  /** `parse_addr`. */
  method ParseAddrLoop(s: bytes) returns (r: Option<bool>)
    ensures r == ParseAddr(s)
  {
    hide ParsesIPv4, ParsesIPv6;
    for i := 0 to |s|
      invariant AddrFrom(s, i) == ParseAddr(s)
    {
      if s[i] == '.' {
        var ok := ParseIPv4Fields(s);
        return if ok then Some(true) else None;
      }
      if s[i] == ':' {
        var ok := ParseIPv6(s);
        return if ok then Some(false) else None;
      }
      if s[i] == '%' { return None; }
    }
    r := None;
  }

  predicate IsMark(c: char) {
    c == '.' || c == ':' || c == '%'
  }

  lemma {:induction false} FirstMark(s: bytes, i: nat, m: nat)
    requires i <= m < |s| && IsMark(s[m]) && forall k :: i <= k < m ==> !IsMark(s[k])
    ensures AddrFrom(s, i) == AddrFrom(s, m)
    decreases m - i
  {
    if i < m { FirstMark(s, i + 1, m); }
  }

  lemma {:induction false} AnyVerdict(s: bytes, i: nat)
    requires i <= |s|
    ensures AddrFrom(s, i) == None || AddrFrom(s, i) == Some(true) || AddrFrom(s, i) == Some(false)
    ensures AddrFrom(s, i) == Some(true) ==> ParsesIPv4(s)
    ensures AddrFrom(s, i) == Some(false) ==> ParsesIPv6(s)
    decreases |s| - i
  {
    hide ParsesIPv4, ParsesIPv6;
    if i < |s| { AnyVerdict(s, i + 1); }
  }

  /** A text form starts with hexadecimal digits and a colon, or with a colon. */
  lemma ColonFirst(s: bytes) returns (m: nat)
    requires IPv6Text(s)
    ensures m < |s| && s[m] == ':' && forall k :: 0 <= k < m ==> IsHex(s[k])
  {
    hide IsQuad, IsGroup;
    if FullForm(s, 0) {
      var ts, w: nat :| Run(ts, w) && 0 + w == 8 && s == Colons(ts);
      m := GroupThenColon(ts[0], s, Colons(ts[1..]));
    } else {
      var a, b, w: nat :| AreGroups(a) && RunOrNothing(b, w) && 0 + |a| + w <= 7 && s == Colons(a) + "::" + Colons(b);
      if a == [] {
        m := 0;
      } else if |a| == 1 {
        assert IsGroup(a[0]);
        m := GroupThenColon(a[0], s, ":" + Colons(b));
      } else {
        assert IsGroup(a[0]);
        m := GroupThenColon(a[0], s, Colons(a[1..]) + "::" + Colons(b));
      }
    }
  }

  lemma GroupThenColon(t: bytes, s: bytes, rest: bytes) returns (m: nat)
    requires IsGroup(t) && s == t + ":" + rest
    ensures m < |s| && s[m] == ':' && forall k :: 0 <= k < m ==> IsHex(s[k])
  {
    m := |t|;
  }

  /** The parser's verdict, in terms of the texts alone. */
  lemma AddrExact(s: bytes)
    ensures ParseAddr(s) == if IsQuad(s, 4) then Some(true) else if ZonedText(s) then Some(false) else None
  {
    hide ParsesIPv4, ParsesIPv6, IPv6Text, IsQuad;
    IPv4Exact(s);
    IPv6Exact(s);
    AnyVerdict(s, 0);
    if IsQuad(s, 4) {
      QuadFront(s);
      FirstMark(s, 0, HexLen(s));
    } else if ZonedText(s) {
      if IPv6Text(s) {
        var m := ColonFirst(s);
        FirstMark(s, 0, m);
      } else {
        var t, z :| IPv6Text(t) && z != "" && s == t + "%" + z;
        var m := ColonFirst(t);
        assert s[m] == t[m] && forall k :: 0 <= k < m ==> s[k] == t[k];
        FirstMark(s, 0, m);
      }
    }
  }

  /** The unspecified address with a zone. */
  lemma UnspecifiedZone(z: bytes)
    requires z != ""
    ensures ParseAddr("::%" + z) == Some(false)
  {
    var s := "::%" + z;
    assert "::"[0] == ':' && s[..2] == "::";
    IndexOfIs(s, '%', 2);
    hide IndexOf;
    assert ParsesFields("::");
    FirstMark(s, 0, 0);
  }
}
