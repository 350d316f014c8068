/** Shared vocabulary: optional values and byte strings. */
module Common {

  datatype Option<+T> = None | Some(value: T)

  /** A byte string. Each character stands for one byte of the program's `Vec<u8>`/`&[u8]`. */
  type bytes = string

  /** Concatenation is associative. */
  lemma Assoc(a: bytes, b: bytes, c: bytes)
    ensures a + (b + c) == a + b + c
  {
  }

  /** Byte-wise lexicographic order of strings. */
  predicate StrBefore(a: string, b: string) {
    b != "" && (a == "" || a[0] < b[0] || (a[0] == b[0] && StrBefore(a[1..], b[1..])))
  }

  /** `StrBefore` is a strict total order. */
  lemma {:induction false} StrOrder(a: string, b: string, c: string)
    ensures StrBefore(a, b) && StrBefore(b, c) ==> StrBefore(a, c)
    ensures StrBefore(a, b) || StrBefore(b, a) || a == b
    ensures !(StrBefore(a, b) && StrBefore(b, a))
    decreases |a| + |b| + |c|
  {
    if a != "" && b != "" {
      StrOrder(a[1..], b[1..], if c != "" then c[1..] else "");
      if a[0] == b[0] && a[1..] == b[1..] { assert a == [a[0]] + a[1..] && b == [b[0]] + b[1..]; }
    }
  }

  /** `a` and `b` agree up to position `n`, where `a` ends or holds the smaller character. */
  predicate SmallerAt(a: string, b: string, n: nat) {
    n <= |a| && n < |b| && a[..n] == b[..n] && (n == |a| || a[n] < b[n])
  }

  /** The order is decided at the first difference; a proper prefix comes first. */
  lemma {:induction false} StrBeforeIs(a: string, b: string)
    ensures StrBefore(a, b) <==> exists n: nat :: SmallerAt(a, b, n)
    decreases |a|
  {
    if a != "" && b != "" && a[0] == b[0] {
      var c, d := a[1..], b[1..];
      StrBeforeIs(c, d);
      if StrBefore(c, d) {
        var n: nat :| SmallerAt(c, d, n);
        assert a[..n + 1] == [a[0]] + c[..n] && b[..n + 1] == [b[0]] + d[..n];
        assert SmallerAt(a, b, n + 1);
      }
      if n: nat :| SmallerAt(a, b, n) {
        assert n > 0;
        assert c[..n - 1] == a[..n][1..] && d[..n - 1] == b[..n][1..];
        assert SmallerAt(c, d, n - 1);
      }
    } else if a == "" && b != "" {
      assert SmallerAt(a, b, 0);
    } else if a != "" && b != "" {
      if a[0] < b[0] { assert SmallerAt(a, b, 0); }
      if n: nat :| SmallerAt(a, b, n) {
        if n > 0 { assert a[..n][0] == b[..n][0]; }
      }
    }
  }

  // ---- Characters and searches -------------------------------------------------------------

  /** White space of JSON, which is also what the program trims from index lines. */
  predicate IsSpace(c: char) {
    c == ' ' || c == '\t' || c == '\r' || c == '\n'
  }

  predicate IsDigit(c: char) {
    '0' <= c <= '9'
  }

  predicate IsHex(c: char) {
    '0' <= c <= '9' || 'a' <= c <= 'f' || 'A' <= c <= 'F'
  }

  function HexVal(c: char): (n: nat)
    requires IsHex(c)
    ensures n < 16
  {
    if c <= '9' then c as int - '0' as int else if c <= 'F' then c as int - 'A' as int + 10
        else c as int - 'a' as int + 10
  }

  predicate IsAlnum(c: char) {
    '0' <= c <= '9' || 'A' <= c <= 'Z' || 'a' <= c <= 'z'
  }

  /** `s` without its leading white space. */
  function TrimStart(s: bytes): (t: bytes)
    ensures |t| <= |s|
    ensures t == [] || !IsSpace(t[0])
  {
    if s != [] && IsSpace(s[0]) then TrimStart(s[1..]) else s
  }

  /** Position of the first `c`, or the length when there is none. */
  function IndexOf(s: bytes, c: char): (i: nat)
    ensures i <= |s| && (i < |s| ==> s[i] == c)
  {
    if s == "" || s[0] == c then 0 else 1 + IndexOf(s[1..], c)
  }

  lemma {:induction false} IndexOfFirst(s: bytes, c: char)
    ensures c !in s[..IndexOf(s, c)]
    decreases |s|
  {
    if s != "" && s[0] != c {
      IndexOfFirst(s[1..], c);
      var i := IndexOf(s[1..], c);
      assert s[..i + 1] == [s[0]] + s[1..][..i];
    }
  }

  lemma NoneIn(s: bytes, c: char, i: nat, j: nat)
    requires i <= j <= |s| && c !in s[i..j]
    ensures forall k :: i <= k < j ==> s[k] != c
  {
    forall k | i <= k < j ensures s[k] != c { assert s[i..j][k - i] == s[k]; }
  }

  lemma IndexOfIs(s: bytes, c: char, i: nat)
    requires i <= |s| && c !in s[..i] && (i < |s| ==> s[i] == c)
    ensures IndexOf(s, c) == i
  {
    var j := IndexOf(s, c);
    IndexOfFirst(s, c);
    NoneIn(s, c, 0, i);
    NoneIn(s, c, 0, j);
  }

  /** A growable output buffer: the `&mut Vec<u8>` the emitters append to. */
  class Buffer {
    var data: bytes

    constructor ()
      ensures data == []
    {
      data := [];
    }

    method Push(c: char)
      modifies this
      ensures data == old(data) + [c]
    {
      data := data + [c];
    }

    method Extend(s: bytes)
      modifies this
      ensures data == old(data) + s
    {
      data := data + s;
    }

    method Truncate(n: nat)
      requires n <= |data|
      modifies this
      ensures data == old(data)[..n]
    {
      data := data[..n];
    }
  }
}
