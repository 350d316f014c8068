/**
 The Unix branch of platform.rs: the one-pass path cleaner with backtracking, refined to a
 stack of path elements, and `join` and `absolutize` on top of it.
 */
module CleanPath {
  import opened Common

  // ---- Path elements ----------------------------------------------------------------------

  /** The pieces between slashes. */
  function SplitSlash(s: string): (r: seq<string>)
    ensures |r| >= 1
  {
    if s == "" then [""]
    else
      var t := SplitSlash(s[1..]);
      if s[0] == '/' then [""] + t else [[s[0]] + t[0]] + t[1..]
  }

  function JoinSlash(cs: seq<string>): string {
    if cs == [] then ""
    else if |cs| == 1 then cs[0]
    else JoinSlash(cs[..|cs| - 1]) + "/" + cs[|cs| - 1]
  }

  predicate NoSlash(c: string) {
    '/' !in c
  }

  /** A real path element. */
  predicate IsName(c: string) {
    c != "" && c != "." && c != ".." && NoSlash(c)
  }

  /** The effect of one more character in front. */
  function PrefixChar(c: char, x: seq<string>): seq<string>
    requires |x| >= 1
  {
    if c == '/' then [""] + x else [[c] + x[0]] + x[1..]
  }

  lemma SplitCons(c: char, s: string)
    ensures SplitSlash([c] + s) == PrefixChar(c, SplitSlash(s))
  {
    assert ([c] + s)[1..] == s;
  }

  lemma PrefixAppend(c: char, x: seq<string>, y: seq<string>)
    requires |x| >= 1
    ensures PrefixChar(c, x + y) == PrefixChar(c, x) + y
  {
    assert (x + y)[1..] == x[1..] + y;
    if c == '/' {
      assert [""] + (x + y) == [""] + x + y;
    } else {
      assert [[c] + x[0]] + (x[1..] + y) == [[c] + x[0]] + x[1..] + y;
    }
  }

  lemma PrefixElement(c: char, h: string, y: seq<string>)
    requires c != '/'
    ensures PrefixChar(c, [h] + y) == [[c] + h] + y
  {
    assert ([h] + y)[1..] == y;
  }

  lemma NoSlashTail(c: string)
    requires NoSlash(c) && c != ""
    ensures NoSlash(c[1..]) && c[0] != '/'
  {
    assert c[0] in c;
    forall k | 0 <= k < |c| - 1 ensures c[1..][k] != '/' { assert c[k + 1] in c; }
  }

  lemma SplitFront(s: string)
    requires s == "" || s[0] == '/'
    ensures SplitSlash(s) == [""] + if s == "" then [] else SplitSlash(s[1..])
  {
  }

  lemma {:induction false} SplitElement(c: string, rest: string)
    requires NoSlash(c) && (rest == "" || rest[0] == '/')
    ensures SplitSlash(c + rest) == [c] + (if rest == "" then [] else SplitSlash(rest[1..]))
    decreases |c|
  {
    hide SplitSlash, NoSlash, PrefixChar;
    if c == "" {
      assert c + rest == rest;
      SplitFront(rest);
    } else {
      NoSlashTail(c);
      SplitElement(c[1..], rest);
      var t, more := c[1..] + rest, if rest == "" then [] else SplitSlash(rest[1..]);
      assert c + rest == [c[0]] + t && [c[0]] + c[1..] == c;
      SplitCons(c[0], t);
      PrefixElement(c[0], c[1..], more);
    }
  }

  lemma AppendHead(a: string, b: string)
    requires a != ""
    ensures a + "/" + b == [a[0]] + (a[1..] + "/" + b) && a == [a[0]] + a[1..]
  {
  }

  lemma {:induction false} SplitAppend(a: string, b: string)
    ensures SplitSlash(a + "/" + b) == SplitSlash(a) + SplitSlash(b)
    decreases |a|
  {
    if a == "" {
      assert a + "/" + b == "/" + b;
    } else {
      hide SplitSlash, PrefixChar;
      SplitAppend(a[1..], b);
      AppendHead(a, b);
      SplitCons(a[0], a[1..] + "/" + b);
      SplitCons(a[0], a[1..]);
      PrefixAppend(a[0], SplitSlash(a[1..]), SplitSlash(b));
    }
  }

  lemma {:induction false} SplitJoin(cs: seq<string>)
    requires cs != [] && forall k :: 0 <= k < |cs| ==> NoSlash(cs[k])
    ensures SplitSlash(JoinSlash(cs)) == cs
    decreases |cs|
  {
    var n := |cs| - 1;
    SplitElement(cs[n], "");
    assert cs[n] + "" == cs[n];
    if n > 0 {
      SplitJoin(cs[..n]);
      SplitAppend(JoinSlash(cs[..n]), cs[n]);
    }
  }

  lemma {:induction false} SplitElements(s: string, k: nat)
    requires k < |SplitSlash(s)|
    ensures NoSlash(SplitSlash(s)[k])
    decreases |s|
  {
    if s != "" {
      var t := SplitSlash(s[1..]);
      if s[0] == '/' {
        if k > 0 { SplitElements(s[1..], k - 1); }
      } else {
        SplitElements(s[1..], k);
      }
    }
  }

  lemma JoinSnoc(cs: seq<string>, c: string)
    requires cs != []
    ensures JoinSlash(cs + [c]) == JoinSlash(cs) + "/" + c
  {
    assert (cs + [c])[..|cs|] == cs;
  }

  lemma JoinOne(c: string)
    ensures JoinSlash([c]) == c
  {
  }

  lemma {:induction false} JoinCons(c: string, cs: seq<string>)
    requires cs != []
    ensures JoinSlash([c] + cs) == c + "/" + JoinSlash(cs)
    decreases |cs|
  {
    hide JoinSlash;
    var n := |cs| - 1;
    if n == 0 {
      JoinOne(c);
      JoinOne(cs[0]);
      JoinSnoc([c], cs[0]);
      assert [cs[0]] == cs && [c] + [cs[0]] == [c] + cs;
    } else {
      var p := cs[..n];
      JoinCons(c, p);
      JoinSnoc(p, cs[n]);
      JoinSnoc([c] + p, cs[n]);
      assert p + [cs[n]] == cs && [c] + p + [cs[n]] == [c] + cs;
      assert c + "/" + (JoinSlash(p) + "/" + cs[n]) == c + "/" + JoinSlash(p) + "/" + cs[n];
    }
  }

  lemma {:induction false} JoinHead(c: char, cs: seq<string>)
    requires cs != []
    ensures JoinSlash([[c] + cs[0]] + cs[1..]) == [c] + JoinSlash(cs)
    decreases |cs|
  {
    var n := |cs| - 1;
    if n == 0 {
      assert [[c] + cs[0]] + cs[1..] == [[c] + cs[0]];
      assert JoinSlash(cs) == cs[0];
    } else {
      var p, q := cs[..n], [[c] + cs[0]] + cs[1..n];
      JoinHead(c, p);
      assert p[0] == cs[0] && p[1..] == cs[1..n];
      hide JoinSlash;
      JoinSnoc(p, cs[n]);
      JoinSnoc(q, cs[n]);
      assert p + [cs[n]] == cs && q + [cs[n]] == [[c] + cs[0]] + cs[1..];
      assert [c] + (JoinSlash(p) + "/" + cs[n]) == [c] + JoinSlash(p) + "/" + cs[n];
    }
  }

  lemma {:induction false} JoinSplit(s: string)
    ensures JoinSlash(SplitSlash(s)) == s
    decreases |s|
  {
    if s != "" {
      JoinSplit(s[1..]);
      if s[0] == '/' {
        JoinCons("", SplitSlash(s[1..]));
        assert "" + "/" + s[1..] == s;
      } else {
        JoinHead(s[0], SplitSlash(s[1..]));
        assert [s[0]] + s[1..] == s;
      }
    }
  }

  // ---- The stack machine -------------------------------------------------------------------

  /** Leading `..` elements that could not be resolved, then real elements. */
  datatype Stack = Stack(ups: nat, names: seq<string>)

  const EMPTY: Stack := Stack(0, [])

  function Push(rooted: bool, st: Stack, c: string): Stack {
    if c == "" || c == "." then st
    else if c != ".." then st.(names := st.names + [c])
    else if st.names != [] then st.(names := st.names[..|st.names| - 1])
    else if rooted then st
    else st.(ups := st.ups + 1)
  }

  function Walk(rooted: bool, cs: seq<string>, st: Stack): Stack
    decreases |cs|
  {
    if cs == [] then st else Walk(rooted, cs[1..], Push(rooted, st, cs[0]))
  }

  predicate StackOk(rooted: bool, st: Stack) {
    (rooted ==> st.ups == 0) && forall k :: 0 <= k < |st.names| ==> IsName(st.names[k])
  }

  function Dots(n: nat): seq<string> {
    seq(n, _ => "..")
  }

  function Elements(st: Stack): seq<string> {
    Dots(st.ups) + st.names
  }

  /** The buffer that holds a stack. */
  function Raw(rooted: bool, st: Stack): string {
    (if rooted then "/" else "") + JoinSlash(Elements(st))
  }

  function Printed(rooted: bool, st: Stack): string {
    if Raw(rooted, st) == "" then "." else Raw(rooted, st)
  }

  predicate Rooted(p: string) {
    p != "" && p[0] == '/'
  }

  /** What `clean` computes. */
  function Clean(path: string): string {
    Printed(Rooted(path), Walk(Rooted(path), SplitSlash(path), EMPTY))
  }

  lemma {:induction false} WalkAppend(rooted: bool, a: seq<string>, b: seq<string>, st: Stack)
    ensures Walk(rooted, a + b, st) == Walk(rooted, b, Walk(rooted, a, st))
    decreases |a|
  {
    if a == [] {
      assert a + b == b;
    } else {
      assert (a + b)[1..] == a[1..] + b;
      WalkAppend(rooted, a[1..], b, Push(rooted, st, a[0]));
    }
  }

  lemma {:induction false} WalkOk(rooted: bool, cs: seq<string>, st: Stack)
    requires StackOk(rooted, st) && forall k :: 0 <= k < |cs| ==> NoSlash(cs[k])
    ensures StackOk(rooted, Walk(rooted, cs, st))
    decreases |cs|
  {
    if cs != [] { WalkOk(rooted, cs[1..], Push(rooted, st, cs[0])); }
  }

  lemma CleanStackOk(path: string)
    ensures StackOk(Rooted(path), Walk(Rooted(path), SplitSlash(path), EMPTY))
  {
    forall k | 0 <= k < |SplitSlash(path)| ensures NoSlash(SplitSlash(path)[k]) { SplitElements(path, k); }
    WalkOk(Rooted(path), SplitSlash(path), EMPTY);
  }

  // ---- Normal forms --------------------------------------------------------------------------

  /** Element `k` may stand where it stands. */
  predicate ElementOk(rooted: bool, cs: seq<string>, k: nat)
    requires k < |cs|
  {
    IsName(cs[k]) || (cs[k] == ".." && !rooted && forall j :: 0 <= j < k ==> cs[j] == "..")
  }

  predicate AllOk(rooted: bool, cs: seq<string>) {
    forall k :: 0 <= k < |cs| ==> ElementOk(rooted, cs, k)
  }

  /** The path without its root slash. */
  function Body(p: string): string {
    if Rooted(p) then p[1..] else p
  }

  /** No empty or `.` element, and `..` only in front of an unrooted path. */
  predicate NormalForm(p: string) {
    p == "." || p == "/"
    || (p != "" && AllOk(Rooted(p), SplitSlash(Body(p))))
  }

  lemma ElementsOk(rooted: bool, st: Stack)
    requires StackOk(rooted, st)
    ensures var cs := Elements(st);
            (forall k :: 0 <= k < |cs| ==> NoSlash(cs[k]) && cs[k] != "") && AllOk(rooted, cs)
  {
  }

  lemma {:induction false} JoinStart(cs: seq<string>)
    requires cs != [] && cs[0] != "" && NoSlash(cs[0])
    ensures JoinSlash(cs) != "" && JoinSlash(cs)[0] != '/'
    decreases |cs|
  {
    if |cs| > 1 { JoinStart(cs[..|cs| - 1]); }
  }

  lemma DotSplit()
    ensures SplitSlash(".") == ["."]
  {
    SplitElement(".", "");
    assert "." + "" == ".";
  }

  /** A printed stack splits back into its elements. */
  lemma PrintedSplit(rooted: bool, st: Stack)
    requires StackOk(rooted, st) && Elements(st) != []
    ensures var r := Printed(rooted, st);
            r == Raw(rooted, st) && Rooted(r) == rooted && r != "." && r != "/"
            && SplitSlash(Body(r)) == Elements(st)
  {
    var cs := Elements(st);
    ElementsOk(rooted, st);
    JoinStart(cs);
    SplitJoin(cs);
    var j := JoinSlash(cs);
    assert ("/" + j)[1..] == j && "" + j == j;
    DotSplit();
    assert ElementOk(rooted, cs, 0);
    assert j == "." ==> cs == ["."];
    assert j != ".";
  }

  lemma NothingPrinted(rooted: bool, st: Stack)
    requires StackOk(rooted, st) && Elements(st) == []
    ensures st == EMPTY && Printed(rooted, st) == if rooted then "/" else "."
  {
  }

  /** The output is in normal form and as rooted as the input. */
  lemma CleanIsNormal(path: string)
    ensures NormalForm(Clean(path)) && Rooted(Clean(path)) == Rooted(path)
  {
    var rooted := Rooted(path);
    var st := Walk(rooted, SplitSlash(path), EMPTY);
    CleanStackOk(path);
    if Elements(st) == [] {
      NothingPrinted(rooted, st);
    } else {
      PrintedSplit(rooted, st);
      ElementsOk(rooted, st);
    }
  }

  lemma {:induction false} WalkDots(n: nat, st: Stack)
    requires st.names == []
    ensures Walk(false, Dots(n), st) == Stack(st.ups + n, [])
    decreases n
  {
    if n > 0 {
      assert Dots(n)[1..] == Dots(n - 1);
      WalkDots(n - 1, st.(ups := st.ups + 1));
    }
  }

  lemma {:induction false} WalkNames(rooted: bool, cs: seq<string>, st: Stack)
    requires forall k :: 0 <= k < |cs| ==> IsName(cs[k])
    ensures Walk(rooted, cs, st) == Stack(st.ups, st.names + cs)
    decreases |cs|
  {
    if cs == [] {
      assert st.names + cs == st.names;
    } else {
      WalkNames(rooted, cs[1..], Push(rooted, st, cs[0]));
      assert st.names + [cs[0]] + cs[1..] == st.names + cs;
    }
  }

  lemma WalkElements(rooted: bool, st: Stack)
    requires StackOk(rooted, st)
    ensures Walk(rooted, Elements(st), EMPTY) == st
  {
    if rooted {
      assert Elements(st) == st.names;
      WalkNames(rooted, st.names, EMPTY);
      assert [] + st.names == st.names;
    } else {
      WalkDots(st.ups, EMPTY);
      WalkAppend(rooted, Dots(st.ups), st.names, EMPTY);
      WalkNames(rooted, st.names, Stack(st.ups, []));
      assert [] + st.names == st.names;
    }
  }

  /** Reading a printed stack gives the stack again. */
  lemma PrintedWalk(rooted: bool, st: Stack)
    requires StackOk(rooted, st)
    ensures Rooted(Printed(rooted, st)) == rooted
    ensures Walk(rooted, SplitSlash(Printed(rooted, st)), EMPTY) == st
  {
    var r := Printed(rooted, st);
    if Elements(st) == [] {
      NothingPrinted(rooted, st);
      SplitElement(".", "");
      assert "." + "" == ".";
      assert SplitSlash("/") == [""] + SplitSlash("/"[1..]);
      assert Walk(rooted, [""], EMPTY) == Walk(rooted, [""][1..], EMPTY);
      assert Walk(rooted, ["."], EMPTY) == Walk(rooted, ["."][1..], EMPTY);
      assert Walk(rooted, ["", ""], EMPTY) == Walk(rooted, ["", ""][1..], EMPTY);
    } else {
      PrintedSplit(rooted, st);
      WalkElements(rooted, st);
      if rooted {
        assert SplitSlash(r) == [""] + Elements(st);
        assert ([""] + Elements(st))[1..] == Elements(st);
      }
    }
  }

  /** The normal forms are exactly the paths that cleaning leaves alone. */
  lemma NormalFormIsFixed(p: string)
    ensures NormalForm(p) <==> Clean(p) == p
  {
    CleanIsNormal(p);
    if NormalForm(p) {
      var st := NormalStack(p);
      PrintedWalk(Rooted(p), st);
    }
  }

  /** Cleaning twice is cleaning once. */
  lemma CleanIdempotent(path: string)
    ensures Clean(Clean(path)) == Clean(path)
  {
    CleanIsNormal(path);
    NormalFormIsFixed(Clean(path));
  }

  /** How many `..` a normal form starts with. */
  function LeadingUps(cs: seq<string>): (n: nat)
    ensures n <= |cs|
  {
    if cs != [] && cs[0] == ".." then 1 + LeadingUps(cs[1..]) else 0
  }

  lemma {:induction false} LeadingUpsAre(cs: seq<string>)
    ensures cs[..LeadingUps(cs)] == Dots(LeadingUps(cs))
    ensures LeadingUps(cs) < |cs| ==> cs[LeadingUps(cs)] != ".."
    decreases |cs|
  {
    if cs != [] && cs[0] == ".." { LeadingUpsAre(cs[1..]); }
  }

  lemma StackOf(rooted: bool, cs: seq<string>) returns (st: Stack)
    requires AllOk(rooted, cs) && forall k :: 0 <= k < |cs| ==> NoSlash(cs[k])
    ensures StackOk(rooted, st) && Elements(st) == cs
  {
    var n := LeadingUps(cs);
    LeadingUpsAre(cs);
    forall k | n <= k < |cs| ensures IsName(cs[k]) {
      assert ElementOk(rooted, cs, k);
      var w := cs[n];
      assert w != "..";
    }
    if n > 0 {
      assert ElementOk(rooted, cs, 0);
      assert cs[..n][0] == "..";
    }
    st := Stack(n, cs[n..]);
  }

  /** A normal form is a printed stack. */
  lemma NormalStack(p: string) returns (st: Stack)
    requires NormalForm(p)
    ensures StackOk(Rooted(p), st) && Printed(Rooted(p), st) == p
  {
    if p == "." || p == "/" {
      st := EMPTY;
    } else {
      var body := Body(p);
      var cs := SplitSlash(body);
      JoinSplit(body);
      forall k | 0 <= k < |cs| ensures NoSlash(cs[k]) { SplitElements(body, k); }
      st := StackOf(Rooted(p), cs);
      assert Rooted(p) ==> "/" + p[1..] == p;
      assert "" + p == p;
      hide SplitSlash, JoinSlash;
    }
  }

  /** Cleaning a first part beforehand makes no difference to what the whole resolves to. */
  lemma CleanPrefix(a: string, b: string)
    requires a != ""
    ensures Clean(a + "/" + b) == Clean(Clean(a) + "/" + b)
  {
    var rooted := Rooted(a);
    var st := Walk(rooted, SplitSlash(a), EMPTY);
    CleanStackOk(a);
    CleanIsNormal(a);
    PrintedWalk(rooted, st);
    SplitAppend(a, b);
    SplitAppend(Clean(a), b);
    WalkAppend(rooted, SplitSlash(a), SplitSlash(b), EMPTY);
    WalkAppend(rooted, SplitSlash(Clean(a)), SplitSlash(b), EMPTY);
    assert Rooted(a + "/" + b) == rooted && Rooted(Clean(a) + "/" + b) == rooted;
  }

  // ---- The one-pass loop ------------------------------------------------------------------

  /** How much of the buffer cannot be taken back: the root, or the leading `..` elements. */
  function Floor(rooted: bool, st: Stack): nat {
    |Raw(rooted, Stack(st.ups, []))|
  }

  /** Separator before the next element. */
  function Sep(st: Stack): string {
    if Elements(st) == [] then "" else "/"
  }

  lemma RawName(rooted: bool, st: Stack, c: string)
    ensures Raw(rooted, st.(names := st.names + [c])) == Raw(rooted, st) + Sep(st) + c
  {
    var cs := Elements(st);
    assert Elements(st.(names := st.names + [c])) == cs + [c];
    if cs == [] {
      assert cs + [c] == [c];
      JoinOne(c);
    } else {
      JoinSnoc(cs, c);
    }
    hide JoinSlash;
  }

  lemma RawUp(st: Stack)
    requires st.names == []
    ensures Raw(false, st.(ups := st.ups + 1)) == Raw(false, st) + Sep(st) + ".."
  {
    var cs := Elements(st);
    assert Elements(st.(ups := st.ups + 1)) == cs + [".."];
    assert (cs + [".."])[..|cs|] == cs;
  }

  /** The buffer is longer than its floor exactly when there is an element to take back. */
  lemma {:induction false} FloorMeaning(rooted: bool, st: Stack)
    requires StackOk(rooted, st)
    ensures Floor(rooted, st) <= |Raw(rooted, st)|
    ensures |Raw(rooted, st)| > Floor(rooted, st) <==> st.names != []
    decreases |st.names|
  {
    var n := |st.names| - 1;
    if n >= 0 {
      var below := st.(names := st.names[..n]);
      assert below.names + [st.names[n]] == st.names;
      RawName(rooted, below, st.names[n]);
      FloorMeaning(rooted, below);
    }
  }

  /** The buffer without its root slash is empty exactly for the empty stack. */
  lemma RawEmpty(rooted: bool, st: Stack)
    requires StackOk(rooted, st)
    ensures |Raw(rooted, st)| == (if rooted then 1 else 0) <==> Elements(st) == []
  {
    if Elements(st) != [] {
      ElementsOk(rooted, st);
      JoinStart(Elements(st));
    }
  }

  lemma DropLast(a: string, b: string, j: nat)
    requires 0 < j <= |b| && NoSlash(b)
    ensures var s := a + b[..j]; s[..|s| - 1] == a + b[..j - 1] && s[|s| - 1] == b[j - 1] && s[|s| - 1] != '/'
  {
    assert b[j - 1] in b;
  }

  /** The loop over the characters of the last element, and its separator. */
  method PopName(out: string, dotdot: nat, ghost pre: string, ghost name: string) returns (r: string)
    requires out == pre + name && name != "" && NoSlash(name)
    requires |pre| == dotdot || (|pre| > dotdot && pre[|pre| - 1] == '/')
    ensures r == if |pre| > dotdot then pre[..|pre| - 1] else pre
  {
    hide NoSlash;
    ghost var j := |name| - 1;
    assert name[..|name|] == name;
    DropLast(pre, name, |name|);
    r := out[..|out| - 1];
    while |r| > dotdot && r[|r| - 1] != '/'
      invariant 0 <= j < |name| && r == pre + name[..j]
      decreases j
    {
      DropLast(pre, name, j);
      r := r[..|r| - 1];
      j := j - 1;
    }
    if j > 0 { DropLast(pre, name, j); }
    assert name[..0] == "" && pre + "" == pre;
    if |r| > dotdot && r[|r| - 1] == '/' {
      r := r[..|r| - 1];
    }
  }

  /** Take the last element back, down to its separator. */
  method Backtrack(out: string, ghost rooted: bool, dotdot: nat, ghost st: Stack) returns (r: string)
    requires StackOk(rooted, st) && st.names != [] && out == Raw(rooted, st) && dotdot == Floor(rooted, st)
    ensures r == Raw(rooted, st.(names := st.names[..|st.names| - 1]))
  {
    ghost var n := |st.names| - 1;
    ghost var below, name := st.(names := st.names[..n]), st.names[n];
    ghost var base, sep := Raw(rooted, below), Sep(below);
    assert below.names + [name] == st.names;
    RawName(rooted, below, name);
    FloorMeaning(rooted, below);
    assert sep == "" ==> base == Raw(rooted, Stack(0, [])) && base + sep == base;
    assert sep != "" ==> sep == "/" && (base + sep)[..|base|] == base;
    hide Raw, Sep, Elements;
    r := PopName(out, dotdot, base + sep, name);
  }

  /** The element that starts at `r`, for the three branches of the loop. */
  lemma TakeElement(rooted: bool, path: string, r: nat, e: nat, st: Stack)
    requires r < e <= |path| && NoSlash(path[r..e]) && (e == |path| || path[e] == '/')
    ensures Walk(rooted, SplitSlash(path[r..]), st) == Walk(rooted, SplitSlash(path[e..]), Push(rooted, st, path[r..e]))
  {
    var c, rest := path[r..e], path[e..];
    assert path[r..] == c + rest;
    SplitElement(c, rest);
    var next := Push(rooted, st, c);
    if e == |path| {
      assert SplitSlash(rest) == [""];
      assert [""][1..] == [];
      assert Walk(rooted, [""], next) == Walk(rooted, [""][1..], next);
      assert [c][1..] == [];
    } else {
      assert SplitSlash(rest) == [""] + SplitSlash(rest[1..]);
      assert ([""] + SplitSlash(rest[1..]))[1..] == SplitSlash(rest[1..]);
      assert ([c] + SplitSlash(rest[1..]))[1..] == SplitSlash(rest[1..]);
    }
  }

  lemma SkipSlash(rooted: bool, path: string, r: nat, st: Stack)
    requires r < |path| && path[r] == '/'
    ensures Walk(rooted, SplitSlash(path[r..]), st) == Walk(rooted, SplitSlash(path[r + 1..]), st)
  {
    assert path[r..][1..] == path[r + 1..];
    var t := SplitSlash(path[r + 1..]);
    assert ([""] + t)[1..] == t;
  }

  /** Copy a real element and what separates it. */
  method CopyElement(path: string, from: nat, out: string, rooted: bool, ghost st: Stack) returns (r: nat, o: string)
    requires from < |path| && path[from] != '/' && StackOk(rooted, st) && out == Raw(rooted, st)
    requires !(path[from] == '.' && (from + 1 == |path| || path[from + 1] == '/'))
    requires !(path[from] == '.' && from + 1 < |path| && path[from + 1] == '.'
               && (from + 2 == |path| || path[from + 2] == '/'))
    ensures from < r <= |path| && NoSlash(path[from..r]) && (r == |path| || path[r] == '/')
    ensures IsName(path[from..r]) && o == Raw(rooted, st.(names := st.names + [path[from..r]]))
  {
    o := AddSep(out, rooted, st);
    hide Raw, Sep, StackOk;
    ghost var start := o;
    r := from;
    while r < |path| && path[r] != '/'
      invariant from <= r <= |path| && NoSlash(path[from..r]) && o == start + path[from..r]
    {
      assert path[from..r + 1] == path[from..r] + [path[r]];
      o := o + [path[r]];
      r := r + 1;
    }
    RawName(rooted, st, path[from..r]);
    IsElement(path, from, r);
  }

  method AddSep(out: string, rooted: bool, ghost st: Stack) returns (o: string)
    requires StackOk(rooted, st) && out == Raw(rooted, st)
    ensures o == out + Sep(st)
  {
    RawEmpty(rooted, st);
    o := out;
    if (rooted && |out| != 1) || (!rooted && out != "") { o := o + "/"; }
  }

  lemma IsElement(path: string, from: nat, r: nat)
    requires from < r <= |path| && NoSlash(path[from..r]) && (r == |path| || path[r] == '/')
    requires !(path[from] == '.' && (from + 1 == |path| || path[from + 1] == '/'))
    requires !(path[from] == '.' && from + 1 < |path| && path[from + 1] == '.'
               && (from + 2 == |path| || path[from + 2] == '/'))
    ensures IsName(path[from..r])
  {
    var c := path[from..r];
    assert c[0] == path[from];
    assert |c| > 1 ==> c[1] == path[from + 1];
  }

  /** `clean_for` on Unix. */
  method CleanFor(path: string) returns (result: string)
    ensures result == Clean(path)
  {
    if path == "" {
      assert SplitSlash(path) == [""] && [""][1..] == [];
      assert Walk(false, [""], EMPTY) == Walk(false, [""][1..], EMPTY);
      return ".";
    }
    var rooted := path[0] == '/';
    var n := |path|;
    var out, r, dotdot := "", 0, 0;
    ghost var st := EMPTY;
    ghost var final := Walk(rooted, SplitSlash(path), EMPTY);
    assert path[0..] == path;
    if rooted {
      out, r, dotdot := "/", 1, 1;
      SkipSlash(rooted, path, 0, st);
    }
    while r < n
      invariant r <= n && StackOk(rooted, st) && out == Raw(rooted, st) && dotdot == Floor(rooted, st)
      invariant Walk(rooted, SplitSlash(path[r..]), st) == final
      decreases n - r
    {
      out, r, dotdot, st := Turn(path, rooted, out, r, dotdot, st);
    }
    FinalWalk(rooted, path, st);
    result := if out == "" then "." else out;
  }

  lemma FinalWalk(rooted: bool, path: string, st: Stack)
    ensures Walk(rooted, SplitSlash(path[|path|..]), st) == st
  {
    assert [""][1..] == [];
    assert Walk(rooted, [""], st) == Walk(rooted, [""][1..], st);
  }

  /** One turn of the loop. */
  method Turn(path: string, rooted: bool, out: string, r: nat, dotdot: nat, ghost st: Stack)
    returns (o: string, r': nat, d: nat, ghost st': Stack)
    requires r < |path| && StackOk(rooted, st) && out == Raw(rooted, st) && dotdot == Floor(rooted, st)
    ensures r < r' <= |path| && StackOk(rooted, st') && o == Raw(rooted, st') && d == Floor(rooted, st')
    ensures Walk(rooted, SplitSlash(path[r'..]), st') == Walk(rooted, SplitSlash(path[r..]), st)
  {
    o, d, st' := out, dotdot, st;
    hide SplitSlash, Walk, Raw, Floor;
    if path[r] == '/' {
      r' := r + 1;
      SkipSlash(rooted, path, r, st);
    } else if path[r] == '.' && (r + 1 == |path| || path[r + 1] == '/') {
      r' := r + 1;
      assert path[r..r'] == ".";
      TakeElement(rooted, path, r, r', st);
    } else if path[r] == '.' && path[r + 1] == '.' && (r + 2 == |path| || path[r + 2] == '/') {
      r' := r + 2;
      assert path[r..r'] == "..";
      TakeElement(rooted, path, r, r', st);
      o, d := DotDot(rooted, out, dotdot, st);
      st' := Push(rooted, st, "..");
    } else {
      r', o := CopyElement(path, r, out, rooted, st);
      TakeElement(rooted, path, r, r', st);
      st' := st.(names := st.names + [path[r..r']]);
      FloorKept(rooted, st, st');
    }
  }

  lemma FloorKept(rooted: bool, st: Stack, st': Stack)
    requires st.ups == st'.ups
    ensures Floor(rooted, st) == Floor(rooted, st')
  {
  }

  /** The `..` branch. */
  method DotDot(rooted: bool, out: string, dotdot: nat, ghost st: Stack) returns (o: string, d: nat)
    requires StackOk(rooted, st) && out == Raw(rooted, st) && dotdot == Floor(rooted, st)
    ensures StackOk(rooted, Push(rooted, st, ".."))
    ensures o == Raw(rooted, Push(rooted, st, "..")) && d == Floor(rooted, Push(rooted, st, ".."))
  {
    o, d := out, dotdot;
    FloorMeaning(rooted, st);
    if |out| > dotdot {
      o := Backtrack(out, rooted, dotdot, st);
      FloorKept(rooted, st, Push(rooted, st, ".."));
    } else if !rooted {
      RawEmpty(rooted, st);
      RawUp(st);
      if out != "" { o := o + "/"; }
      o := o + "..";
      d := |o|;
    }
  }

  // ---- Join and absolutize -----------------------------------------------------------------

  /** The elements from the first non-empty one on, joined and cleaned; empty when there is none. */
  function Join(elems: seq<string>): string {
    if elems == [] then "" else if elems[0] == "" then Join(elems[1..]) else Clean(JoinSlash(elems))
  }

  /** `join_for` on Unix. */
  method JoinFor(elems: seq<string>) returns (r: string)
    ensures r == Join(elems)
  {
    var i := 0;
    assert elems[0..] == elems;
    while i < |elems|
      invariant i <= |elems| && Join(elems[i..]) == Join(elems)
    {
      assert elems[i..][1..] == elems[i + 1..];
      if elems[i] != "" {
        r := CleanFor(JoinSlash(elems[i..]));
        return;
      }
      i := i + 1;
    }
    r := "";
  }

  function Absolutize(path: string, cwd: string): string {
    if Rooted(path) then Clean(path) else Join([cwd, path])
  }

  /** `absolutize_for` on Unix. */
  method AbsolutizeFor(path: string, cwd: string) returns (r: string)
    ensures r == Absolutize(path, cwd)
  {
    if path != "" && path[0] == '/' {
      r := CleanFor(path);
    } else {
      r := JoinFor([cwd, path]);
    }
  }

  lemma JoinTwo(a: string, b: string)
    ensures a != "" ==> Join([a, b]) == Clean(a + "/" + b)
    ensures a == "" ==> Join([a, b]) == if b == "" then "" else Clean(b)
  {
    var two := [a, b];
    assert two[1..] == [b] && two[..1] == [a] && [b][1..] == [];
    assert Join([]) == "";
    assert Join([b]) == if b == "" then Join([b][1..]) else Clean(JoinSlash([b]));
    assert JoinSlash(two) == JoinSlash(two[..1]) + "/" + two[1];
    assert JoinSlash([a]) == a && JoinSlash([b]) == b;
  }

  /** With a rooted working directory the result is always a rooted normal form, and only then for relative paths. */
  lemma AbsolutizeRooted(path: string, cwd: string)
    ensures Rooted(Absolutize(path, cwd)) <==> Rooted(path) || Rooted(cwd)
    ensures path != "" || cwd != "" ==> NormalForm(Absolutize(path, cwd))
  {
    JoinTwo(cwd, path);
    CleanIsNormal(path);
    CleanIsNormal(cwd + "/" + path);
  }

  /** Making an absolute result absolute again changes nothing. */
  lemma AbsolutizeIdempotent(path: string, cwd: string, cwd': string)
    requires Rooted(cwd)
    ensures Absolutize(Absolutize(path, cwd), cwd') == Absolutize(path, cwd)
  {
    AbsolutizeRooted(path, cwd);
    NormalFormIsFixed(Absolutize(path, cwd));
  }

  // ---- Where a path leads ----------------------------------------------------------------------

  /** One step in a tree of directories without links; the root is its own parent. */
  function Enter(at: seq<string>, c: string): seq<string> {
    if c == "" || c == "." then at
    else if c == ".." then if at == [] then [] else at[..|at| - 1]
    else at + [c]
  }

  function Follow(at: seq<string>, cs: seq<string>): seq<string>
    decreases |cs|
  {
    if cs == [] then at else Follow(Enter(at, cs[0]), cs[1..])
  }

  /** Where a path leads from a working directory: the names from the root down. */
  function Place(cwd: seq<string>, path: string): seq<string> {
    Follow(if Rooted(path) then [] else cwd, SplitSlash(path))
  }

  function Up(at: seq<string>, n: nat): seq<string> {
    if n >= |at| then [] else at[..|at| - n]
  }

  lemma {:induction false} FollowAppend(at: seq<string>, a: seq<string>, b: seq<string>)
    ensures Follow(at, a + b) == Follow(Follow(at, a), b)
    decreases |a|
  {
    if a == [] {
      assert a + b == b;
    } else {
      assert (a + b)[1..] == a[1..] + b;
      FollowAppend(Enter(at, a[0]), a[1..], b);
    }
  }

  lemma PushEnters(rooted: bool, at: seq<string>, st: Stack, c: string)
    requires rooted ==> at == [] && st.ups == 0
    ensures var u := Push(rooted, st, c); Enter(Up(at, st.ups) + st.names, c) == Up(at, u.ups) + u.names
  {
    var base := Up(at, st.ups);
    var here := base + st.names;
    if c == ".." {
      if st.names != [] {
        assert here[..|here| - 1] == base + st.names[..|st.names| - 1];
      } else {
        assert here == base;
        if st.ups < |at| { assert at[..|at| - st.ups][..|at| - st.ups - 1] == at[..|at| - (st.ups + 1)]; }
        assert Up(at, st.ups + 1) + [] == Up(at, st.ups + 1);
        assert rooted ==> base == [];
      }
    } else if c != "" && c != "." {
      assert here + [c] == base + (st.names + [c]);
    }
  }

  /** A stack stands for going up and then down its names. */
  lemma {:induction false} WalkFollows(rooted: bool, at: seq<string>, cs: seq<string>, st: Stack)
    requires rooted ==> at == [] && st.ups == 0
    ensures var u := Walk(rooted, cs, st); Follow(Up(at, st.ups) + st.names, cs) == Up(at, u.ups) + u.names
    decreases |cs|
  {
    if cs != [] {
      PushEnters(rooted, at, st, cs[0]);
      WalkFollows(rooted, at, cs[1..], Push(rooted, st, cs[0]));
    }
  }

  /** A cleaned path leads to the same place from every working directory. */
  lemma CleanSamePlace(cwd: seq<string>, path: string)
    ensures Place(cwd, Clean(path)) == Place(cwd, path)
  {
    hide SplitSlash, Walk, Follow, Printed, NormalForm;
    var rooted := Rooted(path);
    var at := if rooted then [] else cwd;
    var st := Walk(rooted, SplitSlash(path), EMPTY);
    CleanStackOk(path);
    CleanIsNormal(path);
    PrintedWalk(rooted, st);
    assert Up(at, 0) + [] == at;
    WalkFollows(rooted, at, SplitSlash(path), EMPTY);
    WalkFollows(rooted, at, SplitSlash(Clean(path)), EMPTY);
  }

  /** An absolute path leads where the path leads from the working directory. */
  lemma AbsolutizeSamePlace(path: string, cwd: string, at: seq<string>)
    requires Rooted(cwd) || Rooted(path)
    ensures Place(at, Absolutize(path, cwd)) == Place(Place(at, cwd), path)
  {
    hide SplitSlash, Clean, Follow;
    if Rooted(path) {
      CleanSamePlace(at, path);
    } else {
      var joined := cwd + "/" + path;
      JoinTwo(cwd, path);
      CleanSamePlace(at, joined);
      SplitAppend(cwd, path);
      FollowAppend([], SplitSlash(cwd), SplitSlash(path));
    }
  }
}
