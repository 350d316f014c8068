/**
 Descriptors and the symbol table of flatten.rs: reserving unique top-level names,
 registering every declaration, and the table that maps each declared type to its image.
 */
module FlattenNames {
  import opened Common
  import opened Decimal

  // ---- Descriptors ------------------------------------------------------------------------

  datatype Kind = StringKind | BytesKind | MessageKind | GroupKind | EnumKind | OtherKind

  datatype FieldOptions = FieldOptions(packed: Option<bool>, custom: string)

  /** An empty string stands for an absent name. */
  datatype Field = Field(
    name: string,
    repeated: bool,
    kind: Option<Kind>,
    typeName: string,
    extendee: string,
    defaultValue: string,
    jsonName: Option<string>,
    options: Option<FieldOptions>,
    proto3Optional: bool,
    oneofIndex: Option<int>)

  datatype EnumDecl = EnumDecl(name: string, values: seq<string>)

  datatype Message = Message(
    name: string,
    fields: seq<Field>,
    nested: seq<Message>,
    enums: seq<EnumDecl>,
    extensions: seq<Field>,
    oneofs: seq<string>)

  datatype Rpc = Rpc(name: string, input: string, output: string)

  datatype Service = Service(name: string, methods: seq<Rpc>)

  /** A source location: its path and, if it has comments, their text. */
  datatype Location = Location(path: seq<int>, comments: Option<string>)

  datatype File = File(
    name: string,
    pkg: string,
    syntax: string,
    messages: seq<Message>,
    enums: seq<EnumDecl>,
    services: seq<Service>,
    extensions: seq<Field>,
    info: Option<seq<Location>>)

  // ---- Names -----------------------------------------------------------------------------------

  function Qualify(parent: string, name: string): string {
    if parent == "" then name else if name == "" then parent else parent + "." + name
  }

  /** A single name, without dots. */
  predicate Plain(n: string) {
    n != "" && '.' !in n
  }

  /** The part behind the last dot. */
  function ShortName(full: string): string {
    if full == "" || full[|full| - 1] == '.' then "" else ShortName(full[..|full| - 1]) + [full[|full| - 1]]
  }

  lemma {:induction false} ShortOfQualified(p: string, n: string)
    requires '.' !in n
    ensures ShortName(p + "." + n) == n
    decreases |n|
  {
    var s := p + "." + n;
    if n != "" {
      var m := |n| - 1;
      assert s[..|s| - 1] == p + "." + n[..m];
      assert n[m] in n && n[m] != '.';
      forall k | 0 <= k < m ensures n[..m][k] != '.' { assert n[k] in n; }
      ShortOfQualified(p, n[..m]);
      assert n[..m] + [n[m]] == n;
    }
  }

  lemma {:induction false} ShortOfPlain(n: string)
    requires '.' !in n
    ensures ShortName(n) == n
    decreases |n|
  {
    if n != "" {
      var m := |n| - 1;
      assert n[m] in n && n[m] != '.';
      forall k | 0 <= k < m ensures n[..m][k] != '.' { assert n[k] in n; }
      ShortOfPlain(n[..m]);
      assert n[..m] + [n[m]] == n;
    }
  }

  /** The name of a qualified plain name is read back. */
  lemma QualifyShort(root: string, n: string)
    requires Plain(n)
    ensures Qualify(root, ShortName(Qualify(root, n))) == Qualify(root, n)
  {
    ShortOfPlain(n);
    if root != "" { ShortOfQualified(root, n); }
  }

  function Upper(c: char): char {
    if 'a' <= c <= 'z' then (c as int - 32) as char else c
  }

  /** Letters and digits, the first of each run in upper case. */
  function Camel(pkg: string, upper: bool): string {
    if pkg == "" then ""
    else if !IsAlnum(pkg[0]) then Camel(pkg[1..], true)
    else [if upper then Upper(pkg[0]) else pkg[0]] + Camel(pkg[1..], false)
  }

  function PackagePrefix(pkg: string): string {
    if Camel(pkg, true) == "" then "NoPackage" else Camel(pkg, true)
  }

  lemma {:induction false} CamelDotFree(pkg: string, upper: bool)
    ensures '.' !in Camel(pkg, upper)
    decreases |pkg|
  {
    if pkg != "" {
      CamelDotFree(pkg[1..], true);
      CamelDotFree(pkg[1..], false);
    }
  }

  lemma PrefixPlain(pkg: string, name: string)
    requires Plain(name)
    ensures Plain(PackagePrefix(pkg) + "_" + name)
  {
    CamelDotFree(pkg, true);
  }

  method PackagePrefixLoop(pkg: string) returns (r: string)
    ensures r == PackagePrefix(pkg)
  {
    var out, upper := "", true;
    assert pkg[0..] == pkg;
    for i := 0 to |pkg|
      invariant out + Camel(pkg[i..], upper) == Camel(pkg, true)
    {
      assert pkg[i..][1..] == pkg[i + 1..];
      var c := pkg[i];
      if !IsAlnum(c) {
        upper := true;
      } else {
        out := out + [if upper then Upper(c) else c];
        upper := false;
      }
    }
    r := if out == "" then "NoPackage" else out;
  }

  // ---- Unique names -----------------------------------------------------------------------------

  /** The k-th name tried: the candidate, then with suffix `_2`, `_3`, … */
  function Candidate(c: string, k: nat): string {
    if k == 0 then c else c + "_" + NatText(k + 1)
  }

  lemma CandidateInjective(c: string, i: nat, j: nat)
    requires Candidate(c, i) == Candidate(c, j)
    ensures i == j
  {
    if i > 0 && j > 0 {
      assert Candidate(c, i)[|c| + 1..] == NatText(i + 1) && Candidate(c, j)[|c| + 1..] == NatText(j + 1);
      NatTextInjective(i + 1, j + 1);
    }
  }

  /** If the first k names are taken, at least k names are. */
  lemma {:induction false} Taken(used: set<string>, c: string, k: nat)
    requires forall i :: 0 <= i < k ==> Candidate(c, i) in used
    ensures k <= |used|
    decreases k
  {
    if k > 0 {
      var rest := used - {Candidate(c, k - 1)};
      forall i | 0 <= i < k - 1 ensures Candidate(c, i) in rest {
        if Candidate(c, i) == Candidate(c, k - 1) { CandidateInjective(c, i, k - 1); }
      }
      Taken(rest, c, k - 1);
    }
  }

  /** The first free name from the k-th on. */
  function FirstFree(used: set<string>, c: string, k: nat): (n: nat)
    requires forall i :: 0 <= i < k ==> Candidate(c, i) in used
    ensures Candidate(c, n) !in used
    decreases |used| + 1 - k
  {
    Taken(used, c, k);
    if Candidate(c, k) in used then FirstFree(used, c, k + 1) else k
  }

  function Reserved(used: set<string>, c: string): (n: string)
    ensures n !in used
  {
    Candidate(c, FirstFree(used, c, 0))
  }

  lemma ReservedPlain(used: set<string>, c: string)
    requires Plain(c)
    ensures Plain(Reserved(used, c))
  {
    var k := FirstFree(used, c, 0);
    NatTextDigits(k + 1);
  }

  // ---- Relative names ------------------------------------------------------------------------------

  function Prefixed(p: string, xs: seq<string>): (r: seq<string>)
    ensures |r| == |xs|
  {
    if xs == [] then [] else [p + xs[0]] + Prefixed(p, xs[1..])
  }

  lemma {:induction false} PrefixedAt(p: string, xs: seq<string>, k: nat)
    requires k < |xs|
    ensures Prefixed(p, xs)[k] == p + xs[k]
  {
    if k > 0 { PrefixedAt(p, xs[1..], k - 1); }
  }

  lemma {:induction false} PrefixedAppend(p: string, xs: seq<string>, ys: seq<string>)
    ensures Prefixed(p, xs + ys) == Prefixed(p, xs) + Prefixed(p, ys)
    decreases |xs|
  {
    if xs == [] {
      assert xs + ys == ys;
    } else {
      PrefixedAppend(p, xs[1..], ys);
      assert (xs + ys)[1..] == xs[1..] + ys && (xs + ys)[0] == xs[0];
      assert Prefixed(p, xs + ys) == [p + xs[0]] + Prefixed(p, xs[1..] + ys);
      assert Prefixed(p, xs) == [p + xs[0]] + Prefixed(p, xs[1..]);
    }
  }

  lemma {:induction false} PrefixedTwice(p: string, q: string, xs: seq<string>)
    ensures Prefixed(p, Prefixed(q, xs)) == Prefixed(p + q, xs)
    decreases |xs|
  {
    if xs != [] {
      PrefixedTwice(p, q, xs[1..]);
      Assoc(p, q, xs[0]);
      assert Prefixed(q, xs)[1..] == Prefixed(q, xs[1..]);
    }
  }

  function EnumRels(es: seq<EnumDecl>): seq<string> {
    if es == [] then [] else ["." + es[0].name] + EnumRels(es[1..])
  }

  function MessageRels(ms: seq<Message>): seq<string> {
    if ms == [] then []
    else
      var m, p := ms[0], "." + ms[0].name;
      [p] + Prefixed(p, MessageRels(m.nested) + EnumRels(m.enums)) + MessageRels(ms[1..])
  }

  /** The types declared inside a message, relative to its own name. */
  function Rels(m: Message): seq<string> {
    MessageRels(m.nested) + EnumRels(m.enums)
  }

  // ---- The program's own nested names -----------------------------------------------------------

  function EnumNames(parent: string, es: seq<EnumDecl>): seq<string> {
    if es == [] then [] else [Qualify(parent, es[0].name)] + EnumNames(parent, es[1..])
  }

  function MessageNames(parent: string, ms: seq<Message>): seq<string>
    decreases ms
  {
    if ms == [] then []
    else
      var m, q := ms[0], Qualify(parent, ms[0].name);
      [q] + (MessageNames(q, m.nested) + EnumNames(q, m.enums)) + MessageNames(parent, ms[1..])
  }

  /** Full names of the types declared inside a message, in the order they are registered. */
  function NestedNames(full: string, m: Message): seq<string> {
    MessageNames(full, m.nested) + EnumNames(full, m.enums)
  }

  lemma {:induction false} MessageNamesAppend(parent: string, a: seq<Message>, b: seq<Message>)
    ensures MessageNames(parent, a + b) == MessageNames(parent, a) + MessageNames(parent, b)
    decreases |a|
  {
    hide EnumNames, Qualify;
    if a == [] {
      assert a + b == b;
    } else {
      assert (a + b)[1..] == a[1..] + b;
      MessageNamesAppend(parent, a[1..], b);
    }
  }

  lemma MessageNamesSnoc(parent: string, ms: seq<Message>, i: nat)
    requires i < |ms|
    ensures var q := Qualify(parent, ms[i].name);
            MessageNames(parent, ms[..i + 1]) == MessageNames(parent, ms[..i]) + ([q] + NestedNames(q, ms[i]))
  {
    assert ms[..i + 1] == ms[..i] + [ms[i]];
    MessageNamesAppend(parent, ms[..i], [ms[i]]);
    OneMessageName(parent, ms[i]);
  }

  lemma OneMessageName(parent: string, m: Message)
    ensures MessageNames(parent, [m]) == [Qualify(parent, m.name)] + NestedNames(Qualify(parent, m.name), m)
  {
    hide EnumNames, Qualify;
    assert [m][1..] == [] && MessageNames(parent, []) == [];
  }

  lemma {:induction false} EnumNamesAppend(parent: string, a: seq<EnumDecl>, b: seq<EnumDecl>)
    ensures EnumNames(parent, a + b) == EnumNames(parent, a) + EnumNames(parent, b)
    decreases |a|
  {
    if a == [] {
      assert a + b == b;
    } else {
      assert (a + b)[1..] == a[1..] + b;
      EnumNamesAppend(parent, a[1..], b);
    }
  }

  lemma NoEnumNames(parent: string)
    ensures EnumNames(parent, []) == []
  {
  }

  lemma EnumNamesSnoc(parent: string, es: seq<EnumDecl>, i: nat)
    requires i < |es|
    ensures EnumNames(parent, es[..i + 1]) == EnumNames(parent, es[..i]) + [Qualify(parent, es[i].name)]
  {
    assert es[..i + 1] == es[..i] + [es[i]];
    EnumNamesAppend(parent, es[..i], [es[i]]);
    assert [es[i]][1..] == [];
  }

  predicate NamedEnums(es: seq<EnumDecl>) {
    forall k :: 0 <= k < |es| ==> Plain(es[k].name)
  }

  /** Every declaration has a plain name. */
  predicate NamedMessages(ms: seq<Message>) {
    forall k :: 0 <= k < |ms| ==> Plain(ms[k].name) && NamedMessages(ms[k].nested) && NamedEnums(ms[k].enums)
  }

  lemma {:induction false} EnumNamesAre(parent: string, es: seq<EnumDecl>)
    requires parent != "" && NamedEnums(es)
    ensures EnumNames(parent, es) == Prefixed(parent, EnumRels(es))
    decreases |es|
  {
    if es != [] {
      EnumNamesAre(parent, es[1..]);
      Assoc(parent, ".", es[0].name);
    }
  }

  lemma {:induction false} MessageNamesAre(parent: string, ms: seq<Message>)
    requires parent != "" && NamedMessages(ms)
    ensures MessageNames(parent, ms) == Prefixed(parent, MessageRels(ms))
    decreases ms
  {
    if ms != [] {
      var m, p, q := ms[0], "." + ms[0].name, Qualify(parent, ms[0].name);
      var inner, rest := Rels(m), MessageRels(ms[1..]);
      assert q == parent + p;
      MessageNamesAre(q, m.nested);
      EnumNamesAre(q, m.enums);
      PrefixedAppend(q, MessageRels(m.nested), EnumRels(m.enums));
      MessageNamesAre(parent, ms[1..]);
      PrefixedTwice(parent, p, inner);
      PrefixedAppend(parent, [p], Prefixed(p, inner));
      PrefixedAppend(parent, [p] + Prefixed(p, inner), rest);
      assert Prefixed(parent, [p]) == [q] by { assert [p][1..] == []; }
    }
  }

  lemma NestedNamesAre(full: string, m: Message)
    requires full != "" && NamedMessages(m.nested) && NamedEnums(m.enums)
    ensures NestedNames(full, m) == Prefixed(full, Rels(m))
  {
    MessageNamesAre(full, m.nested);
    EnumNamesAre(full, m.enums);
    PrefixedAppend(full, MessageRels(m.nested), EnumRels(m.enums));
  }

  /** Relative names start with a dot. */
  ghost predicate AllDotted(xs: seq<string>) {
    forall k :: 0 <= k < |xs| ==> xs[k] != "" && xs[k][0] == '.'
  }

  lemma DottedAppend(xs: seq<string>, ys: seq<string>)
    requires AllDotted(xs) && AllDotted(ys)
    ensures AllDotted(xs + ys)
  {
  }

  lemma DottedPrefixed(p: string, xs: seq<string>)
    requires p != "" && p[0] == '.'
    ensures AllDotted(Prefixed(p, xs))
  {
    forall k | 0 <= k < |xs| ensures Prefixed(p, xs)[k] != "" && Prefixed(p, xs)[k][0] == '.' { PrefixedAt(p, xs, k); }
  }

  lemma {:induction false} EnumRelsDotted(es: seq<EnumDecl>)
    ensures AllDotted(EnumRels(es))
    decreases |es|
  {
    if es != [] {
      EnumRelsDotted(es[1..]);
      DottedAppend(["." + es[0].name], EnumRels(es[1..]));
    }
  }

  lemma {:induction false} MessageRelsDotted(ms: seq<Message>)
    ensures AllDotted(MessageRels(ms))
    decreases |ms|
  {
    if ms != [] {
      var p := "." + ms[0].name;
      MessageRelsDotted(ms[1..]);
      DottedPrefixed(p, Rels(ms[0]));
      DottedAppend([p], Prefixed(p, Rels(ms[0])));
      DottedAppend([p] + Prefixed(p, Rels(ms[0])), MessageRels(ms[1..]));
    }
  }

  lemma RelsDotted(m: Message)
    ensures AllDotted(Rels(m))
  {
    MessageRelsDotted(m.nested);
    EnumRelsDotted(m.enums);
    DottedAppend(MessageRels(m.nested), EnumRels(m.enums));
  }

  // ---- The symbol table ----------------------------------------------------------------------------

  datatype Table = Table(
    used: set<string>,
    types: map<string, string>,
    services: map<string, string>,
    extensions: map<string, string>,
    values: map<string, map<string, string>>)

  const NO_SYMBOLS: Table := Table({}, map[], map[], map[], map[])

  function InsertAll(t: map<string, string>, ks: seq<string>, vs: seq<string>): map<string, string>
    requires |ks| == |vs|
  {
    if ks == [] then t
    else InsertAll(t, ks[..|ks| - 1], vs[..|vs| - 1])[ks[|ks| - 1] := vs[|vs| - 1]]
  }

  lemma {:induction false} InsertAllAppend(t: map<string, string>, a: seq<string>, x: seq<string>, b: seq<string>,
      y: seq<string>)
    requires |a| == |x| && |b| == |y|
    ensures InsertAll(t, a + b, x + y) == InsertAll(InsertAll(t, a, x), b, y)
    decreases |b|
  {
    if b == [] {
      assert a + b == a && x + y == x;
    } else {
      var n := |b| - 1;
      assert (a + b)[..|a| + n] == a + b[..n] && (x + y)[..|x| + n] == x + y[..n];
      InsertAllAppend(t, a, x, b[..n], y[..n]);
    }
  }

  /** A declaration keeps its enum values' names. */
  function SameNames(vs: seq<string>): map<string, string> {
    map v | v in vs :: v
  }

  function NestedEnums(full: string, es: seq<EnumDecl>, values: map<string, map<string, string>>)
    : map<string, map<string, string>>
  {
    if es == [] then values
    else
      var n := |es| - 1;
      NestedEnums(full, es[..n], values)[Qualify(full, es[n].name) := SameNames(es[n].values)]
  }

  function NestedMessages(full: string, ms: seq<Message>, values: map<string, map<string, string>>)
    : map<string, map<string, string>>
    decreases ms
  {
    if ms == [] then values
    else
      var n := |ms| - 1;
      var q := Qualify(full, ms[n].name);
      NestedEnums(q, ms[n].enums, NestedMessages(q, ms[n].nested, NestedMessages(full, ms[..n], values)))
  }

  /** The enum values of everything inside a message. */
  function NestedValues(full: string, m: Message, values: map<string, map<string, string>>)
    : map<string, map<string, string>>
  {
    NestedEnums(full, m.enums, NestedMessages(full, m.nested, values))
  }

  /** The candidate for a top-level name: prefixed unless it is in the root package. */
  function TopName(root: string, f: File, name: string): string {
    if f.pkg == root then name else PackagePrefix(f.pkg) + "_" + name
  }

  function RegisterMessage(root: string, t: Table, f: File, m: Message): Table {
    var o := Qualify(f.pkg, m.name);
    var n := Reserved(t.used, TopName(root, f, m.name));
    var flat := Qualify(root, n);
    NestedSame(o, flat, m);
    t.(used := t.used + {n},
       types := InsertAll(t.types[o := flat], NestedNames(o, m), NestedNames(flat, m)),
       values := NestedValues(o, m, t.values))
  }

  lemma {:induction false} NestedCounts(a: string, b: string, ms: seq<Message>)
    ensures |MessageNames(a, ms)| == |MessageNames(b, ms)|
    decreases ms
  {
    if ms != [] {
      var m := ms[0];
      NestedCounts(Qualify(a, m.name), Qualify(b, m.name), m.nested);
      EnumCounts(Qualify(a, m.name), Qualify(b, m.name), m.enums);
      NestedCounts(a, b, ms[1..]);
    }
  }

  lemma {:induction false} EnumCounts(a: string, b: string, es: seq<EnumDecl>)
    ensures |EnumNames(a, es)| == |EnumNames(b, es)|
    decreases |es|
  {
    if es != [] { EnumCounts(a, b, es[1..]); }
  }

  lemma NestedSame(a: string, b: string, m: Message)
    ensures |NestedNames(a, m)| == |NestedNames(b, m)|
  {
    NestedCounts(a, b, m.nested);
    EnumCounts(a, b, m.enums);
  }

  datatype Values = Values(used: set<string>, names: map<string, string>)

  /** Values of a top-level enum: kept in the root package, reserved under the enum's name elsewhere. */
  function RegisterValues(isRoot: bool, enumName: string, vs: seq<string>, s: Values): Values {
    if vs == [] then s
    else
      var r, v := RegisterValues(isRoot, enumName, vs[..|vs| - 1], s), vs[|vs| - 1];
      var n := if isRoot then v else Reserved(r.used, enumName + "_" + v);
      Values(r.used + {n}, r.names[v := n])
  }

  function RegisterEnum(root: string, t: Table, f: File, e: EnumDecl): Table {
    var o := Qualify(f.pkg, e.name);
    var n := Reserved(t.used, TopName(root, f, e.name));
    var vs := RegisterValues(f.pkg == root, n, e.values, Values(t.used + {n}, map[]));
    t.(used := vs.used, types := t.types[o := Qualify(root, n)], values := t.values[o := vs.names])
  }

  function RegisterService(root: string, t: Table, f: File, name: string): Table {
    var n := Reserved(t.used, TopName(root, f, name));
    t.(used := t.used + {n}, services := t.services[Qualify(f.pkg, name) := Qualify(root, n)])
  }

  function RegisterExtension(root: string, t: Table, f: File, name: string): Table {
    var n := Reserved(t.used, TopName(root, f, name));
    t.(used := t.used + {n}, extensions := t.extensions[Qualify(f.pkg, name) := Qualify(root, n)])
  }

  function RegisterMessages(root: string, t: Table, f: File, ms: seq<Message>): Table {
    if ms == [] then t else RegisterMessage(root, RegisterMessages(root, t, f, ms[..|ms| - 1]), f, ms[|ms| - 1])
  }

  function RegisterEnums(root: string, t: Table, f: File, es: seq<EnumDecl>): Table {
    if es == [] then t else RegisterEnum(root, RegisterEnums(root, t, f, es[..|es| - 1]), f, es[|es| - 1])
  }

  function RegisterServices(root: string, t: Table, f: File, ss: seq<Service>): Table {
    if ss == [] then t else RegisterService(root, RegisterServices(root, t, f, ss[..|ss| - 1]), f, ss[|ss| - 1].name)
  }

  function RegisterExtensions(root: string, t: Table, f: File, xs: seq<Field>): Table {
    if xs == [] then t else RegisterExtension(root, RegisterExtensions(root, t, f, xs[..|xs| - 1]), f,
        xs[|xs| - 1].name)
  }

  /** `register_file_symbols`. */
  function RegisterFile(root: string, t: Table, f: File): Table {
    var a := RegisterMessages(root, t, f, f.messages);
    var b := RegisterEnums(root, a, f, f.enums);
    var c := RegisterServices(root, b, f, f.services);
    RegisterExtensions(root, c, f, f.extensions)
  }

  function RegisterAll(root: string, t: Table, fs: seq<File>): Table {
    if fs == [] then t else RegisterFile(root, RegisterAll(root, t, fs[..|fs| - 1]), fs[|fs| - 1])
  }

  /** Files inside, or outside, the root package. */
  function PassOf(root: string, fs: seq<File>, inRoot: bool): seq<File> {
    if fs == [] then []
    else PassOf(root, fs[..|fs| - 1], inRoot) + (if (fs[|fs| - 1].pkg == root) == inRoot then [fs[|fs| - 1]] else [])
  }

  /** The table of all files: the root package first. */
  function SymbolTable(root: string, fs: seq<File>): Table {
    RegisterAll(root, NO_SYMBOLS, PassOf(root, fs, true) + PassOf(root, fs, false))
  }
}
