/**
 The flattening pass of flatten.rs: all descriptor files, rewritten, become one proto2
 file, and every reference to a declared type names that type's image.
 */
module Flatten {
  import opened Common
  import opened FlattenNames
  import opened FlattenTable
  import opened FlattenRewrite

  const BUNDLE_NAME: string := "all-protos.proto"

  // ---- The files in order ----------------------------------------------------------------

  function InsertFile(f: File, fs: seq<File>): seq<File> {
    if fs == [] || StrBefore(f.name, fs[0].name) || f.name == fs[0].name then [f] + fs
    else [fs[0]] + InsertFile(f, fs[1..])
  }

  /** A stable sort by file name. */
  function SortByName(fs: seq<File>): seq<File> {
    if fs == [] then [] else InsertFile(fs[0], SortByName(fs[1..]))
  }

  /** The smallest non-empty package name. */
  function SmallestPackage(fs: seq<File>): Option<string> {
    if fs == [] then None
    else
      var p, rest := fs[0].pkg, SmallestPackage(fs[1..]);
      if p == "" then rest else if rest.None? || StrBefore(p, rest.value) then Some(p) else rest
  }

  function ChooseRoot(fs: seq<File>, preferred: string): string {
    if exists i :: 0 <= i < |fs| && fs[i].pkg == preferred then preferred
    else if SmallestPackage(fs).Some? then SmallestPackage(fs).value
    else "protoextract_flattened"
  }

  lemma {:induction false} InsertFileKeys(f: File, fs: seq<File>)
    ensures multiset(AllKeys(InsertFile(f, fs))) == multiset(FileKeys(f)) + multiset(AllKeys(fs))
    ensures multiset(InsertFile(f, fs)) == multiset{f} + multiset(fs)
    decreases |fs|
  {
    hide FileKeys, StrBefore, AllKeys;
    AllKeysOne(f);
    if fs == [] || StrBefore(f.name, fs[0].name) || f.name == fs[0].name {
      AllKeysAppend([f], fs);
    } else {
      InsertFileKeys(f, fs[1..]);
      assert fs == [fs[0]] + fs[1..];
      AllKeysOne(fs[0]);
      AllKeysAppend([fs[0]], fs[1..]);
      AllKeysAppend([fs[0]], InsertFile(f, fs[1..]));
    }
  }

  lemma {:induction false} SortKeeps(fs: seq<File>)
    ensures multiset(AllKeys(SortByName(fs))) == multiset(AllKeys(fs))
    ensures multiset(SortByName(fs)) == multiset(fs)
    decreases |fs|
  {
    hide FileKeys;
    if fs != [] {
      SortKeeps(fs[1..]);
      InsertFileKeys(fs[0], SortByName(fs[1..]));
      assert fs == [fs[0]] + fs[1..];
      AllKeysOne(fs[0]);
      AllKeysAppend([fs[0]], fs[1..]);
    }
  }

  // ---- Assembly -----------------------------------------------------------------------------

  function Lookup(m: map<string, string>, k: string): string {
    if k in m then m[k] else ""
  }

  function FlatMessages(t: Table, f: File, ms: seq<Message>): Outcome<seq<Message>> {
    if ms == [] then Done([])
    else
      var p := FlatMessages(t, f, ms[..|ms| - 1]);
      if p.Failed? then p
      else
        var o := Qualify(f.pkg, ms[|ms| - 1].name);
        var r := RewriteMessage(t, f.syntax, o, ms[|ms| - 1]);
        if r.Failed? then Failed(r.error) else Done(p.value + [r.value.(name := ShortName(Lookup(t.types, o)))])
  }

  function FlatEnums(t: Table, f: File, es: seq<EnumDecl>): seq<EnumDecl> {
    if es == [] then []
    else
      var e := es[|es| - 1];
      var o := Qualify(f.pkg, e.name);
      FlatEnums(t, f, es[..|es| - 1]) + [EnumDecl(ShortName(Lookup(t.types, o)), RewriteEnum(t, o, e).values)]
  }

  function FlatServices(t: Table, f: File, ss: seq<Service>): seq<Service> {
    if ss == [] then []
    else
      var s := ss[|ss| - 1];
      FlatServices(t, f, ss[..|ss| - 1])
      + [Service(ShortName(Lookup(t.services, Qualify(f.pkg, s.name))), RewriteRpcs(t, s.methods))]
  }

  function FlatExtensions(t: Table, f: File, xs: seq<Field>): seq<Field> {
    if xs == [] then []
    else
      var x := xs[|xs| - 1];
      FlatExtensions(t, f, xs[..|xs| - 1])
      + [RewriteField(t, f.syntax, x).(name := ShortName(Lookup(t.extensions, Qualify(f.pkg, x.name))))]
  }

  function AppendFile(t: Table, flat: File, f: File): Outcome<File> {
    var ms := FlatMessages(t, f, f.messages);
    if ms.Failed? then Failed(ms.error)
    else
      Done(flat.(messages := flat.messages + ms.value,
                 enums := flat.enums + FlatEnums(t, f, f.enums),
                 services := flat.services + FlatServices(t, f, f.services),
                 extensions := flat.extensions + FlatExtensions(t, f, f.extensions)))
  }

  // ---- Source locations ------------------------------------------------------------------------

  /** What the existence check says about the path inside a top-level declaration. */
  type Below = (File, seq<int>) -> bool

  /** Number of declarations of the kind a path starts with: messages, enums, services, extensions. */
  function CountOf(f: File, kind: int): nat {
    if kind == 4 then |f.messages|
    else if kind == 5 then |f.enums|
    else if kind == 6 then |f.services|
    else if kind == 7 then |f.extensions|
    else 0
  }

  predicate Mappable(l: Location) {
    |l.path| >= 2 && 4 <= l.path[0] <= 7
  }

  /** The index shifted by what the flat file held before. */
  function Remap(before: File, l: Location): Location
    requires Mappable(l)
  {
    l.(path := l.path[1 := l.path[1] + CountOf(before, l.path[0])])
  }

  predicate PathExists(below: Below, after: File, path: seq<int>)
    requires |path| >= 2
  {
    0 <= path[1] < CountOf(after, path[0]) && (|path| == 2 || below(after, path))
  }

  function KeptLocations(below: Below, before: File, after: File, ls: seq<Location>): seq<Location> {
    if ls == [] then []
    else
      var l := ls[|ls| - 1];
      KeptLocations(below, before, after, ls[..|ls| - 1])
      + if Mappable(l) && PathExists(below, after, Remap(before, l).path) then [Remap(before, l)] else []
  }

  function CommentText(f: File, l: Location): seq<string> {
    if l.comments.Some? then ["Comments from " + f.name + ":\n" + l.comments.value] else []
  }

  /** Comments of the locations that find no place. */
  function LostComments(below: Below, before: File, after: File, f: File, ls: seq<Location>,
      mappable: bool): seq<string> {
    if ls == [] then []
    else
      var l := ls[|ls| - 1];
      LostComments(below, before, after, f, ls[..|ls| - 1], mappable)
      + if Mappable(l) == mappable && !(mappable && PathExists(below, after, Remap(before, l).path)) then
          CommentText(f, l)
        else []
  }

  datatype Merge = Merge(flat: File, header: seq<string>)

  function AddLocations(below: Below, before: File, after: File, f: File, header: seq<string>): Merge {
    if f.info.None? then Merge(after, header)
    else
      var kept := KeptLocations(below, before, after, f.info.value);
      var info := if kept == [] then after.info else if after.info.Some? then Some(after.info.value + kept)
          else Some(kept);
      Merge(after.(info := info),
            header + LostComments(below, before, after, f, f.info.value, false)
            + LostComments(below, before, after, f, f.info.value, true))
  }

  function MergeFile(below: Below, t: Table, m: Merge, f: File): Outcome<Merge> {
    var after := AppendFile(t, m.flat, f);
    if after.Failed? then Failed(after.error) else Done(AddLocations(below, m.flat, after.value, f, m.header))
  }

  function EmptyFlat(root: string): File {
    File(BUNDLE_NAME, root, "proto2", [], [], [], [], None)
  }

  function MergeAll(below: Below, t: Table, root: string, fs: seq<File>): Outcome<Merge> {
    if fs == [] then Done(Merge(EmptyFlat(root), []))
    else
      var m := MergeAll(below, t, root, fs[..|fs| - 1]);
      if m.Failed? then m else MergeFile(below, t, m.value, fs[|fs| - 1])
  }

  function JoinLines(xs: seq<string>): string {
    if xs == [] then "" else if |xs| == 1 then xs[0] else JoinLines(xs[..|xs| - 1]) + "\n" + xs[|xs| - 1]
  }

  /** Lost comments end up in one location for the file as a whole. */
  function WithHeader(m: Merge): File {
    if m.header == [] then m.flat
    else
      var ls := if m.flat.info.Some? then m.flat.info.value else [];
      m.flat.(info := Some(ls + [Location([], Some(JoinLines(m.header)))]))
  }

  /** `flatten_descriptors`. */
  function FlattenFiles(below: Below, fs: seq<File>, preferred: string): Outcome<File> {
    var root, ordered := ChooseRoot(fs, preferred), SortByName(fs);
    var m := MergeAll(below, SymbolTable(root, ordered), root, ordered);
    if m.Failed? then Failed(m.error) else Done(WithHeader(m.value))
  }

  // ---- Declarations and their images ------------------------------------------------------------

  /** `vs` are the images of `ks`, one by one. */
  ghost predicate ImagesOf(types: map<string, string>, ks: seq<string>, vs: seq<string>) {
    |ks| == |vs| && forall k :: 0 <= k < |ks| ==> ks[k] in types && types[ks[k]] == vs[k]
  }

  lemma ImagesAppend(types: map<string, string>, a: seq<string>, x: seq<string>, b: seq<string>, y: seq<string>)
    requires ImagesOf(types, a, x) && ImagesOf(types, b, y)
    ensures ImagesOf(types, a + b, x + y)
  {
    forall k | 0 <= k < |a + b| ensures (a + b)[k] in types && types[(a + b)[k]] == (x + y)[k] {
      if k >= |a| { assert (a + b)[k] == b[k - |a|]; }
    }
  }

  lemma ImagesBelow(types: map<string, string>, o: string, rels: seq<string>)
    requires o in types && Located(types, o, types[o], rels)
    ensures ImagesOf(types, Prefixed(o, rels), Prefixed(types[o], rels))
  {
    forall k | 0 <= k < |rels|
      ensures Prefixed(o, rels)[k] in types && types[Prefixed(o, rels)[k]] == Prefixed(types[o], rels)[k]
    {
      PrefixedAt(o, rels, k);
      PrefixedAt(types[o], rels, k);
    }
  }

  lemma {:induction false} KeysOfMessagesAppend(pkg: string, a: seq<Message>, b: seq<Message>)
    ensures KeysOfMessages(pkg, a + b) == KeysOfMessages(pkg, a) + KeysOfMessages(pkg, b)
    decreases |b|
  {
    hide MessageKeys;
    if b == [] {
      assert a + b == a;
    } else {
      assert (a + b)[..|a + b| - 1] == a + b[..|b| - 1];
      KeysOfMessagesAppend(pkg, a, b[..|b| - 1]);
      AssocKeys(KeysOfMessages(pkg, a), KeysOfMessages(pkg, b[..|b| - 1]), MessageKeys(pkg, b[|b| - 1]));
    }
  }

  lemma {:induction false} KeysOfEnumsAppend(pkg: string, a: seq<EnumDecl>, b: seq<EnumDecl>)
    ensures KeysOfEnums(pkg, a + b) == KeysOfEnums(pkg, a) + KeysOfEnums(pkg, b)
    decreases |b|
  {
    if b == [] {
      assert a + b == a;
    } else {
      assert (a + b)[..|a + b| - 1] == a + b[..|b| - 1];
      KeysOfEnumsAppend(pkg, a, b[..|b| - 1]);
    }
  }

  /** The flat name of a covered declaration qualifies to its image. */
  lemma FlatName(root: string, types: map<string, string>, o: string, rels: seq<string>)
    requires Covered(root, types, o, rels)
    ensures o in types && Qualify(root, ShortName(Lookup(types, o))) == types[o] && types[o] != ""
            && Located(types, o, types[o], rels)
  {
    var n :| Plain(n) && types[o] == Qualify(root, n);
    QualifyShort(root, n);
  }

  /** A file's messages in the flat file declare exactly the images of what they declared. */
  lemma {:induction false} FlatMessageKeys(root: string, t: Table, f: File, ms: seq<Message>)
    requires MessagesCovered(root, t.types, f.pkg, ms) && FlatMessages(t, f, ms).Done?
    ensures ImagesOf(t.types, KeysOfMessages(f.pkg, ms), KeysOfMessages(root, FlatMessages(t, f, ms).value))
    decreases |ms|
  {
    hide Covered, RewriteMessage, MessageFields;
    if ms != [] {
      var n := |ms| - 1;
      var p, m := ms[..n], ms[n];
      var o := Qualify(f.pkg, m.name);
      assert forall k :: 0 <= k < n ==> p[k] == ms[k];
      FlatMessageKeys(root, t, f, p);
      FlatName(root, t.types, o, Rels(m));
      MessageMatches(t, f.syntax, o, m);
      ImagesBelow(t.types, o, Rels(m));
      var r := FlatMessages(t, f, ms).value;
      assert r[..n] == FlatMessages(t, f, p).value by { FlatMessagesLength(t, f, p); }
      FlatMessagesLength(t, f, ms);
      var top := t.types[o];
      assert MessageKeys(root, r[n]) == [top] + Prefixed(top, Rels(m)) by { RelsOfRenamed(t, f, m); }
      hide MessageKeys, Prefixed, Rels, Qualify, ImagesOf, FlatMessages;
      OneImage(t.types, o, top);
      ImagesAppend(t.types, [o], [top], Prefixed(o, Rels(m)), Prefixed(top, Rels(m)));
      KeysOfMine(f.pkg, m);
      ImagesAppend(t.types, KeysOfMessages(f.pkg, p), KeysOfMessages(root, r[..n]), MessageKeys(f.pkg, m),
          MessageKeys(root, r[n]));
    }
  }

  lemma KeysOfMine(pkg: string, m: Message)
    ensures MessageKeys(pkg, m) == [Qualify(pkg, m.name)] + Prefixed(Qualify(pkg, m.name), Rels(m))
  {
  }

  lemma RelsOfRenamed(t: Table, f: File, m: Message)
    requires RewriteMessage(t, f.syntax, Qualify(f.pkg, m.name), m).Done?
    ensures forall name :: Rels(RewriteMessage(t, f.syntax, Qualify(f.pkg, m.name), m).value.(name := name)) == Rels(m)
  {
    hide RewriteMessage;
    MessageMatches(t, f.syntax, Qualify(f.pkg, m.name), m);
  }

  lemma OneImage(types: map<string, string>, o: string, v: string)
    requires o in types && types[o] == v
    ensures ImagesOf(types, [o], [v])
  {
  }

  lemma {:induction false} FlatMessagesLength(t: Table, f: File, ms: seq<Message>)
    requires FlatMessages(t, f, ms).Done?
    ensures |FlatMessages(t, f, ms).value| == |ms|
    decreases |ms|
  {
    hide RewriteMessage;
    if ms != [] { FlatMessagesLength(t, f, ms[..|ms| - 1]); }
  }

  lemma {:induction false} FlatEnumKeys(root: string, t: Table, f: File, es: seq<EnumDecl>)
    requires EnumsCovered(root, t.types, f.pkg, es)
    ensures ImagesOf(t.types, KeysOfEnums(f.pkg, es), KeysOfEnums(root, FlatEnums(t, f, es)))
    ensures |FlatEnums(t, f, es)| == |es|
    decreases |es|
  {
    hide Covered, RewriteValues;
    if es != [] {
      var n := |es| - 1;
      var p, e := es[..n], es[n];
      var o := Qualify(f.pkg, e.name);
      assert forall k :: 0 <= k < n ==> p[k] == es[k];
      FlatEnumKeys(root, t, f, p);
      FlatName(root, t.types, o, []);
      var r := FlatEnums(t, f, es);
      assert r[..n] == FlatEnums(t, f, p);
      ImagesAppend(t.types, KeysOfEnums(f.pkg, p), KeysOfEnums(root, r[..n]), [o], [t.types[o]]);
    }
  }

  // ---- Fields, enums and methods of all files -------------------------------------------------

  /** A field with the syntax of the file it comes from. */
  datatype Placed = Placed(syntax: string, field: Field)

  function Place(syntax: string, xs: seq<Field>): (ps: seq<Placed>)
    ensures |ps| == |xs|
  {
    seq(|xs|, i requires 0 <= i < |xs| => Placed(syntax, xs[i]))
  }

  ghost predicate PlacedMatch(t: Table, ps: seq<Placed>, ys: seq<Field>) {
    |ps| == |ys| && forall k :: 0 <= k < |ps| ==> Match(t, ps[k].syntax, ps[k].field, ys[k])
  }

  lemma PlacedAppend(t: Table, ps: seq<Placed>, ys: seq<Field>, syntax: string, xs: seq<Field>, zs: seq<Field>)
    requires PlacedMatch(t, ps, ys) && AllMatch(t, syntax, xs, zs)
    ensures PlacedMatch(t, ps + Place(syntax, xs), ys + zs)
  {
    hide Match;
    var qs := ps + Place(syntax, xs);
    forall k | 0 <= k < |qs| ensures Match(t, qs[k].syntax, qs[k].field, (ys + zs)[k]) {
      if k >= |ps| { assert Match(t, syntax, xs[k - |ps|], zs[k - |ps|]); }
    }
  }

  function MessagePlaced(fs: seq<File>): seq<Placed> {
    if fs == [] then []
    else MessagePlaced(fs[..|fs| - 1]) + Place(fs[|fs| - 1].syntax, FieldsOf(fs[|fs| - 1].messages))
  }

  function ExtensionPlaced(fs: seq<File>): seq<Placed> {
    if fs == [] then []
    else ExtensionPlaced(fs[..|fs| - 1]) + Place(fs[|fs| - 1].syntax, fs[|fs| - 1].extensions)
  }

  function MessageKeysOf(fs: seq<File>): seq<string> {
    if fs == [] then []
    else MessageKeysOf(fs[..|fs| - 1]) + KeysOfMessages(fs[|fs| - 1].pkg, fs[|fs| - 1].messages)
  }

  function EnumKeysOf(fs: seq<File>): seq<string> {
    if fs == [] then []
    else EnumKeysOf(fs[..|fs| - 1]) + KeysOfEnums(fs[|fs| - 1].pkg, fs[|fs| - 1].enums)
  }

  function NestedEnumsOf(fs: seq<File>): seq<FullEnum> {
    if fs == [] then []
    else NestedEnumsOf(fs[..|fs| - 1]) + EnumsIn(fs[|fs| - 1].pkg, fs[|fs| - 1].messages)
  }

  function TopEnumsOf(fs: seq<File>): seq<FullEnum> {
    if fs == [] then []
    else TopEnumsOf(fs[..|fs| - 1]) + EnumsAt(fs[|fs| - 1].pkg, fs[|fs| - 1].enums)
  }

  function RpcsOf(ss: seq<Service>): seq<Rpc> {
    if ss == [] then [] else RpcsOf(ss[..|ss| - 1]) + ss[|ss| - 1].methods
  }

  function RpcsOfFiles(fs: seq<File>): seq<Rpc> {
    if fs == [] then [] else RpcsOfFiles(fs[..|fs| - 1]) + RpcsOf(fs[|fs| - 1].services)
  }

  predicate RpcMatch(t: Table, a: Rpc, b: Rpc) {
    b.name == a.name && b.input == RewriteTypeName(t.types, a.input) && b.output == RewriteTypeName(t.types, a.output)
  }

  ghost predicate RpcsMatch(t: Table, xs: seq<Rpc>, ys: seq<Rpc>) {
    |xs| == |ys| && forall k :: 0 <= k < |xs| ==> RpcMatch(t, xs[k], ys[k])
  }

  lemma RpcsMatchAppend(t: Table, a: seq<Rpc>, x: seq<Rpc>, b: seq<Rpc>, y: seq<Rpc>)
    requires RpcsMatch(t, a, x) && RpcsMatch(t, b, y)
    ensures RpcsMatch(t, a + b, x + y)
  {
    hide RpcMatch;
    forall k | 0 <= k < |a + b| ensures RpcMatch(t, (a + b)[k], (x + y)[k]) {
      if k >= |a| { assert RpcMatch(t, b[k - |a|], y[k - |a|]); }
    }
  }

  lemma {:induction false} RewriteRpcsMatch(t: Table, rs: seq<Rpc>)
    ensures RpcsMatch(t, rs, RewriteRpcs(t, rs))
    decreases |rs|
  {
    hide RewriteTypeName;
    if rs != [] {
      RewriteRpcsMatch(t, rs[1..]);
      RpcsMatchAppend(t, [rs[0]], [RewriteRpcs(t, rs)[0]], rs[1..], RewriteRpcs(t, rs[1..]));
      assert [rs[0]] + rs[1..] == rs;
    }
  }

  lemma {:induction false} FlatServicesMatch(t: Table, f: File, ss: seq<Service>)
    ensures RpcsMatch(t, RpcsOf(ss), RpcsOf(FlatServices(t, f, ss))) && |FlatServices(t, f, ss)| == |ss|
    decreases |ss|
  {
    hide RpcMatch, RewriteRpcs, ShortName;
    if ss != [] {
      var n := |ss| - 1;
      FlatServicesMatch(t, f, ss[..n]);
      RewriteRpcsMatch(t, ss[n].methods);
      var r := FlatServices(t, f, ss);
      assert r[..n] == FlatServices(t, f, ss[..n]);
      RpcsMatchAppend(t, RpcsOf(ss[..n]), RpcsOf(r[..n]), ss[n].methods, r[n].methods);
    }
  }

  lemma {:induction false} RpcsOfAppend(a: seq<Service>, b: seq<Service>)
    ensures RpcsOf(a + b) == RpcsOf(a) + RpcsOf(b)
    decreases |b|
  {
    if b == [] {
      assert a + b == a;
    } else {
      assert (a + b)[..|a + b| - 1] == a + b[..|b| - 1];
      RpcsOfAppend(a, b[..|b| - 1]);
    }
  }

  lemma {:induction false} FlatExtensionsMatch(t: Table, f: File, xs: seq<Field>)
    ensures AllMatch(t, f.syntax, xs, FlatExtensions(t, f, xs))
    decreases |xs|
  {
    hide RewriteField, Match, ShortName;
    if xs != [] {
      var n := |xs| - 1;
      FlatExtensionsMatch(t, f, xs[..n]);
      var r := FlatExtensions(t, f, xs);
      RenamedMatches(t, f.syntax, xs[n], r[n].name);
      assert xs == xs[..n] + [xs[n]];
      AllMatchAppend(t, f.syntax, xs[..n], FlatExtensions(t, f, xs[..n]), [xs[n]], [r[n]]);
    }
  }

  lemma RenamedMatches(t: Table, syntax: string, x: Field, name: string)
    ensures Match(t, syntax, x, RewriteField(t, syntax, x).(name := name))
  {
    hide RewriteTypeName, RewriteValue;
  }

  lemma {:induction false} FieldsOfAppend(a: seq<Message>, b: seq<Message>)
    ensures FieldsOf(a + b) == FieldsOf(a) + FieldsOf(b)
    decreases |a|
  {
    hide MessageFields;
    if a == [] {
      assert a + b == b;
    } else {
      assert (a + b)[1..] == a[1..] + b;
      FieldsOfAppend(a[1..], b);
    }
  }

  lemma FieldsOfOne(m: Message)
    ensures FieldsOf([m]) == MessageFields(m)
  {
    hide MessageFields;
    assert [m][1..] == [];
  }

  lemma {:induction false} FlatFieldsMatch(t: Table, f: File, ms: seq<Message>)
    requires FlatMessages(t, f, ms).Done?
    ensures AllMatch(t, f.syntax, FieldsOf(ms), FieldsOf(FlatMessages(t, f, ms).value))
    decreases |ms|
  {
    hide Match, RewriteMessage, ShortName, Qualify;
    if ms != [] {
      var n := |ms| - 1;
      var p, m := ms[..n], ms[n];
      var x := FlatMessages(t, f, p).value;
      var o := Qualify(f.pkg, m.name);
      var q := RewriteMessage(t, f.syntax, o, m).value;
      var r := q.(name := ShortName(Lookup(t.types, o)));
      FlatFieldsMatch(t, f, p);
      MessageMatches(t, f.syntax, o, m);
      assert MessageFields(r) == MessageFields(q);
      hide MessageFields, AllMatch;
      FieldsOfAppend(p, [m]);
      FieldsOfOne(m);
      FieldsOfAppend(x, [r]);
      FieldsOfOne(r);
      assert p + [m] == ms;
      AllMatchAppend(t, f.syntax, FieldsOf(p), FieldsOf(x), MessageFields(m), MessageFields(r));
    }
  }

  lemma {:induction false} EnumsInAppend(parent: string, a: seq<Message>, b: seq<Message>)
    ensures EnumsIn(parent, a + b) == EnumsIn(parent, a) + EnumsIn(parent, b)
    decreases |a|
  {
    hide MessageEnums;
    if a == [] {
      assert a + b == b;
    } else {
      assert (a + b)[1..] == a[1..] + b;
      EnumsInAppend(parent, a[1..], b);
    }
  }

  lemma EnumsInOne(parent: string, m: Message)
    ensures EnumsIn(parent, [m]) == MessageEnums(Qualify(parent, m.name), m)
  {
    hide MessageEnums;
    assert [m][1..] == [];
  }

  lemma {:induction false} EnumsAtAppend(parent: string, a: seq<EnumDecl>, b: seq<EnumDecl>)
    ensures EnumsAt(parent, a + b) == EnumsAt(parent, a) + EnumsAt(parent, b)
    decreases |a|
  {
    if a == [] {
      assert a + b == b;
    } else {
      assert (a + b)[1..] == a[1..] + b;
      EnumsAtAppend(parent, a[1..], b);
    }
  }

  lemma NamedPrefix(ms: seq<Message>, n: nat)
    requires NamedMessages(ms) && n <= |ms|
    ensures NamedMessages(ms[..n])
  {
  }

  lemma FlatOneEnums(root: string, t: Table, f: File, m: Message) returns (r: Message)
    requires Plain(m.name) && NamedMessages(m.nested) && NamedEnums(m.enums)
    requires Covered(root, t.types, Qualify(f.pkg, m.name), Rels(m))
    requires RewriteMessage(t, f.syntax, Qualify(f.pkg, m.name), m).Done?
    ensures var o := Qualify(f.pkg, m.name);
            r == RewriteMessage(t, f.syntax, o, m).value.(name := ShortName(Lookup(t.types, o)))
            && o in t.types && Qualify(root, r.name) == t.types[o]
            && EnumsMatch(t, MessageEnums(o, m), MessageEnums(t.types[o], r))
  {
    hide Covered, RewriteMessage, EnumsMatch, Rels, ShortName, Qualify, Located, NamedMessages, NamedEnums;
    var o := Qualify(f.pkg, m.name);
    FlatName(root, t.types, o, Rels(m));
    QualifiedNotEmpty(f.pkg, m.name);
    var q := RewriteMessage(t, f.syntax, o, m).value;
    r := q.(name := ShortName(Lookup(t.types, o)));
    MessageEnumsMatch(t, f.syntax, o, t.types[o], m);
    assert MessageEnums(t.types[o], q) == MessageEnums(t.types[o], r);
  }

  lemma {:induction false} FlatNestedEnums(root: string, t: Table, f: File, ms: seq<Message>)
    requires NamedMessages(ms) && MessagesCovered(root, t.types, f.pkg, ms) && FlatMessages(t, f, ms).Done?
    ensures EnumsMatch(t, EnumsIn(f.pkg, ms), EnumsIn(root, FlatMessages(t, f, ms).value))
    decreases |ms|
  {
    hide Covered, RewriteMessage, EnumMatch, MessageEnums, EnumsMatch, Rels, ShortName, Qualify;
    if ms != [] {
      var n := |ms| - 1;
      var p, m := ms[..n], ms[n];
      NamedPrefix(ms, n);
      assert forall k :: 0 <= k < n ==> p[k] == ms[k];
      FlatNestedEnums(root, t, f, p);
      var x := FlatMessages(t, f, p).value;
      var o := Qualify(f.pkg, m.name);
      assert NamedMessages(m.nested) && NamedEnums(m.enums) && Plain(m.name);
      var r := FlatOneEnums(root, t, f, m);
      hide EnumsIn, NamedMessages, NamedEnums;
      EnumsInAppend(f.pkg, p, [m]);
      EnumsInOne(f.pkg, m);
      EnumsInAppend(root, x, [r]);
      EnumsInOne(root, r);
      assert p + [m] == ms;
      EnumsMatchAppend(t, EnumsIn(f.pkg, p), EnumsIn(root, x), MessageEnums(o, m), MessageEnums(t.types[o], r));
    } else {
      NoEnums(t);
    }
  }

  lemma NoEnums(t: Table)
    ensures EnumsMatch(t, [], [])
  {
  }

  lemma EnumsAtOne(parent: string, e: EnumDecl)
    ensures EnumsAt(parent, [e]) == [FullEnum(Qualify(parent, e.name), e.values)]
  {
    assert [e][1..] == [];
  }

  lemma {:induction false} FlatTopEnums(root: string, t: Table, f: File, es: seq<EnumDecl>)
    requires EnumsCovered(root, t.types, f.pkg, es)
    ensures EnumsMatch(t, EnumsAt(f.pkg, es), EnumsAt(root, FlatEnums(t, f, es)))
    decreases |es|
  {
    hide Covered, RewriteValues, EnumsMatch, Qualify, ShortName, EnumsAt;
    if es == [] {
      assert EnumsAt(f.pkg, []) == [] && EnumsAt(root, []) == [] by { NoEnumsAt(f.pkg); NoEnumsAt(root); }
      NoEnums(t);
    } else {
      var n := |es| - 1;
      var p, e := es[..n], es[n];
      assert forall k :: 0 <= k < n ==> p[k] == es[k];
      FlatTopEnums(root, t, f, p);
      var o, x := Qualify(f.pkg, e.name), FlatEnums(t, f, p);
      FlatName(root, t.types, o, []);
      var r := EnumDecl(ShortName(Lookup(t.types, o)), RewriteEnum(t, o, e).values);
      EnumsAtAppend(f.pkg, p, [e]);
      EnumsAtAppend(root, x, [r]);
      EnumsAtOne(f.pkg, e);
      EnumsAtOne(root, r);
      assert p + [e] == es;
      var a, b := FullEnum(o, e.values), FullEnum(t.types[o], r.values);
      OneEnumMatches(t, a, b);
      EnumsMatchAppend(t, EnumsAt(f.pkg, p), EnumsAt(root, x), [a], [b]);
    }
  }

  lemma NoEnumsAt(parent: string)
    ensures EnumsAt(parent, []) == []
  {
  }

  lemma OneEnumMatches(t: Table, a: FullEnum, b: FullEnum)
    requires EnumMatch(t, a, b)
    ensures EnumsMatch(t, [a], [b])
  {
  }

  // ---- The whole flat file ----------------------------------------------------------------------

  /** The flat file mirrors the files merged so far, list by list. */
  ghost predicate Mirrors(t: Table, root: string, fs: seq<File>, flat: File) {
    && flat.pkg == root && flat.syntax == "proto2"
    && ImagesOf(t.types, MessageKeysOf(fs), KeysOfMessages(root, flat.messages))
    && ImagesOf(t.types, EnumKeysOf(fs), KeysOfEnums(root, flat.enums))
    && PlacedMatch(t, MessagePlaced(fs), FieldsOf(flat.messages))
    && PlacedMatch(t, ExtensionPlaced(fs), flat.extensions)
    && EnumsMatch(t, NestedEnumsOf(fs), EnumsIn(root, flat.messages))
    && EnumsMatch(t, TopEnumsOf(fs), EnumsAt(root, flat.enums))
    && RpcsMatch(t, RpcsOfFiles(fs), RpcsOf(flat.services))
  }

  lemma AppendMirrors(t: Table, root: string, p: seq<File>, flat: File, f: File)
    requires Mirrors(t, root, p, flat) && NamedFile(f) && FileCovered(root, t.types, f) && AppendFile(t, flat, f).Done?
    ensures Mirrors(t, root, p + [f], AppendFile(t, flat, f).value)
  {
    hide Covered, RewriteMessage, Match, EnumMatch, RpcMatch;
    var fs, r, ms := p + [f], AppendFile(t, flat, f).value, FlatMessages(t, f, f.messages).value;
    assert fs[..|fs| - 1] == p && fs[|fs| - 1] == f;
    AppendKeys(t, root, p, flat, f, ms);
    AppendFields(t, p, flat, f, ms);
    AppendEnums(t, root, p, flat, f, ms);
    FlatServicesMatch(t, f, f.services);
    RpcsOfAppend(flat.services, FlatServices(t, f, f.services));
    RpcsMatchAppend(t, RpcsOfFiles(p), RpcsOf(flat.services), RpcsOf(f.services),
        RpcsOf(FlatServices(t, f, f.services)));
    hide KeysOfMessages, KeysOfEnums, FieldsOf, EnumsIn, EnumsAt, RpcsOf, FlatMessages, FlatEnums, FlatServices,
        FlatExtensions, Place, ImagesOf, PlacedMatch, EnumsMatch, RpcsMatch, MessagesCovered, EnumsCovered,
        NamedMessages;
  }

  lemma AppendKeys(t: Table, root: string, p: seq<File>, flat: File, f: File, ms: seq<Message>)
    requires FlatMessages(t, f, f.messages) == Done(ms) && FileCovered(root, t.types, f)
    requires ImagesOf(t.types, MessageKeysOf(p), KeysOfMessages(root, flat.messages))
    requires ImagesOf(t.types, EnumKeysOf(p), KeysOfEnums(root, flat.enums))
    ensures ImagesOf(t.types, MessageKeysOf(p) + KeysOfMessages(f.pkg, f.messages),
            KeysOfMessages(root, flat.messages + ms))
    ensures ImagesOf(t.types, EnumKeysOf(p) + KeysOfEnums(f.pkg, f.enums),
                     KeysOfEnums(root, flat.enums + FlatEnums(t, f, f.enums)))
  {
    hide ImagesOf, KeysOfMessages, KeysOfEnums, FlatMessages, FlatEnums, MessageKeysOf, EnumKeysOf, MessagesCovered,
        EnumsCovered;
    FlatMessageKeys(root, t, f, f.messages);
    KeysOfMessagesAppend(root, flat.messages, ms);
    ImagesAppend(t.types, MessageKeysOf(p), KeysOfMessages(root, flat.messages), KeysOfMessages(f.pkg, f.messages),
        KeysOfMessages(root, ms));
    FlatEnumKeys(root, t, f, f.enums);
    var es := FlatEnums(t, f, f.enums);
    KeysOfEnumsAppend(root, flat.enums, es);
    ImagesAppend(t.types, EnumKeysOf(p), KeysOfEnums(root, flat.enums), KeysOfEnums(f.pkg, f.enums),
        KeysOfEnums(root, es));
  }

  lemma AppendFields(t: Table, p: seq<File>, flat: File, f: File, ms: seq<Message>)
    requires FlatMessages(t, f, f.messages) == Done(ms)
    requires PlacedMatch(t, MessagePlaced(p), FieldsOf(flat.messages))
             && PlacedMatch(t, ExtensionPlaced(p), flat.extensions)
    ensures PlacedMatch(t, MessagePlaced(p) + Place(f.syntax, FieldsOf(f.messages)), FieldsOf(flat.messages + ms))
    ensures PlacedMatch(t, ExtensionPlaced(p) + Place(f.syntax, f.extensions),
                        flat.extensions + FlatExtensions(t, f, f.extensions))
  {
    hide PlacedMatch, FieldsOf, FlatMessages, FlatExtensions, MessagePlaced, ExtensionPlaced, Place, AllMatch;
    FlatFieldsMatch(t, f, f.messages);
    FieldsOfAppend(flat.messages, ms);
    PlacedAppend(t, MessagePlaced(p), FieldsOf(flat.messages), f.syntax, FieldsOf(f.messages), FieldsOf(ms));
    FlatExtensionsMatch(t, f, f.extensions);
    PlacedAppend(t, ExtensionPlaced(p), flat.extensions, f.syntax, f.extensions, FlatExtensions(t, f, f.extensions));
  }

  lemma AppendEnums(t: Table, root: string, p: seq<File>, flat: File, f: File, ms: seq<Message>)
    requires FlatMessages(t, f, f.messages) == Done(ms) && FileCovered(root, t.types, f) && NamedFile(f)
    requires EnumsMatch(t, NestedEnumsOf(p), EnumsIn(root, flat.messages))
             && EnumsMatch(t, TopEnumsOf(p), EnumsAt(root, flat.enums))
    ensures EnumsMatch(t, NestedEnumsOf(p) + EnumsIn(f.pkg, f.messages), EnumsIn(root, flat.messages + ms))
    ensures EnumsMatch(t, TopEnumsOf(p) + EnumsAt(f.pkg, f.enums), EnumsAt(root, flat.enums + FlatEnums(t, f, f.enums)))
  {
    hide EnumsMatch, EnumsIn, EnumsAt, FlatMessages, FlatEnums, NestedEnumsOf, TopEnumsOf, MessagesCovered,
        EnumsCovered, NamedMessages, NamedEnums;
    FlatNestedEnums(root, t, f, f.messages);
    EnumsInAppend(root, flat.messages, ms);
    EnumsMatchAppend(t, NestedEnumsOf(p), EnumsIn(root, flat.messages), EnumsIn(f.pkg, f.messages), EnumsIn(root, ms));
    FlatTopEnums(root, t, f, f.enums);
    var es := FlatEnums(t, f, f.enums);
    EnumsAtAppend(root, flat.enums, es);
    EnumsMatchAppend(t, TopEnumsOf(p), EnumsAt(root, flat.enums), EnumsAt(f.pkg, f.enums), EnumsAt(root, es));
  }

  /** Source locations do not touch the declarations. */
  lemma SameDeclarations(t: Table, root: string, fs: seq<File>, flat: File, info: Option<seq<Location>>)
    requires Mirrors(t, root, fs, flat)
    ensures Mirrors(t, root, fs, flat.(info := info))
  {
    hide ImagesOf, PlacedMatch, EnumsMatch, RpcsMatch, KeysOfMessages, KeysOfEnums, FieldsOf, EnumsIn, EnumsAt, RpcsOf;
  }

  lemma MergeFileMirrors(below: Below, t: Table, root: string, p: seq<File>, m: Merge, f: File)
    requires Mirrors(t, root, p, m.flat) && NamedFile(f) && FileCovered(root, t.types, f)
             && MergeFile(below, t, m, f).Done?
    ensures Mirrors(t, root, p + [f], MergeFile(below, t, m, f).value.flat)
  {
    hide Mirrors, FileCovered, NamedFile, AppendFile, KeptLocations, LostComments;
    AppendMirrors(t, root, p, m.flat, f);
    SameDeclarations(t, root, p + [f], AppendFile(t, m.flat, f).value, MergeFile(below, t, m, f).value.flat.info);
  }

  lemma {:induction false} MergeMirrors(below: Below, t: Table, root: string, fs: seq<File>)
    requires NamedFiles(fs) && (forall i :: 0 <= i < |fs| ==> FileCovered(root, t.types, fs[i]))
    requires MergeAll(below, t, root, fs).Done?
    ensures Mirrors(t, root, fs, MergeAll(below, t, root, fs).value.flat)
    decreases |fs|
  {
    hide Mirrors, FileCovered, NamedFile, MergeFile;
    if fs == [] {
      NothingMirrors(t, root);
    } else {
      var n := |fs| - 1;
      var p := fs[..n];
      assert forall i :: 0 <= i < n ==> p[i] == fs[i];
      var m := MergeAll(below, t, root, p);
      assert m.Done? && MergeAll(below, t, root, fs) == MergeFile(below, t, m.value, fs[n]);
      assert p + [fs[n]] == fs;
      assert NamedFile(fs[n]) && FileCovered(root, t.types, fs[n]);
      MergeMirrors(below, t, root, p);
      hide *;
      MergeFileMirrors(below, t, root, p, m.value, fs[n]);
    }
  }

  lemma NothingMirrors(t: Table, root: string)
    ensures Mirrors(t, root, [], EmptyFlat(root))
  {
  }

  /** Everything a successful flattening guarantees about the symbol table and the flat file. */
  lemma FlatFileMirrors(below: Below, fs: seq<File>, preferred: string)
    requires NamedFiles(fs) && DistinctTypes(fs) && FlattenFiles(below, fs, preferred).Done?
    ensures var ordered, flat := SortByName(fs), FlattenFiles(below, fs, preferred).value;
            var t := SymbolTable(ChooseRoot(fs, preferred), ordered);
            Mirrors(t, ChooseRoot(fs, preferred), ordered, flat)
            && (forall a, b :: a in t.types && b in t.types && t.types[a] == t.types[b] ==> a == b)
  {
    hide Mirrors, FileCovered, NamedFile, AllKeys, MergeFile, ChooseRoot, SortByName, SymbolTable, FileKeys;
    var root, ordered := ChooseRoot(fs, preferred), SortByName(fs);
    SortKeeps(fs);
    forall i | 0 <= i < |ordered| ensures NamedFile(ordered[i]) {
      assert ordered[i] in multiset(fs);
      var j :| 0 <= j < |fs| && fs[j] == ordered[i];
    }
    TableIsSound(root, ordered);
    var t := SymbolTable(root, ordered);
    MergeMirrors(below, t, root, ordered);
    var m := MergeAll(below, t, root, ordered).value;
    SameDeclarations(t, root, ordered, m.flat, WithHeader(m).info);
  }

  // ---- Main results ---------------------------------------------------------------------------

  /** Full names declared in the files, messages first. */
  function Declared(fs: seq<File>): seq<string> {
    MessageKeysOf(fs) + EnumKeysOf(fs)
  }

  /** Full names declared in the flat file, in the same order. */
  function FlatDeclared(flat: File): seq<string> {
    KeysOfMessages(flat.pkg, flat.messages) + KeysOfEnums(flat.pkg, flat.enums)
  }

  /** References of all files: types and extendees of fields, then inputs and outputs of methods. */
  function References(ps: seq<Placed>, rs: seq<Rpc>, k: nat): (string, string)
    requires k < |ps| + |rs|
  {
    if k < |ps| then (ps[k].field.typeName, ps[k].field.extendee) else (rs[k - |ps|].input, rs[k - |ps|].output)
  }

  function FlatReferences(ys: seq<Field>, rs: seq<Rpc>, k: nat): (string, string)
    requires k < |ys| + |rs|
  {
    if k < |ys| then (ys[k].typeName, ys[k].extendee) else (rs[k - |ys|].input, rs[k - |ys|].output)
  }

  /** `r` names the j-th declared type, and `s` the j-th type of the flat file. */
  predicate Resolves(r: string, s: string, declared: seq<string>, images: seq<string>, j: nat)
    requires j < |declared| && j < |images|
  {
    r != "" && TrimDots(r) == declared[j] ==> s == "." + images[j]
  }

  /** The flat file declares the images of what the files declare, one by one and without clashes. */
  lemma DeclarationsMirrored(below: Below, fs: seq<File>, preferred: string)
    requires NamedFiles(fs) && DistinctTypes(fs) && FlattenFiles(below, fs, preferred).Done?
    ensures var a, b := Declared(SortByName(fs)), FlatDeclared(FlattenFiles(below, fs, preferred).value);
            var types := SymbolTable(ChooseRoot(fs, preferred), SortByName(fs)).types;
            |a| == |b| && (forall i :: 0 <= i < |a| ==> a[i] in types && b[i] == types[a[i]])
            && forall i, j :: 0 <= i < |a| && 0 <= j < |a| && b[i] == b[j] ==> a[i] == a[j]
  {
    hide SortByName, FlattenFiles, MessageKeysOf, EnumKeysOf, KeysOfMessages, KeysOfEnums, PlacedMatch, EnumsMatch,
        RpcsMatch;
    FlatFileMirrors(below, fs, preferred);
    var ordered, flat := SortByName(fs), FlattenFiles(below, fs, preferred).value;
    var t := SymbolTable(ChooseRoot(fs, preferred), ordered);
    ImagesAppend(t.types, MessageKeysOf(ordered), KeysOfMessages(flat.pkg, flat.messages),
                 EnumKeysOf(ordered), KeysOfEnums(flat.pkg, flat.enums));
  }

  /**
   Every reference to a declared type, from any field at any depth, any extendee and any
   method, is rewritten to the full name of that declaration's image in the flat file.
   */
  lemma ReferencesResolve(below: Below, fs: seq<File>, preferred: string)
    requires NamedFiles(fs) && DistinctTypes(fs) && FlattenFiles(below, fs, preferred).Done?
    ensures var ordered, flat := SortByName(fs), FlattenFiles(below, fs, preferred).value;
            var ps, rs := MessagePlaced(ordered) + ExtensionPlaced(ordered), RpcsOfFiles(ordered);
            var ys, qs := FieldsOf(flat.messages) + flat.extensions, RpcsOf(flat.services);
            var a, b := Declared(ordered), FlatDeclared(flat);
            |a| == |b| && |ps| == |ys| && |rs| == |qs|
            && forall k, j :: 0 <= k < |ps| + |rs| && 0 <= j < |a| ==>
                 Resolves(References(ps, rs, k).0, FlatReferences(ys, qs, k).0, a, b, j)
                 && Resolves(References(ps, rs, k).1, FlatReferences(ys, qs, k).1, a, b, j)
  {
    hide SortByName, FlattenFiles, MessageKeysOf, EnumKeysOf, KeysOfMessages, KeysOfEnums, EnumsMatch, FieldsOf,
        RpcsOf, SymbolTable;
    FlatFileMirrors(below, fs, preferred);
    var ordered, flat := SortByName(fs), FlattenFiles(below, fs, preferred).value;
    var t := SymbolTable(ChooseRoot(fs, preferred), ordered);
    var ps, rs := MessagePlaced(ordered) + ExtensionPlaced(ordered), RpcsOfFiles(ordered);
    var ys, qs := FieldsOf(flat.messages) + flat.extensions, RpcsOf(flat.services);
    var a, b := Declared(ordered), FlatDeclared(flat);
    ImagesAppend(t.types, MessageKeysOf(ordered), KeysOfMessages(flat.pkg, flat.messages),
                 EnumKeysOf(ordered), KeysOfEnums(flat.pkg, flat.enums));
    PlacedJoin(t, MessagePlaced(ordered), FieldsOf(flat.messages), ExtensionPlaced(ordered), flat.extensions);
    hide Mirrors, Declared, FlatDeclared, ChooseRoot, Match;
    forall k, j | 0 <= k < |ps| + |rs| && 0 <= j < |a|
      ensures Resolves(References(ps, rs, k).0, FlatReferences(ys, qs, k).0, a, b, j)
      ensures Resolves(References(ps, rs, k).1, FlatReferences(ys, qs, k).1, a, b, j)
    {
      if k < |ps| {
        FieldResolves(t, ps[k], ys[k], a, b, j);
      } else {
        assert RpcMatch(t, rs[k - |ps|], qs[k - |ps|]);
        NameResolves(t, rs[k - |ps|].input, a, b, j);
        NameResolves(t, rs[k - |ps|].output, a, b, j);
      }
    }
  }

  lemma PlacedJoin(t: Table, ps: seq<Placed>, ys: seq<Field>, qs: seq<Placed>, zs: seq<Field>)
    requires PlacedMatch(t, ps, ys) && PlacedMatch(t, qs, zs)
    ensures PlacedMatch(t, ps + qs, ys + zs)
  {
    hide Match;
    var all := ps + qs;
    forall k | 0 <= k < |all| ensures Match(t, all[k].syntax, all[k].field, (ys + zs)[k]) {
      if k >= |ps| { assert Match(t, qs[k - |ps|].syntax, qs[k - |ps|].field, zs[k - |ps|]); }
    }
  }

  lemma NameResolves(t: Table, r: string, a: seq<string>, b: seq<string>, j: nat)
    requires ImagesOf(t.types, a, b) && j < |a|
    ensures Resolves(r, RewriteTypeName(t.types, r), a, b, j)
  {
  }

  lemma FieldResolves(t: Table, p: Placed, y: Field, a: seq<string>, b: seq<string>, j: nat)
    requires ImagesOf(t.types, a, b) && j < |a| && Match(t, p.syntax, p.field, y)
    ensures Resolves(p.field.typeName, y.typeName, a, b, j) && Resolves(p.field.extendee, y.extendee, a, b, j)
  {
    NameResolves(t, p.field.typeName, a, b, j);
    NameResolves(t, p.field.extendee, a, b, j);
  }

  /** Every field, at any depth, is packed in the proto2 output exactly when it was packed in its own file. */
  lemma PackingKept(below: Below, fs: seq<File>, preferred: string)
    requires NamedFiles(fs) && DistinctTypes(fs) && FlattenFiles(below, fs, preferred).Done?
    ensures var ordered, flat := SortByName(fs), FlattenFiles(below, fs, preferred).value;
            var ps, ys := MessagePlaced(ordered) + ExtensionPlaced(ordered), FieldsOf(flat.messages) + flat.extensions;
            |ps| == |ys| && forall k :: 0 <= k < |ps| ==>
              EffectivePacked(flat.syntax, ys[k]) == EffectivePacked(ps[k].syntax, ps[k].field)
              && ys[k].repeated == ps[k].field.repeated && ys[k].kind == ps[k].field.kind
  {
    hide SortByName, FlattenFiles, MessagePlaced, ExtensionPlaced, FieldsOf, SymbolTable, ImagesOf, EnumsMatch,
        RpcsMatch, EffectivePacked, RewriteTypeName, RewriteDefault;
    FlatFileMirrors(below, fs, preferred);
    var ordered, flat := SortByName(fs), FlattenFiles(below, fs, preferred).value;
    var t := SymbolTable(ChooseRoot(fs, preferred), ordered);
    PlacedJoin(t, MessagePlaced(ordered), FieldsOf(flat.messages), ExtensionPlaced(ordered), flat.extensions);
  }

  lemma {:induction false} RewrittenValueIn(values: map<string, map<string, string>>, full: string, vs: seq<string>,
      v: string)
    requires v in vs
    ensures RewriteValue(values, full, v) in RewriteValues(values, full, vs)
    decreases |vs|
  {
    if v != vs[0] { RewrittenValueIn(values, full, vs[1..], v); }
  }

  /** An enum default that named a value of a declared enum names a value of that enum's image. */
  lemma DefaultsResolve(below: Below, fs: seq<File>, preferred: string, k: nat, j: nat)
    requires NamedFiles(fs) && DistinctTypes(fs) && FlattenFiles(below, fs, preferred).Done?
    requires var ordered := SortByName(fs);
             var ps := MessagePlaced(ordered) + ExtensionPlaced(ordered);
             var es := NestedEnumsOf(ordered) + TopEnumsOf(ordered);
             k < |ps| && j < |es| && ps[k].field.kind == Some(EnumKind) && ps[k].field.typeName != ""
             && TrimDots(ps[k].field.typeName) == es[j].full
             && ps[k].field.defaultValue != "" && ps[k].field.defaultValue in es[j].values
    ensures var flat := FlattenFiles(below, fs, preferred).value;
            var ys := FieldsOf(flat.messages) + flat.extensions;
            var ds := EnumsIn(flat.pkg, flat.messages) + EnumsAt(flat.pkg, flat.enums);
            k < |ys| && j < |ds| && ys[k].typeName == "." + ds[j].full && ys[k].defaultValue in ds[j].values
  {
    hide SortByName, FlattenFiles, MessagePlaced, ExtensionPlaced, FieldsOf, SymbolTable, ImagesOf, RpcsMatch,
        EffectivePacked, EnumsIn, EnumsAt, NestedEnumsOf, TopEnumsOf;
    FlatFileMirrors(below, fs, preferred);
    var ordered, flat := SortByName(fs), FlattenFiles(below, fs, preferred).value;
    var t := SymbolTable(ChooseRoot(fs, preferred), ordered);
    PlacedJoin(t, MessagePlaced(ordered), FieldsOf(flat.messages), ExtensionPlaced(ordered), flat.extensions);
    EnumsMatchAppend(t, NestedEnumsOf(ordered), EnumsIn(flat.pkg, flat.messages), TopEnumsOf(ordered),
        EnumsAt(flat.pkg, flat.enums));
    var ps, es := MessagePlaced(ordered) + ExtensionPlaced(ordered), NestedEnumsOf(ordered) + TopEnumsOf(ordered);
    var ys := FieldsOf(flat.messages) + flat.extensions;
    var ds := EnumsIn(flat.pkg, flat.messages) + EnumsAt(flat.pkg, flat.enums);
    assert Match(t, ps[k].syntax, ps[k].field, ys[k]) && EnumMatch(t, es[j], ds[j]);
    hide RewriteValue, RewriteValues, TrimDots, Mirrors;
    RewrittenValueIn(t.values, es[j].full, es[j].values, ps[k].field.defaultValue);
  }
}
