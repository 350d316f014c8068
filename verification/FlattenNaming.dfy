/**
 How flatten.rs orders its input and chooses names: the files by name, the root package by
 preference, prefixes from package names, and root-package names kept as they are.
 */
module FlattenNaming {
  import opened Common
  import opened FlattenNames
  import opened FlattenTable
  import opened FlattenRewrite
  import opened Flatten
  import opened FlattenLocations
  import opened FlattenUnique

  // ---- The order of the files ------------------------------------------------------------------------

  /** The files with this name, in their order. */
  function Named(fs: seq<File>, name: string): seq<File> {
    if fs == [] then [] else (if fs[0].name == name then [fs[0]] else []) + Named(fs[1..], name)
  }

  ghost predicate Ascending(fs: seq<File>) {
    forall i, j :: 0 <= i < j < |fs| ==> !StrBefore(fs[j].name, fs[i].name)
  }

  lemma {:induction false} InsertNamed(f: File, fs: seq<File>, name: string)
    ensures Named(InsertFile(f, fs), name) == Named([f] + fs, name)
    decreases |fs|
  {
    if fs != [] && !StrBefore(f.name, fs[0].name) && f.name != fs[0].name {
      hide StrBefore;
      var rest := InsertFile(f, fs[1..]);
      InsertNamed(f, fs[1..], name);
      assert ([fs[0]] + rest)[1..] == rest && ([f] + fs)[1..] == fs && ([f] + fs[1..])[1..] == fs[1..];
    }
  }

  /** No file of `fs` has a name before `a`. */
  ghost predicate NoneBefore(a: string, fs: seq<File>) {
    forall i :: 0 <= i < |fs| ==> !StrBefore(fs[i].name, a)
  }

  lemma AscendingFrom(f: File, fs: seq<File>)
    requires Ascending(fs) && NoneBefore(f.name, fs)
    ensures Ascending([f] + fs)
  {
    var r := [f] + fs;
    forall i, j | 0 <= i < j < |r| ensures !StrBefore(r[j].name, r[i].name) {
      assert r[j] == fs[j - 1];
      if i > 0 { assert r[i] == fs[i - 1]; }
    }
  }

  lemma {:induction false} InsertNoneBefore(a: string, f: File, fs: seq<File>)
    requires NoneBefore(a, fs) && !StrBefore(f.name, a)
    ensures NoneBefore(a, InsertFile(f, fs))
    decreases |fs|
  {
    hide StrBefore;
    if fs != [] && !StrBefore(f.name, fs[0].name) && f.name != fs[0].name {
      assert fs[0].name == fs[0].name && !StrBefore(fs[0].name, a);
      assert forall i :: 0 <= i < |fs| - 1 ==> fs[1..][i] == fs[i + 1];
      InsertNoneBefore(a, f, fs[1..]);
    }
  }

  lemma {:induction false} InsertAscending(f: File, fs: seq<File>)
    requires Ascending(fs)
    ensures Ascending(InsertFile(f, fs))
    decreases |fs|
  {
    hide StrBefore;
    if fs == [] {
      assert InsertFile(f, fs) == [f];
    } else if StrBefore(f.name, fs[0].name) || f.name == fs[0].name {
      forall i | 0 <= i < |fs| ensures !StrBefore(fs[i].name, f.name) {
        if i > 0 { assert !StrBefore(fs[i].name, fs[0].name); }
        StrOrder(fs[i].name, f.name, fs[0].name);
      }
      AscendingFrom(f, fs);
    } else {
      StrOrder(f.name, fs[0].name, f.name);
      forall i | 0 <= i < |fs| - 1 ensures !StrBefore(fs[1..][i].name, fs[0].name) { assert fs[1..][i] == fs[i + 1]; }
      InsertAscending(f, fs[1..]);
      InsertNoneBefore(fs[0].name, f, fs[1..]);
      AscendingFrom(fs[0], InsertFile(f, fs[1..]));
    }
  }

  /** The files are taken in ascending order of their names, files of one name in the order given. */
  lemma {:induction false} SortedStably(fs: seq<File>)
    ensures Ascending(SortByName(fs))
    ensures forall name :: Named(SortByName(fs), name) == Named(fs, name)
    decreases |fs|
  {
    if fs != [] {
      var rest := SortByName(fs[1..]);
      SortedStably(fs[1..]);
      InsertAscending(fs[0], rest);
      forall name ensures Named(SortByName(fs), name) == Named(fs, name) {
        InsertNamed(fs[0], rest, name);
        assert ([fs[0]] + rest)[1..] == rest;
      }
    }
  }

  // ---- The root package ---------------------------------------------------------------------------------

  lemma {:induction false} SmallestIs(fs: seq<File>)
    ensures SmallestPackage(fs).None? <==> forall i :: 0 <= i < |fs| ==> fs[i].pkg == ""
    ensures SmallestPackage(fs).Some? ==> SmallestPackage(fs).value != ""
                                          && exists i :: 0 <= i < |fs| && fs[i].pkg == SmallestPackage(fs).value
    ensures SmallestPackage(fs).Some? ==>
              forall i :: 0 <= i < |fs| && fs[i].pkg != "" ==> !StrBefore(fs[i].pkg, SmallestPackage(fs).value)
    decreases |fs|
  {
    if fs != [] {
      var p, rest := fs[0].pkg, SmallestPackage(fs[1..]);
      SmallestIs(fs[1..]);
      assert forall i :: 0 <= i < |fs| ==> fs[i] == if i == 0 then fs[0] else fs[1..][i - 1];
      if rest.Some? {
        var k :| 0 <= k < |fs[1..]| && fs[1..][k].pkg == rest.value;
        assert fs[k + 1].pkg == rest.value;
        forall i | 0 <= i < |fs| && fs[i].pkg != "" ensures !StrBefore(fs[i].pkg, SmallestPackage(fs).value) {
          StrOrder(fs[i].pkg, p, rest.value);
          StrOrder(p, rest.value, p);
        }
      } else {
        StrOrder(p, p, p);
        assert p == "" || fs[0].pkg == SmallestPackage(fs).value;
      }
    }
  }

  /**
   The root package is the preferred one if any file is in it; otherwise no file's non-empty
   package comes before it, and it is the fallback exactly when all packages are empty.
   */
  lemma RootChosen(fs: seq<File>, preferred: string)
    ensures var root := ChooseRoot(fs, preferred);
            if exists i :: 0 <= i < |fs| && fs[i].pkg == preferred then root == preferred
            else if exists i :: 0 <= i < |fs| && fs[i].pkg != "" then
              root != "" && (exists i :: 0 <= i < |fs| && fs[i].pkg == root)
              && forall i :: 0 <= i < |fs| && fs[i].pkg != "" ==> !StrBefore(fs[i].pkg, root)
            else root == "protoextract_flattened"
  {
    SmallestIs(fs);
  }

  // ---- Package prefixes ------------------------------------------------------------------------------------

  /** How many letters and digits there are. */
  function Count(s: string): nat {
    if s == "" then 0 else Count(s[..|s| - 1]) + if IsAlnum(s[|s| - 1]) then 1 else 0
  }

  lemma {:induction false} CountFirst(s: string)
    requires s != ""
    ensures Count(s) == Count(s[1..]) + if IsAlnum(s[0]) then 1 else 0
    decreases |s|
  {
    if |s| > 1 {
      CountFirst(s[..|s| - 1]);
      assert s[..|s| - 1][1..] == s[1..][..|s| - 2];
    } else {
      assert s[..0] == "" && s[1..] == "";
    }
  }

  lemma {:induction false} CamelAt(s: string, upper: bool, i: nat)
    requires i < |s| && IsAlnum(s[i])
    ensures |Camel(s, upper)| == Count(s) && Count(s[..i]) < Count(s)
    ensures var first := if i == 0 then upper else !IsAlnum(s[i - 1]);
            Camel(s, upper)[Count(s[..i])] == (if first && 'a' <= s[i] <= 'z' then s[i] - 'a' + 'A' else s[i])
    decreases |s|
  {
    CountFirst(s);
    var next := !IsAlnum(s[0]);
    if i == 0 {
      assert s[..0] == "";
      CamelLength(s[1..], next);
    } else {
      CamelAt(s[1..], next, i - 1);
      CountFirst(s[..i]);
      assert s[..i][1..] == s[1..][..i - 1];
    }
  }

  lemma {:induction false} CamelLength(s: string, upper: bool)
    ensures |Camel(s, upper)| == Count(s)
    decreases |s|
  {
    if s != "" {
      CountFirst(s);
      CamelLength(s[1..], true);
      CamelLength(s[1..], false);
    }
  }

  /**
   A package's prefix is its letters and digits in order, each unchanged but for a small letter
   at the start or right behind another character, which becomes a capital; without any it is
   `NoPackage`.
   */
  lemma PrefixOf(pkg: string)
    ensures Count(pkg) == 0 ==> PackagePrefix(pkg) == "NoPackage"
    ensures Count(pkg) > 0 ==> |PackagePrefix(pkg)| == Count(pkg)
    ensures forall i | 0 <= i < |pkg| && IsAlnum(pkg[i]) ::
              Count(pkg[..i]) < |PackagePrefix(pkg)|
              && PackagePrefix(pkg)[Count(pkg[..i])]
                 == (if (i == 0 || !IsAlnum(pkg[i - 1])) && 'a' <= pkg[i] <= 'z' then pkg[i] - 'a' + 'A' else pkg[i])
  {
    CamelLength(pkg, true);
    forall i | 0 <= i < |pkg| && IsAlnum(pkg[i])
      ensures Count(pkg[..i]) < |PackagePrefix(pkg)|
      ensures PackagePrefix(pkg)[Count(pkg[..i])]
              == (if (i == 0 || !IsAlnum(pkg[i - 1])) && 'a' <= pkg[i] <= 'z' then pkg[i] - 'a' + 'A' else pkg[i])
    {
      CamelAt(pkg, true, i);
    }
  }

  // ---- The root package keeps its names -----------------------------------------------------------------

  function MessagesNamed(ms: seq<Message>): seq<string> {
    if ms == [] then [] else MessagesNamed(ms[..|ms| - 1]) + [ms[|ms| - 1].name]
  }

  /** The values of an enum are names beside the enum. */
  function EnumsNamed(es: seq<EnumDecl>): seq<string> {
    if es == [] then [] else EnumsNamed(es[..|es| - 1]) + ([es[|es| - 1].name] + es[|es| - 1].values)
  }

  function ServicesNamed(ss: seq<Service>): seq<string> {
    if ss == [] then [] else ServicesNamed(ss[..|ss| - 1]) + [ss[|ss| - 1].name]
  }

  function ExtensionsNamed(xs: seq<Field>): seq<string> {
    if xs == [] then [] else ExtensionsNamed(xs[..|xs| - 1]) + [xs[|xs| - 1].name]
  }

  function FileNames(f: File): seq<string> {
    MessagesNamed(f.messages) + EnumsNamed(f.enums) + ServicesNamed(f.services) + ExtensionsNamed(f.extensions)
  }

  /** All top-level names of the files. */
  function AllNames(fs: seq<File>): seq<string> {
    if fs == [] then [] else AllNames(fs[..|fs| - 1]) + FileNames(fs[|fs| - 1])
  }

  ghost predicate Same(m: map<string, string>) {
    forall a :: a in m ==> m[a] == a
  }

  ghost predicate SameValues(values: map<string, map<string, string>>) {
    forall o :: o in values ==> Same(values[o])
  }

  /** Nothing has been renamed, and exactly the names in `done` are taken. */
  ghost predicate Untouched(t: Table, done: seq<string>) {
    && (forall x :: x in t.used <==> x in done)
    && Same(t.types) && Same(t.services) && Same(t.extensions) && SameValues(t.values)
  }

  lemma FreeName(root: string, used: set<string>, f: File, name: string, done: seq<string>)
    requires f.pkg == root && (forall x :: x in used <==> x in done) && name !in done
    ensures Reserved(used, TopName(root, f, name)) == name
  {
  }

  lemma {:induction false} SameInserted(t: map<string, string>, ks: seq<string>)
    requires Same(t)
    ensures Same(InsertAll(t, ks, ks))
    decreases |ks|
  {
    if ks != [] { SameInserted(t, ks[..|ks| - 1]); }
  }

  lemma {:induction false} SameEnums(full: string, es: seq<EnumDecl>, values: map<string, map<string, string>>)
    requires SameValues(values)
    ensures SameValues(NestedEnums(full, es, values))
    decreases |es|
  {
    if es != [] { SameEnums(full, es[..|es| - 1], values); }
  }

  lemma {:induction false} SameMessages(full: string, ms: seq<Message>, values: map<string, map<string, string>>)
    requires SameValues(values)
    ensures SameValues(NestedMessages(full, ms, values))
    decreases ms
  {
    hide SameValues, NestedEnums, Qualify;
    if ms != [] {
      var n := |ms| - 1;
      var q := Qualify(full, ms[n].name);
      SameMessages(full, ms[..n], values);
      SameMessages(q, ms[n].nested, NestedMessages(full, ms[..n], values));
      SameEnums(q, ms[n].enums, NestedMessages(q, ms[n].nested, NestedMessages(full, ms[..n], values)));
    }
  }

  lemma LastFree(done: seq<string>, a: seq<string>, x: string)
    requires NoRepeats(done + (a + [x]))
    ensures NoRepeats(done + a) && x !in done + a && done + (a + [x]) == done + a + [x]
  {
    assert done + (a + [x]) == done + a + [x];
    NoRepeatsPrefix(done + a, [x]);
    assert [x][0] !in done + a;
  }

  lemma {:induction false} MessagesUntouched(root: string, t: Table, f: File, ms: seq<Message>, done: seq<string>)
    requires f.pkg == root && Untouched(t, done) && NoRepeats(done + MessagesNamed(ms))
    ensures Untouched(RegisterMessages(root, t, f, ms), done + MessagesNamed(ms))
    decreases |ms|
  {
    hide NoRepeats, Reserved, TopName, Qualify, NestedNames, NestedMessages, NestedEnums, InsertAll, SameValues;
    if ms == [] {
      assert done + [] == done;
    } else {
      var p, m := ms[..|ms| - 1], ms[|ms| - 1];
      var names := done + MessagesNamed(p);
      LastFree(done, MessagesNamed(p), m.name);
      MessagesUntouched(root, t, f, p, done);
      var a := RegisterMessages(root, t, f, p);
      FreeName(root, a.used, f, m.name, names);
      var o := Qualify(root, m.name);
      SameInserted(a.types[o := o], NestedNames(o, m));
      SameMessages(o, m.nested, a.values);
      SameEnums(o, m.enums, NestedMessages(o, m.nested, a.values));
      var u := RegisterMessages(root, t, f, ms);
      assert u == RegisterMessage(root, a, f, m);
      assert u.used == a.used + {m.name};
    }
  }

  lemma {:induction false} ValuesUntouched(name: string, vs: seq<string>, s: Values)
    requires Same(s.names)
    ensures var r := RegisterValues(true, name, vs, s);
            Same(r.names) && forall x :: x in r.used <==> x in s.used || x in vs
    decreases |vs|
  {
    if vs != [] {
      ValuesUntouched(name, vs[..|vs| - 1], s);
      assert vs == vs[..|vs| - 1] + [vs[|vs| - 1]];
    }
  }

  lemma {:induction false} EnumsUntouched(root: string, t: Table, f: File, es: seq<EnumDecl>, done: seq<string>)
    requires f.pkg == root && Untouched(t, done) && NoRepeats(done + EnumsNamed(es))
    ensures Untouched(RegisterEnums(root, t, f, es), done + EnumsNamed(es))
    decreases |es|
  {
    hide NoRepeats, Reserved, TopName, Qualify, RegisterValues, Same;
    if es == [] {
      assert done + [] == done;
    } else {
      var p, e := es[..|es| - 1], es[|es| - 1];
      var names := done + EnumsNamed(p);
      assert done + EnumsNamed(es) == done + (EnumsNamed(p) + [e.name]) + e.values;
      NoRepeatsPrefix(done + (EnumsNamed(p) + [e.name]), e.values);
      LastFree(done, EnumsNamed(p), e.name);
      EnumsUntouched(root, t, f, p, done);
      var a := RegisterEnums(root, t, f, p);
      FreeName(root, a.used, f, e.name, names);
      assert Same(map[]) by { NothingRenamed(); }
      ValuesUntouched(e.name, e.values, Values(a.used + {e.name}, map[]));
      SameAdded(a.types, Qualify(root, e.name));
    }
  }

  lemma NothingRenamed()
    ensures Same(map[])
  {
  }

  lemma SameAdded(m: map<string, string>, o: string)
    requires Same(m)
    ensures Same(m[o := o])
  {
  }

  lemma {:induction false} ServicesUntouched(root: string, t: Table, f: File, ss: seq<Service>, done: seq<string>)
    requires f.pkg == root && Untouched(t, done) && NoRepeats(done + ServicesNamed(ss))
    ensures Untouched(RegisterServices(root, t, f, ss), done + ServicesNamed(ss))
    decreases |ss|
  {
    hide NoRepeats, Reserved, TopName, Qualify, Same;
    if ss == [] {
      assert done + [] == done;
    } else {
      var p, s := ss[..|ss| - 1], ss[|ss| - 1];
      LastFree(done, ServicesNamed(p), s.name);
      ServicesUntouched(root, t, f, p, done);
      var a := RegisterServices(root, t, f, p);
      FreeName(root, a.used, f, s.name, done + ServicesNamed(p));
      SameAdded(a.services, Qualify(root, s.name));
    }
  }

  lemma {:induction false} ExtensionsUntouched(root: string, t: Table, f: File, xs: seq<Field>, done: seq<string>)
    requires f.pkg == root && Untouched(t, done) && NoRepeats(done + ExtensionsNamed(xs))
    ensures Untouched(RegisterExtensions(root, t, f, xs), done + ExtensionsNamed(xs))
    decreases |xs|
  {
    hide NoRepeats, Reserved, TopName, Qualify, Same;
    if xs == [] {
      assert done + [] == done;
    } else {
      var p, x := xs[..|xs| - 1], xs[|xs| - 1];
      LastFree(done, ExtensionsNamed(p), x.name);
      ExtensionsUntouched(root, t, f, p, done);
      var a := RegisterExtensions(root, t, f, p);
      FreeName(root, a.used, f, x.name, done + ExtensionsNamed(p));
      SameAdded(a.extensions, Qualify(root, x.name));
    }
  }

  lemma FileUntouched(root: string, t: Table, f: File, done: seq<string>)
    requires f.pkg == root && Untouched(t, done) && NoRepeats(done + FileNames(f))
    ensures Untouched(RegisterFile(root, t, f), done + FileNames(f))
  {
    hide NoRepeats, Untouched, RegisterMessages, RegisterEnums, RegisterServices, RegisterExtensions, MessagesNamed,
        EnumsNamed, ServicesNamed, ExtensionsNamed;
    var m, e := MessagesNamed(f.messages), EnumsNamed(f.enums);
    var s, x := ServicesNamed(f.services), ExtensionsNamed(f.extensions);
    assert done + FileNames(f) == done + m + e + s + x;
    NoRepeatsPrefix(done + m + e + s, x);
    NoRepeatsPrefix(done + m + e, s);
    NoRepeatsPrefix(done + m, e);
    MessagesUntouched(root, t, f, f.messages, done);
    var a := RegisterMessages(root, t, f, f.messages);
    EnumsUntouched(root, a, f, f.enums, done + m);
    var b := RegisterEnums(root, a, f, f.enums);
    ServicesUntouched(root, b, f, f.services, done + m + e);
    ExtensionsUntouched(root, RegisterServices(root, b, f, f.services), f, f.extensions, done + m + e + s);
  }

  /** The first pass renames nothing when the root package's names are all different. */
  lemma {:induction false} FirstPassUntouched(root: string, fs: seq<File>)
    requires (forall i :: 0 <= i < |fs| ==> fs[i].pkg == root) && NoRepeats(AllNames(fs))
    ensures Untouched(RegisterAll(root, NO_SYMBOLS, fs), AllNames(fs))
    decreases |fs|
  {
    hide NoRepeats, RegisterFile, FileNames;
    if fs != [] {
      var p, f := fs[..|fs| - 1], fs[|fs| - 1];
      NoRepeatsPrefix(AllNames(p), FileNames(f));
      hide Untouched;
      assert forall i :: 0 <= i < |p| ==> p[i] == fs[i];
      FirstPassUntouched(root, p);
      FileUntouched(root, RegisterAll(root, NO_SYMBOLS, p), f, AllNames(p));
    }
  }

  // ---- The second pass leaves it alone ------------------------------------------------------------------

  /** Both tables say the same about the type `x` and its values. */
  ghost predicate Unmoved(t: Table, u: Table, x: string) {
    && (x in t.types <==> x in u.types) && (x in t.types ==> u.types[x] == t.types[x])
    && (x in t.values <==> x in u.values) && (x in t.values ==> u.values[x] == t.values[x])
  }

  lemma MessageUnmoved(root: string, t: Table, f: File, m: Message, x: string)
    requires Plain(m.name) && NamedMessages(m.nested) && NamedEnums(m.enums) && x !in MessageKeys(f.pkg, m)
    ensures Unmoved(t, RegisterMessage(root, t, f, m), x)
  {
    hide Prefixed, Rels, Reserved, TopName, Qualify, NestedNames, InsertAll, NestedValues, NamedMessages, NamedEnums;
    var o, flat := Qualify(f.pkg, m.name), Qualify(root, Reserved(t.used, TopName(root, f, m.name)));
    QualifiedNotEmpty(f.pkg, m.name);
    NestedNamesAre(o, m);
    NestedSame(o, flat, m);
    assert MessageKeys(f.pkg, m) == [o] + NestedNames(o, m);
    InsertAllKeys(t.types[o := flat], NestedNames(o, m), NestedNames(flat, m), x);
    NestedValuesKeep(o, m, t.values, x);
  }

  lemma UnmovedThrough(t: Table, a: Table, u: Table, x: string)
    requires Unmoved(t, a, x) && Unmoved(a, u, x)
    ensures Unmoved(t, u, x)
  {
  }

  lemma {:induction false} MessagesUnmoved(root: string, t: Table, f: File, ms: seq<Message>, x: string)
    requires NamedMessages(ms) && x !in KeysOfMessages(f.pkg, ms)
    ensures Unmoved(t, RegisterMessages(root, t, f, ms), x)
    decreases |ms|
  {
    hide RegisterMessage, MessageKeys, Plain;
    if ms != [] {
      var p, m := ms[..|ms| - 1], ms[|ms| - 1];
      MessagesUnmoved(root, t, f, p, x);
      hide Unmoved;
      MessageUnmoved(root, RegisterMessages(root, t, f, p), f, m, x);
      UnmovedThrough(t, RegisterMessages(root, t, f, p), RegisterMessages(root, t, f, ms), x);
    }
  }

  lemma {:induction false} EnumsUnmoved(root: string, t: Table, f: File, es: seq<EnumDecl>, x: string)
    requires x !in KeysOfEnums(f.pkg, es)
    ensures Unmoved(t, RegisterEnums(root, t, f, es), x)
    decreases |es|
  {
    hide Reserved, TopName, Qualify, RegisterValues;
    if es != [] {
      var p, e := es[..|es| - 1], es[|es| - 1];
      EnumsUnmoved(root, t, f, p, x);
      assert KeysOfEnums(f.pkg, es) == KeysOfEnums(f.pkg, p) + [Qualify(f.pkg, e.name)];
    }
  }

  lemma {:induction false} ServicesKeepRest(root: string, t: Table, f: File, ss: seq<Service>)
    ensures var u := RegisterServices(root, t, f, ss);
            u.types == t.types && u.values == t.values && u.extensions == t.extensions
    decreases |ss|
  {
    if ss != [] { ServicesKeepRest(root, t, f, ss[..|ss| - 1]); }
  }

  lemma {:induction false} ExtensionsKeepRest(root: string, t: Table, f: File, xs: seq<Field>)
    ensures var u := RegisterExtensions(root, t, f, xs);
            u.types == t.types && u.values == t.values && u.services == t.services
    decreases |xs|
  {
    if xs != [] { ExtensionsKeepRest(root, t, f, xs[..|xs| - 1]); }
  }

  lemma FileUnmoved(root: string, t: Table, f: File, x: string)
    requires NamedFile(f) && x !in FileKeys(f)
    ensures Unmoved(t, RegisterFile(root, t, f), x)
  {
    hide RegisterMessages, RegisterEnums, RegisterServices, RegisterExtensions, KeysOfMessages, KeysOfEnums,
        NamedMessages, NamedEnums;
    var a := RegisterMessages(root, t, f, f.messages);
    var b := RegisterEnums(root, a, f, f.enums);
    MessagesUnmoved(root, t, f, f.messages, x);
    EnumsUnmoved(root, a, f, f.enums, x);
    ServicesKeepRest(root, b, f, f.services);
    ExtensionsKeepRest(root, RegisterServices(root, b, f, f.services), f, f.extensions);
  }

  lemma {:induction false} FilesUnmoved(root: string, t: Table, fs: seq<File>, x: string)
    requires NamedFiles(fs) && x !in AllKeys(fs)
    ensures Unmoved(t, RegisterAll(root, t, fs), x)
    decreases |fs|
  {
    hide RegisterFile, FileKeys, NamedFile;
    if fs != [] {
      var p, f := fs[..|fs| - 1], fs[|fs| - 1];
      FilesUnmoved(root, t, p, x);
      hide Unmoved;
      FileUnmoved(root, RegisterAll(root, t, p), f, x);
      UnmovedThrough(t, RegisterAll(root, t, p), RegisterAll(root, t, fs), x);
    }
  }

  /** Nothing changes at the full name of a root-package service or extension. */
  ghost predicate SameAt(m: map<string, string>, k: string) {
    k in m ==> m[k] == k
  }

  lemma {:induction false} OtherServices(root: string, t: Table, f: File, ss: seq<Service>, name: string)
    requires f.pkg != root && Plain(name) && SameAt(t.services, Qualify(root, name))
    requires forall k :: 0 <= k < |ss| ==> Plain(ss[k].name)
    ensures SameAt(RegisterServices(root, t, f, ss).services, Qualify(root, name))
    decreases |ss|
  {
    hide Reserved, TopName, Qualify, Plain;
    if ss != [] {
      var p, s := ss[..|ss| - 1], ss[|ss| - 1];
      assert forall k :: 0 <= k < |p| ==> p[k] == ss[k];
      OtherServices(root, t, f, p, name);
      if Qualify(root, name) == Qualify(f.pkg, s.name) { QualifyOnce(root, name, f.pkg, s.name); }
    }
  }

  lemma {:induction false} OtherExtensions(root: string, t: Table, f: File, xs: seq<Field>, name: string)
    requires f.pkg != root && Plain(name) && SameAt(t.extensions, Qualify(root, name))
    requires forall k :: 0 <= k < |xs| ==> Plain(xs[k].name)
    ensures SameAt(RegisterExtensions(root, t, f, xs).extensions, Qualify(root, name))
    decreases |xs|
  {
    hide Reserved, TopName, Qualify, Plain;
    if xs != [] {
      var p, x := xs[..|xs| - 1], xs[|xs| - 1];
      assert forall k :: 0 <= k < |p| ==> p[k] == xs[k];
      OtherExtensions(root, t, f, p, name);
      if Qualify(root, name) == Qualify(f.pkg, x.name) { QualifyOnce(root, name, f.pkg, x.name); }
    }
  }

  lemma {:induction false} OtherFiles(root: string, t: Table, fs: seq<File>, name: string)
    requires (forall i :: 0 <= i < |fs| ==> fs[i].pkg != root && AllNamed(fs[i])) && Plain(name)
    requires SameAt(t.services, Qualify(root, name)) && SameAt(t.extensions, Qualify(root, name))
    ensures var u := RegisterAll(root, t, fs);
            SameAt(u.services, Qualify(root, name)) && SameAt(u.extensions, Qualify(root, name))
    decreases |fs|
  {
    hide Qualify, Plain, SameAt, RegisterMessages, RegisterEnums, RegisterServices, RegisterExtensions, NamedFile;
    if fs != [] {
      var p, f := fs[..|fs| - 1], fs[|fs| - 1];
      assert forall i :: 0 <= i < |p| ==> p[i] == fs[i];
      OtherFiles(root, t, p, name);
      var s := RegisterAll(root, t, p);
      var a := RegisterMessages(root, s, f, f.messages);
      var b := RegisterEnums(root, a, f, f.enums);
      var c := RegisterServices(root, b, f, f.services);
      MessagesKeepOthers(root, s, f, f.messages);
      EnumsKeepOthers(root, a, f, f.enums);
      OtherServices(root, b, f, f.services, name);
      ServicesKeepRest(root, b, f, f.services);
      OtherExtensions(root, c, f, f.extensions, name);
      ExtensionsKeepRest(root, c, f, f.extensions);
    }
  }

  lemma {:induction false} RegisterBoth(root: string, t: Table, a: seq<File>, b: seq<File>)
    ensures RegisterAll(root, t, a + b) == RegisterAll(root, RegisterAll(root, t, a), b)
    decreases |b|
  {
    hide RegisterFile;
    if b == [] {
      assert a + b == a;
    } else {
      var p := b[..|b| - 1];
      assert (a + b)[..|a + b| - 1] == a + p && (a + b)[|a + b| - 1] == b[|b| - 1];
      RegisterBoth(root, t, a, p);
    }
  }

  lemma {:induction false} MessageKeyIn(pkg: string, ms: seq<Message>, q: nat)
    requires q < |ms|
    ensures Qualify(pkg, ms[q].name) in KeysOfMessages(pkg, ms)
    decreases |ms|
  {
    hide Qualify, Rels;
    var n := |ms| - 1;
    if q < n {
      MessageKeyIn(pkg, ms[..n], q);
    } else {
      assert MessageKeys(pkg, ms[n])[0] == Qualify(pkg, ms[n].name);
    }
  }

  lemma {:induction false} EnumKeyIn(pkg: string, es: seq<EnumDecl>, q: nat)
    requires q < |es|
    ensures Qualify(pkg, es[q].name) in KeysOfEnums(pkg, es)
    decreases |es|
  {
    hide Qualify;
    var n := |es| - 1;
    if q < n { EnumKeyIn(pkg, es[..n], q); }
  }

  lemma {:induction false} KeyIn(fs: seq<File>, f: File, x: string)
    requires f in fs && x in FileKeys(f)
    ensures x in AllKeys(fs)
    decreases |fs|
  {
    hide FileKeys;
    var p := fs[..|fs| - 1];
    assert fs == p + [fs[|fs| - 1]];
    if f != fs[|fs| - 1] { KeyIn(p, f, x); }
  }

  lemma {:induction false} SameRewritten(values: map<string, map<string, string>>, o: string, vs: seq<string>)
    requires o in values ==> Same(values[o])
    ensures RewriteValues(values, o, vs) == vs
    decreases |vs|
  {
    if vs != [] {
      SameRewritten(values, o, vs[1..]);
      assert vs == [vs[0]] + vs[1..];
    }
  }

  /** A type of the root package is its own image, and so are the values of an enum. */
  lemma RootTypeSame(root: string, first: Table, b: seq<File>, o: string, names: seq<string>)
    requires Untouched(first, names) && NamedFiles(b) && o !in AllKeys(b)
    ensures var t := RegisterAll(root, first, b);
            SameAt(t.types, o) && (o in t.values ==> Same(t.values[o]))
  {
    hide RegisterAll, AllKeys, NamedFile, Same;
    FilesUnmoved(root, first, b, o);
    SameEntry(first.types, o);
  }

  lemma SameEntry(m: map<string, string>, o: string)
    requires Same(m)
    ensures SameAt(m, o)
  {
  }

  lemma OtherServiceSame(root: string, first: Table, b: seq<File>, name: string, names: seq<string>)
    requires Untouched(first, names) && Plain(name)
    requires forall i :: 0 <= i < |b| ==> b[i].pkg != root && AllNamed(b[i])
    ensures var t := RegisterAll(root, first, b);
            SameAt(t.services, Qualify(root, name)) && SameAt(t.extensions, Qualify(root, name))
  {
    hide RegisterAll, AllNamed, Same, Qualify;
    SameEntry(first.services, Qualify(root, name));
    SameEntry(first.extensions, Qualify(root, name));
    OtherFiles(root, first, b, name);
  }

  /** Declaration `q` of file `i` keeps its name, and an enum its values. */
  ghost predicate NameKept(fs: seq<File>, flat: File, i: nat, kind: int, q: nat)
    requires i < |fs| && q < CountOf(fs[i], kind)
  {
    FlatNameIs(fs, flat, DeclSlot(i, kind, q), OwnName(fs, i, kind, q))
    && (kind == 5 ==> flat.enums[Spot(fs, i, 5, q)].values == fs[i].enums[q].values)
  }

  /** The two passes over the files: the first sees the root package only. */
  lemma Passes(root: string, fs: seq<File>)
    requires (forall i :: 0 <= i < |fs| ==> AllNamed(fs[i])) && DistinctTypes(fs)
    ensures var a, b := PassOf(root, fs, true), PassOf(root, fs, false);
            (forall i :: 0 <= i < |a| ==> a[i].pkg == root)
            && (forall i :: 0 <= i < |b| ==> b[i].pkg != root && AllNamed(b[i])) && NamedFiles(b)
            && (forall x :: x in AllKeys(a) ==> x !in AllKeys(b))
            && SymbolTable(root, fs) == RegisterAll(root, RegisterAll(root, NO_SYMBOLS, a), b)
  {
    hide AllNamed, NamedFile, AllKeys, RegisterAll, NoRepeats;
    var a, b := PassOf(root, fs, true), PassOf(root, fs, false);
    forall i | 0 <= i < |a| ensures a[i].pkg == root { PassMember(root, fs, true, a[i]); }
    forall i | 0 <= i < |b| ensures b[i].pkg != root && AllNamed(b[i]) && NamedFile(b[i]) {
      PassMember(root, fs, false, b[i]);
      NamedOf(b[i]);
    }
    RegisterBoth(root, NO_SYMBOLS, a, b);
    hide PassOf;
    PassesCoverKeys(root, fs);
    AllKeysAppend(a, b);
    assert multiset(AllKeys(a) + AllKeys(b)) == multiset(AllKeys(fs));
    CountsToNoRepeats(AllKeys(a) + AllKeys(b));
    NoRepeatsPrefix(AllKeys(a), AllKeys(b));
  }

  /**
   When no two top-level names of the root package are equal, values of its enums included,
   all its messages, enums, services, extensions and enum values keep their names in the flat
   file, whatever the other packages declare.
   */
  lemma RootNamesKept(below: Below, fs: seq<File>, preferred: string)
    requires (forall i :: 0 <= i < |fs| ==> AllNamed(fs[i])) && DistinctTypes(fs)
    requires FlattenFiles(below, fs, preferred).Done?
    requires NoRepeats(AllNames(PassOf(ChooseRoot(fs, preferred), SortByName(fs), true)))
    ensures var root, ordered := ChooseRoot(fs, preferred), SortByName(fs);
            forall i, kind, q | 0 <= i < |ordered| && ordered[i].pkg == root && 0 <= q < CountOf(ordered[i], kind) ::
              NameKept(ordered, FlattenFiles(below, fs, preferred).value, i, kind, q)
  {
    hide SortByName, ChooseRoot, SymbolTable, MergeAll, AllNamed, AllKeys, PlacedAt, JoinLines, AllNames, PassOf,
        NoRepeats, NameKept, Untouched;
    var root, ordered := ChooseRoot(fs, preferred), SortByName(fs);
    var t := SymbolTable(root, ordered);
    SortKeeps(fs);
    forall i | 0 <= i < |ordered| ensures AllNamed(ordered[i]) {
      assert ordered[i] in multiset(fs);
      var j :| 0 <= j < |fs| && fs[j] == ordered[i];
    }
    var m, flat := MergeAll(below, t, root, ordered).value, FlattenFiles(below, fs, preferred).value;
    Passes(root, ordered);
    FirstPassUntouched(root, PassOf(root, ordered, true));
    forall i, kind, q | 0 <= i < |ordered| && ordered[i].pkg == root && 0 <= q < CountOf(ordered[i], kind)
      ensures NameKept(ordered, flat, i, kind, q)
    {
      DeclarationsPlaced(below, t, root, ordered, kind);
      HeaderKeeps(t, ordered, m, i, kind, q);
      SlotKept(root, ordered, flat, i, kind, q);
    }
  }

  lemma SlotKept(root: string, fs: seq<File>, flat: File, i: nat, kind: int, q: nat)
    requires (forall k :: 0 <= k < |fs| ==> AllNamed(fs[k])) && DistinctTypes(fs)
    requires i < |fs| && fs[i].pkg == root && q < CountOf(fs[i], kind)
    requires PlacedAt(SymbolTable(root, fs), fs, flat, i, kind, q)
    requires NoRepeats(AllNames(PassOf(root, fs, true)))
    ensures NameKept(fs, flat, i, kind, q)
  {
    hide FlatMessages, FlatEnums, FlatServices, FlatExtensions, Spot, Qualify, ShortName, RewriteValue, RewriteValues,
        SymbolTable, AllNames, PassOf, NoRepeats, AllKeys, RegisterAll, Untouched, Same, AllNamed;
    var t, f := SymbolTable(root, fs), fs[i];
    var a, b := PassOf(root, fs, true), PassOf(root, fs, false);
    var first := RegisterAll(root, NO_SYMBOLS, a);
    var name := OwnName(fs, i, kind, q);
    var o := Qualify(root, name);
    Passes(root, fs);
    FirstPassUntouched(root, a);
    PassMember(root, fs, true, f);
    KindPlain(f, fs, i, kind, q);
    ShortOfQualify(root, name);
    SlotKnown(root, fs, i, kind, q);
    if kind == 4 {
      MessageNameAt(t, f, f.messages, q);
      MessageKeyIn(root, f.messages, q);
      KeyIn(a, f, o);
      RootTypeSame(root, first, b, o, AllNames(a));
    } else if kind == 5 {
      EnumAt(t, f, f.enums, q);
      EnumKeyIn(root, f.enums, q);
      KeyIn(a, f, o);
      RootTypeSame(root, first, b, o, AllNames(a));
      SameRewritten(t.values, o, f.enums[q].values);
    } else if kind == 6 {
      ServiceNameAt(t, f, f.services, q);
      OtherServiceSame(root, first, b, name, AllNames(a));
    } else {
      ExtensionNameAt(t, f, f.extensions, q);
      OtherServiceSame(root, first, b, name, AllNames(a));
    }
  }

  lemma KindPlain(f: File, fs: seq<File>, i: nat, kind: int, q: nat)
    requires i < |fs| && f == fs[i] && AllNamed(f) && q < CountOf(f, kind)
    ensures Plain(OwnName(fs, i, kind, q))
  {
  }

  /** The finished table knows every declaration. */
  lemma SlotKnown(root: string, fs: seq<File>, i: nat, kind: int, q: nat)
    requires (forall k :: 0 <= k < |fs| ==> AllNamed(fs[k])) && DistinctTypes(fs)
    requires i < |fs| && q < CountOf(fs[i], kind)
    ensures var t, o := SymbolTable(root, fs), Qualify(fs[i].pkg, OwnName(fs, i, kind, q));
            if kind == 4 || kind == 5 then o in t.types else if kind == 6 then o in t.services else o in t.extensions
  {
    hide SymbolTable, OwnersOk, Qualify, AllKeys, NamedFile;
    forall k | 0 <= k < |fs| ensures NamedFile(fs[k]) { NamedOf(fs[k]); }
    TableIsSound(root, fs);
    var owners, enums := TableOwned(root, fs);
    assert Tracked(root, SymbolTable(root, fs), enums, fs[i]) && FileCovered(root, SymbolTable(root, fs).types, fs[i]);
  }

  // ---- The bundle ---------------------------------------------------------------------------------------

  lemma {:induction false} MergedHeader(below: Below, t: Table, root: string, fs: seq<File>)
    requires MergeAll(below, t, root, fs).Done?
    ensures var flat := MergeAll(below, t, root, fs).value.flat;
            flat.name == "all-protos.proto" && flat.pkg == root && flat.syntax == "proto2"
    decreases |fs|
  {
    hide FlatMessages, FlatEnums, FlatServices, FlatExtensions, KeptLocations, LostComments;
    if fs != [] { MergedHeader(below, t, root, fs[..|fs| - 1]); }
  }

  /** The result is one proto2 file in the root package with every declaration of every file, kind by kind. */
  lemma OneBundle(below: Below, fs: seq<File>, preferred: string)
    requires FlattenFiles(below, fs, preferred).Done?
    ensures var flat := FlattenFiles(below, fs, preferred).value;
            flat.name == "all-protos.proto" && flat.pkg == ChooseRoot(fs, preferred) && flat.syntax == "proto2"
            && |flat.messages| == Total(fs, 4) && |flat.enums| == Total(fs, 5)
            && |flat.services| == Total(fs, 6) && |flat.extensions| == Total(fs, 7)
  {
    hide SymbolTable, MergeAll, SortByName, ChooseRoot, Total, JoinLines;
    var root, ordered := ChooseRoot(fs, preferred), SortByName(fs);
    var t := SymbolTable(root, ordered);
    MergedHeader(below, t, root, ordered);
    DeclarationsPlaced(below, t, root, ordered, 4);
    DeclarationsPlaced(below, t, root, ordered, 5);
    DeclarationsPlaced(below, t, root, ordered, 6);
    DeclarationsPlaced(below, t, root, ordered, 7);
    SortedTotal(fs, 4);
    SortedTotal(fs, 5);
    SortedTotal(fs, 6);
    SortedTotal(fs, 7);
  }

  lemma {:induction false} TotalSplit(a: seq<File>, b: seq<File>, kind: int)
    ensures Total(a + b, kind) == Total(a, kind) + Total(b, kind)
    decreases |b|
  {
    if b == [] {
      assert a + b == a;
    } else {
      assert (a + b)[..|a + b| - 1] == a + b[..|b| - 1];
      TotalSplit(a, b[..|b| - 1], kind);
    }
  }

  lemma {:induction false} InsertTotal(f: File, fs: seq<File>, kind: int)
    ensures Total(InsertFile(f, fs), kind) == CountOf(f, kind) + Total(fs, kind)
    decreases |fs|
  {
    hide StrBefore, CountOf;
    TotalSplit([f], fs, kind);
    assert [f][..0] == [] && Total([f], kind) == CountOf(f, kind);
    if fs != [] && !StrBefore(f.name, fs[0].name) && f.name != fs[0].name {
      InsertTotal(f, fs[1..], kind);
      TotalSplit([fs[0]], InsertFile(f, fs[1..]), kind);
      TotalSplit([fs[0]], fs[1..], kind);
      assert fs == [fs[0]] + fs[1..] && [fs[0]][..0] == [];
    }
  }

  lemma {:induction false} SortedTotal(fs: seq<File>, kind: int)
    ensures Total(SortByName(fs), kind) == Total(fs, kind)
    decreases |fs|
  {
    hide InsertFile, CountOf;
    if fs != [] {
      SortedTotal(fs[1..], kind);
      InsertTotal(fs[0], SortByName(fs[1..]), kind);
      TotalSplit([fs[0]], fs[1..], kind);
      assert fs == [fs[0]] + fs[1..] && [fs[0]][..0] == [];
      assert Total([fs[0]], kind) == CountOf(fs[0], kind);
    }
  }
}
