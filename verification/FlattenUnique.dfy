/**
 What reserving names in flatten.rs is for: in the flat file two top-level names, enum values
 of other packages included, are equal only if they belong to the same kind of declaration
 with the same full name.
 */
module FlattenUnique {
  import opened Common
  import opened Decimal
  import opened FlattenNames
  import opened FlattenTable
  import opened FlattenRewrite
  import opened Flatten
  import opened FlattenLocations

  // ---- Who a reserved name belongs to ------------------------------------------------------------

  datatype Owner =
    | TypeName(full: string)
    | ServiceName(full: string)
    | ExtensionName(full: string)
    | ValueName(enumName: string, value: string)

  type Owners = map<string, Owner>

  /** `n` is the candidate, or the candidate with a number from 2 on. */
  ghost predicate Numbered(c: string, n: string) {
    n == c || exists k: nat :: k >= 2 && n == c + "_" + NatText(k)
  }

  /** What a declaration outside the root package is called first: its name behind its package's. */
  function FirstChoice(root: string, pkg: string, name: string): string {
    if pkg == root then name else PackagePrefix(pkg) + "_" + name
  }

  /** `n` is a form of the first choice for the declaration with this full name. */
  ghost predicate FormOf(root: string, full: string, n: string) {
    exists pkg, name :: FormAt(root, full, n, pkg, name)
  }

  ghost predicate FormAt(root: string, full: string, n: string, pkg: string, name: string) {
    Plain(name) && full == Qualify(pkg, name) && Numbered(FirstChoice(root, pkg, name), n)
  }

  predicate TopFrom(root: string, owners: Owners, image: string, w: Owner, n: string) {
    n in owners && owners[n] == w && Plain(n) && image == Qualify(root, n)
  }

  /** `image` is a reserved name of `w` in the root package. */
  ghost predicate OwnsTop(root: string, owners: Owners, image: string, w: Owner) {
    !w.ValueName? && exists n :: TopFrom(root, owners, image, w, n) && FormOf(root, w.full, n)
  }

  ghost predicate TypeFrom(root: string, owners: Owners, a: string, image: string, n: string, o: string, x: string) {
    && n in owners && owners[n] == TypeName(o) && Plain(n) && FormOf(root, o, n)
    && a == o + x && image == Qualify(root, n) + x && (x == "" || x[0] == '.')
  }

  /** `image` lies under the reserved name of the top-level type that `a` lies under. */
  ghost predicate OwnsType(root: string, owners: Owners, a: string, image: string) {
    exists n, o, x :: TypeFrom(root, owners, a, image, n, o, x)
  }

  /** Each value of enum `o` has a reserved name of its own. */
  ghost predicate OwnsValues(root: string, owners: Owners, names: map<string, string>, o: string, vs: seq<string>) {
    forall v :: v in vs ==> v in names && names[v] in owners && ValueFrom(root, owners, o, v, names[v])
  }

  /** `n` belongs to the value, and is a form of the enum's own name followed by the value's. */
  ghost predicate ValueFrom(root: string, owners: Owners, o: string, v: string, n: string) {
    n != "" && n in owners && owners[n] == ValueName(o, v) && exists e :: EnumBehind(root, owners, o, v, n, e)
  }

  ghost predicate EnumBehind(root: string, owners: Owners, o: string, v: string, n: string, e: string) {
    e in owners && owners[e] == TypeName(o) && FormOf(root, o, e) && Numbered(e + "_" + v, n)
  }

  ghost predicate Types(root: string, types: map<string, string>, owners: Owners) {
    forall a :: a in types ==> OwnsType(root, owners, a, types[a])
  }

  /** The services, the extensions and the values of the enums in `enums` have their own names. */
  ghost predicate Others(root: string, t: Table, owners: Owners, enums: map<string, seq<string>>) {
    && (forall k :: k in t.services ==> OwnsTop(root, owners, t.services[k], ServiceName(k)))
    && (forall k :: k in t.extensions ==> OwnsTop(root, owners, t.extensions[k], ExtensionName(k)))
    && (forall o :: o in enums ==> o in t.values && OwnsValues(root, owners, t.values[o], o, enums[o]))
  }

  ghost predicate OwnersOk(root: string, t: Table, owners: Owners, enums: map<string, seq<string>>) {
    owners.Keys <= t.used && Types(root, t.types, owners) && Others(root, t, owners, enums)
  }

  ghost predicate More(a: Owners, b: Owners) {
    forall n :: n in a ==> n in b && b[n] == a[n]
  }

  lemma TopKept(root: string, a: Owners, b: Owners, image: string, w: Owner)
    requires More(a, b) && OwnsTop(root, a, image, w)
    ensures OwnsTop(root, b, image, w)
  {
    var n :| TopFrom(root, a, image, w, n) && FormOf(root, w.full, n);
    assert TopFrom(root, b, image, w, n);
  }

  lemma TypeKept(root: string, a: Owners, b: Owners, x: string, image: string)
    requires More(a, b) && OwnsType(root, a, x, image)
    ensures OwnsType(root, b, x, image)
  {
    var n, o, y :| TypeFrom(root, a, x, image, n, o, y);
    assert TypeFrom(root, b, x, image, n, o, y);
  }

  lemma ValuesKept(root: string, a: Owners, b: Owners, names: map<string, string>, o: string, vs: seq<string>)
    requires More(a, b) && OwnsValues(root, a, names, o, vs)
    ensures OwnsValues(root, b, names, o, vs)
  {
    hide Numbered, FormOf;
    forall v | v in vs ensures v in names && names[v] in b && ValueFrom(root, b, o, v, names[v]) {
      var e :| EnumBehind(root, a, o, v, names[v], e);
      assert EnumBehind(root, b, o, v, names[v], e);
    }
  }

  /** A reserved name is a form of its candidate. */
  lemma ReservedForm(used: set<string>, c: string)
    ensures Numbered(c, Reserved(used, c))
  {
    var k := FirstFree(used, c, 0);
    if k > 0 { assert Candidate(c, k) == c + "_" + NatText(k + 1); }
  }

  lemma ReservedTop(root: string, used: set<string>, f: File, name: string)
    requires Plain(name)
    ensures FormOf(root, Qualify(f.pkg, name), Reserved(used, TopName(root, f, name)))
  {
    ReservedForm(used, TopName(root, f, name));
    hide Numbered, Reserved;
    assert FormAt(root, Qualify(f.pkg, name), Reserved(used, TopName(root, f, name)), f.pkg, name);
  }

  /** More owners do no harm. */
  lemma OwnersGrow(root: string, t: Table, a: Owners, b: Owners, enums: map<string, seq<string>>)
    requires Types(root, t.types, a) && Others(root, t, a, enums) && More(a, b)
    ensures Types(root, t.types, b) && Others(root, t, b, enums)
  {
    hide OwnsType, OwnsTop, OwnsValues, More;
    forall x | x in t.types ensures OwnsType(root, b, x, t.types[x]) { TypeKept(root, a, b, x, t.types[x]); }
    forall k | k in t.services ensures OwnsTop(root, b, t.services[k], ServiceName(k)) {
      TopKept(root, a, b, t.services[k], ServiceName(k));
    }
    forall k | k in t.extensions ensures OwnsTop(root, b, t.extensions[k], ExtensionName(k)) {
      TopKept(root, a, b, t.extensions[k], ExtensionName(k));
    }
    forall o | o in enums ensures o in t.values && OwnsValues(root, b, t.values[o], o, enums[o]) {
      ValuesKept(root, a, b, t.values[o], o, enums[o]);
    }
  }

  /** A fresh name gets an owner. */
  lemma Reserve(root: string, t: Table, owners: Owners, enums: map<string, seq<string>>, n: string, w: Owner)
    requires OwnersOk(root, t, owners, enums) && n !in t.used
    ensures OwnersOk(root, t.(used := t.used + {n}), owners[n := w], enums) && More(owners, owners[n := w])
  {
    hide OwnsType, OwnsTop, OwnsValues;
    var b := owners[n := w];
    assert n !in owners;
    assert More(owners, b) && b.Keys <= t.used + {n};
    OwnersGrow(root, t, owners, b, enums);
    hide More;
    var u := t.(used := t.used + {n});
    assert u.types == t.types && u.services == t.services && u.extensions == t.extensions && u.values == t.values;
  }

  // ---- One declaration at a time --------------------------------------------------------------------

  lemma ServiceOwned(root: string, t: Table, f: File, name: string, owners: Owners, enums: map<string, seq<string>>)
    returns (owners': Owners)
    requires OwnersOk(root, t, owners, enums) && Plain(name)
    ensures OwnersOk(root, RegisterService(root, t, f, name), owners', enums)
  {
    var n, k := Reserved(t.used, TopName(root, f, name)), Qualify(f.pkg, name);
    TopNamePlain(root, f, name);
    ReservedPlain(t.used, TopName(root, f, name));
    ReservedTop(root, t.used, f, name);
    hide Reserved, TopName, Qualify, Plain, OwnsType, OwnsValues, Types, FormOf;
    Reserve(root, t, owners, enums, n, ServiceName(k));
    owners' := owners[n := ServiceName(k)];
    assert TopFrom(root, owners', Qualify(root, n), ServiceName(k), n);
    assert OwnsTop(root, owners', Qualify(root, n), ServiceName(k));
  }

  lemma ExtensionOwned(root: string, t: Table, f: File, name: string, owners: Owners, enums: map<string, seq<string>>)
    returns (owners': Owners)
    requires OwnersOk(root, t, owners, enums) && Plain(name)
    ensures OwnersOk(root, RegisterExtension(root, t, f, name), owners', enums)
  {
    var n, k := Reserved(t.used, TopName(root, f, name)), Qualify(f.pkg, name);
    TopNamePlain(root, f, name);
    ReservedPlain(t.used, TopName(root, f, name));
    ReservedTop(root, t.used, f, name);
    hide Reserved, TopName, Qualify, Plain, OwnsType, OwnsValues, Types, FormOf;
    Reserve(root, t, owners, enums, n, ExtensionName(k));
    owners' := owners[n := ExtensionName(k)];
    assert TopFrom(root, owners', Qualify(root, n), ExtensionName(k), n);
    assert OwnsTop(root, owners', Qualify(root, n), ExtensionName(k));
  }

  lemma {:induction false} InsertAllTypes(root: string, types: map<string, string>, ks: seq<string>, vs: seq<string>,
      owners: Owners)
    requires |ks| == |vs| && Types(root, types, owners)
    requires forall k :: 0 <= k < |ks| ==> OwnsType(root, owners, ks[k], vs[k])
    ensures Types(root, InsertAll(types, ks, vs), owners)
    decreases |ks|
  {
    hide OwnsType;
    if ks != [] { InsertAllTypes(root, types, ks[..|ks| - 1], vs[..|vs| - 1], owners); }
  }

  lemma {:induction false} NestedEnumsKeep(full: string, es: seq<EnumDecl>, values: map<string, map<string, string>>,
      o: string)
    requires o !in EnumNames(full, es)
    ensures var r := NestedEnums(full, es, values); (o in r <==> o in values) && (o in values ==> r[o] == values[o])
    decreases |es|
  {
    hide SameNames;
    if es != [] {
      EnumNamesSnoc(full, es, |es| - 1);
      assert es[..|es|] == es;
      NestedEnumsKeep(full, es[..|es| - 1], values, o);
    }
  }

  /** Only enums inside the messages get new values. */
  lemma {:induction false} NestedMessagesKeep(full: string, ms: seq<Message>,
      values: map<string, map<string, string>>, o: string)
    requires o !in MessageNames(full, ms)
    ensures var r := NestedMessages(full, ms, values);
            (o in r <==> o in values) && (o in values ==> r[o] == values[o])
    decreases ms
  {
    hide Qualify, NestedEnums, EnumNames;
    if ms != [] {
      var n := |ms| - 1;
      var m, q := ms[n], Qualify(full, ms[n].name);
      assert ms[..n + 1] == ms;
      MessageNamesSnoc(full, ms, n);
      assert NestedNames(q, m) == MessageNames(q, m.nested) + EnumNames(q, m.enums);
      hide MessageNames;
      NestedMessagesKeep(full, ms[..n], values, o);
      NestedMessagesKeep(q, m.nested, NestedMessages(full, ms[..n], values), o);
      NestedEnumsKeep(q, m.enums, NestedMessages(q, m.nested, NestedMessages(full, ms[..n], values)), o);
    }
  }

  lemma NestedValuesKeep(full: string, m: Message, values: map<string, map<string, string>>, o: string)
    requires o !in NestedNames(full, m)
    ensures var r := NestedValues(full, m, values); (o in r <==> o in values) && (o in values ==> r[o] == values[o])
  {
    hide NestedMessages, NestedEnums, MessageNames, EnumNames;
    NestedMessagesKeep(full, m.nested, values, o);
    NestedEnumsKeep(full, m.enums, NestedMessages(full, m.nested, values), o);
  }

  /** The types below a reserved top-level type. */
  lemma TypesBelow(root: string, owners: Owners, n: string, o: string, rels: seq<string>)
    requires n in owners && owners[n] == TypeName(o) && Plain(n) && AllDotted(rels) && FormOf(root, o, n)
    ensures var flat := Qualify(root, n);
            OwnsType(root, owners, o, flat)
            && forall k :: 0 <= k < |rels| ==> OwnsType(root, owners, Prefixed(o, rels)[k], Prefixed(flat, rels)[k])
  {
    hide Qualify, Prefixed, FormOf;
    var flat := Qualify(root, n);
    assert TypeFrom(root, owners, o, flat, n, o, "");
    forall k | 0 <= k < |rels| ensures OwnsType(root, owners, Prefixed(o, rels)[k], Prefixed(flat, rels)[k]) {
      PrefixedAt(o, rels, k);
      PrefixedAt(flat, rels, k);
      assert TypeFrom(root, owners, Prefixed(o, rels)[k], Prefixed(flat, rels)[k], n, o, rels[k]);
    }
  }

  lemma MessageOwned(root: string, t: Table, f: File, m: Message, owners: Owners, enums: map<string, seq<string>>)
    returns (owners': Owners)
    requires OwnersOk(root, t, owners, enums)
    requires Plain(m.name) && NamedMessages(m.nested) && NamedEnums(m.enums)
    requires forall e :: e in enums ==> e !in MessageKeys(f.pkg, m)
    ensures OwnersOk(root, RegisterMessage(root, t, f, m), owners', enums)
  {
    hide Prefixed, Covered, Rels, Reserved, TopName, Qualify, NestedNames, InsertAll, NestedValues, NamedMessages,
        NamedEnums, OwnsType, OwnsTop, OwnsValues, AllDotted, Types, Plain, FormOf;
    var o, n := Qualify(f.pkg, m.name), Reserved(t.used, TopName(root, f, m.name));
    var flat := Qualify(root, n);
    TopNamePlain(root, f, m.name);
    ReservedPlain(t.used, TopName(root, f, m.name));
    ReservedTop(root, t.used, f, m.name);
    QualifiedNotEmpty(f.pkg, m.name);
    QualifiedNotEmpty(root, n);
    NestedNamesAre(o, m);
    NestedNamesAre(flat, m);
    RelsDotted(m);
    Reserve(root, t, owners, enums, n, TypeName(o));
    owners' := owners[n := TypeName(o)];
    TypesBelow(root, owners', n, o, Rels(m));
    OneMoreType(root, t.types, owners', o, flat);
    InsertAllTypes(root, t.types[o := flat], NestedNames(o, m), NestedNames(flat, m), owners');
    var u := RegisterMessage(root, t, f, m);
    assert u.used == t.used + {n} && Types(root, u.types, owners');
    assert MessageKeys(f.pkg, m) == [o] + NestedNames(o, m);
    forall e | e in enums ensures e in u.values && OwnsValues(root, owners', u.values[e], e, enums[e]) {
      NestedValuesKeep(o, m, t.values, e);
    }
  }

  lemma OneMoreType(root: string, types: map<string, string>, owners: Owners, o: string, flat: string)
    requires Types(root, types, owners) && OwnsType(root, owners, o, flat)
    ensures Types(root, types[o := flat], owners)
  {
    hide OwnsType;
  }

  /** Values of an enum of another package get names of their own. */
  lemma {:induction false} ValuesOwned(root: string, t: Table, enumName: string, vs: seq<string>, o: string,
      owners: Owners, enums: map<string, seq<string>>) returns (owners': Owners)
    requires OwnersOk(root, t, owners, enums) && enumName in owners && owners[enumName] == TypeName(o)
    requires FormOf(root, o, enumName)
    ensures var r := RegisterValues(false, enumName, vs, Values(t.used, map[]));
            OwnersOk(root, t.(used := r.used), owners', enums) && More(owners, owners')
            && OwnsValues(root, owners', r.names, o, vs)
    decreases |vs|
  {
    hide OwnersOk, Reserved, Numbered, FormOf;
    if vs == [] {
      owners' := owners;
      assert t.(used := t.used) == t;
    } else {
      var p, v := vs[..|vs| - 1], vs[|vs| - 1];
      var r := RegisterValues(false, enumName, p, Values(t.used, map[]));
      var mid := ValuesOwned(root, t, enumName, p, o, owners, enums);
      var n := Reserved(r.used, enumName + "_" + v);
      assert n != "" by { NotEmpty(r.used, enumName, v); }
      Reserve(root, t.(used := r.used), mid, enums, n, ValueName(o, v));
      owners' := mid[n := ValueName(o, v)];
      ValuesKept(root, mid, owners', r.names, o, p);
      ReservedForm(r.used, enumName + "_" + v);
      OneMoreValue(root, owners', r.names, o, p, v, n, enumName);
      assert vs == p + [v];
    }
  }

  lemma OneMoreValue(root: string, owners: Owners, names: map<string, string>, o: string, p: seq<string>, v: string,
      n: string, enumName: string)
    requires OwnsValues(root, owners, names, o, p) && n != "" && n in owners && owners[n] == ValueName(o, v)
    requires EnumBehind(root, owners, o, v, n, enumName)
    ensures OwnsValues(root, owners, names[v := n], o, p + [v])
  {
    hide EnumBehind;
  }

  lemma NotEmpty(used: set<string>, enumName: string, v: string)
    ensures Reserved(used, enumName + "_" + v) != ""
  {
  }

  lemma UsedGrow(root: string, t: Table, owners: Owners, enums: map<string, seq<string>>, used: set<string>)
    requires OwnersOk(root, t, owners, enums) && t.used <= used
    ensures OwnersOk(root, t.(used := used), owners, enums)
  {
    hide Types, OwnsTop, OwnsValues;
  }

  lemma EnumOwned(root: string, t: Table, f: File, e: EnumDecl, owners: Owners, enums: map<string, seq<string>>)
    returns (owners': Owners, enums': map<string, seq<string>>)
    requires OwnersOk(root, t, owners, enums) && Plain(e.name) && Qualify(f.pkg, e.name) !in enums
    ensures OwnersOk(root, RegisterEnum(root, t, f, e), owners', enums')
    ensures enums' == if f.pkg == root then enums else enums[Qualify(f.pkg, e.name) := e.values]
  {
    var o, n := Qualify(f.pkg, e.name), Reserved(t.used, TopName(root, f, e.name));
    TopNamePlain(root, f, e.name);
    ReservedPlain(t.used, TopName(root, f, e.name));
    ReservedTop(root, t.used, f, e.name);
    hide OwnersOk, Reserved, TopName, Plain, RegisterValues, OwnsType, OwnsValues, FormOf;
    var a := t.(used := t.used + {n});
    Reserve(root, t, owners, enums, n, TypeName(o));
    var mid := owners[n := TypeName(o)];
    var r := RegisterValues(f.pkg == root, n, e.values, Values(a.used, map[]));
    if f.pkg == root {
      ValuesUse(true, n, e.values, Values(a.used, map[]));
      UsedGrow(root, a, mid, enums, r.used);
      owners', enums' := mid, enums;
    } else {
      owners' := ValuesOwned(root, a, n, e.values, o, mid, enums);
      enums' := enums[o := e.values];
    }
    assert n in owners' && owners'[n] == TypeName(o);
    TypesBelow(root, owners', n, o, []);
    EnumStored(root, a.(used := r.used), owners', enums, enums', o, Qualify(root, n), r.names);
  }

  lemma EnumStored(root: string, t: Table, owners: Owners, enums: map<string, seq<string>>,
      enums': map<string, seq<string>>, o: string, flat: string, names: map<string, string>)
    requires OwnersOk(root, t, owners, enums) && o !in enums && OwnsType(root, owners, o, flat)
    requires enums' == enums || (exists vs :: enums' == enums[o := vs] && OwnsValues(root, owners, names, o, vs))
    ensures OwnersOk(root, t.(types := t.types[o := flat], values := t.values[o := names]), owners, enums')
  {
    hide OwnsType, OwnsTop, OwnsValues;
  }

  // ---- All declarations of a file -----------------------------------------------------------------------

  lemma {:induction false} MessagesOwned(root: string, t: Table, f: File, ms: seq<Message>, owners: Owners,
      enums: map<string, seq<string>>) returns (owners': Owners)
    requires OwnersOk(root, t, owners, enums) && NamedMessages(ms)
    requires forall e :: e in enums ==> e !in KeysOfMessages(f.pkg, ms)
    ensures OwnersOk(root, RegisterMessages(root, t, f, ms), owners', enums)
    decreases |ms|
  {
    hide OwnersOk, RegisterMessage, MessageKeys, Plain;
    if ms == [] {
      owners' := owners;
    } else {
      var n := |ms| - 1;
      var mid := MessagesOwned(root, t, f, ms[..n], owners, enums);
      owners' := MessageOwned(root, RegisterMessages(root, t, f, ms[..n]), f, ms[n], mid, enums);
    }
  }

  /** The enums of the file are followed, unless it is in the root package. */
  ghost predicate EnumsTracked(root: string, pkg: string, es: seq<EnumDecl>, enums: map<string, seq<string>>) {
    pkg != root ==>
      forall k :: 0 <= k < |es| ==> Qualify(pkg, es[k].name) in enums && enums[Qualify(pkg, es[k].name)] == es[k].values
  }

  ghost predicate Extended(a: map<string, seq<string>>, b: map<string, seq<string>>, keys: seq<string>) {
    (forall e :: e in a ==> e in b && b[e] == a[e]) && forall e :: e in b ==> e in a || e in keys
  }

  lemma {:induction false} EnumsOwned(root: string, t: Table, f: File, es: seq<EnumDecl>, owners: Owners,
      enums: map<string, seq<string>>) returns (owners': Owners, enums': map<string, seq<string>>)
    requires OwnersOk(root, t, owners, enums) && NamedEnums(es) && NoRepeats(KeysOfEnums(f.pkg, es))
    requires forall e :: e in enums ==> e !in KeysOfEnums(f.pkg, es)
    ensures OwnersOk(root, RegisterEnums(root, t, f, es), owners', enums')
    ensures EnumsTracked(root, f.pkg, es, enums') && Extended(enums, enums', KeysOfEnums(f.pkg, es))
    decreases |es|
  {
    hide OwnersOk, RegisterEnum, Qualify, Plain;
    if es == [] {
      owners', enums' := owners, enums;
    } else {
      var n := |es| - 1;
      var p, e := es[..n], es[n];
      NoRepeatsPrefix(KeysOfEnums(f.pkg, p), [Qualify(f.pkg, e.name)]);
      var mid, seen := EnumsOwned(root, t, f, p, owners, enums);
      assert Qualify(f.pkg, e.name) !in seen by {
        assert [Qualify(f.pkg, e.name)][0] !in KeysOfEnums(f.pkg, p);
        assert Qualify(f.pkg, e.name) in KeysOfEnums(f.pkg, es);
      }
      owners', enums' := EnumOwned(root, RegisterEnums(root, t, f, p), f, e, mid, seen);
      assert forall k :: 0 <= k < n ==> es[k] == p[k];
    }
  }

  lemma {:induction false} ServicesOwned(root: string, t: Table, f: File, ss: seq<Service>, owners: Owners,
      enums: map<string, seq<string>>) returns (owners': Owners)
    requires OwnersOk(root, t, owners, enums) && forall k :: 0 <= k < |ss| ==> Plain(ss[k].name)
    ensures var u := RegisterServices(root, t, f, ss);
            OwnersOk(root, u, owners', enums) && u.extensions == t.extensions && t.services.Keys <= u.services.Keys
            && forall k :: 0 <= k < |ss| ==> Qualify(f.pkg, ss[k].name) in u.services
    decreases |ss|
  {
    hide OwnersOk, Reserved, Qualify, Plain;
    if ss == [] {
      owners' := owners;
    } else {
      var n := |ss| - 1;
      assert forall k :: 0 <= k < n ==> ss[..n][k] == ss[k];
      var mid := ServicesOwned(root, t, f, ss[..n], owners, enums);
      owners' := ServiceOwned(root, RegisterServices(root, t, f, ss[..n]), f, ss[n].name, mid, enums);
    }
  }

  lemma {:induction false} ExtensionsOwned(root: string, t: Table, f: File, xs: seq<Field>, owners: Owners,
      enums: map<string, seq<string>>) returns (owners': Owners)
    requires OwnersOk(root, t, owners, enums) && forall k :: 0 <= k < |xs| ==> Plain(xs[k].name)
    ensures var u := RegisterExtensions(root, t, f, xs);
            OwnersOk(root, u, owners', enums) && u.services == t.services && t.extensions.Keys <= u.extensions.Keys
            && forall k :: 0 <= k < |xs| ==> Qualify(f.pkg, xs[k].name) in u.extensions
    decreases |xs|
  {
    hide OwnersOk, Reserved, Qualify, Plain;
    if xs == [] {
      owners' := owners;
    } else {
      var n := |xs| - 1;
      assert forall k :: 0 <= k < n ==> xs[..n][k] == xs[k];
      var mid := ExtensionsOwned(root, t, f, xs[..n], owners, enums);
      owners' := ExtensionOwned(root, RegisterExtensions(root, t, f, xs[..n]), f, xs[n].name, mid, enums);
    }
  }

  lemma {:induction false} MessagesKeepOthers(root: string, t: Table, f: File, ms: seq<Message>)
    ensures var u := RegisterMessages(root, t, f, ms); u.services == t.services && u.extensions == t.extensions
    decreases |ms|
  {
    if ms != [] { MessagesKeepOthers(root, t, f, ms[..|ms| - 1]); }
  }

  lemma {:induction false} EnumsKeepOthers(root: string, t: Table, f: File, es: seq<EnumDecl>)
    ensures var u := RegisterEnums(root, t, f, es); u.services == t.services && u.extensions == t.extensions
    decreases |es|
  {
    if es != [] { EnumsKeepOthers(root, t, f, es[..|es| - 1]); }
  }

  /** Every declaration has a plain name, services and extensions included. */
  predicate AllNamed(f: File) {
    NamedFile(f) && (forall k :: 0 <= k < |f.services| ==> Plain(f.services[k].name))
    && forall k :: 0 <= k < |f.extensions| ==> Plain(f.extensions[k].name)
  }

  /** The declarations of a file are in the table. */
  ghost predicate Tracked(root: string, t: Table, enums: map<string, seq<string>>, f: File) {
    && (forall k :: 0 <= k < |f.services| ==> Qualify(f.pkg, f.services[k].name) in t.services)
    && (forall k :: 0 <= k < |f.extensions| ==> Qualify(f.pkg, f.extensions[k].name) in t.extensions)
    && EnumsTracked(root, f.pkg, f.enums, enums)
  }

  lemma FileOwned(root: string, t: Table, f: File, owners: Owners, enums: map<string, seq<string>>, done: seq<string>)
    returns (owners': Owners, enums': map<string, seq<string>>)
    requires OwnersOk(root, t, owners, enums) && AllNamed(f) && NoRepeats(done + FileKeys(f))
    requires forall e :: e in enums ==> e in done
    ensures var u := RegisterFile(root, t, f);
            OwnersOk(root, u, owners', enums') && Tracked(root, u, enums', f)
            && t.services.Keys <= u.services.Keys && t.extensions.Keys <= u.extensions.Keys
    ensures Extended(enums, enums', FileKeys(f))
  {
    hide OwnersOk, RegisterMessages, RegisterEnums, RegisterServices, RegisterExtensions, NoRepeats, KeysOfMessages,
        KeysOfEnums, NamedMessages, NamedEnums, Plain, Qualify;
    var km, ke := KeysOfMessages(f.pkg, f.messages), KeysOfEnums(f.pkg, f.enums);
    NoRepeatsPrefix(done, km + ke);
    NoRepeatsPrefix(km, ke);
    KeysApart(done, km, ke, enums);
    var mid := MessagesOwned(root, t, f, f.messages, owners, enums);
    var a := RegisterMessages(root, t, f, f.messages);
    var more: Owners;
    more, enums' := EnumsOwned(root, a, f, f.enums, mid, enums);
    var b := RegisterEnums(root, a, f, f.enums);
    var third := ServicesOwned(root, b, f, f.services, more, enums');
    var c := RegisterServices(root, b, f, f.services);
    owners' := ExtensionsOwned(root, c, f, f.extensions, third, enums');
    MessagesKeepOthers(root, t, f, f.messages);
    EnumsKeepOthers(root, a, f, f.enums);
  }

  lemma KeysApart(done: seq<string>, km: seq<string>, ke: seq<string>, enums: map<string, seq<string>>)
    requires NoRepeats(done + (km + ke)) && forall e :: e in enums ==> e in done
    ensures forall e :: e in enums ==> e !in km && e !in ke
  {
    NoRepeatsPrefix(done, km + ke);
    forall e | e in enums ensures e !in km && e !in ke {
      assert e in done;
      forall i | 0 <= i < |km| ensures km[i] != e { assert (km + ke)[i] !in done; }
      forall i | 0 <= i < |ke| ensures ke[i] != e { assert (km + ke)[|km| + i] !in done; }
    }
  }

  /** Registering all files in order gives every reserved name one owner. */
  lemma {:induction false} FilesOwned(root: string, fs: seq<File>)
    returns (owners: Owners, enums: map<string, seq<string>>)
    requires (forall i :: 0 <= i < |fs| ==> AllNamed(fs[i])) && NoRepeats(AllKeys(fs))
    ensures var u := RegisterAll(root, NO_SYMBOLS, fs);
            OwnersOk(root, u, owners, enums) && (forall e :: e in enums ==> e in AllKeys(fs))
            && forall i :: 0 <= i < |fs| ==> Tracked(root, u, enums, fs[i])
    decreases |fs|
  {
    hide RegisterFile, NoRepeats, FileKeys, AllNamed, Qualify;
    if fs == [] {
      owners, enums := map[], map[];
    } else {
      var n := |fs| - 1;
      var p, f := fs[..n], fs[n];
      NoRepeatsPrefix(AllKeys(p), FileKeys(f));
      hide OwnersOk;
      assert forall i :: 0 <= i < n ==> p[i] == fs[i];
      var mid, seen := FilesOwned(root, p);
      var a := RegisterAll(root, NO_SYMBOLS, p);
      owners, enums := FileOwned(root, a, f, mid, seen, AllKeys(p));
      forall i | 0 <= i < |fs| ensures Tracked(root, RegisterAll(root, NO_SYMBOLS, fs), enums, fs[i]) {
        if i < n { TrackedKept(root, a, RegisterFile(root, a, f), seen, enums, fs[i], FileKeys(f)); }
      }
    }
  }

  lemma TrackedKept(root: string, t: Table, u: Table, enums: map<string, seq<string>>,
      enums': map<string, seq<string>>, f: File, keys: seq<string>)
    requires Tracked(root, t, enums, f) && Extended(enums, enums', keys)
    requires t.services.Keys <= u.services.Keys && t.extensions.Keys <= u.extensions.Keys
    ensures Tracked(root, u, enums', f)
  {
    hide Qualify;
  }

  /** The finished table: both passes together. */
  lemma TableOwned(root: string, fs: seq<File>) returns (owners: Owners, enums: map<string, seq<string>>)
    requires (forall i :: 0 <= i < |fs| ==> AllNamed(fs[i])) && DistinctTypes(fs)
    ensures var t := SymbolTable(root, fs);
            OwnersOk(root, t, owners, enums) && forall i :: 0 <= i < |fs| ==> Tracked(root, t, enums, fs[i])
  {
    hide AllNamed, FileKeys, OwnersOk, Tracked, NoRepeats;
    var a, b := PassOf(root, fs, true), PassOf(root, fs, false);
    var order := a + b;
    PassesCoverKeys(root, fs);
    AllKeysAppend(a, b);
    assert multiset(AllKeys(order)) == multiset(AllKeys(fs));
    CountsToNoRepeats(AllKeys(order));
    forall i | 0 <= i < |order| ensures AllNamed(order[i]) {
      PassMember(root, fs, true, order[i]);
      PassMember(root, fs, false, order[i]);
      assert order[i] in fs;
    }
    owners, enums := FilesOwned(root, order);
    forall i | 0 <= i < |fs| ensures Tracked(root, SymbolTable(root, fs), enums, fs[i]) {
      PassMember(root, fs, true, fs[i]);
      PassMember(root, fs, false, fs[i]);
      assert fs[i] in order;
    }
  }

  // ---- Names in the flat file -------------------------------------------------------------------------

  /** A top-level name: of a declaration of a file, or of a value of one of its enums. */
  datatype Slot = DeclSlot(file: nat, kind: int, at: nat) | ValueSlot(file: nat, at: nat, value: nat)

  /** Values count only outside the root package: inside it they keep their names without being reserved. */
  predicate IsSlot(root: string, fs: seq<File>, s: Slot) {
    s.file < |fs| && match s
      case DeclSlot(i, kind, q) => q < CountOf(fs[i], kind)
      case ValueSlot(i, q, v) => fs[i].pkg != root && q < |fs[i].enums| && v < |fs[i].enums[q].values|
  }

  /** What the name stands for: its kind and full name. Messages and enums are one kind, types. */
  function Meaning(root: string, fs: seq<File>, s: Slot): Owner
    requires IsSlot(root, fs, s)
  {
    var f := fs[s.file];
    match s
    case DeclSlot(_, kind, q) =>
      if kind == 4 then TypeName(Qualify(f.pkg, f.messages[q].name))
      else if kind == 5 then TypeName(Qualify(f.pkg, f.enums[q].name))
      else if kind == 6 then ServiceName(Qualify(f.pkg, f.services[q].name))
      else ExtensionName(Qualify(f.pkg, f.extensions[q].name))
    case ValueSlot(_, q, v) => ValueName(Qualify(f.pkg, f.enums[q].name), f.enums[q].values[v])
  }

  /** The name at its place in the flat file. */
  ghost predicate FlatNameIs(fs: seq<File>, flat: File, s: Slot, name: string) {
    s.file < |fs| && match s
    case DeclSlot(i, kind, q) =>
      var j := Spot(fs, i, kind, q);
      if kind == 4 then j < |flat.messages| && flat.messages[j].name == name
      else if kind == 5 then j < |flat.enums| && flat.enums[j].name == name
      else if kind == 6 then j < |flat.services| && flat.services[j].name == name
      else kind == 7 && j < |flat.extensions| && flat.extensions[j].name == name
    case ValueSlot(i, q, v) =>
      var j := Spot(fs, i, 5, q);
      j < |flat.enums| && v < |flat.enums[j].values| && flat.enums[j].values[v] == name
  }

  lemma {:induction false} MessageNameAt(t: Table, f: File, ms: seq<Message>, q: nat)
    requires FlatMessages(t, f, ms).Done? && q < |ms|
    ensures |FlatMessages(t, f, ms).value| == |ms|
    ensures FlatMessages(t, f, ms).value[q].name == ShortName(Lookup(t.types, Qualify(f.pkg, ms[q].name)))
    decreases |ms|
  {
    hide RewriteMessage, ShortName, Qualify;
    var n := |ms| - 1;
    FlatMessagesLength(t, f, ms);
    if q < n { MessageNameAt(t, f, ms[..n], q); } else { FlatMessagesLength(t, f, ms[..n]); }
  }

  lemma {:induction false} EnumAt(t: Table, f: File, es: seq<EnumDecl>, q: nat)
    requires q < |es|
    ensures |FlatEnums(t, f, es)| == |es|
    ensures var o := Qualify(f.pkg, es[q].name);
            FlatEnums(t, f, es)[q] == EnumDecl(ShortName(Lookup(t.types, o)), RewriteValues(t.values, o, es[q].values))
    decreases |es|
  {
    hide RewriteValues, ShortName, Qualify;
    var n := |es| - 1;
    EnumsLength(t, f, es);
    EnumsLength(t, f, es[..n]);
    if q < n { EnumAt(t, f, es[..n], q); }
  }

  lemma {:induction false} ServiceNameAt(t: Table, f: File, ss: seq<Service>, q: nat)
    requires q < |ss|
    ensures |FlatServices(t, f, ss)| == |ss|
    ensures FlatServices(t, f, ss)[q].name == ShortName(Lookup(t.services, Qualify(f.pkg, ss[q].name)))
    decreases |ss|
  {
    hide RewriteRpcs, ShortName, Qualify, RpcsMatch, RpcsOf;
    var n := |ss| - 1;
    FlatServicesMatch(t, f, ss);
    FlatServicesMatch(t, f, ss[..n]);
    if q < n { ServiceNameAt(t, f, ss[..n], q); }
  }

  lemma {:induction false} ExtensionNameAt(t: Table, f: File, xs: seq<Field>, q: nat)
    requires q < |xs|
    ensures |FlatExtensions(t, f, xs)| == |xs|
    ensures FlatExtensions(t, f, xs)[q].name == ShortName(Lookup(t.extensions, Qualify(f.pkg, xs[q].name)))
    decreases |xs|
  {
    hide RewriteField, ShortName, Qualify;
    var n := |xs| - 1;
    FlatExtensionsLength(t, f, xs);
    FlatExtensionsLength(t, f, xs[..n]);
    if q < n { ExtensionNameAt(t, f, xs[..n], q); }
  }

  lemma {:induction false} ValueAt(values: map<string, map<string, string>>, o: string, vs: seq<string>, v: nat)
    requires v < |vs|
    ensures |RewriteValues(values, o, vs)| == |vs|
    ensures RewriteValues(values, o, vs)[v] == RewriteValue(values, o, vs[v])
    decreases |vs|
  {
    hide RewriteValue;
    if vs[1..] != [] { ValueAt(values, o, vs[1..], if v > 0 then v - 1 else 0); }
  }

  lemma ShortOfQualify(root: string, n: string)
    requires Plain(n)
    ensures ShortName(Qualify(root, n)) == n
  {
    ShortOfPlain(n);
    if root != "" { ShortOfQualified(root, n); }
  }

  /** The short form of an owned image is the reserved name. */
  lemma OwnedShort(root: string, owners: Owners, image: string, w: Owner)
    requires OwnsTop(root, owners, image, w)
    ensures ShortName(image) in owners && owners[ShortName(image)] == w && FormOf(root, w.full, ShortName(image))
  {
    var n :| TopFrom(root, owners, image, w, n) && FormOf(root, w.full, n);
    ShortOfQualify(root, n);
  }

  /** A declared top-level type has its own reserved name. */
  lemma TopTypeOwned(root: string, types: map<string, string>, owners: Owners, a: string, rels: seq<string>)
    requires Types(root, types, owners) && Covered(root, types, a, rels)
    ensures a in types && OwnsTop(root, owners, types[a], TypeName(a))
  {
    assert OwnsType(root, owners, a, types[a]);
    var m :| Plain(m) && types[a] == Qualify(root, m);
    var n, o, x :| TypeFrom(root, owners, a, types[a], n, o, x);
    assert Qualify(root, m) + "" == Qualify(root, m);
    QualifiedSplitOnce(root, n, x, m, "");
    assert o + "" == o;
    assert TopFrom(root, owners, types[a], TypeName(a), n);
  }

  /** The name the table gives to a meaning. */
  function NameFor(t: Table, w: Owner): string {
    match w
    case TypeName(a) => ShortName(Lookup(t.types, a))
    case ServiceName(k) => ShortName(Lookup(t.services, k))
    case ExtensionName(k) => ShortName(Lookup(t.extensions, k))
    case ValueName(o, v) => RewriteValue(t.values, o, v)
  }

  /** What is in the flat file at the place of a declaration. */
  lemma SlotName(t: Table, root: string, fs: seq<File>, flat: File, s: Slot)
    requires IsSlot(root, fs, s)
    requires forall i, kind, q :: 0 <= i < |fs| && 0 <= q < CountOf(fs[i], kind) ==> PlacedAt(t, fs, flat, i, kind, q)
    ensures FlatNameIs(fs, flat, s, NameFor(t, Meaning(root, fs, s)))
  {
    hide FlatMessages, FlatEnums, FlatServices, FlatExtensions, Spot, Qualify, ShortName, RewriteValue, RewriteValues;
    var f := fs[s.file];
    match s
    case DeclSlot(i, kind, q) =>
      assert PlacedAt(t, fs, flat, i, kind, q);
      if kind == 4 {
        MessageNameAt(t, f, f.messages, q);
      } else if kind == 5 {
        EnumAt(t, f, f.enums, q);
      } else if kind == 6 {
        ServiceNameAt(t, f, f.services, q);
      } else {
        ExtensionNameAt(t, f, f.extensions, q);
      }
    case ValueSlot(i, q, v) =>
      assert PlacedAt(t, fs, flat, i, 5, q);
      EnumAt(t, f, f.enums, q);
      ValueAt(t.values, Qualify(f.pkg, f.enums[q].name), f.enums[q].values, v);
  }

  /** The name of each declaration is reserved for what it stands for. */
  lemma SlotOwned(t: Table, root: string, fs: seq<File>, owners: Owners, enums: map<string, seq<string>>, s: Slot)
    requires IsSlot(root, fs, s) && OwnersOk(root, t, owners, enums)
    requires Tracked(root, t, enums, fs[s.file]) && FileCovered(root, t.types, fs[s.file])
    ensures NameFor(t, Meaning(root, fs, s)) in owners
            && owners[NameFor(t, Meaning(root, fs, s))] == Meaning(root, fs, s)
  {
    hide OwnsType, OwnsTop, Covered, ShortName, Qualify, Types;
    var f := fs[s.file];
    match s
    case DeclSlot(_, kind, q) =>
      var w := Meaning(root, fs, s);
      if kind == 4 {
        TopTypeOwned(root, t.types, owners, w.full, Rels(f.messages[q]));
        OwnedShort(root, owners, t.types[w.full], w);
      } else if kind == 5 {
        TopTypeOwned(root, t.types, owners, w.full, []);
        OwnedShort(root, owners, t.types[w.full], w);
      } else if kind == 6 {
        OwnedShort(root, owners, t.services[w.full], w);
      } else {
        OwnedShort(root, owners, t.extensions[w.full], w);
      }
    case ValueSlot(_, q, v) =>
      assert Qualify(f.pkg, f.enums[q].name) in enums && f.enums[q].values[v] in f.enums[q].values;
  }

  lemma OneName(fs: seq<File>, flat: File, s: Slot, x: string, y: string)
    requires FlatNameIs(fs, flat, s, x) && FlatNameIs(fs, flat, s, y)
    ensures x == y
  {
    hide Spot;
  }

  /** Names in the flat file have the right form and tell declarations apart, across all kinds and files. */
  ghost predicate TellsApart(root: string, fs: seq<File>, flat: File) {
    && (forall s :: IsSlot(root, fs, s) ==> exists x :: FlatNameIs(fs, flat, s, x) && RightForm(root, fs, s, x))
    && forall a, b, x, y | IsSlot(root, fs, a) && IsSlot(root, fs, b) ::
         FlatNameIs(fs, flat, a, x) && FlatNameIs(fs, flat, b, y) ==>
           (x == y <==> Meaning(root, fs, a) == Meaning(root, fs, b))
  }

  /**
   Each message, enum, service, extension and value of an enum outside the root package has a
   name in the flat file, and two of them have the same name exactly when they are of one kind
   with one full name.
   */
  lemma NamesUnique(below: Below, fs: seq<File>, preferred: string)
    requires (forall i :: 0 <= i < |fs| ==> AllNamed(fs[i])) && DistinctTypes(fs)
    requires FlattenFiles(below, fs, preferred).Done?
    ensures TellsApart(ChooseRoot(fs, preferred), SortByName(fs), FlattenFiles(below, fs, preferred).value)
  {
    hide SortByName, ChooseRoot, SymbolTable, MergeAll, AllNamed, FileCovered, OwnersOk, Tracked, AllKeys, PlacedAt,
        JoinLines;
    var root, ordered := ChooseRoot(fs, preferred), SortByName(fs);
    var t := SymbolTable(root, ordered);
    SortKeeps(fs);
    forall i | 0 <= i < |ordered| ensures AllNamed(ordered[i]) && NamedFile(ordered[i]) {
      assert ordered[i] in multiset(fs);
      var j :| 0 <= j < |fs| && fs[j] == ordered[i];
      NamedOf(ordered[i]);
    }
    TableIsSound(root, ordered);
    var owners, enums := TableOwned(root, ordered);
    var m, flat := MergeAll(below, t, root, ordered).value, FlattenFiles(below, fs, preferred).value;
    forall i, kind, q | 0 <= i < |ordered| && 0 <= q < CountOf(ordered[i], kind)
      ensures PlacedAt(t, ordered, flat, i, kind, q)
    {
      DeclarationsPlaced(below, t, root, ordered, kind);
      HeaderKeeps(t, ordered, m, i, kind, q);
    }
    hide FlattenFiles, NamedFile;
    OwnersTell(t, root, ordered, flat, owners, enums);
  }

  lemma NamedOf(f: File)
    requires AllNamed(f)
    ensures NamedFile(f)
  {
  }

  lemma HeaderKeeps(t: Table, fs: seq<File>, m: Merge, i: nat, kind: int, q: int)
    requires PlacedAt(t, fs, m.flat, i, kind, q)
    ensures PlacedAt(t, fs, WithHeader(m), i, kind, q)
  {
    hide ImageAt, JoinLines;
    ImageKept(t, fs[i], m.flat, WithHeader(m), kind, q, Spot(fs, i, kind, q));
  }

  lemma OwnersTell(t: Table, root: string, fs: seq<File>, flat: File, owners: Owners, enums: map<string, seq<string>>)
    requires OwnersOk(root, t, owners, enums)
    requires forall i :: 0 <= i < |fs| ==>
               Tracked(root, t, enums, fs[i]) && FileCovered(root, t.types, fs[i]) && AllNamed(fs[i])
    requires forall i, kind, q :: 0 <= i < |fs| && 0 <= q < CountOf(fs[i], kind) ==> PlacedAt(t, fs, flat, i, kind, q)
    ensures TellsApart(root, fs, flat)
  {
    hide OwnersOk, Tracked, FileCovered, PlacedAt, FlatNameIs, Meaning, NameFor, IsSlot, AllNamed, RightForm;
    forall s | IsSlot(root, fs, s) ensures exists x :: FlatNameIs(fs, flat, s, x) && RightForm(root, fs, s, x) {
      SlotName(t, root, fs, flat, s);
      SlotFile(root, fs, s);
      SlotForm(t, root, fs, owners, enums, s);
    }
    forall a, b, x, y | IsSlot(root, fs, a) && IsSlot(root, fs, b) && FlatNameIs(fs, flat, a, x)
        && FlatNameIs(fs, flat, b, y)
      ensures x == y <==> Meaning(root, fs, a) == Meaning(root, fs, b)
    {
      SlotName(t, root, fs, flat, a);
      SlotName(t, root, fs, flat, b);
      OneName(fs, flat, a, x, NameFor(t, Meaning(root, fs, a)));
      OneName(fs, flat, b, y, NameFor(t, Meaning(root, fs, b)));
      SlotFile(root, fs, a);
      SlotFile(root, fs, b);
      SlotOwned(t, root, fs, owners, enums, a);
      SlotOwned(t, root, fs, owners, enums, b);
    }
  }

  // ---- The form of the names -----------------------------------------------------------------------

  lemma QualifyOnce(p: string, n: string, q: string, m: string)
    requires Plain(n) && Plain(m) && Qualify(p, n) == Qualify(q, m)
    ensures p == q && n == m
  {
    ShortOfQualify(p, n);
    ShortOfQualify(q, m);
    if p != "" && q != "" {
      assert (p + "." + n)[..|p|] == p && (q + "." + n)[..|q|] == q;
    }
  }

  lemma FormIs(root: string, pkg: string, name: string, n: string)
    requires Plain(name) && FormOf(root, Qualify(pkg, name), n)
    ensures Numbered(FirstChoice(root, pkg, name), n)
  {
    hide Numbered, FirstChoice, Qualify, Plain;
    var q, m :| FormAt(root, Qualify(pkg, name), n, q, m);
    QualifyOnce(pkg, name, q, m);
  }

  /** The name a declaration has in its own file. */
  function OwnName(fs: seq<File>, i: nat, kind: int, q: nat): string
    requires i < |fs| && q < CountOf(fs[i], kind)
  {
    if kind == 4 then fs[i].messages[q].name
    else if kind == 5 then fs[i].enums[q].name
    else if kind == 6 then fs[i].services[q].name
    else fs[i].extensions[q].name
  }

  /** The name in the flat file is a form of the own name, or of the enum's name and the value's. */
  ghost predicate RightForm(root: string, fs: seq<File>, s: Slot, x: string)
    requires IsSlot(root, fs, s)
  {
    match s
    case DeclSlot(i, kind, q) => Numbered(FirstChoice(root, fs[i].pkg, OwnName(fs, i, kind, q)), x)
    case ValueSlot(i, q, v) =>
      exists e :: Numbered(FirstChoice(root, fs[i].pkg, fs[i].enums[q].name), e)
                  && Numbered(e + "_" + fs[i].enums[q].values[v], x)
  }

  lemma SlotForm(t: Table, root: string, fs: seq<File>, owners: Owners, enums: map<string, seq<string>>, s: Slot)
    requires IsSlot(root, fs, s) && OwnersOk(root, t, owners, enums) && AllNamed(fs[s.file])
    requires Tracked(root, t, enums, fs[s.file]) && FileCovered(root, t.types, fs[s.file])
    ensures RightForm(root, fs, s, NameFor(t, Meaning(root, fs, s)))
  {
    hide OwnsType, OwnsTop, Covered, ShortName, Qualify, Types, FormOf, Numbered, FirstChoice;
    var f := fs[s.file];
    match s
    case DeclSlot(i, kind, q) =>
      var w := Meaning(root, fs, s);
      if kind == 4 {
        TopTypeOwned(root, t.types, owners, w.full, Rels(f.messages[q]));
        OwnedShort(root, owners, t.types[w.full], w);
      } else if kind == 5 {
        TopTypeOwned(root, t.types, owners, w.full, []);
        OwnedShort(root, owners, t.types[w.full], w);
      } else if kind == 6 {
        OwnedShort(root, owners, t.services[w.full], w);
      } else {
        OwnedShort(root, owners, t.extensions[w.full], w);
      }
      FormIs(root, f.pkg, OwnName(fs, i, kind, q), NameFor(t, w));
    case ValueSlot(_, q, v) =>
      var o, value := Qualify(f.pkg, f.enums[q].name), f.enums[q].values[v];
      assert o in enums && value in f.enums[q].values;
      var names := t.values[o];
      assert OwnsValues(root, owners, names, o, f.enums[q].values);
      assert ValueFrom(root, owners, o, value, names[value]);
      var e :| EnumBehind(root, owners, o, value, names[value], e);
      FormIs(root, f.pkg, f.enums[q].name, e);
      assert Numbered(e + "_" + value, names[value]);
  }

  lemma SlotFile(root: string, fs: seq<File>, s: Slot)
    requires IsSlot(root, fs, s)
    ensures s.file < |fs|
  {
  }
}
