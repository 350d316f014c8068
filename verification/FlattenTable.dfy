/**
 What the finished symbol table of flatten.rs guarantees: every declared type has an image,
 nested declarations keep their place under it, and different types have different images.
 */
module FlattenTable {
  import opened Common
  import opened FlattenNames

  // ---- Declared types -------------------------------------------------------------------------

  /** Full names a top-level message declares: its own, then everything inside it. */
  function MessageKeys(pkg: string, m: Message): seq<string> {
    [Qualify(pkg, m.name)] + Prefixed(Qualify(pkg, m.name), Rels(m))
  }

  function KeysOfMessages(pkg: string, ms: seq<Message>): seq<string> {
    if ms == [] then [] else KeysOfMessages(pkg, ms[..|ms| - 1]) + MessageKeys(pkg, ms[|ms| - 1])
  }

  function KeysOfEnums(pkg: string, es: seq<EnumDecl>): seq<string> {
    if es == [] then [] else KeysOfEnums(pkg, es[..|es| - 1]) + [Qualify(pkg, es[|es| - 1].name)]
  }

  function FileKeys(f: File): seq<string> {
    KeysOfMessages(f.pkg, f.messages) + KeysOfEnums(f.pkg, f.enums)
  }

  function AllKeys(fs: seq<File>): seq<string> {
    if fs == [] then [] else AllKeys(fs[..|fs| - 1]) + FileKeys(fs[|fs| - 1])
  }

  /** No full name is declared twice. */
  ghost predicate DistinctTypes(fs: seq<File>) {
    forall x :: multiset(AllKeys(fs))[x] <= 1
  }

  predicate NamedFile(f: File) {
    NamedMessages(f.messages) && NamedEnums(f.enums)
  }

  ghost predicate NamedFiles(fs: seq<File>) {
    forall i :: 0 <= i < |fs| ==> NamedFile(fs[i])
  }

  ghost predicate NoRepeats(xs: seq<string>) {
    forall i, j :: 0 <= i < j < |xs| ==> xs[i] != xs[j]
  }

  lemma {:induction false} CountsToNoRepeats(xs: seq<string>)
    requires forall x :: multiset(xs)[x] <= 1
    ensures NoRepeats(xs)
  {
    forall i, j | 0 <= i < j < |xs| ensures xs[i] != xs[j] {
      var a, b, c := xs[..i], xs[i + 1..j], xs[j + 1..];
      assert xs == a + [xs[i]] + b + [xs[j]] + c;
      assert multiset(xs) == multiset(a) + multiset{xs[i]} + multiset(b) + multiset{xs[j]} + multiset(c);
      assert multiset(xs)[xs[i]] <= 1;
    }
  }

  lemma NoRepeatsPrefix(a: seq<string>, b: seq<string>)
    requires NoRepeats(a + b)
    ensures NoRepeats(a) && NoRepeats(b) && forall i :: 0 <= i < |b| ==> b[i] !in a
  {
    var s := a + b;
    forall i, j | 0 <= i < j < |a| ensures a[i] != a[j] { assert s[i] != s[j]; }
    forall i, j | 0 <= i < j < |b| ensures b[i] != b[j] { assert s[|a| + i] != s[|a| + j]; }
    forall i | 0 <= i < |b| ensures b[i] !in a {
      forall j | 0 <= j < |a| ensures a[j] != b[i] { assert s[j] != s[|a| + i]; }
    }
  }

  // ---- The invariant ---------------------------------------------------------------------------

  /** `a` lies `x` below the top-level declaration `o`, and so does its image. */
  predicate Under(types: map<string, string>, tops: map<string, string>, a: string, o: string, x: string) {
    o in tops && o in types && a in types && a == o + x && types[a] == types[o] + x && (x == "" || x[0] == '.')
  }

  ghost predicate HasTop(types: map<string, string>, tops: map<string, string>, a: string) {
    exists o, x :: Under(types, tops, a, o, x)
  }

  /** `tops` gives each top-level declaration its reserved name. */
  ghost predicate TopsOk(root: string, used: set<string>, types: map<string, string>, tops: map<string, string>) {
    && (forall o :: o in tops ==> tops[o] in used && Plain(tops[o]) && o in types && types[o] == Qualify(root, tops[o]))
    && (forall a, b :: a in tops && b in tops && tops[a] == tops[b] ==> a == b)
  }

  ghost predicate TypesInv(root: string, used: set<string>, types: map<string, string>, tops: map<string, string>) {
    TopsOk(root, used, types, tops) && forall a :: a in types ==> HasTop(types, tops, a)
  }

  /** A declaration, and everything inside it, is mapped to one place in the flat file. */
  ghost predicate Covered(root: string, types: map<string, string>, o: string, rels: seq<string>) {
    && o in types && (exists n :: Plain(n) && types[o] == Qualify(root, n))
    && forall k :: 0 <= k < |rels| ==> o + rels[k] in types && types[o + rels[k]] == types[o] + rels[k]
  }

  ghost predicate Agrees(t: map<string, string>, u: map<string, string>) {
    forall a :: a in t ==> a in u && u[a] == t[a]
  }

  lemma CoveredKept(root: string, t: map<string, string>, u: map<string, string>, o: string, rels: seq<string>)
    requires Agrees(t, u) && Covered(root, t, o, rels)
    ensures Covered(root, u, o, rels)
  {
  }

  lemma {:induction false} InsertAllKeys(t: map<string, string>, ks: seq<string>, vs: seq<string>, a: string)
    requires |ks| == |vs|
    ensures a in InsertAll(t, ks, vs) <==> a in t || a in ks
    ensures a in t && a !in ks ==> InsertAll(t, ks, vs)[a] == t[a]
    decreases |ks|
  {
    if ks != [] {
      var n := |ks| - 1;
      InsertAllKeys(t, ks[..n], vs[..n], a);
      assert ks == ks[..n] + [ks[n]];
    }
  }

  lemma {:induction false} InsertAllAt(t: map<string, string>, ks: seq<string>, vs: seq<string>, k: nat)
    requires |ks| == |vs| && k < |ks| && NoRepeats(ks)
    ensures InsertAllKeysIn(t, ks, vs, ks[k]) && InsertAll(t, ks, vs)[ks[k]] == vs[k]
    decreases |ks|
  {
    var n := |ks| - 1;
    if k < n {
      assert ks == ks[..n] + [ks[n]];
      NoRepeatsPrefix(ks[..n], [ks[n]]);
      InsertAllAt(t, ks[..n], vs[..n], k);
    }
  }

  predicate InsertAllKeysIn(t: map<string, string>, ks: seq<string>, vs: seq<string>, a: string)
    requires |ks| == |vs|
  {
    a in InsertAll(t, ks, vs)
  }

  /** The table after one top-level declaration. */
  function AddTop(root: string, types: map<string, string>, o: string, n: string, rels: seq<string>)
    : map<string, string>
  {
    InsertAll(types[o := Qualify(root, n)], Prefixed(o, rels), Prefixed(Qualify(root, n), rels))
  }

  lemma AddTopFacts(root: string, types: map<string, string>, o: string, n: string, rels: seq<string>)
    requires NoRepeats([o] + Prefixed(o, rels))
    requires forall i :: 0 <= i <= |rels| ==> ([o] + Prefixed(o, rels))[i] !in types
    ensures var u := AddTop(root, types, o, n, rels);
            Agrees(types, u) && o in u && u[o] == Qualify(root, n)
            && (forall k :: 0 <= k < |rels| ==> o + rels[k] in u && u[o + rels[k]] == Qualify(root, n) + rels[k])
            && (forall a :: a in u <==> a in types || a in [o] + Prefixed(o, rels))
  {
    var ks, vs := Prefixed(o, rels), Prefixed(Qualify(root, n), rels);
    var t := types[o := Qualify(root, n)];
    var u := AddTop(root, types, o, n, rels);
    NoRepeatsPrefix([o], ks);
    forall i | 0 <= i < |ks| ensures ks[i] !in types && ks[i] != o { assert ([o] + ks)[i + 1] == ks[i]; }
    forall a ensures a in u <==> a in types || a in [o] + ks { InsertAllKeys(t, ks, vs, a); }
    forall a | a in types ensures a in u && u[a] == types[a] {
      InsertAllKeys(t, ks, vs, a);
      assert ([o] + ks)[0] == o;
    }
    InsertAllKeys(t, ks, vs, o);
    forall k | 0 <= k < |rels| ensures o + rels[k] in u && u[o + rels[k]] == Qualify(root, n) + rels[k] {
      PrefixedAt(o, rels, k);
      PrefixedAt(Qualify(root, n), rels, k);
      InsertAllAt(t, ks, vs, k);
    }
  }

  lemma TopsAdd(root: string, used: set<string>, types: map<string, string>, tops: map<string, string>,
                u: map<string, string>, o: string, n: string)
    requires TopsOk(root, used, types, tops) && Agrees(types, u) && n !in used && Plain(n)
    requires o in u && u[o] == Qualify(root, n)
    ensures TopsOk(root, used + {n}, u, tops[o := n])
  {
    hide Qualify, Plain;
  }

  lemma TopKept(types: map<string, string>, tops: map<string, string>, u: map<string, string>, o: string, n: string,
      a: string)
    requires HasTop(types, tops, a) && Agrees(types, u)
    ensures HasTop(u, tops[o := n], a)
  {
    var p, x :| Under(types, tops, a, p, x);
    assert Under(u, tops[o := n], a, p, x);
  }

  lemma AddedCovered(root: string, u: map<string, string>, o: string, n: string, rels: seq<string>)
    requires Plain(n) && o in u && u[o] == Qualify(root, n)
    requires forall k :: 0 <= k < |rels| ==> o + rels[k] in u && u[o + rels[k]] == Qualify(root, n) + rels[k]
    ensures Covered(root, u, o, rels)
  {
    hide Qualify, Plain;
  }

  lemma AllHaveTops(types: map<string, string>, tops: map<string, string>, u: map<string, string>,
                    o: string, n: string, rels: seq<string>)
    requires (forall a :: a in types ==> HasTop(types, tops, a)) && Agrees(types, u) && AllDotted(rels) && o in u
    requires forall k :: 0 <= k < |rels| ==> o + rels[k] in u && u[o + rels[k]] == u[o] + rels[k]
    requires forall a :: a in u <==> a in types || a in [o] + Prefixed(o, rels)
    ensures forall a :: a in u ==> HasTop(u, tops[o := n], a)
  {
    var tops' := tops[o := n];
    forall a | a in u ensures HasTop(u, tops', a) {
      if a in types {
        TopKept(types, tops, u, o, n, a);
      } else if a == o {
        assert Under(u, tops', a, o, "") by { assert o + "" == o && u[o] + "" == u[o]; }
      } else {
        var k := PrefixedFind(o, rels, a);
        assert Under(u, tops', a, o, rels[k]);
      }
    }
  }

  /** Adding a declaration under a fresh name keeps the invariant. */
  lemma AddTopInv(root: string, used: set<string>, types: map<string, string>, tops: map<string, string>,
                  o: string, n: string, rels: seq<string>)
    requires TypesInv(root, used, types, tops) && n !in used && Plain(n) && AllDotted(rels)
    requires NoRepeats([o] + Prefixed(o, rels))
    requires forall i :: 0 <= i <= |rels| ==> ([o] + Prefixed(o, rels))[i] !in types
    ensures TypesInv(root, used + {n}, AddTop(root, types, o, n, rels), tops[o := n])
    ensures Covered(root, AddTop(root, types, o, n, rels), o, rels)
  {
    var u := AddTop(root, types, o, n, rels);
    AddTopFacts(root, types, o, n, rels);
    assert o !in types by { assert ([o] + Prefixed(o, rels))[0] == o; }
    hide AddTop, Qualify, InsertAll, Prefixed, NoRepeats, TopsOk, HasTop, AllDotted;
    TopsAdd(root, used, types, tops, u, o, n);
    AllHaveTops(types, tops, u, o, n, rels);
    AddedCovered(root, u, o, n, rels);
  }

  lemma {:induction false} PrefixedFind(p: string, xs: seq<string>, a: string) returns (k: nat)
    requires a in [p] + Prefixed(p, xs) && a != p
    ensures k < |xs| && a == p + xs[k]
  {
    var i :| 0 <= i < |Prefixed(p, xs)| && Prefixed(p, xs)[i] == a;
    k := i;
    PrefixedAt(p, xs, k);
  }

  lemma MoreUsed(root: string, used: set<string>, more: set<string>, types: map<string, string>,
      tops: map<string, string>)
    requires TypesInv(root, used, types, tops) && used <= more
    ensures TypesInv(root, more, types, tops)
  {
  }

  lemma DotInside(n: string, x: string, m: string, y: string)
    requires |n| < |m| && n + x == m + y && (x == "" || x[0] == '.')
    ensures '.' in m
  {
    assert (n + x)[|n|] == x[0] && (m + y)[|n|] == m[|n|];
  }

  /** A plain name followed by nothing or by a dotted path splits in one way only. */
  lemma SplitOnce(n: string, x: string, m: string, y: string)
    requires Plain(n) && Plain(m) && (x == "" || x[0] == '.') && (y == "" || y[0] == '.') && n + x == m + y
    ensures n == m && x == y
  {
    if |n| < |m| { DotInside(n, x, m, y); }
    if |m| < |n| { DotInside(m, y, n, x); }
    var s := n + x;
    assert |n| == |m|;
    assert s[..|n|] == n && s[..|n|] == m && s[|n|..] == x && s[|n|..] == y;
  }

  lemma QualifiedSplitOnce(root: string, n: string, x: string, m: string, y: string)
    requires Plain(n) && Plain(m) && (x == "" || x[0] == '.') && (y == "" || y[0] == '.')
    requires Qualify(root, n) + x == Qualify(root, m) + y
    ensures n == m && x == y
  {
    if root != "" {
      var p := root + ".";
      assert Qualify(root, n) + x == p + (n + x) && Qualify(root, m) + y == p + (m + y);
      assert (p + (n + x))[|p|..] == n + x && (p + (m + y))[|p|..] == m + y;
    }
    SplitOnce(n, x, m, y);
  }

  /** Different types have different images. */
  lemma ImagesInjective(root: string, used: set<string>, types: map<string, string>, tops: map<string, string>,
                        a: string, b: string)
    requires TypesInv(root, used, types, tops) && a in types && b in types && types[a] == types[b]
    ensures a == b
  {
    hide Under, TopsOk;
    assert HasTop(types, tops, a) && HasTop(types, tops, b);
    var o, x :| Under(types, tops, a, o, x);
    var p, y :| Under(types, tops, b, p, y);
    UnderInjective(root, used, types, tops, a, o, x, b, p, y);
  }

  lemma UnderInjective(root: string, used: set<string>, types: map<string, string>, tops: map<string, string>,
                       a: string, o: string, x: string, b: string, p: string, y: string)
    requires TopsOk(root, used, types, tops) && a in types && b in types && types[a] == types[b]
    requires Under(types, tops, a, o, x) && Under(types, tops, b, p, y)
    ensures a == b
  {
    hide Qualify, Plain;
    QualifiedSplitOnce(root, tops[o], x, tops[p], y);
  }

  // ---- Registration keeps the invariant -----------------------------------------------------------

  /** The table holds exactly the types registered so far. */
  ghost predicate Good(root: string, t: Table, tops: map<string, string>, done: seq<string>) {
    TypesInv(root, t.used, t.types, tops) && forall a :: a in t.types <==> a in done
  }

  ghost predicate MessagesCovered(root: string, types: map<string, string>, pkg: string, ms: seq<Message>) {
    forall k :: 0 <= k < |ms| ==> Covered(root, types, Qualify(pkg, ms[k].name), Rels(ms[k]))
  }

  ghost predicate EnumsCovered(root: string, types: map<string, string>, pkg: string, es: seq<EnumDecl>) {
    forall k :: 0 <= k < |es| ==> Covered(root, types, Qualify(pkg, es[k].name), [])
  }

  ghost predicate FileCovered(root: string, types: map<string, string>, f: File) {
    MessagesCovered(root, types, f.pkg, f.messages) && EnumsCovered(root, types, f.pkg, f.enums)
  }

  lemma FileCoveredKept(root: string, t: map<string, string>, u: map<string, string>, f: File)
    requires Agrees(t, u) && FileCovered(root, t, f)
    ensures FileCovered(root, u, f)
  {
    forall k | 0 <= k < |f.messages| ensures Covered(root, u, Qualify(f.pkg, f.messages[k].name), Rels(f.messages[k])) {
      CoveredKept(root, t, u, Qualify(f.pkg, f.messages[k].name), Rels(f.messages[k]));
    }
    forall k | 0 <= k < |f.enums| ensures Covered(root, u, Qualify(f.pkg, f.enums[k].name), []) {
      CoveredKept(root, t, u, Qualify(f.pkg, f.enums[k].name), []);
    }
  }

  lemma TopNamePlain(root: string, f: File, name: string)
    requires Plain(name)
    ensures Plain(TopName(root, f, name))
  {
    PrefixPlain(f.pkg, name);
  }

  lemma QualifiedNotEmpty(parent: string, name: string)
    requires Plain(name)
    ensures Qualify(parent, name) != ""
  {
  }

  lemma MessageStep(root: string, t: Table, f: File, m: Message, tops: map<string, string>, done: seq<string>)
    returns (tops': map<string, string>)
    requires Good(root, t, tops, done) && Plain(m.name) && NamedMessages(m.nested) && NamedEnums(m.enums)
    requires NoRepeats(done + MessageKeys(f.pkg, m))
    ensures var u := RegisterMessage(root, t, f, m);
            Good(root, u, tops', done + MessageKeys(f.pkg, m)) && Agrees(t.types, u.types)
            && Covered(root, u.types, Qualify(f.pkg, m.name), Rels(m))
  {
    hide Prefixed, NoRepeats, TypesInv, Covered, Rels, Reserved, TopName, Qualify, NestedNames, InsertAll,
        NestedValues, NamedMessages, NamedEnums;
    var o, keys := Qualify(f.pkg, m.name), MessageKeys(f.pkg, m);
    var n := Reserved(t.used, TopName(root, f, m.name));
    var flat := Qualify(root, n);
    TopNamePlain(root, f, m.name);
    ReservedPlain(t.used, TopName(root, f, m.name));
    QualifiedNotEmpty(f.pkg, m.name);
    QualifiedNotEmpty(root, n);
    NestedNamesAre(o, m);
    NestedNamesAre(flat, m);
    RelsDotted(m);
    NoRepeatsPrefix(done, keys);
    var u := RegisterMessage(root, t, f, m);
    assert keys == [o] + Prefixed(o, Rels(m));
    assert u.types == AddTop(root, t.types, o, n, Rels(m)) && u.used == t.used + {n};
    tops' := tops[o := n];
    hide RegisterMessage, AddTop, MessageKeys;
    AddTopFacts(root, t.types, o, n, Rels(m));
    AddTopInv(root, t.used, t.types, tops, o, n, Rels(m));
  }

  lemma EnumStep(root: string, t: Table, f: File, e: EnumDecl, tops: map<string, string>, done: seq<string>)
    returns (tops': map<string, string>)
    requires Good(root, t, tops, done) && Plain(e.name) && NoRepeats(done + [Qualify(f.pkg, e.name)])
    ensures var u := RegisterEnum(root, t, f, e);
            Good(root, u, tops', done + [Qualify(f.pkg, e.name)]) && Agrees(t.types, u.types)
            && Covered(root, u.types, Qualify(f.pkg, e.name), [])
  {
    hide NoRepeats, TypesInv, Covered, Reserved, TopName, Qualify, RegisterValues;
    var o := Qualify(f.pkg, e.name);
    var n := Reserved(t.used, TopName(root, f, e.name));
    TopNamePlain(root, f, e.name);
    ReservedPlain(t.used, TopName(root, f, e.name));
    NoRepeatsPrefix(done, [o]);
    ValuesUse(f.pkg == root, n, e.values, Values(t.used + {n}, map[]));
    assert [o] + Prefixed(o, []) == [o];
    assert AddTop(root, t.types, o, n, []) == t.types[o := Qualify(root, n)];
    var u := RegisterEnum(root, t, f, e);
    assert u.types == AddTop(root, t.types, o, n, []) && t.used + {n} <= u.used;
    tops' := tops[o := n];
    hide RegisterEnum, AddTop, Prefixed;
    AddTopFacts(root, t.types, o, n, []);
    AddTopInv(root, t.used, t.types, tops, o, n, []);
    MoreUsed(root, t.used + {n}, u.used, u.types, tops');
  }

  lemma {:induction false} ValuesUse(isRoot: bool, enumName: string, vs: seq<string>, s: Values)
    ensures s.used <= RegisterValues(isRoot, enumName, vs, s).used
    decreases |vs|
  {
    if vs != [] { ValuesUse(isRoot, enumName, vs[..|vs| - 1], s); }
  }

  lemma {:induction false} MessagesStep(root: string, t: Table, f: File, ms: seq<Message>, tops: map<string, string>,
                                        done: seq<string>)
    returns (tops': map<string, string>)
    requires Good(root, t, tops, done) && NamedMessages(ms) && NoRepeats(done + KeysOfMessages(f.pkg, ms))
    ensures var u := RegisterMessages(root, t, f, ms);
            Good(root, u, tops', done + KeysOfMessages(f.pkg, ms)) && Agrees(t.types, u.types)
            && MessagesCovered(root, u.types, f.pkg, ms)
    decreases |ms|
  {
    hide Good, Covered, RegisterMessage, NoRepeats, MessageKeys, Rels, Qualify, Plain;
    if ms == [] {
      assert done + [] == done;
      tops' := tops;
    } else {
      var n := |ms| - 1;
      var p, m := ms[..n], ms[n];
      var kp, km := KeysOfMessages(f.pkg, p), MessageKeys(f.pkg, m);
      AssocKeys(done, kp, km);
      NoRepeatsPrefix(done + kp, km);
      var mid := MessagesStep(root, t, f, p, tops, done);
      var a := RegisterMessages(root, t, f, p);
      tops' := MessageStep(root, a, f, m, mid, done + kp);
      var u := RegisterMessages(root, t, f, ms);
      forall k | 0 <= k < |ms| ensures Covered(root, u.types, Qualify(f.pkg, ms[k].name), Rels(ms[k])) {
        if k < n {
          assert Covered(root, a.types, Qualify(f.pkg, p[k].name), Rels(p[k]));
          CoveredKept(root, a.types, u.types, Qualify(f.pkg, ms[k].name), Rels(ms[k]));
        }
      }
    }
  }

  lemma AssocKeys(a: seq<string>, b: seq<string>, c: seq<string>)
    ensures a + (b + c) == a + b + c
  {
  }

  lemma {:induction false} EnumsStep(root: string, t: Table, f: File, es: seq<EnumDecl>, tops: map<string, string>,
                                     done: seq<string>)
    returns (tops': map<string, string>)
    requires Good(root, t, tops, done) && NamedEnums(es) && NoRepeats(done + KeysOfEnums(f.pkg, es))
    ensures var u := RegisterEnums(root, t, f, es);
            Good(root, u, tops', done + KeysOfEnums(f.pkg, es)) && Agrees(t.types, u.types)
            && EnumsCovered(root, u.types, f.pkg, es)
    decreases |es|
  {
    hide Good, Covered, RegisterEnum, NoRepeats, Qualify, Plain;
    if es == [] {
      assert done + [] == done;
      tops' := tops;
    } else {
      var n := |es| - 1;
      var p, e := es[..n], es[n];
      var kp, ke := KeysOfEnums(f.pkg, p), [Qualify(f.pkg, e.name)];
      AssocKeys(done, kp, ke);
      NoRepeatsPrefix(done + kp, ke);
      var mid := EnumsStep(root, t, f, p, tops, done);
      var a := RegisterEnums(root, t, f, p);
      tops' := EnumStep(root, a, f, e, mid, done + kp);
      var u := RegisterEnums(root, t, f, es);
      forall k | 0 <= k < |es| ensures Covered(root, u.types, Qualify(f.pkg, es[k].name), []) {
        if k < n {
          assert Covered(root, a.types, Qualify(f.pkg, p[k].name), []);
          CoveredKept(root, a.types, u.types, Qualify(f.pkg, es[k].name), []);
        }
      }
    }
  }

  lemma {:induction false} ServicesKeepTypes(root: string, t: Table, f: File, ss: seq<Service>)
    ensures var u := RegisterServices(root, t, f, ss); u.types == t.types && t.used <= u.used
    decreases |ss|
  {
    if ss != [] { ServicesKeepTypes(root, t, f, ss[..|ss| - 1]); }
  }

  lemma {:induction false} ExtensionsKeepTypes(root: string, t: Table, f: File, xs: seq<Field>)
    ensures var u := RegisterExtensions(root, t, f, xs); u.types == t.types && t.used <= u.used
    decreases |xs|
  {
    if xs != [] { ExtensionsKeepTypes(root, t, f, xs[..|xs| - 1]); }
  }

  lemma FileStep(root: string, t: Table, f: File, tops: map<string, string>, done: seq<string>)
    returns (tops': map<string, string>)
    requires Good(root, t, tops, done) && NamedFile(f) && NoRepeats(done + FileKeys(f))
    ensures var u := RegisterFile(root, t, f);
            Good(root, u, tops', done + FileKeys(f)) && Agrees(t.types, u.types) && FileCovered(root, u.types, f)
  {
    hide RegisterMessages, RegisterEnums, RegisterServices, RegisterExtensions, Covered, TypesInv, NoRepeats,
        KeysOfMessages, KeysOfEnums, EnumsCovered, MessagesCovered, NamedMessages, NamedEnums;
    var km, ke := KeysOfMessages(f.pkg, f.messages), KeysOfEnums(f.pkg, f.enums);
    AssocKeys(done, km, ke);
    NoRepeatsPrefix(done + km, ke);
    var mid := MessagesStep(root, t, f, f.messages, tops, done);
    var a := RegisterMessages(root, t, f, f.messages);
    tops' := EnumsStep(root, a, f, f.enums, mid, done + km);
    var b := RegisterEnums(root, a, f, f.enums);
    var c := RegisterServices(root, b, f, f.services);
    ServicesKeepTypes(root, b, f, f.services);
    ExtensionsKeepTypes(root, c, f, f.extensions);
    var u := RegisterFile(root, t, f);
    MoreUsed(root, b.used, u.used, b.types, tops');
    MessagesCoveredKept(root, a.types, b.types, f.pkg, f.messages);
  }

  lemma MessagesCoveredKept(root: string, t: map<string, string>, u: map<string, string>, pkg: string, ms: seq<Message>)
    requires Agrees(t, u) && MessagesCovered(root, t, pkg, ms)
    ensures MessagesCovered(root, u, pkg, ms)
  {
    forall k | 0 <= k < |ms| ensures Covered(root, u, Qualify(pkg, ms[k].name), Rels(ms[k])) {
      CoveredKept(root, t, u, Qualify(pkg, ms[k].name), Rels(ms[k]));
    }
  }

  lemma {:induction false} FilesStep(root: string, fs: seq<File>) returns (tops: map<string, string>)
    requires NamedFiles(fs) && NoRepeats(AllKeys(fs))
    ensures var u := RegisterAll(root, NO_SYMBOLS, fs);
            Good(root, u, tops, AllKeys(fs)) && forall i :: 0 <= i < |fs| ==> FileCovered(root, u.types, fs[i])
    decreases |fs|
  {
    hide FileCovered, RegisterFile, NoRepeats, FileKeys;
    if fs == [] {
      tops := map[];
    } else {
      var n := |fs| - 1;
      var p, f := fs[..n], fs[n];
      NoRepeatsPrefix(AllKeys(p), FileKeys(f));
      hide Good, NamedFile;
      var mid := FilesStep(root, p);
      var a := RegisterAll(root, NO_SYMBOLS, p);
      tops := FileStep(root, a, f, mid, AllKeys(p));
      var u := RegisterAll(root, NO_SYMBOLS, fs);
      forall i | 0 <= i < |fs| ensures FileCovered(root, u.types, fs[i]) {
        if i < n {
          assert FileCovered(root, a.types, p[i]);
          FileCoveredKept(root, a.types, u.types, fs[i]);
        }
      }
    }
  }

  // ---- Both passes -----------------------------------------------------------------------------------

  lemma {:induction false} AllKeysAppend(a: seq<File>, b: seq<File>)
    ensures AllKeys(a + b) == AllKeys(a) + AllKeys(b)
    decreases |b|
  {
    hide FileKeys;
    if b == [] {
      assert a + b == a;
    } else {
      var p, f := b[..|b| - 1], b[|b| - 1];
      assert (a + b)[..|a + b| - 1] == a + p && (a + b)[|a + b| - 1] == f;
      AllKeysAppend(a, p);
      AssocKeys(AllKeys(a), AllKeys(p), FileKeys(f));
    }
  }

  lemma AllKeysOne(f: File)
    ensures AllKeys([f]) == FileKeys(f)
  {
    assert [f][..0] == [] && [] + FileKeys(f) == FileKeys(f);
  }

  /** The two passes together register each file once. */
  lemma {:induction false} PassesCoverKeys(root: string, fs: seq<File>)
    ensures multiset(AllKeys(PassOf(root, fs, true))) + multiset(AllKeys(PassOf(root, fs, false)))
            == multiset(AllKeys(fs))
    decreases |fs|
  {
    hide FileKeys;
    if fs != [] {
      var p, f := fs[..|fs| - 1], fs[|fs| - 1];
      PassesCoverKeys(root, p);
      AllKeysOne(f);
      var x, y := PassOf(root, p, true), PassOf(root, p, false);
      assert x + [] == x && y + [] == y;
      var a, b, k := AllKeys(x), AllKeys(y), FileKeys(f);
      if f.pkg == root { AllKeysAppend(x, [f]); } else { AllKeysAppend(y, [f]); }
      hide AllKeys;
      assert multiset(a + k) == multiset(a) + multiset(k) && multiset(b + k) == multiset(b) + multiset(k);
      assert multiset(AllKeys(p) + k) == multiset(AllKeys(p)) + multiset(k);
    }
  }

  lemma {:induction false} PassMember(root: string, fs: seq<File>, inRoot: bool, f: File)
    ensures f in PassOf(root, fs, inRoot) <==> f in fs && (f.pkg == root) == inRoot
    decreases |fs|
  {
    if fs != [] {
      PassMember(root, fs[..|fs| - 1], inRoot, f);
      assert fs == fs[..|fs| - 1] + [fs[|fs| - 1]];
    }
  }

  /** The finished table: exactly the declared types, injective images, and every declaration in place. */
  lemma TableIsSound(root: string, fs: seq<File>)
    requires NamedFiles(fs) && DistinctTypes(fs)
    ensures var t := SymbolTable(root, fs).types;
            (forall a :: a in t <==> a in AllKeys(fs))
            && (forall a, b :: a in t && b in t && t[a] == t[b] ==> a == b)
            && forall i :: 0 <= i < |fs| ==> FileCovered(root, t, fs[i])
  {
    hide NoRepeats, FileCovered, TypesInv, FileKeys, AllKeys, PassOf, NamedFile, TopsOk;
    var a, b := PassOf(root, fs, true), PassOf(root, fs, false);
    var order := a + b;
    PassesCoverKeys(root, fs);
    AllKeysAppend(a, b);
    assert multiset(AllKeys(order)) == multiset(AllKeys(fs));
    CountsToNoRepeats(AllKeys(order));
    forall i | 0 <= i < |order| ensures NamedFile(order[i]) {
      PassMember(root, fs, true, order[i]);
      PassMember(root, fs, false, order[i]);
      assert order[i] in fs;
    }
    var tops := FilesStep(root, order);
    var t := SymbolTable(root, fs);
    hide RegisterAll;
    forall x ensures x in t.types <==> x in AllKeys(fs) {
      assert x in AllKeys(order) <==> x in multiset(AllKeys(order));
      assert x in AllKeys(fs) <==> x in multiset(AllKeys(fs));
    }
    forall x, y | x in t.types && y in t.types && t.types[x] == t.types[y] ensures x == y {
      ImagesInjective(root, t.used, t.types, tops, x, y);
    }
    forall i | 0 <= i < |fs| ensures FileCovered(root, t.types, fs[i]) {
      PassMember(root, fs, true, fs[i]);
      PassMember(root, fs, false, fs[i]);
      assert fs[i] in order;
    }
  }
}
