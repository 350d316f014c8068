/**
 `normalize_aliases` of config.rs: trimming and rejecting alias entries, then expanding
 every chain to its last target in the very map that is being read.
 */
module Aliases {
  import opened Common

  datatype AliasError =
    | EmptyKey
    | EmptyTarget(key: string)
    | StarTarget(key: string)
    | Conflict(key: string)
    | CaseOnly(key: string)
    | Cycle(key: string)

  datatype Result<T> = Ok(value: T) | Err(error: AliasError)

  /** Library string functions. */
  datatype Text = Text(trim: string -> string, lower: string -> string)

  type Entry = (string, string)

  // ---- First pass -------------------------------------------------------------------------

  datatype Tables = Tables(normalized: map<string, string>, folded: map<string, string>)

  /** The checks on one entry, in the program's order. */
  function Admit(t: Text, b: Tables, e: Entry): Result<Tables> {
    var key, target := t.trim(e.0), t.trim(e.1);
    var fold := t.lower(key);
    if key == "" then Err(EmptyKey)
    else if target == "" then Err(EmptyTarget(key))
    else if target == "*" then Err(StarTarget(key))
    else if key in b.normalized && b.normalized[key] != target then Err(Conflict(key))
    else if fold in b.folded && b.folded[fold] != key then Err(CaseOnly(key))
    else Ok(Tables(b.normalized[key := target], b.folded[fold := key]))
  }

  function FirstPass(t: Text, es: seq<Entry>): Result<Tables> {
    if es == [] then Ok(Tables(map[], map[]))
    else
      var r := FirstPass(t, es[..|es| - 1]);
      if r.Err? then r else Admit(t, r.value, es[|es| - 1])
  }

  /** One entry by itself is in order. */
  predicate Proper(t: Text, e: Entry) {
    t.trim(e.0) != "" && t.trim(e.1) != "" && t.trim(e.1) != "*"
  }

  /** Two entries do not contradict each other. */
  predicate Compatible(t: Text, d: Entry, e: Entry) {
    && (t.trim(d.0) == t.trim(e.0) ==> t.trim(d.1) == t.trim(e.1))
    && (t.lower(t.trim(d.0)) == t.lower(t.trim(e.0)) ==> t.trim(d.0) == t.trim(e.0))
  }

  ghost predicate Acceptable(t: Text, es: seq<Entry>) {
    && (forall i :: 0 <= i < |es| ==> Proper(t, es[i]))
    && (forall i, j :: 0 <= i < j < |es| ==> Compatible(t, es[i], es[j]))
  }

  /** The first table holds exactly the trimmed entries. */
  ghost predicate HoldsEntries(t: Text, m: map<string, string>, es: seq<Entry>) {
    && (forall i :: 0 <= i < |es| ==> t.trim(es[i].0) in m && m[t.trim(es[i].0)] == t.trim(es[i].1))
    && (forall k :: k in m ==> exists i :: 0 <= i < |es| && t.trim(es[i].0) == k)
  }

  /** The second table finds the trimmed keys by their lower-case form. */
  ghost predicate HoldsFolds(t: Text, m: map<string, string>, es: seq<Entry>) {
    && (forall i :: 0 <= i < |es| ==> t.lower(t.trim(es[i].0)) in m && m[t.lower(t.trim(es[i].0))] == t.trim(es[i].0))
    && (forall f :: f in m ==> exists i :: 0 <= i < |es| && t.lower(t.trim(es[i].0)) == f)
  }

  ghost predicate Holds(t: Text, b: Tables, es: seq<Entry>) {
    HoldsEntries(t, b.normalized, es) && HoldsFolds(t, b.folded, es)
  }

  /** The first pass accepts exactly the acceptable maps, and keeps the trimmed entries. */
  lemma {:induction false} FirstPassAccepts(t: Text, es: seq<Entry>)
    ensures FirstPass(t, es).Ok? <==> Acceptable(t, es)
    ensures FirstPass(t, es).Ok? ==> Holds(t, FirstPass(t, es).value, es)
    decreases |es|
  {
    if es != [] {
      var n := |es| - 1;
      var p, e := es[..n], es[n];
      FirstPassAccepts(t, p);
      assert es == p + [e];
      AcceptableExtend(t, p, e);
      hide Holds, Acceptable, Admit;
      if FirstPass(t, p).Ok? { AdmitStep(t, FirstPass(t, p).value, p, e); }
    }
  }

  /** What is wrong with an entry behind acceptable ones, in the order the checks are made. */
  ghost predicate Blames(t: Text, p: seq<Entry>, e: Entry, x: AliasError) {
    var key, target := t.trim(e.0), t.trim(e.1);
    match x
    case EmptyKey => key == ""
    case EmptyTarget(k) => k == key && key != "" && target == ""
    case StarTarget(k) => k == key && key != "" && target == "*"
    case Conflict(k) => k == key && Proper(t, e) && Contradicted(t, p, e)
    case CaseOnly(k) => k == key && Proper(t, e) && !Contradicted(t, p, e) && OtherCase(t, p, e)
    case Cycle(_) => false
  }

  /** An entry of the same key has another target. */
  ghost predicate Contradicted(t: Text, p: seq<Entry>, e: Entry) {
    exists i :: 0 <= i < |p| && t.trim(p[i].0) == t.trim(e.0) && t.trim(p[i].1) != t.trim(e.1)
  }

  /** An entry's key differs only by case. */
  ghost predicate OtherCase(t: Text, p: seq<Entry>, e: Entry) {
    exists i :: 0 <= i < |p| && t.lower(t.trim(p[i].0)) == t.lower(t.trim(e.0)) && t.trim(p[i].0) != t.trim(e.0)
  }

  lemma AdmitBlames(t: Text, b: Tables, p: seq<Entry>, e: Entry)
    requires Acceptable(t, p) && Holds(t, b, p) && Admit(t, b, e).Err?
    ensures Blames(t, p, e, Admit(t, b, e).error)
  {
    var key, target, fold := t.trim(e.0), t.trim(e.1), t.lower(t.trim(e.0));
    if Proper(t, e) {
      if key in b.normalized {
        var i :| 0 <= i < |p| && t.trim(p[i].0) == key;
        assert b.normalized[key] == t.trim(p[i].1);
      }
      if fold in b.folded {
        var i :| 0 <= i < |p| && t.lower(t.trim(p[i].0)) == fold;
        assert b.folded[fold] == t.trim(p[i].0);
      }
    }
  }

  /** A refusal names the first entry that is wrong behind acceptable ones, and what is wrong with it. */
  lemma {:induction false} FirstError(t: Text, es: seq<Entry>) returns (n: nat)
    requires FirstPass(t, es).Err?
    ensures n < |es| && Acceptable(t, es[..n]) && Blames(t, es[..n], es[n], FirstPass(t, es).error)
    decreases |es|
  {
    hide Acceptable, Blames, Admit, Holds;
    var m := |es| - 1;
    var p := es[..m];
    if FirstPass(t, p).Err? {
      n := FirstError(t, p);
      assert p[..n] == es[..n] && p[n] == es[n];
    } else {
      n := m;
      FirstPassAccepts(t, p);
      AdmitBlames(t, FirstPass(t, p).value, p, es[m]);
    }
  }

  /** Two different keys with one trimmed form and one target are accepted, and become one entry. */
  lemma TrimmedTwiceAccepted(t: Text, a: Entry, b: Entry)
    requires a.0 != b.0 && t.trim(a.0) == t.trim(b.0) && t.trim(a.1) == t.trim(b.1) && Proper(t, a)
    ensures FirstPass(t, [a, b]).Ok?
    ensures FirstPass(t, [a, b]).value.normalized == map[t.trim(a.0) := t.trim(a.1)]
  {
    FirstPassAccepts(t, [a, b]);
    var m := FirstPass(t, [a, b]).value.normalized;
    assert [a, b][0] == a && [a, b][1] == b && t.trim([a, b][0].0) in m;
    assert m.Keys == {t.trim(a.0)};
  }

  /** An instance of the above, for any trimming that takes away a leading space. */
  lemma SpacedKeyAccepted(t: Text)
    requires t.trim("a") == "a" && t.trim(" a") == "a" && t.trim("b") == "b"
    ensures FirstPass(t, [("a", "b"), (" a", "b")]).Ok?
    ensures FirstPass(t, [("a", "b"), (" a", "b")]).value.normalized == map["a" := "b"]
  {
    hide FirstPass;
    assert "b" != "*" && "a" != " a" by { assert "b"[0] != "*"[0] && |"a"| != |" a"|; }
    TrimmedTwiceAccepted(t, ("a", "b"), (" a", "b"));
  }

  lemma AcceptableExtend(t: Text, p: seq<Entry>, e: Entry)
    ensures Acceptable(t, p + [e]) <==>
            Acceptable(t, p) && Proper(t, e) && forall i :: 0 <= i < |p| ==> Compatible(t, p[i], e)
  {
    hide Proper, Compatible;
    var es := p + [e];
    assert es[|p|] == e;
    assert forall i :: 0 <= i < |p| ==> p[i] == es[i];
  }

  lemma AdmitStep(t: Text, b: Tables, p: seq<Entry>, e: Entry)
    requires Acceptable(t, p) && Holds(t, b, p)
    ensures Admit(t, b, e).Ok? <==> Acceptable(t, p + [e])
    ensures Admit(t, b, e).Ok? ==> Holds(t, Admit(t, b, e).value, p + [e])
  {
    AcceptableExtend(t, p, e);
    AdmitMeaning(t, b, p, e);
    if Admit(t, b, e).Ok? { AdmitHolds(t, b, p, e); }
    hide Holds, Admit, Acceptable;
  }

  /** The two table lookups stand for a comparison with every earlier entry. */
  lemma AdmitMeaning(t: Text, b: Tables, p: seq<Entry>, e: Entry)
    requires Holds(t, b, p)
    ensures Admit(t, b, e).Ok? <==> Proper(t, e) && forall i :: 0 <= i < |p| ==> Compatible(t, p[i], e)
  {
    var key, fold := t.trim(e.0), t.lower(t.trim(e.0));
    if Proper(t, e) && Admit(t, b, e).Err? {
      if key in b.normalized && b.normalized[key] != t.trim(e.1) {
        var i :| 0 <= i < |p| && t.trim(p[i].0) == key;
        assert !Compatible(t, p[i], e);
      } else {
        var i :| 0 <= i < |p| && t.lower(t.trim(p[i].0)) == fold;
        assert !Compatible(t, p[i], e);
      }
    }
  }

  lemma AdmitHolds(t: Text, b: Tables, p: seq<Entry>, e: Entry)
    requires Holds(t, b, p) && Admit(t, b, e).Ok?
    ensures Holds(t, Admit(t, b, e).value, p + [e])
  {
    EntriesHold(t, b.normalized, p, e);
    FoldsHold(t, b.folded, p, e);
    hide HoldsEntries, HoldsFolds;
  }

  lemma EntriesHold(t: Text, m: map<string, string>, p: seq<Entry>, e: Entry)
    requires HoldsEntries(t, m, p) && (t.trim(e.0) in m ==> m[t.trim(e.0)] == t.trim(e.1))
    ensures HoldsEntries(t, m[t.trim(e.0) := t.trim(e.1)], p + [e])
  {
    var es, c := p + [e], m[t.trim(e.0) := t.trim(e.1)];
    assert es[|p|] == e;
    assert forall i :: 0 <= i < |p| ==> es[i] == p[i];
    forall k | k in c ensures exists i :: 0 <= i < |es| && t.trim(es[i].0) == k {
      if k in m {
        var i :| 0 <= i < |p| && t.trim(p[i].0) == k;
        assert t.trim(es[i].0) == k;
      } else {
        assert t.trim(es[|p|].0) == k;
      }
    }
  }

  lemma FoldsHold(t: Text, m: map<string, string>, p: seq<Entry>, e: Entry)
    requires HoldsFolds(t, m, p)
    requires t.lower(t.trim(e.0)) in m ==> m[t.lower(t.trim(e.0))] == t.trim(e.0)
    ensures HoldsFolds(t, m[t.lower(t.trim(e.0)) := t.trim(e.0)], p + [e])
  {
    var es, c := p + [e], m[t.lower(t.trim(e.0)) := t.trim(e.0)];
    assert es[|p|] == e;
    assert forall i :: 0 <= i < |p| ==> es[i] == p[i];
    forall f | f in c ensures exists i :: 0 <= i < |es| && t.lower(t.trim(es[i].0)) == f {
      if f in m {
        var i :| 0 <= i < |p| && t.lower(t.trim(p[i].0)) == f;
        assert t.lower(t.trim(es[i].0)) == f;
      } else {
        assert t.lower(t.trim(es[|p|].0)) == f;
      }
    }
  }

  // ---- Chains -----------------------------------------------------------------------------

  /** The name `n` hops from `k`, while the hops exist. */
  function Hop(m: map<string, string>, k: string, n: nat): Option<string> {
    if n == 0 then Some(k)
    else
      var h := Hop(m, k, n - 1);
      if h.Some? && h.value in m then Some(m[h.value]) else None
  }

  /** `last` is the end of the chain from `k`. */
  ghost predicate Ends(m: map<string, string>, k: string, last: string) {
    last !in m && exists n: nat :: Hop(m, k, n) == Some(last)
  }

  /** The chain from `k` never leaves the keys. */
  ghost predicate Cyclic(m: map<string, string>, k: string) {
    forall n: nat :: Hop(m, k, n).Some?
  }

  lemma {:induction false} HopAdd(m: map<string, string>, k: string, a: nat, b: nat)
    requires Hop(m, k, a).Some?
    ensures Hop(m, k, a + b) == Hop(m, Hop(m, k, a).value, b)
    decreases b
  {
    if b > 0 { HopAdd(m, k, a, b - 1); }
  }

  lemma {:induction false} HopNone(m: map<string, string>, k: string, a: nat, b: nat)
    requires a <= b && Hop(m, k, a).None?
    ensures Hop(m, k, b).None?
    decreases b
  {
    if a < b { HopNone(m, k, a, b - 1); }
  }

  /** A chain that ends is not cyclic, and has one end. */
  lemma EndsOnce(m: map<string, string>, k: string, x: string)
    requires Ends(m, k, x)
    ensures !Cyclic(m, k)
    ensures forall y :: Ends(m, k, y) ==> y == x
  {
    var n: nat :| Hop(m, k, n) == Some(x);
    assert Hop(m, k, n + 1).None?;
    forall y | Ends(m, k, y) ensures y == x {
      var i: nat :| Hop(m, k, i) == Some(y);
      assert Hop(m, k, i + 1).None?;
      if n + 1 <= i { HopNone(m, k, n + 1, i); }
      if i + 1 <= n { HopNone(m, k, i + 1, n); }
    }
  }

  /** A name met twice on a chain is met for ever. */
  lemma {:induction false} TwiceIsCyclic(m: map<string, string>, k: string, a: nat, b: nat, n: nat)
    requires a < b && Hop(m, k, a).Some? && Hop(m, k, b) == Hop(m, k, a)
    ensures Hop(m, k, n).Some?
    decreases n
  {
    if n <= b {
      if Hop(m, k, n).None? { HopNone(m, k, n, b); }
    } else {
      TwiceIsCyclic(m, k, a, b, n - (b - a));
      HopAdd(m, k, b, n - b);
      HopAdd(m, k, a, n - b);
    }
  }

  // ---- Second pass ---------------------------------------------------------------------------

  /** `t` lies on the original chain of `k`, at least one hop away. */
  ghost predicate Ahead(m: map<string, string>, k: string, t: string) {
    exists n: nat :: n > 0 && Hop(m, k, n) == Some(t)
  }

  /** The map in the middle of the expansion: every entry points further down its own chain. */
  ghost predicate Expanding(m: map<string, string>, cur: map<string, string>) {
    cur.Keys == m.Keys && forall k :: k in cur ==> Ahead(m, k, cur[k])
  }

  lemma AheadTrans(m: map<string, string>, k: string, t: string, u: string)
    requires Ahead(m, k, t) && Ahead(m, t, u)
    ensures Ahead(m, k, u)
  {
    var a: nat :| a > 0 && Hop(m, k, a) == Some(t);
    var b: nat :| b > 0 && Hop(m, t, b) == Some(u);
    HopAdd(m, k, a, b);
  }

  /** A key that comes back on its own chain, from itself or from a name on it. */
  lemma AheadOfItself(m: map<string, string>, k: string, t: string)
    requires (k == t || Ahead(m, k, t)) && Ahead(m, t, t)
    ensures Cyclic(m, k)
  {
    var a: nat :| Hop(m, k, a) == Some(t) by { if k == t { assert Hop(m, k, 0) == Some(t); } }
    var b: nat :| b > 0 && Hop(m, t, b) == Some(t);
    HopAdd(m, k, a, b);
    forall n: nat ensures Hop(m, k, n).Some? { TwiceIsCyclic(m, k, a, a + b, n); }
  }

  lemma StartExpanding(m: map<string, string>)
    ensures Expanding(m, m)
  {
    forall k | k in m ensures Ahead(m, k, m[k]) {
      assert Hop(m, k, 0) == Some(k);
      assert Hop(m, k, 1) == Some(m[k]);
    }
  }

  lemma AheadEnds(m: map<string, string>, k: string, t: string)
    requires Ahead(m, k, t) && t !in m
    ensures Ends(m, k, t)
  {
  }

  /** Every name in `seen` leads to `t`. */
  ghost predicate AllLead(m: map<string, string>, seen: set<string>, t: string) {
    forall s :: s in seen ==> Ahead(m, s, t)
  }

  /** The inner loop: follow the chain of `key` in the half-expanded map. */
  method Chase(ghost m: map<string, string>, cur: map<string, string>, key: string) returns (r: Result<string>)
    requires key in cur && Expanding(m, cur)
    ensures r.Ok? ==> Ends(m, key, r.value)
    ensures r.Err? ==> r.error == Cycle(key) && Cyclic(m, key)
    ensures r.Ok? ==> Ahead(m, key, r.value)
  {
    var seen := {key};
    var target := cur[key];
    while target in cur
      invariant key in seen && seen <= cur.Keys
      invariant AllLead(m, seen, target)
      invariant forall s :: s in seen ==> s == key || Ahead(m, key, s)
      decreases cur.Keys - seen
    {
      if target in seen {
        AheadOfItself(m, key, target);
        return Err(Cycle(key));
      }
      var next := cur[target];
      forall s | s in seen ensures Ahead(m, s, next) { AheadTrans(m, s, target, next); }
      seen := seen + {target};
      target := next;
    }
    AheadEnds(m, key, target);
    r := Ok(target);
  }

  /** The keys of a map, each once. */
  ghost predicate Lists(order: seq<string>, m: map<string, string>) {
    && (forall k :: k in m <==> k in order)
    && (forall i, j :: 0 <= i < j < |order| ==> order[i] != order[j])
  }

  /** `key` is listed, and no key listed before it has an endless chain. */
  ghost predicate FirstIn(m: map<string, string>, order: seq<string>, key: string) {
    exists i :: 0 <= i < |order| && order[i] == key && forall j :: 0 <= j < i ==> !Cyclic(m, order[j])
  }

  /** The outer loop, over the keys in order, overwriting the map it reads. */
  method ExpandChains(m: map<string, string>, order: seq<string>) returns (r: Result<map<string, string>>)
    requires Lists(order, m)
    ensures r.Ok? <==> forall k :: k in m ==> !Cyclic(m, k)
    ensures r.Ok? ==> r.value.Keys == m.Keys && forall k :: k in m ==> Ends(m, k, r.value[k])
    ensures r.Ok? ==> forall k :: k in m ==> r.value[k] !in r.value
    ensures r.Err? ==> r.error.Cycle? && Cyclic(m, r.error.key) && FirstIn(m, order, r.error.key)
  {
    var cur := m;
    StartExpanding(m);
    hide Expanding, Cyclic, Hop;
    for i := 0 to |order|
      invariant Expanding(m, cur) && cur.Keys == m.Keys
      invariant forall j :: 0 <= j < i ==> Ends(m, order[j], cur[order[j]])
      invariant forall j :: 0 <= j < i ==> !Cyclic(m, order[j])
    {
      var key := order[i];
      assert key in order;
      var t := Chase(m, cur, key);
      if t.Err? { return Err(t.error); }
      EndsOnce(m, key, t.value);
      Overwrite(m, cur, key, t.value);
      cur := cur[key := t.value];
    }
    r := Ok(cur);
    forall k | k in m ensures Ends(m, k, cur[k]) && !Cyclic(m, k) {
      var j :| 0 <= j < |order| && order[j] == k;
    }
  }

  lemma Overwrite(m: map<string, string>, cur: map<string, string>, key: string, t: string)
    requires Expanding(m, cur) && key in cur && Ahead(m, key, t)
    ensures Expanding(m, cur[key := t])
  {
    hide Ahead;
  }

  // ---- Keys in order --------------------------------------------------------------------

  /** Keys in ascending order, as the program's ordered map yields them. */
  ghost predicate Ascending(order: seq<string>) {
    forall i, j :: 0 <= i < j < |order| ==> StrBefore(order[i], order[j])
  }

  function InsertKey(order: seq<string>, key: string): seq<string> {
    if order == [] || StrBefore(key, order[0]) then [key] + order
    else if order[0] == key then order
    else [order[0]] + InsertKey(order[1..], key)
  }

  lemma {:induction false} InsertKeyIn(order: seq<string>, key: string, k: string)
    ensures k in InsertKey(order, key) <==> k == key || k in order
    decreases |order|
  {
    if order != [] {
      assert order == [order[0]] + order[1..];
      InsertKeyIn(order[1..], key, k);
    }
  }

  lemma {:induction false} InsertKeyAscends(order: seq<string>, key: string)
    requires Ascending(order)
    ensures Ascending(InsertKey(order, key))
    decreases |order|
  {
    if order == [] {
    } else if StrBefore(key, order[0]) {
      forall j | 0 <= j < |order| ensures StrBefore(key, order[j]) { StrOrder(key, order[0], order[j]); }
    } else if order[0] != key {
      InsertKeyAscends(order[1..], key);
      var t := InsertKey(order[1..], key);
      forall j | 0 <= j < |t| ensures StrBefore(order[0], t[j]) {
        InsertKeyIn(order[1..], key, t[j]);
        StrOrder(order[0], key, key);
        if t[j] != key {
          var i :| 0 <= i < |order[1..]| && order[1..][i] == t[j];
          assert order[i + 1] == t[j];
        }
      }
    }
  }

  lemma AscendingLists(order: seq<string>, m: map<string, string>)
    requires Ascending(order) && forall k :: k in m <==> k in order
    ensures Lists(order, m)
  {
    forall i, j | 0 <= i < j < |order| ensures order[i] != order[j] { StrOrder(order[i], order[j], order[i]); }
  }

  /** The first loop, with the keys of the table in ascending order. */
  method BuildTables(t: Text, es: seq<Entry>) returns (r: Result<Tables>, order: seq<string>)
    ensures r == FirstPass(t, es)
    ensures r.Ok? ==> Ascending(order) && Lists(order, r.value.normalized)
  {
    hide Lists, StrBefore, InsertKey;
    var tables;
    tables, order := Tables(map[], map[]), [];
    for i := 0 to |es|
      invariant FirstPass(t, es[..i]) == Ok(tables)
      invariant Ascending(order) && forall k :: k in tables.normalized <==> k in order
    {
      assert es[..i + 1][..i] == es[..i];
      var a := Admit(t, tables, es[i]);
      if a.Err? {
        RejectionStays(t, es, i + 1);
        return Err(a.error), order;
      }
      order := Recorded(t, tables, es[i], order);
      tables := a.value;
    }
    assert es[..|es|] == es;
    AscendingLists(order, tables.normalized);
    r := Ok(tables);
  }

  method Recorded(t: Text, b: Tables, e: Entry, order: seq<string>) returns (r: seq<string>)
    requires Admit(t, b, e).Ok? && Ascending(order) && forall k :: k in b.normalized <==> k in order
    ensures Ascending(r) && forall k :: k in Admit(t, b, e).value.normalized <==> k in r
  {
    var key := t.trim(e.0);
    InsertKeyAscends(order, key);
    forall k ensures k in InsertKey(order, key) <==> k == key || k in order { InsertKeyIn(order, key, k); }
    hide InsertKey, Ascending;
    r := InsertKey(order, key);
  }

  lemma NothingToExpand()
    ensures Expanded(map[], Ok(map[]))
  {
  }

  /** `normalize_aliases`. */
  method NormalizeAliases(t: Text, es: seq<Entry>) returns (r: Result<map<string, string>>)
    ensures !Acceptable(t, es) ==> FirstPass(t, es).Err? && r == Err(FirstPass(t, es).error)
    ensures Acceptable(t, es) ==> FirstPass(t, es).Ok? && Expanded(FirstPass(t, es).value.normalized, r)
  {
    FirstPassAccepts(t, es);
    if es == [] {
      NothingToExpand();
      return Ok(map[]);
    }
    hide FirstPass, Acceptable, Holds, Hop, Cyclic, Ends, Ascending, Lists, StrBefore, FirstIn;
    var b, order := BuildTables(t, es);
    if b.Err? { return Err(b.error); }
    var m := b.value.normalized;
    r := ExpandChains(m, order);
    if r.Err? {
      forall k | k in m && StrBefore(k, r.error.key) ensures !Cyclic(m, k) {
        FirstCyclic(m, order, r.error.key, k);
      }
      OrderedKey(m, order, r.error.key);
    }
  }

  lemma OrderedKey(m: map<string, string>, order: seq<string>, key: string)
    requires Lists(order, m) && FirstIn(m, order, key)
    ensures key in m
  {
  }

  /**
   The outcome for an accepted map: a cycle error through the first key whose chain never
   ends, or every key mapped to the end of its chain, with no target left that is a key.
   */
  ghost predicate Expanded(m: map<string, string>, r: Result<map<string, string>>) {
    && (r.Ok? <==> forall k :: k in m ==> !Cyclic(m, k))
    && (r.Ok? ==> r.value.Keys == m.Keys
                  && forall k :: k in m ==> Ends(m, k, r.value[k]) && r.value[k] !in r.value)
    && (r.Err? ==> r.error.Cycle? && r.error.key in m && Cyclic(m, r.error.key)
                   && forall k :: k in m && StrBefore(k, r.error.key) ==> !Cyclic(m, k))
  }

  lemma FirstCyclic(m: map<string, string>, order: seq<string>, key: string, k: string)
    requires Lists(order, m) && Ascending(order) && k in m && StrBefore(k, key)
    requires FirstIn(m, order, key)
    ensures !Cyclic(m, k)
  {
    hide Cyclic;
    var i :| 0 <= i < |order| && order[i] == key && forall j :: 0 <= j < i ==> !Cyclic(m, order[j]);
    var j :| 0 <= j < |order| && order[j] == k;
    StrOrder(k, key, k);
    assert i < j ==> StrBefore(key, k);
  }

  lemma {:induction false} RejectionStays(t: Text, es: seq<Entry>, n: nat)
    requires n <= |es| && FirstPass(t, es[..n]).Err?
    ensures FirstPass(t, es) == FirstPass(t, es[..n])
    decreases |es| - n
  {
    if n == |es| {
      assert es[..n] == es;
    } else {
      assert es[..n + 1][..n] == es[..n];
      RejectionStays(t, es, n + 1);
    }
  }
}
