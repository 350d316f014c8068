/**
 What a retention pass of cleaner.rs does to each entry of the log root, said of the entries
 themselves: their age, their error file and their own sizes.
 */
module Retention {
  import opened Common
  import opened Cleaner

  // ---- Sums -----------------------------------------------------------------------------------------

  function Sum(es: seq<Listed>, w: Listed -> nat): nat {
    if es == [] then 0 else Sum(es[..|es| - 1], w) + w(es[|es| - 1])
  }

  function Weigh(ds: seq<RequestDir>, w: RequestDir -> nat): nat {
    if ds == [] then 0 else Weigh(ds[..|ds| - 1], w) + w(ds[|ds| - 1])
  }

  lemma {:induction false} WeighSplit(a: seq<RequestDir>, b: seq<RequestDir>, w: RequestDir -> nat)
    ensures Weigh(a + b, w) == Weigh(a, w) + Weigh(b, w)
    decreases |b|
  {
    if b == [] {
      assert a + b == a;
    } else {
      assert (a + b)[..|a + b| - 1] == a + b[..|b| - 1];
      WeighSplit(a, b[..|b| - 1], w);
    }
  }

  lemma WeighFirst(ds: seq<RequestDir>, w: RequestDir -> nat)
    requires ds != []
    ensures Weigh(ds, w) == w(ds[0]) + Weigh(ds[1..], w)
  {
    assert ds == [ds[0]] + ds[1..];
    WeighSplit([ds[0]], ds[1..], w);
    assert [ds[0]][..0] == [];
  }

  lemma {:induction false} WeighInsert(d: RequestDir, ds: seq<RequestDir>, w: RequestDir -> nat)
    ensures Weigh(Insert(d, ds), w) == w(d) + Weigh(ds, w)
    decreases |ds|
  {
    hide Before;
    WeighFirst(Insert(d, ds), w);
    if ds != [] && !Before(d, ds[0]) {
      WeighInsert(d, ds[1..], w);
      WeighFirst(ds, w);
      assert Insert(d, ds)[1..] == Insert(d, ds[1..]);
    } else {
      assert Insert(d, ds)[1..] == ds;
    }
  }

  /** Sorting keeps every sum. */
  lemma {:induction false} WeighSorted(ds: seq<RequestDir>, w: RequestDir -> nat)
    ensures Weigh(SortByAge(ds), w) == Weigh(ds, w)
    decreases |ds|
  {
    if ds != [] {
      WeighSorted(ds[1..], w);
      WeighInsert(ds[0], SortByAge(ds[1..]), w);
      WeighFirst(ds, w);
    }
  }

  /** A sum over the kept directories is a sum over the entries that survive the age rule. */
  lemma {:induction false} WeighKept(es: seq<Listed>, active: set<string>, p: Policy, stuck: set<string>,
      w: RequestDir -> nat, u: Listed -> nat)
    requires forall e :: u(e) == if Survives(e, active, p, stuck) then w(Seen(e, p)) else 0
    ensures Weigh(Kept(es, active, p, stuck), w) == Sum(es, u)
    decreases |es|
  {
    if es != [] {
      var n := |es| - 1;
      WeighKept(es[..n], active, p, stuck, w, u);
      var e := es[n];
      if Survives(e, active, p, stuck) {
        assert Kept(es, active, p, stuck) == Kept(es[..n], active, p, stuck) + [Seen(e, p)];
      } else {
        assert Kept(es[..n], active, p, stuck) + [] == Kept(es[..n], active, p, stuck);
      }
    }
  }

  // ---- The rules, said of an entry ------------------------------------------------------------------------

  /** The pass looks at the entry: a directory with a known age that is not active. */
  predicate Watched(e: Listed, active: set<string>) {
    e.isDir && e.name !in active && e.at.Some?
  }

  predicate TooOld(e: Listed, p: Policy) {
    p.days > 0 && e.at.Some? && e.at.value < p.ageCutoff
  }

  /** Still there after the age rule, perhaps because it could not be removed. */
  predicate Survives(e: Listed, active: set<string>, p: Policy, stuck: set<string>) {
    Watched(e, active) && (!TooOld(e, p) || e.name in stuck)
  }

  /** What is left of the entry once bulky payloads past their hours are stripped. */
  function Bytes(e: Listed, p: Policy): nat {
    if p.payloadHours > 0 && e.at.Some? && e.at.value < p.payloadCutoff then e.strippedSize else e.size
  }

  predicate Older(a: Listed, b: Listed) {
    a.at.Some? && b.at.Some?
    && (a.at.value < b.at.value || (a.at.value == b.at.value && StrBefore(a.name, b.name)))
  }

  /** How many failures newer than `e` survive the age rule. */
  function NewerFailures(es: seq<Listed>, active: set<string>, p: Policy, stuck: set<string>, e: Listed): nat {
    Sum(es, (x: Listed) => if Survives(x, active, p, stuck) && x.hasErrorFile && Older(e, x) then 1 else 0)
  }

  /** One of the newest `keepErrorDirs` failures. */
  predicate Exempt(es: seq<Listed>, active: set<string>, p: Policy, stuck: set<string>, e: Listed) {
    e.hasErrorFile && NewerFailures(es, active, p, stuck, e) < p.keepErrorDirs
  }

  /** Bytes of the survivors, less those of the removed ones older than `e`. */
  function BytesLeft(es: seq<Listed>, active: set<string>, p: Policy, stuck: set<string>, removed: seq<string>,
      e: Listed): int
  {
    Sum(es, (x: Listed) => if Survives(x, active, p, stuck) then Bytes(x, p) else 0)
    - Sum(es, (x: Listed) =>
        if Survives(x, active, p, stuck) && x.name in removed && Older(x, e) then Bytes(x, p) else 0)
  }

  /** Bytes of the survivors that are not removed. */
  function BytesAfter(es: seq<Listed>, active: set<string>, p: Policy, stuck: set<string>, removed: seq<string>): nat {
    Sum(es, (x: Listed) => if Survives(x, active, p, stuck) && x.name !in removed then Bytes(x, p) else 0)
  }

  /** An entry as the capacity loop sees it. */
  function Seen(e: Listed, p: Policy): RequestDir {
    if e.at.None? then RequestDir(e.name, 0, 0, false) else ToDir(e, p)
  }

  // ---- Sums over the sorted directories -------------------------------------------------------------------

  lemma {:induction false} WeighNone(ds: seq<RequestDir>, w: RequestDir -> nat)
    requires forall k :: 0 <= k < |ds| ==> w(ds[k]) == 0
    ensures Weigh(ds, w) == 0
    decreases |ds|
  {
    if ds != [] { WeighNone(ds[..|ds| - 1], w); }
  }

  lemma {:induction false} WeighErrors(ds: seq<RequestDir>, w: RequestDir -> nat)
    requires forall k :: 0 <= k < |ds| ==> w(ds[k]) == if ds[k].hasError then 1 else 0
    ensures Weigh(ds, w) == Errors(ds)
    decreases |ds|
  {
    if ds != [] { WeighErrors(ds[..|ds| - 1], w); }
  }

  lemma {:induction false} WeighTotal(ds: seq<RequestDir>, w: RequestDir -> nat)
    requires forall k :: 0 <= k < |ds| ==> w(ds[k]) == ds[k].size
    ensures Weigh(ds, w) == TotalSize(ds)
    decreases |ds|
  {
    if ds != [] { WeighTotal(ds[..|ds| - 1], w); }
  }

  lemma {:induction false} WeighFreed(ds: seq<RequestDir>, v: seq<bool>, w: RequestDir -> nat)
    requires |v| == |ds| && forall k :: 0 <= k < |ds| ==> w(ds[k]) == if v[k] then ds[k].size else 0
    ensures Weigh(ds, w) == Freed(ds, v)
    decreases |ds|
  {
    if ds != [] { WeighFreed(ds[..|ds| - 1], v[..|ds| - 1], w); }
  }

  lemma {:induction false} WeighStays(ds: seq<RequestDir>, v: seq<bool>, w: RequestDir -> nat)
    requires |v| == |ds| && forall k :: 0 <= k < |ds| ==> w(ds[k]) == if v[k] then 0 else ds[k].size
    ensures Weigh(ds, w) == TotalSize(ds) - Freed(ds, v)
    decreases |ds|
  {
    if ds != [] { WeighStays(ds[..|ds| - 1], v[..|ds| - 1], w); }
  }

  /** Sorted directories with different names: each comes before the ones behind it, and only before those. */
  lemma SortedApart(ds: seq<RequestDir>, j: nat, k: nat)
    requires OldestFirst(ds) && DistinctNames(ds) && j < |ds| && k < |ds|
    ensures Before(ds[j], ds[k]) <==> j < k
  {
    StrOrder(ds[j].name, ds[k].name, ds[j].name);
    if j < k { assert !Before(ds[k], ds[j]); }
    if k < j { assert !Before(ds[j], ds[k]); }
  }

  lemma NewerErrors(ds: seq<RequestDir>, k: nat, w: RequestDir -> nat)
    requires OldestFirst(ds) && DistinctNames(ds) && k < |ds|
    requires forall d :: w(d) == if d.hasError && Before(ds[k], d) then 1 else 0
    ensures Errors(ds[k..]) == (if ds[k].hasError then 1 else 0) + Weigh(ds, w)
  {
    hide Before, OldestFirst, DistinctNames;
    var a, b := ds[..k + 1], ds[k + 1..];
    forall j | 0 <= j < |a| ensures w(a[j]) == 0 { SortedApart(ds, k, j); }
    forall j | 0 <= j < |b| ensures w(b[j]) == if b[j].hasError then 1 else 0 { SortedApart(ds, k, k + 1 + j); }
    WeighNone(a, w);
    WeighErrors(b, w);
    assert ds == a + b;
    WeighSplit(a, b, w);
    assert ds[k..] == [ds[k]] + b;
    ErrorsSplit([ds[k]], b);
    OneTotal(ds[k]);
  }

  lemma OlderFreed(ds: seq<RequestDir>, v: seq<bool>, removed: seq<string>, k: nat, w: RequestDir -> nat)
    requires OldestFirst(ds) && DistinctNames(ds) && k < |ds| && |v| == |ds|
    requires forall j :: 0 <= j < |ds| ==> (ds[j].name in removed <==> v[j])
    requires forall d :: w(d) == if d.name in removed && Before(d, ds[k]) then d.size else 0
    ensures Freed(ds[..k], v[..k]) == Weigh(ds, w)
  {
    hide Before, OldestFirst, DistinctNames;
    var a, b := ds[..k], ds[k..];
    forall j | 0 <= j < |a| ensures w(a[j]) == if v[..k][j] then a[j].size else 0 { SortedApart(ds, j, k); }
    forall j | 0 <= j < |b| ensures w(b[j]) == 0 { SortedApart(ds, k + j, k); }
    WeighFreed(a, v[..k], w);
    WeighNone(b, w);
    assert ds == a + b;
    WeighSplit(a, b, w);
  }

  // ---- The entries behind the sorted directories ------------------------------------------------------------

  /** The directories the capacity loop goes through. */
  function Lined(es: seq<Listed>, active: set<string>, p: Policy, stuck: set<string>): seq<RequestDir> {
    SortByAge(Kept(es, active, p, stuck))
  }

  lemma {:induction false} KeptHas(es: seq<Listed>, active: set<string>, p: Policy, stuck: set<string>, i: nat)
    requires i < |es| && Survives(es[i], active, p, stuck)
    ensures Seen(es[i], p) in Kept(es, active, p, stuck)
    decreases |es|
  {
    if i < |es| - 1 { KeptHas(es[..|es| - 1], active, p, stuck, i); }
  }

  lemma LinedOrder(es: seq<Listed>, active: set<string>, p: Policy, stuck: set<string>)
    requires DistinctEntries(es)
    ensures OldestFirst(Lined(es, active, p, stuck)) && DistinctNames(Lined(es, active, p, stuck))
  {
    hide Kept, SortByAge, OldestFirst, DistinctNames, DistinctEntries;
    KeptAndExpired(es, active, p, stuck);
    SortSorts(Kept(es, active, p, stuck));
    SortDistinct(Kept(es, active, p, stuck));
  }

  lemma LinedHas(es: seq<Listed>, active: set<string>, p: Policy, stuck: set<string>, i: nat) returns (k: nat)
    requires i < |es| && Survives(es[i], active, p, stuck)
    ensures k < |Lined(es, active, p, stuck)| && Lined(es, active, p, stuck)[k] == Seen(es[i], p)
  {
    hide Kept, SortByAge, Survives, Seen, OldestFirst;
    var kept := Kept(es, active, p, stuck);
    KeptHas(es, active, p, stuck, i);
    SortSorts(kept);
    assert Seen(es[i], p) in multiset(SortByAge(kept));
    k :| 0 <= k < |SortByAge(kept)| && SortByAge(kept)[k] == Seen(es[i], p);
  }

  /** A sum over the directories in line is a sum over the surviving entries. */
  lemma WeighLined(es: seq<Listed>, active: set<string>, p: Policy, stuck: set<string>,
      w: RequestDir -> nat, u: Listed -> nat)
    requires forall e :: u(e) == if Survives(e, active, p, stuck) then w(Seen(e, p)) else 0
    ensures Weigh(Lined(es, active, p, stuck), w) == Sum(es, u)
  {
    hide Survives, Seen, Kept, SortByAge;
    WeighSorted(Kept(es, active, p, stuck), w);
    WeighKept(es, active, p, stuck, w, u);
  }

  /** Protected directories are the exempt entries. */
  lemma ExemptIs(es: seq<Listed>, active: set<string>, p: Policy, stuck: set<string>, i: nat, k: nat)
    requires DistinctEntries(es) && p.maxTotalMb > 0 && i < |es| && Survives(es[i], active, p, stuck)
    requires k < |Lined(es, active, p, stuck)| && Lined(es, active, p, stuck)[k] == Seen(es[i], p)
    ensures Protected(Lined(es, active, p, stuck), k, p.keepErrorDirs) <==> Exempt(es, active, p, stuck, es[i])
  {
    hide DistinctEntries, Lined, OldestFirst, DistinctNames, Errors;
    var ds, c := Lined(es, active, p, stuck), Seen(es[i], p);
    if p.keepErrorDirs > 0 && es[i].hasErrorFile {
      LinedOrder(es, active, p, stuck);
      var w := (d: RequestDir) => if d.hasError && Before(c, d) then 1 else 0;
      var u := (x: Listed) => if Survives(x, active, p, stuck) && x.hasErrorFile && Older(es[i], x) then 1 else 0;
      WeighLined(es, active, p, stuck, w, u);
      NewerErrors(ds, k, w);
      assert NewerFailures(es, active, p, stuck, es[i]) == Sum(es, u);
    }
  }

  /** What the capacity loop has left when it comes to an entry. */
  lemma LeftIs(es: seq<Listed>, active: set<string>, p: Policy, stuck: set<string>, i: nat, k: nat)
    requires DistinctEntries(es) && p.maxTotalMb > 0 && i < |es| && Survives(es[i], active, p, stuck)
    requires k < |Lined(es, active, p, stuck)| && Lined(es, active, p, stuck)[k] == Seen(es[i], p)
    ensures var ds, removed := Lined(es, active, p, stuck), Removed(es, active, p, stuck);
            TotalSize(ds) - Freed(ds[..k], Evictions(ds, p, stuck)[..k])
            == BytesLeft(es, active, p, stuck, removed, es[i])
  {
    hide DistinctEntries, OldestFirst, DistinctNames, Evictions, Removed, Kept, SortByAge;
    var ds, c, removed := Lined(es, active, p, stuck), Seen(es[i], p), Removed(es, active, p, stuck);
    var v := Evictions(ds, p, stuck);
    LinedOrder(es, active, p, stuck);
    DecidedNames(es, active, p, stuck);
    hide Lined, Freed, TotalSize;
    var w := (d: RequestDir) => if d.name in removed && Before(d, c) then d.size else 0;
    var all := (d: RequestDir) => d.size as nat;
    WeighLined(es, active, p, stuck, all, (x: Listed) => if Survives(x, active, p, stuck) then Bytes(x, p) else 0);
    WeighLined(es, active, p, stuck, w, (x: Listed) =>
      if Survives(x, active, p, stuck) && x.name in removed && Older(x, es[i]) then Bytes(x, p) else 0);
    WeighTotal(ds, all);
    OlderFreed(ds, v, removed, k, w);
  }

  /** With a cap, a directory is among the removed exactly when the loop decided so. */
  lemma DecidedNames(es: seq<Listed>, active: set<string>, p: Policy, stuck: set<string>)
    requires DistinctEntries(es)
    ensures var ds := Lined(es, active, p, stuck);
            forall k :: 0 <= k < |ds| ==>
              (ds[k].name in Removed(es, active, p, stuck) <==> p.maxTotalMb > 0 && Evictions(ds, p, stuck)[k])
  {
    hide Kept, SortByAge, Removed, Evictions, DistinctEntries;
    forall k | 0 <= k < |Lined(es, active, p, stuck)|
      ensures Lined(es, active, p, stuck)[k].name in Removed(es, active, p, stuck) <==>
              p.maxTotalMb > 0 && Evictions(Lined(es, active, p, stuck), p, stuck)[k]
    {
      RemovedByDecision(es, active, p, stuck, k);
    }
  }

  /** A directory among the removed is listed, looked at and removable. */
  lemma {:induction false} ExpiredIs(es: seq<Listed>, active: set<string>, p: Policy, stuck: set<string>, i: nat)
    requires DistinctEntries(es) && i < |es|
    ensures es[i].name in Expired(es, active, p, stuck) <==>
            Watched(es[i], active) && TooOld(es[i], p) && es[i].name !in stuck
    decreases |es|
  {
    var n := |es| - 1;
    if i < n {
      ExpiredIs(es[..n], active, p, stuck, i);
    } else {
      KeptAndExpired(es[..n], active, p, stuck);
      assert !Lists(es[..n], es[n].name);
    }
  }

  /** Nothing else is removed. */
  lemma GoneIs(es: seq<Listed>, active: set<string>, p: Policy, stuck: set<string>, i: nat)
    requires DistinctEntries(es) && i < |es| && es[i].name in Removed(es, active, p, stuck)
    requires es[i].name !in Expired(es, active, p, stuck)
    ensures Survives(es[i], active, p, stuck)
  {
    hide Kept, Expired, SortByAge, Evictions, Chosen, TotalSize, MaxBytes, Survives;
    var ds := Lined(es, active, p, stuck);
    var k := ChosenIndex(ds, Evictions(ds, p, stuck), es[i].name);
    var kept := Kept(es, active, p, stuck);
    SortSorts(kept);
    assert ds[k] in multiset(kept);
    var j := KeptFrom(es, active, p, stuck, ds[k]);
  }

  lemma {:induction false} KeptFrom(es: seq<Listed>, active: set<string>, p: Policy, stuck: set<string>, d: RequestDir)
    returns (j: nat)
    requires d in Kept(es, active, p, stuck)
    ensures j < |es| && Survives(es[j], active, p, stuck) && d == Seen(es[j], p)
    decreases |es|
  {
    var n := |es| - 1;
    if d in Kept(es[..n], active, p, stuck) { j := KeptFrom(es[..n], active, p, stuck, d); } else { j := n; }
  }

  // ---- Main results -----------------------------------------------------------------------------------------

  /**
   The fate of each entry: a pass removes it exactly when it is a removable directory of known
   age that is not active, and it is too old, or there is a cap, it is not among the newest
   failures to keep, and what the survivors older than it left behind is over the cap.
   */
  lemma EntryFate(es: seq<Listed>, active: set<string>, p: Policy, stuck: set<string>, i: nat)
    requires DistinctEntries(es) && i < |es|
    ensures var e, removed := es[i], Removed(es, active, p, stuck);
            e.name in removed <==>
              Watched(e, active) && e.name !in stuck
              && (TooOld(e, p)
                  || (p.maxTotalMb > 0 && !Exempt(es, active, p, stuck, e)
                      && BytesLeft(es, active, p, stuck, removed, e) > p.maxTotalMb * 1048576))
  {
    hide Kept, Expired, SortByAge, Evictions, Chosen, DistinctEntries, Protected, Exempt, Freed, TotalSize, BytesLeft;
    var e, removed := es[i], Removed(es, active, p, stuck);
    ExpiredIs(es, active, p, stuck, i);
    if Survives(e, active, p, stuck) {
      var k := LinedHas(es, active, p, stuck, i);
      FateInLine(es, active, p, stuck, i, k);
    } else if e.name in removed && e.name !in Expired(es, active, p, stuck) {
      GoneIs(es, active, p, stuck, i);
    }
  }

  /** A survivor is removed exactly when there is a cap and the loop comes to it over the cap. */
  lemma FateInLine(es: seq<Listed>, active: set<string>, p: Policy, stuck: set<string>, i: nat, k: nat)
    requires DistinctEntries(es) && i < |es| && Survives(es[i], active, p, stuck)
    requires k < |Lined(es, active, p, stuck)| && Lined(es, active, p, stuck)[k] == Seen(es[i], p)
    ensures es[i].name in Removed(es, active, p, stuck) <==>
            p.maxTotalMb > 0 && es[i].name !in stuck && !Exempt(es, active, p, stuck, es[i])
            && BytesLeft(es, active, p, stuck, Removed(es, active, p, stuck), es[i]) > p.maxTotalMb * 1048576
  {
    hide DistinctEntries, Lined, Removed, Evictions, Exempt, BytesLeft, Freed, TotalSize, Protected, Survives;
    var ds := Lined(es, active, p, stuck);
    DecidedNames(es, active, p, stuck);
    EvictionsExact(ds, p, stuck, k);
    if p.maxTotalMb > 0 {
      ExemptIs(es, active, p, stuck, i, k);
      LeftIs(es, active, p, stuck, i, k);
    }
  }

  /**
   With a cap, the pass ends within it, or every survivor it leaves is one of the newest
   failures or cannot be removed. A survivor older than a removed one is removed as well,
   unless it is one of those.
   */
  lemma WithinCap(es: seq<Listed>, active: set<string>, p: Policy, stuck: set<string>)
    requires DistinctEntries(es) && p.maxTotalMb > 0
    ensures var removed := Removed(es, active, p, stuck);
            BytesAfter(es, active, p, stuck, removed) <= p.maxTotalMb * 1048576
            || forall i :: 0 <= i < |es| && Survives(es[i], active, p, stuck) && es[i].name !in removed ==>
                 es[i].name in stuck || Exempt(es, active, p, stuck, es[i])
    ensures forall i, j :: 0 <= i < |es| && 0 <= j < |es| && Survives(es[i], active, p, stuck)
                           && Survives(es[j], active, p, stuck) && Older(es[i], es[j])
                           && es[j].name in Removed(es, active, p, stuck) ==>
              es[i].name in Removed(es, active, p, stuck) || es[i].name in stuck
              || Exempt(es, active, p, stuck, es[i])
  {
    hide DistinctEntries, Lined, Removed, Evictions, Exempt, Freed, TotalSize, Protected, Survives, Seen, Bytes;
    var ds, removed := Lined(es, active, p, stuck), Removed(es, active, p, stuck);
    var v := Evictions(ds, p, stuck);
    AfterIs(es, active, p, stuck);
    ExitState(ds, p, stuck);
    DecidedNames(es, active, p, stuck);
    if BytesAfter(es, active, p, stuck, removed) > p.maxTotalMb * 1048576 {
      forall i | 0 <= i < |es| && Survives(es[i], active, p, stuck) && es[i].name !in removed
        ensures es[i].name in stuck || Exempt(es, active, p, stuck, es[i])
      {
        var k := LinedHas(es, active, p, stuck, i);
        ExemptIs(es, active, p, stuck, i, k);
        SeenName(es[i], p);
      }
    }
    forall i, j | 0 <= i < |es| && 0 <= j < |es| && Survives(es[i], active, p, stuck)
        && Survives(es[j], active, p, stuck) && Older(es[i], es[j]) && es[j].name in removed
      ensures es[i].name in removed || es[i].name in stuck || Exempt(es, active, p, stuck, es[i])
    {
      OlderFirst(es, active, p, stuck, i, j);
    }
  }

  lemma SeenName(e: Listed, p: Policy)
    ensures Seen(e, p).name == e.name
  {
  }

  lemma OlderFirst(es: seq<Listed>, active: set<string>, p: Policy, stuck: set<string>, i: nat, j: nat)
    requires DistinctEntries(es) && p.maxTotalMb > 0 && i < |es| && j < |es|
    requires Survives(es[i], active, p, stuck) && Survives(es[j], active, p, stuck) && Older(es[i], es[j])
    requires es[j].name in Removed(es, active, p, stuck)
    ensures es[i].name in Removed(es, active, p, stuck) || es[i].name in stuck
            || Exempt(es, active, p, stuck, es[i])
  {
    hide DistinctEntries, Lined, Removed, Evictions, Exempt, Protected, Survives, OldestFirst, DistinctNames;
    var ds := Lined(es, active, p, stuck);
    LinedOrder(es, active, p, stuck);
    DecidedNames(es, active, p, stuck);
    var k := LinedHas(es, active, p, stuck, i);
    var l := LinedHas(es, active, p, stuck, j);
    SortedApart(ds, k, l);
    OldestGoFirst(ds, p, stuck, k, l);
    ExemptIs(es, active, p, stuck, i, k);
  }

  /** What remains after the pass. */
  lemma AfterIs(es: seq<Listed>, active: set<string>, p: Policy, stuck: set<string>)
    requires DistinctEntries(es) && p.maxTotalMb > 0
    ensures var ds, removed := Lined(es, active, p, stuck), Removed(es, active, p, stuck);
            TotalSize(ds) - Freed(ds, Evictions(ds, p, stuck)) == BytesAfter(es, active, p, stuck, removed)
  {
    hide DistinctEntries, Lined, Evictions, Removed, Freed, TotalSize;
    var ds, removed := Lined(es, active, p, stuck), Removed(es, active, p, stuck);
    DecidedNames(es, active, p, stuck);
    var w := (d: RequestDir) => if d.name !in removed then d.size else 0;
    WeighLined(es, active, p, stuck, w, (x: Listed) =>
      if Survives(x, active, p, stuck) && x.name !in removed then Bytes(x, p) else 0);
    WeighStays(ds, Evictions(ds, p, stuck), w);
  }

  // ---- Days and hours ------------------------------------------------------------------------------------------

  /** One hour, in the unit of the instants. */
  type Hour = h: int | 0 < h witness 1

  /** The age cut-off of the program, which passes the number of days to `from_hours`. */
  function AgeCutoff(now: int, days: int, hour: Hour): int {
    now - days * hour
  }

  /**
   The documented retention is in days. The program meets it for a directory exactly when that
   is younger than as many hours, or older than as many days: anything in between goes early.
   */
  lemma DaysAreHours(now: int, days: int, hour: Hour, at: int)
    requires days > 0
    ensures (at < AgeCutoff(now, days, hour) <==> at < now - days * (24 * hour)) <==>
            (now - at <= days * hour || now - at > days * (24 * hour))
  {
    assert days * (24 * hour) == 24 * (days * hour);
    assert days * hour > 0;
  }

  /** With 14 days kept, a request of 15 hours ago is removed. */
  lemma EarlyRemoval(hour: Hour)
    ensures var p := Policy(14, 0, 0, 0, AgeCutoff(0, 14, hour), 0);
            var e := Listed("20250101-000000", true, Some(-15 * hour), 1, 1, false);
            Removed([e], {}, p, {}) == ["20250101-000000"]
  {
    var p := Policy(14, 0, 0, 0, AgeCutoff(0, 14, hour), 0);
    var e := Listed("20250101-000000", true, Some(-15 * hour), 1, 1, false);
    assert [e][..0] == [];
    assert Expired([], {}, p, {}) == [] && Kept([], {}, p, {}) == [];
  }
}
