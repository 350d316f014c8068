/**
 One retention pass of cleaner.rs: which request directories it removes, and in
 particular the eviction loop that brings the total size back under the cap while it
 protects the newest failure scenes.
 */
module Cleaner {
  import opened Common

  /** An entry of the log root. `at` is missing when neither name nor metadata date it. */
  datatype Listed = Listed(name: string, isDir: bool, at: Option<int>, size: nat, strippedSize: nat, hasErrorFile: bool)

  datatype RequestDir = RequestDir(name: string, size: nat, at: int, hasError: bool)

  /** Cut-off instants are inputs; a limit of zero or less switches its rule off. */
  datatype Policy = Policy(days: int, payloadHours: int, maxTotalMb: int, keepErrorDirs: int,
                           ageCutoff: int, payloadCutoff: int)

  function MaxBytes(p: Policy): int {
    p.maxTotalMb * 1048576
  }

  // ---- Order ------------------------------------------------------------------------------

  predicate Before(a: RequestDir, b: RequestDir) {
    a.at < b.at || (a.at == b.at && StrBefore(a.name, b.name))
  }

  /** No later element precedes an earlier one: oldest first. */
  ghost predicate OldestFirst(ds: seq<RequestDir>) {
    forall i, j :: 0 <= i < j < |ds| ==> !Before(ds[j], ds[i])
  }

  function Insert(d: RequestDir, ds: seq<RequestDir>): seq<RequestDir> {
    if ds == [] || Before(d, ds[0]) then [d] + ds else [ds[0]] + Insert(d, ds[1..])
  }

  /** `sort_by` on age, then name. */
  function SortByAge(ds: seq<RequestDir>): seq<RequestDir> {
    if ds == [] then [] else Insert(ds[0], SortByAge(ds[1..]))
  }

  lemma {:induction false} InsertSorted(d: RequestDir, ds: seq<RequestDir>)
    requires OldestFirst(ds)
    ensures OldestFirst(Insert(d, ds)) && multiset(Insert(d, ds)) == multiset{d} + multiset(ds)
    decreases |ds|
  {
    if ds == [] {
    } else if Before(d, ds[0]) {
      forall j | 0 <= j < |ds| ensures !Before(ds[j], d) {
        StrOrder(ds[j].name, d.name, ds[0].name);
        StrOrder(d.name, ds[0].name, d.name);
      }
    } else {
      assert ds == [ds[0]] + ds[1..];
      InsertSorted(d, ds[1..]);
      var t := Insert(d, ds[1..]);
      forall j | 0 <= j < |t| ensures !Before(t[j], ds[0]) {
        assert t[j] in multiset(t);
        if t[j] != d {
          assert t[j] in ds[1..];
          var i :| 0 <= i < |ds[1..]| && ds[1..][i] == t[j];
          assert ds[i + 1] == t[j];
        }
      }
    }
  }

  lemma {:induction false} SortSorts(ds: seq<RequestDir>)
    ensures OldestFirst(SortByAge(ds)) && multiset(SortByAge(ds)) == multiset(ds)
    decreases |ds|
  {
    if ds != [] {
      SortSorts(ds[1..]);
      InsertSorted(ds[0], SortByAge(ds[1..]));
      assert ds == [ds[0]] + ds[1..];
    }
  }

  // ---- Listing -------------------------------------------------------------------------------

  /** Directories the pass looks at: not active, and with a known age. */
  predicate Considered(e: Listed, active: set<string>) {
    e.isDir && e.name !in active && e.at.Some?
  }

  predicate OverAge(e: Listed, p: Policy)
    requires e.at.Some?
  {
    p.days > 0 && e.at.value < p.ageCutoff
  }

  function ToDir(e: Listed, p: Policy): RequestDir
    requires e.at.Some?
  {
    var size := if p.payloadHours > 0 && e.at.value < p.payloadCutoff then e.strippedSize else e.size;
    if MaxBytes(p) > 0 then RequestDir(e.name, size, e.at.value, p.keepErrorDirs > 0 && e.hasErrorFile)
    else RequestDir(e.name, 0, e.at.value, false)
  }

  /** Directories left after the age rule; `stuck` names those that cannot be removed. */
  function Kept(es: seq<Listed>, active: set<string>, p: Policy, stuck: set<string>): seq<RequestDir> {
    if es == [] then []
    else
      var n := |es| - 1;
      var e := es[n];
      Kept(es[..n], active, p, stuck)
      + if Considered(e, active) && (!OverAge(e, p) || e.name in stuck) then [ToDir(e, p)] else []
  }

  function Expired(es: seq<Listed>, active: set<string>, p: Policy, stuck: set<string>): seq<string> {
    if es == [] then []
    else
      var n := |es| - 1;
      var e := es[n];
      Expired(es[..n], active, p, stuck)
      + if Considered(e, active) && OverAge(e, p) && e.name !in stuck then [e.name] else []
  }

  function TotalSize(ds: seq<RequestDir>): nat {
    if ds == [] then 0 else TotalSize(ds[..|ds| - 1]) + ds[|ds| - 1].size
  }

  function Errors(ds: seq<RequestDir>): nat {
    if ds == [] then 0 else Errors(ds[..|ds| - 1]) + (if ds[|ds| - 1].hasError then 1 else 0)
  }

  // ---- Eviction --------------------------------------------------------------------------------

  /** The loop's decision for each directory, oldest first. */
  function Decide(ds: seq<RequestDir>, total: int, cap: int, deletable: int, stuck: set<string>): (v: seq<bool>)
    ensures |v| == |ds|
  {
    if ds == [] then []
    else if total <= cap then [false] + Decide(ds[1..], total, cap, deletable, stuck)
    else if ds[0].hasError && deletable <= 0 then [false] + Decide(ds[1..], total, cap, deletable, stuck)
    else
      var left := if ds[0].hasError then deletable - 1 else deletable;
      if ds[0].name in stuck then [false] + Decide(ds[1..], total, cap, left, stuck)
      else [true] + Decide(ds[1..], total - ds[0].size, cap, left, stuck)
  }

  /** The names decided on, in order. */
  function Chosen(ds: seq<RequestDir>, v: seq<bool>): seq<string>
    requires |v| == |ds|
  {
    if ds == [] then []
    else (if v[0] then [ds[0].name] else []) + Chosen(ds[1..], v[1..])
  }

  /** Bytes freed by the decisions. */
  function Freed(ds: seq<RequestDir>, v: seq<bool>): nat
    requires |v| == |ds|
  {
    if ds == [] then 0
    else Freed(ds[..|ds| - 1], v[..|ds| - 1]) + (if v[|ds| - 1] then ds[|ds| - 1].size else 0)
  }

  /** Among the newest `keep` failure directories. */
  predicate Protected(ds: seq<RequestDir>, k: nat, keep: int)
    requires k < |ds|
  {
    ds[k].hasError && Errors(ds[k..]) <= keep
  }

  lemma {:induction false} ErrorsSplit(a: seq<RequestDir>, b: seq<RequestDir>)
    ensures Errors(a + b) == Errors(a) + Errors(b)
    decreases |b|
  {
    if b == [] {
      assert a + b == a;
    } else {
      assert (a + b)[..|a + b| - 1] == a + b[..|b| - 1];
      ErrorsSplit(a, b[..|b| - 1]);
    }
  }

  lemma {:induction false} FreedSplit(a: seq<RequestDir>, u: seq<bool>, b: seq<RequestDir>, v: seq<bool>)
    requires |a| == |u| && |b| == |v|
    ensures Freed(a + b, u + v) == Freed(a, u) + Freed(b, v)
    decreases |b|
  {
    if b == [] {
      assert a + b == a && u + v == u;
    } else {
      var n := |b| - 1;
      assert (a + b)[..|a + b| - 1] == a + b[..n] && (u + v)[..|a + b| - 1] == u + v[..n];
      FreedSplit(a, u, b[..n], v[..n]);
    }
  }

  /** What a directory needs to be evicted, said without the loop. */
  ghost predicate Evictable(ds: seq<RequestDir>, v: seq<bool>, k: nat, total: int, cap: int, keep: int,
      stuck: set<string>)
    requires |v| == |ds| && k < |ds|
  {
    !Protected(ds, k, keep) && ds[k].name !in stuck && total - Freed(ds[..k], v[..k]) > cap
  }

  lemma ErrorsHead(ds: seq<RequestDir>, k: nat)
    requires 0 < k < |ds|
    ensures ds[1..][k - 1..] == ds[k..]
    ensures Errors(ds) == (if ds[0].hasError then 1 else 0) + Errors(ds[1..])
  {
    assert ds == [ds[0]] + ds[1..];
    ErrorsSplit([ds[0]], ds[1..]);
    assert Errors([ds[0]][..0]) == 0;
  }

  lemma FreedHead(ds: seq<RequestDir>, v: seq<bool>, k: nat)
    requires |v| == |ds| && 0 < k <= |ds|
    ensures Freed(ds[..k], v[..k]) == (if v[0] then ds[0].size else 0) + Freed(ds[1..][..k - 1], v[1..][..k - 1])
  {
    var a, u := ds[..k], v[..k];
    assert a == [ds[0]] + ds[1..][..k - 1] && u == [v[0]] + v[1..][..k - 1];
    FreedSplit([ds[0]], [v[0]], ds[1..][..k - 1], v[1..][..k - 1]);
    assert Freed([ds[0]][..0], [v[0]][..0]) == 0;
  }

  /** What a later directory needs, said of the directories behind the first. */
  lemma EvictableTail(ds: seq<RequestDir>, v: seq<bool>, k: nat, total: int, cap: int, keep: int, stuck: set<string>)
    requires |v| == |ds| && 0 < k < |ds|
    ensures Evictable(ds, v, k, total, cap, keep, stuck) <==>
            Evictable(ds[1..], v[1..], k - 1, total - (if v[0] then ds[0].size else 0), cap, keep, stuck)
  {
    hide Errors, Freed;
    ErrorsHead(ds, k);
    FreedHead(ds, v, k);
  }

  lemma EvictableFirst(ds: seq<RequestDir>, total: int, cap: int, keep: int, stuck: set<string>)
    requires ds != []
    ensures var v := Decide(ds, total, cap, Errors(ds) - keep, stuck);
            v[0] <==> Evictable(ds, v, 0, total, cap, keep, stuck)
  {
    hide Errors;
    var v := Decide(ds, total, cap, Errors(ds) - keep, stuck);
    assert ds[0..] == ds && ds[..0] == [] && v[..0] == [];
    assert Freed([], []) == 0;
  }

  /** A directory goes exactly when it is not protected, removable, and the total was still over the cap. */
  lemma {:induction false} EvictionExact(ds: seq<RequestDir>, total: int, cap: int, keep: int, stuck: set<string>,
      k: nat)
    requires k < |ds|
    ensures var v := Decide(ds, total, cap, Errors(ds) - keep, stuck);
            v[k] <==> Evictable(ds, v, k, total, cap, keep, stuck)
    decreases |ds|
  {
    hide Decide, Evictable, Errors;
    var v := Decide(ds, total, cap, Errors(ds) - keep, stuck);
    if k == 0 {
      EvictableFirst(ds, total, cap, keep, stuck);
    } else {
      DecideTail(ds, total, cap, keep, stuck);
      EvictionExact(ds[1..], total - (if v[0] then ds[0].size else 0), cap, keep, stuck, k - 1);
      EvictableTail(ds, v, k, total, cap, keep, stuck);
    }
  }

  /** Without room for more failures to go, `deletable` stands still; otherwise it counts the failures ahead. */
  lemma DecideTail(ds: seq<RequestDir>, total: int, cap: int, keep: int, stuck: set<string>)
    requires ds != []
    ensures var v := Decide(ds, total, cap, Errors(ds) - keep, stuck);
            v[1..] == Decide(ds[1..], total - (if v[0] then ds[0].size else 0), cap, Errors(ds[1..]) - keep, stuck)
  {
    var d := Errors(ds) - keep;
    if |ds| > 1 { ErrorsHead(ds, 1); }
    if total <= cap {
      DecideIdle(ds[1..], total, cap, d, Errors(ds[1..]) - keep, stuck);
    } else if ds[0].hasError && d <= 0 {
      DecideSpent(ds[1..], total, cap, d, Errors(ds[1..]) - keep, stuck);
    }
  }

  lemma {:induction false} DecideIdle(ds: seq<RequestDir>, total: int, cap: int, d: int, e: int, stuck: set<string>)
    requires total <= cap
    ensures Decide(ds, total, cap, d, stuck) == Decide(ds, total, cap, e, stuck)
    decreases |ds|
  {
    if ds != [] { DecideIdle(ds[1..], total, cap, d, e, stuck); }
  }

  lemma {:induction false} DecideSpent(ds: seq<RequestDir>, total: int, cap: int, d: int, e: int, stuck: set<string>)
    requires d <= 0 && e <= 0
    ensures Decide(ds, total, cap, d, stuck) == Decide(ds, total, cap, e, stuck)
    decreases |ds|
  {
    if ds != [] {
      var t := total - (if total > cap && !ds[0].hasError && ds[0].name !in stuck then ds[0].size else 0);
      DecideSpent(ds[1..], t, cap, d, e, stuck);
    }
  }

  // ---- Main results ------------------------------------------------------------------------

  /** The loop's decisions over all listed directories. */
  function Evictions(ds: seq<RequestDir>, p: Policy, stuck: set<string>): (v: seq<bool>)
    ensures |v| == |ds|
  {
    Decide(ds, TotalSize(ds), MaxBytes(p), Errors(ds) - p.keepErrorDirs, stuck)
  }

  lemma EvictionsExact(ds: seq<RequestDir>, p: Policy, stuck: set<string>, k: nat)
    requires k < |ds|
    ensures var v := Evictions(ds, p, stuck);
            v[k] <==> Evictable(ds, v, k, TotalSize(ds), MaxBytes(p), p.keepErrorDirs, stuck)
  {
    hide Decide, Evictable, Errors, TotalSize, MaxBytes;
    EvictionExact(ds, TotalSize(ds), MaxBytes(p), p.keepErrorDirs, stuck, k);
  }

  lemma {:induction false} FreedGrows(ds: seq<RequestDir>, v: seq<bool>, i: nat, j: nat)
    requires |v| == |ds| && i <= j <= |ds|
    ensures Freed(ds[..i], v[..i]) <= Freed(ds[..j], v[..j])
    decreases j
  {
    if i < j {
      assert ds[..j][..j - 1] == ds[..j - 1] && v[..j][..j - 1] == v[..j - 1];
      FreedGrows(ds, v, i, j - 1);
    }
  }

  /** Whatever is older than a victim is a victim too, or protected, or cannot be removed. */
  lemma OldestGoFirst(ds: seq<RequestDir>, p: Policy, stuck: set<string>, i: nat, j: nat)
    requires i < j < |ds| && Evictions(ds, p, stuck)[j]
    ensures Evictions(ds, p, stuck)[i] || Protected(ds, i, p.keepErrorDirs) || ds[i].name in stuck
  {
    hide Evictions, Protected, Freed;
    EvictionsExact(ds, p, stuck, i);
    EvictionsExact(ds, p, stuck, j);
    FreedGrows(ds, Evictions(ds, p, stuck), i, j);
  }

  /** On exit the total is within the cap, or all that remains is protected or cannot be removed. */
  lemma ExitState(ds: seq<RequestDir>, p: Policy, stuck: set<string>)
    ensures var v := Evictions(ds, p, stuck);
            TotalSize(ds) - Freed(ds, v) <= MaxBytes(p)
            || forall k :: 0 <= k < |ds| ==> (v[k] <==> !Protected(ds, k, p.keepErrorDirs) && ds[k].name !in stuck)
  {
    hide Evictions, Protected, Freed, TotalSize, MaxBytes;
    var v := Evictions(ds, p, stuck);
    if TotalSize(ds) - Freed(ds, v) > MaxBytes(p) {
      forall k | 0 <= k < |ds|
        ensures v[k] <==> !Protected(ds, k, p.keepErrorDirs) && ds[k].name !in stuck
      {
        EvictionsExact(ds, p, stuck, k);
        FreedGrows(ds, v, k, |ds|);
        assert ds[..|ds|] == ds && v[..|ds|] == v;
      }
    }
  }

  /** How many of the directories from `k` on are protected. */
  function ProtectedFrom(ds: seq<RequestDir>, k: nat, keep: int): nat
    requires k <= |ds|
    decreases |ds| - k
  {
    if k == |ds| then 0 else (if Protected(ds, k, keep) then 1 else 0) + ProtectedFrom(ds, k + 1, keep)
  }

  /** The protected directories are min(keep, failures) many, and none of them is evicted. */
  lemma {:induction false} ProtectedCount(ds: seq<RequestDir>, k: nat, keep: int)
    requires k <= |ds| && keep >= 0
    ensures ProtectedFrom(ds, k, keep) == if Errors(ds[k..]) <= keep then Errors(ds[k..]) else keep
    decreases |ds| - k
  {
    if k < |ds| {
      ProtectedCount(ds, k + 1, keep);
      assert ds[k..] == [ds[k]] + ds[k + 1..];
      ErrorsSplit([ds[k]], ds[k + 1..]);
      assert Errors([ds[k]][..0]) == 0;
    }
  }

  lemma ProtectedSurvive(ds: seq<RequestDir>, p: Policy, stuck: set<string>, k: nat)
    requires k < |ds| && Protected(ds, k, p.keepErrorDirs)
    ensures !Evictions(ds, p, stuck)[k]
  {
    hide Evictions, Freed, TotalSize, Protected;
    EvictionsExact(ds, p, stuck, k);
  }

  /** Names removed by a pass, in order: over-age directories, then victims of the cap. */
  function Removed(es: seq<Listed>, active: set<string>, p: Policy, stuck: set<string>): seq<string> {
    var ds := Kept(es, active, p, stuck);
    var old' := Expired(es, active, p, stuck);
    if MaxBytes(p) > 0 && TotalSize(ds) > MaxBytes(p) then
      old' + Chosen(SortByAge(ds), Evictions(SortByAge(ds), p, stuck))
    else old'
  }

  lemma {:induction false} KeptConsidered(es: seq<Listed>, active: set<string>, p: Policy, stuck: set<string>,
      d: RequestDir)
    requires d in Kept(es, active, p, stuck)
    ensures d.name !in active
    decreases |es|
  {
    var n := |es| - 1;
    if d in Kept(es[..n], active, p, stuck) { KeptConsidered(es[..n], active, p, stuck, d); }
  }

  lemma {:induction false} ExpiredConsidered(es: seq<Listed>, active: set<string>, p: Policy, stuck: set<string>,
      name: string)
    requires name in Expired(es, active, p, stuck)
    ensures name !in active && name !in stuck
    decreases |es|
  {
    var n := |es| - 1;
    if name in Expired(es[..n], active, p, stuck) { ExpiredConsidered(es[..n], active, p, stuck, name); }
  }

  lemma {:induction false} ChosenIndex(ds: seq<RequestDir>, v: seq<bool>, name: string) returns (k: nat)
    requires |v| == |ds| && name in Chosen(ds, v)
    ensures k < |ds| && v[k] && ds[k].name == name
    decreases |ds|
  {
    if v[0] && ds[0].name == name {
      k := 0;
    } else {
      var j := ChosenIndex(ds[1..], v[1..], name);
      k := j + 1;
    }
  }

  /** A pass never removes an active directory. */
  lemma ActiveUntouched(es: seq<Listed>, active: set<string>, p: Policy, stuck: set<string>, name: string)
    requires name in Removed(es, active, p, stuck)
    ensures name !in active && name !in stuck
  {
    hide Evictions, Kept, Expired, Chosen, TotalSize, SortByAge;
    if name in Expired(es, active, p, stuck) {
      ExpiredConsidered(es, active, p, stuck, name);
    } else {
      var kept := Kept(es, active, p, stuck);
      var ds := SortByAge(kept);
      var k := ChosenIndex(ds, Evictions(ds, p, stuck), name);
      SortSorts(kept);
      assert ds[k] in multiset(kept);
      KeptConsidered(es, active, p, stuck, ds[k]);
      EvictionsExact(ds, p, stuck, k);
    }
  }

  lemma {:induction false} TotalSplit(a: seq<RequestDir>, b: seq<RequestDir>)
    ensures TotalSize(a + b) == TotalSize(a) + TotalSize(b)
    decreases |b|
  {
    if b == [] {
      assert a + b == a;
    } else {
      assert (a + b)[..|a + b| - 1] == a + b[..|b| - 1];
      TotalSplit(a, b[..|b| - 1]);
    }
  }

  lemma {:induction false} InsertTotals(d: RequestDir, ds: seq<RequestDir>)
    ensures TotalSize(Insert(d, ds)) == d.size + TotalSize(ds)
    ensures Errors(Insert(d, ds)) == (if d.hasError then 1 else 0) + Errors(ds)
    decreases |ds|
  {
    OneTotal(d);
    if ds == [] || Before(d, ds[0]) {
      TotalSplit([d], ds);
      ErrorsSplit([d], ds);
    } else {
      InsertTotals(d, ds[1..]);
      OneTotal(ds[0]);
      assert ds == [ds[0]] + ds[1..];
      TotalSplit([ds[0]], ds[1..]);
      ErrorsSplit([ds[0]], ds[1..]);
      TotalSplit([ds[0]], Insert(d, ds[1..]));
      ErrorsSplit([ds[0]], Insert(d, ds[1..]));
    }
  }

  lemma OneTotal(d: RequestDir)
    ensures TotalSize([d]) == d.size && Errors([d]) == if d.hasError then 1 else 0
  {
    assert [d][..0] == [];
  }

  lemma {:induction false} SortTotals(ds: seq<RequestDir>)
    ensures TotalSize(SortByAge(ds)) == TotalSize(ds) && Errors(SortByAge(ds)) == Errors(ds)
    decreases |ds|
  {
    if ds != [] {
      SortTotals(ds[1..]);
      InsertTotals(ds[0], SortByAge(ds[1..]));
      OneTotal(ds[0]);
      assert ds == [ds[0]] + ds[1..];
      TotalSplit([ds[0]], ds[1..]);
      ErrorsSplit([ds[0]], ds[1..]);
    }
  }

  // ---- What a pass removes, by name -------------------------------------------------------------

  /** Entries of one directory have different names. */
  ghost predicate DistinctEntries(es: seq<Listed>) {
    forall i, j :: 0 <= i < j < |es| ==> es[i].name != es[j].name
  }

  ghost predicate DistinctNames(ds: seq<RequestDir>) {
    forall i, j :: 0 <= i < j < |ds| ==> ds[i].name != ds[j].name
  }

  /** Kept and expired directories are different entries of the listing. */
  lemma {:induction false} KeptAndExpired(es: seq<Listed>, active: set<string>, p: Policy, stuck: set<string>)
    requires DistinctEntries(es)
    ensures var ds, old' := Kept(es, active, p, stuck), Expired(es, active, p, stuck);
            DistinctNames(ds) && (forall k :: 0 <= k < |ds| ==> ds[k].name !in old' && Lists(es, ds[k].name))
            && forall x :: x in old' ==> Lists(es, x)
    decreases |es|
  {
    hide Considered, OverAge;
    if es != [] {
      var n := |es| - 1;
      KeptAndExpired(es[..n], active, p, stuck);
      var ds, old' := Kept(es[..n], active, p, stuck), Expired(es[..n], active, p, stuck);
      assert !Lists(es[..n], es[n].name);
      forall x | Lists(es[..n], x) ensures Lists(es, x) {
        var i :| 0 <= i < n && es[..n][i].name == x;
        assert es[i].name == x;
      }
      assert Lists(es, es[n].name);
    }
  }

  ghost predicate Lists(es: seq<Listed>, name: string) {
    exists i :: 0 <= i < |es| && es[i].name == name
  }

  lemma {:induction false} InsertDistinct(d: RequestDir, ds: seq<RequestDir>)
    requires DistinctNames(ds) && forall k :: 0 <= k < |ds| ==> ds[k].name != d.name
    ensures DistinctNames(Insert(d, ds))
    ensures forall k :: 0 <= k < |Insert(d, ds)| ==> Insert(d, ds)[k] == d || Insert(d, ds)[k] in ds
    decreases |ds|
  {
    if ds != [] && !Before(d, ds[0]) { InsertDistinct(d, ds[1..]); }
  }

  lemma {:induction false} SortDistinct(ds: seq<RequestDir>)
    requires DistinctNames(ds)
    ensures DistinctNames(SortByAge(ds)) && forall k :: 0 <= k < |SortByAge(ds)| ==> SortByAge(ds)[k] in ds
    decreases |ds|
  {
    if ds != [] {
      SortDistinct(ds[1..]);
      var t := SortByAge(ds[1..]);
      forall k | 0 <= k < |t| ensures t[k].name != ds[0].name {
        assert t[k] in ds[1..];
        var i :| 0 <= i < |ds| - 1 && ds[1..][i] == t[k];
        assert ds[i + 1] == t[k];
      }
      InsertDistinct(ds[0], t);
    }
  }

  lemma {:induction false} ChosenHas(ds: seq<RequestDir>, v: seq<bool>, k: nat)
    requires |v| == |ds| && k < |ds| && v[k]
    ensures ds[k].name in Chosen(ds, v)
    decreases |ds|
  {
    if k > 0 { ChosenHas(ds[1..], v[1..], k - 1); }
  }

  /** With different names, a name is chosen exactly by its own decision. */
  lemma ChosenExactly(ds: seq<RequestDir>, v: seq<bool>, k: nat)
    requires |v| == |ds| && k < |ds| && DistinctNames(ds)
    ensures ds[k].name in Chosen(ds, v) <==> v[k]
  {
    hide Chosen;
    if v[k] { ChosenHas(ds, v, k); }
    if ds[k].name in Chosen(ds, v) {
      var j := ChosenIndex(ds, v, ds[k].name);
    }
  }

  /** Under the cap nothing is decided on. */
  lemma UnderCap(ds: seq<RequestDir>, p: Policy, stuck: set<string>, k: nat)
    requires k < |ds| && TotalSize(ds) <= MaxBytes(p)
    ensures !Evictions(ds, p, stuck)[k]
  {
    hide Evictions, Protected, MaxBytes, TotalSize;
    EvictionsExact(ds, p, stuck, k);
  }

  /**
   The pass over a listing: a directory that outlives the age rule is among the removed names
   exactly when there is a cap and it is evictable. So what is protected stays, the oldest go
   first, and the pass ends within the cap or with nothing left to remove.
   */
  lemma PassEvicts(es: seq<Listed>, active: set<string>, p: Policy, stuck: set<string>)
    requires DistinctEntries(es)
    ensures var ds, removed := SortByAge(Kept(es, active, p, stuck)), Removed(es, active, p, stuck);
            var v := Evictions(ds, p, stuck);
            (forall k :: 0 <= k < |ds| ==>
              (ds[k].name in removed <==> MaxBytes(p) > 0 && v[k])
              && (v[k] <==> Evictable(ds, v, k, TotalSize(ds), MaxBytes(p), p.keepErrorDirs, stuck))
              && (Protected(ds, k, p.keepErrorDirs) ==> ds[k].name !in removed))
            && (forall i, j :: 0 <= i < j < |ds| && ds[j].name in removed ==>
                  ds[i].name in removed || Protected(ds, i, p.keepErrorDirs) || ds[i].name in stuck)
            && (MaxBytes(p) > 0 ==>
                  TotalSize(ds) - Freed(ds, v) <= MaxBytes(p)
                  || forall k :: 0 <= k < |ds| ==>
                       ds[k].name in removed || Protected(ds, k, p.keepErrorDirs) || ds[k].name in stuck)
  {
    hide Kept, Expired, Evictions, SortByAge, Chosen, TotalSize, MaxBytes, Protected, Evictable, Freed;
    var ds, removed := SortByAge(Kept(es, active, p, stuck)), Removed(es, active, p, stuck);
    var v := Evictions(ds, p, stuck);
    forall k | 0 <= k < |ds|
      ensures ds[k].name in removed <==> MaxBytes(p) > 0 && v[k]
      ensures v[k] <==> Evictable(ds, v, k, TotalSize(ds), MaxBytes(p), p.keepErrorDirs, stuck)
      ensures Protected(ds, k, p.keepErrorDirs) ==> !v[k]
    {
      RemovedByDecision(es, active, p, stuck, k);
      EvictionsExact(ds, p, stuck, k);
      if Protected(ds, k, p.keepErrorDirs) { ProtectedSurvive(ds, p, stuck, k); }
    }
    hide Removed;
    forall i, j | 0 <= i < j < |ds| && ds[j].name in removed
      ensures ds[i].name in removed || Protected(ds, i, p.keepErrorDirs) || ds[i].name in stuck
    {
      OldestGoFirst(ds, p, stuck, i, j);
    }
    ExitState(ds, p, stuck);
  }

  lemma RemovedByDecision(es: seq<Listed>, active: set<string>, p: Policy, stuck: set<string>, k: nat)
    requires DistinctEntries(es) && k < |SortByAge(Kept(es, active, p, stuck))|
    ensures var ds := SortByAge(Kept(es, active, p, stuck));
            ds[k].name in Removed(es, active, p, stuck) <==> MaxBytes(p) > 0 && Evictions(ds, p, stuck)[k]
  {
    hide Kept, Expired, Evictions, SortByAge, Chosen, TotalSize, MaxBytes;
    var kept := Kept(es, active, p, stuck);
    var ds, old' := SortByAge(kept), Expired(es, active, p, stuck);
    KeptAndExpired(es, active, p, stuck);
    SortDistinct(kept);
    SortTotals(kept);
    assert ds[k] in kept;
    assert ds[k].name !in old';
    ChosenExactly(ds, Evictions(ds, p, stuck), k);
    if TotalSize(ds) <= MaxBytes(p) { UnderCap(ds, p, stuck, k); }
  }

  // ---- The pass ---------------------------------------------------------------------------------

  /** `clean_once`: the names it removes, in order. */
  method CleanOnce(es: seq<Listed>, active: set<string>, p: Policy, stuck: set<string>) returns (removed: seq<string>)
    ensures removed == Removed(es, active, p, stuck)
  {
    var maxBytes := p.maxTotalMb * 1048576;
    var dirs, total: int;
    dirs, total, removed := ListDirs(es, active, p, stuck);
    if maxBytes > 0 && total > maxBytes {
      SortTotals(dirs);
      dirs := SortByAge(dirs);
      var victims := Evict(dirs, total, p, stuck);
      removed := removed + victims;
    }
  }

  /** The listing loop with the age rule. */
  method ListDirs(es: seq<Listed>, active: set<string>, p: Policy, stuck: set<string>)
    returns (dirs: seq<RequestDir>, total: int, removed: seq<string>)
    ensures dirs == Kept(es, active, p, stuck) && total == TotalSize(dirs) && removed == Expired(es, active, p, stuck)
  {
    dirs, total, removed := [], 0, [];
    for i := 0 to |es|
      invariant dirs == Kept(es[..i], active, p, stuck) && total == TotalSize(dirs)
      invariant removed == Expired(es[..i], active, p, stuck)
    {
      var e := es[i];
      assert es[..i + 1][..i] == es[..i];
      if !e.isDir || e.name in active || e.at.None? { continue; }
      if p.days > 0 && e.at.value < p.ageCutoff && e.name !in stuck {
        removed := removed + [e.name];
        continue;
      }
      var dir := ToDir(e, p);
      total := total + dir.size;
      TotalSplit(dirs, [dir]);
      OneTotal(dir);
      dirs := dirs + [dir];
    }
    assert es[..|es|] == es;
  }

  /** The victims among `ds` from here on. */
  function Victims(ds: seq<RequestDir>, total: int, cap: int, deletable: int, stuck: set<string>): seq<string> {
    Chosen(ds, Decide(ds, total, cap, deletable, stuck))
  }

  /** One turn of the capacity loop over the cap. */
  lemma VictimsStep(ds: seq<RequestDir>, total: int, cap: int, d: int, stuck: set<string>)
    requires ds != [] && total > cap
    ensures Victims(ds, total, cap, d, stuck) ==
            if ds[0].hasError && d <= 0 then Victims(ds[1..], total, cap, d, stuck)
            else
              var left := if ds[0].hasError then d - 1 else d;
              if ds[0].name in stuck then Victims(ds[1..], total, cap, left, stuck)
              else [ds[0].name] + Victims(ds[1..], total - ds[0].size, cap, left, stuck)
  {
  }

  /** The capacity loop. */
  method Evict(dirs: seq<RequestDir>, totalBytes: int, p: Policy, stuck: set<string>) returns (removed: seq<string>)
    requires totalBytes == TotalSize(dirs)
    ensures removed == Chosen(dirs, Evictions(dirs, p, stuck))
  {
    var total := totalBytes;
    var errorCount := CountErrors(dirs);
    var deletable := errorCount - p.keepErrorDirs;
    removed := [];
    ghost var all := Chosen(dirs, Evictions(dirs, p, stuck));
    assert all == Victims(dirs[0..], total, MaxBytes(p), deletable, stuck) by { assert dirs[0..] == dirs; }
    hide Victims, TotalSize, Errors, Evictions, Chosen, MaxBytes, Decide;
    for k := 0 to |dirs|
      invariant removed + Victims(dirs[k..], total, MaxBytes(p), deletable, stuck) == all
    {
      ghost var rest := dirs[k..];
      assert rest[0] == dirs[k] && rest[1..] == dirs[k + 1..];
      if total <= MaxBytes(p) {
        IdleVictims(rest, total, MaxBytes(p), deletable, stuck);
        return;
      }
      VictimsStep(rest, total, MaxBytes(p), deletable, stuck);
      if dirs[k].hasError {
        if deletable > 0 { deletable := deletable - 1; } else { continue; }
      }
      if dirs[k].name !in stuck {
        total := total - dirs[k].size;
        AssocNames(removed, [dirs[k].name], Victims(rest[1..], total, MaxBytes(p), deletable, stuck));
        removed := removed + [dirs[k].name];
      }
    }
    NoVictims(total, MaxBytes(p), deletable, stuck);
  }

  lemma AssocNames(a: seq<string>, b: seq<string>, c: seq<string>)
    ensures a + (b + c) == a + b + c
  {
  }

  lemma NoVictims(total: int, cap: int, d: int, stuck: set<string>)
    ensures Victims([], total, cap, d, stuck) == []
  {
  }

  lemma IdleVictims(ds: seq<RequestDir>, total: int, cap: int, d: int, stuck: set<string>)
    requires total <= cap
    ensures Victims(ds, total, cap, d, stuck) == []
  {
    IdleChosen(ds, total, cap, d, stuck);
  }

  lemma {:induction false} IdleChosen(ds: seq<RequestDir>, total: int, cap: int, d: int, stuck: set<string>)
    requires total <= cap
    ensures Chosen(ds, Decide(ds, total, cap, d, stuck)) == []
    decreases |ds|
  {
    if ds != [] { IdleChosen(ds[1..], total, cap, d, stuck); }
  }

  method CountErrors(dirs: seq<RequestDir>) returns (n: nat)
    ensures n == Errors(dirs)
  {
    n := 0;
    for i := 0 to |dirs|
      invariant n == Errors(dirs[..i])
    {
      assert dirs[..i + 1][..i] == dirs[..i];
      if dirs[i].hasError { n := n + 1; }
    }
    assert dirs[..|dirs|] == dirs;
  }
}
