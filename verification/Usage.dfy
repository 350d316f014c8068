/**
 The in-memory aggregation of usage.rs: one `Add` per index line, as a step function on
 aggregator values, the class that performs it in place, order independence, the 8-day
 bucket ring, and the conservation laws of the counters.
 */
module Usage {
  import opened Common

  // ---- Index lines -------------------------------------------------------------

  /** The fields of an index line the aggregator reads; `unix` and `day` come from its start time. */
  datatype IndexEntry = IndexEntry(
    unix: int,
    day: string,
    durationMs: int,
    firstUpstreamMs: Option<int>,
    statusCode: int,
    result: string,
    requestedModel: string,
    model: string,
    input: int,
    output: int,
    cacheRead: int,
    cacheWrite: int,
    reasoning: int,
    total: int,
    keyHash: string,
    errorStage: string,
    rateLimited: bool)

  const MAX_PLAUSIBLE_DECODE_TPS: int := 400

  predicate IsRateLimited(e: IndexEntry) {
    e.statusCode == 429 || e.rateLimited
  }

  datatype Owner = Nobody | Client | Upstream | BusinessLimited

  predicate Left(e: IndexEntry) {
    e.result == "disconnected" || e.result == "aborted"
  }

  predicate Failed(e: IndexEntry) {
    e.statusCode >= 400 || e.result == "failed"
  }

  function ErrorOwner(e: IndexEntry): Owner {
    if IsRateLimited(e) then BusinessLimited
    else if Left(e) then Client
    else if !Failed(e) then Nobody
    else if e.errorStage == "http_read" || e.errorStage == "http_decode" then Client
    else Upstream
  }

  /** Output tokens and generation time of a trustworthy streaming entry. */
  function DecodeWindow(e: IndexEntry): Option<(int, int)> {
    if e.result != "completed" || e.output <= 0 || e.firstUpstreamMs.None? then None
    else
      var genMs := if e.durationMs > e.firstUpstreamMs.value then e.durationMs - e.firstUpstreamMs.value else 0;
      if genMs <= 0 || e.output * 1000 > MAX_PLAUSIBLE_DECODE_TPS * genMs then None else Some((e.output, genMs))
  }

  // ---- Totals ------------------------------------------------------------------

  datatype Totals = Totals(
    requests: int,
    errors: int,
    disconnected: int,
    rateLimited: int,
    clientFaults: int,
    upstreamFaults: int,
    input: int,
    output: int,
    cacheRead: int,
    cacheWrite: int,
    reasoning: int,
    total: int,
    genMs: int,
    genTokens: int)

  const ZERO: Totals := Totals(0, 0, 0, 0, 0, 0, 0, 0, 0, 0, 0, 0, 0, 0)

  function Plus(a: Totals, b: Totals): Totals {
    Totals(a.requests + b.requests, a.errors + b.errors, a.disconnected + b.disconnected,
           a.rateLimited + b.rateLimited, a.clientFaults + b.clientFaults, a.upstreamFaults + b.upstreamFaults,
           a.input + b.input, a.output + b.output, a.cacheRead + b.cacheRead, a.cacheWrite + b.cacheWrite,
           a.reasoning + b.reasoning, a.total + b.total, a.genMs + b.genMs, a.genTokens + b.genTokens)
  }

  function Flag(b: bool): int {
    if b then 1 else 0
  }

  /** The contribution of one line. */
  function One(e: IndexEntry): Totals {
    var w := DecodeWindow(e);
    Totals(1, Flag(!Left(e) && Failed(e)), Flag(Left(e)), Flag(IsRateLimited(e)),
           Flag(ErrorOwner(e) == Client), Flag(ErrorOwner(e) == Upstream),
           e.input, e.output, e.cacheRead, e.cacheWrite, e.reasoning, e.total,
           if w.Some? then w.value.1 else 0, if w.Some? then w.value.0 else 0)
  }

  /** `UsageTotals::add`, field by field. */
  method AddTotals(t: Totals, e: IndexEntry) returns (r: Totals)
    ensures r == Plus(t, One(e))
  {
    r := t.(requests := t.requests + 1);
    if e.result == "disconnected" || e.result == "aborted" {
      r := r.(disconnected := r.disconnected + 1);
    } else if e.statusCode >= 400 || e.result == "failed" {
      r := r.(errors := r.errors + 1);
    }
    match ErrorOwner(e) {
      case Client => r := r.(clientFaults := r.clientFaults + 1);
      case Upstream => r := r.(upstreamFaults := r.upstreamFaults + 1);
      case _ =>
    }
    if IsRateLimited(e) { r := r.(rateLimited := r.rateLimited + 1); }
    r := r.(input := r.input + e.input, output := r.output + e.output, cacheRead := r.cacheRead + e.cacheRead,
            cacheWrite := r.cacheWrite + e.cacheWrite, reasoning := r.reasoning + e.reasoning,
            total := r.total + e.total);
    match DecodeWindow(e) {
      case Some(w) => r := r.(genMs := r.genMs + w.1, genTokens := r.genTokens + w.0);
      case None =>
    }
  }

  // ---- Aggregator values ----------------------------------------------------------

  /** Number of retained 10-minute buckets: 8 days. */
  const MIN_BUCKETS: nat := 6 * 24 * 8

  datatype Bucket = Bucket(at: int, totals: Totals)

  /** A per-model or per-key row: totals and latency sums. */
  datatype Row = Row(totals: Totals, sumDuration: int, ttfbSamples: int, sumTtfb: int)

  const NO_ROW: Row := Row(ZERO, 0, 0, 0)

  function RowPlus(a: Row, b: Row): Row {
    Row(Plus(a.totals, b.totals), a.sumDuration + b.sumDuration, a.ttfbSamples + b.ttfbSamples, a.sumTtfb + b.sumTtfb)
  }

  function OneRow(e: IndexEntry): Row {
    Row(One(e), e.durationMs, Flag(e.firstUpstreamMs.Some?),
        if e.firstUpstreamMs.Some? then e.firstUpstreamMs.value else 0)
  }

  datatype Agg = Agg(
    entries: int,
    total: Totals,
    days: map<string, Totals>,
    mins: seq<Bucket>,
    models: map<string, Row>,
    modelDays: map<string, map<string, Totals>>,
    keys: map<string, Row>,
    errStages: map<string, int>)

  function Empty(): Agg {
    Agg(0, ZERO, map[], seq(MIN_BUCKETS, _ => Bucket(0, ZERO)), map[], map[], map[], map[])
  }

  function Bump(m: map<string, Totals>, k: string, d: Totals): map<string, Totals> {
    m[k := Plus(if k in m then m[k] else ZERO, d)]
  }

  function BumpRow(m: map<string, Row>, k: string, d: Row): map<string, Row> {
    if k == "" then m else m[k := RowPlus(if k in m then m[k] else NO_ROW, d)]
  }

  function BumpNested(m: map<string, map<string, Totals>>, k: string, day: string, d: Totals)
    : map<string, map<string, Totals>>
  {
    if k == "" then m else m[k := Bump(if k in m then m[k] else map[], day, d)]
  }

  function BumpStage(m: map<string, int>, k: string): map<string, int> {
    if k == "" then m else m[k := (if k in m then m[k] else 0) + 1]
  }

  /** Division as the program's integers do it, toward zero. */
  function SlotOf(unix: int): int {
    if unix >= 0 then unix / 600 else -((-unix) / 600)
  }

  function CellOf(slot: nat): nat {
    slot % MIN_BUCKETS
  }

  /** A newer slot resets the bucket, an older one is dropped. */
  function BumpBucket(b: Bucket, slot: nat, d: Totals): Bucket {
    var c := if b.at < slot * 600 then Bucket(slot * 600, ZERO) else b;
    if c.at == slot * 600 then c.(totals := Plus(c.totals, d)) else c
  }

  function BumpRing(mins: seq<Bucket>, slot: int, d: Totals): (r: seq<Bucket>)
    ensures |r| == |mins|
  {
    if slot < 0 || CellOf(slot) >= |mins| then mins
    else mins[CellOf(slot) := BumpBucket(mins[CellOf(slot)], slot, d)]
  }

  /** The model a line counts under: resolved, or requested when that is empty. */
  function ModelOf(e: IndexEntry): string {
    if e.model == "" then e.requestedModel else e.model
  }

  function Add(a: Agg, e: IndexEntry): Agg {
    Agg(a.entries + 1,
        Plus(a.total, One(e)),
        Bump(a.days, e.day, One(e)),
        BumpRing(a.mins, SlotOf(e.unix), One(e)),
        BumpRow(a.models, ModelOf(e), OneRow(e)),
        BumpNested(a.modelDays, ModelOf(e), e.day, One(e)),
        BumpRow(a.keys, e.keyHash, OneRow(e)),
        BumpStage(a.errStages, e.errorStage))
  }

  /** Sequential aggregation of `s` on top of `a`. */
  function Fold(a: Agg, s: seq<IndexEntry>): Agg
    decreases |s|
  {
    if s == [] then a else Fold(Add(a, s[0]), s[1..])
  }

  // ---- The aggregator -------------------------------------------------------------

  class UsageAggregator {
    var entries: int
    var total: Totals
    var days: map<string, Totals>
    var mins: array<Bucket>
    var models: map<string, Row>
    var modelDays: map<string, map<string, Totals>>
    var keys: map<string, Row>
    var errStages: map<string, int>
    /** Every line added so far. */
    ghost var history: seq<IndexEntry>

    ghost function Contents(): Agg
      reads `entries, `total, `days, `mins, `models, `modelDays, `keys, `errStages, mins
    {
      Agg(entries, total, days, mins[..], models, modelDays, keys, errStages)
    }

    ghost predicate Valid()
      reads this, mins
    {
      mins.Length == MIN_BUCKETS && Contents() == Fold(Empty(), history)
    }

    constructor ()
      ensures Valid() && history == [] && fresh(mins)
    {
      entries, total := 0, ZERO;
      days, models, modelDays, keys, errStages := map[], map[], map[], map[], map[];
      mins := new Bucket[MIN_BUCKETS](_ => Bucket(0, ZERO));
      history := [];
      new;
      assert mins[..] == Empty().mins;
    }

    method AddEntry(e: IndexEntry)
      requires Valid()
      modifies this, mins
      ensures Valid() && mins == old(mins)
      ensures history == old(history) + [e] && Contents() == Add(old(Contents()), e)
    {
      hide Contents, Add, Fold, Empty;
      AddFields(e);
      FoldSnoc(Empty(), history, e);
      history := history + [e];
    }

    method AddFields(e: IndexEntry)
      requires mins.Length == MIN_BUCKETS
      modifies `entries, `total, `days, `models, `modelDays, `keys, `errStages, mins
      ensures Contents() == Add(old(Contents()), e)
    {
      hide One, Plus, Bump, BumpRow, BumpNested, BumpStage, BumpRing, OneRow, ModelOf, SlotOf;
      entries := entries + 1;
      total := AddTotals(total, e);
      days := AddDay(days, e);
      AddBucket(e);
      AddModel(e);
      AddKey(e);
      AddStage(e);
    }

    method AddDay(m: map<string, Totals>, e: IndexEntry) returns (r: map<string, Totals>)
      ensures r == Bump(m, e.day, One(e))
    {
      hide One, Plus;
      var t := AddTotals(if e.day in m then m[e.day] else ZERO, e);
      r := m[e.day := t];
    }

    /** The per-model part of `AddEntry`. */
    method AddModel(e: IndexEntry)
      modifies `models, `modelDays
      ensures models == BumpRow(old(models), ModelOf(e), OneRow(e))
      ensures modelDays == BumpNested(old(modelDays), ModelOf(e), e.day, One(e))
    {
      hide One, Plus, OneRow, RowPlus, Bump;
      var model := if e.model == "" then e.requestedModel else e.model;
      if model != "" {
        var row := AddRow(if model in models then models[model] else NO_ROW, e);
        models := models[model := row];
        var perDay := AddDay(if model in modelDays then modelDays[model] else map[], e);
        modelDays := modelDays[model := perDay];
      }
    }

    method AddKey(e: IndexEntry)
      modifies `keys
      ensures keys == BumpRow(old(keys), e.keyHash, OneRow(e))
    {
      hide One, Plus, OneRow, RowPlus;
      if e.keyHash != "" {
        var row := AddRow(if e.keyHash in keys then keys[e.keyHash] else NO_ROW, e);
        keys := keys[e.keyHash := row];
      }
    }

    method AddStage(e: IndexEntry)
      modifies `errStages
      ensures errStages == BumpStage(old(errStages), e.errorStage)
    {
      if e.errorStage != "" {
        errStages := errStages[e.errorStage := (if e.errorStage in errStages then errStages[e.errorStage] else 0) + 1];
      }
    }

    /** The ring update of `AddEntry`. */
    method AddBucket(e: IndexEntry)
      requires mins.Length == MIN_BUCKETS
      modifies mins
      ensures mins[..] == BumpRing(old(mins[..]), SlotOf(e.unix), One(e))
    {
      var slot := SlotOf(e.unix);
      if slot >= 0 {
        var cell := CellOf(slot);
        if mins[cell].at < slot * 600 { mins[cell] := Bucket(slot * 600, ZERO); }
        if mins[cell].at == slot * 600 {
          var t := AddTotals(mins[cell].totals, e);
          mins[cell] := Bucket(slot * 600, t);
        }
      }
    }

    method AddRow(r: Row, e: IndexEntry) returns (r': Row)
      ensures r' == RowPlus(r, OneRow(e))
    {
      var t := AddTotals(r.totals, e);
      r' := Row(t, r.sumDuration + e.durationMs, r.ttfbSamples, r.sumTtfb);
      if e.firstUpstreamMs.Some? {
        r' := r'.(ttfbSamples := r.ttfbSamples + 1, sumTtfb := r.sumTtfb + e.firstUpstreamMs.value);
      }
    }

    /** The trend points of the last 8 days up to the 10-minute slot of `now`. */
    method SnapshotPoints(now: int) returns (points: seq<Bucket>)
      requires Valid()
      ensures |points| == MIN_BUCKETS
      ensures forall k :: 0 <= k < MIN_BUCKETS ==> points[k] == PointAt(mins[..], SlotOf(now) - MIN_BUCKETS + 1 + k)
    {
      var first := SlotOf(now) - MIN_BUCKETS + 1;
      points := [];
      for k := 0 to MIN_BUCKETS
        invariant |points| == k
        invariant forall j :: 0 <= j < k ==> points[j] == PointAt(mins[..], first + j)
      {
        var s := first + k;
        var bucket := mins[if s >= 0 then CellOf(s) else 0];
        points := points + [Bucket(s * 600, if bucket.at == s * 600 then bucket.totals else ZERO)];
      }
    }
  }

  /** The point shown for a slot; a negative slot looks at cell 0. */
  function PointAt(mins: seq<Bucket>, slot: int): Bucket
    requires |mins| == MIN_BUCKETS
  {
    var b := mins[if slot >= 0 then CellOf(slot) else 0];
    Bucket(slot * 600, if b.at == slot * 600 then b.totals else ZERO)
  }

  // ---- Order independence ------------------------------------------------------------

  lemma {:induction false} FoldAppend(a: Agg, s: seq<IndexEntry>, t: seq<IndexEntry>)
    ensures Fold(a, s + t) == Fold(Fold(a, s), t)
    decreases |s|
  {
    if s == [] {
      assert s + t == t;
    } else {
      assert (s + t)[1..] == s[1..] + t && (s + t)[0] == s[0];
      FoldAppend(Add(a, s[0]), s[1..], t);
    }
  }

  lemma RowComm(m: map<string, Row>, j: string, x: Row, k: string, y: Row)
    ensures BumpRow(BumpRow(m, j, x), k, y) == BumpRow(BumpRow(m, k, y), j, x)
  {
  }

  lemma BumpComm(m: map<string, Totals>, j: string, x: Totals, k: string, y: Totals)
    ensures Bump(Bump(m, j, x), k, y) == Bump(Bump(m, k, y), j, x)
  {
  }

  lemma NestedComm(m: map<string, map<string, Totals>>, j: string, d: string, x: Totals, k: string, f: string,
      y: Totals)
    ensures BumpNested(BumpNested(m, j, d, x), k, f, y) == BumpNested(BumpNested(m, k, f, y), j, d, x)
  {
    if j == k && k != "" {
      BumpComm(if k in m then m[k] else map[], d, x, f, y);
    }
  }

  lemma StageComm(m: map<string, int>, j: string, k: string)
    ensures BumpStage(BumpStage(m, j), k) == BumpStage(BumpStage(m, k), j)
  {
  }

  lemma BucketComm(b: Bucket, j: nat, x: Totals, k: nat, y: Totals)
    ensures BumpBucket(BumpBucket(b, j, x), k, y) == BumpBucket(BumpBucket(b, k, y), j, x)
  {
  }

  lemma RingComm(m: seq<Bucket>, j: int, x: Totals, k: int, y: Totals)
    ensures BumpRing(BumpRing(m, j, x), k, y) == BumpRing(BumpRing(m, k, y), j, x)
  {
    hide BumpBucket;
    if j >= 0 && k >= 0 && CellOf(j) < |m| && CellOf(k) < |m| {
      if CellOf(j) == CellOf(k) { BucketComm(m[CellOf(j)], j, x, k, y); }
    }
  }

  /** Two lines can be added in either order. */
  lemma AddComm(a: Agg, x: IndexEntry, y: IndexEntry)
    ensures Add(Add(a, x), y) == Add(Add(a, y), x)
  {
    var p, q := One(x), One(y);
    assert Plus(Plus(a.total, p), q) == Plus(Plus(a.total, q), p);
    hide One, Plus, OneRow, RowPlus, Bump, BumpRow, BumpNested, BumpStage, BumpRing, ModelOf, SlotOf;
    BumpComm(a.days, x.day, p, y.day, q);
    RingComm(a.mins, SlotOf(x.unix), p, SlotOf(y.unix), q);
    RowComm(a.models, ModelOf(x), OneRow(x), ModelOf(y), OneRow(y));
    NestedComm(a.modelDays, ModelOf(x), x.day, p, ModelOf(y), y.day, q);
    RowComm(a.keys, x.keyHash, OneRow(x), y.keyHash, OneRow(y));
    StageComm(a.errStages, x.errorStage, y.errorStage);
  }

  lemma FoldSnoc(a: Agg, s: seq<IndexEntry>, e: IndexEntry)
    ensures Fold(a, s + [e]) == Add(Fold(a, s), e)
  {
    hide Add;
    FoldAppend(a, s, [e]);
    assert [e][1..] == [];
  }

  /** Any line can be moved to the front. */
  lemma {:induction false} FoldFront(a: Agg, s: seq<IndexEntry>, i: nat)
    requires i < |s|
    ensures Fold(a, s) == Fold(Add(a, s[i]), s[..i] + s[i + 1..])
    decreases |s|
  {
    hide Add;
    if i == 0 {
      assert s[..0] + s[1..] == s[1..];
    } else {
      FoldFront(Add(a, s[0]), s[1..], i - 1);
      AddComm(a, s[0], s[i]);
      var rest := s[1..][..i - 1] + s[1..][i..];
      assert s[..i] + s[i + 1..] == [s[0]] + rest;
      assert ([s[0]] + rest)[1..] == rest;
    }
  }

  lemma RestMultiset(s: seq<IndexEntry>, t: seq<IndexEntry>, i: nat)
    requires i < |t| && s != [] && s[0] == t[i] && multiset(s) == multiset(t)
    ensures multiset(s[1..]) == multiset(t[..i] + t[i + 1..])
  {
    assert t == t[..i] + [t[i]] + t[i + 1..];
    assert s == [s[0]] + s[1..];
    assert multiset(s) == multiset{s[0]} + multiset(s[1..]);
    assert multiset(t) == multiset(t[..i]) + multiset{t[i]} + multiset(t[i + 1..]);
    assert multiset(s[1..]) == multiset(s) - multiset{s[0]};
  }

  /** Aggregation depends only on which lines were added, not on their order. */
  lemma {:induction false} FoldPermutation(a: Agg, s: seq<IndexEntry>, t: seq<IndexEntry>)
    requires multiset(s) == multiset(t)
    ensures Fold(a, s) == Fold(a, t)
    decreases |s|
  {
    hide Add;
    if s == [] {
      assert |multiset(t)| == 0;
    } else {
      assert s[0] in multiset(t);
      var i :| 0 <= i < |t| && t[i] == s[0];
      var rest := t[..i] + t[i + 1..];
      RestMultiset(s, t, i);
      FoldFront(a, t, i);
      FoldPermutation(Add(a, s[0]), s[1..], rest);
    }
  }

  // ---- Exact sums -----------------------------------------------------------------------

  /** Sum of the contributions of the lines of `s` that `keep` selects. */
  ghost function SumIf(s: seq<IndexEntry>, keep: IndexEntry -> bool): Totals {
    if s == [] then ZERO
    else Plus(SumIf(s[..|s| - 1], keep), if keep(s[|s| - 1]) then One(s[|s| - 1]) else ZERO)
  }

  lemma SumIfSnoc(s: seq<IndexEntry>, e: IndexEntry, keep: IndexEntry -> bool)
    ensures SumIf(s + [e], keep) == Plus(SumIf(s, keep), if keep(e) then One(e) else ZERO)
  {
    assert (s + [e])[..|s|] == s;
  }

  ghost function InSlot(slot: int): IndexEntry -> bool {
    (e: IndexEntry) => SlotOf(e.unix) == slot
  }

  ghost function OnDay(day: string): IndexEntry -> bool {
    (e: IndexEntry) => e.day == day
  }

  ghost function Anything(): IndexEntry -> bool {
    (e: IndexEntry) => true
  }

  /** The entry lands in ring cell `i`. */
  predicate InCell(e: IndexEntry, i: nat) {
    SlotOf(e.unix) >= 0 && CellOf(SlotOf(e.unix)) == i
  }

  /** Cell `i` holds the newest slot seen for its residue with the exact sum of that slot. */
  ghost predicate CellExact(b: Bucket, s: seq<IndexEntry>, i: nat) {
    if forall k :: 0 <= k < |s| ==> !InCell(s[k], i) then b == Bucket(0, ZERO)
    else exists m: nat :: NewestSlot(s, i, m) && b == Bucket(m * 600, SumIf(s, InSlot(m)))
  }

  ghost predicate NewestSlot(s: seq<IndexEntry>, i: nat, m: nat) {
    && (exists k :: 0 <= k < |s| && InCell(s[k], i) && SlotOf(s[k].unix) == m)
    && (forall k :: 0 <= k < |s| && InCell(s[k], i) ==> SlotOf(s[k].unix) <= m)
  }

  lemma {:induction false} SumNone(s: seq<IndexEntry>, keep: IndexEntry -> bool)
    requires forall k :: 0 <= k < |s| ==> !keep(s[k])
    ensures SumIf(s, keep) == ZERO
    decreases |s|
  {
    if s != [] {
      hide SumIf, One, Plus;
      var p, e := s[..|s| - 1], s[|s| - 1];
      assert s == p + [e];
      SumNone(p, keep);
      SumIfSnoc(p, e, keep);
      PlusAssoc(ZERO, ZERO, ZERO);
    }
  }

  /** The first entry of a cell, or one of a newer slot: the cell starts again from it. */
  lemma CellStarts(s: seq<IndexEntry>, i: nat, e: IndexEntry)
    requires InCell(e, i) && forall k :: 0 <= k < |s| && InCell(s[k], i) ==> SlotOf(s[k].unix) < SlotOf(e.unix)
    ensures SumIf(s + [e], InSlot(SlotOf(e.unix))) == One(e) && NewestSlot(s + [e], i, SlotOf(e.unix))
  {
    hide One, Plus, CellOf, SumIf;
    var t, slot := s + [e], SlotOf(e.unix);
    assert forall k :: 0 <= k < |s| ==> t[k] == s[k];
    forall k | 0 <= k < |s| ensures !InSlot(slot)(s[k]) { assert InCell(s[k], i) ==> SlotOf(s[k].unix) < slot; }
    SumNone(s, InSlot(slot));
    SumIfSnoc(s, e, InSlot(slot));
    PlusAssoc(One(e), ZERO, ZERO);
    PlusAssoc(ZERO, One(e), ZERO);
    assert InCell(t[|s|], i);
  }

  /** An entry that is not newer: the newest slot stays, and grows if it is the entry's own. */
  lemma CellGoesOn(s: seq<IndexEntry>, i: nat, e: IndexEntry, m: nat)
    requires NewestSlot(s, i, m) && (InCell(e, i) ==> SlotOf(e.unix) <= m)
    ensures NewestSlot(s + [e], i, m)
    ensures SumIf(s + [e], InSlot(m))
            == if InCell(e, i) && SlotOf(e.unix) == m then Plus(SumIf(s, InSlot(m)), One(e)) else SumIf(s, InSlot(m))
  {
    hide One, Plus, CellOf, SumIf;
    var t := s + [e];
    assert t[|s|] == e && forall k :: 0 <= k < |s| ==> t[k] == s[k];
    var w :| 0 <= w < |s| && InCell(s[w], i) && SlotOf(s[w].unix) == m;
    assert InCell(t[w], i) && SlotOf(t[w].unix) == m;
    SumIfSnoc(s, e, InSlot(m));
    PlusAssoc(SumIf(s, InSlot(m)), ZERO, ZERO);
    if SlotOf(e.unix) == m { SlotInCell(e, s[w], i); }
  }

  lemma CellStep(b: Bucket, s: seq<IndexEntry>, i: nat, e: IndexEntry)
    requires CellExact(b, s, i)
    ensures CellExact(if InCell(e, i) then BumpBucket(b, SlotOf(e.unix), One(e)) else b, s + [e], i)
  {
    hide One, Plus, SumIf, InCell, SlotOf;
    var t := s + [e];
    assert t[|s|] == e && forall k :: 0 <= k < |s| ==> t[k] == s[k];
    PlusAssoc(One(e), ZERO, ZERO);
    PlusAssoc(ZERO, One(e), ZERO);
    if forall k :: 0 <= k < |s| ==> !InCell(s[k], i) {
      if InCell(e, i) {
        CellStarts(s, i, e);
        CellSlot(e, i);
      }
    } else {
      var m: nat :| NewestSlot(s, i, m) && b == Bucket(m * 600, SumIf(s, InSlot(m)));
      var w :| 0 <= w < |s| && InCell(s[w], i) && SlotOf(s[w].unix) == m;
      assert InCell(t[w], i);
      if InCell(e, i) && SlotOf(e.unix) > m {
        CellStarts(s, i, e);
      } else {
        CellGoesOn(s, i, e, m);
      }
      if InCell(e, i) { CellSlot(e, i); }
    }
  }

  lemma CellSlot(e: IndexEntry, i: nat)
    requires InCell(e, i)
    ensures SlotOf(e.unix) >= 0
  {
  }

  lemma SlotInCell(e: IndexEntry, w: IndexEntry, i: nat)
    requires InCell(w, i) && SlotOf(e.unix) == SlotOf(w.unix)
    ensures InCell(e, i)
  {
  }

  lemma {:induction false} RingExact(s: seq<IndexEntry>)
    ensures |Fold(Empty(), s).mins| == MIN_BUCKETS
    ensures forall i :: 0 <= i < MIN_BUCKETS ==> CellExact(Fold(Empty(), s).mins[i], s, i)
    decreases |s|
  {
    if s != [] {
      var p, e := s[..|s| - 1], s[|s| - 1];
      assert s == p + [e];
      RingExact(p);
      FoldSnoc(Empty(), p, e);
      var a := Fold(Empty(), p);
      forall i | 0 <= i < MIN_BUCKETS ensures CellExact(Fold(Empty(), s).mins[i], s, i) {
        CellStep(a.mins[i], p, i, e);
      }
    }
  }

  /** With no line later than now, every shown point of a non-negative slot is the true sum of its slot. */
  lemma SnapshotExact(s: seq<IndexEntry>, now: int, slot: int)
    requires forall k :: 0 <= k < |s| ==> SlotOf(s[k].unix) <= SlotOf(now)
    requires 0 <= slot && SlotOf(now) - MIN_BUCKETS < slot <= SlotOf(now)
    ensures |Fold(Empty(), s).mins| == MIN_BUCKETS
    ensures PointAt(Fold(Empty(), s).mins, slot) == Bucket(slot * 600, SumIf(s, InSlot(slot)))
  {
    hide SumIf, SlotOf, Fold;
    RingExact(s);
    var i := CellOf(slot);
    var b := Fold(Empty(), s).mins[i];
    assert CellExact(b, s, i);
    if forall k :: 0 <= k < |s| ==> !InCell(s[k], i) {
      SlotAbsent(s, slot);
    } else {
      var m: nat :| NewestSlot(s, i, m) && b == Bucket(m * 600, SumIf(s, InSlot(m)));
      var w :| 0 <= w < |s| && InCell(s[w], i) && SlotOf(s[w].unix) == m;
      SameCell(m, slot, SlotOf(now));
      if m < slot { SlotUnseen(s, m, slot); }
    }
  }

  /** A slot newer than the newest one of its cell has no lines. */
  lemma SlotUnseen(s: seq<IndexEntry>, m: nat, slot: nat)
    requires NewestSlot(s, CellOf(slot), m) && m < slot
    ensures SumIf(s, InSlot(slot)) == ZERO
  {
    hide SlotOf, CellOf, SumIf;
    forall k | 0 <= k < |s| ensures !InSlot(slot)(s[k]) {
      assert SlotOf(s[k].unix) == slot ==> InCell(s[k], CellOf(slot));
    }
    SumNone(s, InSlot(slot));
  }

  lemma SlotAbsent(s: seq<IndexEntry>, slot: nat)
    requires forall k :: 0 <= k < |s| ==> !InCell(s[k], CellOf(slot))
    ensures SumIf(s, InSlot(slot)) == ZERO
  {
    forall k | 0 <= k < |s| ensures !InSlot(slot)(s[k]) { assert !InCell(s[k], CellOf(slot)); }
    SumNone(s, InSlot(slot));
  }

  /** Within one window two slots of the same cell are equal, or the first is older. */
  lemma SameCell(m: nat, slot: nat, now: int)
    requires CellOf(m) == CellOf(slot) && m <= now && now - MIN_BUCKETS < slot <= now
    ensures m <= slot
  {
    var q := (m - slot) / MIN_BUCKETS;
    assert m - slot < MIN_BUCKETS;
    assert m == MIN_BUCKETS * (m / MIN_BUCKETS) + m % MIN_BUCKETS;
    assert slot == MIN_BUCKETS * (slot / MIN_BUCKETS) + slot % MIN_BUCKETS;
  }

  // ---- Conservation ----------------------------------------------------------------------

  /** Sum over the values of a map. */
  ghost function SumMap(m: map<string, Totals>): Totals
    decreases |m|
  {
    if m == map[] then ZERO
    else
      var k :| k in m;
      Plus(m[k], SumMap(m - {k}))
  }

  lemma PlusAssoc(a: Totals, b: Totals, c: Totals)
    ensures Plus(Plus(a, b), c) == Plus(a, Plus(b, c)) && Plus(a, b) == Plus(b, a) && Plus(a, ZERO) == a
  {
  }

  lemma {:induction false} SumMapTake(m: map<string, Totals>, k: string)
    requires k in m
    ensures SumMap(m) == Plus(m[k], SumMap(m - {k}))
    decreases |m|
  {
    hide Plus;
    var j :| j in m && SumMap(m) == Plus(m[j], SumMap(m - {j}));
    if j != k {
      SumMapTake(m - {j}, k);
      SumMapTake(m - {k}, j);
      assert m - {j} - {k} == m - {k} - {j};
      var r := SumMap(m - {j} - {k});
      PlusAssoc(m[j], m[k], r);
      PlusAssoc(m[k], m[j], r);
    }
  }

  lemma SumMapBump(m: map<string, Totals>, k: string, d: Totals)
    ensures SumMap(Bump(m, k, d)) == Plus(SumMap(m), d)
  {
    var b := Bump(m, k, d);
    SumMapTake(b, k);
    assert b - {k} == m - {k};
    if k in m {
      SumMapTake(m, k);
    } else {
      assert m - {k} == m;
    }
  }

  ghost predicate Conserved(a: Agg) {
    && SumMap(a.days) == a.total
    && a.models.Keys == a.modelDays.Keys
    && (forall k :: k in a.models ==> SumMap(a.modelDays[k]) == a.models[k].totals)
    && a.total.requests == a.entries
  }

  lemma ConservedStep(a: Agg, e: IndexEntry)
    requires Conserved(a)
    ensures Conserved(Add(a, e))
  {
    hide SumMap;
    SumMapBump(a.days, e.day, One(e));
    var k, b := ModelOf(e), Add(a, e);
    if k != "" {
      if k in a.modelDays {
        SumMapBump(a.modelDays[k], e.day, One(e));
      } else {
        SumMapBump(map[], e.day, One(e));
        SumMapNil();
      }
      forall j | j in b.models ensures SumMap(b.modelDays[j]) == b.models[j].totals {
        if j != k { assert j in a.models; }
      }
    }
  }

  lemma SumMapNil()
    ensures SumMap(map[]) == ZERO
  {
  }

  /** The window totals are the sum over days and each model's totals the sum over its days. */
  lemma {:induction false} AggregationConserves(s: seq<IndexEntry>)
    ensures Conserved(Fold(Empty(), s))
    decreases |s|
  {
    if s == [] {
      SumMapNil();
    } else {
      var p, e := s[..|s| - 1], s[|s| - 1];
      assert s == p + [e];
      AggregationConserves(p);
      FoldSnoc(Empty(), p, e);
      ConservedStep(Fold(Empty(), p), e);
    }
  }

  // ---- Every counter is an exact sum -----------------------------------------------------------

  ghost function OfModel(k: string): IndexEntry -> bool {
    (e: IndexEntry) => ModelOf(e) == k
  }

  ghost function OfModelOn(k: string, day: string): IndexEntry -> bool {
    (e: IndexEntry) => ModelOf(e) == k && e.day == day
  }

  ghost function OfKey(k: string): IndexEntry -> bool {
    (e: IndexEntry) => e.keyHash == k
  }

  ghost predicate Selects(s: seq<IndexEntry>, keep: IndexEntry -> bool) {
    exists i :: 0 <= i < |s| && keep(s[i])
  }

  /** Sum of the rows of the lines of `s` that `keep` selects: totals and latencies. */
  ghost function RowSumIf(s: seq<IndexEntry>, keep: IndexEntry -> bool): Row {
    if s == [] then NO_ROW
    else RowPlus(RowSumIf(s[..|s| - 1], keep), if keep(s[|s| - 1]) then OneRow(s[|s| - 1]) else NO_ROW)
  }

  /** The entry under `k` is there exactly when a line belongs to it, and is their sum. */
  ghost predicate SumAt(m: map<string, Totals>, k: string, s: seq<IndexEntry>, keep: IndexEntry -> bool) {
    (k in m <==> Selects(s, keep)) && (k in m ==> m[k] == SumIf(s, keep))
  }

  ghost predicate RowAt(m: map<string, Row>, k: string, s: seq<IndexEntry>, keep: IndexEntry -> bool) {
    (k in m <==> Selects(s, keep)) && (k in m ==> m[k] == RowSumIf(s, keep))
  }

  lemma SelectsSnoc(s: seq<IndexEntry>, e: IndexEntry, keep: IndexEntry -> bool)
    ensures Selects(s + [e], keep) <==> Selects(s, keep) || keep(e)
  {
    var t := s + [e];
    assert t[|s|] == e && forall i :: 0 <= i < |s| ==> t[i] == s[i];
  }

  lemma RowSumSnoc(s: seq<IndexEntry>, e: IndexEntry, keep: IndexEntry -> bool)
    ensures RowSumIf(s + [e], keep) == RowPlus(RowSumIf(s, keep), if keep(e) then OneRow(e) else NO_ROW)
  {
    hide RowPlus, OneRow;
    assert (s + [e])[..|s|] == s;
  }

  lemma RowPlusNothing(r: Row)
    ensures RowPlus(r, NO_ROW) == r
  {
  }

  lemma {:induction false} RowNone(s: seq<IndexEntry>, keep: IndexEntry -> bool)
    requires !Selects(s, keep)
    ensures RowSumIf(s, keep) == NO_ROW
    decreases |s|
  {
    if s != [] {
      var p, e := s[..|s| - 1], s[|s| - 1];
      assert s == p + [e];
      hide OneRow, RowPlus, RowSumIf, Selects;
      SelectsSnoc(p, e, keep);
      RowNone(p, keep);
      RowSumSnoc(p, e, keep);
      RowPlusNothing(NO_ROW);
    }
  }

  lemma SumAtSkip(m: map<string, Totals>, k: string, s: seq<IndexEntry>, keep: IndexEntry -> bool, e: IndexEntry)
    requires SumAt(m, k, s, keep) && !keep(e)
    ensures SumAt(m, k, s + [e], keep)
  {
    hide One, Plus;
    SelectsSnoc(s, e, keep);
    SumIfSnoc(s, e, keep);
    PlusAssoc(SumIf(s, keep), ZERO, ZERO);
  }

  lemma SumAtBump(m: map<string, Totals>, k: string, s: seq<IndexEntry>, keep: IndexEntry -> bool, e: IndexEntry)
    requires SumAt(m, k, s, keep) && keep(e)
    ensures SumAt(Bump(m, k, One(e)), k, s + [e], keep)
  {
    hide One, Plus;
    SelectsSnoc(s, e, keep);
    SumIfSnoc(s, e, keep);
    if k !in m { SumNone(s, keep); }
  }

  /** The row maps skip the empty name. */
  lemma RowAtStep(m: map<string, Row>, j: string, k: string, s: seq<IndexEntry>, keep: IndexEntry -> bool,
      e: IndexEntry)
    requires RowAt(m, k, s, keep) && k != "" && (keep(e) <==> j == k)
    ensures RowAt(BumpRow(m, j, OneRow(e)), k, s + [e], keep)
  {
    hide OneRow, RowPlus, RowSumIf, Selects;
    SelectsSnoc(s, e, keep);
    RowSumSnoc(s, e, keep);
    RowPlusNothing(RowSumIf(s, keep));
    if k !in m { RowNone(s, keep); }
  }

  lemma {:induction false} TotalExact(s: seq<IndexEntry>)
    ensures Fold(Empty(), s).total == SumIf(s, Anything())
    decreases |s|
  {
    if s != [] {
      var p, e := s[..|s| - 1], s[|s| - 1];
      assert s == p + [e];
      TotalExact(p);
      FoldSnoc(Empty(), p, e);
    }
  }

  lemma {:induction false} DayExact(s: seq<IndexEntry>, d: string)
    ensures SumAt(Fold(Empty(), s).days, d, s, OnDay(d))
    decreases |s|
  {
    hide SumAt, Bump;
    if s == [] {
      assert SumAt(map[], d, s, OnDay(d)) by { NothingAt(d, OnDay(d)); }
    } else {
      var p, e := s[..|s| - 1], s[|s| - 1];
      assert s == p + [e];
      DayExact(p, d);
      FoldSnoc(Empty(), p, e);
      var m := Fold(Empty(), p).days;
      if e.day == d {
        SumAtBump(m, d, p, OnDay(d), e);
      } else {
        SumAtSkip(m, d, p, OnDay(d), e);
        OtherKey(m, e.day, d, One(e), s, OnDay(d));
      }
    }
  }

  lemma NothingAt(k: string, keep: IndexEntry -> bool)
    ensures SumAt(map[], k, [], keep) && RowAt(map[], k, [], keep)
  {
  }

  lemma OtherKey(m: map<string, Totals>, j: string, k: string, d: Totals, s: seq<IndexEntry>, keep: IndexEntry -> bool)
    requires SumAt(m, k, s, keep) && j != k
    ensures SumAt(Bump(m, j, d), k, s, keep)
  {
  }

  lemma {:induction false} RowsExact(s: seq<IndexEntry>, k: string)
    requires k != ""
    ensures RowAt(Fold(Empty(), s).models, k, s, OfModel(k)) && RowAt(Fold(Empty(), s).keys, k, s, OfKey(k))
    decreases |s|
  {
    hide RowAt, BumpRow;
    if s == [] {
      NothingAt(k, OfModel(k));
      NothingAt(k, OfKey(k));
    } else {
      var p, e := s[..|s| - 1], s[|s| - 1];
      assert s == p + [e];
      RowsExact(p, k);
      FoldSnoc(Empty(), p, e);
      var a := Fold(Empty(), p);
      RowAtStep(a.models, ModelOf(e), k, p, OfModel(k), e);
      RowAtStep(a.keys, e.keyHash, k, p, OfKey(k), e);
    }
  }

  /** The days of one model, or none. */
  function DaysOf(m: map<string, map<string, Totals>>, k: string): map<string, Totals> {
    if k in m then m[k] else map[]
  }

  lemma NestedStep(m: map<string, map<string, Totals>>, k: string, e: IndexEntry)
    requires k != ""
    ensures DaysOf(BumpNested(m, ModelOf(e), e.day, One(e)), k)
            == if ModelOf(e) == k then Bump(DaysOf(m, k), e.day, One(e)) else DaysOf(m, k)
  {
    hide Bump, One, ModelOf;
  }

  lemma {:induction false} ModelDayExact(s: seq<IndexEntry>, k: string, d: string)
    requires k != ""
    ensures SumAt(DaysOf(Fold(Empty(), s).modelDays, k), d, s, OfModelOn(k, d))
    decreases |s|
  {
    hide SumAt, Bump, BumpNested, DaysOf;
    var keep := OfModelOn(k, d);
    if s == [] {
      assert DaysOf(map[], k) == map[] by { NoDays(k); }
      NothingAt(d, keep);
    } else {
      var p, e := s[..|s| - 1], s[|s| - 1];
      assert s == p + [e];
      ModelDayExact(p, k, d);
      FoldSnoc(Empty(), p, e);
      var nested := Fold(Empty(), p).modelDays;
      var m := DaysOf(nested, k);
      NestedStep(nested, k, e);
      if keep(e) {
        SumAtBump(m, d, p, keep, e);
      } else {
        SumAtSkip(m, d, p, keep, e);
        if ModelOf(e) == k { OtherKey(m, e.day, d, One(e), s, keep); }
      }
    }
  }

  lemma NoDays(k: string)
    ensures DaysOf(map[], k) == map[]
  {
  }

  /**
   What every counter means: the totals are the sum over all lines, each day, model, key and
   model day is there exactly when a line belongs to it and holds the sum of those lines.
   */
  lemma AggregationExact(s: seq<IndexEntry>)
    ensures var a := Fold(Empty(), s);
            a.total == SumIf(s, Anything())
            && (forall d :: SumAt(a.days, d, s, OnDay(d)))
            && (forall k :: k != "" ==> RowAt(a.models, k, s, OfModel(k)))
            && (forall k :: k != "" ==> RowAt(a.keys, k, s, OfKey(k)))
            && (forall k, d :: k != "" ==> SumAt(DaysOf(a.modelDays, k), d, s, OfModelOn(k, d)))
  {
    hide SumAt, RowAt, Fold;
    TotalExact(s);
    forall d ensures SumAt(Fold(Empty(), s).days, d, s, OnDay(d)) { DayExact(s, d); }
    forall k | k != "" ensures RowAt(Fold(Empty(), s).models, k, s, OfModel(k)) { RowsExact(s, k); }
    forall k | k != "" ensures RowAt(Fold(Empty(), s).keys, k, s, OfKey(k)) { RowsExact(s, k); }
    forall k, d | k != "" ensures SumAt(DaysOf(Fold(Empty(), s).modelDays, k), d, s, OfModelOn(k, d)) {
      ModelDayExact(s, k, d);
    }
  }

  /** The classes of lines are disjoint, and the decode rate stays plausible. */
  predicate Partitioned(t: Totals) {
    && 0 <= t.errors && 0 <= t.disconnected && t.errors + t.disconnected <= t.requests
    && 0 <= t.clientFaults && 0 <= t.upstreamFaults && 0 <= t.rateLimited
    && t.clientFaults + t.upstreamFaults + t.rateLimited <= t.requests
    && 0 <= t.genTokens && 0 <= t.genMs && 1000 * t.genTokens <= MAX_PLAUSIBLE_DECODE_TPS * t.genMs
  }

  ghost predicate AllPartitioned(a: Agg) {
    && Partitioned(a.total)
    && (forall d :: d in a.days ==> Partitioned(a.days[d]))
    && (forall i :: 0 <= i < |a.mins| ==> Partitioned(a.mins[i].totals))
    && (forall k :: k in a.models ==> Partitioned(a.models[k].totals))
    && (forall k :: k in a.keys ==> Partitioned(a.keys[k].totals))
    && (forall k :: k in a.modelDays ==> forall d :: d in a.modelDays[k] ==> Partitioned(a.modelDays[k][d]))
  }

  lemma OnePartitioned(e: IndexEntry)
    ensures Partitioned(One(e))
  {
  }

  lemma PlusPartitioned(a: Totals, b: Totals)
    requires Partitioned(a) && Partitioned(b)
    ensures Partitioned(Plus(a, b))
  {
  }

  lemma PartitionedStep(a: Agg, e: IndexEntry)
    requires AllPartitioned(a)
    ensures AllPartitioned(Add(a, e))
  {
    OnePartitioned(e);
    PlusPartitioned(ZERO, One(e));
    forall t | Partitioned(t) ensures Partitioned(Plus(t, One(e))) { PlusPartitioned(t, One(e)); }
    hide Partitioned, One, Plus, SlotOf, CellOf;
    assert Partitioned(ZERO) by { ZeroPartitioned(); }
    var b := Add(a, e);
    forall k | k in b.modelDays ensures forall d :: d in b.modelDays[k] ==> Partitioned(b.modelDays[k][d]) {
      forall d | d in b.modelDays[k] ensures Partitioned(b.modelDays[k][d]) {
        if k in a.modelDays && d in a.modelDays[k] { assert Partitioned(a.modelDays[k][d]); }
      }
    }
  }

  lemma ZeroPartitioned()
    ensures Partitioned(ZERO)
  {
  }

  lemma {:induction false} AggregationPartitions(s: seq<IndexEntry>)
    ensures AllPartitioned(Fold(Empty(), s))
    decreases |s|
  {
    if s != [] {
      var p, e := s[..|s| - 1], s[|s| - 1];
      assert s == p + [e];
      AggregationPartitions(p);
      FoldSnoc(Empty(), p, e);
      PartitionedStep(Fold(Empty(), p), e);
    }
  }

  /** Share of requests that neither failed nor left; 0 without requests. */
  function SuccessRate(t: Totals): real {
    if t.requests > 0 then (t.requests - t.errors - t.disconnected) as real / t.requests as real else 0.0
  }

  /** The service-level view: client faults and rate limits leave the denominator. */
  function SlaSuccessRate(t: Totals): real {
    var slable := t.requests - t.clientFaults - t.rateLimited;
    if slable > 0 then (slable - t.upstreamFaults) as real / slable as real else 0.0
  }

  lemma RatioBounds(n: int, d: int)
    requires 0 <= n <= d && d > 0
    ensures 0.0 <= n as real / d as real <= 1.0
  {
  }

  /** Both ratios of every row lie between 0 and 1. */
  lemma RatesInUnitInterval(s: seq<IndexEntry>, k: string)
    requires k in Fold(Empty(), s).models || k in Fold(Empty(), s).keys
    ensures var a := Fold(Empty(), s);
            (k in a.models ==> 0.0 <= SuccessRate(a.models[k].totals) <= 1.0
                               && 0.0 <= SlaSuccessRate(a.models[k].totals) <= 1.0)
            && (k in a.keys ==> 0.0 <= SuccessRate(a.keys[k].totals) <= 1.0
                                && 0.0 <= SlaSuccessRate(a.keys[k].totals) <= 1.0)
  {
    AggregationPartitions(s);
    var a := Fold(Empty(), s);
    if k in a.models { RateBounds(a.models[k].totals); }
    if k in a.keys { RateBounds(a.keys[k].totals); }
  }

  lemma RateBounds(t: Totals)
    requires Partitioned(t)
    ensures 0.0 <= SuccessRate(t) <= 1.0 && 0.0 <= SlaSuccessRate(t) <= 1.0
  {
    if t.requests > 0 { RatioBounds(t.requests - t.errors - t.disconnected, t.requests); }
    var slable := t.requests - t.clientFaults - t.rateLimited;
    if slable > 0 { RatioBounds(slable - t.upstreamFaults, slable); }
  }
}
