/**
 What each counter of usage.rs counts, said of the fields of the index lines: which lines are
 errors, departures, rate limits and faults of either side, and what the ratios made of them are.
 */
module UsageCounters {
  import opened Common
  import opened Usage

  type Pick = IndexEntry -> bool

  /** How many lines of `s` are picked. */
  ghost function Count(s: seq<IndexEntry>, p: Pick): nat {
    if s == [] then 0 else Count(s[..|s| - 1], p) + if p(s[|s| - 1]) then 1 else 0
  }

  /** The amounts a line carries. */
  datatype Amount = Input | Output | CacheRead | CacheWrite | Reasoning | AllTokens | Duration | FirstByte

  function AmountOf(e: IndexEntry, which: Amount): int {
    match which
    case Input => e.input
    case Output => e.output
    case CacheRead => e.cacheRead
    case CacheWrite => e.cacheWrite
    case Reasoning => e.reasoning
    case AllTokens => e.total
    case Duration => e.durationMs
    case FirstByte => if e.firstUpstreamMs.Some? then e.firstUpstreamMs.value else 0
  }

  /** Sum of an amount over the picked lines. */
  ghost function Sum(s: seq<IndexEntry>, p: Pick, which: Amount): int {
    if s == [] then 0
    else Sum(s[..|s| - 1], p, which) + if p(s[|s| - 1]) then AmountOf(s[|s| - 1], which) else 0
  }

  // ---- Classes of lines ------------------------------------------------------------------------------

  /** The client went away or the panel aborted the request. */
  ghost function Departed(keep: Pick): Pick {
    (e: IndexEntry) => keep(e) && (e.result == "disconnected" || e.result == "aborted")
  }

  ghost function Erred(keep: Pick): Pick {
    (e: IndexEntry) => keep(e) && e.result != "disconnected" && e.result != "aborted"
                       && (e.statusCode >= 400 || e.result == "failed")
  }

  ghost function Limited(keep: Pick): Pick {
    (e: IndexEntry) => keep(e) && (e.statusCode == 429 || e.rateLimited)
  }

  /** Not limited, and the client left or its request could not be read. */
  ghost function ClientFault(keep: Pick): Pick {
    (e: IndexEntry) => keep(e) && e.statusCode != 429 && !e.rateLimited
                       && (e.result == "disconnected" || e.result == "aborted"
                           || ((e.statusCode >= 400 || e.result == "failed")
                               && (e.errorStage == "http_read" || e.errorStage == "http_decode")))
  }

  /** Not limited, the client stayed, its request was read, and the answer failed. */
  ghost function UpstreamFault(keep: Pick): Pick {
    (e: IndexEntry) => keep(e) && e.statusCode != 429 && !e.rateLimited
                       && e.result != "disconnected" && e.result != "aborted"
                       && (e.statusCode >= 400 || e.result == "failed")
                       && e.errorStage != "http_read" && e.errorStage != "http_decode"
  }

  /** Streams with output at no more than 400 tokens a second. */
  ghost function Streamed(keep: Pick): Pick {
    (e: IndexEntry) => keep(e) && e.result == "completed" && e.output > 0
                       && e.firstUpstreamMs.Some? && e.durationMs > e.firstUpstreamMs.value
                       && e.output * 1000 <= 400 * (e.durationMs - e.firstUpstreamMs.value)
  }

  ghost function Answered(keep: Pick): Pick {
    (e: IndexEntry) => keep(e) && e.firstUpstreamMs.Some?
  }

  ghost predicate ClassesCounted(t: Totals, s: seq<IndexEntry>, keep: Pick) {
    && t.requests == Count(s, keep)
    && t.errors == Count(s, Erred(keep))
    && t.disconnected == Count(s, Departed(keep))
    && t.rateLimited == Count(s, Limited(keep))
    && t.clientFaults == Count(s, ClientFault(keep))
    && t.upstreamFaults == Count(s, UpstreamFault(keep))
  }

  ghost predicate TokensSummed(t: Totals, s: seq<IndexEntry>, keep: Pick) {
    && t.input == Sum(s, keep, Input)
    && t.output == Sum(s, keep, Output)
    && t.cacheRead == Sum(s, keep, CacheRead)
    && t.cacheWrite == Sum(s, keep, CacheWrite)
    && t.reasoning == Sum(s, keep, Reasoning)
    && t.total == Sum(s, keep, AllTokens)
  }

  /** Output and time of the streams, the time without the wait for the first byte. */
  ghost predicate StreamsSummed(t: Totals, s: seq<IndexEntry>, keep: Pick) {
    && t.genTokens == Sum(s, Streamed(keep), Output)
    && t.genMs == Sum(s, Streamed(keep), Duration) - Sum(s, Streamed(keep), FirstByte)
  }

  // ---- One counter at a time -----------------------------------------------------------------------------

  datatype Class = Any | Error | Departure | Limit | ClientSide | UpstreamSide

  ghost function Members(kind: Class, keep: Pick): Pick {
    match kind
    case Any => keep
    case Error => Erred(keep)
    case Departure => Departed(keep)
    case Limit => Limited(keep)
    case ClientSide => ClientFault(keep)
    case UpstreamSide => UpstreamFault(keep)
  }

  function Counter(t: Totals, kind: Class): int {
    match kind
    case Any => t.requests
    case Error => t.errors
    case Departure => t.disconnected
    case Limit => t.rateLimited
    case ClientSide => t.clientFaults
    case UpstreamSide => t.upstreamFaults
  }

  function Tokens(t: Totals, which: Amount): int {
    match which
    case Input => t.input
    case Output => t.output
    case CacheRead => t.cacheRead
    case CacheWrite => t.cacheWrite
    case Reasoning => t.reasoning
    case AllTokens => t.total
    case _ => 0
  }

  lemma PlusCounter(a: Totals, b: Totals, kind: Class, which: Amount)
    ensures Counter(Plus(a, b), kind) == Counter(a, kind) + Counter(b, kind)
    ensures Tokens(Plus(a, b), which) == Tokens(a, which) + Tokens(b, which)
  {
  }

  lemma ClassOf(e: IndexEntry, keep: Pick, kind: Class)
    ensures Counter(if keep(e) then One(e) else ZERO, kind) == Flag(Members(kind, keep)(e))
  {
  }

  lemma TokensOf(e: IndexEntry, which: Amount)
    requires which != Duration && which != FirstByte
    ensures Tokens(One(e), which) == AmountOf(e, which) && Tokens(ZERO, which) == 0
  {
  }

  /** One more line at the end. */
  lemma SumLast(s: seq<IndexEntry>, p: Pick, which: Amount)
    requires s != []
    ensures Sum(s, p, which)
            == Sum(s[..|s| - 1], p, which) + if p(s[|s| - 1]) then AmountOf(s[|s| - 1], which) else 0
  {
  }

  lemma CountLast(s: seq<IndexEntry>, p: Pick)
    requires s != []
    ensures Count(s, p) == Count(s[..|s| - 1], p) + Flag(p(s[|s| - 1]))
  {
  }

  lemma SumIfLast(s: seq<IndexEntry>, keep: Pick)
    requires s != []
    ensures SumIf(s, keep) == Plus(SumIf(s[..|s| - 1], keep), if keep(s[|s| - 1]) then One(s[|s| - 1]) else ZERO)
  {
  }

  lemma {:induction false} CountClass(s: seq<IndexEntry>, keep: Pick, kind: Class)
    ensures Counter(SumIf(s, keep), kind) == Count(s, Members(kind, keep))
    decreases |s|
  {
    if s != [] {
      var p, e := s[..|s| - 1], s[|s| - 1];
      CountClass(p, keep, kind);
      hide Count, SumIf, One, Plus, Counter, Members, Flag;
      SumIfLast(s, keep);
      CountLast(s, Members(kind, keep));
      ClassOf(e, keep, kind);
      PlusCounter(SumIf(p, keep), if keep(e) then One(e) else ZERO, kind, Input);
    }
  }

  lemma {:induction false} SumToken(s: seq<IndexEntry>, keep: Pick, which: Amount)
    requires which != Duration && which != FirstByte
    ensures Tokens(SumIf(s, keep), which) == Sum(s, keep, which)
    decreases |s|
  {
    if s != [] {
      var p, e := s[..|s| - 1], s[|s| - 1];
      SumToken(p, keep, which);
      hide Sum, SumIf, One, Plus, Tokens, AmountOf;
      SumIfLast(s, keep);
      SumLast(s, keep, which);
      TokensOf(e, which);
      PlusCounter(SumIf(p, keep), if keep(e) then One(e) else ZERO, Any, which);
    }
  }

  lemma CountClasses(s: seq<IndexEntry>, keep: Pick)
    ensures ClassesCounted(SumIf(s, keep), s, keep)
  {
    hide Count, SumIf;
    CountClass(s, keep, Any);
    CountClass(s, keep, Error);
    CountClass(s, keep, Departure);
    CountClass(s, keep, Limit);
    CountClass(s, keep, ClientSide);
    CountClass(s, keep, UpstreamSide);
  }

  lemma SumTokens(s: seq<IndexEntry>, keep: Pick)
    ensures TokensSummed(SumIf(s, keep), s, keep)
  {
    hide Sum, SumIf;
    SumToken(s, keep, Input);
    SumToken(s, keep, Output);
    SumToken(s, keep, CacheRead);
    SumToken(s, keep, CacheWrite);
    SumToken(s, keep, Reasoning);
    SumToken(s, keep, AllTokens);
  }

  lemma {:induction false} SumStreams(s: seq<IndexEntry>, keep: Pick)
    ensures StreamsSummed(SumIf(s, keep), s, keep)
    decreases |s|
  {
    if s != [] {
      SumStreams(s[..|s| - 1], keep);
      hide Sum, SumIf, One, Streamed, AmountOf;
      SumIfLast(s, keep);
      StreamOf(s[|s| - 1], keep);
      SumLast(s, Streamed(keep), Output);
      SumLast(s, Streamed(keep), Duration);
      SumLast(s, Streamed(keep), FirstByte);
    }
  }

  lemma StreamOf(e: IndexEntry, keep: Pick)
    ensures var t := if keep(e) then One(e) else ZERO;
            t.genTokens == (if Streamed(keep)(e) then AmountOf(e, Output) else 0)
            && t.genMs == if Streamed(keep)(e) then AmountOf(e, Duration) - AmountOf(e, FirstByte) else 0
  {
  }

  /** Everything a row of totals counts and sums, over the lines picked for it. */
  ghost predicate CountersAre(t: Totals, s: seq<IndexEntry>, keep: Pick) {
    ClassesCounted(t, s, keep) && TokensSummed(t, s, keep) && StreamsSummed(t, s, keep)
  }

  /** The same with the latency sums of a row. */
  ghost predicate RowCountersAre(r: Row, s: seq<IndexEntry>, keep: Pick) {
    CountersAre(r.totals, s, keep) && r.sumDuration == Sum(s, keep, Duration)
    && r.ttfbSamples == Count(s, Answered(keep)) && r.sumTtfb == Sum(s, keep, FirstByte)
  }

  lemma SumCounts(s: seq<IndexEntry>, keep: Pick)
    ensures CountersAre(SumIf(s, keep), s, keep)
  {
    CountClasses(s, keep);
    SumTokens(s, keep);
    SumStreams(s, keep);
  }

  lemma {:induction false} RowTotals(s: seq<IndexEntry>, keep: Pick)
    ensures RowSumIf(s, keep).totals == SumIf(s, keep)
    ensures var r := RowSumIf(s, keep);
            r.sumDuration == Sum(s, keep, Duration) && r.ttfbSamples == Count(s, Answered(keep))
            && r.sumTtfb == Sum(s, keep, FirstByte)
    decreases |s|
  {
    if s != [] {
      RowTotals(s[..|s| - 1], keep);
      hide Sum, SumIf, One, Plus, AmountOf, RowSumIf, Count, Answered;
      RowSumLast(s, keep);
      SumIfLast(s, keep);
      SumLast(s, keep, Duration);
      SumLast(s, keep, FirstByte);
      CountLast(s, Answered(keep));
      LatencyOf(s[|s| - 1], keep);
    }
  }

  lemma RowSumLast(s: seq<IndexEntry>, keep: Pick)
    requires s != []
    ensures RowSumIf(s, keep)
            == RowPlus(RowSumIf(s[..|s| - 1], keep), if keep(s[|s| - 1]) then OneRow(s[|s| - 1]) else NO_ROW)
  {
  }

  lemma LatencyOf(e: IndexEntry, keep: Pick)
    ensures var r := if keep(e) then OneRow(e) else NO_ROW;
            r.totals == (if keep(e) then One(e) else ZERO) && r.ttfbSamples == Flag(Answered(keep)(e))
            && r.sumDuration == (if keep(e) then AmountOf(e, Duration) else 0)
            && r.sumTtfb == if keep(e) then AmountOf(e, FirstByte) else 0
  {
    hide One;
  }

  lemma RowCounts(s: seq<IndexEntry>, keep: Pick)
    ensures RowCountersAre(RowSumIf(s, keep), s, keep)
  {
    hide CountersAre, RowSumIf, SumIf;
    RowTotals(s, keep);
    SumCounts(s, keep);
  }

  // ---- Main results -------------------------------------------------------------------------------------

  ghost function OfStage(k: string): Pick {
    (e: IndexEntry) => e.errorStage == k
  }

  lemma {:induction false} StageExact(s: seq<IndexEntry>, k: string)
    requires k != ""
    ensures var m := Fold(Empty(), s).errStages;
            (k in m <==> Count(s, OfStage(k)) > 0) && (k in m ==> m[k] == Count(s, OfStage(k))) && "" !in m
    decreases |s|
  {
    if s != [] {
      var p, e := s[..|s| - 1], s[|s| - 1];
      assert s == p + [e];
      StageExact(p, k);
      hide Fold, Count;
      FoldSnoc(Empty(), p, e);
      CountLast(s, OfStage(k));
      StageAdded(Fold(Empty(), p), e);
    }
  }

  lemma StageAdded(a: Agg, e: IndexEntry)
    ensures Add(a, e).errStages == BumpStage(a.errStages, e.errorStage)
  {
  }

  /**
   What the counters count, by the fields of the lines: in the window, on each day, for each
   model, key and model day, errors, departures, rate limits and the faults of client and
   upstream are the numbers of lines of their class, and token, stream and latency sums add
   up their fields. An error stage has the number of its lines.
   */
  lemma CountersExact(s: seq<IndexEntry>)
    ensures var a := Fold(Empty(), s);
            CountersAre(a.total, s, Anything())
            && (forall d :: d in a.days ==> CountersAre(a.days[d], s, OnDay(d)))
            && (forall k :: k != "" && k in a.models ==> RowCountersAre(a.models[k], s, OfModel(k)))
            && (forall k :: k != "" && k in a.keys ==> RowCountersAre(a.keys[k], s, OfKey(k)))
            && (forall k, d :: k != "" && d in DaysOf(a.modelDays, k) ==>
                  CountersAre(DaysOf(a.modelDays, k)[d], s, OfModelOn(k, d)))
    ensures forall k :: k != "" ==>
              var m := Fold(Empty(), s).errStages;
              (k in m <==> Count(s, OfStage(k)) > 0) && (k in m ==> m[k] == Count(s, OfStage(k))) && "" !in m
  {
    hide Fold, CountersAre, RowCountersAre, SumIf, RowSumIf, Count;
    AggregationExact(s);
    var a := Fold(Empty(), s);
    SumCounts(s, Anything());
    forall d | d in a.days ensures CountersAre(a.days[d], s, OnDay(d)) {
      assert SumAt(a.days, d, s, OnDay(d));
      SumCounts(s, OnDay(d));
    }
    forall k | k != "" && k in a.models ensures RowCountersAre(a.models[k], s, OfModel(k)) {
      assert RowAt(a.models, k, s, OfModel(k));
      RowCounts(s, OfModel(k));
    }
    forall k | k != "" && k in a.keys ensures RowCountersAre(a.keys[k], s, OfKey(k)) {
      assert RowAt(a.keys, k, s, OfKey(k));
      RowCounts(s, OfKey(k));
    }
    forall k, d | k != "" && d in DaysOf(a.modelDays, k)
      ensures CountersAre(DaysOf(a.modelDays, k)[d], s, OfModelOn(k, d))
    {
      assert SumAt(DaysOf(a.modelDays, k), d, s, OfModelOn(k, d));
      SumCounts(s, OfModelOn(k, d));
    }
    forall k | k != ""
      ensures var m := a.errStages;
              (k in m <==> Count(s, OfStage(k)) > 0) && (k in m ==> m[k] == Count(s, OfStage(k))) && "" !in m
    {
      StageExact(s, k);
    }
  }

  // ---- Ratios -----------------------------------------------------------------------------------------------

  /** Lines that neither failed nor were left. */
  ghost function Good(keep: Pick): Pick {
    (e: IndexEntry) => keep(e) && e.result != "disconnected" && e.result != "aborted" && e.result != "failed"
                       && e.statusCode < 400
  }

  /** Lines the service answers for: neither limited nor the client's fault. */
  ghost function Owed(keep: Pick): Pick {
    (e: IndexEntry) => keep(e) && !Limited(keep)(e) && !ClientFault(keep)(e)
  }

  /** The owed lines that did not fail. */
  ghost function Kept(keep: Pick): Pick {
    (e: IndexEntry) => Owed(keep)(e) && !UpstreamFault(keep)(e)
  }

  lemma {:induction false} ClassesAddUp(s: seq<IndexEntry>, keep: Pick)
    ensures Count(s, Good(keep)) == Count(s, keep) - Count(s, Erred(keep)) - Count(s, Departed(keep))
    ensures Count(s, Owed(keep)) == Count(s, keep) - Count(s, Limited(keep)) - Count(s, ClientFault(keep))
    ensures Count(s, Kept(keep)) == Count(s, Owed(keep)) - Count(s, UpstreamFault(keep))
    decreases |s|
  {
    if s != [] { ClassesAddUp(s[..|s| - 1], keep); }
  }

  /**
   The success rate of a model or a key is the share of its lines that neither failed nor were
   left; the service-level rate is the share of the lines it answers for that did not fail.
   */
  lemma RatesExact(s: seq<IndexEntry>, k: string)
    requires k != ""
    ensures var a := Fold(Empty(), s);
            (k in a.models ==> RatesAre(a.models[k].totals, s, OfModel(k)))
            && (k in a.keys ==> RatesAre(a.keys[k].totals, s, OfKey(k)))
  {
    hide Fold, Count, RatesAre, CountersAre, RowCountersAre;
    CountersExact(s);
    var a := Fold(Empty(), s);
    if k in a.models { RateOf(a.models[k], s, OfModel(k)); }
    if k in a.keys { RateOf(a.keys[k], s, OfKey(k)); }
  }

  ghost predicate RatesAre(t: Totals, s: seq<IndexEntry>, keep: Pick) {
    && SuccessRate(t) == (if Count(s, keep) == 0 then 0.0 else Count(s, Good(keep)) as real / Count(s, keep) as real)
    && SlaSuccessRate(t)
       == if Count(s, Owed(keep)) == 0 then 0.0 else Count(s, Kept(keep)) as real / Count(s, Owed(keep)) as real
  }

  lemma RateOf(r: Row, s: seq<IndexEntry>, keep: Pick)
    requires RowCountersAre(r, s, keep)
    ensures RatesAre(r.totals, s, keep)
  {
    hide Count;
    ClassesAddUp(s, keep);
  }

  // ---- Slots ----------------------------------------------------------------------------------------------------

  /** A line from 1970 on belongs to the ten minutes it falls in, and the ring spans eight days. */
  lemma SlotSpan(unix: int)
    ensures unix >= 0 ==> SlotOf(unix) * 600 <= unix < SlotOf(unix) * 600 + 600
    ensures unix < 0 ==> SlotOf(unix) * 600 - 600 < unix <= SlotOf(unix) * 600
    ensures MIN_BUCKETS * 600 == 8 * 86400
  {
  }
}
