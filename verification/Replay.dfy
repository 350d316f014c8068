/**
 Startup replay of the index racing with live completions: the steps that run under the
 index lock or the aggregator lock, as a state machine over all interleavings, and the
 object that performs them.
 */
module Replay {
  import opened Common
  import opened IndexLog
  import opened Usage

  // ---- Lines of a snapshot --------------------------------------------------------------

  function TrimEnd(s: bytes): bytes {
    if s != "" && IsSpace(s[|s| - 1]) then TrimEnd(s[..|s| - 1]) else s
  }

  function Trim(s: bytes): bytes {
    TrimEnd(TrimStart(s))
  }

  method TrimAscii(s: bytes) returns (r: bytes)
    ensures r == Trim(s)
  {
    r := s;
    while r != "" && IsSpace(r[0])
      invariant TrimStart(r) == TrimStart(s)
      decreases |r|
    {
      r := r[1..];
    }
    while r != "" && IsSpace(r[|r| - 1])
      invariant TrimEnd(r) == Trim(s)
      decreases |r|
    {
      r := r[..|r| - 1];
    }
  }

  /** The pieces between newlines. */
  function Split(s: bytes): seq<bytes>
    decreases |s|
  {
    var i := IndexOf(s, '\n');
    if i < |s| then [s[..i]] + Split(s[i + 1..]) else [s]
  }

  /** How an entry becomes an index line and back; both are library code of the program. */
  datatype Codec = Codec(encode: IndexEntry -> bytes, parse: bytes -> Option<IndexEntry>)

  /** An encoded entry is one line and parses back to itself. */
  ghost predicate Faithful(c: Codec) {
    forall e: IndexEntry :: OneLine(c.encode(e)) && Trim(c.encode(e)) != "" && c.parse(Trim(c.encode(e))) == Some(e)
  }

  /** The entry of one piece, if it has one. */
  function LineEntry(c: Codec, line: bytes): Option<IndexEntry> {
    if Trim(line) == "" then None else c.parse(Trim(line))
  }

  function Parsed(c: Codec, lines: seq<bytes>): seq<IndexEntry> {
    if lines == [] then []
    else
      match LineEntry(c, lines[0])
      case Some(e) => [e] + Parsed(c, lines[1..])
      case None => Parsed(c, lines[1..])
  }

  function Encoded(c: Codec, es: seq<IndexEntry>): (r: seq<bytes>)
    ensures |r| == |es|
  {
    if es == [] then [] else [c.encode(es[0])] + Encoded(c, es[1..])
  }

  lemma {:induction false} EncodedSplit(c: Codec, a: seq<IndexEntry>, b: seq<IndexEntry>)
    ensures Encoded(c, a + b) == Encoded(c, a) + Encoded(c, b)
    decreases |a|
  {
    if a == [] {
      assert a + b == b;
    } else {
      EncodedSplit(c, a[1..], b);
      assert (a + b)[1..] == a[1..] + b;
    }
  }

  lemma {:induction false} EncodedSuffix(c: Codec, a: seq<IndexEntry>, k: nat)
    requires k <= |a|
    ensures Encoded(c, a)[k..] == Encoded(c, a[k..])
  {
    EncodedSplit(c, a[..k], a[k..]);
    assert a == a[..k] + a[k..];
  }

  lemma {:induction false} EncodedOneLines(c: Codec, es: seq<IndexEntry>)
    requires Faithful(c)
    ensures OneLines(Encoded(c, es))
  {
    if es != [] { EncodedOneLines(c, es[1..]); }
  }

  lemma {:induction false} SplitJoined(ls: seq<bytes>)
    requires OneLines(ls)
    ensures Split(Joined(ls)) == ls + [""]
  {
    hide IndexOf;
    if ls != [] {
      var s, rest := Joined(ls), Joined(ls[1..]);
      DropFirstLine(s, ls[0], rest);
      SplitJoined(ls[1..]);
      hide Joined;
      assert s[..|ls[0]|] == ls[0];
      assert [ls[0]] + (ls[1..] + [""]) == ls + [""];
    }
  }

  lemma {:induction false} ParsedEncoded(c: Codec, es: seq<IndexEntry>)
    requires Faithful(c)
    ensures Parsed(c, Encoded(c, es) + [""]) == es
  {
    if es == [] {
      assert Encoded(c, es) + [""] == [""];
    } else {
      ParsedEncoded(c, es[1..]);
      var ls := Encoded(c, es) + [""];
      assert ls[0] == c.encode(es[0]) && ls[1..] == Encoded(c, es[1..]) + [""];
    }
  }

  /** Replaying the text of some entries yields exactly those entries. */
  lemma ReplayRoundTrip(c: Codec, es: seq<IndexEntry>)
    requires Faithful(c)
    ensures Parsed(c, Split(Joined(Encoded(c, es)))) == es
  {
    EncodedOneLines(c, es);
    SplitJoined(Encoded(c, es));
    ParsedEncoded(c, es);
  }

  // ---- The protocol ------------------------------------------------------------------------

  /** How startup replay ended. */
  datatype Outcome = Fed | Missing | Failed

  datatype Phase = Start | Retry | Feeding(lines: seq<bytes>) | Done(outcome: Outcome)

  /**
   `gate` is the flag that makes appends count. The last two fields are history: the entries
   appended since the process started, and how many of them preceded the boundary.
   */
  datatype State = State(
    file: Option<bytes>,
    gate: bool,
    phase: Phase,
    counted: seq<IndexEntry>,
    appended: seq<IndexEntry>,
    boundary: nat)

  /** One critical section of one thread. */
  datatype Step =
    | Append(e: IndexEntry)
    | ReadOk
    | ReadMissing
    | ReadFails
    | RetryOk
    | RetryFails
    | FeedOne
    | Finish

  function Init(found: Option<bytes>): State {
    State(found, false, Start, [], [], 0)
  }

  predicate Enabled(s: State, step: Step) {
    match step
    case Append(_) => true
    case ReadOk => s.phase.Start? && s.file.Some?
    case ReadMissing => s.phase.Start? && s.file.None?
    case ReadFails => s.phase.Start?
    case RetryOk => s.phase.Retry? && s.file.Some?
    case RetryFails => s.phase.Retry?
    case FeedOne => s.phase.Feeding? && s.phase.lines != []
    case Finish => s.phase.Feeding? && s.phase.lines == []
  }

  function Content(file: Option<bytes>): bytes {
    if file.Some? then file.value else ""
  }

  /** Opening the gate draws the boundary. */
  function Open(s: State, phase: Phase): State {
    s.(gate := true, phase := phase, boundary := |s.appended|)
  }

  function Apply(c: Codec, cap: nat, s: State, step: Step): State
    requires Enabled(s, step)
  {
    match step
    case Append(e) =>
      s.(file := Some(Appended(cap, Content(s.file), c.encode(e))),
         appended := s.appended + [e],
         counted := if s.gate then s.counted + [e] else s.counted)
    case ReadOk => Open(s, Feeding(Split(Tail(s.file.value, REPLAY_WINDOW))))
    case ReadMissing => Open(s, Done(Missing))
    case ReadFails => s.(phase := Retry)
    case RetryOk => Open(s, Feeding(Split(Tail(s.file.value, REPLAY_WINDOW))))
    case RetryFails => Open(s, Done(Failed))
    case FeedOne =>
      var e := LineEntry(c, s.phase.lines[0]);
      s.(phase := Feeding(s.phase.lines[1..]),
         counted := if e.Some? then s.counted + [e.value] else s.counted)
    case Finish => s.(phase := Done(Fed))
  }

  predicate Feasible(c: Codec, cap: nat, s: State, steps: seq<Step>)
    decreases |steps|
  {
    steps == [] || (Enabled(s, steps[0]) && Feasible(c, cap, Apply(c, cap, s, steps[0]), steps[1..]))
  }

  function Run(c: Codec, cap: nat, s: State, steps: seq<Step>): State
    requires Feasible(c, cap, s, steps)
    decreases |steps|
  {
    if steps == [] then s else Run(c, cap, Apply(c, cap, s, steps[0]), steps[1..])
  }

  // ---- The invariant ------------------------------------------------------------------------

  /** The file's content when the entries `es` have been appended to what was found. */
  ghost function FileAfter(c: Codec, cap: nat, found: Option<bytes>, es: seq<IndexEntry>): bytes {
    AppendAll(cap, Content(found), Encoded(c, es))
  }

  /** The entries in the file when the boundary was drawn. */
  ghost function Snapshot(c: Codec, cap: nat, found: Option<bytes>, s: State): seq<IndexEntry>
    requires s.boundary <= |s.appended|
  {
    Parsed(c, Split(Tail(FileAfter(c, cap, found, s.appended[..s.boundary]), REPLAY_WINDOW)))
  }

  ghost function Late(s: State): seq<IndexEntry>
    requires s.boundary <= |s.appended|
  {
    s.appended[s.boundary..]
  }

  /** What replay still has to add. */
  ghost function Pending(c: Codec, cap: nat, found: Option<bytes>, s: State): seq<IndexEntry>
    requires s.boundary <= |s.appended|
  {
    match s.phase
    case Feeding(lines) => Parsed(c, lines)
    case Done(Failed) => Snapshot(c, cap, found, s)
    case _ => []
  }

  ghost predicate Inv(c: Codec, cap: nat, found: Option<bytes>, s: State) {
    && s.boundary <= |s.appended|
    && Content(s.file) == FileAfter(c, cap, found, s.appended)
    && (s.file.None? ==> found.None? && s.appended == [])
    && (s.gate <==> !(s.phase.Start? || s.phase.Retry?))
    && (!s.gate ==> s.counted == [])
    && (s.gate ==>
          multiset(s.counted) + multiset(Pending(c, cap, found, s))
          == multiset(Snapshot(c, cap, found, s)) + multiset(Late(s)))
  }

  lemma {:induction false} ParsedNone(c: Codec)
    ensures Parsed(c, Split("")) == []
  {
    assert Split("") == [""];
    assert Parsed(c, [""]) == Parsed(c, [""][1..]);
  }

  lemma InitInv(c: Codec, cap: nat, found: Option<bytes>)
    ensures Inv(c, cap, found, Init(found))
  {
  }

  lemma AppendFile(c: Codec, cap: nat, found: Option<bytes>, es: seq<IndexEntry>, e: IndexEntry)
    ensures FileAfter(c, cap, found, es + [e]) == Appended(cap, FileAfter(c, cap, found, es), c.encode(e))
  {
    hide Appended;
    EncodedSplit(c, es, [e]);
    assert Encoded(c, [e][1..]) == [];
    var ls := Encoded(c, es + [e]);
    assert ls[..|ls| - 1] == Encoded(c, es);
  }

  lemma BothGrow(a: multiset<IndexEntry>, b: multiset<IndexEntry>, x: multiset<IndexEntry>, y: multiset<IndexEntry>,
                 d: multiset<IndexEntry>)
    requires a + b == x + y
    ensures (a + d) + b == x + (y + d)
  {
    calc {
      (a + d) + b;
      (a + b) + d;
      (x + y) + d;
      x + (y + d);
    }
  }

  lemma AppendInv(c: Codec, cap: nat, found: Option<bytes>, s: State, e: IndexEntry)
    requires Inv(c, cap, found, s)
    ensures Inv(c, cap, found, Apply(c, cap, s, Append(e)))
  {
    hide FileAfter, Parsed, Split, Tail, Appended;
    AppendFile(c, cap, found, s.appended, e);
    var t := Apply(c, cap, s, Append(e));
    assert t.appended[..t.boundary] == s.appended[..s.boundary];
    assert Late(t) == Late(s) + [e];
    assert Pending(c, cap, found, t) == Pending(c, cap, found, s);
    if s.gate {
      BothGrow(multiset(s.counted), multiset(Pending(c, cap, found, s)),
               multiset(Snapshot(c, cap, found, s)), multiset(Late(s)), multiset{e});
    }
  }

  lemma OpenInv(c: Codec, cap: nat, found: Option<bytes>, s: State, phase: Phase)
    requires Inv(c, cap, found, s) && !s.gate
    requires phase == Done(Failed) || (phase == Done(Missing) && s.file.None?)
             || (s.file.Some? && phase == Feeding(Split(Tail(s.file.value, REPLAY_WINDOW))))
    ensures Inv(c, cap, found, Open(s, phase))
  {
    hide FileAfter, Parsed, Split;
    var t := Open(s, phase);
    assert t.appended[..t.boundary] == s.appended;
    assert Late(t) == [];
    if phase == Done(Missing) { ParsedNone(c); }
  }

  lemma FeedInv(c: Codec, cap: nat, found: Option<bytes>, s: State)
    requires Inv(c, cap, found, s) && Enabled(s, FeedOne)
    ensures Inv(c, cap, found, Apply(c, cap, s, FeedOne))
  {
    hide FileAfter, Split, Tail, LineEntry;
    var t := Apply(c, cap, s, FeedOne);
    assert Snapshot(c, cap, found, t) == Snapshot(c, cap, found, s) && Late(t) == Late(s);
  }

  lemma StepInv(c: Codec, cap: nat, found: Option<bytes>, s: State, step: Step)
    requires Inv(c, cap, found, s) && Enabled(s, step)
    ensures Inv(c, cap, found, Apply(c, cap, s, step))
  {
    match step {
      case Append(e) => AppendInv(c, cap, found, s, e);
      case ReadOk => OpenInv(c, cap, found, s, Feeding(Split(Tail(s.file.value, REPLAY_WINDOW))));
      case ReadMissing => OpenInv(c, cap, found, s, Done(Missing));
      case ReadFails =>
      case RetryOk => OpenInv(c, cap, found, s, Feeding(Split(Tail(s.file.value, REPLAY_WINDOW))));
      case RetryFails => OpenInv(c, cap, found, s, Done(Failed));
      case FeedOne => FeedInv(c, cap, found, s);
      case Finish =>
    }
  }

  /** The invariant holds in every reachable state of every interleaving. */
  lemma {:induction false} RunInv(c: Codec, cap: nat, found: Option<bytes>, s: State, steps: seq<Step>)
    requires Inv(c, cap, found, s) && Feasible(c, cap, s, steps)
    ensures Inv(c, cap, found, Run(c, cap, s, steps))
    decreases |steps|
  {
    if steps != [] {
      StepInv(c, cap, found, s, steps[0]);
      hide Inv, Apply;
      RunInv(c, cap, found, Apply(c, cap, s, steps[0]), steps[1..]);
    }
  }

  // ---- Main results --------------------------------------------------------------------------

  lemma Settled(c: Codec, cap: nat, found: Option<bytes>, s: State)
    requires Inv(c, cap, found, s) && s.phase.Done?
    ensures multiset(s.counted) == multiset(Snapshot(c, cap, found, s) + Late(s))
            <==> s.phase.outcome != Failed || Snapshot(c, cap, found, s) == []
  {
    hide FileAfter, Parsed, Split, Tail;
    var snap, late := Snapshot(c, cap, found, s), Late(s);
    assert multiset(snap + late) == multiset(snap) + multiset(late);
    if s.phase.outcome == Failed {
      assert |multiset(s.counted)| + |snap| == |snap| + |late|;
      assert |multiset(snap + late)| == |snap| + |late|;
    }
  }

  /**
   Once replay is over, the aggregator holds each line of the snapshot and each later line
   exactly once, unless both reads of a non-empty index failed.
   */
  lemma ExactlyOnce(c: Codec, cap: nat, found: Option<bytes>, steps: seq<Step>)
    requires Feasible(c, cap, Init(found), steps)
    requires Run(c, cap, Init(found), steps).phase.Done?
    ensures var s := Run(c, cap, Init(found), steps);
            s.boundary <= |s.appended|
            && (multiset(s.counted) == multiset(Snapshot(c, cap, found, s) + Late(s))
                <==> s.phase.outcome != Failed || Snapshot(c, cap, found, s) == [])
            && (s.phase.outcome != Failed ==>
                  Fold(Empty(), s.counted) == Fold(Empty(), Snapshot(c, cap, found, s) + Late(s)))
  {
    InitInv(c, cap, found);
    RunInv(c, cap, found, Init(found), steps);
    var s := Run(c, cap, Init(found), steps);
    Settled(c, cap, found, s);
    if s.phase.outcome != Failed {
      hide *;
      FoldPermutation(Empty(), s.counted, Snapshot(c, cap, found, s) + Late(s));
    }
  }

  lemma {:induction false} AppendAllFits(cap: nat, content: bytes, ls: seq<bytes>)
    requires |content + Joined(ls)| <= cap
    ensures AppendAll(cap, content, ls) == content + Joined(ls)
    decreases |ls|
  {
    hide Truncated;
    if ls != [] {
      var p, l := ls[..|ls| - 1], ls[|ls| - 1];
      assert ls == p + [l];
      JoinedAppend(p, [l]);
      JoinedOne(l);
      AppendAllFits(cap, content, p);
    }
  }

  /** The file found at startup is the encoding of the entries `old`. */
  ghost predicate FoundEntries(c: Codec, found: Option<bytes>, old': seq<IndexEntry>) {
    Content(found) == Joined(Encoded(c, old')) && |Content(found)| <= REPLAY_WINDOW
  }

  /**
   The snapshot is a run of the newest entries before the boundary: all of them if they fit the
   cap, and otherwise so many that one entry more would fill half the cap.
   */
  lemma SnapshotIsNewest(c: Codec, cap: nat, found: Option<bytes>, old': seq<IndexEntry>, pre: seq<IndexEntry>)
    returns (k: nat)
    requires Faithful(c) && FoundEntries(c, found, old') && cap <= REPLAY_WINDOW
    ensures k <= |old' + pre|
    ensures Parsed(c, Split(Tail(FileAfter(c, cap, found, pre), REPLAY_WINDOW))) == (old' + pre)[k..]
    ensures |Joined(Encoded(c, old' + pre))| <= cap ==> k == 0
    ensures k == 0 || |Joined(Encoded(c, (old' + pre)[k - 1..]))| >= cap / 2
  {
    var all := old' + pre;
    EncodedOneLines(c, old');
    EncodedOneLines(c, pre);
    EncodedSplit(c, old', pre);
    WindowCoversFile(cap, Content(found), Encoded(c, pre));
    if |Joined(Encoded(c, all))| <= cap {
      k := 0;
      JoinedAppend(Encoded(c, old'), Encoded(c, pre));
      AppendAllFits(cap, Content(found), Encoded(c, pre));
    } else {
      k := RunKeepsLines(cap, Encoded(c, old'), Encoded(c, pre));
      EncodedSuffix(c, all, k);
      if k > 0 { EncodedSuffix(c, all, k - 1); }
    }
    assert all[0..] == all;
    ReplayRoundTrip(c, all[k..]);
  }

  /**
   When a read succeeded (or there was no index yet) and the lines before the boundary fit
   the cap, the aggregator equals one sequential fold over every entry ever logged.
   */
  lemma WholeHistoryOnce(c: Codec, cap: nat, found: Option<bytes>, old': seq<IndexEntry>, steps: seq<Step>)
    requires Faithful(c) && FoundEntries(c, found, old') && cap <= REPLAY_WINDOW
    requires Feasible(c, cap, Init(found), steps)
    requires var s := Run(c, cap, Init(found), steps);
             s.phase.Done? && s.phase.outcome != Failed && s.boundary <= |s.appended|
             && |Joined(Encoded(c, old' + s.appended[..s.boundary]))| <= cap
    ensures var s := Run(c, cap, Init(found), steps); Fold(Empty(), s.counted) == Fold(Empty(), old' + s.appended)
  {
    hide FileAfter, Parsed, Split, Tail, Fold, Add, Run, Feasible, Joined, Encoded, Empty, Faithful, FoundEntries,
        Apply, Init;
    var s := Run(c, cap, Init(found), steps);
    ExactlyOnce(c, cap, found, steps);
    var pre := s.appended[..s.boundary];
    var k := SnapshotIsNewest(c, cap, found, old', pre);
    assert Snapshot(c, cap, found, s) == (old' + pre)[0..];
    assert Late(s) == s.appended[s.boundary..];
    hide *;
    assert (old' + pre)[0..] + Late(s) == old' + s.appended;
  }

  /** Two failed reads with a non-empty index lose its lines: the flag is set all the same. */
  lemma FailedRetryLosesLines(c: Codec, cap: nat, e: IndexEntry)
    requires Faithful(c) && |c.encode(e)| + 1 <= cap <= REPLAY_WINDOW
    ensures var steps := [ReadFails, RetryFails]; var found := Some(Joined(Encoded(c, [e])));
            Feasible(c, cap, Init(found), steps) && Run(c, cap, Init(found), steps).phase == Done(Failed)
            && Run(c, cap, Init(found), steps).counted == []
            && Snapshot(c, cap, found, Run(c, cap, Init(found), steps)) == [e]
  {
    ReplayRoundTrip(c, [e]);
    JoinedOne(c.encode(e));
    var found := Some(Joined(Encoded(c, [e])));
    var s := Apply(c, cap, Init(found), ReadFails);
    assert [ReadFails, RetryFails][1..] == [RetryFails] && [RetryFails][1..] == [];
    assert Feasible(c, cap, s, [RetryFails]);
  }

  // ---- The object ------------------------------------------------------------------------------

  /** The manager's state behind the index lock, with its aggregator. */
  class UsageLog {
    const codec: Codec
    const index: IndexFile
    const usage: UsageAggregator
    var snapshotted: bool
    var phase: Phase
    ghost var appended: seq<IndexEntry>
    ghost var boundary: nat

    ghost predicate Valid()
      reads this, index, usage, usage.mins
    {
      index.Valid() && usage.Valid()
    }

    ghost function Now(): State
      reads this, index, usage
    {
      State(index.file, snapshotted, phase, usage.history, appended, boundary)
    }

    constructor (codec: Codec, cap: nat, found: Option<bytes>)
      ensures Valid() && this.codec == codec && index.cap == cap && Now() == Init(found)
      ensures fresh(index) && fresh(usage) && fresh(usage.mins)
    {
      this.codec := codec;
      index := new IndexFile(cap, found);
      usage := new UsageAggregator();
      snapshotted, phase, appended, boundary := false, Start, [], 0;
    }

    /** `append_index` under the index lock: write the line, then count it if the gate is open. */
    method AppendIndex(e: IndexEntry)
      requires Valid()
      modifies this, index, usage, usage.mins
      ensures Valid() && usage.mins == old(usage.mins)
      ensures Now() == Apply(codec, index.cap, old(Now()), Append(e))
    {
      hide Appended, Add, Fold;
      index.Append(codec.encode(e));
      if snapshotted {
        usage.AddEntry(e);
      }
      appended := appended + [e];
    }

    /** The first locked read; `transient` stands for a read error other than a missing file. */
    method ReadSnapshot(transient: bool)
      requires Valid() && phase.Start?
      modifies this
      ensures Valid()
      ensures Now() == Apply(codec, index.cap, old(Now()),
                             if transient then ReadFails else if index.file.Some? then ReadOk else ReadMissing)
    {
      if transient {
        phase := Retry;
      } else if index.file.None? {
        snapshotted, phase, boundary := true, Done(Missing), |appended|;
      } else {
        var data := TailRead(index.file.value, REPLAY_WINDOW);
        var lines := SplitLines(data);
        snapshotted, phase, boundary := true, Feeding(lines), |appended|;
      }
    }

    /** The one retry: the gate opens whether or not the read succeeds. */
    method RetrySnapshot(transient: bool)
      requires Valid() && phase.Retry?
      modifies this
      ensures Valid()
      ensures Now() == Apply(codec, index.cap, old(Now()),
                             if transient || index.file.None? then RetryFails else RetryOk)
    {
      if transient || index.file.None? {
        phase := Done(Failed);
      } else {
        var data := TailRead(index.file.value, REPLAY_WINDOW);
        var lines := SplitLines(data);
        phase := Feeding(lines);
      }
      snapshotted, boundary := true, |appended|;
    }

    /** One turn of `replay_lines`. */
    method ReplayLine()
      requires Valid() && phase.Feeding? && phase.lines != []
      modifies this, usage, usage.mins
      ensures Valid() && usage.mins == old(usage.mins)
      ensures Now() == Apply(codec, index.cap, old(Now()), FeedOne)
    {
      hide Add, Fold, Split, Trim;
      var line := TrimAscii(phase.lines[0]);
      if line != "" {
        var entry := codec.parse(line);
        if entry.Some? {
          usage.AddEntry(entry.value);
        }
      }
      phase := Feeding(phase.lines[1..]);
    }
  }

  method SplitLines(data: bytes) returns (lines: seq<bytes>)
    ensures lines == Split(data)
  {
    hide IndexOf;
    lines := [];
    var rest := data;
    var i := FindNewline(rest);
    while i < |rest|
      invariant i == IndexOf(rest, '\n')
      invariant lines + Split(rest) == Split(data)
      decreases |rest|
    {
      lines := lines + [rest[..i]];
      rest := rest[i + 1..];
      i := FindNewline(rest);
    }
    lines := lines + [rest];
  }
}
