/**
 The per-request write queues of debuglog.rs: bounded channels with one worker each, the
 flush barrier, and the completion that drains a queue before it writes the final meta
 file and the index line. The steps of all threads form one state machine.
 */
module WriteQueue {
  import opened Common

  /** Capacity of one request's channel. */
  const QUEUE_DEPTH: nat := 4096

  /** A queued write, or the barrier of a flush call. */
  datatype Task = Write(id: nat) | Barrier(flush: nat)

  /** Where `complete` is: draining, meta written, index line written, directory released. */
  datatype Stage = Running | Draining | MetaWritten | Indexed | Released

  /** A flush call: `mark` tasks were accepted when it began, its barrier is number `pos`. */
  datatype Wait = Wait(mark: nat, pos: nat)

  /**
   One recorder. `tx` is its own sender; each entry of `cloned` and `waiting` is a flush
   call that holds a clone of it. `accepted` and `executed` are histories.
   */
  datatype Rec = Rec(
    closed: bool,
    tx: bool,
    queue: seq<Task>,
    current: Option<Task>,
    workerDone: bool,
    dropped: nat,
    stage: Stage,
    cloned: map<nat, nat>,
    waiting: map<nat, Wait>,
    returned: map<nat, Wait>,
    accepted: seq<Task>,
    executed: seq<Task>)

  const NEW_REC: Rec := Rec(false, true, [], None, false, 0, Running, map[], map[], map[], [], [])

  datatype State = State(
    recs: seq<Rec>,
    droppedTotal: nat,
    index: seq<nat>,
    active: set<nat>)

  datatype Act =
    | Enqueue(id: nat)
    | FlushStart(f: nat)
    | FlushSend(f: nat)
    | FlushReturn(f: nat)
    | Recv
    | Exec
    | WorkerExit
    | CompleteCall
    | WriteMeta
    | AppendIndex
    | ReleaseDir

  datatype Step = StartRecorder | On(r: nat, act: Act)

  /** A flush call is used once. */
  predicate FreshFlush(r: Rec, f: nat) {
    f !in r.cloned && f !in r.waiting && f !in r.returned
  }

  predicate ActEnabled(r: Rec, act: Act) {
    match act
    case Enqueue(_) => true
    case FlushStart(f) => FreshFlush(r, f)
    case FlushSend(f) => f in r.cloned && |r.queue| < QUEUE_DEPTH
    case FlushReturn(f) => f in r.waiting && Barrier(f) in r.executed
    case Recv => !r.workerDone && r.current.None? && r.queue != []
    case Exec => !r.workerDone && r.current.Some?
    case WorkerExit =>
      // The channel reports its end once it is empty and every sender is gone.
      !r.workerDone && r.current.None? && r.queue == [] && !r.tx && r.cloned == map[] && r.waiting == map[]
    case CompleteCall => true
    case WriteMeta => r.stage == Draining && r.workerDone
    case AppendIndex => r.stage == MetaWritten
    case ReleaseDir => r.stage == Indexed
  }

  function Accept(r: Rec, t: Task): Rec {
    r.(queue := r.queue + [t], accepted := r.accepted + [t])
  }

  function ActRec(r: Rec, act: Act): Rec
    requires ActEnabled(r, act)
  {
    match act
    case Enqueue(id) =>
      if r.closed then r.(dropped := r.dropped + 1)
      else if !r.tx then r
      else if |r.queue| < QUEUE_DEPTH then Accept(r, Write(id))
      else r.(dropped := r.dropped + 1)
    case FlushStart(f) =>
      if r.closed then r else r.(cloned := r.cloned[f := |r.accepted|])
    case FlushSend(f) =>
      Accept(r, Barrier(f)).(cloned := r.cloned - {f}, waiting := r.waiting[f := Wait(r.cloned[f], |r.accepted|)])
    case FlushReturn(f) =>
      r.(waiting := r.waiting - {f}, returned := r.returned[f := r.waiting[f]])
    case Recv => r.(queue := r.queue[1..], current := Some(r.queue[0]))
    case Exec => r.(current := None, executed := r.executed + [r.current.value])
    case WorkerExit => r.(workerDone := true)
    case CompleteCall => if r.closed then r else r.(closed := true, tx := false, stage := Draining)
    case WriteMeta => r.(stage := MetaWritten)
    case AppendIndex => r.(stage := Indexed)
    case ReleaseDir => r.(stage := Released)
  }

  predicate Enabled(s: State, step: Step) {
    match step
    case StartRecorder => true
    case On(r, act) => r < |s.recs| && ActEnabled(s.recs[r], act)
  }

  /** What the manager's total gains: late drops one by one, earlier ones when the recorder closes. */
  function TotalGain(r: Rec, act: Act): nat {
    match act
    case Enqueue(_) => if r.closed then 1 else 0
    case CompleteCall => if r.closed then 0 else r.dropped
    case _ => 0
  }

  function Apply(s: State, step: Step): State
    requires Enabled(s, step)
  {
    match step
    case StartRecorder => s.(recs := s.recs + [NEW_REC], active := s.active + {|s.recs|})
    case On(r, act) =>
      State(s.recs[r := ActRec(s.recs[r], act)],
            s.droppedTotal + TotalGain(s.recs[r], act),
            if act.AppendIndex? then s.index + [r] else s.index,
            if act.ReleaseDir? then s.active - {r} else s.active)
  }

  const INIT: State := State([], 0, [], {})

  predicate Feasible(s: State, steps: seq<Step>)
    decreases |steps|
  {
    steps == [] || (Enabled(s, steps[0]) && Feasible(Apply(s, steps[0]), steps[1..]))
  }

  function Run(s: State, steps: seq<Step>): State
    requires Feasible(s, steps)
    decreases |steps|
  {
    if steps == [] then s else Run(Apply(s, steps[0]), steps[1..])
  }

  // ---- One recorder ------------------------------------------------------------------------

  function InHand(r: Rec): seq<Task> {
    if r.current.Some? then [r.current.value] else []
  }

  /** Nothing can be sent any more. */
  predicate SendersGone(r: Rec) {
    !r.tx && r.cloned == map[] && r.waiting == map[]
  }

  ghost predicate FlushesTracked(r: Rec) {
    && (forall f :: f in r.cloned ==> r.cloned[f] <= |r.accepted|)
    && (forall f :: f in r.waiting ==> f !in r.cloned && f !in r.returned && Tracked(r, f, r.waiting[f]))
    && (forall f :: f in r.returned ==> f !in r.cloned && Tracked(r, f, r.returned[f])
                                        && r.returned[f].pos < |r.executed|)
    && (forall k :: 0 <= k < |r.accepted| && r.accepted[k].Barrier? ==> BarrierKnown(r, k))
  }

  predicate Tracked(r: Rec, f: nat, w: Wait) {
    w.mark <= w.pos < |r.accepted| && r.accepted[w.pos] == Barrier(f)
  }

  predicate BarrierKnown(r: Rec, k: nat)
    requires k < |r.accepted| && r.accepted[k].Barrier?
  {
    var f := r.accepted[k].flush;
    (f in r.waiting && r.waiting[f].pos == k) || (f in r.returned && r.returned[f].pos == k)
  }

  ghost predicate RecInv(r: Rec) {
    && r.accepted == r.executed + InHand(r) + r.queue
    && |r.queue| <= QUEUE_DEPTH
    && (r.closed <==> !r.tx) && (r.closed <==> r.stage != Running)
    && (r.workerDone ==> SendersGone(r) && r.current.None? && r.queue == [])
    && (r.stage.MetaWritten? || r.stage.Indexed? || r.stage.Released? ==> r.workerDone)
    && FlushesTracked(r)
  }

  lemma QueueStep(r: Rec, act: Act)
    requires RecInv(r) && ActEnabled(r, act)
    ensures var q := ActRec(r, act); q.accepted == q.executed + InHand(q) + q.queue
  {
    hide FlushesTracked;
    var q := ActRec(r, act);
    if act.Recv? {
      assert [r.queue[0]] + r.queue[1..] == r.queue;
      assert r.executed + [] + r.queue == r.executed + [r.queue[0]] + r.queue[1..];
    } else if q.accepted != r.accepted {
      var t := q.accepted[|r.accepted|];
      assert r.executed + InHand(r) + (r.queue + [t]) == r.executed + InHand(r) + r.queue + [t];
    }
  }

  /** Steps that neither send a barrier nor end a flush call. */
  lemma FlushKept(r: Rec, q: Rec)
    requires FlushesTracked(r)
    requires r.accepted <= q.accepted && |r.executed| <= |q.executed|
    requires forall k :: |r.accepted| <= k < |q.accepted| ==> !q.accepted[k].Barrier?
    requires q.waiting == r.waiting && q.returned == r.returned
    requires forall f :: f in q.cloned ==> q.cloned[f] <= |r.accepted|
    requires forall f :: f in q.cloned ==> f !in r.waiting && f !in r.returned
    ensures FlushesTracked(q)
  {
    forall k | 0 <= k < |q.accepted| && q.accepted[k].Barrier? ensures BarrierKnown(q, k) {
      assert q.accepted[k] == r.accepted[k];
      assert BarrierKnown(r, k);
    }
    forall g | g in q.returned ensures Tracked(q, g, q.returned[g]) { assert Tracked(r, g, r.returned[g]); }
    forall g | g in q.waiting ensures Tracked(q, g, q.waiting[g]) { assert Tracked(r, g, r.waiting[g]); }
  }

  lemma SendTracked(r: Rec, f: nat)
    requires FlushesTracked(r) && ActEnabled(r, FlushSend(f))
    ensures FlushesTracked(ActRec(r, FlushSend(f)))
  {
    var q := ActRec(r, FlushSend(f));
    assert f !in r.waiting && f !in r.returned;
    forall k | 0 <= k < |q.accepted| && q.accepted[k].Barrier? ensures BarrierKnown(q, k) {
      if k < |r.accepted| {
        assert q.accepted[k] == r.accepted[k];
        assert BarrierKnown(r, k);
      }
    }
    forall g | g in q.waiting ensures Tracked(q, g, q.waiting[g]) {
      if g != f { assert Tracked(r, g, r.waiting[g]); }
    }
    forall g | g in q.returned ensures Tracked(q, g, q.returned[g]) { assert Tracked(r, g, r.returned[g]); }
  }

  lemma ReturnKept(r: Rec, q: Rec, f: nat)
    requires FlushesTracked(r) && f in r.waiting && f !in r.returned && f !in r.cloned
    requires r.waiting[f].pos < |r.executed|
    requires q.waiting == r.waiting - {f} && q.returned == r.returned[f := r.waiting[f]]
    requires q.accepted == r.accepted && q.executed == r.executed && q.cloned == r.cloned
    ensures FlushesTracked(q)
  {
    forall k | 0 <= k < |q.accepted| && q.accepted[k].Barrier? ensures BarrierKnown(q, k) {
      assert BarrierKnown(r, k);
    }
    forall g | g in q.returned ensures Tracked(q, g, q.returned[g]) {
      if g != f { assert Tracked(r, g, r.returned[g]); } else { assert Tracked(r, f, r.waiting[f]); }
    }
    forall g | g in q.waiting ensures Tracked(q, g, q.waiting[g]) { assert Tracked(r, g, r.waiting[g]); }
  }

  lemma ReturnTracked(r: Rec, f: nat)
    requires RecInv(r) && ActEnabled(r, FlushReturn(f))
    ensures FlushesTracked(ActRec(r, FlushReturn(f)))
  {
    var q := ActRec(r, FlushReturn(f));
    var i :| 0 <= i < |r.executed| && r.executed[i] == Barrier(f);
    assert r.accepted[i] == Barrier(f) && BarrierKnown(r, i);
    assert Tracked(r, f, r.waiting[f]);
    assert r.waiting[f].pos == i && f !in r.returned && f !in r.cloned;
    hide RecInv, FlushesTracked;
    ReturnKept(r, q, f);
  }

  lemma ClonesNew(r: Rec, act: Act)
    requires FlushesTracked(r) && ActEnabled(r, act) && !act.FlushSend? && !act.FlushReturn?
    ensures forall f :: f in ActRec(r, act).cloned ==> f !in r.waiting && f !in r.returned
    ensures forall f :: f in ActRec(r, act).cloned ==> ActRec(r, act).cloned[f] <= |r.accepted|
  {
  }

  lemma QuietAct(r: Rec, act: Act)
    requires ActEnabled(r, act) && !act.FlushSend? && !act.FlushReturn?
    ensures var q := ActRec(r, act);
            r.accepted <= q.accepted && |r.executed| <= |q.executed|
            && q.waiting == r.waiting && q.returned == r.returned
            && forall k :: |r.accepted| <= k < |q.accepted| ==> !q.accepted[k].Barrier?
  {
  }

  lemma FlushStep(r: Rec, act: Act)
    requires RecInv(r) && ActEnabled(r, act)
    ensures FlushesTracked(ActRec(r, act))
  {
    match act {
      case FlushSend(f) => SendTracked(r, f);
      case FlushReturn(f) => ReturnTracked(r, f);
      case _ =>
        ClonesNew(r, act);
        QuietAct(r, act);
        hide FlushesTracked, ActRec, ActEnabled, InHand, SendersGone;
        FlushKept(r, ActRec(r, act));
    }
  }

  lemma RecStep(r: Rec, act: Act)
    requires RecInv(r) && ActEnabled(r, act)
    ensures RecInv(ActRec(r, act))
  {
    QueueStep(r, act);
    FlushStep(r, act);
    hide FlushesTracked;
  }

  // ---- The whole system --------------------------------------------------------------------

  /** Sum of the drop counters of the closed recorders. */
  function ClosedDrops(recs: seq<Rec>): nat {
    if recs == [] then 0
    else ClosedDrops(recs[..|recs| - 1]) + (if recs[|recs| - 1].closed then recs[|recs| - 1].dropped else 0)
  }

  function Share(r: Rec): nat {
    if r.closed then r.dropped else 0
  }

  lemma {:induction false} ClosedDropsUpdate(recs: seq<Rec>, i: nat, r: Rec)
    requires i < |recs|
    ensures ClosedDrops(recs[i := r]) == ClosedDrops(recs) - Share(recs[i]) + Share(r)
    decreases |recs|
  {
    var n := |recs| - 1;
    if i < n {
      ClosedDropsUpdate(recs[..n], i, r);
      assert recs[i := r][..n] == recs[..n][i := r];
    } else {
      assert recs[i := r][..n] == recs[..n];
    }
  }

  predicate HasIndexLine(r: Rec) {
    r.stage.Indexed? || r.stage.Released?
  }

  ghost predicate Inv(s: State) {
    && (forall r :: 0 <= r < |s.recs| ==> RecInv(s.recs[r]))
    && s.droppedTotal == ClosedDrops(s.recs)
    && (forall r :: r in s.index ==> r < |s.recs|)
    && (forall r :: 0 <= r < |s.recs| ==> multiset(s.index)[r] == if HasIndexLine(s.recs[r]) then 1 else 0)
    && (forall r: nat :: r in s.active <==> r < |s.recs| && !s.recs[r].stage.Released?)
  }

  lemma DropStep(s: State, r: nat, act: Act)
    requires Inv(s) && Enabled(s, On(r, act))
    ensures Apply(s, On(r, act)).droppedTotal == ClosedDrops(Apply(s, On(r, act)).recs)
  {
    hide RecInv;
    ClosedDropsUpdate(s.recs, r, ActRec(s.recs[r], act));
  }

  lemma IndexStep(s: State, r: nat, act: Act)
    requires Inv(s) && Enabled(s, On(r, act))
    ensures var t := Apply(s, On(r, act));
            (forall i :: i in t.index ==> i < |t.recs|)
            && (forall i :: 0 <= i < |t.recs| ==> multiset(t.index)[i] == if HasIndexLine(t.recs[i]) then 1 else 0)
  {
    assert RecInv(s.recs[r]);
    hide FlushesTracked;
    var t := Apply(s, On(r, act));
    forall i | 0 <= i < |t.recs| ensures multiset(t.index)[i] == if HasIndexLine(t.recs[i]) then 1 else 0 {
      if act.AppendIndex? {
        assert multiset(t.index) == multiset(s.index) + multiset{r};
      }
    }
  }

  lemma StageStep(r: Rec, act: Act)
    requires ActEnabled(r, act)
    requires RecInv(r)
    ensures ActRec(r, act).stage.Released? <==> r.stage.Released? || act.ReleaseDir?
  {
    hide FlushesTracked;
  }

  lemma RecsStep(s: State, r: nat, act: Act)
    requires Inv(s) && Enabled(s, On(r, act))
    ensures var t := Apply(s, On(r, act)); forall i :: 0 <= i < |t.recs| ==> RecInv(t.recs[i])
  {
    RecStep(s.recs[r], act);
    hide RecInv, ClosedDrops, ActRec, ActEnabled, HasIndexLine;
    var t := Apply(s, On(r, act));
    assert forall i :: 0 <= i < |t.recs| && i != r ==> t.recs[i] == s.recs[i];
  }

  lemma ActiveStep(s: State, r: nat, act: Act)
    requires Inv(s) && Enabled(s, On(r, act))
    ensures var t := Apply(s, On(r, act));
            forall i: nat :: i in t.active <==> i < |t.recs| && !t.recs[i].stage.Released?
  {
    assert RecInv(s.recs[r]);
    StageStep(s.recs[r], act);
    hide RecInv, ClosedDrops, ActRec, ActEnabled, HasIndexLine;
  }

  lemma ActInv(s: State, r: nat, act: Act)
    requires Inv(s) && Enabled(s, On(r, act))
    ensures Inv(Apply(s, On(r, act)))
  {
    DropStep(s, r, act);
    IndexStep(s, r, act);
    RecsStep(s, r, act);
    ActiveStep(s, r, act);
    hide RecInv, ClosedDrops, ActRec, ActEnabled, HasIndexLine, Apply, Enabled;
  }

  lemma NewRecInv()
    ensures RecInv(NEW_REC) && !HasIndexLine(NEW_REC) && !NEW_REC.stage.Released?
  {
  }

  lemma NewDrops(recs: seq<Rec>)
    ensures ClosedDrops(recs + [NEW_REC]) == ClosedDrops(recs)
  {
    assert (recs + [NEW_REC])[..|recs|] == recs;
  }

  lemma StartInv(s: State)
    requires Inv(s)
    ensures Inv(Apply(s, StartRecorder))
  {
    hide RecInv, ClosedDrops, HasIndexLine;
    NewRecInv();
    NewDrops(s.recs);
    assert |s.recs| !in s.index;
    assert multiset(s.index)[|s.recs|] == 0;
  }

  lemma {:induction false} RunInv(s: State, steps: seq<Step>)
    requires Inv(s) && Feasible(s, steps)
    ensures Inv(Run(s, steps))
    decreases |steps|
  {
    if steps != [] {
      match steps[0] {
        case StartRecorder => StartInv(s);
        case On(r, act) => ActInv(s, r, act);
      }
      hide Inv;
      RunInv(Apply(s, steps[0]), steps[1..]);
    }
  }

  lemma InitInv()
    ensures Inv(INIT)
  {
  }

  // ---- Main results --------------------------------------------------------------------------

  predicate FinalMetaWritten(r: Rec) {
    r.stage.MetaWritten? || r.stage.Indexed? || r.stage.Released?
  }

  /**
   In every interleaving: tasks run in channel order; all accepted tasks have run before
   `complete` writes the final meta and the index line; a recorder has at most one index
   line, exactly one once it is indexed; its directory stays protected until then; and the
   manager's total is the sum of the drops of the closed recorders.
   */
  lemma QueueProtocol(steps: seq<Step>, r: nat)
    requires Feasible(INIT, steps) && r < |Run(INIT, steps).recs|
    ensures var s := Run(INIT, steps); var rec := s.recs[r];
            && rec.executed <= rec.accepted
            && (FinalMetaWritten(rec) || r in s.index ==> rec.executed == rec.accepted && rec.closed && rec.workerDone)
            && multiset(s.index)[r] <= 1
            && (rec.stage.Released? ==> multiset(s.index)[r] == 1)
            && (r in s.active <==> !rec.stage.Released?)
            && s.droppedTotal == ClosedDrops(s.recs)
  {
    InitInv();
    RunInv(INIT, steps);
    hide FlushesTracked, ClosedDrops;
    var s := Run(INIT, steps);
    assert RecInv(s.recs[r]);
    assert r in s.index ==> multiset(s.index)[r] > 0;
  }

  /** Once the final meta is written nothing is accepted or executed any more. */
  lemma FinalAfterMeta(r: Rec, act: Act)
    requires RecInv(r) && FinalMetaWritten(r) && ActEnabled(r, act)
    ensures var q := ActRec(r, act); FinalMetaWritten(q) && q.accepted == r.accepted && q.executed == r.executed
  {
    hide FlushesTracked;
  }

  /** How many tasks had been accepted when the flush call began. */
  function Mark(r: Rec, f: nat): Option<nat> {
    if f in r.cloned then Some(r.cloned[f])
    else if f in r.waiting then Some(r.waiting[f].mark)
    else if f in r.returned then Some(r.returned[f].mark)
    else None
  }

  lemma MarkStep(r: Rec, act: Act, f: nat)
    requires RecInv(r) && ActEnabled(r, act) && Mark(r, f).Some?
    ensures Mark(ActRec(r, act), f) == Mark(r, f) && r.accepted <= ActRec(r, act).accepted
  {
  }

  lemma {:induction false} MarkRun(s: State, steps: seq<Step>, r: nat, f: nat)
    requires Inv(s) && Feasible(s, steps) && r < |s.recs| && Mark(s.recs[r], f).Some?
    ensures var t := Run(s, steps);
            r < |t.recs| && Mark(t.recs[r], f) == Mark(s.recs[r], f) && s.recs[r].accepted <= t.recs[r].accepted
    decreases |steps|
  {
    if steps != [] {
      RunInv(s, [steps[0]]) by { assert Feasible(Apply(s, steps[0]), [steps[0]][1..]); }
      assert Run(s, [steps[0]]) == Apply(s, steps[0]) by {
        assert [steps[0]][1..] == [];
      }
      match steps[0] {
        case StartRecorder =>
        case On(i, act) =>
          if i == r { MarkStep(s.recs[r], act, f); }
      }
      hide Inv, ActRec, ActEnabled, Mark;
      MarkRun(Apply(s, steps[0]), steps[1..], r, f);
    }
  }

  lemma ReturnedCovered(q: Rec, f: nat)
    requires RecInv(q) && f in q.returned && Mark(q, f).Some?
    ensures Mark(q, f).value <= |q.executed| && q.executed <= q.accepted
  {
  }

  /** When a flush call returns, every task accepted before the call has run. */
  lemma FlushCoversEarlierWrites(s: State, r: nat, f: nat, steps: seq<Step>)
    requires Inv(s) && r < |s.recs| && !s.recs[r].closed && Enabled(s, On(r, FlushStart(f)))
    requires Feasible(Apply(s, On(r, FlushStart(f))), steps)
    requires var t := Run(Apply(s, On(r, FlushStart(f))), steps); r < |t.recs| && f in t.recs[r].returned
    ensures s.recs[r].accepted <= Run(Apply(s, On(r, FlushStart(f))), steps).recs[r].executed
  {
    var u := Apply(s, On(r, FlushStart(f)));
    ActInv(s, r, FlushStart(f));
    assert Mark(u.recs[r], f) == Some(|s.recs[r].accepted|) && u.recs[r].accepted == s.recs[r].accepted;
    MarkRun(u, steps, r, f);
    RunInv(u, steps);
    var q := Run(u, steps).recs[r];
    assert RecInv(q);
    ReturnedCovered(q, f);
    hide *;
  }

  // ---- No write is lost without being counted -------------------------------------------------

  /** The tasks that `steps`, taken from `s` on, must send to recorder `r`, in the order of the steps. */
  function Sent(s: State, steps: seq<Step>, r: nat): seq<Task>
    requires Feasible(s, steps)
    decreases |steps|
  {
    if steps == [] then [] else SentBy(s, steps[0], r) + Sent(Apply(s, steps[0]), steps[1..], r)
  }

  /** A write to an open recorder with room in its channel, or a barrier. */
  function SentBy(s: State, step: Step, r: nat): seq<Task>
    requires Enabled(s, step)
  {
    if !step.On? || step.r != r then []
    else if step.act.FlushSend? then [Barrier(step.act.f)]
    else if step.act.Enqueue? && !s.recs[r].closed && |s.recs[r].queue| < 4096 then [Write(step.act.id)]
    else []
  }

  /** The writes among `steps` that find the recorder closed or its channel full. */
  function Lost(s: State, steps: seq<Step>, r: nat): nat
    requires Feasible(s, steps)
    decreases |steps|
  {
    if steps == [] then 0 else LostBy(s, steps[0], r) + Lost(Apply(s, steps[0]), steps[1..], r)
  }

  function LostBy(s: State, step: Step, r: nat): nat
    requires Enabled(s, step)
  {
    if step.On? && step.r == r && step.act.Enqueue? && (s.recs[r].closed || |s.recs[r].queue| == 4096) then 1 else 0
  }

  /** How many writes the steps ask of recorder `r`. */
  function Asked(steps: seq<Step>, r: nat): nat {
    if steps == [] then 0
    else (if steps[0].On? && steps[0].r == r && steps[0].act.Enqueue? then 1 else 0) + Asked(steps[1..], r)
  }

  function WritesIn(ts: seq<Task>): nat {
    if ts == [] then 0 else (if ts[0].Write? then 1 else 0) + WritesIn(ts[1..])
  }

  function AcceptedBy(s: State, r: nat): seq<Task> {
    if r < |s.recs| then s.recs[r].accepted else []
  }

  function DroppedBy(s: State, r: nat): nat {
    if r < |s.recs| then s.recs[r].dropped else 0
  }

  lemma ActSends(rec: Rec, act: Act, room: bool)
    requires ActEnabled(rec, act) && (rec.closed <==> !rec.tx) && |rec.queue| <= 4096 && room == (|rec.queue| < 4096)
    ensures var q := ActRec(rec, act);
            if act.FlushSend? then q.accepted == rec.accepted + [Barrier(act.f)] && q.dropped == rec.dropped
            else if act.Enqueue? && !rec.closed && room then
              q.accepted == rec.accepted + [Write(act.id)] && q.dropped == rec.dropped
            else q.accepted == rec.accepted && q.dropped == rec.dropped + if act.Enqueue? then 1 else 0
  {
  }

  lemma OthersSame(s: State, step: Step, r: nat)
    requires Enabled(s, step) && !(step.On? && step.r == r)
    ensures AcceptedBy(Apply(s, step), r) == AcceptedBy(s, r) && DroppedBy(Apply(s, step), r) == DroppedBy(s, r)
  {
    hide ActRec, ActEnabled;
  }

  lemma SendInv(s: State, r: nat)
    requires Inv(s) && r < |s.recs|
    ensures var rec := s.recs[r]; (rec.closed <==> !rec.tx) && |rec.queue| <= 4096
  {
    hide FlushesTracked, ClosedDrops, HasIndexLine;
    assert RecInv(s.recs[r]);
  }

  lemma StepSends(s: State, step: Step, r: nat)
    requires Inv(s) && Enabled(s, step)
    ensures AcceptedBy(Apply(s, step), r) == AcceptedBy(s, r) + SentBy(s, step, r)
    ensures DroppedBy(Apply(s, step), r) == DroppedBy(s, r) + LostBy(s, step, r)
    ensures WritesIn(SentBy(s, step, r)) + LostBy(s, step, r) == Asked([step], r)
  {
    hide Inv, ActRec, ActEnabled, RecInv;
    assert [step][1..] == [] && Asked([], r) == 0;
    assert AcceptedBy(s, r) + [] == AcceptedBy(s, r);
    if step.On? && step.r == r {
      SendInv(s, r);
      ActSends(s.recs[r], step.act, |s.recs[r].queue| < 4096);
      OneWrite(SentBy(s, step, r));
    } else {
      OthersSame(s, step, r);
    }
  }

  lemma OneWrite(ts: seq<Task>)
    requires |ts| <= 1
    ensures WritesIn(ts) == if ts != [] && ts[0].Write? then 1 else 0
  {
    if ts != [] { assert ts[1..] == []; }
  }

  lemma {:induction false} WritesAppend(a: seq<Task>, b: seq<Task>)
    ensures WritesIn(a + b) == WritesIn(a) + WritesIn(b)
    decreases |a|
  {
    if a == [] {
      assert a + b == b;
    } else {
      assert (a + b)[1..] == a[1..] + b;
      WritesAppend(a[1..], b);
    }
  }

  lemma {:induction false} RunSends(s: State, steps: seq<Step>, r: nat)
    requires Inv(s) && Feasible(s, steps)
    ensures AcceptedBy(Run(s, steps), r) == AcceptedBy(s, r) + Sent(s, steps, r)
    ensures DroppedBy(Run(s, steps), r) == DroppedBy(s, r) + Lost(s, steps, r)
    ensures WritesIn(Sent(s, steps, r)) + Lost(s, steps, r) == Asked(steps, r)
    decreases |steps|
  {
    hide AcceptedBy, DroppedBy, SentBy, LostBy, Inv, Apply, Enabled;
    if steps == [] {
      assert AcceptedBy(s, r) + [] == AcceptedBy(s, r);
    } else {
      var t := Apply(s, steps[0]);
      StepSends(s, steps[0], r);
      StepInv(s, steps[0]);
      RunSends(t, steps[1..], r);
      WritesAppend(SentBy(s, steps[0], r), Sent(t, steps[1..], r));
      AskedFirst(steps, r);
      var a, b, c := AcceptedBy(s, r), SentBy(s, steps[0], r), Sent(t, steps[1..], r);
      assert a + (b + c) == a + b + c;
    }
  }

  lemma AskedFirst(steps: seq<Step>, r: nat)
    requires steps != []
    ensures Asked(steps, r) == Asked([steps[0]], r) + Asked(steps[1..], r)
  {
    assert [steps[0]][1..] == [] && Asked([], r) == 0;
  }

  lemma StepInv(s: State, step: Step)
    requires Inv(s) && Enabled(s, step)
    ensures Inv(Apply(s, step))
  {
    match step {
      case StartRecorder => StartInv(s);
      case On(r, act) => ActInv(s, r, act);
    }
  }

  /**
   Conservation: what a recorder accepted is, in step order, exactly the barriers and the
   writes that found it open with room; every other write is counted as dropped; so writes
   asked for are writes accepted plus drops. At the final meta all that was accepted has run.
   */
  lemma WritesConserved(steps: seq<Step>, r: nat)
    requires Feasible(INIT, steps) && r < |Run(INIT, steps).recs|
    ensures var rec := Run(INIT, steps).recs[r];
            && rec.accepted == Sent(INIT, steps, r) && rec.dropped == Lost(INIT, steps, r)
            && Asked(steps, r) == WritesIn(rec.accepted) + rec.dropped
            && (FinalMetaWritten(rec) ==> rec.executed == Sent(INIT, steps, r))
  {
    InitInv();
    RunSends(INIT, steps, r);
    assert [] + Sent(INIT, steps, r) == Sent(INIT, steps, r);
    QueueProtocol(steps, r);
    hide Run, Sent, Lost, Asked, WritesIn, Feasible, ClosedDrops;
  }

  function IsClosed(s: State, r: nat): bool {
    r < |s.recs| && s.recs[r].closed
  }

  /** A recorder is closed exactly once a call to complete has been made on it. */
  lemma {:induction false} ClosedByComplete(s: State, steps: seq<Step>, r: nat)
    requires Feasible(s, steps)
    ensures IsClosed(Run(s, steps), r) <==> IsClosed(s, r) || On(r, CompleteCall) in steps
    decreases |steps|
  {
    hide Run;
    if steps != [] {
      CloseStep(s, steps[0], r);
      hide Apply, Enabled;
      RunFirst(s, steps);
      ClosedByComplete(Apply(s, steps[0]), steps[1..], r);
      assert steps == [steps[0]] + steps[1..];
    } else {
      RunNothing(s);
    }
  }

  lemma RunNothing(s: State)
    ensures Run(s, []) == s
  {
  }

  lemma RunFirst(s: State, steps: seq<Step>)
    requires steps != [] && Feasible(s, steps)
    ensures Run(s, steps) == Run(Apply(s, steps[0]), steps[1..])
  {
  }

  lemma CloseStep(s: State, step: Step, r: nat)
    requires Enabled(s, step)
    ensures IsClosed(Apply(s, step), r) <==> IsClosed(s, r) || step == On(r, CompleteCall)
  {
  }

  // ---- The drain ends ----------------------------------------------------------------------

  /** Work left before the worker of a closed recorder can exit. */
  function Work(r: Rec): nat {
    4 * |r.cloned| + |r.waiting| + 2 * |r.queue| + (if r.current.Some? then 1 else 0) + (if r.workerDone then 0 else 1)
  }

  lemma MapDrop<V>(m: map<nat, V>, k: nat)
    requires k in m
    ensures |m - {k}| == |m| - 1
  {
    assert (m - {k}).Keys == m.Keys - {k};
    assert |(m - {k}).Keys| == |m.Keys| - 1;
  }

  predicate IsDrainAct(act: Act) {
    act.FlushSend? || act.FlushReturn? || act.Recv? || act.Exec? || act.WorkerExit?
  }

  lemma SendDecreases(r: Rec, f: nat)
    requires ActEnabled(r, FlushSend(f))
    ensures Work(ActRec(r, FlushSend(f))) < Work(r)
  {
    MapDrop(r.cloned, f);
    var w := r.waiting[f := Wait(r.cloned[f], |r.accepted|)];
    assert w.Keys == r.waiting.Keys + {f};
    assert |w| <= |r.waiting| + 1;
  }

  lemma ReturnDecreases(r: Rec, f: nat)
    requires ActEnabled(r, FlushReturn(f))
    ensures Work(ActRec(r, FlushReturn(f))) < Work(r)
  {
    MapDrop(r.waiting, f);
  }

  lemma WorkerDecreases(r: Rec, act: Act)
    requires ActEnabled(r, act) && (act.Recv? || act.Exec? || act.WorkerExit?)
    ensures Work(ActRec(r, act)) < Work(r)
  {
  }

  /** After closing, every step of the worker or of a flush call brings the end nearer. */
  lemma DrainDecreases(r: Rec, act: Act)
    requires RecInv(r) && ActEnabled(r, act) && IsDrainAct(act)
    ensures Work(ActRec(r, act)) < Work(r)
  {
    hide RecInv, ActEnabled, ActRec, Work;
    match act {
      case FlushSend(f) => SendDecreases(r, f);
      case FlushReturn(f) => ReturnDecreases(r, f);
      case _ => WorkerDecreases(r, act);
    }
  }

  /** A closed recorder whose worker has not exited is never stuck. */
  lemma DrainNotStuck(r: Rec) returns (act: Act)
    requires RecInv(r) && r.closed && !r.workerDone
    ensures IsDrainAct(act) && ActEnabled(r, act)
  {
    if r.current.Some? {
      act := Exec;
    } else if r.queue != [] {
      act := Recv;
    } else if r.cloned != map[] {
      var f :| f in r.cloned;
      act := FlushSend(f);
    } else if r.waiting != map[] {
      var f :| f in r.waiting;
      assert Tracked(r, f, r.waiting[f]);
      assert r.executed == r.accepted;
      act := FlushReturn(f);
    } else {
      act := WorkerExit;
    }
  }

  /** From any closed state the drain can be run to its end, with everything accepted executed. */
  lemma {:induction false} DrainCompletes(r: Rec) returns (acts: seq<Act>, q: Rec)
    requires RecInv(r) && r.closed
    ensures (forall k :: 0 <= k < |acts| ==> IsDrainAct(acts[k]))
    ensures ActsFeasible(r, acts) && q == RunActs(r, acts)
    ensures q.workerDone && q.executed == q.accepted && r.accepted <= q.accepted
    decreases Work(r)
  {
    if r.workerDone {
      acts, q := [], r;
    } else {
      var act := DrainNotStuck(r);
      DrainDecreases(r, act);
      RecStep(r, act);
      assert r.accepted <= ActRec(r, act).accepted && ActRec(r, act).closed;
      hide RecInv, ActEnabled, IsDrainAct;
      var rest;
      rest, q := DrainCompletes(ActRec(r, act));
      acts := [act] + rest;
      assert acts[1..] == rest;
    }
  }

  predicate ActsFeasible(r: Rec, acts: seq<Act>)
    decreases |acts|
  {
    acts == [] || (ActEnabled(r, acts[0]) && ActsFeasible(ActRec(r, acts[0]), acts[1..]))
  }

  function RunActs(r: Rec, acts: seq<Act>): Rec
    requires ActsFeasible(r, acts)
    decreases |acts|
  {
    if acts == [] then r else RunActs(ActRec(r, acts[0]), acts[1..])
  }

  // ---- The objects ----------------------------------------------------------------------------

  /** The manager's counters the recorders share. */
  class Manager {
    var droppedTotal: nat
    var index: seq<nat>
    var active: set<nat>

    constructor ()
      ensures droppedTotal == 0 && index == [] && active == {}
    {
      droppedTotal, index, active := 0, [], {};
    }
  }

  /** One request's recorder; every method is one critical section or one worker turn. */
  class Recorder {
    const id: nat
    const manager: Manager
    var closed: bool
    var tx: bool
    var queue: seq<Task>
    var current: Option<Task>
    var workerDone: bool
    var dropped: nat
    var stage: Stage
    ghost var cloned: map<nat, nat>
    ghost var waiting: map<nat, Wait>
    ghost var returned: map<nat, Wait>
    ghost var accepted: seq<Task>
    ghost var executed: seq<Task>

    ghost function Value(): Rec
      reads this
    {
      Rec(closed, tx, queue, current, workerDone, dropped, stage, cloned, waiting, returned, accepted, executed)
    }

    constructor (id: nat, manager: Manager)
      modifies manager
      ensures Value() == NEW_REC && this.id == id && this.manager == manager
      ensures manager.active == old(manager.active) + {id}
      ensures manager.droppedTotal == old(manager.droppedTotal) && manager.index == old(manager.index)
    {
      this.id, this.manager := id, manager;
      closed, tx, queue, current, workerDone, dropped, stage := false, true, [], None, false, 0, Running;
      cloned, waiting, returned, accepted, executed := map[], map[], map[], [], [];
      new;
      manager.active := manager.active + {id};
    }

    /** `enqueue` under the state lock. */
    method EnqueueWrite(task: nat)
      modifies this, manager
      ensures Value() == ActRec(old(Value()), Enqueue(task))
      ensures manager.droppedTotal == old(manager.droppedTotal) + TotalGain(old(Value()), Enqueue(task))
      ensures manager.index == old(manager.index) && manager.active == old(manager.active)
      ensures !old(closed) && old(tx) && |old(queue)| < 4096 ==>
                queue == old(queue) + [Write(task)] && accepted == old(accepted) + [Write(task)]
                && dropped == old(dropped)
      ensures old(closed) || (old(tx) && |old(queue)| >= 4096) ==>
                queue == old(queue) && accepted == old(accepted) && dropped == old(dropped) + 1
      ensures manager.droppedTotal == old(manager.droppedTotal) + if old(closed) then 1 else 0
    {
      if closed {
        dropped := dropped + 1;
        manager.droppedTotal := manager.droppedTotal + 1;
        return;
      }
      if !tx { return; }
      if |queue| < QUEUE_DEPTH {
        queue := queue + [Write(task)];
        accepted := accepted + [Write(task)];
      } else {
        dropped := dropped + 1;
      }
    }

    /** The locked part of `flush`: clone the sender, unless the queue is closed. */
    method BeginFlush(f: nat) returns (open: bool)
      requires FreshFlush(Value(), f)
      modifies this
      ensures open == !old(closed)
      ensures Value() == ActRec(old(Value()), FlushStart(f))
    {
      if closed { return false; }
      cloned := cloned[f := |accepted|];
      open := true;
    }

    /** `flush` sends its barrier through the clone once there is room. */
    method PostBarrier(f: nat)
      requires ActEnabled(Value(), FlushSend(f))
      modifies this
      ensures Value() == ActRec(old(Value()), FlushSend(f))
    {
      waiting := waiting[f := Wait(cloned[f], |accepted|)];
      cloned := cloned - {f};
      queue := queue + [Barrier(f)];
      accepted := accepted + [Barrier(f)];
    }

    /** `flush` returns when its barrier has run, and drops the clone. */
    method EndFlush(f: nat)
      requires ActEnabled(Value(), FlushReturn(f))
      modifies this
      ensures Value() == ActRec(old(Value()), FlushReturn(f))
    {
      returned := returned[f := waiting[f]];
      waiting := waiting - {f};
    }

    /** The worker takes the next task. */
    method Receive()
      requires ActEnabled(Value(), Recv)
      modifies this
      ensures Value() == ActRec(old(Value()), Recv)
    {
      current := Some(queue[0]);
      queue := queue[1..];
    }

    /** The worker runs the task it holds. */
    method Execute()
      requires ActEnabled(Value(), Exec)
      modifies this
      ensures Value() == ActRec(old(Value()), Exec)
    {
      executed := executed + [current.value];
      current := None;
    }

    /** The locked part of `complete`; false when another call came first. */
    method CloseQueue() returns (won: bool)
      modifies this, manager
      ensures won == !old(closed)
      ensures Value() == ActRec(old(Value()), CompleteCall)
      ensures manager.droppedTotal == old(manager.droppedTotal) + TotalGain(old(Value()), CompleteCall)
      ensures manager.index == old(manager.index) && manager.active == old(manager.active)
    {
      if closed { return false; }
      closed, tx, stage := true, false, Draining;
      manager.droppedTotal := manager.droppedTotal + dropped;
      won := true;
    }

    /** `run_writer` from here to its end, when nobody can send any more. */
    method RunWriter()
      requires RecInv(Value()) && SendersGone(Value()) && !workerDone
      modifies this
      ensures RecInv(Value()) && workerDone && executed == accepted
      ensures accepted == old(accepted) && stage == old(stage) && closed == old(closed) && dropped == old(dropped)
    {
      if current.Some? {
        RecStep(Value(), Exec);
        Execute();
      }
      while queue != []
        invariant RecInv(Value()) && SendersGone(Value()) && !workerDone && current.None?
        invariant accepted == old(accepted) && stage == old(stage) && closed == old(closed) && dropped == old(dropped)
        decreases |queue|
      {
        RunOne();
      }
      RecStep(Value(), WorkerExit);
      workerDone := true;
      assert InHand(Value()) == [];
    }

    method RunOne()
      requires RecInv(Value()) && SendersGone(Value()) && !workerDone && current.None? && queue != []
      modifies this
      ensures RecInv(Value()) && SendersGone(Value()) && !workerDone && current.None?
      ensures |queue| < |old(queue)|
      ensures accepted == old(accepted) && stage == old(stage) && closed == old(closed) && dropped == old(dropped)
    {
      RecStep(Value(), Recv);
      Receive();
      hide RecInv;
      RecStep(Value(), Exec);
      Execute();
    }

    /** A whole `complete` call with no flush in flight: idempotent, one index line, drops folded once. */
    method Complete()
      requires RecInv(Value()) && (closed || (cloned == map[] && waiting == map[]))
      modifies this, manager
      ensures RecInv(Value())
      ensures if old(closed) then
                Value() == old(Value()) && manager.index == old(manager.index)
                && manager.active == old(manager.active) && manager.droppedTotal == old(manager.droppedTotal)
              else
                stage == Released && executed == accepted == old(accepted)
                && manager.index == old(manager.index) + [id] && manager.active == old(manager.active) - {id}
                && manager.droppedTotal == old(manager.droppedTotal) + old(dropped)
    {
      RecStep(Value(), CompleteCall);
      var won := CloseQueue();
      if won {
        RunWriter();
        hide RecInv;
        Finish();
      }
    }

    /** After the drain: final meta, index line, release of the directory. */
    method Finish()
      requires RecInv(Value()) && stage == Draining && workerDone
      modifies this`stage, manager
      ensures RecInv(Value()) && stage == Released
      ensures manager.index == old(manager.index) + [id] && manager.active == old(manager.active) - {id}
      ensures manager.droppedTotal == old(manager.droppedTotal)
    {
      hide FlushesTracked;
      RecStep(Value(), WriteMeta);
      stage := MetaWritten;
      RecStep(Value(), AppendIndex);
      manager.index := manager.index + [id];
      stage := Indexed;
      RecStep(Value(), ReleaseDir);
      manager.active := manager.active - {id};
      stage := Released;
    }
  }
}
