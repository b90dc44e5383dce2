/**
 * The dispatcher as a step machine (internal/report/dispatcher.go): enqueuing threads under the read lock,
 * one worker per lane, Close under the write lock, and the shutdown deadline.
 */
module Dispatcher {
  import opened Wrappers
  import opened Decimal
  import opened ReportBatch
  import opened DispatcherLane

  /** Where an Enqueue call is. Every stage holds the read lock. */
  datatype Caller =
    | Holding(lane: nat, event: Event) | Open(lane: nat, event: Event) | Sent(lane: nat) | Leaving

  /** Where the first Close call is; Marking holds the write lock. */
  datatype Closer = NotClosing | Marking | Waiting | Draining | Returned

  datatype State = State(lanes: seq<Lane>, callers: map<nat, Caller>, closed: bool, started: bool, closer: Closer,
                         abort: bool, batches: nat)

  datatype WorkerStep =
    | Receives | SeesEnd | FlushDue | SeesAbort | Discards | Stops | Begins
    | CallOk | CallRetries | CallFails | CallAborted | SleepAborted

  datatype Step =
    | LockRead(caller: nat, lane: nat, event: Event)
    | RefuseClosed(caller: nat) | SeeOpen(caller: nat) | SendEvent(caller: nat) | RefuseFull(caller: nat)
    | CountEvent(caller: nat) | Unlock(caller: nat)
    | Start
    | MarkClosed | CloseQueue(i: nat) | UnlockClose | DeadlinePasses | WorkersDone | DrainOne(i: nat) | CloseReturns
    | WorkerMoves(i: nat, step: WorkerStep)

  function Init(c: Config, n: nat): State {
    State(seq(n, _ => NewLane(c)), map[], false, false, NotClosing, false, 0)
  }

  // ------------------------------------------------------------------- steps

  /** The event that did not fit is a known, encodable one. */
  predicate PendingKnown(l: Lane) {
    l.pending.Some? ==> l.pending.value < |l.accepted| && l.accepted[l.pending.value].body.Some?
  }

  predicate WorkerEnabled(c: Config, l: Lane, abort: bool, w: WorkerStep) {
    match w
    case Receives => l.worker.Selecting? && l.taken < |l.accepted|
    case SeesEnd => l.worker.Selecting? && l.queueClosed && l.taken == |l.accepted|
    case FlushDue => l.worker.Selecting? && l.batch != []
    case SeesAbort => l.worker.Selecting? && abort
    case Discards => l.worker.Abandoning? && l.taken < |l.accepted|
    case Stops => l.worker.Abandoning? && l.queueClosed && l.taken == |l.accepted|
    case Begins => l.worker.Sending?
    case CallOk => l.worker.Delivering? && PendingKnown(l)
    case CallRetries => l.worker.Delivering? && l.worker.made + 1 < c.maxAttempts
    case CallFails => l.worker.Delivering? && PendingKnown(l)
    case CallAborted => l.worker.Delivering? && PendingKnown(l) && abort
    case SleepAborted => l.worker.Delivering? && PendingKnown(l) && abort && l.worker.made > 0
  }

  function WorkerApply(c: Config, l: Lane, abort: bool, id: nat, w: WorkerStep): Lane
    requires WorkerEnabled(c, l, abort, w)
  {
    match w
    case Receives => Receive(c, l)
    case SeesEnd => EndOfQueue(l)
    case FlushDue => Flush(l)
    case SeesAbort => Abandon(l)
    case Discards => Discard(l)
    case Stops => l.(worker := Exited)
    case Begins => Begin(l, id)
    case CallOk => SettleDelivered(c, Call(l, true))
    case CallRetries => Retry(Call(l, false))
    case CallFails => SettleFailed(c, Call(l, false))
    case CallAborted => SettleUndelivered(c, Call(l, false))
    case SleepAborted => SettleUndelivered(c, l)
  }

  /**
   * What may happen. SendEvent asks only for room in the queue: that the queue is open has to be proved.
   */
  predicate Enabled(c: Config, s: State, st: Step) {
    match st
    case LockRead(t, i, _) => t !in s.callers && i < |s.lanes| && !s.closer.Marking?
    case RefuseClosed(t) => t in s.callers && s.callers[t].Holding? && s.callers[t].lane < |s.lanes| && s.closed
    case SeeOpen(t) => t in s.callers && s.callers[t].Holding? && !s.closed
    case SendEvent(t) => t in s.callers && s.callers[t].Open? && s.callers[t].lane < |s.lanes| &&
                         QueueLength(s.lanes[s.callers[t].lane]) < c.queueCapacity
    case RefuseFull(t) => t in s.callers && s.callers[t].Open? && s.callers[t].lane < |s.lanes| &&
                          QueueLength(s.lanes[s.callers[t].lane]) >= c.queueCapacity
    case CountEvent(t) => t in s.callers && s.callers[t].Sent? && s.callers[t].lane < |s.lanes|
    case Unlock(t) => t in s.callers && s.callers[t].Leaving?
    case Start => s.callers == map[] && !s.closer.Marking? && !s.started && !s.closed
    case MarkClosed => s.callers == map[] && s.closer.NotClosing? && !s.closed
    case CloseQueue(i) => s.closer.Marking? && i < |s.lanes| && !s.lanes[i].queueClosed
    case UnlockClose => s.closer.Marking? && forall i | 0 <= i < |s.lanes| :: s.lanes[i].queueClosed
    case DeadlinePasses => s.closer.Waiting? && !s.abort
    case WorkersDone => s.closer.Waiting? && forall i | 0 <= i < |s.lanes| :: s.lanes[i].worker.Exited?
    case DrainOne(i) => s.closer.Draining? && i < |s.lanes| && s.lanes[i].taken < |s.lanes[i].accepted|
    case CloseReturns =>
      s.closer.Draining? && forall i | 0 <= i < |s.lanes| :: s.lanes[i].taken >= |s.lanes[i].accepted|
    case WorkerMoves(i, w) => i < |s.lanes| && WorkerEnabled(c, s.lanes[i], s.abort, w)
  }

  function WithLane(s: State, i: nat, l: Lane): State
    requires i < |s.lanes|
  {
    s.(lanes := s.lanes[i := l])
  }

  function Without(m: map<nat, Caller>, t: nat): map<nat, Caller> {
    m - {t}
  }

  function Apply(c: Config, s: State, st: Step): State
    requires Enabled(c, s, st)
  {
    match st
    case LockRead(t, i, e) =>
      WithLane(s, i, s.lanes[i].(calls := s.lanes[i].calls + 1)).(callers := s.callers[t := Holding(i, e)])
    case RefuseClosed(t) =>
      var i := s.callers[t].lane;
      WithLane(s, i, s.lanes[i].(dropped := s.lanes[i].dropped + 1)).(callers := s.callers[t := Leaving])
    case SeeOpen(t) => s.(callers := s.callers[t := Open(s.callers[t].lane, s.callers[t].event)])
    case SendEvent(t) =>
      var i := s.callers[t].lane;
      WithLane(s, i, Accept(s.lanes[i], s.callers[t].event)).(callers := s.callers[t := Sent(i)])
    case RefuseFull(t) =>
      var i := s.callers[t].lane;
      WithLane(s, i, s.lanes[i].(dropped := s.lanes[i].dropped + 1)).(callers := s.callers[t := Leaving])
    case CountEvent(t) =>
      var i := s.callers[t].lane;
      WithLane(s, i, s.lanes[i].(enqueued := s.lanes[i].enqueued + 1)).(callers := s.callers[t := Leaving])
    case Unlock(t) => s.(callers := Without(s.callers, t))
    case Start => s.(started := true,
      lanes := seq(|s.lanes|, i requires 0 <= i < |s.lanes| => s.lanes[i].(worker := Selecting)))
    case MarkClosed => s.(closed := true, closer := Marking)
    case CloseQueue(i) => WithLane(s, i, s.lanes[i].(queueClosed := true))
    case UnlockClose => if s.started then s.(closer := Waiting) else s.(closer := Draining, abort := true)
    case DeadlinePasses => s.(abort := true)
    case WorkersDone => s.(closer := Draining, abort := true)
    case DrainOne(i) => WithLane(s, i, Discard(s.lanes[i]))
    case CloseReturns => s.(closer := Returned)
    case WorkerMoves(i, w) =>
      var l := WorkerApply(c, s.lanes[i], s.abort, s.batches + 1, w);
      WithLane(s, i, l).(batches := if w.Begins? then s.batches + 1 else s.batches)
  }

  // --------------------------------------------------------------- invariant

  /** The Enqueue calls between their send and their count, for lane i. */
  ghost function Uncounted(callers: map<nat, Caller>, i: nat): set<nat> {
    set t | t in callers && callers[t] == Sent(i)
  }

  /** The Enqueue calls for lane i that have neither sent nor dropped their event yet. */
  ghost function Deciding(callers: map<nat, Caller>, i: nat): set<nat> {
    set t | t in callers && (callers[t].Holding? || callers[t].Open?) && callers[t].lane == i
  }

  ghost predicate CallersInv(s: State) {
    && (forall t | t in s.callers :: s.callers[t].Leaving? || s.callers[t].lane < |s.lanes|)
    && (forall t | t in s.callers && (s.callers[t].Open? || s.callers[t].Sent?) :: !s.closed)
    && (s.closer.Marking? ==> s.callers == map[])
  }

  /** The enqueued counter lags the sends by exactly the calls still to count. */
  ghost predicate CountsInv(s: State) {
    forall i: nat | i < |s.lanes| :: |s.lanes[i].accepted| == s.lanes[i].enqueued + |Uncounted(s.callers, i)|
  }

  /** Every Enqueue call that has decided either had its event accepted or dropped it. */
  ghost predicate CallsInv(s: State) {
    forall i: nat | i < |s.lanes| ::
      s.lanes[i].calls == |s.lanes[i].accepted| + s.lanes[i].dropped + |Deciding(s.callers, i)|
  }

  predicate CloseInv(s: State) {
    && (s.closed <==> !s.closer.NotClosing?)
    && (forall i | 0 <= i < |s.lanes| :: s.lanes[i].queueClosed ==> s.closed)
    && (s.closer.Waiting? || s.closer.Draining? || s.closer.Returned? ==>
          forall i | 0 <= i < |s.lanes| :: s.lanes[i].queueClosed)
    && (forall i | 0 <= i < |s.lanes| :: s.lanes[i].worker.NotStarted? <==> !s.started)
    && (s.closer.Draining? || s.closer.Returned? ==>
          s.started ==> forall i | 0 <= i < |s.lanes| :: s.lanes[i].worker.Exited?)
    && (s.closer.Returned? ==> forall i | 0 <= i < |s.lanes| :: s.lanes[i].taken == |s.lanes[i].accepted|)
    && (s.closer.Waiting? ==> s.started)
    && (s.abort ==> s.closer.Waiting? || s.closer.Draining? || s.closer.Returned?)
    && (forall i | 0 <= i < |s.lanes| :: s.lanes[i].worker.Abandoning? ==> s.abort)
  }

  ghost predicate LanesInv(c: Config, s: State) {
    forall i | 0 <= i < |s.lanes| :: LaneInv(c, s.lanes[i])
  }

  ghost predicate Inv(c: Config, s: State) {
    CallersInv(s) && CountsInv(s) && CallsInv(s) && CloseInv(s) && LanesInv(c, s)
  }

  lemma InitInv(c: Config, n: nat)
    requires ValidConfig(c)
    ensures Inv(c, Init(c, n))
  {
    NewLaneInv(c);
    hide LaneInv;
    assert forall i :: Uncounted(map[], i) == {} && Deciding(map[], i) == {};
  }

  /**
   * A call that has seen the dispatcher open finds its queue open, room in it or not, whatever else happens
   * meanwhile.
   */
  lemma NoSendOnClosed(c: Config, s: State, t: nat)
    requires Inv(c, s) && t in s.callers && s.callers[t].Open?
    ensures s.callers[t].lane < |s.lanes| && !s.lanes[s.callers[t].lane].queueClosed
  {
    hide LanesInv;
  }

  // ------------------------------------------------------ steps keep lanes

  lemma WorkerKeeps(c: Config, l: Lane, abort: bool, id: nat, w: WorkerStep)
    requires ValidConfig(c) && LaneInv(c, l) && WorkerEnabled(c, l, abort, w)
    ensures LaneInv(c, WorkerApply(c, l, abort, id, w))
  {
    if w.CallOk? || w.CallFails? || w.CallAborted? || w.SleepAborted? {
      CallKeeps(c, l, abort, id, w);
    } else {
      hide LaneInv, Receive, EndOfQueue, Flush, Abandon, Discard, Begin, Call, Retry, SettleDelivered, SettleFailed;
      hide SettleUndelivered;
      match w
      case Receives => ReceiveKeeps(c, l);
      case SeesEnd => EndOfQueueKeeps(c, l);
      case FlushDue => FlushKeeps(c, l);
      case SeesAbort => AbandonKeeps(c, l);
      case Discards => DiscardKeeps(c, l);
      case Stops => StopKeeps(c, l);
      case Begins => BeginKeeps(c, l, id);
      case CallRetries => RetryKeeps(c, l);
    }
  }

  lemma CallKeeps(c: Config, l: Lane, abort: bool, id: nat, w: WorkerStep)
    requires ValidConfig(c) && LaneInv(c, l) && WorkerEnabled(c, l, abort, w)
    requires w.CallOk? || w.CallFails? || w.CallAborted? || w.SleepAborted?
    ensures LaneInv(c, WorkerApply(c, l, abort, id, w))
  {
    hide LaneInv, Settle, Called;
    match w
    case CallOk =>
      CallIsCalled(c, l, true);
      SettleKeeps(c, Call(l, true), Call(l, true).(delivered := l.delivered + l.batch), true);
    case CallFails =>
      CallIsCalled(c, l, false);
      SettleKeeps(c, Call(l, false), Call(l, false).(failed := l.failed + l.batch), false);
    case CallAborted =>
      CallIsCalled(c, l, false);
      SettleKeeps(c, Call(l, false), Call(l, false).(undelivered := l.undelivered + l.batch), false);
    case SleepAborted =>
      WaitingIsCalled(c, l);
      SettleKeeps(c, l, l.(undelivered := l.undelivered + l.batch), false);
  }

  /** A worker touches neither what was accepted nor the enqueued counter nor the queue's open end. */
  lemma WorkerFrame(c: Config, l: Lane, abort: bool, id: nat, w: WorkerStep)
    requires WorkerEnabled(c, l, abort, w)
    ensures var l' := WorkerApply(c, l, abort, id, w);
      && l'.accepted == l.accepted && l'.enqueued == l.enqueued && l'.queueClosed == l.queueClosed
      && l'.calls == l.calls && l'.dropped == l.dropped
      && !l.worker.NotStarted? && !l'.worker.NotStarted? && !l.worker.Exited?
      && (l'.worker.Abandoning? ==> l.worker.Abandoning? || abort)
  {
    if w.CallOk? || w.CallFails? || w.CallAborted? || w.SleepAborted? {
      hide Receive, RunningSize, Envelope, EncodeBatch;
    } else {
      hide Settle, Envelope;
    }
  }

  // ------------------------------------------------ steps keep the machine

  lemma UncountedFrame(callers: map<nat, Caller>, t: nat, stage: Caller, i: nat)
    requires !stage.Sent? && (t in callers ==> !callers[t].Sent?)
    ensures Uncounted(callers[t := stage], i) == Uncounted(callers, i) == Uncounted(Without(callers, t), i)
  {
  }

  /** A call starting, deciding, or past its decision. */
  lemma DecidingFrame(callers: map<nat, Caller>, t: nat, stage: Caller, i: nat)
    ensures stage.Sent? || stage.Leaving? ==> Deciding(callers[t := stage], i) == Deciding(callers, i) - {t}
    ensures (stage.Holding? || stage.Open?) && stage.lane != i ==>
            Deciding(callers[t := stage], i) == Deciding(callers, i) - {t}
    ensures (stage.Holding? || stage.Open?) && stage.lane == i ==>
            Deciding(callers[t := stage], i) == Deciding(callers, i) + {t}
    ensures Deciding(Without(callers, t), i) == Deciding(callers, i) - {t}
    ensures t in Deciding(callers, i) <==>
              t in callers && (callers[t].Holding? || callers[t].Open?) && callers[t].lane == i
  {
  }

  /** How one call's step moves it in or out of the deciding calls of every lane. */
  lemma DecidingMoves(callers: map<nat, Caller>, t: nat, stage: Caller, j: nat)
    ensures var was := t in callers && (callers[t].Holding? || callers[t].Open?) && callers[t].lane == j;
            var becomes := (stage.Holding? || stage.Open?) && stage.lane == j;
            |Deciding(callers[t := stage], j)| ==
              |Deciding(callers, j)| - (if was then 1 else 0) + (if becomes then 1 else 0)
  {
    DecidingFrame(callers, t, stage, j);
    var d := Deciding(callers, j);
    hide Deciding;
    if t in d {
      assert |d - {t}| == |d| - 1;
      assert d + {t} == d;
    } else {
      assert d - {t} == d;
      assert |d + {t}| == |d| + 1;
    }
  }

  lemma UncountedSent(callers: map<nat, Caller>, t: nat, i: nat, j: nat)
    requires t in callers && !callers[t].Sent?
    ensures Uncounted(callers[t := Sent(i)], j) == if j == i then Uncounted(callers, j) + {t} else Uncounted(callers, j)
    ensures t !in Uncounted(callers, j)
  {
  }

  lemma UncountedCounted(callers: map<nat, Caller>, t: nat, j: nat)
    requires t in callers && callers[t].Sent?
    ensures Uncounted(callers[t := Leaving], j) == Uncounted(callers, j) - {t}
    ensures t in Uncounted(callers, j) <==> callers[t].lane == j
  {
  }

  /** Changing one lane keeps the rest. */
  lemma LaneReplaced(c: Config, s: State, i: nat, l: Lane)
    requires LanesInv(c, s) && i < |s.lanes| && LaneInv(c, l)
    ensures LanesInv(c, WithLane(s, i, l))
  {
    hide LaneInv;
  }

  lemma LockKeeps(c: Config, s: State, st: Step)
    requires Inv(c, s) && Enabled(c, s, st) && (st.SeeOpen? || st.Unlock?)
    ensures Inv(c, Apply(c, s, st))
  {
    hide LaneInv;
    var s', t := Apply(c, s, st), st.caller;
    forall i: nat
      ensures Uncounted(s'.callers, i) == Uncounted(s.callers, i) &&
              |Deciding(s'.callers, i)| == |Deciding(s.callers, i)|
    {
      UncountedFrame(s.callers, t, if t in s'.callers then s'.callers[t] else Leaving, i);
      if st.SeeOpen? {
        DecidingMoves(s.callers, t, s'.callers[t], i);
      } else {
        DecidingFrame(s.callers, t, Leaving, i);
        assert Deciding(s.callers, i) - {t} == Deciding(s.callers, i);
      }
    }
    hide Uncounted, Deciding;
  }

  lemma LockReadKeeps(c: Config, s: State, st: Step)
    requires Inv(c, s) && Enabled(c, s, st) && st.LockRead?
    ensures Inv(c, Apply(c, s, st))
  {
    hide LaneInv, LanesInv;
    var s', t, i := Apply(c, s, st), st.caller, st.lane;
    var l := s.lanes[i].(calls := s.lanes[i].calls + 1);
    LaneOf(c, s, i);
    CountersKeep(c, s.lanes[i], l);
    LaneReplaced(c, s, i, l);
    SameLanes(c, WithLane(s, i, l), s');
    forall j: nat
      ensures Uncounted(s'.callers, j) == Uncounted(s.callers, j)
      ensures |Deciding(s'.callers, j)| == |Deciding(s.callers, j)| + if j == i then 1 else 0
    {
      UncountedFrame(s.callers, t, s'.callers[t], j);
      DecidingMoves(s.callers, t, s'.callers[t], j);
    }
    hide Uncounted, Deciding;
  }

  lemma RefuseKeeps(c: Config, s: State, st: Step)
    requires Inv(c, s) && Enabled(c, s, st) && (st.RefuseClosed? || st.RefuseFull?)
    ensures Inv(c, Apply(c, s, st))
  {
    hide Inv, WorkerApply, WorkerEnabled;
    var t, i := st.caller, s.callers[st.caller].lane;
    assert Apply(c, s, st) == Dropped(s, t, i);
    DroppedKeeps(c, s, t, i);
  }

  /** Call t drops its event at lane i and leaves. */
  function Dropped(s: State, t: nat, i: nat): State
    requires i < |s.lanes|
  {
    WithLane(s, i, s.lanes[i].(dropped := s.lanes[i].dropped + 1)).(callers := s.callers[t := Leaving])
  }

  lemma DroppedKeeps(c: Config, s: State, t: nat, i: nat)
    requires Inv(c, s) && i < |s.lanes| && t in s.callers && (s.callers[t].Holding? || s.callers[t].Open?) &&
             s.callers[t].lane == i
    ensures Inv(c, Dropped(s, t, i))
  {
    hide LaneInv, LanesInv;
    var l, s' := s.lanes[i].(dropped := s.lanes[i].dropped + 1), Dropped(s, t, i);
    LaneOf(c, s, i);
    CountersKeep(c, s.lanes[i], l);
    LaneReplaced(c, s, i, l);
    SameLanes(c, WithLane(s, i, l), s');
    forall j: nat
      ensures Uncounted(s'.callers, j) == Uncounted(s.callers, j)
      ensures |Deciding(s'.callers, j)| == |Deciding(s.callers, j)| - if j == i then 1 else 0
    {
      UncountedFrame(s.callers, t, Leaving, j);
      DecidingMoves(s.callers, t, Leaving, j);
    }
    hide Uncounted, Deciding;
  }

  lemma LaneOf(c: Config, s: State, i: nat)
    requires LanesInv(c, s) && i < |s.lanes|
    ensures LaneInv(c, s.lanes[i])
  {
    hide LaneInv;
  }

  lemma SameLanes(c: Config, s: State, s': State)
    requires LanesInv(c, s) && s'.lanes == s.lanes
    ensures LanesInv(c, s')
  {
    hide LaneInv;
  }

  lemma SendKeeps(c: Config, s: State, st: Step)
    requires Inv(c, s) && Enabled(c, s, st) && st.SendEvent?
    ensures Inv(c, Apply(c, s, st))
  {
    hide LaneInv, LanesInv;
    var t, i, s' := st.caller, s.callers[st.caller].lane, Apply(c, s, st);
    var l := Accept(s.lanes[i], s.callers[t].event);
    NoSendOnClosed(c, s, t);
    LaneOf(c, s, i);
    AcceptKeeps(c, s.lanes[i], s.callers[t].event);
    LaneReplaced(c, s, i, l);
    SameLanes(c, WithLane(s, i, l), s');
    forall j: nat | j < |s'.lanes|
      ensures |s'.lanes[j].accepted| == s'.lanes[j].enqueued + |Uncounted(s'.callers, j)|
      ensures |Deciding(s'.callers, j)| == |Deciding(s.callers, j)| - if j == i then 1 else 0
    {
      UncountedSent(s.callers, t, i, j);
      DecidingMoves(s.callers, t, Sent(i), j);
    }
    hide Uncounted, Deciding;
  }

  lemma CountKeeps(c: Config, s: State, st: Step)
    requires Inv(c, s) && Enabled(c, s, st) && st.CountEvent?
    ensures Inv(c, Apply(c, s, st))
  {
    hide LaneInv, LanesInv;
    var t, i, s' := st.caller, s.callers[st.caller].lane, Apply(c, s, st);
    var l := s.lanes[i].(enqueued := s.lanes[i].enqueued + 1);
    LaneOf(c, s, i);
    CountersKeep(c, s.lanes[i], l);
    LaneReplaced(c, s, i, l);
    SameLanes(c, WithLane(s, i, l), s');
    forall j: nat | j < |s'.lanes|
      ensures |s'.lanes[j].accepted| == s'.lanes[j].enqueued + |Uncounted(s'.callers, j)|
      ensures |Deciding(s'.callers, j)| == |Deciding(s.callers, j)|
    {
      DecidingMoves(s.callers, t, Leaving, j);
      UncountedCounted(s.callers, t, j);
      assert j != i ==> Uncounted(s.callers, j) - {t} == Uncounted(s.callers, j);
    }
    hide Uncounted, Deciding;
  }

  lemma StartKeepsAll(c: Config, s: State)
    requires ValidConfig(c) && Inv(c, s) && Enabled(c, s, Start)
    ensures Inv(c, Apply(c, s, Start))
  {
    hide LaneInv, Uncounted, Deciding;
    forall i | 0 <= i < |s.lanes|
      ensures LaneInv(c, s.lanes[i].(worker := Selecting))
    {
      StartKeeps(c, s.lanes[i]);
    }
  }

  /** The steps of Close that touch no lane. */
  lemma CloserKeeps(c: Config, s: State, st: Step)
    requires Inv(c, s) && Enabled(c, s, st)
    requires st.MarkClosed? || st.UnlockClose? || st.DeadlinePasses? || st.WorkersDone? || st.CloseReturns?
    ensures Inv(c, Apply(c, s, st))
  {
    hide LaneInv, LanesInv, Uncounted, Deciding;
    SameLanes(c, s, Apply(c, s, st));
    if st.CloseReturns? {
      forall i | 0 <= i < |s.lanes|
        ensures s.lanes[i].taken == |s.lanes[i].accepted|
      {
        LaneOf(c, s, i);
        LaneTaken(c, s.lanes[i]);
      }
    }
  }

  lemma LaneTaken(c: Config, l: Lane)
    requires LaneInv(c, l)
    ensures l.taken <= |l.accepted| && QueueLength(l) <= c.queueCapacity
    ensures l.worker.Exited? ==> l.taken == |l.accepted| && l.queueClosed
  {
  }

  /** The steps of Close on one lane. */
  lemma CloseLaneKeeps(c: Config, s: State, st: Step)
    requires Inv(c, s) && Enabled(c, s, st) && (st.CloseQueue? || st.DrainOne?)
    ensures Inv(c, Apply(c, s, st))
  {
    hide LaneInv, LanesInv, Uncounted, Deciding;
    var i, s' := st.i, Apply(c, s, st);
    LaneOf(c, s, i);
    if st.CloseQueue? {
      CloseKeeps(c, s.lanes[i]);
    } else {
      LaneTaken(c, s.lanes[i]);
      DiscardKeeps(c, s.lanes[i]);
    }
    LaneReplaced(c, s, i, s'.lanes[i]);
    SameLanes(c, WithLane(s, i, s'.lanes[i]), s');
  }

  lemma WorkerMoveKeeps(c: Config, s: State, st: Step)
    requires ValidConfig(c) && Inv(c, s) && Enabled(c, s, st) && st.WorkerMoves?
    ensures Inv(c, Apply(c, s, st))
  {
    hide LaneInv, LanesInv, Uncounted, Deciding, WorkerApply, WorkerEnabled;
    var i, s' := st.i, Apply(c, s, st);
    LaneOf(c, s, i);
    WorkerKeeps(c, s.lanes[i], s.abort, s.batches + 1, st.step);
    WorkerFrame(c, s.lanes[i], s.abort, s.batches + 1, st.step);
    LaneReplaced(c, s, i, s'.lanes[i]);
    SameLanes(c, WithLane(s, i, s'.lanes[i]), s');
  }

  /** Every step keeps the invariant. */
  lemma StepKeeps(c: Config, s: State, st: Step)
    requires ValidConfig(c) && Inv(c, s) && Enabled(c, s, st)
    ensures Inv(c, Apply(c, s, st))
  {
    hide Inv, Apply, Enabled;
    match st
    case LockRead(_, _, _) => LockReadKeeps(c, s, st);
    case SeeOpen(_) => LockKeeps(c, s, st);
    case Unlock(_) => LockKeeps(c, s, st);
    case RefuseClosed(_) => RefuseKeeps(c, s, st);
    case RefuseFull(_) => RefuseKeeps(c, s, st);
    case SendEvent(_) => SendKeeps(c, s, st);
    case CountEvent(_) => CountKeeps(c, s, st);
    case Start => StartKeepsAll(c, s);
    case CloseQueue(_) => CloseLaneKeeps(c, s, st);
    case DrainOne(_) => CloseLaneKeeps(c, s, st);
    case WorkerMoves(_, _) => WorkerMoveKeeps(c, s, st);
    case _ => CloserKeeps(c, s, st);
  }

  // -------------------------------------------------------------------- runs

  /** A run: steps that are enabled one after the other, and the state they lead to. */
  ghost predicate Reaches(c: Config, s: State, steps: seq<Step>, t: State)
    decreases |steps|
  {
    if steps == [] then s == t
    else Enabled(c, s, steps[0]) && Reaches(c, Apply(c, s, steps[0]), steps[1..], t)
  }

  lemma {:induction false} RunKeeps(c: Config, s: State, steps: seq<Step>, t: State)
    requires ValidConfig(c) && Inv(c, s) && Reaches(c, s, steps, t)
    ensures Inv(c, t)
    decreases |steps|
  {
    hide Inv, Enabled, Apply;
    if steps != [] {
      StepKeeps(c, s, steps[0]);
      RunKeeps(c, Apply(c, s, steps[0]), steps[1..], t);
    }
  }

  /** Safety: in every run of every interleaving the invariant holds. */
  lemma Safety(c: Config, n: nat, steps: seq<Step>, t: State)
    requires ValidConfig(c) && Reaches(c, Init(c, n), steps, t)
    ensures Inv(c, t)
    ensures forall i | 0 <= i < |t.lanes| :: LaneInv(c, t.lanes[i])
    ensures forall u | u in t.callers && t.callers[u].Open? ::
              t.callers[u].lane < |t.lanes| && !t.lanes[t.callers[u].lane].queueClosed
  {
    InitInv(c, n);
    RunKeeps(c, Init(c, n), steps, t);
    hide LaneInv;
  }

  /** Whenever no Enqueue call is under way, every call so far was either accepted or counted as dropped, never both. */
  lemma CallsAnswered(c: Config, n: nat, steps: seq<Step>, t: State, i: nat)
    requires ValidConfig(c) && Reaches(c, Init(c, n), steps, t) && t.callers == map[] && i < |t.lanes|
    ensures t.lanes[i].calls == |t.lanes[i].accepted| + t.lanes[i].dropped &&
            t.lanes[i].enqueued == |t.lanes[i].accepted|
  {
    InitInv(c, n);
    RunKeeps(c, Init(c, n), steps, t);
    hide LanesInv, LaneInv;
    assert Deciding(t.callers, i) == {} && Uncounted(t.callers, i) == {};
  }

  /** An event is dropped only at a closed dispatcher or a full queue, and accepted only by an open one with room. */
  lemma DropsOnlyWhen(c: Config, s: State, st: Step, i: nat)
    requires Inv(c, s) && Enabled(c, s, st) && i < |s.lanes|
    ensures |Apply(c, s, st).lanes| == |s.lanes|
    ensures Apply(c, s, st).lanes[i].dropped != s.lanes[i].dropped ==>
              Apply(c, s, st).lanes[i].dropped == s.lanes[i].dropped + 1 &&
              (s.closed || QueueLength(s.lanes[i]) == c.queueCapacity)
    ensures Apply(c, s, st).lanes[i].accepted != s.lanes[i].accepted ==>
              !s.closed && QueueLength(s.lanes[i]) < c.queueCapacity
  {
    hide LanesInv, LaneInv, CountsInv, CallsInv, WorkerApply, WorkerEnabled;
    LaneOf(c, s, i);
    LaneTaken(c, s.lanes[i]);
    if st.WorkerMoves? {
      WorkerFrame(c, s.lanes[st.i], s.abort, s.batches + 1, st.step);
    }
  }

  /** When the first Close returns, every accepted event was counted and is delivered, failed or undelivered. */
  lemma CloseAccounts(c: Config, n: nat, steps: seq<Step>, t: State, i: nat)
    requires ValidConfig(c) && Reaches(c, Init(c, n), steps, t) && t.closer.Returned? && i < |t.lanes|
    ensures var l := t.lanes[i]; l.enqueued == |l.accepted| == |l.delivered| + |l.failed| + |l.undelivered|
    ensures forall p: nat | p < |t.lanes[i].accepted| ::
              Places(p, t.lanes[i].delivered, t.lanes[i].failed, t.lanes[i].undelivered, []) == 1
  {
    InitInv(c, n);
    RunKeeps(c, Init(c, n), steps, t);
    hide LanesInv, LaneInv;
    LaneOf(c, t, i);
    LaneConserves(c, t.lanes[i]);
    NothingInHand(c, t.lanes[i]);
    assert Uncounted(t.callers, i) == {};
  }

  lemma NothingInHand(c: Config, l: Lane)
    requires LaneInv(c, l) && (l.worker.NotStarted? || l.worker.Exited?)
    ensures InHand(l) == []
  {
  }

  /** What a lane has settled. */
  datatype Account = Account(accepted: seq<Event>, enqueued: nat, delivered: seq<nat>, failed: seq<nat>,
    undelivered: seq<nat>)

  function AccountOf(l: Lane): Account {
    Account(l.accepted, l.enqueued, l.delivered, l.failed, l.undelivered)
  }

  lemma StepAfterClose(c: Config, s: State, st: Step)
    requires Inv(c, s) && s.closer.Returned? && Enabled(c, s, st)
    ensures var t := Apply(c, s, st);
      && t.closer.Returned? && |t.lanes| == |s.lanes|
      && forall i | 0 <= i < |s.lanes| :: AccountOf(t.lanes[i]) == AccountOf(s.lanes[i])
  {
    hide LanesInv, LaneInv, CountsInv, CallsInv, WorkerApply;
  }

  /** Nothing that happens after the first Close returned changes any lane's account. */
  lemma {:induction false} AccountsAreFinal(c: Config, s: State, steps: seq<Step>, t: State)
    requires ValidConfig(c) && Inv(c, s) && s.closer.Returned? && Reaches(c, s, steps, t)
    ensures |t.lanes| == |s.lanes| && forall i | 0 <= i < |s.lanes| :: AccountOf(t.lanes[i]) == AccountOf(s.lanes[i])
    decreases |steps|
  {
    hide Inv, Enabled, Apply;
    if steps != [] {
      StepKeeps(c, s, steps[0]);
      StepAfterClose(c, s, steps[0]);
      AccountsAreFinal(c, Apply(c, s, steps[0]), steps[1..], t);
    }
  }
}
