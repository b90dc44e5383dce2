/** What a Close whose deadline does not pass hands to the reporters (internal/report/dispatcher.go). */
module Graceful {
  import opened Wrappers
  import opened ReportBatch
  import opened DispatcherLane
  import opened Dispatcher

  // ------------------------------------------------------------- failed events

  /** The reporter was called with a batch holding the event. */
  ghost predicate Handed(log: seq<Attempt>, p: nat) {
    exists i :: 0 <= i < |log| && p in log[i].batch
  }

  /** A failed event had no encoding, or its batch was handed to the reporter. */
  ghost predicate Blamed(l: Lane) {
    forall p | p in l.failed :: p < |l.accepted| && (l.accepted[p].body.Some? ==> Handed(l.log, p))
  }

  ghost predicate AllBlamed(s: State) {
    forall i | 0 <= i < |s.lanes| :: Blamed(s.lanes[i])
  }

  lemma HandedMore(log: seq<Attempt>, a: Attempt, p: nat)
    requires Handed(log, p) || p in a.batch
    ensures Handed(log + [a], p)
  {
    if Handed(log, p) {
      var i :| 0 <= i < |log| && p in log[i].batch;
      assert (log + [a])[i] == log[i];
    } else {
      assert (log + [a])[|log|] == a;
    }
  }

  /** Calling the reporter blames nobody, and settling blames only the batch it was called with. */
  lemma CallBlames(l: Lane, ok: bool, s: Lane)
    requires Blamed(l) && l.worker.Delivering? && AllEncodable(l.accepted, l.batch)
    requires s.accepted == l.accepted && s.log == Call(l, ok).log &&
             (s.failed == l.failed || s.failed == l.failed + l.batch)
    ensures Blamed(s)
  {
    var a := DispatcherLane.Attempt(l.worker.id, l.batch, ok);
    forall p | p in s.failed
      ensures p < |s.accepted| && (s.accepted[p].body.Some? ==> Handed(s.log, p))
    {
      if p in l.batch || Handed(l.log, p) {
        HandedMore(l.log, a, p);
      }
    }
  }

  /** Settling moves on to collecting, or exits, and leaves the record alone. */
  lemma SettleFrame(c: Config, s: Lane)
    requires s.worker.Delivering? && PendingKnown(s)
    ensures var t := Settle(c, s);
      && t.accepted == s.accepted && t.log == s.log && t.attempted == s.attempted && t.retries == s.retries
      && t.failed == s.failed && t.undelivered == s.undelivered
      && (t.worker.Exited? <==> s.worker.last)
      && (t.worker.Exited? || t.worker.Selecting? || t.worker.Sending?)
  {
    hide Envelope;
  }

  /** What a worker does without a call fails only an event with no encoding. */
  lemma TakingBlames(c: Config, l: Lane, abort: bool, id: nat, w: WorkerStep)
    requires Blamed(l) && WorkerEnabled(c, l, abort, w) && !l.worker.Delivering?
    ensures Blamed(WorkerApply(c, l, abort, id, w))
  {
    hide Handed, Envelope, Settle;
  }

  /** Settling a batch fails at most that batch. */
  lemma SettlingBlames(c: Config, l: Lane, abort: bool, id: nat, w: WorkerStep)
    requires Blamed(l) && WorkerEnabled(c, l, abort, w) && l.worker.Delivering? && AllEncodable(l.accepted, l.batch)
    ensures Blamed(WorkerApply(c, l, abort, id, w))
  {
    hide Blamed, Settle, AllEncodable;
    var s := WorkerApply(c, l, abort, id, w);
    match w
    case CallOk =>
      SettleFrame(c, Call(l, true).(delivered := l.delivered + l.batch));
      CallBlames(l, true, s);
    case CallRetries => CallBlames(l, false, s);
    case CallFails =>
      SettleFrame(c, Call(l, false).(failed := l.failed + l.batch));
      CallBlames(l, false, s);
    case CallAborted =>
      SettleFrame(c, Call(l, false).(undelivered := l.undelivered + l.batch));
      CallBlames(l, false, s);
    case SleepAborted =>
      SettleFrame(c, l.(undelivered := l.undelivered + l.batch));
      SameBlames(l, s);
  }

  lemma WorkerBlames(c: Config, l: Lane, abort: bool, id: nat, w: WorkerStep)
    requires LaneInv(c, l) && Blamed(l) && WorkerEnabled(c, l, abort, w)
    ensures Blamed(WorkerApply(c, l, abort, id, w))
  {
    hide Conserved, Ordered, Logged, Bounded, Fitting, Blamed, WorkerApply;
    if l.worker.Delivering? {
      SettlingBlames(c, l, abort, id, w);
    } else {
      TakingBlames(c, l, abort, id, w);
    }
  }

  lemma SameBlames(l: Lane, s: Lane)
    requires Blamed(l) && s.accepted == l.accepted && s.log == l.log && s.failed == l.failed
    ensures Blamed(s)
  {
  }

  // ------------------------------------------------------------ thorough lanes

  /** Between the calls of one batch a retry is already counted whose call is still to come. */
  function OpenRetry(l: Lane): nat {
    if l.worker.Delivering? && l.worker.made > 0 then 1 else 0
  }

  /**
   * Nothing was given up: every encodable event a worker took is in a batch, a worker that has exited handed over all
   * of them, and the retries counted are the calls beyond each batch's first.
   */
  predicate Thorough(l: Lane) {
    && |l.log| + OpenRetry(l) == |l.attempted| + l.retries
    && (!l.worker.NotStarted? ==> l.undelivered == [] && !l.worker.Abandoning?)
    && (l.worker.Exited? ==> Flatten(l.attempted) == Encodable(l.accepted, |l.accepted|))
  }

  lemma CallThorough(c: Config, l: Lane, ok: bool, s: Lane)
    requires LaneInv(c, l) && Thorough(l) && l.worker.Delivering? && PendingKnown(s)
    requires s == Call(l, ok).(delivered := s.delivered, failed := s.failed)
    ensures Thorough(Settle(c, s))
  {
    hide LaneInv, Envelope, Encodable, Flatten, Settle;
    SettleFrame(c, s);
    CallIsCalled(c, l, ok);
    if s.worker.last {
      LastHandsOver(c, Call(l, ok), ok);
    }
    hide Called;
  }

  /** The call for a worker's last batch completes what it hands over. */
  lemma LastHandsOver(c: Config, l: Lane, ok: bool)
    requires Called(c, l, ok) && l.worker.last
    ensures Flatten(l.attempted) == Encodable(l.accepted, |l.accepted|)
  {
    hide Conserved, Sized, DeliveredBy, Fitting, Trailing, Erased, Encodable, Flatten;
    assert Flatten(l.attempted) + [] == Flatten(l.attempted);
  }

  /** At the end of its queue a worker with no open batch has handed everything over. */
  lemma EndThorough(c: Config, l: Lane)
    requires Placed(c, l) && Ordered(l) && Thorough(l) && l.worker.Selecting? && l.taken == |l.accepted|
    ensures Thorough(EndOfQueue(l))
  {
    hide Encodable, Flatten;
    if l.batch == [] {
      assert Flatten(l.attempted) + [] == Flatten(l.attempted);
      assert InHand(l) == [];
    }
  }

  /** Without the deadline a worker gives nothing up. */
  lemma WorkerThorough(c: Config, l: Lane, id: nat, w: WorkerStep)
    requires ValidConfig(c) && LaneInv(c, l) && Thorough(l) && WorkerEnabled(c, l, false, w)
    ensures Thorough(WorkerApply(c, l, false, id, w))
  {
    hide Conserved, Sized, Ordered, Logged, Bounded, Fitting, Encodable, Flatten, Envelope;
    if w.CallOk? || w.CallFails? {
      hide Thorough, LaneInv, Settle;
      var s := Call(l, w.CallOk?);
      CallThorough(c, l, w.CallOk?, if w.CallOk? then s.(delivered := l.delivered + l.batch)
                                    else s.(failed := l.failed + l.batch));
    } else if w.SeesEnd? {
      hide Thorough, EndOfQueue;
      EndThorough(c, l);
    } else {
      hide Settle;
    }
  }

  // --------------------------------------------------------------- the machine

  predicate AllThorough(s: State) {
    forall i | 0 <= i < |s.lanes| :: Thorough(s.lanes[i])
  }

  /** Every worker is done before anything is aborted. */
  predicate AbortedLast(s: State) {
    s.started && s.abort ==> forall i | 0 <= i < |s.lanes| :: s.lanes[i].worker.Exited?
  }

  /** The steps of Enqueue calls and of Close on one lane leave its record alone. */
  predicate SameRecord(l: Lane, m: Lane) {
    && (m.accepted == l.accepted || (l.accepted <= m.accepted && !l.worker.Exited?))
    && m.worker == l.worker && m.log == l.log && m.attempted == l.attempted && m.retries == l.retries
    && m.failed == l.failed && (m.undelivered == l.undelivered || m.worker.NotStarted?)
  }

  lemma SameRecordKeeps(l: Lane, m: Lane)
    requires SameRecord(l, m)
    ensures Blamed(l) ==> Blamed(m)
    ensures Thorough(l) ==> Thorough(m)
  {
    hide Encodable, Flatten, Handed;
  }

  /** A worker starts with nothing given up. */
  lemma StartThorough(c: Config, l: Lane)
    requires LaneInv(c, l) && Thorough(l) && l.worker.NotStarted? && !l.queueClosed
    ensures Thorough(l.(worker := Selecting))
  {
    hide Sized, Ordered, Logged, Bounded, Fitting, Encodable, Flatten;
    Shares(l.taken, l.delivered, l.failed, l.undelivered, InHand(l));
  }

  /** What the steps that are no worker's do to each lane. */
  lemma OtherSteps(c: Config, s: State, st: Step, i: nat)
    requires Inv(c, s) && Enabled(c, s, st) && !st.WorkerMoves? && !st.Start? && i < |s.lanes|
    ensures |Apply(c, s, st).lanes| == |s.lanes| && SameRecord(s.lanes[i], Apply(c, s, st).lanes[i])
  {
    hide LanesInv, LaneInv, CountsInv, CallsInv;
    LaneOf(c, s, i);
    LaneTaken(c, s.lanes[i]);
    if st.SendEvent? {
      NoSendOnClosed(c, s, st.caller);
      LaneOf(c, s, s.callers[st.caller].lane);
      LaneTaken(c, s.lanes[s.callers[st.caller].lane]);
    }
  }

  /** Every step blames only events that had their chance, whether or not the deadline passed. */
  lemma StepBlames(c: Config, s: State, st: Step)
    requires ValidConfig(c) && Inv(c, s) && AllBlamed(s) && Enabled(c, s, st)
    ensures AllBlamed(Apply(c, s, st))
  {
    hide LaneInv, Blamed, WorkerApply, CountsInv, CallsInv, CloseInv, CallersInv;
    if st.WorkerMoves? {
      LaneOf(c, s, st.i);
      hide LanesInv, WorkerEnabled;
      WorkerBlames(c, s.lanes[st.i], s.abort, s.batches + 1, st.step);
    } else if st.Start? {
      StartBlames(s.lanes);
    } else {
      var t := Apply(c, s, st);
      forall i: nat | i < |s.lanes|
        ensures |t.lanes| == |s.lanes| && Blamed(t.lanes[i])
      {
        OtherSteps(c, s, st, i);
        SameRecordKeeps(s.lanes[i], t.lanes[i]);
      }
      hide Apply, Enabled;
    }
  }

  lemma StartBlames(lanes: seq<Lane>)
    requires forall i | 0 <= i < |lanes| :: Blamed(lanes[i])
    ensures forall i | 0 <= i < |lanes| :: Blamed(lanes[i].(worker := Selecting))
  {
    hide Handed;
  }

  /** Without the deadline no step gives anything up. */
  lemma StepThorough(c: Config, s: State, st: Step)
    requires ValidConfig(c) && Inv(c, s) && AllThorough(s) && AbortedLast(s)
    requires Enabled(c, s, st) && !st.DeadlinePasses?
    ensures AllThorough(Apply(c, s, st))
  {
    hide LaneInv, Thorough, WorkerApply, CountsInv, CallsInv, CallersInv;
    if st.WorkerMoves? {
      LaneOf(c, s, st.i);
      WorkerMoving(c, s, st);
      hide LanesInv, WorkerEnabled, CloseInv;
      WorkerThorough(c, s.lanes[st.i], s.batches + 1, st.step);
    } else if st.Start? {
      forall i | 0 <= i < |s.lanes|
        ensures Thorough(s.lanes[i].(worker := Selecting))
      {
        LaneOf(c, s, i);
        StartThorough(c, s.lanes[i]);
      }
    } else {
      var t := Apply(c, s, st);
      forall i: nat | i < |s.lanes|
        ensures |t.lanes| == |s.lanes| && Thorough(t.lanes[i])
      {
        OtherSteps(c, s, st, i);
        SameRecordKeeps(s.lanes[i], t.lanes[i]);
      }
      hide Apply, Enabled;
    }
  }

  /** A worker that moves has not exited, so nothing was aborted. */
  lemma WorkerMoving(c: Config, s: State, st: Step)
    requires CloseInv(s) && AbortedLast(s) && Enabled(c, s, st) && st.WorkerMoves?
    ensures !s.abort
  {
    assert !s.lanes[st.i].worker.Exited? && !s.lanes[st.i].worker.NotStarted?;
  }

  lemma StepAbortsLast(c: Config, s: State, st: Step)
    requires Inv(c, s) && AbortedLast(s) && Enabled(c, s, st) && !st.DeadlinePasses?
    ensures AbortedLast(Apply(c, s, st))
  {
    hide LanesInv, LaneInv, CountsInv, CallsInv, CallersInv, WorkerApply;
    if st.WorkerMoves? {
      WorkerMoving(c, s, st);
    }
  }

  // ---------------------------------------------------------------------- runs

  lemma {:induction false} RunBlames(c: Config, s: State, steps: seq<Step>, t: State)
    requires ValidConfig(c) && Inv(c, s) && AllBlamed(s) && Reaches(c, s, steps, t)
    ensures Inv(c, t) && AllBlamed(t)
    decreases |steps|
  {
    hide Inv, AllBlamed, Enabled, Apply;
    if steps != [] {
      StepKeeps(c, s, steps[0]);
      StepBlames(c, s, steps[0]);
      RunBlames(c, Apply(c, s, steps[0]), steps[1..], t);
    }
  }

  lemma {:induction false} RunThorough(c: Config, s: State, steps: seq<Step>, t: State)
    requires ValidConfig(c) && Inv(c, s) && AllThorough(s) && AbortedLast(s)
    requires Reaches(c, s, steps, t) && DeadlinePasses !in steps
    ensures AllThorough(t)
    decreases |steps|
  {
    hide Inv, AllThorough, AbortedLast, Enabled, Apply;
    if steps != [] {
      StepKeeps(c, s, steps[0]);
      StepThorough(c, s, steps[0]);
      StepAbortsLast(c, s, steps[0]);
      RunThorough(c, Apply(c, s, steps[0]), steps[1..], t);
    }
  }

  /**
   * In every run, deadline or not: an event counted as failed had no encoding, or its batch was handed over in
   * vain.
   */
  lemma FailedInVain(c: Config, n: nat, steps: seq<Step>, t: State, i: nat, p: nat)
    requires ValidConfig(c) && Reaches(c, Init(c, n), steps, t) && i < |t.lanes| && p in t.lanes[i].failed
    ensures var l := t.lanes[i];
      && p < |l.accepted| && (l.accepted[p].body.Some? ==> Handed(l.log, p)) && !DeliveredBy(l.log, p)
  {
    hide Inv, LanesInv, LaneInv, Handed;
    InitInv(c, n);
    RunBlames(c, Init(c, n), steps, t);
    assert Blamed(t.lanes[i]);
    InvLane(c, t, i);
    OnePlace(c, t.lanes[i], p);
  }

  lemma InvLane(c: Config, s: State, i: nat)
    requires Inv(c, s) && i < |s.lanes|
    ensures LaneInv(c, s.lanes[i])
  {
    hide LaneInv;
  }

  /** An event that was delivered did not fail and was not given up. */
  lemma OnePlace(c: Config, l: Lane, p: nat)
    requires LaneInv(c, l)
    ensures p in l.delivered <==> DeliveredBy(l.log, p)
    ensures p in l.failed || p in l.undelivered ==> p !in l.delivered
  {
    LaneConserves(c, l);
    assert Places(p, l.delivered, l.failed, l.undelivered, InHand(l)) <= 1;
    hide Conserved, Sized, Placed, Ordered, Bounded, Fitting, DeliveredBy, Erased, InHand;
  }

  lemma {:induction false} InFlatten(batches: seq<seq<nat>>, p: nat) returns (k: nat)
    requires p in Flatten(batches)
    ensures k < |batches| && p in batches[k]
  {
    var last := |batches| - 1;
    if p in batches[last] {
      k := last;
    } else {
      k := InFlatten(batches[..last], p);
    }
  }

  lemma {:induction false} ErasedHanded(log: seq<Attempt>, k: nat) returns (i: nat)
    requires k < |Erased(log)|
    ensures i < |log| && log[i].batch == Erased(log)[k]
  {
    var last := |log| - 1;
    if k < |Erased(log[..last])| {
      i := ErasedHanded(log[..last], k);
    } else {
      i := last;
    }
  }

  lemma {:induction false} EncodableHolds(accepted: seq<Event>, n: nat, p: nat)
    requires p < n <= |accepted| && accepted[p].body.Some?
    ensures p in Encodable(accepted, n)
  {
    if p < n - 1 {
      EncodableHolds(accepted, n - 1, p);
    }
  }

  /** A worker that has exited without giving anything up has settled every event by handing it over. */
  lemma ThoroughSettles(c: Config, l: Lane, p: nat)
    requires LaneInv(c, l) && Thorough(l) && l.worker.Exited? && p < |l.accepted|
    ensures l.accepted[p].body.Some? ==> Handed(l.log, p)
    ensures p in l.delivered <==> DeliveredBy(l.log, p)
    ensures p in l.failed <==> !DeliveredBy(l.log, p)
  {
    OnePlace(c, l, p);
    LaneConserves(c, l);
    assert Places(p, l.delivered, l.failed, l.undelivered, InHand(l)) == 1;
    hide Conserved, Sized, Ordered, Bounded, Fitting, DeliveredBy, Erased;
    if l.accepted[p].body.Some? {
      EncodableHolds(l.accepted, |l.accepted|, p);
      hide Encodable, Flatten;
      var k := InFlatten(l.attempted, p);
      var i := ErasedHanded(l.log, k);
    }
  }

  /**
   * A Close whose deadline does not pass loses nothing: no event of any lane is left undelivered, the reporter was
   * called
   * with every encodable event, in accepted order, and an event failed exactly when no call for its batch succeeded.
   */
  lemma GracefulClose(c: Config, n: nat, steps: seq<Step>, t: State, i: nat)
    requires ValidConfig(c) && Reaches(c, Init(c, n), steps, t) && DeadlinePasses !in steps
    requires t.closer.Returned? && t.started && i < |t.lanes|
    ensures t.lanes[i].undelivered == []
    ensures Flatten(Erased(t.lanes[i].log)) == Encodable(t.lanes[i].accepted, |t.lanes[i].accepted|)
    ensures |t.lanes[i].log| == |Erased(t.lanes[i].log)| + t.lanes[i].retries
    ensures forall p: nat | p < |t.lanes[i].accepted| :: var l := t.lanes[i];
      && (l.accepted[p].body.Some? ==> Handed(l.log, p))
      && (p in l.delivered <==> DeliveredBy(l.log, p)) && (p in l.failed <==> !DeliveredBy(l.log, p))
  {
    hide LaneInv, Flatten, Encodable, Erased, Handed, DeliveredBy;
    InitInv(c, n);
    RunKeeps(c, Init(c, n), steps, t);
    RunThorough(c, Init(c, n), steps, t);
    hide LanesInv, CountsInv, CallsInv, CallersInv;
    InvLane(c, t, i);
    assert Thorough(t.lanes[i]);
    LaneLog(c, t.lanes[i]);
    forall p: nat | p < |t.lanes[i].accepted|
      ensures var l := t.lanes[i];
        && (l.accepted[p].body.Some? ==> Handed(l.log, p))
        && (p in l.delivered <==> DeliveredBy(l.log, p)) && (p in l.failed <==> !DeliveredBy(l.log, p))
    {
      ThoroughSettles(c, t.lanes[i], p);
    }
  }

  lemma LaneLog(c: Config, l: Lane)
    requires LaneInv(c, l)
    ensures Erased(l.log) == l.attempted
  {
  }

  /** A Close of workers that never started loses everything: each accepted event is left undelivered, none was sent. */
  lemma UnstartedClose(c: Config, n: nat, steps: seq<Step>, t: State, i: nat)
    requires ValidConfig(c) && Reaches(c, Init(c, n), steps, t)
    requires t.closer.Returned? && !t.started && i < |t.lanes|
    ensures t.lanes[i].log == [] && t.lanes[i].delivered == [] && t.lanes[i].failed == []
    ensures forall p: nat | p < |t.lanes[i].accepted| :: p in t.lanes[i].undelivered
    ensures |t.lanes[i].undelivered| == |t.lanes[i].accepted|
  {
    hide LaneInv;
    InitInv(c, n);
    RunKeeps(c, Init(c, n), steps, t);
    InvLane(c, t, i);
    hide LanesInv, CountsInv, CallsInv, CallersInv;
    assert t.lanes[i].worker.NotStarted? && t.lanes[i].taken == |t.lanes[i].accepted|;
    UnstartedLane(c, t.lanes[i]);
  }

  lemma UnstartedLane(c: Config, l: Lane)
    requires LaneInv(c, l) && l.worker.NotStarted? && l.taken == |l.accepted|
    ensures l.log == [] && l.delivered == [] && l.failed == [] && |l.undelivered| == |l.accepted|
    ensures forall p: nat | p < |l.accepted| :: p in l.undelivered
  {
    LaneConserves(c, l);
    hide Sized, Ordered, Logged, Bounded, Fitting;
    forall p: nat | p < |l.accepted|
      ensures p in l.undelivered
    {
      assert Places(p, l.delivered, l.failed, l.undelivered, InHand(l)) == 1;
    }
  }
}
