/** Batch IDs tell batches apart, over all lanes (internal/report/dispatcher.go). */
module BatchIDs {
  import opened Wrappers
  import opened ReportBatch
  import opened DispatcherLane
  import opened Dispatcher
  import Graceful

  // -------------------------------------------------------------- one lane

  /** Two calls carry the same number exactly when they are for the same batch. */
  predicate Agree(a: Attempt, b: Attempt) {
    a.id == b.id <==> a.batch == b.batch
  }

  /** The calls so far, and the batch in delivery, carry numbers the counter has given out, one per batch. */
  predicate Numbered(l: Lane, batches: nat) {
    && (forall k | 0 <= k < |l.log| :: 1 <= l.log[k].id <= batches)
    && (forall j, k | 0 <= j < k < |l.log| :: Agree(l.log[j], l.log[k]))
    && (l.worker.Delivering? ==>
          && 1 <= l.worker.id <= batches
          && (l.worker.made > 0 ==> l.log != [] && l.log[|l.log| - 1].id == l.worker.id)
          && (l.worker.made == 0 ==> forall k | 0 <= k < |l.log| :: l.log[k].id != l.worker.id))
  }

  /** The lane has used the number. */
  ghost predicate Uses(l: Lane, id: nat) {
    (l.worker.Delivering? && l.worker.id == id) || exists k :: 0 <= k < |l.log| && l.log[k].id == id
  }

  /** A batch not handed over yet is none of those that were. */
  lemma NotYetCalled(c: Config, l: Lane, k: nat)
    requires LaneInv(c, l) && l.worker.Delivering? && l.worker.made == 0 && k < |l.log|
    ensures l.log[k].batch != l.batch
  {
    hide Conserved, Sized, Bounded, Encodable, Flatten, Erased, DeliveredBy;
    assert WithinLimits(c, l.accepted, l.log[k].batch);
    hide WithinLimits, Fitting;
    if l.log[k].batch == l.batch {
      var p := l.batch[0];
      LoggedIsAttempted(l.log, k, p);
      EncodableIncreasing(l.accepted, l.taken);
      Repeated(Encodable(l.accepted, l.taken), Flatten(l.attempted), InHand(l), p);
    }
  }

  /** A strictly increasing list holds nothing twice. */
  lemma Repeated(all: seq<nat>, a: seq<nat>, b: seq<nat>, p: nat)
    requires all == a + b && forall i, j | 0 <= i < j < |all| :: all[i] < all[j]
    ensures p in a ==> p !in b
  {
    forall i, j | 0 <= i < |a| && 0 <= j < |b|
      ensures a[i] != b[j]
    {
      assert all[i] == a[i] && all[|a| + j] == b[j];
    }
  }

  lemma {:induction false} LoggedIsAttempted(log: seq<Attempt>, k: nat, p: nat)
    requires k < |log| && p in log[k].batch
    ensures p in Flatten(Erased(log))
  {
    var front, a := log[..|log| - 1], log[|log| - 1];
    ErasedMore(front, a);
    assert front + [a] == log;
    if k < |front| {
      LoggedIsAttempted(front, k, p);
    }
    hide Erased;
    FlattenMore(Erased(front), a.batch);
    LastFlattened(Erased(log), p);
  }

  lemma LastFlattened(batches: seq<seq<nat>>, p: nat)
    ensures batches != [] && p in batches[|batches| - 1] ==> p in Flatten(batches)
  {
  }

  /** An earlier call agrees with one more for the batch in delivery. */
  lemma LastAgrees(c: Config, l: Lane, ok: bool, batches: nat, j: nat)
    requires LaneInv(c, l) && l.worker.Delivering? && Numbered(l, batches) && j < |l.log|
    ensures Agree(l.log[j], DispatcherLane.Attempt(l.worker.id, l.batch, ok))
  {
    hide LaneInv;
    if l.worker.made == 0 {
      NotYetCalled(c, l, j);
    } else {
      CalledLast(c, l);
      assert j < |l.log| - 1 ==> Agree(l.log[j], l.log[|l.log| - 1]);
    }
  }

  /** One more call carries the number of its batch, and no other batch's. */
  lemma CallNumbered(c: Config, l: Lane, ok: bool, batches: nat)
    requires LaneInv(c, l) && l.worker.Delivering? && Numbered(l, batches)
    ensures Numbered(Call(l, ok), batches)
    ensures forall id :: Uses(Call(l, ok), id) <==> Uses(l, id)
  {
    hide LaneInv, Agree, Uses;
    CallUses(l, ok);
    forall j: nat | j < |l.log|
      ensures Agree(l.log[j], DispatcherLane.Attempt(l.worker.id, l.batch, ok))
    {
      LastAgrees(c, l, ok, batches, j);
    }
  }

  lemma CallUses(l: Lane, ok: bool)
    requires l.worker.Delivering?
    ensures forall id :: Uses(Call(l, ok), id) <==> Uses(l, id)
  {
    var s := Call(l, ok);
    forall id
      ensures Uses(s, id) <==> Uses(l, id)
    {
      if Uses(l, id) && !(l.worker.id == id) {
        var k :| 0 <= k < |l.log| && l.log[k].id == id;
        assert s.log[k].id == id;
      }
    }
  }

  lemma CalledLast(c: Config, l: Lane)
    requires LaneInv(c, l) && l.worker.Delivering? && l.worker.made > 0
    ensures l.log != [] && l.log[|l.log| - 1].batch == l.batch
  {
    hide Conserved, Sized, Ordered, Logged, Fitting, Trailing;
  }

  /** Settling, like everything but beginning and calling, leaves the calls and their numbers alone. */
  lemma QuietNumbered(l: Lane, s: Lane, batches: nat)
    requires Numbered(l, batches) && s.log == l.log
    requires s.worker == l.worker || (!s.worker.Delivering? && (l.worker.Delivering? ==> l.worker.made > 0))
    ensures Numbered(s, batches) && forall id | Uses(s, id) :: Uses(l, id)
  {
    hide Agree;
  }

  /** A worker's step keeps its lane numbered and uses no number but the next one, and that only for a new batch. */
  lemma WorkerNumbered(c: Config, l: Lane, abort: bool, batches: nat, w: WorkerStep)
    requires LaneInv(c, l) && Numbered(l, batches) && WorkerEnabled(c, l, abort, w)
    ensures var s := WorkerApply(c, l, abort, batches + 1, w);
      && Numbered(s, if w.Begins? then batches + 1 else batches)
      && forall id | Uses(s, id) :: Uses(l, id) || (w.Begins? && id == batches + 1)
  {
    hide LaneInv, Numbered, Uses, Settle, Envelope;
    var s := WorkerApply(c, l, abort, batches + 1, w);
    match w
    case Begins => BeginNumbered(l, batches);
    case CallRetries =>
      CallNumbered(c, l, false, batches);
      RetryNumbered(Call(l, false), batches);
    case CallOk =>
      CallNumbered(c, l, true, batches);
      SettleNumbered(c, Call(l, true), Call(l, true).(delivered := l.delivered + l.batch), batches);
    case CallFails =>
      CallNumbered(c, l, false, batches);
      SettleNumbered(c, Call(l, false), Call(l, false).(failed := l.failed + l.batch), batches);
    case CallAborted =>
      CallNumbered(c, l, false, batches);
      SettleNumbered(c, Call(l, false), Call(l, false).(undelivered := l.undelivered + l.batch), batches);
    case SleepAborted => SettleNumbered(c, l, l.(undelivered := l.undelivered + l.batch), batches);
    case _ => QuietNumbered(l, s, batches);
  }

  lemma BeginNumbered(l: Lane, batches: nat)
    requires Numbered(l, batches) && l.worker.Sending?
    ensures Numbered(Begin(l, batches + 1), batches + 1)
    ensures forall id | Uses(Begin(l, batches + 1), id) :: Uses(l, id) || id == batches + 1
  {
    hide Agree;
  }

  lemma RetryNumbered(l: Lane, batches: nat)
    requires Numbered(l, batches)
    ensures Numbered(Retry(l), batches) && forall id | Uses(Retry(l), id) :: Uses(l, id)
  {
    hide Agree;
  }

  lemma SettleNumbered(c: Config, l: Lane, s: Lane, batches: nat)
    requires Numbered(l, batches) && l.worker.Delivering? && l.worker.made > 0 && PendingKnown(s)
    requires s.worker == l.worker && s.log == l.log
    ensures Numbered(Settle(c, s), batches) && forall id | Uses(Settle(c, s), id) :: Uses(l, id)
  {
    Graceful.SettleFrame(c, s);
    hide Settle;
    QuietNumbered(l, Settle(c, s), batches);
  }

  // --------------------------------------------------------------- machine

  /** Every lane is numbered, and no number is used by two lanes. */
  ghost predicate AllNumbered(s: State) {
    && (forall i | 0 <= i < |s.lanes| :: Numbered(s.lanes[i], s.batches))
    && (forall i, j, id | 0 <= i < |s.lanes| && 0 <= j < |s.lanes| && Uses(s.lanes[i], id) && Uses(s.lanes[j], id) ::
          i == j)
  }

  lemma UsedWithin(l: Lane, batches: nat, id: nat)
    requires Numbered(l, batches) && Uses(l, id)
    ensures 1 <= id <= batches
  {
    hide Agree;
  }

  lemma NumberedLater(l: Lane, batches: nat)
    requires Numbered(l, batches)
    ensures Numbered(l, batches + 1)
  {
    hide Agree;
  }

  lemma WorkerKeepsNumbers(c: Config, s: State, st: Step)
    requires LanesInv(c, s) && AllNumbered(s) && Enabled(c, s, st) && st.WorkerMoves?
    ensures AllNumbered(Apply(c, s, st))
  {
    hide LaneInv, Numbered, Uses, WorkerApply, WorkerEnabled;
    var i, t := st.i, Apply(c, s, st);
    LaneOf(c, s, i);
    WorkerNumbered(c, s.lanes[i], s.abort, s.batches, st.step);
    forall j | 0 <= j < |t.lanes|
      ensures Numbered(t.lanes[j], t.batches)
    {
      if j != i {
        NumberedLater(s.lanes[j], s.batches);
      }
    }
    forall j, k, id | 0 <= j < |t.lanes| && 0 <= k < |t.lanes| && Uses(t.lanes[j], id) && Uses(t.lanes[k], id)
      ensures j == k
    {
      if j != i && Uses(s.lanes[j], id) {
        UsedWithin(s.lanes[j], s.batches, id);
      }
      if k != i && Uses(s.lanes[k], id) {
        UsedWithin(s.lanes[k], s.batches, id);
      }
    }
  }

  /** The other steps call no reporter. */
  lemma OtherKeepsNumbers(c: Config, s: State, st: Step)
    requires Inv(c, s) && AllNumbered(s) && Enabled(c, s, st) && !st.WorkerMoves?
    ensures AllNumbered(Apply(c, s, st))
  {
    hide LanesInv, LaneInv, CountsInv, CallsInv, Numbered, Uses, WorkerApply, WorkerEnabled;
    var t := Apply(c, s, st);
    forall i: nat | i < |s.lanes|
      ensures |t.lanes| == |s.lanes| && Numbered(t.lanes[i], t.batches)
      ensures forall id | Uses(t.lanes[i], id) :: Uses(s.lanes[i], id)
    {
      if st.Start? {
        assert s.lanes[i].worker.NotStarted?;
      } else {
        Graceful.OtherSteps(c, s, st, i);
      }
      assert t.batches == s.batches;
      QuietNumbered(s.lanes[i], t.lanes[i], s.batches);
    }
    hide Apply, Enabled;
  }

  lemma {:induction false} RunNumbers(c: Config, s: State, steps: seq<Step>, t: State)
    requires ValidConfig(c) && Inv(c, s) && AllNumbered(s) && Reaches(c, s, steps, t)
    ensures Inv(c, t) && AllNumbered(t)
    decreases |steps|
  {
    hide Inv, AllNumbered, Enabled, Apply;
    if steps != [] {
      StepKeeps(c, s, steps[0]);
      if steps[0].WorkerMoves? {
        LanesOf(c, s);
        WorkerKeepsNumbers(c, s, steps[0]);
      } else {
        OtherKeepsNumbers(c, s, steps[0]);
      }
      RunNumbers(c, Apply(c, s, steps[0]), steps[1..], t);
    }
  }

  lemma LanesOf(c: Config, s: State)
    requires Inv(c, s)
    ensures LanesInv(c, s)
  {
    hide LaneInv;
  }

  /**
   * In every run any two calls of reporters, of whatever lanes, carry the same batch ID exactly when they are calls for
   * the same batch of the same lane: retries repeat the ID, and no two batches share one.
   */
  lemma IDsTellBatches(c: Config, n: nat, steps: seq<Step>, t: State, i: nat, j: nat, p: nat, q: nat)
    requires ValidConfig(c) && Reaches(c, Init(c, n), steps, t)
    requires i < |t.lanes| && j < |t.lanes| && p < |t.lanes[i].log| && q < |t.lanes[j].log|
    ensures t.lanes[i].log[p].id == t.lanes[j].log[q].id <==>
              i == j && t.lanes[i].log[p].batch == t.lanes[j].log[q].batch
    ensures 1 <= t.lanes[i].log[p].id <= t.batches
  {
    hide Inv;
    InitInv(c, n);
    RunNumbers(c, Init(c, n), steps, t);
    assert Uses(t.lanes[i], t.lanes[i].log[p].id) && Uses(t.lanes[j], t.lanes[j].log[q].id);
    assert Numbered(t.lanes[i], t.batches);
    assert p < q && i == j ==> Agree(t.lanes[i].log[p], t.lanes[i].log[q]);
    assert q < p && i == j ==> Agree(t.lanes[i].log[q], t.lanes[i].log[p]);
  }
}
