/** A worker's steps on one batch are the delivery of that batch (internal/report/dispatcher.go). */
module LaneDelivery {
  import opened Wrappers
  import opened DispatcherLane
  import opened Dispatcher
  import Delivery

  /** One step of a worker, and whether the shutdown deadline has passed by then. */
  datatype Move = Move(step: WorkerStep, abort: bool)

  /** Where a worker's moves lead, if each is enabled in turn. */
  function Moved(c: Config, l: Lane, id: nat, moves: seq<Move>): Option<Lane> {
    if moves == [] then Some(l)
    else
      var last := moves[|moves| - 1];
      match Moved(c, l, id, moves[..|moves| - 1])
      case None => None
      case Some(m) =>
        if WorkerEnabled(c, m, last.abort, last.step) then Some(WorkerApply(c, m, last.abort, id, last.step)) else None
  }

  /** The moves of a delivery that ends at attempt n. */
  function MovesOf(last: Delivery.Attempt, n: nat, fate: Delivery.Fate): seq<Move>
    requires n >= 1
  {
    match fate
    case FateDelivered => Retries(n - 1) + [Move(CallOk, last.aborted)]
    case FateFailed => Retries(n - 1) + [Move(CallFails, false)]
    case FateUndelivered =>
      if last.aborted then Retries(n - 1) + [Move(CallAborted, true)] else Retries(n) + [Move(SleepAborted, true)]
  }

  function Retries(n: nat): seq<Move> {
    seq(n, _ => Move(CallRetries, false))
  }

  /** The calls a delivery makes. */
  function Calls(id: nat, batch: seq<nat>, n: nat, ok: bool): (r: seq<Attempt>)
    ensures |r| == n
  {
    seq(n, i => DispatcherLane.Attempt(id, batch, ok && i == n - 1))
  }

  /** The lane after n calls for its batch, of which the last went well or not. */
  function Tried(l: Lane, n: nat, ok: bool, retries: nat): Lane
    requires l.worker.Delivering?
  {
    l.(worker := l.worker.(made := n), attempted := if n == 0 then l.attempted else l.attempted + [l.batch],
       log := l.log + Calls(l.worker.id, l.batch, n, ok), retries := l.retries + retries)
  }

  lemma CallsMore(id: nat, batch: seq<nat>, n: nat, ok: bool)
    ensures Calls(id, batch, n + 1, ok) == Calls(id, batch, n, false) + [DispatcherLane.Attempt(id, batch, ok)]
  {
  }

  lemma TriedMore(l: Lane, n: nat, ok: bool)
    requires l.worker.Delivering? && l.worker.made == 0
    ensures Call(Tried(l, n, false, n), ok) == Tried(l, n + 1, ok, n)
    ensures Retry(Tried(l, n + 1, false, n)) == Tried(l, n + 1, false, n + 1)
  {
    CallsMore(l.worker.id, l.batch, n, ok);
    var calls := Calls(l.worker.id, l.batch, n, false);
    assert l.log + (calls + [DispatcherLane.Attempt(l.worker.id, l.batch, ok)]) ==
           l.log + calls + [DispatcherLane.Attempt(l.worker.id, l.batch, ok)];
    hide Calls;
  }

  lemma {:induction false} RetriesMove(c: Config, l: Lane, id: nat, n: nat)
    requires l.worker.Delivering? && l.worker.made == 0 && n < c.maxAttempts
    ensures Moved(c, l, id, Retries(n)) == Some(Tried(l, n, false, n))
  {
    if n == 0 {
      assert l.log + [] == l.log;
      assert Calls(l.worker.id, l.batch, 0, false) == [];
    } else {
      RetriesMove(c, l, id, n - 1);
      assert Retries(n)[..n - 1] == Retries(n - 1) && Retries(n)[n - 1] == Move(CallRetries, false);
      TriedMore(l, n - 1, false);
      assert Tried(l, n - 1, false, n - 1).worker == l.worker.(made := n - 1);
      hide Tried, Call, Retry, Retries, Receive, Discard, Settle, EndOfQueue, Flush, Abandon, Begin, SettleDelivered;
      hide SettleFailed, SettleUndelivered, PendingKnown;
    }
  }

  /** The lane a delivery leaves: its calls and retries on record, the batch in the list its fate names, and settled. */
  function Delivered(c: Config, l: Lane, n: nat, fate: Delivery.Fate, retries: nat): Lane
    requires l.worker.Delivering? && PendingKnown(l)
  {
    var t := Tried(l, n, fate.FateDelivered?, retries);
    match fate
    case FateDelivered => Settle(c, t.(delivered := l.delivered + l.batch))
    case FateFailed => Settle(c, t.(failed := l.failed + l.batch))
    case FateUndelivered => Settle(c, t.(undelivered := l.undelivered + l.batch))
  }

  lemma OneMore(c: Config, l: Lane, id: nat, moves: seq<Move>, m: Move, t: Lane)
    requires Moved(c, l, id, moves) == Some(t) && WorkerEnabled(c, t, m.abort, m.step)
    ensures Moved(c, l, id, moves + [m]) == Some(WorkerApply(c, t, m.abort, id, m.step))
  {
    assert (moves + [m])[..|moves|] == moves;
    hide WorkerApply, WorkerEnabled;
  }

  /**
   * However the environment answers: the worker can make the moves of the delivery the retry rules give, and they leave
   * the lane with exactly that delivery's calls and retries, the batch counted by its fate.
   */
  lemma DeliveryMoves(c: Config, l: Lane, id: nat, limits: Delivery.Limits, env: nat -> Delivery.Attempt, n: nat)
    requires LaneInv(c, l) && l.worker.Delivering? && l.worker.made == 0
    requires Delivery.ValidLimits(limits) && limits.maxAttempts == c.maxAttempts
    requires Delivery.Attempted(limits, env, n) && !Delivery.Retried(limits, env, n)
    ensures PendingKnown(l)
    ensures var fate := Delivery.FateAt(limits, env, n);
            var retries := n - 1 + if fate.FateUndelivered? && !env(n).aborted then 1 else 0;
            Moved(c, l, id, MovesOf(env(n), n, fate)) == Some(Delivered(c, l, n, fate, retries))
  {
    hide Settle, Tried, Call, Moved, Retries, PendingKnown, Delivery.BudgetSpent, Delivery.Wait, LaneInv;
    KnownPending(c, l);
    Delivery.AttemptedWithin(limits, env, n);
    var fate := Delivery.FateAt(limits, env, n);
    TriedMore(l, n - 1, fate.FateDelivered?);
    if fate.FateUndelivered? && !env(n).aborted {
      RetriesMove(c, l, id, n);
      TriedFrame(c, l, n, false, n);
      OneMore(c, l, id, Retries(n), Move(SleepAborted, true), Tried(l, n, false, n));
    } else {
      RetriesMove(c, l, id, n - 1);
      TriedFrame(c, l, n - 1, false, n - 1);
      TriedFrame(c, l, n, fate.FateDelivered?, n - 1);
      var m := MovesOf(env(n), n, fate)[|Retries(n - 1)|];
      OneMore(c, l, id, Retries(n - 1), m, Tried(l, n - 1, false, n - 1));
    }
  }

  lemma KnownPending(c: Config, l: Lane)
    requires LaneInv(c, l)
    ensures PendingKnown(l)
  {
    assert AllEncodable(l.accepted, PendingList(l));
    hide Measured;
    assert l.pending.Some? ==> PendingList(l)[0] == l.pending.value;
  }

  /** Calls and retries leave the rest of the lane alone. */
  lemma TriedFrame(c: Config, l: Lane, n: nat, ok: bool, retries: nat)
    requires l.worker.Delivering? && PendingKnown(l)
    ensures var t := Tried(l, n, ok, retries);
      && PendingKnown(t) && t.worker == l.worker.(made := n)
      && t.batch == l.batch && t.delivered == l.delivered && t.failed == l.failed && t.undelivered == l.undelivered
  {
  }
}
