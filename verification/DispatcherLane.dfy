/**
 * One destination's queue and worker (internal/report/dispatcher.go).
 * Accepted events are named by their position in the order their sends took place.
 */
module DispatcherLane {
  import opened Wrappers
  import opened Decimal
  import opened ReportBatch

  /** An event and its encoding, which may fail. */
  datatype Event = Event(id: string, body: Option<string>)

  datatype Config = Config(queueCapacity: nat, batchEvents: nat, batchBytes: nat, maxAttempts: nat, instance: string)

  predicate ValidConfig(c: Config) {
    && 1 <= c.queueCapacity <= 1000000
    && 1 <= c.batchEvents <= c.queueCapacity
    && 1024 <= c.batchBytes <= 64 * 1048576
    && 1 <= c.maxAttempts <= 100
  }

  /** Where the worker is: collecting, about to deliver, delivering, or done. `last` says it exits after this batch. */
  datatype Worker =
    | NotStarted | Selecting | Sending(last: bool) | Delivering(id: nat, made: nat, last: bool) | Abandoning | Exited

  /** One call of the destination's reporter. */
  datatype Attempt = Attempt(id: nat, batch: seq<nat>, ok: bool)

  /**
   * The queue is accepted[taken..]. delivered, failed and undelivered stand for the counters of those names;
   * calls counts the Enqueue calls, attempted lists the batches handed to the reporter, log every call of it.
   */
  datatype Lane = Lane(
    accepted: seq<Event>, taken: nat, queueClosed: bool, calls: nat, enqueued: nat, dropped: nat,
    worker: Worker, batch: seq<nat>, size: nat, pending: Option<nat>,
    delivered: seq<nat>, failed: seq<nat>, undelivered: seq<nat>, retries: nat,
    attempted: seq<seq<nat>>, log: seq<Attempt>)

  function NewLane(c: Config): Lane {
    Lane([], 0, false, 0, 0, 0, NotStarted, [], Envelope(c.instance), None, [], [], [], 0, [], [])
  }

  function QueueLength(l: Lane): int {
    |l.accepted| - l.taken
  }

  // ------------------------------------------------------------------- steps

  function Accept(l: Lane, e: Event): Lane {
    l.(accepted := l.accepted + [e])
  }

  /** The event at p opens or joins the batch, which closes when it is full. */
  function Join(c: Config, l: Lane, p: nat): Lane
    requires p < |l.accepted| && l.accepted[p].body.Some?
  {
    var batch, size := l.batch + [p], l.size + |l.accepted[p].body.value| + 1;
    l.(batch := batch, size := size, pending := None,
       worker := if |batch| >= c.batchEvents || size >= c.batchBytes then Sending(false) else Selecting)
  }

  /** Taking the next event: unencodable, too big for the open batch, or joining it. */
  function Receive(c: Config, l: Lane): Lane
    requires l.taken < |l.accepted|
  {
    var p, l' := l.taken, l.(taken := l.taken + 1);
    match l.accepted[p].body
    case None => l'.(failed := l.failed + [p])
    case Some(body) =>
      if l.batch != [] && l.size + |body| + 1 > c.batchBytes then l'.(pending := Some(p), worker := Sending(false))
      else Join(c, l', p)
  }

  function EndOfQueue(l: Lane): Lane {
    l.(worker := if l.batch == [] then Exited else Sending(true))
  }

  function Flush(l: Lane): Lane {
    l.(worker := Sending(false))
  }

  /** Seeing the shutdown deadline: what is in hand is abandoned. */
  function Abandon(l: Lane): Lane {
    l.(undelivered := l.undelivered + l.batch, batch := [], worker := Abandoning)
  }

  /** Abandoning, or draining without a worker: the next queued event is undelivered. */
  function Discard(l: Lane): Lane
    requires l.taken < |l.accepted|
  {
    l.(undelivered := l.undelivered + [l.taken], taken := l.taken + 1)
  }

  function Begin(l: Lane, id: nat): Lane
    requires l.worker.Sending?
  {
    l.(worker := Delivering(id, 0, l.worker.last))
  }

  /** One reporter call on the batch in hand. */
  function Call(l: Lane, ok: bool): Lane
    requires l.worker.Delivering?
  {
    l.(worker := l.worker.(made := l.worker.made + 1),
       attempted := if l.worker.made == 0 then l.attempted + [l.batch] else l.attempted,
       log := l.log + [Attempt(l.worker.id, l.batch, ok)])
  }

  function Retry(l: Lane): Lane {
    l.(retries := l.retries + 1)
  }

  /** The batch is settled; the worker goes on with the event that had not fitted, or exits. */
  function Settle(c: Config, l: Lane): Lane
    requires l.worker.Delivering? &&
             (l.pending.Some? ==> l.pending.value < |l.accepted| && l.accepted[l.pending.value].body.Some?)
  {
    var l' := l.(batch := [], size := Envelope(c.instance));
    if l.worker.last then l'.(worker := Exited)
    else if l.pending.Some? then Join(c, l', l.pending.value)
    else l'.(worker := Selecting)
  }

  function SettleDelivered(c: Config, l: Lane): Lane
    requires l.worker.Delivering? &&
             (l.pending.Some? ==> l.pending.value < |l.accepted| && l.accepted[l.pending.value].body.Some?)
  {
    Settle(c, l.(delivered := l.delivered + l.batch))
  }

  function SettleFailed(c: Config, l: Lane): Lane
    requires l.worker.Delivering? &&
             (l.pending.Some? ==> l.pending.value < |l.accepted| && l.accepted[l.pending.value].body.Some?)
  {
    Settle(c, l.(failed := l.failed + l.batch))
  }

  function SettleUndelivered(c: Config, l: Lane): Lane
    requires l.worker.Delivering? &&
             (l.pending.Some? ==> l.pending.value < |l.accepted| && l.accepted[l.pending.value].body.Some?)
  {
    Settle(c, l.(undelivered := l.undelivered + l.batch))
  }

  // --------------------------------------------------------------- invariant

  function UpTo(n: nat): (r: seq<nat>)
    ensures |r| == n && forall i | 0 <= i < n :: r[i] == i
  {
    if n == 0 then [] else UpTo(n - 1) + [n - 1]
  }

  function PendingList(l: Lane): seq<nat> {
    if l.pending.Some? then [l.pending.value] else []
  }

  /** Taken but not settled. */
  function InHand(l: Lane): seq<nat> {
    l.batch + PendingList(l)
  }

  /** The encodable positions among the first n accepted, in order. */
  function Encodable(accepted: seq<Event>, n: nat): seq<nat>
    requires n <= |accepted|
  {
    if n == 0 then [] else Encodable(accepted, n - 1) + if accepted[n - 1].body.Some? then [n - 1] else []
  }

  function Bodies(accepted: seq<Event>, batch: seq<nat>): (r: seq<string>)
    requires AllEncodable(accepted, batch)
    ensures |r| == |batch|
  {
    if batch == [] then []
    else Bodies(accepted, batch[..|batch| - 1]) + [accepted[batch[|batch| - 1]].body.value]
  }

  predicate AllEncodable(accepted: seq<Event>, batch: seq<nat>) {
    forall i | 0 <= i < |batch| :: batch[i] < |accepted| && accepted[batch[i]].body.Some?
  }

  function Flatten(batches: seq<seq<nat>>): seq<nat> {
    if batches == [] then [] else Flatten(batches[..|batches| - 1]) + batches[|batches| - 1]
  }

  /** The log with consecutive repeats of a batch erased. */
  function Erased(log: seq<Attempt>): seq<seq<nat>> {
    if log == [] then []
    else
      var rest, last := Erased(log[..|log| - 1]), log[|log| - 1].batch;
      if rest != [] && rest[|rest| - 1] == last then rest else rest + [last]
  }

  /** The first n positions are shared out, each exactly once. */
  predicate Partition(n: nat, delivered: seq<nat>, failed: seq<nat>, undelivered: seq<nat>, hand: seq<nat>) {
    multiset(UpTo(n)) == multiset(delivered) + multiset(failed) + multiset(undelivered) + multiset(hand)
  }

  /** Every position taken from the queue is in exactly one place, once. */
  predicate Conserved(l: Lane) {
    l.taken <= |l.accepted| && Partition(l.taken, l.delivered, l.failed, l.undelivered, InHand(l))
  }

  /** A batch within the event and byte limits, measured by the running size. */
  predicate Measured(c: Config, accepted: seq<Event>, batch: seq<nat>, size: nat) {
    && AllEncodable(accepted, batch)
    && size == RunningSize(c.instance, Bodies(accepted, batch))
    && |batch| <= c.batchEvents
    && (|batch| >= 2 ==> size <= c.batchBytes)
  }

  predicate Sized(c: Config, l: Lane) {
    AllEncodable(l.accepted, PendingList(l)) &&
    (!l.worker.Abandoning? && !l.worker.Exited? ==> Measured(c, l.accepted, l.batch, l.size))
  }

  predicate Placed(c: Config, l: Lane) {
    match l.worker
    case Selecting => l.pending.None? && |l.batch| < c.batchEvents
    case Sending(last) => l.batch != [] && (last ==> l.pending.None? && l.queueClosed && l.taken == |l.accepted|)
    case Delivering(_, made, last) =>
      l.batch != [] && made < c.maxAttempts && (last ==> l.pending.None? && l.queueClosed && l.taken == |l.accepted|)
    case Exited => InHand(l) == [] && l.queueClosed && l.taken == |l.accepted|
    case Abandoning => InHand(l) == []
    case NotStarted =>
      InHand(l) == [] && l.log == [] && l.delivered == [] && l.failed == [] && (!l.queueClosed ==> l.taken == 0)
  }

  /** Taken and encodable but not yet handed to the reporter. */
  function Waiting(l: Lane): seq<nat> {
    if l.worker.Delivering? && l.worker.made > 0 then PendingList(l) else InHand(l)
  }

  predicate Collecting(w: Worker) {
    w.Selecting? || w.Sending? || w.Delivering?
  }

  /** Batches reach the reporter in accepted order; while the worker collects, nothing encodable is skipped. */
  predicate Ordered(l: Lane) {
    && l.taken <= |l.accepted|
    && InOrder(Encodable(l.accepted, l.taken), Flatten(l.attempted), Waiting(l), Collecting(l.worker))
  }

  predicate InOrder(encodable: seq<nat>, attempted: seq<nat>, waiting: seq<nat>, all: bool) {
    if all then encodable == attempted + waiting else attempted <= encodable && waiting == []
  }

  /**
   * The log is the attempted batches with repeats, and a position is delivered exactly when a call for its batch
   * returned nil.
   */
  ghost predicate Logged(l: Lane) {
    && Erased(l.log) == l.attempted
    && (forall p :: p in l.delivered <==> DeliveredBy(l.log, p))
    && (l.worker.Delivering? && l.worker.made > 0 ==> l.attempted != [] && l.attempted[|l.attempted| - 1] == l.batch)
  }

  /** How many calls at the end of the log were for the same batch. */
  function Trailing(log: seq<Attempt>): nat {
    if log == [] then 0
    else
      var front := log[..|log| - 1];
      1 + if front != [] && front[|front| - 1].batch == log[|log| - 1].batch then Trailing(front) else 0
  }

  /** No batch is ever tried more often than the limit, and every call beyond a batch's first was counted as a retry. */
  ghost predicate Bounded(c: Config, l: Lane) {
    && (forall n: nat | n <= |l.log| :: Trailing(l.log[..n]) <= c.maxAttempts)
    && (l.worker.Delivering? && l.worker.made > 0 ==>
          Trailing(l.log) == l.worker.made && l.log != [] && l.log[|l.log| - 1].batch == l.batch)
    && |l.log| + (if l.worker.Delivering? && l.worker.made > 0 then 1 else 0) <= |l.attempted| + l.retries
  }

  ghost predicate DeliveredBy(log: seq<Attempt>, p: nat) {
    exists i :: 0 <= i < |log| && log[i].ok && p in log[i].batch
  }

  /** Some events, at most the limit, and of two or more also within the byte limit, measured by the running size. */
  predicate WithinLimits(c: Config, accepted: seq<Event>, batch: seq<nat>) {
    && AllEncodable(accepted, batch) && 1 <= |batch| <= c.batchEvents
    && (|batch| >= 2 ==> RunningSize(c.instance, Bodies(accepted, batch)) <= c.batchBytes)
  }

  /** Every call the reporter ever got was for a batch within the limits. */
  predicate Fitting(c: Config, accepted: seq<Event>, log: seq<Attempt>) {
    forall i | 0 <= i < |log| :: WithinLimits(c, accepted, log[i].batch)
  }

  ghost predicate LaneInv(c: Config, l: Lane) {
    && Conserved(l) && Sized(c, l) && Placed(c, l) && Ordered(l) && Logged(l) && Bounded(c, l)
    && Fitting(c, l.accepted, l.log) && QueueLength(l) <= c.queueCapacity
  }

  // ------------------------------------------------------------------ lemmas

  lemma {:induction false} EncodableIncreasing(accepted: seq<Event>, n: nat)
    requires n <= |accepted|
    ensures forall i | 0 <= i < |Encodable(accepted, n)| :: Encodable(accepted, n)[i] < n
    ensures forall i, j | 0 <= i < j < |Encodable(accepted, n)| :: Encodable(accepted, n)[i] < Encodable(accepted, n)[j]
  {
    if n > 0 {
      EncodableIncreasing(accepted, n - 1);
    }
  }

  /** Later arrivals do not change what was encodable before. */
  lemma {:induction false} EncodableGrows(accepted: seq<Event>, e: Event, n: nat)
    requires n <= |accepted|
    ensures Encodable(accepted + [e], n) == Encodable(accepted, n)
  {
    if n > 0 {
      EncodableGrows(accepted, e, n - 1);
    }
  }

  lemma {:induction false} BodiesGrow(accepted: seq<Event>, e: Event, batch: seq<nat>)
    requires AllEncodable(accepted, batch)
    ensures AllEncodable(accepted + [e], batch) && Bodies(accepted + [e], batch) == Bodies(accepted, batch)
  {
    if batch != [] {
      BodiesGrow(accepted, e, batch[..|batch| - 1]);
    }
  }

  lemma FlattenMore(batches: seq<seq<nat>>, b: seq<nat>)
    ensures Flatten(batches + [b]) == Flatten(batches) + b
  {
    assert (batches + [b])[..|batches|] == batches;
  }

  lemma ErasedMore(log: seq<Attempt>, a: Attempt)
    ensures Erased(log + [a]) ==
            if Erased(log) != [] && Erased(log)[|Erased(log)| - 1] == a.batch then Erased(log)
            else Erased(log) + [a.batch]
  {
    assert (log + [a])[..|log|] == log;
  }

  lemma DeliveredMore(log: seq<Attempt>, a: Attempt, p: nat)
    ensures DeliveredBy(log + [a], p) <==> DeliveredBy(log, p) || (a.ok && p in a.batch)
  {
    if DeliveredBy(log, p) {
      var i :| 0 <= i < |log| && log[i].ok && p in log[i].batch;
      assert (log + [a])[i] == log[i];
    }
    if a.ok && p in a.batch {
      assert (log + [a])[|log|] == a;
    }
  }

  // --------------------------------------------------- shares of positions

  lemma Take(n: nat, delivered: seq<nat>, failed: seq<nat>, undelivered: seq<nat>, hand: seq<nat>)
    requires Partition(n, delivered, failed, undelivered, hand)
    ensures Partition(n + 1, delivered, failed, undelivered, hand + [n])
    ensures Partition(n + 1, delivered, failed + [n], undelivered, hand)
    ensures Partition(n + 1, delivered, failed, undelivered + [n], hand)
  {
    assert UpTo(n + 1) == UpTo(n) + [n];
    hide UpTo;
  }

  /** A batch leaving the hand goes to exactly one list. */
  lemma Hand(n: nat, delivered: seq<nat>, failed: seq<nat>, undelivered: seq<nat>, batch: seq<nat>, rest: seq<nat>)
    requires Partition(n, delivered, failed, undelivered, batch + rest)
    ensures Partition(n, delivered + batch, failed, undelivered, rest)
    ensures Partition(n, delivered, failed + batch, undelivered, rest)
    ensures Partition(n, delivered, failed, undelivered + batch, rest)
  {
    hide UpTo;
  }

  /** In how many places position p is, and how often. */
  function Places(p: nat, delivered: seq<nat>, failed: seq<nat>, undelivered: seq<nat>, hand: seq<nat>): nat {
    multiset(delivered)[p] + multiset(failed)[p] + multiset(undelivered)[p] + multiset(hand)[p]
  }

  /** Sharing out means: each position in one place once, none from outside, and the counts add up. */
  lemma Shares(n: nat, delivered: seq<nat>, failed: seq<nat>, undelivered: seq<nat>, hand: seq<nat>)
    requires Partition(n, delivered, failed, undelivered, hand)
    ensures |delivered| + |failed| + |undelivered| + |hand| == n
    ensures forall p: nat :: Places(p, delivered, failed, undelivered, hand) == if p < n then 1 else 0
  {
    var all := multiset(delivered) + multiset(failed) + multiset(undelivered) + multiset(hand);
    assert |all| == |delivered| + |failed| + |undelivered| + |hand|;
    assert |multiset(UpTo(n))| == n;
    forall p: nat
      ensures Places(p, delivered, failed, undelivered, hand) == if p < n then 1 else 0
    {
      UpToOnce(n, p);
      assert all[p] == Places(p, delivered, failed, undelivered, hand);
    }
  }

  lemma {:induction false} UpToOnce(n: nat, p: nat)
    ensures multiset(UpTo(n))[p] == if p < n then 1 else 0
  {
    if n > 0 {
      UpToOnce(n - 1, p);
      var before, last: seq<nat> := UpTo(n - 1), [n - 1];
      assert UpTo(n) == before + last;
      assert multiset(last)[p] == if p == n - 1 then 1 else 0;
      assert multiset(before + last) == multiset(before) + multiset(last);
    }
  }

  // ------------------------------------------------------------- each step

  lemma NewLaneInv(c: Config)
    requires ValidConfig(c)
    ensures LaneInv(c, NewLane(c))
  {
  }

  lemma AcceptKeeps(c: Config, l: Lane, e: Event)
    requires LaneInv(c, l) && !l.queueClosed && QueueLength(l) < c.queueCapacity
    ensures LaneInv(c, Accept(l, e))
  {
    hide Conserved, Sized, Ordered, Logged, Bounded, Fitting;
    AcceptOrdered(l, e);
    AcceptSized(c, l, e);
    AcceptFitting(c, l.accepted, e, l.log);
    AcceptShares(c, l, e);
  }

  lemma AcceptShares(c: Config, l: Lane, e: Event)
    requires Conserved(l) && Logged(l) && Bounded(c, l)
    ensures Conserved(Accept(l, e)) && Logged(Accept(l, e)) && Bounded(c, Accept(l, e))
  {
    hide Partition, Erased, DeliveredBy, Fitting, Trailing;
  }

  lemma AcceptFitting(c: Config, accepted: seq<Event>, e: Event, log: seq<Attempt>)
    requires Fitting(c, accepted, log)
    ensures Fitting(c, accepted + [e], log)
  {
    forall i | 0 <= i < |log|
      ensures WithinLimits(c, accepted + [e], log[i].batch)
    {
      assert WithinLimits(c, accepted, log[i].batch);
      BodiesGrow(accepted, e, log[i].batch);
      hide Bodies, RunningSize;
    }
  }

  lemma AcceptOrdered(l: Lane, e: Event)
    requires Ordered(l)
    ensures Ordered(Accept(l, e))
  {
    EncodableGrows(l.accepted, e, l.taken);
    hide Encodable, InOrder, Flatten;
  }

  lemma AcceptSized(c: Config, l: Lane, e: Event)
    requires Sized(c, l)
    ensures Sized(c, Accept(l, e))
  {
    hide Measured;
    if Measured(c, l.accepted, l.batch, l.size) {
      AcceptMeasured(c, l.accepted, e, l.batch, l.size);
    }
  }

  lemma AcceptMeasured(c: Config, accepted: seq<Event>, e: Event, batch: seq<nat>, size: nat)
    requires Measured(c, accepted, batch, size)
    ensures Measured(c, accepted + [e], batch, size)
  {
    BodiesGrow(accepted, e, batch);
    hide Bodies, RunningSize;
  }

  /** Joining the batch keeps it within its limits when it was empty or the event fits. */
  lemma JoinMeasured(c: Config, accepted: seq<Event>, batch: seq<nat>, size: nat, p: nat)
    requires ValidConfig(c) && p < |accepted| && accepted[p].body.Some? && Measured(c, accepted, batch, size)
    requires |batch| < c.batchEvents && (batch == [] || size + |accepted[p].body.value| + 1 <= c.batchBytes)
    ensures Measured(c, accepted, batch + [p], size + |accepted[p].body.value| + 1)
  {
    hide RunningSize;
    BodiesMore(accepted, batch, p);
    RunningSizeGrows(c.instance, Bodies(accepted, batch), accepted[p].body.value);
    hide Bodies;
  }

  lemma BodiesMore(accepted: seq<Event>, batch: seq<nat>, p: nat)
    requires AllEncodable(accepted, batch) && p < |accepted| && accepted[p].body.Some?
    ensures AllEncodable(accepted, batch + [p])
    ensures Bodies(accepted, batch + [p]) == Bodies(accepted, batch) + [accepted[p].body.value]
  {
    assert (batch + [p])[..|batch|] == batch;
  }

  lemma EmptyMeasured(c: Config, accepted: seq<Event>)
    ensures Measured(c, accepted, [], Envelope(c.instance))
  {
    hide Envelope;
  }

  lemma ReceiveKeeps(c: Config, l: Lane)
    requires ValidConfig(c) && LaneInv(c, l) && l.worker.Selecting? && l.taken < |l.accepted|
    ensures LaneInv(c, Receive(c, l))
  {
    hide Conserved, Ordered, Sized, Logged, Trailing, Fitting;
    ReceivePlaced(c, l);
    ReceiveBounded(c, l);
    hide Receive;
    ReceiveConserved(c, l);
    ReceiveOrdered(c, l);
    ReceiveSized(c, l);
    ReceiveLogged(c, l);
    hide Placed, Bounded;
  }

  lemma ReceiveBounded(c: Config, l: Lane)
    requires Bounded(c, l) && l.worker.Selecting? && l.taken < |l.accepted|
    ensures Bounded(c, Receive(c, l))
  {
    hide Trailing;
  }

  lemma ReceivePlaced(c: Config, l: Lane)
    requires Placed(c, l) && l.worker.Selecting? && l.taken < |l.accepted|
    ensures l.pending.None? && Placed(c, Receive(c, l)) && QueueLength(Receive(c, l)) == QueueLength(l) - 1
  {
  }

  lemma ReceiveLogged(c: Config, l: Lane)
    requires Logged(l) && l.worker.Selecting? && l.taken < |l.accepted|
    ensures Logged(Receive(c, l))
  {
    hide Erased, DeliveredBy, Fitting;
  }

  lemma ReceiveConserved(c: Config, l: Lane)
    requires Conserved(l) && l.pending.None? && l.taken < |l.accepted|
    ensures Conserved(Receive(c, l))
  {
    hide Partition;
    Take(l.taken, l.delivered, l.failed, l.undelivered, l.batch);
    assert l.batch + [] == l.batch;
    assert l.accepted[l.taken].body.Some? ==> InHand(Receive(c, l)) == l.batch + [l.taken];
  }

  /**
   * The event received joins the open batch unless a batch of two or more would then exceed the byte limit; the batch
   * is
   * sent exactly when the event does not fit, or when with it the batch reaches the event limit or the byte limit.
   */
  lemma ReceiveCloses(c: Config, l: Lane)
    requires LaneInv(c, l) && l.worker.Selecting? && l.taken < |l.accepted| && l.accepted[l.taken].body.Some?
    ensures AllEncodable(l.accepted, l.batch + [l.taken])
    ensures var size := RunningSize(c.instance, Bodies(l.accepted, l.batch + [l.taken]));
            var fits := l.batch == [] || size <= c.batchBytes;
            var r := Receive(c, l);
            && r.batch == (if fits then l.batch + [l.taken] else l.batch)
            && r.pending == (if fits then None else Some(l.taken))
            && r.worker == if !fits || |l.batch| + 1 == c.batchEvents || size >= c.batchBytes then Sending(false)
                           else Selecting
  {
    hide Conserved, Ordered, Logged, Bounded, Fitting, RunningSize;
    BodiesMore(l.accepted, l.batch, l.taken);
    RunningSizeGrows(c.instance, Bodies(l.accepted, l.batch), l.accepted[l.taken].body.value);
    hide Bodies;
  }

  /** An event that did not fit opens the next batch once the full one is settled. */
  lemma SettleOpens(c: Config, l: Lane)
    requires LaneInv(c, l) && l.worker.Delivering? && l.pending.Some?
    ensures l.pending.value < |l.accepted| && l.accepted[l.pending.value].body.Some?
    ensures var p := l.pending.value;
            var size := RunningSize(c.instance, [l.accepted[p].body.value]);
            var r := Settle(c, l);
            && r.batch == [p] && r.pending == None
            && r.worker == if c.batchEvents <= 1 || size >= c.batchBytes then Sending(false) else Selecting
  {
    hide Conserved, Ordered, Logged, Bounded, Fitting, RunningSize, Measured;
    assert PendingList(l)[0] == l.pending.value;
    RunningSizeGrows(c.instance, [], l.accepted[l.pending.value].body.value);
    assert [] + [l.accepted[l.pending.value].body.value] == [l.accepted[l.pending.value].body.value];
    EmptyMeasured(c, l.accepted);
    EmptySize(c.instance);
  }

  lemma ReceiveOrdered(c: Config, l: Lane)
    requires Ordered(l) && l.worker.Selecting? && l.pending.None? && l.taken < |l.accepted|
    ensures Ordered(Receive(c, l))
  {
    hide Flatten;
    var p := l.taken;
    var encodable := Encodable(l.accepted, p);
    assert l.batch + [] == l.batch;
    assert encodable == Flatten(l.attempted) + l.batch;
    if l.accepted[p].body.Some? {
      assert Encodable(l.accepted, p + 1) == encodable + [p];
      assert Waiting(Receive(c, l)) == l.batch + [p];
      assert encodable + [p] == Flatten(l.attempted) + (l.batch + [p]);
    } else {
      assert Encodable(l.accepted, p + 1) == encodable + [];
      assert encodable + [] == encodable;
    }
  }

  lemma ReceiveSized(c: Config, l: Lane)
    requires ValidConfig(c) && Sized(c, l) && Placed(c, l) && l.worker.Selecting? && l.taken < |l.accepted|
    ensures Sized(c, Receive(c, l))
  {
    hide Measured;
    var p := l.taken;
    if l.accepted[p].body.Some? && (l.batch == [] || l.size + |l.accepted[p].body.value| + 1 <= c.batchBytes) {
      JoinMeasured(c, l.accepted, l.batch, l.size, p);
    }
  }

  lemma EndOfQueueKeeps(c: Config, l: Lane)
    requires LaneInv(c, l) && l.worker.Selecting? && l.queueClosed && l.taken == |l.accepted|
    ensures LaneInv(c, EndOfQueue(l))
  {
    hide Encodable, Partition, Measured, Erased, DeliveredBy, Fitting, Flatten, Trailing;
  }

  lemma FlushKeeps(c: Config, l: Lane)
    requires LaneInv(c, l) && l.worker.Selecting? && l.batch != []
    ensures LaneInv(c, Flush(l))
  {
    hide Encodable, Partition, Measured, Erased, DeliveredBy, Fitting, Flatten, Trailing;
  }

  lemma AbandonKeeps(c: Config, l: Lane)
    requires LaneInv(c, l) && l.worker.Selecting?
    ensures LaneInv(c, Abandon(l))
  {
    hide Encodable, Partition, Measured, Erased, DeliveredBy, Fitting, Flatten, Trailing;
    assert InHand(l) == l.batch + [];
    Hand(l.taken, l.delivered, l.failed, l.undelivered, l.batch, []);
    assert InHand(Abandon(l)) == [];
  }

  lemma DiscardKeeps(c: Config, l: Lane)
    requires LaneInv(c, l) && (l.worker.Abandoning? || (l.worker.NotStarted? && l.queueClosed)) &&
             l.taken < |l.accepted|
    ensures LaneInv(c, Discard(l))
  {
    hide Partition, Measured, Erased, DeliveredBy, Fitting, Flatten, Trailing, Encodable, AllEncodable;
    DiscardConserved(l);
    EncodablePrefix(l.accepted, l.taken, l.taken + 1);
  }

  lemma DiscardConserved(l: Lane)
    requires Conserved(l) && InHand(l) == [] && l.taken < |l.accepted|
    ensures Conserved(Discard(l))
  {
    hide Partition;
    Take(l.taken, l.delivered, l.failed, l.undelivered, []);
  }

  lemma BeginKeeps(c: Config, l: Lane, id: nat)
    requires ValidConfig(c) && LaneInv(c, l) && l.worker.Sending?
    ensures LaneInv(c, Begin(l, id))
  {
    hide Encodable, Partition, Measured, Erased, DeliveredBy, Fitting, Flatten, Trailing;
  }

  /** A batch not handed over yet differs from the last one that was. */
  lemma FreshBatch(l: Lane)
    requires Ordered(l) && Collecting(l.worker) && (l.worker.Delivering? ==> l.worker.made == 0) && l.batch != []
    requires l.attempted != []
    ensures l.attempted[|l.attempted| - 1] != l.batch
  {
    EncodableIncreasing(l.accepted, l.taken);
    var last := l.attempted[|l.attempted| - 1];
    var before := Flatten(l.attempted[..|l.attempted| - 1]);
    var encodable := Encodable(l.accepted, l.taken);
    hide Encodable;
    assert encodable == before + last + (l.batch + PendingList(l));
    if last != [] {
      assert encodable[|before|] == last[0];
      assert encodable[|before| + |last|] == l.batch[0];
    }
  }

  // ------------------------------------------------------- reporter calls

  /** After a call: the batch counts as attempted, the worker has not settled it yet. */
  ghost predicate Called(c: Config, l: Lane, ok: bool) {
    && Conserved(l) && Sized(c, l) && Ordered(l) && QueueLength(l) <= c.queueCapacity
    && l.worker.Delivering? && 0 < l.worker.made <= c.maxAttempts
    && l.batch != [] && (l.worker.last ==> l.pending.None? && l.queueClosed && l.taken == |l.accepted|)
    && Erased(l.log) == l.attempted && l.attempted != [] && l.attempted[|l.attempted| - 1] == l.batch
    && (forall p :: DeliveredBy(l.log, p) <==> p in l.delivered || (ok && p in l.batch))
    && (forall n: nat | n <= |l.log| :: Trailing(l.log[..n]) <= c.maxAttempts)
    && Trailing(l.log) == l.worker.made && l.log != [] && l.log[|l.log| - 1].batch == l.batch
    && |l.log| <= |l.attempted| + l.retries && Fitting(c, l.accepted, l.log)
  }

  lemma CallIsCalled(c: Config, l: Lane, ok: bool)
    requires LaneInv(c, l) && l.worker.Delivering?
    ensures Called(c, Call(l, ok), ok)
  {
    hide DeliveredBy, Fitting, Partition, Measured, Encodable, Flatten, Trailing;
    CallLogged(l, ok);
    CallBounded(c, l, ok);
    CallFits(c, l, ok);
    hide Erased;
    if l.worker.made == 0 {
      CallOrdered(l, ok);
    }
  }

  /** The batch of a call was collected within the limits. */
  lemma CallFits(c: Config, l: Lane, ok: bool)
    requires Sized(c, l) && Fitting(c, l.accepted, l.log) && l.worker.Delivering? && l.batch != []
    ensures Fitting(c, l.accepted, Call(l, ok).log)
  {
    hide RunningSize, Bodies;
    assert WithinLimits(c, l.accepted, l.batch);
    hide WithinLimits;
  }

  /** One more call lengthens the run of its batch by one. */
  lemma CallBounded(c: Config, l: Lane, ok: bool)
    requires Bounded(c, l) && Ordered(l) && Erased(l.log) == l.attempted && l.worker.Delivering? && l.batch != []
    requires l.worker.made < c.maxAttempts
    ensures var s := Call(l, ok);
      && (forall n: nat | n <= |s.log| :: Trailing(s.log[..n]) <= c.maxAttempts)
      && Trailing(s.log) == s.worker.made && s.log[|s.log| - 1].batch == l.batch
  {
    var s := Call(l, ok);
    hide Ordered;
    assert s.log[..|l.log|] == l.log;
    if l.worker.made == 0 && l.log != [] {
      ErasedLast(l.log);
      FreshBatch(l);
    }
    assert Trailing(s.log) == s.worker.made;
    forall n: nat | n <= |s.log|
      ensures Trailing(s.log[..n]) <= c.maxAttempts
    {
      if n <= |l.log| {
        assert s.log[..n] == l.log[..n];
      } else {
        assert s.log[..n] == s.log;
      }
    }
  }

  lemma ErasedLast(log: seq<Attempt>)
    requires log != []
    ensures Erased(log) != [] && Erased(log)[|Erased(log)| - 1] == log[|log| - 1].batch
  {
  }

  /** One more call of the same batch repeats it; the first call of a batch adds it. */
  lemma CallLogged(l: Lane, ok: bool)
    requires Logged(l) && Ordered(l) && l.worker.Delivering? && l.batch != []
    ensures var s := Call(l, ok);
      && Erased(s.log) == s.attempted && s.attempted != [] && s.attempted[|s.attempted| - 1] == l.batch
      && forall p :: DeliveredBy(s.log, p) <==> DeliveredBy(l.log, p) || (ok && p in l.batch)
  {
    hide DeliveredBy, Fitting, Ordered;
    var a := Attempt(l.worker.id, l.batch, ok);
    ErasedMore(l.log, a);
    forall p
      ensures DeliveredBy(l.log + [a], p) <==> DeliveredBy(l.log, p) || (ok && p in l.batch)
    {
      DeliveredMore(l.log, a, p);
    }
    hide Erased;
    if l.worker.made == 0 && l.attempted != [] {
      FreshBatch(l);
    }
  }

  /** Handing over a batch moves it from waiting to attempted. */
  lemma CallOrdered(l: Lane, ok: bool)
    requires Ordered(l) && l.worker.Delivering? && l.worker.made == 0
    ensures Ordered(Call(l, ok))
  {
    FlattenMore(l.attempted, l.batch);
    assert Flatten(l.attempted) + (l.batch + PendingList(l)) == Flatten(l.attempted) + l.batch + PendingList(l);
    hide Encodable, Flatten;
  }

  lemma RetryKeeps(c: Config, l: Lane)
    requires LaneInv(c, l) && l.worker.Delivering? && l.worker.made + 1 < c.maxAttempts
    ensures LaneInv(c, Retry(Call(l, false)))
  {
    hide Erased, DeliveredBy, Fitting, Partition, Measured, Encodable, Flatten, Trailing;
    CallIsCalled(c, l, false);
  }

  /** Lists that settle the batch: it joins exactly one of them, the delivered one only after a successful call. */
  predicate Settling(l: Lane, s: Lane, ok: bool) {
    && s == l.(delivered := s.delivered, failed := s.failed, undelivered := s.undelivered)
    && (if ok then s.delivered == l.delivered + l.batch && s.failed == l.failed && s.undelivered == l.undelivered
        else s.delivered == l.delivered &&
             (|| (s.failed == l.failed + l.batch && s.undelivered == l.undelivered)
              || (s.failed == l.failed && s.undelivered == l.undelivered + l.batch)))
  }

  lemma SettleKeeps(c: Config, l: Lane, s: Lane, ok: bool)
    requires ValidConfig(c) && Called(c, l, ok) && Settling(l, s, ok)
    requires s.pending.Some? ==> s.pending.value < |s.accepted| && s.accepted[s.pending.value].body.Some?
    ensures LaneInv(c, Settle(c, s))
  {
    hide Conserved, Sized, Ordered, Erased, DeliveredBy, Fitting, Trailing;
    assert Sized(c, s) && Ordered(s) by {
      SettlingKeeps(c, l, s, ok);
    }
    SettleConserved(c, l, s, ok);
    SettleSized(c, s);
    SettleOrdered(c, s);
  }

  lemma SettlingKeeps(c: Config, l: Lane, s: Lane, ok: bool)
    requires Settling(l, s, ok) && Sized(c, l) && Ordered(l)
    ensures Sized(c, s) && Ordered(s)
  {
    hide Measured, Encodable, Flatten;
  }

  lemma SettleConserved(c: Config, l: Lane, s: Lane, ok: bool)
    requires Conserved(l) && Settling(l, s, ok) && l.worker.Delivering? && (l.worker.last ==> l.pending.None?)
    requires s.pending.Some? ==> s.pending.value < |s.accepted| && s.accepted[s.pending.value].body.Some?
    ensures Conserved(Settle(c, s))
  {
    hide Partition;
    Hand(l.taken, l.delivered, l.failed, l.undelivered, l.batch, PendingList(l));
    assert InHand(Settle(c, s)) == PendingList(l);
  }

  lemma SettleSized(c: Config, s: Lane)
    requires ValidConfig(c) && Sized(c, s) && s.worker.Delivering?
    requires s.pending.Some? ==> s.pending.value < |s.accepted| && s.accepted[s.pending.value].body.Some?
    ensures Sized(c, Settle(c, s))
  {
    EmptyMeasured(c, s.accepted);
    if s.pending.Some? {
      JoinMeasured(c, s.accepted, [], Envelope(c.instance), s.pending.value);
    }
    hide Measured;
  }

  lemma SettleOrdered(c: Config, s: Lane)
    requires Ordered(s) && s.worker.Delivering? && s.worker.made > 0 && (s.worker.last ==> s.pending.None?)
    requires s.pending.Some? ==> s.pending.value < |s.accepted| && s.accepted[s.pending.value].body.Some?
    ensures Ordered(Settle(c, s))
  {
    assert Waiting(Settle(c, s)) == PendingList(s);
    hide Encodable, Flatten;
  }

  /** Between a failed call and the next one the batch is called and unsettled. */
  lemma WaitingIsCalled(c: Config, l: Lane)
    requires LaneInv(c, l) && l.worker.Delivering? && l.worker.made > 0
    ensures Called(c, l, false)
  {
    hide Erased, DeliveredBy, Fitting, Partition, Measured, Encodable, Flatten, Trailing;
  }

  /** The counters of the Enqueue calls do not concern the worker. */
  lemma CountersKeep(c: Config, l: Lane, s: Lane)
    requires LaneInv(c, l) && s == l.(calls := s.calls, enqueued := s.enqueued, dropped := s.dropped)
    ensures LaneInv(c, s)
  {
    hide Erased, DeliveredBy, Fitting, Partition, Measured, Encodable, Flatten, Trailing, InOrder, AllEncodable;
  }

  lemma CloseKeeps(c: Config, l: Lane)
    requires LaneInv(c, l)
    ensures LaneInv(c, l.(queueClosed := true))
  {
    hide Erased, DeliveredBy, Fitting, Partition, Measured, Encodable, Flatten, Trailing, InOrder, AllEncodable;
  }

  lemma StartKeeps(c: Config, l: Lane)
    requires ValidConfig(c) && LaneInv(c, l) && l.worker.NotStarted? && !l.queueClosed
    ensures LaneInv(c, l.(worker := Selecting))
  {
    hide DeliveredBy, Fitting, Partition, Measured, Trailing;
  }

  lemma StopKeeps(c: Config, l: Lane)
    requires LaneInv(c, l) && l.worker.Abandoning? && l.queueClosed && l.taken == |l.accepted|
    ensures LaneInv(c, l.(worker := Exited))
  {
    hide Erased, DeliveredBy, Fitting, Partition, Measured, Encodable, Flatten, Trailing;
  }

  // ------------------------------------------------- what the invariant says

  /** Every accepted event is queued, in hand, delivered, failed or undelivered, and in only one of these. */
  lemma LaneConserves(c: Config, l: Lane)
    requires LaneInv(c, l)
    ensures |l.accepted| == QueueLength(l) + |InHand(l)| + |l.delivered| + |l.failed| + |l.undelivered|
    ensures forall p: nat :: Places(p, l.delivered, l.failed, l.undelivered, InHand(l)) == if p < l.taken then 1 else 0
  {
    Shares(l.taken, l.delivered, l.failed, l.undelivered, InHand(l));
  }

  lemma {:induction false} EncodablePrefix(accepted: seq<Event>, m: nat, n: nat)
    requires m <= n <= |accepted|
    ensures Encodable(accepted, m) <= Encodable(accepted, n)
    decreases n - m
  {
    if m < n {
      EncodablePrefix(accepted, m, n - 1);
    }
  }

  /**
   * The calls of the reporter, repeats of a batch erased, are consecutive segments of the accepted order;
   * a batch is repeated at most up to the attempt limit, and delivered exactly when a call for it returned nil.
   */
  lemma LaneIsFifo(c: Config, l: Lane)
    requires LaneInv(c, l)
    ensures Flatten(Erased(l.log)) <= Encodable(l.accepted, |l.accepted|)
    ensures forall p :: p in l.delivered <==> DeliveredBy(l.log, p)
    ensures forall n: nat | n <= |l.log| :: Trailing(l.log[..n]) <= c.maxAttempts
  {
    EncodablePrefix(l.accepted, l.taken, |l.accepted|);
    hide Encodable, Flatten, Erased, DeliveredBy, Fitting, Trailing;
  }

  /** The body a batch is sent with. */
  function BodyOf(c: Config, accepted: seq<Event>, batch: seq<nat>, id: nat): string
    requires AllEncodable(accepted, batch)
  {
    EncodeBatch(BatchID(c.instance, id), Bodies(accepted, batch))
  }

  /** A batch of two events or more, with a ten-digit counter, has a body below the byte limit. */
  lemma WithinLimitsFits(c: Config, accepted: seq<Event>, batch: seq<nat>, id: nat)
    requires WithinLimits(c, accepted, batch)
    ensures |batch| >= 2 && id < Pow10(10) ==> |BodyOf(c, accepted, batch, id)| < c.batchBytes
  {
    hide RunningSize, EncodeBatch, BatchID;
    if id < Pow10(10) {
      RunningSizeIsBody(c.instance, id, Bodies(accepted, batch));
    }
  }

  /** Every batch ever handed to the reporter respects the event limit and, of two events or more, the byte limit. */
  lemma BatchFits(c: Config, l: Lane, k: nat)
    requires LaneInv(c, l) && k < |l.log|
    ensures 1 <= |l.log[k].batch| <= c.batchEvents && AllEncodable(l.accepted, l.log[k].batch)
    ensures |l.log[k].batch| >= 2 && l.log[k].id < Pow10(10) ==>
              |BodyOf(c, l.accepted, l.log[k].batch, l.log[k].id)| < c.batchBytes
  {
    hide Conserved, Sized, Placed, Ordered, Logged, Bounded, BodyOf;
    assert WithinLimits(c, l.accepted, l.log[k].batch);
    WithinLimitsFits(c, l.accepted, l.log[k].batch, l.log[k].id);
  }

  /** So does the batch in delivery, before its first call. */
  lemma DeliveryFits(c: Config, l: Lane)
    requires LaneInv(c, l) && l.worker.Delivering?
    ensures 1 <= |l.batch| <= c.batchEvents && AllEncodable(l.accepted, l.batch)
    ensures |l.batch| >= 2 && l.worker.id < Pow10(10) ==>
              |BodyOf(c, l.accepted, l.batch, l.worker.id)| < c.batchBytes
  {
    hide Conserved, Ordered, Logged, Bounded, Fitting, RunningSize, Bodies, BodyOf;
    assert WithinLimits(c, l.accepted, l.batch);
    WithinLimitsFits(c, l.accepted, l.batch, l.worker.id);
  }
}
