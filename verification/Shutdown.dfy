/** Close comes to an end: a measure of the work that is left falls with every step of Close and of the workers. */
module Shutdown {
  import opened Wrappers
  import opened ReportBatch
  import opened DispatcherLane
  import opened Dispatcher

  /** The steps of Close and of the workers, as against those of Enqueue calls. */
  predicate IsWork(st: Step) {
    st.CloseQueue? || st.UnlockClose? || st.DeadlinePasses? || st.WorkersDone? || st.DrainOne? || st.CloseReturns? ||
      st.WorkerMoves?
  }

  // ------------------------------------------------------- what is left to do

  /** What the worker can still do with the batch in hand, and its own last steps. */
  function WorkerLeft(c: Config, l: Lane): nat {
    match l.worker
    case NotStarted => 0
    case Selecting => if l.batch == [] then 2 else c.maxAttempts + 5
    case Sending(_) => c.maxAttempts + 4
    case Delivering(_, made, _) => 3 + if made < c.maxAttempts then c.maxAttempts - made else 0
    case Abandoning => 1
    case Exited => 0
  }

  /** Every event still queued or pending can make one more batch. */
  function EventsLeft(c: Config, l: Lane): nat {
    var waiting := (if l.taken <= |l.accepted| then |l.accepted| - l.taken else 0) + if l.pending.Some? then 1 else 0;
    waiting * (c.maxAttempts + 4)
  }

  function LaneLeft(c: Config, l: Lane): nat {
    EventsLeft(c, l) + WorkerLeft(c, l) + if l.queueClosed then 0 else 1
  }

  function LanesLeft(c: Config, lanes: seq<Lane>): nat {
    if lanes == [] then 0 else LanesLeft(c, lanes[..|lanes| - 1]) + LaneLeft(c, lanes[|lanes| - 1])
  }

  function CloserLeft(closer: Closer): nat {
    match closer
    case NotClosing => 4
    case Marking => 3
    case Waiting => 2
    case Draining => 1
    case Returned => 0
  }

  function Left(c: Config, s: State): nat {
    LanesLeft(c, s.lanes) + CloserLeft(s.closer) + if s.abort then 0 else 1
  }

  lemma {:induction false} LaneMakesItsPart(c: Config, lanes: seq<Lane>, i: nat, l: Lane)
    requires i < |lanes|
    ensures LanesLeft(c, lanes[i := l]) == LanesLeft(c, lanes) - LaneLeft(c, lanes[i]) + LaneLeft(c, l)
  {
    hide LaneLeft;
    var last := |lanes| - 1;
    if i == last {
      assert lanes[i := l][..last] == lanes[..last];
    } else {
      assert lanes[i := l][..last] == lanes[..last][i := l];
      LaneMakesItsPart(c, lanes[..last], i, l);
    }
  }

  // ------------------------------------------------------------ one lane

  /** One event fewer waits. */
  lemma OneFewer(n: nat, per: nat)
    requires n >= 1
    ensures n * per == (n - 1) * per + per
  {
  }

  /** Every worker step leaves less to do. */
  lemma WorkerWorks(c: Config, l: Lane, abort: bool, id: nat, w: WorkerStep)
    requires LaneInv(c, l) && WorkerEnabled(c, l, abort, w)
    ensures LaneLeft(c, WorkerApply(c, l, abort, id, w)) < LaneLeft(c, l)
  {
    hide Conserved, Sized, Ordered, Logged, Bounded, Fitting;
    WithinQueue(c, l);
    if w.Receives? {
      ReceiveWorks(c, l);
    } else if w.Discards? {
      DiscardWorks(c, l);
    } else if w.CallOk? || w.CallFails? || w.CallAborted? || w.SleepAborted? {
      SettleWorks(c, l, abort, id, w);
    } else {
      hide Settle, Receive, Discard;
    }
  }

  lemma WithinQueue(c: Config, l: Lane)
    requires LaneInv(c, l)
    ensures l.taken <= |l.accepted|
  {
  }

  lemma ReceiveWorks(c: Config, l: Lane)
    requires Placed(c, l) && l.worker.Selecting? && l.taken < |l.accepted|
    ensures LaneLeft(c, Receive(c, l)) < LaneLeft(c, l)
  {
    OneFewer(|l.accepted| - l.taken, c.maxAttempts + 4);
  }

  lemma DiscardWorks(c: Config, l: Lane)
    requires l.taken < |l.accepted|
    ensures LaneLeft(c, Discard(l)) < LaneLeft(c, l)
  {
    OneFewer(|l.accepted| - l.taken + if l.pending.Some? then 1 else 0, c.maxAttempts + 4);
  }

  lemma SettleWorks(c: Config, l: Lane, abort: bool, id: nat, w: WorkerStep)
    requires Placed(c, l) && l.taken <= |l.accepted| && WorkerEnabled(c, l, abort, w)
    requires w.CallOk? || w.CallFails? || w.CallAborted? || w.SleepAborted?
    ensures LaneLeft(c, WorkerApply(c, l, abort, id, w)) < LaneLeft(c, l)
  {
    hide Envelope;
    if l.pending.Some? {
      OneFewer(|l.accepted| - l.taken + 1, c.maxAttempts + 4);
    }
  }

  /** The counters of the Enqueue calls are no work, closing the queue is one step. */
  lemma CountersAndClose(c: Config, l: Lane, calls: nat, dropped: nat)
    ensures LaneLeft(c, l.(calls := calls, dropped := dropped)) == LaneLeft(c, l)
    ensures !l.queueClosed ==> LaneLeft(c, l.(queueClosed := true)) == LaneLeft(c, l) - 1
  {
    var l', l'' := l.(calls := calls, dropped := dropped), l.(queueClosed := true);
    assert EventsLeft(c, l') == EventsLeft(c, l) == EventsLeft(c, l'');
    hide EventsLeft;
  }

  // ---------------------------------------------------------- the machine

  /** What a step leaves to do: a call's step as much as before, any other less. */
  predicate Progresses(c: Config, s: State, s': State, work: bool) {
    s'.closed && if work then Left(c, s') < Left(c, s) else Left(c, s') == Left(c, s)
  }

  /** The steps of Enqueue calls. */
  lemma CallWorks(c: Config, s: State, st: Step)
    requires CallersInv(s) && s.closed && Enabled(c, s, st) && !IsWork(st)
    ensures Progresses(c, s, Apply(c, s, st), false)
  {
    hide LaneLeft, WorkerApply, WorkerEnabled;
    if st.LockRead? || st.RefuseClosed? {
      var i := if st.LockRead? then st.lane else s.callers[st.caller].lane;
      var l, l' := s.lanes[i], Apply(c, s, st).lanes[i];
      CountersAndClose(c, l, l'.calls, l'.dropped);
      LaneMakesItsPart(c, s.lanes, i, l');
    }
  }

  /** The steps on one lane. */
  lemma LaneWorks(c: Config, s: State, st: Step)
    requires LanesInv(c, s) && s.closed && Enabled(c, s, st) && (st.CloseQueue? || st.DrainOne? || st.WorkerMoves?)
    ensures Progresses(c, s, Apply(c, s, st), true)
  {
    hide LaneInv, LaneLeft, WorkerApply, WorkerEnabled;
    var i := st.i;
    var l := s.lanes[i];
    LaneOf(c, s, i);
    if st.CloseQueue? {
      CountersAndClose(c, l, l.calls, l.dropped);
    } else if st.DrainOne? {
      DiscardWorks(c, l);
    } else {
      WorkerWorks(c, l, s.abort, s.batches + 1, st.step);
    }
    LaneMakesItsPart(c, s.lanes, i, Apply(c, s, st).lanes[i]);
  }

  /** The steps of Close that touch no lane. */
  lemma CloserWorks(c: Config, s: State, st: Step)
    requires s.closed && Enabled(c, s, st)
    requires st.UnlockClose? || st.DeadlinePasses? || st.WorkersDone? || st.CloseReturns?
    ensures Progresses(c, s, Apply(c, s, st), true)
  {
    hide LanesLeft;
  }

  /**
   * Once the dispatcher is closed, each step of Close or of a worker leaves less to do, and no other step leaves
   * more.
   */
  lemma StepWorks(c: Config, s: State, st: Step)
    requires Inv(c, s) && s.closed && Enabled(c, s, st)
    ensures Progresses(c, s, Apply(c, s, st), IsWork(st))
  {
    hide Progresses, Apply, Enabled, LanesInv, CountsInv, CallsInv, CloseInv, CallersInv;
    if !IsWork(st) {
      CallWorks(c, s, st);
    } else if st.CloseQueue? || st.DrainOne? || st.WorkerMoves? {
      LaneWorks(c, s, st);
    } else {
      CloserWorks(c, s, st);
    }
  }

  lemma PendingIsKnown(c: Config, l: Lane)
    requires Sized(c, l)
    ensures PendingKnown(l)
  {
    assert AllEncodable(l.accepted, PendingList(l));
    hide Measured;
    assert l.pending.Some? ==> PendingList(l)[0] == l.pending.value;
  }

  /** A worker that has not exited can move. */
  lemma WorkerGoesOn(c: Config, l: Lane, abort: bool) returns (w: WorkerStep)
    requires LaneInv(c, l) && l.queueClosed && !l.worker.NotStarted? && !l.worker.Exited?
    ensures WorkerEnabled(c, l, abort, w)
  {
    hide Sized, Ordered, Logged, Bounded, Fitting, Partition, PendingKnown;
    PendingIsKnown(c, l);
    match l.worker
    case Selecting => w := if l.taken < |l.accepted| then Receives else SeesEnd;
    case Sending(_) => w := Begins;
    case Delivering(_, _, _) => w := CallFails;
    case Abandoning => w := if l.taken < |l.accepted| then Discards else Stops;
  }

  /** Until it has returned, Close or a worker can always move, without waiting for the deadline. */
  lemma CloseGoesOn(c: Config, s: State) returns (st: Step)
    requires Inv(c, s) && s.closed && !s.closer.Returned?
    ensures Enabled(c, s, st) && IsWork(st) && !st.DeadlinePasses?
  {
    hide LaneInv, CountsInv, CallsInv, WorkerEnabled;
    match s.closer
    case Marking =>
      if i: nat :| i < |s.lanes| && !s.lanes[i].queueClosed {
        st := CloseQueue(i);
      } else {
        st := UnlockClose;
      }
    case Waiting =>
      if i: nat :| i < |s.lanes| && !s.lanes[i].worker.Exited? {
        LaneOf(c, s, i);
        var w := WorkerGoesOn(c, s.lanes[i], s.abort);
        st := WorkerMoves(i, w);
      } else {
        st := WorkersDone;
      }
    case Draining =>
      if i: nat :| i < |s.lanes| && s.lanes[i].taken < |s.lanes[i].accepted| {
        st := DrainOne(i);
      } else {
        st := CloseReturns;
      }
  }

  function CountWork(steps: seq<Step>): nat {
    if steps == [] then 0 else (if IsWork(steps[0]) then 1 else 0) + CountWork(steps[1..])
  }

  lemma {:induction false} WorkIsBounded(c: Config, s: State, steps: seq<Step>, t: State)
    requires ValidConfig(c) && Inv(c, s) && s.closed && Reaches(c, s, steps, t)
    ensures Inv(c, t) && t.closed && CountWork(steps) + Left(c, t) <= Left(c, s)
    decreases |steps|
  {
    hide Inv, Enabled, Apply, Left, IsWork;
    if steps != [] {
      StepKeeps(c, s, steps[0]);
      StepWorks(c, s, steps[0]);
      WorkIsBounded(c, Apply(c, s, steps[0]), steps[1..], t);
    }
  }

  /**
   * From any state with Close under way, in whatever order the steps come and however many Enqueue calls come between:
   * Close has returned once it and the workers have made as many steps as the measure says, and until then they can.
   */
  lemma CloseEnds(c: Config, s: State, steps: seq<Step>, t: State)
    requires ValidConfig(c) && Inv(c, s) && s.closed && Reaches(c, s, steps, t)
    ensures CountWork(steps) <= Left(c, s)
    ensures CountWork(steps) == Left(c, s) ==> t.closer.Returned?
    ensures !t.closer.Returned? ==> exists st :: Enabled(c, t, st) && IsWork(st) && !st.DeadlinePasses?
  {
    hide Inv, Enabled, Apply, Left, IsWork;
    WorkIsBounded(c, s, steps, t);
    if !t.closer.Returned? {
      var st := CloseGoesOn(c, t);
      StepWorks(c, t, st);
    }
  }
}
