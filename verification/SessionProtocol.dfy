/**
 * Emulator and reader composed over two FIFO channels (internal/emulator/session.go, internal/reader/session.go).
 * Timers fire and reports fall due whenever they may; either side may lose its connection at any time.
 */
module SessionProtocol {
  import opened Wrappers
  import opened LlrpCodec
  import opened ReportPacking
  import opened SessionMessages

  datatype Failure = ProtocolError | KeepaliveTimeout | Backpressure | ConnectionLost

  datatype EmulatorStage = Opening | AwaitingConfig | FirstReport | Serving

  /** The emulator's connection: `inbox` is its one-place input queue, the armed flags are its running timers. */
  datatype Emulator = Emulator(
    stage: EmulatorStage, failed: Option<Failure>, inbox: Option<Message>,
    keepaliveArmed: bool, ackArmed: bool, pending: nat, keepaliveID: nat, reportID: nat)

  datatype ReaderStage = AwaitingNotification | AwaitingResponse | Reading

  datatype Reader = Reader(stage: ReaderStage, failed: Option<Failure>, requestID: nat)

  datatype State = State(emulator: Emulator, reader: Reader, toReader: seq<Message>, toEmulator: seq<Message>)

  datatype Config = Config(timing: Timing, frameBytes: nat, readerLimits: Limits)

  function EmulatorLimits(c: Config): Limits {
    DEFAULT_LIMITS.(maxFrameSize := c.frameBytes)
  }

  /** The two sides' limits fit together. */
  predicate LimitsFit(c: Config) {
    128 <= c.frameBytes <= 0x10_0000 && Compatible(c.readerLimits) &&
      c.frameBytes <= Normalized(c.readerLimits).maxFrameSize
  }

  /** The ten seconds the reader asks for fit the emulator's time budget. */
  predicate TimingFits(c: Config) {
    10_000 * MILLISECOND + c.timing.ackTimeout < c.timing.readTimeout
  }

  predicate CompatibleConfig(c: Config) {
    LimitsFit(c) && TimingFits(c)
  }

  /** Keepalive IDs wrap around after 32 bits. */
  function NextID(id: nat): nat {
    (id + 1) % 0x1_0000_0000
  }

  const FIRST_KEEPALIVE := 0x8000_0000

  function Init(requestID: nat): State {
    State(Emulator(Opening, None, None, false, false, 0, FIRST_KEEPALIVE, 1000),
          Reader(AwaitingNotification, None, requestID), [], [])
  }

  datatype Step =
    | Notify(time: nat) | Configure | SendReports(groups: seq<seq<Bytes>>, frames: seq<Bytes>) | KeepaliveDue
    | TakeInput | HandleInput(late: bool) | AckDue(late: bool) | EmulatorLoses
    | ReaderHandles(full: bool) | ReaderLoses

  // ---------------------------------------------------------- each side's work

  function ReportMessages(frames: seq<Bytes>, id: nat): (ms: seq<Message>)
    ensures |ms| == |frames| && forall i | 0 <= i < |frames| ::
            ms[i] == ReportMessage(frames[i], (id + i) % 0x1_0000_0000)
  {
    seq(|frames|, i requires 0 <= i < |frames| => ReportMessage(frames[i], (id + i) % 0x1_0000_0000))
  }

  /** An inbound message while serving must be the acknowledgement that is due. */
  function Handle(e: Emulator, m: Message, late: bool): Emulator {
    var e' := e.(inbox := None);
    if m.typ != KEEPALIVE_ACK || m.payload != [] || !e.ackArmed || m.id != e.pending then
      e'.(failed := Some(ProtocolError))
    else if late then e'.(failed := Some(KeepaliveTimeout))
    else e'.(ackArmed := false, keepaliveArmed := true)
  }

  /** The reader's answer to a message: its next stage and what it sends. */
  function Answer(c: Config, r: Reader, m: Message, full: bool): (Reader, seq<Message>) {
    var error := (r.(failed := Some(ProtocolError)), []);
    match r.stage
    case AwaitingNotification =>
      if NotificationOk(m, c.readerLimits, true) then
        (r.(stage := AwaitingResponse), [SetConfigMessage(r.requestID)])
      else error
    case AwaitingResponse =>
      if m.typ == KEEPALIVE then
        if m.payload != [] then error else (r, [KeepaliveAckMessage(m.id)])
      else if ConfigResponseOk(m, r.requestID, c.readerLimits) then (r.(stage := Reading), [])
      else error
    case Reading =>
      if m.typ == KEEPALIVE then
        if m.payload != [] then error else (r, [KeepaliveAckMessage(m.id)])
      else if m.typ == RO_ACCESS_REPORT then
        if DecodeObservations(m.payload, c.readerLimits).IsFailure() then error
        else if full then (r.(failed := Some(Backpressure)), [])
        else (r, [])
      else if m.typ == READER_EVENT_NOTIFICATION then
        if NotificationOk(m, c.readerLimits, false) then (r, []) else error
      else error
  }

  // ------------------------------------------------------------------- steps

  ghost predicate Enabled(c: Config, s: State, st: Step) {
    var e := s.emulator;
    match st
    case Notify(time) => e.failed.None? && e.stage.Opening? && time < 0x1_0000_0000_0000_0000
    case Configure => e.failed.None? && e.stage.AwaitingConfig? && s.toEmulator != []
    case SendReports(groups, frames) =>
      e.failed.None? && (e.stage.FirstReport? || e.stage.Serving?) && Packed(groups, frames, c.frameBytes)
    case KeepaliveDue => e.failed.None? && e.stage.Serving? && e.keepaliveArmed
    case TakeInput => e.failed.None? && (e.stage.FirstReport? || e.stage.Serving?) && e.inbox.None? &&
      s.toEmulator != []
    case HandleInput(_) => e.failed.None? && e.stage.Serving? && e.inbox.Some?
    case AckDue(_) => e.failed.None? && e.stage.Serving? && e.ackArmed
    case EmulatorLoses => e.failed.None?
    case ReaderHandles(_) => s.reader.failed.None? && s.toReader != []
    case ReaderLoses => s.reader.failed.None?
  }

  function Apply(c: Config, s: State, st: Step): State
    requires Enabled(c, s, st)
  {
    var e := s.emulator;
    match st
    case Notify(time) =>
      s.(emulator := e.(stage := AwaitingConfig), toReader := s.toReader + [NotificationMessage(1, time)])
    case Configure =>
      var m := s.toEmulator[0];
      var s' := s.(toEmulator := s.toEmulator[1..]);
      if RequestedKeepalive(m, c.timing, EmulatorLimits(c)).None? then
        s'.(emulator := e.(failed := Some(ProtocolError)))
      else s'.(emulator := e.(stage := FirstReport), toReader := s.toReader + [ConfigResponseMessage(m.id)])
    case SendReports(groups, frames) =>
      var sent := s.toReader + ReportMessages(frames, e.reportID);
      var e' := e.(reportID := (e.reportID + |frames|) % 0x1_0000_0000);
      s.(toReader := sent,
         emulator := if e.stage.FirstReport? then e'.(stage := Serving, keepaliveArmed := true) else e')
    case KeepaliveDue =>
      s.(emulator := e.(pending := e.keepaliveID, keepaliveID := NextID(e.keepaliveID), keepaliveArmed := false,
        ackArmed := true),
         toReader := s.toReader + [KeepaliveMessage(e.keepaliveID)])
    case TakeInput => s.(emulator := e.(inbox := Some(s.toEmulator[0])), toEmulator := s.toEmulator[1..])
    case HandleInput(late) => s.(emulator := Handle(e, e.inbox.value, late))
    case AckDue(late) =>
      s.(emulator := if e.inbox.Some? then Handle(e, e.inbox.value, late) else e.(failed := Some(KeepaliveTimeout)))
    case EmulatorLoses => s.(emulator := e.(failed := Some(ConnectionLost)))
    case ReaderHandles(full) =>
      var (r, sent) := Answer(c, s.reader, s.toReader[0], full);
      s.(reader := r, toReader := s.toReader[1..], toEmulator := s.toEmulator + sent)
    case ReaderLoses => s.(reader := s.reader.(failed := Some(ConnectionLost)))
  }

  // --------------------------------------------------------------- invariant

  /** A report the reader can decode, within the frame size. */
  ghost predicate GoodReport(c: Config, m: Message) {
    m.typ == RO_ACCESS_REPORT && ValidMessage(m) && m.length == 0 && exists group :: CarriesGroup(c, m, group)
  }

  ghost predicate CarriesGroup(c: Config, m: Message, group: seq<Bytes>) {
    AllValid(group) && FrameOf(group, m.payload, c.frameBytes)
  }

  /** Traffic of a serving emulator: reports, and keepalives with the pending ID. */
  ghost predicate Traffic(c: Config, ms: seq<Message>, pending: nat) {
    forall i | 0 <= i < |ms| :: GoodReport(c, ms[i]) || ms[i] == KeepaliveMessage(pending)
  }

  function CountKeepalives(ms: seq<Message>): nat {
    if ms == [] then 0 else CountKeepalives(ms[..|ms| - 1]) + if ms[|ms| - 1].typ == KEEPALIVE then 1 else 0
  }

  predicate Acks(ms: seq<Message>, pending: nat) {
    forall i | 0 <= i < |ms| :: ms[i] == KeepaliveAckMessage(pending)
  }

  /** Keepalives on their way and acknowledgements on their way back. */
  function Outstanding(s: State): nat {
    CountKeepalives(s.toReader) + |s.toEmulator| + if s.emulator.inbox.Some? then 1 else 0
  }

  /** The handshake, message by message. */
  ghost predicate Handshake(s: State) {
    var e, r := s.emulator, s.reader;
    && !e.keepaliveArmed && !e.ackArmed && e.inbox.None?
    && match (e.stage, r.stage)
       case (Opening, AwaitingNotification) => s.toReader == [] && s.toEmulator == []
       case (AwaitingConfig, AwaitingNotification) =>
         |s.toReader| == 1 && s.toEmulator == [] && IsNotification(s.toReader[0])
       case (AwaitingConfig, AwaitingResponse) => s.toReader == [] && s.toEmulator == [SetConfigMessage(r.requestID)]
       case (FirstReport, AwaitingResponse) => s.toReader == [ConfigResponseMessage(r.requestID)] && s.toEmulator == []
       case (FirstReport, Reading) => s.toReader == [] && s.toEmulator == []
       case _ => false
  }

  ghost predicate IsNotification(m: Message) {
    exists time: nat :: SentAt(m, time)
  }

  predicate SentAt(m: Message, time: nat) {
    time < 0x1_0000_0000_0000_0000 && m == NotificationMessage(1, time)
  }

  /** What of the channel to the reader is traffic: all of it, or all behind the response still to be read. */
  function TrafficOf(s: State): seq<Message> {
    if s.reader.stage.AwaitingResponse? && s.toReader != [] then s.toReader[1..] else s.toReader
  }

  /** Serving: exactly one timer is armed, and at most one keepalive is unacknowledged, with the pending ID. */
  ghost predicate ServingInv(c: Config, s: State) {
    var e, r := s.emulator, s.reader;
    && e.stage.Serving?
    && (r.stage.Reading? ||
       (r.stage.AwaitingResponse? && s.toReader != [] && s.toReader[0] == ConfigResponseMessage(r.requestID)))
    && (e.failed.None? ==> e.keepaliveArmed != e.ackArmed)
    && Traffic(c, TrafficOf(s), e.pending) && Acks(s.toEmulator, e.pending)
    && (e.inbox.Some? ==> e.inbox.value == KeepaliveAckMessage(e.pending))
    && Outstanding(s) <= (if e.ackArmed then 1 else 0)
    && (e.failed.None? ==> Outstanding(s) == if e.ackArmed then 1 else 0)
  }

  ghost predicate Inv(c: Config, s: State) {
    && s.emulator.pending < 0x1_0000_0000 && s.emulator.keepaliveID < 0x1_0000_0000 &&
       s.emulator.reportID < 0x1_0000_0000
    && (Handshake(s) || ServingInv(c, s))
    && s.emulator.failed != Some(ProtocolError) && s.reader.failed != Some(ProtocolError)
  }

  lemma InitInv(c: Config, requestID: nat)
    ensures Inv(c, Init(requestID))
  {
  }

  // ------------------------------------------------------------ small facts

  lemma {:induction false} NoKeepalives(ms: seq<Message>)
    requires CountKeepalives(ms) == 0
    ensures forall i | 0 <= i < |ms| :: ms[i].typ != KEEPALIVE
  {
    if ms != [] {
      NoKeepalives(ms[..|ms| - 1]);
    }
  }

  lemma {:induction false} KeepalivesJoin(a: seq<Message>, b: seq<Message>)
    ensures CountKeepalives(a + b) == CountKeepalives(a) + CountKeepalives(b)
    decreases |b|
  {
    if b == [] {
      assert a + b == a;
    } else {
      assert (a + b)[..|a + b| - 1] == a + b[..|b| - 1];
      KeepalivesJoin(a, b[..|b| - 1]);
    }
  }

  lemma KeepalivesTail(ms: seq<Message>)
    requires ms != []
    ensures CountKeepalives(ms) == CountKeepalives(ms[1..]) + if ms[0].typ == KEEPALIVE then 1 else 0
  {
    assert ms == [ms[0]] + ms[1..];
    KeepalivesJoin([ms[0]], ms[1..]);
    assert [ms[0]][..0] == [] && CountKeepalives([]) == 0;
  }

  /** A cycle's reports are traffic without keepalives. */
  lemma ReportsAreTraffic(c: Config, groups: seq<seq<Bytes>>, frames: seq<Bytes>, id: nat, pending: nat)
    requires Packed(groups, frames, c.frameBytes)
    ensures Traffic(c, ReportMessages(frames, id), pending) && CountKeepalives(ReportMessages(frames, id)) == 0
  {
    var ms := ReportMessages(frames, id);
    forall i | 0 <= i < |ms|
      ensures GoodReport(c, ms[i])
    {
      assert CarriesGroup(c, ms[i], groups[i]);
    }
    ReportsCount(ms);
  }

  lemma {:induction false} ReportsCount(ms: seq<Message>)
    requires forall i | 0 <= i < |ms| :: ms[i].typ == RO_ACCESS_REPORT
    ensures CountKeepalives(ms) == 0
  {
    if ms != [] {
      ReportsCount(ms[..|ms| - 1]);
    }
  }

  lemma TrafficJoin(c: Config, a: seq<Message>, b: seq<Message>, pending: nat)
    requires Traffic(c, a, pending) && Traffic(c, b, pending)
    ensures Traffic(c, a + b, pending)
  {
    hide GoodReport;
  }

  /** Without keepalives in it, traffic suits any pending ID. */
  lemma TrafficRenumbered(c: Config, ms: seq<Message>, pending: nat, next: nat)
    requires Traffic(c, ms, pending) && CountKeepalives(ms) == 0
    ensures Traffic(c, ms, next)
  {
    NoKeepalives(ms);
    hide GoodReport;
  }

  lemma ReportDecodes(c: Config, m: Message)
    requires CompatibleConfig(c) && GoodReport(c, m)
    ensures DecodeObservations(m.payload, c.readerLimits).Success?
  {
    var group :| CarriesGroup(c, m, group);
    FrameReadsBack(group, c.readerLimits);
  }

  lemma LimitsHandshake(c: Config)
    requires LimitsFit(c)
    ensures Handshakes(c.readerLimits) && Handshakes(EmulatorLimits(c))
  {
  }

  // ------------------------------------------------------------- each step

  lemma HandshakeKeeps(c: Config, s: State, st: Step)
    requires CompatibleConfig(c) && Inv(c, s) && Handshake(s) && Enabled(c, s, st)
    requires st.Notify? || st.Configure? || st.ReaderHandles?
    ensures Inv(c, Apply(c, s, st)) && Handshake(Apply(c, s, st))
  {
    hide NotificationOk, ConfigResponseOk, RequestedKeepalive, DecodeObservations, NotificationData, Status;
    hide KeepaliveSpec, LimitsFit, Handshakes;
    LimitsHandshake(c);
    match st
    case Notify(time) =>
      assert SentAt(NotificationMessage(1, time), time);
    case Configure =>
      RequestAsks(s.reader.requestID, c.timing, EmulatorLimits(c));
    case ReaderHandles(_) =>
      if s.reader.stage.AwaitingNotification? {
        var time: nat :| SentAt(s.toReader[0], time);
        NotificationAccepted(1, time, c.readerLimits);
      } else {
        ResponseAccepted(s.reader.requestID, c.readerLimits);
      }
  }

  lemma SendKeeps(c: Config, s: State, st: Step)
    requires Inv(c, s) && Enabled(c, s, st) && st.SendReports?
    ensures Inv(c, Apply(c, s, st)) && ServingInv(c, Apply(c, s, st))
  {
    hide GoodReport, Packed, CountKeepalives, Status;
    var ms := ReportMessages(st.frames, s.emulator.reportID);
    ReportsAreTraffic(c, st.groups, st.frames, s.emulator.reportID, s.emulator.pending);
    KeepalivesJoin(s.toReader, ms);
    var s' := Apply(c, s, st);
    if s.emulator.stage.FirstReport? {
      NoneYet(s);
      assert TrafficOf(s') == ms;
    } else {
      TrafficJoin(c, TrafficOf(s), ms, s.emulator.pending);
      assert TrafficOf(s') == TrafficOf(s) + ms;
    }
  }

  lemma NoneYet(s: State)
    requires Handshake(s) && s.emulator.stage.FirstReport?
    ensures CountKeepalives(s.toReader) == 0
  {
    if s.toReader != [] {
      assert s.toReader[..0] == [];
    }
  }

  lemma KeepaliveKeeps(c: Config, s: State)
    requires Inv(c, s) && Enabled(c, s, KeepaliveDue)
    ensures Inv(c, Apply(c, s, KeepaliveDue)) && ServingInv(c, Apply(c, s, KeepaliveDue))
  {
    hide GoodReport, CountKeepalives, Status;
    var e, s' := s.emulator, Apply(c, s, KeepaliveDue);
    var m := KeepaliveMessage(e.keepaliveID);
    KeepalivesJoin(s.toReader, [m]);
    KeepalivesTail([m]);
    assert CountKeepalives([m][1..]) == 0 by { ReportsCount([m][1..]); }
    if s.toReader != [] {
      KeepalivesTail(s.toReader);
    }
    TrafficRenumbered(c, TrafficOf(s), e.pending, e.keepaliveID);
    assert Traffic(c, [m], e.keepaliveID);
    TrafficJoin(c, TrafficOf(s), [m], e.keepaliveID);
    assert TrafficOf(s') == TrafficOf(s) + [m];
  }

  lemma InputKeeps(c: Config, s: State, st: Step)
    requires Inv(c, s) && Enabled(c, s, st) && (st.TakeInput? || st.HandleInput? || st.AckDue?)
    ensures Inv(c, Apply(c, s, st)) && ServingInv(c, Apply(c, s, st))
  {
    hide Traffic, CountKeepalives, Status;
  }

  lemma ReaderKeeps(c: Config, s: State, st: Step)
    requires CompatibleConfig(c) && Inv(c, s) && ServingInv(c, s) && Enabled(c, s, st) && st.ReaderHandles?
    ensures Inv(c, Apply(c, s, st)) && ServingInv(c, Apply(c, s, st))
  {
    hide GoodReport, CountKeepalives, NotificationOk, ConfigResponseOk, DecodeObservations, Status, LimitsFit;
    hide Handshakes;
    LimitsHandshake(c);
    KeepalivesTail(s.toReader);
    var m := s.toReader[0];
    if s.reader.stage.AwaitingResponse? {
      ResponseAccepted(s.reader.requestID, c.readerLimits);
      assert m.typ == SET_READER_CONFIG_RESPONSE;
    } else {
      assert GoodReport(c, m) || m == KeepaliveMessage(s.emulator.pending);
      if GoodReport(c, m) {
        ReportDecodes(c, m);
        ReportType(c, m);
      }
    }
  }

  lemma ReportType(c: Config, m: Message)
    requires GoodReport(c, m)
    ensures m.typ == RO_ACCESS_REPORT
  {
  }

  /** Every step keeps the invariant: in particular neither side ever sees a protocol violation. */
  lemma StepKeeps(c: Config, s: State, st: Step)
    requires CompatibleConfig(c) && Inv(c, s) && Enabled(c, s, st)
    ensures Inv(c, Apply(c, s, st))
  {
    match st
    case Notify(_) => HandshakeKeeps(c, s, st);
    case Configure => HandshakeKeeps(c, s, st);
    case SendReports(_, _) => SendKeeps(c, s, st);
    case KeepaliveDue => KeepaliveKeeps(c, s);
    case TakeInput => InputKeeps(c, s, st);
    case HandleInput(_) => InputKeeps(c, s, st);
    case AckDue(_) => InputKeeps(c, s, st);
    case ReaderHandles(_) =>
      if Handshake(s) {
        HandshakeKeeps(c, s, st);
      } else {
        ReaderKeeps(c, s, st);
      }
    case EmulatorLoses =>
      hide Traffic, CountKeepalives;
    case ReaderLoses =>
      hide Traffic, CountKeepalives;
  }

  // -------------------------------------------------------------------- runs

  /** A run: steps that are enabled one after the other, and the state they lead to. */
  ghost predicate Reaches(c: Config, s: State, steps: seq<Step>, t: State)
    decreases |steps|
  {
    if steps == [] then s == t
    else Enabled(c, s, steps[0]) && Reaches(c, Apply(c, s, steps[0]), steps[1..], t)
  }

  lemma {:induction false} RunKeeps(c: Config, s: State, steps: seq<Step>, t: State)
    requires CompatibleConfig(c) && Inv(c, s) && Reaches(c, s, steps, t)
    ensures Inv(c, t)
    decreases |steps|
  {
    hide Inv, Enabled, Apply, CompatibleConfig;
    if steps != [] {
      StepKeeps(c, s, steps[0]);
      RunKeeps(c, Apply(c, s, steps[0]), steps[1..], t);
    }
  }

  predicate ViolatesProtocol(s: State) {
    s.emulator.failed == Some(ProtocolError) || s.reader.failed == Some(ProtocolError)
  }

  /**
   * In every run: no protocol violation; once serving, exactly one of the keepalive and acknowledgement timers is
   * armed, and the keepalives and acknowledgements under way are at most one, carrying the pending ID.
   */
  lemma Safety(c: Config, requestID: nat, steps: seq<Step>, t: State)
    requires CompatibleConfig(c) && Reaches(c, Init(requestID), steps, t)
    ensures !ViolatesProtocol(t)
    ensures t.emulator.stage.Serving? && t.emulator.failed.None? ==>
              t.emulator.keepaliveArmed != t.emulator.ackArmed && Outstanding(t) == if t.emulator.ackArmed then 1 else 0
    ensures t.emulator.stage.Serving? ==> Outstanding(t) <= 1 && Acks(t.toEmulator, t.emulator.pending)
    ensures forall i | 0 <= i < |t.toReader| ::
            t.toReader[i].typ == KEEPALIVE ==> t.toReader[i].id == t.emulator.pending
  {
    InitInv(c, requestID);
    RunKeeps(c, Init(requestID), steps, t);
    hide CountKeepalives, GoodReport;
    forall i | 0 <= i < |t.toReader| && t.toReader[i].typ == KEEPALIVE
      ensures t.toReader[i].id == t.emulator.pending
    {
      if ServingInv(c, t) {
        PendingOnly(c, t, i);
      }
    }
  }

  lemma PendingOnly(c: Config, t: State, i: nat)
    requires ServingInv(c, t) && i < |t.toReader| && t.toReader[i].typ == KEEPALIVE
    ensures t.toReader[i].id == t.emulator.pending
  {
    hide CountKeepalives;
    if t.reader.stage.AwaitingResponse? {
      assert i > 0 && TrafficOf(t)[i - 1] == t.toReader[i];
    } else {
      assert TrafficOf(t)[i] == t.toReader[i];
    }
  }

  /** No run from the start violates the protocol. */
  ghost predicate NeverViolates(c: Config, requestID: nat) {
    forall steps, t :: Reaches(c, Init(requestID), steps, t) ==> !ViolatesProtocol(t)
  }

  /** With limits that fit, the time budget alone decides: if ten seconds do not fit it, the handshake fails. */
  lemma TimingDecides(c: Config, requestID: nat)
    requires LimitsFit(c)
    ensures NeverViolates(c, requestID) <==> TimingFits(c)
  {
    if TimingFits(c) {
      forall steps, t | Reaches(c, Init(requestID), steps, t)
        ensures !ViolatesProtocol(t)
      {
        Safety(c, requestID, steps, t);
      }
    } else {
      var steps, t := TooSlow(c, requestID);
      assert Reaches(c, Init(requestID), steps, t) && ViolatesProtocol(t);
    }
  }

  lemma TooSlow(c: Config, requestID: nat) returns (steps: seq<Step>, t: State)
    requires LimitsFit(c) && !TimingFits(c)
    ensures Reaches(c, Init(requestID), steps, t) && ViolatesProtocol(t)
  {
    hide NotificationOk, RequestedKeepalive, NotificationData, KeepaliveSpec, LimitsFit, Handshakes;
    LimitsHandshake(c);
    NotificationAccepted(1, 0, c.readerLimits);
    RequestAsks(requestID, c.timing, EmulatorLimits(c));
    var a, b, d := Notify(0), ReaderHandles(false), Configure;
    var s0 := Init(requestID);
    var s1 := Apply(c, s0, a);
    var s2 := Apply(c, s1, b);
    assert s2.toEmulator == [] + [SetConfigMessage(requestID)];
    t := Apply(c, s2, d);
    steps := [a, b, d];
    assert Reaches(c, t, [], t);
    assert [d][1..] == [] && Reaches(c, s2, [d], t);
    assert [b, d][1..] == [d] && Reaches(c, s1, [b, d], t);
    assert steps[1..] == [b, d];
  }

  // ------------------------------------------------------ on arbitrary input

  /**
   * What a serving emulator does with any message whatever: only an empty acknowledgement of the pending keepalive,
   * while
   * one is due, lets the session go on, and only in time; anything else is a violation.
   */
  lemma HandlesAnything(e: Emulator, m: Message, late: bool)
    requires e.failed.None?
    ensures var r := Handle(e, m, late);
            var due := m.typ == 1096 && m.payload == [] && e.ackArmed && m.id == e.pending;
      && (r.failed == None <==> due && !late)
      && (r.failed == Some(KeepaliveTimeout) <==> due && late)
      && (r.failed == Some(ProtocolError) <==> !due)
      && r.inbox == None && r.stage == e.stage && r.pending == e.pending && r.keepaliveID == e.keepaliveID
      && (r.failed == None ==> r.keepaliveArmed && !r.ackArmed)
  {
  }

  /**
   * What the reader does with any message whatever: when it goes on, to which stage, and what it sends. Its request
   * goes
   * out once, on the first notification; keepalives are answered with their own ID from then on.
   */
  lemma AnswersAnything(c: Config, r: Reader, m: Message, full: bool)
    requires r.failed.None?
    ensures var (next, sent) := Answer(c, r, m, full);
            var opening, keepalive := r.stage.AwaitingNotification?, m.typ == 1086 && m.payload == [];
      && (next.failed == None <==>
            || (opening && NotificationOk(m, c.readerLimits, true))
            || (!opening && keepalive)
            || (r.stage.AwaitingResponse? && ConfigResponseOk(m, r.requestID, c.readerLimits))
            || (r.stage.Reading? && m.typ == 1085 && DecodeObservations(m.payload, c.readerLimits).Success? && !full)
            || (r.stage.Reading? && NotificationOk(m, c.readerLimits, false)))
      && (next.failed == Some(Backpressure) <==>
            r.stage.Reading? && m.typ == 1085 && DecodeObservations(m.payload, c.readerLimits).Success? && full)
      && (next.failed != None ==> sent == [] && next.failed in [Some(Backpressure), Some(ProtocolError)])
      && (next.failed == None ==>
            && sent == (if opening then [SetConfigMessage(r.requestID)]
                        else if keepalive then [KeepaliveAckMessage(m.id)] else [])
            && next.requestID == r.requestID
            && next.stage == if opening then AwaitingResponse else if m.typ == 1037 then Reading else r.stage)
  {
    hide DecodeParameters, DecodeObservations;
  }

  // ------------------------------------------------------------------- counts

  /** How many keepalives a run sends. */
  function Due(steps: seq<Step>): nat {
    if steps == [] then 0 else Due(steps[..|steps| - 1]) + if steps[|steps| - 1].KeepaliveDue? then 1 else 0
  }

  /** How many reports a run sends. */
  function Reports(steps: seq<Step>): nat {
    if steps == [] then 0
    else Reports(steps[..|steps| - 1]) + if steps[|steps| - 1].SendReports? then |steps[|steps| - 1].frames| else 0
  }

  lemma {:induction false} CountsSplit(steps: seq<Step>)
    requires steps != []
    ensures Due(steps) == (if steps[0].KeepaliveDue? then 1 else 0) + Due(steps[1..])
    ensures Reports(steps) == (if steps[0].SendReports? then |steps[0].frames| else 0) + Reports(steps[1..])
    decreases |steps|
  {
    var last := |steps| - 1;
    if last > 0 {
      assert steps[..last][1..] == steps[1..][..last - 1];
      CountsSplit(steps[..last]);
    } else {
      assert steps[..0] == [] && steps[1..] == [];
    }
  }

  lemma StepCounts(c: Config, s: State, st: Step)
    requires Enabled(c, s, st)
    ensures var e, e' := s.emulator, Apply(c, s, st).emulator;
      && e'.keepaliveID == (if st.KeepaliveDue? then (e.keepaliveID + 1) % 0x1_0000_0000 else e.keepaliveID)
      && e'.pending == (if st.KeepaliveDue? then e.keepaliveID else e.pending)
      && e'.reportID == if st.SendReports? then (e.reportID + |st.frames|) % 0x1_0000_0000 else e.reportID
  {
    hide Packed, RequestedKeepalive, NotificationOk, ConfigResponseOk, DecodeObservations;
  }

  lemma Added(a: nat, b: nat)
    ensures (a % 0x1_0000_0000 + b) % 0x1_0000_0000 == (a + b) % 0x1_0000_0000
  {
  }

  lemma {:induction false} KeepalivesInARow(c: Config, s: State, steps: seq<Step>, t: State)
    requires Reaches(c, s, steps, t) && s.emulator.keepaliveID < 0x1_0000_0000
    ensures t.emulator.keepaliveID == (s.emulator.keepaliveID + Due(steps)) % 0x1_0000_0000
    ensures t.emulator.pending == if Due(steps) == 0 then s.emulator.pending
                                  else (s.emulator.keepaliveID + Due(steps) - 1) % 0x1_0000_0000
    decreases |steps|
  {
    hide Enabled, Apply, Reports;
    if steps == [] {
      Added(s.emulator.keepaliveID, 0);
    } else {
      var e, rest := s.emulator, steps[1..];
      StepCounts(c, s, steps[0]);
      CountsSplit(steps);
      KeepalivesInARow(c, Apply(c, s, steps[0]), rest, t);
      hide Reaches, Due;
      if steps[0].KeepaliveDue? {
        Added(e.keepaliveID + 1, Due(rest));
        if Due(rest) > 0 {
          Added(e.keepaliveID + 1, Due(rest) - 1);
        } else {
          Added(e.keepaliveID, 0);
        }
      }
    }
  }

  lemma {:induction false} ReportsInARow(c: Config, s: State, steps: seq<Step>, t: State)
    requires Reaches(c, s, steps, t) && s.emulator.reportID < 0x1_0000_0000
    ensures t.emulator.reportID == (s.emulator.reportID + Reports(steps)) % 0x1_0000_0000
    decreases |steps|
  {
    hide Enabled, Apply, Due;
    if steps == [] {
      Added(s.emulator.reportID, 0);
    } else {
      var e, rest := s.emulator, steps[1..];
      StepCounts(c, s, steps[0]);
      CountsSplit(steps);
      ReportsInARow(c, Apply(c, s, steps[0]), rest, t);
      hide Reaches, Reports;
      if steps[0].SendReports? {
        Added(e.reportID + |steps[0].frames|, Reports(rest));
      }
    }
  }

  /**
   * In every run the keepalives and the reports are numbered in a row: the next keepalive's ID is the first one's plus
   * the keepalives sent so far, modulo 2^32, the pending one the ID before, and likewise for the reports.
   */
  lemma NumberedInARow(c: Config, s: State, steps: seq<Step>, t: State)
    requires Reaches(c, s, steps, t)
    requires s.emulator.keepaliveID < 0x1_0000_0000 && s.emulator.reportID < 0x1_0000_0000
    ensures t.emulator.keepaliveID == (s.emulator.keepaliveID + Due(steps)) % 0x1_0000_0000
    ensures t.emulator.pending == if Due(steps) == 0 then s.emulator.pending
                                  else (s.emulator.keepaliveID + Due(steps) - 1) % 0x1_0000_0000
    ensures t.emulator.reportID == (s.emulator.reportID + Reports(steps)) % 0x1_0000_0000
  {
    hide Reaches, Due, Reports;
    KeepalivesInARow(c, s, steps, t);
    ReportsInARow(c, s, steps, t);
  }

  /** From the start: keepalives from 0x80000000 on, reports from 1000 on. */
  lemma NumberedFromStart(c: Config, requestID: nat, steps: seq<Step>, t: State)
    requires Reaches(c, Init(requestID), steps, t)
    ensures t.emulator.keepaliveID == (0x8000_0000 + Due(steps)) % 0x1_0000_0000
    ensures t.emulator.reportID == (1000 + Reports(steps)) % 0x1_0000_0000
  {
    NumberedInARow(c, Init(requestID), steps, t);
  }

  // ---------------------------------------------------------------- framing

  /** The sender's encoder accepts a message, and the receiver reads it off whatever stream its frame starts. */
  ghost predicate Carried(m: Message, sender: Limits, receiver: Limits)
    requires ValidLimits(sender)
  {
    && ValidMessage(m) && EncodeMessage(m, sender).Success?
    && forall rest: Bytes :: ReadsAs(EncodeMessage(m, sender).value, m, receiver, rest)
  }

  ghost predicate ReadsAs(frame: Bytes, m: Message, receiver: Limits, rest: Bytes) {
    ReadMessage(frame + rest, receiver) == Some(Success((m.(length := |frame|), rest)))
  }

  lemma FitsBoth(m: Message, sender: Limits, receiver: Limits)
    requires ValidLimits(sender) && ValidLimits(receiver) && ValidMessage(m) && m.length == 0
    requires HEADER_SIZE + |m.payload| <= Normalized(sender).maxFrameSize
    requires HEADER_SIZE + |m.payload| <= Normalized(receiver).maxFrameSize
    ensures Carried(m, sender, receiver)
  {
    hide ReadMessage, Put16, Put32;
    var frame := EncodeMessage(m, sender).value;
    assert EncodeMessage(m, receiver) == Success(frame);
    forall rest: Bytes
      ensures ReadsAs(frame, m, receiver, rest)
    {
      ReadOfEncoded(m, receiver, frame, rest);
    }
  }

  /** Handshake messages, keepalives and acknowledgements are short. */
  predicate Short(m: Message) {
    ValidMessage(m) && m.length == 0 && HEADER_SIZE + |m.payload| <= 128
  }

  lemma HandshakeIsShort(id: nat, time: nat)
    requires id < 0x1_0000_0000 && time < 0x1_0000_0000_0000_0000
    ensures Short(NotificationMessage(1, time)) && Short(SetConfigMessage(id)) && Short(ConfigResponseMessage(id))
    ensures Short(KeepaliveMessage(id)) && Short(KeepaliveAckMessage(id))
  {
  }

  /** What is on its way to the reader is short, or a report that fits the emulator's frames. */
  lemma ToReaderFits(c: Config, s: State, i: nat)
    requires Inv(c, s) && s.reader.requestID < 0x1_0000_0000 && i < |s.toReader|
    ensures Short(s.toReader[i]) || GoodReport(c, s.toReader[i])
  {
    hide Short, GoodReport, CountKeepalives, ConfigResponseMessage, KeepaliveMessage, NotificationMessage;
    HandshakeIsShort(s.reader.requestID, 0);
    HandshakeIsShort(s.emulator.pending, 0);
    if Handshake(s) {
      if IsNotification(s.toReader[i]) {
        var time: nat :| SentAt(s.toReader[i], time);
        HandshakeIsShort(0, time);
      }
    } else if s.reader.stage.AwaitingResponse? {
      assert i > 0 ==> TrafficOf(s)[i - 1] == s.toReader[i];
    } else {
      assert TrafficOf(s)[i] == s.toReader[i];
    }
  }

  /** What is on its way to the emulator is short. */
  lemma ToEmulatorFits(c: Config, s: State, i: nat)
    requires Inv(c, s) && s.reader.requestID < 0x1_0000_0000 && i < |s.toEmulator|
    ensures Short(s.toEmulator[i])
  {
    hide Short, Traffic, CountKeepalives, SetConfigMessage, KeepaliveAckMessage;
    HandshakeIsShort(s.reader.requestID, 0);
    HandshakeIsShort(s.emulator.pending, 0);
  }

  lemma {:induction false} RequestKept(c: Config, s: State, steps: seq<Step>, t: State)
    requires Reaches(c, s, steps, t)
    ensures t.reader.requestID == s.reader.requestID
    decreases |steps|
  {
    hide Enabled;
    if steps != [] {
      assert Apply(c, s, steps[0]).reader.requestID == s.reader.requestID;
      hide Apply;
      RequestKept(c, Apply(c, s, steps[0]), steps[1..], t);
    }
  }

  /**
   * In every run each message under way, either way, is one its sender's encoder accepts and its receiver reads back as
   * sent, whatever follows it on the stream: framing never breaks a connection.
   */
  lemma WireCarries(c: Config, requestID: nat, steps: seq<Step>, t: State)
    requires CompatibleConfig(c) && ValidLimits(c.readerLimits) && requestID < 0x1_0000_0000
    requires Reaches(c, Init(requestID), steps, t)
    ensures forall m | m in t.toReader :: Carried(m, EmulatorLimits(c), c.readerLimits)
    ensures forall m | m in t.toEmulator :: Carried(m, c.readerLimits, EmulatorLimits(c))
  {
    hide Inv, Enabled, Apply, Carried, GoodReport, Short, Handshakes;
    InitInv(c, requestID);
    RunKeeps(c, Init(requestID), steps, t);
    RequestKept(c, Init(requestID), steps, t);
    forall m | m in t.toReader
      ensures Carried(m, EmulatorLimits(c), c.readerLimits)
    {
      var i :| 0 <= i < |t.toReader| && t.toReader[i] == m;
      ToReaderFits(c, t, i);
      OneCarried(c, m);
    }
    forall m | m in t.toEmulator
      ensures Carried(m, c.readerLimits, EmulatorLimits(c))
    {
      var i :| 0 <= i < |t.toEmulator| && t.toEmulator[i] == m;
      ToEmulatorFits(c, t, i);
      OneCarried(c, m);
    }
  }

  lemma OneCarried(c: Config, m: Message)
    requires LimitsFit(c) && ValidLimits(c.readerLimits) && (Short(m) || GoodReport(c, m))
    ensures Carried(m, EmulatorLimits(c), c.readerLimits) && Carried(m, c.readerLimits, EmulatorLimits(c))
  {
    hide Carried, CarriesGroup;
    if GoodReport(c, m) {
      var group :| CarriesGroup(c, m, group);
      ReportFits(c, m, group);
    }
    hide GoodReport;
    FitsBoth(m, EmulatorLimits(c), c.readerLimits);
    FitsBoth(m, c.readerLimits, EmulatorLimits(c));
  }

  lemma ReportFits(c: Config, m: Message, group: seq<Bytes>)
    requires CarriesGroup(c, m, group)
    ensures HEADER_SIZE + |m.payload| <= c.frameBytes
  {
  }
}
