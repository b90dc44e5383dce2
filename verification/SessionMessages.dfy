/**
 * The messages of a session and both sides' checks of them
 * (llrp/typed_messages.go, llrp/parameter.go, internal/reader/protocol.go, internal/emulator/session.go).
 */
module SessionMessages {
  import opened Wrappers
  import opened LlrpCodec

  const SET_READER_CONFIG := 1027
  const SET_READER_CONFIG_RESPONSE := 1037
  const RO_ACCESS_REPORT := 1085
  const KEEPALIVE := 1086
  const READER_EVENT_NOTIFICATION := 1087
  const KEEPALIVE_ACK := 1096

  // --------------------------------------------------------------- building

  function Put64(n: nat): (b: Bytes)
    requires n < 0x1_0000_0000_0000_0000
    ensures |b| == 8
  {
    Put32(n / 0x1_0000_0000) + Put32(n % 0x1_0000_0000)
  }

  function Timestamp(time: nat): Bytes
    requires time < 0x1_0000_0000_0000_0000
  {
    Put16(128) + Put16(12) + Put64(time)
  }

  function ConnectionAttempt(): Bytes {
    Put16(256) + Put16(6) + Put16(0)
  }

  function NotificationData(time: nat): Bytes
    requires time < 0x1_0000_0000_0000_0000
  {
    Put16(246) + Put16(|Timestamp(time)| + |ConnectionAttempt()| + 4) + Timestamp(time) + ConnectionAttempt()
  }

  function KeepaliveSpec(): Bytes {
    Put16(220) + Put16(9) + [1] + Put32(10000)
  }

  function Status(): Bytes {
    Put16(287) + Put16(8) + Put16(0) + Put16(0)
  }

  function NotificationMessage(id: nat, time: nat): Message
    requires time < 0x1_0000_0000_0000_0000
  {
    Message(READER_EVENT_NOTIFICATION, 0, id, NotificationData(time))
  }

  function SetConfigMessage(id: nat): Message {
    Message(SET_READER_CONFIG, 0, id, [0] + KeepaliveSpec())
  }

  function ConfigResponseMessage(id: nat): Message {
    Message(SET_READER_CONFIG_RESPONSE, 0, id, Status())
  }

  function KeepaliveMessage(id: nat): Message {
    Message(KEEPALIVE, 0, id, [])
  }

  function KeepaliveAckMessage(id: nat): Message {
    Message(KEEPALIVE_ACK, 0, id, [])
  }

  function ReportMessage(body: Bytes, id: nat): Message {
    Message(RO_ACCESS_REPORT, 0, id, body)
  }

  // --------------------------------------------------- checks of the reader

  predicate IsAttempt(p: Parameter) {
    p.typ == 256
  }

  predicate AttemptOk(p: Parameter) {
    !p.tv && |p.data| == 2 && Get16(p.data, 0) == 0
  }

  function CountAttempts(ps: seq<Parameter>): nat {
    if ps == [] then 0 else CountAttempts(ps[..|ps| - 1]) + if IsAttempt(ps[|ps| - 1]) then 1 else 0
  }

  predicate ContainerOk(p: Parameter, limits: Limits) {
    && !p.tv && p.typ == 246 && DecodeParameters(p.data, limits).Success?
    && forall i | 0 <= i < |DecodeParameters(p.data, limits).value| ::
         IsAttempt(DecodeParameters(p.data, limits).value[i]) ==> AttemptOk(DecodeParameters(p.data, limits).value[i])
  }

  /** A notification: one container, its connection attempts successful, at most one, the first time exactly one. */
  predicate NotificationOk(m: Message, limits: Limits, initial: bool) {
    && m.typ == READER_EVENT_NOTIFICATION
    && var ps := DecodeParameters(m.payload, limits);
       ps.Success? && |ps.value| == 1 && ContainerOk(ps.value[0], limits) &&
       var attempts := CountAttempts(DecodeParameters(ps.value[0].data, limits).value);
       attempts <= 1 && (initial ==> attempts == 1)
  }

  method ValidateNotification(m: Message, limits: Limits, initial: bool) returns (ok: bool)
    ensures ok <==> NotificationOk(m, limits, initial)
  {
    if m.typ != READER_EVENT_NOTIFICATION {
      return false;
    }
    var params := DecodeParameterList(m.payload, limits);
    if params.Failure? {
      return false;
    }
    var containers, attempts := 0, 0;
    var ps := params.value;
    for i := 0 to |ps|
      invariant containers == i
      invariant forall j | 0 <= j < i :: ContainerOk(ps[j], limits)
      invariant i == 0 ==> attempts == 0
      invariant i == 1 ==> attempts == CountAttempts(DecodeParameters(ps[0].data, limits).value)
    {
      var p := ps[i];
      if p.tv || p.typ != 246 {
        return false;
      }
      containers := containers + 1;
      var nested := DecodeParameterList(p.data, limits);
      if nested.Failure? {
        return false;
      }
      ghost var before := attempts;
      var ns := nested.value;
      for k := 0 to |ns|
        invariant attempts == before + CountAttempts(ns[..k])
        invariant forall j | 0 <= j < k :: IsAttempt(ns[j]) ==> AttemptOk(ns[j])
      {
        assert ns[..k + 1][..k] == ns[..k];
        var n := ns[k];
        if n.typ == 256 {
          attempts := attempts + 1;
          if n.tv || |n.data| != 2 || Get16(n.data, 0) != 0 {
            return false;
          }
        }
      }
      assert ns[..|ns|] == ns;
    }
    return containers == 1 && attempts <= 1 && (!initial || attempts == 1);
  }

  predicate IsStatus(p: Parameter) {
    p.typ == 287
  }

  /** A success status whose description and nested parameters are well formed. */
  predicate StatusOk(p: Parameter, limits: Limits) {
    && !p.tv && |p.data| >= 4
    && var n := Get16(p.data, 2);
       n <= |p.data| - 4 && DecodeParameters(p.data[4 + n..], limits).Success? && Get16(p.data, 0) == 0
  }

  function CountStatuses(ps: seq<Parameter>): nat {
    if ps == [] then 0 else CountStatuses(ps[..|ps| - 1]) + if IsStatus(ps[|ps| - 1]) then 1 else 0
  }

  predicate ConfigResponseOk(m: Message, id: nat, limits: Limits) {
    && m.typ == SET_READER_CONFIG_RESPONSE && m.id == id
    && var ps := DecodeParameters(m.payload, limits);
       ps.Success? && CountStatuses(ps.value) == 1 &&
       forall i | 0 <= i < |ps.value| :: IsStatus(ps.value[i]) ==> StatusOk(ps.value[i], limits)
  }

  method ValidateConfigResponse(m: Message, id: nat, limits: Limits) returns (ok: bool)
    ensures ok <==> ConfigResponseOk(m, id, limits)
  {
    hide StatusOk, DecodeParameters;
    if m.typ != SET_READER_CONFIG_RESPONSE || m.id != id {
      return false;
    }
    var params := DecodeParameterList(m.payload, limits);
    if params.Failure? {
      return false;
    }
    var statuses := 0;
    var ps := params.value;
    for i := 0 to |ps|
      invariant statuses == CountStatuses(ps[..i])
      invariant forall j | 0 <= j < i :: IsStatus(ps[j]) ==> StatusOk(ps[j], limits)
    {
      assert ps[..i + 1][..i] == ps[..i];
      if ps[i].typ == 287 {
        statuses := statuses + 1;
        var sound := CheckStatus(ps[i], limits);
        if !sound {
          return false;
        }
      }
    }
    assert ps[..|ps|] == ps;
    return statuses == 1;
  }

  /** The checks on one status parameter. */
  method CheckStatus(p: Parameter, limits: Limits) returns (ok: bool)
    ensures ok <==> StatusOk(p, limits)
  {
    hide DecodeParameters, Get16;
    if p.tv || |p.data| < 4 {
      return false;
    }
    var descriptionLength := Get16(p.data, 2);
    if descriptionLength > |p.data| - 4 {
      return false;
    }
    var rest := DecodeParameterList(p.data[4 + descriptionLength..], limits);
    return rest.Success? && Get16(p.data, 0) == 0;
  }

  // -------------------------------------------------- what the checks accept

  /** At most one element is of the kind. */
  lemma {:induction false} FewAttempts(ps: seq<Parameter>)
    ensures CountAttempts(ps) <= 1 <==>
              forall i, j | 0 <= i < j < |ps| :: ps[i].typ != 256 || ps[j].typ != 256
    ensures CountAttempts(ps) == 0 <==> forall i | 0 <= i < |ps| :: ps[i].typ != 256
  {
    if ps != [] {
      var front := ps[..|ps| - 1];
      FewAttempts(front);
      assert forall i | 0 <= i < |front| :: front[i] == ps[i];
    }
  }

  lemma {:induction false} FewStatuses(ps: seq<Parameter>)
    ensures CountStatuses(ps) <= 1 <==>
              forall i, j | 0 <= i < j < |ps| :: ps[i].typ != 287 || ps[j].typ != 287
    ensures CountStatuses(ps) == 0 <==> forall i | 0 <= i < |ps| :: ps[i].typ != 287
  {
    if ps != [] {
      var front := ps[..|ps| - 1];
      FewStatuses(front);
      assert forall i | 0 <= i < |front| :: front[i] == ps[i];
    }
  }

  /** The container's parameters hold at most one connection attempt, a successful one, and initially exactly one. */
  ghost predicate Attempts(ps: seq<Parameter>, initial: bool) {
    && (forall i | 0 <= i < |ps| && ps[i].typ == 256 :: ps[i] == Parameter(256, false, [0, 0]))
    && (forall i, j | 0 <= i < j < |ps| :: ps[i].typ != 256 || ps[j].typ != 256)
    && (initial ==> exists i :: 0 <= i < |ps| && ps[i].typ == 256)
  }

  /** Exactly which notifications the reader accepts. */
  lemma NotificationMeans(m: Message, limits: Limits, initial: bool)
    ensures NotificationOk(m, limits, initial) <==>
              && m.typ == 1087
              && var ps := DecodeParameters(m.payload, limits);
                 && ps.Success? && |ps.value| == 1 && ps.value[0].typ == 246 && !ps.value[0].tv
                 && var nested := DecodeParameters(ps.value[0].data, limits);
                    nested.Success? && Attempts(nested.value, initial)
  {
    hide DecodeParameters, CountAttempts;
    var ps := DecodeParameters(m.payload, limits);
    if ps.Success? && |ps.value| == 1 && DecodeParameters(ps.value[0].data, limits).Success? {
      var nested := DecodeParameters(ps.value[0].data, limits).value;
      FewAttempts(nested);
      forall i | 0 <= i < |nested| && nested[i].typ == 256
        ensures AttemptOk(nested[i]) <==> nested[i] == Parameter(256, false, [0, 0])
      {
        AttemptMeans(nested[i]);
      }
      hide AttemptOk;
    }
  }

  lemma AttemptMeans(p: Parameter)
    requires p.typ == 256
    ensures AttemptOk(p) <==> p == Parameter(256, false, [0, 0])
  {
    if AttemptOk(p) {
      assert p.data == [p.data[0], p.data[1]];
    }
  }

  /** A success status: a zero code, a description of the announced length, and parameters that decode. */
  ghost predicate Succeeds(p: Parameter, limits: Limits) {
    && !p.tv && |p.data| >= 4 && p.data[0] == 0 && p.data[1] == 0
    && var end := 4 + Spelled(p.data[2..4]); end <= |p.data| && DecodeParameters(p.data[end..], limits).Success?
  }

  /** Exactly which responses the reader accepts. */
  lemma ConfigResponseMeans(m: Message, id: nat, limits: Limits)
    ensures ConfigResponseOk(m, id, limits) <==>
              && m.typ == 1037 && m.id == id
              && var ps := DecodeParameters(m.payload, limits);
                 && ps.Success?
                 && (exists i :: 0 <= i < |ps.value| && ps.value[i].typ == 287)
                 && (forall i, j | 0 <= i < j < |ps.value| :: ps.value[i].typ != 287 || ps.value[j].typ != 287)
                 && (forall i | 0 <= i < |ps.value| && ps.value[i].typ == 287 :: Succeeds(ps.value[i], limits))
  {
    hide DecodeParameters, CountStatuses;
    var ps := DecodeParameters(m.payload, limits);
    if ps.Success? {
      FewStatuses(ps.value);
      forall i | 0 <= i < |ps.value|
        ensures StatusOk(ps.value[i], limits) <==> Succeeds(ps.value[i], limits)
      {
        StatusMeans(ps.value[i], limits);
      }
      hide StatusOk, Succeeds;
    }
  }

  lemma StatusMeans(p: Parameter, limits: Limits)
    ensures StatusOk(p, limits) <==> Succeeds(p, limits)
  {
    hide DecodeParameters;
    if |p.data| >= 4 {
      Spelled16(p.data, 2);
    }
    hide Spelled;
  }

  // ------------------------------------------------- checks of the emulator

  const MILLISECOND := 1_000_000
  const HOUR := 3_600_000_000_000

  /** The timing part of the emulator's configuration, in nanoseconds. */
  datatype Timing = Timing(keepaliveInterval: int, ackTimeout: int, readTimeout: int)

  /** A periodic keepalive specification, with its interval in milliseconds behind the trigger type. */
  predicate SpecOk(p: Parameter) {
    !p.tv && p.typ == 220 && |p.data| == 5 && p.data[0] == 1
  }

  /** The interval a configuration request asks for, if it asks for nothing unsupported. */
  function RequestedKeepalive(m: Message, t: Timing, limits: Limits): Option<int> {
    if m.typ != SET_READER_CONFIG || |m.payload| < 1 || m.payload[0] != 0 then None
    else match DecodeParameters(m.payload[1..], limits)
      case Failure(_) => None
      case Success(ps) =>
        if |ps| > 1 || (|ps| == 1 && !SpecOk(ps[0])) then None
        else
          var interval := if |ps| == 1 then Get32(ps[0].data, 1) * MILLISECOND else t.keepaliveInterval;
          if interval < 10 * MILLISECOND || interval > HOUR || interval + t.ackTimeout >= t.readTimeout then None
          else Some(interval)
  }

  method RequestKeepalive(m: Message, t: Timing, limits: Limits) returns (r: Option<int>)
    ensures r == RequestedKeepalive(m, t, limits)
  {
    if m.typ != SET_READER_CONFIG || |m.payload| < 1 || m.payload[0] != 0 {
      return None;
    }
    var parameters := DecodeParameterList(m.payload[1..], limits);
    if parameters.Failure? {
      return None;
    }
    var ps := parameters.value;
    var interval, seen := t.keepaliveInterval, false;
    for i := 0 to |ps|
      invariant i <= 1 && (seen <==> i == 1)
      invariant i == 0 ==> interval == t.keepaliveInterval
      invariant i == 1 ==> SpecOk(ps[0]) && interval == Get32(ps[0].data, 1) * MILLISECOND
    {
      var p := ps[i];
      if p.tv || p.typ != 220 || seen || |p.data| != 5 || p.data[0] != 1 {
        return None;
      }
      seen := true;
      interval := Get32(p.data, 1) * MILLISECOND;
    }
    if interval < 10 * MILLISECOND || interval > HOUR || interval + t.ackTimeout >= t.readTimeout {
      return None;
    }
    return Some(interval);
  }

  /** The keepalive interval is a usable one that leaves the acknowledgement time before the read timeout. */
  predicate Grantable(interval: int, t: Timing) {
    10_000_000 <= interval <= 3_600_000_000_000 && interval + t.ackTimeout < t.readTimeout
  }

  /**
   * Exactly which configuration requests the emulator grants, and what: the reset flag clear, and either nothing else
   * and
   * the configured interval, or one periodic keepalive specification and the milliseconds it spells.
   */
  lemma RequestMeans(m: Message, t: Timing, limits: Limits, interval: int)
    ensures RequestedKeepalive(m, t, limits) == Some(interval) <==>
              && m.typ == 1027 && m.payload != [] && m.payload[0] == 0 && Grantable(interval, t)
              && var ps := DecodeParameters(m.payload[1..], limits);
                 ps.Success? && (|| (ps.value == [] && interval == t.keepaliveInterval)
                                 || (|ps.value| == 1 && Asks(ps.value[0], interval)))
  {
    hide DecodeParameters;
    if m.payload != [] && DecodeParameters(m.payload[1..], limits).Success? {
      var ps := DecodeParameters(m.payload[1..], limits).value;
      if |ps| == 1 && |ps[0].data| == 5 {
        Spelled32(ps[0].data, 1);
        assert ps[0].data[1..] == ps[0].data[1..5];
      }
    }
    hide Spelled, Get32;
  }

  /** A periodic keepalive specification for the interval, which it spells in milliseconds. */
  predicate Asks(p: Parameter, interval: int) {
    !p.tv && p.typ == 220 && |p.data| == 5 && p.data[0] == 1 && interval == Spelled(p.data[1..]) * 1_000_000
  }

  /** The fixed messages byte by byte. */
  lemma HandshakeBytes(id: nat, time: nat)
    requires time < 0x1_0000_0000_0000_0000
    ensures SetConfigMessage(id) == Message(1027, 0, id, [0, 0, 220, 0, 9, 1, 0, 0, 39, 16])
    ensures ConfigResponseMessage(id) == Message(1037, 0, id, [1, 31, 0, 8, 0, 0, 0, 0])
    ensures KeepaliveMessage(id) == Message(1086, 0, id, []) && KeepaliveAckMessage(id) == Message(1096, 0, id, [])
    ensures var data := NotificationMessage(id, time).payload;
      && NotificationMessage(id, time) == Message(1087, 0, id, data) && |data| == 22
      && data[..8] == [0, 246, 0, 22, 0, 128, 0, 12] && data[16..] == [1, 0, 0, 6, 0, 0]
      && Spelled(data[8..12]) * 0x1_0000_0000 + Spelled(data[12..16]) == time
  {
    var data := NotificationData(time);
    Spelled32(data, 8);
    Spelled32(data, 12);
    hide Spelled;
    assert Get32(data, 8) == time / 0x1_0000_0000 && Get32(data, 12) == time % 0x1_0000_0000;
  }

  // ------------------------------------------------ each side accepts the other

  /** Limits wide enough for the small messages of the handshake. */
  predicate Handshakes(limits: Limits) {
    Normalized(limits).maxParameters >= 2 && Normalized(limits).maxParameterSize >= 26
  }

  /** A list of parameters and its encoding decode into each other. */
  lemma DecodesAs(ps: seq<Parameter>, data: Bytes, limits: Limits)
    requires Handshakes(limits) && |ps| <= 2 && EncodeAll(ps, Normalized(limits).maxParameterSize) == Success(data)
    ensures DecodeParameters(data, limits) == Success(ps)
  {
    WalkOfEncoded(ps, Normalized(limits), 0, data);
  }

  lemma EncodeOne(p: Parameter, maxSize: nat)
    requires EncodeParameter(p).Success? && |EncodeParameter(p).value| <= maxSize
    ensures EncodeAll([p], maxSize) == Success(EncodeParameter(p).value)
  {
    hide EncodeParameter;
    assert [p][..0] == [];
    assert EncodeAll([], maxSize) == Success([]);
    assert [] + EncodeParameter(p).value == EncodeParameter(p).value;
  }

  lemma EncodeTwo(p: Parameter, q: Parameter, maxSize: nat)
    requires EncodeParameter(p).Success? && |EncodeParameter(p).value| <= maxSize
    requires EncodeParameter(q).Success? && |EncodeParameter(q).value| <= maxSize
    ensures EncodeAll([p, q], maxSize) == Success(EncodeParameter(p).value + EncodeParameter(q).value)
  {
    EncodeOne(p, maxSize);
    hide EncodeParameter;
    assert [p, q][..1] == [p];
  }

  /** The reader accepts the emulator's notification. */
  lemma NotificationAccepted(id: nat, time: nat, limits: Limits)
    requires time < 0x1_0000_0000_0000_0000 && Handshakes(limits)
    ensures NotificationOk(NotificationMessage(id, time), limits, true)
  {
    hide EncodeParameter, DecodeParameters, NotificationData;
    var max := Normalized(limits).maxParameterSize;
    var stamp, attempt := Parameter(128, false, Put64(time)), Parameter(256, false, Put16(0));
    var inner := Timestamp(time) + ConnectionAttempt();
    NotificationBytes(time);
    EncodeTwo(stamp, attempt, max);
    DecodesAs([stamp, attempt], inner, limits);
    EncodeOne(Parameter(246, false, inner), max);
    DecodesAs([Parameter(246, false, inner)], NotificationData(time), limits);
    hide Put64, Timestamp, ConnectionAttempt;
    assert [stamp, attempt][..1] == [stamp] && [stamp][..0] == [];
    assert CountAttempts([]) == 0 && CountAttempts([stamp]) == 0 && CountAttempts([stamp, attempt]) == 1;
  }

  lemma NotificationBytes(time: nat)
    requires time < 0x1_0000_0000_0000_0000
    ensures EncodeParameter(Parameter(128, false, Put64(time))) == Success(Timestamp(time))
    ensures EncodeParameter(Parameter(256, false, Put16(0))) == Success(ConnectionAttempt())
    ensures EncodeParameter(Parameter(246, false, Timestamp(time) + ConnectionAttempt())) ==
            Success(NotificationData(time))
    ensures |Timestamp(time)| == 12 && |ConnectionAttempt()| == 6 && |NotificationData(time)| == 22
  {
    Associates(Put16(246) + Put16(22), Timestamp(time), ConnectionAttempt());
  }

  /** What the reader's request asks for: ten seconds, granted exactly when they fit the emulator's time budget. */
  lemma RequestAsks(id: nat, t: Timing, limits: Limits)
    requires Handshakes(limits)
    ensures RequestedKeepalive(SetConfigMessage(id), t, limits) ==
            if 10_000 * MILLISECOND + t.ackTimeout < t.readTimeout then Some(10_000 * MILLISECOND) else None
  {
    hide EncodeParameter, DecodeParameters, KeepaliveSpec;
    var spec := Parameter(220, false, [1] + Put32(10000));
    SpecBytes();
    EncodeOne(spec, Normalized(limits).maxParameterSize);
    DecodesAs([spec], KeepaliveSpec(), limits);
    assert SetConfigMessage(id).payload[1..] == KeepaliveSpec();
    assert Get32(spec.data, 1) == 10000;
  }

  lemma SpecBytes()
    ensures EncodeParameter(Parameter(220, false, [1] + Put32(10000))) == Success(KeepaliveSpec()) &&
            |KeepaliveSpec()| == 9
  {
    Associates(Put16(220) + Put16(9), [1], Put32(10000));
  }

  /** The reader accepts the emulator's response to its own request. */
  lemma ResponseAccepted(id: nat, limits: Limits)
    requires Handshakes(limits)
    ensures ConfigResponseOk(ConfigResponseMessage(id), id, limits)
  {
    hide EncodeParameter, DecodeParameters, Status;
    var status := Parameter(287, false, Put16(0) + Put16(0));
    StatusBytes();
    EncodeOne(status, Normalized(limits).maxParameterSize);
    DecodesAs([status], Status(), limits);
    assert status.data[4..] == [];
    NothingDecodes(limits);
    assert [status][..0] == [] && CountStatuses([]) == 0;
  }

  lemma StatusBytes()
    ensures EncodeParameter(Parameter(287, false, Put16(0) + Put16(0))) == Success(Status()) && |Status()| == 8
  {
    Associates(Put16(287) + Put16(8), Put16(0), Put16(0));
  }

  lemma NothingDecodes(limits: Limits)
    ensures DecodeParameters([], limits) == Success([])
  {
  }
}
