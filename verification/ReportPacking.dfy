/**
 * Packing a cycle of tags into report frames and reading the observations back
 * (internal/emulator/reports.go, llrp/tag_report_data.go, llrp/parameter.go, internal/reader/protocol.go).
 */
module ReportPacking {
  import opened Wrappers
  import opened LlrpCodec
  import opened LlrpReport

  /** EPC lengths an inventory tag may have: whole words, at most 31 of them. */
  predicate ValidTag(epc: Bytes) {
    2 <= |epc| <= 62 && |epc| % 2 == 0
  }

  // --------------------------------------------------------------- encoding

  /** An EPC parameter: the fixed form for 96 bits, the variable one otherwise. */
  function EPCData(length: nat, bits: nat, epc: Bytes): Bytes
    requires length < 0x1_0000 && bits < 0x1_0000
  {
    if bits == 96 then [141] + epc else Put16(241) + Put16(length) + Put16(bits) + epc
  }

  function C1G2PC(pc: nat): Bytes
    requires pc < 0x1_0000
  {
    [140] + Put16(pc)
  }

  function NewTagReportData(epc: Bytes, pc: nat): Result<Bytes, LlrpError>
    requires pc < 0x1_0000
  {
    if |epc| > 8191 then Failure(EPCTooLong)
    else
      var epcd, aptd := EPCData(4 + 2 + |epc|, 8 * |epc|, epc), C1G2PC(pc);
      Success(Put16(240) + Put16(|epcd| + |aptd| + 4) + epcd + aptd)
  }

  /** The protocol-control word of a tag: its length in words, in the top five bits. */
  function PCWord(epc: Bytes): (pc: nat)
    requires ValidTag(epc)
    ensures pc < 0x1_0000
  {
    |epc| / 2 * 2048
  }

  function TagParameter(epc: Bytes): Bytes
    requires ValidTag(epc)
  {
    NewTagReportData(epc, PCWord(epc)).value
  }

  function EPCParameter(epc: Bytes): Parameter
    requires ValidTag(epc)
  {
    if |epc| == 12 then Parameter(13, true, epc) else Parameter(241, false, Put16(8 * |epc|) + epc)
  }

  function PCParameter(epc: Bytes): Parameter
    requires ValidTag(epc)
  {
    Parameter(12, true, Put16(PCWord(epc)))
  }

  function Inner(epc: Bytes): Bytes
    requires ValidTag(epc)
  {
    EPCData(6 + |epc|, 8 * |epc|, epc) + C1G2PC(PCWord(epc))
  }

  function Report(epc: Bytes): Parameter
    requires ValidTag(epc)
  {
    Parameter(240, false, Inner(epc))
  }

  /** The bytes written for a tag are the codec's encoding of a report holding an EPC and a PC parameter. */
  lemma TagParameterIs(epc: Bytes)
    requires ValidTag(epc)
    ensures EncodeParameter(Report(epc)) == Success(TagParameter(epc))
    ensures EncodeParameter(EPCParameter(epc)) == Success(EPCData(6 + |epc|, 8 * |epc|, epc))
    ensures EncodeParameter(PCParameter(epc)) == Success(C1G2PC(PCWord(epc)))
    ensures |TagParameter(epc)| <= 75
  {
    var epcd, aptd := EPCData(6 + |epc|, 8 * |epc|, epc), C1G2PC(PCWord(epc));
    Associates(Put16(240) + Put16(|epcd| + |aptd| + 4), epcd, aptd);
    if |epc| != 12 {
      Associates(Put16(241) + Put16(6 + |epc|), Put16(8 * |epc|), epc);
    }
  }

  /** A tag's report byte by byte: twelve bytes in the fixed form, any other length behind its bit count. */
  lemma TagBytes(epc: Bytes)
    requires ValidTag(epc)
    ensures |epc| == 12 ==> TagParameter(epc) == [0, 240, 0, 20, 141] + epc + [140, 48, 0]
    ensures |epc| != 12 ==>
              TagParameter(epc) == [0, 240, 0, 13 + |epc|, 0, 241, 0, 6 + |epc|, 8 * |epc| / 256, 8 * |epc| % 256] +
                                   epc + [140, |epc| / 2 * 8, 0]
  {
    var n := |epc|;
    assert Put16(PCWord(epc)) == [n / 2 * 8, 0];
    hide PCWord;
    if n == 12 {
      assert Put16(240) + Put16(20) == [0, 240, 0, 20];
    } else {
      assert Put16(240) + Put16(13 + n) == [0, 240, 0, 13 + n];
      assert Put16(241) + Put16(6 + n) + Put16(8 * n) == [0, 241, 0, 6 + n, 8 * n / 256, 8 * n % 256];
    }
    hide Put16;
  }

  lemma InnerIs(epc: Bytes, maxSize: nat)
    requires ValidTag(epc) && maxSize >= 75
    ensures EncodeAll([EPCParameter(epc), PCParameter(epc)], maxSize) == Success(Inner(epc))
  {
    TagParameterIs(epc);
    hide EncodeParameter;
    var e, p := EPCParameter(epc), PCParameter(epc);
    assert EncodeAll([], maxSize) == Success([]);
    assert [e, p][..1] == [e] && [e][..0] == [];
    assert EncodeAll([e], maxSize) == Success([] + EPCData(6 + |epc|, 8 * |epc|, epc));
    assert [] + EPCData(6 + |epc|, 8 * |epc|, epc) == EPCData(6 + |epc|, 8 * |epc|, epc);
  }

  function Reports(tags: seq<Bytes>): (ps: seq<Parameter>)
    requires AllValid(tags)
    ensures |ps| == |tags| && forall i | 0 <= i < |tags| :: ps[i] == Report(tags[i])
  {
    seq(|tags|, i requires 0 <= i < |tags| => Report(tags[i]))
  }

  predicate AllValid(tags: seq<Bytes>) {
    forall i | 0 <= i < |tags| :: ValidTag(tags[i])
  }

  /** A frame body: the tags' parameters one after the other. */
  function Body(tags: seq<Bytes>): Bytes
    requires AllValid(tags)
  {
    if tags == [] then [] else Body(tags[..|tags| - 1]) + TagParameter(tags[|tags| - 1])
  }

  lemma {:induction false} BodyIsEncoding(tags: seq<Bytes>, maxSize: nat)
    requires AllValid(tags) && maxSize >= 75
    ensures EncodeAll(Reports(tags), maxSize) == Success(Body(tags))
  {
    hide EncodeParameter, TagParameter, Report;
    if tags != [] {
      var front, last := tags[..|tags| - 1], tags[|tags| - 1];
      BodyIsEncoding(front, maxSize);
      TagParameterIs(last);
      assert Reports(tags)[..|tags| - 1] == Reports(front);
    }
  }

  // ---------------------------------------------------------------- packing

  const MAX_PARAMETERS := 4096

  /** How a cycle was shared out over its frames. */
  ghost predicate Packed(groups: seq<seq<Bytes>>, frames: seq<Bytes>, maxFrame: nat) {
    && |groups| == |frames|
    && forall i | 0 <= i < |groups| :: AllValid(groups[i]) && FrameOf(groups[i], frames[i], maxFrame)
  }

  /** A frame within the frame size and parameter limits. */
  ghost predicate FrameOf(group: seq<Bytes>, frame: Bytes, maxFrame: nat)
    requires AllValid(group)
  {
    frame == Body(group) && HEADER_SIZE + |frame| <= maxFrame && |group| <= MAX_PARAMETERS
  }

  function Flat(groups: seq<seq<Bytes>>): seq<Bytes> {
    if groups == [] then [] else Flat(groups[..|groups| - 1]) + groups[|groups| - 1]
  }

  /** A frame is only closed when the next tag does not fit: each frame is as full as it can be. */
  ghost predicate Greedy(groups: seq<seq<Bytes>>, maxFrame: nat) {
    forall i: nat | i + 1 < |groups| :: FullAt(groups, i, maxFrame)
  }

  /** Group i has no room for the first tag of the next group. */
  ghost predicate FullAt(groups: seq<seq<Bytes>>, i: nat, maxFrame: nat)
    requires i + 1 < |groups|
  {
    Full(groups[i], groups[i + 1], maxFrame)
  }

  ghost predicate Full(group: seq<Bytes>, next: seq<Bytes>, maxFrame: nat) {
    && AllValid(group) && AllValid(next) && group != [] && next != []
    && (|group| == MAX_PARAMETERS || HEADER_SIZE + |Body(group)| + |TagParameter(next[0])| > maxFrame)
  }

  datatype CycleError = TagTooLong | TagExceedsFrame

  /**
   * Writing a cycle: it never fails on size, every frame but that of an empty cycle holds a tag,
   * and the frames hold the cycle's tags in order.
   */
  method WriteCycle(tags: seq<Bytes>, maxFrame: nat)
    returns (r: Result<seq<Bytes>, CycleError>, ghost groups: seq<seq<Bytes>>)
    requires AllValid(tags) && maxFrame >= 128
    ensures r.Success? && Packed(groups, r.value, maxFrame) && Flat(groups) == tags && Greedy(groups, maxFrame)
    ensures |groups| >= 1 && (tags != [] ==> forall g | g in groups :: g != [])
  {
    var emitted: seq<Bytes>, body: Bytes, parameters: nat := [], [], 0;
    ghost var open: seq<Bytes> := [];
    groups := [];
    assert Packed(groups, emitted, maxFrame) && FrameOf(open, body, maxFrame) && Greedy(groups + [open], maxFrame);
    assert SharedOut(groups, open, tags, 0);
    hide Greedy, Packed, FrameOf, EPCData, C1G2PC, Body, SharedOut;
    for i := 0 to |tags|
      invariant Packed(groups, emitted, maxFrame) && SharedOut(groups, open, tags, i)
      invariant AllValid(open) && FrameOf(open, body, maxFrame) && parameters == |open| <= MAX_PARAMETERS
      invariant (i > 0 ==> open != []) && (open == [] ==> groups == [])
      invariant Greedy(groups + [open], maxFrame)
    {
      TagParameterIs(tags[i]);
      var p := NewTagReportData(tags[i], PCWord(tags[i]));
      if p.Failure? {
        return Failure(TagTooLong), [];
      }
      if HEADER_SIZE + |p.value| > maxFrame {
        return Failure(TagExceedsFrame), [];
      }
      assert p.value == TagParameter(tags[i]);
      if HEADER_SIZE + |body| + |p.value| > maxFrame || parameters == MAX_PARAMETERS {
        CloseFrame(groups, emitted, open, body, tags[i], maxFrame);
        SharedClosed(groups, open, tags, i);
        emitted := emitted + [body];
        groups := groups + [open];
        body, parameters, open := [], 0, [];
      } else {
        JoinFrame(groups, open, body, tags[i], maxFrame);
      }
      body := body + p.value;
      parameters := parameters + 1;
      SharedJoined(groups, open, tags, i);
      open := open + [tags[i]];
    }
    LastFrame(groups, emitted, open, body, maxFrame);
    SharedClosed(groups, open, tags, |tags|);
    SharedAll(groups + [open], tags);
    NoEmptyGroup(groups + [open], maxFrame);
    groups := groups + [open];
    return Success(emitted + [body]), groups;
  }

  /** Packed frames keep within the frame size, header included, and within the parameter limit. */
  lemma WithinCaps(groups: seq<seq<Bytes>>, frames: seq<Bytes>, maxFrame: nat, i: nat)
    requires Packed(groups, frames, maxFrame) && i < |groups|
    ensures |groups[i]| <= 4096 && 10 + |frames[i]| <= maxFrame
  {
    assert FrameOf(groups[i], frames[i], maxFrame);
  }

  /** The groups and the open one hold the first i tags in order. */
  ghost predicate SharedOut(groups: seq<seq<Bytes>>, open: seq<Bytes>, tags: seq<Bytes>, i: nat)
    requires i <= |tags|
  {
    Flat(groups) + open == tags[..i]
  }

  lemma SharedClosed(groups: seq<seq<Bytes>>, open: seq<Bytes>, tags: seq<Bytes>, i: nat)
    requires i <= |tags| && SharedOut(groups, open, tags, i)
    ensures SharedOut(groups + [open], [], tags, i)
  {
    assert (groups + [open])[..|groups|] == groups;
    assert Flat(groups) + open + [] == Flat(groups) + open;
  }

  lemma SharedJoined(groups: seq<seq<Bytes>>, open: seq<Bytes>, tags: seq<Bytes>, i: nat)
    requires i < |tags| && SharedOut(groups, open, tags, i)
    ensures SharedOut(groups, open + [tags[i]], tags, i + 1)
  {
    assert tags[..i + 1] == tags[..i] + [tags[i]];
    assert Flat(groups) + (open + [tags[i]]) == Flat(groups) + open + [tags[i]];
  }

  lemma SharedAll(groups: seq<seq<Bytes>>, tags: seq<Bytes>)
    requires SharedOut(groups, [], tags, |tags|)
    ensures Flat(groups) == tags
  {
    assert Flat(groups) + [] == Flat(groups) && tags[..|tags|] == tags;
  }

  /** Closing a frame: it is shared out, the next one opens with the tag that did not fit, and it was full. */
  lemma CloseFrame(groups: seq<seq<Bytes>>, emitted: seq<Bytes>, open: seq<Bytes>, body: Bytes, epc: Bytes,
                   maxFrame: nat)
    requires Packed(groups, emitted, maxFrame) && AllValid(open) && FrameOf(open, body, maxFrame) && ValidTag(epc)
    requires Greedy(groups + [open], maxFrame) && maxFrame >= 128
    requires HEADER_SIZE + |body| + |TagParameter(epc)| > maxFrame || |open| == MAX_PARAMETERS
    ensures Packed(groups + [open], emitted + [body], maxFrame)
    ensures AllValid([] + [epc]) && FrameOf([] + [epc], [] + TagParameter(epc), maxFrame)
    ensures Greedy(groups + [open] + [[] + [epc]], maxFrame)
  {
    hide Packed, FrameOf, Greedy, Full, TagParameter, Body;
    LastFrame(groups, emitted, open, body, maxFrame);
    OneTagFrame(epc, maxFrame);
    ClosedIsFull(open, body, epc, maxFrame);
    assert [] + [epc] == [epc];
    GreedyMore(groups, open, [epc], maxFrame);
  }

  /** A frame with one tag fits. */
  lemma OneTagFrame(epc: Bytes, maxFrame: nat)
    requires ValidTag(epc) && maxFrame >= 128
    ensures AllValid([] + [epc]) && FrameOf([] + [epc], [] + TagParameter(epc), maxFrame)
  {
    TagParameterIs(epc);
    hide TagParameter;
    assert [] + [epc] == [epc] && [epc][..0] == [];
    assert Body([epc]) == Body([]) + TagParameter(epc);
  }

  lemma ClosedIsFull(open: seq<Bytes>, body: Bytes, epc: Bytes, maxFrame: nat)
    requires AllValid(open) && FrameOf(open, body, maxFrame) && ValidTag(epc) && maxFrame >= 128
    requires HEADER_SIZE + |body| + |TagParameter(epc)| > maxFrame || |open| == MAX_PARAMETERS
    ensures Full(open, [epc], maxFrame)
  {
    TagParameterIs(epc);
    hide TagParameter;
    assert Body([]) == [];
    assert open == [] ==> body == [];
    hide Body;
  }

  /** Opening a frame after a full one. */
  lemma GreedyMore(groups: seq<seq<Bytes>>, open: seq<Bytes>, next: seq<Bytes>, maxFrame: nat)
    requires Greedy(groups + [open], maxFrame) && Full(open, next, maxFrame)
    ensures Greedy(groups + [open] + [next], maxFrame)
  {
    hide Full;
    var before, all := groups + [open], groups + [open] + [next];
    forall i: nat | i + 1 < |all|
      ensures FullAt(all, i, maxFrame)
    {
      if i < |groups| {
        assert FullAt(before, i, maxFrame);
        assert all[i] == before[i] && all[i + 1] == before[i + 1];
      } else {
        assert all[i] == open && all[i + 1] == next;
      }
    }
  }

  lemma JoinFrame(groups: seq<seq<Bytes>>, open: seq<Bytes>, body: Bytes, epc: Bytes, maxFrame: nat)
    requires AllValid(open) && FrameOf(open, body, maxFrame) && ValidTag(epc) && Greedy(groups + [open], maxFrame)
    requires HEADER_SIZE + |body| + |TagParameter(epc)| <= maxFrame && |open| < MAX_PARAMETERS
    requires open == [] ==> groups == []
    ensures AllValid(open + [epc]) && FrameOf(open + [epc], body + TagParameter(epc), maxFrame)
    ensures Greedy(groups + [open + [epc]], maxFrame)
  {
    hide TagParameter;
    assert (open + [epc])[..|open|] == open;
    hide Body;
    var all, before := groups + [open + [epc]], groups + [open];
    forall i: nat | i + 1 < |all|
      ensures FullAt(all, i, maxFrame)
    {
      assert FullAt(before, i, maxFrame);
      assert all[i] == before[i] && all[i + 1][0] == before[i + 1][0];
    }
  }

  lemma LastFrame(groups: seq<seq<Bytes>>, emitted: seq<Bytes>, open: seq<Bytes>, body: Bytes, maxFrame: nat)
    requires Packed(groups, emitted, maxFrame) && AllValid(open) && FrameOf(open, body, maxFrame)
    ensures Packed(groups + [open], emitted + [body], maxFrame)
  {
  }

  lemma NoEmptyGroup(groups: seq<seq<Bytes>>, maxFrame: nat)
    requires Greedy(groups, maxFrame) && groups != []
    ensures groups[|groups| - 1] != [] ==> forall g | g in groups :: g != []
  {
    forall i: nat | i + 1 < |groups|
      ensures groups[i] != []
    {
      assert FullAt(groups, i, maxFrame);
    }
  }

  // ---------------------------------------------------------------- reading

  /** A sighting: the tag and its protocol-control word, when reported. */
  datatype Observation = Observation(epc: Bytes, pc: Option<nat>)

  datatype ReadError = Wire(error: LlrpError) | InvalidEPCLength

  predicate VariableEPCOk(p: Parameter) {
    p.typ == 241 ==>
      && !p.tv && |p.data| >= 2
      && var bits := Get16(p.data, 0);
         bits != 0 && bits % 16 == 0 && bits / 8 == |p.data| - 2
  }

  function CountEPCs(ps: seq<Parameter>): nat {
    if ps == [] then 0 else CountEPCs(ps[..|ps| - 1]) + if IsEPC(ps[|ps| - 1]) then 1 else 0
  }

  /** One report's parameters: exactly one EPC, of whole words when its length varies. */
  predicate ReportOk(ps: seq<Parameter>) {
    CountEPCs(ps) == 1 && forall i | 0 <= i < |ps| :: VariableEPCOk(ps[i])
  }

  lemma {:induction false} FewEPCs(ps: seq<Parameter>)
    ensures CountEPCs(ps) <= 1 <==>
              forall i, j | 0 <= i < j < |ps| :: ps[i].typ !in [13, 241] || ps[j].typ !in [13, 241]
    ensures CountEPCs(ps) == 0 <==> forall i | 0 <= i < |ps| :: ps[i].typ !in [13, 241]
  {
    if ps != [] {
      var front := ps[..|ps| - 1];
      FewEPCs(front);
      assert forall i | 0 <= i < |front| :: front[i] == ps[i];
    }
  }

  /** A variable-length EPC that spells out its own data, some whole words of it. */
  predicate WholeWords(p: Parameter) {
    && !p.tv && |p.data| > 2 && |p.data| % 2 == 0 && Spelled(p.data[0..2]) == 8 * (|p.data| - 2)
  }

  /** Exactly which reports the reader takes: one EPC, not none and not two, and of whole words if its length varies. */
  lemma ReportOkMeans(ps: seq<Parameter>)
    ensures ReportOk(ps) <==>
              && (exists i :: 0 <= i < |ps| && ps[i].typ in [13, 241])
              && (forall i, j | 0 <= i < j < |ps| :: ps[i].typ !in [13, 241] || ps[j].typ !in [13, 241])
              && (forall i | 0 <= i < |ps| && ps[i].typ == 241 :: WholeWords(ps[i]))
  {
    FewEPCs(ps);
    hide CountEPCs;
    forall i | 0 <= i < |ps| && ps[i].typ == 241
      ensures VariableEPCOk(ps[i]) <==> WholeWords(ps[i])
    {
      VariableMeans(ps[i]);
    }
    assert forall i | 0 <= i < |ps| && ps[i].typ != 241 :: VariableEPCOk(ps[i]);
    hide VariableEPCOk, WholeWords;
  }

  lemma VariableMeans(p: Parameter)
    requires p.typ == 241
    ensures VariableEPCOk(p) <==> WholeWords(p)
  {
    if |p.data| >= 2 {
      Spelled16(p.data, 0);
      WordsOf(Get16(p.data, 0), |p.data| - 2);
    }
    hide Spelled, Get16;
  }

  lemma WordsOf(bits: nat, n: nat)
    ensures bits % 16 == 0 && bits / 8 == n <==> n % 2 == 0 && bits == 8 * n
  {
  }

  /** Every report of the batch is checked before any observation is made. */
  function CheckReports(ps: seq<Parameter>, limits: Limits): Option<LlrpError> {
    if ps == [] then None
    else if !IsReport(ps[0]) then CheckReports(ps[1..], limits)
    else match DecodeParameters(ps[0].data, limits)
      case Failure(e) => Some(e)
      case Success(nested) => if ReportOk(nested) then CheckReports(ps[1..], limits) else Some(MalformedTagReport)
  }

  function Observe(e: ReadEvent): Observation {
    Observation(e.id, if e.pc.Some? && |e.pc.value| == 2 then Some(Get16(e.pc.value, 0)) else None)
  }

  function ObserveAll(events: seq<ReadEvent>): Result<seq<Observation>, ReadError> {
    if events == [] then Success([])
    else
      var front :- ObserveAll(events[..|events| - 1]);
      var e := events[|events| - 1];
      if !ValidTag(e.id) then Failure(InvalidEPCLength) else Success(front + [Observe(e)])
  }

  function DecodeObservations(body: Bytes, limits: Limits): Result<seq<Observation>, ReadError> {
    match DecodeParameters(body, limits)
    case Failure(e) => Failure(Wire(e))
    case Success(ps) =>
      match CheckReports(ps, limits)
      case Some(e) => Failure(Wire(e))
      case None =>
        match ReferenceEvents(ps, limits)
        case Failure(e) => Failure(Wire(e))
        case Success(events) => ObserveAll(events)
  }

  /** One report's check, counting its EPCs in a loop. */
  method CheckReport(nested: seq<Parameter>) returns (ok: bool)
    ensures ok <==> ReportOk(nested)
  {
    var epcs := 0;
    for i := 0 to |nested|
      invariant epcs == CountEPCs(nested[..i])
      invariant forall j | 0 <= j < i :: VariableEPCOk(nested[j])
    {
      var n := nested[i];
      assert nested[..i + 1][..i] == nested[..i];
      if n.typ == 13 || n.typ == 241 {
        epcs := epcs + 1;
      }
      if n.typ == 241 {
        if n.tv || |n.data| < 2 {
          return false;
        }
        var bits := Get16(n.data, 0);
        if bits == 0 || bits % 16 != 0 || bits / 8 != |n.data| - 2 {
          return false;
        }
      }
    }
    assert nested[..|nested|] == nested;
    return epcs == 1;
  }

  /** The reader's loops: check every report, decode the events, build the observations. */
  method ReadObservations(body: Bytes, limits: Limits) returns (r: Result<seq<Observation>, ReadError>)
    ensures r == DecodeObservations(body, limits)
  {
    var params := DecodeParameterList(body, limits);
    if params.Failure? {
      return Failure(Wire(params.error));
    }
    var ps := params.value;
    for k := 0 to |ps|
      invariant CheckReports(ps, limits) == CheckReports(ps[k..], limits)
    {
      if IsReport(ps[k]) {
        var nested := DecodeParameterList(ps[k].data, limits);
        if nested.Failure? {
          return Failure(Wire(nested.error));
        }
        var ok := CheckReport(nested.value);
        if !ok {
          return Failure(Wire(MalformedTagReport));
        }
      }
      assert ps[k..][1..] == ps[k + 1..];
    }
    var decoded := DecodeReadEvents(body, limits);
    if decoded.Failure? {
      return Failure(Wire(decoded.error));
    }
    r := BuildObservations(decoded.value, ReferenceEvents(ps, limits).value);
  }

  method BuildObservations(d: Decoded, ghost events: seq<ReadEvent>) returns (r: Result<seq<Observation>, ReadError>)
    requires Holds(d, events)
    ensures r == ObserveAll(events)
  {
    hide Tiles;
    var observations: seq<Observation> := [];
    for i := 0 to |d.stored|
      invariant ObserveAll(events[..i]) == Success(observations)
    {
      var e := Resolve(d.arena, d.stored[i]);
      assert events[..i + 1][..i] == events[..i];
      if !ValidTag(e.id) {
        ObserveFailsOn(events, i + 1);
        return Failure(InvalidEPCLength);
      }
      observations := observations + [Observe(e)];
    }
    assert events[..|events|] == events;
    return Success(observations);
  }

  lemma {:induction false} ObserveFailsOn(events: seq<ReadEvent>, n: nat)
    requires n <= |events| && ObserveAll(events[..n]).Failure?
    ensures ObserveAll(events) == ObserveAll(events[..n])
    decreases |events| - n
  {
    if n < |events| {
      assert events[..n + 1][..n] == events[..n];
      ObserveFailsOn(events, n + 1);
    } else {
      assert events[..n] == events;
    }
  }

  function CountReports(ps: seq<Parameter>): nat {
    if ps == [] then 0 else (if IsReport(ps[0]) then 1 else 0) + CountReports(ps[1..])
  }

  lemma {:induction false} EPCsCounted(ps: seq<Parameter>)
    ensures CountEPCs(ps) == 0 <==> LastEPC(ps).None?
  {
    if ps != [] {
      EPCsCounted(ps[..|ps| - 1]);
    }
  }

  /** A batch that passes the checks and decodes yields exactly one event per report: none is passed over. */
  lemma {:induction false} OneEventPerReport(ps: seq<Parameter>, limits: Limits)
    requires CheckReports(ps, limits).None? && ReferenceEvents(ps, limits).Success?
    ensures |ReferenceEvents(ps, limits).value| == CountReports(ps)
    decreases |ps|
  {
    if ps != [] {
      OneEventPerReport(ps[1..], limits);
      if IsReport(ps[0]) {
        var nested := DecodeParameters(ps[0].data, limits).value;
        EPCsCounted(nested);
        InspectMeans(nested);
      }
    }
  }

  // ------------------------------------------------------------- round trip

  /** Reader limits no narrower than what the emulator writes. */
  predicate Compatible(limits: Limits) {
    var l := Normalized(limits);
    l.maxParameters >= MAX_PARAMETERS && l.maxParameterSize >= 75
  }

  lemma InnerDecodes(epc: Bytes, limits: Limits)
    requires ValidTag(epc) && Compatible(limits)
    ensures DecodeParameters(Inner(epc), limits) == Success([EPCParameter(epc), PCParameter(epc)])
  {
    InnerIs(epc, Normalized(limits).maxParameterSize);
    hide EncodeAll, Inner;
    WalkOfEncoded([EPCParameter(epc), PCParameter(epc)], Normalized(limits), 0, Inner(epc));
  }

  lemma InnerReadsBack(epc: Bytes, limits: Limits)
    requires ValidTag(epc) && Compatible(limits)
    ensures var nested := [EPCParameter(epc), PCParameter(epc)];
      ReportOk(nested) && Fold(Inspect, NOTHING, nested) == Success(ReadEvent(epc, Some(Put16(PCWord(epc)))))
  {
    hide Get16, Put16, PCWord, Inspect, Fold, VariableEPCOk, EPCParameter, PCParameter;
    var e, p := EPCParameter(epc), PCParameter(epc);
    OneEPC(epc);
    InspectBoth(epc);
    FoldTwo(Inspect, NOTHING, e, p);
  }

  lemma FoldTwo<S>(visit: (S, Parameter) -> Result<S, LlrpError>, s: S, a: Parameter, b: Parameter)
    requires visit(s, a).Success?
    ensures Fold(visit, s, [a, b]) == visit(visit(s, a).value, b)
  {
    var next := visit(s, a).value;
    assert [a, b][1..] == [b] && [b][1..] == [];
    assert Fold(visit, s, [a, b]) == Fold(visit, next, [b]);
    assert visit(next, b).Success? ==> Fold(visit, next, [b]) == Fold(visit, visit(next, b).value, []);
  }

  /** Of a tag's two parameters one is an EPC, of whole words when its length varies. */
  lemma OneEPC(epc: Bytes)
    requires ValidTag(epc)
    ensures ReportOk([EPCParameter(epc), PCParameter(epc)])
  {
    hide Inspect, Fold;
    var e, p := EPCParameter(epc), PCParameter(epc);
    assert [e, p][..1] == [e] && [e][..0] == [];
    assert CountEPCs([]) == 0 && CountEPCs([e]) == 1;
    if |epc| != 12 {
      assert Get16(e.data, 0) == 8 * |epc|;
    }
  }

  lemma InspectBoth(epc: Bytes)
    requires ValidTag(epc)
    ensures var v := ReadEvent(epc, None);
      && Inspect(NOTHING, EPCParameter(epc)) == Success(v)
      && Inspect(v, PCParameter(epc)) == Success(v.(pc := Some(Put16(PCWord(epc)))))
  {
    hide Fold;
    var e := EPCParameter(epc);
    if |epc| != 12 {
      assert Get16(e.data, 0) == 8 * |epc| && e.data[2..2 + |epc|] == epc;
    }
  }

  function Sightings(tags: seq<Bytes>): (os: seq<Observation>)
    requires AllValid(tags)
    ensures |os| == |tags|
  {
    if tags == [] then []
    else Sightings(tags[..|tags| - 1]) + [Observation(tags[|tags| - 1], Some(PCWord(tags[|tags| - 1])))]
  }

  function Events(tags: seq<Bytes>): (es: seq<ReadEvent>)
    requires AllValid(tags)
    ensures |es| == |tags| && forall i | 0 <= i < |tags| :: es[i] == ReadEvent(tags[i], Some(Put16(PCWord(tags[i]))))
  {
    if tags == [] then []
    else Events(tags[..|tags| - 1]) + [ReadEvent(tags[|tags| - 1], Some(Put16(PCWord(tags[|tags| - 1]))))]
  }

  lemma {:induction false} ReportsReadBack(tags: seq<Bytes>, limits: Limits)
    requires AllValid(tags) && Compatible(limits)
    ensures CheckReports(Reports(tags), limits).None?
    ensures ReferenceEvents(Reports(tags), limits) == Success(Events(tags))
    decreases |tags|
  {
    if tags != [] {
      hide Report, Events, CheckReports, ReferenceEvents, Put16, PCWord;
      ReportsReadBack(tags[1..], limits);
      FirstTag(tags);
      FirstReadsBack(tags[0], Reports(tags[1..]), limits);
    } else {
      assert Reports(tags) == [];
    }
  }

  lemma FirstTag(tags: seq<Bytes>)
    requires AllValid(tags) && tags != []
    ensures Reports(tags) == [Report(tags[0])] + Reports(tags[1..])
    ensures Events(tags) == [ReadEvent(tags[0], Some(Put16(PCWord(tags[0]))))] + Events(tags[1..])
  {
    hide Report, Put16, PCWord, Reports, Events, ValidTag;
    var rest := tags[1..];
    assert forall i | 0 <= i < |rest| :: rest[i] == tags[i + 1];
    HeadAndTail(Reports(tags), Reports(rest));
    HeadAndTail(Events(tags), Events(rest));
  }

  lemma HeadAndTail<T>(s: seq<T>, t: seq<T>)
    requires |s| == |t| + 1 && forall i | 0 <= i < |t| :: t[i] == s[i + 1]
    ensures s == [s[0]] + t
  {
  }

  /** A report in front of others adds its tag in front of their events. */
  lemma FirstReadsBack(epc: Bytes, rest: seq<Parameter>, limits: Limits)
    requires ValidTag(epc) && Compatible(limits) && CheckReports(rest, limits).None? &&
             ReferenceEvents(rest, limits).Success?
    ensures CheckReports([Report(epc)] + rest, limits).None?
    ensures ReferenceEvents([Report(epc)] + rest, limits) ==
            Success([ReadEvent(epc, Some(Put16(PCWord(epc))))] + ReferenceEvents(rest, limits).value)
  {
    hide ReportOk, Fold, DecodeParameters, Inner, EPCParameter, PCParameter, Compatible, Put16, PCWord;
    InnerDecodes(epc, limits);
    InnerReadsBack(epc, limits);
    assert ([Report(epc)] + rest)[1..] == rest;
  }

  lemma {:induction false} EventsObserved(tags: seq<Bytes>)
    requires AllValid(tags)
    ensures ObserveAll(Events(tags)) == Success(Sightings(tags))
  {
    if tags != [] {
      EventsObserved(tags[..|tags| - 1]);
      assert Events(tags)[..|tags| - 1] == Events(tags[..|tags| - 1]);
      GetPut16(PCWord(tags[|tags| - 1]), []);
      assert Put16(PCWord(tags[|tags| - 1])) + [] == Put16(PCWord(tags[|tags| - 1]));
    }
  }

  /** A frame reads back as its tags, in order, each once, with its length in words as the PC word. */
  lemma FrameReadsBack(tags: seq<Bytes>, limits: Limits)
    requires AllValid(tags) && |tags| <= MAX_PARAMETERS && Compatible(limits)
    ensures DecodeObservations(Body(tags), limits) == Success(Sightings(tags))
  {
    var l := Normalized(limits);
    BodyIsEncoding(tags, l.maxParameterSize);
    WalkOfEncoded(Reports(tags), l, 0, Body(tags));
    ReportsReadBack(tags, limits);
    EventsObserved(tags);
    hide CheckReports, ReferenceEvents, ObserveAll, EncodeAll, WalkFrom;
  }

  /** Observations of all frames, one frame after the other. */
  function ObserveFrames(frames: seq<Bytes>, limits: Limits): Result<seq<Observation>, ReadError> {
    if frames == [] then Success([])
    else
      var front :- ObserveFrames(frames[..|frames| - 1], limits);
      var last :- DecodeObservations(frames[|frames| - 1], limits);
      Success(front + last)
  }

  lemma {:induction false} SightingsJoin(a: seq<Bytes>, b: seq<Bytes>)
    requires AllValid(a) && AllValid(b)
    ensures AllValid(a + b) && Sightings(a + b) == Sightings(a) + Sightings(b)
    decreases |b|
  {
    if b == [] {
      assert a + b == a;
    } else {
      assert (a + b)[..|a + b| - 1] == a + b[..|b| - 1];
      SightingsJoin(a, b[..|b| - 1]);
    }
  }

  /** Whatever frames a cycle was packed into, the reader sees the cycle's tags in order, each once. */
  lemma {:induction false} CycleReadsBack(groups: seq<seq<Bytes>>, frames: seq<Bytes>, maxFrame: nat, limits: Limits)
    requires Packed(groups, frames, maxFrame) && Compatible(limits)
    ensures AllValid(Flat(groups)) && ObserveFrames(frames, limits) == Success(Sightings(Flat(groups)))
    decreases |groups|
  {
    if groups != [] {
      var n := |groups| - 1;
      CycleReadsBack(groups[..n], frames[..n], maxFrame, limits);
      FrameReadsBack(groups[n], limits);
      SightingsJoin(Flat(groups[..n]), groups[n]);
      hide DecodeObservations, Sightings, Body;
    }
  }
}
