/** The copy-free report decoder and its reference (llrp/ro_access_report_codec.go, llrp/decode_reference_test.go). */
module LlrpReport {
  import opened Wrappers
  import opened LlrpCodec

  /** One tag: its EPC bytes and, when reported, its protocol-control bytes. */
  datatype ReadEvent = ReadEvent(id: Bytes, pc: Option<Bytes>)

  const TAG_REPORT_DATA := 240

  predicate IsReport(p: Parameter) {
    !p.tv && p.typ == TAG_REPORT_DATA
  }

  // -------------------------------------------------------- one tag report

  predicate IsEPC(p: Parameter) {
    p.typ == 13 || p.typ == 241
  }

  /** The EPC bit length of a variable-length EPC parameter. */
  function EPCBits(p: Parameter): nat
    requires |p.data| >= 2
  {
    Get16(p.data, 0)
  }

  /** A parameter a tag report may hold: the three known kinds are well formed, others are ignored. */
  predicate WellFormed(p: Parameter) {
    && (p.typ == 12 ==> p.tv && |p.data| == 2)
    && (p.typ == 13 ==> p.tv && |p.data| == 12)
    && (p.typ == 241 ==> !p.tv && |p.data| >= 2 && EPCBits(p) != 0 && (EPCBits(p) + 7) / 8 <= |p.data| - 2)
  }

  function EPCOf(p: Parameter): (id: Bytes)
    requires IsEPC(p) && WellFormed(p)
    ensures id != []
  {
    if p.typ == 13 then p.data else p.data[2..2 + (EPCBits(p) + 7) / 8]
  }

  /**
   * A variable-length EPC is taken as the bytes its bit count needs, the last one perhaps in part, and is refused
   * without any bits or with fewer bytes than that.
   */
  lemma EPCBytes(p: Parameter, n: nat)
    requires p.typ == 241
    ensures WellFormed(p) && |EPCOf(p)| == n ==>
              && !p.tv && 2 + n <= |p.data| && EPCOf(p) == p.data[2..2 + n]
              && 8 * n - 8 < Spelled(p.data[0..2]) <= 8 * n
    ensures !p.tv && 2 + n <= |p.data| && n > 0 && 8 * n - 8 < Spelled(p.data[0..2]) <= 8 * n ==>
              WellFormed(p) && EPCOf(p) == p.data[2..2 + n]
  {
    if |p.data| >= 2 {
      Spelled16(p.data, 0);
    }
    hide Spelled;
  }

  /** What inspecting the parameters one by one has found: later ones replace earlier ones. */
  function Inspect(v: ReadEvent, p: Parameter): Result<ReadEvent, LlrpError> {
    if p.typ == 12 then
      if !p.tv || |p.data| != 2 then Failure(MalformedTagReport) else Success(v.(pc := Some(p.data)))
    else if p.typ == 13 then
      if !p.tv || |p.data| != 12 then Failure(MalformedTagReport) else Success(v.(id := p.data))
    else if p.typ == 241 then
      if p.tv || |p.data| < 2 then Failure(MalformedTagReport)
      else
        var bits := EPCBits(p);
        var bytesNeeded := (bits + 7) / 8;
        if bits == 0 || bytesNeeded > |p.data| - 2 then Failure(MalformedTagReport)
        else Success(v.(id := p.data[2..2 + bytesNeeded]))
    else Success(v)
  }

  const NOTHING := ReadEvent([], None)

  /** The last parameter of the list that satisfies the kind. */
  function LastEPC(ps: seq<Parameter>): Option<Parameter> {
    if ps == [] then None else if IsEPC(ps[|ps| - 1]) then Some(ps[|ps| - 1]) else LastEPC(ps[..|ps| - 1])
  }

  function LastPC(ps: seq<Parameter>): Option<Parameter> {
    if ps == [] then None else if ps[|ps| - 1].typ == 12 then Some(ps[|ps| - 1]) else LastPC(ps[..|ps| - 1])
  }

  lemma {:induction false} LastMembers(ps: seq<Parameter>)
    ensures LastEPC(ps).Some? ==> LastEPC(ps).value in ps && IsEPC(LastEPC(ps).value)
    ensures LastEPC(ps).None? <==> forall p | p in ps :: !IsEPC(p)
    ensures LastPC(ps).Some? ==> LastPC(ps).value in ps
  {
    if ps != [] {
      LastMembers(ps[..|ps| - 1]);
      assert ps == ps[..|ps| - 1] + [ps[|ps| - 1]];
    }
  }

  lemma {:induction false} FoldSnoc<S>(visit: (S, Parameter) -> Result<S, LlrpError>, s: S, ps: seq<Parameter>,
                                       p: Parameter)
    ensures Fold(visit, s, ps + [p]) ==
            match Fold(visit, s, ps)
            case Failure(e) => Failure(e)
            case Success(t) => visit(t, p)
    decreases |ps|
  {
    var all := ps + [p];
    if ps == [] {
      assert all[1..] == [];
    } else {
      assert all[1..] == ps[1..] + [p];
      match visit(s, ps[0])
      case Failure(_) =>
      case Success(t) => FoldSnoc(visit, t, ps[1..], p);
    }
  }

  /** Inspection fails exactly on a malformed parameter; otherwise the last EPC and the last PC win. */
  lemma {:induction false} InspectMeans(ps: seq<Parameter>)
    ensures Fold(Inspect, NOTHING, ps).Failure? <==> exists p :: p in ps && !WellFormed(p)
    ensures Fold(Inspect, NOTHING, ps).Failure? ==> Fold(Inspect, NOTHING, ps).error == MalformedTagReport
    ensures Fold(Inspect, NOTHING, ps).Success? ==>
      var v := Fold(Inspect, NOTHING, ps).value;
      && (if LastEPC(ps).None? then v.id == [] else
            IsEPC(LastEPC(ps).value) && WellFormed(LastEPC(ps).value) && v.id == EPCOf(LastEPC(ps).value))
      && v.pc == (if LastPC(ps).None? then None else Some(LastPC(ps).value.data))
    decreases |ps|
  {
    if ps != [] {
      var front, last := ps[..|ps| - 1], ps[|ps| - 1];
      InspectMeans(front);
      assert ps == front + [last];
      assert forall p :: p in ps <==> p in front || p == last;
      FoldSnoc(Inspect, NOTHING, front, last);
      if Fold(Inspect, NOTHING, front).Success? {
        InspectOne(Fold(Inspect, NOTHING, front).value, last);
      }
      hide Inspect, WellFormed, EPCOf, Fold;
    }
  }

  lemma InspectOne(v: ReadEvent, p: Parameter)
    ensures Inspect(v, p).Failure? <==> !WellFormed(p)
    ensures Inspect(v, p).Failure? ==> Inspect(v, p).error == MalformedTagReport
    ensures Inspect(v, p).Success? ==> Inspect(v, p).value.id == if IsEPC(p) then EPCOf(p) else v.id
    ensures Inspect(v, p).Success? ==> Inspect(v, p).value.pc == if p.typ == 12 then Some(p.data) else v.pc
  {
  }

  /** One report's parameters: structural errors first, then malformed ones, then a missing EPC. */
  function TagReport(data: Bytes, limits: Limits): Result<ReadEvent, LlrpError> {
    var inner :- DecodeParameters(data, limits);
    var v :- Fold(Inspect, NOTHING, inner);
    if v.id == [] then Failure(MissingEPC) else Success(v)
  }

  function Skip(u: (), p: Parameter): Result<(), LlrpError> {
    Success(())
  }

  lemma {:induction false} SkipAll(ps: seq<Parameter>)
    ensures Fold(Skip, (), ps) == Success(())
    decreases |ps|
  {
    if ps != [] {
      SkipAll(ps[1..]);
    }
  }

  /** The in-place decoder: one walk for the list's structure alone, then one that inspects its parameters. */
  method DecodeTagReportData(data: Bytes, limits: Limits) returns (r: Result<ReadEvent, LlrpError>)
    ensures r == TagReport(data, limits)
  {
    SkipAll(WalkOf(data, limits).visited);
    var structural := WalkParameters(data, limits, Skip, ());
    if structural.Failure? {
      return Failure(structural.error);
    }
    var v := WalkParameters(data, limits, Inspect, NOTHING);
    if v.Failure? {
      return Failure(v.error);
    }
    if v.value.id == [] {
      return Failure(MissingEPC);
    }
    return Success(v.value);
  }

  // ------------------------------------------------------------- reference

  /** The reference: every list is decoded fully, then inspected in order. */
  function ReferenceEvents(reports: seq<Parameter>, limits: Limits): Result<seq<ReadEvent>, LlrpError> {
    if reports == [] then Success([])
    else if !IsReport(reports[0]) then ReferenceEvents(reports[1..], limits)
    else
      var inner :- DecodeParameters(reports[0].data, limits);
      var v :- Fold(Inspect, NOTHING, inner);
      var rest :- ReferenceEvents(reports[1..], limits);
      Success(if v.id == [] then rest else [v] + rest)
  }

  function ReferenceReadEvents(body: Bytes, limits: Limits): Result<seq<ReadEvent>, LlrpError> {
    var reports :- DecodeParameters(body, limits);
    ReferenceEvents(reports, limits)
  }

  // ---------------------------------------------------------- fast decoder

  function CountReport(n: nat, p: Parameter): Result<nat, LlrpError> {
    Success(if IsReport(p) then n + 1 else n)
  }

  lemma {:induction false} CountAll(n: nat, ps: seq<Parameter>)
    ensures Fold(CountReport, n, ps).Success?
    decreases |ps|
  {
    if ps != [] {
      CountAll(if IsReport(ps[0]) then n + 1 else n, ps[1..]);
    }
  }

  /** Views found so far and the bytes they need. */
  datatype Gathered = Gathered(views: seq<ReadEvent>, size: nat)

  function PCBytes(v: ReadEvent): Bytes {
    if v.pc.Some? then v.pc.value else []
  }

  /** The visitor of the second pass; a report without an EPC is passed over. */
  function Gather(limits: Limits, g: Gathered, p: Parameter): Result<Gathered, LlrpError> {
    if !IsReport(p) then Success(g)
    else match TagReport(p.data, limits)
      case Failure(e) => if e == MissingEPC then Success(g) else Failure(e)
      case Success(v) => Success(Gathered(g.views + [v], g.size + |v.id| + |PCBytes(v)|))
  }

  function Gatherer(limits: Limits): (Gathered, Parameter) -> Result<Gathered, LlrpError> {
    (g, p) => Gather(limits, g, p)
  }

  function TotalBytes(views: seq<ReadEvent>): nat {
    if views == [] then 0
    else TotalBytes(views[..|views| - 1]) + |views[|views| - 1].id| + |PCBytes(views[|views| - 1])|
  }

  /** What one parameter adds to the events: nothing, one event, or an error. */
  function Contribution(p: Parameter, limits: Limits): Result<seq<ReadEvent>, LlrpError> {
    if !IsReport(p) then Success([])
    else
      var inner :- DecodeParameters(p.data, limits);
      var v :- Fold(Inspect, NOTHING, inner);
      Success(if v.id == [] then [] else [v])
  }

  lemma ReferenceContributes(reports: seq<Parameter>, limits: Limits)
    requires reports != []
    ensures ReferenceEvents(reports, limits) ==
            match Contribution(reports[0], limits)
            case Failure(e) => Failure(e)
            case Success(vs) => (match ReferenceEvents(reports[1..], limits)
                                 case Failure(e) => Failure(e)
                                 case Success(rest) => Success(vs + rest))
  {
    hide Fold, Inspect, DecodeParameters, IsReport;
    if ReferenceEvents(reports[1..], limits).Success? {
      assert [] + ReferenceEvents(reports[1..], limits).value == ReferenceEvents(reports[1..], limits).value;
    }
  }

  /** A report without an EPC is passed over by the visitor, and only such a report. */
  lemma GatherContributes(limits: Limits, g: Gathered, p: Parameter)
    ensures match Contribution(p, limits)
            case Failure(e) => Gather(limits, g, p) == Failure(e)
            case Success(vs) =>
              Gather(limits, g, p) ==
                Success(if vs == [] then g else Gathered(g.views + vs, g.size + |vs[0].id| + |PCBytes(vs[0])|))
    ensures Contribution(p, limits).Success? ==> |Contribution(p, limits).value| <= 1
  {
    hide Fold, Inspect, DecodeParameters, IsReport, PCBytes;
    NeverMissing(p.data, limits);
  }

  lemma FoldFirst<S>(visit: (S, Parameter) -> Result<S, LlrpError>, s: S, ps: seq<Parameter>)
    requires ps != []
    ensures Fold(visit, s, ps) ==
            match visit(s, ps[0])
            case Failure(e) => Failure(e)
            case Success(next) => Fold(visit, next, ps[1..])
  {
  }

  /** What gathering from g on should give: the reference's error, or its events behind those gathered before. */
  predicate Agrees(f: Result<Gathered, LlrpError>, g: Gathered, r: Result<seq<ReadEvent>, LlrpError>) {
    match r
    case Failure(e) => f == Failure(e)
    case Success(vs) => f.Success? && f.value.views == g.views + vs && f.value.size == TotalBytes(f.value.views)
  }

  lemma AgreesAtEnd(limits: Limits, g: Gathered)
    requires g.size == TotalBytes(g.views)
    ensures Agrees(Fold(Gatherer(limits), g, []), g, ReferenceEvents([], limits))
  {
    hide TotalBytes;
    assert g.views + [] == g.views;
  }

  /** Agreement from the next state on is agreement from g on, with what the first parameter contributed in front. */
  lemma AgreesBefore(f: Result<Gathered, LlrpError>, g: Gathered, next: Gathered, vs: seq<ReadEvent>,
                     r: Result<seq<ReadEvent>, LlrpError>)
    requires Agrees(f, next, r) && next.views == g.views + vs
    ensures Agrees(f, g, match r
                         case Failure(e) => Failure(e)
                         case Success(rest) => Success(vs + rest))
  {
    hide TotalBytes;
    if r.Success? {
      assert g.views + (vs + r.value) == g.views + vs + r.value;
    }
  }

  /** The state after one parameter that contributes vs. */
  lemma Gathering(limits: Limits, g: Gathered, p: Parameter)
    requires g.size == TotalBytes(g.views) && Contribution(p, limits).Success?
    ensures Gather(limits, g, p).Success?
    ensures var next := Gather(limits, g, p).value;
            next.views == g.views + Contribution(p, limits).value && next.size == TotalBytes(next.views)
  {
    hide Contribution, Gather, PCBytes;
    GatherContributes(limits, g, p);
    var vs := Contribution(p, limits).value;
    if vs == [] {
      assert g.views + vs == g.views;
    } else {
      assert vs == [vs[0]];
      assert (g.views + [vs[0]])[..|g.views|] == g.views;
    }
  }

  /** Gathering over a fully decoded list is the reference, after what was gathered before. */
  lemma {:induction false} GatherIsReference(limits: Limits, g: Gathered, reports: seq<Parameter>)
    requires g.size == TotalBytes(g.views)
    ensures Agrees(Fold(Gatherer(limits), g, reports), g, ReferenceEvents(reports, limits))
    decreases |reports|
  {
    hide ReferenceEvents, Contribution, Gather, TotalBytes, Fold;
    if reports == [] {
      AgreesAtEnd(limits, g);
    } else {
      FoldFirst(Gatherer(limits), g, reports);
      ReferenceContributes(reports, limits);
      GatherContributes(limits, g, reports[0]);
      if Contribution(reports[0], limits).Success? {
        hide Agrees;
        Gathering(limits, g, reports[0]);
        var next := Gather(limits, g, reports[0]).value;
        var rest := ReferenceEvents(reports[1..], limits);
        GatherIsReference(limits, next, reports[1..]);
        AgreesBefore(Fold(Gatherer(limits), next, reports[1..]), g, next, Contribution(reports[0], limits).value, rest);
      }
    }
  }

  /** Neither the walk nor the inspection answers a missing EPC. */
  lemma NeverMissing(data: Bytes, limits: Limits)
    ensures DecodeParameters(data, limits) != Failure(MissingEPC)
    ensures DecodeParameters(data, limits).Success? ==>
      Fold(Inspect, NOTHING, DecodeParameters(data, limits).value) != Failure(MissingEPC)
  {
    StructuralErrors(data, Normalized(limits), 0);
    if DecodeParameters(data, limits).Success? {
      InspectMeans(DecodeParameters(data, limits).value);
    }
  }

  lemma {:induction false} StructuralErrors(data: Bytes, limits: Limits, count: nat)
    ensures WalkFrom(data, limits, count).error != Some(MissingEPC)
    decreases |data|
  {
    if data != [] && count < limits.maxParameters && Head(data, limits.maxParameterSize).Success? {
      StructuralErrors(data[Head(data, limits.maxParameterSize).value.1..], limits, count + 1);
    }
  }

  // ----------------------------------------------------------------- arena

  /** A piece of the arena; a full slice expression, so it cannot grow into the next piece. */
  datatype Slice = Slice(start: nat, end: nat)

  datatype Stored = Stored(id: Slice, pc: Option<Slice>)

  predicate Within(s: Slice, n: nat) {
    s.start <= s.end <= n
  }

  predicate StoredWithin(s: Stored, n: nat) {
    Within(s.id, n) && (s.pc.Some? ==> Within(s.pc.value, n))
  }

  /** The event a stored entry stands for. */
  function Resolve(arena: Bytes, s: Stored): ReadEvent
    requires StoredWithin(s, |arena|)
  {
    ReadEvent(arena[s.id.start..s.id.end], if s.pc.Some? then Some(arena[s.pc.value.start..s.pc.value.end]) else None)
  }

  function SlicesOf(s: Stored): seq<Slice> {
    if s.pc.Some? then [s.id, s.pc.value] else [s.id]
  }

  /** All slices in order. */
  function AllSlices(stored: seq<Stored>): seq<Slice> {
    if stored == [] then [] else AllSlices(stored[..|stored| - 1]) + SlicesOf(stored[|stored| - 1])
  }

  /** Where the slice before i ends. */
  function EndBefore(slices: seq<Slice>, i: nat): nat
    requires i <= |slices|
  {
    if i == 0 then 0 else slices[i - 1].end
  }

  /** Slices lie one behind the other, from 0 to n, without gap or overlap. */
  predicate Tiles(slices: seq<Slice>, n: nat) {
    && (forall i | 0 <= i < |slices| :: slices[i].start <= slices[i].end <= n)
    && (forall i | 0 <= i < |slices| :: slices[i].start == EndBefore(slices, i))
    && n == EndBefore(slices, |slices|)
  }

  lemma TilesMore(slices: seq<Slice>, n: nat, m: nat)
    requires Tiles(slices, n) && n <= m
    ensures Tiles(slices + [Slice(n, m)], m)
  {
    var more := slices + [Slice(n, m)];
    forall i | 0 <= i < |more|
      ensures more[i].start == EndBefore(more, i)
    {
      assert EndBefore(more, i) == EndBefore(slices, i);
    }
  }

  /** Tiling slices are pairwise disjoint. */
  lemma {:induction false} TilesDisjoint(slices: seq<Slice>, n: nat, i: nat, j: nat)
    requires Tiles(slices, n) && i < j < |slices|
    ensures slices[i].end <= slices[j].start
    decreases j - i
  {
    assert slices[j].start == EndBefore(slices, j);
    if i + 1 < j {
      TilesDisjoint(slices, n, i, j - 1);
    }
  }

  /** The events of a decoded report and the arena they share. */
  datatype Decoded = Decoded(arena: Bytes, stored: seq<Stored>)

  ghost predicate Holds(d: Decoded, events: seq<ReadEvent>) {
    && |d.stored| == |events|
    && (forall i | 0 <= i < |events| ::
       StoredWithin(d.stored[i], |d.arena|) && Resolve(d.arena, d.stored[i]) == events[i])
    && Tiles(AllSlices(d.stored), |d.arena|)
  }

  /** Appending one view's bytes to the arena. */
  lemma StoreMore(d: Decoded, events: seq<ReadEvent>, v: ReadEvent)
    requires Holds(d, events)
    ensures Holds(Store(d, v), events + [v])
  {
    hide Tiles, AllSlices;
    StoreTiles(d, v);
    var d' := Store(d, v);
    assert d'.arena == d.arena + (v.id + PCBytes(v));
    forall i | 0 <= i < |d.stored|
      ensures StoredWithin(d'.stored[i], |d'.arena|) && Resolve(d'.arena, d'.stored[i]) == events[i]
    {
      SlicePrefix(d.arena, v.id + PCBytes(v), d.stored[i]);
    }
    StoreResolves(d, v);
    hide Store, Resolve;
  }

  lemma StoreResolves(d: Decoded, v: ReadEvent)
    ensures var d' := Store(d, v);
      |d'.stored| == |d.stored| + 1 && StoredWithin(d'.stored[|d.stored|], |d'.arena|) &&
        Resolve(d'.arena, d'.stored[|d.stored|]) == v
  {
    if v.pc.Some? {
      Piece(d.arena, v.id, v.pc.value);
      Piece(d.arena + v.id, v.pc.value, []);
      assert d.arena + v.id + v.pc.value + [] == d.arena + v.id + v.pc.value;
    } else {
      Piece(d.arena, v.id, []);
      assert d.arena + v.id + [] == d.arena + v.id;
    }
  }

  lemma Piece(before: Bytes, middle: Bytes, after: Bytes)
    ensures (before + middle + after)[|before|..|before| + |middle|] == middle
  {
  }

  lemma StoreTiles(d: Decoded, v: ReadEvent)
    requires Tiles(AllSlices(d.stored), |d.arena|)
    ensures Tiles(AllSlices(Store(d, v).stored), |Store(d, v).arena|)
  {
    hide Tiles;
    var slices, d', mid := AllSlices(d.stored), Store(d, v), |d.arena| + |v.id|;
    assert d'.stored[..|d.stored|] == d.stored;
    TilesMore(slices, |d.arena|, mid);
    if v.pc.Some? {
      var end := mid + |v.pc.value|;
      TilesMore(slices + [Slice(|d.arena|, mid)], mid, end);
      assert slices + [Slice(|d.arena|, mid), Slice(mid, end)] == slices + [Slice(|d.arena|, mid)] + [Slice(mid, end)];
    }
  }

  lemma SlicePrefix(arena: Bytes, more: Bytes, s: Stored)
    requires StoredWithin(s, |arena|)
    ensures Resolve(arena + more, s) == Resolve(arena, s)
  {
    assert (arena + more)[s.id.start..s.id.end] == arena[s.id.start..s.id.end];
    if s.pc.Some? {
      assert (arena + more)[s.pc.value.start..s.pc.value.end] == arena[s.pc.value.start..s.pc.value.end];
    }
  }

  function Store(d: Decoded, v: ReadEvent): Decoded {
    var start, mid := |d.arena|, |d.arena| + |v.id|;
    if v.pc.Some? then
      Decoded(d.arena + v.id + v.pc.value, d.stored + [Stored(Slice(start, mid), Some(Slice(mid, mid + |v.pc.value|)))])
    else Decoded(d.arena + v.id, d.stored + [Stored(Slice(start, mid), None)])
  }

  /**
   * The copy-free decoder gives the reference's events or the reference's first error.
   * Its events are disjoint pieces of one arena, whose size was known before it was filled.
   */
  method DecodeReadEvents(body: Bytes, limits: Limits) returns (r: Result<Decoded, LlrpError>)
    ensures match ReferenceReadEvents(body, limits)
            case Failure(e) => r == Failure(e)
            case Success(events) => r.Success? && Holds(r.value, events) && |r.value.arena| == TotalBytes(events)
  {
    assert TotalBytes([]) == 0;
    hide WalkFrom, Gather, Gatherer, Holds, ReferenceEvents, Fold, TotalBytes;
    var w := WalkOf(body, limits);
    CountAll(0, w.visited);
    var reports := WalkParameters(body, limits, CountReport, 0);
    if reports.Failure? {
      return Failure(reports.error);
    }
    GatherIsReference(limits, Gathered([], 0), w.visited);
    var gathered := WalkParameters(body, limits, Gatherer(limits), Gathered([], 0));
    if gathered.Failure? {
      return Failure(gathered.error);
    }
    var d := FillArena(gathered.value.views);
    ghost var vs := ReferenceEvents(w.visited, limits).value;
    assert gathered.value.views == [] + vs == vs;
    return Success(d);
  }

  /** Copying one view behind the ones before it. */
  method StoreView(arena: Bytes, store: seq<Stored>, v: ReadEvent) returns (arena': Bytes, store': seq<Stored>)
    ensures Decoded(arena', store') == Store(Decoded(arena, store), v)
  {
    var start := |arena|;
    arena' := arena + v.id;
    var id := Slice(start, |arena'|);
    if v.pc.Some? {
      start := |arena'|;
      arena' := arena' + v.pc.value;
      store' := store + [Stored(id, Some(Slice(start, |arena'|)))];
    } else {
      store' := store + [Stored(id, None)];
    }
  }

  lemma OneMoreView(views: seq<ReadEvent>, i: nat)
    requires i < |views|
    ensures views[..i + 1] == views[..i] + [views[i]]
  {
  }

  method FillArena(views: seq<ReadEvent>) returns (d: Decoded)
    ensures Holds(d, views) && |d.arena| == TotalBytes(views)
  {
    var arena: Bytes, store: seq<Stored> := [], [];
    assert Holds(Decoded(arena, store), views[..0]) && TotalBytes(views[..0]) == 0;
    hide *;
    for i := 0 to |views|
      invariant Holds(Decoded(arena, store), views[..i]) && |arena| == TotalBytes(views[..i])
    {
      OneMoreView(views, i);
      StoreMore(Decoded(arena, store), views[..i], views[i]);
      StoreTotal(Decoded(arena, store), views[..i], views[i]);
      arena, store := StoreView(arena, store, views[i]);
    }
    assert views[..|views|] == views;
    return Decoded(arena, store);
  }

  lemma StoreTotal(d: Decoded, views: seq<ReadEvent>, v: ReadEvent)
    requires |d.arena| == TotalBytes(views)
    ensures |Store(d, v).arena| == TotalBytes(views + [v])
  {
    assert (views + [v])[..|views|] == views;
  }
}
