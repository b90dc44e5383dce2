/** Message framing and parameter lists (llrp/codec.go; LLRP 1.1, section 17). */
module LlrpCodec {
  import opened Wrappers

  type Octet = n: nat | n < 256

  type Bytes = seq<Octet>

  datatype LlrpError =
    | FrameTooSmall | FrameTooLarge | MalformedHeader | LengthMismatch
    | ParameterTruncated | ParameterTooLarge | ParameterLimit | UnsupportedParameter
    | MalformedTagReport | MissingEPC | EPCTooLong

  // -------------------------------------------------------------- integers

  /** Two big-endian bytes. */
  function Get16(b: Bytes, i: nat): (n: nat)
    requires i + 2 <= |b|
    ensures n < 0x1_0000
  {
    256 * (b[i] as nat) + b[i + 1]
  }

  function Put16(n: nat): (b: Bytes)
    requires n < 0x1_0000
    ensures |b| == 2
  {
    [n / 256, n % 256]
  }

  function Get32(b: Bytes, i: nat): (n: nat)
    requires i + 4 <= |b|
    ensures n < 0x1_0000_0000
  {
    0x1_0000 * Get16(b, i) + Get16(b, i + 2)
  }

  function Put32(n: nat): (b: Bytes)
    requires n < 0x1_0000_0000
    ensures |b| == 4
  {
    Put16(n / 0x1_0000) + Put16(n % 0x1_0000)
  }

  lemma GetPut16(n: nat, rest: Bytes)
    requires n < 0x1_0000
    ensures Get16(Put16(n) + rest, 0) == n
  {
  }

  lemma PutGet16(b: Bytes, i: nat)
    requires i + 2 <= |b|
    ensures Put16(Get16(b, i)) == b[i..i + 2]
  {
  }

  lemma PutGet32(b: Bytes, i: nat)
    requires i + 4 <= |b|
    ensures Put32(Get32(b, i)) == b[i..i + 4]
  {
    PutGet16(b, i);
    PutGet16(b, i + 2);
    assert b[i..i + 4] == b[i..i + 2] + b[i + 2..i + 4];
  }

  // ---------------------------------------------------------------- limits

  /** Zero fields select defaults; the parameter count limit is a signed machine integer. */
  datatype Limits = Limits(maxFrameSize: nat, maxParameterSize: nat, maxParameters: int)

  predicate ValidLimits(l: Limits) {
    l.maxFrameSize < 0x1_0000_0000 && l.maxParameterSize < 0x1_0000
  }

  function Normalized(l: Limits): Limits {
    Limits(if l.maxFrameSize == 0 then 0x10_0000 else l.maxFrameSize,
           if l.maxParameterSize == 0 then 0x8000 else l.maxParameterSize,
           if l.maxParameters == 0 then 4096 else l.maxParameters)
  }

  const DEFAULT_LIMITS := Limits(0x10_0000, 0x8000, 4096)

  /** Zero stands for a megabyte, 32 kilobytes and 4096 parameters. */
  lemma Defaults(l: Limits)
    ensures Normalized(Limits(0, 0, 0)) == DEFAULT_LIMITS == Limits(1048576, 32768, 4096)
    ensures l.maxFrameSize != 0 && l.maxParameterSize != 0 && l.maxParameters != 0 ==> Normalized(l) == l
  {
  }

  // -------------------------------------------------------------- messages

  const HEADER_SIZE := 10

  /** A message; length is the header field a caller may leave zero. */
  datatype Message = Message(typ: nat, length: nat, id: nat, payload: Bytes)

  predicate ValidMessage(m: Message) {
    m.typ < 0x1_0000 && m.length < 0x1_0000_0000 && m.id < 0x1_0000_0000
  }

  function EncodeMessage(m: Message, limits: Limits): Result<Bytes, LlrpError>
    requires ValidMessage(m) && ValidLimits(limits)
  {
    var n := HEADER_SIZE + |m.payload|;
    if n > Normalized(limits).maxFrameSize then Failure(FrameTooLarge)
    else if m.length != 0 && m.length != n then Failure(LengthMismatch)
    else Success(Put16(m.typ) + Put32(n) + Put32(m.id) + m.payload)
  }

  function DecodeMessage(frame: Bytes, limits: Limits): Result<Message, LlrpError> {
    var max := Normalized(limits).maxFrameSize;
    if |frame| < HEADER_SIZE then Failure(FrameTooSmall)
    else if |frame| > max then Failure(FrameTooLarge)
    else
      var length := Get32(frame, 2);
      if length < HEADER_SIZE then Failure(MalformedHeader)
      else if length > max then Failure(FrameTooLarge)
      else if length != |frame| then Failure(LengthMismatch)
      else Success(Message(Get16(frame, 0), length, Get32(frame, 6), frame[HEADER_SIZE..]))
  }

  /** Reading one frame off a stream: None is a stream that ends too early. */
  function ReadMessage(stream: Bytes, limits: Limits): Option<Result<(Message, Bytes), LlrpError>> {
    if |stream| < HEADER_SIZE then None
    else
      var length := Get32(stream, 2);
      if length < HEADER_SIZE then Some(Failure(MalformedHeader))
      else if length > Normalized(limits).maxFrameSize then Some(Failure(FrameTooLarge))
      else if length > |stream| then None
      else
        match DecodeMessage(stream[..length], limits)
        case Failure(e) => Some(Failure(e))
        case Success(m) => Some(Success((m, stream[length..])))
  }

  lemma HeaderFields(m: Message, n: nat, payload: Bytes)
    requires ValidMessage(m) && n < 0x1_0000_0000
    ensures var frame := Put16(m.typ) + Put32(n) + Put32(m.id) + payload;
            |frame| == HEADER_SIZE + |payload| && Get16(frame, 0) == m.typ && Get32(frame, 2) == n &&
              Get32(frame, 6) == m.id
            && frame[HEADER_SIZE..] == payload
  {
  }

  /** A message survives encoding, its length filled in, and whatever follows it on the stream stays. */
  lemma ReadOfEncoded(m: Message, limits: Limits, frame: Bytes, rest: Bytes)
    requires ValidMessage(m) && ValidLimits(limits) && EncodeMessage(m, limits) == Success(frame)
    ensures DecodeMessage(frame, limits) == Success(m.(length := |frame|))
    ensures ReadMessage(frame + rest, limits) == Some(Success((m.(length := |frame|), rest)))
  {
    HeaderFields(m, HEADER_SIZE + |m.payload|, m.payload);
    var stream := frame + rest;
    assert stream[..|frame|] == frame && stream[|frame|..] == rest;
    assert Get32(stream, 2) == Get32(frame, 2);
    hide Put16, Put32;
  }

  /** Encoding a decoded frame restores it. */
  lemma EncodeOfDecoded(frame: Bytes, limits: Limits, m: Message)
    requires ValidLimits(limits) && DecodeMessage(frame, limits) == Success(m)
    ensures ValidMessage(m) && EncodeMessage(m, limits) == Success(frame)
  {
    PutGet16(frame, 0);
    PutGet32(frame, 2);
    PutGet32(frame, 6);
    assert frame == frame[0..2] + frame[2..6] + frame[6..10] + frame[10..];
  }

  // ------------------------------------------------------------ parameters

  /** One parameter; data excludes its wire header. */
  datatype Parameter = Parameter(typ: nat, tv: bool, data: Bytes)

  /** The known fixed-width parameters and their sizes, header included. */
  function TVSize(typ: nat): (n: Option<nat>)
    ensures n.Some? ==> 2 <= n.value <= 13
  {
    if typ == 4 then Some(9)
    else if typ == 6 then Some(2)
    else if typ == 7 || typ == 8 || typ == 12 then Some(3)
    else if typ == 13 then Some(13)
    else None
  }

  function EncodeParameter(p: Parameter): (r: Result<Bytes, LlrpError>)
    ensures r.Success? ==> |r.value| >= 2
  {
    if p.tv then
      if p.typ > 0x7f then Failure(MalformedHeader)
      else match TVSize(p.typ)
        case None => Failure(UnsupportedParameter)
        case Some(total) => if total != 1 + |p.data| then Failure(LengthMismatch) else Success([0x80 + p.typ] + p.data)
    else if p.typ > 0x3ff then Failure(MalformedHeader)
    else if 4 + |p.data| > 0xffff then Failure(ParameterTooLarge)
    else Success(Put16(p.typ) + Put16(4 + |p.data|) + p.data)
  }

  /** The parameters in order, each within the size limit. */
  function EncodeAll(ps: seq<Parameter>, maxSize: nat): Result<Bytes, LlrpError> {
    if ps == [] then Success([])
    else
      var head :- EncodeAll(ps[..|ps| - 1], maxSize);
      var last :- EncodeParameter(ps[|ps| - 1]);
      if |last| > maxSize then Failure(ParameterTooLarge) else Success(head + last)
  }

  function EncodeParameters(ps: seq<Parameter>, limits: Limits): Result<Bytes, LlrpError> {
    var l := Normalized(limits);
    if |ps| > l.maxParameters then Failure(ParameterLimit) else EncodeAll(ps, l.maxParameterSize)
  }

  method EncodeParameterList(ps: seq<Parameter>, limits: Limits) returns (r: Result<Bytes, LlrpError>)
    ensures r == EncodeParameters(ps, limits)
  {
    var l := Normalized(limits);
    if |ps| > l.maxParameters {
      return Failure(ParameterLimit);
    }
    var encoded: Bytes := [];
    for i := 0 to |ps|
      invariant EncodeAll(ps[..i], l.maxParameterSize) == Success(encoded)
    {
      assert ps[..i + 1][..i] == ps[..i];
      var value := EncodeParameter(ps[i]);
      if value.Failure? {
        EncodeFailsOn(ps, i + 1, l.maxParameterSize);
        return Failure(value.error);
      }
      if |value.value| > l.maxParameterSize {
        EncodeFailsOn(ps, i + 1, l.maxParameterSize);
        return Failure(ParameterTooLarge);
      }
      encoded := encoded + value.value;
    }
    assert ps[..|ps|] == ps;
    return Success(encoded);
  }

  /** The first failure is the list's failure. */
  lemma {:induction false} EncodeFailsOn(ps: seq<Parameter>, n: nat, maxSize: nat)
    requires n <= |ps| && EncodeAll(ps[..n], maxSize).Failure?
    ensures EncodeAll(ps, maxSize) == EncodeAll(ps[..n], maxSize)
    decreases |ps| - n
  {
    if n < |ps| {
      assert ps[..n + 1][..n] == ps[..n];
      EncodeFailsOn(ps, n + 1, maxSize);
    } else {
      assert ps[..n] == ps;
    }
  }

  // ------------------------------------------------------------------ walk

  /** The parameter at the head of the data and its size, header included. */
  function Head(data: Bytes, maxSize: nat): (r: Result<(Parameter, nat), LlrpError>)
    requires data != []
    ensures r.Success? ==> 2 <= r.value.1 <= |data| && |r.value.0.data| < r.value.1 && r.value.1 <= maxSize
  {
    if data[0] >= 0x80 then
      var typ := data[0] - 0x80;
      match TVSize(typ)
      case None => Failure(UnsupportedParameter)
      case Some(total) =>
        if total > |data| then Failure(ParameterTruncated)
        else if total > maxSize then Failure(ParameterTooLarge)
        else Success((Parameter(typ, true, data[1..total]), total))
    else if |data| < 4 then Failure(ParameterTruncated)
    else
      var length := Get16(data, 2);
      if length < 4 then Failure(ParameterTruncated)
      else if length > maxSize then Failure(ParameterTooLarge)
      else if length > |data| then Failure(ParameterTruncated)
      else Success((Parameter(Get16(data, 0) % 0x400, false, data[4..length]), length))
  }

  /** What a walk visits before it ends, and the structural error that ended it, if any. */
  datatype Walk = Walk(visited: seq<Parameter>, error: Option<LlrpError>)

  /** The walk over data when count parameters came before. */
  function WalkFrom(data: Bytes, limits: Limits, count: nat): Walk
    decreases |data|
  {
    if data == [] then Walk([], None)
    else if count >= limits.maxParameters then Walk([], Some(ParameterLimit))
    else match Head(data, limits.maxParameterSize)
      case Failure(e) => Walk([], Some(e))
      case Success((p, total)) =>
        var rest := WalkFrom(data[total..], limits, count + 1);
        Walk([p] + rest.visited, rest.error)
  }

  function WalkOf(data: Bytes, limits: Limits): Walk {
    WalkFrom(data, Normalized(limits), 0)
  }

  /** A visitor folded over parameters, stopping at its first error. */
  function Fold<S>(visit: (S, Parameter) -> Result<S, LlrpError>, s: S, ps: seq<Parameter>): Result<S, LlrpError> {
    if ps == [] then Success(s)
    else match visit(s, ps[0])
      case Failure(e) => Failure(e)
      case Success(next) => Fold(visit, next, ps[1..])
  }

  /** The walk's outcome: the visitor's error, or the structural error reached after visiting, or the final state. */
  function Outcome<S>(visit: (S, Parameter) -> Result<S, LlrpError>, s: S, w: Walk): Result<S, LlrpError> {
    match Fold(visit, s, w.visited)
    case Failure(e) => Failure(e)
    case Success(final) => if w.error.Some? then Failure(w.error.value) else Success(final)
  }

  /** Validating and visiting each parameter in turn, the data shrinking until it is used up. */
  method WalkParameters<S>(data: Bytes, limits: Limits, visit: (S, Parameter) -> Result<S, LlrpError>, start: S)
    returns (r: Result<S, LlrpError>)
    ensures r == Outcome(visit, start, WalkOf(data, limits))
  {
    var l := Normalized(limits);
    var count: nat, rest, state := 0, data, start;
    while rest != []
      invariant Outcome(visit, start, WalkOf(data, limits)) == Outcome(visit, state, WalkFrom(rest, l, count))
      decreases |rest|
    {
      if count >= l.maxParameters {
        return Failure(ParameterLimit);
      }
      count := count + 1;
      var head := Head(rest, l.maxParameterSize);
      if head.Failure? {
        return Failure(head.error);
      }
      var (p, total) := head.value;
      assert ([p] + WalkFrom(rest[total..], l, count).visited)[1..] == WalkFrom(rest[total..], l, count).visited;
      var next := visit(state, p);
      if next.Failure? {
        return Failure(next.error);
      }
      state := next.value;
      rest := rest[total..];
    }
    return Success(state);
  }

  function DecodeParameters(data: Bytes, limits: Limits): Result<seq<Parameter>, LlrpError> {
    var w := WalkOf(data, limits);
    if w.error.Some? then Failure(w.error.value) else Success(w.visited)
  }

  function Collect(ps: seq<Parameter>, p: Parameter): Result<seq<Parameter>, LlrpError> {
    Success(ps + [p])
  }

  lemma {:induction false} CollectAll(start: seq<Parameter>, ps: seq<Parameter>)
    ensures Fold(Collect, start, ps) == Success(start + ps)
    decreases |ps|
  {
    if ps == [] {
      assert start + [] == start;
    } else {
      CollectAll(start + [ps[0]], ps[1..]);
      assert start + [ps[0]] + ps[1..] == start + ps;
    }
  }

  /** Decoding is the walk with a visitor that collects. */
  method DecodeParameterList(data: Bytes, limits: Limits) returns (r: Result<seq<Parameter>, LlrpError>)
    ensures r == DecodeParameters(data, limits)
  {
    r := WalkParameters(data, limits, Collect, []);
    CollectAll([], WalkOf(data, limits).visited);
    assert [] + WalkOf(data, limits).visited == WalkOf(data, limits).visited;
  }

  // ----------------------------------------------------------- round trips

  /** An encoded parameter is read back from the head of whatever starts with it. */
  lemma HeadOfEncoded(p: Parameter, rest: Bytes, maxSize: nat)
    requires EncodeParameter(p).Success? && |EncodeParameter(p).value| <= maxSize
    ensures EncodeParameter(p).value + rest != []
    ensures Head(EncodeParameter(p).value + rest, maxSize) == Success((p, |EncodeParameter(p).value|))
  {
    var e := EncodeParameter(p).value;
    var data := e + rest;
    if p.tv {
      assert data[1..|e|] == p.data;
    } else {
      assert data[0] < 4;
      assert Get16(data, 0) == p.typ && Get16(data, 2) == |e|;
      assert data[4..|e|] == p.data;
    }
  }

  lemma {:induction false} EncodeAllSplit(p: Parameter, ps: seq<Parameter>, maxSize: nat, data: Bytes)
    requires EncodeAll([p] + ps, maxSize) == Success(data)
    ensures EncodeParameter(p).Success? && |EncodeParameter(p).value| <= maxSize
    ensures EncodeAll(ps, maxSize).Success? && data == EncodeParameter(p).value + EncodeAll(ps, maxSize).value
    decreases |ps|
  {
    hide EncodeParameter;
    var all := [p] + ps;
    assert EncodeAll([], maxSize) == Success([]);
    if ps == [] {
      assert all[..0] == [];
    } else {
      assert all[..|all| - 1] == [p] + ps[..|ps| - 1];
      var front, last := EncodeAll(all[..|all| - 1], maxSize).value, EncodeParameter(ps[|ps| - 1]).value;
      EncodeAllSplit(p, ps[..|ps| - 1], maxSize, front);
      Associates(EncodeParameter(p).value, EncodeAll(ps[..|ps| - 1], maxSize).value, last);
    }
  }

  lemma Associates(a: Bytes, b: Bytes, c: Bytes)
    ensures a + b + c == a + (b + c)
  {
  }

  lemma {:induction false} WalkOfEncoded(ps: seq<Parameter>, limits: Limits, count: nat, data: Bytes)
    requires EncodeAll(ps, limits.maxParameterSize) == Success(data) && count + |ps| <= limits.maxParameters
    ensures WalkFrom(data, limits, count) == Walk(ps, None)
    decreases |ps|
  {
    if ps != [] {
      var p, rest := ps[0], ps[1..];
      assert ps == [p] + rest;
      EncodeAllSplit(p, rest, limits.maxParameterSize, data);
      var e, tail := EncodeParameter(p).value, EncodeAll(rest, limits.maxParameterSize).value;
      HeadOfEncoded(p, tail, limits.maxParameterSize);
      assert data[|e|..] == tail;
      WalkOfEncoded(rest, limits, count + 1, tail);
    }
  }

  /** What the encoder accepts, the decoder gives back under the same limits. */
  lemma DecodeOfEncode(ps: seq<Parameter>, limits: Limits, data: Bytes)
    requires EncodeParameters(ps, limits) == Success(data)
    ensures DecodeParameters(data, limits) == Success(ps)
  {
    WalkOfEncoded(ps, Normalized(limits), 0, data);
  }

  /** The data with the five reserved bits of every type field cleared. */
  function Canonical(data: Bytes, maxSize: nat): Bytes
    decreases |data|
  {
    if data == [] then []
    else match Head(data, maxSize)
      case Failure(_) => data
      case Success((p, total)) =>
        (if p.tv then data[..total] else [data[0] % 4] + data[1..total]) + Canonical(data[total..], maxSize)
  }

  /** Position i holds the first byte of a parameter without the TV mark, counted from the head. */
  predicate StartsTLV(data: Bytes, maxSize: nat, i: nat)
    decreases |data|
  {
    data != [] && match Head(data, maxSize)
      case Failure(_) => false
      case Success((p, total)) => if i < total then i == 0 && !p.tv else StartsTLV(data[total..], maxSize, i - total)
  }

  /** Clearing touches the reserved bits and nothing else. */
  lemma {:induction false} CanonicalBits(data: Bytes, maxSize: nat, i: nat)
    requires i < |data|
    ensures |Canonical(data, maxSize)| == |data|
    ensures Canonical(data, maxSize)[i] == if StartsTLV(data, maxSize, i) then data[i] % 4 else data[i]
    decreases |data|
  {
    match Head(data, maxSize)
    case Failure(_) =>
    case Success((p, total)) =>
      var rest := data[total..];
      CanonicalLength(rest, maxSize);
      if i >= total {
        CanonicalBits(rest, maxSize, i - total);
      }
  }

  lemma {:induction false} CanonicalLength(data: Bytes, maxSize: nat)
    ensures |Canonical(data, maxSize)| == |data|
    decreases |data|
  {
    if data != [] && Head(data, maxSize).Success? {
      CanonicalLength(data[Head(data, maxSize).value.1..], maxSize);
    }
  }

  /** The ten type bits spread over two bytes. */
  lemma TypeBytes(data: Bytes)
    requires |data| >= 2
    ensures Put16(Get16(data, 0) % 0x400) == [data[0] % 4, data[1]]
  {
    assert Get16(data, 0) % 0x400 == 256 * ((data[0] % 4) as nat) + data[1];
  }

  /** Encoding the head parameter restores its bytes, reserved bits cleared. */
  lemma EncodeOfHead(data: Bytes, maxSize: nat, p: Parameter, total: nat)
    requires data != [] && Head(data, maxSize) == Success((p, total))
    ensures EncodeParameter(p) == Success(if p.tv then data[..total] else [data[0] % 4] + data[1..total])
  {
    hide Get16;
    if p.tv {
      assert [data[0]] + data[1..total] == data[..total];
    } else {
      PutGet16(data, 2);
      TypeBytes(data);
      assert [data[0] % 4, data[1]] + data[2..4] + data[4..total] == [data[0] % 4] + data[1..total];
    }
  }

  lemma {:induction false} EncodeAllJoin(p: Parameter, ps: seq<Parameter>, maxSize: nat)
    requires EncodeParameter(p).Success? && |EncodeParameter(p).value| <= maxSize && EncodeAll(ps, maxSize).Success?
    ensures EncodeAll([p] + ps, maxSize) == Success(EncodeParameter(p).value + EncodeAll(ps, maxSize).value)
    decreases |ps|
  {
    hide EncodeParameter;
    var all := [p] + ps;
    assert EncodeAll([], maxSize) == Success([]);
    if ps == [] {
      assert all[..0] == [];
      assert [] + EncodeParameter(p).value == EncodeParameter(p).value + [];
    } else {
      assert all[..|all| - 1] == [p] + ps[..|ps| - 1];
      EncodeAllJoin(p, ps[..|ps| - 1], maxSize);
      Associates(EncodeParameter(p).value, EncodeAll(ps[..|ps| - 1], maxSize).value,
        EncodeParameter(ps[|ps| - 1]).value);
    }
  }

  lemma {:induction false} EncodeOfWalk(data: Bytes, limits: Limits, count: nat)
    requires WalkFrom(data, limits, count).error.None?
    ensures var ps := WalkFrom(data, limits, count).visited;
            data != [] ==> count + |ps| <= limits.maxParameters
    ensures EncodeAll(WalkFrom(data, limits, count).visited, limits.maxParameterSize)
         == Success(Canonical(data, limits.maxParameterSize))
    decreases |data|
  {
    if data != [] {
      var (p, total) := Head(data, limits.maxParameterSize).value;
      EncodeOfWalk(data[total..], limits, count + 1);
      EncodeOfHead(data, limits.maxParameterSize, p, total);
      EncodeAllJoin(p, WalkFrom(data[total..], limits, count + 1).visited, limits.maxParameterSize);
    }
  }

  /**
   * Re-encoding what the decoder accepts reproduces the data except for the reserved bits.
   * Only a negative count limit tells the two apart: the decoder never counts an empty list, the encoder does.
   */
  lemma EncodeOfDecode(data: Bytes, limits: Limits, ps: seq<Parameter>)
    requires DecodeParameters(data, limits) == Success(ps)
    ensures EncodeParameters(ps, limits) ==
            if data == [] && limits.maxParameters < 0 then Failure(ParameterLimit)
            else Success(Canonical(data, Normalized(limits).maxParameterSize))
  {
    EncodeOfWalk(data, Normalized(limits), 0);
  }

  // ---------------------------------------------------------- on the bytes

  /** The number some bytes spell, most significant byte first. */
  function Spelled(b: Bytes): nat {
    if b == [] then 0 else 256 * Spelled(b[..|b| - 1]) + b[|b| - 1] as nat
  }

  lemma Spelled16(b: Bytes, i: nat)
    requires i + 2 <= |b|
    ensures Spelled(b[i..i + 2]) == Get16(b, i)
  {
    var two := b[i..i + 2];
    assert Spelled(two[..1]) == 256 * Spelled(two[..1][..0]) + two[0] as nat;
    assert two[..1][..0] == [];
  }

  lemma Spelled32(b: Bytes, i: nat)
    requires i + 4 <= |b|
    ensures Spelled(b[i..i + 4]) == Get32(b, i)
  {
    var four := b[i..i + 4];
    Spelled16(b, i);
    assert four[..3][..2] == b[i..i + 2];
    assert Spelled(four[..3]) == 256 * Spelled(four[..3][..2]) + b[i + 2] as nat;
    assert Spelled(four) == 256 * Spelled(four[..3]) + b[i + 3] as nat;
  }

  /** A frame on the wire: type, length of the whole frame and ID, most significant bytes first, and the payload. */
  lemma FrameBytes(m: Message, limits: Limits, frame: Bytes)
    requires ValidMessage(m) && ValidLimits(limits) && EncodeMessage(m, limits) == Success(frame)
    ensures |frame| == 10 + |m.payload| && frame[10..] == m.payload && (m.length == 0 || m.length == |frame|)
    ensures Spelled(frame[0..2]) == m.typ && Spelled(frame[2..6]) == |frame| && Spelled(frame[6..10]) == m.id
  {
    HeaderFields(m, HEADER_SIZE + |m.payload|, m.payload);
    hide Put16, Put32, Spelled;
    Spelled16(frame, 0);
    Spelled32(frame, 2);
    Spelled32(frame, 6);
  }

  /** The data of a known fixed-width parameter has this many bytes. */
  predicate FixedWidth(typ: nat, n: nat) {
    || (typ == 4 && n == 8)
    || (typ == 6 && n == 1)
    || ((typ == 7 || typ == 8 || typ == 12) && n == 2)
    || (typ == 13 && n == 12)
  }

  /** One more parameter in front leaves what the walk finds behind it as it was, while the count allows. */
  lemma {:induction false} WalkShifted(data: Bytes, limits: Limits, count: nat)
    requires WalkFrom(data, limits, count).error.None?
    requires count + |WalkFrom(data, limits, count).visited| + 1 <= limits.maxParameters
    ensures WalkFrom(data, limits, count + 1) == WalkFrom(data, limits, count)
    decreases |data|
  {
    if data != [] {
      var (p, total) := Head(data, limits.maxParameterSize).value;
      hide Head;
      WalkShifted(data[total..], limits, count + 1);
    }
  }

  lemma DecodeBehind(data: Bytes, limits: Limits, p: Parameter, total: nat, ps: seq<Parameter>)
    requires data != [] && Head(data, Normalized(limits).maxParameterSize) == Success((p, total))
    requires DecodeParameters(data[total..], limits) == Success(ps) && |ps| + 1 <= Normalized(limits).maxParameters
    ensures DecodeParameters(data, limits) == Success([p] + ps)
  {
    WalkShifted(data[total..], Normalized(limits), 0);
    hide Head;
  }

  /** In front of any data that decodes, a byte from 128 on and as many bytes as its type has make one parameter. */
  lemma DecodesFixed(typ: nat, data: Bytes, rest: Bytes, limits: Limits, ps: seq<Parameter>)
    requires FixedWidth(typ, |data|) && |data| + 1 <= Normalized(limits).maxParameterSize
    requires DecodeParameters(rest, limits) == Success(ps) && |ps| + 1 <= Normalized(limits).maxParameters
    ensures DecodeParameters([128 + typ] + data + rest, limits) == Success([Parameter(typ, true, data)] + ps)
  {
    hide DecodeParameters;
    var all: Bytes := [128 + typ] + data + rest;
    assert all[1..1 + |data|] == data && all[1 + |data|..] == rest;
    DecodeBehind(all, limits, Parameter(typ, true, data), 1 + |data|, ps);
  }

  /** Two bytes with the type in their last ten bits, two length bytes that count all four, and the data. */
  lemma DecodesVariable(header: Bytes, data: Bytes, rest: Bytes, limits: Limits, ps: seq<Parameter>)
    requires |header| == 4 && header[0] < 128 && Spelled(header[2..4]) == 4 + |data|
    requires 4 + |data| <= Normalized(limits).maxParameterSize
    requires DecodeParameters(rest, limits) == Success(ps) && |ps| + 1 <= Normalized(limits).maxParameters
    ensures DecodeParameters(header + data + rest, limits) ==
            Success([Parameter(Spelled(header[0..2]) % 1024, false, data)] + ps)
  {
    hide DecodeParameters, Spelled;
    var all := header + data + rest;
    assert all[4..4 + |data|] == data && all[4 + |data|..] == rest;
    Spelled16(header, 0);
    Spelled16(header, 2);
    DecodeBehind(all, limits, Parameter(Spelled(header[0..2]) % 1024, false, data), 4 + |data|, ps);
  }

  /** Why the parameter in front is refused: of no known fixed width, too large, or cut off. */
  lemma HeadRefuses(data: Bytes, maxSize: nat, e: LlrpError)
    requires data != [] && Head(data, maxSize) == Failure(e)
    ensures e.UnsupportedParameter? <==> data[0] >= 128 && data[0] - 128 !in [4, 6, 7, 8, 12, 13]
    ensures e.ParameterTruncated? || e.ParameterTooLarge? || e.UnsupportedParameter?
    ensures e.ParameterTruncated? && data[0] >= 128 ==> |data| < 13
    ensures data[0] < 128 ==>
              (e.ParameterTruncated? <==>
                 |data| < 4 || Spelled(data[2..4]) < 4 || |data| < Spelled(data[2..4]) <= maxSize)
    ensures data[0] < 128 && |data| >= 4 ==>
            (e.ParameterTooLarge? <==> Spelled(data[2..4]) >= 4 && Spelled(data[2..4]) > maxSize)
  {
    if |data| >= 4 {
      Spelled16(data, 2);
    }
    hide Spelled;
  }
}
