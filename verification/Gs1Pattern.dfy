/** GS1 pattern URIs compiled to field patterns and bit tests (internal/tdt/gs1epc/pattern.go). */
module Gs1Pattern {
  import opened Wrappers
  import opened Bits
  import opened Decimal
  import opened Identity
  import opened Layout
  import opened Gs1Field
  import opened Gs1Codec
  import opened Gs1Uri
  import opened Text

  const ID_PATTERN_PREFIX := "urn:epc:idpat:"
  const TAG_PATTERN_PREFIX := "urn:epc:pat:"

  predicate IsAny(s: string) {
    s == "*"
  }

  predicate IsRange(s: string) {
    |s| >= 2 && s[0] == '[' && s[|s| - 1] == ']'
  }

  predicate AllAnyFrom(parts: seq<string>, from: nat) {
    forall i | from <= i < |parts| :: IsAny(parts[i])
  }

  function SplitPattern(text: string, prefix: string): Result<(string, seq<string>), Error> {
    // strings.TrimPrefix leaves text without the prefix alone.
    var rest := if HasPrefix(text, prefix) then text[|prefix|..] else text;
    match Cut(rest, ':')
    case None => Failure(MalformedPattern)
    case Some((name, body)) =>
      if name == "" || body == "" then Failure(MalformedPattern) else Success((name, Split(body, '.')))
  }

  /** The option an exact company prefix selects. */
  function OptionForPattern(s: Scheme, parts: seq<string>, gcpIndex: nat): (r: Option<LayoutOption>)
    ensures r.Some? ==> gcpIndex < |parts| && r.value in s.def.options && r.value.gcpLength == |parts[gcpIndex]|
    ensures r.Some? ==> !IsAny(parts[gcpIndex]) && !IsRange(parts[gcpIndex])
  {
    if gcpIndex >= |parts| || IsAny(parts[gcpIndex]) || IsRange(parts[gcpIndex]) then None
    else
      OptionMember(s.def.options, |parts[gcpIndex]|);
      OptionByLength(s.def.options, |parts[gcpIndex]|)
  }

  /** Why a company prefix selects no option. */
  function CompanyPrefixError(value: string): Error {
    if IsAny(value) then PatternStar else FieldValue
  }

  function ParseRange(f: URIField, text: string): Result<(nat, nat), Error>
    requires IsRange(text)
  {
    match Cut(text[1..|text| - 1], '-')
    case None => Failure(FieldValue)
    case Some((loText, hiText)) =>
      var lo, hi := ParseUint(loText), ParseUint(hiText);
      if lo.None? || hi.None? || lo.value > hi.value || hi.value > f.max then Failure(FieldValue)
      else Success((lo.value, hi.value))
  }

  function PatternField(f: URIField, text: string, allowRange: bool): Result<FieldPattern, Error> {
    if IsAny(text) then Success(FieldAny(f.name))
    else if IsRange(text) then
      if !allowRange then Failure(FieldValue)
      else
        var r :- ParseRange(f, text);
        Success(FieldRange(f.name, r.0, r.1))
    else
      var _ :- ParseField(f, text);
      Success(FieldExact(f.name, text))
  }

  function PatternFields(uriFields: seq<URIField>, parts: seq<string>, allowRange: bool)
    : (r: Result<seq<FieldPattern>, Error>)
    requires |uriFields| == |parts|
    ensures r.Success? ==> |r.value| == |parts|
    ensures r.Success? ==> forall i | 0 <= i < |parts| ::
      PatternField(uriFields[i], parts[i], allowRange) == Success(r.value[i])
  {
    if parts == [] then Success([])
    else
      var f :- PatternField(uriFields[0], parts[0], allowRange);
      var rest :- PatternFields(uriFields[1..], parts[1..], allowRange);
      Success([f] + rest)
  }

  // ------------------------------------------------------------- bit tests

  /** A value/mask pair under construction. */
  datatype Pins = Pins(value: seq<bv8>, mask: seq<bv8>)

  predicate LiteralsFit(literals: seq<BinaryLiteral>, n: nat) {
    forall i | 0 <= i < |literals| :: literals[i].off + literals[i].len <= 8 * n
  }

  /** The literals' sites with every bit set: what pinning them adds to a mask. */
  function Ones(literals: seq<BinaryLiteral>): (r: seq<BinaryLiteral>)
    ensures |r| == |literals|
    ensures forall i | 0 <= i < |r| ::
      r[i] == BinaryLiteral(literals[i].off, literals[i].len, Pow2(literals[i].len) - 1)
  {
    seq(|literals|, i requires 0 <= i < |literals| =>
      BinaryLiteral(literals[i].off, literals[i].len, Pow2(literals[i].len) - 1))
  }

  function PinAll(p: Pins, literals: seq<BinaryLiteral>, n: nat, k: nat): (r: Pins)
    requires |p.value| == |p.mask| == n && LiteralsFit(literals, n) && k <= |literals|
    ensures |r.value| == |r.mask| == n
  {
    Pins(WriteLiterals(p.value, literals, k), WriteLiterals(p.mask, Ones(literals), k))
  }

  /** The number an exact field pins: zero for a zero-length field. */
  function PinnedNumber(text: string): Option<nat> {
    if text == "" then Some(0) else ParseUint(text)
  }

  /** The literals that pin the exact fields, in field order; None when a text is not a number. */
  function ExactPins(bfs: seq<BinaryField>, fields: seq<FieldPattern>): Option<seq<BinaryLiteral>>
    requires |bfs| >= |fields|
  {
    if fields == [] then Some([])
    else
      var rest := ExactPins(bfs[1..], fields[1..]);
      match fields[0]
      case FieldExact(_, text) =>
        var n := PinnedNumber(text);
        if n.None? || rest.None? then None
        else Some([BinaryLiteral(bfs[0].off, bfs[0].len, n.value)] + rest.value)
      case _ => rest
  }

  /** Where the first star begins: nothing at or beyond it is constrained. */
  function CoveredEnd(bfs: seq<BinaryField>, fields: seq<FieldPattern>, end: nat): (r: nat)
    requires |bfs| >= |fields|
    ensures r <= end
    ensures forall i | 0 <= i < |fields| && fields[i].FieldAny? :: r <= bfs[i].off
    ensures r == end || exists i :: 0 <= i < |fields| && fields[i].FieldAny? && r == bfs[i].off
  {
    if fields == [] then end
    else
      var rest := CoveredEnd(bfs[1..], fields[1..], end);
      assert forall i | 1 <= i < |fields| :: fields[i] == fields[1..][i - 1] && bfs[i] == bfs[1..][i - 1];
      if fields[0].FieldAny? && bfs[0].off < rest then bfs[0].off else rest
  }

  function ClearRun(data: seq<bv8>, start: nat, end: nat): (r: seq<bv8>)
    requires start <= end <= 8 * |data|
    ensures |r| == |data|
    ensures forall j: nat | j < 8 * |data| :: BitAt(r, j) == (BitAt(data, j) && !(start <= j < end))
    decreases end
  {
    if start == end then data else ClearBit(ClearRun(data, start, end - 1), end - 1)
  }

  predicate HasRange(fields: seq<FieldPattern>) {
    exists i | 0 <= i < |fields| :: fields[i].FieldRange?
  }

  predicate Constrained(fields: seq<FieldPattern>) {
    exists i | 0 <= i < |fields| :: fields[i].FieldExact?
  }

  function HeaderPin(s: Scheme): BinaryLiteral {
    BinaryLiteral(0, s.def.headerBits, s.def.header)
  }

  /** The header-only test, over the header's bytes. */
  function HeaderPattern(s: Scheme): Result<BitPattern, Error>
    requires WellFormedScheme(s) && s.def.tagLength >= 8
  {
    var n := s.def.tagLength / 8;
    var p := PinAll(Pins(Zeros(n), Zeros(n)), [HeaderPin(s)], n, 1);
    var bytes := (s.def.headerBits + 7) / 8;
    NewBitPattern(p.value[..bytes], p.mask[..bytes], s.def.headerBits)
  }

  /** The test of an option: header and exact fields, cleared from the first star on, literals pinned again. */
  function OptionPins(o: LayoutOption, n: nat, header: BinaryLiteral, fields: seq<FieldPattern>,
                      pins: seq<BinaryLiteral>)
    : (r: Pins)
    requires |o.binaryFields| >= |fields| && Fits(o, n) && LiteralsFit([header] + pins, n)
    ensures |r.value| == |r.mask| == n
  {
    SecondRound(o, n, FirstRound(header, pins, n), CoveredEnd(o.binaryFields, fields, 8 * n))
  }

  /** The header and the exact fields, pinned into zeroed buffers. */
  function FirstRound(header: BinaryLiteral, pins: seq<BinaryLiteral>, n: nat): (r: Pins)
    requires LiteralsFit([header] + pins, n)
    ensures |r.value| == |r.mask| == n
  {
    PinAll(Pins(Zeros(n), Zeros(n)), [header] + pins, n, 1 + |pins|)
  }

  /** Clearing everything from bit covered on, then pinning the literals wherever they sit. */
  function SecondRound(o: LayoutOption, n: nat, p: Pins, covered: nat): (r: Pins)
    requires |p.value| == |p.mask| == n && covered <= 8 * n && Fits(o, n)
    ensures |r.value| == |r.mask| == n
  {
    PinAll(Pins(ClearRun(p.value, covered, 8 * n), ClearRun(p.mask, covered, 8 * n)),
           o.binaryLiterals, n, |o.binaryLiterals|)
  }

  lemma {:induction false} ExactPinsFit(bfs: seq<BinaryField>, fields: seq<FieldPattern>, n: nat)
    requires |bfs| >= |fields| && forall i | 0 <= i < |bfs| :: bfs[i].off + bfs[i].len <= 8 * n
    ensures var pins := ExactPins(bfs, fields); pins.Some? ==> LiteralsFit(pins.value, n)
  {
    if fields != [] {
      ExactPinsFit(bfs[1..], fields[1..], n);
    }
  }

  /** An option's test, or the failure of an exact text that is no number. */
  function OptionPattern(o: LayoutOption, n: nat, header: BinaryLiteral, fields: seq<FieldPattern>)
    : Result<BitPattern, Error>
    requires Fits(o, n) && |o.binaryFields| == |fields| && header.off + header.len <= 8 * n
  {
    ExactPinsFit(o.binaryFields, fields, n);
    var pins := ExactPins(o.binaryFields, fields);
    if pins.None? then Failure(FieldValue)
    else
      HeaderAndPinsFit(header, pins.value, n);
      var p := OptionPins(o, n, header, fields, pins.value);
      NewBitPattern(p.value, p.mask, 8 * n)
  }

  lemma HeaderAndPinsFit(header: BinaryLiteral, pins: seq<BinaryLiteral>, n: nat)
    requires header.off + header.len <= 8 * n && LiteralsFit(pins, n)
    ensures LiteralsFit([header] + pins, n)
  {
  }

  function PatternBits(s: Scheme, opt: Option<LayoutOption>, fields: seq<FieldPattern>)
    : Result<Option<BitPattern>, Error>
    requires opt.Some? ==> |opt.value.binaryFields| == |fields|
    requires s.def.tagLength >= 8 && WellFormedScheme(s)
    requires opt.Some? ==> WellFormedOption(s, opt.value)
  {
    if HasRange(fields) then Success(None)
    else if opt.None? then
      if Constrained(fields) then Success(None)
      else
        var b :- HeaderPattern(s);
        Success(Some(b))
    else
      OptionFits(s, opt.value);
      var b :- OptionPattern(opt.value, s.def.tagLength / 8, HeaderPin(s), fields);
      Success(Some(b))
  }

  // --------------------------------------------------------------- compile

  function CompileIDPattern(reg: Registry, text: string): Result<Pattern, Error> {
    var split :- SplitPattern(text, ID_PATTERN_PREFIX);
    var (key, parts) := split;
    var found := FirstByKey(reg, key);
    if found.None? then Failure(UnsupportedScheme) else CompileIDParts(found.value, parts, text)
  }

  function CompileIDParts(s: Scheme, parts: seq<string>, text: string): Result<Pattern, Error>
    requires WellFormedScheme(s)
  {
    var opt := OptionForPattern(s, parts, 0);
    if opt.None? && !AllAnyFrom(parts, 0) then
      Failure(if parts == [] then FieldValue else CompanyPrefixError(parts[0]))
    else
      var uriFields := if opt.Some? then opt.value.pureFields else s.def.options[0].pureFields;
      if |parts| != |uriFields| then Failure(MalformedPattern)
      else
        var fields :- PatternFields(uriFields, parts, false);
        NewPattern(LevelIdentity, AuthorityGS1, s.keyType, "", fields, None, text)
  }

  function CompileTagPattern(reg: Registry, text: string): Result<Pattern, Error> {
    var split :- SplitPattern(text, TAG_PATTERN_PREFIX);
    var (id, parts) := split;
    var found := Lookup(reg, id);
    if found.None? then Failure(UnsupportedScheme) else CompileTagParts(found.value, parts, text)
  }

  function CompileTagParts(s: Scheme, parts: seq<string>, text: string): Result<Pattern, Error>
    requires WellFormedScheme(s)
  {
    TagUsable(s);
    var opt := OptionForPattern(s, parts, 1);
    var uriFields := if opt.Some? then opt.value.tagFields else s.def.options[0].tagFields;
    if |parts| != |uriFields| then Failure(MalformedPattern)
    else if opt.None? && !AllAnyFrom(parts, 1) then Failure(CompanyPrefixError(parts[1]))
    else
      var fields :- PatternFields(uriFields, parts, true);
      var bits :- PatternBits(s, opt, fields);
      NewPattern(LevelEncoding, AuthorityGS1, s.keyType, s.id, fields, bits, text)
  }

  /** Facts the compiler leans on: tags hold their header, and every option has a filter and a company prefix. */
  lemma TagUsable(s: Scheme)
    requires WellFormedScheme(s)
    ensures s.def.tagLength >= 8
    ensures forall o | o in s.def.options :: WellFormedOption(s, o) && |o.binaryFields| == |o.tagFields| >= 2
  {
    var o := s.def.options[0];
    SchemeOption(s, o);
    ContiguousWithin(Sites(o), s.def.tagLength, 0);
    hide Contiguous, Sites;
    assert Sites(o)[LiteralRank(o, 0)] == LiteralSite(o, 0);
  }

  function CompilePattern(reg: Registry, text: string): Result<Pattern, Error> {
    if HasPrefix(text, ID_PATTERN_PREFIX) then CompileIDPattern(reg, text)
    else if HasPrefix(text, TAG_PATTERN_PREFIX) then CompileTagPattern(reg, text)
    else Failure(MalformedPattern)
  }

  // ---------------------------------------------- the bit test is the field test

  /** Literal l reaches bit j and has a one there. */
  predicate LiteralHas(l: BinaryLiteral, j: nat) {
    l.off <= j < l.off + l.len && NumBit(l.value, l.off + l.len - 1 - j)
  }

  /** Writing literals or-s together the ones of every literal reaching a bit. */
  lemma {:induction false} LiteralsBit(data: seq<bv8>, literals: seq<BinaryLiteral>, k: nat, j: nat)
    requires k <= |literals| && j < 8 * |data| && LiteralsFit(literals, |data|)
    ensures BitAt(WriteLiterals(data, literals, k), j) ==
            (BitAt(data, j) || exists i :: 0 <= i < k && LiteralHas(literals[i], j))
  {
    if k > 0 {
      LiteralsBit(data, literals, k - 1, j);
      assert BitAt(WriteLiterals(data, literals, k), j) ==
             (BitAt(WriteLiterals(data, literals, k - 1), j) || LiteralHas(literals[k - 1], j));
    }
  }

  /** In a mask, a literal has a one at every bit it reaches. */
  lemma OnesHave(literals: seq<BinaryLiteral>, i: nat, j: nat)
    requires i < |literals|
    ensures LiteralHas(Ones(literals)[i], j) <==> literals[i].off <= j < literals[i].off + literals[i].len
  {
    var l := literals[i];
    if l.off <= j < l.off + l.len {
      NumBitOnes(l.len, l.off + l.len - 1 - j);
    }
  }

  function PinOf(b: BinaryField, f: FieldPattern): BinaryLiteral
    requires f.FieldExact? && PinnedNumber(f.text).Some?
  {
    BinaryLiteral(b.off, b.len, PinnedNumber(f.text).value)
  }

  /** The pins are exactly the exact fields' pins. */
  lemma {:induction false} ExactPinsMembers(bfs: seq<BinaryField>, fields: seq<FieldPattern>)
    requires |bfs| >= |fields| && ExactPins(bfs, fields).Some?
    ensures forall k | 0 <= k < |fields| && fields[k].FieldExact? ::
      PinnedNumber(fields[k].text).Some? && PinOf(bfs[k], fields[k]) in ExactPins(bfs, fields).value
    ensures forall x | x in ExactPins(bfs, fields).value ::
      exists k :: 0 <= k < |fields| && fields[k].FieldExact? && PinnedNumber(fields[k].text).Some? &&
        x == PinOf(bfs[k], fields[k])
  {
    if fields != [] {
      var pins := ExactPins(bfs, fields).value;
      var rest := ExactPins(bfs[1..], fields[1..]).value;
      ExactPinsMembers(bfs[1..], fields[1..]);
      forall k | 0 <= k < |fields| && fields[k].FieldExact?
        ensures PinnedNumber(fields[k].text).Some? && PinOf(bfs[k], fields[k]) in pins
      {
        if k > 0 {
          assert fields[k] == fields[1..][k - 1] && bfs[k] == bfs[1..][k - 1];
        }
      }
      forall x | x in pins
        ensures exists k ::
                0 <= k < |fields| && fields[k].FieldExact? && PinnedNumber(fields[k].text).Some? &&
                  x == PinOf(bfs[k], fields[k])
      {
        if x in rest {
          var k :| 0 <= k < |fields[1..]| && fields[1..][k].FieldExact? && PinnedNumber(fields[1..][k].text).Some?
                   && x == PinOf(bfs[1..][k], fields[1..][k]);
          assert fields[k + 1] == fields[1..][k] && bfs[k + 1] == bfs[1..][k];
        } else {
          assert x == PinOf(bfs[0], fields[0]);
        }
      }
    }
  }

  predicate Reaches(l: BinaryLiteral, j: nat) {
    l.off <= j < l.off + l.len
  }

  /** What one round of pins leaves at a bit. */
  lemma RoundBits(p: Pins, literals: seq<BinaryLiteral>, n: nat, j: nat)
    requires |p.value| == |p.mask| == n && LiteralsFit(literals, n) && j < 8 * n
    ensures var r := PinAll(p, literals, n, |literals|);
      && BitAt(r.mask, j) == (BitAt(p.mask, j) || exists i :: 0 <= i < |literals| && Reaches(literals[i], j))
      && BitAt(r.value, j) == (BitAt(p.value, j) || exists i :: 0 <= i < |literals| && LiteralHas(literals[i], j))
  {
    LiteralsBit(p.value, literals, |literals|, j);
    LiteralsBit(p.mask, Ones(literals), |literals|, j);
    forall i | 0 <= i < |literals|
      ensures LiteralHas(Ones(literals)[i], j) <==> Reaches(literals[i], j)
    {
      OnesHave(literals, i, j);
    }
  }

  /** An option, field patterns without ranges whose stars form a suffix, and the pins of the exact ones. */
  ghost predicate Pinnable(s: Scheme, o: LayoutOption, fields: seq<FieldPattern>, pins: seq<BinaryLiteral>) {
    && WellFormedOption(s, o) && s.def.tagLength % 8 == 0
    && |fields| == |o.binaryFields| && !HasRange(fields) && StarSuffix(fields)
    && ExactPins(o.binaryFields, fields) == Some(pins)
    && Fits(o, s.def.tagLength / 8) && LiteralsFit([HeaderPin(s)] + pins, s.def.tagLength / 8)
  }

  lemma FieldMissesLiteral(o: LayoutOption, m: nat, k: nat, j: nat)
    requires m < |o.binaryFields| && LiteralOwns(o, k, j)
    ensures !(o.binaryFields[m].off <= j < o.binaryFields[m].off + o.binaryFields[m].len)
  {
    assert !InField(o, m, j);
  }

  /** A first-round pin reaching a literal's bit is that literal. */
  lemma PinOnLiteral(s: Scheme, o: LayoutOption, fields: seq<FieldPattern>, pins: seq<BinaryLiteral>, i: nat, k: nat,
                     j: nat)
    requires Pinnable(s, o, fields, pins) && LiteralOwns(o, k, j)
    requires i < 1 + |pins| && Reaches(([HeaderPin(s)] + pins)[i], j)
    ensures ([HeaderPin(s)] + pins)[i] == o.binaryLiterals[k]
  {
    hide BinaryOption, PureOption, Contiguous, Sites;
    assert o.binaryLiterals[0] == HeaderPin(s);
    hide WellFormedOption;
    if i == 0 {
      assert InLiteral(o, 0, j);
    } else {
      ExactPinsMembers(o.binaryFields, fields);
      assert pins[i - 1] in pins;
      var m :| 0 <= m < |fields| && fields[m].FieldExact? && PinnedNumber(fields[m].text).Some?
               && pins[i - 1] == PinOf(o.binaryFields[m], fields[m]);
      FieldMissesLiteral(o, m, k, j);
    }
  }

  /** A first-round pin reaching a field's bit is that field's pin. */
  lemma PinOnField(s: Scheme, o: LayoutOption, fields: seq<FieldPattern>, pins: seq<BinaryLiteral>, i: nat, k: nat,
                   j: nat)
    requires Pinnable(s, o, fields, pins) && FieldOwns(o, k, j)
    requires i < 1 + |pins| && Reaches(([HeaderPin(s)] + pins)[i], j)
    ensures fields[k].FieldExact? && PinnedNumber(fields[k].text).Some?
    ensures ([HeaderPin(s)] + pins)[i] == PinOf(o.binaryFields[k], fields[k])
  {
    hide BinaryOption, PureOption, Contiguous, Sites;
    assert o.binaryLiterals[0] == HeaderPin(s);
    hide WellFormedOption;
    ExactPinsMembers(o.binaryFields, fields);
    assert InLiteral(o, 0, j) == Reaches(HeaderPin(s), j);
    assert i > 0;
    assert pins[i - 1] in pins;
    var m :| 0 <= m < |fields| && fields[m].FieldExact? && PinnedNumber(fields[m].text).Some?
             && pins[i - 1] == PinOf(o.binaryFields[m], fields[m]);
    assert InField(o, m, j);
  }

  /** A literal's bits end up pinned to the literal, whatever the clearing loop did before. */
  lemma LiteralPinned(s: Scheme, o: LayoutOption, fields: seq<FieldPattern>, pins: seq<BinaryLiteral>, k: nat, j: nat)
    requires Pinnable(s, o, fields, pins) && LiteralOwns(o, k, j) && j < s.def.tagLength
    ensures var r := OptionPins(o, s.def.tagLength / 8, HeaderPin(s), fields, pins); var l := o.binaryLiterals[k];
            BitAt(r.mask, j) && BitAt(r.value, j) == NumBit(l.value, l.off + l.len - 1 - j)
  {
    hide WellFormedOption;
    var n := s.def.tagLength / 8;
    var all := [HeaderPin(s)] + pins;
    var l := o.binaryLiterals[k];
    var p := PinAll(Pins(Zeros(n), Zeros(n)), all, n, |all|);
    var covered := CoveredEnd(o.binaryFields, fields, 8 * n);
    var c := Pins(ClearRun(p.value, covered, 8 * n), ClearRun(p.mask, covered, 8 * n));
    RoundBits(Pins(Zeros(n), Zeros(n)), all, n, j);
    forall i | 0 <= i < |all| && LiteralHas(all[i], j)
      ensures LiteralHas(l, j)
    {
      PinOnLiteral(s, o, fields, pins, i, k, j);
    }
    RoundBits(c, o.binaryLiterals, n, j);
    hide Pinnable;
    assert InLiteral(o, k, j) && Reaches(l, j);
    forall i | 0 <= i < |o.binaryLiterals| && LiteralHas(o.binaryLiterals[i], j)
      ensures i == k
    {
      assert InLiteral(o, i, j);
    }
  }

  /** The first star starts beyond every bit of an exact field. */
  lemma ExactIsCovered(s: Scheme, o: LayoutOption, fields: seq<FieldPattern>, pins: seq<BinaryLiteral>, k: nat, j: nat)
    requires Pinnable(s, o, fields, pins) && k < |fields| && fields[k].FieldExact? && InField(o, k, j) &&
             j < s.def.tagLength
    ensures j < CoveredEnd(o.binaryFields, fields, s.def.tagLength)
  {
    hide ExactPins, BinaryOption, PureOption, Fits, LiteralsFit, HasRange, Contiguous, Sites;
    var r := CoveredEnd(o.binaryFields, fields, s.def.tagLength);
    if r < s.def.tagLength {
      var i :| 0 <= i < |fields| && fields[i].FieldAny? && r == o.binaryFields[i].off;
      assert i > k;
      ContiguousOrdered(Sites(o), s.def.tagLength, FieldRank(o, k), FieldRank(o, i));
    }
  }

  /** Outside the literals, the second round only clears what the first star uncovers. */
  lemma FieldAfterRounds(o: LayoutOption, n: nat, p: Pins, covered: nat, k: nat, j: nat)
    requires |p.value| == |p.mask| == n && covered <= 8 * n && Fits(o, n) && FieldOwns(o, k, j) && j < 8 * n
    ensures var r := SecondRound(o, n, p, covered);
            BitAt(r.mask, j) == (j < covered && BitAt(p.mask, j)) &&
              BitAt(r.value, j) == (j < covered && BitAt(p.value, j))
  {
    var c := Pins(ClearRun(p.value, covered, 8 * n), ClearRun(p.mask, covered, 8 * n));
    RoundBits(c, o.binaryLiterals, n, j);
    forall i | 0 <= i < |o.binaryLiterals|
      ensures !Reaches(o.binaryLiterals[i], j)
    {
      assert !InLiteral(o, i, j);
    }
  }

  lemma ExactAfterFirstRound(s: Scheme, o: LayoutOption, fields: seq<FieldPattern>, pins: seq<BinaryLiteral>, k: nat,
                             j: nat)
    requires Pinnable(s, o, fields, pins) && FieldOwns(o, k, j) && fields[k].FieldExact? && j < s.def.tagLength
    ensures PinnedNumber(fields[k].text).Some?
    ensures var p := FirstRound(HeaderPin(s), pins, s.def.tagLength / 8);
            BitAt(p.mask, j) && BitAt(p.value, j) == LiteralHas(PinOf(o.binaryFields[k], fields[k]), j)
  {
    hide WellFormedOption, PinnedNumber, HasRange, StarSuffix, ExactPins, BitAt, LiteralHas, Fits;
    ExactPinsMembers(o.binaryFields, fields);
    var n := s.def.tagLength / 8;
    var all := [HeaderPin(s)] + pins;
    var pin := PinOf(o.binaryFields[k], fields[k]);
    var m :| 0 <= m < |pins| && pins[m] == pin;
    assert InField(o, k, j);
    assert all[m + 1] == pin && Reaches(all[m + 1], j);
    RoundBits(Pins(Zeros(n), Zeros(n)), all, n, j);
    forall i | 0 <= i < |all| && LiteralHas(all[i], j)
      ensures all[i] == pin
    {
      HasReaches(all[i], j);
      PinOnField(s, o, fields, pins, i, k, j);
    }
  }

  lemma HasReaches(l: BinaryLiteral, j: nat)
    requires LiteralHas(l, j)
    ensures Reaches(l, j)
  {
  }

  /** An exact field's bits end up pinned to its number. */
  lemma ExactPinned(s: Scheme, o: LayoutOption, fields: seq<FieldPattern>, pins: seq<BinaryLiteral>, k: nat, j: nat)
    requires Pinnable(s, o, fields, pins) && FieldOwns(o, k, j) && fields[k].FieldExact? && j < s.def.tagLength
    ensures PinnedNumber(fields[k].text).Some?
    ensures var r := OptionPins(o, s.def.tagLength / 8, HeaderPin(s), fields, pins);
            BitAt(r.mask, j) && BitAt(r.value, j) == LiteralHas(PinOf(o.binaryFields[k], fields[k]), j)
  {
    hide WellFormedOption, PinnedNumber, ExactPins, LiteralHas, StarSuffix, PinAll, SecondRound;
    ExactAfterFirstRound(s, o, fields, pins, k, j);
    assert InField(o, k, j);
    ExactIsCovered(s, o, fields, pins, k, j);
    FieldAfterRounds(o, s.def.tagLength / 8, FirstRound(HeaderPin(s), pins, s.def.tagLength / 8),
                     CoveredEnd(o.binaryFields, fields, s.def.tagLength), k, j);
  }

  /** A star's bits end up unconstrained. */
  lemma StarUnpinned(s: Scheme, o: LayoutOption, fields: seq<FieldPattern>, pins: seq<BinaryLiteral>, k: nat, j: nat)
    requires Pinnable(s, o, fields, pins) && FieldOwns(o, k, j) && fields[k].FieldAny? && j < s.def.tagLength
    ensures !BitAt(OptionPins(o, s.def.tagLength / 8, HeaderPin(s), fields, pins).mask, j)
  {
    hide WellFormedOption;
    var n := s.def.tagLength / 8;
    var all := [HeaderPin(s)] + pins;
    assert InField(o, k, j);
    FieldAfterRounds(o, n, PinAll(Pins(Zeros(n), Zeros(n)), all, n, |all|),
                     CoveredEnd(o.binaryFields, fields, 8 * n), k, j);
  }

  /** The tag bits satisfy every literal of the option and every exact field of the pattern. */
  ghost predicate Pinned(o: LayoutOption, fields: seq<FieldPattern>, bits: seq<bv8>) {
    && Fits(o, |bits|) && |fields| == |o.binaryFields| && LiteralsHold(o, bits)
    && forall k | 0 <= k < |fields| && fields[k].FieldExact? ::
         PinnedNumber(fields[k].text) == Some(FieldValues(o, bits)[k])
  }

  /** The exact fields' numbers fit their bits. */
  ghost predicate NumbersFit(o: LayoutOption, fields: seq<FieldPattern>) {
    |fields| == |o.binaryFields| && forall k | 0 <= k < |fields| && fields[k].FieldExact? ::
      PinnedNumber(fields[k].text).Some? && PinnedNumber(fields[k].text).value < Pow2(o.binaryFields[k].len)
  }

  /** The compiled value/mask test holds of a tag exactly when its literals and exact fields do. */
  lemma TestMeansPinned(s: Scheme, o: LayoutOption, fields: seq<FieldPattern>, pins: seq<BinaryLiteral>, bits: seq<bv8>)
    requires Pinnable(s, o, fields, pins) && NumbersFit(o, fields) && |bits| == s.def.tagLength / 8
    ensures var r := OptionPins(o, |bits|, HeaderPin(s), fields, pins);
            MatchBits(BitFields(r.value, r.mask, s.def.tagLength), bits, s.def.tagLength) <==> Pinned(o, fields, bits)
  {
    hide WellFormedOption;
    var r := OptionPins(o, |bits|, HeaderPin(s), fields, pins);
    var b := BitFields(r.value, r.mask, s.def.tagLength);
    MatchBitsByBit(b, bits, s.def.tagLength);
    if Pinned(o, fields, bits) {
      forall j: nat | j < 8 * |bits| && BitAt(r.mask, j)
        ensures BitAt(bits, j) == BitAt(r.value, j)
      {
        PinnedBitAgrees(s, o, fields, pins, bits, j);
      }
    }
    if MatchBits(b, bits, s.def.tagLength) {
      AgreementPins(s, o, fields, pins, bits);
    }
  }

  lemma PinnedBitAgrees(s: Scheme, o: LayoutOption, fields: seq<FieldPattern>, pins: seq<BinaryLiteral>,
                        bits: seq<bv8>, j: nat)
    requires Pinnable(s, o, fields, pins) && |bits| == s.def.tagLength / 8 && j < s.def.tagLength
    requires Pinned(o, fields, bits) && BitAt(OptionPins(o, |bits|, HeaderPin(s), fields, pins).mask, j)
    ensures BitAt(bits, j) == BitAt(OptionPins(o, |bits|, HeaderPin(s), fields, pins).value, j)
  {
    hide WellFormedOption, OptionPins, ExactPins, StarSuffix;
    var isLiteral, k := BitOwner(s, o, j);
    if isLiteral {
      LiteralOwnsBit(s, o, k, j);
      LiteralPinned(s, o, fields, pins, k, j);
      NumSpells(bits, o.binaryLiterals[k].off, o.binaryLiterals[k].len);
    } else {
      FieldOwnsBit(s, o, k, j);
      NumSpells(bits, o.binaryFields[k].off, o.binaryFields[k].len);
      if fields[k].FieldAny? {
        StarUnpinned(s, o, fields, pins, k, j);
      } else {
        assert fields[k].FieldExact?;
        ExactPinned(s, o, fields, pins, k, j);
      }
    }
  }

  /** If every masked bit agrees, each literal and each exact field spells its number. */
  lemma AgreementPins(s: Scheme, o: LayoutOption, fields: seq<FieldPattern>, pins: seq<BinaryLiteral>, bits: seq<bv8>)
    requires Pinnable(s, o, fields, pins) && NumbersFit(o, fields) && |bits| == s.def.tagLength / 8
    requires Agrees(OptionPins(o, |bits|, HeaderPin(s), fields, pins), bits)
    ensures Pinned(o, fields, bits)
  {
    hide OptionPins, ExactPins, StarSuffix;
    forall k | 0 <= k < |o.binaryLiterals|
      ensures Num(bits, o.binaryLiterals[k].off, o.binaryLiterals[k].len) == o.binaryLiterals[k].value
    {
      AgreementLiteral(s, o, fields, pins, bits, k);
    }
    forall k | 0 <= k < |fields| && fields[k].FieldExact?
      ensures PinnedNumber(fields[k].text) == Some(FieldValues(o, bits)[k])
    {
      AgreementField(s, o, fields, pins, bits, k);
    }
  }

  /** The bits agree with the pins wherever the mask says so. */
  ghost predicate Agrees(r: Pins, bits: seq<bv8>)
    requires |r.value| == |r.mask| == |bits|
  {
    forall j: nat | j < 8 * |bits| :: BitAt(r.mask, j) ==> BitAt(bits, j) == BitAt(r.value, j)
  }

  lemma AgreementLiteral(s: Scheme, o: LayoutOption, fields: seq<FieldPattern>, pins: seq<BinaryLiteral>,
                         bits: seq<bv8>, k: nat)
    requires Pinnable(s, o, fields, pins) && |bits| == s.def.tagLength / 8 && k < |o.binaryLiterals|
    requires Agrees(OptionPins(o, |bits|, HeaderPin(s), fields, pins), bits)
    ensures Num(bits, o.binaryLiterals[k].off, o.binaryLiterals[k].len) == o.binaryLiterals[k].value
  {
    hide BinaryOption, PureOption, Contiguous, Sites, OptionPins, ExactPins, StarSuffix;
    var l := o.binaryLiterals[k];
    assert WellFormedLiteral(l, s.def.tagLength);
    hide WellFormedOption;
    CapacityIsPower(l.len);
    forall j: nat | l.off <= j < l.off + l.len
      ensures BitAt(bits, j) == NumBit(l.value, l.off + l.len - 1 - j)
    {
      assert InLiteral(o, k, j);
      LiteralOwnsBit(s, o, k, j);
      LiteralPinned(s, o, fields, pins, k, j);
    }
    NumOfBits(bits, l.off, l.len, l.value);
  }

  lemma AgreementField(s: Scheme, o: LayoutOption, fields: seq<FieldPattern>, pins: seq<BinaryLiteral>,
                       bits: seq<bv8>, k: nat)
    requires Pinnable(s, o, fields, pins) && NumbersFit(o, fields) && |bits| == s.def.tagLength / 8
    requires k < |fields| && fields[k].FieldExact?
    requires Agrees(OptionPins(o, |bits|, HeaderPin(s), fields, pins), bits)
    ensures PinnedNumber(fields[k].text) == Some(FieldValues(o, bits)[k])
  {
    hide WellFormedOption, OptionPins, ExactPins, StarSuffix, PinnedNumber;
    var f := o.binaryFields[k];
    var v := PinnedNumber(fields[k].text).value;
    forall j: nat | f.off <= j < f.off + f.len
      ensures BitAt(bits, j) == NumBit(v, f.off + f.len - 1 - j)
    {
      assert InField(o, k, j);
      FieldOwnsBit(s, o, k, j);
      ExactPinned(s, o, fields, pins, k, j);
    }
    NumOfBits(bits, f.off, f.len, v);
  }

  // ---------------------------------------------------- patterns and tags

  /** What compiling a tag pattern's parts establishes. */
  lemma CompiledTag(s: Scheme, parts: seq<string>, text: string, p: Pattern) returns (opt: Option<LayoutOption>)
    requires WellFormedScheme(s) && CompileTagParts(s, parts, text) == Success(p)
    ensures opt == OptionForPattern(s, parts, 1)
    ensures opt.Some? ==>
              WellFormedOption(s, opt.value) && |opt.value.binaryFields| == |opt.value.tagFields| == |parts| >= 2
    ensures opt.None? ==> AllAnyFrom(parts, 1) && |parts| == |s.def.options[0].tagFields|
    ensures |p.fields| == |parts|
    ensures var uriFields := if opt.Some? then opt.value.tagFields else s.def.options[0].tagFields;
            forall i | 0 <= i < |parts| :: PatternField(uriFields[i], parts[i], true) == Success(p.fields[i])
    ensures StarSuffix(p.fields) && WellFormedPattern(p)
    ensures PatternBits(s, opt, p.fields) == Success(p.bits)
    ensures p.level.LevelEncoding? && p.scheme == s.id
  {
    hide WellFormedOption, PatternBits, PatternField, PatternFields;
    TagUsable(s);
    opt := OptionForPattern(s, parts, 1);
    hide WellFormedScheme, OptionForPattern, NewPattern;
    NewPatternFacts(LevelEncoding, AuthorityGS1, s.keyType, s.id, p.fields, p.bits, text);
  }

  lemma NewPatternFacts(level: Level, authority: Authority, keyType: KeyType, scheme: SchemeID,
                        fields: seq<FieldPattern>, bits: Option<BitPattern>, text: string)
    ensures var r := NewPattern(level, authority, keyType, scheme, fields, bits, text);
            r.Success? ==>
              StarSuffix(fields) && r.value == Pattern(level, authority, keyType, scheme, fields, bits, text)
  {
    if NewPattern(level, authority, keyType, scheme, fields, bits, text).Success? {
      AcceptedStarSuffix(fields, false);
    }
  }

  /** An exact field's text is the rendering of the number it pins, which its bits can hold. */
  lemma ExactText(s: Scheme, o: LayoutOption, k: nat, text: string, f: FieldPattern)
    requires WellFormedOption(s, o) && k < |o.tagFields| == |o.binaryFields|
    requires PatternField(o.tagFields[k], text, true) == Success(f) && f.FieldExact?
    ensures f.text == text && WellFormedField(o.tagFields[k])
    ensures var n := PinnedNumber(text);
            n.Some? && n.value <= o.tagFields[k].max < Pow2(o.binaryFields[k].len) &&
              Render(o.tagFields[k], n.value) == text
  {
    hide TiledOption, PureOption;
    assert WellFormedBinary(o.binaryFields[k], o.tagFields[k], s.def.tagLength);
    CapacityIsPower(o.binaryFields[k].len);
    RenderOfParse(o.tagFields[k], text);
  }

  /** One field of a tag of the pattern's own option: matching text is a matching number. */
  lemma FieldMatches(s: Scheme, o: LayoutOption, k: nat, text: string, f: FieldPattern, values: seq<nat>)
    requires WellFormedOption(s, o) && k < |o.tagFields| == |o.binaryFields| && InRange(o, values)
    requires PatternField(o.tagFields[k], text, true) == Success(f) && !f.FieldRange?
    ensures MatchField(f, Components(o.tagFields, values)[k]) <==>
            (f.FieldExact? ==> PinnedNumber(f.text) == Some(values[k]))
  {
    hide WellFormedOption, ParseUint, Render;
    if f.FieldExact? {
      ExactText(s, o, k, text, f);
      ValueInRange(s, o, values, k);
      RenderInjective(o.tagFields[k], values[k], PinnedNumber(text).value);
    }
  }

  /** For a tag of the pattern's own option: pinned bits are matching texts. */
  lemma PinnedMatches(s: Scheme, o: LayoutOption, parts: seq<string>, p: Pattern, values: seq<nat>, bits: seq<bv8>)
    requires WellFormedOption(s, o) && |o.binaryFields| == |o.tagFields| == |parts| == |p.fields|
    requires forall i | 0 <= i < |parts| :: PatternField(o.tagFields[i], parts[i], true) == Success(p.fields[i])
    requires !HasRange(p.fields)
    requires Fits(o, |bits|) && LiteralsHold(o, bits) && values == FieldValues(o, bits) && InRange(o, values)
    ensures Pinned(o, p.fields, bits) <==> MatchComponents(p, Components(o.tagFields, values))
  {
    hide WellFormedOption, PatternField, MatchField, PinnedNumber, LiteralsHold, Fits, InRange, Components;
    assert |values| == |parts|;
    forall k | 0 <= k < |parts|
      ensures MatchField(p.fields[k], Components(o.tagFields, values)[k]) <==>
              (p.fields[k].FieldExact? ==> PinnedNumber(p.fields[k].text) == Some(values[k]))
    {
      FieldMatches(s, o, k, parts[k], p.fields[k], values);
    }
  }

  lemma ValueInRange(s: Scheme, o: LayoutOption, values: seq<nat>, k: nat)
    requires WellFormedOption(s, o) && InRange(o, values) && k < |values|
    ensures k < |o.tagFields| && values[k] <= o.tagFields[k].max && WellFormedField(o.tagFields[k])
  {
    hide TiledOption, PureOption;
    assert WellFormedBinary(o.binaryFields[k], o.tagFields[k], s.def.tagLength);
  }

  /** A tag of another option fails the bit test and the field test alike: partition and prefix length both differ. */
  lemma OtherOptionFails(s: Scheme, o: LayoutOption, o': LayoutOption, parts: seq<string>, p: Pattern,
                         values: seq<nat>, bits: seq<bv8>)
    requires WellFormedScheme(s) && o in s.def.options && o' in s.def.options && o != o'
    requires |o.tagFields| == |parts| == |p.fields| >= 2 && |parts[1]| == o.gcpLength
    requires p.fields[1] == FieldExact(p.fields[1].name, parts[1])
    requires WellFormedOption(s, o) && WellFormedOption(s, o') && Fits(o, |bits|) && Fits(o', |bits|)
    requires LiteralsHold(o', bits) && InRange(o', values) && |values| == |o'.tagFields|
    ensures !Pinned(o, p.fields, bits) && !MatchComponents(p, Components(o'.tagFields, values))
  {
    SchemeOption(s, o);
    SchemeOption(s, o');
    hide WellFormedScheme, BinaryOption, PureOption, Contiguous, Sites;
    assert o'.binaryLiterals[1] == BinaryLiteral(s.partitionOff, s.partitionLen, o'.partition);
    assert o.binaryLiterals[1] == BinaryLiteral(s.partitionOff, s.partitionLen, o.partition);
    hide WellFormedOption;
    PrefixText(s, o', values);
    assert o.partition != o'.partition && o.gcpLength != o'.gcpLength;
    assert Num(bits, s.partitionOff, s.partitionLen) == o'.partition by {
      assert Num(bits, o'.binaryLiterals[1].off, o'.binaryLiterals[1].len) == o'.binaryLiterals[1].value;
    }
    assert !LiteralsHold(o, bits) by {
      assert Num(bits, o.binaryLiterals[1].off, o.binaryLiterals[1].len) != o.binaryLiterals[1].value;
    }
    assert !MatchField(p.fields[1], Components(o'.tagFields, values)[1]);
  }

  /** The second field of a tag is its company prefix, as long as its option says. */
  lemma PrefixText(s: Scheme, o: LayoutOption, values: seq<nat>)
    requires WellFormedScheme(s) && WellFormedOption(s, o) && InRange(o, values) && |values| == |o.tagFields|
    ensures |o.tagFields| >= 2 && |Components(o.tagFields, values)[1].value| == o.gcpLength
  {
    OptionShape(s, o);
    hide WellFormedScheme, WellFormedOption;
    PrefixLength(s, o, values);
    TagTailIsPure(s, o, values);
    assert Components(o.tagFields, values)[1] == Components(o.tagFields, values)[1..][0];
  }

  /** Every option of a scheme has the same field names. */
  lemma SameNames(s: Scheme, o: LayoutOption, o': LayoutOption)
    requires WellFormedOption(s, o) && WellFormedOption(s, o')
    ensures |o.tagFields| == |o'.tagFields|
    ensures forall i | 0 <= i < |o.tagFields| :: o.tagFields[i].name == o'.tagFields[i].name
  {
    hide TiledOption;
    forall i | 0 < i < |o.tagFields|
      ensures o.tagFields[i].name == o'.tagFields[i].name
    {
      assert WellFormedPure(o.pureFields[i - 1], o.tagFields[i]);
      assert WellFormedPure(o'.pureFields[i - 1], o'.tagFields[i]);
      assert o.pureFields[i - 1].name == ComponentOrder(s.keyType)[i - 1] == o'.pureFields[i - 1].name;
    }
  }

  /** A pattern of stars only matches every tag of its scheme. */
  lemma StarsMatch(s: Scheme, o': LayoutOption, parts: seq<string>, p: Pattern, values: seq<nat>)
    requires WellFormedScheme(s) && WellFormedOption(s, o') && |values| == |o'.tagFields|
    requires |p.fields| == |parts| == |s.def.options[0].tagFields|
    requires forall i | 0 <= i < |parts| ::
             PatternField(s.def.options[0].tagFields[i], parts[i], true) == Success(p.fields[i])
    requires !HasRange(p.fields) && !Constrained(p.fields)
    ensures MatchComponents(p, Components(o'.tagFields, values))
  {
    SameNames(s, s.def.options[0], o');
    hide WellFormedScheme, WellFormedOption, PatternField;
    forall i | 0 <= i < |parts|
      ensures MatchField(p.fields[i], Components(o'.tagFields, values)[i])
    {
      assert p.fields[i].FieldAny?;
      StarName(s.def.options[0].tagFields[i], parts[i], p.fields[i]);
    }
  }

  lemma StarName(f: URIField, text: string, r: FieldPattern)
    requires PatternField(f, text, true) == Success(r)
    ensures r.name == f.name
  {
  }

  /** The header-only test accepts every tag of its scheme. */
  lemma HeaderAccepts(s: Scheme, o': LayoutOption, bits: seq<bv8>)
    requires WellFormedScheme(s) && WellFormedOption(s, o') && s.def.tagLength >= 8 && |bits| == s.def.tagLength / 8
    requires Fits(o', |bits|) && LiteralsHold(o', bits)
    ensures HeaderPattern(s).Success?
    ensures MatchBits(HeaderPattern(s).value, bits, s.def.tagLength)
  {
    hide LiteralsHold, Fits, MatchBits, BitAt, WellFormedOption;
    HeaderRead(s, o', bits);
    var b := HeaderPattern(s).value;
    hide HeaderPattern, WellFormedScheme;
    HeaderBits(s);
    NumSpells(bits, 0, 8);
    MatchBitsByBit(b, bits, s.def.tagLength);
    forall j: nat | j < 8 * |b.mask|
      ensures BitAt(bits, j) == BitAt(b.value, j)
    {
      assert BitAt(bits, j) == NumBit(s.def.header, 7 - j);
    }
  }

  /** A tag that holds an option's literals starts with the header. */
  lemma HeaderRead(s: Scheme, o': LayoutOption, bits: seq<bv8>)
    requires WellFormedOption(s, o') && s.def.headerBits == 8 && Fits(o', |bits|) && LiteralsHold(o', bits) &&
             |bits| >= 1
    ensures Num(bits, 0, 8) == s.def.header
  {
    hide BinaryOption, PureOption, Contiguous, Sites, Num;
    assert o'.binaryLiterals[0] == HeaderPin(s);
    hide WellFormedOption;
    assert Num(bits, o'.binaryLiterals[0].off, o'.binaryLiterals[0].len) == o'.binaryLiterals[0].value;
  }

  /** The header-only test holds the header's bits in one byte. */
  lemma HeaderBits(s: Scheme)
    requires WellFormedScheme(s) && s.def.tagLength >= 8
    ensures HeaderPattern(s).Success?
    ensures var b := HeaderPattern(s).value;
      && |b.value| == |b.mask| == 1 && b.bitLen == 8
      && forall j: nat | j < 8 :: BitAt(b.value, j) == NumBit(s.def.header, 7 - j)
  {
    hide WellFormedOption, NumBit, WriteLiterals;
    var n := s.def.tagLength / 8;
    var b := HeaderPattern(s).value;
    var whole := WriteLiterals(Zeros(n), [HeaderPin(s)], 1);
    forall j: nat | j < 8
      ensures BitAt(b.value, j) == NumBit(s.def.header, 7 - j)
    {
      LiteralsBit(Zeros(n), [HeaderPin(s)], 1, j);
      assert LiteralHas([HeaderPin(s)][0], j) <==> NumBit(s.def.header, 7 - j);
      assert BitAt(b.value, j) == BitAt(whole, j);
    }
  }

  /**
   * For every tag pattern that compiles to a bit test, and every tag of its scheme that decodes, the
   * value/mask test and the comparison of decimal text fields give the same answer.
   */
  lemma BitTestIsFieldTest(reg: Registry, text: string, p: Pattern, bits: seq<bv8>, bitLen: nat, t: Translation)
    requires CompileTagPattern(reg, text) == Success(p) && p.bits.Some?
    requires Decode(reg, bits, bitLen) == Success(t) && t.encoding.scheme == p.scheme
    ensures MatchBits(p.bits.value, t.encoding.bits, t.encoding.bitLen) <==> MatchComponents(p, t.encoding.fields)
  {
    hide WellFormedScheme, WellFormedOption, CompileTagParts, Decode;
    var (id, parts) := SplitPattern(text, TAG_PATTERN_PREFIX).value;
    var s := Lookup(reg, id).value;
    var opt := CompiledTag(s, parts, text, p);
    var s', o' := DecodeInversion(reg, bits, bitLen, t);
    LookupRegistered(reg, s');
    LookupRegistered(reg, s);
    assert s' == s;
    TagUsable(s);
    OptionShape(s, o');
    ReadPrefix(o', bits, s.def.tagLength / 8);
    TestOnOption(s, o', parts, text, p, opt, t.encoding.bits);
  }

  lemma TestOnOption(s: Scheme, o': LayoutOption, parts: seq<string>, text: string, p: Pattern,
                     opt: Option<LayoutOption>, bits: seq<bv8>)
    requires WellFormedScheme(s) && o' in s.def.options && WellFormedOption(s, o') && s.def.tagLength >= 8
    requires CompileTagParts(s, parts, text) == Success(p) && p.bits.Some? && opt == OptionForPattern(s, parts, 1)
    requires |bits| == s.def.tagLength / 8 && Fits(o', |bits|) && LiteralsHold(o', bits) &&
             InRange(o', FieldValues(o', bits))
    requires |o'.tagFields| == |o'.binaryFields|
    ensures MatchBits(p.bits.value, bits, s.def.tagLength) <==>
            MatchComponents(p, Components(o'.tagFields, FieldValues(o', bits)))
  {
    var values := FieldValues(o', bits);
    hide WellFormedScheme, WellFormedOption, CompileTagParts, OptionForPattern, Fits, LiteralsHold, InRange, Components;
    var _ := CompiledTag(s, parts, text, p);
    if opt.None? {
      hide PatternField, MatchComponents, HeaderPattern;
      HeaderAccepts(s, o', bits);
      StarsMatch(s, o', parts, p, values);
    } else {
      KnownOptionBits(s, opt.value, p);
      TestOnKnownOption(s, o', parts, p, opt.value, bits);
    }
  }

  lemma ExactNumbersFit(s: Scheme, o: LayoutOption, parts: seq<string>, p: Pattern)
    requires |o.binaryFields| == |o.tagFields| == |parts| == |p.fields|
    requires forall i | 0 <= i < |parts| :: PatternField(o.tagFields[i], parts[i], true) == Success(p.fields[i])
    requires WellFormedOption(s, o)
    ensures NumbersFit(o, p.fields)
  {
    hide WellFormedOption, PatternField;
    forall k | 0 <= k < |p.fields| && p.fields[k].FieldExact?
      ensures PinnedNumber(p.fields[k].text).Some? && PinnedNumber(p.fields[k].text).value < Pow2(o.binaryFields[k].len)
    {
      ExactText(s, o, k, parts[k], p.fields[k]);
    }
  }

  lemma KnownOptionBits(s: Scheme, o: LayoutOption, p: Pattern)
    requires |o.binaryFields| == |p.fields| && s.def.tagLength >= 8 && WellFormedScheme(s) && WellFormedOption(s, o)
    requires PatternBits(s, Some(o), p.fields) == Success(p.bits) && p.bits.Some?
    ensures s.def.tagLength % 8 == 0 && s.def.headerBits <= s.def.tagLength && Fits(o, s.def.tagLength / 8)
    ensures !HasRange(p.fields) &&
            OptionPattern(o, s.def.tagLength / 8, HeaderPin(s), p.fields) == Success(p.bits.value)
  {
    OptionFits(s, o);
  }

  /** The pins a compiled bit test was built from. */
  lemma CompiledPins(s: Scheme, o: LayoutOption, p: Pattern, n: nat) returns (pins: seq<BinaryLiteral>)
    requires |o.binaryFields| == |p.fields| && Fits(o, n) && !HasRange(p.fields) && StarSuffix(p.fields)
    requires s.def.headerBits <= 8 * n == s.def.tagLength && p.bits.Some?
    requires OptionPattern(o, n, HeaderPin(s), p.fields) == Success(p.bits.value) && WellFormedOption(s, o)
    ensures Pinnable(s, o, p.fields, pins) && ExactPins(o.binaryFields, p.fields) == Some(pins)
    ensures var r := OptionPins(o, n, HeaderPin(s), p.fields, pins); p.bits.value == BitFields(r.value, r.mask, 8 * n)
  {
    hide WellFormedOption, StarSuffix, HasRange, OptionPins, ExactPins;
    ExactPinsFit(o.binaryFields, p.fields, n);
    pins := ExactPins(o.binaryFields, p.fields).value;
    HeaderAndPinsFit(HeaderPin(s), pins, n);
  }

  lemma TestOnKnownOption(s: Scheme, o': LayoutOption, parts: seq<string>, p: Pattern, o: LayoutOption, bits: seq<bv8>)
    requires Fits(o, |bits|) && Fits(o', |bits|) && LiteralsHold(o', bits) && InRange(o', FieldValues(o', bits))
    requires |o'.tagFields| == |o'.binaryFields| && |o.binaryFields| == |o.tagFields| == |parts| == |p.fields| >= 2
    requires s.def.headerBits <= 8 * |bits| == s.def.tagLength && p.bits.Some?
    requires !HasRange(p.fields) && OptionPattern(o, |bits|, HeaderPin(s), p.fields) == Success(p.bits.value)
    requires StarSuffix(p.fields)
    requires forall i | 0 <= i < |parts| :: PatternField(o.tagFields[i], parts[i], true) == Success(p.fields[i])
    requires WellFormedScheme(s) && o' in s.def.options && WellFormedOption(s, o')
    requires OptionForPattern(s, parts, 1) == Some(o) && WellFormedOption(s, o)
    ensures MatchBits(p.bits.value, bits, s.def.tagLength) <==>
            MatchComponents(p, Components(o'.tagFields, FieldValues(o', bits)))
  {
    hide WellFormedScheme, WellFormedOption, LiteralsHold, InRange, Components, MatchComponents;
    var values := FieldValues(o', bits);
    hide FieldValues;
    hide ExactPins, OptionPins, PinnedNumber, Pinnable, OptionPattern, Fits, LiteralsFit, StarSuffix, PatternField;
    hide Pinned;
    var pins := CompiledPins(s, o, p, |bits|);
    ExactNumbersFit(s, o, parts, p);
    TestMeansPinned(s, o, p.fields, pins, bits);
    if o == o' {
      PinnedMatches(s, o, parts, p, values, bits);
    } else {
      assert PatternField(o.tagFields[1], parts[1], true) == Success(p.fields[1]);
      OtherOptionFails(s, o, o', parts, p, values, bits);
    }
  }

  // ------------------------------------------------------ the compiler's loops

  /** Pinning one run in both buffers. */
  method Pin(value: array<bv8>, mask: array<bv8>, l: BinaryLiteral, ghost done: seq<BinaryLiteral>, ghost start: Pins)
    requires value != mask && value.Length == mask.Length && l.off + l.len <= 8 * value.Length
    requires |start.value| == |start.mask| == value.Length && LiteralsFit(done, value.Length)
    requires LiteralsFit(done + [l], value.Length)
    requires Pins(value[..], mask[..]) == PinAll(start, done, value.Length, |done|)
    modifies value, mask
    ensures Pins(value[..], mask[..]) == PinAll(start, done + [l], value.Length, |done| + 1)
  {
    hide BitAt, NumBit;
    WriteLiteralsPrefix(start.value, done, [l], |done|);
    WriteLiteralsPrefix(start.mask, Ones(done), Ones([l]), |done|);
    assert Ones(done + [l]) == Ones(done) + Ones([l]);
    SetBits(value, l.off, l.len, l.value);
    SetBits(mask, l.off, l.len, Pow2(l.len) - 1);
  }

  /** Literals beyond the first k do not matter to the first k writes. */
  lemma {:induction false} WriteLiteralsPrefix(data: seq<bv8>, a: seq<BinaryLiteral>, b: seq<BinaryLiteral>, k: nat)
    requires k <= |a| && LiteralsFit(a, |data|) && LiteralsFit(a + b, |data|)
    ensures WriteLiterals(data, a + b, k) == WriteLiterals(data, a, k)
  {
    if k > 0 {
      WriteLiteralsPrefix(data, a, b, k - 1);
    }
  }

  /** Clearing one bit in both buffers. */
  method ClearBoth(value: array<bv8>, mask: array<bv8>, bit: nat)
    requires value != mask && value.Length == mask.Length && bit < 8 * value.Length
    modifies value, mask
    ensures value[..] == ClearBit(old(value[..]), bit) && mask[..] == ClearBit(old(mask[..]), bit)
  {
    value[bit / 8] := value[bit / 8] & !Unit(bit % 8);
    mask[bit / 8] := mask[bit / 8] & !Unit(bit % 8);
  }

  /** Clearing a run bit by bit in both buffers. */
  method ClearBits(value: array<bv8>, mask: array<bv8>, start: nat, end: nat)
    requires value != mask && value.Length == mask.Length && start <= end <= 8 * value.Length
    modifies value, mask
    ensures value[..] == ClearRun(old(value[..]), start, end) && mask[..] == ClearRun(old(mask[..]), start, end)
  {
    hide BitAt, ClearBit;
    ghost var v, m := value[..], mask[..];
    var bit := start;
    while bit < end
      invariant start <= bit <= end
      invariant value[..] == ClearRun(v, start, bit) && mask[..] == ClearRun(m, start, bit)
    {
      ClearBoth(value, mask, bit);
      bit := bit + 1;
    }
  }

  /** Pinning the header and the exact fields, noting where the first star begins; None when a text is not a number. */
  method PinFields(o: LayoutOption, value: array<bv8>, mask: array<bv8>, header: BinaryLiteral,
                   fields: seq<FieldPattern>)
    returns (covered: Option<nat>)
    requires value != mask && value.Length == mask.Length
    requires value[..] == Zeros(value.Length) && mask[..] == Zeros(value.Length)
    requires |o.binaryFields| == |fields| && Fits(o, value.Length) && header.off + header.len <= 8 * value.Length
    requires !HasRange(fields)
    modifies value, mask
    ensures covered.None? <==> ExactPins(o.binaryFields, fields).None?
    ensures covered.Some? ==> var pins := ExactPins(o.binaryFields, fields).value;
      && covered.value == CoveredEnd(o.binaryFields, fields, 8 * value.Length)
      && LiteralsFit([header] + pins, value.Length)
      && Pins(value[..], mask[..]) == FirstRound(header, pins, value.Length)
  {
    hide PinnedNumber, BitAt, LiteralsFit, WriteLiterals, Fits;
    var n := value.Length;
    ghost var start := Pins(Zeros(n), Zeros(n));
    NothingPinned(header, n);
    Pin(value, mask, header, [], start);
    hide PinAll;
    ghost var done := [header];
    assert [] + [header] == done;
    var end: nat := 8 * n;
    ghost var bfs := o.binaryFields;
    assert bfs[0..] == bfs && fields[0..] == fields;
    NothingPrepended(done, ExactPins(bfs, fields));
    hide CoveredEnd, PrependPins, ExactPins;
    for i := 0 to |fields|
      invariant |done| >= 1 && LiteralsFit(done, n) && end <= 8 * n
      invariant Pins(value[..], mask[..]) == PinAll(start, done, n, |done|)
      invariant ExactPins(bfs, fields) == PrependPins(done[1..], ExactPins(bfs[i..], fields[i..]))
      invariant done[0] == header
      invariant CoveredEnd(bfs, fields, 8 * n) == Min(end, CoveredEnd(bfs[i..], fields[i..], 8 * n))
    {
      Unrolled(bfs, fields, i, 8 * n);
      FieldFits(o, i, n);
      var bf := o.binaryFields[i];
      match fields[i]
      case FieldExact(_, text) =>
        var number := PinnedNumber(text);
        if number.None? {
          return None;
        }
        var l := BinaryLiteral(bf.off, bf.len, number.value);
        OneMoreFits(done, l, n);
        Pin(value, mask, l, done, start);
        TailOfAppend(done, l);
        PrependStep(done[1..], l, ExactPins(bfs[i + 1..], fields[i + 1..]));
        done := done + [l];
      case _ =>
        if bf.off < end {
          end := bf.off;
        }
    }
    Finished(bfs, fields, done, header, 8 * n);
    return Some(end);
  }

  /** What one more field adds to the pins and to the first star's start. */
  lemma NothingPinned(header: BinaryLiteral, n: nat)
    requires header.off + header.len <= 8 * n
    ensures LiteralsFit([], n) && LiteralsFit([header], n) && [] + [header] == [header]
    ensures PinAll(Pins(Zeros(n), Zeros(n)), [], n, 0) == Pins(Zeros(n), Zeros(n))
  {
  }

  lemma FieldFits(o: LayoutOption, i: nat, n: nat)
    requires Fits(o, n) && i < |o.binaryFields|
    ensures o.binaryFields[i].off + o.binaryFields[i].len <= 8 * n
  {
  }

  lemma OneMoreFits(done: seq<BinaryLiteral>, l: BinaryLiteral, n: nat)
    requires LiteralsFit(done, n) && l.off + l.len <= 8 * n
    ensures LiteralsFit(done + [l], n)
  {
  }

  lemma Unrolled(bfs: seq<BinaryField>, fields: seq<FieldPattern>, i: nat, bound: nat)
    requires |bfs| == |fields| && i < |fields| && !HasRange(fields)
    ensures !fields[i].FieldRange?
    ensures var tail := ExactPins(bfs[i + 1..], fields[i + 1..]);
            ExactPins(bfs[i..], fields[i..]) ==
            if !fields[i].FieldExact? then tail
            else if PinnedNumber(fields[i].text).None? then None
            else PrependPins([BinaryLiteral(bfs[i].off, bfs[i].len, PinnedNumber(fields[i].text).value)], tail)
    ensures var rest := CoveredEnd(bfs[i + 1..], fields[i + 1..], bound);
            CoveredEnd(bfs[i..], fields[i..], bound) == if fields[i].FieldAny? then Min(bfs[i].off, rest) else rest
  {
    assert bfs[i..][1..] == bfs[i + 1..] && fields[i..][1..] == fields[i + 1..];
    hide PinnedNumber;
  }

  lemma NothingPrepended(done: seq<BinaryLiteral>, tail: Option<seq<BinaryLiteral>>)
    requires |done| == 1
    ensures tail == PrependPins(done[1..], tail)
  {
    if tail.Some? {
      assert done[1..] + tail.value == tail.value;
    }
  }

  lemma Finished(bfs: seq<BinaryField>, fields: seq<FieldPattern>, done: seq<BinaryLiteral>, header: BinaryLiteral,
                 bound: nat)
    requires |bfs| == |fields| && |done| >= 1 && done[0] == header
    requires ExactPins(bfs, fields) == PrependPins(done[1..], ExactPins(bfs[|fields|..], fields[|fields|..]))
    ensures ExactPins(bfs, fields).Some? && done == [header] + ExactPins(bfs, fields).value
    ensures CoveredEnd(bfs[|fields|..], fields[|fields|..], bound) == bound
  {
    assert fields[|fields|..] == [];
    assert ExactPins(bfs, fields) == Some(done[1..] + []);
    assert done == [header] + done[1..];
  }

  function PrependPins(head: seq<BinaryLiteral>, tail: Option<seq<BinaryLiteral>>): Option<seq<BinaryLiteral>> {
    if tail.None? then None else Some(head + tail.value)
  }

  lemma TailOfAppend(xs: seq<BinaryLiteral>, l: BinaryLiteral)
    requires |xs| >= 1
    ensures (xs + [l])[1..] == xs[1..] + [l]
  {
  }

  lemma PrependStep(head: seq<BinaryLiteral>, l: BinaryLiteral, tail: Option<seq<BinaryLiteral>>)
    ensures PrependPins(head, PrependPins([l], tail)) == PrependPins(head + [l], tail)
  {
    if tail.Some? {
      assert head + ([l] + tail.value) == head + [l] + tail.value;
    }
  }

  /** Pinning the literals again, wherever they sit. */
  method PinLiterals(o: LayoutOption, value: array<bv8>, mask: array<bv8>)
    requires value != mask && value.Length == mask.Length && Fits(o, value.Length)
    modifies value, mask
    ensures Pins(value[..], mask[..]) ==
            PinAll(Pins(old(value[..]), old(mask[..])), o.binaryLiterals, value.Length, |o.binaryLiterals|)
  {
    ghost var start := Pins(value[..], mask[..]);
    for i := 0 to |o.binaryLiterals|
      invariant Pins(value[..], mask[..]) == PinAll(start, o.binaryLiterals[..i], value.Length, i)
    {
      Pin(value, mask, o.binaryLiterals[i], o.binaryLiterals[..i], start);
      assert o.binaryLiterals[..i] + [o.binaryLiterals[i]] == o.binaryLiterals[..i + 1];
    }
    assert o.binaryLiterals[..|o.binaryLiterals|] == o.binaryLiterals;
  }

  /** The option's test as the source builds it, in place. */
  method BuildOptionTest(o: LayoutOption, n: nat, header: BinaryLiteral, fields: seq<FieldPattern>)
    returns (r: Option<Pins>)
    requires |o.binaryFields| == |fields| && Fits(o, n) && header.off + header.len <= 8 * n
    requires !HasRange(fields)
    ensures r.None? <==> ExactPins(o.binaryFields, fields).None?
    ensures r.Some? ==> LiteralsFit([header] + ExactPins(o.binaryFields, fields).value, n)
    ensures r.Some? ==> r.value == OptionPins(o, n, header, fields, ExactPins(o.binaryFields, fields).value)
  {
    hide PinAll, FirstRound, ExactPins, CoveredEnd;
    var value, mask := new bv8[n](_ => 0), new bv8[n](_ => 0);
    assert value[..] == Zeros(n) && mask[..] == Zeros(n);
    var covered := PinFields(o, value, mask, header, fields);
    if covered.None? {
      return None;
    }
    ClearBits(value, mask, covered.value, 8 * n);
    PinLiterals(o, value, mask);
    return Some(Pins(value[..], mask[..]));
  }

  function Min(a: nat, b: nat): nat {
    if a < b then a else b
  }
}
