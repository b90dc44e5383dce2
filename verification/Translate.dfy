/** The translation boundary: PC word dispatch (internal/tdt/tdt.go; Gen2 Release 3.0.1, section 6.3.2.1.2.2). */
module Translate {
  import opened Wrappers
  import opened Bits
  import opened Identity
  import opened Layout
  import SchemeTable
  import Gs1Codec
  import Iso

  datatype Format = FormatUnknown | FormatGS1 | FormatISO

  /** Tag memory; a bitLen of zero asks for the length to be derived. */
  datatype Input = Input(bits: seq<bv8>, bitLen: nat, pc: Option<nat>, afi: Option<nat>)

  // ----------------------------------------------------------- the PC word

  /** Bits 10h-14h: the length in words. */
  function PCWords(pc: nat): nat {
    pc / 0x800 % 32
  }

  /** Bit 16h: extended protocol control follows. */
  predicate PCExtended(pc: nat) {
    pc / 0x200 % 2 == 1
  }

  /** Bit 17h: the numbering system is not GS1's. */
  predicate PCToggle(pc: nat) {
    pc / 0x100 % 2 == 1
  }

  /** Bits 18h-1Fh. */
  function PCAFI(pc: nat): nat {
    pc % 0x100
  }

  /** The StoredPC word of an encoding; the length is shifted in sixteen bits, so it wraps at 32 words. */
  function ProtocolControl(e: Encoding): (pc: nat)
    ensures (e.control.IsoControl? ==> e.control.afi < 0x100) ==> pc < 0x1_0000
  {
    var words := (e.bitLen + 15) / 16 % 32 * 0x800;
    match e.control
    case Gs1Control(_, _, _) => words
    case IsoControl(_, _, afi) => words + 0x100 + afi
  }

  lemma PCFields(words: nat, afi: nat)
    requires words < 32 && afi < 0x100
    ensures var pc := words * 0x800; PCWords(pc) == words && !PCExtended(pc) && !PCToggle(pc)
    ensures var pc := words * 0x800 + 0x100 + afi;
            PCWords(pc) == words && !PCExtended(pc) && PCToggle(pc) && PCAFI(pc) == afi
  {
    var pc := words * 0x800 + 0x100 + afi;
    DivUnique(pc, 0x800, words, 0x100 + afi);
    DivUnique(pc, 0x200, words * 4, 0x100 + afi);
    DivUnique(pc, 0x100, words * 8 + 1, afi);
  }

  // ------------------------------------------------------------ translation

  /** The number of significant bits, from the PC word where there is one. */
  function SignificantBits(i: Input): Result<nat, Error> {
    if i.pc.Some? && PCExtended(i.pc.value) then Failure(XPCPresent)
    else
      var declared := if i.pc.Some? then PCWords(i.pc.value) * 16 else 0;
      if i.pc.Some? && declared == 0 then Failure(Truncated)
      else if i.pc.Some? && i.bitLen != 0 && i.bitLen != declared then Failure(LengthMismatch)
      else
        var n := if i.bitLen == 0 && i.pc.Some? then declared else i.bitLen;
        var bitLen := if n == 0 then 8 * |i.bits| else n;
        if bitLen == 0 || 8 * |i.bits| < bitLen then Failure(Truncated) else Success(bitLen)
  }

  function TranslateTag(reg: Registry, defaultFormat: Format, i: Input): Result<Translation, Error> {
    var bitLen :- SignificantBits(i);
    var format := if i.pc.None? then defaultFormat else if PCToggle(i.pc.value) then FormatISO else FormatGS1;
    var afi := if i.afi.None? && i.pc.Some? && PCToggle(i.pc.value) then Some(PCAFI(i.pc.value)) else i.afi;
    match format
    case FormatGS1 => Gs1Codec.Decode(reg, i.bits, bitLen)
    case FormatISO => if afi.None? then Failure(UnrecognisedNonGS1) else Iso.Decode(i.bits, bitLen, afi.value)
    case FormatUnknown => Failure(AmbiguousEncoding)
  }

  // ------------------------------------------------- what the PC word decides

  /** The ranges of the input's machine words. */
  predicate InputRange(i: Input) {
    (i.pc.Some? ==> i.pc.value < 0x1_0000) && (i.afi.Some? ==> i.afi.value < 0x100)
  }

  lemma PCLength(pc: nat)
    requires pc < 0x1_0000
    ensures PCWords(pc) == pc / 0x800 < 32
  {
  }

  /** With a PC word that announces no extension and declares the data's length, only its first bytes are decoded. */
  lemma UnderPC(reg: Registry, defaultFormat: Format, i: Input)
    requires InputRange(i) && i.pc.Some? && i.pc.value / 0x200 % 2 == 0
    requires var n := 2 * (i.pc.value / 0x800); 0 < n <= |i.bits| && (i.bitLen == 0 || i.bitLen == 8 * n)
    ensures var pc, n := i.pc.value, 2 * (i.pc.value / 0x800);
            TranslateTag(reg, defaultFormat, i) ==
              if pc / 0x100 % 2 == 0 then Gs1Codec.Decode(reg, i.bits[..n], 8 * n)
              else Iso.Decode(i.bits[..n], 8 * n, if i.afi.Some? then i.afi.value else pc % 0x100)
  {
    hide Gs1Codec.Decode, Iso.Decode;
    var pc := i.pc.value;
    PCLength(pc);
    hide PCWords;
    var n := 2 * (pc / 0x800);
    Gs1Codec.DecodePrefix(reg, i.bits, 8 * n, n);
    Iso.DecodePrefix(i.bits, 8 * n, if i.afi.Some? then i.afi.value else pc % 0x100, n);
  }

  /** Without a PC word the default format decides, over the given length or all of the bits. */
  lemma WithoutPC(reg: Registry, defaultFormat: Format, i: Input)
    requires i.pc.None?
    ensures var n := if i.bitLen == 0 then 8 * |i.bits| else i.bitLen;
            TranslateTag(reg, defaultFormat, i) ==
              if n == 0 || n > 8 * |i.bits| then Failure(Truncated)
              else if defaultFormat.FormatUnknown? then Failure(AmbiguousEncoding)
              else if defaultFormat.FormatGS1? then Gs1Codec.Decode(reg, i.bits, n)
              else if i.afi.None? then Failure(UnrecognisedNonGS1)
              else Iso.Decode(i.bits, n, i.afi.value)
  {
    hide Gs1Codec.Decode, Iso.Decode;
  }

  /** The given length contradicts the PC word's. */
  predicate Contradicts(i: Input) {
    i.pc.Some? && i.pc.value / 0x200 % 2 == 0 && i.pc.value / 0x800 != 0 && i.bitLen != 0 &&
      i.bitLen != 16 * (i.pc.value / 0x800)
  }

  /** The PC word declares no data, or more than there is. */
  predicate FallsShort(i: Input) {
    i.pc.Some? && i.pc.value / 0x200 % 2 == 0 && !Contradicts(i) &&
      (i.pc.value / 0x800 == 0 || 2 * (i.pc.value / 0x800) > |i.bits|)
  }

  /**
   * What is refused before any data is decoded: extended protocol control, a length that contradicts the PC word, less
   * data than it declares, and, when nothing names the numbering system, every tag. Past that a length error can only
   * mean more than fifty characters.
   */
  lemma TranslateRefuses(reg: Registry, defaultFormat: Format, i: Input)
    requires InputRange(i)
    ensures var r := TranslateTag(reg, defaultFormat, i);
      && (r == Failure(XPCPresent) <==> i.pc.Some? && i.pc.value / 0x200 % 2 == 1)
      && (Contradicts(i) ==> r == Failure(LengthMismatch))
      && (r == Failure(LengthMismatch) && i.pc.Some? && !Contradicts(i) ==>
            i.pc.value / 0x100 % 2 == 1 && i.pc.value / 0x800 * 16 / 6 > 50)
      && (r == Failure(LengthMismatch) && i.pc.None? ==> defaultFormat.FormatISO? && 8 * |i.bits| / 6 > 50)
      && (FallsShort(i) ==> r == Failure(Truncated))
      && (r == Failure(AmbiguousEncoding) ==> i.pc.None? && defaultFormat.FormatUnknown?)
      && (i.pc.None? && defaultFormat.FormatUnknown? ==> r == Failure(AmbiguousEncoding) || r == Failure(Truncated))
  {
    hide Gs1Codec.Decode, Iso.Decode;
    if i.pc.None? {
      WithoutPC(reg, defaultFormat, i);
      DecodersRefuse(reg, i.bits, if i.bitLen == 0 then 8 * |i.bits| else i.bitLen, if i.afi.Some? then i.afi.value
      else 0);
    } else {
      var pc := i.pc.value;
      PCLength(pc);
      hide PCWords;
      var n := 2 * (pc / 0x800);
      if pc / 0x200 % 2 == 0 && 0 < n <= |i.bits| && (i.bitLen == 0 || i.bitLen == 8 * n) {
        UnderPC(reg, defaultFormat, i);
        DecodersRefuse(reg, i.bits[..n], 8 * n, if i.afi.Some? then i.afi.value else pc % 0x100);
      }
    }
  }

  /** Neither decoder reports what only the PC word can be refused for. */
  lemma DecodersRefuse(reg: Registry, bits: seq<bv8>, bitLen: nat, afi: nat)
    ensures var r := Gs1Codec.Decode(reg, bits, bitLen);
            r.Failure? ==> !r.error.XPCPresent? && !r.error.LengthMismatch? && !r.error.AmbiguousEncoding?
    ensures var r := Iso.Decode(bits, bitLen, afi);
            r.Failure? ==>
              && !r.error.XPCPresent? && !r.error.AmbiguousEncoding?
              && (r.error.LengthMismatch? ==> bitLen / 6 > 50 && 8 * |bits| >= bitLen)
  {
    hide Gs1Codec.Decode, Iso.Decode, Iso.Constructs;
    var g, r := Gs1Codec.Decode(reg, bits, bitLen), Iso.Decode(bits, bitLen, afi);
    if g.Failure? {
      Gs1Codec.DecodeRefuses(reg, bits, bitLen, g.error);
    }
    if r.Failure? {
      Iso.DecodeRefuses(bits, bitLen, afi, r.error);
    }
  }

  /**
   * A tag translated under a PC word has no extended protocol control and at least the declared data, of which nothing
   * beyond is looked at; the toggle bit says whether it is GS1 data, and other data is read under the caller's
   * application family identifier where there is one, else under the PC word's.
   */
  lemma TranslateAccepts(reg: Registry, defaultFormat: Format, i: Input, t: Translation)
    requires InputRange(i) && i.pc.Some? && TranslateTag(reg, defaultFormat, i) == Success(t)
    ensures i.pc.value / 0x200 % 2 == 0
    ensures var n := 2 * (i.pc.value / 0x800); 0 < n <= |i.bits| && (i.bitLen == 0 || i.bitLen == 8 * n)
    ensures forall more: seq<bv8> ::
              TranslateTag(reg, defaultFormat, i.(bits := i.bits[..2 * (i.pc.value / 0x800)] + more)) == Success(t)
    ensures t.encoding.control.Gs1Control? <==> i.pc.value / 0x100 % 2 == 0
    ensures t.encoding.bitLen <= 16 * (i.pc.value / 0x800)
    ensures t.encoding.control.IsoControl? ==>
              t.encoding.control.afi == if i.afi.Some? then i.afi.value else i.pc.value % 0x100
  {
    hide Gs1Codec.Decode, Iso.Decode;
    PCLength(i.pc.value);
    hide PCWords;
    var n := 2 * (i.pc.value / 0x800);
    UnderPC(reg, defaultFormat, i);
    forall more: seq<bv8>
      ensures TranslateTag(reg, defaultFormat, i.(bits := i.bits[..n] + more)) == Success(t)
    {
      assert (i.bits[..n] + more)[..n] == i.bits[..n];
      UnderPC(reg, defaultFormat, i.(bits := i.bits[..n] + more));
    }
    hide TranslateTag;
    if i.pc.value / 0x100 % 2 == 0 {
      var s, o := Gs1Codec.DecodeInversion(reg, i.bits[..n], 8 * n, t);
    } else {
      IsoControls(i.bits[..n], 8 * n, if i.afi.Some? then i.afi.value else i.pc.value % 0x100, t);
    }
  }

  lemma IsoControls(bits: seq<bv8>, bitLen: nat, afi: nat, t: Translation)
    requires Iso.Decode(bits, bitLen, afi) == Success(t)
    ensures t.encoding.control.IsoControl? && t.encoding.control.afi == afi && t.encoding.bitLen == bitLen
  {
    hide Iso.Decode;
    var text, di, body := Iso.DecodeInversion(bits, bitLen, afi, t);
  }

  // ----------------------------------------------------------- round trips

  /** The input a written tag presents: its bits and its own PC word, the length left to the PC word. */
  function Stored(e: Encoding): Input {
    Input(e.bits, 0, Some(ProtocolControl(e)), None)
  }

  /** A PC word of whole words, at most 31, tells the encoding's length. */
  lemma StoredLength(e: Encoding)
    requires e.bitLen == 8 * |e.bits| && e.bitLen % 16 == 0 && 0 < e.bitLen <= 31 * 16
    requires e.control.IsoControl? ==> e.control.afi < 0x100
    ensures SignificantBits(Stored(e)) == Success(e.bitLen)
    ensures ProtocolControl(e) == e.bitLen / 16 * 0x800 + if e.control.IsoControl? then 0x100 + e.control.afi else 0
    ensures PCToggle(ProtocolControl(e)) <==> e.control.IsoControl?
    ensures e.control.IsoControl? ==> PCAFI(ProtocolControl(e)) == e.control.afi
  {
    var words := e.bitLen / 16;
    assert e.bitLen == 16 * words && words < 32;
    DivUnique(e.bitLen + 15, 16, words, 15);
    PCFields(words, if e.control.IsoControl? then e.control.afi else 0);
    hide PCWords, PCExtended, PCToggle, PCAFI;
  }

  /** A written ISO identity translates back to itself through its own PC word, whatever the default format. */
  lemma TranslateOfIso(reg: Registry, defaultFormat: Format, v: Value, scheme: SchemeID, t: Translation)
    requires Built(v) && Iso.Encode(v, scheme) == Success(t)
    ensures TranslateTag(reg, defaultFormat, Stored(t.encoding)) == Success(t) && t.identity == v
    ensures t.encoding.bitLen <= 18 * 16 && !PCExtended(ProtocolControl(t.encoding))
  {
    hide Iso.Encode, Iso.Decode, Gs1Codec.Decode, PCWords, PCExtended, PCToggle, PCAFI, SignificantBits;
    hide ProtocolControl, Built;
    Iso.DecodeOfEncode(v, scheme, t);
    StoredLength(t.encoding);
    StoredPlain(t.encoding);
  }

  /** The StoredPC word never announces extended protocol control. */
  lemma StoredPlain(e: Encoding)
    requires e.control.IsoControl? ==> e.control.afi < 0x100
    ensures !PCExtended(ProtocolControl(e))
  {
    PCFields((e.bitLen + 15) / 16 % 32, if e.control.IsoControl? then e.control.afi else 0);
  }

  /** Every generated scheme writes 96 bits. */
  lemma TableTags(s: Scheme)
    requires s in SchemeTable.SCHEMES
    ensures s.def.tagLength == 96
  {
  }

  function GeneratedRegistry(): Registry {
    SchemeTable.TableWellFormed();
    SchemeTable.SCHEMES
  }

  /** A written GS1 identity translates back to itself, filter and all, through its own PC word. */
  lemma TranslateOfGs1(defaultFormat: Format, v: Value, id: SchemeID, filter: nat, t: Translation)
    requires filter < 256 && Gs1Codec.Encode(GeneratedRegistry(), v, id, filter) == Success(t)
    ensures TranslateTag(GeneratedRegistry(), defaultFormat, Stored(t.encoding)) == Success(t)
    ensures t.identity == v && Gs1Codec.WrittenFilter(t.encoding) == Some(filter) && t.encoding.bitLen == 96
  {
    hide Iso.Decode, Gs1Codec.Encode, Gs1Codec.Decode, PCWords, PCExtended, PCToggle, PCAFI, SignificantBits;
    hide ProtocolControl;
    hide GeneratedRegistry, WellFormedScheme, WellFormedOption, Gs1Codec.InRange, Gs1Codec.SchemeBits;
    hide Gs1Codec.OptionForValue;
    var reg := GeneratedRegistry();
    Gs1Codec.DecodeOfEncode(reg, v, id, filter, t);
    var s, o, values := Gs1Codec.EncodeInversion(reg, v, id, filter, t);
    GeneratedTags(s);
    StoredLength(t.encoding);
  }

  lemma GeneratedTags(s: Scheme)
    requires s in GeneratedRegistry()
    ensures s.def.tagLength == 96
  {
    TableTags(s);
  }
}
