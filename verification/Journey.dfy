/**
 * From written identities over the emulator's reports and the reader's observations back to identities
 * (internal/emulator/reports.go, internal/reader/protocol.go, internal/app/tagstrak/translate.go, internal/tdt/tdt.go).
 */
module Journey {
  import opened Wrappers
  import opened Identity
  import opened Layout
  import opened LlrpCodec
  import opened ReportPacking
  import Gs1Codec
  import Iso
  import Translate

  /** Tag memory as the bytes of a report. */
  function Octets(bits: seq<bv8>): (b: Bytes)
    ensures |b| == |bits|
  {
    seq(|bits|, i requires 0 <= i < |bits| => bits[i] as Octet)
  }

  function BitsOf(b: Bytes): (bits: seq<bv8>)
    ensures |bits| == |b|
  {
    seq(|b|, i requires 0 <= i < |b| => b[i] as bv8)
  }

  lemma BitsOfOctets(bits: seq<bv8>)
    ensures BitsOf(Octets(bits)) == bits
  {
  }

  /** An observation as the translator's input. */
  function InputOf(o: Observation): Translate.Input {
    Translate.Input(BitsOf(o.epc), 8 * |o.epc|, o.pc, None)
  }

  /** A translation the GS1 encoder gave for an identity and a filter value. */
  ghost predicate Written(t: Translation) {
    exists v: Value, id: SchemeID, filter: nat :: WrittenAs(t, v, id, filter)
  }

  ghost predicate WrittenAs(t: Translation, v: Value, id: SchemeID, filter: nat) {
    filter < 256 && Gs1Codec.Encode(Translate.GeneratedRegistry(), v, id, filter) == Success(t)
  }

  /** The bytes of written tags. */
  function TagsOf(ts: seq<Translation>): (tags: seq<Bytes>)
    ensures |tags| == |ts| && forall i | 0 <= i < |ts| :: tags[i] == Octets(ts[i].encoding.bits)
  {
    seq(|ts|, i requires 0 <= i < |ts| => Octets(ts[i].encoding.bits))
  }

  lemma {:induction false} SightingAt(tags: seq<Bytes>, k: nat)
    requires AllValid(tags) && k < |tags|
    ensures Sightings(tags)[k] == Observation(tags[k], Some(PCWord(tags[k])))
  {
    if k < |tags| - 1 {
      SightingAt(tags[..|tags| - 1], k);
    }
  }

  /** A written tag has twelve bytes and decodes to its translation. */
  lemma WrittenTag(t: Translation)
    requires Written(t)
    ensures |t.encoding.bits| == 12
    ensures Gs1Codec.Decode(Translate.GeneratedRegistry(), t.encoding.bits, 96) == Success(t)
  {
    hide Gs1Codec.Encode, Gs1Codec.Decode, Translate.GeneratedRegistry, Gs1Codec.InRange, Gs1Codec.SchemeBits;
    hide Gs1Codec.OptionForValue;
    var v, id, filter: nat :| WrittenAs(t, v, id, filter);
    Gs1Codec.DecodeOfEncode(Translate.GeneratedRegistry(), v, id, filter, t);
    var s, o, values := Gs1Codec.EncodeInversion(Translate.GeneratedRegistry(), v, id, filter, t);
    Translate.GeneratedTags(s);
  }

  /** The observation of a written tag translates back to it. */
  lemma ObservedTag(t: Translation, defaultFormat: Translate.Format)
    requires Written(t)
    ensures ValidTag(Octets(t.encoding.bits))
    ensures var tag := Octets(t.encoding.bits);
            Translate.TranslateTag(Translate.GeneratedRegistry(), defaultFormat,
                                   InputOf(Observation(tag, Some(PCWord(tag))))) == Success(t)
  {
    hide Gs1Codec.Decode, Translate.GeneratedRegistry, Translate.TranslateTag, Written;
    WrittenTag(t);
    TwelveBytes(Translate.GeneratedRegistry(), t.encoding.bits, defaultFormat);
  }

  /** Twelve bytes under the PC word the emulator gives them are read as GS1 data. */
  lemma TwelveBytes(reg: Registry, bits: seq<bv8>, defaultFormat: Translate.Format)
    requires |bits| == 12
    ensures ValidTag(Octets(bits)) && PCWord(Octets(bits)) == 0x3000
    ensures Translate.TranslateTag(reg, defaultFormat, InputOf(Observation(Octets(bits), Some(0x3000)))) ==
            Gs1Codec.Decode(reg, bits, 96)
  {
    hide Gs1Codec.Decode, Translate.TranslateTag, Octets, BitsOf;
    BitsOfOctets(bits);
    assert InputOf(Observation(Octets(bits), Some(0x3000))) == Translate.Input(bits, 96, Some(0x3000), None);
    hide InputOf;
    SixWords(reg, bits, defaultFormat);
  }

  lemma SixWords(reg: Registry, bits: seq<bv8>, defaultFormat: Translate.Format)
    requires |bits| == 12
    ensures Translate.TranslateTag(reg, defaultFormat, Translate.Input(bits, 96, Some(0x3000), None)) ==
            Gs1Codec.Decode(reg, bits, 96)
  {
    hide Gs1Codec.Decode, Translate.TranslateTag, Iso.Decode, WellFormedScheme;
    assert bits[..12] == bits;
    Translate.UnderPC(reg, defaultFormat, Translate.Input(bits, 96, Some(0x3000), None));
  }

  /**
   * Whatever identities were written to the tags, and however a cycle of them was packed into frames: the reader's
   * observations of the frames translate to these identities, one for each tag, in their order.
   */
  lemma IdentitiesArrive(ts: seq<Translation>, groups: seq<seq<Bytes>>, frames: seq<Bytes>, maxFrame: nat,
                         limits: Limits, defaultFormat: Translate.Format)
    requires forall k | 0 <= k < |ts| :: Written(ts[k])
    requires Packed(groups, frames, maxFrame) && Flat(groups) == TagsOf(ts) && Compatible(limits)
    ensures var observed := ObserveFrames(frames, limits);
      && observed.Success? && |observed.value| == |ts|
      && forall k | 0 <= k < |ts| ::
           Translate.TranslateTag(Translate.GeneratedRegistry(), defaultFormat, InputOf(observed.value[k])) ==
             Success(ts[k])
  {
    hide Translate.TranslateTag, Written, Sightings, ObserveFrames, Packed;
    CycleReadsBack(groups, frames, maxFrame, limits);
    forall k | 0 <= k < |ts|
      ensures Translate.TranslateTag(Translate.GeneratedRegistry(), defaultFormat,
                                     InputOf(Sightings(TagsOf(ts))[k])) == Success(ts[k])
    {
      SightingAt(TagsOf(ts), k);
      ObservedTag(ts[k], defaultFormat);
    }
  }
}
