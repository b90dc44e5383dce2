/** GS1 EPC tag decoding and encoding (internal/tdt/gs1epc/decode.go, encode.go). */
module Gs1Codec {
  import opened Wrappers
  import opened Bits
  import opened Decimal
  import opened Identity
  import opened Layout
  import opened Gs1Field

  // ---------------------------------------------------------------- lookup

  function FirstByID(schemes: seq<Scheme>, id: SchemeID): (r: Option<Scheme>)
    ensures r.Some? ==> r.value in schemes && r.value.id == id
  {
    if schemes == [] then None
    else if schemes[0].id == id then Some(schemes[0])
    else FirstByID(schemes[1..], id)
  }

  function FirstByHeader(schemes: seq<Scheme>, header: nat): (r: Option<Scheme>)
    ensures r.Some? ==> r.value in schemes && r.value.def.header == header
  {
    if schemes == [] then None
    else if schemes[0].def.header == header then Some(schemes[0])
    else FirstByHeader(schemes[1..], header)
  }

  /** The registered scheme with an encoding label. */
  function Lookup(reg: Registry, id: SchemeID): (r: Option<Scheme>)
    ensures r.Some? ==> r.value in reg && WellFormedScheme(r.value) && r.value.id == id
  {
    FirstByID(reg, id)
  }

  function LookupHeader(reg: Registry, header: nat): (r: Option<Scheme>)
    ensures r.Some? ==> r.value in reg && WellFormedScheme(r.value) && r.value.def.header == header
  {
    FirstByHeader(reg, header)
  }

  /** A registered scheme is the one its label and its header look up. */
  lemma LookupRegistered(reg: Registry, s: Scheme)
    requires s in reg
    ensures WellFormedScheme(s) && Lookup(reg, s.id) == Some(s) && LookupHeader(reg, s.def.header) == Some(s)
  {
    hide WellFormedScheme;
    var i :| 0 <= i < |reg| && reg[i] == s;
    FirstDistinct(reg, i);
  }

  lemma {:induction false} FirstDistinct(schemes: seq<Scheme>, i: nat)
    requires i < |schemes|
    requires forall j, k | 0 <= j < k < |schemes| :: Distinct(schemes[j], schemes[k])
    ensures FirstByID(schemes, schemes[i].id) == Some(schemes[i])
    ensures FirstByHeader(schemes, schemes[i].def.header) == Some(schemes[i])
  {
    if i > 0 {
      assert Distinct(schemes[0], schemes[i]);
      FirstDistinct(schemes[1..], i - 1);
    }
  }

  lemma {:induction false} OptionFound(options: seq<LayoutOption>, i: nat)
    requires i < |options|
    requires forall j, k | 0 <= j < k < |options| ::
      options[j].partition != options[k].partition && options[j].gcpLength != options[k].gcpLength
    ensures Layout.OptionByPartition(options, options[i].partition) == Some(options[i])
    ensures OptionByLength(options, options[i].gcpLength) == Some(options[i])
  {
    if i > 0 {
      OptionFound(options[1..], i - 1);
    }
  }

  lemma {:induction false} OptionMember(options: seq<LayoutOption>, n: nat)
    ensures var r := Layout.OptionByPartition(options, n); r.Some? ==> r.value in options && r.value.partition == n
    ensures var r := OptionByLength(options, n); r.Some? ==> r.value in options && r.value.gcpLength == n
  {
    if options != [] {
      OptionMember(options[1..], n);
    }
  }

  lemma SchemeOption(s: Scheme, o: LayoutOption)
    requires WellFormedScheme(s) && o in s.def.options
    ensures WellFormedOption(s, o)
    ensures Layout.OptionByPartition(s.def.options, o.partition) == Some(o)
    ensures OptionByLength(s.def.options, o.gcpLength) == Some(o)
  {
    var i :| 0 <= i < |s.def.options| && s.def.options[i] == o;
    OptionFound(s.def.options, i);
  }

  // ---------------------------------------------------------------- decode

  predicate LiteralsHold(o: LayoutOption, bits: seq<bv8>)
    requires forall i | 0 <= i < |o.binaryLiterals| :: o.binaryLiterals[i].off + o.binaryLiterals[i].len <= 8 * |bits|
  {
    forall i | 0 <= i < |o.binaryLiterals| ::
      Num(bits, o.binaryLiterals[i].off, o.binaryLiterals[i].len) == o.binaryLiterals[i].value
  }

  function FieldValues(o: LayoutOption, bits: seq<bv8>): (r: seq<nat>)
    requires forall i | 0 <= i < |o.binaryFields| :: o.binaryFields[i].off + o.binaryFields[i].len <= 8 * |bits|
    ensures |r| == |o.binaryFields|
    ensures forall i | 0 <= i < |r| :: r[i] == Num(bits, o.binaryFields[i].off, o.binaryFields[i].len)
  {
    seq(|o.binaryFields|,
      i requires 0 <= i < |o.binaryFields| => Num(bits, o.binaryFields[i].off, o.binaryFields[i].len))
  }

  predicate InRange(o: LayoutOption, values: seq<nat>) {
    |values| == |o.binaryFields| && forall i | 0 <= i < |values| :: values[i] <= o.binaryFields[i].max
  }

  /** The translation of the field values a tag of this option carries. */
  function TranslationOf(s: Scheme, o: LayoutOption, values: seq<nat>, bits: seq<bv8>): Translation
    requires |values| == |o.tagFields| > 0
  {
    var fields := Components(o.tagFields, values);
    Translation(Value(AuthorityGS1, s.keyType, fields[1..]),
                Encoding(s.id, s.def.tagLength, s.def.tagLength, Gs1Control(values[0], o.partition, o.gcpLength),
                         bits, fields))
  }

  function DecodeScheme(s: Scheme, bits: seq<bv8>, bitLen: nat): Result<Translation, Error>
    requires WellFormedScheme(s)
  {
    if bitLen < s.def.tagLength || 8 * |bits| < s.def.tagLength then Failure(Truncated)
    else
      var partition := Num(bits, s.partitionOff, s.partitionLen);
      var opt := Layout.OptionByPartition(s.def.options, partition);
      OptionMember(s.def.options, partition);
      if opt.None? then Failure(UnknownPartition) else DecodeFields(s, opt.value, bits)
  }

  /** Decoding under an option: its literals, then its fields. */
  function DecodeFields(s: Scheme, o: LayoutOption, bits: seq<bv8>): Result<Translation, Error>
    requires WellFormedScheme(s) && WellFormedOption(s, o) && s.def.tagLength <= 8 * |bits|
  {
    OptionFits(s, o);
    OptionShape(s, o);
    if !LiteralsHold(o, bits) then Failure(ReservedBits)
    else
      var values := FieldValues(o, bits);
      if !InRange(o, values) then Failure(FieldValue)
      else Success(TranslationOf(s, o, values, bits[..s.def.tagLength / 8]))
  }

  function Decode(reg: Registry, bits: seq<bv8>, bitLen: nat): Result<Translation, Error> {
    if bitLen < 8 || 8 * |bits| < bitLen then Failure(Truncated)
    else
      var s := LookupHeader(reg, Num(bits, 0, 8));
      if s.None? then Failure(UnknownHeader) else DecodeScheme(s.value, bits, bitLen)
  }

  /** The identity a decoded tag carries is one the identity constructor builds. */
  lemma TranslationBuilt(s: Scheme, o: LayoutOption, values: seq<nat>, bits: seq<bv8>)
    requires WellFormedOption(s, o) && !s.keyType.KeyTypeUnknown? && InRange(o, values)
    ensures NewValue(AuthorityGS1, s.keyType, Components(o.tagFields, values)[1..])
         == Success(TranslationOf(s, o, values, bits).identity)
  {
    var comps := Components(o.tagFields, values)[1..];
    assert Names(comps) == ComponentOrder(s.keyType);
  }

  method CheckLiterals(o: LayoutOption, bits: seq<bv8>) returns (ok: bool)
    requires forall i | 0 <= i < |o.binaryLiterals| :: o.binaryLiterals[i].off + o.binaryLiterals[i].len <= 8 * |bits|
    ensures ok == LiteralsHold(o, bits)
  {
    for i := 0 to |o.binaryLiterals|
      invariant forall k | 0 <= k < i ::
        Num(bits, o.binaryLiterals[k].off, o.binaryLiterals[k].len) == o.binaryLiterals[k].value
    {
      var v := BitsAt(bits, o.binaryLiterals[i].off, o.binaryLiterals[i].len);
      if v != o.binaryLiterals[i].value {
        return false;
      }
    }
    return true;
  }

  /** The field values, and the last value of a field named filter; nothing when a value is out of range. */
  method ReadFields(o: LayoutOption, bits: seq<bv8>) returns (r: Option<(seq<nat>, nat)>)
    requires forall i | 0 <= i < |o.binaryFields| :: o.binaryFields[i].off + o.binaryFields[i].len <= 8 * |bits|
    requires |o.binaryFields| > 0 && o.binaryFields[0].name == FilterValue
    requires forall i | 0 < i < |o.binaryFields| :: o.binaryFields[i].name != FilterValue
    ensures r.Some? <==> InRange(o, FieldValues(o, bits))
    ensures r.Some? ==> r.value == (FieldValues(o, bits), FieldValues(o, bits)[0])
  {
    var values: seq<nat> := [];
    var filter := 0;
    for i := 0 to |o.binaryFields|
      invariant values == FieldValues(o, bits)[..i]
      invariant forall k | 0 <= k < i :: FieldValues(o, bits)[k] <= o.binaryFields[k].max
      invariant i > 0 ==> filter == values[0]
    {
      var v := BitsAt(bits, o.binaryFields[i].off, o.binaryFields[i].len);
      if v > o.binaryFields[i].max {
        return None;
      }
      values := values + [v];
      if o.binaryFields[i].name == FilterValue {
        filter := v;
      }
    }
    assert values == FieldValues(o, bits);
    return Some((values, filter));
  }

  /** Decoding a tag: the header names the scheme. */
  method DecodeTag(reg: Registry, bits: seq<bv8>, bitLen: nat) returns (r: Result<Translation, Error>)
    ensures r == Decode(reg, bits, bitLen)
  {
    hide WellFormedScheme, DecodeScheme, LookupHeader;
    if bitLen < 8 || 8 * |bits| < bitLen {
      return Failure(Truncated);
    }
    var header := BitsAt(bits, 0, 8);
    var s := LookupHeader(reg, header);
    if s.None? {
      return Failure(UnknownHeader);
    }
    r := DecodeUnder(s.value, bits, bitLen);
  }

  /** Decoding under a scheme, stage by stage: partition, literals, fields, identity constructor. */
  method DecodeUnder(s: Scheme, bits: seq<bv8>, bitLen: nat) returns (r: Result<Translation, Error>)
    requires WellFormedScheme(s)
    ensures r == DecodeScheme(s, bits, bitLen)
  {
    if bitLen < s.def.tagLength || 8 * |bits| < s.def.tagLength {
      return Failure(Truncated);
    }
    var partition := BitsAt(bits, s.partitionOff, s.partitionLen);
    var opt := Layout.OptionByPartition(s.def.options, partition);
    OptionMember(s.def.options, partition);
    if opt.None? {
      return Failure(UnknownPartition);
    }
    r := DecodeByOption(s, opt.value, bits, partition);
  }

  /** Decoding under the option the partition value named. */
  method DecodeByOption(s: Scheme, o: LayoutOption, bits: seq<bv8>, partition: nat)
    returns (r: Result<Translation, Error>)
    requires WellFormedScheme(s) && WellFormedOption(s, o) && s.def.tagLength <= 8 * |bits| && partition == o.partition
    ensures r == DecodeFields(s, o, bits)
  {
    hide WellFormedScheme;
    KnownKeyType(s);
    OptionShape(s, o);
    OptionFits(s, o);
    var ok := CheckLiterals(o, bits);
    if !ok {
      return Failure(ReservedBits);
    }
    OnlyFirstIsFilter(s, o);
    var read := ReadFields(o, bits);
    if read.None? {
      return Failure(FieldValue);
    }
    hide WellFormedOption, Contiguous, Sites;
    var (values, filter) := read.value;
    var fields := Components(o.tagFields, values);
    TranslationBuilt(s, o, values, bits[..s.def.tagLength / 8]);
    match NewValue(AuthorityGS1, s.keyType, fields[1..])
    case Failure(e) => r := Failure(e);
    case Success(value) =>
      r := Success(Translation(value, Encoding(s.id, s.def.tagLength, s.def.tagLength,
                                               Gs1Control(filter, partition, o.gcpLength),
                                               bits[..s.def.tagLength / 8], fields)));
  }

  lemma KnownKeyType(s: Scheme)
    requires WellFormedScheme(s)
    ensures !s.keyType.KeyTypeUnknown?
  {
    hide WellFormedOption;
  }

  lemma OnlyFirstIsFilter(s: Scheme, o: LayoutOption)
    requires WellFormedScheme(s) && WellFormedOption(s, o)
    ensures o.binaryFields[0].name == FilterValue
    ensures forall i | 0 < i < |o.binaryFields| :: o.binaryFields[i].name != FilterValue
  {
    hide TiledOption;
    assert WellFormedBinary(o.binaryFields[0], o.tagFields[0], s.def.tagLength);
    forall i | 0 < i < |o.binaryFields|
      ensures o.binaryFields[i].name != FilterValue
    {
      assert WellFormedPure(o.pureFields[i - 1], o.tagFields[i]);
      assert WellFormedBinary(o.binaryFields[i], o.tagFields[i], s.def.tagLength);
    }
  }

  // ---------------------------------------------------------------- layout

  function WriteLiterals(data: seq<bv8>, literals: seq<BinaryLiteral>, k: nat): (r: seq<bv8>)
    requires k <= |literals|
    requires forall i | 0 <= i < |literals| :: literals[i].off + literals[i].len <= 8 * |data|
    ensures |r| == |data|
  {
    if k == 0 then data
    else Write(WriteLiterals(data, literals, k - 1), literals[k - 1].off, literals[k - 1].len, literals[k - 1].value)
  }

  function WriteFields(data: seq<bv8>, fields: seq<BinaryField>, values: seq<nat>, k: nat): (r: seq<bv8>)
    requires k <= |fields| == |values|
    requires forall i | 0 <= i < |fields| :: fields[i].off + fields[i].len <= 8 * |data|
    ensures |r| == |data|
  {
    if k == 0 then data
    else Write(WriteFields(data, fields, values, k - 1), fields[k - 1].off, fields[k - 1].len, values[k - 1])
  }

  /** Every literal and field of the option lies within n bytes. */
  predicate Fits(o: LayoutOption, n: nat) {
    && (forall i | 0 <= i < |o.binaryLiterals| :: o.binaryLiterals[i].off + o.binaryLiterals[i].len <= 8 * n)
    && (forall i | 0 <= i < |o.binaryFields| :: o.binaryFields[i].off + o.binaryFields[i].len <= 8 * n)
  }

  lemma OptionFits(s: Scheme, o: LayoutOption)
    requires WellFormedScheme(s) && WellFormedOption(s, o)
    ensures Fits(o, s.def.tagLength / 8)
  {
    hide Contiguous, Sites, WellFormedPure;
    forall i | 0 <= i < |o.binaryFields|
      ensures o.binaryFields[i].off + o.binaryFields[i].len <= s.def.tagLength
    {
      assert WellFormedBinary(o.binaryFields[i], o.tagFields[i], s.def.tagLength);
    }
    forall i | 0 <= i < |o.binaryLiterals|
      ensures o.binaryLiterals[i].off + o.binaryLiterals[i].len <= s.def.tagLength
    {
      assert WellFormedLiteral(o.binaryLiterals[i], s.def.tagLength);
    }
  }

  /** n tag bytes of an option: its literals and its fields written into a zeroed buffer. */
  function TagBits(o: LayoutOption, n: nat, values: seq<nat>): (r: seq<bv8>)
    requires Fits(o, n) && |values| == |o.binaryFields|
    ensures |r| == n
  {
    WriteFields(LiteralBits(o, n), o.binaryFields, values, |o.binaryFields|)
  }

  function LiteralBits(o: LayoutOption, n: nat): (r: seq<bv8>)
    requires Fits(o, n)
    ensures |r| == n
  {
    WriteLiterals(Zeros(n), o.binaryLiterals, |o.binaryLiterals|)
  }

  /** Writing literals leaves alone every bit outside them. */
  lemma {:induction false} LiteralsLeave(data: seq<bv8>, literals: seq<BinaryLiteral>, k: nat, j: nat)
    requires k <= |literals| && j < 8 * |data|
    requires forall i | 0 <= i < |literals| :: literals[i].off + literals[i].len <= 8 * |data|
    requires forall i | 0 <= i < k :: !(literals[i].off <= j < literals[i].off + literals[i].len)
    ensures BitAt(WriteLiterals(data, literals, k), j) == BitAt(data, j)
  {
    if k > 0 {
      LiteralsLeave(data, literals, k - 1, j);
    }
  }

  lemma {:induction false} FieldsLeave(data: seq<bv8>, fields: seq<BinaryField>, values: seq<nat>, k: nat, j: nat)
    requires k <= |fields| == |values| && j < 8 * |data|
    requires forall i | 0 <= i < |fields| :: fields[i].off + fields[i].len <= 8 * |data|
    requires forall i | 0 <= i < k :: !(fields[i].off <= j < fields[i].off + fields[i].len)
    ensures BitAt(WriteFields(data, fields, values, k), j) == BitAt(data, j)
  {
    if k > 0 {
      FieldsLeave(data, fields, values, k - 1, j);
    }
  }

  /** A bit of literal m, where no other literal reaches, is or-ed with the literal's bit. */
  lemma {:induction false} LiteralSets(data: seq<bv8>, literals: seq<BinaryLiteral>, k: nat, m: nat, j: nat)
    requires m < k <= |literals| && j < 8 * |data|
    requires forall i | 0 <= i < |literals| :: literals[i].off + literals[i].len <= 8 * |data|
    requires literals[m].off <= j < literals[m].off + literals[m].len
    requires forall i | 0 <= i < k && i != m :: !(literals[i].off <= j < literals[i].off + literals[i].len)
    ensures BitAt(WriteLiterals(data, literals, k), j) ==
            (BitAt(data, j) || NumBit(literals[m].value, literals[m].off + literals[m].len - 1 - j))
  {
    if m == k - 1 {
      LiteralsLeave(data, literals, k - 1, j);
    } else {
      LiteralSets(data, literals, k - 1, m, j);
    }
  }

  lemma {:induction false} FieldSets(data: seq<bv8>, fields: seq<BinaryField>, values: seq<nat>, k: nat, m: nat, j: nat)
    requires m < k <= |fields| == |values| && j < 8 * |data|
    requires forall i | 0 <= i < |fields| :: fields[i].off + fields[i].len <= 8 * |data|
    requires fields[m].off <= j < fields[m].off + fields[m].len
    requires forall i | 0 <= i < k && i != m :: !(fields[i].off <= j < fields[i].off + fields[i].len)
    ensures BitAt(WriteFields(data, fields, values, k), j) ==
            (BitAt(data, j) || NumBit(values[m], fields[m].off + fields[m].len - 1 - j))
  {
    if m == k - 1 {
      FieldsLeave(data, fields, values, k - 1, j);
    } else {
      FieldSets(data, fields, values, k - 1, m, j);
    }
  }

  predicate InLiteral(o: LayoutOption, k: nat, j: nat)
    requires k < |o.binaryLiterals|
  {
    LiteralSite(o, k).Covers(j)
  }

  predicate InField(o: LayoutOption, k: nat, j: nat)
    requires k < |o.binaryFields|
  {
    FieldSite(o, k).Covers(j)
  }

  /** At most one site of a well-formed option covers a bit. */
  lemma SiteUnique(s: Scheme, o: LayoutOption, a: nat, b: nat, j: nat)
    requires WellFormedOption(s, o) && a < |Sites(o)| && b < |Sites(o)|
    requires Sites(o)[a].Covers(j) && Sites(o)[b].Covers(j)
    ensures a == b
  {
    if a < b {
      ContiguousOrdered(Sites(o), s.def.tagLength, a, b);
    } else if b < a {
      ContiguousOrdered(Sites(o), s.def.tagLength, b, a);
    }
  }

  /** Bit j belongs to literal k and to nothing else. */
  ghost predicate LiteralOwns(o: LayoutOption, k: nat, j: nat) {
    && k < |o.binaryLiterals| && InLiteral(o, k, j)
    && (forall i | 0 <= i < |o.binaryLiterals| && i != k :: !InLiteral(o, i, j))
    && (forall i | 0 <= i < |o.binaryFields| :: !InField(o, i, j))
  }

  /** Bit j belongs to field k and to nothing else. */
  ghost predicate FieldOwns(o: LayoutOption, k: nat, j: nat) {
    && k < |o.binaryFields| && InField(o, k, j)
    && (forall i | 0 <= i < |o.binaryLiterals| :: !InLiteral(o, i, j))
    && (forall i | 0 <= i < |o.binaryFields| && i != k :: !InField(o, i, j))
  }

  lemma LiteralOwnsBit(s: Scheme, o: LayoutOption, k: nat, j: nat)
    requires WellFormedOption(s, o) && k < |o.binaryLiterals| && InLiteral(o, k, j)
    ensures LiteralOwns(o, k, j)
  {
    forall i | 0 <= i < |o.binaryLiterals| && i != k
      ensures !InLiteral(o, i, j)
    {
      if InLiteral(o, i, j) {
        SiteUnique(s, o, LiteralRank(o, i), LiteralRank(o, k), j);
      }
    }
    forall i | 0 <= i < |o.binaryFields|
      ensures !InField(o, i, j)
    {
      if InField(o, i, j) {
        SiteUnique(s, o, FieldRank(o, i), LiteralRank(o, k), j);
      }
    }
  }

  lemma FieldOwnsBit(s: Scheme, o: LayoutOption, k: nat, j: nat)
    requires WellFormedOption(s, o) && k < |o.binaryFields| && InField(o, k, j)
    ensures FieldOwns(o, k, j)
  {
    forall i | 0 <= i < |o.binaryLiterals|
      ensures !InLiteral(o, i, j)
    {
      if InLiteral(o, i, j) {
        SiteUnique(s, o, LiteralRank(o, i), FieldRank(o, k), j);
      }
    }
    forall i | 0 <= i < |o.binaryFields| && i != k
      ensures !InField(o, i, j)
    {
      if InField(o, i, j) {
        SiteUnique(s, o, FieldRank(o, i), FieldRank(o, k), j);
      }
    }
  }

  lemma LiteralBit(o: LayoutOption, n: nat, values: seq<nat>, k: nat, j: nat)
    requires Fits(o, n) && |values| == |o.binaryFields| && LiteralOwns(o, k, j)
    ensures var l := o.binaryLiterals[k];
            j < 8 * n && BitAt(TagBits(o, n, values), j) == NumBit(l.value, l.off + l.len - 1 - j)
  {
    var lits := o.binaryLiterals;
    forall i | 0 <= i < |lits| && i != k
      ensures !(lits[i].off <= j < lits[i].off + lits[i].len)
    {
      assert !InLiteral(o, i, j);
    }
    forall i | 0 <= i < |o.binaryFields|
      ensures !(o.binaryFields[i].off <= j < o.binaryFields[i].off + o.binaryFields[i].len)
    {
      assert !InField(o, i, j);
    }
    LiteralSets(Zeros(n), lits, |lits|, k, j);
    FieldsLeave(LiteralBits(o, n), o.binaryFields, values, |o.binaryFields|, j);
  }

  lemma FieldBit(o: LayoutOption, n: nat, values: seq<nat>, k: nat, j: nat)
    requires Fits(o, n) && |values| == |o.binaryFields| && FieldOwns(o, k, j)
    ensures var f := o.binaryFields[k];
            j < 8 * n && BitAt(TagBits(o, n, values), j) == NumBit(values[k], f.off + f.len - 1 - j)
  {
    var fields := o.binaryFields;
    forall i | 0 <= i < |o.binaryLiterals|
      ensures !(o.binaryLiterals[i].off <= j < o.binaryLiterals[i].off + o.binaryLiterals[i].len)
    {
      assert !InLiteral(o, i, j);
    }
    forall i | 0 <= i < |fields| && i != k
      ensures !(fields[i].off <= j < fields[i].off + fields[i].len)
    {
      assert !InField(o, i, j);
    }
    LiteralsLeave(Zeros(n), o.binaryLiterals, |o.binaryLiterals|, j);
    FieldSets(LiteralBits(o, n), fields, values, |fields|, k, j);
  }

  /** The tag bytes of a well-formed option. */
  function SchemeBits(s: Scheme, o: LayoutOption, values: seq<nat>): (r: seq<bv8>)
    requires WellFormedScheme(s) && WellFormedOption(s, o) && |values| == |o.binaryFields|
    ensures |r| == s.def.tagLength / 8
  {
    OptionFits(s, o);
    TagBits(o, s.def.tagLength / 8, values)
  }

  /** Each literal of a written tag spells its value. */
  lemma LiteralSpelled(s: Scheme, o: LayoutOption, values: seq<nat>, k: nat)
    requires WellFormedScheme(s) && WellFormedOption(s, o) && |values| == |o.binaryFields| && k < |o.binaryLiterals|
    ensures var l := o.binaryLiterals[k];
            l.off + l.len <= s.def.tagLength && Spells(SchemeBits(s, o, values), l.off, l.len, l.value)
  {
    hide WellFormedOption, WellFormedScheme;
    OptionFits(s, o);
    hide Fits;
    var l := o.binaryLiterals[k];
    forall j: nat | l.off <= j < l.off + l.len
      ensures j < s.def.tagLength && BitAt(SchemeBits(s, o, values), j) == NumBit(l.value, l.off + l.len - 1 - j)
    {
      assert InLiteral(o, k, j);
      LiteralOwnsBit(s, o, k, j);
      LiteralBit(o, s.def.tagLength / 8, values, k, j);
    }
  }

  /** Each field of a written tag spells its value. */
  lemma FieldSpelled(s: Scheme, o: LayoutOption, values: seq<nat>, k: nat)
    requires WellFormedScheme(s) && WellFormedOption(s, o) && |values| == |o.binaryFields| && k < |o.binaryFields|
    ensures var f := o.binaryFields[k];
            f.off + f.len <= s.def.tagLength && Spells(SchemeBits(s, o, values), f.off, f.len, values[k])
  {
    hide WellFormedOption, WellFormedScheme;
    OptionFits(s, o);
    hide Fits;
    var f := o.binaryFields[k];
    forall j: nat | f.off <= j < f.off + f.len
      ensures j < s.def.tagLength && BitAt(SchemeBits(s, o, values), j) == NumBit(values[k], f.off + f.len - 1 - j)
    {
      assert InField(o, k, j);
      FieldOwnsBit(s, o, k, j);
      FieldBit(o, s.def.tagLength / 8, values, k, j);
    }
  }

  /** Reading a written tag returns its literals and its values. */
  lemma ReadWritten(s: Scheme, o: LayoutOption, values: seq<nat>)
    requires WellFormedScheme(s) && WellFormedOption(s, o) && InRange(o, values)
    ensures Fits(o, s.def.tagLength / 8)
    ensures LiteralsHold(o, SchemeBits(s, o, values))
    ensures FieldValues(o, SchemeBits(s, o, values)) == values
  {
    OptionFits(s, o);
    hide Contiguous, Sites, WellFormedPure, SchemeBits;
    var bits := SchemeBits(s, o, values);
    forall k | 0 <= k < |o.binaryLiterals|
      ensures Num(bits, o.binaryLiterals[k].off, o.binaryLiterals[k].len) == o.binaryLiterals[k].value
    {
      LiteralSpelled(s, o, values, k);
      CapacityIsPower(o.binaryLiterals[k].len);
      NumOfBits(bits, o.binaryLiterals[k].off, o.binaryLiterals[k].len, o.binaryLiterals[k].value);
    }
    forall k | 0 <= k < |o.binaryFields|
      ensures FieldValues(o, bits)[k] == values[k]
    {
      assert WellFormedBinary(o.binaryFields[k], o.tagFields[k], s.def.tagLength);
      FieldSpelled(s, o, values, k);
      CapacityIsPower(o.binaryFields[k].len);
      NumOfBits(bits, o.binaryFields[k].off, o.binaryFields[k].len, values[k]);
    }
  }

  /** Writing what was read restores every bit, because literals and fields leave none uncovered. */
  lemma WriteRead(s: Scheme, o: LayoutOption, bits: seq<bv8>)
    requires WellFormedScheme(s) && WellFormedOption(s, o) && |bits| == s.def.tagLength / 8
    requires Fits(o, |bits|) && LiteralsHold(o, bits)
    ensures SchemeBits(s, o, FieldValues(o, bits)) == bits
  {
    var out := SchemeBits(s, o, FieldValues(o, bits));
    forall j: nat | j < 8 * |bits|
      ensures BitAt(out, j) == BitAt(bits, j)
    {
      BitRestored(s, o, bits, j);
    }
    BufferExtensionality(out, bits);
  }

  lemma BitRestored(s: Scheme, o: LayoutOption, bits: seq<bv8>, j: nat)
    requires WellFormedScheme(s) && WellFormedOption(s, o) && |bits| == s.def.tagLength / 8 && j < s.def.tagLength
    requires Fits(o, |bits|) && LiteralsHold(o, bits)
    ensures BitAt(SchemeBits(s, o, FieldValues(o, bits)), j) == BitAt(bits, j)
  {
    hide WellFormedScheme, WellFormedOption, SchemeBits;
    var values := FieldValues(o, bits);
    var isLiteral, k := BitOwner(s, o, j);
    if isLiteral {
      LiteralSpelled(s, o, values, k);
      NumSpells(bits, o.binaryLiterals[k].off, o.binaryLiterals[k].len);
    } else {
      FieldSpelled(s, o, values, k);
      NumSpells(bits, o.binaryFields[k].off, o.binaryFields[k].len);
    }
  }

  /** Every bit of a tag belongs to a literal or to a field. */
  lemma BitOwner(s: Scheme, o: LayoutOption, j: nat) returns (isLiteral: bool, k: nat)
    requires WellFormedOption(s, o) && j < s.def.tagLength
    ensures if isLiteral then k < |o.binaryLiterals| && InLiteral(o, k, j) else k < |o.binaryFields| && InField(o, k, j)
  {
    hide BinaryOption, PureOption, Contiguous, Sites;
    var r := ContiguousCovers(Sites(o), s.def.tagLength, j);
    isLiteral, k := SiteOwner(o, r);
  }

  /** Every run of an option is a literal's or a field's. */
  lemma SiteOwner(o: LayoutOption, r: nat) returns (isLiteral: bool, k: nat)
    requires |o.binaryLiterals| >= 2 && |o.binaryFields| >= 2 && r < |Sites(o)|
    ensures if isLiteral then k < |o.binaryLiterals| && Sites(o)[r] == LiteralSite(o, k)
            else k < |o.binaryFields| && Sites(o)[r] == FieldSite(o, k)
  {
    hide Sites, LiteralSite, FieldSite;
    isLiteral := r == 0 || r == 2 || r > |o.binaryFields| + 1;
    if isLiteral {
      k := if r == 0 then 0 else if r == 2 then 1 else r - |o.binaryFields|;
      assert r == LiteralRank(o, k);
    } else {
      k := if r == 1 then 0 else r - 2;
      assert r == FieldRank(o, k);
    }
  }

  // ---------------------------------------------------------------- encode

  function OptionForValue(s: Scheme, v: Value): (r: Result<LayoutOption, Error>)
    ensures r.Success? ==> r.value in s.def.options
  {
    var gcp := v.Find(GS1CompanyPrefix);
    if gcp.None? then Failure(FieldValue)
    else
      var opt := OptionByLength(s.def.options, |gcp.value.value|);
      OptionMember(s.def.options, |gcp.value.value|);
      if opt.None? then Failure(FieldValue) else Success(opt.value)
  }

  /** One identity component read as a number; it must be in canonical form. */
  function ComponentValue(f: URIField, c: Component): Result<nat, Error> {
    if c.name != f.name then Failure(CannotEncode)
    else
      var n :- ParseField(f, c.value);
      if Render(f, n) != c.value then Failure(FieldValue) else Success(n)
  }

  function ComponentValues(fields: seq<URIField>, comps: seq<Component>): (r: Result<seq<nat>, Error>)
    requires |fields| == |comps|
    ensures r.Success? ==> |r.value| == |fields|
  {
    if fields == [] then Success([])
    else
      var n :- ComponentValue(fields[0], comps[0]);
      var rest :- ComponentValues(fields[1..], comps[1..]);
      Success([n] + rest)
  }

  function Encode(reg: Registry, v: Value, id: SchemeID, filter: nat): Result<Translation, Error>
    requires filter < 256
  {
    var found := Lookup(reg, id);
    if found.None? then Failure(UnsupportedScheme)
    else
      var s := found.value;
      if v.authority != AuthorityGS1 || v.keyType != s.keyType then Failure(CannotEncode)
      else
        var o :- OptionForValue(s, v);
        EncodeOption(s, o, v, filter)
  }

  function EncodeOption(s: Scheme, o: LayoutOption, v: Value, filter: nat): Result<Translation, Error>
    requires WellFormedScheme(s) && o in s.def.options
  {
    if |v.components| != |o.pureFields| then Failure(CannotEncode)
    else if filter > o.tagFields[0].max then Failure(FieldValue)
    else
      var pure :- ComponentValues(o.pureFields, v.components);
      var values := [filter] + pure;
      if !InRange(o, values) then Failure(FieldValue)
      else Success(Translation(v, Encoding(s.id, s.def.tagLength, s.def.tagLength,
                                           Gs1Control(filter, o.partition, o.gcpLength),
                                           SchemeBits(s, o, values), Components(o.tagFields, values))))
  }

  /** The component loop: values read in order, or the first component's error. */
  method ReadComponents(fields: seq<URIField>, comps: seq<Component>) returns (r: Result<seq<nat>, Error>)
    requires |fields| == |comps|
    ensures r == ComponentValues(fields, comps)
  {
    hide ComponentValue;
    var values: seq<nat> := [];
    assert fields[0..] == fields && comps[0..] == comps;
    assert forall rest: seq<nat> :: values + rest == rest;
    for i := 0 to |fields|
      invariant |values| == i
      invariant ComponentValues(fields, comps) == Prepend(values, ComponentValues(fields[i..], comps[i..]))
    {
      var n := ComponentValue(fields[i], comps[i]);
      assert fields[i..][1..] == fields[i + 1..] && comps[i..][1..] == comps[i + 1..];
      if n.Failure? {
        return Failure(n.error);
      }
      ghost var rest := ComponentValues(fields[i + 1..], comps[i + 1..]);
      assert rest.Success? ==> values + ([n.value] + rest.value) == values + [n.value] + rest.value;
      values := values + [n.value];
    }
    assert values + [] == values;
    return Success(values);
  }

  function Prepend(head: seq<nat>, r: Result<seq<nat>, Error>): Result<seq<nat>, Error> {
    match r
    case Success(rest) => Success(head + rest)
    case Failure(e) => Failure(e)
  }

  /** Literals, then fields, written into a fresh buffer; nothing when a value exceeds its field. */
  method WriteTag(o: LayoutOption, n: nat, values: seq<nat>) returns (r: Option<seq<bv8>>)
    requires Fits(o, n) && |values| == |o.binaryFields|
    ensures r == if InRange(o, values) then Some(TagBits(o, n, values)) else None
  {
    var data := new bv8[n](_ => 0);
    assert data[..] == Zeros(n);
    for i := 0 to |o.binaryLiterals|
      invariant data[..] == WriteLiterals(Zeros(n), o.binaryLiterals, i)
    {
      SetBits(data, o.binaryLiterals[i].off, o.binaryLiterals[i].len, o.binaryLiterals[i].value);
    }
    for i := 0 to |o.binaryFields|
      invariant data[..] == WriteFields(LiteralBits(o, n), o.binaryFields, values, i)
      invariant forall k | 0 <= k < i :: values[k] <= o.binaryFields[k].max
    {
      if values[i] > o.binaryFields[i].max {
        return None;
      }
      SetBits(data, o.binaryFields[i].off, o.binaryFields[i].len, values[i]);
    }
    return Some(data[..]);
  }

  /** Encoding as the source runs it, checks in its order. */
  method EncodeTag(reg: Registry, v: Value, id: SchemeID, filter: nat) returns (r: Result<Translation, Error>)
    requires filter < 256
    ensures r == Encode(reg, v, id, filter)
  {
    hide WellFormedScheme, WellFormedOption, InRange, TagBits, ComponentValues;
    var found := Lookup(reg, id);
    if found.None? {
      return Failure(UnsupportedScheme);
    }
    var s := found.value;
    if v.authority != AuthorityGS1 || v.keyType != s.keyType {
      return Failure(CannotEncode);
    }
    var o :- OptionForValue(s, v);
    if |v.components| != |o.pureFields| {
      return Failure(CannotEncode);
    }
    SchemeOption(s, o);
    OptionShape(s, o);
    if filter > o.tagFields[0].max {
      return Failure(FieldValue);
    }
    var pure :- ReadComponents(o.pureFields, v.components);
    var values := [filter] + pure;
    OptionFits(s, o);
    var bits := WriteTag(o, s.def.tagLength / 8, values);
    if bits.None? {
      return Failure(FieldValue);
    }
    r := Success(Translation(v, Encoding(s.id, s.def.tagLength, s.def.tagLength,
                                         Gs1Control(filter, o.partition, o.gcpLength),
                                         bits.value, Components(o.tagFields, values))));
  }

  // ---------------------------------------------------------- round trips

  /** The numbers read from canonical components render back to them. */
  lemma {:induction false} ComponentValuesRender(fields: seq<URIField>, comps: seq<Component>, values: seq<nat>)
    requires |fields| == |comps| && ComponentValues(fields, comps) == Success(values)
    requires forall i | 0 <= i < |fields| :: WellFormedField(fields[i])
    ensures comps == Components(fields, values)
    ensures forall i | 0 <= i < |fields| :: values[i] <= fields[i].max
  {
    hide WellFormedField, Render, ParseField;
    if fields != [] {
      var rest := ComponentValues(fields[1..], comps[1..]).value;
      assert values == [values[0]] + rest;
      ComponentValuesRender(fields[1..], comps[1..], rest);
      RenderOfParse(fields[0], comps[0].value);
      forall i | 0 <= i < |fields|
        ensures comps[i] == Components(fields, values)[i] && values[i] <= fields[i].max
      {
        if i > 0 {
          assert comps[i] == comps[1..][i - 1] == Components(fields[1..], rest)[i - 1];
        }
      }
    }
  }

  lemma {:induction false} ComponentValuesOfRender(fields: seq<URIField>, values: seq<nat>)
    requires |fields| == |values|
    requires forall i | 0 <= i < |fields| :: WellFormedField(fields[i]) && values[i] <= fields[i].max
    ensures ComponentValues(fields, Components(fields, values)) == Success(values)
  {
    if fields != [] {
      hide WellFormedField, ParseField, Render;
      ComponentValuesOfRender(fields[1..], values[1..]);
      ParseOfRender(fields[0], values[0]);
      assert Components(fields, values)[1..] == Components(fields[1..], values[1..]);
      assert values == [values[0]] + values[1..];
    }
  }

  /** The tag fields after the filter render exactly like the pure identity fields. */
  lemma TagTailIsPure(s: Scheme, o: LayoutOption, values: seq<nat>)
    requires WellFormedOption(s, o) && |values| == |o.tagFields|
    ensures Components(o.tagFields, values)[1..] == Components(o.pureFields, values[1..])
  {
    hide TiledOption, BinaryOption;
    forall i | 0 <= i < |o.pureFields|
      ensures Components(o.tagFields, values)[1..][i] == Components(o.pureFields, values[1..])[i]
    {
      assert WellFormedPure(o.pureFields[i], o.tagFields[i + 1]);
    }
  }

  /** Field values a tag can carry are values its pure identity fields accept. */
  lemma PureInRange(s: Scheme, o: LayoutOption, values: seq<nat>)
    requires WellFormedScheme(s) && WellFormedOption(s, o) && InRange(o, values)
    ensures forall i | 0 <= i < |o.pureFields| ::
            WellFormedField(o.pureFields[i]) && values[i + 1] <= o.pureFields[i].max
    ensures values[0] <= o.tagFields[0].max < 256
  {
    hide TiledOption;
    assert WellFormedBinary(o.binaryFields[0], o.tagFields[0], s.def.tagLength);
    forall i | 0 <= i < |o.pureFields|
      ensures WellFormedField(o.pureFields[i]) && values[i + 1] <= o.pureFields[i].max
    {
      assert WellFormedPure(o.pureFields[i], o.tagFields[i + 1]);
      assert WellFormedBinary(o.binaryFields[i + 1], o.tagFields[i + 1], s.def.tagLength);
    }
  }

  /** Everything a successful decode establishes about its input. */
  lemma DecodeInversion(reg: Registry, bits: seq<bv8>, bitLen: nat, t: Translation) returns (s: Scheme, o: LayoutOption)
    requires Decode(reg, bits, bitLen) == Success(t)
    ensures s in reg && WellFormedScheme(s) && o in s.def.options && WellFormedOption(s, o)
    ensures s.def.tagLength <= bitLen <= 8 * |bits| && s.def.header == bits[0] as int
    ensures o.partition == Num(bits, s.partitionOff, s.partitionLen)
    ensures Fits(o, s.def.tagLength / 8) && Fits(o, |bits|)
    ensures LiteralsHold(o, bits) && InRange(o, FieldValues(o, bits))
    ensures t == TranslationOf(s, o, FieldValues(o, bits), bits[..s.def.tagLength / 8])
  {
    hide LookupHeader, WellFormedOption, LiteralsHold, InRange;
    ByteNum(bits, 0);
    s := LookupHeader(reg, Num(bits, 0, 8)).value;
    var partition := Num(bits, s.partitionOff, s.partitionLen);
    OptionMember(s.def.options, partition);
    o := Layout.OptionByPartition(s.def.options, partition).value;
    OptionFits(s, o);
  }

  /** What field i of a decoded tag says: its own name, and digits spelling the number its bits hold. */
  ghost predicate ReadsField(f: URIField, b: BinaryField, bits: seq<bv8>, c: Component)
    requires b.off + b.len <= 8 * |bits|
  {
    && c.name == f.name && AllDigits(c.value) && ValueOf(c.value) == Num(bits, b.off, b.len)
    && if f.fixed then |c.value| == f.length else |c.value| >= 1 && (|c.value| > 1 ==> c.value[0] != '0')
  }

  /** The translation spells the tag field by field, and keeps filter, partition, prefix length and the tag's bytes. */
  ghost predicate SpellsTag(s: Scheme, o: LayoutOption, bits: seq<bv8>, t: Translation) {
    var e := t.encoding;
    && Fits(o, |bits|) && |e.fields| == |o.tagFields| == |o.binaryFields| >= 2
    && (forall i | 0 <= i < |o.binaryFields| :: ReadsField(o.tagFields[i], o.binaryFields[i], bits, e.fields[i]))
    && t.identity == Value(AuthorityGS1, s.keyType, e.fields[1..]) && e.fields[1].name == GS1CompanyPrefix
    && e.scheme == s.id && e.tagLength == e.bitLen == s.def.tagLength <= 8 * |bits|
    && e.bits == bits[..s.def.tagLength / 8]
    && AllDigits(e.fields[0].value)
    && e.control == Gs1Control(ValueOf(e.fields[0].value), o.partition, |e.fields[1].value|)
  }

  /**
   * A decoded tag names its scheme by its first byte and its option by its partition bits, and every component spells
   * the
   * number at its place, the first being the filter and the others the identity.
   */
  lemma DecodedReads(reg: Registry, bits: seq<bv8>, bitLen: nat, t: Translation) returns (s: Scheme, o: LayoutOption)
    requires Decode(reg, bits, bitLen) == Success(t)
    ensures s in reg && WellFormedScheme(s) && o in s.def.options && bits != [] && s.def.header == bits[0] as int
    ensures s.def.tagLength <= bitLen <= 8 * |bits| && o.partition == Num(bits, s.partitionOff, s.partitionLen)
    ensures SpellsTag(s, o, bits, t)
  {
    hide Decode, LiteralsHold;
    s, o := DecodeInversion(reg, bits, bitLen, t);
    OptionShape(s, o);
    var values := FieldValues(o, bits);
    forall i | 0 <= i < |o.binaryFields|
      ensures ReadsField(o.tagFields[i], o.binaryFields[i], bits, t.encoding.fields[i])
    {
      FieldRead(s, o, bits, i);
    }
    PrefixLength(s, o, values);
    TagTailIsPure(s, o, values);
    hide WellFormedScheme, WellFormedOption, InRange, Fits, Render;
    assert t.encoding.fields[1] == t.encoding.fields[1..][0];
  }

  lemma FieldRead(s: Scheme, o: LayoutOption, bits: seq<bv8>, i: nat)
    requires WellFormedOption(s, o) && Fits(o, |bits|) && InRange(o, FieldValues(o, bits))
    requires i < |o.binaryFields| == |o.tagFields|
    ensures ReadsField(o.tagFields[i], o.binaryFields[i], bits, Components(o.tagFields, FieldValues(o, bits))[i])
  {
    hide TiledOption, PureOption, Render;
    assert WellFormedBinary(o.binaryFields[i], o.tagFields[i], s.def.tagLength);
    RenderMeans(o.tagFields[i], FieldValues(o, bits)[i]);
  }

  lemma NumPrefix(bits: seq<bv8>, n: nat, off: nat, len: nat)
    requires n <= |bits| && off + len <= 8 * n
    ensures Num(bits[..n], off, len) == Num(bits, off, len)
  {
    NumDependsOnBits(bits[..n], bits, off, len);
  }

  /** Decoding never looks beyond the significant bits. */
  lemma DecodePrefix(reg: Registry, bits: seq<bv8>, bitLen: nat, n: nat)
    requires n <= |bits| && bitLen <= 8 * n
    ensures Decode(reg, bits[..n], bitLen) == Decode(reg, bits, bitLen)
  {
    hide LookupHeader, WellFormedScheme, DecodeScheme;
    if bitLen >= 8 {
      NumPrefix(bits, n, 0, 8);
      var found := LookupHeader(reg, Num(bits, 0, 8));
      if found.Some? {
        DecodeSchemePrefix(found.value, bits, bitLen, n);
      }
    }
  }

  lemma DecodeSchemePrefix(s: Scheme, bits: seq<bv8>, bitLen: nat, n: nat)
    requires WellFormedScheme(s) && n <= |bits| && bitLen <= 8 * n
    ensures DecodeScheme(s, bits[..n], bitLen) == DecodeScheme(s, bits, bitLen)
  {
    hide WellFormedOption, LiteralsHold, InRange, FieldValues, TranslationOf;
    if s.def.tagLength <= bitLen {
      NumPrefix(bits, n, s.partitionOff, s.partitionLen);
      var partition := Num(bits, s.partitionOff, s.partitionLen);
      OptionMember(s.def.options, partition);
      var opt := Layout.OptionByPartition(s.def.options, partition);
      if opt.Some? {
        OptionFits(s, opt.value);
        OptionShape(s, opt.value);
        ReadPrefix(opt.value, bits, n);
        assert bits[..n][..s.def.tagLength / 8] == bits[..s.def.tagLength / 8];
      }
    }
  }

  /**
   * Which tags are refused, and why: too few bits for the header or for the scheme it names, a header of no scheme, a
   * partition value of no option, a literal that differs, a field beyond its maximum, in this order.
   */
  lemma DecodeRefuses(reg: Registry, bits: seq<bv8>, bitLen: nat, e: Error)
    requires Decode(reg, bits, bitLen) == Failure(e)
    ensures e.Truncated? <==>
              || bitLen < 8 || 8 * |bits| < bitLen
              || exists s | s in reg :: s.def.header == bits[0] as int && bitLen < s.def.tagLength
    ensures e.UnknownHeader? <==>
              8 <= bitLen <= 8 * |bits| && forall s | s in reg :: s.def.header != bits[0] as int
    ensures e.UnknownPartition? || e.ReservedBits? || e.FieldValue? ==>
              exists s | s in reg ::
                && WellFormedScheme(s) && s.def.header == bits[0] as int && s.def.tagLength <= bitLen <= 8 * |bits|
                && RefusedBy(s, bits, e)
    ensures e.Truncated? || e.UnknownHeader? || e.UnknownPartition? || e.ReservedBits? || e.FieldValue?
  {
    hide WellFormedScheme, DecodeScheme, LookupHeader, RefusedBy;
    if 8 <= bitLen <= 8 * |bits| {
      ByteNum(bits, 0);
      var header := bits[0] as int;
      forall s | s in reg && s.def.header == header
        ensures LookupHeader(reg, header) == Some(s)
      {
        LookupRegistered(reg, s);
      }
      if LookupHeader(reg, header).Some? {
        var s := LookupHeader(reg, header).value;
        SchemeRefuses(s, bits, bitLen, e);
      }
    }
  }

  /** Why a tag of the scheme with bits enough is refused. */
  ghost predicate RefusedBy(s: Scheme, bits: seq<bv8>, e: Error)
    requires WellFormedScheme(s) && s.def.tagLength <= 8 * |bits|
  {
    var partition := Num(bits, s.partitionOff, s.partitionLen);
    match e
    case UnknownPartition => forall o | o in s.def.options :: o.partition != partition
    case ReservedBits =>
      exists o | o in s.def.options :: o.partition == partition && Fits(o, |bits|) &&
        exists i | 0 <= i < |o.binaryLiterals| ::
          Num(bits, o.binaryLiterals[i].off, o.binaryLiterals[i].len) != o.binaryLiterals[i].value
    case FieldValue =>
      exists o | o in s.def.options :: o.partition == partition && Fits(o, |bits|) && LiteralsHold(o, bits) &&
        exists i | 0 <= i < |o.binaryFields| ::
          Num(bits, o.binaryFields[i].off, o.binaryFields[i].len) > o.binaryFields[i].max
    case _ => false
  }

  lemma SchemeRefuses(s: Scheme, bits: seq<bv8>, bitLen: nat, e: Error)
    requires WellFormedScheme(s) && bitLen <= 8 * |bits| && DecodeScheme(s, bits, bitLen) == Failure(e)
    ensures e.Truncated? <==> bitLen < s.def.tagLength
    ensures !e.Truncated? ==> s.def.tagLength <= 8 * |bits| && RefusedBy(s, bits, e)
    ensures e.Truncated? || e.UnknownPartition? || e.ReservedBits? || e.FieldValue?
  {
    hide WellFormedOption, Contiguous, Sites;
    if s.def.tagLength <= bitLen {
      var partition := Num(bits, s.partitionOff, s.partitionLen);
      OptionMember(s.def.options, partition);
      var opt := Layout.OptionByPartition(s.def.options, partition);
      if opt.None? {
        forall o | o in s.def.options
          ensures o.partition != partition
        {
          SchemeOption(s, o);
        }
      } else {
        var o := opt.value;
        OptionFits(s, o);
        OptionShape(s, o);
        assert Fits(o, |bits|);
      }
    }
  }

  /** Decoding only looks at the tag's own bytes. */
  lemma ReadPrefix(o: LayoutOption, bits: seq<bv8>, n: nat)
    requires n <= |bits| && Fits(o, n) && Fits(o, |bits|)
    ensures LiteralsHold(o, bits[..n]) == LiteralsHold(o, bits)
    ensures FieldValues(o, bits[..n]) == FieldValues(o, bits)
  {
    forall i | 0 <= i < |o.binaryLiterals|
      ensures Num(bits[..n], o.binaryLiterals[i].off, o.binaryLiterals[i].len)
           == Num(bits, o.binaryLiterals[i].off, o.binaryLiterals[i].len)
    {
      NumDependsOnBits(bits[..n], bits, o.binaryLiterals[i].off, o.binaryLiterals[i].len);
    }
    forall i | 0 <= i < |o.binaryFields|
      ensures Num(bits[..n], o.binaryFields[i].off, o.binaryFields[i].len)
           == Num(bits, o.binaryFields[i].off, o.binaryFields[i].len)
    {
      NumDependsOnBits(bits[..n], bits, o.binaryFields[i].off, o.binaryFields[i].len);
    }
  }

  /** A tag whose literals and values are those of an option decodes through that option. */
  /** The held literals tell the header and the partition. */
  lemma HeldLiterals(s: Scheme, o: LayoutOption, bits: seq<bv8>)
    requires WellFormedScheme(s) && o in s.def.options && WellFormedOption(s, o) && Fits(o, |bits|)
    requires LiteralsHold(o, bits) && s.def.tagLength <= 8 * |bits|
    ensures 8 <= s.def.tagLength && Num(bits, 0, 8) == s.def.header
    ensures Num(bits, s.partitionOff, s.partitionLen) == o.partition
  {
    hide BinaryOption, PureOption, Contiguous, Sites;
    assert Num(bits, 0, 8) == s.def.header by {
      assert Num(bits, o.binaryLiterals[0].off, o.binaryLiterals[0].len) == o.binaryLiterals[0].value;
    }
    assert Num(bits, s.partitionOff, s.partitionLen) == o.partition by {
      assert Num(bits, o.binaryLiterals[1].off, o.binaryLiterals[1].len) == o.binaryLiterals[1].value;
    }
  }

  lemma DecodeOption(reg: Registry, s: Scheme, o: LayoutOption, bits: seq<bv8>, bitLen: nat)
    requires s in reg && WellFormedScheme(s) && o in s.def.options && WellFormedOption(s, o)
    requires s.def.tagLength <= bitLen <= 8 * |bits| && Fits(o, |bits|)
    requires LiteralsHold(o, bits) && InRange(o, FieldValues(o, bits))
    ensures Decode(reg, bits, bitLen) == Success(TranslationOf(s, o, FieldValues(o, bits), bits[..s.def.tagLength / 8]))
  {
    LookupRegistered(reg, s);
    SchemeOption(s, o);
    HeldLiterals(s, o, bits);
    hide WellFormedOption, WellFormedScheme, Fits, LookupHeader;
  }

  /** Everything a successful encode establishes. */
  lemma EncodeInversion(reg: Registry, v: Value, id: SchemeID, filter: nat, t: Translation)
    returns (s: Scheme, o: LayoutOption, values: seq<nat>)
    requires filter < 256 && Encode(reg, v, id, filter) == Success(t)
    ensures s in reg && s.id == id && WellFormedScheme(s) && o in s.def.options && WellFormedOption(s, o)
    ensures Lookup(reg, id) == Some(s) && OptionForValue(s, v) == Success(o)
    ensures InRange(o, values) && values[0] == filter && |values| == |o.tagFields|
    ensures t == TranslationOf(s, o, values, SchemeBits(s, o, values)) && t.identity == v
  {
    hide WellFormedScheme, WellFormedOption, OptionForValue, SchemeBits, EncodeOption, InRange, FirstByID;
    s := Lookup(reg, id).value;
    o := OptionForValue(s, v).value;
    SchemeOption(s, o);
    values := EncodeOptionInversion(s, o, v, filter, t);
  }

  /**
   * Why a built identity is refused: the label of no scheme, another authority or key type than the scheme's, and past
   * that only values and lengths the fields do not allow.
   */
  lemma EncodeRefuses(reg: Registry, v: Value, id: SchemeID, filter: nat, e: Error)
    requires Built(v) && filter < 256 && Encode(reg, v, id, filter) == Failure(e)
    ensures e.UnsupportedScheme? <==> forall s | s in reg :: s.id != id
    ensures e.CannotEncode? <==>
              exists s | s in reg :: s.id == id && (v.authority != AuthorityGS1 || v.keyType != s.keyType)
    ensures e.UnsupportedScheme? || e.CannotEncode? || e.FieldValue?
  {
    hide WellFormedScheme, Lookup, OptionForValue, EncodeOption, Built;
    forall s | s in reg && s.id == id
      ensures Lookup(reg, id) == Some(s)
    {
      LookupRegistered(reg, s);
    }
    var found := Lookup(reg, id);
    if found.Some? && v.authority == AuthorityGS1 && v.keyType == found.value.keyType {
      OptionRefuses(found.value, v, filter, e);
    }
  }

  lemma OptionRefuses(s: Scheme, v: Value, filter: nat, e: Error)
    requires WellFormedScheme(s) && Built(v) && v.keyType == s.keyType
    requires var o := OptionForValue(s, v);
             o == Failure(e) || (o.Success? && EncodeOption(s, o.value, v, filter) == Failure(e))
    ensures e.FieldValue?
  {
    var option := OptionForValue(s, v);
    if option.Success? {
      var o := option.value;
      SchemeOption(s, o);
      assert PureOption(s, o);
      hide WellFormedScheme, WellFormedOption, OptionForValue;
      var fields, comps := o.pureFields, v.components;
      assert Names(comps) == ComponentOrder(s.keyType);
      forall i | 0 <= i < |comps|
        ensures |fields| == |comps| && comps[i].name == fields[i].name
      {
        assert Names(comps)[i] == comps[i].name;
      }
      assert |fields| == |comps|;
      ValuesRefuse(fields, comps);
    }
  }

  lemma {:induction false} ValuesRefuse(fields: seq<URIField>, comps: seq<Component>)
    requires |fields| == |comps| && forall i | 0 <= i < |comps| :: comps[i].name == fields[i].name
    ensures ComponentValues(fields, comps).Failure? ==> ComponentValues(fields, comps).error.FieldValue?
  {
    if fields != [] {
      var rest := comps[1..];
      assert forall i | 0 <= i < |rest| :: rest[i] == comps[i + 1] && fields[1..][i] == fields[i + 1];
      ValuesRefuse(fields[1..], rest);
      assert comps[0].name == fields[0].name;
    }
  }

  lemma EncodeOptionInversion(s: Scheme, o: LayoutOption, v: Value, filter: nat, t: Translation)
    returns (values: seq<nat>)
    requires WellFormedScheme(s) && o in s.def.options && WellFormedOption(s, o) && filter < 256
    requires v.authority == AuthorityGS1 && v.keyType == s.keyType && EncodeOption(s, o, v, filter) == Success(t)
    ensures InRange(o, values) && values[0] == filter && |values| == |o.tagFields| > 0
    ensures t == TranslationOf(s, o, values, SchemeBits(s, o, values)) && t.identity == v
  {
    hide WellFormedScheme, SchemeBits;
    OptionShape(s, o);
    PureFieldsWellFormed(s, o);
    hide WellFormedOption;
    values := [filter] + ComponentValues(o.pureFields, v.components).value;
    ComponentValuesRender(o.pureFields, v.components, values[1..]);
    TagTailIsPure(s, o, values);
  }

  lemma PureFieldsWellFormed(s: Scheme, o: LayoutOption)
    requires WellFormedOption(s, o)
    ensures forall i | 0 <= i < |o.pureFields| :: WellFormedField(o.pureFields[i])
  {
    forall i | 0 <= i < |o.pureFields|
      ensures WellFormedField(o.pureFields[i])
    {
      assert WellFormedPure(o.pureFields[i], o.tagFields[i + 1]);
    }
  }

  /** The filter value a GS1 encoding was written with. */
  function WrittenFilter(e: Encoding): Option<nat> {
    match e.control
    case Gs1Control(filter, _, _) => Some(filter)
    case IsoControl(_, _, _) => None
  }

  lemma WholeBytes(s: Scheme)
    requires WellFormedScheme(s)
    ensures s.def.tagLength % 8 == 0
  {
    hide WellFormedOption;
  }

  /** Decoding what was encoded returns the same translation: identity, filter, partition, fields and bits. */
  lemma DecodeOfEncode(reg: Registry, v: Value, id: SchemeID, filter: nat, t: Translation)
    requires filter < 256 && Encode(reg, v, id, filter) == Success(t)
    ensures Decode(reg, t.encoding.bits, t.encoding.bitLen) == Success(t)
    ensures t.identity == v && t.encoding.scheme == id && WrittenFilter(t.encoding) == Some(filter)
  {
    hide WellFormedScheme, WellFormedOption, SchemeBits, InRange, Encode;
    var s, o, values := EncodeInversion(reg, v, id, filter, t);
    OptionShape(s, o);
    WholeBytes(s);
    ReadWritten(s, o, values);
    var bits := SchemeBits(s, o, values);
    assert bits[..s.def.tagLength / 8] == bits;
    DecodeOption(reg, s, o, bits, s.def.tagLength);
  }

  /** Encoding what was decoded restores the tag's bytes exactly, reserved bits included. */
  lemma EncodeOfDecode(reg: Registry, bits: seq<bv8>, bitLen: nat, t: Translation)
    requires Decode(reg, bits, bitLen) == Success(t)
    ensures t.encoding.tagLength <= 8 * |bits| && t.encoding.bits == bits[..t.encoding.tagLength / 8]
    ensures var filter := WrittenFilter(t.encoding);
            filter.Some? && filter.value < 256 && Encode(reg, t.identity, t.encoding.scheme, filter.value) == Success(t)
  {
    var s, o := DecodeInversion(reg, bits, bitLen, t);
    var values := FieldValues(o, bits);
    var own := bits[..s.def.tagLength / 8];
    ReadPrefix(o, bits, |own|);
    WriteRead(s, o, own);
    EncodeValues(reg, s, o, values);
  }

  lemma OptionShape(s: Scheme, o: LayoutOption)
    requires WellFormedOption(s, o)
    ensures |o.tagFields| == |o.binaryFields| == |o.pureFields| + 1 >= 2
  {
    hide TiledOption;
  }

  /** Any in-range values of an option are what encoding their identity writes. */
  lemma EncodeValues(reg: Registry, s: Scheme, o: LayoutOption, values: seq<nat>)
    requires s in reg && WellFormedScheme(s) && o in s.def.options && WellFormedOption(s, o) && InRange(o, values)
    ensures values[0] < 256
    ensures var t := TranslationOf(s, o, values, SchemeBits(s, o, values));
            Encode(reg, t.identity, s.id, values[0]) == Success(t)
  {
    hide WellFormedScheme, WellFormedOption, SchemeBits, EncodeOption, OptionForValue, InRange, Lookup, LookupHeader;
    LookupRegistered(reg, s);
    OptionShape(s, o);
    OptionOfValues(s, o, values);
    EncodeOptionValues(s, o, values);
  }

  lemma OptionOfValues(s: Scheme, o: LayoutOption, values: seq<nat>)
    requires WellFormedScheme(s) && o in s.def.options && WellFormedOption(s, o) && InRange(o, values)
    ensures OptionForValue(s, Value(AuthorityGS1, s.keyType, Components(o.tagFields, values)[1..])) == Success(o)
  {
    SchemeOption(s, o);
    TagTailIsPure(s, o, values);
    PrefixLength(s, o, values);
  }

  lemma EncodeOptionValues(s: Scheme, o: LayoutOption, values: seq<nat>)
    requires WellFormedScheme(s) && o in s.def.options && WellFormedOption(s, o) && InRange(o, values)
    ensures values[0] < 256
    ensures var t := TranslationOf(s, o, values, SchemeBits(s, o, values));
            EncodeOption(s, o, t.identity, values[0]) == Success(t)
  {
    hide WellFormedScheme, WellFormedOption, SchemeBits, WellFormedField, ComponentValue, Components;
    OptionShape(s, o);
    PureInRange(s, o, values);
    TagTailIsPure(s, o, values);
    ComponentValuesOfRender(o.pureFields, values[1..]);
    assert values == [values[0]] + values[1..];
  }

  /** The first component is the company prefix, and its length names the option. */
  lemma PrefixLength(s: Scheme, o: LayoutOption, values: seq<nat>)
    requires WellFormedScheme(s) && WellFormedOption(s, o) && InRange(o, values)
    ensures var c := Components(o.pureFields, values[1..])[0];
            c.name == GS1CompanyPrefix && |c.value| == o.gcpLength
  {
    hide TiledOption, BinaryOption, Render;
    OptionShape(s, o);
    PureInRange(s, o, values);
    RenderShape(o.pureFields[0], values[1]);
    assert o.pureFields[0].name == ComponentOrder(s.keyType)[0];
  }

  /** The translation carries identity v in scheme id with the given filter value. */
  predicate Carries(t: Translation, v: Value, id: SchemeID, filter: nat) {
    t.identity == v && t.encoding.scheme == id && WrittenFilter(t.encoding) == Some(filter)
  }

  /** Encoding succeeds exactly on what some tag decodes to. */
  lemma EncodableIff(reg: Registry, v: Value, id: SchemeID, filter: nat)
    requires filter < 256
    ensures Encode(reg, v, id, filter).Success? <==>
            exists bits, bitLen: nat, t :: Decode(reg, bits, bitLen) == Success(t) && Carries(t, v, id, filter)
  {
    if Encode(reg, v, id, filter).Success? {
      var t := Encode(reg, v, id, filter).value;
      DecodeOfEncode(reg, v, id, filter, t);
      assert Decode(reg, t.encoding.bits, t.encoding.bitLen) == Success(t) && Carries(t, v, id, filter);
    }
    if bits, bitLen: nat, t :| Decode(reg, bits, bitLen) == Success(t) && Carries(t, v, id, filter) {
      EncodeOfDecode(reg, bits, bitLen, t);
    }
  }

  /** A tag is determined by its identity, scheme and filter value. */
  lemma DecodeInjective(reg: Registry, a: seq<bv8>, m: nat, b: seq<bv8>, n: nat, t: Translation, u: Translation)
    requires Decode(reg, a, m) == Success(t) && Decode(reg, b, n) == Success(u)
    requires t.identity == u.identity && t.encoding.scheme == u.encoding.scheme
    requires WrittenFilter(t.encoding) == WrittenFilter(u.encoding)
    ensures t.encoding.bits == u.encoding.bits
  {
    EncodeOfDecode(reg, a, m, t);
    EncodeOfDecode(reg, b, n, u);
  }
}
