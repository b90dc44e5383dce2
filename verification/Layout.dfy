/** Tag layouts (internal/tdt/tdtdef) and the registry's layout checks (internal/tdt/gs1epc/scheme.go). */
module Layout {
  import opened Wrappers
  import opened Bits
  import opened Decimal
  import opened Identity

  datatype PadDir = PadNone | PadLeft | PadRight

  datatype BinaryField = BinaryField(name: ComponentName, off: nat, len: nat, max: nat)

  datatype BinaryLiteral = BinaryLiteral(off: nat, len: nat, value: nat)

  datatype URIField =
    URIField(name: ComponentName, length: nat, fixed: bool, padChar: char, padDir: PadDir, max: nat)

  datatype LayoutOption =
    LayoutOption(gcpLength: nat, partition: nat, binaryFields: seq<BinaryField>,
                 binaryLiterals: seq<BinaryLiteral>, tagFields: seq<URIField>, pureFields: seq<URIField>)

  datatype SchemeDef =
    SchemeDef(tagLength: nat, header: nat, headerBits: nat, tagURIPrefix: string, pureURIPrefix: string,
              options: seq<LayoutOption>)

  /** A registered scheme: its definition, labels, key type and partition site. */
  datatype Scheme =
    Scheme(def: SchemeDef, id: SchemeID, key: string, keyType: KeyType, partitionOff: nat, partitionLen: nat)

  function OptionByLength(options: seq<LayoutOption>, gcpLength: nat): Option<LayoutOption> {
    if options == [] then None
    else if options[0].gcpLength == gcpLength then Some(options[0])
    else OptionByLength(options[1..], gcpLength)
  }

  function OptionByPartition(options: seq<LayoutOption>, partition: nat): Option<LayoutOption> {
    if options == [] then None
    else if options[0].partition == partition then Some(options[0])
    else OptionByPartition(options[1..], partition)
  }

  // ------------------------------------------------------- well-formedness

  /** A run of bits: [off, off + len). */
  datatype Site = Site(off: nat, len: nat) {
    predicate Covers(i: nat) {
      off <= i < off + len
    }
  }

  function LiteralSite(o: LayoutOption, k: nat): Site
    requires k < |o.binaryLiterals|
  {
    Site(o.binaryLiterals[k].off, o.binaryLiterals[k].len)
  }

  function FieldSite(o: LayoutOption, k: nat): Site
    requires k < |o.binaryFields|
  {
    Site(o.binaryFields[k].off, o.binaryFields[k].len)
  }

  /** Where literal k stands in tag order: header, filter, partition, other fields, trailing literals. */
  function LiteralRank(o: LayoutOption, k: nat): nat {
    if k == 0 then 0 else if k == 1 then 2 else |o.binaryFields| + k
  }

  function FieldRank(o: LayoutOption, k: nat): nat {
    if k == 0 then 1 else k + 2
  }

  /** All runs of an option in tag order. */
  function Sites(o: LayoutOption): (r: seq<Site>)
    requires |o.binaryLiterals| >= 2 && |o.binaryFields| >= 1
    ensures |r| == |o.binaryLiterals| + |o.binaryFields|
    ensures forall k | 0 <= k < |o.binaryLiterals| :: r[LiteralRank(o, k)] == LiteralSite(o, k)
    ensures forall k | 0 <= k < |o.binaryFields| :: r[FieldRank(o, k)] == FieldSite(o, k)
  {
    [LiteralSite(o, 0), FieldSite(o, 0), LiteralSite(o, 1)] +
    seq(|o.binaryFields| - 1, k requires 0 <= k < |o.binaryFields| - 1 => FieldSite(o, k + 1)) +
    seq(|o.binaryLiterals| - 2, k requires 0 <= k < |o.binaryLiterals| - 2 => LiteralSite(o, k + 2))
  }

  /** The runs follow one another without gap or overlap from bit 0 to bit end. */
  predicate Contiguous(sites: seq<Site>, end: nat) {
    && |sites| > 0 && sites[0].off == 0
    && (forall i | 1 <= i < |sites| :: sites[i].off == sites[i - 1].off + sites[i - 1].len)
    && sites[|sites| - 1].off + sites[|sites| - 1].len == end
  }

  /** Contiguous runs are pairwise disjoint, ordered and inside the range. */
  lemma {:induction false} ContiguousOrdered(sites: seq<Site>, end: nat, i: nat, j: nat)
    requires Contiguous(sites, end) && i < j < |sites|
    ensures sites[i].off + sites[i].len <= sites[j].off
    decreases j
  {
    if i < j - 1 {
      ContiguousOrdered(sites, end, i, j - 1);
    }
  }

  lemma ContiguousWithin(sites: seq<Site>, end: nat, i: nat)
    requires Contiguous(sites, end) && i < |sites|
    ensures sites[i].off + sites[i].len <= end
  {
    if i < |sites| - 1 {
      ContiguousOrdered(sites, end, i, |sites| - 1);
    }
  }

  /** Contiguous runs leave no bit of the range uncovered. */
  lemma ContiguousCovers(sites: seq<Site>, end: nat, i: nat) returns (k: nat)
    requires Contiguous(sites, end) && i < end
    ensures k < |sites| && sites[k].Covers(i)
  {
    k := 0;
    while !sites[k].Covers(i)
      invariant k < |sites| && sites[k].off <= i
      decreases |sites| - k
    {
      k := k + 1;
    }
  }

  /** How many numbers a run of len bits can hold, for the widths layouts use; 0 for any other width. */
  function Capacity(len: nat): nat {
    if len == 3 then 0x8
    else if len == 4 then 0x10
    else if len == 7 then 0x80
    else if len == 8 then 0x100
    else if len == 10 then 0x400
    else if len == 14 then 0x4000
    else if len == 17 then 0x20000
    else if len == 18 then 0x40000
    else if len == 20 then 0x100000
    else if len == 21 then 0x200000
    else if len == 24 then 0x1000000
    else if len == 27 then 0x8000000
    else if len == 28 then 0x10000000
    else if len == 30 then 0x40000000
    else if len == 31 then 0x80000000
    else if len == 34 then 0x400000000
    else if len == 37 then 0x2000000000
    else if len == 38 then 0x4000000000
    else if len == 40 then 0x10000000000
    else if len == 42 then 0x40000000000
    else if len == 45 then 0x200000000000
    else if len == 48 then 0x1000000000000
    else if len == 52 then 0x10000000000000
    else if len == 55 then 0x80000000000000
    else if len == 58 then 0x400000000000000
    else if len == 62 then 0x4000000000000000
    else 0
  }

  /** How many numbers len decimal digits can hold, for the lengths layouts use; 0 for any other length. */
  function DigitCapacity(len: nat): nat {
    if len == 0 then 1
    else if len == 1 then 10
    else if len == 2 then 100
    else if len == 3 then 1000
    else if len == 4 then 10000
    else if len == 5 then 100000
    else if len == 6 then 1000000
    else if len == 7 then 10000000
    else if len == 8 then 100000000
    else if len == 9 then 1000000000
    else if len == 10 then 10000000000
    else if len == 11 then 100000000000
    else if len == 12 then 1000000000000
    else 0
  }

  lemma CapacityIsPower(len: nat)
    ensures Capacity(len) <= Pow2(len)
  {
    hide Pow2;
    WidthPowers();
  }

  lemma WidthPowers()
    ensures Pow2(3) == 0x8 && Pow2(4) == 0x10 && Pow2(7) == 0x80
    ensures Pow2(8) == 0x100 && Pow2(10) == 0x400 && Pow2(14) == 0x4000
    ensures Pow2(17) == 0x20000 && Pow2(18) == 0x40000 && Pow2(20) == 0x100000
    ensures Pow2(21) == 0x200000 && Pow2(24) == 0x1000000 && Pow2(27) == 0x8000000
    ensures Pow2(28) == 0x10000000 && Pow2(30) == 0x40000000 && Pow2(31) == 0x80000000
    ensures Pow2(34) == 0x400000000 && Pow2(37) == 0x2000000000 && Pow2(38) == 0x4000000000
    ensures Pow2(40) == 0x10000000000 && Pow2(42) == 0x40000000000 && Pow2(45) == 0x200000000000
    ensures Pow2(48) == 0x1000000000000 && Pow2(52) == 0x10000000000000 && Pow2(55) == 0x80000000000000
    ensures Pow2(58) == 0x400000000000000 && Pow2(62) == 0x4000000000000000
  {
  }

  lemma DigitCapacityIsPower(len: nat)
    ensures DigitCapacity(len) <= Pow10(len)
  {
  }

  /** Numeric text fields that parse and render can invert. */
  predicate WellFormedField(f: URIField) {
    && f.max <= MAX_UINT64
    && (f.fixed ==> f.padDir == PadLeft && f.padChar == '0' && f.max < DigitCapacity(f.length))
    && (!f.fixed ==> f.length == 0)
  }

  predicate SameRendering(a: URIField, b: URIField) {
    a.name == b.name && a.length == b.length && a.fixed == b.fixed && a.padChar == b.padChar && a.padDir == b.padDir
  }

  predicate WellFormedLiteral(l: BinaryLiteral, tagLength: nat) {
    l.value < Capacity(l.len) && l.off + l.len <= tagLength
  }

  /** A tag field and the bits that carry it declare the same maximum, which those bits can hold. */
  predicate WellFormedBinary(b: BinaryField, t: URIField, tagLength: nat) {
    && WellFormedField(t)
    && b.name == t.name && b.max == t.max
    && b.max < Capacity(b.len) && b.len <= 64 && b.off + b.len <= tagLength
  }

  /** The pure identity field renders like the tag field and accepts every value the tag field does. */
  predicate WellFormedPure(p: URIField, t: URIField) {
    WellFormedField(p) && SameRendering(t, p) && t.max <= p.max
  }

  /** The option's literals and fields tile the whole tag, header and partition first. */
  predicate TiledOption(s: Scheme, o: LayoutOption) {
    && |o.binaryLiterals| >= 2 && |o.binaryFields| >= 2
    && (forall i | 0 <= i < |o.binaryLiterals| :: WellFormedLiteral(o.binaryLiterals[i], s.def.tagLength))
    && o.binaryLiterals[0] == BinaryLiteral(0, s.def.headerBits, s.def.header)
    && o.binaryLiterals[1] == BinaryLiteral(s.partitionOff, s.partitionLen, o.partition)
    && Contiguous(Sites(o), s.def.tagLength)
  }

  predicate BinaryOption(s: Scheme, o: LayoutOption) {
    && |o.tagFields| == |o.binaryFields| >= 2
    && (forall i | 0 <= i < |o.binaryFields| :: WellFormedBinary(o.binaryFields[i], o.tagFields[i], s.def.tagLength))
    && o.tagFields[0].name == FilterValue && o.tagFields[0].max < 256
  }

  /** The pure identity fields are the tag fields after the filter, in canonical component order. */
  predicate PureOption(s: Scheme, o: LayoutOption) {
    && |o.pureFields| + 1 == |o.tagFields| && |o.pureFields| == |ComponentOrder(s.keyType)| >= 1
    && (forall i | 0 <= i < |o.pureFields| :: WellFormedPure(o.pureFields[i], o.tagFields[i + 1]))
    && (forall i | 0 <= i < |o.pureFields| :: o.pureFields[i].name == ComponentOrder(s.keyType)[i])
    && o.pureFields[0].fixed && o.pureFields[0].length == o.gcpLength > 0
  }

  predicate WellFormedOption(s: Scheme, o: LayoutOption) {
    TiledOption(s, o) && BinaryOption(s, o) && PureOption(s, o)
  }

  predicate WellFormedScheme(s: Scheme) {
    && s.def.tagLength % 8 == 0 && s.def.headerBits == 8 && s.def.header < 256
    && s.partitionOff + s.partitionLen <= s.def.tagLength
    && s.keyType in {KeyTypeSGTIN, KeyTypeSSCC, KeyTypeGRAI, KeyTypeGIAI}
    && |s.def.options| > 0
    && (forall i | 0 <= i < |s.def.options| :: WellFormedOption(s, s.def.options[i]))
    && (forall i, j | 0 <= i < j < |s.def.options| :: s.def.options[i].partition != s.def.options[j].partition)
    && (forall i, j | 0 <= i < j < |s.def.options| :: s.def.options[i].gcpLength != s.def.options[j].gcpLength)
    && s.id != "" && ':' !in s.id && ':' !in s.key
    && s.def.tagURIPrefix == "urn:epc:tag:" + s.id + ":"
    && s.def.pureURIPrefix == "urn:epc:id:" + s.key + ":"
  }

  /** Schemes that pass the layout checks and share no header, label, key or key type. */
  predicate WellFormedRegistry(schemes: seq<Scheme>) {
    && (forall s | s in schemes :: WellFormedScheme(s))
    && (forall i, j | 0 <= i < j < |schemes| :: Distinct(schemes[i], schemes[j]))
  }

  predicate Distinct(a: Scheme, b: Scheme) {
    a.def.header != b.def.header && a.id != b.id && a.key != b.key && a.keyType != b.keyType
  }

  /** The registered schemes. SchemeTable shows that the generated table is one. */
  type Registry = schemes: seq<Scheme> | WellFormedRegistry(schemes) witness []

  // ------------------------------------------------------ registry checks

  function FieldNamed(fields: seq<BinaryField>, name: ComponentName): (r: Option<BinaryField>) {
    if fields == [] then None
    else
      // The registry's loop keeps the last match.
      var later := FieldNamed(fields[1..], name);
      if later.Some? then later else if fields[0].name == name then Some(fields[0]) else None
  }

  function LiteralEndingAt(literals: seq<BinaryLiteral>, at: nat): Option<BinaryLiteral> {
    if literals == [] then None
    else if literals[0].off + literals[0].len == at then Some(literals[0])
    else LiteralEndingAt(literals[1..], at)
  }

  /** The literal right before the company prefix is the partition. */
  function PartitionSite(o: LayoutOption): Option<Site> {
    var gcp := FieldNamed(o.binaryFields, GS1CompanyPrefix);
    if gcp.None? || gcp.value.len == 0 then None
    else
      var l := LiteralEndingAt(o.binaryLiterals, gcp.value.off);
      if l.None? then None else Some(Site(l.value.off, l.value.len))
  }

  lemma {:induction false} FieldNamedLast(fields: seq<BinaryField>, name: ComponentName, k: nat)
    requires k < |fields| && fields[k].name == name
    requires forall i | 0 <= i < |fields| && i != k :: fields[i].name != name
    ensures FieldNamed(fields, name) == Some(fields[k])
    decreases |fields|
  {
    if k > 0 {
      FieldNamedLast(fields[1..], name, k - 1);
    } else {
      FieldNamedNone(fields[1..], name);
    }
  }

  lemma {:induction false} FieldNamedNone(fields: seq<BinaryField>, name: ComponentName)
    requires forall i | 0 <= i < |fields| :: fields[i].name != name
    ensures FieldNamed(fields, name).None?
    decreases |fields|
  {
    if fields != [] {
      FieldNamedNone(fields[1..], name);
    }
  }

  /** The company prefix comes second, and no other field has its name. */
  lemma CompanyPrefixSecond(s: Scheme, o: LayoutOption)
    requires s.keyType in {KeyTypeSGTIN, KeyTypeSSCC, KeyTypeGRAI, KeyTypeGIAI} && BinaryOption(s, o) &&
             PureOption(s, o)
    ensures FieldNamed(o.binaryFields, GS1CompanyPrefix) == Some(o.binaryFields[1])
    ensures o.binaryFields[0].len > 0 && o.binaryFields[1].len > 0
  {
    forall i | 0 <= i < |o.binaryFields|
      ensures o.binaryFields[i].name == if i == 0 then FilterValue else ComponentOrder(s.keyType)[i - 1]
    {
      assert WellFormedBinary(o.binaryFields[i], o.tagFields[i], s.def.tagLength);
      if i > 0 {
        assert WellFormedPure(o.pureFields[i - 1], o.tagFields[i - 1 + 1]);
      }
    }
    assert WellFormedBinary(o.binaryFields[0], o.tagFields[0], s.def.tagLength);
    assert WellFormedBinary(o.binaryFields[1], o.tagFields[1], s.def.tagLength);
    FieldNamedLast(o.binaryFields, GS1CompanyPrefix, 1);
  }

  /** The registry's search finds the partition where the scheme says it is, in every option alike. */
  lemma PartitionFound(s: Scheme, o: LayoutOption)
    requires s.keyType in {KeyTypeSGTIN, KeyTypeSSCC, KeyTypeGRAI, KeyTypeGIAI} && WellFormedOption(s, o)
    ensures PartitionSite(o) == Some(Site(s.partitionOff, s.partitionLen))
  {
    CompanyPrefixSecond(s, o);
    FirstSites(s, o);
    hide WellFormedOption;
    var ls, at := o.binaryLiterals, o.binaryFields[1].off;
    assert LiteralEndingAt(ls[1..], at) == Some(ls[1]);
    assert LiteralEndingAt(ls, at) == LiteralEndingAt(ls[1..], at);
  }

  /** Header, filter, partition and company prefix follow one another. */
  lemma FirstSites(s: Scheme, o: LayoutOption)
    requires TiledOption(s, o)
    ensures var ls, fs := o.binaryLiterals, o.binaryFields;
      && ls[0].off + ls[0].len == fs[0].off && fs[0].off + fs[0].len == ls[1].off && ls[1].off + ls[1].len == fs[1].off
      && ls[1].off == s.partitionOff && ls[1].len == s.partitionLen
  {
    var sites := Sites(o);
    assert sites[LiteralRank(o, 0)] == LiteralSite(o, 0) && sites[FieldRank(o, 0)] == FieldSite(o, 0);
    assert sites[LiteralRank(o, 1)] == LiteralSite(o, 1) && sites[FieldRank(o, 1)] == FieldSite(o, 1);
    hide Sites;
  }
}
