/**
 * The generated GS1 layout table (internal/tdt/tdtdef/schemes_gen.go): four schemes, seven options each. The options
 * of a scheme have one shape; a row holds the numbers in which they differ.
 */
module SchemeTable {
  import opened Wrappers
  import opened Bits
  import opened Decimal
  import opened Identity
  import opened Layout

  /** A zero padded field of the given length. */
  function Padded(name: ComponentName, length: nat, max: nat): URIField {
    URIField(name, length, true, '0', PadLeft, max)
  }

  /** A field without a declared length. */
  function Plain(name: ComponentName, max: nat): URIField {
    URIField(name, 0, false, '\0', PadNone, max)
  }

  /** An option's company prefix and the reference after it: digits, bits and maxima, on the tag and in the key. */
  datatype Row = Row(
    gcpLength: nat, partition: nat, gcpBits: nat, gcpMax: nat,
    refLength: nat, refBits: nat, refMax: nat, keyMax: nat)

  const SERIAL_MAX := 274877906943

  function Prefix(r: Row): URIField {
    Padded(GS1CompanyPrefix, r.gcpLength, r.gcpMax)
  }

  function PrefixBits(r: Row): BinaryField {
    BinaryField(GS1CompanyPrefix, 14, r.gcpBits, r.gcpMax)
  }

  /** SGTIN-96 and GRAI-96: a padded reference and a 38-bit serial number. */
  function WithSerial(header: nat, name: ComponentName, r: Row): LayoutOption {
    LayoutOption(
      r.gcpLength, r.partition,
      [BinaryField(FilterValue, 8, 3, 7), PrefixBits(r), BinaryField(name, 14 + r.gcpBits, r.refBits, r.refMax),
       BinaryField(Serial, 58, 38, SERIAL_MAX)],
      [BinaryLiteral(0, 8, header), BinaryLiteral(11, 3, r.partition)],
      [Padded(FilterValue, 1, 7), Prefix(r), Padded(name, r.refLength, r.refMax), Plain(Serial, SERIAL_MAX)],
      [Prefix(r), Padded(name, r.refLength, r.keyMax), Plain(Serial, SERIAL_MAX)])
  }

  /** SSCC-96: a padded serial reference, and 24 reserved bits. */
  function Reserved(r: Row): LayoutOption {
    LayoutOption(
      r.gcpLength, r.partition,
      [BinaryField(FilterValue, 8, 3, 7), PrefixBits(r),
       BinaryField(SerialReference, 14 + r.gcpBits, r.refBits, r.refMax)],
      [BinaryLiteral(0, 8, 49), BinaryLiteral(11, 3, r.partition), BinaryLiteral(72, 24, 0)],
      [Padded(FilterValue, 1, 7), Prefix(r), Padded(SerialReference, r.refLength, r.refMax)],
      [Prefix(r), Padded(SerialReference, r.refLength, r.keyMax)])
  }

  /** GIAI-96: an asset reference of no fixed length, which the key lets be longer than the tag does. */
  function Unpadded(r: Row): LayoutOption {
    LayoutOption(
      r.gcpLength, r.partition,
      [BinaryField(FilterValue, 8, 3, 7), PrefixBits(r),
       BinaryField(IndividualAssetReference, 14 + r.gcpBits, r.refBits, r.refMax)],
      [BinaryLiteral(0, 8, 52), BinaryLiteral(11, 3, r.partition)],
      [Padded(FilterValue, 1, 7), Prefix(r), Plain(IndividualAssetReference, r.refMax)],
      [Prefix(r), Plain(IndividualAssetReference, r.keyMax)])
  }

  function SgtinRows(): seq<Row> {
    [Row(6, 6, 20, 999999, 7, 24, 9999999, 9999999),
     Row(7, 5, 24, 9999999, 6, 20, 999999, 999999),
     Row(8, 4, 27, 99999999, 5, 17, 99999, 99999),
     Row(9, 3, 30, 999999999, 4, 14, 9999, 9999),
     Row(10, 2, 34, 9999999999, 3, 10, 999, 999),
     Row(11, 1, 37, 99999999999, 2, 7, 99, 99),
     Row(12, 0, 40, 999999999999, 1, 4, 9, 9)]
  }

  function Sgtin96(): Scheme {
    Scheme(SchemeDef(96, 48, 8, "urn:epc:tag:sgtin-96:", "urn:epc:id:sgtin:",
                     seq(7, i requires 0 <= i < 7 => WithSerial(48, ItemReference, SgtinRows()[i]))),
           "sgtin-96", "sgtin", KeyTypeSGTIN, 11, 3)
  }

  function SsccRows(): seq<Row> {
    [Row(6, 6, 20, 999999, 11, 38, 99999999999, 99999999999),
     Row(7, 5, 24, 9999999, 10, 34, 9999999999, 9999999999),
     Row(8, 4, 27, 99999999, 9, 31, 999999999, 999999999),
     Row(9, 3, 30, 999999999, 8, 28, 99999999, 99999999),
     Row(10, 2, 34, 9999999999, 7, 24, 9999999, 9999999),
     Row(11, 1, 37, 99999999999, 6, 21, 999999, 999999),
     Row(12, 0, 40, 999999999999, 5, 18, 99999, 99999)]
  }

  function Sscc96(): Scheme {
    Scheme(SchemeDef(96, 49, 8, "urn:epc:tag:sscc-96:", "urn:epc:id:sscc:",
                     seq(7, i requires 0 <= i < 7 => Reserved(SsccRows()[i]))),
           "sscc-96", "sscc", KeyTypeSSCC, 11, 3)
  }

  function GiaiRows(): seq<Row> {
    [Row(6, 6, 20, 999999, 0, 62, 4611686018427387903, 9999999999999999999),
     Row(7, 5, 24, 9999999, 0, 58, 288230376151711743, 999999999999999999),
     Row(8, 4, 27, 99999999, 0, 55, 36028797018963967, 99999999999999999),
     Row(9, 3, 30, 999999999, 0, 52, 4503599627370495, 9999999999999999),
     Row(10, 2, 34, 9999999999, 0, 48, 281474976710655, 999999999999999),
     Row(11, 1, 37, 99999999999, 0, 45, 35184372088831, 99999999999999),
     Row(12, 0, 40, 999999999999, 0, 42, 4398046511103, 9999999999999)]
  }

  function Giai96(): Scheme {
    Scheme(SchemeDef(96, 52, 8, "urn:epc:tag:giai-96:", "urn:epc:id:giai:",
                     seq(7, i requires 0 <= i < 7 => Unpadded(GiaiRows()[i]))),
           "giai-96", "giai", KeyTypeGIAI, 11, 3)
  }

  function GraiRows(): seq<Row> {
    [Row(6, 6, 20, 999999, 6, 24, 999999, 999999),
     Row(7, 5, 24, 9999999, 5, 20, 99999, 99999),
     Row(8, 4, 27, 99999999, 4, 17, 9999, 9999),
     Row(9, 3, 30, 999999999, 3, 14, 999, 999),
     Row(10, 2, 34, 9999999999, 2, 10, 99, 99),
     Row(11, 1, 37, 99999999999, 1, 7, 9, 9),
     Row(12, 0, 40, 999999999999, 0, 4, 0, 0)]
  }

  function Grai96(): Scheme {
    Scheme(SchemeDef(96, 51, 8, "urn:epc:tag:grai-96:", "urn:epc:id:grai:",
                     seq(7, i requires 0 <= i < 7 => WithSerial(51, AssetType, GraiRows()[i]))),
           "grai-96", "grai", KeyTypeGRAI, 11, 3)
  }

  const SCHEMES: seq<Scheme> := [Sgtin96(), Sscc96(), Giai96(), Grai96()]

  // ------------------------------------------------------- the table is well formed

  /** The parts of a scheme its options are checked against. */
  predicate Frame(s: Scheme, keyType: KeyType, header: nat) {
    s.keyType == keyType && s.def.header == header && s.def.headerBits == 8 && s.def.tagLength == 96 &&
    s.partitionOff == 11 && s.partitionLen == 3
  }

  /** The scheme's label and key, and the URI prefixes made of them. */
  predicate Named(s: Scheme) {
    && s.id != "" && ':' !in s.id && ':' !in s.key
    && s.def.tagURIPrefix == "urn:epc:tag:" + s.id + ":"
    && s.def.pureURIPrefix == "urn:epc:id:" + s.key + ":"
  }

  /** A row's numbers fit each other, with so many bits for prefix and reference together. */
  predicate Fits(r: Row, bits: nat) {
    && r.gcpLength > 0 && r.partition < 8 && r.gcpBits + r.refBits == bits
    && r.gcpMax < DigitCapacity(r.gcpLength) && r.gcpMax < Capacity(r.gcpBits) && r.refMax < Capacity(r.refBits)
    && r.refMax <= r.keyMax <= MAX_UINT64
  }

  /** A padded reference also fits its digits. */
  predicate FitsPadded(r: Row, bits: nat) {
    Fits(r, bits) && r.keyMax < DigitCapacity(r.refLength)
  }

  lemma WithSerialTiled(s: Scheme, header: nat, name: ComponentName, r: Row)
    requires Frame(s, s.keyType, header) && header < 256 && FitsPadded(r, 44)
    requires ComponentOrder(s.keyType) == [GS1CompanyPrefix, name, Serial]
    ensures TiledOption(s, WithSerial(header, name, r))
    ensures WithSerial(header, name, r).partition == r.partition && WithSerial(header, name, r).gcpLength == r.gcpLength
  {
  }

  lemma WithSerialBinary(s: Scheme, header: nat, name: ComponentName, r: Row)
    requires Frame(s, s.keyType, header) && header < 256 && FitsPadded(r, 44)
    requires ComponentOrder(s.keyType) == [GS1CompanyPrefix, name, Serial]
    ensures BinaryOption(s, WithSerial(header, name, r))
  {
  }

  lemma WithSerialPure(s: Scheme, header: nat, name: ComponentName, r: Row)
    requires Frame(s, s.keyType, header) && header < 256 && FitsPadded(r, 44)
    requires ComponentOrder(s.keyType) == [GS1CompanyPrefix, name, Serial]
    ensures PureOption(s, WithSerial(header, name, r))
  {
  }

  lemma ReservedTiled(s: Scheme, r: Row)
    requires Frame(s, KeyTypeSSCC, 49) && FitsPadded(r, 58)
    ensures TiledOption(s, Reserved(r))
    ensures Reserved(r).partition == r.partition && Reserved(r).gcpLength == r.gcpLength
  {
  }

  lemma ReservedBinary(s: Scheme, r: Row)
    requires Frame(s, KeyTypeSSCC, 49) && FitsPadded(r, 58)
    ensures BinaryOption(s, Reserved(r))
  {
  }

  lemma ReservedPure(s: Scheme, r: Row)
    requires Frame(s, KeyTypeSSCC, 49) && FitsPadded(r, 58)
    ensures PureOption(s, Reserved(r))
  {
  }

  lemma UnpaddedTiled(s: Scheme, r: Row)
    requires Frame(s, KeyTypeGIAI, 52) && Fits(r, 82)
    ensures TiledOption(s, Unpadded(r))
    ensures Unpadded(r).partition == r.partition && Unpadded(r).gcpLength == r.gcpLength
  {
  }

  lemma UnpaddedBinary(s: Scheme, r: Row)
    requires Frame(s, KeyTypeGIAI, 52) && Fits(r, 82)
    ensures BinaryOption(s, Unpadded(r))
  {
  }

  lemma UnpaddedPure(s: Scheme, r: Row)
    requires Frame(s, KeyTypeGIAI, 52) && Fits(r, 82)
    ensures PureOption(s, Unpadded(r))
  {
  }

  /** Seven rows, the company prefix one digit longer and the partition value one lower each time. */
  predicate Graded(rows: seq<Row>) {
    |rows| == 7 && forall i | 0 <= i < 7 :: rows[i].gcpLength == 6 + i && rows[i].partition == 6 - i
  }

  lemma GradedOptions(s: Scheme, rows: seq<Row>)
    requires Graded(rows) && |s.def.options| == 7
    requires forall i | 0 <= i < 7 ::
      s.def.options[i].gcpLength == rows[i].gcpLength && s.def.options[i].partition == rows[i].partition
    ensures forall i, j | 0 <= i < j < 7 :: s.def.options[i].partition != s.def.options[j].partition
    ensures forall i, j | 0 <= i < j < 7 :: s.def.options[i].gcpLength != s.def.options[j].gcpLength
  {
  }

  lemma SgtinRowsFit()
    ensures Graded(SgtinRows()) && forall r | r in SgtinRows() :: FitsPadded(r, 44)
  {
  }

  lemma Sgtin96WellFormed()
    ensures WellFormedScheme(Sgtin96())
  {
    hide TiledOption, BinaryOption, PureOption, WithSerial, SgtinRows, Fits, FitsPadded, Graded;
    var s, rows := Sgtin96(), SgtinRows();
    SgtinRowsFit();
    forall i | 0 <= i < 7
      ensures WellFormedOption(s, s.def.options[i])
      ensures s.def.options[i].gcpLength == rows[i].gcpLength && s.def.options[i].partition == rows[i].partition
    {
      assert rows[i] in rows;
      WithSerialTiled(s, 48, ItemReference, rows[i]);
      WithSerialBinary(s, 48, ItemReference, rows[i]);
      WithSerialPure(s, 48, ItemReference, rows[i]);
    }
    hide WellFormedOption;
    GradedOptions(s, rows);
  }

  lemma SsccRowsFit()
    ensures Graded(SsccRows()) && forall r | r in SsccRows() :: FitsPadded(r, 58)
  {
  }

  lemma Sscc96WellFormed()
    ensures WellFormedScheme(Sscc96())
  {
    hide TiledOption, BinaryOption, PureOption, Reserved, SsccRows, Fits, FitsPadded, Graded;
    var s, rows := Sscc96(), SsccRows();
    SsccRowsFit();
    forall i | 0 <= i < 7
      ensures WellFormedOption(s, s.def.options[i])
      ensures s.def.options[i].gcpLength == rows[i].gcpLength && s.def.options[i].partition == rows[i].partition
    {
      assert rows[i] in rows;
      ReservedTiled(s, rows[i]);
      ReservedBinary(s, rows[i]);
      ReservedPure(s, rows[i]);
    }
    hide WellFormedOption;
    GradedOptions(s, rows);
  }

  lemma GiaiRowsFit()
    ensures Graded(GiaiRows()) && forall r | r in GiaiRows() :: Fits(r, 82)
  {
  }

  lemma Giai96WellFormed()
    ensures WellFormedScheme(Giai96())
  {
    hide TiledOption, BinaryOption, PureOption, Unpadded, GiaiRows, Fits, FitsPadded, Graded;
    var s, rows := Giai96(), GiaiRows();
    GiaiRowsFit();
    forall i | 0 <= i < 7
      ensures WellFormedOption(s, s.def.options[i])
      ensures s.def.options[i].gcpLength == rows[i].gcpLength && s.def.options[i].partition == rows[i].partition
    {
      assert rows[i] in rows;
      UnpaddedTiled(s, rows[i]);
      UnpaddedBinary(s, rows[i]);
      UnpaddedPure(s, rows[i]);
    }
    hide WellFormedOption;
    GradedOptions(s, rows);
  }

  lemma GraiRowsFit()
    ensures Graded(GraiRows()) && forall r | r in GraiRows() :: FitsPadded(r, 44)
  {
  }

  lemma Grai96WellFormed()
    ensures WellFormedScheme(Grai96())
  {
    hide TiledOption, BinaryOption, PureOption, WithSerial, GraiRows, Fits, FitsPadded, Graded;
    var s, rows := Grai96(), GraiRows();
    GraiRowsFit();
    forall i | 0 <= i < 7
      ensures WellFormedOption(s, s.def.options[i])
      ensures s.def.options[i].gcpLength == rows[i].gcpLength && s.def.options[i].partition == rows[i].partition
    {
      assert rows[i] in rows;
      WithSerialTiled(s, 51, AssetType, rows[i]);
      WithSerialBinary(s, 51, AssetType, rows[i]);
      WithSerialPure(s, 51, AssetType, rows[i]);
    }
    hide WellFormedOption;
    GradedOptions(s, rows);
  }

  /** Every registered scheme is well formed, and no two share a header, label, key or key type. */
  lemma TableWellFormed()
    ensures WellFormedRegistry(SCHEMES)
  {
    hide WellFormedScheme;
    Sgtin96WellFormed();
    Sscc96WellFormed();
    Giai96WellFormed();
    Grai96WellFormed();
    assert Sgtin96().id[2] == 't' && Giai96().id[1] == 'i' && Sscc96().id[1] == 's' && Grai96().id[1] == 'r';
    assert Sgtin96().key[2] == 't' && Giai96().key[1] == 'i' && Sscc96().key[1] == 's' && Grai96().key[1] == 'r';
  }
}
