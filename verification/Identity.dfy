/** Canonical identities, compiled patterns and translations (internal/identity, internal/tdt/tdtcore). */
module Identity {
  import opened Wrappers
  import opened Bits
  import opened Decimal

  datatype Authority = AuthorityUnknown | AuthorityGS1 | AuthorityISO6346 | AuthorityISO15459

  datatype KeyType =
    | KeyTypeUnknown | KeyTypeSGTIN | KeyTypeSSCC | KeyTypeGRAI | KeyTypeGIAI
    | KeyTypeFreightContainer | KeyTypeTransportUnit

  datatype ComponentName =
    | GS1CompanyPrefix | ItemReference | SerialReference | Serial | AssetType | IndividualAssetReference
    | DataIdentifier | OwnerCode | EquipmentCategory | ContainerSerial | CheckDigit | ISOIdentifier
    | FilterValue

  /** Error classes. FieldValue covers every per-field validation failure. */
  datatype Error =
    | Truncated | UnknownHeader | UnknownPartition | ReservedBits | UnsupportedScheme | CannotEncode
    | FieldValue | MalformedURI | MalformedPattern | PatternStar | PatternLevel | PatternFields
    | UnknownKeyType | ComponentLayout
    | UnrecognisedNonGS1 | UnresolvedSemantics | LengthMismatch | XPCPresent | AmbiguousEncoding

  datatype Component = Component(name: ComponentName, value: string)

  type SchemeID = string

  // ------------------------------------------------------------ identities

  datatype Value = Value(authority: Authority, keyType: KeyType, components: seq<Component>) {

    /** The first component with the given name. */
    function Find(name: ComponentName): Option<Component> {
      FirstNamed(components, name)
    }
  }

  function FirstNamed(components: seq<Component>, name: ComponentName): (r: Option<Component>) {
    if components == [] then None
    else if components[0].name == name then Some(components[0])
    else FirstNamed(components[1..], name)
  }

  function ComponentOrder(k: KeyType): seq<ComponentName> {
    match k
    case KeyTypeSGTIN => [GS1CompanyPrefix, ItemReference, Serial]
    case KeyTypeSSCC => [GS1CompanyPrefix, SerialReference]
    case KeyTypeGRAI => [GS1CompanyPrefix, AssetType, Serial]
    case KeyTypeGIAI => [GS1CompanyPrefix, IndividualAssetReference]
    case KeyTypeFreightContainer => [OwnerCode, EquipmentCategory, ContainerSerial, CheckDigit]
    case KeyTypeTransportUnit => [DataIdentifier, ISOIdentifier]
    case KeyTypeUnknown => []
  }

  function Names(components: seq<Component>): (r: seq<ComponentName>)
    ensures |r| == |components|
    ensures forall i | 0 <= i < |r| :: r[i] == components[i].name
  {
    seq(|components|, i requires 0 <= i < |components| => components[i].name)
  }

  function NewValue(authority: Authority, keyType: KeyType, components: seq<Component>): Result<Value, Error> {
    if keyType.KeyTypeUnknown? then Failure(UnknownKeyType)
    else if Names(components) != ComponentOrder(keyType) then Failure(ComponentLayout)
    else Success(Value(authority, keyType, components))
  }

  /** The values NewValue builds. A zero Value, which Go code can also hold, is not one of them. */
  predicate Built(v: Value) {
    NewValue(v.authority, v.keyType, v.components) == Success(v)
  }

  // -------------------------------------------------------------- patterns

  /** LevelUnset is the level of a zero Pattern, which no constructor returns. */
  datatype Level = LevelUnset | LevelIdentity | LevelEncoding

  /** One field constraint: an exact text, a star, or an inclusive numeric range. */
  datatype FieldPattern =
    | FieldExact(name: ComponentName, text: string)
    | FieldAny(name: ComponentName)
    | FieldRange(name: ComponentName, lo: nat, hi: nat)

  datatype BitFields = BitFields(value: seq<bv8>, mask: seq<bv8>, bitLen: nat)

  predicate WellFormedBits(b: BitFields) {
    |b.value| == |b.mask| && (b.bitLen + 7) / 8 <= |b.value|
  }

  /** A value/mask test over the leading bits of a tag, as its constructor admits it. */
  type BitPattern = b: BitFields | WellFormedBits(b) witness BitFields([], [], 0)

  function NewBitPattern(value: seq<bv8>, mask: seq<bv8>, bitLen: nat): Result<BitPattern, Error> {
    var b := BitFields(value, mask, bitLen);
    if WellFormedBits(b) then Success(b) else Failure(PatternFields)
  }

  predicate MatchBits(b: BitPattern, bits: seq<bv8>, bitLen: nat) {
    && b.bitLen <= bitLen
    && |b.mask| <= |bits|
    && forall i | 0 <= i < |b.mask| :: bits[i] & b.mask[i] == b.value[i] & b.mask[i]
  }

  /** The byte-wise test says: every bit the mask sets agrees with the value. */
  lemma MatchBitsByBit(b: BitPattern, bits: seq<bv8>, bitLen: nat)
    requires b.bitLen <= bitLen && |b.mask| <= |bits|
    ensures MatchBits(b, bits, bitLen) <==>
            forall i: nat | i < 8 * |b.mask| :: BitAt(b.mask, i) ==> BitAt(bits, i) == BitAt(b.value, i)
  {
    if forall i: nat | i < 8 * |b.mask| :: BitAt(b.mask, i) ==> BitAt(bits, i) == BitAt(b.value, i) {
      forall n | 0 <= n < |b.mask|
        ensures bits[n] & b.mask[n] == b.value[n] & b.mask[n]
      {
        forall k | 0 <= k < 8 && ByteBit(b.mask[n], k)
          ensures ByteBit(bits[n], k) == ByteBit(b.value[n], k)
        {
          assert BitAt(b.mask, 8 * n + k);
        }
        MaskedByte(bits[n], b.value[n], b.mask[n]);
      }
    }
    if MatchBits(b, bits, bitLen) {
      forall i: nat | i < 8 * |b.mask| && BitAt(b.mask, i)
        ensures BitAt(bits, i) == BitAt(b.value, i)
      {
        MaskedByte(bits[i / 8], b.value[i / 8], b.mask[i / 8]);
      }
    }
  }

  datatype Pattern = Pattern(level: Level, authority: Authority, keyType: KeyType, scheme: SchemeID,
                             fields: seq<FieldPattern>, bits: Option<BitPattern>, text: string)

  predicate StarSuffix(fields: seq<FieldPattern>) {
    forall i, j | 0 <= i < j < |fields| :: fields[i].FieldAny? ==> fields[j].FieldAny?
  }

  function PatternNames(fields: seq<FieldPattern>): (r: seq<ComponentName>)
    ensures |r| == |fields|
    ensures forall i | 0 <= i < |r| :: r[i] == fields[i].name
  {
    seq(|fields|, i requires 0 <= i < |fields| => fields[i].name)
  }

  function NewPattern(level: Level, authority: Authority, keyType: KeyType, scheme: SchemeID,
                      fields: seq<FieldPattern>, bits: Option<BitPattern>, text: string)
    : Result<Pattern, Error>
  {
    if level.LevelUnset? then Failure(PatternLevel)
    else if level.LevelIdentity? && (scheme != "" || bits.Some?) then Failure(PatternLevel)
    else if level.LevelEncoding? && scheme == "" then Failure(PatternLevel)
    else if fields == [] then Failure(PatternFields)
    else if !FieldsAccepted(fields, false) then Failure(FieldsError(fields, false))
    else if level.LevelIdentity? && PatternNames(fields) != ComponentOrder(keyType) then Failure(PatternFields)
    else Success(Pattern(level, authority, keyType, scheme, fields, bits, text))
  }

  /** The constructor's scan: no exact or range field after a star, no empty range. */
  predicate FieldsAccepted(fields: seq<FieldPattern>, seenAny: bool) {
    fields == [] || match fields[0]
      case FieldAny(_) => FieldsAccepted(fields[1..], true)
      case FieldExact(_, _) => !seenAny && FieldsAccepted(fields[1..], seenAny)
      case FieldRange(_, lo, hi) => !seenAny && lo <= hi && FieldsAccepted(fields[1..], seenAny)
  }

  function FieldsError(fields: seq<FieldPattern>, seenAny: bool): Error
    requires !FieldsAccepted(fields, seenAny)
  {
    match fields[0]
    case FieldAny(_) => FieldsError(fields[1..], true)
    case FieldExact(_, _) => if seenAny then PatternStar else FieldsError(fields[1..], seenAny)
    case FieldRange(_, lo, hi) =>
      if seenAny then PatternStar else if lo > hi then PatternFields else FieldsError(fields[1..], seenAny)
  }

  /** The scan accepts only lists whose stars form a suffix, which is what prefix matching relies on. */
  lemma {:induction false} AcceptedStarSuffix(fields: seq<FieldPattern>, seenAny: bool)
    requires FieldsAccepted(fields, seenAny)
    ensures StarSuffix(fields)
    ensures seenAny ==> forall i | 0 <= i < |fields| :: fields[i].FieldAny?
  {
    if fields != [] {
      var rest := fields[1..];
      AcceptedStarSuffix(rest, seenAny || fields[0].FieldAny?);
      forall i, j | 0 <= i < j < |fields| && fields[i].FieldAny?
        ensures fields[j].FieldAny?
      {
        assert fields[j] == rest[j - 1];
        assert i > 0 ==> fields[i] == rest[i - 1];
      }
      forall i | 0 <= i < |fields| && seenAny
        ensures fields[i].FieldAny?
      {
        assert i > 0 ==> fields[i] == rest[i - 1];
      }
    }
  }

  /** Patterns the constructor can produce. */
  predicate WellFormedPattern(p: Pattern) {
    NewPattern(p.level, p.authority, p.keyType, p.scheme, p.fields, p.bits, p.text) == Success(p)
  }

  predicate MatchField(f: FieldPattern, c: Component) {
    f.name == c.name && match f
      case FieldAny(_) => true
      case FieldExact(_, text) => c.value == text
      case FieldRange(_, lo, hi) => var n := ParseUint(c.value); n.Some? && lo <= n.value <= hi
  }

  predicate MatchComponents(p: Pattern, components: seq<Component>) {
    && |components| == |p.fields|
    && forall i | 0 <= i < |p.fields| :: MatchField(p.fields[i], components[i])
  }

  predicate MatchValue(p: Pattern, v: Value) {
    p.level.LevelIdentity? && p.authority == v.authority && p.keyType == v.keyType &&
    MatchComponents(p, v.components)
  }

  // ---------------------------------------------------------- translations

  /** Encoding-control fields: how an identity was written, not what it is. */
  datatype Control =
    | Gs1Control(filter: nat, partition: nat, gcpLength: nat)
    | IsoControl(dataIdentifier: string, residueBits: nat, afi: nat)

  datatype Encoding = Encoding(scheme: SchemeID, tagLength: nat, bitLen: nat, control: Control,
                               bits: seq<bv8>, fields: seq<Component>)

  datatype Translation = Translation(identity: Value, encoding: Encoding)

  /** The reference match semantics for whole translations: fields only, never the bit test. */
  predicate MatchTranslation(t: Translation, p: Pattern) {
    match p.level
    case LevelUnset => false
    case LevelIdentity => MatchValue(p, t.identity)
    case LevelEncoding => p.scheme == t.encoding.scheme && MatchComponents(p, t.encoding.fields)
  }
}
