/** Non-GS1 tag data: recognition, interpretation, encoding (internal/tdt/iso). */
module Iso {
  import opened Wrappers
  import opened Bits
  import opened Identity
  import opened IsoText
  import Text

  datatype Compaction =
    | CompactionNone | Compaction6Bit | CompactionUTF8 | CompactionBinary | CompactionURNCode40 | CompactionOctet8Bit

  /** The data construct registered to one application family identifier. */
  datatype Construct = Construct(afi: nat, compaction: Compaction, supported: bool, dataIdentifiers: seq<string>)

  function TransportUnitScheme(): SchemeID {
    "iso17360-transport-unit"
  }

  function Scheme17363(): SchemeID {
    "iso17363"
  }

  lemma SchemesDiffer()
    ensures TransportUnitScheme() != Scheme17363()
  {
    assert |TransportUnitScheme()| != |Scheme17363()|;
  }

  /** The recognised data identifiers of transport units. */
  function LicencePlates(): seq<string> {
    ["J", "1J", "2J", "3J", "4J", "5J", "6J"]
  }

  function SerialIdentifiers(): seq<string> {
    ["25S", "25T", "I"]
  }

  function ContainerIdentifiers(): seq<string> {
    ["1B", "25B"]
  }

  /** The registered constructs (internal/tdt/iso/registry_gen.go), in three parts: those before the supported ones. */
  function EarlyConstructs(): seq<Construct> {
    [
      Construct(0x00, CompactionNone, false, []),
      Construct(0x01, CompactionBinary, false, []),
      Construct(0x02, Compaction6Bit, false, []),
      Construct(0x03, CompactionUTF8, false, []),
      Construct(0x04, CompactionNone, false, []),
      Construct(0x05, CompactionNone, false, []),
      Construct(0x06, CompactionNone, false, []),
      Construct(0x07, CompactionNone, false, []),
      Construct(0x90, Compaction6Bit, false, []),
      Construct(0x91, CompactionNone, false, []),
      Construct(0x92, CompactionOctet8Bit, false, []),
      Construct(0xa0, CompactionURNCode40, false, []),
      Construct(0xa1, Compaction6Bit, false, SerialIdentifiers())
    ]
  }

  /** The supply chain identifiers, among them the supported ones. */
  function SupplyChainConstructs(): seq<Construct> {
    [
      Construct(0xa2, Compaction6Bit, true, LicencePlates()),
      Construct(0xa3, Compaction6Bit, false, ContainerIdentifiers()),
      Construct(0xa4, Compaction6Bit, false, SerialIdentifiers()),
      Construct(0xa5, Compaction6Bit, false, SerialIdentifiers()),
      Construct(0xa6, Compaction6Bit, false, SerialIdentifiers()),
      Construct(0xa7, Compaction6Bit, true, LicencePlates()),
      Construct(0xa8, Compaction6Bit, false, ContainerIdentifiers()),
      Construct(0xa9, CompactionNone, true, []),
      Construct(0xaa, CompactionNone, true, [])
    ]
  }

  /** The rest. */
  function LateConstructs(): seq<Construct> {
    [
      Construct(0xab, CompactionNone, false, []),
      Construct(0xac, CompactionUTF8, false, []),
      Construct(0xad, CompactionBinary, false, []),
      Construct(0xae, CompactionBinary, false, []),
      Construct(0xaf, CompactionNone, false, []),
      Construct(0xb0, CompactionOctet8Bit, false, []),
      Construct(0xbb, CompactionNone, false, []),
      Construct(0xbc, CompactionUTF8, false, []),
      Construct(0xbd, CompactionURNCode40, false, []),
      Construct(0xc0, Compaction6Bit, false, ["5R"]),
      Construct(0xc1, CompactionNone, false, []),
      Construct(0xc2, CompactionURNCode40, false, []),
      Construct(0xcf, CompactionNone, false, [])
    ]
  }

  function Constructs(): seq<Construct> {
    EarlyConstructs() + SupplyChainConstructs() + LateConstructs()
  }

  // ------------------------------------------------------------ recognition

  function FirstByAFI(cs: seq<Construct>, afi: nat): (r: Option<Construct>)
    ensures r.Some? ==> r.value in cs && r.value.afi == afi
  {
    if cs == [] then None else if cs[0].afi == afi then Some(cs[0]) else FirstByAFI(cs[1..], afi)
  }

  function Recognise(afi: nat): Result<Construct, Error> {
    match FirstByAFI(Constructs(), afi)
    case None => Failure(UnrecognisedNonGS1)
    case Some(c) => if c.supported then Success(c) else Failure(UnsupportedScheme)
  }

  function SchemeOf(c: Construct): Result<SchemeID, Error> {
    if c.afi == 0xa2 || c.afi == 0xa7 then Success(TransportUnitScheme())
    else if c.afi == 0xa9 || c.afi == 0xaa then Success(Scheme17363())
    else Failure(UnsupportedScheme)
  }

  function AFIForScheme(scheme: SchemeID): Result<nat, Error> {
    if scheme == TransportUnitScheme() then Success(0xa2)
    else if scheme == Scheme17363() then Success(0xa9)
    else Failure(UnsupportedScheme)
  }

  /** The construct the encoder writes. */
  function TransportUnitConstruct(): Construct {
    Construct(0xa2, Compaction6Bit, true, LicencePlates())
  }

  lemma {:induction false} FirstOfJoined(a: seq<Construct>, b: seq<Construct>, afi: nat)
    ensures FirstByAFI(a + b, afi) == if FirstByAFI(a, afi).Some? then FirstByAFI(a, afi) else FirstByAFI(b, afi)
  {
    if a == [] {
      assert a + b == b;
    } else {
      assert (a + b)[1..] == a[1..] + b;
      FirstOfJoined(a[1..], b, afi);
    }
  }

  lemma {:induction false} NotFound(cs: seq<Construct>, afi: nat)
    requires forall i | 0 <= i < |cs| :: cs[i].afi != afi
    ensures FirstByAFI(cs, afi).None?
  {
    if cs != [] {
      NotFound(cs[1..], afi);
    }
  }

  lemma EarlyFacts()
    ensures forall i | 0 <= i < |EarlyConstructs()| ::
            EarlyConstructs()[i].afi < 0xa2 && !EarlyConstructs()[i].supported
  {
  }

  lemma LateFacts()
    ensures forall i | 0 <= i < |LateConstructs()| :: LateConstructs()[i].afi > 0xaa && !LateConstructs()[i].supported
  {
  }

  /** An entry is found when none before it has its identifier. */
  lemma {:induction false} FoundAt(cs: seq<Construct>, i: nat)
    requires i < |cs| && forall j | 0 <= j < i :: cs[j].afi != cs[i].afi
    ensures FirstByAFI(cs, cs[i].afi) == Some(cs[i])
  {
    if i > 0 {
      FoundAt(cs[1..], i - 1);
    }
  }

  lemma SupplyChainFacts()
    ensures var cs := SupplyChainConstructs();
      && FirstByAFI(cs, 0xa2) == Some(TransportUnitConstruct())
      && FirstByAFI(cs, 0xa7) == Some(Construct(0xa7, Compaction6Bit, true, LicencePlates()))
      && FirstByAFI(cs, 0xa9) == Some(Construct(0xa9, CompactionNone, true, []))
      && FirstByAFI(cs, 0xaa) == Some(Construct(0xaa, CompactionNone, true, []))
    ensures forall i | 0 <= i < |SupplyChainConstructs()| && SupplyChainConstructs()[i].supported ::
              SupplyChainConstructs()[i].afi in {0xa2, 0xa7, 0xa9, 0xaa}
  {
    hide LicencePlates, SerialIdentifiers, ContainerIdentifiers, FirstByAFI;
    var cs := SupplyChainConstructs();
    FoundAt(cs, 0);
    FoundAt(cs, 5);
    FoundAt(cs, 7);
    FoundAt(cs, 8);
  }

  /**
   * What the register supports: the two transport-unit identifiers with the licence plates, and two without any
   * carriage.
   */
  lemma Supported(afi: nat)
    ensures Recognise(0xa2) == Success(TransportUnitConstruct())
    ensures Recognise(0xa7) == Success(Construct(0xa7, Compaction6Bit, true, LicencePlates()))
    ensures Recognise(0xa9) == Success(Construct(0xa9, CompactionNone, true, []))
    ensures Recognise(0xaa) == Success(Construct(0xaa, CompactionNone, true, []))
    ensures Recognise(afi).Success? ==> afi == 0xa2 || afi == 0xa7 || afi == 0xa9 || afi == 0xaa
  {
    hide FirstByAFI, LicencePlates, EarlyConstructs, SupplyChainConstructs, LateConstructs;
    EarlyFacts();
    LateFacts();
    SupplyChainFacts();
    LookUp(0xa2);
    LookUp(0xa7);
    LookUp(0xa9);
    LookUp(0xaa);
    LookUp(afi);
  }

  /** A lookup only ever succeeds among the supply chain identifiers. */
  lemma LookUp(afi: nat)
    ensures 0xa2 <= afi <= 0xaa ==> FirstByAFI(Constructs(), afi) == FirstByAFI(SupplyChainConstructs(), afi)
    ensures Recognise(afi).Success? ==> FirstByAFI(SupplyChainConstructs(), afi) == Some(Recognise(afi).value)
  {
    hide EarlyConstructs, SupplyChainConstructs, LateConstructs, FirstByAFI;
    EarlyFacts();
    LateFacts();
    var e, m, l := EarlyConstructs(), SupplyChainConstructs(), LateConstructs();
    FirstOfJoined(e + m, l, afi);
    FirstOfJoined(e, m, afi);
    if 0xa2 <= afi <= 0xaa {
      NotFound(e, afi);
      NotFound(l, afi);
    }
  }

  // --------------------------------------------------------- interpretation

  const IDENTITY_LIMIT := 50

  function AuthorityForDI(di: string): Option<Authority> {
    if di in LicencePlates() + ["25S", "25T", "25B", "5R"] then Some(AuthorityISO15459)
    else if di == "7B" then Some(AuthorityISO6346)
    else None
  }

  /** Going through the candidates, the one that is a longer prefix of the text than any before it. */
  function LongestDI(dis: seq<string>, text: string, best: string): string {
    if dis == [] then best
    else LongestDI(dis[1..], text, if |dis[0]| > |best| && Text.HasPrefix(text, dis[0]) then dis[0] else best)
  }

  function SplitDI(c: Construct, text: string): Option<(string, string)> {
    var best := LongestDI(c.dataIdentifiers, text, "");
    if best == "" || !Text.HasPrefix(text, best) then None else Some((best, text[|best|..]))
  }

  lemma {:induction false} LongestDIMeans(dis: seq<string>, text: string, best: string)
    requires Text.HasPrefix(text, best)
    ensures var r := LongestDI(dis, text, best);
      && Text.HasPrefix(text, r) && (r == best || r in dis) && |best| <= |r|
      && forall d | d in dis && Text.HasPrefix(text, d) :: |d| <= |r|
    decreases |dis|
  {
    if dis != [] {
      var next := if |dis[0]| > |best| && Text.HasPrefix(text, dis[0]) then dis[0] else best;
      LongestDIMeans(dis[1..], text, next);
    }
  }

  predicate UpperAlnum(c: char) {
    '0' <= c <= '9' || 'A' <= c <= 'Z'
  }

  /**
   * The transport unit rules: not empty, at most fifty characters with the qualifier, upper-case letters and
   * digits.
   */
  function CheckIdentity(di: string, body: string): Option<Error> {
    if body == "" then Some(FieldValue)
    else if |di| + |body| > IDENTITY_LIMIT then Some(LengthMismatch)
    else if exists i | 0 <= i < |body| :: !UpperAlnum(body[i]) then Some(FieldValue)
    else None
  }

  function CheckControls(t: IsoText.Text): Option<Error> {
    if t.controls == [] then None
    else if t.controls[0].code == CODE_GS || t.controls[0].code == CODE_EOT then Some(UnresolvedSemantics)
    else Some(FieldValue)
  }

  function TransportUnit(authority: Authority, di: string, body: string): Value {
    Value(authority, KeyTypeTransportUnit, [Component(DataIdentifier, di), Component(ISOIdentifier, body)])
  }

  function InterpretTransportUnit(c: Construct, text: string): Result<(Value, string), Error> {
    match SplitDI(c, text)
    case None => Failure(UnsupportedScheme)
    case Some((di, body)) =>
      var authority := AuthorityForDI(di);
      if authority.None? then Failure(UnsupportedScheme)
      else match CheckIdentity(di, body)
        case Some(e) => Failure(e)
        case None =>
          var v := TransportUnit(authority.value, di, body);
          var value :- NewValue(v.authority, v.keyType, v.components);
          Success((value, di))
  }

  function Interpret(c: Construct, t: IsoText.Text): Result<(Value, string), Error> {
    var scheme :- SchemeOf(c);
    var controls := CheckControls(t);
    if controls.Some? then Failure(controls.value)
    else if t.residueBits != 0 then Failure(UnresolvedSemantics)
    else if scheme == TransportUnitScheme() then InterpretTransportUnit(c, t.characters)
    else Failure(UnresolvedSemantics)
  }

  // ------------------------------------------------------------ translation

  function DecodeFor(c: Construct, bits: seq<bv8>, bitLen: nat): Result<IsoText.Text, Error> {
    match c.compaction
    case Compaction6Bit => DecodeText(bits, bitLen)
    case CompactionNone => Failure(UnresolvedSemantics)
    case _ => Failure(UnsupportedScheme)
  }

  function TranslationOf(v: Value, scheme: SchemeID, di: string, afi: nat, bits: seq<bv8>, bitLen: nat): Translation {
    Translation(v, Encoding(scheme, bitLen, bitLen, IsoControl(di, 0, afi), bits, v.components))
  }

  function Decode(bits: seq<bv8>, bitLen: nat, afi: nat): Result<Translation, Error> {
    var c :- Recognise(afi);
    var scheme :- SchemeOf(c);
    var text :- DecodeFor(c, bits, bitLen);
    var (value, di) :- Interpret(c, text);
    if 8 * |bits| < bitLen then Failure(Truncated)
    else Success(TranslationOf(value, scheme, di, afi, bits[..(bitLen + 7) / 8], bitLen))
  }

  function Encode(v: Value, scheme: SchemeID): Result<Translation, Error> {
    var afi :- AFIForScheme(scheme);
    var c :- Recognise(afi);
    if !c.compaction.Compaction6Bit? then Failure(UnresolvedSemantics)
    else if !v.keyType.KeyTypeTransportUnit? then Failure(CannotEncode)
    else
      var di := v.Find(DataIdentifier);
      if di.None? || di.value.value !in c.dataIdentifiers then Failure(UnsupportedScheme)
      else
        var authority := AuthorityForDI(di.value.value);
        if authority.None? || v.authority != authority.value then Failure(CannotEncode)
        else
          var body := v.Find(ISOIdentifier);
          if body.None? then Failure(FieldValue)
          else EncodeParts(v, c, scheme, afi, di.value.value, body.value.value)
  }

  function EncodeParts(v: Value, c: Construct, scheme: SchemeID, afi: nat, di: string, body: string)
    : Result<Translation, Error>
  {
    var bad := CheckIdentity(di, body);
    if bad.Some? then Failure(bad.value)
    else if SplitDI(c, di + body) != Some((di, body)) then Failure(FieldValue)
    else
      var (bits, bitLen) :- EncodeText(di + body);
      Success(TranslationOf(v, scheme, di, afi, bits, bitLen))
  }

  // ------------------------------------------------------------ round trips

  /** A built transport unit identity is its two components. */
  lemma TransportUnitIs(v: Value)
    requires Built(v) && v.keyType.KeyTypeTransportUnit?
    ensures v.Find(DataIdentifier).Some? && v.Find(ISOIdentifier).Some?
    ensures v == TransportUnit(v.authority, v.Find(DataIdentifier).value.value, v.Find(ISOIdentifier).value.value)
  {
    assert Names(v.components) == [DataIdentifier, ISOIdentifier];
    assert Names(v.components)[0] == DataIdentifier && Names(v.components)[1] == ISOIdentifier;
    var cs := v.components;
    assert cs == [cs[0], cs[1]] && cs[1..] == [cs[1]];
    assert FirstNamed(cs, ISOIdentifier) == FirstNamed(cs[1..], ISOIdentifier) == Some(cs[1]);
  }

  lemma BuiltTransportUnit(authority: Authority, di: string, body: string)
    ensures Built(TransportUnit(authority, di, body))
  {
    assert Names(TransportUnit(authority, di, body).components) == [DataIdentifier, ISOIdentifier];
  }

  /** What an accepted encoding is made of. */
  lemma EncodeInversion(v: Value, scheme: SchemeID, t: Translation) returns (di: string, body: string)
    requires Built(v) && Encode(v, scheme) == Success(t)
    ensures scheme == TransportUnitScheme() && v == TransportUnit(v.authority, di, body)
    ensures AuthorityForDI(di) == Some(v.authority) && CheckIdentity(di, body).None?
    ensures SplitDI(TransportUnitConstruct(), di + body) == Some((di, body))
    ensures EncodeText(di + body) == Success((t.encoding.bits, t.encoding.bitLen))
    ensures t == TranslationOf(v, TransportUnitScheme(), di, 0xa2, t.encoding.bits, t.encoding.bitLen)
  {
    hide Recognise, EncodeText, SplitDI, CheckIdentity, AuthorityForDI, Built, LicencePlates, TransportUnitScheme;
    hide Scheme17363;
    Supported(0xa2);
    SchemesDiffer();
    TransportUnitIs(v);
    di, body := v.Find(DataIdentifier).value.value, v.Find(ISOIdentifier).value.value;
    var encoded := EncodeText(di + body).value;
    assert encoded == (encoded.0, encoded.1);
  }

  /**
   * Whatever identity the encoder accepts comes back from its bits, and the bits are at most 18 whole words:
   * fifty characters at most, in groups of eight.
   */
  lemma DecodeOfEncode(v: Value, scheme: SchemeID, t: Translation)
    requires Built(v) && Encode(v, scheme) == Success(t)
    ensures Decode(t.encoding.bits, t.encoding.bitLen, 0xa2) == Success(t) && t.identity == v
    ensures t.encoding.control.IsoControl? && t.encoding.control.afi == 0xa2
    ensures t.encoding.bitLen % WORD_BITS == 0 && 0 < t.encoding.bitLen <= 18 * WORD_BITS
    ensures 8 * |t.encoding.bits| == t.encoding.bitLen
  {
    hide Recognise, EncodeText, DecodeText, SplitDI, AuthorityForDI, CheckIdentity, Built, Encode, LicencePlates;
    hide TransportUnitScheme, Scheme17363;
    var di, body := EncodeInversion(v, scheme, t);
    Supported(0xa2);
    IsoText.DecodeOfEncode(di + body, t.encoding.bits, t.encoding.bitLen);
    CheckedLength(di, body);
    AtMostEighteenWords(|di + body|);
    BuiltTransportUnit(v.authority, di, body);
    var bits := t.encoding.bits;
    assert bits[..|bits|] == bits && (t.encoding.bitLen + 7) / 8 == |bits|;
  }

  lemma CheckedLength(di: string, body: string)
    requires CheckIdentity(di, body).None?
    ensures 0 < |di + body| <= IDENTITY_LIMIT
  {
  }

  lemma AtMostEighteenWords(n: nat)
    requires 0 < n <= IDENTITY_LIMIT && n % 8 == 0
    ensures 6 * n <= 18 * WORD_BITS
  {
  }

  /** What a decoded tag is made of. */
  lemma DecodeInversion(bits: seq<bv8>, bitLen: nat, afi: nat, t: Translation)
    returns (text: IsoText.Text, di: string, body: string)
    requires Decode(bits, bitLen, afi) == Success(t)
    ensures (afi == 0xa2 || afi == 0xa7) && DecodeText(bits, bitLen) == Success(text)
    ensures text.controls == [] && text.residueBits == 0 && text.characters == di + body
    ensures SplitDI(TransportUnitConstruct(), di + body) == Some((di, body)) && di in LicencePlates()
    ensures AuthorityForDI(di) == Some(AuthorityISO15459) && CheckIdentity(di, body).None?
    ensures t == TranslationOf(TransportUnit(AuthorityISO15459, di, body), TransportUnitScheme(), di, afi,
                               bits[..(bitLen + 7) / 8], bitLen)
  {
    hide DecodeText, CheckIdentity, Recognise, SplitDI, AuthorityForDI, Built, LicencePlates, TransportUnitScheme;
    hide Scheme17363;
    Supported(afi);
    SchemesDiffer();
    var c := Recognise(afi).value;
    text := DecodeText(bits, bitLen).value;
    var split := SplitDI(c, text.characters).value;
    di, body := split.0, split.1;
    SplitMeans(c, text.characters);
    PlatesAuthority(di);
    BuiltTransportUnit(AuthorityISO15459, di, body);
  }

  /** Decoding never looks beyond the significant bits. */
  lemma DecodePrefix(bits: seq<bv8>, bitLen: nat, afi: nat, n: nat)
    requires n <= |bits| && bitLen <= 8 * n
    ensures Decode(bits[..n], bitLen, afi) == Decode(bits, bitLen, afi)
  {
    hide Recognise, Interpret, IsoText.Read;
    if bitLen >= 6 {
      IsoText.ReadPrefix(bits, n, bitLen / 6);
    }
    assert bits[..n][..(bitLen + 7) / 8] == bits[..(bitLen + 7) / 8];
  }

  /**
   * What an accepted identity is, on its bits: a stream of whole six-bit codes without controls, at most fifty of them,
   * that spell a licence plate qualifier and then upper-case letters and digits.
   */
  lemma AcceptedCharacters(bits: seq<bv8>, bitLen: nat, afi: nat, t: Translation) returns (di: string, body: string)
    requires Decode(bits, bitLen, afi) == Success(t)
    ensures t.identity == Value(AuthorityISO15459, KeyTypeTransportUnit,
                                [Component(DataIdentifier, di), Component(ISOIdentifier, body)])
    ensures t.encoding.scheme == "iso17360-transport-unit" && t.encoding.bitLen == t.encoding.tagLength == bitLen
    ensures t.encoding.control == IsoControl(di, 0, afi) && t.encoding.fields == t.identity.components
    ensures di in ["J", "1J", "2J", "3J", "4J", "5J", "6J"] && body != "" && |di + body| <= 50
    ensures forall i | 0 <= i < |body| :: '0' <= body[i] <= '9' || 'A' <= body[i] <= 'Z'
    ensures bitLen == 6 * |di + body| <= 8 * |bits|
    ensures forall i: nat | i < |di + body| :: (di + body)[i] as int % 64 == Num(bits, 6 * i, 6)
  {
    hide DecodeText, Decode, SplitDI, AuthorityForDI;
    var text: IsoText.Text;
    text, di, body := DecodeInversion(bits, bitLen, afi, t);
    IsoText.Characters(bits, bitLen, text);
  }

  /** Which tags are refused by their length or their family identifier, and that no other reason looks like these. */
  lemma DecodeRefuses(bits: seq<bv8>, bitLen: nat, afi: nat, e: Error)
    requires Decode(bits, bitLen, afi) == Failure(e)
    ensures e.UnrecognisedNonGS1? <==> forall c | c in Constructs() :: c.afi != afi
    ensures e.Truncated? <==> (afi == 0xa2 || afi == 0xa7) && (bitLen < 6 || 8 * |bits| < bitLen)
    ensures e.LengthMismatch? ==> (afi == 0xa2 || afi == 0xa7) && bitLen / 6 > 50
    ensures !e.XPCPresent? && !e.AmbiguousEncoding?
  {
    hide Constructs, Interpret, LicencePlates, IsoText.Read, TransportUnitScheme, Scheme17363;
    Supported(afi);
    if FirstByAFI(Constructs(), afi).None? {
      NotRegistered(Constructs(), afi);
    } else {
      var c := FirstByAFI(Constructs(), afi).value;
      assert c in Constructs() && c.afi == afi;
      if Recognise(afi).Success? && SchemeOf(c).Success? && DecodeFor(c, bits, bitLen).Success? {
        var text := DecodeText(bits, bitLen).value;
        InterpretRefuses(c, text, e);
        ReadLength(bits, bitLen);
      }
    }
  }

  /** Of two qualifiers that start the same text neither is longer. */
  lemma PlatesApart(a: string, b: string, text: string)
    requires a in LicencePlates() && b in LicencePlates() && Text.HasPrefix(text, a) && Text.HasPrefix(text, b)
    ensures a == b
  {
    PlateShape(a);
    PlateShape(b);
    hide LicencePlates;
    assert text[0] == a[0] && text[0] == b[0];
    assert |a| == |b| ==> a == text[..|a|] == b;
  }

  lemma PlateShape(d: string)
    requires d in LicencePlates()
    ensures d == "J" || (|d| == 2 && '1' <= d[0] <= '6' && d[1] == 'J')
  {
  }

  /** A text that starts with a qualifier is split behind it. */
  lemma SplitAtPlate(di: string, body: string)
    requires di in LicencePlates()
    ensures SplitDI(TransportUnitConstruct(), di + body) == Some((di, body))
  {
    PlateShape(di);
    hide LicencePlates, LongestDI;
    var text := di + body;
    assert Text.HasPrefix(text, "") && Text.HasPrefix(text, di);
    LongestDIMeans(LicencePlates(), text, "");
    var best := LongestDI(LicencePlates(), text, "");
    PlatesApart(di, best, text);
  }

  /** A transport unit identity the encoder can write: whole words of a qualifier and upper-case letters and digits. */
  predicate Writable(v: Value, scheme: SchemeID, di: string, body: string) {
    && scheme == "iso17360-transport-unit" && v == TransportUnit(AuthorityISO15459, di, body)
    && di in ["J", "1J", "2J", "3J", "4J", "5J", "6J"] && body != "" && |di + body| <= 50 && |di + body| % 8 == 0
    && forall i | 0 <= i < |body| :: '0' <= body[i] <= '9' || 'A' <= body[i] <= 'Z'
  }

  /** Exactly these built identities have an encoding. */
  lemma EncodableIff(v: Value, scheme: SchemeID)
    requires Built(v)
    ensures Encode(v, scheme).Success? <==> exists di, body :: Writable(v, scheme, di, body)
  {
    hide Encode, EncodeText, SplitDI, AuthorityForDI, CheckIdentity, Built, TransportUnitScheme;
    if Encode(v, scheme).Success? {
      var t := Encode(v, scheme).value;
      var di, body := EncodeInversion(v, scheme, t);
      IsoText.DecodeOfEncode(di + body, t.encoding.bits, t.encoding.bitLen);
      EncodedWritable(v, scheme, di, body);
    }
    if di, body :| Writable(v, scheme, di, body) {
      WritableEncodes(v, scheme, di, body);
    }
  }

  lemma EncodedWritable(v: Value, scheme: SchemeID, di: string, body: string)
    requires scheme == TransportUnitScheme() && v == TransportUnit(v.authority, di, body) && |di + body| % 8 == 0
    requires AuthorityForDI(di) == Some(v.authority) && CheckIdentity(di, body).None?
    requires SplitDI(TransportUnitConstruct(), di + body) == Some((di, body))
    ensures Writable(v, scheme, di, body)
  {
    hide AuthorityForDI, SplitDI;
    SplitMeans(TransportUnitConstruct(), di + body);
    PlatesAuthority(di);
  }

  /** A writable text is one the stream encoder takes, and one the identity rules admit. */
  lemma WritableText(v: Value, scheme: SchemeID, di: string, body: string)
    requires Writable(v, scheme, di, body)
    ensures EncodeText(di + body).Success? && CheckIdentity(di, body).None? && di in LicencePlates()
  {
    PlatesAre();
    PlateShape(di);
    hide LicencePlates, IsoText.WriteCodes;
    var text := di + body;
    forall i | 0 <= i < |text|
      ensures IsoText.Accepted(text[i])
    {
      assert text[i] == 'J' || '0' <= text[i] <= '9' || 'A' <= text[i] <= 'Z';
    }
    hide IsoText.Accepted;
    assert 6 * |text| % WORD_BITS == 0;
  }

  lemma PartsEncode(v: Value, di: string, body: string)
    requires EncodeText(di + body).Success? && CheckIdentity(di, body).None? && di in LicencePlates()
    ensures EncodeParts(v, TransportUnitConstruct(), TransportUnitScheme(), 0xa2, di, body).Success?
  {
    hide LicencePlates, SplitDI, EncodeText, CheckIdentity;
    SplitAtPlate(di, body);
  }

  /** Encoding a transport unit identity with a qualifier comes down to its two parts. */
  lemma EncodeIsParts(v: Value, di: string, body: string)
    requires v == TransportUnit(AuthorityISO15459, di, body) && di in LicencePlates()
    ensures Encode(v, TransportUnitScheme()) ==
            EncodeParts(v, TransportUnitConstruct(), TransportUnitScheme(), 0xa2, di, body)
  {
    hide LicencePlates, AuthorityForDI, Recognise, Built, EncodeParts, TransportUnitScheme, Scheme17363;
    Supported(0xa2);
    PlatesAuthority(di);
    BuiltTransportUnit(AuthorityISO15459, di, body);
    TransportUnitIs(v);
    SameParts(di, body, v);
  }

  lemma WritableEncodes(v: Value, scheme: SchemeID, di: string, body: string)
    requires Writable(v, scheme, di, body)
    ensures Encode(v, scheme).Success?
  {
    WritableText(v, scheme, di, body);
    hide LicencePlates, EncodeText, CheckIdentity, EncodeParts, Encode;
    EncodeIsParts(v, di, body);
    PartsEncode(v, di, body);
  }

  /** Why a built identity is refused. */
  lemma EncodeRefuses(v: Value, scheme: SchemeID, e: Error)
    requires Built(v) && Encode(v, scheme) == Failure(e)
    ensures scheme == "iso17363" ==> e == UnresolvedSemantics
    ensures scheme != "iso17363" && scheme != "iso17360-transport-unit" ==> e == UnsupportedScheme
    ensures scheme == "iso17360-transport-unit" && !v.keyType.KeyTypeTransportUnit? ==> e == CannotEncode
    ensures scheme == "iso17360-transport-unit" && v.keyType.KeyTypeTransportUnit? ==>
              exists di, body :: v == TransportUnit(v.authority, di, body) && e == UnitError(v.authority, di, body)
  {
    hide SplitDI, AuthorityForDI, Recognise, EncodeParts, Built, LicencePlates, UnitError;
    Supported(0xa2);
    SchemesDiffer();
    if scheme == TransportUnitScheme() && v.keyType.KeyTypeTransportUnit? {
      TransportUnitIs(v);
      var di, body := v.Find(DataIdentifier).value.value, v.Find(ISOIdentifier).value.value;
      PartsRefuse(v, di, body, e);
    }
  }

  /** What a transport unit identity that cannot be written is refused for. */
  function UnitError(authority: Authority, di: string, body: string): Error {
    if di !in ["J", "1J", "2J", "3J", "4J", "5J", "6J"] then UnsupportedScheme
    else if authority != AuthorityISO15459 then CannotEncode
    else if body == "" then FieldValue
    else if |di + body| > 50 then LengthMismatch
    else if exists i | 0 <= i < |body| :: !('0' <= body[i] <= '9' || 'A' <= body[i] <= 'Z') then FieldValue
    else UnresolvedSemantics
  }

  lemma PartsRefuse(v: Value, di: string, body: string, e: Error)
    requires di !in LicencePlates() ==> e == UnsupportedScheme
    requires di in LicencePlates() ==>
               if AuthorityForDI(di) != Some(v.authority) then e == CannotEncode
               else EncodeParts(v, TransportUnitConstruct(), TransportUnitScheme(), 0xa2, di, body) == Failure(e)
    ensures e == UnitError(v.authority, di, body)
  {
    PlatesAre();
    hide LicencePlates, SplitDI, AuthorityForDI, IsoText.WriteCodes, TransportUnitScheme;
    if di in LicencePlates() {
      PlatesAuthority(di);
      SplitAtPlate(di, body);
      PlateShape(di);
      if v.authority == AuthorityISO15459 && CheckIdentity(di, body).None? {
        forall i | 0 <= i < |di + body|
          ensures IsoText.Accepted((di + body)[i])
        {
          var c := (di + body)[i];
          assert c == 'J' || '0' <= c <= '9' || 'A' <= c <= 'Z';
        }
      }
    }
  }

  lemma SameParts(di: string, body: string, v: Value)
    requires v == TransportUnit(AuthorityISO15459, di, body)
    requires v.Find(DataIdentifier).Some? && v.Find(ISOIdentifier).Some?
    requires v == TransportUnit(v.authority, v.Find(DataIdentifier).value.value, v.Find(ISOIdentifier).value.value)
    ensures v.Find(DataIdentifier).value.value == di && v.Find(ISOIdentifier).value.value == body
  {
    assert v.components[0] == Component(DataIdentifier, di) && v.components[1] == Component(ISOIdentifier, body);
  }

  /** Why a text without controls is refused: no qualifier, too long, or no upper-case letters and digits behind it. */
  lemma UnitRefuses(c: Construct, text: string, e: Error)
    requires c.dataIdentifiers == LicencePlates() && InterpretTransportUnit(c, text) == Failure(e)
    ensures if forall d | d in LicencePlates() :: !(d <= text) then e == UnsupportedScheme
            else e == if text !in LicencePlates() && |text| > 50 then LengthMismatch else FieldValue
  {
    hide LongestDI, LicencePlates, AuthorityForDI;
    assert Text.HasPrefix(text, "");
    LongestDIMeans(LicencePlates(), text, "");
    var best := LongestDI(LicencePlates(), text, "");
    if SplitDI(c, text).Some? {
      var di, body := best, text[|best|..];
      assert SplitDI(c, text) == Some((di, body)) && di + body == text;
      PlatesAuthority(di);
      PlateShape(di);
      BuiltTransportUnit(AuthorityISO15459, di, body);
      PlateAlone(di, body);
      assert di <= text;
    } else {
      forall d | d in LicencePlates()
        ensures !(d <= text)
      {
        PlateShape(d);
      }
    }
  }

  /**
   * Why the text of a complete stream is refused: a control, of unsettled meaning or out of place, padding bits, no
   * qualifier, or what follows it.
   */
  lemma TextRefuses(bits: seq<bv8>, bitLen: nat, afi: nat, e: Error)
    requires afi == 0xa2 || afi == 0xa7
    requires 6 <= bitLen <= 8 * |bits| && Decode(bits, bitLen, afi) == Failure(e)
    ensures DecodeText(bits, bitLen).Success?
    ensures var t := DecodeText(bits, bitLen).value;
            if t.controls != [] then
              e == if t.controls[0].code == 30 || t.controls[0].code == 33 then UnresolvedSemantics else FieldValue
            else if bitLen % 6 != 0 then e == UnresolvedSemantics
            else if forall d | d in ["J", "1J", "2J", "3J", "4J", "5J", "6J"] :: !(d <= t.characters) then
              e == UnsupportedScheme
            else
              e == if t.characters !in ["J", "1J", "2J", "3J", "4J", "5J", "6J"] && |t.characters| > 50 then
                LengthMismatch
                   else FieldValue
  {
    hide IsoText.Read, Recognise, TransportUnitScheme, Scheme17363, LicencePlates, InterpretTransportUnit;
    Supported(afi);
    SchemesDiffer();
    PlatesAre();
    var c := Recognise(afi).value;
    var t := DecodeText(bits, bitLen).value;
    if t.controls == [] && t.residueBits == 0 {
      UnitRefuses(c, t.characters, e);
    }
  }

  lemma PlatesAre()
    ensures LicencePlates() == ["J", "1J", "2J", "3J", "4J", "5J", "6J"]
  {
  }

  lemma PlateAlone(di: string, body: string)
    requires di in LicencePlates()
    ensures di + body in LicencePlates() <==> body == ""
  {
    assert di + "" == di;
    if di + body in LicencePlates() {
      PlatesApart(di, di + body, di + body);
    }
  }

  lemma {:induction false} NotRegistered(cs: seq<Construct>, afi: nat)
    requires FirstByAFI(cs, afi).None?
    ensures forall c | c in cs :: c.afi != afi
  {
    if cs != [] {
      NotRegistered(cs[1..], afi);
    }
  }

  lemma ReadLength(bits: seq<bv8>, bitLen: nat)
    requires DecodeText(bits, bitLen).Success?
    ensures |DecodeText(bits, bitLen).value.characters| <= bitLen / 6
  {
    IsoText.ReadShape(bits, bitLen / 6);
  }

  lemma InterpretRefuses(c: Construct, t: IsoText.Text, e: Error)
    requires Interpret(c, t) == Failure(e)
    ensures e.FieldValue? || e.UnresolvedSemantics? || e.UnsupportedScheme? || e.LengthMismatch?
    ensures e.LengthMismatch? ==> |t.characters| > IDENTITY_LIMIT
  {
    hide LongestDI, AuthorityForDI, TransportUnitScheme, Scheme17363;
    if SplitDI(c, t.characters).Some? {
      var (di, body) := SplitDI(c, t.characters).value;
      assert |di| + |body| == |t.characters|;
      if AuthorityForDI(di).Some? {
        BuiltTransportUnit(AuthorityForDI(di).value, di, body);
      }
    }
  }

  /** Splitting depends on the recognised identifiers only and takes nothing away. */
  lemma SplitMeans(c: Construct, text: string)
    requires SplitDI(c, text).Some? && c.dataIdentifiers == LicencePlates()
    ensures text == SplitDI(c, text).value.0 + SplitDI(c, text).value.1
    ensures SplitDI(c, text).value.0 in LicencePlates()
    ensures SplitDI(c, text) == SplitDI(TransportUnitConstruct(), text)
  {
    hide LicencePlates, LongestDI;
    assert Text.HasPrefix(text, "");
    LongestDIMeans(c.dataIdentifiers, text, "");
  }

  lemma PlatesAuthority(di: string)
    requires di in LicencePlates()
    ensures AuthorityForDI(di) == Some(AuthorityISO15459)
  {
    hide LicencePlates;
  }

  /**
   * Encoding a decoded identity restores the tag exactly when the tag was word aligned and carried
   * the current transport-unit identifier: the encoder refuses padding and never writes the other identifier.
   */
  lemma EncodeOfDecode(bits: seq<bv8>, bitLen: nat, afi: nat, t: Translation)
    requires Decode(bits, bitLen, afi) == Success(t)
    ensures Encode(t.identity, t.encoding.scheme) == Success(t) <==> bitLen % WORD_BITS == 0 && afi == 0xa2
    ensures bitLen % WORD_BITS != 0 ==> Encode(t.identity, t.encoding.scheme) == Failure(UnresolvedSemantics)
    ensures bitLen % WORD_BITS == 0 ==>
      var r := Encode(t.identity, t.encoding.scheme);
      r.Success? && r.value.encoding.bits == t.encoding.bits && r.value.identity == t.identity
  {
    hide Decode, DecodeText, EncodeText, Recognise, SplitDI, AuthorityForDI, CheckIdentity, LicencePlates, Built;
    hide TransportUnitScheme, Scheme17363;
    var text, di, body := DecodeInversion(bits, bitLen, afi, t);
    Supported(afi);
    SchemesDiffer();
    BuiltTransportUnit(AuthorityISO15459, di, body);
    TransportUnitIs(t.identity);
    if bitLen % WORD_BITS == 0 {
      IsoText.EncodeOfDecode(bits, bitLen, text);
      assert (bitLen + 7) / 8 == bitLen / 8;
    } else {
      UnalignedRefused(bits, bitLen, text);
    }
  }
}
