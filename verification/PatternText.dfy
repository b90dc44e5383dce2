/**
 * What a pattern text says of a tag, in terms of its characters and of decimal values alone, and that the compiled
 * pattern says the same (internal/tdt/gs1epc/pattern.go, internal/identity/pattern.go).
 */
module PatternText {
  import opened Wrappers
  import opened Decimal
  import opened Identity
  import opened Layout
  import opened Gs1Field
  import opened Gs1Codec
  import opened Gs1Uri
  import opened Gs1Pattern
  import opened Text

  // ---------------------------------------------------- what a text says

  /** A number's text. */
  predicate Numeral(s: string) {
    s != "" && AllDigits(s)
  }

  /** The part is the range from a to b in brackets. */
  ghost predicate Spans(part: string, a: string, b: string) {
    Numeral(a) && Numeral(b) && part == "[" + a + "-" + b + "]"
  }

  /** A star accepts every value, a text itself, and a range the numbers between its ends. */
  ghost predicate PartAccepts(part: string, value: string) {
    || part == "*"
    || part == value
    || (Numeral(value) && exists a, b :: Spans(part, a, b) && ValueOf(a) <= ValueOf(value) <= ValueOf(b))
  }

  ghost predicate PartsAccept(parts: seq<string>, components: seq<Component>) {
    |parts| == |components| && forall i | 0 <= i < |parts| :: PartAccepts(parts[i], components[i].value)
  }

  /** The text is the prefix, a name, a colon, and the parts with dots between them. */
  ghost predicate Spelled(text: string, prefix: string, name: string, parts: seq<string>) {
    && |parts| >= 1 && ':' !in name && (forall i | 0 <= i < |parts| :: '.' !in parts[i])
    && text == prefix + name + ":" + Join(parts, '.')
  }

  /** A registered scheme's key and key type. */
  ghost predicate Keyed(reg: Registry, key: string, keyType: KeyType) {
    exists s :: s in reg && s.key == key && s.keyType == keyType
  }

  /** A tag pattern names the tag's scheme and accepts each of its fields. */
  ghost predicate TagSays(text: string, t: Translation) {
    exists parts :: Spelled(text, TAG_PATTERN_PREFIX, t.encoding.scheme, parts) && PartsAccept(parts, t.encoding.fields)
  }

  /** An ID pattern names the key of a GS1 identity and accepts each of its components. */
  ghost predicate IDSays(reg: Registry, text: string, v: Value) {
    v.authority == AuthorityGS1 &&
    exists key, parts ::
      Spelled(text, ID_PATTERN_PREFIX, key, parts) && Keyed(reg, key, v.keyType) && PartsAccept(parts, v.components)
  }

  ghost predicate Says(reg: Registry, text: string, t: Translation) {
    TagSays(text, t) || IDSays(reg, text, t.identity)
  }

  // ----------------------------------------------------------- one field

  lemma SpansCut(part: string, a: string, b: string)
    requires Spans(part, a, b)
    ensures IsRange(part) && Cut(part[1..|part| - 1], '-') == Some((a, b))
  {
    assert part[1..|part| - 1] == a + "-" + b;
    CutOfJoined(a, '-', b);
  }

  /** What a compiled range came from. */
  lemma RangeSpans(f: URIField, part: string) returns (a: string, b: string)
    requires IsRange(part) && ParseRange(f, part).Success?
    ensures Spans(part, a, b) && ParseRange(f, part).value == (ValueOf(a), ValueOf(b))
    ensures ValueOf(a) <= ValueOf(b) <= f.max
  {
    var inner := part[1..|part| - 1];
    CutSplits(inner, '-');
    a, b := Cut(inner, '-').value.0, Cut(inner, '-').value.1;
    assert part == "[" + inner + "]";
  }

  lemma SpansUnique(part: string, a: string, b: string, c: string, d: string)
    requires Spans(part, a, b) && Spans(part, c, d)
    ensures a == c && b == d
  {
    SpansCut(part, a, b);
    SpansCut(part, c, d);
  }

  /** A compiled field accepts what its part of the text accepts. */
  lemma FieldSays(f: URIField, part: string, ranges: bool, p: FieldPattern, c: Component)
    requires PatternField(f, part, ranges) == Success(p) && f.max <= MAX_UINT64
    requires f.name == c.name && AllDigits(c.value)
    ensures MatchField(p, c) <==> PartAccepts(part, c.value)
  {
    hide ValueOf, ParseField;
    if IsRange(part) && !IsAny(part) {
      hide IsRange;
      var a, b := RangeSpans(f, part);
      hide ParseRange;
      forall x, y | Spans(part, x, y)
        ensures x == a && y == b
      {
        SpansUnique(part, a, b, x, y);
      }
      var first := part[0];
      assert !IsDigit(first);
      assert part == c.value ==> IsDigit(first);
    } else {
      forall a, b | Spans(part, a, b)
        ensures false
      {
        SpansCut(part, a, b);
      }
    }
  }

  // ----------------------------------------------------------- whole texts

  /** What splitting a pattern text finds is how it is spelled. */
  lemma SplitSpelled(text: string, prefix: string, name: string, parts: seq<string>)
    requires HasPrefix(text, prefix) && SplitPattern(text, prefix) == Success((name, parts))
    ensures Spelled(text, prefix, name, parts) && name != ""
  {
    var rest := text[|prefix|..];
    CutSplits(rest, ':');
    var body := Cut(rest, ':').value.1;
    JoinOfSplit(body, '.');
    SplitParts(body, '.');
    assert text == prefix + rest;
  }

  /** A text is spelled in one way. */
  lemma SpelledSplit(text: string, prefix: string, name: string, parts: seq<string>)
    requires Spelled(text, prefix, name, parts)
    ensures HasPrefix(text, prefix)
    ensures name != "" && Join(parts, '.') != "" ==> SplitPattern(text, prefix) == Success((name, parts))
    ensures name == "" || Join(parts, '.') == "" ==> SplitPattern(text, prefix) == Failure(MalformedPattern)
  {
    var body := Join(parts, '.');
    assert text[|prefix|..] == name + [':'] + body;
    CutOfJoined(name, ':', body);
    SplitOfJoin(parts, '.');
  }

  lemma PrefixesApart(text: string)
    ensures !(HasPrefix(text, ID_PATTERN_PREFIX) && HasPrefix(text, TAG_PATTERN_PREFIX))
  {
    assert ID_PATTERN_PREFIX[8] != TAG_PATTERN_PREFIX[8];
    assert HasPrefix(text, ID_PATTERN_PREFIX) ==> |text| > 8 && text[8] == ID_PATTERN_PREFIX[8];
    assert HasPrefix(text, TAG_PATTERN_PREFIX) ==> |text| > 8 && text[8] == TAG_PATTERN_PREFIX[8];
  }

  /** The compiled fields accept components with the compiled names exactly when the parts do. */
  lemma FieldsSay(fields: seq<URIField>, parts: seq<string>, ranges: bool, p: Pattern, components: seq<Component>)
    requires |fields| == |parts| == |p.fields| == |components|
    requires forall i | 0 <= i < |parts| :: PatternField(fields[i], parts[i], ranges) == Success(p.fields[i])
    requires forall i | 0 <= i < |parts| :: fields[i].max <= MAX_UINT64
    requires forall i | 0 <= i < |parts| :: fields[i].name == components[i].name && AllDigits(components[i].value)
    ensures MatchComponents(p, components) <==> PartsAccept(parts, components)
  {
    hide PatternField, MatchField, PartAccepts;
    forall i | 0 <= i < |parts|
      ensures MatchField(p.fields[i], components[i]) <==> PartAccepts(parts[i], components[i].value)
    {
      FieldSays(fields[i], parts[i], ranges, p.fields[i], components[i]);
    }
  }

  /** The fields of an option carry their own names, and any component list named after another option fits them. */
  lemma TagFieldsFit(s: Scheme, o: LayoutOption, o': LayoutOption, values: seq<nat>)
    requires WellFormedOption(s, o) && WellFormedOption(s, o') && InRange(o', values) && |values| == |o'.tagFields|
    ensures var cs := Components(o'.tagFields, values);
      && |o.tagFields| == |cs|
      && forall i | 0 <= i < |cs| ::
           o.tagFields[i].max <= MAX_UINT64 && o.tagFields[i].name == cs[i].name && AllDigits(cs[i].value)
  {
    SameNames(s, o, o');
    hide TiledOption, PureOption;
    forall i | 0 <= i < |o'.tagFields|
      ensures o.tagFields[i].max <= MAX_UINT64 && AllDigits(Components(o'.tagFields, values)[i].value)
    {
      assert WellFormedBinary(o.binaryFields[i], o.tagFields[i], s.def.tagLength);
      assert WellFormedBinary(o'.binaryFields[i], o'.tagFields[i], s.def.tagLength);
      RenderShape(o'.tagFields[i], values[i]);
    }
  }

  lemma PureFieldsFit(s: Scheme, o: LayoutOption, o': LayoutOption, values: seq<nat>)
    requires WellFormedOption(s, o) && WellFormedOption(s, o') && InRange(o', values) && |values| == |o'.tagFields|
    ensures var cs := Components(o'.tagFields, values)[1..];
      && |o.pureFields| == |cs|
      && forall i | 0 <= i < |cs| ::
           o.pureFields[i].max <= MAX_UINT64 && o.pureFields[i].name == cs[i].name && AllDigits(cs[i].value)
  {
    hide WellFormedOption, InRange;
    OptionShape(s, o);
    OptionShape(s, o');
    TagFieldsFit(s, o, o', values);
    PureFieldsWellFormed(s, o);
    TagPureNames(s, o);
  }

  lemma TagPureNames(s: Scheme, o: LayoutOption)
    requires WellFormedOption(s, o)
    ensures |o.tagFields| == |o.pureFields| + 1
    ensures forall i | 0 <= i < |o.pureFields| :: o.pureFields[i].name == o.tagFields[i + 1].name
  {
    hide TiledOption;
    forall i | 0 <= i < |o.pureFields|
      ensures o.pureFields[i].name == o.tagFields[i + 1].name
    {
      assert WellFormedPure(o.pureFields[i], o.tagFields[i + 1]);
    }
  }

  // ------------------------------------------------------ compiled patterns

  /** What a compiled tag pattern came from. */
  lemma TagPatternFrom(reg: Registry, text: string, p: Pattern)
    returns (s: Scheme, o: LayoutOption, parts: seq<string>)
    requires CompileTagPattern(reg, text) == Success(p) && HasPrefix(text, TAG_PATTERN_PREFIX)
    ensures s in reg && WellFormedScheme(s) && o in s.def.options && WellFormedOption(s, o)
    ensures Spelled(text, TAG_PATTERN_PREFIX, s.id, parts) && Lookup(reg, s.id) == Some(s)
    ensures p.level.LevelEncoding? && p.scheme == s.id && |o.tagFields| == |parts| == |p.fields|
    ensures forall i | 0 <= i < |parts| :: PatternField(o.tagFields[i], parts[i], true) == Success(p.fields[i])
  {
    hide CompileTagParts, SplitPattern, Spelled, FirstByID, WellFormedScheme, WellFormedOption, PatternField;
    hide PatternBits;
    hide WellFormedPattern, StarSuffix, OptionForPattern, AllAnyFrom, HasPrefix;
    var split := SplitPattern(text, TAG_PATTERN_PREFIX).value;
    var name := split.0;
    parts := split.1;
    SplitSpelled(text, TAG_PATTERN_PREFIX, name, parts);
    s := Lookup(reg, name).value;
    var opt := CompiledTag(s, parts, text, p);
    FirstOption(s);
    o := if opt.Some? then opt.value else s.def.options[0];
    TagUsableOption(s, o);
  }

  lemma FirstOption(s: Scheme)
    requires WellFormedScheme(s)
    ensures |s.def.options| > 0 && s.def.options[0] in s.def.options
  {
    hide WellFormedOption;
  }

  lemma TagUsableOption(s: Scheme, o: LayoutOption)
    requires WellFormedScheme(s) && o in s.def.options
    ensures WellFormedOption(s, o) && |o.tagFields| == |o.binaryFields|
  {
    hide WellFormedOption;
    SchemeOption(s, o);
    OptionShape(s, o);
  }

  /** What a compiled ID pattern came from. */
  lemma IDPatternFrom(reg: Registry, text: string, p: Pattern)
    returns (s: Scheme, o: LayoutOption, parts: seq<string>)
    requires CompileIDPattern(reg, text) == Success(p) && HasPrefix(text, ID_PATTERN_PREFIX)
    ensures s in reg && WellFormedScheme(s) && o in s.def.options && WellFormedOption(s, o)
    ensures Spelled(text, ID_PATTERN_PREFIX, s.key, parts) && FirstByKey(reg, s.key) == Some(s)
    ensures p.level.LevelIdentity? && p.authority == AuthorityGS1 && p.keyType == s.keyType
    ensures |o.pureFields| == |parts| == |p.fields|
    ensures forall i | 0 <= i < |parts| :: PatternField(o.pureFields[i], parts[i], false) == Success(p.fields[i])
  {
    hide SplitPattern, Spelled, WellFormedScheme, WellFormedOption, PatternField, HasPrefix, CompanyPrefixError;
    hide FieldsAccepted, FieldsError, AllAnyFrom, OptionByLength;
    var split := SplitPattern(text, ID_PATTERN_PREFIX).value;
    var key := split.0;
    parts := split.1;
    SplitSpelled(text, ID_PATTERN_PREFIX, key, parts);
    s := FirstByKey(reg, key).value;
    KeyRegistered(reg, s);
    FirstOption(s);
    var opt := OptionForPattern(s, parts, 0);
    o := if opt.Some? then opt.value else s.def.options[0];
    TagUsableOption(s, o);
  }

  // -------------------------------------------------------------- meaning

  /** Names and parts of two spellings of one text agree. */
  lemma SpelledOnce(text: string, prefix: string, name: string, parts: seq<string>, name': string, parts': seq<string>)
    requires Spelled(text, prefix, name, parts) && Spelled(text, prefix, name', parts')
    ensures name == name' && parts == parts'
  {
    assert text[|prefix|..] == name + [':'] + Join(parts, '.') == name' + [':'] + Join(parts', '.');
    CutOfJoined(name, ':', Join(parts, '.'));
    CutOfJoined(name', ':', Join(parts', '.'));
    SplitOfJoin(parts, '.');
    SplitOfJoin(parts', '.');
  }

  lemma SpelledHasPrefix(text: string, prefix: string, name: string, parts: seq<string>)
    requires Spelled(text, prefix, name, parts)
    ensures HasPrefix(text, prefix)
  {
  }

  /** What a decoded tag looks like to patterns. */
  predicate Made(s: Scheme, o: LayoutOption, values: seq<nat>, t: Translation) {
    && o in s.def.options && |values| == |o.tagFields| > 0 && InRange(o, values)
    && t.encoding.scheme == s.id && t.encoding.fields == Components(o.tagFields, values)
    && t.identity == Value(AuthorityGS1, s.keyType, Components(o.tagFields, values)[1..])
  }

  lemma DecodedIsMade(reg: Registry, bits: seq<bv8>, bitLen: nat, t: Translation)
    returns (s: Scheme, o: LayoutOption, values: seq<nat>)
    requires Decode(reg, bits, bitLen) == Success(t)
    ensures s in reg && WellFormedScheme(s) && WellFormedOption(s, o) && Made(s, o, values, t)
    ensures Lookup(reg, s.id) == Some(s) && FirstByKeyType(reg, s.keyType) == Some(s) &&
            FirstByKey(reg, s.key) == Some(s)
  {
    hide WellFormedScheme, WellFormedOption, LiteralsHold, InRange, Decode, FirstByID, FirstByKey, FirstByKeyType;
    s, o := DecodeInversion(reg, bits, bitLen, t);
    OptionShape(s, o);
    values := FieldValues(o, bits);
    LookupRegistered(reg, s);
    KeyRegistered(reg, s);
  }

  /** A compiled tag pattern matches a decoded tag exactly when its text says so. */
  lemma TagPatternSays(reg: Registry, text: string, p: Pattern, s: Scheme, o: LayoutOption, values: seq<nat>,
                       t: Translation)
    requires CompileTagPattern(reg, text) == Success(p) && HasPrefix(text, TAG_PATTERN_PREFIX)
    requires s in reg && WellFormedScheme(s) && WellFormedOption(s, o) && Made(s, o, values, t)
    requires Lookup(reg, s.id) == Some(s)
    ensures MatchTranslation(t, p) <==> TagSays(text, t)
  {
    hide CompileTagPattern, HasPrefix, Spelled, WellFormedScheme, WellFormedOption, InRange, Lookup, PatternField;
    hide MatchComponents, PartsAccept;
    var s', o', parts := TagPatternFrom(reg, text, p);
    if s'.id == s.id {
      TagFieldsFit(s, o', o, values);
      FieldsSay(o'.tagFields, parts, true, p, t.encoding.fields);
    }
    forall parts' | Spelled(text, TAG_PATTERN_PREFIX, s.id, parts')
      ensures s'.id == s.id && parts' == parts
    {
      SpelledOnce(text, TAG_PATTERN_PREFIX, s'.id, parts, s.id, parts');
    }
  }

  /** A compiled ID pattern matches a decoded tag exactly when its text says so. */
  lemma IDPatternSays(reg: Registry, text: string, p: Pattern, s: Scheme, o: LayoutOption, values: seq<nat>,
                      t: Translation)
    requires CompileIDPattern(reg, text) == Success(p) && HasPrefix(text, ID_PATTERN_PREFIX)
    requires s in reg && WellFormedScheme(s) && WellFormedOption(s, o) && Made(s, o, values, t)
    requires FirstByKeyType(reg, s.keyType) == Some(s) && FirstByKey(reg, s.key) == Some(s)
    ensures MatchTranslation(t, p) <==> IDSays(reg, text, t.identity)
  {
    hide CompileIDPattern, HasPrefix, Spelled, WellFormedScheme, WellFormedOption, InRange, PatternField;
    hide MatchComponents, PartsAccept, FirstByKeyType, FirstByKey;
    var s', o', parts := IDPatternFrom(reg, text, p);
    forall r | r in reg
      ensures r.keyType == s.keyType ==> r == s
      ensures r.key == s'.key ==> r == s'
    {
      KeyRegistered(reg, r);
    }
    if s'.keyType == s.keyType {
      PureFieldsFit(s, o', o, values);
      FieldsSay(o'.pureFields, parts, false, p, t.identity.components);
      assert Keyed(reg, s'.key, s.keyType);
    }
    forall key, parts' | Spelled(text, ID_PATTERN_PREFIX, key, parts')
      ensures key == s'.key && parts' == parts
    {
      SpelledOnce(text, ID_PATTERN_PREFIX, s'.key, parts, key, parts');
    }
  }

  /** A tag that decodes to this translation. */
  ghost predicate DecodedFrom(reg: Registry, t: Translation, bits: seq<bv8>, bitLen: nat) {
    Decode(reg, bits, bitLen) == Success(t)
  }

  /** A GS1 translation is decoded from a tag; any other has no registered scheme and another authority's identity. */
  ghost predicate Genuine(reg: Registry, t: Translation) {
    || (exists bits, bitLen: nat :: DecodedFrom(reg, t, bits, bitLen))
    || (Lookup(reg, t.encoding.scheme).None? && t.identity.authority != AuthorityGS1)
  }

  /** On every translation a compiled pattern matches exactly when its text says so. */
  lemma PatternSays(reg: Registry, text: string, p: Pattern, t: Translation)
    requires CompilePattern(reg, text) == Success(p) && Genuine(reg, t)
    ensures MatchTranslation(t, p) <==> Says(reg, text, t)
  {
    hide CompileTagPattern, CompileIDPattern, HasPrefix, TagSays, IDSays, Decode, Lookup, MatchTranslation;
    PrefixesApart(text);
    OnePrefix(reg, text, t);
    if bits, bitLen: nat :| DecodedFrom(reg, t, bits, bitLen) {
      var s, o, values := DecodedIsMade(reg, bits, bitLen, t);
      if HasPrefix(text, TAG_PATTERN_PREFIX) {
        TagPatternSays(reg, text, p, s, o, values, t);
      } else {
        IDPatternSays(reg, text, p, s, o, values, t);
      }
    } else {
      ForeignSays(reg, text, p, t);
    }
  }

  /** A text without a prefix says nothing at its level. */
  lemma OnePrefix(reg: Registry, text: string, t: Translation)
    ensures TagSays(text, t) ==> HasPrefix(text, TAG_PATTERN_PREFIX)
    ensures IDSays(reg, text, t.identity) ==> HasPrefix(text, ID_PATTERN_PREFIX)
  {
    hide HasPrefix, Spelled;
    forall prefix, name, parts | Spelled(text, prefix, name, parts)
      ensures HasPrefix(text, prefix)
    {
      SpelledHasPrefix(text, prefix, name, parts);
    }
  }

  /** No compiled pattern concerns translations of another authority, and no text claims to. */
  lemma ForeignSays(reg: Registry, text: string, p: Pattern, t: Translation)
    requires CompilePattern(reg, text) == Success(p)
    requires Lookup(reg, t.encoding.scheme).None? && t.identity.authority != AuthorityGS1
    ensures !MatchTranslation(t, p) && !Says(reg, text, t)
  {
    hide CompileTagPattern, CompileIDPattern, HasPrefix, Spelled, Lookup, MatchComponents, PartsAccept;
    PrefixesApart(text);
    OnePrefix(reg, text, t);
    if HasPrefix(text, TAG_PATTERN_PREFIX) {
      var s, o, parts := TagPatternFrom(reg, text, p);
      forall parts' | Spelled(text, TAG_PATTERN_PREFIX, t.encoding.scheme, parts')
        ensures t.encoding.scheme == s.id
      {
        SpelledOnce(text, TAG_PATTERN_PREFIX, s.id, parts, t.encoding.scheme, parts');
      }
    } else {
      var s, o, parts := IDPatternFrom(reg, text, p);
    }
  }

  // ------------------------------------------------- which texts compile

  /** A part a field admits: a star, the canonical text of a number, or, where ranges are allowed, an ordered one. */
  ghost predicate PartFits(f: URIField, part: string, ranges: bool) {
    || part == "*"
    || (exists v: nat :: v <= f.max && part == Render(f, v))
    || (ranges && exists a, b :: Spans(part, a, b) && ValueOf(a) <= ValueOf(b) <= f.max)
  }

  predicate StarsLast(parts: seq<string>) {
    forall i, j | 0 <= i < j < |parts| && parts[i] == "*" :: parts[j] == "*"
  }

  /** The parts fit a field list, the company prefix at the given place being no range. */
  ghost predicate PartsFit(fields: seq<URIField>, parts: seq<string>, prefix: nat, ranges: bool) {
    && |parts| == |fields| && StarsLast(parts)
    && forall i | 0 <= i < |parts| :: PartFits(fields[i], parts[i], ranges && i != prefix)
  }

  /** The option a company prefix selects by its length; a star leaves the first one. */
  ghost predicate Selects(s: Scheme, part: string, o: LayoutOption) {
    o in s.def.options && if part == "*" then o == s.def.options[0] else |part| == o.gcpLength
  }

  ghost predicate TagPartsFit(s: Scheme, o: LayoutOption, parts: seq<string>)
    requires WellFormedScheme(s)
  {
    |parts| >= 2 && Selects(s, parts[1], o) && PartsFit(o.tagFields, parts, 1, true)
  }

  ghost predicate IDPartsFit(s: Scheme, o: LayoutOption, parts: seq<string>)
    requires WellFormedScheme(s)
  {
    |parts| >= 1 && Selects(s, parts[0], o) && PartsFit(o.pureFields, parts, 0, false)
  }

  ghost predicate TagCompiles(reg: Registry, text: string) {
    exists s, o, parts ::
      s in reg && Spelled(text, TAG_PATTERN_PREFIX, s.id, parts) && TagPartsFit(s, o, parts)
  }

  ghost predicate IDCompiles(reg: Registry, text: string) {
    exists s, o, parts ::
      s in reg && s.key != "" && Spelled(text, ID_PATTERN_PREFIX, s.key, parts) && IDPartsFit(s, o, parts)
  }

  lemma FieldCompiles(f: URIField, part: string, ranges: bool)
    requires WellFormedField(f)
    ensures PatternField(f, part, ranges).Success? <==> PartFits(f, part, ranges)
  {
    hide ValueOf, ParseField, Render;
    if IsAny(part) {
    } else if IsRange(part) {
      RangeCompiles(f, part);
      assert part[0] == '[';
      forall v: nat | v <= f.max
        ensures part != Render(f, v)
      {
        RenderShape(f, v);
      }
    } else {
      forall a, b
        ensures !Spans(part, a, b)
      {
        if Spans(part, a, b) {
          SpansCut(part, a, b);
        }
      }
      ExactCompiles(f, part);
    }
  }

  lemma ExactCompiles(f: URIField, part: string)
    requires WellFormedField(f)
    ensures ParseField(f, part).Success? <==> exists v: nat :: v <= f.max && part == Render(f, v)
  {
    hide ParseField, Render, WellFormedField;
    if ParseField(f, part).Success? {
      RenderOfParse(f, part);
    }
    if v: nat :| v <= f.max && part == Render(f, v) {
      ParseOfRender(f, v);
    }
  }

  lemma RangeCompiles(f: URIField, part: string)
    requires IsRange(part) && f.max <= MAX_UINT64
    ensures ParseRange(f, part).Success? <==> exists a, b :: Spans(part, a, b) && ValueOf(a) <= ValueOf(b) <= f.max
  {
    hide ValueOf;
    if ParseRange(f, part).Success? {
      var a, b := RangeSpans(f, part);
    }
    if a, b :| Spans(part, a, b) && ValueOf(a) <= ValueOf(b) <= f.max {
      SpansCut(part, a, b);
    }
  }

  lemma {:induction false} FieldsCompile(fields: seq<URIField>, parts: seq<string>, ranges: bool)
    requires |fields| == |parts|
    requires forall i | 0 <= i < |parts| :: PatternField(fields[i], parts[i], ranges).Success?
    ensures Gs1Pattern.PatternFields(fields, parts, ranges).Success?
  {
    hide PatternField;
    if parts != [] {
      assert forall i | 0 <= i < |parts| - 1 :: fields[1..][i] == fields[i + 1] && parts[1..][i] == parts[i + 1];
      assert PatternField(fields[0], parts[0], ranges).Success?;
      FieldsCompile(fields[1..], parts[1..], ranges);
    }
  }

  /** The constructor's scan accepts whatever has its stars last and its ranges ordered. */
  lemma {:induction false} StarSuffixAccepted(fields: seq<FieldPattern>, seenAny: bool)
    requires StarSuffix(fields) && (seenAny ==> forall i | 0 <= i < |fields| :: fields[i].FieldAny?)
    requires forall i | 0 <= i < |fields| :: fields[i].FieldRange? ==> fields[i].lo <= fields[i].hi
    ensures FieldsAccepted(fields, seenAny)
  {
    if fields != [] {
      StarSuffixAccepted(fields[1..], seenAny || fields[0].FieldAny?);
    }
  }

  /** Compiled fields have their stars where the parts do, and ordered ranges. */
  lemma FieldShape(f: URIField, part: string, ranges: bool, p: FieldPattern)
    requires PatternField(f, part, ranges) == Success(p)
    ensures p.FieldAny? <==> part == "*"
    ensures p.FieldRange? ==> p.lo <= p.hi && IsRange(part) && ranges
    ensures p.FieldExact? ==> p.text == part && ParseField(f, part).Success?
    ensures p.name == f.name
  {
    hide ParseField;
    if p.FieldRange? {
      var a, b := RangeSpans(f, part);
    }
  }

  lemma ShapesAccepted(fields: seq<URIField>, parts: seq<string>, ranges: bool, ps: seq<FieldPattern>)
    requires |fields| == |parts| == |ps|
    requires forall i | 0 <= i < |parts| :: PatternField(fields[i], parts[i], ranges) == Success(ps[i])
    ensures FieldsAccepted(ps, false) <==> StarsLast(parts)
    ensures forall i | 0 <= i < |ps| :: ps[i].name == fields[i].name
  {
    hide PatternField, FieldsAccepted;
    forall i | 0 <= i < |parts|
      ensures ps[i].FieldAny? <==> parts[i] == "*"
      ensures ps[i].FieldRange? ==> ps[i].lo <= ps[i].hi
      ensures ps[i].name == fields[i].name
    {
      FieldShape(fields[i], parts[i], ranges, ps[i]);
    }
    if FieldsAccepted(ps, false) {
      AcceptedStarSuffix(ps, false);
    }
    if StarsLast(parts) {
      StarSuffixAccepted(ps, false);
    }
  }

  lemma {:induction false} PinsExist(bfs: seq<BinaryField>, fields: seq<FieldPattern>)
    requires |bfs| >= |fields|
    requires forall i | 0 <= i < |fields| && fields[i].FieldExact? :: PinnedNumber(fields[i].text).Some?
    ensures ExactPins(bfs, fields).Some?
  {
    hide PinnedNumber;
    if fields != [] {
      assert forall i | 0 <= i < |fields| - 1 :: fields[1..][i] == fields[i + 1];
      PinsExist(bfs[1..], fields[1..]);
    }
  }

  lemma NumberOfExact(f: URIField, text: string)
    requires ParseField(f, text).Success?
    ensures PinnedNumber(text).Some?
  {
  }

  /** Making a bit test of compiled fields never fails. */
  lemma BitsCompile(s: Scheme, opt: Option<LayoutOption>, o: LayoutOption, parts: seq<string>, ps: seq<FieldPattern>)
    requires WellFormedScheme(s) && s.def.tagLength >= 8 && WellFormedOption(s, o) && |o.binaryFields| == |ps|
    requires opt == None || opt == Some(o)
    requires |o.tagFields| == |parts| == |ps|
    requires forall i | 0 <= i < |parts| :: PatternField(o.tagFields[i], parts[i], true) == Success(ps[i])
    ensures PatternBits(s, opt, ps).Success?
  {
    hide WellFormedScheme, WellFormedOption, PatternField, PinnedNumber, HeaderPattern, ExactPins, OptionPins;
    if opt.None? {
      Gs1Pattern.HeaderBits(s);
    } else {
      forall i | 0 <= i < |ps| && ps[i].FieldExact?
        ensures PinnedNumber(ps[i].text).Some?
      {
        FieldShape(o.tagFields[i], parts[i], true, ps[i]);
        NumberOfExact(o.tagFields[i], parts[i]);
      }
      PinsExist(o.binaryFields, ps);
      WholeHeader(s);
      OptionFits(s, o);
      ExactPinsFit(o.binaryFields, ps, s.def.tagLength / 8);
      HeaderAndPinsFit(HeaderPin(s), ExactPins(o.binaryFields, ps).value, s.def.tagLength / 8);
    }
  }

  lemma WholeHeader(s: Scheme)
    requires WellFormedScheme(s)
    ensures s.def.headerBits == 8 && s.def.tagLength % 8 == 0
  {
    hide WellFormedOption;
  }

  /** The option and fields a tag pattern is compiled with are those its company prefix selects. */
  lemma TagOption(s: Scheme, o: LayoutOption, parts: seq<string>)
    requires WellFormedScheme(s) && TagPartsFit(s, o, parts)
    ensures WellFormedOption(s, o) && |o.binaryFields| == |o.tagFields| && s.def.tagLength >= 8
    ensures var opt := OptionForPattern(s, parts, 1);
      && (opt == None || opt == Some(o))
      && (opt.None? ==> AllAnyFrom(parts, 1) && o == s.def.options[0])
    ensures forall i | 0 <= i < |parts| :: PatternField(o.tagFields[i], parts[i], true).Success?
  {
    hide WellFormedScheme, PartFits, PatternField, WellFormedOption, OptionByLength;
    TagUsable(s);
    SchemeOption(s, o);
    TagFieldWellFormed(s, o, 1);
    PrefixIsExact(o.tagFields[1], parts[1]);
    forall i | 0 <= i < |parts|
      ensures PatternField(o.tagFields[i], parts[i], true).Success?
    {
      TagFieldWellFormed(s, o, i);
      PartFitsWider(o.tagFields[i], parts[i], i != 1);
      FieldCompiles(o.tagFields[i], parts[i], true);
    }
  }

  lemma TagFieldWellFormed(s: Scheme, o: LayoutOption, i: nat)
    requires WellFormedOption(s, o) && i < |o.tagFields|
    ensures WellFormedField(o.tagFields[i])
  {
    hide TiledOption, PureOption;
    assert WellFormedBinary(o.binaryFields[i], o.tagFields[i], s.def.tagLength);
  }

  lemma PartFitsWider(f: URIField, part: string, ranges: bool)
    requires PartFits(f, part, ranges)
    ensures PartFits(f, part, true)
  {
  }

  /** A part that fits without ranges is a star or not shaped like a range. */
  lemma PrefixIsExact(f: URIField, part: string)
    requires WellFormedField(f)
    ensures PartFits(f, part, false) && part != "*" ==> !IsRange(part)
  {
    hide Render, ParseField;
    FieldCompiles(f, part, false);
  }

  /** The parts compile under a scheme exactly when they fit the option they select. */
  lemma TagPartsCompile(s: Scheme, parts: seq<string>, text: string)
    requires WellFormedScheme(s)
    ensures CompileTagParts(s, parts, text).Success? <==> exists o :: TagPartsFit(s, o, parts)
  {
    hide WellFormedScheme, WellFormedOption, PatternField, PatternBits, PartFits, FieldsAccepted, FieldsError;
    hide CompanyPrefixError;
    if CompileTagParts(s, parts, text).Success? {
      var p := CompileTagParts(s, parts, text).value;
      var o := CompiledFits(s, parts, text, p);
    }
    if o :| TagPartsFit(s, o, parts) {
      TagOption(s, o, parts);
      FieldsCompile(o.tagFields, parts, true);
      var ps := Gs1Pattern.PatternFields(o.tagFields, parts, true).value;
      ShapesAccepted(o.tagFields, parts, true, ps);
      var opt := OptionForPattern(s, parts, 1);
      BitsCompile(s, opt, o, parts, ps);
      SchemeNamed(s);
    }
  }

  lemma SchemeNamed(s: Scheme)
    requires WellFormedScheme(s)
    ensures s.id != "" && ':' !in s.id && ':' !in s.key
  {
    hide WellFormedOption;
  }

  lemma CompiledFits(s: Scheme, parts: seq<string>, text: string, p: Pattern) returns (o: LayoutOption)
    requires WellFormedScheme(s) && CompileTagParts(s, parts, text) == Success(p)
    ensures TagPartsFit(s, o, parts)
  {
    hide WellFormedScheme, WellFormedOption, PatternField, PatternBits, PartFits, CompileTagParts, OptionForPattern;
    var opt := CompiledTag(s, parts, text, p);
    FirstOption(s);
    o := if opt.Some? then opt.value else s.def.options[0];
    TagUsableOption(s, o);
    OptionShape(s, o);
    PatternAccepted(p);
    ShapesAccepted(o.tagFields, parts, true, p.fields);
    forall i | 0 <= i < |parts|
      ensures PartFits(o.tagFields[i], parts[i], i != 1)
    {
      TagFieldWellFormed(s, o, i);
      FieldCompiles(o.tagFields[i], parts[i], true);
      if i == 1 {
        NoRangeFits(o.tagFields[1], parts[1]);
        assert opt.Some? ==> !IsRange(parts[1]);
      }
    }
  }

  lemma PatternAccepted(p: Pattern)
    requires WellFormedPattern(p)
    ensures FieldsAccepted(p.fields, false)
  {
  }

  lemma NoRangeFits(f: URIField, part: string)
    requires WellFormedField(f) && PartFits(f, part, true) && (part == "*" || !IsRange(part))
    ensures PartFits(f, part, false)
  {
    hide Render, ValueOf;
    forall a, b | Spans(part, a, b)
      ensures IsRange(part)
    {
      SpansCut(part, a, b);
    }
  }

  // ----------------------------------------------------------- ID patterns

  /** The option and fields an ID pattern is compiled with are those its company prefix selects. */
  lemma IDOption(s: Scheme, o: LayoutOption, parts: seq<string>)
    requires WellFormedScheme(s) && IDPartsFit(s, o, parts)
    ensures WellFormedOption(s, o)
    ensures var opt := OptionForPattern(s, parts, 0);
      && (opt == None || opt == Some(o))
      && (opt.None? ==> AllAnyFrom(parts, 0) && o == s.def.options[0])
    ensures forall i | 0 <= i < |parts| :: PatternField(o.pureFields[i], parts[i], false).Success?
  {
    hide WellFormedScheme, PartFits, PatternField, WellFormedOption, OptionByLength;
    SchemeOption(s, o);
    PureFieldsWellFormed(s, o);
    PrefixIsExact(o.pureFields[0], parts[0]);
    forall i | 0 <= i < |parts|
      ensures PatternField(o.pureFields[i], parts[i], false).Success?
    {
      FieldCompiles(o.pureFields[i], parts[i], false);
    }
  }

  lemma IDPartsCompile(s: Scheme, parts: seq<string>, text: string)
    requires WellFormedScheme(s)
    ensures CompileIDParts(s, parts, text).Success? <==> exists o :: IDPartsFit(s, o, parts)
  {
    hide WellFormedScheme, WellFormedOption, PatternField, PartFits, FieldsAccepted, FieldsError, CompanyPrefixError;
    if CompileIDParts(s, parts, text).Success? {
      var p := CompileIDParts(s, parts, text).value;
      var o := CompiledIDFits(s, parts, text, p);
    }
    if o :| IDPartsFit(s, o, parts) {
      IDOption(s, o, parts);
      FieldsCompile(o.pureFields, parts, false);
      var ps := Gs1Pattern.PatternFields(o.pureFields, parts, false).value;
      ShapesAccepted(o.pureFields, parts, false, ps);
      PureOrder(s, o);
      assert PatternNames(ps) == ComponentOrder(s.keyType);
    }
  }

  lemma CompiledIDFits(s: Scheme, parts: seq<string>, text: string, p: Pattern) returns (o: LayoutOption)
    requires WellFormedScheme(s) && CompileIDParts(s, parts, text) == Success(p)
    ensures IDPartsFit(s, o, parts)
  {
    hide WellFormedScheme, WellFormedOption, PatternField, PartFits, CompanyPrefixError, FieldsAccepted, FieldsError;
    var opt := OptionForPattern(s, parts, 0);
    FirstOption(s);
    o := if opt.Some? then opt.value else s.def.options[0];
    TagUsableOption(s, o);
    OptionShape(s, o);
    PureFieldsWellFormed(s, o);
    hide OptionForPattern;
    var ps := Gs1Pattern.PatternFields(o.pureFields, parts, false).value;
    ShapesAccepted(o.pureFields, parts, false, ps);
    forall i | 0 <= i < |parts|
      ensures PartFits(o.pureFields[i], parts[i], false)
    {
      FieldCompiles(o.pureFields[i], parts[i], false);
    }
  }

  // --------------------------------------------------------------- theorem

  lemma LongJoin(parts: seq<string>)
    requires |parts| >= 2
    ensures Join(parts, '.') != ""
  {
  }

  /** A tag pattern text compiles exactly when it spells a registered scheme and parts that fit it. */
  lemma TagPatternCompiles(reg: Registry, text: string)
    requires HasPrefix(text, TAG_PATTERN_PREFIX)
    ensures CompileTagPattern(reg, text).Success? <==> TagCompiles(reg, text)
  {
    hide CompileTagParts, SplitPattern, Spelled, WellFormedScheme, TagPartsFit, HasPrefix, FirstByID;
    if CompileTagPattern(reg, text).Success? {
      var split := SplitPattern(text, TAG_PATTERN_PREFIX).value;
      SplitSpelled(text, TAG_PATTERN_PREFIX, split.0, split.1);
      var s := Lookup(reg, split.0).value;
      TagPartsCompile(s, split.1, text);
    }
    if s, o, parts :| s in reg && Spelled(text, TAG_PATTERN_PREFIX, s.id, parts) && TagPartsFit(s, o, parts) {
      AtLeastTwo(s, o, parts);
      LongJoin(parts);
      LookupRegistered(reg, s);
      SchemeNamed(s);
      SpelledSplit(text, TAG_PATTERN_PREFIX, s.id, parts);
      TagPartsCompile(s, parts, text);
    }
  }

  lemma AtLeastTwo(s: Scheme, o: LayoutOption, parts: seq<string>)
    requires WellFormedScheme(s) && TagPartsFit(s, o, parts)
    ensures |parts| >= 2
  {
  }

  lemma IDAtLeastTwo(s: Scheme, o: LayoutOption, parts: seq<string>)
    requires WellFormedScheme(s) && IDPartsFit(s, o, parts)
    ensures |parts| >= 2
  {
    hide PartFits, WellFormedOption;
    SchemeOption(s, o);
    PureOrder(s, o);
  }

  /** An ID pattern text compiles exactly when it spells a registered key and parts that fit it. */
  lemma IDPatternCompiles(reg: Registry, text: string)
    requires HasPrefix(text, ID_PATTERN_PREFIX)
    ensures CompileIDPattern(reg, text).Success? <==> IDCompiles(reg, text)
  {
    hide CompileIDParts, SplitPattern, Spelled, WellFormedScheme, IDPartsFit, HasPrefix, FirstByKey;
    if CompileIDPattern(reg, text).Success? {
      var split := SplitPattern(text, ID_PATTERN_PREFIX).value;
      SplitSpelled(text, ID_PATTERN_PREFIX, split.0, split.1);
      var s := FirstByKey(reg, split.0).value;
      KeyRegistered(reg, s);
      IDPartsCompile(s, split.1, text);
    }
    if s, o, parts :|
      s in reg && s.key != "" && Spelled(text, ID_PATTERN_PREFIX, s.key, parts) && IDPartsFit(s, o, parts) {
      KeyRegistered(reg, s);
      IDAtLeastTwo(s, o, parts);
      LongJoin(parts);
      SpelledSplit(text, ID_PATTERN_PREFIX, s.key, parts);
      IDPartsCompile(s, parts, text);
    }
  }

  /** Exactly these texts compile. */
  lemma PatternCompiles(reg: Registry, text: string)
    ensures CompilePattern(reg, text).Success? <==> TagCompiles(reg, text) || IDCompiles(reg, text)
  {
    hide CompileTagPattern, CompileIDPattern, HasPrefix, Spelled, TagPartsFit, IDPartsFit;
    PrefixesApart(text);
    forall prefix, name, parts | Spelled(text, prefix, name, parts)
      ensures HasPrefix(text, prefix)
    {
      SpelledHasPrefix(text, prefix, name, parts);
    }
    if HasPrefix(text, TAG_PATTERN_PREFIX) {
      TagPatternCompiles(reg, text);
    } else if HasPrefix(text, ID_PATTERN_PREFIX) {
      IDPatternCompiles(reg, text);
    }
  }
}
