/** From tag bits and pattern texts to subscriptions (internal/app/tagstrak/match.go, internal/tdt, internal/filter). */
module TagMatching {
  import opened Wrappers
  import opened Identity
  import opened Layout
  import opened Filter
  import opened FilterIndex
  import Gs1Codec
  import Gs1Pattern
  import Gs1Uri
  import Iso
  import opened PatternText
  import SchemeTable
  import Text
  import Translate

  /** A translation as matching sees it. */
  function SubjectOf(t: Translation): Subject {
    Subject(t.identity, t.encoding.scheme, t.encoding.fields, t.encoding.bits, t.encoding.bitLen)
  }

  /** Compiled patterns are ones the constructor built. */
  lemma CompiledWellFormed(reg: Registry, text: string, p: Pattern)
    requires Gs1Pattern.CompilePattern(reg, text) == Success(p)
    ensures WellFormedPattern(p) && !p.level.LevelUnset?
    ensures p.level.LevelEncoding? ==> Gs1Pattern.CompileTagPattern(reg, text) == Success(p)
  {
    hide Gs1Pattern.CompileIDPattern, Gs1Pattern.CompileTagPattern, WellFormedPattern, Text.HasPrefix;
    if Text.HasPrefix(text, Gs1Pattern.ID_PATTERN_PREFIX) {
      CompiledIDPattern(reg, text, p);
    } else {
      CompiledTagPattern(reg, text, p);
    }
  }

  lemma CompiledIDPattern(reg: Registry, text: string, p: Pattern)
    requires Gs1Pattern.CompileIDPattern(reg, text) == Success(p)
    ensures WellFormedPattern(p) && p.level.LevelIdentity?
  {
    hide Gs1Pattern.PatternFields, Gs1Pattern.OptionForPattern, Gs1Pattern.SplitPattern, Gs1Uri.FirstByKey;
    hide WellFormedOption;
  }

  lemma CompiledTagPattern(reg: Registry, text: string, p: Pattern)
    requires Gs1Pattern.CompileTagPattern(reg, text) == Success(p)
    ensures WellFormedPattern(p) && p.level.LevelEncoding?
  {
    hide Gs1Pattern.CompileTagParts, Gs1Pattern.SplitPattern, Gs1Codec.FirstByID, WellFormedPattern, WellFormedScheme;
    var (id, parts) := Gs1Pattern.SplitPattern(text, Gs1Pattern.TAG_PATTERN_PREFIX).value;
    var s := Gs1Codec.Lookup(reg, id).value;
    var opt := Gs1Pattern.CompiledTag(s, parts, text, p);
  }

  /** The scheme of a compiled tag pattern is a registered one. */
  lemma CompiledScheme(reg: Registry, text: string, p: Pattern)
    requires Gs1Pattern.CompilePattern(reg, text) == Success(p) && p.level.LevelEncoding?
    ensures Gs1Codec.Lookup(reg, p.scheme).Some?
  {
    CompiledWellFormed(reg, text, p);
    hide Gs1Pattern.CompilePattern, Gs1Pattern.CompileTagParts, Gs1Pattern.SplitPattern, Gs1Codec.FirstByID;
    hide WellFormedPattern, WellFormedScheme;
    var (id, parts) := Gs1Pattern.SplitPattern(text, Gs1Pattern.TAG_PATTERN_PREFIX).value;
    var s := Gs1Codec.Lookup(reg, id).value;
    var opt := Gs1Pattern.CompiledTag(s, parts, text, p);
  }

  /** On every translation the match rule, bit tests included, is the reference semantics on fields. */
  lemma RuleIsReference(reg: Registry, text: string, p: Pattern, t: Translation)
    requires Gs1Pattern.CompilePattern(reg, text) == Success(p) && Genuine(reg, t)
    ensures Matches(p, SubjectOf(t)) <==> MatchTranslation(t, p)
  {
    CompiledWellFormed(reg, text, p);
    hide Gs1Codec.Decode, Gs1Codec.Lookup, Gs1Pattern.CompilePattern, Gs1Pattern.CompileTagPattern;
    hide WellFormedPattern, MatchBits, MatchComponents;
    if p.level.LevelEncoding? && p.bits.Some? && t.encoding.scheme == p.scheme {
      CompiledScheme(reg, text, p);
      var bits, bitLen: nat :| DecodedFrom(reg, t, bits, bitLen);
      Gs1Pattern.BitTestIsFieldTest(reg, text, p, bits, bitLen, t);
    }
  }

  /** A configured subscription: its ID and the texts of its patterns. */
  datatype Rule = Rule(id: ID, texts: seq<string>)

  ghost predicate CompiledFrom(reg: Registry, rules: seq<Rule>, subs: seq<Subscription>) {
    && |subs| == |rules|
    && forall i | 0 <= i < |rules| :: subs[i].id == rules[i].id && CompiledTexts(reg, rules[i].texts, subs[i].patterns)
  }

  ghost predicate CompiledTexts(reg: Registry, texts: seq<string>, patterns: seq<Pattern>) {
    && |patterns| == |texts|
    && forall j | 0 <= j < |texts| :: Gs1Pattern.CompilePattern(reg, texts[j]) == Success(patterns[j])
  }

  /** Some pattern of the subscription satisfies the reference semantics. */
  predicate ReferenceHit(sub: Subscription, t: Translation) {
    exists p | p in sub.patterns :: MatchTranslation(t, p)
  }

  /** The IDs the reference semantics selects, in subscription order. */
  function ReferenceIDs(subs: seq<Subscription>, n: nat, t: Translation): (r: seq<ID>)
    requires n <= |subs|
  {
    if n == 0 then []
    else ReferenceIDs(subs, n - 1, t) + if ReferenceHit(subs[n - 1], t) then [subs[n - 1].id] else []
  }

  /** Some pattern text of the rule says so. */
  ghost predicate RuleSays(reg: Registry, rule: Rule, t: Translation) {
    exists j :: 0 <= j < |rule.texts| && Says(reg, rule.texts[j], t)
  }

  /** The IDs of the rules whose texts say so, in order. */
  ghost function SaidIDs(reg: Registry, rules: seq<Rule>, n: nat, t: Translation): (r: seq<ID>)
    requires n <= |rules|
  {
    if n == 0 then []
    else SaidIDs(reg, rules, n - 1, t) + if RuleSays(reg, rules[n - 1], t) then [rules[n - 1].id] else []
  }

  /** A compiled subscription is hit by the reference semantics exactly when one of its texts says so. */
  lemma HitIsSaid(reg: Registry, rules: seq<Rule>, subs: seq<Subscription>, i: nat, t: Translation)
    requires CompiledFrom(reg, rules, subs) && i < |subs| && Genuine(reg, t)
    ensures ReferenceHit(subs[i], t) <==> RuleSays(reg, rules[i], t)
  {
    hide Genuine, Gs1Pattern.CompilePattern, Says, MatchTranslation;
    assert CompiledTexts(reg, rules[i].texts, subs[i].patterns);
    forall j | 0 <= j < |rules[i].texts|
      ensures MatchTranslation(t, subs[i].patterns[j]) <==> Says(reg, rules[i].texts[j], t)
    {
      PatternSays(reg, rules[i].texts[j], subs[i].patterns[j], t);
    }
  }

  /** What the reference semantics selects of compiled rules is what their texts say. */
  lemma {:induction false} ReferenceIsSaid(reg: Registry, rules: seq<Rule>, subs: seq<Subscription>, n: nat,
                                           t: Translation)
    requires CompiledFrom(reg, rules, subs) && n <= |subs| && Genuine(reg, t)
    ensures |subs| == |rules| && ReferenceIDs(subs, n, t) == SaidIDs(reg, rules, n, t)
  {
    hide Genuine, RuleSays, ReferenceHit, CompiledTexts;
    if n > 0 {
      ReferenceIsSaid(reg, rules, subs, n - 1, t);
      HitIsSaid(reg, rules, subs, n - 1, t);
    }
  }

  lemma HitIsReferenceHit(reg: Registry, rules: seq<Rule>, subs: seq<Subscription>, i: nat, t: Translation)
    requires CompiledFrom(reg, rules, subs) && i < |subs| && Genuine(reg, t)
    ensures Hits(subs, i, SubjectOf(t)) <==> ReferenceHit(subs[i], t)
  {
    hide Genuine, Gs1Pattern.CompilePattern, Matches, MatchTranslation;
    assert CompiledTexts(reg, rules[i].texts, subs[i].patterns);
    forall p | p in subs[i].patterns
      ensures Matches(p, SubjectOf(t)) <==> MatchTranslation(t, p)
    {
      var j :| 0 <= j < |subs[i].patterns| && subs[i].patterns[j] == p;
      RuleIsReference(reg, rules[i].texts[j], p, t);
    }
  }

  /** What any correct matcher answers for a translation is what the reference semantics selects. */
  lemma {:induction false} MatchingIsReference(reg: Registry, rules: seq<Rule>, subs: seq<Subscription>, n: nat,
                                               t: Translation)
    requires CompiledFrom(reg, rules, subs) && n <= |subs| && Genuine(reg, t)
    ensures MatchingIDs(subs, n, SubjectOf(t)) == ReferenceIDs(subs, n, t)
  {
    hide Genuine, Hits, ReferenceHit, CompiledFrom;
    if n > 0 {
      MatchingIsReference(reg, rules, subs, n - 1, t);
      HitIsReferenceHit(reg, rules, subs, n - 1, t);
    }
  }

  /** Lists whose patterns were all compiled satisfy what compiling an index asks of them. */
  lemma CompiledConstructed(reg: Registry, rules: seq<Rule>, subs: seq<Subscription>)
    requires CompiledFrom(reg, rules, subs)
    ensures Constructed(subs)
  {
    hide Gs1Pattern.CompilePattern, WellFormedPattern;
    forall i, j | 0 <= i < |subs| && 0 <= j < |subs[i].patterns|
      ensures WellFormedPattern(subs[i].patterns[j])
    {
      assert CompiledTexts(reg, rules[i].texts, subs[i].patterns);
      CompiledWellFormed(reg, rules[i].texts[j], subs[i].patterns[j]);
    }
  }

  /** Compiled pattern texts always make an index, unless the list itself is refused. */
  method IndexRules(reg: Registry, ghost rules: seq<Rule>, subs: seq<Subscription>)
    returns (e: Option<FilterError>, m: Index?)
    requires CompiledFrom(reg, rules, subs)
    ensures e.None? <==> ValidSubscriptions(subs)
    ensures e.None? ==> m != null && m.Valid() && m.subscriptions == subs
  {
    hide CompiledFrom, Constructed, ValidSubscriptions;
    CompiledConstructed(reg, rules, subs);
    e, m := CompileIndex(subs);
  }

  // ------------------------------------------------------------ translations

  /** The schemes of ISO translations are not among the registered GS1 ones. */
  lemma IsoUnregistered(id: SchemeID)
    requires id == Iso.TransportUnitScheme() || id == Iso.Scheme17363()
    ensures Gs1Codec.Lookup(Translate.GeneratedRegistry(), id).None?
  {
    hide Translate.GeneratedRegistry, Gs1Codec.FirstByID, WellFormedScheme, Iso.TransportUnitScheme, Iso.Scheme17363;
    forall s | s in Translate.GeneratedRegistry()
      ensures s.id != id
    {
      IsoIsNoLabel(s, id);
    }
  }

  lemma IsoIsNoLabel(s: Scheme, id: SchemeID)
    requires s in Translate.GeneratedRegistry() && (id == Iso.TransportUnitScheme() || id == Iso.Scheme17363())
    ensures s.id != id
  {
    hide WellFormedScheme;
    assert s in SchemeTable.SCHEMES;
    assert |s.id| <= 8;
    hide SchemeTable.Sgtin96, SchemeTable.Sscc96, SchemeTable.Giai96, SchemeTable.Grai96;
  }

  lemma IsoScheme(bits: seq<bv8>, bitLen: nat, afi: nat, t: Translation)
    requires Iso.Decode(bits, bitLen, afi) == Success(t)
    ensures t.encoding.scheme == Iso.TransportUnitScheme() && t.identity.authority == AuthorityISO15459
  {
    hide Iso.Decode, Iso.TransportUnitScheme, Iso.Scheme17363, Iso.SplitDI, Iso.AuthorityForDI, Iso.CheckIdentity;
    var text, di, body := Iso.DecodeInversion(bits, bitLen, afi, t);
  }

  /** Whatever the translator answers, of either numbering system, is a translation the matchers are right about. */
  lemma TranslatedIsGenuine(defaultFormat: Translate.Format, input: Translate.Input, t: Translation)
    requires Translate.TranslateTag(Translate.GeneratedRegistry(), defaultFormat, input) == Success(t)
    ensures Genuine(Translate.GeneratedRegistry(), t)
  {
    var reg := Translate.GeneratedRegistry();
    hide Translate.GeneratedRegistry, Translate.SignificantBits, Translate.PCToggle, Translate.PCAFI;
    hide Gs1Codec.Decode, Gs1Codec.Lookup, Iso.Decode, Iso.TransportUnitScheme, Iso.Scheme17363;
    var bitLen := Translate.SignificantBits(input).value;
    if afi: nat :| Iso.Decode(input.bits, bitLen, afi) == Success(t) {
      IsoScheme(input.bits, bitLen, afi, t);
      IsoUnregistered(t.encoding.scheme);
    } else {
      assert DecodedFrom(reg, t, input.bits, bitLen);
    }
  }

  /**
   * From tag memory to subscriptions: translating, under whichever numbering system the PC word names, and asking the
   * index gives exactly the subscriptions one of whose pattern texts says so, in their order; these are the ones with a
   * pattern the reference semantics accepts.
   */
  method MatchTag(ghost rules: seq<Rule>, m: Index, defaultFormat: Translate.Format, input: Translate.Input,
                  dst: seq<ID>)
    returns (r: Result<seq<ID>, Error>)
    requires m.Valid() && CompiledFrom(Translate.GeneratedRegistry(), rules, m.subscriptions)
    ensures match Translate.TranslateTag(Translate.GeneratedRegistry(), defaultFormat, input)
            case Failure(e) => r == Failure(e)
            case Success(t) =>
              && r == Success(dst + SaidIDs(Translate.GeneratedRegistry(), rules, |rules|, t))
              && r == Success(dst + ReferenceIDs(m.subscriptions, |m.subscriptions|, t))
  {
    hide Translate.TranslateTag, Translate.GeneratedRegistry, CompiledFrom, Genuine, SaidIDs, ReferenceIDs, MatchingIDs;
    var translated := Translate.TranslateTag(Translate.GeneratedRegistry(), defaultFormat, input);
    if translated.Failure? {
      return Failure(translated.error);
    }
    TranslatedIsGenuine(defaultFormat, input, translated.value);
    MatchingIsReference(Translate.GeneratedRegistry(), rules, m.subscriptions, |m.subscriptions|, translated.value);
    ReferenceIsSaid(Translate.GeneratedRegistry(), rules, m.subscriptions, |m.subscriptions|, translated.value);
    var found := m.Match(SubjectOf(translated.value), dst);
    return Success(found);
  }

  /** ISO translations satisfy no tag pattern, neither by the rule nor by the reference semantics. */
  lemma IsoMatchesNoTagPattern(text: string, p: Pattern, bits: seq<bv8>, bitLen: nat, afi: nat, t: Translation)
    requires Gs1Pattern.CompilePattern(Translate.GeneratedRegistry(), text) == Success(p) && p.level.LevelEncoding?
    requires Iso.Decode(bits, bitLen, afi) == Success(t)
    ensures !Matches(p, SubjectOf(t)) && !MatchTranslation(t, p)
  {
    hide Gs1Pattern.CompilePattern, Iso.Decode, Gs1Codec.Lookup, Iso.TransportUnitScheme, Iso.Scheme17363;
    hide Translate.GeneratedRegistry, MatchBits, MatchComponents;
    CompiledScheme(Translate.GeneratedRegistry(), text, p);
    IsoScheme(bits, bitLen, afi, t);
    IsoUnregistered(t.encoding.scheme);
  }
}
