/**
 * Which identifier texts name nothing that is registered (internal/tdt/gs1epc/uri.go,
 * internal/tdt/gs1epc/pattern.go).
 */
module Refusals {
  import opened Wrappers
  import opened Identity
  import opened Layout
  import opened Gs1Field
  import opened Gs1Codec
  import opened Gs1Uri
  import opened Gs1Pattern
  import opened Text

  /** The text is the prefix, a name, a colon and a body. */
  predicate Headed(text: string, prefix: string, name: string, body: string) {
    ':' !in name && text == prefix + name + ":" + body
  }

  /** No registered scheme has the key. */
  predicate NoKey(reg: Registry, key: string) {
    forall s | s in reg :: s.key != key
  }

  predicate NoLabel(reg: Registry, id: SchemeID) {
    forall s | s in reg :: s.id != id
  }

  lemma HeadedCut(text: string, prefix: string, name: string, body: string)
    ensures Headed(text, prefix, name, body) <==>
              HasPrefix(text, prefix) && Cut(text[|prefix|..], ':') == Some((name, body))
  {
    if Headed(text, prefix, name, body) {
      assert text[|prefix|..] == name + [':'] + body;
      CutOfJoined(name, ':', body);
    }
    if HasPrefix(text, prefix) && Cut(text[|prefix|..], ':') == Some((name, body)) {
      CutSplits(text[|prefix|..], ':');
    }
  }

  lemma {:induction false} KeyMissing(schemes: seq<Scheme>, key: string)
    ensures FirstByKey(schemes, key).None? <==> forall s | s in schemes :: s.key != key
  {
    if schemes != [] {
      KeyMissing(schemes[1..], key);
    }
  }

  lemma {:induction false} LabelMissing(schemes: seq<Scheme>, id: SchemeID)
    ensures FirstByID(schemes, id).None? <==> forall s | s in schemes :: s.id != id
  {
    if schemes != [] {
      LabelMissing(schemes[1..], id);
    }
  }

  // ------------------------------------------------------------------- URIs

  /** Texts under a scheme's own field names make an identity. */
  lemma NamedBuilt(s: Scheme, o: LayoutOption, texts: seq<string>)
    requires WellFormedScheme(s) && o in s.def.options && |texts| == |o.pureFields|
    ensures NewValue(AuthorityGS1, s.keyType, Named(o.pureFields, texts)) ==
            Success(Value(AuthorityGS1, s.keyType, Named(o.pureFields, texts)))
    ensures Built(Value(AuthorityGS1, s.keyType, Named(o.pureFields, texts)))
  {
    SchemeOption(s, o);
    PureOrder(s, o);
    KnownKeyType(s);
    hide WellFormedScheme, WellFormedOption;
    assert Names(Named(o.pureFields, texts)) == ComponentOrder(s.keyType);
  }

  /** What the body of a pure identity URI is refused for: its number of fields, or their values. */
  lemma PureBodyRefuses(s: Scheme, parts: seq<string>)
    requires WellFormedScheme(s) && |parts| >= 1
    ensures ParsePureBody(s, parts).Failure? ==>
              ParsePureBody(s, parts).error.MalformedURI? || ParsePureBody(s, parts).error.FieldValue?
  {
    hide ParseField;
    var opt := OptionByLength(s.def.options, |parts[0]|);
    OptionMember(s.def.options, |parts[0]|);
    if opt.Some? && |parts| == |opt.value.pureFields| {
      NamedBuilt(s, opt.value, parts);
    }
    hide WellFormedScheme;
  }

  /**
   * A pure identity URI is of an unsupported scheme exactly when it names a key nobody has, and malformed without
   * one.
   */
  lemma PureRefuses(reg: Registry, uri: string, e: Error)
    requires ParsePureIdentityURI(reg, uri) == Failure(e)
    ensures e.UnsupportedScheme? <==> exists key, body :: Headed(uri, "urn:epc:id:", key, body) && NoKey(reg, key)
    ensures (forall key, body :: !Headed(uri, "urn:epc:id:", key, body)) ==> e.MalformedURI?
    ensures e.UnsupportedScheme? || e.MalformedURI? || e.FieldValue?
  {
    hide ParsePureBody, WellFormedScheme, Headed;
    forall key, body
      ensures Headed(uri, PURE_PREFIX, key, body) <==>
                HasPrefix(uri, PURE_PREFIX) && Cut(uri[|PURE_PREFIX|..], ':') == Some((key, body))
    {
      HeadedCut(uri, PURE_PREFIX, key, body);
    }
    if HasPrefix(uri, PURE_PREFIX) && Cut(uri[|PURE_PREFIX|..], ':').Some? {
      var (key, body) := Cut(uri[|PURE_PREFIX|..], ':').value;
      assert Headed(uri, PURE_PREFIX, key, body);
      KeyMissing(reg, key);
      if FirstByKey(reg, key).Some? {
        PureBodyRefuses(FirstByKey(reg, key).value, Split(body, '.'));
      }
    }
  }

  lemma TagBodyRefuses(reg: Registry, s: Scheme, parts: seq<string>)
    requires s in reg && WellFormedScheme(s)
    ensures ParseTagBody(reg, s, parts).Failure? ==>
              ParseTagBody(reg, s, parts).error.MalformedURI? || ParseTagBody(reg, s, parts).error.FieldValue?
  {
    hide WellFormedScheme, WellFormedOption, ParseField, EncodeOption, OptionForValue;
    LookupRegistered(reg, s);
    if |parts| >= 2 && OptionByLength(s.def.options, |parts[1]|).Some? {
      OptionMember(s.def.options, |parts[1]|);
      var o := OptionByLength(s.def.options, |parts[1]|).value;
      SchemeOption(s, o);
      OptionShape(s, o);
      if |parts| == |o.tagFields| && ParseField(o.tagFields[0], parts[0]).Success? {
        FilterIsByte(s, o, parts[0]);
        FieldError(o.tagFields[0], parts[0]);
        NamedBuilt(s, o, parts[1..]);
        var v := Value(AuthorityGS1, s.keyType, Named(o.pureFields, parts[1..]));
        var filter := ParseField(o.tagFields[0], parts[0]).value;
        if Encode(reg, v, s.id, filter).Failure? {
          EncodeRefuses(reg, v, s.id, filter, Encode(reg, v, s.id, filter).error);
        }
      } else {
        FieldError(o.tagFields[0], parts[0]);
      }
    }
  }

  lemma FieldError(f: URIField, text: string)
    ensures ParseField(f, text).Failure? ==> ParseField(f, text).error.FieldValue?
  {
  }

  /** The same of tag URIs and labels. */
  lemma TagRefuses(reg: Registry, uri: string, e: Error)
    requires ParseTagURI(reg, uri) == Failure(e)
    ensures e.UnsupportedScheme? <==> exists id, body :: Headed(uri, "urn:epc:tag:", id, body) && NoLabel(reg, id)
    ensures (forall id, body :: !Headed(uri, "urn:epc:tag:", id, body)) ==> e.MalformedURI?
    ensures e.UnsupportedScheme? || e.MalformedURI? || e.FieldValue?
  {
    hide ParseTagBody, WellFormedScheme, Headed;
    forall id, body
      ensures Headed(uri, TAG_PREFIX, id, body) <==>
                HasPrefix(uri, TAG_PREFIX) && Cut(uri[|TAG_PREFIX|..], ':') == Some((id, body))
    {
      HeadedCut(uri, TAG_PREFIX, id, body);
    }
    if HasPrefix(uri, TAG_PREFIX) && Cut(uri[|TAG_PREFIX|..], ':').Some? {
      var (id, body) := Cut(uri[|TAG_PREFIX|..], ':').value;
      assert Headed(uri, TAG_PREFIX, id, body);
      LabelMissing(reg, id);
      if Lookup(reg, id).Some? {
        TagBodyRefuses(reg, Lookup(reg, id).value, Split(body, '.'));
      }
    }
  }

  // --------------------------------------------------------------- patterns

  lemma {:induction false} FieldsRefuse(fields: seq<URIField>, parts: seq<string>, ranges: bool)
    requires |fields| == |parts|
    ensures Gs1Pattern.PatternFields(fields, parts, ranges).Failure? ==>
            Gs1Pattern.PatternFields(fields, parts, ranges).error.FieldValue?
  {
    if parts != [] {
      FieldError(fields[0], parts[0]);
      FieldsRefuse(fields[1..], parts[1..], ranges);
    }
  }

  lemma {:induction false} StarRefuses(fields: seq<FieldPattern>, seenAny: bool)
    requires !FieldsAccepted(fields, seenAny)
    ensures !FieldsError(fields, seenAny).UnsupportedScheme?
  {
    if fields[0].FieldAny? {
      StarRefuses(fields[1..], true);
    } else if !FieldsAccepted(fields[1..], seenAny) {
      StarRefuses(fields[1..], seenAny);
    }
  }

  lemma IDPartsRefuse(s: Scheme, parts: seq<string>, text: string)
    requires WellFormedScheme(s)
    ensures CompileIDParts(s, parts, text).Failure? ==> !CompileIDParts(s, parts, text).error.UnsupportedScheme?
  {
    hide FieldsAccepted, FieldsError, AllAnyFrom, OptionForPattern, WellFormedOption;
    assert |s.def.options| > 0;
    hide WellFormedScheme;
    var opt := OptionForPattern(s, parts, 0);
    var uriFields := if opt.Some? then opt.value.pureFields else s.def.options[0].pureFields;
    if |parts| == |uriFields| {
      FieldsRefuse(uriFields, parts, false);
      var fields := Gs1Pattern.PatternFields(uriFields, parts, false);
      if fields.Success? && !FieldsAccepted(fields.value, false) {
        StarRefuses(fields.value, false);
      }
    }
  }

  lemma TagPartsRefuse(s: Scheme, parts: seq<string>, text: string)
    requires WellFormedScheme(s)
    ensures CompileTagParts(s, parts, text).Failure? ==> !CompileTagParts(s, parts, text).error.UnsupportedScheme?
  {
    hide FieldsAccepted, FieldsError, AllAnyFrom, OptionForPattern, PatternBits;
    TagUsable(s);
    hide WellFormedScheme, WellFormedOption;
    var opt := OptionForPattern(s, parts, 1);
    var uriFields := if opt.Some? then opt.value.tagFields else s.def.options[0].tagFields;
    if |parts| == |uriFields| {
      FieldsRefuse(uriFields, parts, true);
      var fields := Gs1Pattern.PatternFields(uriFields, parts, true);
      if fields.Success? {
        BitsRefuse(s, opt, fields.value);
        if !FieldsAccepted(fields.value, false) {
          StarRefuses(fields.value, false);
        }
      }
    }
  }

  lemma BitsRefuse(s: Scheme, opt: Option<LayoutOption>, fields: seq<FieldPattern>)
    requires opt.Some? ==> |opt.value.binaryFields| == |fields| && WellFormedOption(s, opt.value)
    requires s.def.tagLength >= 8 && WellFormedScheme(s)
    ensures PatternBits(s, opt, fields).Failure? ==> !PatternBits(s, opt, fields).error.UnsupportedScheme?
  {
    hide HasRange, Constrained, OptionPins;
  }

  /** The pattern text starts with the prefix, a name and a colon, and something follows. */
  ghost predicate NamedIn(text: string, prefix: string, name: string) {
    name != "" && exists body :: body != "" && Headed(text, prefix, name, body)
  }

  /**
   * A pattern text is of an unsupported scheme exactly when it names a key or label nobody has, and malformed when it
   * names none.
   */
  lemma PatternRefuses(reg: Registry, text: string, e: Error)
    requires CompilePattern(reg, text) == Failure(e)
    ensures e.UnsupportedScheme? <==>
              || (exists key :: NamedIn(text, "urn:epc:idpat:", key) && NoKey(reg, key))
              || (exists id :: NamedIn(text, "urn:epc:pat:", id) && NoLabel(reg, id))
    ensures (forall name :: !NamedIn(text, "urn:epc:idpat:", name) && !NamedIn(text, "urn:epc:pat:", name)) ==>
              e.MalformedPattern?
  {
    hide CompileIDPattern, CompileTagPattern, NoKey, NoLabel, NamedIn;
    if HasPrefix(text, ID_PATTERN_PREFIX) {
      IDPatternRefuses(reg, text, e);
    } else if HasPrefix(text, TAG_PATTERN_PREFIX) {
      TagPatternRefuses(reg, text, e);
    }
    forall name
      ensures NamedIn(text, ID_PATTERN_PREFIX, name) ==> HasPrefix(text, ID_PATTERN_PREFIX)
      ensures NamedIn(text, TAG_PATTERN_PREFIX, name) ==>
                HasPrefix(text, TAG_PATTERN_PREFIX) && !HasPrefix(text, ID_PATTERN_PREFIX)
    {
      NamesPrefix(text, ID_PATTERN_PREFIX, name);
      NamesPrefix(text, TAG_PATTERN_PREFIX, name);
      assert HasPrefix(text, TAG_PATTERN_PREFIX) && |text| >= 9 ==> text[8] == 'p';
      assert HasPrefix(text, ID_PATTERN_PREFIX) ==> text[8] == 'i';
    }
  }

  lemma NamesPrefix(text: string, prefix: string, name: string)
    ensures NamedIn(text, prefix, name) ==> HasPrefix(text, prefix)
  {
    if NamedIn(text, prefix, name) {
      var body :| body != "" && Headed(text, prefix, name, body);
      HeadedCut(text, prefix, name, body);
    }
  }

  /** Splitting finds the one name a pattern text has. */
  lemma SplitNames(text: string, prefix: string)
    requires HasPrefix(text, prefix)
    ensures SplitPattern(text, prefix).Failure? ==>
              SplitPattern(text, prefix).error.MalformedPattern? && forall name :: !NamedIn(text, prefix, name)
    ensures SplitPattern(text, prefix).Success? ==>
              forall name :: NamedIn(text, prefix, name) <==> name == SplitPattern(text, prefix).value.0
  {
    hide Split, Cut, Headed;
    forall name, body
      ensures Headed(text, prefix, name, body) <==> Cut(text[|prefix|..], ':') == Some((name, body))
    {
      HeadedCut(text, prefix, name, body);
    }
    var cut := Cut(text[|prefix|..], ':');
    if cut.Some? {
      assert cut.value == (cut.value.0, cut.value.1);
    }
  }

  lemma IDPatternRefuses(reg: Registry, text: string, e: Error)
    requires HasPrefix(text, ID_PATTERN_PREFIX) && CompileIDPattern(reg, text) == Failure(e)
    ensures e.UnsupportedScheme? <==> exists key :: NamedIn(text, ID_PATTERN_PREFIX, key) && NoKey(reg, key)
    ensures (forall name :: !NamedIn(text, ID_PATTERN_PREFIX, name)) ==> e.MalformedPattern?
  {
    hide SplitPattern, CompileIDParts, WellFormedScheme, NamedIn;
    SplitNames(text, ID_PATTERN_PREFIX);
    var split := SplitPattern(text, ID_PATTERN_PREFIX);
    if split.Success? {
      assert NamedIn(text, ID_PATTERN_PREFIX, split.value.0);
      KeyMissing(reg, split.value.0);
      if FirstByKey(reg, split.value.0).Some? {
        IDPartsRefuse(FirstByKey(reg, split.value.0).value, split.value.1, text);
      }
    }
  }

  lemma TagPatternRefuses(reg: Registry, text: string, e: Error)
    requires HasPrefix(text, TAG_PATTERN_PREFIX) && CompileTagPattern(reg, text) == Failure(e)
    ensures e.UnsupportedScheme? <==> exists id :: NamedIn(text, TAG_PATTERN_PREFIX, id) && NoLabel(reg, id)
    ensures (forall name :: !NamedIn(text, TAG_PATTERN_PREFIX, name)) ==> e.MalformedPattern?
  {
    hide SplitPattern, CompileTagParts, WellFormedScheme, NamedIn;
    SplitNames(text, TAG_PATTERN_PREFIX);
    var split := SplitPattern(text, TAG_PATTERN_PREFIX);
    if split.Success? {
      assert NamedIn(text, TAG_PATTERN_PREFIX, split.value.0);
      LabelMissing(reg, split.value.0);
      if Lookup(reg, split.value.0).Some? {
        TagPartsRefuse(Lookup(reg, split.value.0).value, split.value.1, text);
      }
    }
  }
}
