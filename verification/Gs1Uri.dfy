/** EPC Pure Identity and Tag URIs (internal/tdt/gs1epc/uri.go). */
module Gs1Uri {
  import opened Wrappers
  import opened Bits
  import opened Decimal
  import opened Identity
  import opened Layout
  import opened Gs1Field
  import opened Gs1Codec
  import opened Text

  const PURE_PREFIX := "urn:epc:id:"
  const TAG_PREFIX := "urn:epc:tag:"

  function FirstByKey(schemes: seq<Scheme>, key: string): (r: Option<Scheme>)
    ensures r.Some? ==> r.value in schemes && r.value.key == key
  {
    if schemes == [] then None
    else if schemes[0].key == key then Some(schemes[0])
    else FirstByKey(schemes[1..], key)
  }

  function FirstByKeyType(schemes: seq<Scheme>, k: KeyType): (r: Option<Scheme>)
    ensures r.Some? ==> r.value in schemes && r.value.keyType == k
  {
    if schemes == [] then None
    else if schemes[0].keyType == k then Some(schemes[0])
    else FirstByKeyType(schemes[1..], k)
  }

  lemma {:induction false} KeyFound(schemes: seq<Scheme>, i: nat)
    requires i < |schemes|
    requires forall j, k | 0 <= j < k < |schemes| :: Distinct(schemes[j], schemes[k])
    ensures FirstByKey(schemes, schemes[i].key) == Some(schemes[i])
    ensures FirstByKeyType(schemes, schemes[i].keyType) == Some(schemes[i])
  {
    if i > 0 {
      assert Distinct(schemes[0], schemes[i]);
      KeyFound(schemes[1..], i - 1);
    }
  }

  lemma KeyRegistered(reg: Registry, s: Scheme)
    requires s in reg
    ensures WellFormedScheme(s)
    ensures FirstByKey(reg, s.key) == Some(s) && FirstByKeyType(reg, s.keyType) == Some(s)
  {
    hide WellFormedScheme;
    var i :| 0 <= i < |reg| && reg[i] == s;
    KeyFound(reg, i);
  }

  // ------------------------------------------------------------- rendering

  predicate CanonicalText(f: URIField, text: string) {
    var n := ParseField(f, text);
    n.Success? && Render(f, n.value) == text
  }

  function Texts(components: seq<Component>): (r: seq<string>)
    ensures |r| == |components|
    ensures forall i | 0 <= i < |r| :: r[i] == components[i].value
  {
    seq(|components|, i requires 0 <= i < |components| => components[i].value)
  }

  function PureIdentityURI(reg: Registry, v: Value): Result<string, Error> {
    var found := FirstByKeyType(reg, v.keyType);
    if found.None? then Failure(UnsupportedScheme)
    else
      var s := found.value;
      var o :- OptionForValue(s, v);
      if |v.components| != |o.pureFields| then Failure(CannotEncode)
      else if exists i | 0 <= i < |o.pureFields| :: !CanonicalText(o.pureFields[i], v.components[i].value) then
        Failure(FieldValue)
      else Success(Written(s.def.pureURIPrefix, Texts(v.components), '.'))
  }

  function TagURI(reg: Registry, e: Encoding): Result<string, Error> {
    var s := Lookup(reg, e.scheme);
    if s.None? then Failure(UnsupportedScheme)
    else if e.fields == [] then Failure(CannotEncode)
    else Success(Written(s.value.def.tagURIPrefix, Texts(e.fields), '.'))
  }

  /** The identity renderer: each component is checked and then appended. */
  method RenderPureIdentity(reg: Registry, v: Value) returns (r: Result<string, Error>)
    ensures r == PureIdentityURI(reg, v)
  {
    hide CanonicalText, WellFormedScheme, OptionForValue, Written;
    var found := FirstByKeyType(reg, v.keyType);
    if found.None? {
      return Failure(UnsupportedScheme);
    }
    var s := found.value;
    var opt := OptionForValue(s, v);
    if opt.Failure? {
      return Failure(opt.error);
    }
    var fields := opt.value.pureFields;
    if |v.components| != |fields| {
      return Failure(CannotEncode);
    }
    var uri := s.def.pureURIPrefix;
    NothingWritten(uri);
    for i := 0 to |fields|
      invariant uri == Written(s.def.pureURIPrefix, Texts(v.components)[..i], '.')
      invariant forall j | 0 <= j < i :: CanonicalText(fields[j], v.components[j].value)
    {
      var text := v.components[i].value;
      if !CanonicalText(fields[i], text) {
        return Failure(FieldValue);
      }
      uri := Appended(uri, text, i);
      WrittenMore(s.def.pureURIPrefix, Texts(v.components)[..i], '.', text);
      assert Texts(v.components)[..i + 1] == Texts(v.components)[..i] + [text];
    }
    assert Texts(v.components)[..|fields|] == Texts(v.components);
    return Success(uri);
  }

  /** One loop step of a renderer: component i behind the text so far. */
  function Appended(uri: string, text: string, i: nat): string {
    (if i > 0 then uri + "." else uri) + text
  }

  lemma NothingWritten(prefix: string)
    ensures Written(prefix, [], '.') == prefix
  {
  }

  /** The tag renderer. */
  method RenderTag(reg: Registry, e: Encoding) returns (r: Result<string, Error>)
    ensures r == TagURI(reg, e)
  {
    hide WellFormedScheme, Written, FirstByID;
    var s := Lookup(reg, e.scheme);
    if s.None? {
      return Failure(UnsupportedScheme);
    }
    if e.fields == [] {
      return Failure(CannotEncode);
    }
    var prefix := s.value.def.tagURIPrefix;
    var uri := prefix;
    NothingWritten(prefix);
    for i := 0 to |e.fields|
      invariant uri == Written(prefix, Texts(e.fields)[..i], '.')
    {
      uri := Appended(uri, e.fields[i].value, i);
      WrittenMore(prefix, Texts(e.fields)[..i], '.', e.fields[i].value);
      assert Texts(e.fields)[..i + 1] == Texts(e.fields)[..i] + [e.fields[i].value];
    }
    assert Texts(e.fields)[..|e.fields|] == Texts(e.fields);
    return Success(uri);
  }

  // --------------------------------------------------------------- parsing

  /** Texts named after their fields. */
  function Named(fields: seq<URIField>, texts: seq<string>): (r: seq<Component>)
    requires |fields| == |texts|
    ensures |r| == |fields|
    ensures forall i | 0 <= i < |r| :: r[i] == Component(fields[i].name, texts[i])
  {
    seq(|fields|, i requires 0 <= i < |fields| => Component(fields[i].name, texts[i]))
  }

  predicate AllParse(fields: seq<URIField>, texts: seq<string>)
    requires |fields| == |texts|
  {
    forall i | 0 <= i < |fields| :: ParseField(fields[i], texts[i]).Success?
  }

  function ParsePureIdentityURI(reg: Registry, uri: string): Result<Value, Error> {
    if !HasPrefix(uri, PURE_PREFIX) then Failure(MalformedURI)
    else match Cut(uri[|PURE_PREFIX|..], ':')
      case None => Failure(MalformedURI)
      case Some((key, body)) =>
        var s := FirstByKey(reg, key);
        if s.None? then Failure(UnsupportedScheme) else ParsePureBody(s.value, Split(body, '.'))
  }

  function ParsePureBody(s: Scheme, parts: seq<string>): Result<Value, Error>
    requires |parts| >= 1
  {
    var opt := OptionByLength(s.def.options, |parts[0]|);
    if opt.None? then Failure(FieldValue)
    else
      var o := opt.value;
      if |parts| != |o.pureFields| then Failure(MalformedURI)
      else if !AllParse(o.pureFields, parts) then Failure(FieldValue)
      else NewValue(AuthorityGS1, s.keyType, Named(o.pureFields, parts))
  }

  function ParseTagURI(reg: Registry, uri: string): Result<Translation, Error> {
    if !HasPrefix(uri, TAG_PREFIX) then Failure(MalformedURI)
    else match Cut(uri[|TAG_PREFIX|..], ':')
      case None => Failure(MalformedURI)
      case Some((id, body)) =>
        var s := Lookup(reg, id);
        if s.None? then Failure(UnsupportedScheme) else ParseTagBody(reg, s.value, Split(body, '.'))
  }

  function ParseTagBody(reg: Registry, s: Scheme, parts: seq<string>): Result<Translation, Error>
    requires WellFormedScheme(s)
  {
    if |parts| < 2 then Failure(MalformedURI)
    else
      var opt := OptionByLength(s.def.options, |parts[1]|);
      OptionMember(s.def.options, |parts[1]|);
      if opt.None? then Failure(FieldValue)
      else
        var o := opt.value;
        OptionShape(s, o);
        if |parts| != |o.tagFields| then Failure(MalformedURI)
        else
          FilterIsByte(s, o, parts[0]);
          var filter :- ParseField(o.tagFields[0], parts[0]);
          if !AllParse(o.pureFields, parts[1..]) then Failure(FieldValue)
          else
            var v :- NewValue(AuthorityGS1, s.keyType, Named(o.pureFields, parts[1..]));
            Encode(reg, v, s.id, filter)
  }

  lemma FilterIsByte(s: Scheme, o: LayoutOption, text: string)
    requires WellFormedOption(s, o)
    ensures var r := ParseField(o.tagFields[0], text); r.Success? ==> r.value < 256
  {
    hide TiledOption, PureOption;
    if ParseField(o.tagFields[0], text).Success? {
      assert WellFormedBinary(o.binaryFields[0], o.tagFields[0], s.def.tagLength);
      RenderOfParse(o.tagFields[0], text);
    }
  }

  // ----------------------------------------------------------- round trips

  lemma PrefixCut(prefix: string, name: string, body: string)
    requires ':' !in name
    ensures HasPrefix(prefix + name + ":" + body, prefix)
    ensures Cut((prefix + name + ":" + body)[|prefix|..], ':') == Some((name, body))
  {
    assert (prefix + name + ":" + body)[|prefix|..] == name + [':'] + body;
    CutOfJoined(name, ':', body);
  }

  lemma CutPrefix(uri: string, prefix: string, name: string, body: string)
    requires HasPrefix(uri, prefix) && Cut(uri[|prefix|..], ':') == Some((name, body))
    ensures uri == prefix + name + ":" + body
  {
    CutSplits(uri[|prefix|..], ':');
    assert uri == prefix + uri[|prefix|..];
  }

  /** Accepted texts are canonical. */
  lemma ParsedCanonical(s: Scheme, o: LayoutOption, texts: seq<string>)
    requires WellFormedOption(s, o) && |texts| == |o.pureFields| && AllParse(o.pureFields, texts)
    ensures forall i | 0 <= i < |texts| :: CanonicalText(o.pureFields[i], texts[i])
  {
    hide WellFormedOption;
    PureFieldsWellFormed(s, o);
    forall i | 0 <= i < |texts|
      ensures CanonicalText(o.pureFields[i], texts[i])
    {
      assert ParseField(o.pureFields[i], texts[i]).Success?;
      RenderOfParse(o.pureFields[i], texts[i]);
    }
  }

  /** What a parsed body establishes: its option, and an identity made of exactly its texts. */
  lemma ParsedBody(s: Scheme, parts: seq<string>, v: Value) returns (o: LayoutOption)
    requires WellFormedScheme(s) && |parts| >= 1 && ParsePureBody(s, parts) == Success(v)
    ensures o in s.def.options && OptionForValue(s, v) == Success(o)
    ensures v == Value(AuthorityGS1, s.keyType, v.components) && Built(v)
    ensures Texts(v.components) == parts && |parts| == |o.pureFields|
    ensures forall i | 0 <= i < |parts| :: CanonicalText(o.pureFields[i], parts[i])
  {
    hide ParseField, Render;
    OptionMember(s.def.options, |parts[0]|);
    o := OptionByLength(s.def.options, |parts[0]|).value;
    SchemeOption(s, o);
    ParsedCanonical(s, o, parts);
    FirstIsPrefix(s, o);
    hide WellFormedScheme, WellFormedOption;
    assert v.components[0].name == GS1CompanyPrefix;
    assert v.Find(GS1CompanyPrefix) == Some(v.components[0]);
  }

  /** Rendering a parsed pure identity URI gives back the same text. */
  lemma RenderOfParsedPure(reg: Registry, uri: string, v: Value)
    requires ParsePureIdentityURI(reg, uri) == Success(v)
    ensures Built(v) && v.authority == AuthorityGS1 && PureIdentityURI(reg, v) == Success(uri)
  {
    hide Cut, WellFormedScheme, OptionForValue, CanonicalText, ParsePureBody, Built, FirstByKey, FirstByKeyType, Join;
    hide Split;
    var (key, body) := Cut(uri[|PURE_PREFIX|..], ':').value;
    CutPrefix(uri, PURE_PREFIX, key, body);
    var s := FirstByKey(reg, key).value;
    KeyRegistered(reg, s);
    PurePrefix(s);
    var o := ParsedBody(s, Split(body, '.'), v);
    JoinOfSplit(body, '.');
    assert uri == s.def.pureURIPrefix + body;
  }

  lemma FirstIsPrefix(s: Scheme, o: LayoutOption)
    requires WellFormedScheme(s) && WellFormedOption(s, o)
    ensures |o.pureFields| > 0 && o.pureFields[0].name == GS1CompanyPrefix
  {
    hide TiledOption, BinaryOption;
    assert o.pureFields[0].name == ComponentOrder(s.keyType)[0];
  }

  lemma PurePrefix(s: Scheme)
    requires WellFormedScheme(s)
    ensures s.def.pureURIPrefix == PURE_PREFIX + s.key + ":" && ':' !in s.key
    ensures s.def.tagURIPrefix == TAG_PREFIX + s.id + ":" && ':' !in s.id
  {
    hide WellFormedOption;
  }

  /** Digits contain no separator. */
  lemma NoDots(fields: seq<URIField>, texts: seq<string>)
    requires |fields| == |texts| && AllParse(fields, texts)
    ensures forall i | 0 <= i < |texts| :: '.' !in texts[i]
  {
    forall i | 0 <= i < |texts|
      ensures '.' !in texts[i]
    {
      assert ParseField(fields[i], texts[i]).Success?;
    }
  }

  /**
   * Parsing a rendered pure identity URI gives back the identity exactly when its authority is GS1:
   * the renderer never looks at the authority, and the parser always answers GS1.
   */
  lemma ParseOfRenderedPure(reg: Registry, v: Value, uri: string)
    requires Built(v) && PureIdentityURI(reg, v) == Success(uri)
    ensures ParsePureIdentityURI(reg, uri) == Success(v.(authority := AuthorityGS1))
    ensures ParsePureIdentityURI(reg, uri) == Success(v) <==> v.authority == AuthorityGS1
  {
    hide Cut, PureIdentityURI, ParsePureBody, Built;
    var s, o := RenderedPure(reg, v, uri);
    BuiltParts(s, o, v);
    SplitOfJoin(Texts(v.components), '.');
    PrefixCut(PURE_PREFIX, s.key, Join(Texts(v.components), '.'));
  }

  /** What a rendered pure identity URI is made of. */
  lemma RenderedPure(reg: Registry, v: Value, uri: string) returns (s: Scheme, o: LayoutOption)
    requires Built(v) && PureIdentityURI(reg, v) == Success(uri)
    ensures v.keyType == s.keyType && OptionForValue(s, v) == Success(o)
    ensures FirstByKey(reg, s.key) == Some(s) && ':' !in s.key
    ensures uri == PURE_PREFIX + s.key + ":" + Join(Texts(v.components), '.') && v.components != []
    ensures |v.components| == |o.pureFields| == |ComponentOrder(s.keyType)| > 0 &&
            o.pureFields[0].name == GS1CompanyPrefix
    ensures forall i | 0 <= i < |o.pureFields| :: o.pureFields[i].name == ComponentOrder(s.keyType)[i]
    ensures forall i | 0 <= i < |o.pureFields| :: CanonicalText(o.pureFields[i], v.components[i].value)
  {
    hide CanonicalText, WellFormedScheme, WellFormedOption, Join;
    s := FirstByKeyType(reg, v.keyType).value;
    o := OptionForValue(s, v).value;
    hide OptionForValue, Built;
    KeyRegistered(reg, s);
    PurePrefix(s);
    SchemeOption(s, o);
    FirstIsPrefix(s, o);
    PureOrder(s, o);
  }

  /** A built identity's canonical texts parse back to it, as a GS1 identity. */
  lemma BuiltParts(s: Scheme, o: LayoutOption, v: Value)
    requires Built(v) && v.keyType == s.keyType && OptionForValue(s, v) == Success(o)
    requires |v.components| == |o.pureFields| == |ComponentOrder(s.keyType)| > 0 &&
             o.pureFields[0].name == GS1CompanyPrefix
    requires forall i | 0 <= i < |o.pureFields| :: o.pureFields[i].name == ComponentOrder(s.keyType)[i]
    requires forall i | 0 <= i < |o.pureFields| :: CanonicalText(o.pureFields[i], v.components[i].value)
    ensures ParsePureBody(s, Texts(v.components)) == Success(v.(authority := AuthorityGS1))
    ensures forall i | 0 <= i < |v.components| :: '.' !in Texts(v.components)[i]
  {
    var parts := Texts(v.components);
    forall i | 0 <= i < |o.pureFields|
      ensures ParseField(o.pureFields[i], parts[i]).Success?
    {
      assert CanonicalText(o.pureFields[i], v.components[i].value);
    }
    NoDots(o.pureFields, parts);
    hide ParseField, CanonicalText;
    assert Named(o.pureFields, parts) == v.components by {
      assert Names(v.components) == ComponentOrder(v.keyType);
    }
    assert v.components[0].name == GS1CompanyPrefix by {
      assert Names(v.components)[0] == ComponentOrder(v.keyType)[0];
    }
    assert v.Find(GS1CompanyPrefix) == Some(v.components[0]);
  }

  lemma PureOrder(s: Scheme, o: LayoutOption)
    requires WellFormedOption(s, o)
    ensures |o.pureFields| == |ComponentOrder(s.keyType)|
    ensures forall i | 0 <= i < |o.pureFields| :: o.pureFields[i].name == ComponentOrder(s.keyType)[i]
  {
  }

  /** The renderer's blind spot is real: an identity of another authority does not survive the round trip. */
  lemma AuthorityIsLost(reg: Registry, v: Value, uri: string)
    requires Built(v) && v.authority == AuthorityGS1 && PureIdentityURI(reg, v) == Success(uri)
    ensures var w := v.(authority := AuthorityISO6346);
            Built(w) && PureIdentityURI(reg, w) == Success(uri) && ParsePureIdentityURI(reg, uri) != Success(w)
  {
    var w := v.(authority := AuthorityISO6346);
    BuiltAnyAuthority(v, w);
    AuthorityUnseen(reg, v, w);
    ParseOfRenderedPure(reg, w, uri);
  }

  lemma BuiltAnyAuthority(v: Value, w: Value)
    requires Built(v) && w == v.(authority := w.authority)
    ensures Built(w)
  {
  }

  /** The renderer does not look at the authority. */
  lemma AuthorityUnseen(reg: Registry, v: Value, w: Value)
    requires w == v.(authority := w.authority)
    ensures PureIdentityURI(reg, w) == PureIdentityURI(reg, v)
  {
    hide CanonicalText, WellFormedScheme, FirstByKeyType, Written;
    assert w.Find(GS1CompanyPrefix) == v.Find(GS1CompanyPrefix);
    assert Texts(w.components) == Texts(v.components);
  }

  /** Rendering a parsed tag URI gives back the same text. */
  lemma RenderOfParsedTag(reg: Registry, uri: string, t: Translation)
    requires ParseTagURI(reg, uri) == Success(t)
    ensures TagURI(reg, t.encoding) == Success(uri)
  {
    var (id, body) := Cut(uri[|TAG_PREFIX|..], ':').value;
    CutPrefix(uri, TAG_PREFIX, id, body);
    var s := Lookup(reg, id).value;
    PurePrefix(s);
    hide WellFormedScheme;
    var parts := Split(body, '.');
    OptionMember(s.def.options, |parts[1]|);
    var o := OptionByLength(s.def.options, |parts[1]|).value;
    SchemeOption(s, o);
    OptionShape(s, o);
    ParsedTagFields(reg, s, o, parts, t);
    JoinOfSplit(body, '.');
    assert Texts(t.encoding.fields) == parts;
    assert uri == s.def.tagURIPrefix + body;
  }

  /** The encoding a tag URI denotes carries exactly the URI's texts. */
  lemma ParsedTagFields(reg: Registry, s: Scheme, o: LayoutOption, parts: seq<string>, t: Translation)
    requires s in reg && WellFormedScheme(s) && WellFormedOption(s, o) && |parts| == |o.tagFields|
    requires OptionByLength(s.def.options, |parts[1]|) == Some(o)
    requires ParseTagBody(reg, s, parts) == Success(t)
    ensures t.encoding.scheme == s.id && Texts(t.encoding.fields) == parts
  {
    hide WellFormedScheme, WellFormedOption, Encode, ParseField, Render, WellFormedField, OptionByLength, Texts;
    OptionShape(s, o);
    FilterIsByte(s, o, parts[0]);
    TagFieldWellFormed(s, o);
    RenderOfParse(o.tagFields[0], parts[0]);
    EncodedTexts(reg, s, o, parts[1..], ParseField(o.tagFields[0], parts[0]).value, t);
    assert parts == [parts[0]] + parts[1..];
  }

  /** Named texts select the option their first text's length selects. */
  lemma NamedOption(s: Scheme, o: LayoutOption, texts: seq<string>)
    requires |texts| == |o.pureFields| > 0 && o.pureFields[0].name == GS1CompanyPrefix
    requires OptionByLength(s.def.options, |texts[0]|) == Some(o)
    ensures OptionForValue(s, Value(AuthorityGS1, s.keyType, Named(o.pureFields, texts))) == Success(o)
  {
    var v := Value(AuthorityGS1, s.keyType, Named(o.pureFields, texts));
    assert v.Find(GS1CompanyPrefix) == Some(v.components[0]);
  }

  lemma TranslationTexts(s: Scheme, o: LayoutOption, values: seq<nat>, bits: seq<bv8>, texts: seq<string>)
    requires |values| == |o.tagFields| == |texts| + 1 && |texts| == |o.pureFields|
    requires TranslationOf(s, o, values, bits).identity.components == Named(o.pureFields, texts)
    ensures Texts(TranslationOf(s, o, values, bits).encoding.fields) == [Render(o.tagFields[0], values[0])] + texts
  {
    hide Render;
    var fields := TranslationOf(s, o, values, bits).encoding.fields;
    forall i | 0 <= i < |texts|
      ensures fields[i + 1].value == texts[i]
    {
      assert fields[1..][i] == fields[i + 1];
    }
  }

  /** Encoding named texts writes the filter's text followed by those texts. */
  lemma EncodedTexts(reg: Registry, s: Scheme, o: LayoutOption, texts: seq<string>, filter: nat, t: Translation)
    requires |texts| == |o.pureFields| > 0 && filter < 256
    requires OptionByLength(s.def.options, |texts[0]|) == Some(o)
    requires Encode(reg, Value(AuthorityGS1, s.keyType, Named(o.pureFields, texts)), s.id, filter) == Success(t)
    requires s in reg && WellFormedScheme(s) && WellFormedOption(s, o)
    ensures t.encoding.scheme == s.id && |o.tagFields| > 0
    ensures Texts(t.encoding.fields) == [Render(o.tagFields[0], filter)] + texts
  {
    hide WellFormedScheme, WellFormedOption, Encode, Render, OptionForValue, InRange, SchemeBits;
    LookupRegistered(reg, s);
    FirstIsPrefix(s, o);
    OptionShape(s, o);
    NamedOption(s, o, texts);
    var v := Value(AuthorityGS1, s.keyType, Named(o.pureFields, texts));
    var s', o', values := EncodeInversion(reg, v, s.id, filter, t);
    TranslationTexts(s, o, values, t.encoding.bits, texts);
  }

  lemma TagFieldWellFormed(s: Scheme, o: LayoutOption)
    requires WellFormedOption(s, o)
    ensures forall i | 0 <= i < |o.tagFields| :: WellFormedField(o.tagFields[i])
  {
    hide TiledOption, PureOption;
    forall i | 0 <= i < |o.tagFields|
      ensures WellFormedField(o.tagFields[i])
    {
      assert WellFormedBinary(o.binaryFields[i], o.tagFields[i], s.def.tagLength);
    }
  }

  /** Parsing a tag URI comes down to the parts behind a registered label. */
  lemma ParseTagParts(reg: Registry, s: Scheme, parts: seq<string>)
    requires s in reg && WellFormedScheme(s) && |parts| >= 1 && forall i | 0 <= i < |parts| :: '.' !in parts[i]
    ensures s.def.tagURIPrefix == TAG_PREFIX + s.id + ":"
    ensures ParseTagURI(reg, s.def.tagURIPrefix + Join(parts, '.')) == ParseTagBody(reg, s, parts)
  {
    LookupRegistered(reg, s);
    PurePrefix(s);
    hide WellFormedScheme, ParseTagBody, Lookup;
    SplitOfJoin(parts, '.');
    PrefixCut(TAG_PREFIX, s.id, Join(parts, '.'));
    hide Join, Split, Cut;
    assert s.def.tagURIPrefix + Join(parts, '.') == TAG_PREFIX + s.id + ":" + Join(parts, '.');
  }

  /** The tag URI of a decoded tag denotes exactly that tag. */
  lemma ParseOfRenderedTag(reg: Registry, bits: seq<bv8>, bitLen: nat, t: Translation)
    requires Decode(reg, bits, bitLen) == Success(t)
    ensures TagURI(reg, t.encoding).Success?
    ensures ParseTagURI(reg, TagURI(reg, t.encoding).value) == Success(t)
  {
    hide Encode, Decode, ParseTagURI, ParseTagBody;
    EncodeOfDecode(reg, bits, bitLen, t);
    var s, o := DecodeInversion(reg, bits, bitLen, t);
    LookupRegistered(reg, s);
    var values := FieldValues(o, bits);
    OptionShape(s, o);
    hide WellFormedScheme, WellFormedOption, LiteralsHold, Fits;
    var parts := Texts(t.encoding.fields);
    RenderedParts(s, o, values);
    ParseTagParts(reg, s, parts);
    ParseRenderedParts(reg, s, o, values, t);
    hide Lookup, Join, InRange;
  }

  lemma {:induction false} ReadIsCanonical(fields: seq<URIField>, comps: seq<Component>, i: nat)
    requires |fields| == |comps| && i < |fields| && ComponentValues(fields, comps).Success?
    ensures CanonicalText(fields[i], comps[i].value)
  {
    if i > 0 {
      ReadIsCanonical(fields[1..], comps[1..], i - 1);
    }
  }

  /** Every decoded tag's identity has a pure identity URI, and that denotes exactly this identity. */
  lemma PureOfDecoded(reg: Registry, bits: seq<bv8>, bitLen: nat, t: Translation)
    requires Decode(reg, bits, bitLen) == Success(t)
    ensures PureIdentityURI(reg, t.identity).Success?
    ensures ParsePureIdentityURI(reg, PureIdentityURI(reg, t.identity).value) == Success(t.identity)
  {
    hide Encode, Decode, CanonicalText, InRange, LiteralsHold, WellFormedScheme, WellFormedOption;
    hide OptionForValue, FirstByKeyType, ParsePureIdentityURI;
    EncodeOfDecode(reg, bits, bitLen, t);
    var s, o := DecodeInversion(reg, bits, bitLen, t);
    OptionShape(s, o);
    IdentityBuilt(s, o, FieldValues(o, bits), t);
    hide Fits;
    CanonicalIdentity(reg, s, t.identity, WrittenFilter(t.encoding).value, t);
    KeyRegistered(reg, s);
    ParseOfRenderedPure(reg, t.identity, PureIdentityURI(reg, t.identity).value);
  }

  lemma IdentityBuilt(s: Scheme, o: LayoutOption, values: seq<nat>, t: Translation)
    requires WellFormedScheme(s) && WellFormedOption(s, o) && InRange(o, values) && |values| == |o.tagFields| > 0
    requires t == TranslationOf(s, o, values, t.encoding.bits)
    ensures Built(t.identity) && t.identity.authority == AuthorityGS1 && t.identity.keyType == s.keyType
  {
    KnownKeyType(s);
    TranslationBuilt(s, o, values, t.encoding.bits);
  }

  /** An identity some tag is written with has components in canonical form. */
  lemma CanonicalIdentity(reg: Registry, s: Scheme, v: Value, filter: nat, t: Translation)
    requires s in reg && WellFormedScheme(s) && filter < 256 && Encode(reg, v, s.id, filter) == Success(t)
    ensures OptionForValue(s, v).Success? && |v.components| == |OptionForValue(s, v).value.pureFields|
    ensures forall i | 0 <= i < |v.components| ::
              CanonicalText(OptionForValue(s, v).value.pureFields[i], v.components[i].value)
  {
    hide CanonicalText, SchemeBits, InRange, WellFormedScheme, OptionForValue, Lookup;
    LookupRegistered(reg, s);
    var o := OptionForValue(s, v).value;
    forall i | 0 <= i < |v.components|
      ensures |v.components| == |o.pureFields| && CanonicalText(o.pureFields[i], v.components[i].value)
    {
      ReadIsCanonical(o.pureFields, v.components, i);
    }
  }

  /** Rendered field texts contain no separator. */
  lemma RenderedParts(s: Scheme, o: LayoutOption, values: seq<nat>)
    requires WellFormedScheme(s) && WellFormedOption(s, o) && InRange(o, values) && |values| == |o.tagFields|
    ensures forall i | 0 <= i < |values| :: '.' !in Texts(Components(o.tagFields, values))[i]
  {
    hide TiledOption, PureOption, Render;
    forall i | 0 <= i < |values|
      ensures '.' !in Texts(Components(o.tagFields, values))[i]
    {
      assert WellFormedBinary(o.binaryFields[i], o.tagFields[i], s.def.tagLength);
      RenderShape(o.tagFields[i], values[i]);
    }
  }

  /** Reading rendered texts back and encoding them gives the translation they came from. */
  lemma ParseRenderedParts(reg: Registry, s: Scheme, o: LayoutOption, values: seq<nat>, t: Translation)
    requires s in reg && WellFormedScheme(s) && o in s.def.options && WellFormedOption(s, o)
    requires InRange(o, values) && |values| == |o.tagFields| && values[0] < 256
    requires t == TranslationOf(s, o, values, t.encoding.bits) && Encode(reg, t.identity, s.id, values[0]) == Success(t)
    ensures ParseTagBody(reg, s, Texts(t.encoding.fields)) == Success(t)
  {
    hide Encode, WellFormedScheme;
    OptionShape(s, o);
    SchemeOption(s, o);
    TagFieldWellFormed(s, o);
    PureInRange(s, o, values);
    TagTailIsPure(s, o, values);
    PrefixLength(s, o, values);
    PureOrder(s, o);
    hide WellFormedOption;
    var parts := Texts(t.encoding.fields);
    ParseOfRender(o.tagFields[0], values[0]);
    assert AllParse(o.pureFields, parts[1..]) by {
      forall i | 0 <= i < |o.pureFields|
        ensures ParseField(o.pureFields[i], parts[1..][i]).Success?
      {
        assert t.encoding.fields[1..][i].value == Render(o.pureFields[i], values[1..][i]);
        ParseOfRender(o.pureFields[i], values[i + 1]);
      }
    }
    hide ParseField, Render, WellFormedField;
    assert parts[1] == t.encoding.fields[1..][0].value;
    assert Named(o.pureFields, parts[1..]) == t.identity.components by {
      forall i | 0 <= i < |o.pureFields|
        ensures Named(o.pureFields, parts[1..])[i] == t.encoding.fields[1..][i]
      {
      }
    }
    assert Names(t.identity.components) == ComponentOrder(s.keyType);
  }
}
