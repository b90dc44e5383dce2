/** Canonical text of numeric URI fields (internal/tdt/gs1epc/field.go). */
module Gs1Field {
  import opened Wrappers
  import opened Decimal
  import opened Identity
  import opened Layout

  function Render(f: URIField, v: nat): string {
    if f.fixed && f.length == 0 then ""
    else
      var s := Format(v);
      if f.length == 0 || |s| >= f.length then s
      else
        var pad := if f.padChar == '\0' then '0' else f.padChar;
        var padding := Repeat(pad, f.length - |s|);
        if f.padDir == PadRight then s + padding else padding + s
  }

  function ParseField(f: URIField, text: string): Result<nat, Error> {
    if f.fixed && f.length == 0 then
      if text == "" then Success(0) else Failure(FieldValue)
    else if text == "" || !AllDigits(text) then Failure(FieldValue)
    else if f.fixed && |text| != f.length then Failure(FieldValue)
    else if !f.fixed && |text| > 1 && text[0] == '0' then Failure(FieldValue)
    else
      var v := ParseUint(text);
      if v.None? || v.value > f.max then Failure(FieldValue) else Success(v.value)
  }

  /** Every value a field allows renders to text that parses back to it. */
  lemma ParseOfRender(f: URIField, v: nat)
    requires WellFormedField(f) && v <= f.max
    ensures ParseField(f, Render(f, v)) == Success(v)
  {
    if !(f.fixed && f.length == 0) {
      var s := Format(v);
      ValueOfFormat(v);
      FormatLeading(v);
      if f.fixed {
        DigitCapacityIsPower(f.length);
        FormatLength(v, f.length);
        ValueOfPadded(f.length - |s|, s);
        assert Repeat('0', 0) + s == s;
      }
    }
  }

  /** Every text a field accepts is the canonical rendering of its value. */
  lemma RenderOfParse(f: URIField, text: string)
    requires WellFormedField(f) && ParseField(f, text).Success?
    ensures Render(f, ParseField(f, text).value) == text
    ensures ParseField(f, text).value <= f.max
  {
    if !(f.fixed && f.length == 0) {
      if f.fixed {
        PadOfValue(text);
        assert Repeat('0', 0) + text == text;
      } else {
        FormatOfValue(text);
      }
    }
  }

  /** Rendering separates the values a field allows. */
  lemma RenderInjective(f: URIField, v: nat, w: nat)
    requires WellFormedField(f) && v <= f.max && w <= f.max
    ensures Render(f, v) == Render(f, w) <==> v == w
  {
    ParseOfRender(f, v);
    ParseOfRender(f, w);
  }

  /** A rendered fixed-length field has exactly its declared length, and every field is digits only. */
  lemma RenderShape(f: URIField, v: nat)
    requires WellFormedField(f) && v <= f.max
    ensures AllDigits(Render(f, v)) && (f.fixed ==> |Render(f, v)| == f.length)
  {
    ParseOfRender(f, v);
  }

  /** A field's text: digits that spell its value, padded with zeros to a fixed length or without leading ones. */
  lemma RenderMeans(f: URIField, v: nat)
    requires WellFormedField(f) && v <= f.max
    ensures var text := Render(f, v);
      && AllDigits(text) && ValueOf(text) == v
      && if f.fixed then |text| == f.length else |text| >= 1 && (|text| > 1 ==> text[0] != '0')
  {
    ParseOfRender(f, v);
    if !f.fixed {
      FormatLeading(v);
    }
  }

  function Components(fields: seq<URIField>, values: seq<nat>): (r: seq<Component>)
    requires |fields| == |values|
    ensures |r| == |fields|
    ensures forall i | 0 <= i < |r| :: r[i] == Component(fields[i].name, Render(fields[i], values[i]))
  {
    seq(|fields|, i requires 0 <= i < |fields| => Component(fields[i].name, Render(fields[i], values[i])))
  }
}
