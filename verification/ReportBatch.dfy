/** Batch bodies and their size arithmetic (internal/report/encode.go, internal/report/dispatcher.go). */
module ReportBatch {
  import opened Decimal
  import Text

  const HEAD := "{\"schema\":\"tagstrak.report.v1\",\"batch\":"
  const MIDDLE := ",\"events\":["
  const TAIL := "]}"

  /** An ID as a JSON string: hexadecimal digits, a colon and decimal digits need no escaping. */
  function Quoted(id: string): string {
    "\"" + id + "\""
  }

  /** Encoded events with commas between them. */
  function Listed(events: seq<string>): string {
    if events == [] then ""
    else if |events| == 1 then events[0]
    else Listed(events[..|events| - 1]) + "," + events[|events| - 1]
  }

  function EncodeBatch(id: string, events: seq<string>): string {
    HEAD + Quoted(id) + MIDDLE + Listed(events) + TAIL
  }

  function TotalLength(events: seq<string>): nat {
    if events == [] then 0 else TotalLength(events[..|events| - 1]) + |events[|events| - 1]|
  }

  /** The encoder: the body, appended piece by piece into a buffer whose capacity is never exceeded. */
  method Encode(id: string, events: seq<string>) returns (body: string, size: nat)
    ensures body == EncodeBatch(id, events)
    ensures |body| <= size <= |body| + 1
  {
    size := |HEAD + MIDDLE + TAIL| + |Quoted(id)| + |events|;
    for i := 0 to |events|
      invariant size == |HEAD + MIDDLE + TAIL| + |Quoted(id)| + |events| + TotalLength(events[..i])
    {
      assert events[..i + 1][..i] == events[..i];
      size := size + |events[i]|;
    }
    assert events[..|events|] == events;
    body := HEAD;
    body := body + Quoted(id);
    body := body + MIDDLE;
    for i := 0 to |events|
      invariant body == HEAD + Quoted(id) + MIDDLE + Listed(events[..i])
    {
      assert events[..i + 1][..i] == events[..i];
      ghost var before := body;
      if i > 0 {
        body := body + ",";
      }
      body := body + events[i];
      assert Listed(events[..i + 1]) == Listed(events[..i]) + (if i > 0 then "," else "") + events[i];
    }
    body := body + TAIL;
    ListedLength(events);
  }

  lemma {:induction false} ListedIsJoin(events: seq<string>)
    ensures Listed(events) == if events == [] then "" else Text.Join(events, ',')
  {
    if |events| > 1 {
      var front := events[..|events| - 1];
      ListedIsJoin(front);
      Text.JoinMore(front, ',', events[|events| - 1]);
      assert front + [events[|events| - 1]] == events;
    }
  }

  /** The body as text: the schema, the batch ID and the encoded events, separated by commas. */
  lemma BodyText(id: string, events: seq<string>)
    ensures EncodeBatch(id, events) ==
            "{\"schema\":\"tagstrak.report.v1\",\"batch\":\"" + id + "\",\"events\":[" +
            (if events == [] then "" else Text.Join(events, ',')) + "]}"
  {
    ListedIsJoin(events);
    hide Listed, Text.Join;
    assert HEAD + "\"" == "{\"schema\":\"tagstrak.report.v1\",\"batch\":\"";
    assert "\"" + MIDDLE == "\",\"events\":[";
  }

  lemma {:induction false} ListedLength(events: seq<string>)
    ensures |Listed(events)| == TotalLength(events) + if events == [] then 0 else |events| - 1
  {
    if |events| > 1 {
      ListedLength(events[..|events| - 1]);
    } else if |events| == 1 {
      assert TotalLength(events[..0]) == 0;
    }
  }

  // ------------------------------------------------------------------- size

  /** A batch ID: the process instance and a counter padded to ten digits. */
  function BatchID(instance: string, n: nat): string {
    var digits := Format(n);
    instance + ":" + Repeat('0', if |digits| < 10 then 10 - |digits| else 0) + digits
  }

  /** The length of a body with no events and a ten-digit counter. */
  function Envelope(instance: string): nat {
    |EncodeBatch(instance + ":0000000000", [])|
  }

  /** What the worker keeps while it collects: the envelope, and each event with one separator. */
  function RunningSize(instance: string, events: seq<string>): nat {
    Envelope(instance) + TotalLength(events) + |events|
  }

  /** The running size is exactly one more than the body it stands for if and only if the counter has ten digits. */
  lemma RunningSizeIsBody(instance: string, n: nat, events: seq<string>)
    requires events != []
    ensures RunningSize(instance, events) == |EncodeBatch(BatchID(instance, n), events)| + 1 <==> n < Pow10(10)
  {
    FormatLength(n, 10);
    ListedLength(events);
    hide TotalLength, Format;
  }

  /** A longer counter makes the body longer than the worker's budget assumes, by its extra digits. */
  lemma BodyBeyondTenDigits(instance: string, n: nat, events: seq<string>)
    requires events != [] && n >= Pow10(10)
    ensures |Format(n)| > 10
    ensures |EncodeBatch(BatchID(instance, n), events)| == RunningSize(instance, events) - 1 + (|Format(n)| - 10)
  {
    FormatLength(n, 10);
    ListedLength(events);
    hide TotalLength, Format;
  }

  lemma EmptySize(instance: string)
    ensures RunningSize(instance, []) == Envelope(instance)
  {
    hide Envelope;
  }

  lemma RunningSizeGrows(instance: string, events: seq<string>, e: string)
    ensures RunningSize(instance, events + [e]) == RunningSize(instance, events) + |e| + 1
  {
    assert (events + [e])[..|events|] == events;
  }
}
