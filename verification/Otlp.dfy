/** The OTLP payload shape as far as ingest reads it (OpenTelemetry Protocol Specification, section
    "JSON Protobuf Encoding"): spans under scopes under resources, attributes as key and AnyValue. */
module Otlp {
  import opened Options
  import opened Seqs

  /** `OtherValue` stands for numbers, arrays and key-value lists: whether Python finds the unboxed value
      true, and how Python's `str` (never empty for a true value) and Go's formatting render it. */
  datatype AnyValue =
    | StringValue(s: string)
    | BoolValue(b: bool)
    | OtherValue(truthy: bool, pyText: string, goText: string)

  datatype Attr = Attr(key: string, value: AnyValue)

  // A missing traceId, spanId or parentSpanId is the empty string. `body` is everything else.
  datatype Span = Span(traceId: string, spanId: string, parentId: string, attributes: seq<Attr>, body: int)

  // NoResource is the empty object, the only falsy one.
  datatype Resource = NoResource | Resource(attributes: seq<Attr>)

  datatype ResourceSpans = ResourceSpans(resource: Resource, scopes: seq<seq<Span>>)

  type Payload = seq<ResourceSpans>

  const CALL_ID := "voice.call_id"

  /** The flattened dict keeps the last value of a repeated key. */
  function LastValue(attrs: seq<Attr>, key: string): Option<AnyValue> {
    if attrs == [] then None
    else if Last(attrs).key == key then Some(Last(attrs).value)
    else LastValue(Init(attrs), key)
  }

  /** Go scans the attribute list and stops at the first. */
  function FirstValue(attrs: seq<Attr>, key: string): Option<AnyValue> {
    if attrs == [] then None
    else if attrs[0].key == key then Some(attrs[0].value)
    else FirstValue(attrs[1..], key)
  }

  /** Python's rendering of a value, empty when Python finds it false. */
  function PyText(v: AnyValue): string {
    match v
    case StringValue(s) => s
    case BoolValue(b) => if b then "True" else ""
    case OtherValue(truthy, text, _) => if truthy then text else ""
  }

  /** Go's rendering of a value. */
  function GoText(v: AnyValue): string {
    match v
    case StringValue(s) => s
    case BoolValue(b) => if b then "True" else "False"
    case OtherValue(_, _, text) => text
  }

  /** `_attr`: the value as text if Python finds it true. */
  function PyAttr(attrs: seq<Attr>, key: string): (r: Option<string>)
    ensures r.Some? ==> r.value != ""
  {
    match LastValue(attrs, key)
    case None => None
    case Some(v) => if PyText(v) == "" then None else Some(PyText(v))
  }

  /** `spanAttr`: the value as text, empty when absent. */
  function GoAttr(attrs: seq<Attr>, key: string): string {
    match FirstValue(attrs, key)
    case None => ""
    case Some(v) => GoText(v)
  }

  function FirstNonEmpty(a: string, b: string, c: string): string {
    if a != "" then a else if b != "" then b else c
  }

  function PyKey(s: Span): string {
    FirstNonEmpty(PyAttr(s.attributes, CALL_ID).GetOr(""), s.traceId, "")
  }

  function GoKey(s: Span): string {
    var key := GoAttr(s.attributes, CALL_ID);
    if key == "" then s.traceId else key
  }

  function FirstTraceId(spans: seq<Span>): string {
    if spans == [] then ""
    else if spans[0].traceId != "" then spans[0].traceId
    else FirstTraceId(spans[1..])
  }

  /** `spans[k]` is the first span with a trace id. */
  ghost predicate FirstTraced(spans: seq<Span>, k: int) {
    0 <= k < |spans| && spans[k].traceId != "" && forall j :: 0 <= j < k ==> spans[j].traceId == ""
  }

  lemma {:induction false} FirstTraceIs(spans: seq<Span>)
    ensures FirstTraceId(spans) == "" <==> forall k :: 0 <= k < |spans| ==> spans[k].traceId == ""
    ensures forall k :: FirstTraced(spans, k) ==> FirstTraceId(spans) == spans[k].traceId
  {
    if spans != [] {
      FirstTraceIs(spans[1..]);
      assert forall k :: 0 < k < |spans| ==> spans[k] == spans[1..][k - 1];
      forall k | FirstTraced(spans, k)
        ensures FirstTraceId(spans) == spans[k].traceId
      {
        if k > 0 {
          assert FirstTraced(spans[1..], k - 1);
        }
      }
    }
  }

  /** The wire value. Gzip and JSON are an inverse pair, so a blob is its contents. */
  datatype Blob = Gzipped(contents: Payload)

  /** `_slice_bytes` and `sliceEnvelope`: one resource, one scope, all the call's spans. */
  function Slice(resource: Resource, spans: seq<Span>): Blob {
    Gzipped([ResourceSpans(resource, [spans])])
  }

  function Concat(scopes: seq<seq<Span>>): seq<Span> {
    if scopes == [] then [] else Concat(Init(scopes)) + Last(scopes)
  }

  /** `decode_record`: the first resource block, its scopes flattened. */
  function Decode(b: Blob): (Resource, seq<Span>)
    requires b.contents != []
  {
    (b.contents[0].resource, Concat(b.contents[0].scopes))
  }

  lemma DecodeSlice(resource: Resource, spans: seq<Span>)
    ensures Decode(Slice(resource, spans)) == (resource, spans)
  {
    assert Init([spans]) == [] && Concat([]) + spans == spans;
  }
}
