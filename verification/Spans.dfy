/** Spans as the processor handles them: the fields it looks at, and an opaque rest. */
module Spans {

  type TraceId = nat
  type SpanId = nat

  datatype SpanKind = Unspecified | Internal | Server | Client | Producer | Consumer

  /** `statusCode` and `retryKey` stand for what is extracted from the span's attributes. */
  datatype Span = Span(traceId: TraceId, spanId: SpanId, kind: SpanKind, startNs: nat, endNs: nat,
                       statusCode: int, retryKey: nat, rest: nat)
  datatype ScopeSpans = ScopeSpans(scope: nat, schemaUrl: nat, spans: seq<Span>)
  /** `service` is the resource's service name, empty if it has none. */
  datatype Resource = Resource(service: string, attributes: nat)
  datatype ResourceSpans = ResourceSpans(resource: Resource, schemaUrl: nat, scopes: seq<ScopeSpans>)

  /** What is sent, and queued if the send fails. */
  type Batch = seq<ResourceSpans>

  function ScopesCount(ss: seq<ScopeSpans>): nat {
    if ss == [] then 0 else ScopesCount(ss[..|ss| - 1]) + |ss[|ss| - 1].spans|
  }

  function SpanCount(rs: ResourceSpans): nat {
    ScopesCount(rs.scopes)
  }

  /** Every span of the scopes, in order. */
  function Flatten(ss: seq<ScopeSpans>): seq<Span> {
    if ss == [] then [] else Flatten(ss[..|ss| - 1]) + ss[|ss| - 1].spans
  }

  function SpansOf(rs: ResourceSpans): seq<Span> {
    Flatten(rs.scopes)
  }

  lemma {:induction false} CountIsLength(ss: seq<ScopeSpans>)
    ensures ScopesCount(ss) == |Flatten(ss)|
  {
    if ss != [] { CountIsLength(ss[..|ss| - 1]); }
  }

  lemma FlattenAppend(ss: seq<ScopeSpans>, last: ScopeSpans)
    ensures Flatten(ss + [last]) == Flatten(ss) + last.spans
  {
  }

  /** All spans of a list of chunks. */
  function ChunkSpans(chunks: seq<ResourceSpans>): multiset<Span> {
    if chunks == [] then multiset{}
    else ChunkSpans(chunks[..|chunks| - 1]) + multiset(SpansOf(chunks[|chunks| - 1]))
  }

  function ChunkCount(chunks: seq<ResourceSpans>): nat {
    if chunks == [] then 0 else ChunkCount(chunks[..|chunks| - 1]) + SpanCount(chunks[|chunks| - 1])
  }

  lemma {:induction false} ChunkCountIsSize(chunks: seq<ResourceSpans>)
    ensures ChunkCount(chunks) == |ChunkSpans(chunks)|
  {
    if chunks != [] {
      ChunkCountIsSize(chunks[..|chunks| - 1]);
      CountIsLength(chunks[|chunks| - 1].scopes);
    }
  }

  lemma ChunksAppend(chunks: seq<ResourceSpans>, c: ResourceSpans)
    ensures ChunkSpans(chunks + [c]) == ChunkSpans(chunks) + multiset(SpansOf(c))
    ensures ChunkCount(chunks + [c]) == ChunkCount(chunks) + SpanCount(c)
  {
  }

  /** The nested counting loop that the ring repeats wherever it needs a chunk's size. */
  method CountSpans(rs: ResourceSpans) returns (n: nat)
    ensures n == |SpansOf(rs)| == SpanCount(rs)
  {
    n := 0;
    CountIsLength(rs.scopes);
    for i := 0 to |rs.scopes|
      invariant n == ScopesCount(rs.scopes[..i])
    {
      assert rs.scopes[..i + 1][..i] == rs.scopes[..i];
      n := n + |rs.scopes[i].spans|;
    }
    assert rs.scopes[..|rs.scopes|] == rs.scopes;
  }
}
