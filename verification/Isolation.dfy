/** Splitting one ResourceSpans into one copy per trace. */
module Isolation {
  import opened Spans

  /** The spans of one trace, in order. */
  function Only(spans: seq<Span>, tid: TraceId): (r: seq<Span>)
    ensures forall s :: s in r <==> s in spans && s.traceId == tid
  {
    if spans == [] then []
    else
      var last := spans[|spans| - 1];
      var rest := Only(spans[..|spans| - 1], tid);
      if last.traceId == tid then rest + [last] else rest
  }

  /** The scopes that hold a span of the trace, each cut down to those spans. */
  function OnlyScopes(ss: seq<ScopeSpans>, tid: TraceId): seq<ScopeSpans> {
    if ss == [] then []
    else
      var last := ss[|ss| - 1];
      var rest := OnlyScopes(ss[..|ss| - 1], tid);
      var spans := Only(last.spans, tid);
      if spans == [] then rest else rest + [last.(spans := spans)]
  }

  function Isolated(rs: ResourceSpans, tid: TraceId): ResourceSpans {
    rs.(scopes := OnlyScopes(rs.scopes, tid))
  }

  function TraceIds(spans: seq<Span>): set<TraceId> {
    set s | s in spans :: s.traceId
  }

  // ---- what isolation keeps ----

  lemma {:induction false} OnlyConcat(a: seq<Span>, b: seq<Span>, tid: TraceId)
    ensures Only(a + b, tid) == Only(a, tid) + Only(b, tid)
  {
    if b == [] {
      assert a + b == a;
    } else {
      assert (a + b)[..|a + b| - 1] == a + b[..|b| - 1];
      OnlyConcat(a, b[..|b| - 1], tid);
    }
  }

  /** The isolated copy holds exactly the trace's spans, in their original order. */
  lemma {:induction false} IsolatedHoldsTheTrace(ss: seq<ScopeSpans>, tid: TraceId)
    ensures Flatten(OnlyScopes(ss, tid)) == Only(Flatten(ss), tid)
  {
    if ss != [] {
      var before, last := ss[..|ss| - 1], ss[|ss| - 1];
      IsolatedHoldsTheTrace(before, tid);
      hide Only;
      OnlyConcat(Flatten(before), last.spans, tid);
      FlattenAppend(OnlyScopes(before, tid), last.(spans := Only(last.spans, tid)));
    }
  }

  lemma {:induction false} NoEmptyScope(ss: seq<ScopeSpans>, tid: TraceId)
    ensures forall i :: 0 <= i < |OnlyScopes(ss, tid)| ==> OnlyScopes(ss, tid)[i].spans != []
  {
    if ss != [] { NoEmptyScope(ss[..|ss| - 1], tid); }
  }

  /** `at` maps each isolated scope to the scope it was cut from, in increasing order. */
  ghost predicate CutFrom(ss: seq<ScopeSpans>, tid: TraceId, at: seq<nat>) {
    && |at| == |OnlyScopes(ss, tid)|
    && (forall i, j :: 0 <= i < j < |at| ==> at[i] < at[j])
    && forall i :: 0 <= i < |at| ==>
         at[i] < |ss| && OnlyScopes(ss, tid)[i] == ss[at[i]].(spans := Only(ss[at[i]].spans, tid))
  }

  /** The isolated scopes are the original ones, in order, with scope and schema unchanged. */
  lemma {:induction false} ScopesKeepTheirOrder(ss: seq<ScopeSpans>, tid: TraceId) returns (at: seq<nat>)
    ensures CutFrom(ss, tid, at)
  {
    if ss == [] {
      at := [];
    } else {
      var before := ScopesKeepTheirOrder(ss[..|ss| - 1], tid);
      at := if Only(ss[|ss| - 1].spans, tid) == [] then before else before + [|ss| - 1];
    }
  }

  /** The isolated copies for `tids`, all spans together. */
  function IsolatedSpans(spans: seq<Span>, tids: seq<TraceId>): multiset<Span> {
    if tids == [] then multiset{}
    else IsolatedSpans(spans, tids[..|tids| - 1]) + multiset(Only(spans, tids[|tids| - 1]))
  }

  ghost predicate NoRepeats(tids: seq<TraceId>) {
    forall i, j :: 0 <= i < j < |tids| ==> tids[i] != tids[j]
  }

  lemma {:induction false} OnlyMultiplicity(spans: seq<Span>, tid: TraceId, s: Span)
    ensures multiset(Only(spans, tid))[s] == if s.traceId == tid then multiset(spans)[s] else 0
  {
    if spans != [] {
      var before, last := spans[..|spans| - 1], spans[|spans| - 1];
      OnlyMultiplicity(before, tid, s);
      assert spans == before + [last];
    }
  }

  lemma {:induction false} IsolatedMultiplicity(spans: seq<Span>, tids: seq<TraceId>, s: Span)
    requires NoRepeats(tids)
    ensures IsolatedSpans(spans, tids)[s] == if s.traceId in tids then multiset(spans)[s] else 0
  {
    if tids != [] {
      var before, tid := tids[..|tids| - 1], tids[|tids| - 1];
      IsolatedMultiplicity(spans, before, s);
      OnlyMultiplicity(spans, tid, s);
      assert tids == before + [tid];
    }
  }

  /** Over the trace ids present, visited in any order, isolation hands out every span exactly once. */
  lemma IsolationPartitions(rs: ResourceSpans, tids: seq<TraceId>)
    requires NoRepeats(tids) && forall t :: t in tids <==> t in TraceIds(SpansOf(rs))
    ensures IsolatedSpans(SpansOf(rs), tids) == multiset(SpansOf(rs))
    ensures |IsolatedSpans(SpansOf(rs), tids)| == SpanCount(rs)
  {
    var spans := SpansOf(rs);
    forall s: Span ensures IsolatedSpans(spans, tids)[s] == multiset(spans)[s] {
      IsolatedMultiplicity(spans, tids, s);
      if s in spans { assert s.traceId in TraceIds(spans); }
    }
    CountIsLength(rs.scopes);
  }

  // ---- the code ----

  method TraceIdsInResource(rs: ResourceSpans) returns (out: set<TraceId>)
    ensures out == TraceIds(SpansOf(rs))
  {
    out := {};
    for i := 0 to |rs.scopes|
      invariant out == TraceIds(Flatten(rs.scopes[..i]))
    {
      var spans := rs.scopes[i].spans;
      ghost var before := out;
      for j := 0 to |spans|
        invariant out == before + TraceIds(spans[..j])
      {
        assert spans[..j + 1] == spans[..j] + [spans[j]];
        out := out + {spans[j].traceId};
      }
      assert spans[..|spans|] == spans;
      assert rs.scopes[..i + 1][..i] == rs.scopes[..i];
    }
    assert rs.scopes[..|rs.scopes|] == rs.scopes;
  }

  /** A destination scope is only created once a first span of the trace turns up in it. */
  method IsolateTrace(rs: ResourceSpans, tid: TraceId) returns (out: ResourceSpans)
    ensures out == Isolated(rs, tid)
  {
    out := ResourceSpans(rs.resource, rs.schemaUrl, []);
    for i := 0 to |rs.scopes|
      invariant out == rs.(scopes := OnlyScopes(rs.scopes[..i], tid))
    {
      var scope := rs.scopes[i];
      var dst := ScopeSpans(0, 0, []);
      var dstInit := false;
      ghost var before := out.scopes;
      for j := 0 to |scope.spans|
        invariant dstInit <==> Only(scope.spans[..j], tid) != []
        invariant dstInit ==> dst == scope.(spans := Only(scope.spans[..j], tid))
        invariant out == rs.(scopes := if dstInit then before + [dst] else before)
      {
        var span := scope.spans[j];
        assert scope.spans[..j + 1][..j] == scope.spans[..j];
        if span.traceId != tid {
          continue;
        }
        if !dstInit {
          dst := ScopeSpans(scope.scope, scope.schemaUrl, []);
          out := out.(scopes := out.scopes + [dst]);
          dstInit := true;
        }
        dst := dst.(spans := dst.spans + [span]);
        out := out.(scopes := out.scopes[..|out.scopes| - 1] + [dst]);
      }
      assert scope.spans[..|scope.spans|] == scope.spans;
      assert rs.scopes[..i + 1][..i] == rs.scopes[..i];
    }
    assert rs.scopes[..|rs.scopes|] == rs.scopes;
  }
}
