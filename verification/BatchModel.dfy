/** What one `ConsumeTraces` call evaluates and which traces it decides to flush, told from
    the histories of evaluator calls and breaker observations. */
module BatchModel {
  import opened Options
  import opened Spans
  import opened EvaluatorModel
  import opened Recount
  import ServiceModel
  import Breaker

  const MAX_DURATION_NS: int := 3_600_000_000_000

  /** A span met in the walk, with the service of its resource. */
  datatype Visit = Visit(service: string, span: Span)

  /** The clock readings taken while one span is processed. */
  datatype Reading = Reading(observedAt: int, ms: nat, startAt: int, entryNs: nat, touchAt: int)

  // ---- which spans are evaluated ----

  function VisitsOf(service: string, spans: seq<Span>): seq<Visit> {
    if spans == [] then []
    else VisitsOf(service, spans[..|spans| - 1]) + [Visit(service, spans[|spans| - 1])]
  }

  /** Every span of a batch in the order of the walk. */
  function Visits(rss: seq<ResourceSpans>): seq<Visit> {
    if rss == [] then []
    else
      var last := rss[|rss| - 1];
      Visits(rss[..|rss| - 1]) + VisitsOf(last.resource.service, SpansOf(last))
  }

  function SpanIds(vs: seq<Visit>): set<SpanId> {
    set v | v in vs :: v.span.spanId
  }

  /** The visits left once every span id already met is skipped. */
  function Firsts(vs: seq<Visit>): seq<Visit> {
    if vs == [] then []
    else
      var before, v := vs[..|vs| - 1], vs[|vs| - 1];
      if v.span.spanId in SpanIds(before) then Firsts(before) else Firsts(before) + [v]
  }

  lemma FirstsNext(vs: seq<Visit>, v: Visit)
    ensures Firsts(vs + [v]) == if v.span.spanId in SpanIds(vs) then Firsts(vs) else Firsts(vs) + [v]
    ensures SpanIds(vs + [v]) == SpanIds(vs) + {v.span.spanId}
  {
  }

  /** Each span id of the batch is evaluated once, at its first visit. */
  lemma {:induction false} EachIdOnce(vs: seq<Visit>)
    ensures SpanIds(Firsts(vs)) == SpanIds(vs)
    ensures forall i, j :: 0 <= i < j < |Firsts(vs)| ==> Firsts(vs)[i].span.spanId != Firsts(vs)[j].span.spanId
    ensures forall v :: v in Firsts(vs) ==> v in vs
  {
    if vs != [] {
      var before, v := vs[..|vs| - 1], vs[|vs| - 1];
      EachIdOnce(before);
      assert vs == before + [v];
      FirstsNext(before, v);
      var f := Firsts(before);
      forall i | 0 <= i < |f| ensures f[i].span.spanId in SpanIds(before) { assert f[i] in f; }
      assert SpanIds(f + [v]) == SpanIds(f) + {v.span.spanId};
    }
  }

  /** `f` picks, in order, the visits at these places, each the first with its span id. */
  ghost predicate FirstAt(vs: seq<Visit>, f: seq<Visit>, at: seq<nat>) {
    && |at| == |f|
    && (forall i, j :: 0 <= i < j < |at| ==> at[i] < at[j])
    && (forall i :: 0 <= i < |at| ==> at[i] < |vs| && f[i] == vs[at[i]])
    && forall i, q :: 0 <= i < |at| && 0 <= q < at[i] ==> vs[q].span.spanId != f[i].span.spanId
  }

  lemma FirstAtMore(vs: seq<Visit>, v: Visit, f: seq<Visit>, at: seq<nat>)
    requires FirstAt(vs, f, at)
    ensures FirstAt(vs + [v], f, at)
  {
  }

  lemma FirstAtNext(vs: seq<Visit>, v: Visit, f: seq<Visit>, at: seq<nat>)
    requires FirstAt(vs, f, at) && v.span.spanId !in SpanIds(vs)
    ensures FirstAt(vs + [v], f + [v], at + [|vs|])
  {
    assert forall q :: 0 <= q < |vs| ==> vs[q] in vs;
    FirstAtMore(vs, v, f, at);
  }

  /** What is evaluated is, in the order of the walk, each visit before which its span id was not met. */
  lemma {:induction false} FirstsAreFirst(vs: seq<Visit>) returns (at: seq<nat>)
    ensures FirstAt(vs, Firsts(vs), at)
  {
    at := [];
    if vs != [] {
      hide FirstAt;
      var before, v := vs[..|vs| - 1], vs[|vs| - 1];
      at := FirstsAreFirst(before);
      assert vs == before + [v];
      if v.span.spanId in SpanIds(before) {
        FirstAtMore(before, v, Firsts(before), at);
      } else {
        FirstAtNext(before, v, Firsts(before), at);
        at := at + [|before|];
      }
    }
  }

  /** The walk meets every span of every resource, in order, with the resource's service. */
  lemma {:induction false} VisitsOfAt(service: string, spans: seq<Span>)
    ensures |VisitsOf(service, spans)| == |spans|
    ensures forall i :: 0 <= i < |spans| ==> VisitsOf(service, spans)[i] == Visit(service, spans[i])
  {
    if spans != [] { VisitsOfAt(service, spans[..|spans| - 1]); }
  }

  lemma WalkMeetsEverySpan(before: seq<ResourceSpans>, rs: ResourceSpans, after: seq<ResourceSpans>)
    ensures var vs, spans := Visits(before + [rs] + after), SpansOf(rs);
            && |vs| == |Visits(before)| + |spans| + |Visits(after)|
            && forall i :: 0 <= i < |spans| ==> vs[|Visits(before)| + i] == Visit(rs.resource.service, spans[i])
  {
    hide VisitsOf;
    hide SpansOf;
    hide Visits;
    VisitsAppend(before + [rs], after);
    VisitsAppend(before, [rs]);
    VisitsOfAt(rs.resource.service, SpansOf(rs));
    VisitsOfOne(rs);
  }

  lemma VisitsOfOne(rs: ResourceSpans)
    ensures Visits([rs]) == VisitsOf(rs.resource.service, SpansOf(rs))
  {
    assert [rs][..0] == [];
  }

  /** Spans delivered again in the same call, by a fan-out pipeline say, change nothing. */
  lemma {:induction false} RedeliveryIsIgnored(vs: seq<Visit>, again: seq<Visit>)
    requires SpanIds(again) <= SpanIds(vs)
    ensures Firsts(vs + again) == Firsts(vs) && SpanIds(vs + again) == SpanIds(vs)
  {
    if again == [] {
      assert vs + again == vs;
    } else {
      var more, v := again[..|again| - 1], again[|again| - 1];
      assert again == more + [v] && v in again;
      assert SpanIds(more) <= SpanIds(again);
      RedeliveryIsIgnored(vs, more);
      assert vs + again == (vs + more) + [v];
      FirstsNext(vs + more, v);
    }
  }

  lemma FrontOfSum<T>(a: seq<T>, b: seq<T>)
    requires b != []
    ensures (a + b)[..|a + b| - 1] == a + b[..|b| - 1] && (a + b)[|a + b| - 1] == b[|b| - 1]
  {
  }

  lemma {:induction false} VisitsAppend(a: seq<ResourceSpans>, b: seq<ResourceSpans>)
    ensures Visits(a + b) == Visits(a) + Visits(b)
  {
    if b == [] {
      assert a + b == a;
    } else {
      hide VisitsOf;
      hide SpansOf;
      VisitsAppend(a, b[..|b| - 1]);
      FrontOfSum(a, b);
      var last := b[|b| - 1];
      assert Visits(a) + (Visits(b[..|b| - 1]) + VisitsOf(last.resource.service, SpansOf(last))) == Visits(a) + Visits(b);
    }
  }

  /** A batch with every ResourceSpans delivered twice is evaluated like the batch itself. */
  lemma DuplicatedBatchIsEvaluatedOnce(rss: seq<ResourceSpans>)
    ensures Firsts(Visits(rss + rss)) == Firsts(Visits(rss))
  {
    VisitsAppend(rss, rss);
    RedeliveryIsIgnored(Visits(rss), Visits(rss));
  }

  // ---- skipping by span id alone ----

  /** As `Firsts`, had the trace id been part of the key. */
  function FirstPairs(vs: seq<Visit>): seq<Visit> {
    if vs == [] then []
    else
      var before, v := vs[..|vs| - 1], vs[|vs| - 1];
      if Met(before, v) then FirstPairs(before) else FirstPairs(before) + [v]
  }

  predicate SamePair(u: Visit, v: Visit) {
    u.span.spanId == v.span.spanId && u.span.traceId == v.span.traceId
  }

  predicate Met(vs: seq<Visit>, v: Visit) {
    exists u :: u in vs && SamePair(u, v)
  }

  /** No span id occurs in two traces. */
  ghost predicate IdsUnshared(vs: seq<Visit>) {
    forall u, v :: u in vs && v in vs && u.span.spanId == v.span.spanId ==> u.span.traceId == v.span.traceId
  }

  lemma {:induction false} FirstPairsCover(vs: seq<Visit>, v: Visit)
    requires v in vs
    ensures Met(FirstPairs(vs), v)
  {
    var before, last := vs[..|vs| - 1], vs[|vs| - 1];
    assert vs == before + [last];
    if v in before {
      FirstPairsCover(before, v);
      var u :| u in FirstPairs(before) && SamePair(u, v);
      assert u in FirstPairs(vs);
    } else if Met(before, last) {
      var u :| u in before && SamePair(u, last);
      FirstPairsCover(before, u);
      var w :| w in FirstPairs(before) && SamePair(w, u);
      assert w in FirstPairs(vs) && SamePair(w, v);
    } else {
      assert last in FirstPairs(vs) && SamePair(last, v);
    }
  }

  /** Skipping by span id alone evaluates what skipping by trace and span id would, exactly when
      no span id of the batch occurs in two traces. */
  lemma {:induction false} SpanIdSufficesIff(vs: seq<Visit>)
    ensures Firsts(vs) == FirstPairs(vs) <==> IdsUnshared(vs)
  {
    if IdsUnshared(vs) {
      UnsharedIdsSuffice(vs);
    } else if Firsts(vs) == FirstPairs(vs) {
      var u, v :| u in vs && v in vs && u.span.spanId == v.span.spanId && u.span.traceId != v.span.traceId;
      FirstPairsCover(vs, u);
      FirstPairsCover(vs, v);
      var a :| a in FirstPairs(vs) && SamePair(a, u);
      var b :| b in FirstPairs(vs) && SamePair(b, v);
      EachIdOnce(vs);
      assert false;
    }
  }

  lemma {:induction false} UnsharedIdsSuffice(vs: seq<Visit>)
    requires IdsUnshared(vs)
    ensures Firsts(vs) == FirstPairs(vs)
  {
    if vs != [] {
      var before, v := vs[..|vs| - 1], vs[|vs| - 1];
      assert vs == before + [v];
      UnsharedIdsSuffice(before);
      assert v.span.spanId in SpanIds(before) <==> Met(before, v);
    }
  }

  // ---- what evaluating them does ----

  function KindOf(k: SpanKind): ServiceModel.Kind {
    match k
    case Server => ServiceModel.Server
    case Client => ServiceModel.Client
    case _ => ServiceModel.Other
  }

  function Duration(s: Span): int { s.endNs - s.startNs }

  /** Spans the triggers do not look at: neither server nor client, without a service, or of implausible duration. */
  predicate Rejected(v: Visit) {
    || KindOf(v.span.kind) == ServiceModel.Other
    || v.service == ""
    || Duration(v.span) < 0
    || Duration(v.span) > MAX_DURATION_NS
  }

  function SignalOf(s: Span, ms: nat): ServiceModel.Signal {
    ServiceModel.Signal(KindOf(s.kind), s.statusCode, Duration(s), s.retryKey, None, ms)
  }

  /** The evaluator calls made for one span. A server span is started and completed on the spot. */
  function Raised(v: Visit, r: Reading): seq<Event> {
    if Rejected(v) then []
    else
      (if v.span.kind == Server then [Started(v.service, r.startAt)] else []) +
      [Completed(v.service, Stamped(SignalOf(v.span, r.ms), r.entryNs), r.touchAt)]
  }

  /** The histories of evaluator calls and breaker observations so far, and the traces to flush. */
  datatype Walk = Walk(run: seq<Event>, observed: seq<Breaker.Event>, targets: set<TraceId>)

  datatype Rules = Rules(cfg: ServiceModel.Config, ttl: int)

  /** What the last call of a run returned. */
  ghost function LastReason(cfg: ServiceModel.Config, run: seq<Event>, how: Judging): Option<ServiceModel.FlushReason>
    requires cfg.Valid() && run != []
  {
    Step(cfg, After(cfg, run[..|run| - 1], how), run[|run| - 1], how).reason
  }

  /** One span: observed by the breaker, and unless its trace has used up its budget, evaluated. */
  ghost function Visited(k: Rules, w: Walk, v: Visit, r: Reading, how: Judging): Walk
    requires k.cfg.Valid()
  {
    var tid := v.span.traceId;
    var observed := w.observed + [Breaker.Observed(tid, r.observedAt)];
    if Breaker.Budget(k.ttl, observed, tid) >= Breaker.HARD_THRESHOLD then w.(observed := observed)
    else
      var run := w.run + Raised(v, r);
      var fires := !Rejected(v) && LastReason(k.cfg, run, how).Some?;
      Walk(run, observed, if fires then w.targets + {tid} else w.targets)
  }

  ghost function Walked(k: Rules, w: Walk, vs: seq<Visit>, clock: nat -> Reading, how: Judging): Walk
    requires k.cfg.Valid()
  {
    if vs == [] then w
    else
      var n := |vs| - 1;
      Visited(k, Walked(k, w, vs[..n], clock, how), vs[n], clock(n), how)
  }

  lemma WalkedNext(k: Rules, w: Walk, vs: seq<Visit>, v: Visit, clock: nat -> Reading, how: Judging)
    requires k.cfg.Valid()
    ensures Walked(k, w, vs + [v], clock, how) ==
            Visited(k, Walked(k, w, vs, clock, how), v, clock(|vs|), how)
  {
  }

  lemma LastOfReasons(cfg: ServiceModel.Config, run: seq<Event>, how: Judging)
    requires cfg.Valid() && run != []
    ensures var all := Reasons(cfg, run, how); all != [] && all[|all| - 1] == LastReason(cfg, run, how)
  {
  }

  lemma LastReasonIsARecount(cfg: ServiceModel.Config, run: seq<Event>)
    requires cfg.Valid() && run != [] && TimestampsInOrder(run)
    ensures LastReason(cfg, run, Buckets) == LastReason(cfg, run, Recounted)
    ensures KeysSparse(run) ==> LastReason(cfg, run, Buckets) == LastReason(cfg, run, Scanned)
  {
    hide KeysSparse;
    hide Reasons;
    hide LastReason;
    LastOfReasons(cfg, run, Buckets);
    LastOfReasons(cfg, run, Recounted);
    LastOfReasons(cfg, run, Scanned);
    RunIsARecount(cfg, run);
    if KeysSparse(run) { RunIsAScan(cfg, run); }
  }

  lemma {:induction false} SparseStart(run: seq<Event>, more: seq<Event>)
    requires KeysSparse(run + more)
    ensures KeysSparse(run)
    decreases |more|
  {
    hide KeysSparse;
    if more == [] {
      assert run + more == run;
    } else {
      assert run + more == (run + more[..|more| - 1]) + [more[|more| - 1]];
      SparsePrefix(run + more[..|more| - 1], more[|more| - 1]);
      SparseStart(run, more[..|more| - 1]);
    }
  }

  lemma VisitExtendsRun(k: Rules, w: Walk, v: Visit, r: Reading, how: Judging)
    requires k.cfg.Valid()
    ensures var run := Visited(k, w, v, r, how).run;
            && (TimestampsInOrder(run) ==> TimestampsInOrder(w.run))
            && (KeysSparse(run) ==> KeysSparse(w.run))
  {
    hide KeysSparse;
    hide LastReason;
    hide Raised;
    hide Breaker.Budget;
    var run := Visited(k, w, v, r, how).run;
    assert run == w.run || run == w.run + Raised(v, r);
    assert forall i :: 0 <= i < |w.run| ==> w.run[i] == run[i];
    if KeysSparse(run) && run != w.run { SparseStart(w.run, Raised(v, r)); }
  }

  /** The traces a call flushes are those that a recount of every service's full log would flush, as long as the
      timestamps of the whole run never go back within a service; and those that plain scans of the logs would flush,
      if moreover keys are sparse. */
  lemma {:induction false} FlushTargetsAreARecount(k: Rules, w: Walk, vs: seq<Visit>, clock: nat -> Reading)
    requires k.cfg.Valid() && TimestampsInOrder(Walked(k, w, vs, clock, Buckets).run)
    ensures Walked(k, w, vs, clock, Buckets) == Walked(k, w, vs, clock, Recounted)
    ensures KeysSparse(Walked(k, w, vs, clock, Buckets).run) ==>
              Walked(k, w, vs, clock, Buckets) == Walked(k, w, vs, clock, Scanned)
  {
    if vs != [] {
      hide KeysSparse;
      hide TimestampsInOrder;
      hide LastReason;
      hide Raised;
      hide Breaker.Budget;
      var n := |vs| - 1;
      var before := Walked(k, w, vs[..n], clock, Buckets);
      VisitExtendsRun(k, before, vs[n], clock(n), Buckets);
      FlushTargetsAreARecount(k, w, vs[..n], clock);
      VisitByRecount(k, before, vs[n], clock(n));
    }
  }

  lemma VisitByRecount(k: Rules, w: Walk, v: Visit, r: Reading)
    requires k.cfg.Valid() && TimestampsInOrder(Visited(k, w, v, r, Buckets).run)
    ensures Visited(k, w, v, r, Buckets) == Visited(k, w, v, r, Recounted)
    ensures KeysSparse(Visited(k, w, v, r, Buckets).run) ==> Visited(k, w, v, r, Buckets) == Visited(k, w, v, r, Scanned)
  {
    hide KeysSparse;
    hide TimestampsInOrder;
    hide LastReason;
    hide Breaker.Budget;
    var run := w.run + Raised(v, r);
    if Visited(k, w, v, r, Buckets).run == run && run != [] { LastReasonIsARecount(k.cfg, run); }
  }

  /** How many of the visits belong to the trace. */
  function VisitsTo(vs: seq<Visit>, tid: TraceId): nat {
    if vs == [] then 0
    else VisitsTo(vs[..|vs| - 1], tid) + if vs[|vs| - 1].span.traceId == tid then 1 else 0
  }

  /** Evaluated or not, every visit costs its trace one unit of budget, and no other trace anything. */
  lemma {:induction false} EveryVisitCosts(k: Rules, w: Walk, vs: seq<Visit>, clock: nat -> Reading, how: Judging, tid: TraceId)
    requires k.cfg.Valid()
    ensures Breaker.Budget(k.ttl, Walked(k, w, vs, clock, how).observed, tid) ==
            Breaker.Budget(k.ttl, w.observed, tid) + VisitsTo(vs, tid)
  {
    if vs != [] {
      var n := |vs| - 1;
      EveryVisitCosts(k, w, vs[..n], clock, how, tid);
      var before := Walked(k, w, vs[..n], clock, how);
      var ev := Breaker.Observed(vs[n].span.traceId, clock(n).observedAt);
      assert Visited(k, before, vs[n], clock(n), how).observed == before.observed + [ev];
      assert (before.observed + [ev])[..|before.observed|] == before.observed;
    }
  }

  /** Every completion the triggers ever count has a duration between zero and an hour. */
  ghost predicate DurationsInRange(run: seq<Event>) {
    forall i :: 0 <= i < |run| && run[i].Completed? ==> 0 <= run[i].sig.durationNs <= MAX_DURATION_NS
  }

  lemma VisitKeepsDurations(k: Rules, w: Walk, v: Visit, r: Reading, how: Judging)
    requires k.cfg.Valid() && DurationsInRange(w.run)
    ensures DurationsInRange(Visited(k, w, v, r, how).run)
  {
    hide LastReason;
    hide Breaker.Budget;
  }

  lemma {:induction false} WalkKeepsDurations(k: Rules, w: Walk, vs: seq<Visit>, clock: nat -> Reading, how: Judging)
    requires k.cfg.Valid() && DurationsInRange(w.run)
    ensures DurationsInRange(Walked(k, w, vs, clock, how).run)
  {
    if vs != [] {
      hide DurationsInRange;
      hide Visited;
      WalkKeepsDurations(k, w, vs[..|vs| - 1], clock, how);
      VisitKeepsDurations(k, Walked(k, w, vs[..|vs| - 1], clock, how), vs[|vs| - 1], clock(|vs| - 1), how);
    }
  }

  // ---- the flush decision, from the histories alone ----

  /** Server and client spans of a named service that took between nothing and an hour are evaluated. */
  predicate Eligible(v: Visit) {
    && (v.span.kind == Server || v.span.kind == Client)
    && v.service != ""
    && 0 <= v.span.endNs - v.span.startNs <= 3_600_000_000_000
  }

  /** Event `i` is the completion of the span, told field by field; for a server span, right after its start. */
  ghost predicate CompletesVisit(run: seq<Event>, i: nat, v: Visit, r: Reading) {
    && i < |run| && run[i].Completed?
    && run[i].name == v.service && run[i].now == r.touchAt
    && run[i].sig.kind == (if v.span.kind == Server then ServiceModel.Kind.Server else ServiceModel.Kind.Client)
    && run[i].sig.statusCode == v.span.statusCode
    && run[i].sig.durationNs == v.span.endNs - v.span.startNs
    && run[i].sig.keyHash == v.span.retryKey && run[i].sig.isRetry == None
    && run[i].sig.ms == (if r.ms != 0 then r.ms else r.entryNs / 1_000_000)
    && (v.span.kind == Server ==> i > 0 && run[i - 1] == Started(v.service, r.startAt))
  }

  /** `at[j]` is where in the run the completion of visit `j` is, if it was evaluated. */
  ghost predicate Located(run0: seq<Event>, vs: seq<Visit>, clock: nat -> Reading, run: seq<Event>, at: seq<Option<nat>>) {
    && |at| == |vs| && run0 <= run
    && (forall j :: 0 <= j < |vs| && at[j].Some? ==>
          |run0| <= at[j].value && CompletesVisit(run, at[j].value, vs[j], clock(j)))
    && (forall i, j :: 0 <= i < j < |vs| && at[i].Some? && at[j].Some? ==> at[i].value < at[j].value)
    && forall i :: |run0| <= i < |run| && run[i].Completed? ==> Some(i) in at
  }

  /** The breaker saw every visit, and those evaluated are the eligible ones of traces with fewer than half a million. */
  ghost predicate Chosen(ttl: int, log0: seq<Breaker.Event>, vs: seq<Visit>, clock: nat -> Reading,
                         log: seq<Breaker.Event>, at: seq<Option<nat>>) {
    && |at| == |vs| && |log| == |log0| + |vs| && log0 <= log
    && (forall j :: 0 <= j < |vs| ==> log[|log0| + j] == Breaker.Observed(vs[j].span.traceId, clock(j).observedAt))
    && forall j :: 0 <= j < |vs| ==>
         (at[j].Some? <==> Eligible(vs[j]) && Breaker.Budget(ttl, log[..|log0| + j + 1], vs[j].span.traceId) < 500_000)
  }

  /** Some evaluated span of the trace made the evaluator report. */
  ghost predicate Fired(cfg: ServiceModel.Config, vs: seq<Visit>, run: seq<Event>, at: seq<Option<nat>>, tid: TraceId)
    requires cfg.Valid()
  {
    exists j :: 0 <= j < |vs| && FiredAt(cfg, vs, run, at, tid, j)
  }

  ghost predicate FiredAt(cfg: ServiceModel.Config, vs: seq<Visit>, run: seq<Event>, at: seq<Option<nat>>, tid: TraceId, j: nat)
    requires cfg.Valid() && j < |vs|
  {
    && j < |at| && at[j].Some? && vs[j].span.traceId == tid
    && at[j].value < |Reasons(cfg, run, Buckets)| && Reasons(cfg, run, Buckets)[at[j].value].Some?
  }

  lemma EligibleIffNotRejected(v: Visit)
    ensures Eligible(v) <==> !Rejected(v)
  {
  }

  lemma {:induction false} ReasonsKept(cfg: ServiceModel.Config, run: seq<Event>, more: seq<Event>, how: Judging)
    requires cfg.Valid()
    ensures |Reasons(cfg, run, how)| == |run| && |Reasons(cfg, run + more, how)| == |run + more|
    ensures Reasons(cfg, run + more, how)[..|run|] == Reasons(cfg, run, how)
    decreases |run| + |more|
  {
    hide Step;
    hide After;
    if more != [] {
      var n := |more| - 1;
      assert (run + more)[..|run + more| - 1] == run + more[..n];
      ReasonsKept(cfg, run, more[..n], how);
    } else {
      assert run + more == run;
      if run != [] {
        ReasonsKept(cfg, run[..|run| - 1], [], how);
        assert run[..|run| - 1] + [] == run[..|run| - 1];
      }
    }
  }

  lemma RaisedCompletes(run: seq<Event>, v: Visit, r: Reading)
    requires Eligible(v)
    ensures var after := run + Raised(v, r);
            && |after| > |run| && CompletesVisit(after, |after| - 1, v, r)
            && forall i :: |run| <= i < |after| - 1 ==> !after[i].Completed?
  {
  }

  lemma CompletesMore(run: seq<Event>, more: seq<Event>, i: nat, v: Visit, r: Reading)
    requires CompletesVisit(run, i, v, r)
    ensures CompletesVisit(run + more, i, v, r)
  {
  }

  lemma LocatedNext(run0: seq<Event>, vs: seq<Visit>, clock: nat -> Reading, run: seq<Event>, at: seq<Option<nat>>, v: Visit)
    requires Located(run0, vs, clock, run, at)
    ensures Located(run0, vs + [v], clock, run, at + [None])
    ensures Eligible(v) ==>
              var after := run + Raised(v, clock(|vs|));
              |after| > 0 && Located(run0, vs + [v], clock, after, at + [Some(|after| - 1)])
  {
    hide CompletesVisit;
    hide Eligible;
    hide Raised;
    var none := at + [None];
    assert forall x :: x in at ==> x in none;
    if Eligible(v) {
      var more := Raised(v, clock(|vs|));
      var after := run + more;
      RaisedCompletes(run, v, clock(|vs|));
      var at', vs' := at + [Some(|after| - 1)], vs + [v];
      forall j | 0 <= j < |vs| && at'[j].Some? ensures CompletesVisit(after, at'[j].value, vs'[j], clock(j)) && at'[j].value < |run| {
        assert CompletesVisit(run, at[j].value, vs[j], clock(j));
        CompletesMore(run, more, at[j].value, vs[j], clock(j));
        CompletesInside(run, at[j].value, vs[j], clock(j));
      }
      forall i | |run0| <= i < |after| && after[i].Completed? ensures Some(i) in at' {
        if i < |run| {
          assert after[i] == run[i] && Some(i) in at;
        } else {
          assert i == |after| - 1 && at'[|at|] == Some(i);
        }
      }
    }
  }

  lemma CompletesInside(run: seq<Event>, i: nat, v: Visit, r: Reading)
    requires CompletesVisit(run, i, v, r)
    ensures i < |run|
  {
  }

  lemma ChosenNext(ttl: int, log0: seq<Breaker.Event>, vs: seq<Visit>, clock: nat -> Reading, log: seq<Breaker.Event>,
                   at: seq<Option<nat>>, v: Visit, a: Option<nat>)
    requires Chosen(ttl, log0, vs, clock, log, at)
    requires var log' := log + [Breaker.Observed(v.span.traceId, clock(|vs|).observedAt)];
             a.Some? <==> Eligible(v) && Breaker.Budget(ttl, log', v.span.traceId) < 500_000
    ensures Chosen(ttl, log0, vs + [v], clock, log + [Breaker.Observed(v.span.traceId, clock(|vs|).observedAt)], at + [a])
  {
    hide Eligible;
    hide Breaker.Budget;
    var log' := log + [Breaker.Observed(v.span.traceId, clock(|vs|).observedAt)];
    var vs', at' := vs + [v], at + [a];
    forall j | 0 <= j < |vs'|
      ensures log'[|log0| + j] == Breaker.Observed(vs'[j].span.traceId, clock(j).observedAt)
      ensures at'[j].Some? <==>
              Eligible(vs'[j]) && Breaker.Budget(ttl, log'[..|log0| + j + 1], vs'[j].span.traceId) < 500_000
    {
      if j < |vs| {
        assert vs'[j] == vs[j] && at'[j] == at[j] && log'[|log0| + j] == log[|log0| + j];
        assert log'[..|log0| + j + 1] == log[..|log0| + j + 1];
      } else {
        assert log'[..|log0| + j + 1] == log';
      }
    }
  }

  lemma FiredNext(cfg: ServiceModel.Config, vs: seq<Visit>, run: seq<Event>, at: seq<Option<nat>>, v: Visit, more: seq<Event>,
                  a: Option<nat>, tid: TraceId)
    requires cfg.Valid() && |at| == |vs|
    requires forall j :: 0 <= j < |vs| && at[j].Some? ==> at[j].value < |run|
    requires a == if more == [] then None else Some(|run + more| - 1)
    ensures Fired(cfg, vs + [v], run + more, at + [a], tid) <==>
            Fired(cfg, vs, run, at, tid) || (more != [] && tid == v.span.traceId && LastReason(cfg, run + more, Buckets).Some?)
  {
    var vs', run', at' := vs + [v], run + more, at + [a];
    ReasonsKept(cfg, run, more, Buckets);
    if more != [] { LastOfReasons(cfg, run', Buckets); }
    hide Reasons;
    hide LastReason;
    var rs, rs' := Reasons(cfg, run, Buckets), Reasons(cfg, run', Buckets);
    assert forall i :: 0 <= i < |run| ==> rs'[i] == rs[i] by { assert forall i :: 0 <= i < |run| ==> rs'[..|run|][i] == rs'[i]; }
    forall j | 0 <= j < |vs| ensures FiredAt(cfg, vs', run', at', tid, j) <==> FiredAt(cfg, vs, run, at, tid, j) {
      assert vs'[j] == vs[j] && at'[j] == at[j];
    }
    assert FiredAt(cfg, vs', run', at', tid, |vs|) <==>
           more != [] && tid == v.span.traceId && LastReason(cfg, run', Buckets).Some?;
  }

  lemma NothingVisited(k: Rules, w: Walk, clock: nat -> Reading)
    requires k.cfg.Valid()
    ensures Located(w.run, [], clock, w.run, []) && Chosen(k.ttl, w.observed, [], clock, w.observed, [])
    ensures forall t :: !Fired(k.cfg, [], w.run, [], t)
  {
  }

  lemma LocatedInside(run0: seq<Event>, vs: seq<Visit>, clock: nat -> Reading, run: seq<Event>, at: seq<Option<nat>>)
    requires Located(run0, vs, clock, run, at)
    ensures |at| == |vs| && forall j :: 0 <= j < |vs| && at[j].Some? ==> at[j].value < |run|
  {
  }

  /** The traces to flush, from the histories alone: those with a span that was evaluated and whose completion the evaluator
      answered with a report. The evaluated spans are the eligible ones of traces under half a million observations, and
      every completion in the history is the completion of one of them. */
  lemma {:induction false} TargetsAreWhatFired(k: Rules, w: Walk, vs: seq<Visit>, clock: nat -> Reading) returns (at: seq<Option<nat>>)
    requires k.cfg.Valid()
    ensures var w' := Walked(k, w, vs, clock, Buckets);
            && Located(w.run, vs, clock, w'.run, at) && Chosen(k.ttl, w.observed, vs, clock, w'.observed, at)
            && forall t :: t in w'.targets <==> t in w.targets || Fired(k.cfg, vs, w'.run, at, t)
  {
    hide Located;
    hide Chosen;
    hide Fired;
    hide Eligible;
    hide Rejected;
    hide Raised;
    hide LastReason;
    hide Breaker.Budget;
    if vs == [] {
      at := [];
      NothingVisited(k, w, clock);
    } else {
      var before, v := vs[..|vs| - 1], vs[|vs| - 1];
      var r, b := clock(|before|), Walked(k, w, before, clock, Buckets);
      var w' := Visited(k, b, v, r, Buckets);
      at := TargetsAreWhatFired(k, w, before, clock);
      assert vs == before + [v];
      EligibleIffNotRejected(v);
      LocatedInside(w.run, before, clock, b.run, at);
      LocatedNext(w.run, before, clock, b.run, at, v);
      var within := Breaker.Budget(k.ttl, w'.observed, v.span.traceId) < 500_000;
      var more := if within then Raised(v, r) else [];
      RaisedOrNot(v, r);
      var a := if more == [] then None else Some(|b.run + more| - 1);
      ChosenNext(k.ttl, w.observed, before, clock, b.observed, at, v, a);
      assert b.run + [] == b.run;
      forall t ensures Fired(k.cfg, vs, w'.run, at + [a], t) <==>
                       Fired(k.cfg, before, b.run, at, t) ||
                       (more != [] && t == v.span.traceId && LastReason(k.cfg, w'.run, Buckets).Some?) {
        FiredNext(k.cfg, before, b.run, at, v, more, a, t);
      }
      at := at + [a];
    }
  }

  lemma RaisedOrNot(v: Visit, r: Reading)
    ensures Raised(v, r) != [] <==> !Rejected(v)
  {
  }
}
