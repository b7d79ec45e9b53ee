/** `ConsumeTraces`: buffer each resource trace by trace, evaluate its spans, then flush the
    traces whose triggers fired. Go's map iterations visit in any order. */
module Processor {
  import opened Options
  import opened Spans
  import opened BatchModel
  import opened Flow
  import R = Ring
  import RingModel
  import Dlq
  import Isolation
  import Breaker
  import ServiceModel
  import EvaluatorModel
  import opened Recount
  import E = Evaluator

  lemma EventNext(cfg: ServiceModel.Config, run: seq<EvaluatorModel.Event>, ev: EvaluatorModel.Event)
    requires cfg.Valid()
    ensures EvaluatorModel.Step(cfg, EvaluatorModel.After(cfg, run, Buckets), ev, Buckets) ==
            EvaluatorModel.Result(EvaluatorModel.After(cfg, run + [ev], Buckets), LastReason(cfg, run + [ev], Buckets))
  {
  }

  /** How far a call has come: the span ids met, the number of spans not skipped, the histories and the traces to flush. */
  ghost predicate InStep(k: Rules, start: Walk, vs: seq<Visit>, clock: nat -> Reading,
                         seen: set<SpanId>, visited: nat, now: Walk)
  {
    && k.cfg.Valid()
    && seen == SpanIds(vs) && visited == |Firsts(vs)|
    && now == Walked(k, start, Firsts(vs), clock, Buckets)
  }

  lemma DuplicateStep(k: Rules, start: Walk, vs: seq<Visit>, v: Visit, clock: nat -> Reading,
                      seen: set<SpanId>, visited: nat, now: Walk)
    requires InStep(k, start, vs, clock, seen, visited, now) && v.span.spanId in seen
    ensures InStep(k, start, vs + [v], clock, seen, visited, now)
  {
  }

  lemma VisitStep(k: Rules, start: Walk, vs: seq<Visit>, v: Visit, clock: nat -> Reading,
                  seen: set<SpanId>, visited: nat, now: Walk)
    requires InStep(k, start, vs, clock, seen, visited, now) && v.span.spanId !in seen
    ensures InStep(k, start, vs + [v], clock, seen + {v.span.spanId}, visited + 1, Visited(k, now, v, clock(visited), Buckets))
  {
    FirstsNext(vs, v);
    WalkedNext(k, start, Firsts(vs), v, clock, Buckets);
  }

  lemma NextVisit(service: string, vs: seq<Visit>, before: seq<Span>, spans: seq<Span>, j: nat)
    requires j < |spans|
    ensures vs + VisitsOf(service, before + spans[..j + 1]) ==
            vs + VisitsOf(service, before + spans[..j]) + [Visit(service, spans[j])]
  {
    var more := before + spans[..j + 1];
    assert more[..|more| - 1] == before + spans[..j] && more[|more| - 1] == spans[j];
  }

  lemma NextResource(rss: seq<ResourceSpans>, i: nat)
    requires i < |rss|
    ensures Visits(rss[..i + 1]) == Visits(rss[..i]) + VisitsOf(rss[i].resource.service, SpansOf(rss[i]))
  {
    assert rss[..i + 1][..i] == rss[..i];
  }

  lemma WalkStarts(k: Rules, l: Bounds, start: Walk, stored: seq<RingModel.Trace>, rss: seq<ResourceSpans>,
                   inserts: nat -> nat -> int, readings: nat -> Reading)
    ensures k.cfg.Valid() && start.targets == {} ==> InStep(k, start, Visits(rss[..0]), readings, {}, 0, start)
    ensures Orders([], rss[..0])
    ensures Buffered(l, stored, rss[..0], [], inserts) == stored
  {
  }

  lemma NoVisitYet(service: string, vs: seq<Visit>, scopes: seq<ScopeSpans>)
    ensures vs + VisitsOf(service, []) == vs && Flatten(scopes[..0]) == []
  {
  }

  lemma NextScope(scopes: seq<ScopeSpans>, i: nat)
    requires i < |scopes|
    ensures Flatten(scopes[..i + 1]) == Flatten(scopes[..i]) + scopes[i].spans[..|scopes[i].spans|]
  {
    assert scopes[..i + 1][..i] == scopes[..i];
  }

  class Processor {
    const buf: R.Ring
    const queue: Dlq.Queue<Batch>
    const breaker: Breaker.TraceBreaker
    const evaluator: E.Evaluator

    /** Every call the evaluator has had. */
    ghost var run: seq<EvaluatorModel.Event>

    ghost function K(): Rules { Rules(evaluator.cfg, breaker.ttl) }

    ghost predicate Apart()
      reads this, evaluator
    {
      this !in evaluator.Footprint() && buf !in evaluator.Footprint() &&
      queue !in evaluator.Footprint() && breaker !in evaluator.Footprint()
    }

    /** The evaluator is where its history says, and so is the breaker. */
    ghost predicate Tracks()
      reads this, breaker, evaluator, evaluator.Footprint()
    {
      && evaluator.cfg.Valid() && evaluator.Valid() && Apart()
      && evaluator.Model() == EvaluatorModel.After(evaluator.cfg, run, Buckets)
      && breaker.Valid()
    }

    constructor (maxSpans: int, preAlertWindow: int, cfg: ServiceModel.Config)
      requires maxSpans > 0 && cfg.Valid()
      ensures Tracks() && buf.Valid() && run == [] && breaker.log == [] && buf.stored == [] && queue.dlq == []
      ensures evaluator.cfg == cfg && breaker.ttl == 2 * preAlertWindow && buf.maxSpans == maxSpans
      ensures buf.preAlertWindow == if preAlertWindow > 0 then preAlertWindow else 300_000_000_000
    {
      buf := new R.Ring(maxSpans, preAlertWindow);
      queue := new Dlq.Queue<Batch>();
      breaker := new Breaker.TraceBreaker(2 * preAlertWindow);
      evaluator := new E.Evaluator(cfg);
      run := [];
      new;
      hide E.Evaluator.Valid;
      hide E.Evaluator.Model;
      hide E.Evaluator.Separate;
      hide E.Evaluator.Footprint;
      hide R.Ring.Valid;
    }

    lemma TrackedRules()
      requires Tracks()
      ensures K().cfg.Valid()
    {
    }

    ghost function Limits(): Bounds {
      Bounds(buf.preAlertWindow, buf.maxSpans)
    }

    lemma BufferIsSound()
      requires buf.Valid()
      ensures buf.maxSpans >= 0 && RingModel.DistinctIds(buf.stored)
    {
    }

    /** Each trace id present gets its own insert; `order` is the order in which they were visited. */
    method BufferResource(rs: ResourceSpans, clock: nat -> int) returns (ghost order: seq<TraceId>)
      requires buf.Valid()
      modifies buf
      ensures buf.Valid()
      ensures Enumerates(order, Isolation.TraceIds(SpansOf(rs)))
      ensures buf.stored == InsertAll(Limits(), old(buf.stored), rs, order, clock)
    {
      var remaining := Isolation.TraceIdsInResource(rs);
      order := [];
      var n := 0;
      assert Enumerates(order, Isolation.TraceIds(SpansOf(rs)) - remaining);
      hide Enumerates;
      hide R.Ring.Valid;
      hide Isolation.TraceIds;
      hide RingModel.Insert;
      while remaining != {}
        invariant buf.Valid() && n == |order|
        invariant remaining <= Isolation.TraceIds(SpansOf(rs))
        invariant Enumerates(order, Isolation.TraceIds(SpansOf(rs)) - remaining)
        invariant buf.stored == InsertAll(Limits(), old(buf.stored), rs, order, clock)
        decreases remaining
      {
        var tid :| tid in remaining;
        NextOf(order, Isolation.TraceIds(SpansOf(rs)), remaining, tid);
        InsertNext(Limits(), old(buf.stored), rs, order, tid, clock);
        remaining := remaining - {tid};
        var single := Isolation.IsolateTrace(rs, tid);
        var _ := buf.Insert(tid, single, clock(n));
        order := order + [tid];
        n := n + 1;
      }
      assert Isolation.TraceIds(SpansOf(rs)) - {} == Isolation.TraceIds(SpansOf(rs));
    }

    /** One more call of the evaluator, added to its history. */
    method Start(service: string, now: int)
      requires Tracks()
      modifies this`run, evaluator, evaluator.Footprint()
      ensures Tracks() && fresh(evaluator.Footprint() - old(evaluator.Footprint()))
      ensures run == old(run) + [EvaluatorModel.Started(service, now)] && breaker.log == old(breaker.log)
    {
      hide E.Evaluator.Valid;
      hide E.Evaluator.Model;
      hide E.Evaluator.Separate;
      hide E.Evaluator.Sound;
      hide EvaluatorModel.Step;
      hide EvaluatorModel.After;
      EventNext(evaluator.cfg, run, EvaluatorModel.Started(service, now));
      evaluator.OnRequestStart(service, now);
      run := run + [EvaluatorModel.Started(service, now)];
    }

    method Complete(service: string, sig: ServiceModel.Signal, nowNs: nat, now: int)
      returns (reason: Option<ServiceModel.FlushReason>)
      requires Tracks()
      modifies this`run, evaluator, evaluator.Footprint()
      ensures Tracks() && fresh(evaluator.Footprint() - old(evaluator.Footprint()))
      ensures run == old(run) + [EvaluatorModel.Completed(service, EvaluatorModel.Stamped(sig, nowNs), now)] && breaker.log == old(breaker.log)
      ensures reason == LastReason(evaluator.cfg, run, Buckets)
    {
      hide E.Evaluator.Valid;
      hide E.Evaluator.Model;
      hide E.Evaluator.Separate;
      hide E.Evaluator.Sound;
      hide EvaluatorModel.Step;
      hide EvaluatorModel.After;
      hide LastReason;
      EventNext(evaluator.cfg, run, EvaluatorModel.Completed(service, EvaluatorModel.Stamped(sig, nowNs), now));
      reason := evaluator.OnRequestComplete(service, sig, nowNs, now);
      run := run + [EvaluatorModel.Completed(service, EvaluatorModel.Stamped(sig, nowNs), now)];
    }

    /** The breaker counts the span and says whether its trace is blacklisted. */
    method Count(tid: TraceId, now: int) returns (drop: bool)
      requires Tracks()
      modifies breaker
      ensures Tracks() && evaluator.Footprint() == old(evaluator.Footprint())
      ensures breaker.log == old(breaker.log) + [Breaker.Observed(tid, now)]
      ensures drop <==> Breaker.Budget(breaker.ttl, breaker.log, tid) >= Breaker.HARD_THRESHOLD
    {
      hide E.Evaluator.Valid;
      hide E.Evaluator.Model;
      hide E.Evaluator.Separate;
      hide E.Evaluator.Sound;
      hide Breaker.TraceBreaker.Valid;
      hide Breaker.Budget;
      var _ := breaker.Observe(tid, now);
      drop := breaker.ShouldDrop(tid);
    }

    /** Starts and completes a server span on the spot; a client span is only completed. */
    method EvaluateSpan(service: string, span: Span, r: Reading) returns (reason: Option<ServiceModel.FlushReason>)
      requires Tracks()
      modifies this`run, evaluator, evaluator.Footprint()
      ensures Tracks() && fresh(evaluator.Footprint() - old(evaluator.Footprint()))
      ensures run == old(run) + Raised(Visit(service, span), r) && breaker.log == old(breaker.log)
      ensures reason.Some? <==> !Rejected(Visit(service, span)) && LastReason(evaluator.cfg, run, Buckets).Some?
    {
      hide Tracks;
      hide LastReason;
      var kind := KindOf(span.kind);
      if kind == ServiceModel.Other || service == "" {
        return None;
      }
      var durationNs := span.endNs - span.startNs;
      if durationNs < 0 || durationNs > MAX_DURATION_NS {
        return None;
      }
      var sig := ServiceModel.Signal(kind, span.statusCode, durationNs, span.retryKey, None, r.ms);
      if kind == ServiceModel.Server {
        Start(service, r.startAt);
      }
      reason := Complete(service, sig, r.entryNs, r.touchAt);
    }

    /** One span of the walk: skipped if its id was met before, then counted by the breaker, then evaluated. */
    method VisitSpan(service: string, span: Span, seen: set<SpanId>, targets: set<TraceId>, visited: nat,
                     clock: nat -> Reading, ghost start: Walk, ghost vs: seq<Visit>)
      returns (seen': set<SpanId>, targets': set<TraceId>, visited': nat)
      requires Tracks() && InStep(K(), start, vs, clock, seen, visited, Walk(run, breaker.log, targets))
      modifies this`run, breaker, evaluator, evaluator.Footprint()
      ensures Tracks() && fresh(evaluator.Footprint() - old(evaluator.Footprint()))
      ensures InStep(K(), start, vs + [Visit(service, span)], clock, seen', visited', Walk(run, breaker.log, targets'))
    {
      hide Tracks;
      hide LastReason;
      hide Breaker.Budget;
      seen', targets', visited' := seen, targets, visited;
      ghost var k, v, w := K(), Visit(service, span), Walk(run, breaker.log, targets);
      if span.spanId in seen {
        DuplicateStep(k, start, vs, v, clock, seen, visited, w);
        return;
      }
      VisitStep(k, start, vs, v, clock, seen, visited, w);
      hide InStep;
      hide Raised;
      hide Rejected;
      seen' := seen + {span.spanId};
      visited' := visited + 1;
      var drop := Count(span.traceId, clock(visited).observedAt);
      if drop {
        return;
      }
      var reason := EvaluateSpan(service, span, clock(visited));
      if reason.Some? {
        targets' := targets + {span.traceId};
      }
    }

    /** The two inner loops of the walk, over the scopes of a resource and their spans. */
    method EvaluateResource(rs: ResourceSpans, seen: set<SpanId>, targets: set<TraceId>, visited: nat,
                            clock: nat -> Reading, ghost start: Walk, ghost vs: seq<Visit>)
      returns (seen': set<SpanId>, targets': set<TraceId>, visited': nat)
      requires Tracks() && InStep(K(), start, vs, clock, seen, visited, Walk(run, breaker.log, targets))
      modifies this`run, breaker, evaluator, evaluator.Footprint()
      ensures Tracks() && fresh(evaluator.Footprint() - old(evaluator.Footprint()))
      ensures InStep(K(), start, vs + VisitsOf(rs.resource.service, SpansOf(rs)), clock,
                     seen', visited', Walk(run, breaker.log, targets'))
    {
      hide Tracks;
      hide InStep;
      hide VisitsOf;
      hide Flatten;
      seen', targets', visited' := seen, targets, visited;
      var service := rs.resource.service;
      ghost var done: seq<Span> := [];
      ghost var k := K();
      NoVisitYet(service, vs, rs.scopes);
      for i := 0 to |rs.scopes|
        invariant Tracks() && fresh(evaluator.Footprint() - old(evaluator.Footprint()))
        invariant done == Flatten(rs.scopes[..i])
        invariant InStep(k, start, vs + VisitsOf(service, done), clock, seen', visited', Walk(run, breaker.log, targets'))
      {
        var spans := rs.scopes[i].spans;
        ghost var before := done;
        for j := 0 to |spans|
          invariant Tracks() && fresh(evaluator.Footprint() - old(evaluator.Footprint()))
          invariant done == before + spans[..j]
          invariant InStep(k, start, vs + VisitsOf(service, done), clock, seen', visited', Walk(run, breaker.log, targets'))
        {
          NextVisit(service, vs, before, spans, j);
          seen', targets', visited' :=
            VisitSpan(service, spans[j], seen', targets', visited', clock, start, vs + VisitsOf(service, done));
          done := before + spans[..j + 1];
        }
        NextScope(rs.scopes, i);
      }
      assert rs.scopes[..|rs.scopes|] == rs.scopes;
    }

    /** Drains and forwards every target; a batch whose send fails goes to the dead-letter queue. */
    method FlushTargets(targets: set<TraceId>, send: Batch -> bool, clock: nat -> int)
      returns (failed: bool, ghost order: seq<TraceId>)
      requires buf.Valid()
      modifies buf, queue
      ensures buf.Valid()
      ensures Enumerates(order, targets)
      ensures buf.stored == RemovedAll(old(buf.stored), order)
      ensures queue.dlq == EnqueuedAll(old(queue.dlq), FailedBatches(old(buf.stored), order, send), clock)
      ensures failed <==> FailedBatches(old(buf.stored), order, send) != []
    {
      var remaining := targets;
      order := [];
      failed := false;
      var failures := 0;
      ghost var bad := [];
      assert RemovedAll(old(buf.stored), []) == old(buf.stored);
      assert FailedBatches(old(buf.stored), [], send) == [] && EnqueuedAll(old(queue.dlq), [], clock) == old(queue.dlq);
      assert Enumerates(order, targets - remaining) && RingModel.DistinctIds(old(buf.stored));
      hide Enumerates;
      hide R.Ring.Valid;
      hide RemovedAll;
      hide FailedBatches;
      hide EnqueuedAll;
      hide Dlq.Enqueued;
      hide RingModel.Removed;
      hide RingModel.ChunksOf;
      while remaining != {}
        invariant buf.Valid() && remaining <= targets
        invariant Enumerates(order, targets - remaining)
        invariant buf.stored == RemovedAll(old(buf.stored), order)
        invariant bad == FailedBatches(old(buf.stored), order, send) && failures == |bad|
        invariant queue.dlq == EnqueuedAll(old(queue.dlq), bad, clock)
        invariant failed <==> bad != []
        decreases remaining
      {
        var tid :| tid in remaining;
        NextOf(order, targets, remaining, tid);
        remaining := remaining - {tid};
        FlushNext(old(buf.stored), order, tid, send);
        var drained := buf.Drain(tid);
        order := order + [tid];
        if |drained| == 0 {
          continue;
        }
        if !send(drained) {
          EnqueuedNext(old(queue.dlq), bad, drained, clock);
          queue.EnqueueDlq(drained, clock(failures));
          bad := bad + [drained];
          failures := failures + 1;
          failed := true;
        }
      }
      assert targets - {} == targets;
    }

    /** A resource is buffered before its spans are evaluated, dropped ones included. */
    method WalkResource(rs: ResourceSpans, seen: set<SpanId>, targets: set<TraceId>, visited: nat,
                        inserts: nat -> int, readings: nat -> Reading, ghost start: Walk, ghost vs: seq<Visit>)
      returns (seen': set<SpanId>, targets': set<TraceId>, visited': nat, ghost order: seq<TraceId>)
      requires Tracks() && buf.Valid() && InStep(K(), start, vs, readings, seen, visited, Walk(run, breaker.log, targets))
      modifies this`run, buf, breaker, evaluator, evaluator.Footprint()
      ensures Tracks() && buf.Valid() && fresh(evaluator.Footprint() - old(evaluator.Footprint()))
      ensures Enumerates(order, Isolation.TraceIds(SpansOf(rs)))
      ensures buf.stored == InsertAll(Limits(), old(buf.stored), rs, order, inserts)
      ensures InStep(K(), start, vs + VisitsOf(rs.resource.service, SpansOf(rs)), readings,
                     seen', visited', Walk(run, breaker.log, targets'))
    {
      hide E.Evaluator.Valid;
      hide E.Evaluator.Model;
      hide E.Evaluator.Separate;
      hide E.Evaluator.Sound;
      hide EvaluatorModel.After;
      hide Breaker.After;
      hide InStep;
      hide VisitsOf;
      hide SpansOf;
      hide R.Ring.Valid;
      hide Enumerates;
      hide InsertAll;
      order := BufferResource(rs, inserts);
      seen', targets', visited' := EvaluateResource(rs, seen, targets, visited, readings, start, vs);
    }

    /** The outer loop of the walk. */
    method WalkResources(rss: seq<ResourceSpans>, inserts: nat -> nat -> int, readings: nat -> Reading)
      returns (seen: set<SpanId>, targets: set<TraceId>, visited: nat, ghost orders: seq<seq<TraceId>>)
      requires Tracks() && buf.Valid()
      modifies this`run, buf, breaker, evaluator, evaluator.Footprint()
      ensures Tracks() && buf.Valid() && fresh(evaluator.Footprint() - old(evaluator.Footprint()))
      ensures InStep(K(), Walk(old(run), old(breaker.log), {}), Visits(rss), readings, seen, visited, Walk(run, breaker.log, targets))
      ensures |orders| == |rss| && Orders(orders, rss)
      ensures buf.stored == Buffered(Limits(), old(buf.stored), rss, orders, inserts)
    {
      hide Tracks;
      hide InStep;
      hide Visits;
      hide VisitsOf;
      hide SpansOf;
      hide R.Ring.Valid;
      hide Enumerates;
      hide Orders;
      hide Buffered;
      hide InsertAll;
      seen, targets, visited, orders := {}, {}, 0, [];
      ghost var k, l, start, stored := K(), Limits(), Walk(run, breaker.log, {}), buf.stored;
      TrackedRules();
      WalkStarts(k, l, start, stored, rss, inserts, readings);
      for i := 0 to |rss|
        invariant Tracks() && buf.Valid() && fresh(evaluator.Footprint() - old(evaluator.Footprint()))
        invariant InStep(k, start, Visits(rss[..i]), readings, seen, visited, Walk(run, breaker.log, targets))
        invariant |orders| == i && Orders(orders, rss[..i])
        invariant buf.stored == Buffered(l, stored, rss[..i], orders, inserts)
      {
        NextResource(rss, i);
        ghost var order;
        seen, targets, visited, order :=
          WalkResource(rss[i], seen, targets, visited, inserts(i), readings, start, Visits(rss[..i]));
        OrdersNext(orders, rss, i, order);
        BufferedNext(l, stored, rss, i, orders, order, inserts);
        orders := orders + [order];
      }
      assert rss[..|rss|] == rss;
    }

    /** `next` is the answer of the next consumer, if pass-through is on. */
    method ConsumeTraces(rss: seq<ResourceSpans>, send: Batch -> bool, next: Option<bool>,
                         inserts: nat -> nat -> int, readings: nat -> Reading, failures: nat -> int)
      returns (ok: bool, ghost orders: seq<seq<TraceId>>, ghost flushed: seq<TraceId>, ghost at: seq<Option<nat>>)
      requires Tracks() && buf.Valid()
      modifies this`run, buf, queue, breaker, evaluator, evaluator.Footprint()
      ensures Tracks() && buf.Valid() && fresh(evaluator.Footprint() - old(evaluator.Footprint()))
      ensures |orders| == |rss| && Orders(orders, rss)
      ensures var w := Walked(K(), Walk(old(run), old(breaker.log), {}), Firsts(Visits(rss)), readings, Buckets);
              w == Walk(run, breaker.log, w.targets) && Enumerates(flushed, w.targets)
      ensures var vs := Firsts(Visits(rss));
              && Located(old(run), vs, readings, run, at)
              && Chosen(breaker.ttl, old(breaker.log), vs, readings, breaker.log, at)
              && forall t :: t in flushed <==> Fired(evaluator.cfg, vs, run, at, t)
      ensures var filled := Buffered(Limits(), old(buf.stored), rss, orders, inserts);
              var bad := FailedBatches(filled, flushed, send);
              && buf.stored == RemovedAll(filled, flushed)
              && queue.dlq == EnqueuedAll(old(queue.dlq), bad, failures)
              && ok == if next.Some? then next.value else bad == []
      ensures IsARun(Limits(), old(buf.stored), old(queue.dlq), buf.stored, queue.dlq, ChunkSpans(rss))
    {
      hide E.Evaluator.Valid;
      hide E.Evaluator.Model;
      hide E.Evaluator.Separate;
      hide E.Evaluator.Sound;
      hide EvaluatorModel.After;
      hide Breaker.After;
      hide Walked;
      hide Visits;
      hide Firsts;
      hide Buffered;
      hide R.Ring.Valid;
      hide Enumerates;
      hide Orders;
      hide RemovedAll;
      hide FailedBatches;
      hide EnqueuedAll;
      hide IsARun;
      hide Located;
      hide Chosen;
      hide Fired;
      hide RingModel.DistinctIds;
      BufferIsSound();
      var seen, targets, visited;
      seen, targets, visited, orders := WalkResources(rss, inserts, readings);
      at := TargetsAreWhatFired(K(), Walk(old(run), old(breaker.log), {}), Firsts(Visits(rss)), readings);
      var failed;
      failed, flushed := FlushTargets(targets, send, failures);
      EnumeratesMembers(flushed, targets);
      CallIsARun(Limits(), old(buf.stored), old(queue.dlq), rss, orders, inserts, flushed, targets, send, failures);
      ok := if next.Some? then next.value else !failed;
    }
  }
}
