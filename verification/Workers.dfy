/** Concurrent `ConsumeTraces` workers around one evaluator, one locked call at a time.

    A worker handling a server span starts a request and later completes it; other workers,
    client completions and pruning may come in between. */
module Workers {
  import opened Options
  import opened ServiceModel
  import opened EvaluatorModel
  import opened Recount
  import Gauge

  /** `open` maps each worker between its start and its completion to the service it is in. */
  datatype System = System(engine: Engine, open: map<nat, string>)

  datatype Act =
    | Start(worker: nat, service: string, now: int)
    | Finish(worker: nat, sig: Signal, now: int)
    | Client(service: string, sig: Signal, now: int)
    | Prune(now: int)

  ghost predicate Enabled(s: System, a: Act) {
    match a
    case Start(w, n, _) => w !in s.open && n != ""
    case Finish(w, sig, _) => w in s.open && sig.kind == Server
    case Client(n, sig, _) => n != "" && sig.kind == ServiceModel.Client
    case Prune(_) => true
  }

  ghost function EventOf(s: System, a: Act): Event
    requires Enabled(s, a)
  {
    match a
    case Start(w, n, now) => Started(n, now)
    case Finish(w, sig, now) => Completed(s.open[w], sig, now)
    case Client(n, sig, now) => Completed(n, sig, now)
    case Prune(now) => Pruned(now)
  }

  ghost function OpenAfter(s: System, a: Act): map<nat, string>
    requires Enabled(s, a)
  {
    match a
    case Start(w, n, _) => s.open[w := n]
    case Finish(w, _, _) => s.open - {w}
    case _ => s.open
  }

  ghost function Next(cfg: Config, s: System, a: Act): System
    requires cfg.Valid() && Enabled(s, a)
  {
    System(Step(cfg, s.engine, EventOf(s, a), Buckets).engine, OpenAfter(s, a))
  }

  ghost predicate Runs(cfg: Config, s: System, acts: seq<Act>, s': System)
    requires cfg.Valid()
    decreases |acts|
  {
    if acts == [] then s' == s
    else Enabled(s, acts[0]) && Runs(cfg, Next(cfg, s, acts[0]), acts[1..], s')
  }

  const INITIAL := System(EMPTY, map[])

  /** The workers between start and completion for service `n`. */
  ghost function Inside(open: map<nat, string>, n: string): set<nat> {
    set w | w in open && open[w] == n
  }

  ghost predicate GaugesBounded(s: System) {
    && (forall w :: w in s.open ==> s.open[w] != "")
    && forall n :: n in s.engine.services ==> 0 <= s.engine.services[n].gauge.current <= |Inside(s.open, n)|
  }

  // ---- what one call does to the gauges ----

  lemma JudgeKeepsCurrent(cfg: Config, name: string, s: Service, t: Tallies, ms: int)
    requires cfg.Valid()
    ensures var a := Judge(cfg, name, s, t, ms);
            && a.service.gauge.current == s.gauge.current
            && (a.reason.Some? && a.reason.value.trigger == InFlightPileup ==>
                  a.reason.value.observed == s.gauge.current as real && a.reason.value.service == name)
  {
    hide CheckRate;
    hide Gauge.Gauge.NextSeverity;
    hide Gauge.Gauge.NextEwma;
    hide Gauge.Gauge.NextConditionAt;
  }

  function GaugeBefore(e: Engine, n: string): int {
    if n in e.services then e.services[n].gauge.current else 0
  }

  lemma StepMovesGauge(cfg: Config, e: Engine, ev: Event, n: string)
    requires cfg.Valid() && n in Step(cfg, e, ev, Buckets).engine.services
    ensures var r := Step(cfg, e, ev, Buckets);
            var before, after := GaugeBefore(e, n), r.engine.services[n].gauge.current;
            && after == (if !ev.Touches(n) then before
                         else if ev.Started? then before + 1
                         else if before > 0 then before - 1 else before)
            && (r.reason.Some? && r.reason.value.trigger == InFlightPileup && ev.Touches(n) ==>
                  r.reason.value.observed == after as real)
  {
    hide Judge;
    hide ViewOf;
    if ev.Completed? && ev.Touches(n) {
      var s := Touch(e, cfg.maxServices, n, ev.now).services[n];
      JudgeKeepsCurrent(cfg, n, Logged(s, ev.sig), LiveTallies(ViewOf(s.log + [ev.sig]), SecondOf(ev.sig)), ev.sig.ms);
    }
  }

  lemma InsideAfter(s: System, a: Act, n: string)
    requires Enabled(s, a)
    ensures |Inside(OpenAfter(s, a), n)| ==
            |Inside(s.open, n)| + (if a.Start? && a.service == n then 1 else 0)
                                - (if a.Finish? && s.open[a.worker] == n then 1 else 0)
  {
    match a
    case Start(w, m, _) => InsideOpened(s.open, w, m, n);
    case Finish(w, _, _) => InsideClosed(s.open, w, n);
    case _ =>
  }

  lemma InsideOpened(open: map<nat, string>, w: nat, m: string, n: string)
    requires w !in open
    ensures |Inside(open[w := m], n)| == |Inside(open, n)| + if m == n then 1 else 0
  {
    assert Inside(open[w := m], n) == Inside(open, n) + if m == n then {w} else {};
  }

  lemma InsideClosed(open: map<nat, string>, w: nat, n: string)
    requires w in open
    ensures |Inside(open - {w}, n)| == |Inside(open, n)| - if open[w] == n then 1 else 0
  {
    assert Inside(open - {w}, n) == Inside(open, n) - {w};
  }

  lemma OpenStaysNamed(s: System, a: Act)
    requires Enabled(s, a) && forall w :: w in s.open ==> s.open[w] != ""
    ensures forall w :: w in OpenAfter(s, a) ==> OpenAfter(s, a)[w] != ""
  {
  }

  lemma StepKeepsBound(cfg: Config, s: System, a: Act)
    requires cfg.Valid() && Enabled(s, a) && GaugesBounded(s)
    ensures GaugesBounded(Next(cfg, s, a))
  {
    hide Step;
    hide Inside;
    OpenStaysNamed(s, a);
    var s' := Next(cfg, s, a);
    forall n | n in s'.engine.services
      ensures 0 <= s'.engine.services[n].gauge.current <= |Inside(s'.open, n)|
    {
      StepMovesGauge(cfg, s.engine, EventOf(s, a), n);
      InsideAfter(s, a, n);
    }
  }

  /** For every interleaving the gauge of a service is never negative and never more than the number of
      workers between start and completion for it. */
  lemma {:induction false} RunKeepsBound(cfg: Config, s: System, acts: seq<Act>, s': System)
    requires cfg.Valid() && Runs(cfg, s, acts, s') && GaugesBounded(s)
    ensures GaugesBounded(s')
    decreases |acts|
  {
    if acts != [] {
      hide GaugesBounded;
      hide Next;
      StepKeepsBound(cfg, s, acts[0]);
      RunKeepsBound(cfg, Next(cfg, s, acts[0]), acts[1..], s');
    }
  }

  /** A pile-up report of value v, at any point of any interleaving, means at least v other workers are
      between start and completion for that service at that instant. */
  lemma PileUpCountsWorkers(cfg: Config, acts: seq<Act>, s: System, a: Act)
    requires cfg.Valid() && Runs(cfg, INITIAL, acts, s) && Enabled(s, a)
    ensures var ev := EventOf(s, a);
            var r := Step(cfg, s.engine, ev, Buckets);
            r.reason.Some? && r.reason.value.trigger == InFlightPileup ==>
              ev.Completed? && r.reason.value.observed <= |Inside(OpenAfter(s, a), ev.name)| as real
  {
    hide Step;
    var ev := EventOf(s, a);
    RunKeepsBound(cfg, INITIAL, acts, s);
    StepKeepsBound(cfg, s, a);
    StepReportsItsService(cfg, s.engine, ev);
    if Step(cfg, s.engine, ev, Buckets).reason.Some? {
      StepMovesGauge(cfg, s.engine, ev, ev.name);
    }
  }

  lemma StepReportsItsService(cfg: Config, e: Engine, ev: Event)
    requires cfg.Valid()
    ensures var r := Step(cfg, e, ev, Buckets);
            r.reason.Some? ==> ev.Completed? && ev.Touches(ev.name) && ev.name in r.engine.services
  {
    hide Judge;
    hide ViewOf;
  }
}
