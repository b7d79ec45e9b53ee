/** The slow-success theorems, restated for the mean that a service keeps and for runs of the evaluator. */
module Steadiness {
  import opened Options
  import opened SlidingWindow
  import opened ServiceModel
  import opened Recount
  import opened EvaluatorModel
  import Baseline
  import Mean
  import ServiceState

  /** If a success, then of at most an hour and within [m, 3m] once clamped. */
  predicate Steady(s: Signal, m: int) {
    IsSuccess(s) ==> s.durationNs <= Baseline.MAX_BASELINE_NS && m <= Baseline.Clamped(s.durationNs) <= 3 * m
  }

  /** If a success, then within [lo, hi] once clamped. */
  predicate Bounded(s: Signal, lo: int, hi: int) {
    IsSuccess(s) ==> lo <= Baseline.Clamped(s.durationNs) <= hi
  }

  ghost predicate SteadyLog(log: seq<Signal>, m: int) {
    forall i :: 0 <= i < |log| ==> Steady(log[i], m)
  }

  ghost predicate BoundedLog(log: seq<Signal>, lo: int, hi: int) {
    forall i :: 0 <= i < |log| ==> Bounded(log[i], lo, hi)
  }

  // ---- one service ----

  lemma {:induction false} DurationsOfBounded(log: seq<Signal>, lo: int, hi: int)
    requires BoundedLog(log, lo, hi)
    ensures forall i :: 0 <= i < |SuccessDurations(log)| ==> lo <= Baseline.Clamped(SuccessDurations(log)[i]) <= hi
  {
    if log != [] { DurationsOfBounded(log[..|log| - 1], lo, hi); }
  }

  /** The mean a service keeps lies in the range of its own clamped successes, hence between 1 ms and 1 h. */
  lemma MeanStaysInRange(log: seq<Signal>, lo: int, hi: int)
    requires BoundedLog(log, lo, hi) && SuccessDurations(log) != []
    ensures lo as real <= ViewOf(log).baseline <= hi as real
    ensures Baseline.MIN_BASELINE_NS as real <= ViewOf(log).baseline <= Baseline.MAX_BASELINE_NS as real
  {
    hide ViewOf;
    hide Baseline.BaselineAfter;
    DurationsOfBounded(log, lo, hi);
    StateFollowsTheLog(log);
    Baseline.BaselineStaysInRange(SuccessDurations(log), lo, hi);
  }

  /** So does the field that holds it, in every valid state. */
  lemma KeptMeanStaysInRange(st: ServiceState.State, lo: int, hi: int)
    requires st.Valid() && BoundedLog(st.log, lo, hi) && SuccessDurations(st.log) != []
    ensures lo as real <= st.ewmaNs <= hi as real
  {
    assert st.ewmaNs == ViewOf(st.log).baseline;
    MeanStaysInRange(st.log, lo, hi);
  }

  /** In every valid state that field is the weighted mean of all clamped successes, oldest first. */
  lemma KeptMeanIsWeighted(st: ServiceState.State)
    requires st.Valid()
    ensures st.ewmaNs == Mean.Weighted(Baseline.ClampedAll(SuccessDurations(st.log)))
  {
    assert st.ewmaNs == ViewOf(st.log).baseline;
    MeanIsWeighted(st.log);
  }

  lemma {:induction false} DurationsOfSteady(log: seq<Signal>, m: int)
    requires SteadyLog(log, m)
    ensures forall i :: 0 <= i < |SuccessDurations(log)| ==>
              var d := SuccessDurations(log)[i];
              d <= Baseline.MAX_BASELINE_NS && m <= Baseline.Clamped(d) <= 3 * m
  {
    if log != [] { DurationsOfSteady(log[..|log| - 1], m); }
  }

  lemma SteadySuccessIsNoHit(before: seq<Signal>, s: Signal, m: int, forgets: bool)
    requires SteadyLog(before, m) && Steady(s, m) && IsSuccess(s)
    ensures !Hits(SlowSuccesses, before, s, forgets)
  {
    hide Baseline.IsSlow;
    hide Baseline.BaselineAfter;
    hide Baseline.ClampedAll;
    hide Mean.Weighted;
    DurationsOfSteady(before, m);
    var ds := SuccessDurations(before) + [s.durationNs];
    assert ds[..|ds| - 1] == SuccessDurations(before);
    Baseline.SteadyRunIsNeverSlow(ds, m);
    Baseline.SlowIffOverThreeMeans(SuccessDurations(before), s.durationNs);
  }

  lemma {:induction false} SteadyLogHasNoSlowHit(log: seq<Signal>, m: int, lo: int, hi: int, forgets: bool)
    requires SteadyLog(log, m)
    ensures LogTally(SlowSuccesses, log, lo, hi, forgets).hits == 0
  {
    if log != [] {
      var before, s := log[..|log| - 1], log[|log| - 1];
      SteadyLogHasNoSlowHit(before, m, lo, hi, forgets);
      hide Hits;
      if IsSuccess(s) { SteadySuccessIsNoHit(before, s, m, forgets); }
    }
  }

  ghost predicate NoHits(marks: seq<Mark>) {
    forall i :: 0 <= i < |marks| ==> marks[i].hits == 0
  }

  lemma {:induction false} SteadyLogHasNoSlowMark(log: seq<Signal>, m: int)
    requires SteadyLog(log, m)
    ensures NoHits(ViewOf(log).successes)
  {
    if log != [] {
      hide ViewOf;
      hide Hits;
      var before, s := log[..|log| - 1], log[|log| - 1];
      SteadyLogHasNoSlowMark(before, m);
      MarksOfNext(log);
      if IsSuccess(s) { SteadySuccessIsNoHit(before, s, m, true); }
    } else {
      assert ViewOf([]).successes == [];
    }
  }

  lemma {:induction false} NoHitsNoLiveHits(marks: seq<Mark>, lo: int, hi: int)
    requires NoHits(marks)
    ensures LiveTally(marks, lo, hi).hits == 0
  {
    if marks != [] { NoHitsNoLiveHits(marks[1..], lo, hi); }
  }

  lemma SteadyTallies(how: Judging, log: seq<Signal>, t: int, m: int)
    requires SteadyLog(log, m)
    ensures TalliesBy(how, log, t).slow.hits == 0
  {
    hide ViewOf;
    hide LiveTally;
    hide LogTally;
    hide SteadyLog;
    hide NoHits;
    SteadyLogHasNoSlowMark(log, m);
    NoHitsNoLiveHits(ViewOf(log).successes, t - (WINDOW_SECONDS - 1), t);
    SteadyLogHasNoSlowHit(log, m, t - (WINDOW_SECONDS - 1), t, true);
    SteadyLogHasNoSlowHit(log, m, t - (WINDOW_SECONDS - 1), t, false);
  }

  lemma NoSlowHitNoSlowReport(cfg: Config, name: string, s: Service, t: Tallies, ms: int)
    requires cfg.Valid() && t.slow.hits == 0
    ensures var r := Judge(cfg, name, s, t, ms).reason;
            r.Some? ==> r.value.trigger != SlowSuccessRate && r.value.service == name
  {
    assert t.slow.total > 0 ==> 0.0 / t.slow.total as real == 0.0;
  }

  /** A service whose successes have stayed within a factor of three is not reported as slow, whatever its order of
      timestamps and whatever the buckets still hold. */
  lemma SteadyServiceIsNotSlow(cfg: Config, name: string, s: Service, sig: Signal, how: Judging, m: int)
    requires cfg.Valid() && SteadyLog(s.log + [sig], m)
    ensures var r := CompleteBy(cfg, name, s, sig, how).reason;
            r.Some? ==> r.value.trigger != SlowSuccessRate && r.value.service == name
  {
    hide Judge;
    hide TalliesBy;
    SteadyTallies(how, s.log + [sig], SecondOf(sig), m);
    NoSlowHitNoSlowReport(cfg, name, Logged(s, sig), TalliesBy(how, s.log + [sig], SecondOf(sig)), sig.ms);
  }

  // ---- runs of the evaluator ----

  lemma StepKeepsMadeOf(cfg: Config, e: Engine, evs: seq<Event>, ev: Event, how: Judging, n: string)
    requires cfg.Valid() && n in Step(cfg, e, ev, how).engine.services
    requires n in e.services ==> MadeOf(e.services[n].log, evs, n)
    ensures MadeOf(Step(cfg, e, ev, how).engine.services[n].log, evs + [ev], n)
  {
    hide Step;
    StepLog(cfg, e, ev, how, n);
    var log := if n in e.services then e.services[n].log else [];
    MadeOfMore(log, evs, ev, n);
    if ev.Touches(n) && ev.Completed? {
      assert (evs + [ev])[|evs|] == ev;
      assert HasCompletion(evs + [ev], n, ev.sig);
    } else {
      assert log + [] == log;
    }
  }

  /** The log of a resident service is made of the run's completions of that service. */
  lemma {:induction false} LogsAreTheRuns(cfg: Config, evs: seq<Event>, how: Judging, n: string)
    requires cfg.Valid() && n in After(cfg, evs, how).services
    ensures MadeOf(After(cfg, evs, how).services[n].log, evs, n)
  {
    hide Step;
    hide MadeOf;
    var before, ev := evs[..|evs| - 1], evs[|evs| - 1];
    if n in After(cfg, before, how).services { LogsAreTheRuns(cfg, before, how, n); }
    StepKeepsMadeOf(cfg, After(cfg, before, how), before, ev, how, n);
    assert before + [ev] == evs;
  }

  /** All the run's completions of `n` are steady. */
  ghost predicate SteadyRun(evs: seq<Event>, n: string, m: int) {
    forall i :: 0 <= i < |evs| && evs[i].Completed? && evs[i].name == n ==> Steady(evs[i].sig, m)
  }

  ghost predicate BoundedRun(evs: seq<Event>, n: string, lo: int, hi: int) {
    forall i :: 0 <= i < |evs| && evs[i].Completed? && evs[i].name == n ==> Bounded(evs[i].sig, lo, hi)
  }

  lemma SteadyRunSteadyLog(log: seq<Signal>, evs: seq<Event>, n: string, m: int)
    requires MadeOf(log, evs, n) && SteadyRun(evs, n, m)
    ensures SteadyLog(log, m)
  {
    hide Steady;
    forall k | 0 <= k < |log| ensures Steady(log[k], m) { assert HasCompletion(evs, n, log[k]); }
  }

  /** In any run the mean of a resident service lies in the range of its own clamped successes. */
  lemma ResidentMeanStaysInRange(cfg: Config, evs: seq<Event>, how: Judging, n: string, lo: int, hi: int)
    requires cfg.Valid() && n in After(cfg, evs, how).services && BoundedRun(evs, n, lo, hi)
    ensures var log := After(cfg, evs, how).services[n].log;
            SuccessDurations(log) != [] ==>
              && lo as real <= ViewOf(log).baseline <= hi as real
              && Baseline.MIN_BASELINE_NS as real <= ViewOf(log).baseline <= Baseline.MAX_BASELINE_NS as real
  {
    hide After;
    hide ViewOf;
    hide Bounded;
    var log := After(cfg, evs, how).services[n].log;
    LogsAreTheRuns(cfg, evs, how, n);
    forall k | 0 <= k < |log| ensures Bounded(log[k], lo, hi) { assert HasCompletion(evs, n, log[k]); }
    if SuccessDurations(log) != [] { MeanStaysInRange(log, lo, hi); }
  }

  /** One call on a service that is steady so far and stays so reports no slow successes for it. */
  lemma SteadyStep(cfg: Config, evs: seq<Event>, ev: Event, how: Judging, n: string, m: int)
    requires cfg.Valid() && SteadyRun(evs + [ev], n, m)
    ensures var r := Step(cfg, After(cfg, evs, how), ev, how).reason;
            r.Some? && r.value.service == n ==> r.value.trigger != SlowSuccessRate
  {
    hide After;
    hide CompleteBy;
    hide SteadyLog;
    hide SteadyRun;
    var e := After(cfg, evs, how);
    if ev.Completed? && ev.name != "" {
      var s := Touch(e, cfg.maxServices, ev.name, ev.now).services[ev.name];
      assert s.log == if ev.name in e.services then e.services[ev.name].log else [];
      hide Touch;
      if ev.name in e.services { LogsAreTheRuns(cfg, evs, how, ev.name); }
      ReportsItsOwn(cfg, ev.name, s, ev.sig, how);
      if ev.name == n {
        MadeOfMore(s.log, evs, ev, n);
        assert (evs + [ev])[|evs|] == ev;
        assert HasCompletion(evs + [ev], n, ev.sig);
        assert MadeOf(s.log + [ev.sig], evs + [ev], n);
        SteadyRunSteadyLog(s.log + [ev.sig], evs + [ev], n, m);
        SteadyServiceIsNotSlow(cfg, n, s, ev.sig, how, m);
      }
    }
  }

  lemma ReportsItsOwn(cfg: Config, name: string, s: Service, sig: Signal, how: Judging)
    requires cfg.Valid()
    ensures var r := CompleteBy(cfg, name, s, sig, how).reason; r.Some? ==> r.value.service == name
  {
    hide CheckRate;
    hide TalliesBy;
  }

  /** A steady service is never reported as slow: if all durations of a run's successes of `n` clamp into [m, 3m], and
      none is over an hour, no call of the run reports slow successes for `n`, whatever happens to other services,
      whoever is evicted, and in whatever order timestamps come. */
  lemma {:induction false} SteadyRunNeverReportsSlow(cfg: Config, evs: seq<Event>, how: Judging, n: string, m: int)
    requires cfg.Valid() && SteadyRun(evs, n, m)
    ensures forall i :: 0 <= i < |Reasons(cfg, evs, how)| ==>
              var r := Reasons(cfg, evs, how)[i];
              r.Some? && r.value.service == n ==> r.value.trigger != SlowSuccessRate
  {
    if evs != [] {
      var before, ev := evs[..|evs| - 1], evs[|evs| - 1];
      assert before + [ev] == evs;
      SteadyRunNeverReportsSlow(cfg, before, how, n, m);
      SteadyStep(cfg, before, ev, how, n, m);
      hide Step;
    }
  }
}
