/** What the evaluator does to one service's in-flight gauge while the service stays resident:
    the gauge theorems, restated for runs of the whole evaluator. */
module Residence {
  import opened Options
  import opened Severity
  import opened ServiceModel
  import opened EvaluatorModel
  import opened Recount
  import Gauge

  /** An earlier trigger fired, so the gauge was not looked at. */
  predicate CutBeforeGauge(r: Option<FlushReason>) {
    r.Some? && r.value.trigger != InFlightPileup
  }

  /** The gauge operations of the last call on `n`, given what the call returned. */
  function OpsOfCall(ev: Event, r: Option<FlushReason>): seq<Gauge.Op> {
    match ev
    case Started(_, _) => [Gauge.Began]
    case Completed(_, sig, _) => [Gauge.Ended] + if CutBeforeGauge(r) then [] else [Gauge.Checked(sig.ms)]
    case Pruned(_) => []
  }

  /** The gauge operations on `n` since it last became resident. */
  ghost function OpsOf(cfg: Config, evs: seq<Event>, how: Judging, n: string): seq<Gauge.Op>
    requires cfg.Valid()
  {
    if evs == [] then []
    else
      var before, ev := evs[..|evs| - 1], evs[|evs| - 1];
      var e := After(cfg, before, how);
      var ops := if n in e.services then OpsOf(cfg, before, how, n) else [];
      if ev.Touches(n) then ops + OpsOfCall(ev, Step(cfg, e, ev, how).reason) else ops
  }

  function GaugeOf(e: Engine, n: string): Gauge.Gauge {
    if n in e.services then e.services[n].gauge else Gauge.IDLE
  }

  function Applied(l: Gauge.Limits, g: Gauge.Gauge, ops: seq<Gauge.Op>): Gauge.Gauge {
    if ops == [] then g else Gauge.Apply(l, Applied(l, g, ops[..|ops| - 1]), ops[|ops| - 1])
  }

  /** Judging touches the gauge only if no rate trigger fired. */
  lemma JudgeAndGauge(cfg: Config, name: string, s: Service, t: Tallies, ms: int)
    requires cfg.Valid()
    ensures var a := Judge(cfg, name, s, t, ms);
            && a.service.gauge == (if CutBeforeGauge(a.reason) then s.gauge else s.gauge.Evaluate(cfg.limits, ms))
            && (a.reason.Some? && a.reason.value.trigger == InFlightPileup ==>
                  a.reason.value.severity == s.gauge.NextSeverity(cfg.limits, ms) != Calm)
  {
    hide CheckRate;
    hide Gauge.Gauge.NextSeverity;
    hide Gauge.Gauge.NextEwma;
    hide Gauge.Gauge.NextConditionAt;
    hide Gauge.Gauge.Threshold;
  }

  lemma AppliedCall(l: Gauge.Limits, g: Gauge.Gauge, ms: int)
    ensures Applied(l, g, [Gauge.Began]) == g.Start()
    ensures Applied(l, g, [Gauge.Ended] + []) == g.Finish()
    ensures Applied(l, g, [Gauge.Ended] + [Gauge.Checked(ms)]) == g.Finish().Evaluate(l, ms)
  {
    hide Gauge.Gauge.Evaluate;
    hide Gauge.Gauge.Start;
    hide Gauge.Gauge.Finish;
    var both := [Gauge.Ended] + [Gauge.Checked(ms)];
    assert both[..1] == [Gauge.Ended] && [Gauge.Ended] + [] == [Gauge.Ended];
    assert [Gauge.Began][..0] == [] && [Gauge.Ended][..0] == [];
  }

  lemma StepAndGauge(cfg: Config, e: Engine, ev: Event, how: Judging, n: string)
    requires cfg.Valid() && n in Step(cfg, e, ev, how).engine.services
    ensures var r := Step(cfg, e, ev, how);
            var g := GaugeOf(e, n);
            && (!ev.Touches(n) ==> n in e.services && r.engine.services[n].gauge == g)
            && (ev.Touches(n) ==> r.engine.services[n].gauge == Applied(cfg.limits, g, OpsOfCall(ev, r.reason)))
            && (ev.Completed? && ev.Touches(n) && r.reason.Some? && r.reason.value.trigger == InFlightPileup ==>
                  r.reason.value.severity == g.Finish().NextSeverity(cfg.limits, ev.sig.ms) != Calm)
  {
    hide Judge;
    hide ViewOf;
    hide Applied;
    hide Gauge.Gauge.Evaluate;
    hide Gauge.Gauge.NextSeverity;
    AppliedCall(cfg.limits, GaugeOf(e, n), if ev.Completed? then ev.sig.ms else 0);
    if ev.Completed? && ev.Touches(n) {
      var s := Touch(e, cfg.maxServices, n, ev.now).services[n];
      var tallies := TalliesBy(how, s.log + [ev.sig], SecondOf(ev.sig));
      JudgeAndGauge(cfg, n, Logged(s, ev.sig), tallies, ev.sig.ms);
    }
  }

  lemma {:induction false} AppliedConcat(l: Gauge.Limits, a: seq<Gauge.Op>, b: seq<Gauge.Op>)
    ensures Gauge.After(l, a + b) == Applied(l, Gauge.After(l, a), b)
  {
    hide Gauge.Apply;
    if b == [] {
      assert a + b == a;
    } else {
      assert (a + b)[..|a + b| - 1] == a + b[..|b| - 1];
      AppliedConcat(l, a, b[..|b| - 1]);
    }
  }

  /** After any run the gauge of a resident service is that of its operations since it last became resident. */
  lemma {:induction false} GaugeIsItsResidence(cfg: Config, evs: seq<Event>, how: Judging, n: string)
    requires cfg.Valid() && n in After(cfg, evs, how).services
    ensures After(cfg, evs, how).services[n].gauge == Gauge.After(cfg.limits, OpsOf(cfg, evs, how, n))
  {
    var before, ev := evs[..|evs| - 1], evs[|evs| - 1];
    var e := After(cfg, before, how);
    StepAndGauge(cfg, e, ev, how, n);
    hide Step;
    if n in e.services { GaugeIsItsResidence(cfg, before, how, n); }
    var ops := if n in e.services then OpsOf(cfg, before, how, n) else [];
    if ev.Touches(n) { AppliedConcat(cfg.limits, ops, OpsOfCall(ev, Step(cfg, e, ev, how).reason)); }
  }

  /** In any run, whatever other services do: the gauge of a resident service is between zero and its peak, and so is
      the mean the adaptive threshold is made of. */
  lemma ResidentGaugesAreSane(cfg: Config, evs: seq<Event>, how: Judging, n: string)
    requires cfg.Valid() && n in After(cfg, evs, how).services
    ensures Gauge.Sane(After(cfg, evs, how).services[n].gauge)
  {
    GaugeIsItsResidence(cfg, evs, how, n);
    Gauge.ThresholdNeverFalls(cfg.limits, OpsOf(cfg, evs, how, n), 0);
  }

  /** The operations on the service of a completion whose pile-up check was reached, that check left out. */
  ghost function OpsBeforeCheck(cfg: Config, evs: seq<Event>, how: Judging, n: string): seq<Gauge.Op>
    requires cfg.Valid()
  {
    (if n in After(cfg, evs, how).services then OpsOf(cfg, evs, how, n) else []) + [Gauge.Ended]
  }

  lemma OpsOfNext(cfg: Config, evs: seq<Event>, ev: Event, how: Judging, n: string)
    requires cfg.Valid()
    ensures var e := After(cfg, evs, how);
            var ops := if n in e.services then OpsOf(cfg, evs, how, n) else [];
            OpsOf(cfg, evs + [ev], how, n) ==
            if ev.Touches(n) then ops + OpsOfCall(ev, Step(cfg, e, ev, how).reason) else ops
  {
    hide Step;
    hide OpsOfCall;
    hide After;
    assert (evs + [ev])[..|evs|] == evs;
  }

  /** The gauge as the pile-up check of a completion finds it. */
  lemma GaugeBeforeCheck(cfg: Config, evs: seq<Event>, how: Judging, n: string)
    requires cfg.Valid()
    ensures GaugeOf(After(cfg, evs, how), n).Finish() ==
            Gauge.After(cfg.limits, OpsBeforeCheck(cfg, evs, how, n))
  {
    hide Step;
    hide OpsOf;
    hide Gauge.Gauge.Finish;
    var ops := if n in After(cfg, evs, how).services then OpsOf(cfg, evs, how, n) else [];
    if n in After(cfg, evs, how).services { GaugeIsItsResidence(cfg, evs, how, n); }
    hide After;
    assert (ops + [Gauge.Ended])[..|ops|] == ops;
  }

  lemma ReportedCheck(cfg: Config, evs: seq<Event>, ev: Event, how: Judging)
    requires cfg.Valid() && ev.Completed?
    ensures var r, ops := Step(cfg, After(cfg, evs, how), ev, how).reason, OpsBeforeCheck(cfg, evs, how, ev.name);
            r.Some? && r.value.trigger == InFlightPileup ==>
              && OpsOf(cfg, evs + [ev], how, ev.name) == ops + [Gauge.Checked(ev.sig.ms)]
              && r.value.severity == Gauge.After(cfg.limits, ops).NextSeverity(cfg.limits, ev.sig.ms) != Calm
  {
    hide Step;
    hide After;
    hide OpsOf;
    hide GaugeOf;
    hide Gauge.After;
    hide Gauge.Gauge.NextSeverity;
    hide Gauge.Gauge.Finish;
    var e, n := After(cfg, evs, how), ev.name;
    var r := Step(cfg, e, ev, how);
    if r.reason.Some? && r.reason.value.trigger == InFlightPileup {
      ReportNamesAResident(cfg, e, ev, how);
      StepAndGauge(cfg, e, ev, how, n);
      OpsOfNext(cfg, evs, ev, how, n);
      GaugeBeforeCheck(cfg, evs, how, n);
      var ops := if n in e.services then OpsOf(cfg, evs, how, n) else [];
      assert ops + ([Gauge.Ended] + [Gauge.Checked(ev.sig.ms)]) == ops + [Gauge.Ended] + [Gauge.Checked(ev.sig.ms)];
    }
  }

  /** In any run a reported pile-up was held: since some in-flight evaluation of the same residence, at least the hold
      time of the reported severity earlier, every in-flight evaluation of the service found it at its threshold. */
  lemma ReportedPileUpWasHeld(cfg: Config, evs: seq<Event>, ev: Event, how: Judging)
    requires cfg.Valid() && ev.Completed?
    ensures var r := Step(cfg, After(cfg, evs, how), ev, how).reason;
            r.Some? && r.value.trigger == InFlightPileup ==>
              var cs := Gauge.Checks(cfg.limits, OpsOf(cfg, evs + [ev], how, ev.name));
              var hold := if r.value.severity == Severe then cfg.limits.severeHoldSecs else cfg.limits.mildHoldSecs;
              exists k: nat :: Gauge.MetSince(cs, k) && (hold > 0 ==> ev.sig.ms - cs[k].ms >= 1000 * hold)
  {
    hide Step;
    hide After;
    hide OpsOf;
    hide OpsBeforeCheck;
    hide Gauge.After;
    hide Gauge.Checks;
    hide Gauge.Gauge.NextSeverity;
    ReportedCheck(cfg, evs, ev, how);
    var r := Step(cfg, After(cfg, evs, how), ev, how).reason;
    if r.Some? && r.value.trigger == InFlightPileup {
      Gauge.PileUpWasHeld(cfg.limits, OpsBeforeCheck(cfg, evs, how, ev.name), ev.sig.ms);
    }
  }

  lemma ReportNamesAResident(cfg: Config, e: Engine, ev: Event, how: Judging)
    requires cfg.Valid() && ev.Completed?
    ensures var r := Step(cfg, e, ev, how);
            r.reason.Some? ==> ev.Touches(ev.name) && ev.name in r.engine.services
  {
    hide Judge;
    hide ViewOf;
  }

  // ---- the severity, exactly ----

  /** The run's completions carry positive timestamps, as the code gives them. */
  ghost predicate TimestampsPositive(evs: seq<Event>) {
    forall i :: 0 <= i < |evs| && evs[i].Completed? ==> evs[i].sig.ms > 0
  }

  ghost predicate CompletedAt(evs: seq<Event>, n: string, ms: int) {
    exists i :: 0 <= i < |evs| && evs[i].Completed? && evs[i].name == n && evs[i].sig.ms == ms
  }

  ghost predicate TimesComeFrom(cs: seq<Gauge.Check>, evs: seq<Event>, n: string) {
    forall k :: 0 <= k < |cs| ==> CompletedAt(evs, n, cs[k].ms)
  }

  lemma TimesComeFromMore(cs: seq<Gauge.Check>, evs: seq<Event>, ev: Event, n: string)
    requires TimesComeFrom(cs, evs, n)
    ensures TimesComeFrom(cs, evs + [ev], n)
  {
    forall k | 0 <= k < |cs| ensures CompletedAt(evs + [ev], n, cs[k].ms) {
      assert CompletedAt(evs, n, cs[k].ms);
      var i :| 0 <= i < |evs| && evs[i].Completed? && evs[i].name == n && evs[i].sig.ms == cs[k].ms;
      assert (evs + [ev])[i] == evs[i];
    }
  }

  lemma ChecksOfCall(l: Gauge.Limits, ops: seq<Gauge.Op>, ms: int)
    ensures Gauge.Checks(l, ops + [Gauge.Began]) == Gauge.Checks(l, ops + [Gauge.Ended]) == Gauge.Checks(l, ops)
    ensures Gauge.Checks(l, ops + [Gauge.Ended] + [Gauge.Checked(ms)]) ==
            Gauge.Checks(l, ops) + [Gauge.Check(ms, Gauge.AtThreshold(l, ops + [Gauge.Ended]))]
  {
    var ended := ops + [Gauge.Ended];
    assert ended[..|ops|] == ops && (ops + [Gauge.Began])[..|ops|] == ops;
    assert (ended + [Gauge.Checked(ms)])[..|ended|] == ended;
  }

  lemma NextTime(cs: seq<Gauge.Check>, evs: seq<Event>, ev: Event, met: bool)
    requires ev.Completed? && TimestampsInOrder(evs + [ev]) && TimestampsPositive(evs + [ev])
    requires Gauge.Ascending(cs) && TimesComeFrom(cs, evs, ev.name)
    ensures var cs' := cs + [Gauge.Check(ev.sig.ms, met)];
            Gauge.Ascending(cs') && TimesComeFrom(cs', evs + [ev], ev.name)
  {
    var all := evs + [ev];
    assert all[|evs|] == ev;
    forall k | 0 <= k < |cs| ensures cs[k].ms <= ev.sig.ms {
      assert CompletedAt(evs, ev.name, cs[k].ms);
      var i :| 0 <= i < |evs| && evs[i].Completed? && evs[i].name == ev.name && evs[i].sig.ms == cs[k].ms;
      assert all[i] == evs[i];
    }
    TimesComeFromMore(cs, evs, ev, ev.name);
    assert CompletedAt(all, ev.name, ev.sig.ms);
  }

  lemma CallKeepsAscending(l: Gauge.Limits, ops: seq<Gauge.Op>, evs: seq<Event>, ev: Event, r: Option<FlushReason>, n: string)
    requires ev.Touches(n) && TimestampsInOrder(evs + [ev]) && TimestampsPositive(evs + [ev])
    requires Gauge.Ascending(Gauge.Checks(l, ops)) && TimesComeFrom(Gauge.Checks(l, ops), evs, n)
    ensures var cs := Gauge.Checks(l, ops + OpsOfCall(ev, r));
            Gauge.Ascending(cs) && TimesComeFrom(cs, evs + [ev], n)
  {
    hide Gauge.After;
    hide Gauge.Checks;
    hide TimesComeFrom;
    hide Gauge.Ascending;
    hide TimestampsInOrder;
    hide TimestampsPositive;
    var ms := if ev.Completed? then ev.sig.ms else 0;
    ChecksOfCall(l, ops, ms);
    TimesComeFromMore(Gauge.Checks(l, ops), evs, ev, n);
    assert [Gauge.Ended] + [] == [Gauge.Ended];
    assert ops + ([Gauge.Ended] + [Gauge.Checked(ms)]) == ops + [Gauge.Ended] + [Gauge.Checked(ms)];
    if ev.Completed? {
      NextTime(Gauge.Checks(l, ops), evs, ev, Gauge.AtThreshold(l, ops + [Gauge.Ended]));
    }
  }

  /** The in-flight checks of a residence carry the run's timestamps, in order. */
  lemma {:induction false} ChecksAscend(cfg: Config, evs: seq<Event>, how: Judging, n: string)
    requires cfg.Valid() && TimestampsInOrder(evs) && TimestampsPositive(evs)
    ensures var cs := Gauge.Checks(cfg.limits, OpsOf(cfg, evs, how, n));
            Gauge.Ascending(cs) && TimesComeFrom(cs, evs, n)
  {
    hide Step;
    hide After;
    hide Gauge.Checks;
    hide TimesComeFrom;
    hide Gauge.Ascending;
    hide OpsOfCall;
    NothingChecked(cfg.limits, evs[..if evs == [] then 0 else |evs| - 1], n);
    if evs != [] {
      var before, ev := evs[..|evs| - 1], evs[|evs| - 1];
      var e := After(cfg, before, how);
      ChecksAscend(cfg, before, how, n);
      assert before + [ev] == evs;
      var ops := if n in e.services then OpsOf(cfg, before, how, n) else [];
      if ev.Touches(n) {
        CallKeepsAscending(cfg.limits, ops, before, ev, Step(cfg, e, ev, how).reason, n);
      } else {
        TimesComeFromMore(Gauge.Checks(cfg.limits, ops), before, ev, n);
      }
    }
  }

  lemma NothingChecked(l: Gauge.Limits, evs: seq<Event>, n: string)
    ensures Gauge.Ascending(Gauge.Checks(l, [])) && TimesComeFrom(Gauge.Checks(l, []), evs, n)
  {
  }

  /** A completion that reaches the pile-up check adds it to the operations of the residence. */
  lemma ReachedCheck(cfg: Config, evs: seq<Event>, ev: Event, how: Judging)
    requires cfg.Valid() && ev.Completed? && ev.Touches(ev.name)
    requires !CutBeforeGauge(Step(cfg, After(cfg, evs, how), ev, how).reason)
    ensures OpsOf(cfg, evs + [ev], how, ev.name) == OpsBeforeCheck(cfg, evs, how, ev.name) + [Gauge.Checked(ev.sig.ms)]
  {
    hide Step;
    hide After;
    hide OpsOf;
    OpsOfNext(cfg, evs, ev, how, ev.name);
    var ops := if ev.name in After(cfg, evs, how).services then OpsOf(cfg, evs, how, ev.name) else [];
    assert ops + ([Gauge.Ended] + [Gauge.Checked(ev.sig.ms)]) == ops + [Gauge.Ended] + [Gauge.Checked(ev.sig.ms)];
  }

  lemma SeverityAfterCheck(l: Gauge.Limits, ops: seq<Gauge.Op>, ms: int)
    ensures Gauge.After(l, ops + [Gauge.Checked(ms)]).severity == Gauge.After(l, ops).NextSeverity(l, ms)
  {
    hide Gauge.Gauge.NextSeverity;
    assert (ops + [Gauge.Checked(ms)])[..|ops|] == ops;
  }

  /** In any run with positive timestamps that never go back within a service, after a completion that reaches the
      pile-up check the severity the service remembers is at least mild (severe) if and only if every in-flight
      evaluation of its residence, since one at least the mild (severe) hold time earlier, found it at its threshold. */
  lemma PileUpSeverityIffHeld(cfg: Config, evs: seq<Event>, ev: Event, how: Judging)
    requires cfg.Valid() && ev.Completed? && ev.Touches(ev.name)
    requires !CutBeforeGauge(Step(cfg, After(cfg, evs, how), ev, how).reason)
    requires TimestampsInOrder(evs + [ev]) && TimestampsPositive(evs + [ev])
    ensures ev.name in After(cfg, evs + [ev], how).services
    ensures var now := After(cfg, evs + [ev], how).services[ev.name].gauge.severity;
            var cs := Gauge.Checks(cfg.limits, OpsOf(cfg, evs + [ev], how, ev.name));
            && (now != Calm <==>
                exists k: nat :: Gauge.MetSince(cs, k) && ev.sig.ms - cs[k].ms >= 1000 * cfg.limits.mildHoldSecs)
            && (now == Severe <==>
                exists k: nat :: Gauge.MetSince(cs, k) && ev.sig.ms - cs[k].ms >= 1000 * cfg.limits.severeHoldSecs)
  {
    hide Step;
    hide OpsOf;
    hide OpsBeforeCheck;
    hide Gauge.After;
    hide Gauge.Checks;
    hide Gauge.Gauge.NextSeverity;
    hide TimestampsInOrder;
    hide TimestampsPositive;
    var l, ops := cfg.limits, OpsBeforeCheck(cfg, evs, how, ev.name);
    CompletionStaysResident(cfg, evs, ev, how);
    GaugeIsItsResidence(cfg, evs + [ev], how, ev.name);
    hide After;
    ReachedCheck(cfg, evs, ev, how);
    ChecksAscend(cfg, evs + [ev], how, ev.name);
    SeverityAfterCheck(l, ops, ev.sig.ms);
    Gauge.PileUpIffHeld(l, ops, ev.sig.ms);
  }

  lemma CompletionStaysResident(cfg: Config, evs: seq<Event>, ev: Event, how: Judging)
    requires cfg.Valid() && ev.Completed? && ev.Touches(ev.name)
    ensures ev.name in After(cfg, evs + [ev], how).services
  {
    hide CompleteBy;
    assert (evs + [ev])[..|evs|] == evs;
  }

  // ---- the threshold ----

  lemma {:induction false} AppliedRises(l: Gauge.Limits, g: Gauge.Gauge, ops: seq<Gauge.Op>)
    requires l.Valid() && Gauge.Sane(g)
    ensures Gauge.Sane(Applied(l, g, ops)) && g.Threshold(l) <= Applied(l, g, ops).Threshold(l)
  {
    if ops != [] {
      var before := Applied(l, g, ops[..|ops| - 1]);
      AppliedRises(l, g, ops[..|ops| - 1]);
      hide Gauge.Apply;
      hide Gauge.Sane;
      hide Gauge.Gauge.Threshold;
      Gauge.BaselineRises(l, before, ops[|ops| - 1]);
      Gauge.ThresholdRises(l, before, ops[|ops| - 1]);
    }
  }

  /** While a service stays resident, whatever the calls on it and on others, its adaptive threshold never falls. */
  lemma {:induction false} ThresholdNeverFallsWhileResident(cfg: Config, evs: seq<Event>, more: seq<Event>, how: Judging, n: string)
    requires cfg.Valid()
    requires forall k :: 0 <= k <= |more| ==> n in After(cfg, evs + more[..k], how).services
    ensures n in After(cfg, evs, how).services && n in After(cfg, evs + more, how).services
    ensures After(cfg, evs, how).services[n].gauge.Threshold(cfg.limits) <=
            After(cfg, evs + more, how).services[n].gauge.Threshold(cfg.limits)
    decreases |more|
  {
    hide Step;
    hide After;
    hide Gauge.Gauge.Threshold;
    assert more[..|more|] == more && evs + more[..0] == evs;
    if more != [] {
      var before, ev := more[..|more| - 1], more[|more| - 1];
      assert forall k :: 0 <= k <= |before| ==> before[..k] == more[..k];
      assert n in After(cfg, evs + more[..|more|], how).services && n in After(cfg, evs + more[..|more| - 1], how).services;
      ThresholdNeverFallsWhileResident(cfg, evs, before, how, n);
      ResidentGaugesAreSane(cfg, evs + before, how, n);
      AfterNext(cfg, evs + before, ev, how);
      assert evs + more == evs + before + [ev];
      StepRaisesThreshold(cfg, After(cfg, evs + before, how), ev, how, n);
    }
  }

  lemma AfterNext(cfg: Config, evs: seq<Event>, ev: Event, how: Judging)
    requires cfg.Valid()
    ensures After(cfg, evs + [ev], how) == Step(cfg, After(cfg, evs, how), ev, how).engine
  {
    assert (evs + [ev])[..|evs|] == evs;
  }

  lemma StepRaisesThreshold(cfg: Config, e: Engine, ev: Event, how: Judging, n: string)
    requires cfg.Valid() && n in e.services && n in Step(cfg, e, ev, how).engine.services
    requires Gauge.Sane(e.services[n].gauge)
    ensures e.services[n].gauge.Threshold(cfg.limits) <= Step(cfg, e, ev, how).engine.services[n].gauge.Threshold(cfg.limits)
  {
    hide Step;
    hide Applied;
    hide OpsOfCall;
    hide Gauge.Gauge.Threshold;
    StepAndGauge(cfg, e, ev, how, n);
    AppliedRises(cfg.limits, e.services[n].gauge, OpsOfCall(ev, Step(cfg, e, ev, how).reason));
  }
}
