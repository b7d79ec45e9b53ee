/** How long the early returns of `OnRequestComplete` can keep a later trigger unchecked. */
module Starvation {
  import opened Options
  import opened Severity
  import opened ServiceModel
  import opened EvaluatorModel
  import opened Recount
  import SlidingWindow
  import Gauge

  function Pow3(k: nat): nat {
    if k == 0 then 1 else 3 * Pow3(k - 1)
  }

  /** The severity rank of the `i`th trigger in evaluation order. */
  function RankOf(s: Service, i: nat): (r: nat)
    requires i < 4
    ensures r <= 2
  {
    match i
    case 0 => s.errors.Rank()
    case 1 => s.slow.Rank()
    case 2 => s.retries.Rank()
    case _ => s.gauge.severity.Rank()
  }

  /** `rank` times the weight of its digit. */
  function Digit(rank: nat, weight: nat): nat
    requires rank <= 2
  {
    if rank == 0 then 0 else if rank == 1 then weight else 2 * weight
  }

  /** The first `k` ranks read as a ternary number, the last of them the most significant. */
  function Potential(s: Service, k: nat): nat
    requires k <= 4
  {
    if k == 0 then 0 else Potential(s, k - 1) + Digit(RankOf(s, k - 1), Pow3(k - 1))
  }

  lemma {:induction false} PotentialIsTernary(s: Service, k: nat)
    requires k <= 4
    ensures Potential(s, k) <= Pow3(k) - 1
  {
    if k > 0 {
      PotentialIsTernary(s, k - 1);
    }
  }

  /** One of the first `k` triggers fired, so the ones after it were not looked at. */
  predicate FiredBefore(r: Option<FlushReason>, k: nat) {
    r.Some? && r.value.trigger.Index() < k
  }

  lemma CheckRateRises(c: RateCheck, t: SlidingWindow.Tally, minSamples: int, mild: real, high: real, prev: Severity)
    requires minSamples > 0 && c == CheckRate(t, minSamples, mild, high, prev)
    ensures c.fires <==> prev.Rank() < c.severity.Rank()
  {
  }

  /** When the `i`th trigger fires its rank rises, and the ranks of the later ones stay. */
  lemma FiringRaisesOneRank(cfg: Config, name: string, s: Service, t: Tallies, ms: int)
    requires cfg.Valid()
    ensures var a := Judge(cfg, name, s, t, ms);
            a.reason.Some? ==>
              var i := a.reason.value.trigger.Index();
              && RankOf(s, i) < RankOf(a.service, i)
              && a.reason.value.severity.Rank() == RankOf(a.service, i)
              && forall j :: i < j < 4 ==> RankOf(a.service, j) == RankOf(s, j)
  {
    hide CheckRate;
    hide Gauge.Gauge.NextSeverity;
    hide Gauge.Gauge.NextEwma;
    hide Gauge.Gauge.NextConditionAt;
    hide Gauge.Gauge.Threshold;
    CheckRateRises(CheckRate(t.errors, cfg.minSamples, cfg.errorLow, cfg.errorHigh, s.errors),
                   t.errors, cfg.minSamples, cfg.errorLow, cfg.errorHigh, s.errors);
    CheckRateRises(CheckRate(t.slow, cfg.minSamples, cfg.slowMild, cfg.slowHigh, s.slow),
                   t.slow, cfg.minSamples, cfg.slowMild, cfg.slowHigh, s.slow);
    CheckRateRises(CheckRate(t.retries, cfg.minSamples, cfg.retryMild, cfg.retryHigh, s.retries),
                   t.retries, cfg.minSamples, cfg.retryMild, cfg.retryHigh, s.retries);
    EmissionIsAStrictRise(s.gauge.severity, s.gauge.NextSeverity(cfg.limits, ms));
  }

  /** A rise at digit `i` outweighs any fall below it. */
  lemma {:induction false} HigherDigitWins(s: Service, s': Service, i: nat, k: nat)
    requires i < k <= 4 && RankOf(s, i) < RankOf(s', i)
    requires forall j :: i < j < k ==> RankOf(s', j) == RankOf(s, j)
    ensures Potential(s, k) < Potential(s', k)
  {
    if k == i + 1 {
      PotentialIsTernary(s, i);
    } else {
      HigherDigitWins(s, s', i, k - 1);
    }
  }

  // ---- runs of the evaluator ----

  ghost function Completions(evs: seq<Event>, n: string): nat {
    if evs == [] then 0
    else (if evs[0].Completed? && evs[0].name == n then 1 else 0) + Completions(evs[1..], n)
  }

  /** `n` stays resident, and each of its completions is cut short before trigger `k`. */
  ghost predicate CutShort(cfg: Config, e: Engine, evs: seq<Event>, how: Judging, n: string, k: nat)
    requires cfg.Valid()
    decreases |evs|
  {
    && n in e.services
    && (evs == [] ||
        var r := Step(cfg, e, evs[0], how);
        && (evs[0].Completed? && evs[0].name == n ==> FiredBefore(r.reason, k))
        && CutShort(cfg, r.engine, evs[1..], how, n, k))
  }

  lemma StepAndPotential(cfg: Config, e: Engine, ev: Event, how: Judging, n: string, k: nat)
    requires cfg.Valid() && e.Valid(cfg.maxServices) && n != "" && k <= 4
    requires n in e.services && n in Step(cfg, e, ev, how).engine.services
    requires ev.Completed? && ev.name == n ==> FiredBefore(Step(cfg, e, ev, how).reason, k)
    ensures var s, s' := e.services[n], Step(cfg, e, ev, how).engine.services[n];
            if ev.Completed? && ev.name == n then Potential(s, k) < Potential(s', k)
            else forall i :: 0 <= i < 4 ==> RankOf(s', i) == RankOf(s, i)
  {
    hide Judge;
    hide ViewOf;
    if ev.Completed? && ev.name == n {
      var r := Step(cfg, e, ev, how);
      var touched := e.services[n].(lastSeen := ev.now);
      var tallies := TalliesBy(how, touched.log + [ev.sig], SecondOf(ev.sig));
      assert Answer(r.engine.services[n], r.reason) == Judge(cfg, n, Logged(touched, ev.sig), tallies, ev.sig.ms);
      FiringRaisesOneRank(cfg, n, Logged(touched, ev.sig), tallies, ev.sig.ms);
      HigherDigitWins(Logged(touched, ev.sig), r.engine.services[n], r.reason.value.trigger.Index(), k);
      SameRanksSamePotential(e.services[n], Logged(touched, ev.sig), k);
    }
  }

  lemma {:induction false} SameRanksSamePotential(s: Service, s': Service, k: nat)
    requires k <= 4 && forall i :: 0 <= i < 4 ==> RankOf(s', i) == RankOf(s, i)
    ensures Potential(s, k) == Potential(s', k)
  {
    if k > 0 { SameRanksSamePotential(s, s', k - 1); }
  }

  lemma PowersOfThree(k: nat)
    requires k <= 4
    ensures Pow3(k) - 1 == [0, 2, 8, 26, 80][k]
  {
    assert Pow3(2) == 9 && Pow3(4) == 9 * Pow3(2);
  }

  /** Starvation bound: while a service stays resident, at most 3^k - 1 consecutive completions of it
      can stop before the `k`th trigger, whatever happens to other services in between.
      So the slow, retry and in-flight checks are skipped at most 2, 8 and 26 times in a row,
      and at most 80 completions in a row can all fire. */
  lemma {:induction false} StarvationBound(cfg: Config, e: Engine, evs: seq<Event>, how: Judging, n: string, k: nat)
    requires cfg.Valid() && e.Valid(cfg.maxServices) && n != "" && k <= 4
    requires CutShort(cfg, e, evs, how, n, k)
    ensures Completions(evs, n) + Potential(e.services[n], k) <= Pow3(k) - 1
    ensures Completions(evs, n) <= [0, 2, 8, 26, 80][k]
    decreases |evs|
  {
    hide Step;
    hide RankOf;
    hide Potential;
    hide Pow3;
    PotentialIsTernary(e.services[n], k);
    PowersOfThree(k);
    if evs != [] {
      var e' := Step(cfg, e, evs[0], how).engine;
      StepKeepsValid(cfg, e, evs[0], how);
      StepAndPotential(cfg, e, evs[0], how, n, k);
      if !(evs[0].Completed? && evs[0].name == n) {
        SameRanksSamePotential(e.services[n], e'.services[n], k);
      }
      StarvationBound(cfg, e', evs[1..], how, n, k);
    }
  }
}
