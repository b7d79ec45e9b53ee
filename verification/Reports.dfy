/** Which trigger reports a completion, told from what each trigger should show: the share of
    hits against the two bars, without a rate, a transition table or an early return. */
module Reports {
  import opened Options
  import opened Severity
  import opened ServiceModel
  import opened Starvation
  import SlidingWindow
  import Gauge

  /** Enough samples, and the share of hits is at or over the bar. */
  predicate Meets(t: SlidingWindow.Tally, minSamples: int, bar: real) {
    t.total >= minSamples && t.hits as real >= bar * t.total as real
  }

  /** The rank these counts call for: one for each bar they meet. */
  function RateRank(t: SlidingWindow.Tally, minSamples: int, mild: real, high: real): nat {
    (if Meets(t, minSamples, mild) then 1 else 0) + if Meets(t, minSamples, high) then 1 else 0
  }

  /** The rank the `i`th trigger, in evaluation order, should show now. */
  function Due(cfg: Config, s: Service, t: Tallies, ms: int, i: nat): nat {
    match i
    case 0 => RateRank(t.errors, cfg.minSamples, cfg.errorLow, cfg.errorHigh)
    case 1 => RateRank(t.slow, cfg.minSamples, cfg.slowMild, cfg.slowHigh)
    case 2 => RateRank(t.retries, cfg.minSamples, cfg.retryMild, cfg.retryHigh)
    case _ => s.gauge.NextSeverity(cfg.limits, ms).Rank()
  }

  /** The share of hits meets a bar exactly if the rate does. */
  lemma RateMeetsBar(hits: int, total: int, bar: real)
    requires total > 0
    ensures hits as real / total as real >= bar <==> hits as real >= bar * total as real
  {
    var rate := hits as real / total as real;
    assert rate * total as real == hits as real;
    if rate >= bar {
      assert rate * total as real >= bar * total as real;
    } else {
      assert rate * total as real < bar * total as real;
    }
  }

  /** One rate trigger shows the rank its counts call for and fires exactly when that is a rise;
      then the rate it reports is at or over the threshold it reports. */
  lemma RateCheckShowsItsRank(t: SlidingWindow.Tally, minSamples: int, mild: real, high: real, prev: Severity)
    requires minSamples > 0 && mild <= high
    ensures var c, due := CheckRate(t, minSamples, mild, high, prev), RateRank(t, minSamples, mild, high);
            && c.severity.Rank() == due
            && (c.fires <==> prev.Rank() < due)
            && (c.fires ==> t.total >= minSamples && c.rate * t.total as real == t.hits as real && c.rate >= c.threshold &&
                            c.threshold == if due == 2 then high else mild)
  {
    if t.total >= minSamples {
      RateMeetsBar(t.hits, t.total, mild);
      RateMeetsBar(t.hits, t.total, high);
    }
  }

  function TallyOf(t: Tallies, i: nat): SlidingWindow.Tally {
    if i == 0 then t.errors else if i == 1 then t.slow else t.retries
  }

  function BarOf(cfg: Config, i: nat, severity: Severity): real {
    match i
    case 0 => if severity == Severe then cfg.errorHigh else cfg.errorLow
    case 1 => if severity == Severe then cfg.slowHigh else cfg.slowMild
    case _ => if severity == Severe then cfg.retryHigh else cfg.retryMild
  }

  /** What a report of trigger `i` says: for a rate, the share of hits and the bar of its severity; for a pile-up, the
      number in flight and the larger of the absolute minimum and the multiple of the mean rounded down. */
  ghost predicate SaysWhatItSaw(cfg: Config, g: Gauge.Gauge, t: Tallies, i: nat, r: FlushReason) {
    if i < 3 then
      && r.observed * TallyOf(t, i).total as real == TallyOf(t, i).hits as real
      && TallyOf(t, i).total >= cfg.minSamples
      && r.threshold == BarOf(cfg, i, r.severity)
    else
      r.observed == g.current as real &&
      (g.ewma >= 0.0 ==>
         var x := g.ewma * cfg.limits.multiplier;
         && r.threshold >= cfg.limits.minAbsolute as real && r.threshold > x - 1.0
         && (r.threshold == cfg.limits.minAbsolute as real || r.threshold <= x))
  }

  /** Trigger `i`, judged on its own, shows its due rank, reports exactly a rise, and leaves the others alone. */
  ghost predicate Shows(cfg: Config, name: string, s: Service, t: Tallies, ms: int, i: nat, a: Answer)
    requires i < 4
  {
    && (a.reason.Some? <==> RankOf(s, i) < Due(cfg, s, t, ms, i))
    && (a.reason.Some? ==>
          var r := a.reason.value;
          && r.trigger.Index() == i && r.severity.Rank() == Due(cfg, s, t, ms, i)
          && r.service == name && r.firedAtMs == ms && r.observed >= r.threshold && SaysWhatItSaw(cfg, s.gauge, t, i, r))
    && RankOf(a.service, i) == Due(cfg, s, t, ms, i)
    && (forall j :: 0 <= j < 4 && j != i ==> RankOf(a.service, j) == RankOf(s, j))
    && (i < 3 ==> a.service.gauge == s.gauge)
  }

  lemma RatesShow(cfg: Config, name: string, s: Service, t: Tallies, ms: int)
    requires cfg.Valid()
    ensures Shows(cfg, name, s, t, ms, 0, JudgeErrors(cfg, name, s, t.errors, ms))
    ensures Shows(cfg, name, s, t, ms, 1, JudgeSlow(cfg, name, s, t.slow, ms))
    ensures Shows(cfg, name, s, t, ms, 2, JudgeRetries(cfg, name, s, t.retries, ms))
  {
    hide CheckRate;
    hide RateRank;
    RateCheckShowsItsRank(t.errors, cfg.minSamples, cfg.errorLow, cfg.errorHigh, s.errors);
    RateCheckShowsItsRank(t.slow, cfg.minSamples, cfg.slowMild, cfg.slowHigh, s.slow);
    RateCheckShowsItsRank(t.retries, cfg.minSamples, cfg.retryMild, cfg.retryHigh, s.retries);
  }

  lemma PileUpShows(cfg: Config, name: string, s: Service, t: Tallies, ms: int)
    requires cfg.Valid()
    ensures Shows(cfg, name, s, t, ms, 3, JudgeInFlight(cfg, name, s, ms))
  {
    if s.gauge.ewma >= 0.0 { Gauge.ThresholdIsTheLarger(cfg.limits, s.gauge); }
    hide Gauge.Gauge.Threshold;
    hide Gauge.Gauge.NextEwma;
    EmissionIsAStrictRise(s.gauge.severity, s.gauge.NextSeverity(cfg.limits, ms));
  }

  /** The trigger that reports: the first whose due rank is over the one it remembers; four if none is. */
  function FirstRise(cfg: Config, s: Service, t: Tallies, ms: int, i: nat): (k: nat)
    requires i <= 4
    ensures i <= k <= 4
    ensures forall j :: i <= j < k ==> Due(cfg, s, t, ms, j) <= RankOf(s, j)
    ensures k < 4 ==> RankOf(s, k) < Due(cfg, s, t, ms, k)
    decreases 4 - i
  {
    if i == 4 || RankOf(s, i) < Due(cfg, s, t, ms, i) then i else FirstRise(cfg, s, t, ms, i + 1)
  }

  /** A completion is reported by the first trigger, in order, whose due rank is over the one it remembers, with that
      rank, and by none if there is no such trigger. The triggers up to that one then remember their due rank; the ones
      after it keep what they remembered. */
  lemma FirstRiseIsReported(cfg: Config, name: string, s: Service, t: Tallies, ms: int)
    requires cfg.Valid()
    ensures var a, k := Judge(cfg, name, s, t, ms), FirstRise(cfg, s, t, ms, 0);
            && (a.reason.Some? <==> k < 4)
            && (a.reason.Some? ==>
                  var r := a.reason.value;
                  && r.trigger.Index() == k && r.severity.Rank() == Due(cfg, s, t, ms, k)
                  && r.service == name && r.firedAtMs == ms && r.observed >= r.threshold && SaysWhatItSaw(cfg, s.gauge, t, k, r))
            && forall j :: 0 <= j < 4 ==> RankOf(a.service, j) == if j <= k then Due(cfg, s, t, ms, j) else RankOf(s, j)
  {
    hide SaysWhatItSaw;
    hide JudgeErrors;
    hide JudgeSlow;
    hide JudgeRetries;
    hide JudgeInFlight;
    hide RateRank;
    hide RankOf;
    hide Gauge.Gauge.NextSeverity;
    RatesShow(cfg, name, s, t, ms);
    var s1 := JudgeErrors(cfg, name, s, t.errors, ms).service;
    RatesShow(cfg, name, s1, t, ms);
    var s2 := JudgeSlow(cfg, name, s1, t.slow, ms).service;
    RatesShow(cfg, name, s2, t, ms);
    PileUpShows(cfg, name, JudgeRetries(cfg, name, s2, t.retries, ms).service, t, ms);
    assert FirstRise(cfg, s, t, ms, 3) == if RankOf(s, 3) < Due(cfg, s, t, ms, 3) then 3 else FirstRise(cfg, s, t, ms, 4);
    assert FirstRise(cfg, s, t, ms, 2) == if RankOf(s, 2) < Due(cfg, s, t, ms, 2) then 2 else FirstRise(cfg, s, t, ms, 3);
    assert FirstRise(cfg, s, t, ms, 1) == if RankOf(s, 1) < Due(cfg, s, t, ms, 1) then 1 else FirstRise(cfg, s, t, ms, 2);
  }
}
