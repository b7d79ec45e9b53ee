/** One service as the four triggers see it: what its arrays, its mean and its retry table stand
    for after a log of completions, and how a completion is judged on the counts read from them.
    `Recount` says what all of that means in terms of the log alone. */
module ServiceModel {
  import opened Options
  import opened Severity
  import opened SlidingWindow
  import Baseline
  import RetryTable
  import Gauge

  datatype Kind = Other | Server | Client

  datatype Signal = Signal(kind: Kind, statusCode: int, durationNs: int, keyHash: nat, isRetry: Option<bool>, ms: nat)

  datatype Config = Config(
    errorHigh: real, errorLow: real,
    slowHigh: real, slowMild: real,
    retryHigh: real, retryMild: real,
    limits: Gauge.Limits,
    maxServices: int, serviceTtl: int, minSamples: int) {

    /** What config validation and `New` together establish. */
    predicate Valid() {
      && 0.0 < errorLow <= errorHigh <= 1.0
      && 0.0 < slowMild <= slowHigh <= 1.0
      && 0.0 < retryMild <= retryHigh <= 1.0
      && limits.Valid()
      && maxServices > 0 && serviceTtl > 0 && minSamples > 0
    }
  }

  datatype Trigger = ErrorRate5xx | SlowSuccessRate | RetryRate | InFlightPileup {
    function Index(): nat {
      match this case ErrorRate5xx => 0 case SlowSuccessRate => 1 case RetryRate => 2 case InFlightPileup => 3
    }
  }

  datatype FlushReason = FlushReason(service: string, trigger: Trigger, severity: Severity,
                                     observed: real, threshold: real, firedAtMs: int)

  // ---- what each completion counts for ----

  predicate IsServerError(s: Signal) { s.kind == Server && 500 <= s.statusCode < 600 }
  predicate IsSuccess(s: Signal) { s.kind == Server && 200 <= s.statusCode < 400 }

  function SecondOf(s: Signal): nat { s.ms / 1000 }

  function MarkOf(sec: nat, counted: bool, hit: bool): Mark {
    Mark(sec, if counted then 1 else 0, if counted && hit then 1 else 0)
  }

  /** What the state holds for a log of completions: what each counted for in the three rates when it
      arrived, the slow-success baseline, and the retry table. */
  datatype View = View(errors: seq<Mark>, successes: seq<Mark>, retries: seq<Mark>,
                       baseline: real, table: RetryTable.Table) {
    ghost predicate Sized() { |table.hash| == |table.lastSec| == RetryTable.SIZE }
  }

  ghost function Extend(v: View, s: Signal): (v': View)
    requires v.Sized()
    ensures v'.Sized()
  {
    var asked := RetryTable.Ask(v.table, s.isRetry, s.keyHash, s.ms);
    View(v.errors + [MarkOf(SecondOf(s), s.kind == Server, IsServerError(s))],
         v.successes + [MarkOf(SecondOf(s), IsSuccess(s), Baseline.IsSlow(v.baseline, s.durationNs))],
         v.retries + [MarkOf(SecondOf(s), s.kind == Client, asked.retry)],
         if IsSuccess(s) then Baseline.NextBaseline(v.baseline, s.durationNs) else v.baseline,
         if s.kind == Client then asked.table else v.table)
  }

  /** The whole log, read from its start. */
  ghost function ViewOf(log: seq<Signal>): (v: View)
    ensures v.Sized()
  {
    if log == [] then View([], [], [], 0.0, RetryTable.Empty())
    else Extend(ViewOf(log[..|log| - 1]), log[|log| - 1])
  }

  lemma LogGrows(log: seq<Signal>, s: Signal)
    ensures ViewOf(log + [s]) == Extend(ViewOf(log), s)
  {
  }

  /** The three counts an evaluation works from. */
  datatype Tallies = Tallies(errors: Tally, slow: Tally, retries: Tally)

  /** All of them, over [t-9, t]. */
  ghost function PlainTallies(v: View, t: int): Tallies {
    var lo := t - (WINDOW_SECONDS - 1);
    Tallies(PlainTally(v.errors, lo, t), PlainTally(v.successes, lo, t), PlainTally(v.retries, lo, t))
  }

  /** As above, without the completions whose bucket was taken over by another second. */
  ghost function LiveTallies(v: View, t: int): Tallies {
    var lo := t - (WINDOW_SECONDS - 1);
    Tallies(LiveTally(v.errors, lo, t), LiveTally(v.successes, lo, t), LiveTally(v.retries, lo, t))
  }

  // ---- the service ----

  datatype Service = Service(lastSeen: int, log: seq<Signal>,
                             errors: Severity, slow: Severity, retries: Severity, gauge: Gauge.Gauge)

  const NEW_SERVICE := Service(0, [], Calm, Calm, Calm, Gauge.IDLE)

  datatype RateCheck = RateCheck(severity: Severity, fires: bool, rate: real, threshold: real)

  /** One of the three rate triggers: too few samples reset it, otherwise a rise fires. */
  function CheckRate(t: Tally, minSamples: int, mild: real, high: real, prev: Severity): RateCheck
    requires minSamples > 0
  {
    if t.total < minSamples then RateCheck(Calm, false, 0.0, 0.0)
    else
      var rate := t.hits as real / t.total as real;
      var current := ClassifyTwoTier(rate, mild, high);
      RateCheck(current, ShouldEmitTransition(prev, current), rate, if current == Severe then high else mild)
  }

  datatype Answer = Answer(service: Service, reason: Option<FlushReason>)

  function Report(c: RateCheck, name: string, trigger: Trigger, ms: int): Option<FlushReason> {
    if c.fires then Some(FlushReason(name, trigger, c.severity, c.rate, c.threshold, ms)) else None
  }

  function JudgeErrors(cfg: Config, name: string, s: Service, t: Tally, ms: int): Answer
    requires cfg.Valid()
  {
    var c := CheckRate(t, cfg.minSamples, cfg.errorLow, cfg.errorHigh, s.errors);
    Answer(s.(errors := c.severity), Report(c, name, ErrorRate5xx, ms))
  }

  function JudgeSlow(cfg: Config, name: string, s: Service, t: Tally, ms: int): Answer
    requires cfg.Valid()
  {
    var c := CheckRate(t, cfg.minSamples, cfg.slowMild, cfg.slowHigh, s.slow);
    Answer(s.(slow := c.severity), Report(c, name, SlowSuccessRate, ms))
  }

  function JudgeRetries(cfg: Config, name: string, s: Service, t: Tally, ms: int): Answer
    requires cfg.Valid()
  {
    var c := CheckRate(t, cfg.minSamples, cfg.retryMild, cfg.retryHigh, s.retries);
    Answer(s.(retries := c.severity), Report(c, name, RetryRate, ms))
  }

  function JudgeInFlight(cfg: Config, name: string, s: Service, ms: int): Answer
    requires cfg.Valid()
  {
    var g := s.gauge.Evaluate(cfg.limits, ms);
    Answer(s.(gauge := g),
           if s.gauge.Fires(cfg.limits, ms)
           then Some(FlushReason(name, InFlightPileup, g.severity, g.current as real,
                                 s.gauge.Threshold(cfg.limits) as real, ms))
           else None)
  }

  /** The four triggers in order, stopping at the first that fires. */
  function Judge(cfg: Config, name: string, s: Service, t: Tallies, ms: int): Answer
    requires cfg.Valid()
  {
    var a := JudgeErrors(cfg, name, s, t.errors, ms);
    if a.reason.Some? then a
    else
      var b := JudgeSlow(cfg, name, a.service, t.slow, ms);
      if b.reason.Some? then b
      else
        var c := JudgeRetries(cfg, name, b.service, t.retries, ms);
        if c.reason.Some? then c else JudgeInFlight(cfg, name, c.service, ms)
  }

  function Begin(s: Service): Service { s.(gauge := s.gauge.Start()) }

  /** The service once a completion has been logged and taken off the gauge, before any trigger is checked. */
  function Logged(s: Service, sig: Signal): Service {
    s.(log := s.log + [sig], gauge := s.gauge.Finish())
  }

  /** A completion, judged on what the buckets still hold. */
  ghost function Complete(cfg: Config, name: string, s: Service, sig: Signal): Answer
    requires cfg.Valid()
  {
    Judge(cfg, name, Logged(s, sig), LiveTallies(ViewOf(s.log + [sig]), SecondOf(sig)), sig.ms)
  }

  ghost predicate InOrder(log: seq<Signal>) {
    forall i, j :: 0 <= i < j < |log| ==> log[i].ms <= log[j].ms
  }

  /** The marks carry the seconds of the completions, one each. */
  ghost predicate SecondsOf(marks: seq<Mark>, log: seq<Signal>) {
    |marks| == |log| && forall i :: 0 <= i < |log| ==> marks[i].sec == SecondOf(log[i])
  }

  lemma {:induction false} ViewKeepsSeconds(log: seq<Signal>)
    ensures var v := ViewOf(log);
            SecondsOf(v.errors, log) && SecondsOf(v.successes, log) && SecondsOf(v.retries, log)
  {
    if log != [] { ViewKeepsSeconds(log[..|log| - 1]); }
  }

  lemma InOrderMarksAreExact(log: seq<Signal>, marks: seq<Mark>, t: int)
    requires InOrder(log) && log != [] && t == SecondOf(log[|log| - 1]) && SecondsOf(marks, log)
    ensures LiveTally(marks, t - (WINDOW_SECONDS - 1), t) == PlainTally(marks, t - (WINDOW_SECONDS - 1), t)
  {
    assert forall i, j :: 0 <= i < j < |log| ==> SecondOf(log[i]) <= SecondOf(log[j]);
    BoundedReorderingIsExact(marks, t);
  }

  lemma InOrderTalliesAgree(log: seq<Signal>, v: View, t: int)
    requires InOrder(log) && log != [] && t == SecondOf(log[|log| - 1])
    requires SecondsOf(v.errors, log) && SecondsOf(v.successes, log) && SecondsOf(v.retries, log)
    ensures LiveTallies(v, t) == PlainTallies(v, t)
  {
    InOrderMarksAreExact(log, v.errors, t);
    InOrderMarksAreExact(log, v.successes, t);
    InOrderMarksAreExact(log, v.retries, t);
  }

  /** The three windows of a service always carry the same seconds, bucket by bucket. */
  lemma WindowsShareSeconds(log: seq<Signal>, b: nat)
    ensures var v := ViewOf(log);
            LastSec(v.errors, b) == LastSec(v.successes, b) == LastSec(v.retries, b)
  {
    ViewKeepsSeconds(log);
    SameSecondsSameBuckets(ViewOf(log).errors, ViewOf(log).successes, b);
    SameSecondsSameBuckets(ViewOf(log).successes, ViewOf(log).retries, b);
  }
}
