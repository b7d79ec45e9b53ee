/** Go's serviceState: scalars, three bucketed windows and the retry table, updated in
    place. The ghost field `log` holds every completion since the state was created, and
    each method is specified by what the log model says. */
module ServiceState {
  import opened Options
  import opened Severity
  import opened SlidingWindow
  import opened ServiceModel
  import Baseline
  import RetryTable
  import Gauge

  /** The newest arrival is `sig`, not counted yet. */
  ghost predicate Rolled(marks: seq<Mark>, sig: Signal) {
    marks != [] && marks[|marks| - 1] == Mark(SecondOf(sig), 0, 0)
  }

  ghost function Filled(marks: seq<Mark>, sig: Signal, counted: bool, hit: bool): seq<Mark>
    requires Rolled(marks, sig)
  {
    marks[..|marks| - 1] + [MarkOf(SecondOf(sig), counted, hit)]
  }

  lemma FilledAfterRoll(marks: seq<Mark>, sig: Signal)
    ensures var rolled := marks + [Mark(SecondOf(sig), 0, 0)];
            Rolled(rolled, sig) &&
            forall counted, hit :: Filled(rolled, sig, counted, hit) == marks + [MarkOf(SecondOf(sig), counted, hit)]
  {
  }

  class State {
    var lastSeen: int

    var inFlightCurrent: int
    var inFlightPeak: int
    var inFlightEwma: real
    var inFlightConditionAt: int
    var lastInFlightSev: Severity

    const errorWindow: CountingWindow
    const successWindow: CountingWindow
    var ewmaNs: real
    const retryWindow: CountingWindow

    var lastErrSev: Severity
    var lastSlowSev: Severity
    var lastRetrySev: Severity

    const retryTable: RetryTable.RetryCells

    ghost var log: seq<Signal>
    ghost const Repr: set<object>

    ghost predicate Shape() {
      && Repr == {this} + errorWindow.Repr + successWindow.Repr + retryWindow.Repr + retryTable.Repr
      && this !in errorWindow.Repr + successWindow.Repr + retryWindow.Repr + retryTable.Repr
      && errorWindow.Repr !! successWindow.Repr !! retryWindow.Repr !! retryTable.Repr
      && errorWindow.Shape() && successWindow.Shape() && retryWindow.Shape() && retryTable.Valid()
    }

    ghost predicate Valid()
      reads Repr
      ensures Valid() ==> this in Repr
    {
      this in Repr && Shape() && Consistent()
    }

    /** Reads the log, the baseline and the arrays, but no severity and no gauge field. */
    ghost predicate Consistent()
      reads this`log, this`ewmaNs, errorWindow.Repr, successWindow.Repr, retryWindow.Repr, retryTable.Repr
      requires Shape()
    {
      && Windows()
      && Parts() == ViewOf(log)
    }

    ghost predicate Windows()
      reads errorWindow.Repr, successWindow.Repr, retryWindow.Repr
      requires Shape()
    {
      errorWindow.Valid() && successWindow.Valid() && retryWindow.Valid()
    }

    /** What the arrays and the baseline stand for. */
    ghost function Parts(): View
      reads this`ewmaNs, errorWindow.Repr, successWindow.Repr, retryWindow.Repr, retryTable.Repr
      requires Shape()
    {
      View(errorWindow.marks, successWindow.marks, retryWindow.marks, ewmaNs, retryTable.Contents())
    }

    ghost function CurrentGauge(): Gauge.Gauge
      reads this
    {
      Gauge.Gauge(inFlightCurrent, inFlightPeak, inFlightEwma, inFlightConditionAt, lastInFlightSev)
    }

    ghost function Model(): Service
      reads this
    {
      Service(lastSeen, log, lastErrSev, lastSlowSev, lastRetrySev, CurrentGauge())
    }

    constructor ()
      ensures Valid() && fresh(Repr) && Model() == NEW_SERVICE
    {
      var e := new CountingWindow();
      var s := new CountingWindow();
      var r := new CountingWindow();
      var t := new RetryTable.RetryCells();
      errorWindow, successWindow, retryWindow, retryTable := e, s, r, t;
      lastSeen := 0;
      inFlightCurrent, inFlightPeak, inFlightEwma, inFlightConditionAt := 0, 0, 0.0, 0;
      lastInFlightSev, lastErrSev, lastSlowSev, lastRetrySev := Calm, Calm, Calm, Calm;
      ewmaNs := 0.0;
      log := [];
      Repr := {this} + e.Repr + s.Repr + r.Repr + t.Repr;
    }

    method See(now: int)
      requires Valid()
      modifies this
      ensures Valid() && Model() == old(Model()).(lastSeen := now)
    {
      lastSeen := now;
    }

    /** OnRequestStart's part. */
    method Begin()
      requires Valid()
      modifies this
      ensures Valid() && Model() == ServiceModel.Begin(old(Model()))
    {
      inFlightCurrent := inFlightCurrent + 1;
      if inFlightCurrent > inFlightPeak {
        inFlightPeak := inFlightCurrent;
      }
    }

    /** OnRequestComplete's part: the arrays answer as a log of every completion would. */
    method Complete(cfg: Config, service: string, sig: Signal) returns (r: Option<FlushReason>)
      requires Valid() && cfg.Valid()
      modifies Repr
      ensures Valid() && Answer(Model(), r) == ServiceModel.Complete(cfg, service, old(Model()), sig)
    {
      hide Judge;
      hide LiveTallies;
      hide ViewOf;
      hide Extend;
      hide Consistent;
      ghost var logged := Logged(Model(), sig);
      if inFlightCurrent > 0 {
        inFlightCurrent := inFlightCurrent - 1;
      }
      Log(sig);
      assert Model() == logged;
      r := Evaluate(cfg, sig.ms, service);
    }

    /** The four triggers in order, stopping at the first that fires. */
    method Evaluate(cfg: Config, nowMs: nat, service: string) returns (r: Option<FlushReason>)
      requires Shape() && Windows() && cfg.Valid()
      modifies this`lastErrSev, this`lastSlowSev, this`lastRetrySev
      modifies this`inFlightConditionAt, this`inFlightEwma, this`lastInFlightSev
      ensures Answer(Model(), r) == Judge(cfg, service, old(Model()), LiveTallies(Parts(), nowMs / 1000), nowMs)
    {
      r := Evaluate5xx(cfg, nowMs, service);
      if r.Some? { return; }
      r := EvaluateSlowSuccess(cfg, nowMs, service);
      if r.Some? { return; }
      r := EvaluateRetry(cfg, nowMs, service);
      if r.Some? { return; }
      r := EvaluateInFlight(cfg, nowMs, service);
    }

    method AdvanceBucket(bucket: nat, sec: nat)
      requires Shape() && errorWindow.Valid() && successWindow.Valid() && retryWindow.Valid()
      requires bucket == sec % BUCKETS
      modifies errorWindow.Repr, successWindow.Repr, retryWindow.Repr
      ensures errorWindow.Valid() && errorWindow.marks == old(errorWindow.marks) + [Mark(sec, 0, 0)]
      ensures successWindow.Valid() && successWindow.marks == old(successWindow.marks) + [Mark(sec, 0, 0)]
      ensures retryWindow.Valid() && retryWindow.marks == old(retryWindow.marks) + [Mark(sec, 0, 0)]
    {
      errorWindow.MaybeRoll(bucket, sec);
      successWindow.MaybeRoll(bucket, sec);
      retryWindow.MaybeRoll(bucket, sec);
    }

    /** A success moves the baseline and counts, as a hit when it is slow. */
    method RecordIfSuccessLike(sig: Signal, bucket: nat)
      requires Shape() && successWindow.Valid() && sig.kind == Server
      requires Rolled(successWindow.marks, sig) && bucket == SecondOf(sig) % BUCKETS
      modifies this`ewmaNs, successWindow.Repr
      ensures successWindow.Valid()
      ensures successWindow.marks ==
              Filled(old(successWindow.marks), sig, IsSuccess(sig), Baseline.IsSlow(old(ewmaNs), sig.durationNs))
      ensures ewmaNs == if IsSuccess(sig) then Baseline.NextBaseline(old(ewmaNs), sig.durationNs) else old(ewmaNs)
    {
      if sig.statusCode < 200 || sig.statusCode >= 400 {
        return;
      }
      var durationClamped := Baseline.Clamp64(sig.durationNs, Baseline.MIN_BASELINE_NS, Baseline.MAX_BASELINE_NS);
      if ewmaNs <= 0.0 {
        ewmaNs := durationClamped as real;
      } else {
        ewmaNs := ewmaNs + Baseline.EWMA_ALPHA * (durationClamped as real - ewmaNs);
      }
      var threshold := Baseline.Trunc(ewmaNs * Baseline.SLOW_MULTIPLIER);
      successWindow.Count(bucket, sig.durationNs > threshold);
    }

    /** The switch on the span kind, once all three windows have been rolled. */
    method CountByKind(sig: Signal, bucket: nat)
      requires Shape() && bucket == SecondOf(sig) % BUCKETS
      requires errorWindow.Valid() && Rolled(errorWindow.marks, sig)
      requires successWindow.Valid() && Rolled(successWindow.marks, sig)
      requires retryWindow.Valid() && Rolled(retryWindow.marks, sig)
      modifies this`ewmaNs, errorWindow.Repr, successWindow.Repr, retryWindow.Repr, retryTable.Repr
      ensures errorWindow.Valid() && successWindow.Valid() && retryWindow.Valid()
      ensures errorWindow.marks == Filled(old(errorWindow.marks), sig, sig.kind == Server, IsServerError(sig))
      ensures successWindow.marks ==
              Filled(old(successWindow.marks), sig, IsSuccess(sig), Baseline.IsSlow(old(ewmaNs), sig.durationNs))
      ensures ewmaNs == if IsSuccess(sig) then Baseline.NextBaseline(old(ewmaNs), sig.durationNs) else old(ewmaNs)
      ensures var o := RetryTable.Ask(old(retryTable.Contents()), sig.isRetry, sig.keyHash, sig.ms);
              && retryWindow.marks == Filled(old(retryWindow.marks), sig, sig.kind == Client, o.retry)
              && retryTable.Contents() == if sig.kind == Client then o.table else old(retryTable.Contents())
    {
      hide RetryTable.Ask;
      hide CountingWindow.Valid;
      match sig.kind {
        case Server =>
          errorWindow.Count(bucket, sig.statusCode >= 500 && sig.statusCode < 600);
          RecordIfSuccessLike(sig, bucket);
        case Client =>
          var again := retryTable.IsRetry(sig.isRetry, sig.keyHash, sig.ms);
          retryWindow.Count(bucket, again);
        case Other =>
      }
    }

    method Log(sig: Signal)
      requires Valid()
      modifies this`log, this`ewmaNs, errorWindow.Repr, successWindow.Repr, retryWindow.Repr, retryTable.Repr
      ensures Valid() && log == old(log) + [sig]
      ensures Windows() && Parts() == ViewOf(log)
    {
      LogGrows(log, sig);
      Record(sig);
      log := log + [sig];
    }

    method Record(sig: Signal)
      requires Shape() && Windows()
      modifies this`ewmaNs, errorWindow.Repr, successWindow.Repr, retryWindow.Repr, retryTable.Repr
      ensures Windows() && Parts() == Extend(old(Parts()), sig)
    {
      var sec := sig.ms / 1000;
      var bucket := sec % BUCKETS;
      FilledAfterRoll(errorWindow.marks, sig);
      FilledAfterRoll(successWindow.marks, sig);
      FilledAfterRoll(retryWindow.marks, sig);
      AdvanceBucket(bucket, sec);
      CountByKind(sig, bucket);
    }

    method Evaluate5xx(cfg: Config, nowMs: nat, service: string) returns (r: Option<FlushReason>)
      requires Shape() && errorWindow.Valid() && cfg.Valid()
      modifies this`lastErrSev
      ensures Answer(Model(), r) ==
              JudgeErrors(cfg, service, old(Model()),
                LiveTally(errorWindow.marks, nowMs / 1000 - (WINDOW_SECONDS - 1), nowMs / 1000), nowMs)
    {
      var hits, total := errorWindow.Collect(nowMs / 1000);
      if total < cfg.minSamples {
        lastErrSev := Calm;
        return None;
      }
      var rate := hits as real / total as real;
      var current := ClassifyTwoTier(rate, cfg.errorLow, cfg.errorHigh);
      var prev := lastErrSev;
      lastErrSev := current;
      if !ShouldEmitTransition(prev, current) {
        return None;
      }
      var threshold := cfg.errorLow;
      if current == Severe {
        threshold := cfg.errorHigh;
      }
      return Some(FlushReason(service, ErrorRate5xx, current, rate, threshold, nowMs));
    }

    method EvaluateSlowSuccess(cfg: Config, nowMs: nat, service: string) returns (r: Option<FlushReason>)
      requires Shape() && successWindow.Valid() && cfg.Valid()
      modifies this`lastSlowSev
      ensures Answer(Model(), r) ==
              JudgeSlow(cfg, service, old(Model()),
                LiveTally(successWindow.marks, nowMs / 1000 - (WINDOW_SECONDS - 1), nowMs / 1000), nowMs)
    {
      var hits, total := successWindow.Collect(nowMs / 1000);
      if total < cfg.minSamples {
        lastSlowSev := Calm;
        return None;
      }
      var rate := hits as real / total as real;
      var current := ClassifyTwoTier(rate, cfg.slowMild, cfg.slowHigh);
      var prev := lastSlowSev;
      lastSlowSev := current;
      if !ShouldEmitTransition(prev, current) {
        return None;
      }
      var threshold := cfg.slowMild;
      if current == Severe {
        threshold := cfg.slowHigh;
      }
      return Some(FlushReason(service, SlowSuccessRate, current, rate, threshold, nowMs));
    }

    method EvaluateRetry(cfg: Config, nowMs: nat, service: string) returns (r: Option<FlushReason>)
      requires Shape() && retryWindow.Valid() && cfg.Valid()
      modifies this`lastRetrySev
      ensures Answer(Model(), r) ==
              JudgeRetries(cfg, service, old(Model()),
                LiveTally(retryWindow.marks, nowMs / 1000 - (WINDOW_SECONDS - 1), nowMs / 1000), nowMs)
    {
      var hits, total := retryWindow.Collect(nowMs / 1000);
      if total < cfg.minSamples {
        lastRetrySev := Calm;
        return None;
      }
      var rate := hits as real / total as real;
      var current := ClassifyTwoTier(rate, cfg.retryMild, cfg.retryHigh);
      var prev := lastRetrySev;
      lastRetrySev := current;
      if !ShouldEmitTransition(prev, current) {
        return None;
      }
      var threshold := cfg.retryMild;
      if current == Severe {
        threshold := cfg.retryHigh;
      }
      return Some(FlushReason(service, RetryRate, current, rate, threshold, nowMs));
    }

    method EvaluateInFlight(cfg: Config, nowMs: nat, service: string) returns (r: Option<FlushReason>)
      requires cfg.Valid()
      modifies this`inFlightConditionAt, this`inFlightEwma, this`lastInFlightSev
      ensures Answer(Model(), r) == JudgeInFlight(cfg, service, old(Model()), nowMs)
    {
      var threshold := cfg.limits.minAbsolute;
      if Gauge.Scaled(inFlightEwma, cfg.limits.multiplier) > threshold {
        threshold := Gauge.Scaled(inFlightEwma, cfg.limits.multiplier);
      }
      var conditionMet := inFlightCurrent >= threshold;
      if conditionMet {
        if inFlightConditionAt == 0 {
          inFlightConditionAt := nowMs;
        }
      } else {
        inFlightConditionAt := 0;
      }
      if lastInFlightSev == Calm && inFlightPeak > 0 {
        if inFlightEwma <= 0.0 {
          inFlightEwma := inFlightPeak as real;
        } else {
          inFlightEwma := inFlightEwma + 0.05 * (inFlightPeak as real - inFlightEwma);
        }
      }
      var current := Calm;
      if conditionMet && inFlightConditionAt > 0 {
        var holdSecs := Gauge.TruncDiv(nowMs - inFlightConditionAt, 1000);
        if holdSecs >= cfg.limits.severeHoldSecs {
          current := Severe;
        } else if holdSecs >= cfg.limits.mildHoldSecs {
          current := Mild;
        }
      }
      var prev := lastInFlightSev;
      lastInFlightSev := current;
      if !ShouldEmitTransition(prev, current) {
        return None;
      }
      return Some(FlushReason(service, InFlightPileup, current, inFlightCurrent as real, threshold as real, nowMs));
    }
  }
}
