/** Which statuses and kinds matter to which rate: a service without them is never reported, and one
    that shows nothing else is. */
module Silence {
  import opened Options
  import opened Severity
  import opened SlidingWindow
  import opened ServiceModel
  import opened Recount
  import opened EvaluatorModel
  import opened Steadiness
  import Reports
  import Starvation

  /** A completion that cannot be a hit for the rate. */
  predicate Harmless(r: Rate, s: Signal) {
    match r
    case Errors => !(s.kind == Server && 500 <= s.statusCode <= 599)
    case SlowSuccesses => !(s.kind == Server && 200 <= s.statusCode <= 399)
    case Retries => s.kind != Client
  }

  function TriggerOf(r: Rate): Trigger {
    match r
    case Errors => ErrorRate5xx
    case SlowSuccesses => SlowSuccessRate
    case Retries => RetryRate
  }

  function TallyFor(r: Rate, t: Tallies): Tally {
    match r
    case Errors => t.errors
    case SlowSuccesses => t.slow
    case Retries => t.retries
  }

  ghost function MarksFor(r: Rate, v: View): seq<Mark> {
    match r
    case Errors => v.errors
    case SlowSuccesses => v.successes
    case Retries => v.retries
  }

  ghost predicate HarmlessLog(r: Rate, log: seq<Signal>) {
    forall i :: 0 <= i < |log| ==> Harmless(r, log[i])
  }

  lemma HarmlessIsNoHit(r: Rate, before: seq<Signal>, s: Signal, forgets: bool)
    requires Harmless(r, s)
    ensures !(Counts(r, s) && Hits(r, before, s, forgets))
  {
  }

  lemma {:induction false} HarmlessLogHasNoHit(r: Rate, log: seq<Signal>, lo: int, hi: int, forgets: bool)
    requires HarmlessLog(r, log)
    ensures LogTally(r, log, lo, hi, forgets).hits == 0
  {
    if log != [] {
      hide Hits;
      hide Harmless;
      HarmlessLogHasNoHit(r, log[..|log| - 1], lo, hi, forgets);
      HarmlessIsNoHit(r, log[..|log| - 1], log[|log| - 1], forgets);
    }
  }

  lemma {:induction false} HarmlessLogHasNoMark(r: Rate, log: seq<Signal>)
    requires HarmlessLog(r, log)
    ensures NoHits(MarksFor(r, ViewOf(log)))
  {
    if log != [] {
      hide ViewOf;
      hide Hits;
      hide Harmless;
      HarmlessLogHasNoMark(r, log[..|log| - 1]);
      MarksOfNext(log);
      HarmlessIsNoHit(r, log[..|log| - 1], log[|log| - 1], true);
    } else {
      assert MarksFor(r, ViewOf([])) == [];
    }
  }

  lemma HarmlessTallies(r: Rate, how: Judging, log: seq<Signal>, t: int)
    requires HarmlessLog(r, log)
    ensures TallyFor(r, TalliesBy(how, log, t)).hits == 0
  {
    hide ViewOf;
    hide LiveTally;
    hide LogTally;
    hide HarmlessLog;
    hide NoHits;
    HarmlessLogHasNoMark(r, log);
    NoHitsNoLiveHits(MarksFor(r, ViewOf(log)), t - 9, t);
    HarmlessLogHasNoHit(r, log, t - 9, t, true);
    HarmlessLogHasNoHit(r, log, t - 9, t, false);
  }

  lemma NoHitNoReport(r: Rate, cfg: Config, name: string, s: Service, t: Tallies, ms: int)
    requires cfg.Valid() && TallyFor(r, t).hits == 0
    ensures var a := Judge(cfg, name, s, t, ms).reason; a.Some? ==> a.value.trigger != TriggerOf(r)
  {
    var total := TallyFor(r, t).total;
    assert total > 0 ==> 0.0 / total as real == 0.0;
  }

  ghost predicate HarmlessRun(r: Rate, evs: seq<Event>, n: string) {
    forall i :: 0 <= i < |evs| && evs[i].Completed? && evs[i].name == n ==> Harmless(r, evs[i].sig)
  }

  lemma HarmlessRunHarmlessLog(r: Rate, log: seq<Signal>, evs: seq<Event>, n: string)
    requires MadeOf(log, evs, n) && HarmlessRun(r, evs, n)
    ensures HarmlessLog(r, log)
  {
    hide Harmless;
    forall k | 0 <= k < |log| ensures Harmless(r, log[k]) { assert HasCompletion(evs, n, log[k]); }
  }

  lemma HarmlessCompletion(r: Rate, cfg: Config, name: string, s: Service, sig: Signal, how: Judging)
    requires cfg.Valid() && HarmlessLog(r, s.log + [sig])
    ensures var a := CompleteBy(cfg, name, s, sig, how).reason; a.Some? ==> a.value.trigger != TriggerOf(r)
  {
    hide Judge;
    hide TalliesBy;
    HarmlessTallies(r, how, s.log + [sig], SecondOf(sig));
    NoHitNoReport(r, cfg, name, Logged(s, sig), TalliesBy(how, s.log + [sig], SecondOf(sig)), sig.ms);
  }

  lemma HarmlessStep(r: Rate, cfg: Config, evs: seq<Event>, ev: Event, how: Judging, n: string)
    requires cfg.Valid() && HarmlessRun(r, evs + [ev], n)
    ensures var a := Step(cfg, After(cfg, evs, how), ev, how).reason;
            a.Some? && a.value.service == n ==> a.value.trigger != TriggerOf(r)
  {
    hide After;
    hide CompleteBy;
    hide HarmlessLog;
    hide HarmlessRun;
    var e := After(cfg, evs, how);
    if ev.Completed? && ev.name != "" {
      var s := Touch(e, cfg.maxServices, ev.name, ev.now).services[ev.name];
      assert s.log == if ev.name in e.services then e.services[ev.name].log else [];
      hide Touch;
      if ev.name in e.services { LogsAreTheRuns(cfg, evs, how, ev.name); }
      ReportsItsOwn(cfg, ev.name, s, ev.sig, how);
      if ev.name == n {
        MadeOfMore(s.log, evs, ev, n);
        assert (evs + [ev])[|evs|] == ev;
        assert HasCompletion(evs + [ev], n, ev.sig);
        assert MadeOf(s.log + [ev.sig], evs + [ev], n);
        HarmlessRunHarmlessLog(r, s.log + [ev.sig], evs + [ev], n);
        HarmlessCompletion(r, cfg, n, s, ev.sig, how);
      }
    }
  }

  /** In any run: a service without a server status of 500 to 599 is never reported for errors, one without a server
      status of 200 to 399 never for slow successes, one without client spans never for retries. */
  lemma {:induction false} HarmlessRunIsNeverReported(r: Rate, cfg: Config, evs: seq<Event>, how: Judging, n: string)
    requires cfg.Valid() && HarmlessRun(r, evs, n)
    ensures forall i :: 0 <= i < |Reasons(cfg, evs, how)| ==>
              var a := Reasons(cfg, evs, how)[i];
              a.Some? && a.value.service == n ==> a.value.trigger != TriggerOf(r)
  {
    if evs != [] {
      var before, ev := evs[..|evs| - 1], evs[|evs| - 1];
      assert before + [ev] == evs;
      HarmlessRunIsNeverReported(r, cfg, before, how, n);
      HarmlessStep(r, cfg, before, ev, how, n);
      hide Step;
    }
  }

  // ---- and the other way ----

  /** Every server completion in [lo, hi] failed with a status of 500 to 599. */
  ghost predicate AllFail(log: seq<Signal>, lo: int, hi: int) {
    forall i :: 0 <= i < |log| && log[i].kind == Server && lo <= log[i].ms / 1000 <= hi ==> 500 <= log[i].statusCode <= 599
  }

  /** Every server completion in [lo, hi] has a status of 200 to 399. */
  ghost predicate AllSucceed(log: seq<Signal>, lo: int, hi: int) {
    forall i :: 0 <= i < |log| && log[i].kind == Server && lo <= log[i].ms / 1000 <= hi ==> 200 <= log[i].statusCode <= 399
  }

  /** How many server completions fall into [lo, hi]. */
  function ServersWithin(log: seq<Signal>, lo: int, hi: int): nat {
    if log == [] then 0
    else
      var s := log[|log| - 1];
      ServersWithin(log[..|log| - 1], lo, hi) + if s.kind == Server && lo <= s.ms / 1000 <= hi then 1 else 0
  }

  lemma {:induction false} FailuresAndSuccessesCount(log: seq<Signal>, lo: int, hi: int, forgets: bool)
    ensures LogTally(Errors, log, lo, hi, forgets).total == ServersWithin(log, lo, hi)
    ensures AllFail(log, lo, hi) ==> LogTally(Errors, log, lo, hi, forgets).hits == ServersWithin(log, lo, hi)
    ensures AllSucceed(log, lo, hi) ==> LogTally(SlowSuccesses, log, lo, hi, forgets).total == ServersWithin(log, lo, hi)
  {
    if log != [] {
      FailuresAndSuccessesCount(log[..|log| - 1], lo, hi, forgets);
    }
  }

  lemma FullRateIsSevere(t: Tally, minSamples: int, mild: real, high: real)
    requires t.hits == t.total && t.total >= minSamples > 0 && mild <= high <= 1.0
    ensures Reports.RateRank(t, minSamples, mild, high) == 2
  {
    var n := t.total as real;
    assert mild * n <= n && high * n <= n;
  }

  /** A completion with which at least `minSamples` server requests fall into the last ten seconds, all of them failed,
      leaves the error trigger severe, and is reported as such unless it was so already; for the buckets, if timestamps
      never go back. */
  lemma AllFailingIsReported(cfg: Config, name: string, s: Service, sig: Signal, how: Judging)
    requires cfg.Valid() && AllFail(s.log + [sig], sig.ms / 1000 - 9, sig.ms / 1000)
    requires how == Buckets ==> InOrder(s.log + [sig])
    requires ServersWithin(s.log + [sig], sig.ms / 1000 - 9, sig.ms / 1000) >= cfg.minSamples
    ensures var a := CompleteBy(cfg, name, s, sig, how);
            && a.service.errors == Severe
            && (s.errors != Severe ==>
                  a.reason.Some? && a.reason.value.trigger == ErrorRate5xx && a.reason.value.severity == Severe &&
                  a.reason.value.service == name && a.reason.value.observed == 1.0)
  {
    var log, sec := s.log + [sig], sig.ms / 1000;
    FailuresAndSuccessesCount(log, sec - 9, sec, true);
    FailuresAndSuccessesCount(log, sec - 9, sec, false);
    if how == Buckets { InOrderTalliesAreARecount(log, sec); }
    var t := TalliesBy(how, log, sec);
    assert t.errors.hits == t.errors.total >= cfg.minSamples;
    hide TalliesBy;
    hide AllFail;
    hide InOrder;
    hide LogTally;
    FullRateIsSevere(t.errors, cfg.minSamples, cfg.errorLow, cfg.errorHigh);
    ErrorsFirst(cfg, name, Logged(s, sig), t, sig.ms);
  }

  lemma ErrorsFirst(cfg: Config, name: string, s: Service, t: Tallies, ms: int)
    requires cfg.Valid() && t.errors.hits == t.errors.total >= cfg.minSamples
    requires Reports.RateRank(t.errors, cfg.minSamples, cfg.errorLow, cfg.errorHigh) == 2
    ensures var a := Judge(cfg, name, s, t, ms);
            && a.service.errors == Severe
            && (s.errors != Severe ==>
                  a.reason.Some? && a.reason.value.trigger == ErrorRate5xx && a.reason.value.severity == Severe &&
                  a.reason.value.service == name && a.reason.value.observed == 1.0)
  {
    Reports.RateCheckShowsItsRank(t.errors, cfg.minSamples, cfg.errorLow, cfg.errorHigh, s.errors);
    assert t.errors.hits as real / t.errors.total as real == 1.0;
    hide Reports.RateRank;
    hide ClassifyTwoTier;
    hide ShouldEmitTransition;
    JudgeKeepsErrors(cfg, name, s, t, ms);
  }

  lemma JudgeKeepsErrors(cfg: Config, name: string, s: Service, t: Tallies, ms: int)
    requires cfg.Valid()
    ensures var c, a := CheckRate(t.errors, cfg.minSamples, cfg.errorLow, cfg.errorHigh, s.errors), Judge(cfg, name, s, t, ms);
            && a.service.errors == c.severity
            && (c.fires ==> a.reason == Some(FlushReason(name, ErrorRate5xx, c.severity, c.rate, c.threshold, ms)))
  {
    hide CheckRate;
  }
}
