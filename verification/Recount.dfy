/** Counting from scratch: the three rates of the last ten seconds, told from a service's full log of
    completions, with no buckets and nothing kept from earlier. Retries are decided by scanning the log;
    only `Forgotten` asks what became of a key's slot in the retry table. */
module Recount {
  import opened Options
  import opened SlidingWindow
  import opened ServiceModel
  import Baseline
  import Mean
  import RetryTable

  // ---- what the log says ----

  /** The durations of the successes, oldest first. */
  function SuccessDurations(log: seq<Signal>): seq<int> {
    if log == [] then []
    else
      var before, s := SuccessDurations(log[..|log| - 1]), log[|log| - 1];
      if IsSuccess(s) then before + [s.durationNs] else before
  }

  /** A completion that is looked up by its key: outbound, with a key and without a hint. */
  predicate IsSighting(s: Signal) { s.kind == Client && s.isRetry.None? && s.keyHash != 0 }

  function SightingsOf(log: seq<Signal>): seq<RetryTable.Sighting> {
    if log == [] then []
    else
      var before, s := SightingsOf(log[..|log| - 1]), log[|log| - 1];
      if IsSighting(s) then before + [RetryTable.Sighting(s.keyHash, s.ms)] else before
  }

  /** When the key was last sighted. */
  function LatestSighting(log: seq<Signal>, key: nat): Option<nat> {
    if log == [] then None
    else
      var s := log[|log| - 1];
      if IsSighting(s) && s.keyHash == key then Some(s.ms) else LatestSighting(log[..|log| - 1], key)
  }

  /** The key was seen, and its slot was taken over since. */
  ghost predicate Forgotten(log: seq<Signal>, key: nat) {
    LatestSighting(log, key).Some? && key !in RetryTable.LossyMemory(SightingsOf(log))
  }

  /** A scan of the log: the latest earlier sighting of the key, rounded down to the second, is at most
      ten seconds back. A hint decides by itself, and without a key nothing is a retry. */
  predicate SeenRecently(before: seq<Signal>, s: Signal) {
    match s.isRetry
    case Some(hint) => hint
    case None =>
      s.keyHash != 0 &&
      match LatestSighting(before, s.keyHash)
      case None => false
      case Some(ms) => s.ms - ms / 1000 * 1000 <= 10_000
  }

  datatype Rate = Errors | SlowSuccesses | Retries

  /** How to judge: on the buckets and the table, on a recount that may have forgotten keys, or on one that never does. */
  datatype Judging = Buckets | Recounted | Scanned

  predicate Counts(r: Rate, s: Signal) {
    match r
    case Errors => s.kind == Server
    case SlowSuccesses => IsSuccess(s)
    case Retries => s.kind == Client
  }

  /** Whether a completion counted for the rate is a hit, given the completions before it. */
  ghost predicate Hits(r: Rate, before: seq<Signal>, s: Signal, forgets: bool) {
    match r
    case Errors => IsServerError(s)
    case SlowSuccesses =>
      s.durationNs as real >
      3.0 * Mean.Weighted(Baseline.ClampedAll(SuccessDurations(before)) + [Baseline.Clamped(s.durationNs)])
    case Retries =>
      SeenRecently(before, s) && !(forgets && s.isRetry.None? && Forgotten(before, s.keyHash))
  }

  /** The completions of [lo, hi], one by one. */
  ghost function LogTally(r: Rate, log: seq<Signal>, lo: int, hi: int, forgets: bool): Tally {
    if log == [] then NONE
    else
      var before, s := log[..|log| - 1], log[|log| - 1];
      var rest := LogTally(r, before, lo, hi, forgets);
      if lo <= SecondOf(s) <= hi && Counts(r, s)
      then Tally(rest.hits + (if Hits(r, before, s, forgets) then 1 else 0), rest.total + 1)
      else rest
  }

  ghost function LogTallies(log: seq<Signal>, t: int, forgets: bool): Tallies {
    var lo := t - 9;
    Tallies(LogTally(Errors, log, lo, t, forgets), LogTally(SlowSuccesses, log, lo, t, forgets),
            LogTally(Retries, log, lo, t, forgets))
  }

  ghost function TalliesBy(how: Judging, log: seq<Signal>, t: int): Tallies {
    match how
    case Buckets => LiveTallies(ViewOf(log), t)
    case Recounted => LogTallies(log, t, true)
    case Scanned => LogTallies(log, t, false)
  }

  ghost function CompleteBy(cfg: Config, name: string, s: Service, sig: Signal, how: Judging): Answer
    requires cfg.Valid()
  {
    Judge(cfg, name, Logged(s, sig), TalliesBy(how, s.log + [sig], SecondOf(sig)), sig.ms)
  }

  // ---- the state against the log ----

  lemma {:induction false} SightingsAreKeyed(log: seq<Signal>)
    ensures RetryTable.Keyed(SightingsOf(log))
  {
    if log != [] { SightingsAreKeyed(log[..|log| - 1]); }
  }

  lemma NextSighting(before: seq<RetryTable.Sighting>, s: RetryTable.Sighting)
    ensures (before + [s])[..|before + [s]| - 1] == before
    ensures RetryTable.TableAfter(before + [s]) == RetryTable.Sight(RetryTable.TableAfter(before), s.key, s.ms).table
    ensures RetryTable.PlainMemory(before + [s]) == RetryTable.PlainMemory(before)[s.key := s.ms / 1000]
  {
    assert (before + [s])[..|before|] == before;
  }

  /** The mean a service keeps is the weighted mean of its clamped successes, each one counted. */
  lemma MeanIsWeighted(log: seq<Signal>)
    ensures ViewOf(log).baseline == Mean.Weighted(Baseline.ClampedAll(SuccessDurations(log)))
  {
    hide Mean.Weighted;
    hide Baseline.BaselineAfter;
    hide ViewOf;
    StateFollowsTheLog(log);
    Baseline.BaselineIsTheWeightedMean(SuccessDurations(log));
  }

  /** The mean a service keeps follows its successes, and its table is that of its sightings. */
  lemma {:induction false} StateFollowsTheLog(log: seq<Signal>)
    ensures ViewOf(log).baseline == Baseline.BaselineAfter(SuccessDurations(log))
    ensures ViewOf(log).table == RetryTable.TableAfter(SightingsOf(log))
  {
    if log != [] {
      hide RetryTable.Sight;
      hide RetryTable.TableAfter;
      hide Baseline.NextBaseline;
      hide Baseline.IsSlow;
      var before, s := log[..|log| - 1], log[|log| - 1];
      StateFollowsTheLog(before);
      NextSighting(SightingsOf(before), RetryTable.Sighting(s.keyHash, s.ms));
      assert (SuccessDurations(before) + [s.durationNs])[..|SuccessDurations(before)|] == SuccessDurations(before);
    } else {
      assert RetryTable.TableAfter([]) == RetryTable.Empty();
    }
  }

  /** The plain map holds the second of every key's latest sighting. */
  lemma {:induction false} MemoryIsLatestSighting(log: seq<Signal>, key: nat)
    ensures var m, latest := RetryTable.PlainMemory(SightingsOf(log)), LatestSighting(log, key);
            (key in m <==> latest.Some?) && (latest.Some? ==> m[key] == latest.value / 1000)
  {
    if log != [] {
      var before, s := log[..|log| - 1], log[|log| - 1];
      MemoryIsLatestSighting(before, key);
      hide RetryTable.PlainMemory;
      NextSighting(SightingsOf(before), RetryTable.Sighting(s.keyHash, s.ms));
    } else {
      assert RetryTable.PlainMemory([]) == map[];
    }
  }

  /** The retry table answers exactly what a scan of the log does, except for a key it has forgotten,
      which it takes for a new one. */
  lemma RetryIsAScan(before: seq<Signal>, s: Signal)
    ensures var asked := RetryTable.Ask(ViewOf(before).table, s.isRetry, s.keyHash, s.ms);
            asked.retry <==> SeenRecently(before, s) && !(s.isRetry.None? && Forgotten(before, s.keyHash))
  {
    hide ViewOf;
    hide SightingsOf;
    hide LatestSighting;
    hide RetryTable.TableAfter;
    hide RetryTable.LossyMemory;
    hide RetryTable.PlainMemory;
    hide RetryTable.Sight;
    if s.isRetry.None? && s.keyHash != 0 {
      StateFollowsTheLog(before);
      SightingsAreKeyed(before);
      MemoryIsLatestSighting(before, s.keyHash);
      RetryTable.SightIsALookup(SightingsOf(before), s.keyHash, s.ms);
    }
  }

  // ---- counting ----

  lemma {:induction false} PlainAppend(marks: seq<Mark>, m: Mark, lo: int, hi: int)
    ensures var t := PlainTally(marks, lo, hi);
            PlainTally(marks + [m], lo, hi) == if lo <= m.sec <= hi then t.Plus(m) else t
  {
    if marks == [] {
      assert [] + [m] == [m] && [m][1..] == [];
    } else {
      assert (marks + [m])[1..] == marks[1..] + [m];
      PlainAppend(marks[1..], m, lo, hi);
    }
  }

  function MarkFor(r: Rate, s: Signal, hit: bool): Mark {
    MarkOf(SecondOf(s), Counts(r, s), hit)
  }

  /** What a completion counts for when it arrives is what the log before it says. */
  lemma MarksOfNext(log: seq<Signal>)
    requires log != []
    ensures var before, s := log[..|log| - 1], log[|log| - 1];
            var v, v' := ViewOf(before), ViewOf(log);
            && v'.errors == v.errors + [MarkFor(Errors, s, Hits(Errors, before, s, true))]
            && v'.successes == v.successes + [MarkFor(SlowSuccesses, s, Hits(SlowSuccesses, before, s, true))]
            && v'.retries == v.retries + [MarkFor(Retries, s, Hits(Retries, before, s, true))]
  {
    var before, s := log[..|log| - 1], log[|log| - 1];
    assert ViewOf(log) == Extend(ViewOf(before), s);
    hide ViewOf;
    hide SeenRecently;
    hide Forgotten;
    hide SuccessDurations;
    hide RetryTable.Ask;
    hide Baseline.IsSlow;
    hide Baseline.NextBaseline;
    hide Baseline.BaselineAfter;
    hide Baseline.ClampedAll;
    hide Mean.Weighted;
    StateFollowsTheLog(before);
    Baseline.SlowIffOverThreeMeans(SuccessDurations(before), s.durationNs);
    RetryIsAScan(before, s);
  }

  lemma TallyOfNext(r: Rate, log: seq<Signal>, marks: seq<Mark>, lo: int, hi: int)
    requires log != []
    ensures var before, s := log[..|log| - 1], log[|log| - 1];
            PlainTally(marks, lo, hi) == LogTally(r, before, lo, hi, true) ==>
              PlainTally(marks + [MarkFor(r, s, Hits(r, before, s, true))], lo, hi) == LogTally(r, log, lo, hi, true)
  {
    hide PlainTally;
    hide Hits;
    hide Counts;
    var before, s := log[..|log| - 1], log[|log| - 1];
    PlainAppend(marks, MarkFor(r, s, Hits(r, before, s, true)), lo, hi);
  }

  /** Adding up what each completion counted for when it arrived is counting the log from scratch. */
  lemma {:induction false} MarksAreTheLog(log: seq<Signal>, lo: int, hi: int)
    ensures PlainTally(ViewOf(log).errors, lo, hi) == LogTally(Errors, log, lo, hi, true)
    ensures PlainTally(ViewOf(log).successes, lo, hi) == LogTally(SlowSuccesses, log, lo, hi, true)
    ensures PlainTally(ViewOf(log).retries, lo, hi) == LogTally(Retries, log, lo, hi, true)
  {
    if log != [] {
      hide ViewOf;
      hide PlainTally;
      hide LogTally;
      hide Hits;
      hide MarkFor;
      var before := log[..|log| - 1];
      MarksAreTheLog(before, lo, hi);
      MarksOfNext(log);
      TallyOfNext(Errors, log, ViewOf(before).errors, lo, hi);
      TallyOfNext(SlowSuccesses, log, ViewOf(before).successes, lo, hi);
      TallyOfNext(Retries, log, ViewOf(before).retries, lo, hi);
    }
  }

  /** With timestamps that never go back, arrays, mean and table give the counts of a recount of the whole log. */
  lemma InOrderTalliesAreARecount(log: seq<Signal>, t: int)
    requires InOrder(log) && log != [] && t == SecondOf(log[|log| - 1])
    ensures TalliesBy(Buckets, log, t) == TalliesBy(Recounted, log, t)
  {
    hide ViewOf;
    hide LogTally;
    hide PlainTally;
    hide LiveTallies;
    hide InOrder;
    ViewKeepsSeconds(log);
    InOrderTalliesAgree(log, ViewOf(log), t);
    MarksAreTheLog(log, t - (WINDOW_SECONDS - 1), t);
  }

  lemma InOrderCompletionIsARecount(cfg: Config, name: string, s: Service, sig: Signal)
    requires cfg.Valid() && InOrder(s.log + [sig])
    ensures CompleteBy(cfg, name, s, sig, Buckets) == CompleteBy(cfg, name, s, sig, Recounted)
  {
    hide TalliesBy;
    InOrderTalliesAreARecount(s.log + [sig], SecondOf(sig));
  }

  // ---- when nothing is forgotten ----

  /** Fewer than eight other keys of the log ever have a home near that of any key sighted. */
  ghost predicate Uncrowded(log: seq<Signal>) {
    RetryTable.Uncrowded(SightingsOf(log))
  }

  lemma UncrowdedForgetsNothing(log: seq<Signal>, key: nat)
    requires Uncrowded(log)
    ensures !Forgotten(log, key)
  {
    SightingsAreKeyed(log);
    RetryTable.UncrowdedTableIsPlain(SightingsOf(log));
    MemoryIsLatestSighting(log, key);
  }

  lemma UncrowdedPrefix(log: seq<Signal>)
    requires log != [] && Uncrowded(log)
    ensures Uncrowded(log[..|log| - 1])
  {
    var before, all := SightingsOf(log[..|log| - 1]), SightingsOf(log);
    assert forall j :: 0 <= j < |before| ==> before[j] == all[j] && before[..j] == all[..j];
  }

  lemma {:induction false} UncrowdedTallyIsAScan(r: Rate, log: seq<Signal>, lo: int, hi: int)
    requires Uncrowded(log)
    ensures LogTally(r, log, lo, hi, true) == LogTally(r, log, lo, hi, false)
  {
    if log != [] {
      UncrowdedPrefix(log);
      UncrowdedForgetsNothing(log[..|log| - 1], log[|log| - 1].keyHash);
      hide Uncrowded;
      hide Forgotten;
      UncrowdedTallyIsAScan(r, log[..|log| - 1], lo, hi);
    }
  }

  /** Where homes are not crowded the recount forgets nothing, so every retry is decided by a plain scan of the log. */
  lemma UncrowdedCompletionIsAScan(cfg: Config, name: string, s: Service, sig: Signal)
    requires cfg.Valid() && Uncrowded(s.log + [sig])
    ensures CompleteBy(cfg, name, s, sig, Recounted) == CompleteBy(cfg, name, s, sig, Scanned)
  {
    hide Uncrowded;
    hide LogTally;
    var log, t := s.log + [sig], SecondOf(sig);
    UncrowdedTallyIsAScan(Errors, log, t - (WINDOW_SECONDS - 1), t);
    UncrowdedTallyIsAScan(SlowSuccesses, log, t - (WINDOW_SECONDS - 1), t);
    UncrowdedTallyIsAScan(Retries, log, t - (WINDOW_SECONDS - 1), t);
  }
}
