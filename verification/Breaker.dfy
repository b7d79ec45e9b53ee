/** The cross-batch circuit breaker: a span counter per trace with three tiers. */
module Breaker {
  import opened Spans

  const WARN_THRESHOLD: int := 5_000
  const TRUNCATE_THRESHOLD: int := 50_000
  const HARD_THRESHOLD: int := 500_000

  datatype Tier = NoTier | Warn | Truncate | Open {
    function Level(): nat {
      match this case NoTier => 0 case Warn => 1 case Truncate => 2 case Open => 3
    }
  }

  function TierFromCount(count: int): Tier {
    if count >= HARD_THRESHOLD then Open
    else if count >= TRUNCATE_THRESHOLD then Truncate
    else if count >= WARN_THRESHOLD then Warn
    else NoTier
  }

  datatype Counter = Counter(count: int, lastSeen: int, highestTier: Tier)

  // ---- one call on values ----

  function Bumped(c: Counter, now: int): Counter {
    var tier := TierFromCount(c.count + 1);
    Counter(c.count + 1, now, if tier.Level() > c.highestTier.Level() then tier else c.highestTier)
  }

  function Answer(c: Counter): Tier {
    var tier := TierFromCount(c.count + 1);
    if tier.Level() > c.highestTier.Level() then tier else NoTier
  }

  const NEW_COUNTER := Counter(0, 0, NoTier)

  function Find(per: map<TraceId, Counter>, tid: TraceId): Counter {
    if tid in per then per[tid] else NEW_COUNTER
  }

  predicate Stale(c: Counter, ttl: int, now: int) { now - c.lastSeen > ttl }

  function Pruned(per: map<TraceId, Counter>, ttl: int, now: int): map<TraceId, Counter> {
    map tid | tid in per && !Stale(per[tid], ttl, now) :: per[tid]
  }

  // ---- runs ----

  datatype Event = Observed(tid: TraceId, now: int) | Swept(now: int)

  function After(ttl: int, evs: seq<Event>): map<TraceId, Counter> {
    if evs == [] then map[]
    else
      var per := After(ttl, evs[..|evs| - 1]);
      match evs[|evs| - 1]
      case Observed(tid, now) => per[tid := Bumped(Find(per, tid), now)]
      case Swept(now) => Pruned(per, ttl, now)
  }

  /** The clock of the trace's latest observation, if the log has one. */
  ghost function LastSeen(evs: seq<Event>, tid: TraceId): int {
    if evs == [] then 0
    else if evs[|evs| - 1].Observed? && evs[|evs| - 1].tid == tid then evs[|evs| - 1].now
    else LastSeen(evs[..|evs| - 1], tid)
  }

  /** Observations of the trace since a sweep last found it idle beyond the TTL: its budget so far. */
  ghost function Budget(ttl: int, evs: seq<Event>, tid: TraceId): nat {
    if evs == [] then 0
    else
      var before := evs[..|evs| - 1];
      match evs[|evs| - 1]
      case Observed(t, _) => Budget(ttl, before, tid) + if t == tid then 1 else 0
      case Swept(now) => if now - LastSeen(before, tid) > ttl then 0 else Budget(ttl, before, tid)
  }

  /** What the breaker keeps for a trace is its budget, whatever happened to other traces. */
  lemma {:induction false} CounterIsBudget(ttl: int, evs: seq<Event>, tid: TraceId)
    ensures var per, n := After(ttl, evs), Budget(ttl, evs, tid);
            && (tid in per <==> n > 0)
            && (tid in per ==> per[tid] == Counter(n, LastSeen(evs, tid), TierFromCount(n)))
  {
    if evs != [] {
      CounterIsBudget(ttl, evs[..|evs| - 1], tid);
    }
  }

  /** Exactly-once tiers: an observation answers a tier exactly when it is the 5,000th, 50,000th or 500,000th of the
      trace's budget, each time the tier just reached. */
  lemma TiersAreAnsweredOnce(ttl: int, evs: seq<Event>, tid: TraceId)
    ensures var n := Budget(ttl, evs, tid) + 1;
            Answer(Find(After(ttl, evs), tid)) ==
            if n == 500_000 then Open
            else if n == 50_000 then Truncate
            else if n == 5_000 then Warn
            else NoTier
  {
    CounterIsBudget(ttl, evs, tid);
  }

  /** The answers a trace got, in order, since its budget last started anew. */
  ghost function Answers(ttl: int, evs: seq<Event>, tid: TraceId): seq<Tier> {
    if evs == [] then []
    else
      var before := evs[..|evs| - 1];
      match evs[|evs| - 1]
      case Observed(t, _) =>
        var a := Answer(Find(After(ttl, before), tid));
        Answers(ttl, before, tid) + if t == tid && a != NoTier then [a] else []
      case Swept(now) => if now - LastSeen(before, tid) > ttl then [] else Answers(ttl, before, tid)
  }

  /** They are always a prefix of warn, truncate, breaker, and its length tells how many thresholds were reached. */
  lemma {:induction false} AnswersAreAPrefix(ttl: int, evs: seq<Event>, tid: TraceId)
    ensures Answers(ttl, evs, tid) ==
            var n := Budget(ttl, evs, tid);
            [Warn, Truncate, Open][..if n >= 500_000 then 3 else if n >= 50_000 then 2 else if n >= 5_000 then 1 else 0]
  {
    if evs != [] {
      var before := evs[..|evs| - 1];
      AnswersAreAPrefix(ttl, before, tid);
      TiersAreAnsweredOnce(ttl, before, tid);
    }
  }

  /** Spans are dropped exactly once half a million were observed since the trace was last swept. */
  lemma DropIffHalfAMillion(ttl: int, evs: seq<Event>, tid: TraceId)
    ensures tid in After(ttl, evs) && After(ttl, evs)[tid].highestTier.Level() >= Open.Level() <==>
            Budget(ttl, evs, tid) >= 500_000
  {
    CounterIsBudget(ttl, evs, tid);
  }

  /** Likewise for the tier below. */
  lemma TruncateIffFiftyThousand(ttl: int, evs: seq<Event>, tid: TraceId)
    ensures tid in After(ttl, evs) && After(ttl, evs)[tid].highestTier.Level() >= Truncate.Level() <==>
            Budget(ttl, evs, tid) >= 50_000
  {
    CounterIsBudget(ttl, evs, tid);
  }

  lemma AfterNext(ttl: int, evs: seq<Event>, ev: Event)
    ensures (evs + [ev])[..|evs|] == evs
    ensures After(ttl, evs + [ev]) ==
            if ev.Observed? then After(ttl, evs)[ev.tid := Bumped(Find(After(ttl, evs), ev.tid), ev.now)]
            else Pruned(After(ttl, evs), ttl, ev.now)
  {
    assert (evs + [ev])[..|evs|] == evs;
  }

  /** A sweep resets the budgets of exactly the traces idle beyond the TTL, and no other. */
  lemma SweepResetsIdleBudgetsOnly(ttl: int, evs: seq<Event>, now: int, tid: TraceId)
    ensures var per := After(ttl, evs + [Swept(now)]);
            && (tid in per <==> tid in After(ttl, evs) && now - LastSeen(evs, tid) <= ttl)
            && (tid in per ==> per[tid] == After(ttl, evs)[tid])
  {
    assert (evs + [Swept(now)])[..|evs|] == evs;
    CounterIsBudget(ttl, evs, tid);
  }

  // ---- the code ----

  class TraceBreaker {
    var per: map<TraceId, Counter>
    const ttl: int

    /** Every observation and sweep so far. */
    ghost var log: seq<Event>

    ghost predicate Valid()
      reads this
    {
      per == After(ttl, log)
    }

    constructor (ttl: int)
      ensures Valid() && log == [] && this.ttl == ttl
    {
      per := map[];
      this.ttl := ttl;
      log := [];
    }

    /** Answers a tier exactly when this is the observation that reaches it. */
    method Observe(tid: TraceId, now: int) returns (answer: Tier)
      requires Valid()
      modifies this
      ensures Valid() && log == old(log) + [Observed(tid, now)]
      ensures var n := Budget(ttl, log, tid);
              answer == if n == 500_000 then Open
                        else if n == 50_000 then Truncate
                        else if n == 5_000 then Warn
                        else NoTier
    {
      AfterNext(ttl, log, Observed(tid, now));
      TiersAreAnsweredOnce(ttl, log, tid);
      var e := NEW_COUNTER;
      if tid in per {
        e := per[tid];
      }
      e := e.(count := e.count + 1, lastSeen := now);
      var tier := TierFromCount(e.count);
      if tier.Level() > e.highestTier.Level() {
        e := e.(highestTier := tier);
        answer := tier;
      } else {
        answer := NoTier;
      }
      per := per[tid := e];
      log := log + [Observed(tid, now)];
    }

    /** True once half a million spans of the trace were observed since it was last swept. */
    method ShouldDrop(tid: TraceId) returns (drop: bool)
      requires Valid()
      ensures drop <==> Budget(ttl, log, tid) >= 500_000
    {
      DropIffHalfAMillion(ttl, log, tid);
      if tid !in per {
        return false;
      }
      return per[tid].highestTier.Level() >= Open.Level();
    }

    /** True once fifty thousand were. */
    method ShouldTruncate(tid: TraceId) returns (cut: bool)
      requires Valid()
      ensures cut <==> Budget(ttl, log, tid) >= 50_000
    {
      TruncateIffFiftyThousand(ttl, log, tid);
      if tid !in per {
        return false;
      }
      return per[tid].highestTier.Level() >= Truncate.Level();
    }

    /** Visits the entries in an arbitrary order, deleting as it goes. */
    method PruneStale(now: int) returns (evicted: int)
      requires Valid()
      modifies this
      ensures Valid() && log == old(log) + [Swept(now)]
      ensures per == Pruned(old(per), ttl, now)
      ensures evicted == |old(per).Keys| - |per.Keys|
    {
      evicted := 0;
      var remaining := per.Keys;
      ghost var before := per;
      while remaining != {}
        invariant remaining <= per.Keys && log == old(log)
        invariant per.Keys <= before.Keys && forall t :: t in per ==> per[t] == before[t]
        invariant forall t :: t in before && t !in per ==> Stale(before[t], ttl, now)
        invariant forall t :: t in per && t !in remaining ==> !Stale(before[t], ttl, now)
        invariant evicted == |before.Keys| - |per.Keys|
        decreases remaining
      {
        var tid :| tid in remaining;
        remaining := remaining - {tid};
        if now - per[tid].lastSeen > ttl {
          ghost var keys := per.Keys;
          per := per - {tid};
          assert per.Keys == keys - {tid};
          evicted := evicted + 1;
        }
      }
      AfterNext(ttl, log, Swept(now));
      log := log + [Swept(now)];
    }
  }
}
