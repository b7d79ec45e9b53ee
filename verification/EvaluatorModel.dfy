/** The evaluator on values: services by name, and the order in which they were last touched. */
module EvaluatorModel {
  import opened Options
  import opened ServiceModel
  import opened Recount
  import RetryTable

  /** `xs` without the first occurrence of `x`. */
  function Without(xs: seq<string>, x: string): (r: seq<string>)
    ensures |r| == if x in xs then |xs| - 1 else |xs|
    ensures forall y :: y in r ==> y in xs
    ensures x !in xs ==> r == xs
  {
    if xs == [] then []
    else if xs[0] == x then xs[1..]
    else [xs[0]] + Without(xs[1..], x)
  }

  lemma FrontOfRest(xs: seq<string>, i: nat)
    requires 0 < i < |xs|
    ensures xs[..i] == [xs[0]] + xs[1..][..i - 1] && xs[i + 1..] == xs[1..][i..]
  {
  }

  lemma {:induction false} WithoutAt(xs: seq<string>, i: nat, x: string)
    requires i < |xs| && xs[i] == x && x !in xs[..i]
    ensures Without(xs, x) == xs[..i] + xs[i + 1..]
  {
    if i > 0 {
      FrontOfRest(xs, i);
      assert xs[0] == xs[..i][0];
      WithoutAt(xs[1..], i - 1, x);
    }
  }

  ghost predicate NoDuplicates(xs: seq<string>) {
    forall i, j :: 0 <= i < j < |xs| ==> xs[i] != xs[j]
  }

  datatype Engine = Engine(order: seq<string>, services: map<string, Service>) {

    /** `order` lists exactly the resident names, once each, and no more than the cap. */
    ghost predicate Valid(cap: int) {
      && NoDuplicates(order)
      && (forall n :: n in order <==> n in services)
      && |order| <= cap
    }
  }

  const EMPTY := Engine([], map[])

  /** How many of the oldest entries make room for one more. */
  function Excess(e: Engine, cap: int): (k: nat)
    requires cap > 0
    ensures k <= |e.order|
  {
    if |e.order| >= cap then |e.order| - cap + 1 else 0
  }

  /** The names at the front of the order, as a set. */
  function Front(order: seq<string>, k: nat): set<string>
    requires k <= |order|
  {
    set i | 0 <= i < k :: order[i]
  }

  /** `touch`: a resident name moves to the tail; a new one evicts the oldest if there is no room. */
  function Touch(e: Engine, cap: int, name: string, now: int): Engine
    requires cap > 0
  {
    if name in e.services then
      Engine(Without(e.order, name) + [name], e.services[name := e.services[name].(lastSeen := now)])
    else
      var k := Excess(e, cap);
      Engine(e.order[k..] + [name], (e.services - Front(e.order, k))[name := NEW_SERVICE.(lastSeen := now)])
  }

  predicate Stale(e: Engine, ttl: int, now: int, name: string) {
    name !in e.services || now - e.services[name].lastSeen > ttl
  }

  function Survivors(e: Engine, order: seq<string>, ttl: int, now: int): (r: seq<string>)
    ensures forall n :: n in r <==> n in order && !Stale(e, ttl, now, n)
  {
    if order == [] then []
    else
      var last := order[|order| - 1];
      var rest := Survivors(e, order[..|order| - 1], ttl, now);
      if Stale(e, ttl, now, last) then rest else rest + [last]
  }

  /** `PruneStale`: every service idle for longer than the TTL goes. */
  function Prune(e: Engine, ttl: int, now: int): Engine {
    Engine(Survivors(e, e.order, ttl, now),
           map n | n in e.services && !Stale(e, ttl, now, n) :: e.services[n])
  }

  /** One locked call. `now` is the clock reading the call takes when it touches the service. */
  datatype Event =
    | Started(name: string, now: int)
    | Completed(name: string, sig: Signal, now: int)
    | Pruned(now: int)
  {
    predicate Touches(n: string) { !Pruned? && name == n && n != "" }
  }

  datatype Result = Result(engine: Engine, reason: Option<FlushReason>)

  /** One call. `how` says what a completion is judged on: what the arrays hold, or a recount of the service's log. */
  ghost function Step(cfg: Config, e: Engine, ev: Event, how: Judging): Result
    requires cfg.Valid()
  {
    match ev
    case Started(name, now) =>
      if name == "" then Result(e, None)
      else
        var t := Touch(e, cfg.maxServices, name, now);
        Result(t.(services := t.services[name := Begin(t.services[name])]), None)
    case Completed(name, sig, now) =>
      if name == "" then Result(e, None)
      else
        var t := Touch(e, cfg.maxServices, name, now);
        var a := CompleteBy(cfg, name, t.services[name], sig, how);
        Result(t.(services := t.services[name := a.service]), a.reason)
    case Pruned(now) =>
      Result(Prune(e, cfg.serviceTtl, now), None)
  }

  /** A completion without a timestamp of its own takes the clock's. */
  function Stamped(sig: Signal, nowNs: nat): Signal {
    if sig.ms == 0 then sig.(ms := nowNs / 1_000_000) else sig
  }

  // ---- what every call keeps ----

  lemma FirstIsAlone(xs: seq<string>)
    requires NoDuplicates(xs) && xs != []
    ensures NoDuplicates(xs[1..]) && xs[0] !in xs[1..] && xs == [xs[0]] + xs[1..]
  {
  }

  lemma FirstStaysAlone(x: string, xs: seq<string>)
    requires NoDuplicates(xs) && x !in xs
    ensures NoDuplicates([x] + xs)
  {
  }

  lemma {:induction false} WithoutKeepsOthers(xs: seq<string>, x: string)
    requires NoDuplicates(xs)
    ensures NoDuplicates(Without(xs, x)) && x !in Without(xs, x)
    ensures forall y :: y in xs && y != x ==> y in Without(xs, x)
  {
    if xs != [] {
      FirstIsAlone(xs);
      WithoutKeepsOthers(xs[1..], x);
      if xs[0] != x { FirstStaysAlone(xs[0], Without(xs[1..], x)); }
    }
  }

  lemma SuffixKeepsNoDuplicates(xs: seq<string>, k: nat)
    requires NoDuplicates(xs) && k <= |xs|
    ensures NoDuplicates(xs[k..])
    ensures forall n :: n in xs[k..] <==> n in xs && n !in Front(xs, k)
  {
  }

  lemma TouchKeepsValid(e: Engine, cap: int, name: string, now: int)
    requires cap > 0 && e.Valid(cap)
    ensures Touch(e, cap, name, now).Valid(cap)
    ensures name in Touch(e, cap, name, now).services
  {
    if name in e.services {
      WithoutKeepsOthers(e.order, name);
    } else {
      var k := Excess(e, cap);
      SuffixKeepsNoDuplicates(e.order, k);
    }
  }

  lemma {:induction false} SurvivorsNoDuplicates(e: Engine, order: seq<string>, ttl: int, now: int)
    requires NoDuplicates(order)
    ensures NoDuplicates(Survivors(e, order, ttl, now)) && |Survivors(e, order, ttl, now)| <= |order|
  {
    if order != [] {
      SurvivorsNoDuplicates(e, order[..|order| - 1], ttl, now);
    }
  }

  lemma StepKeepsValid(cfg: Config, e: Engine, ev: Event, how: Judging)
    requires cfg.Valid() && e.Valid(cfg.maxServices)
    ensures Step(cfg, e, ev, how).engine.Valid(cfg.maxServices)
  {
    if ev.Pruned? {
      SurvivorsNoDuplicates(e, e.order, cfg.serviceTtl, ev.now);
    } else if ev.name != "" {
      TouchKeepsValid(e, cfg.maxServices, ev.name, ev.now);
    }
  }

  /** A call on one service leaves every other resident service as it was. */
  lemma OtherServicesUnchanged(cfg: Config, e: Engine, ev: Event, how: Judging, n: string)
    requires cfg.Valid() && e.Valid(cfg.maxServices) && n in e.services && !ev.Touches(n)
    requires n in Step(cfg, e, ev, how).engine.services
    ensures Step(cfg, e, ev, how).engine.services[n] == e.services[n]
  {
  }

  // ---- runs ----

  ghost function After(cfg: Config, evs: seq<Event>, how: Judging): Engine
    requires cfg.Valid()
  {
    if evs == [] then EMPTY
    else Step(cfg, After(cfg, evs[..|evs| - 1], how), evs[|evs| - 1], how).engine
  }

  /** What each call of the run returns. */
  ghost function Reasons(cfg: Config, evs: seq<Event>, how: Judging): seq<Option<FlushReason>>
    requires cfg.Valid()
  {
    if evs == [] then []
    else
      Reasons(cfg, evs[..|evs| - 1], how) +
      [Step(cfg, After(cfg, evs[..|evs| - 1], how), evs[|evs| - 1], how).reason]
  }

  lemma {:induction false} RunKeepsValid(cfg: Config, evs: seq<Event>, how: Judging)
    requires cfg.Valid()
    ensures After(cfg, evs, how).Valid(cfg.maxServices)
  {
    if evs != [] {
      RunKeepsValid(cfg, evs[..|evs| - 1], how);
      StepKeepsValid(cfg, After(cfg, evs[..|evs| - 1], how), evs[|evs| - 1], how);
    }
  }

  // ---- the whole run against a recount ----

  /** Completions of one service carry timestamps that never go back. */
  ghost predicate TimestampsInOrder(evs: seq<Event>) {
    forall i, j :: 0 <= i < j < |evs| && evs[i].Completed? && evs[j].Completed? && evs[i].name == evs[j].name ==>
      evs[i].sig.ms <= evs[j].sig.ms
  }

  /** The log of every resident service is in order and made of the run's completions of that service. */
  ghost predicate LogsComeFrom(e: Engine, evs: seq<Event>) {
    forall n :: n in e.services ==> InOrder(e.services[n].log) && MadeOf(e.services[n].log, evs, n)
  }

  ghost predicate MadeOf(log: seq<Signal>, evs: seq<Event>, n: string) {
    forall k :: 0 <= k < |log| ==> HasCompletion(evs, n, log[k])
  }

  ghost predicate HasCompletion(evs: seq<Event>, n: string, sig: Signal) {
    exists i :: 0 <= i < |evs| && evs[i].Completed? && evs[i].name == n && evs[i].sig == sig
  }

  lemma MadeOfMore(log: seq<Signal>, evs: seq<Event>, ev: Event, n: string)
    requires MadeOf(log, evs, n)
    ensures MadeOf(log, evs + [ev], n)
  {
    forall k | 0 <= k < |log| ensures HasCompletion(evs + [ev], n, log[k]) {
      assert HasCompletion(evs, n, log[k]);
      var i :| 0 <= i < |evs| && evs[i].Completed? && evs[i].name == n && evs[i].sig == log[k];
      assert (evs + [ev])[i] == evs[i];
    }
  }

  lemma CompletionExtendsInOrder(log: seq<Signal>, evs: seq<Event>, ev: Event)
    requires ev.Completed? && TimestampsInOrder(evs + [ev])
    requires InOrder(log) && MadeOf(log, evs, ev.name)
    ensures InOrder(log + [ev.sig]) && MadeOf(log + [ev.sig], evs + [ev], ev.name)
  {
    var all := evs + [ev];
    forall k | 0 <= k < |log| ensures log[k].ms <= ev.sig.ms {
      assert HasCompletion(evs, ev.name, log[k]);
      var i :| 0 <= i < |evs| && evs[i].Completed? && evs[i].name == ev.name && evs[i].sig == log[k];
      assert all[i] == evs[i] && all[|evs|] == ev;
    }
    MadeOfMore(log, evs, ev, ev.name);
    assert all[|evs|] == ev;
    assert HasCompletion(all, ev.name, ev.sig);
  }

  lemma JudgeKeepsLog(cfg: Config, name: string, s: Service, t: Tallies, ms: int)
    requires cfg.Valid()
    ensures Judge(cfg, name, s, t, ms).service.log == s.log
  {
    hide CheckRate;
  }

  /** A call logs its completion in the service it names, and nothing anywhere else. */
  lemma StepLog(cfg: Config, e: Engine, ev: Event, how: Judging, n: string)
    requires cfg.Valid() && n in Step(cfg, e, ev, how).engine.services
    ensures var s' := Step(cfg, e, ev, how).engine.services[n];
            if ev.Touches(n)
            then s'.log == (if n in e.services then e.services[n].log else []) + (if ev.Completed? then [ev.sig] else [])
            else n in e.services && s' == e.services[n]
  {
    hide Judge;
    hide TalliesBy;
    if ev.Completed? && ev.name != "" {
      var s := Touch(e, cfg.maxServices, ev.name, ev.now).services[ev.name];
      JudgeKeepsLog(cfg, ev.name, Logged(s, ev.sig), TalliesBy(how, s.log + [ev.sig], SecondOf(ev.sig)), ev.sig.ms);
    }
  }

  lemma StepKeepsLogs(cfg: Config, e: Engine, evs: seq<Event>, ev: Event, how: Judging)
    requires cfg.Valid() && e.Valid(cfg.maxServices) && LogsComeFrom(e, evs) && TimestampsInOrder(evs + [ev])
    ensures LogsComeFrom(Step(cfg, e, ev, how).engine, evs + [ev])
  {
    var e' := Step(cfg, e, ev, how).engine;
    forall n | n in e'.services
      ensures InOrder(e'.services[n].log) && MadeOf(e'.services[n].log, evs + [ev], n)
    {
      StepLog(cfg, e, ev, how, n);
      var log := if n in e.services then e.services[n].log else [];
      if ev.Touches(n) && ev.Completed? {
        CompletionExtendsInOrder(log, evs, ev);
      } else {
        assert log + [] == log;
        MadeOfMore(log, evs, ev, n);
      }
    }
  }

  /** The log refinement. For any run whose timestamps never go back within a service, the evaluator with its buckets,
      its running mean and its hash table returns at every call what a recount of each service's full log returns. */
  lemma {:induction false} RunIsARecount(cfg: Config, evs: seq<Event>)
    requires cfg.Valid() && TimestampsInOrder(evs)
    ensures After(cfg, evs, Buckets) == After(cfg, evs, Recounted)
    ensures Reasons(cfg, evs, Buckets) == Reasons(cfg, evs, Recounted)
    ensures LogsComeFrom(After(cfg, evs, Buckets), evs)
  {
    if evs != [] {
      var before, ev := evs[..|evs| - 1], evs[|evs| - 1];
      RunIsARecount(cfg, before);
      RunKeepsValid(cfg, before, Buckets);
      assert before + [ev] == evs;
      var e := After(cfg, before, Buckets);
      StepIsARecount(cfg, e, before, ev);
      StepKeepsLogs(cfg, e, before, ev, Buckets);
    }
  }

  lemma TouchedLog(e: Engine, evs: seq<Event>, cap: int, name: string, now: int)
    requires cap > 0 && LogsComeFrom(e, evs)
    ensures var t := Touch(e, cap, name, now);
            name in t.services && InOrder(t.services[name].log) && MadeOf(t.services[name].log, evs, name)
  {
  }

  lemma StepIsARecount(cfg: Config, e: Engine, evs: seq<Event>, ev: Event)
    requires cfg.Valid() && e.Valid(cfg.maxServices) && LogsComeFrom(e, evs) && TimestampsInOrder(evs + [ev])
    ensures Step(cfg, e, ev, Buckets) == Step(cfg, e, ev, Recounted)
  {
    if ev.Completed? && ev.name != "" {
      hide CompleteBy;
      hide TimestampsInOrder;
      hide Touch;
      TouchedLog(e, evs, cfg.maxServices, ev.name, ev.now);
      var s := Touch(e, cfg.maxServices, ev.name, ev.now).services[ev.name];
      CompletionExtendsInOrder(s.log, evs, ev);
      InOrderCompletionIsARecount(cfg, ev.name, s, ev.sig);
    }
  }

  // ---- the whole run against a plain scan ----

  /** The keys looked up by the run's completions of `n`. */
  ghost function KeysOf(evs: seq<Event>, n: string): set<nat> {
    set i | 0 <= i < |evs| && evs[i].Completed? && evs[i].name == n && IsSighting(evs[i].sig) :: evs[i].sig.keyHash
  }

  ghost function NearKeys(keys: set<nat>, key: nat): set<nat> {
    set k | k in keys && k != key && RetryTable.Close(k, key)
  }

  /** No key of a service has eight others with a home within seven slots of its own. */
  ghost predicate KeysSparse(evs: seq<Event>) {
    forall n, key :: key in KeysOf(evs, n) ==> |NearKeys(KeysOf(evs, n), key)| < 8
  }

  lemma SmallerSet(a: set<nat>, b: set<nat>)
    requires a <= b
    ensures |a| <= |b|
  {
    assert b == a + (b - a);
  }

  lemma SparsePrefix(evs: seq<Event>, ev: Event)
    requires KeysSparse(evs + [ev])
    ensures KeysSparse(evs)
  {
    var all := evs + [ev];
    forall n, key | key in KeysOf(evs, n) ensures |NearKeys(KeysOf(evs, n), key)| < 8 {
      forall k | k in KeysOf(evs, n) ensures k in KeysOf(all, n) {
        var i :| 0 <= i < |evs| && evs[i].Completed? && evs[i].name == n && IsSighting(evs[i].sig) && evs[i].sig.keyHash == k;
        assert all[i] == evs[i];
      }
      SmallerSet(NearKeys(KeysOf(evs, n), key), NearKeys(KeysOf(all, n), key));
    }
  }

  lemma {:induction false} SightingsComeFrom(log: seq<Signal>, evs: seq<Event>, n: string)
    requires MadeOf(log, evs, n)
    ensures forall j :: 0 <= j < |SightingsOf(log)| ==> SightingsOf(log)[j].key in KeysOf(evs, n)
  {
    if log != [] {
      var before, s := log[..|log| - 1], log[|log| - 1];
      SightingsComeFrom(before, evs, n);
      assert HasCompletion(evs, n, log[|log| - 1]);
    }
  }

  lemma SparseLogIsUncrowded(log: seq<Signal>, evs: seq<Event>, n: string)
    requires MadeOf(log, evs, n) && KeysSparse(evs)
    ensures Uncrowded(log)
  {
    SightingsComeFrom(log, evs, n);
    var all := SightingsOf(log);
    forall j | 0 <= j < |all| ensures |RetryTable.Neighbours(all[..j], all[j].key)| < 8 {
      SmallerSet(RetryTable.Neighbours(all[..j], all[j].key), NearKeys(KeysOf(evs, n), all[j].key));
    }
  }

  lemma StepIsAScan(cfg: Config, e: Engine, evs: seq<Event>, ev: Event)
    requires cfg.Valid() && e.Valid(cfg.maxServices) && LogsComeFrom(e, evs)
    requires TimestampsInOrder(evs + [ev]) && KeysSparse(evs + [ev])
    ensures Step(cfg, e, ev, Buckets) == Step(cfg, e, ev, Scanned)
  {
    hide CompleteBy;
    hide TimestampsInOrder;
    hide KeysSparse;
    hide Uncrowded;
    hide Touch;
    StepIsARecount(cfg, e, evs, ev);
    if ev.Completed? && ev.name != "" {
      TouchedLog(e, evs, cfg.maxServices, ev.name, ev.now);
      var s := Touch(e, cfg.maxServices, ev.name, ev.now).services[ev.name];
      CompletionExtendsInOrder(s.log, evs, ev);
      SparseLogIsUncrowded(s.log + [ev.sig], evs + [ev], ev.name);
      UncrowdedCompletionIsAScan(cfg, ev.name, s, ev.sig);
    }
  }

  /** If moreover no service looks up more than seven other keys near any one of its keys, no retry is ever missed: the
      evaluator returns at every call what a reference with the full log, a plain scan for retries and no table returns. */
  lemma {:induction false} RunIsAScan(cfg: Config, evs: seq<Event>)
    requires cfg.Valid() && TimestampsInOrder(evs) && KeysSparse(evs)
    ensures After(cfg, evs, Buckets) == After(cfg, evs, Scanned)
    ensures Reasons(cfg, evs, Buckets) == Reasons(cfg, evs, Scanned)
  {
    if evs != [] {
      var before, ev := evs[..|evs| - 1], evs[|evs| - 1];
      assert before + [ev] == evs;
      assert TimestampsInOrder(before);
      SparsePrefix(before, ev);
      RunIsAScan(cfg, before);
      RunIsARecount(cfg, before);
      RunKeepsValid(cfg, before, Buckets);
      hide KeysSparse;
      hide TimestampsInOrder;
      StepIsAScan(cfg, After(cfg, before, Buckets), before, ev);
    }
  }
}
