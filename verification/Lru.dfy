/** Which services are resident after a run, in terms of the calls alone. */
module Lru {
  import opened Options
  import opened ServiceModel
  import opened EvaluatorModel
  import opened Recount

  // ---- what the calls say, without the evaluator ----

  /** Some later call touches `n`. */
  ghost predicate TouchedIn(evs: seq<Event>, n: string) {
    exists i :: 0 <= i < |evs| && evs[i].Touches(n)
  }

  /** The distinct names touched, each where it was last touched. */
  ghost function Recency(evs: seq<Event>): seq<string> {
    if evs == [] then []
    else if !evs[0].Pruned? && evs[0].name != "" && !TouchedIn(evs[1..], evs[0].name)
    then [evs[0].name] + Recency(evs[1..])
    else Recency(evs[1..])
  }

  /** When each name was last touched. */
  ghost function LastTouch(evs: seq<Event>): map<string, int> {
    if evs == [] then map[]
    else
      var before, ev := LastTouch(evs[..|evs| - 1]), evs[|evs| - 1];
      if ev.Pruned? || ev.name == "" then before else before[ev.name := ev.now]
  }

  /** The newest pruning call. */
  ghost function LastPrune(evs: seq<Event>): Option<int> {
    if evs == [] then None
    else if evs[|evs| - 1].Pruned? then Some(evs[|evs| - 1].now)
    else LastPrune(evs[..|evs| - 1])
  }

  /** The names not idle for longer than the TTL when pruning last ran. */
  ghost function Fresh(names: seq<string>, times: map<string, int>, pruned: Option<int>, ttl: int): (r: seq<string>)
    ensures forall n :: n in r ==> n in names
  {
    if names == [] then []
    else if names[0] in times && pruned.Some? && pruned.value - times[names[0]] > ttl
    then Fresh(names[1..], times, pruned, ttl)
    else [names[0]] + Fresh(names[1..], times, pruned, ttl)
  }

  function LastN(xs: seq<string>, n: nat): seq<string> {
    if |xs| <= n then xs else xs[|xs| - n..]
  }

  /** The clock never goes back. */
  ghost predicate ClockMonotone(evs: seq<Event>) {
    forall i, j :: 0 <= i < j < |evs| ==> evs[i].now <= evs[j].now
  }

  /** Only pruning compares clock readings, so without it they may come in any order. */
  ghost predicate ClockServes(evs: seq<Event>) {
    ClockMonotone(evs) || forall i :: 0 <= i < |evs| ==> !evs[i].Pruned?
  }

  /** The residents a run should leave: of the names not pruned away, the most recently touched ones. */
  ghost function Expected(evs: seq<Event>, ttl: int, cap: nat): seq<string> {
    LastN(Fresh(Recency(evs), LastTouch(evs), LastPrune(evs), ttl), cap)
  }

  // ---- how one more call changes that ----

  lemma TouchedInAppend(evs: seq<Event>, ev: Event, n: string)
    ensures TouchedIn(evs + [ev], n) <==> TouchedIn(evs, n) || ev.Touches(n)
  {
    var all := evs + [ev];
    if TouchedIn(evs, n) {
      var i :| 0 <= i < |evs| && evs[i].Touches(n);
      assert all[i].Touches(n);
    }
    if ev.Touches(n) { assert all[|evs|].Touches(n); }
  }

  lemma {:induction false} RecencyIsTouched(evs: seq<Event>, n: string)
    ensures n in Recency(evs) <==> TouchedIn(evs, n)
  {
    if evs != [] {
      RecencyIsTouched(evs[1..], n);
      if TouchedIn(evs, n) {
        var i :| 0 <= i < |evs| && evs[i].Touches(n);
        if i > 0 { assert evs[1..][i - 1].Touches(n); }
      }
      if TouchedIn(evs[1..], n) {
        var i :| 0 <= i < |evs[1..]| && evs[1..][i].Touches(n);
        assert evs[i + 1].Touches(n);
      }
    }
  }

  lemma {:induction false} RecencyAppend(evs: seq<Event>, ev: Event)
    ensures Recency(evs + [ev]) ==
            if ev.Pruned? || ev.name == "" then Recency(evs) else Without(Recency(evs), ev.name) + [ev.name]
    ensures NoDuplicates(Recency(evs))
  {
    if evs == [] {
      assert [ev][1..] == [];
    } else {
      var rest := evs[1..];
      assert (evs + [ev])[1..] == rest + [ev];
      RecencyAppend(rest, ev);
      if !evs[0].Pruned? && evs[0].name != "" {
        TouchedInAppend(rest, ev, evs[0].name);
        RecencyIsTouched(rest, evs[0].name);
      }
    }
  }

  lemma {:induction false} LastTouchIsTouched(evs: seq<Event>, n: string)
    ensures n in LastTouch(evs) <==> TouchedIn(evs, n)
  {
    if evs != [] {
      var before, ev := evs[..|evs| - 1], evs[|evs| - 1];
      assert before + [ev] == evs;
      LastTouchIsTouched(before, n);
      TouchedInAppend(before, ev, n);
    }
  }

  ghost predicate SortedBy(names: seq<string>, times: map<string, int>) {
    && (forall i :: 0 <= i < |names| ==> names[i] in times)
    && forall i, j :: 0 <= i < j < |names| ==> times[names[i]] <= times[names[j]]
  }

  lemma ConsKeepsSorted(x: string, names: seq<string>, times: map<string, int>)
    requires SortedBy(names, times) && x in times
    requires forall i :: 0 <= i < |names| ==> times[x] <= times[names[i]]
    ensures SortedBy([x] + names, times)
  {
  }

  lemma {:induction false} WithoutKeepsSorted(names: seq<string>, x: string, times: map<string, int>)
    requires SortedBy(names, times)
    ensures SortedBy(Without(names, x), times)
  {
    if names != [] && names[0] != x {
      WithoutKeepsSorted(names[1..], x, times);
      var r := Without(names[1..], x);
      forall i | 0 <= i < |r| ensures times[names[0]] <= times[r[i]] {
        assert r[i] in names[1..];
      }
      ConsKeepsSorted(names[0], r, times);
    }
  }

  lemma {:induction false} FreshKeepsSorted(names: seq<string>, times: map<string, int>, pruned: Option<int>, ttl: int)
    requires SortedBy(names, times)
    ensures SortedBy(Fresh(names, times, pruned, ttl), times)
  {
    if names != [] {
      FreshKeepsSorted(names[1..], times, pruned, ttl);
      var r := Fresh(names[1..], times, pruned, ttl);
      forall i | 0 <= i < |r| ensures times[names[0]] <= times[r[i]] {
        assert r[i] in names[1..];
      }
      ConsKeepsSorted(names[0], r, times);
    }
  }

  lemma {:induction false} RecencyIsSorted(evs: seq<Event>)
    requires ClockMonotone(evs)
    ensures SortedBy(Recency(evs), LastTouch(evs))
    ensures forall n :: n in LastTouch(evs) ==> LastTouch(evs)[n] <= evs[|evs| - 1].now
  {
    if evs != [] {
      var before, ev := evs[..|evs| - 1], evs[|evs| - 1];
      assert before + [ev] == evs;
      RecencyIsSorted(before);
      RecencyAppend(before, ev);
      if !ev.Pruned? && ev.name != "" {
        WithoutKeepsSorted(Recency(before), ev.name, LastTouch(before));
        WithoutKeepsOthers(Recency(before), ev.name);
      }
    }
  }

  lemma {:induction false} FreshConcat(a: seq<string>, b: seq<string>, times: map<string, int>, pruned: Option<int>, ttl: int)
    ensures Fresh(a + b, times, pruned, ttl) == Fresh(a, times, pruned, ttl) + Fresh(b, times, pruned, ttl)
  {
    if a == [] {
      assert a + b == b;
    } else {
      assert (a + b)[1..] == a[1..] + b;
      FreshConcat(a[1..], b, times, pruned, ttl);
    }
  }

  lemma {:induction false} FreshIgnoresOthers(names: seq<string>, times: map<string, int>, x: string, t: int, pruned: Option<int>, ttl: int)
    requires x !in names
    ensures Fresh(names, times[x := t], pruned, ttl) == Fresh(names, times, pruned, ttl)
  {
    if names != [] { FreshIgnoresOthers(names[1..], times, x, t, pruned, ttl); }
  }

  lemma {:induction false} FreshWithout(names: seq<string>, times: map<string, int>, x: string, pruned: Option<int>, ttl: int)
    requires NoDuplicates(names)
    ensures Fresh(Without(names, x), times, pruned, ttl) == Without(Fresh(names, times, pruned, ttl), x)
  {
    if names != [] {
      assert forall i :: 0 <= i < |names[1..]| ==> names[1..][i] == names[i + 1];
      assert names[0] !in names[1..];
      FreshWithout(names[1..], times, x, pruned, ttl);
    }
  }

  /** Pruning again later only needs to look at what the earlier pruning left. */
  lemma {:induction false} FreshAbsorbs(names: seq<string>, times: map<string, int>, pruned: Option<int>, p: int, ttl: int)
    requires pruned.Some? ==> pruned.value <= p
    ensures Fresh(Fresh(names, times, pruned, ttl), times, Some(p), ttl) == Fresh(names, times, Some(p), ttl)
  {
    if names != [] { FreshAbsorbs(names[1..], times, pruned, p, ttl); }
  }

  lemma {:induction false} FreshNoDuplicates(names: seq<string>, times: map<string, int>, pruned: Option<int>, ttl: int)
    requires NoDuplicates(names)
    ensures NoDuplicates(Fresh(names, times, pruned, ttl))
  {
    if names != [] {
      FreshNoDuplicates(names[1..], times, pruned, ttl);
      assert forall i :: 0 <= i < |names[1..]| ==> names[1..][i] == names[i + 1];
      var r := Fresh(names[1..], times, pruned, ttl);
      assert forall i :: 0 <= i < |r| ==> r[i] in names[1..];
    }
  }

  /** Sorted by last touch, the idle names are a prefix. */
  ghost predicate SplitAt(names: seq<string>, times: map<string, int>, p: int, ttl: int, k: nat) {
    && k <= |names|
    && (forall i :: 0 <= i < |names| ==> names[i] in times)
    && forall i :: 0 <= i < |names| ==> (i < k <==> p - times[names[i]] > ttl)
  }

  lemma {:induction false} FindSplit(names: seq<string>, times: map<string, int>, p: int, ttl: int) returns (k: nat)
    requires SortedBy(names, times)
    ensures SplitAt(names, times, p, ttl, k)
  {
    k := 0;
    while k < |names| && p - times[names[k]] > ttl
      invariant k <= |names|
      invariant forall i :: 0 <= i < k ==> p - times[names[i]] > ttl
    {
      k := k + 1;
    }
  }

  lemma {:induction false} FreshIsSuffix(names: seq<string>, times: map<string, int>, p: int, ttl: int, k: nat)
    requires SplitAt(names, times, p, ttl, k)
    ensures Fresh(names, times, Some(p), ttl) == names[k..]
  {
    if names != [] {
      assert forall i :: 0 <= i < |names[1..]| ==> names[1..][i] == names[i + 1];
      FreshIsSuffix(names[1..], times, p, ttl, if k > 0 then k - 1 else 0);
    }
  }

  lemma FreshOfLastN(names: seq<string>, times: map<string, int>, p: int, ttl: int, cap: nat)
    requires SortedBy(names, times)
    ensures Fresh(LastN(names, cap), times, Some(p), ttl) == LastN(Fresh(names, times, Some(p), ttl), cap)
  {
    var k := FindSplit(names, times, p, ttl);
    FreshIsSuffix(names, times, p, ttl, k);
    var m := if |names| <= cap then 0 else |names| - cap;
    assert LastN(names, cap) == names[m..];
    FreshIsSuffix(names[m..], times, p, ttl, if k > m then k - m else 0);
  }

  lemma {:induction false} WithoutConcat(a: seq<string>, b: seq<string>, x: string)
    ensures Without(a + b, x) == if x in a then Without(a, x) + b else a + Without(b, x)
  {
    if a == [] {
      assert a + b == b;
    } else {
      assert (a + b)[1..] == a[1..] + b;
      if a[0] != x { WithoutConcat(a[1..], b, x); }
    }
  }

  /** One touch of a bounded recency list is one touch of the unbounded one, cut to size. */
  lemma TouchOfLastN(names: seq<string>, x: string, cap: nat)
    requires cap > 0 && NoDuplicates(names)
    ensures var l := LastN(names, cap);
            LastN(Without(names, x) + [x], cap) ==
            if x in l then Without(l, x) + [x]
            else l[if |l| >= cap then |l| - cap + 1 else 0..] + [x]
  {
    if |names| > cap {
      var m := |names| - cap;
      assert names == names[..m] + names[m..];
      TouchOfConcat(names[..m], names[m..], x);
    }
  }

  lemma TouchOfConcat(a: seq<string>, l: seq<string>, x: string)
    requires l != [] && NoDuplicates(a + l)
    ensures LastN(Without(a + l, x) + [x], |l|) == if x in l then Without(l, x) + [x] else l[1..] + [x]
  {
    hide Without;
    WithoutConcat(a, l, x);
    if x in l {
      assert x !in a by {
        var j :| 0 <= j < |l| && l[j] == x;
        assert (a + l)[|a| + j] == x;
        assert forall i :: 0 <= i < |a| ==> (a + l)[i] == a[i];
      }
      LastOfConcat(a, Without(l, x), x);
    } else {
      LastOfShift(if x in a then Without(a, x) else a, l, x);
    }
  }

  lemma LastOfConcat(a: seq<string>, b: seq<string>, x: string)
    ensures LastN(a + b + [x], |b| + 1) == b + [x]
  {
  }

  lemma LastOfShift(a: seq<string>, l: seq<string>, x: string)
    requires l != []
    ensures LastN(a + l + [x], |l|) == l[1..] + [x]
  {
  }

  // ---- the evaluator ----

  /** The seconds the evaluator keeps are the last touches. */
  ghost predicate TimesMatch(e: Engine, evs: seq<Event>) {
    forall n :: n in e.services ==> n in LastTouch(evs) && e.services[n].lastSeen == LastTouch(evs)[n]
  }

  lemma {:induction false} SurvivorsAreFresh(e: Engine, order: seq<string>, times: map<string, int>, ttl: int, p: int)
    requires forall i :: 0 <= i < |order| ==>
               order[i] in e.services && order[i] in times && e.services[order[i]].lastSeen == times[order[i]]
    ensures Survivors(e, order, ttl, p) == Fresh(order, times, Some(p), ttl)
  {
    if order != [] {
      var before, last := order[..|order| - 1], order[|order| - 1];
      SurvivorsAreFresh(e, before, times, ttl, p);
      FreshConcat(before, [last], times, Some(p), ttl);
      assert before + [last] == order;
      assert [last][1..] == [];
    }
  }

  lemma {:induction false} LastPruneIsAnEvent(evs: seq<Event>)
    ensures LastPrune(evs).Some? ==> exists i :: 0 <= i < |evs| && evs[i].Pruned? && evs[i].now == LastPrune(evs).value
  {
    if evs != [] {
      LastPruneIsAnEvent(evs[..|evs| - 1]);
    }
  }

  lemma LastPruneIsPast(evs: seq<Event>, ev: Event)
    requires ClockServes(evs + [ev])
    ensures ClockServes(evs) && (ClockMonotone(evs + [ev]) ==> ClockMonotone(evs))
    ensures LastPrune(evs).Some? ==> LastPrune(evs).value <= ev.now
  {
    var all := evs + [ev];
    assert forall i :: 0 <= i < |evs| ==> evs[i] == all[i];
    assert all[|evs|] == ev && forall i :: 0 <= i < |evs| ==> all[i] == evs[i];
    LastPruneIsAnEvent(evs);
  }

  /** How the order and the last-touch times of one call relate to those of the previous state. */
  lemma StepOrder(cfg: Config, e: Engine, ev: Event, how: Judging)
    requires cfg.Valid() && e.Valid(cfg.maxServices)
    ensures var e', cap := Step(cfg, e, ev, how).engine, cfg.maxServices;
            && e'.order ==
               (if ev.Pruned? then Survivors(e, e.order, cfg.serviceTtl, ev.now)
                else if ev.name == "" then e.order
                else if ev.name in e.order then Without(e.order, ev.name) + [ev.name]
                else e.order[Excess(e, cap)..] + [ev.name])
            && (forall n :: n in e'.services ==>
                  if ev.Touches(n) then e'.services[n].lastSeen == ev.now
                  else n in e.services && e'.services[n].lastSeen == e.services[n].lastSeen)
  {
    hide Judge;
    hide ViewOf;
    if ev.Completed? {
      forall s: Service, t: Tallies ensures Judge(cfg, ev.name, s, t, ev.sig.ms).service.lastSeen == s.lastSeen {
        JudgeKeepsLastSeen(cfg, ev.name, s, t, ev.sig.ms);
      }
    }
  }

  lemma JudgeKeepsLastSeen(cfg: Config, name: string, s: Service, t: Tallies, ms: int)
    requires cfg.Valid()
    ensures Judge(cfg, name, s, t, ms).service.lastSeen == s.lastSeen
  {
  }

  lemma TouchStep(cfg: Config, evs: seq<Event>, ev: Event, names: seq<string>)
    requires cfg.Valid() && !ev.Pruned? && ev.name != "" && NoDuplicates(Recency(evs))
    requires LastPrune(evs).Some? ==> LastPrune(evs).value <= ev.now
    requires names == Fresh(Recency(evs), LastTouch(evs), LastPrune(evs), cfg.serviceTtl)
    ensures Fresh(Recency(evs + [ev]), LastTouch(evs + [ev]), LastPrune(evs + [ev]), cfg.serviceTtl) ==
            Without(names, ev.name) + [ev.name]
  {
    var r, times, pruned, ttl, x := Recency(evs), LastTouch(evs), LastPrune(evs), cfg.serviceTtl, ev.name;
    var times' := times[x := ev.now];
    assert (evs + [ev])[..|evs|] == evs;
    RecencyAppend(evs, ev);
    FreshConcat(Without(r, x), [x], times', pruned, ttl);
    assert [x][1..] == [];
    assert Fresh([x], times', pruned, ttl) == [x];
    WithoutKeepsOthers(r, x);
    FreshIgnoresOthers(Without(r, x), times, x, ev.now, pruned, ttl);
    FreshWithout(r, times, x, pruned, ttl);
  }

  lemma PruneStep(cfg: Config, e: Engine, evs: seq<Event>, ev: Event)
    requires cfg.Valid() && e.Valid(cfg.maxServices) && ev.Pruned? && ClockMonotone(evs + [ev])
    requires e.order == Expected(evs, cfg.serviceTtl, cfg.maxServices) && TimesMatch(e, evs)
    ensures Survivors(e, e.order, cfg.serviceTtl, ev.now) == Expected(evs + [ev], cfg.serviceTtl, cfg.maxServices)
  {
    var r, times, pruned, ttl := Recency(evs), LastTouch(evs), LastPrune(evs), cfg.serviceTtl;
    assert (evs + [ev])[..|evs|] == evs;
    hide ClockMonotone;
    hide NoDuplicates;
    RecencyAppend(evs, ev);
    LastPruneIsPast(evs, ev);
    RecencyIsSorted(evs);
    SurvivorsAreFresh(e, e.order, times, ttl, ev.now);
    FreshKeepsSorted(r, times, pruned, ttl);
    FreshOfLastN(Fresh(r, times, pruned, ttl), times, ev.now, ttl, cfg.maxServices);
    FreshAbsorbs(r, times, pruned, ev.now, ttl);
  }

  lemma TouchedOrder(cfg: Config, e: Engine, evs: seq<Event>, ev: Event)
    requires cfg.Valid() && e.Valid(cfg.maxServices) && !ev.Pruned? && ev.name != "" && ClockServes(evs + [ev])
    requires e.order == Expected(evs, cfg.serviceTtl, cfg.maxServices)
    ensures (if ev.name in e.order then Without(e.order, ev.name) + [ev.name]
             else e.order[Excess(e, cfg.maxServices)..] + [ev.name]) ==
            Expected(evs + [ev], cfg.serviceTtl, cfg.maxServices)
  {
    hide ClockServes;
    hide NoDuplicates;
    hide Fresh;
    hide Recency;
    hide LastTouch;
    hide LastPrune;
    hide Without;
    hide LastN;
    hide Engine.Valid;
    var r, times, pruned, ttl := Recency(evs), LastTouch(evs), LastPrune(evs), cfg.serviceTtl;
    var names := Fresh(r, times, pruned, ttl);
    RecencyAppend(evs, ev);
    LastPruneIsPast(evs, ev);
    FreshNoDuplicates(r, times, pruned, ttl);
    TouchStep(cfg, evs, ev, names);
    TouchOfLastN(names, ev.name, cfg.maxServices);
  }

  lemma ResidentsAfterStep(cfg: Config, e: Engine, evs: seq<Event>, ev: Event, how: Judging)
    requires cfg.Valid() && e.Valid(cfg.maxServices) && ClockServes(evs + [ev])
    requires e.order == Expected(evs, cfg.serviceTtl, cfg.maxServices) && TimesMatch(e, evs)
    ensures Step(cfg, e, ev, how).engine.order == Expected(evs + [ev], cfg.serviceTtl, cfg.maxServices)
    ensures TimesMatch(Step(cfg, e, ev, how).engine, evs + [ev])
  {
    hide Step;
    hide Expected;
    StepOrder(cfg, e, ev, how);
    TimesAfterStep(cfg, e, evs, ev, how);
    if ev.Pruned? {
      assert (evs + [ev])[|evs|] == ev;
      PruneStep(cfg, e, evs, ev);
    } else if ev.name != "" {
      TouchedOrder(cfg, e, evs, ev);
    } else {
      IdleStep(cfg, evs, ev);
    }
  }

  lemma IdleStep(cfg: Config, evs: seq<Event>, ev: Event)
    requires cfg.Valid() && !ev.Pruned? && ev.name == ""
    ensures Expected(evs + [ev], cfg.serviceTtl, cfg.maxServices) == Expected(evs, cfg.serviceTtl, cfg.maxServices)
  {
    hide Fresh;
    assert (evs + [ev])[..|evs|] == evs;
    RecencyAppend(evs, ev);
  }

  lemma TimesAfterStep(cfg: Config, e: Engine, evs: seq<Event>, ev: Event, how: Judging)
    requires cfg.Valid() && e.Valid(cfg.maxServices) && TimesMatch(e, evs)
    ensures TimesMatch(Step(cfg, e, ev, how).engine, evs + [ev])
  {
    hide Step;
    StepOrder(cfg, e, ev, how);
    assert (evs + [ev])[..|evs|] == evs;
  }

  /** Whole runs: the residents are exactly the `MaxServices` most recently touched names among those that were
      not idle for longer than the TTL when pruning last ran, and `order` lists them oldest touch first. If there
      is any pruning, the clock must not go back. */
  lemma {:induction false} ResidentsAreTheMostRecent(cfg: Config, evs: seq<Event>, how: Judging)
    requires cfg.Valid() && ClockServes(evs)
    ensures After(cfg, evs, how).order == Expected(evs, cfg.serviceTtl, cfg.maxServices)
    ensures TimesMatch(After(cfg, evs, how), evs)
  {
    if evs != [] {
      var before, ev := evs[..|evs| - 1], evs[|evs| - 1];
      assert before + [ev] == evs;
      LastPruneIsPast(before, ev);
      ResidentsAreTheMostRecent(cfg, before, how);
      RunKeepsValid(cfg, before, how);
      ResidentsAfterStep(cfg, After(cfg, before, how), before, ev, how);
    }
  }

  /** A larger cap keeps everything a smaller one keeps. */
  lemma LargerCapKeepsMore(cfg: Config, larger: Config, evs: seq<Event>, how: Judging)
    requires cfg.Valid() && larger.Valid() && ClockServes(evs)
    requires cfg.serviceTtl == larger.serviceTtl && cfg.maxServices <= larger.maxServices
    ensures After(cfg, evs, how).services.Keys <= After(larger, evs, how).services.Keys
  {
    hide Step;
    hide Fresh;
    hide Recency;
    hide After;
    hide LastN;
    ResidentsAreTheMostRecent(cfg, evs, how);
    ResidentsAreTheMostRecent(larger, evs, how);
    RunKeepsValid(cfg, evs, how);
    RunKeepsValid(larger, evs, how);
    LastNIsMonotone(Fresh(Recency(evs), LastTouch(evs), LastPrune(evs), cfg.serviceTtl), cfg.maxServices, larger.maxServices);
  }

  lemma LastNIsMonotone(names: seq<string>, a: nat, b: nat)
    requires a <= b
    ensures forall n :: n in LastN(names, a) ==> n in LastN(names, b)
  {
  }

  /** Pruning removes a prefix of the order: exactly the services idle for longer than the TTL. */
  lemma PruneRemovesAPrefix(cfg: Config, evs: seq<Event>, now: int, how: Judging) returns (k: nat)
    requires cfg.Valid() && ClockMonotone(evs)
    ensures var e := After(cfg, evs, how);
            && k <= |e.order|
            && Prune(e, cfg.serviceTtl, now).order == e.order[k..]
            && (forall i :: 0 <= i < |e.order| ==>
                  e.order[i] in e.services && (i < k <==> now - e.services[e.order[i]].lastSeen > cfg.serviceTtl))
  {
    var e, times := After(cfg, evs, how), LastTouch(evs);
    ResidentsAreTheMostRecent(cfg, evs, how);
    RunKeepsValid(cfg, evs, how);
    RecencyIsSorted(evs);
    FreshKeepsSorted(Recency(evs), times, LastPrune(evs), cfg.serviceTtl);
    assert SortedBy(e.order, times);
    k := FindSplit(e.order, times, now, cfg.serviceTtl);
    SurvivorsAreFresh(e, e.order, times, cfg.serviceTtl, now);
    FreshIsSuffix(e.order, times, now, cfg.serviceTtl, k);
  }
}
