/** Go's Evaluator: a map of service states updated in place and the order of last touches.
    Each call is one critical section; clock readings are parameters. */
module Evaluator {
  import opened Options
  import opened ServiceModel
  import opened EvaluatorModel
  import opened Recount
  import opened ServiceState

  class Evaluator {
    const cfg: Config
    var services: map<string, State>
    var order: seq<string>

    ghost function Footprint(): set<object>
      reads this
    {
      set n, o | n in services && o in services[n].Repr :: o
    }

    ghost predicate Separate()
      reads this
    {
      && (forall n :: n in services ==> services[n] in services[n].Repr && this !in services[n].Repr)
      && forall m, n :: m in services && n in services && m != n ==> services[m].Repr !! services[n].Repr
    }

    /** Every state is valid, whatever the order says. */
    ghost predicate Sound()
      reads this, Footprint()
    {
      && cfg.Valid()
      && Separate()
      && forall n :: n in services ==> services[n].Valid()
    }

    ghost predicate Valid()
      reads this, Footprint()
    {
      Sound() && Model().Valid(cfg.maxServices)
    }

    ghost function Model(): Engine
      reads this, Footprint()
      requires Separate()
    {
      Engine(order, map n | n in services :: services[n].Model())
    }

    constructor (config: Config)
      requires config.Valid()
      ensures Valid() && cfg == config && Model() == EMPTY && Footprint() == {}
    {
      cfg := config;
      services := map[];
      order := [];
    }

    method OnRequestStart(service: string, now: int)
      requires Valid()
      modifies this, Footprint()
      ensures Valid() && fresh(Footprint() - old(Footprint()))
      ensures Result(Model(), None) == Step(cfg, old(Model()), Started(service, now), Buckets)
    {
      hide Step;
      hide Touch;
      hide State.Valid;
      hide State.Model;
      hide ServiceModel.Begin;
      UnnamedStep(cfg, Model(), Started(service, now));
      if service == "" {
        return;
      }
      StepKeepsValid(cfg, Model(), Started(service, now), Buckets);
      StartedStep(cfg, Model(), service, now);
      var st := TouchService(service, now);
      label touched:
      st.Begin();
      OneServiceChanged@touched(service);
    }

    /** `nowNs` is the clock on entry, used only when the signal has no timestamp; `now` is read when the service is touched. */
    method OnRequestComplete(service: string, signal: Signal, nowNs: nat, now: int) returns (r: Option<FlushReason>)
      requires Valid()
      modifies this, Footprint()
      ensures Valid() && fresh(Footprint() - old(Footprint()))
      ensures Result(Model(), r) == Step(cfg, old(Model()), Completed(service, Stamped(signal, nowNs), now), Buckets)
    {
      hide Step;
      hide Touch;
      hide State.Valid;
      hide State.Model;
      hide ServiceModel.Complete;
      UnnamedStep(cfg, Model(), Completed(service, Stamped(signal, nowNs), now));
      if service == "" {
        return None;
      }
      var sig := Stamped(signal, nowNs);
      StepKeepsValid(cfg, Model(), Completed(service, sig, now), Buckets);
      CompletedStep(cfg, Model(), service, sig, now);
      var st := TouchService(service, now);
      label touched:
      r := st.Complete(cfg, service, sig);
      OneServiceChanged@touched(service);
    }

    /** Changing the state of one service changes the model at that service only. */
    twostate lemma OneServiceChanged(service: string)
      requires old(Sound()) && service in old(services)
      requires services == old(services) && order == old(order)
      requires services[service].Valid()
      requires forall o :: o in old(Footprint()) && o !in old(services[service].Repr) ==> unchanged(o)
      ensures Sound() && Footprint() == old(Footprint())
      ensures Model() == old(Model()).(services := old(Model()).services[service := services[service].Model()])
    {
      hide State.Valid;
      hide State.Model;
      forall n | n in services && n != service
        ensures services[n].Valid() && services[n].Model() == old(services[n].Model())
      {
        assert services[n].Repr !! services[service].Repr;
        assert forall o :: o in services[n].Repr ==> o in old(Footprint());
      }
    }

    /** Go's touch. */
    method TouchService(service: string, now: int) returns (st: State)
      requires Valid()
      modifies this, Footprint()
      ensures Sound() && fresh(Footprint() - old(Footprint()))
      ensures service in services && st == services[service]
      ensures Model() == Touch(old(Model()), cfg.maxServices, service, now)
    {
      hide Touch;
      if service !in services {
        st := AdmitService(service, now);
      } else {
        st := TouchResident(service, now);
      }
    }

    method TouchResident(service: string, now: int) returns (st: State)
      requires Valid() && service in services
      modifies this, Footprint()
      ensures Sound() && Footprint() == old(Footprint())
      ensures service in services && st == services[service]
      ensures Model() == Touch(old(Model()), cfg.maxServices, service, now)
    {
      hide State.Valid;
      hide State.Model;
      hide Without;
      MoveServiceToTail(service);
      st := services[service];
      label moved:
      st.See(now);
      OneServiceChanged@moved(service);
    }

    lemma ValidLists()
      requires Valid()
      ensures Sound() && Lists(order, services.Keys) && cfg.maxServices > 0
    {
      hide State.Valid;
      hide State.Model;
    }

    method AdmitService(service: string, now: int) returns (st: State)
      requires Valid() && service !in services
      modifies this
      ensures Sound() && fresh(Footprint() - old(Footprint()))
      ensures service in services && st == services[service]
      ensures Model() == Touch(old(Model()), cfg.maxServices, service, now)
    {
      hide Valid;
      hide State.Valid;
      hide State.Model;
      hide Front;
      hide Lists;
      ValidLists();
      ghost var k := EvictForOne();
      ServicesDropped(Front(old(order), k));
      label evicted:
      st := new State();
      services := services[service := st];
      order := order + [service];
      st.See(now);
      Admitted@evicted(service, st);
      AdmittedModel@evicted(service, st);
    }

    /** A freshly allocated state joins the others. */
    twostate lemma Admitted(service: string, new st: State)
      requires old(Sound()) && service !in old(services)
      requires services == old(services)[service := st] && st.Valid() && fresh(st.Repr)
      requires forall o :: o in old(Footprint()) ==> unchanged(o)
      ensures Sound() && fresh(Footprint() - old(Footprint()))
    {
      hide State.Valid;
      hide State.Model;
      forall n | n in old(services) ensures services[n].Valid() && services[n].Repr !! st.Repr {
        assert forall o :: o in services[n].Repr ==> o in old(Footprint());
      }
    }

    twostate lemma AdmittedModel(service: string, new st: State)
      requires old(Sound()) && service !in old(services) && Separate()
      requires services == old(services)[service := st]
      requires forall o :: o in old(Footprint()) ==> unchanged(o)
      ensures Model().services == old(Model()).services[service := st.Model()]
    {
      hide State.Valid;
      hide State.Model;
      forall n | n in old(services) ensures services[n].Model() == old(services[n].Model()) {
        assert forall o :: o in services[n].Repr ==> o in old(Footprint());
      }
    }

    /** Dropping services leaves the others as they were. */
    twostate lemma ServicesDropped(gone: set<string>)
      requires old(Sound()) && services == old(services) - gone
      requires forall o :: o in old(Footprint()) ==> unchanged(o)
      ensures Sound() && Footprint() <= old(Footprint())
      ensures Model() == Engine(order, old(Model()).services - gone)
    {
      hide State.Valid;
      hide State.Model;
      forall n | n in services
        ensures services[n].Valid() && services[n].Model() == old(services[n].Model())
      {
        assert forall o :: o in services[n].Repr ==> o in old(Footprint());
      }
    }

    /** The eviction loop: the oldest services go until there is room for one more. */
    method EvictForOne() returns (ghost k: nat)
      requires Lists(order, services.Keys) && cfg.maxServices > 0
      modifies this`services, this`order
      ensures k == if |old(order)| >= cfg.maxServices then |old(order)| - cfg.maxServices + 1 else 0
      ensures k <= |old(order)| && order == old(order)[k..] && services == old(services) - Front(old(order), k)
    {
      hide Lists;
      k := 0;
      ghost var before, m := order, services;
      NamesCount(order, services.Keys);
      while |services| >= cfg.maxServices && |order| > 0
        invariant k <= |before| && order == before[k..] && (k == 0 || |order| + 1 >= cfg.maxServices)
        invariant |services| == |order| && Lists(order, services.Keys)
        invariant forall n :: n in services ==> n in m && services[n] == m[n]
      {
        assert before[k..][1..] == before[k + 1..];
        DropOldest(order, services);
        var oldest := order[0];
        order := order[1..];
        services := services - {oldest};
        k := k + 1;
      }
      ListedRest(before, m, k, services);
    }

    method MoveServiceToTail(service: string)
      modifies this`order
      ensures order == Without(old(order), service) + [service]
    {
      var i := 0;
      while i < |order|
        invariant i <= |order| && order == old(order)
        invariant service !in order[..i]
      {
        if order[i] == service {
          WithoutAt(order, i, service);
          order := order[..i] + order[i + 1..];
          break;
        }
        i := i + 1;
      }
      order := order + [service];
    }

    /** Drops every service idle for longer than the TTL and reports how many went. */
    method PruneStale(now: int) returns (removed: int)
      requires Valid()
      modifies this
      ensures Valid() && Footprint() <= old(Footprint())
      ensures Result(Model(), None) == Step(cfg, old(Model()), Pruned(now), Buckets)
      ensures removed == |old(order)| - |order|
    {
      hide State.Valid;
      hide Survivors;
      hide Step;
      ghost var e := Model();
      StepKeepsValid(cfg, e, Pruned(now), Buckets);
      PrunedStep(cfg, e, now);
      removed := DropStale(now, e);
      ServicesDropped(set n | n in e.services && Stale(e, cfg.serviceTtl, now, n));
    }

    /** The pruning loop; `e` is the model it starts from. */
    method DropStale(now: int, ghost e: Engine) returns (removed: int)
      requires e.order == order && NoDuplicates(order) && (forall n :: n in order <==> n in services)
      requires e.services.Keys == services.Keys
      requires forall n :: n in services ==> services[n].lastSeen == e.services[n].lastSeen
      modifies this`services, this`order
      ensures order == Survivors(e, e.order, cfg.serviceTtl, now) && removed == |e.order| - |order|
      ensures services == old(services) - set n | n in e.services && Stale(e, cfg.serviceTtl, now, n)
    {
      hide Survivors;
      hide NoDuplicates;
      hide WithoutStale;
      removed := 0;
      var survivors := [];
      var i := 0;
      ghost var m := services;
      PruneStarts(e, services, cfg.serviceTtl, now);
      while i < |order|
        invariant i <= |order| && order == e.order
        invariant survivors == Survivors(e, order[..i], cfg.serviceTtl, now)
        invariant removed == i - |survivors|
        invariant WithoutStale(services, m, e, order[..i], cfg.serviceTtl, now)
      {
        var name := order[i];
        PruneNext(e, services, m, i, cfg.serviceTtl, now);
        if now - services[name].lastSeen > cfg.serviceTtl {
          services := services - {name};
          removed := removed + 1;
        } else {
          survivors := survivors + [name];
        }
        i := i + 1;
      }
      PruneEnds(e, services, m, cfg.serviceTtl, now);
      order := survivors;
    }
  }

  /** `rest` is `m` without the stale ones among `names`. */
  ghost predicate WithoutStale<T>(rest: map<string, T>, m: map<string, T>, e: Engine, names: seq<string>, ttl: int, now: int) {
    && (forall n :: n in rest ==> n in m && rest[n] == m[n])
    && forall n :: n in m ==> (n in rest <==> !(n in names && Stale(e, ttl, now, n)))
  }

  /** `order` lists the names of `s`, once each. */
  ghost predicate Lists(order: seq<string>, s: set<string>) {
    NoDuplicates(order) && forall n :: n in order <==> n in s
  }

  /** A part of a map that lists a suffix of its names is the map without the names before it. */
  lemma ListedRest<T>(before: seq<string>, m: map<string, T>, k: nat, rest: map<string, T>)
    requires k <= |before| && Lists(before, m.Keys) && Lists(before[k..], rest.Keys)
    requires forall n :: n in rest ==> n in m && rest[n] == m[n]
    ensures rest == m - Front(before, k)
  {
    SuffixKeepsNoDuplicates(before, k);
    assert rest.Keys == m.Keys - Front(before, k);
  }

  lemma DropOldest<T>(order: seq<string>, m: map<string, T>)
    requires order != [] && Lists(order, m.Keys)
    ensures var m' := m - {order[0]};
            Lists(order[1..], m'.Keys) && |m'| == |order[1..]|
  {
    var m' := m - {order[0]};
    SuffixKeepsNoDuplicates(order, 1);
    assert m'.Keys == m.Keys - {order[0]};
    NamesCount(order[1..], m'.Keys);
  }

  lemma PruneStarts<T>(e: Engine, m: map<string, T>, ttl: int, now: int)
    ensures e.order[..0] == [] && Survivors(e, [], ttl, now) == []
    ensures WithoutStale(m, m, e, [], ttl, now)
  {
  }

  lemma PruneNext<T>(e: Engine, rest: map<string, T>, m: map<string, T>, i: nat, ttl: int, now: int)
    requires i < |e.order| && NoDuplicates(e.order) && m.Keys == e.services.Keys && e.order[i] in m
    requires WithoutStale(rest, m, e, e.order[..i], ttl, now)
    ensures var n := e.order[i];
            && n in rest && rest[n] == m[n]
            && Survivors(e, e.order[..i + 1], ttl, now) ==
               (if Stale(e, ttl, now, n) then Survivors(e, e.order[..i], ttl, now)
                else Survivors(e, e.order[..i], ttl, now) + [n])
            && WithoutStale(if Stale(e, ttl, now, n) then rest - {n} else rest, m, e, e.order[..i + 1], ttl, now)
  {
    hide Survivors;
    hide Stale;
    hide NoDuplicates;
    SurvivorsNext(e, i, ttl, now);
    NameNotBefore(e.order, i);
    WithoutOneMore(rest, m, e, e.order[..i], e.order[..i + 1], e.order[i], ttl, now);
  }

  lemma WithoutOneMore<T>(rest: map<string, T>, m: map<string, T>, e: Engine, names: seq<string>, more: seq<string>, n: string,
                          ttl: int, now: int)
    requires WithoutStale(rest, m, e, names, ttl, now) && n !in names && n in m && m.Keys == e.services.Keys
    requires forall x :: x in more <==> x in names || x == n
    ensures n in rest && rest[n] == m[n]
    ensures WithoutStale(if Stale(e, ttl, now, n) then rest - {n} else rest, m, e, more, ttl, now)
  {
    hide Stale;
  }

  lemma NameNotBefore(order: seq<string>, i: nat)
    requires NoDuplicates(order) && i < |order|
    ensures order[i] !in order[..i]
    ensures forall n :: n in order[..i + 1] <==> n in order[..i] || n == order[i]
  {
  }

  lemma SurvivorsNext(e: Engine, i: nat, ttl: int, now: int)
    requires i < |e.order|
    ensures var n, r := e.order[i], Survivors(e, e.order[..i], ttl, now);
            Survivors(e, e.order[..i + 1], ttl, now) == if Stale(e, ttl, now, n) then r else r + [n]
  {
    assert e.order[..i + 1][..i] == e.order[..i];
  }

  lemma PruneEnds<T>(e: Engine, rest: map<string, T>, m: map<string, T>, ttl: int, now: int)
    requires m.Keys == e.services.Keys && forall n :: n in e.order <==> n in m
    requires WithoutStale(rest, m, e, e.order[..|e.order|], ttl, now)
    ensures e.order[..|e.order|] == e.order
    ensures rest == m - set n | n in e.services && Stale(e, ttl, now, n)
  {
  }

  lemma UnnamedStep(cfg: Config, e: Engine, ev: Event)
    requires cfg.Valid() && !ev.Pruned?
    ensures ev.name == "" ==> Step(cfg, e, ev, Buckets) == Result(e, None)
  {
    hide CompleteBy;
  }

  lemma PrunedStep(cfg: Config, e: Engine, now: int)
    requires cfg.Valid()
    ensures Step(cfg, e, Pruned(now), Buckets) ==
            Result(Engine(Survivors(e, e.order, cfg.serviceTtl, now),
                          e.services - set n | n in e.services && Stale(e, cfg.serviceTtl, now, n)), None)
  {
  }

  lemma StartedStep(cfg: Config, e: Engine, name: string, now: int)
    requires cfg.Valid() && name != ""
    ensures var t := Touch(e, cfg.maxServices, name, now);
            && name in t.services
            && Step(cfg, e, Started(name, now), Buckets) ==
               Result(t.(services := t.services[name := ServiceModel.Begin(t.services[name])]), None)
  {
  }

  lemma CompletedStep(cfg: Config, e: Engine, name: string, sig: Signal, now: int)
    requires cfg.Valid() && name != ""
    ensures var t := Touch(e, cfg.maxServices, name, now);
            && name in t.services
            && var a := ServiceModel.Complete(cfg, name, t.services[name], sig);
               Step(cfg, e, Completed(name, sig, now), Buckets) ==
               Result(t.(services := t.services[name := a.service]), a.reason)
  {
    hide Judge;
    hide LiveTallies;
  }

  lemma {:induction false} NamesCount(names: seq<string>, s: set<string>)
    requires Lists(names, s)
    ensures |names| == |s|
  {
    if names != [] {
      assert forall i :: 0 <= i < |names[1..]| ==> names[1..][i] == names[i + 1];
      assert names[0] !in names[1..];
      NamesCount(names[1..], s - {names[0]});
    } else {
      assert s == {};
    }
  }
}
