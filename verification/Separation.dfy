/** Calls in the log of the ring: which inserts and drains one `ConsumeTraces` makes, and that the spans of different
    traces are never kept, sent or queued together. */
module Separation {
  import opened Spans
  import opened RingModel
  import Isolation
  import Flow

  // ---- what a call adds to the log ----

  /** The inserts for one resource: for each trace id in turn its isolated copy, each with a clock reading of its own. */
  function Inserts(rs: ResourceSpans, tids: seq<TraceId>, clock: nat -> int): (evs: seq<Event>)
    ensures |evs| == |tids|
    ensures forall j :: 0 <= j < |evs| ==> evs[j] == Inserted(tids[j], Isolation.Isolated(rs, tids[j]), clock(j))
  {
    seq(|tids|, j requires 0 <= j < |tids| => Inserted(tids[j], Isolation.Isolated(rs, tids[j]), clock(j)))
  }

  function BatchInserts(rss: seq<ResourceSpans>, orders: seq<seq<TraceId>>, clock: nat -> nat -> int): seq<Event>
    requires |orders| == |rss|
  {
    if rss == [] then []
    else
      var n := |rss| - 1;
      BatchInserts(rss[..n], orders[..n], clock) + Inserts(rss[n], orders[n], clock(n))
  }

  function Drains(tids: seq<TraceId>): (evs: seq<Event>)
    ensures |evs| == |tids| && forall j :: 0 <= j < |evs| ==> evs[j] == Drained(tids[j])
  {
    seq(|tids|, j requires 0 <= j < |tids| => Drained(tids[j]))
  }

  lemma InsertsNext(log: seq<Event>, rs: ResourceSpans, tids: seq<TraceId>, clock: nat -> int)
    requires tids != []
    ensures var n := |tids| - 1;
            log + Inserts(rs, tids, clock) ==
            log + Inserts(rs, tids[..n], clock) + [Inserted(tids[n], Isolation.Isolated(rs, tids[n]), clock(n))]
  {
    hide Isolation.Isolated;
  }

  lemma {:induction false} InsertsHappen(l: Limits, log: seq<Event>, rs: ResourceSpans, tids: seq<TraceId>, clock: nat -> int)
    ensures Flow.InsertAll(Flow.Bounds(l.window, l.cap), After(l, log), rs, tids, clock) ==
            After(l, log + Inserts(rs, tids, clock))
  {
    hide RingModel.Insert;
    hide After;
    hide Inserts;
    hide Isolation.Isolated;
    if tids == [] {
      assert log + Inserts(rs, tids, clock) == log;
    } else {
      var n := |tids| - 1;
      InsertsHappen(l, log, rs, tids[..n], clock);
      InsertsNext(log, rs, tids, clock);
      LogNext(l, log + Inserts(rs, tids[..n], clock), Inserted(tids[n], Isolation.Isolated(rs, tids[n]), clock(n)));
    }
  }

  lemma BatchNext(log: seq<Event>, rss: seq<ResourceSpans>, orders: seq<seq<TraceId>>, clock: nat -> nat -> int)
    requires |orders| == |rss|
    ensures rss == [] ==> log + BatchInserts(rss, orders, clock) == log
    ensures rss != [] ==>
              var n := |rss| - 1;
              log + BatchInserts(rss, orders, clock) ==
              log + BatchInserts(rss[..n], orders[..n], clock) + Inserts(rss[n], orders[n], clock(n))
  {
    hide Inserts;
  }

  lemma {:induction false} BatchHappens(l: Limits, log: seq<Event>, rss: seq<ResourceSpans>, orders: seq<seq<TraceId>>,
                                        clock: nat -> nat -> int)
    requires |orders| == |rss|
    ensures Flow.Buffered(Flow.Bounds(l.window, l.cap), After(l, log), rss, orders, clock) ==
            After(l, log + BatchInserts(rss, orders, clock))
  {
    hide Flow.InsertAll;
    hide After;
    hide Inserts;
    hide BatchInserts;
    BatchNext(log, rss, orders, clock);
    if rss != [] {
      var n := |rss| - 1;
      BatchHappens(l, log, rss[..n], orders[..n], clock);
      InsertsHappen(l, log + BatchInserts(rss[..n], orders[..n], clock), rss[n], orders[n], clock(n));
    }
  }

  lemma DrainsNext(log: seq<Event>, tids: seq<TraceId>)
    ensures tids == [] ==> log + Drains(tids) == log
    ensures tids != [] ==> log + Drains(tids) == log + Drains(tids[..|tids| - 1]) + [Drained(tids[|tids| - 1])]
  {
  }

  lemma {:induction false} DrainsHappen(l: Limits, log: seq<Event>, tids: seq<TraceId>)
    ensures Flow.RemovedAll(After(l, log), tids) == After(l, log + Drains(tids))
  {
    hide RingModel.Removed;
    hide After;
    hide Drains;
    DrainsNext(log, tids);
    if tids != [] {
      var n := |tids| - 1;
      DrainsHappen(l, log, tids[..n]);
      LogNext(l, log + Drains(tids[..n]), Drained(tids[n]));
    }
  }

  /** One call is, in the log of the ring, the inserts of its resources in turn and then the drains of its targets;
      so whatever is proved of every run of the ring holds across calls. */
  lemma CallIsInTheLog(l: Limits, log: seq<Event>, rss: seq<ResourceSpans>, orders: seq<seq<TraceId>>,
                       clock: nat -> nat -> int, flushed: seq<TraceId>)
    requires |orders| == |rss|
    ensures Flow.RemovedAll(Flow.Buffered(Flow.Bounds(l.window, l.cap), After(l, log), rss, orders, clock), flushed) ==
            After(l, log + BatchInserts(rss, orders, clock) + Drains(flushed))
  {
    BatchHappens(l, log, rss, orders, clock);
    DrainsHappen(l, log + BatchInserts(rss, orders, clock), flushed);
  }

  // ---- traces stay apart ----

  /** Every span of the chunks is of this trace. */
  ghost predicate OfTrace(chunks: seq<ResourceSpans>, tid: TraceId) {
    forall c, s :: c in chunks && s in SpansOf(c) ==> s.traceId == tid
  }

  /** Each trace holds its own spans only. */
  ghost predicate Apart(ts: seq<Trace>) {
    forall t :: t in ts ==> OfTrace(t.entry.chunks, t.id)
  }

  /** What was inserted for a trace was of that trace. */
  ghost predicate ApartLog(evs: seq<Event>) {
    forall i :: 0 <= i < |evs| && evs[i].Inserted? ==> OfTrace([evs[i].chunk], evs[i].id)
  }

  lemma IsolatedIsOfTrace(rs: ResourceSpans, tid: TraceId)
    ensures OfTrace([Isolation.Isolated(rs, tid)], tid)
  {
    Isolation.IsolatedHoldsTheTrace(rs.scopes, tid);
  }

  lemma HeldIsOfTrace(ts: seq<Trace>, tid: TraceId)
    requires Apart(ts)
    ensures OfTrace(ChunksOf(ts, tid), tid)
  {
    var i := IndexOf(ts, tid);
    if i < |ts| { assert ts[i] in ts; }
  }

  /** In every run of the ring that inserts isolated copies, no trace ever holds another trace's span. */
  lemma {:induction false} TracesNeverMix(l: Limits, evs: seq<Event>)
    requires ApartLog(evs)
    ensures Apart(After(l, evs))
  {
    if evs != [] {
      hide Step;
      hide OfTrace;
      hide DistinctIds;
      hide ChunksOf;
      var before, ev := evs[..|evs| - 1], evs[|evs| - 1];
      var ts := After(l, before);
      TracesNeverMix(l, before);
      RunKeepsDistinct(l, before);
      forall t | t in After(l, evs) ensures OfTrace(t.entry.chunks, t.id) {
        StepMembers(l, ts, ev, t);
        if ev.Inserted? && ev.id == t.id {
          HeldIsOfTrace(ts, t.id);
          OfTraceMore(ChunksOf(ts, t.id), ev.chunk, t.id);
        }
      }
    }
  }

  lemma OfTraceMore(chunks: seq<ResourceSpans>, c: ResourceSpans, tid: TraceId)
    requires OfTrace(chunks, tid) && OfTrace([c], tid)
    ensures OfTrace(chunks + [c], tid)
  {
    assert c in [c];
  }

  lemma {:induction false} BatchIsApart(rss: seq<ResourceSpans>, orders: seq<seq<TraceId>>, clock: nat -> nat -> int)
    requires |orders| == |rss|
    ensures ApartLog(BatchInserts(rss, orders, clock))
  {
    hide OfTrace;
    if rss != [] {
      var n := |rss| - 1;
      BatchIsApart(rss[..n], orders[..n], clock);
      var evs := Inserts(rss[n], orders[n], clock(n));
      forall j | 0 <= j < |evs| ensures OfTrace([evs[j].chunk], evs[j].id) {
        IsolatedIsOfTrace(rss[n], orders[n][j]);
      }
    }
  }

  lemma {:induction false} FailedIsHeld(ts: seq<Trace>, tids: seq<TraceId>, send: Batch -> bool, b: Batch) returns (tid: TraceId)
    requires b in Flow.FailedBatches(ts, tids, send)
    ensures tid in tids && b == ChunksOf(ts, tid)
  {
    var n := |tids| - 1;
    if b in Flow.FailedBatches(ts, tids[..n], send) {
      tid := FailedIsHeld(ts, tids[..n], send, b);
    } else {
      tid := tids[n];
    }
  }

  /** A call on a ring whose log is of isolated copies leaves traces apart, and every batch it drains, sends or queues
      is of one trace, the one it was flushed for. */
  lemma EveryBatchIsOneTrace(l: Limits, log: seq<Event>, rss: seq<ResourceSpans>, orders: seq<seq<TraceId>>,
                             clock: nat -> nat -> int, flushed: seq<TraceId>, send: Batch -> bool)
    requires |orders| == |rss| && ApartLog(log)
    ensures ApartLog(log + BatchInserts(rss, orders, clock) + Drains(flushed))
    ensures var filled := Flow.Buffered(Flow.Bounds(l.window, l.cap), After(l, log), rss, orders, clock);
            && Apart(filled) && Apart(Flow.RemovedAll(filled, flushed))
            && (forall tid :: OfTrace(ChunksOf(filled, tid), tid))
            && forall b :: b in Flow.FailedBatches(filled, flushed, send) ==>
                 exists tid :: tid in flushed && b == ChunksOf(filled, tid) && OfTrace(b, tid)
  {
    hide OfTrace;
    hide After;
    hide Flow.Buffered;
    hide Flow.RemovedAll;
    hide BatchInserts;
    hide ChunksOf;
    hide Apart;
    hide Flow.FailedBatches;
    var filled := Flow.Buffered(Flow.Bounds(l.window, l.cap), After(l, log), rss, orders, clock);
    var inserts := BatchInserts(rss, orders, clock);
    BatchIsApart(rss, orders, clock);
    BatchHappens(l, log, rss, orders, clock);
    CallIsInTheLog(l, log, rss, orders, clock, flushed);
    TracesNeverMix(l, log + inserts);
    TracesNeverMix(l, log + inserts + Drains(flushed));
    forall tid ensures OfTrace(ChunksOf(filled, tid), tid) {
      HeldIsOfTrace(filled, tid);
    }
    forall b | b in Flow.FailedBatches(filled, flushed, send)
      ensures exists tid :: tid in flushed && b == ChunksOf(filled, tid) && OfTrace(b, tid)
    {
      var tid := FailedIsHeld(filled, flushed, send, b);
    }
  }
}
