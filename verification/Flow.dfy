/** What one `ConsumeTraces` call does to the ring and to the dead-letter queue, and that it is a run of
    the pipeline, so that conservation speaks about it. */
module Flow {
  import opened Options
  import opened Spans
  import RingModel
  import DlqStore
  import Dlq
  import DlqRuns
  import Isolation
  import P = Pipeline

  datatype Bounds = Bounds(window: int, cap: int)

  /** The ring after inserting the isolated copy of each trace in turn. */
  function InsertAll(l: Bounds, ts: seq<RingModel.Trace>, rs: ResourceSpans, tids: seq<TraceId>, clock: nat -> int)
    : seq<RingModel.Trace>
  {
    if tids == [] then ts
    else
      var n := |tids| - 1;
      var chunk := Isolation.Isolated(rs, tids[n]);
      RingModel.Insert(InsertAll(l, ts, rs, tids[..n], clock), tids[n], chunk, clock(n), l.window, l.cap)
  }

  /** The ring after buffering every resource, resource `i` by `clock(i)` and in the order `orders[i]`. */
  function Buffered(l: Bounds, ts: seq<RingModel.Trace>, rss: seq<ResourceSpans>, orders: seq<seq<TraceId>>,
                    clock: nat -> nat -> int): seq<RingModel.Trace>
    requires |orders| == |rss|
  {
    if rss == [] then ts
    else
      var n := |rss| - 1;
      InsertAll(l, Buffered(l, ts, rss[..n], orders[..n], clock), rss[n], orders[n], clock(n))
  }

  /** `order` lists the set, once each. */
  ghost predicate Enumerates(order: seq<TraceId>, s: set<TraceId>) {
    && (forall t :: t in order <==> t in s)
    && forall i, j :: 0 <= i < j < |order| ==> order[i] != order[j]
  }

  function RemovedAll(ts: seq<RingModel.Trace>, tids: seq<TraceId>): seq<RingModel.Trace> {
    if tids == [] then ts else RingModel.Removed(RemovedAll(ts, tids[..|tids| - 1]), tids[|tids| - 1])
  }

  /** The batches of the traces, in this order, whose send fails. */
  function FailedBatches(ts: seq<RingModel.Trace>, tids: seq<TraceId>, send: Batch -> bool): seq<Batch> {
    if tids == [] then []
    else
      var batch := RingModel.ChunksOf(ts, tids[|tids| - 1]);
      FailedBatches(ts, tids[..|tids| - 1], send) + if batch != [] && !send(batch) then [batch] else []
  }

  function EnqueuedAll(q: seq<DlqStore.Entry<Batch>>, batches: seq<Batch>, clock: nat -> int): seq<DlqStore.Entry<Batch>> {
    if batches == [] then q
    else
      var n := |batches| - 1;
      Dlq.Enqueued(EnqueuedAll(q, batches[..n], clock), batches[n], clock(n))
  }

  lemma NextInOrder<T>(order: seq<T>, t: T)
    ensures (order + [t])[..|order|] == order
  {
  }

  /** Visiting one more element of a set. */
  lemma NextOf(order: seq<TraceId>, all: set<TraceId>, remaining: set<TraceId>, t: TraceId)
    requires Enumerates(order, all - remaining) && t in remaining && remaining <= all
    ensures Enumerates(order + [t], all - (remaining - {t})) && t !in order
  {
  }

  lemma EnumeratesMembers(order: seq<TraceId>, s: set<TraceId>)
    requires Enumerates(order, s)
    ensures forall t :: t in order <==> t in s
  {
  }

  lemma InsertNext(l: Bounds, ts: seq<RingModel.Trace>, rs: ResourceSpans, tids: seq<TraceId>, t: TraceId, clock: nat -> int)
    ensures InsertAll(l, ts, rs, tids + [t], clock) ==
            RingModel.Insert(InsertAll(l, ts, rs, tids, clock), t, Isolation.Isolated(rs, t), clock(|tids|), l.window, l.cap)
  {
  }

  lemma RemovedKeepsOthers(ts: seq<RingModel.Trace>, gone: TraceId, id: TraceId)
    requires RingModel.DistinctIds(ts) && id != gone
    ensures RingModel.DistinctIds(RingModel.Removed(ts, gone))
    ensures RingModel.ChunksOf(RingModel.Removed(ts, gone), id) == RingModel.ChunksOf(ts, id)
  {
    RingModel.RemovedMembers(ts, gone);
    var rest := RingModel.Removed(ts, gone);
    var i, j := RingModel.IndexOf(ts, id), RingModel.IndexOf(rest, id);
    if i < |ts| {
      assert ts[i] in rest;
      RingModel.TheEntry(rest, ts[i]);
    }
    if j < |rest| {
      assert rest[j] in ts;
      RingModel.TheEntry(ts, rest[j]);
    }
  }

  /** Draining some traces does not touch the others. */
  lemma {:induction false} OthersSurviveDrains(ts: seq<RingModel.Trace>, tids: seq<TraceId>, id: TraceId)
    requires RingModel.DistinctIds(ts) && id !in tids
    ensures RingModel.DistinctIds(RemovedAll(ts, tids))
    ensures RingModel.ChunksOf(RemovedAll(ts, tids), id) == RingModel.ChunksOf(ts, id)
  {
    if tids != [] {
      OthersSurviveDrains(ts, tids[..|tids| - 1], id);
      RemovedKeepsOthers(RemovedAll(ts, tids[..|tids| - 1]), tids[|tids| - 1], id);
    }
  }

  lemma RemovedStaysAway(ts: seq<RingModel.Trace>, gone: TraceId, id: TraceId)
    requires RingModel.DistinctIds(ts)
    ensures RingModel.DistinctIds(RingModel.Removed(ts, gone))
    ensures id == gone || !RingModel.Resident(ts, id) ==> !RingModel.Resident(RingModel.Removed(ts, gone), id)
  {
    RingModel.RemovedMembers(ts, gone);
    var rest := RingModel.Removed(ts, gone);
    hide RingModel.Removed;
    var i := RingModel.IndexOf(rest, id);
    if i < |rest| {
      assert rest[i] in rest;
      RingModel.TheEntry(ts, rest[i]);
    }
  }

  /** A flush leaves nothing of the traces it was for. */
  lemma {:induction false} FlushedTracesAreGone(ts: seq<RingModel.Trace>, tids: seq<TraceId>, id: TraceId)
    requires RingModel.DistinctIds(ts) && id in tids
    ensures RingModel.DistinctIds(RemovedAll(ts, tids)) && !RingModel.Resident(RemovedAll(ts, tids), id)
  {
    hide RingModel.Removed;
    hide RingModel.Resident;
    hide RingModel.DistinctIds;
    var n := |tids| - 1;
    if id in tids[..n] {
      FlushedTracesAreGone(ts, tids[..n], id);
    } else {
      OthersSurviveDrains(ts, tids[..n], id);
    }
    RemovedStaysAway(RemovedAll(ts, tids[..n]), tids[n], id);
  }

  /** One more target, drained and sent. */
  lemma FlushNext(ts: seq<RingModel.Trace>, tids: seq<TraceId>, t: TraceId, send: Batch -> bool)
    requires RingModel.DistinctIds(ts) && t !in tids
    ensures RemovedAll(ts, tids + [t]) == RingModel.Removed(RemovedAll(ts, tids), t)
    ensures var batch, bad := RingModel.ChunksOf(RemovedAll(ts, tids), t), FailedBatches(ts, tids, send);
            FailedBatches(ts, tids + [t], send) == if batch != [] && !send(batch) then bad + [batch] else bad
  {
    OthersSurviveDrains(ts, tids, t);
    NextInOrder(tids, t);
  }

  lemma EnqueuedNext(q: seq<DlqStore.Entry<Batch>>, bad: seq<Batch>, batch: Batch, clock: nat -> int)
    ensures EnqueuedAll(q, bad + [batch], clock) == Dlq.Enqueued(EnqueuedAll(q, bad, clock), batch, clock(|bad|))
  {
  }

  lemma BufferedNext(l: Bounds, ts: seq<RingModel.Trace>, rss: seq<ResourceSpans>, i: nat,
                     orders: seq<seq<TraceId>>, order: seq<TraceId>, clock: nat -> nat -> int)
    requires i < |rss| && |orders| == i
    ensures Buffered(l, ts, rss[..i + 1], orders + [order], clock) ==
            InsertAll(l, Buffered(l, ts, rss[..i], orders, clock), rss[i], order, clock(i))
  {
    assert rss[..i + 1][..i] == rss[..i];
    assert (orders + [order])[..i] == orders;
  }

  /** One order of trace ids per resource. */
  ghost predicate Orders(orders: seq<seq<TraceId>>, rss: seq<ResourceSpans>) {
    |orders| == |rss| && forall i :: 0 <= i < |rss| ==> Enumerates(orders[i], Isolation.TraceIds(SpansOf(rss[i])))
  }

  lemma OrdersNext(orders: seq<seq<TraceId>>, rss: seq<ResourceSpans>, i: nat, order: seq<TraceId>)
    requires i < |rss|
    ensures Orders(orders, rss[..i]) && Enumerates(order, Isolation.TraceIds(SpansOf(rss[i]))) ==>
              Orders(orders + [order], rss[..i + 1])
  {
    hide Enumerates;
    hide SpansOf;
    hide Isolation.TraceIds;
  }

  // ---- what is queued ----

  /** The batches whose send failed are, in order, those of the targets for which something was held and not taken. */
  ghost predicate AreFailed(ts: seq<RingModel.Trace>, tids: seq<TraceId>, send: Batch -> bool, bad: seq<Batch>, at: seq<nat>) {
    && |at| == |bad|
    && (forall i, j :: 0 <= i < j < |at| ==> at[i] < at[j])
    && (forall i :: 0 <= i < |at| ==> at[i] < |tids| && bad[i] == RingModel.ChunksOf(ts, tids[at[i]]) && Failed(bad[i], send))
    && forall j :: 0 <= j < |tids| && Failed(RingModel.ChunksOf(ts, tids[j]), send) ==> j in at
  }

  predicate Failed(batch: Batch, send: Batch -> bool) { batch != [] && !send(batch) }

  lemma AreFailedMore(ts: seq<RingModel.Trace>, tids: seq<TraceId>, t: TraceId, send: Batch -> bool, bad: seq<Batch>, at: seq<nat>)
    requires AreFailed(ts, tids, send, bad, at)
    ensures var batch := RingModel.ChunksOf(ts, t);
            if Failed(batch, send) then AreFailed(ts, tids + [t], send, bad + [batch], at + [|tids|])
            else AreFailed(ts, tids + [t], send, bad, at)
  {
    hide Failed;
    hide RingModel.ChunksOf;
    var more := at + [|tids|];
    assert more[|at|] == |tids| && forall x :: x in at ==> x in more;
  }

  lemma {:induction false} FailedBatchesAreFailed(ts: seq<RingModel.Trace>, tids: seq<TraceId>, send: Batch -> bool) returns (at: seq<nat>)
    ensures AreFailed(ts, tids, send, FailedBatches(ts, tids, send), at)
  {
    at := [];
    if tids != [] {
      hide AreFailed;
      var before, t := tids[..|tids| - 1], tids[|tids| - 1];
      at := FailedBatchesAreFailed(ts, before, send);
      assert tids == before + [t];
      AreFailedMore(ts, before, t, send, FailedBatches(ts, before, send), at);
      if Failed(RingModel.ChunksOf(ts, t), send) { at := at + [|before|]; }
    }
  }

  /** The entries that new failures make: no attempts yet. */
  function NewEntries(batches: seq<Batch>, clock: nat -> int): (es: seq<DlqStore.Entry<Batch>>)
    ensures |es| == |batches|
    ensures forall i :: 0 <= i < |es| ==> es[i] == DlqStore.Entry(batches[i], clock(i), 0)
  {
    seq(|batches|, i requires 0 <= i < |batches| => DlqStore.Entry(batches[i], clock(i), 0))
  }

  /** The last 32 of a list. */
  function Last32<T>(s: seq<T>): seq<T> {
    if |s| <= 32 then s else s[|s| - 32..]
  }

  lemma LastOfMore<T>(s: seq<T>, e: T)
    ensures var l := Last32(s); Last32(s + [e]) == (if |l| >= 32 then l[1..] else l) + [e]
  {
  }

  /** After the flush the queue holds the newest 32 of what it held and of the failed batches, in order. */
  lemma {:induction false} QueueHoldsTheNewest(q: seq<DlqStore.Entry<Batch>>, bad: seq<Batch>, clock: nat -> int)
    requires |q| <= 32
    ensures EnqueuedAll(q, bad, clock) == Last32(q + NewEntries(bad, clock))
  {
    if bad == [] {
      assert q + NewEntries(bad, clock) == q;
    } else {
      hide Last32;
      var before, e := bad[..|bad| - 1], DlqStore.Entry(bad[|bad| - 1], clock(|bad| - 1), 0);
      QueueHoldsTheNewest(q, before, clock);
      assert q + NewEntries(bad, clock) == q + NewEntries(before, clock) + [e];
      LastOfMore(q + NewEntries(before, clock), e);
    }
  }

  // ---- as a run of the pipeline ----

  /** A queued entry without its place in enqueue order. */
  function Untagged(e: P.QueueEntry): DlqStore.Entry<Batch> {
    DlqStore.Entry(e.td.batch, e.enqueueAtNs, e.attempts)
  }

  function UntaggedAll(es: seq<P.QueueEntry>): (r: seq<DlqStore.Entry<Batch>>)
    ensures |r| == |es| && forall i :: 0 <= i < |es| ==> r[i] == Untagged(es[i])
  {
    if es == [] then [] else UntaggedAll(es[..|es| - 1]) + [Untagged(es[|es| - 1])]
  }

  /** The pipeline holds this ring and this queue. */
  ghost predicate Holds(s: P.State, ring: seq<RingModel.Trace>, dlq: seq<DlqStore.Entry<Batch>>) {
    s.ring == ring && UntaggedAll(s.queue.dlq) == dlq
  }

  function LimitsOf(l: Bounds): RingModel.Limits {
    RingModel.Limits(l.window, if l.cap >= 0 then l.cap else 0)
  }

  /** A run of the pipeline that ends with this ring and queue, inserts `spans` on the way and leaves the other
      workers' batches and a drain in progress alone. */
  ghost predicate Runs(l: Bounds, s: P.State, actions: seq<P.Action>, s': P.State, ring: seq<RingModel.Trace>,
                       dlq: seq<DlqStore.Entry<Batch>>, spans: multiset<Span>) {
    && P.Reaches(LimitsOf(l), s, actions, s')
    && Holds(s', ring, dlq)
    && s'.hands == s.hands && s'.queue.drain == s.queue.drain
    && s'.ledger.inserted == s.ledger.inserted + spans
  }

  /** Whatever the pipeline was doing, some run of it goes from one ring and queue to the other. */
  ghost predicate IsARun(l: Bounds, ring: seq<RingModel.Trace>, dlq: seq<DlqStore.Entry<Batch>>,
                         ring': seq<RingModel.Trace>, dlq': seq<DlqStore.Entry<Batch>>, spans: multiset<Span>) {
    forall s: P.State :: Holds(s, ring, dlq) ==> exists actions, s' :: Runs(l, s, actions, s', ring', dlq', spans)
  }

  lemma Fronts<T>(a: seq<T>, b: seq<T>)
    requires a != []
    ensures a + b != [] && (a + b)[0] == a[0] && (a + b)[1..] == a[1..] + b
  {
  }

  lemma {:induction false} ReachesConcat(l: RingModel.Limits, s: P.State, a: seq<P.Action>, s1: P.State, b: seq<P.Action>, s2: P.State)
    requires P.Reaches(l, s, a, s1) && P.Reaches(l, s1, b, s2)
    ensures P.Reaches(l, s, a + b, s2)
    decreases |a|
  {
    hide P.Next;
    hide P.Enabled;
    if a == [] {
      assert a + b == b;
    } else {
      Fronts(a, b);
      ReachesConcat(l, P.Next(l, s, a[0]), a[1..], s1, b, s2);
    }
  }

  lemma ReachesOne(l: RingModel.Limits, s: P.State, a: P.Action)
    requires P.Enabled(s, a)
    ensures P.Reaches(l, s, [a], P.Next(l, s, a))
  {
    hide P.Next;
    assert P.Reaches(l, P.Next(l, s, a), [a][1..], P.Next(l, s, a));
  }

  lemma RunsThen(l: Bounds, s: P.State, a: seq<P.Action>, s1: P.State, b: seq<P.Action>, s2: P.State,
                 ring: seq<RingModel.Trace>, dlq: seq<DlqStore.Entry<Batch>>, spans: multiset<Span>,
                 ring': seq<RingModel.Trace>, dlq': seq<DlqStore.Entry<Batch>>, more: multiset<Span>)
    requires Runs(l, s, a, s1, ring, dlq, spans) && Runs(l, s1, b, s2, ring', dlq', more)
    ensures Runs(l, s, a + b, s2, ring', dlq', spans + more)
  {
    hide P.Reaches;
    ReachesConcat(LimitsOf(l), s, a, s1, b, s2);
  }

  lemma Stays(l: Bounds, s: P.State)
    ensures Runs(l, s, [], s, s.ring, UntaggedAll(s.queue.dlq), multiset{})
  {
  }

  lemma InsertRuns(l: Bounds, s: P.State, tid: TraceId, chunk: ResourceSpans, now: int) returns (s': P.State)
    requires l.cap >= 0
    ensures Runs(l, s, [P.Insert(tid, chunk, now)], s', RingModel.Insert(s.ring, tid, chunk, now, l.window, l.cap),
                 UntaggedAll(s.queue.dlq), multiset(SpansOf(chunk)))
  {
    hide P.Reaches;
    hide RingModel.Insert;
    s' := P.Next(LimitsOf(l), s, P.Insert(tid, chunk, now));
    ReachesOne(LimitsOf(l), s, P.Insert(tid, chunk, now));
  }

  lemma {:induction false} BufferingRuns(l: Bounds, s: P.State, rs: ResourceSpans, tids: seq<TraceId>, clock: nat -> int)
    returns (actions: seq<P.Action>, s': P.State)
    requires l.cap >= 0
    ensures Runs(l, s, actions, s', InsertAll(l, s.ring, rs, tids, clock), UntaggedAll(s.queue.dlq),
                 Isolation.IsolatedSpans(SpansOf(rs), tids))
  {
    hide Runs;
    hide RingModel.Insert;
    actions, s' := [], s;
    Stays(l, s);
    if tids != [] {
      var n := |tids| - 1;
      var a, s1 := BufferingRuns(l, s, rs, tids[..n], clock);
      var chunk := Isolation.Isolated(rs, tids[n]);
      RunsHolds(l, s, a, s1, InsertAll(l, s.ring, rs, tids[..n], clock), UntaggedAll(s.queue.dlq),
                Isolation.IsolatedSpans(SpansOf(rs), tids[..n]));
      s' := InsertRuns(l, s1, tids[n], chunk, clock(n));
      actions := a + [P.Insert(tids[n], chunk, clock(n))];
      Isolation.IsolatedHoldsTheTrace(rs.scopes, tids[n]);
      RunsThen(l, s, a, s1, [P.Insert(tids[n], chunk, clock(n))], s',
               InsertAll(l, s.ring, rs, tids[..n], clock), UntaggedAll(s.queue.dlq),
               Isolation.IsolatedSpans(SpansOf(rs), tids[..n]),
               InsertAll(l, s.ring, rs, tids, clock), UntaggedAll(s.queue.dlq), multiset(SpansOf(chunk)));
    }
  }

  lemma RunsHolds(l: Bounds, s: P.State, actions: seq<P.Action>, s': P.State, ring: seq<RingModel.Trace>,
                  dlq: seq<DlqStore.Entry<Batch>>, spans: multiset<Span>)
    requires Runs(l, s, actions, s', ring, dlq, spans)
    ensures s'.ring == ring && UntaggedAll(s'.queue.dlq) == dlq
  {
  }

  lemma EnumeratedPartition(rs: ResourceSpans, tids: seq<TraceId>)
    requires Enumerates(tids, Isolation.TraceIds(SpansOf(rs)))
    ensures Isolation.IsolatedSpans(SpansOf(rs), tids) == multiset(SpansOf(rs))
  {
    Isolation.IsolationPartitions(rs, tids);
  }

  lemma {:induction false} WalkRuns(l: Bounds, s: P.State, rss: seq<ResourceSpans>, orders: seq<seq<TraceId>>, clock: nat -> nat -> int)
    returns (actions: seq<P.Action>, s': P.State)
    requires l.cap >= 0 && |orders| == |rss| && Orders(orders, rss)
    ensures Runs(l, s, actions, s', Buffered(l, s.ring, rss, orders, clock), UntaggedAll(s.queue.dlq), ChunkSpans(rss))
    decreases |rss|
  {
    hide Runs;
    hide InsertAll;
    hide SpansOf;
    hide Enumerates;
    actions, s' := [], s;
    Stays(l, s);
    if rss != [] {
      var n := |rss| - 1;
      var ring, dlq := Buffered(l, s.ring, rss[..n], orders[..n], clock), UntaggedAll(s.queue.dlq);
      var a, s1 := WalkRuns(l, s, rss[..n], orders[..n], clock);
      RunsHolds(l, s, a, s1, ring, dlq, ChunkSpans(rss[..n]));
      var b, s2 := BufferingRuns(l, s1, rss[n], orders[n], clock(n));
      EnumeratedPartition(rss[n], orders[n]);
      RunsThen(l, s, a, s1, b, s2, ring, dlq, ChunkSpans(rss[..n]),
               Buffered(l, s.ring, rss, orders, clock), dlq, multiset(SpansOf(rss[n])));
      actions, s' := a + b, s2;
    }
  }

  // ---- flushing ----

  lemma UntaggedCut(es: seq<P.QueueEntry>, e: P.QueueEntry)
    ensures UntaggedAll(es + [e]) == UntaggedAll(es) + [Untagged(e)]
    ensures es != [] ==> UntaggedAll(es[1..]) == UntaggedAll(es)[1..]
  {
    assert (es + [e])[..|es|] == es;
  }

  lemma EnqueueUntagged(es: seq<P.QueueEntry>, td: DlqRuns.Item<Batch>, now: int)
    ensures UntaggedAll(Dlq.Enqueued(es, td, now)) == Dlq.Enqueued(UntaggedAll(es), td.batch, now)
  {
    var e: P.QueueEntry := DlqStore.Entry(td, now, 0);
    if |es| >= Dlq.MAX_ENTRIES {
      UntaggedCut(es, e);
      UntaggedCut(es[1..], e);
    } else {
      UntaggedCut(es, e);
    }
  }

  /** Draining one target and sending what was held for it. */
  lemma FlushOneRuns(l: Bounds, s: P.State, tid: TraceId, sent: bool, now: int) returns (actions: seq<P.Action>, s': P.State)
    ensures var batch, dlq := RingModel.ChunksOf(s.ring, tid), UntaggedAll(s.queue.dlq);
            Runs(l, s, actions, s', RingModel.Removed(s.ring, tid),
                 if batch != [] && !sent then Dlq.Enqueued(dlq, batch, now) else dlq, multiset{})
  {
    hide P.Reaches;
    hide RingModel.Removed;
    hide RingModel.ChunksOf;
    hide Dlq.Enqueued;
    hide UntaggedAll;
    var k := LimitsOf(l);
    var batch := RingModel.ChunksOf(s.ring, tid);
    var s1 := P.Next(k, s, P.DrainTrace(tid));
    ReachesOne(k, s, P.DrainTrace(tid));
    actions, s' := [P.DrainTrace(tid)], s1;
    if batch != [] {
      var i := |s.hands|;
      var a := if sent then P.FlushSucceeded(i) else P.FlushFailed(i, now);
      assert s1.hands[i] == batch && s1.hands[..i] + s1.hands[i + 1..] == s.hands;
      ReachesOne(k, s1, a);
      s' := P.Next(k, s1, a);
      ReachesConcat(k, s, actions, s1, [a], s');
      actions := actions + [a];
      EnqueueUntagged(s.queue.dlq, DlqRuns.Item(batch, |s.queue.sends|, s.queue.begun), now);
    }
  }

  lemma NothingFlushed(l: Bounds, s: P.State, send: Batch -> bool, clock: nat -> int)
    ensures Runs(l, s, [], s, RemovedAll(s.ring, []),
                 EnqueuedAll(UntaggedAll(s.queue.dlq), FailedBatches(s.ring, [], send), clock), multiset{})
  {
    Stays(l, s);
  }

  lemma NothingMore()
    ensures var none: multiset<Span> := multiset{}; none + none == none
  {
  }

  lemma NoRepeatsFront(tids: seq<TraceId>)
    requires Isolation.NoRepeats(tids) && tids != []
    ensures var n := |tids| - 1;
            Isolation.NoRepeats(tids[..n]) && tids[n] !in tids[..n] && tids[..n] + [tids[n]] == tids
  {
  }

  lemma {:induction false} FlushRuns(l: Bounds, s: P.State, tids: seq<TraceId>, send: Batch -> bool, clock: nat -> int)
    returns (actions: seq<P.Action>, s': P.State)
    requires RingModel.DistinctIds(s.ring) && Isolation.NoRepeats(tids)
    ensures Runs(l, s, actions, s', RemovedAll(s.ring, tids),
                 EnqueuedAll(UntaggedAll(s.queue.dlq), FailedBatches(s.ring, tids, send), clock), multiset{})
    decreases |tids|
  {
    hide Runs;
    hide RingModel.DistinctIds;
    hide RingModel.Removed;
    hide RingModel.ChunksOf;
    hide Dlq.Enqueued;
    hide RemovedAll;
    hide EnqueuedAll;
    hide FailedBatches;
    hide UntaggedAll;
    hide Isolation.NoRepeats;
    if tids == [] {
      NothingFlushed(l, s, send, clock);
      actions, s' := [], s;
    } else {
      var n, dlq := |tids| - 1, UntaggedAll(s.queue.dlq);
      var before, t := tids[..n], tids[n];
      NoRepeatsFront(tids);
      var ring, bad := RemovedAll(s.ring, before), FailedBatches(s.ring, before, send);
      var a, s1 := FlushRuns(l, s, before, send, clock);
      RunsHolds(l, s, a, s1, ring, EnqueuedAll(dlq, bad, clock), multiset{});
      var batch := RingModel.ChunksOf(ring, t);
      var b, s2 := FlushOneRuns(l, s1, t, send(batch), clock(|bad|));
      FlushNext(s.ring, before, t, send);
      EnqueuedNext(dlq, bad, batch, clock);
      RunsThen(l, s, a, s1, b, s2, ring, EnqueuedAll(dlq, bad, clock), multiset{},
               RemovedAll(s.ring, tids), EnqueuedAll(dlq, FailedBatches(s.ring, tids, send), clock), multiset{});
      NothingMore();
      actions, s' := a + b, s2;
    }
  }

  lemma {:induction false} BufferedKeepsDistinct(l: Bounds, ts: seq<RingModel.Trace>, rss: seq<ResourceSpans>,
                                                 orders: seq<seq<TraceId>>, clock: nat -> nat -> int)
    requires RingModel.DistinctIds(ts) && |orders| == |rss|
    ensures RingModel.DistinctIds(Buffered(l, ts, rss, orders, clock))
  {
    hide RingModel.DistinctIds;
    if rss != [] {
      var n := |rss| - 1;
      BufferedKeepsDistinct(l, ts, rss[..n], orders[..n], clock);
      InsertAllKeepsDistinct(l, Buffered(l, ts, rss[..n], orders[..n], clock), rss[n], orders[n], clock(n));
    }
  }

  lemma {:induction false} InsertAllKeepsDistinct(l: Bounds, ts: seq<RingModel.Trace>, rs: ResourceSpans,
                                                  tids: seq<TraceId>, clock: nat -> int)
    requires RingModel.DistinctIds(ts)
    ensures RingModel.DistinctIds(InsertAll(l, ts, rs, tids, clock))
  {
    hide RingModel.DistinctIds;
    hide RingModel.Insert;
    if tids != [] {
      var n := |tids| - 1;
      var chunk := Isolation.Isolated(rs, tids[n]);
      InsertAllKeepsDistinct(l, ts, rs, tids[..n], clock);
      RingModel.InsertKeepsDistinct(InsertAll(l, ts, rs, tids[..n], clock), tids[n], chunk, clock(n), l.window, l.cap);
    }
  }

  /** One call is a run of the pipeline: it inserts exactly the spans of the batch, takes every target out of the ring,
      and every batch whose send failed is queued. Conservation therefore holds of what the call leaves behind. */
  lemma CallIsARun(l: Bounds, ring: seq<RingModel.Trace>, dlq: seq<DlqStore.Entry<Batch>>, rss: seq<ResourceSpans>,
                   orders: seq<seq<TraceId>>, inserts: nat -> nat -> int, flushed: seq<TraceId>, targets: set<TraceId>,
                   send: Batch -> bool, failures: nat -> int)
    requires l.cap >= 0 && RingModel.DistinctIds(ring)
    requires |orders| == |rss| && Orders(orders, rss) && Enumerates(flushed, targets)
    ensures var filled := Buffered(l, ring, rss, orders, inserts);
            IsARun(l, ring, dlq, RemovedAll(filled, flushed),
                   EnqueuedAll(dlq, FailedBatches(filled, flushed, send), failures), ChunkSpans(rss))
  {
    hide Runs;
    hide Buffered;
    hide Orders;
    hide RingModel.DistinctIds;
    hide RemovedAll;
    hide EnqueuedAll;
    hide FailedBatches;
    hide ChunkSpans;
    hide UntaggedAll;
    var filled := Buffered(l, ring, rss, orders, inserts);
    var dlq' := EnqueuedAll(dlq, FailedBatches(filled, flushed, send), failures);
    BufferedKeepsDistinct(l, ring, rss, orders, inserts);
    forall s: P.State | Holds(s, ring, dlq)
      ensures exists actions, s' :: Runs(l, s, actions, s', RemovedAll(filled, flushed), dlq', ChunkSpans(rss))
    {
      var a, s1 := WalkRuns(l, s, rss, orders, inserts);
      RunsHolds(l, s, a, s1, filled, dlq, ChunkSpans(rss));
      var b, s2 := FlushRuns(l, s1, flushed, send, failures);
      RunsThen(l, s, a, s1, b, s2, filled, dlq, ChunkSpans(rss), RemovedAll(filled, flushed), dlq', multiset{});
      assert ChunkSpans(rss) + multiset{} == ChunkSpans(rss);
    }
  }

  /** Whatever was true of every span before a call is true after it: it is in these places as often as it was inserted. */
  lemma CallConserves(l: Bounds, s: P.State, ring': seq<RingModel.Trace>, dlq': seq<DlqStore.Entry<Batch>>,
                      spans: multiset<Span>, x: Span) returns (s': P.State)
    requires IsARun(l, s.ring, UntaggedAll(s.queue.dlq), ring', dlq', spans) && P.Balanced(s, x)
    ensures Holds(s', ring', dlq') && s'.ledger.inserted == s.ledger.inserted + spans && P.Balanced(s', x)
  {
    hide P.Balanced;
    hide P.Reaches;
    assert Holds(s, s.ring, UntaggedAll(s.queue.dlq));
    var actions, t :| Runs(l, s, actions, t, ring', dlq', spans);
    P.RunConserves(LimitsOf(l), s, actions, t, x);
    s' := t;
  }
}
