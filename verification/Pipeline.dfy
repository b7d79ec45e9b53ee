/** Ring, workers, dead-letter queue and drainer together, one critical section or one send
    at a time, with a ledger of every span ever inserted. */
module Pipeline {
  import opened Options
  import opened Spans
  import RingModel
  import opened DlqStore
  import opened Dlq
  import DlqRuns
  import Isolation

  type QueueEntry = Entry<DlqRuns.Item<Batch>>

  /** Where spans have ended up for good. */
  datatype Ledger = Ledger(inserted: multiset<Span>, timeEvicted: multiset<Span>, countEvicted: multiset<Span>,
                           delivered: multiset<Span>, dropped: multiset<Span>)

  /** `hands` are the batches that workers have drained but neither delivered nor queued yet. */
  datatype State = State(ring: seq<RingModel.Trace>, hands: seq<Batch>, queue: DlqRuns.Machine<Batch>, ledger: Ledger)

  datatype Action =
    | Insert(tid: TraceId, chunk: ResourceSpans, now: int)
    | DrainTrace(tid: TraceId)
    | FlushSucceeded(hand: nat)
    | FlushFailed(hand: nat, now: int)
    | PruneRing(now: int)
    | BeginDrain
    | Retry(ok: bool)
    | EndDrain

  // ---- spans held in each place ----

  function RingSpans(ts: seq<RingModel.Trace>): multiset<Span> {
    if ts == [] then multiset{} else RingSpans(ts[..|ts| - 1]) + ChunkSpans(ts[|ts| - 1].entry.chunks)
  }

  /** Spans of the traces a time eviction removes. */
  function StaleSpans(ts: seq<RingModel.Trace>, cutoff: int): multiset<Span> {
    if ts == [] then multiset{}
    else
      var last := ts[|ts| - 1];
      StaleSpans(ts[..|ts| - 1], cutoff) + if last.entry.newestAt < cutoff then ChunkSpans(last.entry.chunks) else multiset{}
  }

  function HandSpans(hands: seq<Batch>): multiset<Span> {
    if hands == [] then multiset{} else HandSpans(hands[..|hands| - 1]) + ChunkSpans(hands[|hands| - 1])
  }

  function QueueSpans(es: seq<QueueEntry>): multiset<Span> {
    if es == [] then multiset{} else QueueSpans(es[..|es| - 1]) + ChunkSpans(es[|es| - 1].td.batch)
  }

  function DrainSpans(q: DlqRuns.Machine<Batch>): multiset<Span> {
    if q.drain.None? then multiset{} else QueueSpans(q.drain.value.still) + QueueSpans(q.drain.value.pending)
  }

  // ---- steps ----

  predicate Enabled(s: State, a: Action) {
    match a
    case Insert(_, _, _) => true
    case DrainTrace(_) => true
    case FlushSucceeded(i) => i < |s.hands|
    case FlushFailed(i, _) => i < |s.hands|
    case PruneRing(_) => true
    case BeginDrain => DlqRuns.Enabled(s.queue, DlqRuns.BeginDrain)
    case Retry(ok) => DlqRuns.Enabled(s.queue, DlqRuns.Send(ok))
    case EndDrain => DlqRuns.Enabled(s.queue, DlqRuns.EndDrain)
  }

  /** What the merge at the end of a drain leaves out. */
  function Overflow(q: DlqRuns.Machine<Batch>): seq<QueueEntry>
    requires q.drain.Some?
  {
    var all := q.drain.value.still + q.dlq;
    if q.drain.value.still == [] || |all| <= MAX_ENTRIES then [] else all[..|all| - MAX_ENTRIES]
  }

  function Next(l: RingModel.Limits, s: State, a: Action): State
    requires Enabled(s, a)
  {
    var g := s.ledger;
    match a
    case Insert(tid, chunk, now) =>
      var put := RingModel.Put(s.ring, tid, chunk, now);
      var recent := RingModel.Recent(put, now - l.window);
      var k := RingModel.LeastDrop(recent, 0, l.cap);
      s.(ring := RingModel.Step(l, s.ring, RingModel.Inserted(tid, chunk, now)),
         ledger := g.(inserted := g.inserted + multiset(SpansOf(chunk)),
                      timeEvicted := g.timeEvicted + StaleSpans(put, now - l.window),
                      countEvicted := g.countEvicted + RingSpans(recent[..k])))
    case DrainTrace(tid) =>
      var chunks := RingModel.ChunksOf(s.ring, tid);
      s.(ring := RingModel.Step(l, s.ring, RingModel.Drained(tid)),
         hands := if chunks == [] then s.hands else s.hands + [chunks])
    case FlushSucceeded(i) =>
      s.(hands := s.hands[..i] + s.hands[i + 1..],
         ledger := g.(delivered := g.delivered + ChunkSpans(s.hands[i])))
    case FlushFailed(i, now) =>
      s.(hands := s.hands[..i] + s.hands[i + 1..],
         queue := DlqRuns.Next(s.queue, DlqRuns.Enqueue(s.hands[i], now)),
         ledger := g.(dropped := g.dropped +
           if |s.queue.dlq| >= MAX_ENTRIES then ChunkSpans(s.queue.dlq[0].td.batch) else multiset{}))
    case PruneRing(now) =>
      s.(ring := RingModel.Step(l, s.ring, RingModel.Pruned(now)),
         ledger := g.(timeEvicted := g.timeEvicted + StaleSpans(s.ring, now - l.window)))
    case BeginDrain =>
      s.(queue := DlqRuns.Next(s.queue, DlqRuns.BeginDrain))
    case Retry(ok) =>
      var e := s.queue.drain.value.pending[0];
      var spans := ChunkSpans(e.td.batch);
      s.(queue := DlqRuns.Next(s.queue, DlqRuns.Send(ok)),
         ledger := if ok then g.(delivered := g.delivered + spans)
                   else if GoesBack(e, ok) then g
                   else g.(dropped := g.dropped + spans))
    case EndDrain =>
      s.(queue := DlqRuns.Next(s.queue, DlqRuns.EndDrain),
         ledger := g.(dropped := g.dropped + QueueSpans(Overflow(s.queue))))
  }

  /** All the places a span can be in. */
  function Places(s: State): multiset<Span> {
    RingSpans(s.ring) + s.ledger.timeEvicted + s.ledger.countEvicted + HandSpans(s.hands) +
    s.ledger.delivered + QueueSpans(s.queue.dlq) + DrainSpans(s.queue) + s.ledger.dropped
  }

  /** Span `x` is in these places as often as it was inserted. */
  ghost predicate Balanced(s: State, x: Span) {
    s.ledger.inserted[x] ==
      RingSpans(s.ring)[x] + s.ledger.timeEvicted[x] + s.ledger.countEvicted[x] + HandSpans(s.hands)[x] +
      s.ledger.delivered[x] + QueueSpans(s.queue.dlq)[x] + DrainSpans(s.queue)[x] + s.ledger.dropped[x]
  }

  // ---- sums ----

  lemma {:induction false} RingConcat(a: seq<RingModel.Trace>, b: seq<RingModel.Trace>)
    ensures RingSpans(a + b) == RingSpans(a) + RingSpans(b)
  {
    if b == [] {
      assert a + b == a;
    } else {
      assert (a + b)[..|a + b| - 1] == a + b[..|b| - 1];
      RingConcat(a, b[..|b| - 1]);
    }
  }

  lemma {:induction false} QueueConcat(a: seq<QueueEntry>, b: seq<QueueEntry>)
    ensures QueueSpans(a + b) == QueueSpans(a) + QueueSpans(b)
  {
    if b == [] {
      assert a + b == a;
    } else {
      assert (a + b)[..|a + b| - 1] == a + b[..|b| - 1];
      QueueConcat(a, b[..|b| - 1]);
    }
  }

  lemma {:induction false} HandConcat(a: seq<Batch>, b: seq<Batch>)
    ensures HandSpans(a + b) == HandSpans(a) + HandSpans(b)
  {
    if b == [] {
      assert a + b == a;
    } else {
      assert (a + b)[..|a + b| - 1] == a + b[..|b| - 1];
      HandConcat(a, b[..|b| - 1]);
    }
  }

  lemma RingOne(t: RingModel.Trace)
    ensures RingSpans([t]) == ChunkSpans(t.entry.chunks)
  {
  }

  lemma QueueOne(e: QueueEntry)
    ensures QueueSpans([e]) == ChunkSpans(e.td.batch)
  {
  }

  lemma RingSplit(ts: seq<RingModel.Trace>, i: nat)
    requires i < |ts|
    ensures RingSpans(ts) == RingSpans(ts[..i]) + ChunkSpans(ts[i].entry.chunks) + RingSpans(ts[i + 1..])
  {
    hide RingSpans;
    assert ts == ts[..i] + [ts[i]] + ts[i + 1..];
    RingConcat(ts[..i] + [ts[i]], ts[i + 1..]);
    RingConcat(ts[..i], [ts[i]]);
    RingOne(ts[i]);
  }

  lemma HandOne(h: Batch)
    ensures HandSpans([h]) == ChunkSpans(h)
  {
  }

  lemma HandSplit(hands: seq<Batch>, i: nat)
    requires i < |hands|
    ensures HandSpans(hands) == HandSpans(hands[..i] + hands[i + 1..]) + ChunkSpans(hands[i])
  {
    hide HandSpans;
    hide ChunkSpans;
    assert hands == hands[..i] + [hands[i]] + hands[i + 1..];
    HandConcat(hands[..i] + [hands[i]], hands[i + 1..]);
    HandConcat(hands[..i], [hands[i]]);
    HandConcat(hands[..i], hands[i + 1..]);
    HandOne(hands[i]);
  }

  lemma QueueHead(es: seq<QueueEntry>)
    requires es != []
    ensures QueueSpans(es) == ChunkSpans(es[0].td.batch) + QueueSpans(es[1..])
  {
    assert es == [es[0]] + es[1..];
    QueueConcat([es[0]], es[1..]);
    QueueOne(es[0]);
  }

  lemma QueueCut(es: seq<QueueEntry>, k: nat)
    requires k <= |es|
    ensures QueueSpans(es) == QueueSpans(es[..k]) + QueueSpans(es[k..])
  {
    assert es == es[..k] + es[k..];
    QueueConcat(es[..k], es[k..]);
  }

  lemma RingCut(ts: seq<RingModel.Trace>, k: nat)
    requires k <= |ts|
    ensures RingSpans(ts) == RingSpans(ts[..k]) + RingSpans(ts[k..])
  {
    assert ts == ts[..k] + ts[k..];
    RingConcat(ts[..k], ts[k..]);
  }

  // ---- what each ring operation does to the spans ----

  lemma PutAddsTheChunk(ts: seq<RingModel.Trace>, tid: TraceId, chunk: ResourceSpans, now: int)
    ensures RingSpans(RingModel.Put(ts, tid, chunk, now)) == RingSpans(ts) + multiset(SpansOf(chunk))
  {
    var i, put := RingModel.IndexOf(ts, tid), RingModel.Put(ts, tid, chunk, now);
    hide RingSpans;
    hide ChunkSpans;
    if i < |ts| {
      ChunksAppend(ts[i].entry.chunks, chunk);
      RingSplit(ts, i);
      RingSplit(put, i);
      assert put[..i] == ts[..i] && put[i + 1..] == ts[i + 1..];
    } else {
      RingConcat(ts, [put[|ts|]]);
      RingOne(put[|ts|]);
      FirstChunk(chunk);
    }
  }

  lemma FirstChunk(chunk: ResourceSpans)
    ensures ChunkSpans([] + [chunk]) == multiset(SpansOf(chunk))
  {
  }

  lemma {:induction false} TimeEvictionSplits(ts: seq<RingModel.Trace>, cutoff: int)
    ensures RingSpans(ts) == RingSpans(RingModel.Recent(ts, cutoff)) + StaleSpans(ts, cutoff)
  {
    if ts != [] {
      var before, last := ts[..|ts| - 1], ts[|ts| - 1];
      TimeEvictionSplits(before, cutoff);
      RingConcat(RingModel.Recent(before, cutoff), [last]);
      RingOne(last);
    }
  }

  lemma DrainSplits(ts: seq<RingModel.Trace>, tid: TraceId)
    ensures RingSpans(ts) == RingSpans(RingModel.Removed(ts, tid)) + ChunkSpans(RingModel.ChunksOf(ts, tid))
  {
    var i := RingModel.IndexOf(ts, tid);
    if i < |ts| {
      hide RingSpans;
      RingSplit(ts, i);
      RingConcat(ts[..i], ts[i + 1..]);
    }
  }

  // ---- every step conserves ----

  lemma InsertConserves(l: RingModel.Limits, s: State, tid: TraceId, chunk: ResourceSpans, now: int, x: Span)
    requires Balanced(s, x)
    ensures Balanced(Next(l, s, Insert(tid, chunk, now)), x)
  {
    hide RingSpans;
    hide StaleSpans;
    hide HandSpans;
    hide QueueSpans;
    hide RingModel.Put;
    hide RingModel.Recent;
    hide RingModel.LeastDrop;
    var put := RingModel.Put(s.ring, tid, chunk, now);
    var recent := RingModel.Recent(put, now - l.window);
    PutAddsTheChunk(s.ring, tid, chunk, now);
    TimeEvictionSplits(put, now - l.window);
    RingCut(recent, RingModel.LeastDrop(recent, 0, l.cap));
    assert Next(l, s, Insert(tid, chunk, now)).ring == recent[RingModel.LeastDrop(recent, 0, l.cap)..];
    assert RingSpans(put)[x] == RingSpans(s.ring)[x] + multiset(SpansOf(chunk))[x];
    assert RingSpans(put)[x] == RingSpans(recent)[x] + StaleSpans(put, now - l.window)[x];
  }

  /** A drained trace goes into a worker's hands, unless nothing was held for it. */
  lemma HandsTake(hands: seq<Batch>, chunks: Batch)
    ensures HandSpans(if chunks == [] then hands else hands + [chunks]) == HandSpans(hands) + ChunkSpans(chunks)
  {
  }

  lemma DrainTraceConserves(l: RingModel.Limits, s: State, tid: TraceId, x: Span)
    requires Balanced(s, x)
    ensures Balanced(Next(l, s, DrainTrace(tid)), x)
  {
    hide RingSpans;
    hide HandSpans;
    hide QueueSpans;
    hide ChunkSpans;
    hide RingModel.Removed;
    hide RingModel.ChunksOf;
    DrainSplits(s.ring, tid);
    HandsTake(s.hands, RingModel.ChunksOf(s.ring, tid));
  }

  lemma FlushSucceededConserves(l: RingModel.Limits, s: State, i: nat, x: Span)
    requires Balanced(s, x) && i < |s.hands|
    ensures Balanced(Next(l, s, FlushSucceeded(i)), x)
  {
    hide RingSpans;
    hide HandSpans;
    hide QueueSpans;
    hide ChunkSpans;
    HandSplit(s.hands, i);
  }

  lemma FlushFailedConserves(l: RingModel.Limits, s: State, i: nat, now: int, x: Span)
    requires Balanced(s, x) && i < |s.hands|
    ensures Balanced(Next(l, s, FlushFailed(i, now)), x)
  {
    hide RingSpans;
    hide HandSpans;
    hide QueueSpans;
    hide ChunkSpans;
    HandSplit(s.hands, i);
    var q := s.queue.dlq;
    var e: QueueEntry := Entry(DlqRuns.Item(s.hands[i], |s.queue.sends|, s.queue.begun), now, 0);
    QueueConcat(if |q| >= MAX_ENTRIES then q[1..] else q, [e]);
    QueueOne(e);
    if |q| >= MAX_ENTRIES { QueueHead(q); }
  }

  lemma BeginDrainConserves(l: RingModel.Limits, s: State, x: Span)
    requires Balanced(s, x) && Enabled(s, BeginDrain)
    ensures Balanced(Next(l, s, BeginDrain), x)
  {
  }

  lemma RetryConserves(l: RingModel.Limits, s: State, ok: bool, x: Span)
    requires Balanced(s, x) && Enabled(s, Retry(ok))
    ensures Balanced(Next(l, s, Retry(ok)), x)
  {
    hide RingSpans;
    hide HandSpans;
    hide QueueSpans;
    hide ChunkSpans;
    var d := s.queue.drain.value;
    var e := d.pending[0];
    QueueHead(d.pending);
    QueueConcat(d.still, [Retried(e)]);
    QueueOne(Retried(e));
    assert d.still + [] == d.still;
  }

  lemma EndDrainConserves(l: RingModel.Limits, s: State, x: Span)
    requires Balanced(s, x) && Enabled(s, EndDrain)
    ensures Balanced(Next(l, s, EndDrain), x)
  {
    hide RingSpans;
    hide HandSpans;
    hide QueueSpans;
    hide Overflow;
    hide Merged;
    MergeSplits(s.queue, x);
    NoEntriesNoSpans();
    assert s.queue.drain.value.pending == [];
    assert DrainSpans(s.queue)[x] == QueueSpans(s.queue.drain.value.still)[x];
  }

  lemma NoEntriesNoSpans()
    ensures QueueSpans([]) == multiset{}
  {
  }

  /** A merge keeps or drops every entry. */
  lemma MergeSplits(q: DlqRuns.Machine<Batch>, x: Span)
    requires q.drain.Some?
    ensures var still := q.drain.value.still;
            QueueSpans(still)[x] + QueueSpans(q.dlq)[x] ==
            QueueSpans(Merged(still, q.dlq))[x] + QueueSpans(Overflow(q))[x]
  {
    hide QueueSpans;
    NoEntriesNoSpans();
    var still := q.drain.value.still;
    var all := still + q.dlq;
    if still != [] {
      QueueConcat(still, q.dlq);
      assert QueueSpans(all)[x] == QueueSpans(still)[x] + QueueSpans(q.dlq)[x];
      if |all| > MAX_ENTRIES { QueueCut(all, |all| - MAX_ENTRIES); }
    }
  }

  lemma StepConserves(l: RingModel.Limits, s: State, a: Action, x: Span)
    requires Balanced(s, x) && Enabled(s, a)
    ensures Balanced(Next(l, s, a), x)
  {
    hide Balanced;
    match a
    case Insert(tid, chunk, now) => InsertConserves(l, s, tid, chunk, now, x);
    case DrainTrace(tid) => DrainTraceConserves(l, s, tid, x);
    case FlushSucceeded(i) => FlushSucceededConserves(l, s, i, x);
    case FlushFailed(i, now) => FlushFailedConserves(l, s, i, now, x);
    case PruneRing(now) => PruneConserves(l, s, now, x);
    case BeginDrain => BeginDrainConserves(l, s, x);
    case Retry(ok) => RetryConserves(l, s, ok, x);
    case EndDrain => EndDrainConserves(l, s, x);
  }

  lemma PruneConserves(l: RingModel.Limits, s: State, now: int, x: Span)
    requires Balanced(s, x)
    ensures Balanced(Next(l, s, PruneRing(now)), x)
  {
    hide RingSpans;
    hide HandSpans;
    hide QueueSpans;
    hide StaleSpans;
    TimeEvictionSplits(s.ring, now - l.window);
  }

  ghost predicate Reaches(l: RingModel.Limits, s: State, actions: seq<Action>, s': State)
    decreases |actions|
  {
    if actions == [] then s' == s
    else Enabled(s, actions[0]) && Reaches(l, Next(l, s, actions[0]), actions[1..], s')
  }

  const NOTHING := Ledger(multiset{}, multiset{}, multiset{}, multiset{}, multiset{})

  /** Entries restored from an earlier process count as inserted. */
  function Start(restored: seq<Entry<Batch>>): State {
    var queue := DlqRuns.Initial(restored);
    State([], [], queue, NOTHING.(inserted := QueueSpans(queue.dlq)))
  }

  lemma {:induction false} RunConserves(l: RingModel.Limits, s: State, actions: seq<Action>, s': State, x: Span)
    requires Balanced(s, x) && Reaches(l, s, actions, s')
    ensures Balanced(s', x)
    decreases |actions|
  {
    if actions != [] {
      hide Balanced;
      hide Next;
      StepConserves(l, s, actions[0], x);
      RunConserves(l, Next(l, s, actions[0]), actions[1..], s', x);
    }
  }

  /** Conservation: after any interleaving of workers, pruning and one drainer, with any send outcomes, every span
      ever inserted or restored is in the ring, evicted by time, evicted by count, in a worker's hands, delivered, queued,
      held by the drain in progress, or dropped from the queue - and in one of these places only. */
  lemma EveryRunConserves(l: RingModel.Limits, restored: seq<Entry<Batch>>, actions: seq<Action>, s: State)
    requires Reaches(l, Start(restored), actions, s)
    ensures s.ledger.inserted == Places(s)
  {
    forall x: Span ensures s.ledger.inserted[x] == Places(s)[x] {
      assert Balanced(Start(restored), x);
      RunConserves(l, Start(restored), actions, s, x);
    }
  }

  // ---- what the ledger and the weight mean ----

  lemma NothingQueued()
    ensures QueueSpans([]) == multiset{}
  {
  }

  /** Spans are booked as delivered exactly when a send of their batch succeeds, as dropped exactly when a full queue, a
      fifth failed retry or a full merge gives them up, and as evicted by an insert or a pruning only. */
  lemma LedgerMeans(l: RingModel.Limits, s: State, a: Action)
    requires Enabled(s, a)
    ensures var g, g' := s.ledger, Next(l, s, a).ledger;
            && g'.delivered == g.delivered +
                 (if a.FlushSucceeded? then ChunkSpans(s.hands[a.hand])
                  else if a == Retry(true) then ChunkSpans(s.queue.drain.value.pending[0].td.batch)
                  else multiset{})
            && (a.FlushFailed? && |s.queue.dlq| >= 32 ==> g'.dropped == g.dropped + ChunkSpans(s.queue.dlq[0].td.batch))
            && (a == Retry(false) && s.queue.drain.value.pending[0].attempts >= 4 ==>
                  g'.dropped == g.dropped + ChunkSpans(s.queue.drain.value.pending[0].td.batch))
            && (a.Insert? || a.DrainTrace? || a.FlushSucceeded? || a.PruneRing? || a.BeginDrain? ==>
                  g'.dropped == g.dropped)
            && (a == Retry(true) ==> g'.dropped == g.dropped)
            && (a.EndDrain? ==>
                  var all := s.queue.drain.value.still + s.queue.dlq;
                  g'.dropped == g.dropped +
                    (if s.queue.drain.value.still == [] || |all| <= 32 then multiset{} else QueueSpans(all[..|all| - 32])))
            && (a.FlushFailed? && |s.queue.dlq| < 32 ==> g'.dropped == g.dropped)
            && (a == Retry(false) && s.queue.drain.value.pending[0].attempts <= 3 ==> g'.dropped == g.dropped)
            && (!a.Insert? && !a.PruneRing? ==> g'.timeEvicted == g.timeEvicted)
            && (!a.Insert? ==> g'.countEvicted == g.countEvicted && g'.inserted == g.inserted)
            && (a.Insert? ==> g'.inserted == g.inserted + multiset(SpansOf(a.chunk)))
  {
    hide ChunkSpans;
    hide RingSpans;
    hide StaleSpans;
    hide QueueSpans;
    hide DlqRuns.Next;
    hide RingModel.Step;
    NothingQueued();
  }

  /** The weight the ring compares with its cap is the number of spans it holds. */
  lemma {:induction false} WeightIsTheNumberOfSpans(ts: seq<RingModel.Trace>)
    ensures RingModel.Weight(ts) == |RingSpans(ts)|
  {
    if ts != [] {
      hide ChunkSpans;
      hide ChunkCount;
      WeightIsTheNumberOfSpans(ts[..|ts| - 1]);
      ChunkCountIsSize(ts[|ts| - 1].entry.chunks);
    }
  }

  // ---- buffering one resource ----

  /** The inserts `ConsumeTraces` makes for one ResourceSpans, one per trace id, in some order. */
  function Inserts(rs: ResourceSpans, tids: seq<TraceId>, times: seq<int>): seq<Action>
    requires |times| == |tids|
  {
    if tids == [] then []
    else [Insert(tids[0], Isolation.Isolated(rs, tids[0]), times[0])] + Inserts(rs, tids[1..], times[1..])
  }

  lemma {:induction false} IsolatedSpansFront(spans: seq<Span>, tids: seq<TraceId>)
    requires tids != []
    ensures Isolation.IsolatedSpans(spans, tids) ==
            multiset(Isolation.Only(spans, tids[0])) + Isolation.IsolatedSpans(spans, tids[1..])
  {
    if |tids| > 1 {
      IsolatedSpansFront(spans, tids[..|tids| - 1]);
      assert tids[..|tids| - 1][1..] == tids[1..][..|tids[1..]| - 1];
    } else {
      assert tids[1..] == [] && tids[..0] == [];
    }
  }

  lemma {:induction false} InsertsAdd(l: RingModel.Limits, s: State, rs: ResourceSpans, tids: seq<TraceId>, times: seq<int>,
                                      s': State)
    requires |times| == |tids| && Reaches(l, s, Inserts(rs, tids, times), s')
    ensures s'.ledger.inserted == s.ledger.inserted + Isolation.IsolatedSpans(SpansOf(rs), tids)
    decreases |tids|
  {
    if tids != [] {
      var actions := Inserts(rs, tids, times);
      assert actions[1..] == Inserts(rs, tids[1..], times[1..]);
      var next := Next(l, s, actions[0]);
      assert next.ledger.inserted == s.ledger.inserted + multiset(SpansOf(Isolation.Isolated(rs, tids[0])));
      InsertsAdd(l, next, rs, tids[1..], times[1..], s');
      Isolation.IsolatedHoldsTheTrace(rs.scopes, tids[0]);
      IsolatedSpansFront(SpansOf(rs), tids);
    }
  }

  /** Buffering a ResourceSpans trace by trace, in any order of its trace ids, inserts each of its spans exactly once. */
  lemma BufferingInsertsEachSpanOnce(l: RingModel.Limits, s: State, rs: ResourceSpans, tids: seq<TraceId>,
                                     times: seq<int>, s': State)
    requires Isolation.NoRepeats(tids) && forall t :: t in tids <==> t in Isolation.TraceIds(SpansOf(rs))
    requires |times| == |tids| && Reaches(l, s, Inserts(rs, tids, times), s')
    ensures s'.ledger.inserted == s.ledger.inserted + multiset(SpansOf(rs))
  {
    InsertsAdd(l, s, rs, tids, times, s');
    Isolation.IsolationPartitions(rs, tids);
  }
}
