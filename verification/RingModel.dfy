/** The pre-alert buffer as a plain list of whole traces, oldest first. */
module RingModel {
  import opened Spans

  /** Go's zero time, in nanoseconds relative to the Unix epoch. */
  const ZERO_TIME: int := -62_135_596_800_000_000_000

  datatype Entry = Entry(chunks: seq<ResourceSpans>, insertedAt: seq<int>, newestAt: int)

  const EMPTY_ENTRY := Entry([], [], ZERO_TIME)

  datatype Trace = Trace(id: TraceId, entry: Entry)

  function Weight(ts: seq<Trace>): nat {
    if ts == [] then 0 else Weight(ts[..|ts| - 1]) + ChunkCount(ts[|ts| - 1].entry.chunks)
  }

  ghost predicate DistinctIds(ts: seq<Trace>) {
    forall i, j :: 0 <= i < j < |ts| ==> ts[i].id != ts[j].id
  }

  /** Where the trace is, or the length if it is absent. */
  function IndexOf(ts: seq<Trace>, id: TraceId): (i: nat)
    ensures i <= |ts|
    ensures i < |ts| ==> ts[i].id == id
    ensures forall j :: 0 <= j < i ==> ts[j].id != id
  {
    if ts == [] then 0 else if ts[0].id == id then 0 else 1 + IndexOf(ts[1..], id)
  }

  function Grown(e: Entry, chunk: ResourceSpans, now: int): Entry {
    Entry(e.chunks + [chunk], e.insertedAt + [now], if now > e.newestAt then now else e.newestAt)
  }

  /** A chunk joins its trace, or starts one at the end. */
  function Put(ts: seq<Trace>, id: TraceId, chunk: ResourceSpans, now: int): seq<Trace> {
    var i := IndexOf(ts, id);
    if i < |ts| then ts[i := Trace(id, Grown(ts[i].entry, chunk, now))]
    else ts + [Trace(id, Grown(EMPTY_ENTRY, chunk, now))]
  }

  /** The traces whose newest span is not before the cutoff. */
  function Recent(ts: seq<Trace>, cutoff: int): seq<Trace> {
    if ts == [] then []
    else
      var rest := Recent(ts[..|ts| - 1], cutoff);
      if ts[|ts| - 1].entry.newestAt < cutoff then rest else rest + [ts[|ts| - 1]]
  }

  /** The least `r`, from `k` on, such that dropping the `r` oldest traces respects the cap. */
  function LeastDrop(ts: seq<Trace>, k: nat, cap: int): (r: nat)
    requires k <= |ts|
    ensures k <= r <= |ts|
    ensures Weight(ts[r..]) <= cap || r == |ts|
    ensures forall j :: k <= j < r ==> Weight(ts[j..]) > cap
    decreases |ts| - k
  {
    if Weight(ts[k..]) <= cap || k == |ts| then k else LeastDrop(ts, k + 1, cap)
  }

  function Trimmed(ts: seq<Trace>, cap: int): seq<Trace> {
    ts[LeastDrop(ts, 0, cap)..]
  }

  function Insert(ts: seq<Trace>, id: TraceId, chunk: ResourceSpans, now: int, window: int, cap: int): seq<Trace> {
    Trimmed(Recent(Put(ts, id, chunk, now), now - window), cap)
  }

  function Removed(ts: seq<Trace>, id: TraceId): seq<Trace> {
    var i := IndexOf(ts, id);
    if i < |ts| then ts[..i] + ts[i + 1..] else ts
  }

  /** The chunks of a trace, or nothing. */
  function ChunksOf(ts: seq<Trace>, id: TraceId): seq<ResourceSpans> {
    var i := IndexOf(ts, id);
    if i < |ts| then ts[i].entry.chunks else []
  }

  // ---- lists of traces ----

  lemma {:induction false} WeightConcat(a: seq<Trace>, b: seq<Trace>)
    ensures Weight(a + b) == Weight(a) + Weight(b)
  {
    if b == [] {
      assert a + b == a;
    } else {
      assert (a + b)[..|a + b| - 1] == a + b[..|b| - 1];
      WeightConcat(a, b[..|b| - 1]);
    }
  }

  lemma WeightOne(t: Trace)
    ensures Weight([t]) == ChunkCount(t.entry.chunks)
  {
  }

  /** A trace in the middle carries its own weight. */
  lemma WeightSplit(ts: seq<Trace>, i: nat)
    requires i < |ts|
    ensures Weight(ts) == Weight(ts[..i]) + ChunkCount(ts[i].entry.chunks) + Weight(ts[i + 1..])
  {
    hide Weight;
    assert ts == ts[..i] + [ts[i]] + ts[i + 1..];
    WeightConcat(ts[..i] + [ts[i]], ts[i + 1..]);
    WeightConcat(ts[..i], [ts[i]]);
    WeightOne(ts[i]);
  }

  lemma {:induction false} RecentConcat(a: seq<Trace>, b: seq<Trace>, cutoff: int)
    ensures Recent(a + b, cutoff) == Recent(a, cutoff) + Recent(b, cutoff)
  {
    if b == [] {
      assert a + b == a;
    } else {
      assert (a + b)[..|a + b| - 1] == a + b[..|b| - 1];
      RecentConcat(a, b[..|b| - 1], cutoff);
    }
  }

  lemma {:induction false} RecentMembers(ts: seq<Trace>, cutoff: int)
    ensures forall t :: t in Recent(ts, cutoff) <==> t in ts && t.entry.newestAt >= cutoff
    ensures DistinctIds(ts) ==> DistinctIds(Recent(ts, cutoff))
  {
    if ts != [] {
      var before, last := ts[..|ts| - 1], ts[|ts| - 1];
      RecentMembers(before, cutoff);
      var r := Recent(before, cutoff);
      assert forall i :: 0 <= i < |r| ==> r[i] in before;
    }
  }

  lemma PutKeepsDistinct(ts: seq<Trace>, id: TraceId, chunk: ResourceSpans, now: int)
    requires DistinctIds(ts)
    ensures DistinctIds(Put(ts, id, chunk, now))
  {
  }

  lemma InsertKeepsDistinct(ts: seq<Trace>, id: TraceId, chunk: ResourceSpans, now: int, window: int, cap: int)
    requires DistinctIds(ts)
    ensures DistinctIds(Insert(ts, id, chunk, now, window, cap))
  {
    PutKeepsDistinct(ts, id, chunk, now);
    RecentMembers(Put(ts, id, chunk, now), now - window);
  }

  /** After an insert the cap holds, every resident trace is inside the window,
      and no shorter prefix of evictions would have restored the cap. */
  lemma InsertRespectsLimits(ts: seq<Trace>, id: TraceId, chunk: ResourceSpans, now: int, window: int, cap: int)
    requires cap >= 0
    ensures var recent, ts' := Recent(Put(ts, id, chunk, now), now - window), Insert(ts, id, chunk, now, window, cap);
            && Weight(ts') <= cap
            && (forall t :: t in ts' ==> t.entry.newestAt >= now - window)
            && |ts'| <= |recent| && ts' == recent[|recent| - |ts'|..]
            && forall j :: 0 <= j < |recent| - |ts'| ==> Weight(recent[j..]) > cap
  {
    RecentMembers(Put(ts, id, chunk, now), now - window);
    var recent := Recent(Put(ts, id, chunk, now), now - window);
    hide Recent;
    hide Put;
    assert forall t :: t in recent[LeastDrop(recent, 0, cap)..] ==> t in recent;
  }

  // ---- whole runs ----

  /** One call of the ring, with the clock it reads. */
  datatype Event =
    | Inserted(id: TraceId, chunk: ResourceSpans, now: int)
    | Drained(id: TraceId)
    | Pruned(now: int)

  datatype Limits = Limits(window: int, cap: nat)

  function Step(l: Limits, ts: seq<Trace>, ev: Event): seq<Trace> {
    match ev
    case Inserted(id, chunk, now) => Insert(ts, id, chunk, now, l.window, l.cap)
    case Drained(id) => Removed(ts, id)
    case Pruned(now) => Recent(ts, now - l.window)
  }

  function After(l: Limits, evs: seq<Event>): seq<Trace> {
    if evs == [] then [] else Step(l, After(l, evs[..|evs| - 1]), evs[|evs| - 1])
  }

  predicate Resident(ts: seq<Trace>, id: TraceId) {
    IndexOf(ts, id) < |ts|
  }

  /** How many events had happened when the trace was last absent. */
  function LastAbsent(l: Limits, evs: seq<Event>, id: TraceId): (k: nat)
    ensures k <= |evs|
    ensures !Resident(After(l, evs[..k]), id)
  {
    assert evs[..|evs|] == evs;
    if evs == [] || !Resident(After(l, evs), id) then |evs|
    else
      var k := LastAbsent(l, evs[..|evs| - 1], id);
      assert evs[..|evs| - 1][..k] == evs[..k];
      k
  }

  /** The chunks inserted for the trace, in order. */
  function InsertedChunks(evs: seq<Event>, id: TraceId): seq<ResourceSpans> {
    if evs == [] then []
    else
      var before, ev := InsertedChunks(evs[..|evs| - 1], id), evs[|evs| - 1];
      if ev.Inserted? && ev.id == id then before + [ev.chunk] else before
  }

  lemma TheEntry(ts: seq<Trace>, t: Trace)
    requires DistinctIds(ts) && t in ts
    ensures Resident(ts, t.id) && ts[IndexOf(ts, t.id)] == t
  {
  }

  lemma RemovedMembers(ts: seq<Trace>, id: TraceId)
    requires DistinctIds(ts)
    ensures DistinctIds(Removed(ts, id))
    ensures forall t :: t in Removed(ts, id) <==> t in ts && t.id != id
  {
  }

  lemma StepKeepsDistinct(l: Limits, ts: seq<Trace>, ev: Event)
    requires DistinctIds(ts)
    ensures DistinctIds(Step(l, ts, ev))
  {
    match ev
    case Inserted(id, chunk, now) => InsertKeepsDistinct(ts, id, chunk, now, l.window, l.cap);
    case Drained(id) => RemovedMembers(ts, id);
    case Pruned(now) => RecentMembers(ts, now - l.window);
  }

  lemma PutMembers(ts: seq<Trace>, id: TraceId, chunk: ResourceSpans, now: int, t: Trace)
    requires DistinctIds(ts) && t in Put(ts, id, chunk, now)
    ensures if t.id == id then t.entry.chunks == ChunksOf(ts, id) + [chunk] else t in ts
  {
  }

  lemma InsertMembers(ts: seq<Trace>, id: TraceId, chunk: ResourceSpans, now: int, l: Limits, t: Trace)
    requires t in Insert(ts, id, chunk, now, l.window, l.cap)
    ensures t in Put(ts, id, chunk, now)
  {
    hide Put;
    hide Recent;
    hide LeastDrop;
    var put := Put(ts, id, chunk, now);
    var recent := Recent(put, now - l.window);
    RecentMembers(put, now - l.window);
    var i :| 0 <= i < |Trimmed(recent, l.cap)| && Trimmed(recent, l.cap)[i] == t;
    assert recent[LeastDrop(recent, 0, l.cap) + i] == t;
  }

  /** Every trace after a call was there before, whole, or is the one the call inserted into. */
  lemma StepMembers(l: Limits, ts: seq<Trace>, ev: Event, t: Trace)
    requires DistinctIds(ts) && t in Step(l, ts, ev)
    ensures ev.Drained? ==> t.id != ev.id
    ensures if ev.Inserted? && ev.id == t.id then t.entry.chunks == ChunksOf(ts, t.id) + [ev.chunk] else t in ts
  {
    match ev
    case Inserted(id, chunk, now) =>
      InsertMembers(ts, id, chunk, now, l, t);
      PutMembers(ts, id, chunk, now, t);
    case Drained(id) => RemovedMembers(ts, id);
    case Pruned(now) => RecentMembers(ts, now - l.window);
  }

  lemma {:induction false} RunKeepsDistinct(l: Limits, evs: seq<Event>)
    ensures DistinctIds(After(l, evs))
  {
    if evs != [] {
      RunKeepsDistinct(l, evs[..|evs| - 1]);
      StepKeepsDistinct(l, After(l, evs[..|evs| - 1]), evs[|evs| - 1]);
    }
  }

  lemma InsertedNext(evs: seq<Event>, k: nat, id: TraceId)
    requires k < |evs|
    ensures var before, ev := InsertedChunks(evs[..|evs| - 1][k..], id), evs[|evs| - 1];
            InsertedChunks(evs[k..], id) == if ev.Inserted? && ev.id == id then before + [ev.chunk] else before
  {
    assert evs[k..][..|evs[k..]| - 1] == evs[..|evs| - 1][k..];
  }

  lemma LastAbsentNext(l: Limits, evs: seq<Event>, id: TraceId)
    requires Resident(After(l, evs), id)
    ensures evs != [] && LastAbsent(l, evs, id) == LastAbsent(l, evs[..|evs| - 1], id)
    ensures !Resident(After(l, evs[..|evs| - 1]), id) ==> LastAbsent(l, evs, id) == |evs| - 1
  {
  }

  /** A trace is never partly present: what the ring holds for it, and so what a drain returns, is exactly the
      chunks inserted for it, in order, since it was last absent. */
  lemma {:induction false} TracesAreWhole(l: Limits, evs: seq<Event>, id: TraceId)
    requires Resident(After(l, evs), id)
    ensures ChunksOf(After(l, evs), id) == InsertedChunks(evs[LastAbsent(l, evs, id)..], id)
  {
    LastAbsentNext(l, evs, id);
    var before, ev := evs[..|evs| - 1], evs[|evs| - 1];
    var ts, ts', k := After(l, before), After(l, evs), LastAbsent(l, evs, id);
    RunKeepsDistinct(l, before);
    RunKeepsDistinct(l, evs);
    hide Step;
    hide IndexOf;
    hide DistinctIds;
    var t := ts'[IndexOf(ts', id)];
    StepMembers(l, ts, ev, t);
    InsertedNext(evs, k, id);
    if t in ts { TheEntry(ts, t); }
    if Resident(ts, id) {
      TracesAreWhole(l, before, id);
    } else {
      assert before[k..] == [];
    }
  }

  lemma AbsentTraceDrainsNothing(l: Limits, evs: seq<Event>, id: TraceId)
    requires !Resident(After(l, evs), id)
    ensures ChunksOf(After(l, evs), id) == [] && Step(l, After(l, evs), Drained(id)) == After(l, evs)
  {
  }

  /** The traces are listed by when their current stay began. */
  ghost predicate ByArrival(l: Limits, evs: seq<Event>, ts: seq<Trace>) {
    forall i, j :: 0 <= i < j < |ts| ==> LastAbsent(l, evs, ts[i].id) < LastAbsent(l, evs, ts[j].id)
  }

  lemma {:induction false} RecentKeepsArrival(l: Limits, evs: seq<Event>, ts: seq<Trace>, cutoff: int)
    requires ByArrival(l, evs, ts)
    ensures ByArrival(l, evs, Recent(ts, cutoff))
  {
    if ts != [] {
      RecentKeepsArrival(l, evs, ts[..|ts| - 1], cutoff);
      RecentMembers(ts[..|ts| - 1], cutoff);
      var r := Recent(ts[..|ts| - 1], cutoff);
      assert forall i :: 0 <= i < |r| ==> r[i] in ts[..|ts| - 1];
    }
  }

  /** A new trace goes to the end, so a put keeps the arrival order. */
  lemma PutKeepsArrival(l: Limits, evs: seq<Event>, id: TraceId, chunk: ResourceSpans, now: int)
    requires ByArrival(l, evs, After(l, evs))
    ensures ByArrival(l, evs, Put(After(l, evs), id, chunk, now))
  {
    var ts := After(l, evs);
    var put := Put(ts, id, chunk, now);
    assert evs[..|evs|] == evs;
    RunKeepsDistinct(l, evs);
    forall i | 0 <= i < |ts| ensures LastAbsent(l, evs, ts[i].id) < |evs| && put[i].id == ts[i].id {
      TheEntry(ts, ts[i]);
    }
  }

  lemma SuffixKeepsArrival(l: Limits, evs: seq<Event>, ts: seq<Trace>, k: nat)
    requires k <= |ts| && ByArrival(l, evs, ts)
    ensures ByArrival(l, evs, ts[k..])
  {
    hide LastAbsent;
  }

  lemma RemovedKeepsArrival(l: Limits, evs: seq<Event>, ts: seq<Trace>, id: TraceId)
    requires ByArrival(l, evs, ts)
    ensures ByArrival(l, evs, Removed(ts, id))
  {
    hide LastAbsent;
    hide IndexOf;
  }

  lemma StepKeepsArrival(l: Limits, evs: seq<Event>, ev: Event)
    requires ByArrival(l, evs, After(l, evs))
    ensures ByArrival(l, evs, Step(l, After(l, evs), ev))
  {
    var ts := After(l, evs);
    hide After;
    hide ByArrival;
    hide Put;
    hide Recent;
    hide LeastDrop;
    match ev
    case Inserted(id, chunk, now) =>
      PutKeepsArrival(l, evs, id, chunk, now);
      var recent := Recent(Put(ts, id, chunk, now), now - l.window);
      RecentKeepsArrival(l, evs, Put(ts, id, chunk, now), now - l.window);
      SuffixKeepsArrival(l, evs, recent, LeastDrop(recent, 0, l.cap));
    case Drained(id) => RemovedKeepsArrival(l, evs, ts, id);
    case Pruned(now) => RecentKeepsArrival(l, evs, ts, now - l.window);
  }

  /** `order` is arrival order: traces are listed by when their current stay began, oldest first,
      whatever inserts, drains and evictions happened in between. */
  lemma {:induction false} ListedByArrival(l: Limits, evs: seq<Event>)
    ensures ByArrival(l, evs, After(l, evs))
  {
    if evs != [] {
      var before, ev := evs[..|evs| - 1], evs[|evs| - 1];
      var ts, ts' := After(l, before), After(l, evs);
      ListedByArrival(l, before);
      StepKeepsArrival(l, before, ev);
      RunKeepsDistinct(l, evs);
      forall i | 0 <= i < |ts'| ensures LastAbsent(l, evs, ts'[i].id) == LastAbsent(l, before, ts'[i].id) {
        TheEntry(ts', ts'[i]);
      }
    }
  }

  // ---- when a trace was last added to ----

  /** The clock readings of the inserts for the trace, in order. */
  function InsertedClocks(evs: seq<Event>, id: TraceId): seq<int> {
    if evs == [] then []
    else
      var before, ev := InsertedClocks(evs[..|evs| - 1], id), evs[|evs| - 1];
      if ev.Inserted? && ev.id == id then before + [ev.now] else before
  }

  /** `t` is the greatest of the readings, or the zero time if none is after that. */
  ghost predicate IsLatest(t: int, clocks: seq<int>) {
    && (t in clocks || t == ZERO_TIME)
    && t >= ZERO_TIME && forall i :: 0 <= i < |clocks| ==> clocks[i] <= t
  }

  /** What an entry remembers of these readings. */
  ghost predicate Timed(e: Entry, clocks: seq<int>) {
    e.insertedAt == clocks && IsLatest(e.newestAt, clocks)
  }

  lemma GrownIsTimed(e: Entry, clocks: seq<int>, chunk: ResourceSpans, now: int)
    requires Timed(e, clocks)
    ensures Timed(Grown(e, chunk, now), clocks + [now])
  {
    var more := clocks + [now];
    assert now in more by { assert more[|clocks|] == now; }
    assert forall c :: c in clocks ==> c in more;
  }

  /** The entry of a trace, or a new one. */
  function EntryOf(ts: seq<Trace>, id: TraceId): Entry {
    var i := IndexOf(ts, id);
    if i < |ts| then ts[i].entry else EMPTY_ENTRY
  }

  lemma PutEntry(ts: seq<Trace>, id: TraceId, chunk: ResourceSpans, now: int, t: Trace)
    requires DistinctIds(ts) && t in Put(ts, id, chunk, now)
    ensures if t.id == id then t.entry == Grown(EntryOf(ts, id), chunk, now) else t in ts
  {
  }

  lemma StepEntry(l: Limits, ts: seq<Trace>, ev: Event, t: Trace)
    requires DistinctIds(ts) && t in Step(l, ts, ev)
    ensures ev.Drained? ==> t.id != ev.id
    ensures if ev.Inserted? && ev.id == t.id then t.entry == Grown(EntryOf(ts, t.id), ev.chunk, ev.now) else t in ts
  {
    match ev
    case Inserted(id, chunk, now) =>
      InsertMembers(ts, id, chunk, now, l, t);
      PutEntry(ts, id, chunk, now, t);
    case Drained(id) => RemovedMembers(ts, id);
    case Pruned(now) => RecentMembers(ts, now - l.window);
  }

  lemma ClocksNext(evs: seq<Event>, k: nat, id: TraceId)
    requires k < |evs|
    ensures var before, ev := InsertedClocks(evs[..|evs| - 1][k..], id), evs[|evs| - 1];
            InsertedClocks(evs[k..], id) == if ev.Inserted? && ev.id == id then before + [ev.now] else before
  {
    assert evs[k..][..|evs[k..]| - 1] == evs[..|evs| - 1][k..];
  }

  /** The times an entry carries are those of its current stay: the readings of all inserts since the trace was last
      absent, in order, and as the newest the greatest of them. */
  lemma {:induction false} NewestIsTheLatestInsert(l: Limits, evs: seq<Event>, id: TraceId)
    requires Resident(After(l, evs), id)
    ensures Timed(EntryOf(After(l, evs), id), InsertedClocks(evs[LastAbsent(l, evs, id)..], id))
  {
    LastAbsentNext(l, evs, id);
    var before, ev := evs[..|evs| - 1], evs[|evs| - 1];
    var ts, ts', k := After(l, before), After(l, evs), LastAbsent(l, evs, id);
    RunKeepsDistinct(l, before);
    RunKeepsDistinct(l, evs);
    hide Step;
    hide IndexOf;
    hide DistinctIds;
    hide Timed;
    hide Grown;
    var t := ts'[IndexOf(ts', id)];
    StepEntry(l, ts, ev, t);
    ClocksNext(evs, k, id);
    if t in ts { TheEntry(ts, t); }
    if Resident(ts, id) {
      NewestIsTheLatestInsert(l, before, id);
    } else {
      assert before[k..] == [];
      NothingTimed();
    }
    if ev.Inserted? && ev.id == id {
      GrownIsTimed(EntryOf(ts, id), InsertedClocks(before[k..], id), ev.chunk, ev.now);
    }
  }

  lemma NothingTimed()
    ensures Timed(EMPTY_ENTRY, [])
  {
  }

  lemma LogNext(l: Limits, log: seq<Event>, ev: Event)
    ensures After(l, log + [ev]) == Step(l, After(l, log), ev)
  {
    assert (log + [ev])[..|log|] == log;
  }

  lemma RecentIffNotStale(ts: seq<Trace>, cutoff: int, id: TraceId)
    requires DistinctIds(ts) && Resident(ts, id)
    ensures Resident(Recent(ts, cutoff), id) <==> EntryOf(ts, id).newestAt >= cutoff
  {
    var i := IndexOf(ts, id);
    RecentMembers(ts, cutoff);
    var r := Recent(ts, cutoff);
    var j := IndexOf(r, id);
    if j < |r| {
      assert r[j] in ts;
      TheEntry(ts, r[j]);
    }
    if ts[i].entry.newestAt >= cutoff { TheEntry(r, ts[i]); }
  }

  /** Every reading is before the cutoff, and so is the zero time. */
  ghost predicate AllBefore(clocks: seq<int>, cutoff: int) {
    ZERO_TIME < cutoff && forall i :: 0 <= i < |clocks| ==> clocks[i] < cutoff
  }

  lemma LatestBefore(t: int, clocks: seq<int>, cutoff: int)
    requires IsLatest(t, clocks)
    ensures t < cutoff <==> AllBefore(clocks, cutoff)
  {
  }

  /** Time evicts a trace exactly if every span of its current stay, the newest included, was inserted before the window. */
  lemma TimeEvictsIffAllAreOld(l: Limits, evs: seq<Event>, now: int, id: TraceId)
    requires Resident(After(l, evs), id)
    ensures !Resident(After(l, evs + [Pruned(now)]), id) <==>
            AllBefore(InsertedClocks(evs[LastAbsent(l, evs, id)..], id), now - l.window)
  {
    hide DistinctIds;
    hide Recent;
    hide Resident;
    hide LastAbsent;
    hide InsertedClocks;
    hide AllBefore;
    hide IsLatest;
    hide After;
    RunKeepsDistinct(l, evs);
    NewestIsTheLatestInsert(l, evs, id);
    RecentIffNotStale(After(l, evs), now - l.window, id);
    LatestBefore(EntryOf(After(l, evs), id).newestAt, InsertedClocks(evs[LastAbsent(l, evs, id)..], id), now - l.window);
    LogNext(l, evs, Pruned(now));
  }

  lemma PutOther(ts: seq<Trace>, id: TraceId, chunk: ResourceSpans, now: int, other: TraceId)
    requires DistinctIds(ts) && Resident(ts, other) && other != id
    ensures Resident(Put(ts, id, chunk, now), other)
    ensures EntryOf(Put(ts, id, chunk, now), other) == EntryOf(ts, other)
  {
    PutKeepsDistinct(ts, id, chunk, now);
    var t := ts[IndexOf(ts, other)];
    assert Put(ts, id, chunk, now)[IndexOf(ts, other)] == t;
    TheEntry(Put(ts, id, chunk, now), t);
  }

  /** An insert for another trace evicts it by time on the same terms, before anything is evicted by count. */
  lemma InsertEvictsIffAllAreOld(l: Limits, evs: seq<Event>, chunk: ResourceSpans, now: int, id: TraceId, other: TraceId)
    requires Resident(After(l, evs), other) && other != id
    ensures !Resident(Recent(Put(After(l, evs), id, chunk, now), now - l.window), other) <==>
            AllBefore(InsertedClocks(evs[LastAbsent(l, evs, other)..], other), now - l.window)
  {
    hide DistinctIds;
    hide Recent;
    hide Put;
    hide Resident;
    hide LastAbsent;
    hide InsertedClocks;
    hide AllBefore;
    hide IsLatest;
    hide After;
    RunKeepsDistinct(l, evs);
    PutKeepsDistinct(After(l, evs), id, chunk, now);
    PutOther(After(l, evs), id, chunk, now, other);
    NewestIsTheLatestInsert(l, evs, other);
    RecentIffNotStale(Put(After(l, evs), id, chunk, now), now - l.window, other);
    LatestBefore(EntryOf(After(l, evs), other).newestAt,
                 InsertedClocks(evs[LastAbsent(l, evs, other)..], other), now - l.window);
  }
}
