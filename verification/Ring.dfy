/** Go's Ring: a map of traces, the order they arrived in and a cached span count, all
    updated in place. The ghost field `stored` is the list of whole traces it stands for. */
module Ring {
  import opened Spans
  import opened RingModel

  /** The map holds exactly the listed traces. */
  ghost predicate Table(traces: map<TraceId, Entry>, ts: seq<Trace>) {
    && DistinctIds(ts)
    && (forall i :: 0 <= i < |ts| ==> ts[i].id in traces && traces[ts[i].id] == ts[i].entry)
    && forall id :: id in traces ==> HasId(ts, id)
  }

  ghost predicate HasId(ts: seq<Trace>, id: TraceId) {
    exists i :: 0 <= i < |ts| && ts[i].id == id
  }

  ghost predicate Listed(order: seq<TraceId>, ts: seq<Trace>) {
    |order| == |ts| && forall i :: 0 <= i < |ts| ==> order[i] == ts[i].id
  }

  lemma WeightPut(ts: seq<Trace>, id: TraceId, chunk: ResourceSpans, now: int)
    ensures Weight(Put(ts, id, chunk, now)) == Weight(ts) + SpanCount(chunk)
  {
    var i, put := IndexOf(ts, id), Put(ts, id, chunk, now);
    hide Weight;
    if i < |ts| {
      ChunksAppend(ts[i].entry.chunks, chunk);
      WeightSplit(ts, i);
      WeightSplit(put, i);
      assert put[..i] == ts[..i] && put[i + 1..] == ts[i + 1..];
    } else {
      ChunksAppend([], chunk);
      assert [] + [chunk] == [chunk];
      WeightConcat(ts, [put[|ts|]]);
      WeightOne(put[|ts|]);
    }
  }

  lemma TableFinds(traces: map<TraceId, Entry>, ts: seq<Trace>, id: TraceId)
    requires Table(traces, ts)
    ensures Resident(ts, id) <==> id in traces
    ensures Resident(ts, id) ==> traces[id] == ts[IndexOf(ts, id)].entry
  {
  }

  lemma TablePut(traces: map<TraceId, Entry>, ts: seq<Trace>, id: TraceId, chunk: ResourceSpans, now: int)
    requires Table(traces, ts)
    ensures var e := if id in traces then traces[id] else EMPTY_ENTRY;
            Table(traces[id := Grown(e, chunk, now)], Put(ts, id, chunk, now))
  {
    var put := Put(ts, id, chunk, now);
    TableFinds(traces, ts, id);
    PutKeepsDistinct(ts, id, chunk, now);
    hide DistinctIds;
    hide Grown;
    assert IdsOnlyGrow(ts, put);
    HasIdTransfer(ts, put);
    assert HasId(put, id) by { assert put[IndexOf(ts, id)].id == id; }
  }

  lemma ListedPut(order: seq<TraceId>, ts: seq<Trace>, id: TraceId, chunk: ResourceSpans, now: int)
    requires Listed(order, ts)
    ensures Listed(if Resident(ts, id) then order else order + [id], Put(ts, id, chunk, now))
  {
  }

  /** Looking for a resident trace at or after `i` in the order. */
  lemma ListedAt(order: seq<TraceId>, ts: seq<Trace>, target: TraceId, i: nat)
    requires Listed(order, ts) && Resident(ts, target) && i <= IndexOf(ts, target)
    ensures IndexOf(ts, target) < |order|
    ensures order[i] == target <==> i == IndexOf(ts, target)
    ensures order[i] == target ==> Listed(order[..i] + order[i + 1..], Removed(ts, target))
  {
  }

  ghost predicate IdsOnlyGrow(ts: seq<Trace>, more: seq<Trace>) {
    |ts| <= |more| && forall i :: 0 <= i < |ts| ==> more[i].id == ts[i].id
  }

  /** A list with the same ids at the same places, and perhaps more, has every id the first one has. */
  lemma HasIdTransfer(ts: seq<Trace>, more: seq<Trace>)
    requires IdsOnlyGrow(ts, more)
    ensures forall id :: HasId(ts, id) ==> HasId(more, id)
  {
  }

  /** Taking one trace out of the middle of the list, and out of the map. */
  lemma TableDrop(traces: map<TraceId, Entry>, a: seq<Trace>, t: Trace, b: seq<Trace>)
    requires Table(traces, a + [t] + b)
    ensures t.id in traces && traces[t.id] == t.entry
    ensures Table(traces - {t.id}, a + b)
  {
    var ts, rest := a + [t] + b, a + b;
    DropAt(a, t, b);
    DropKeepsDistinct(ts, rest, |a|);
    hide DistinctIds;
    forall id | id in traces - {t.id} ensures HasId(rest, id) {
      assert HasId(ts, id);
      var i :| 0 <= i < |ts| && ts[i].id == id;
      assert rest[if i < |a| then i else i - 1] == ts[i];
    }
  }

  lemma DropAt(a: seq<Trace>, t: Trace, b: seq<Trace>)
    ensures var ts, rest := a + [t] + b, a + b;
            ts[|a|] == t && forall i :: 0 <= i < |rest| ==> rest[i] == ts[if i < |a| then i else i + 1]
  {
  }

  lemma DropKeepsDistinct(ts: seq<Trace>, rest: seq<Trace>, k: nat)
    requires DistinctIds(ts) && k < |ts| == |rest| + 1
    requires forall i :: 0 <= i < |rest| ==> rest[i] == ts[if i < k then i else i + 1]
    ensures DistinctIds(rest) && forall i :: 0 <= i < |rest| ==> rest[i].id != ts[k].id
  {
  }

  lemma WeightDrop(a: seq<Trace>, t: Trace, b: seq<Trace>)
    ensures Weight(a + [t] + b) == Weight(a + b) + ChunkCount(t.entry.chunks)
  {
    hide Weight;
    WeightSplit(a + [t] + b, |a|);
    assert (a + [t] + b)[..|a|] == a && (a + [t] + b)[|a| + 1..] == b;
    WeightConcat(a, b);
  }

  lemma LeastDropNext(ts: seq<Trace>, k: nat, cap: int)
    requires k <= |ts|
    ensures LeastDrop(ts, k, cap) == if Weight(ts[k..]) <= cap || k == |ts| then k else LeastDrop(ts, k + 1, cap)
  {
  }

  lemma NothingIsRecent(cutoff: int)
    ensures Recent([], cutoff) == []
  {
  }

  lemma RecentNext(ts: seq<Trace>, i: nat, cutoff: int)
    requires i < |ts|
    ensures var r := Recent(ts[..i], cutoff);
            Recent(ts[..i + 1], cutoff) == if ts[i].entry.newestAt < cutoff then r else r + [ts[i]]
  {
    assert ts[..i + 1][..i] == ts[..i];
  }

  /** Half-way through filtering `order` in place: the survivors so far at the front, the unread part as it was. */
  ghost predicate Filtering(order: seq<TraceId>, kept: seq<Trace>, before: seq<Trace>, i: nat) {
    && |kept| <= i <= |before| == |order|
    && (forall j :: 0 <= j < |kept| ==> order[j] == kept[j].id)
    && forall j :: i <= j < |before| ==> order[j] == before[j].id
  }

  lemma FilterNext(order: seq<TraceId>, kept: seq<Trace>, before: seq<Trace>, i: nat)
    requires Filtering(order, kept, before, i) && i < |before|
    ensures order[i] == before[i].id
    ensures Filtering(order, kept, before, i + 1)
    ensures Filtering(order[|kept| := order[i]], kept + [before[i]], before, i + 1)
  {
  }

  lemma SplitNext(kept: seq<Trace>, before: seq<Trace>, i: nat)
    requires i < |before|
    ensures kept + before[i..] == kept + [before[i]] + before[i + 1..]
  {
  }

  lemma SplitEnds(before: seq<Trace>)
    ensures before[..0] == [] && [] + before[0..] == before
    ensures before[..|before|] == before && before[|before|..] == []
  {
  }

  lemma FilterEnds(order: seq<TraceId>, kept: seq<Trace>, before: seq<Trace>)
    requires Filtering(order, kept, before, |before|)
    ensures Listed(order[..|kept|], kept)
  {
  }

  class Ring {
    const maxSpans: int
    const preAlertWindow: int

    var traces: map<TraceId, Entry>
    var order: seq<TraceId>
    var count: int

    ghost var stored: seq<Trace>

    /** Every insert, drain and pruning so far. */
    ghost var log: seq<Event>

    ghost function Bounds(): Limits {
      Limits(preAlertWindow, if maxSpans >= 0 then maxSpans else 0)
    }

    /** The list is what the history leaves. */
    ghost predicate Valid()
      reads this
    {
      Sound() && stored == After(Bounds(), log)
    }

    ghost predicate Sound()
      reads this`traces, this`order, this`count, this`stored
    {
      && maxSpans > 0 && preAlertWindow > 0
      && Table(traces, stored)
      && Listed(order, stored)
      && count == Weight(stored)
    }

    constructor (maxSpans: int, preAlertWindow: int)
      requires maxSpans > 0
      ensures Valid() && stored == [] && log == [] && this.maxSpans == maxSpans
      ensures this.preAlertWindow == if preAlertWindow <= 0 then 300_000_000_000 else preAlertWindow
    {
      this.maxSpans := maxSpans;
      this.preAlertWindow := if preAlertWindow <= 0 then 300_000_000_000 else preAlertWindow;
      traces := map[];
      order := [];
      count := 0;
      stored := [];
      log := [];
    }

    /** The map holds, for exactly the traces it should, what was inserted since the trace was last absent, and when. */
    lemma HeldSinceLastAbsent(id: TraceId)
      requires Valid() && id in traces
      ensures var since := log[LastAbsent(Bounds(), log, id)..];
              traces[id].chunks == InsertedChunks(since, id) && Timed(traces[id], InsertedClocks(since, id))
    {
      hide Table;
      hide Weight;
      hide After;
      hide Timed;
      hide LastAbsent;
      TableFinds(traces, stored, id);
      TracesAreWhole(Bounds(), log, id);
      NewestIsTheLatestInsert(Bounds(), log, id);
    }

    /** Appends a chunk, then evicts by time and by count. */
    method Insert(traceId: TraceId, rs: ResourceSpans, now: int) returns (n: int)
      requires Valid()
      modifies this
      ensures Valid() && log == old(log) + [Inserted(traceId, rs, now)]
      ensures stored == RingModel.Insert(old(stored), traceId, rs, now, preAlertWindow, maxSpans)
      ensures n == Weight(stored)
    {
      var spanCount := CountSpans(rs);
      hide After;
      hide Table;
      hide Listed;
      hide Put;
      hide Weight;
      hide Trimmed;
      hide Recent;
      TablePut(traces, stored, traceId, rs, now);
      ListedPut(order, stored, traceId, rs, now);
      TableFinds(traces, stored, traceId);
      WeightPut(stored, traceId, rs, now);
      var entry := EMPTY_ENTRY;
      if traceId in traces {
        entry := traces[traceId];
      } else {
        order := order + [traceId];
      }
      entry := entry.(chunks := entry.chunks + [rs], insertedAt := entry.insertedAt + [now]);
      if now > entry.newestAt {
        entry := entry.(newestAt := now);
      }
      traces := traces[traceId := entry];
      count := count + spanCount;
      stored := Put(stored, traceId, rs, now);

      var _ := EvictByTime(now);
      var _ := EvictByCount();
      n := count;
      LogNext(Bounds(), log, Inserted(traceId, rs, now));
      log := log + [Inserted(traceId, rs, now)];
    }

    /** Returns and removes everything held for a trace. */
    method Drain(traceId: TraceId) returns (chunks: seq<ResourceSpans>)
      requires Valid()
      modifies this
      ensures Valid() && log == old(log) + [Drained(traceId)]
      ensures chunks == ChunksOf(old(stored), traceId) && stored == Removed(old(stored), traceId)
    {
      hide After;
      hide Table;
      hide Weight;
      TableFinds(traces, stored, traceId);
      LogNext(Bounds(), log, Drained(traceId));
      log := log + [Drained(traceId)];
      if traceId !in traces {
        return [];
      }
      chunks := traces[traceId].chunks;
      ghost var i := IndexOf(stored, traceId);
      assert stored == stored[..i] + [stored[i]] + stored[i + 1..];
      TableDrop(traces, stored[..i], stored[i], stored[i + 1..]);
      WeightDrop(stored[..i], stored[i], stored[i + 1..]);
      traces := traces - {traceId};
      RemoveFromOrder(traceId);
      var gone := Weigh(chunks);
      count := count - gone;
      stored := stored[..i] + stored[i + 1..];
      // The clamp at zero never acts.
      assert count >= 0;
    }

    lemma SoundIfValid()
      requires Valid()
      ensures Sound() && stored == After(Bounds(), log)
    {
    }

    method PruneByTime(now: int) returns (removed: int)
      requires Valid()
      modifies this
      ensures Valid() && log == old(log) + [Pruned(now)]
      ensures stored == Recent(old(stored), now - preAlertWindow)
      ensures removed == |old(stored)| - |stored|
    {
      hide Sound;
      hide After;
      hide Recent;
      SoundIfValid();
      removed := EvictByTime(now);
      LogNext(Bounds(), log, Pruned(now));
      log := log + [Pruned(now)];
    }

    /** Filters `order` in place: survivors are written at index `n`, behind the entry being read. */
    method EvictByTime(now: int) returns (removed: int)
      requires Sound()
      modifies this`traces, this`order, this`count, this`stored
      ensures Sound() && stored == Recent(old(stored), now - preAlertWindow)
      ensures removed == |old(stored)| - |stored|
    {
      hide Table;
      hide Weight;
      hide Recent;
      var cutoff := now - preAlertWindow;
      ghost var before, kept := stored, [];
      removed := 0;
      var n, i := 0, 0;
      NothingIsRecent(cutoff);
      SplitEnds(before);
      assert Filtering(order, kept, before, i);
      hide Filtering;
      while i < |order|
        invariant i <= |order| == |before|
        invariant kept == Recent(before[..i], cutoff) && n == |kept| <= i && removed == i - n
        invariant Filtering(order, kept, before, i)
        invariant Table(traces, kept + before[i..]) && count == Weight(kept + before[i..])
      {
        var id := order[i];
        FilterNext(order, kept, before, i);
        ghost var t, rest := before[i], before[i + 1..];
        RecentNext(before, i, cutoff);
        SplitNext(kept, before, i);
        TableDrop(traces, kept, t, rest);
        WeightDrop(kept, t, rest);
        // The entry is always there.
        assert id in traces;
        var entry := traces[id];
        if entry.newestAt < cutoff {
          traces := traces - {id};
          var gone := Weigh(entry.chunks);
          count := count - gone;
          removed := removed + 1;
        } else {
          order := order[n := id];
          n := n + 1;
          kept := kept + [t];
        }
        i := i + 1;
      }
      SplitEnds(before);
      assert kept + [] == kept;
      FilterEnds(order, kept, before);
      order := order[..n];
      stored := kept;
      // The clamp at zero never acts.
      assert count >= 0;
    }

    /** Drops whole traces from the front while the span count is over the cap. */
    method EvictByCount() returns (removed: int)
      requires Sound()
      modifies this`traces, this`order, this`count, this`stored
      ensures Sound() && stored == Trimmed(old(stored), maxSpans)
      ensures removed == |old(stored)| - |stored|
    {
      hide Table;
      hide Weight;
      hide LeastDrop;
      ghost var before := stored;
      removed := 0;
      assert before[0..] == before;
      while count > maxSpans && |order| > 0
        invariant 0 <= removed <= |before| && stored == before[removed..]
        invariant Sound()
        invariant LeastDrop(before, 0, maxSpans) == LeastDrop(before, removed, maxSpans)
        decreases |order|
      {
        var oldest := order[0];
        order := order[1..];
        assert stored == [] + [stored[0]] + stored[1..] && [] + stored[1..] == stored[1..];
        LeastDropNext(before, removed, maxSpans);
        TableDrop(traces, [], stored[0], stored[1..]);
        WeightDrop([], stored[0], stored[1..]);
        // The entry is always there.
        assert oldest in traces;
        var gone := Weigh(traces[oldest].chunks);
        count := count - gone;
        traces := traces - {oldest};
        assert before[removed..][1..] == before[removed + 1..];
        stored := stored[1..];
        removed := removed + 1;
      }
      LeastDropNext(before, removed, maxSpans);
    }

    /** Cuts the first occurrence of `target` out of the order. */
    method RemoveFromOrder(target: TraceId)
      requires Listed(order, stored) && Resident(stored, target)
      modifies this`order
      ensures Listed(order, Removed(stored, target))
    {
      hide Listed;
      hide Removed;
      hide IndexOf;
      var i := 0;
      ListedAt(order, stored, target, i);
      while i < |order|
        invariant i <= IndexOf(stored, target) < |order| && order == old(order)
      {
        ListedAt(order, stored, target, i);
        if order[i] == target {
          order := order[..i] + order[i + 1..];
          return;
        }
        i := i + 1;
      }
    }
  }

  method Weigh(chunks: seq<ResourceSpans>) returns (n: int)
    ensures n == ChunkCount(chunks)
  {
    n := 0;
    for i := 0 to |chunks|
      invariant n == ChunkCount(chunks[..i])
    {
      assert chunks[..i + 1][..i] == chunks[..i];
      var c := CountSpans(chunks[i]);
      n := n + c;
    }
    assert chunks[..|chunks|] == chunks;
  }
}
