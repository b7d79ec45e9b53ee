/** One drainer and any number of enqueuers, one critical section or one send at a time. */
module DlqRuns {
  import opened Options
  import opened DlqStore
  import opened Dlq
  import opened DlqFile

  /** A batch with its place in enqueue order and the number of drains begun before it was enqueued. */
  datatype Item<T> = Item(batch: T, id: nat, born: int)

  /** The drain in progress: what it has still to send, and what goes back. */
  datatype Drain<T> = Drain(pending: seq<Entry<Item<T>>>, still: seq<Entry<Item<T>>>)

  /** `sends` counts, per batch, how often it was sent, the first failed forward included. */
  datatype Machine<T> = Machine(dlq: seq<Entry<Item<T>>>, drain: Option<Drain<T>>,
                                begun: nat, sends: seq<nat>)

  datatype Action<T> =
    | Enqueue(batch: T, now: int)
    | BeginDrain
    | Send(ok: bool)
    | EndDrain

  predicate Enabled<T>(m: Machine<T>, a: Action<T>) {
    match a
    case Enqueue(_, _) => true
    case BeginDrain => m.drain.None? && m.dlq != []
    case Send(_) => m.drain.Some? && m.drain.value.pending != []
    case EndDrain => m.drain.Some? && m.drain.value.pending == []
  }

  function Next<T>(m: Machine<T>, a: Action<T>): Machine<T>
    requires Enabled(m, a)
  {
    match a
    case Enqueue(batch, now) =>
      m.(dlq := Enqueued(m.dlq, Item(batch, |m.sends|, m.begun), now), sends := m.sends + [1])
    case BeginDrain =>
      m.(dlq := [], drain := Some(Drain(m.dlq, [])), begun := m.begun + 1)
    case Send(ok) =>
      var d := m.drain.value;
      var e := d.pending[0];
      m.(drain := Some(Drain(d.pending[1..], d.still + if GoesBack(e, ok) then [Retried(e)] else [])),
         sends := if e.td.id < |m.sends| then m.sends[e.td.id := m.sends[e.td.id] + 1] else m.sends)
    case EndDrain =>
      m.(dlq := Merged(m.drain.value.still, m.dlq), drain := None)
  }

  /** Every live entry, in queue order: going back, still to be sent, newly queued. */
  function Live<T>(m: Machine<T>): seq<Entry<Item<T>>> {
    (if m.drain.Some? then m.drain.value.still + m.drain.value.pending else []) + m.dlq
  }

  // ---- the invariant ----

  /** Enqueue order is id order, and every id has been issued. */
  ghost predicate InOrder<T>(es: seq<Entry<Item<T>>>, issued: nat) {
    && (forall i, j :: 0 <= i < j < |es| ==> es[i].td.id < es[j].td.id)
    && forall i :: 0 <= i < |es| ==> es[i].td.id < issued
  }

  /** Attempts count the drains the entry went through, and its sends are one more. */
  ghost predicate Counted<T>(es: seq<Entry<Item<T>>>, begun: int, sends: seq<nat>) {
    forall i :: 0 <= i < |es| ==>
      && 0 <= es[i].attempts < MAX_ATTEMPTS
      && es[i].attempts == begun - es[i].td.born
      && es[i].td.id < |sends| && sends[es[i].td.id] == es[i].attempts + 1
  }

  ghost predicate Inv<T>(m: Machine<T>) {
    && |m.dlq| <= MAX_ENTRIES
    && InOrder(Live(m), |m.sends|)
    && Counted(m.dlq, m.begun, m.sends)
    && (m.drain.Some? ==>
          && |m.drain.value.still| + |m.drain.value.pending| <= MAX_ENTRIES
          && Counted(m.drain.value.still, m.begun, m.sends)
          && Counted(m.drain.value.pending, m.begun - 1, m.sends))
    && forall i :: 0 <= i < |m.sends| ==> m.sends[i] <= MAX_ATTEMPTS + 1
  }

  lemma InOrderParts<T>(a: seq<Entry<Item<T>>>, b: seq<Entry<Item<T>>>, issued: nat)
    requires InOrder(a + b, issued)
    ensures InOrder(a, issued) && InOrder(b, issued)
    ensures forall i, j :: 0 <= i < |a| && 0 <= j < |b| ==> a[i].td.id < b[j].td.id
  {
    assert forall i :: 0 <= i < |a| ==> (a + b)[i] == a[i];
    assert forall j :: 0 <= j < |b| ==> (a + b)[|a| + j] == b[j];
  }

  /** Anything left out of an ordered list leaves an ordered list. */
  lemma InOrderSuffix<T>(es: seq<Entry<Item<T>>>, k: nat, issued: nat)
    requires k <= |es| && InOrder(es, issued)
    ensures InOrder(es[k..], issued)
  {
  }

  lemma InOrderJoin<T>(a: seq<Entry<Item<T>>>, b: seq<Entry<Item<T>>>, issued: nat)
    requires InOrder(a, issued) && InOrder(b, issued)
    requires forall i, j :: 0 <= i < |a| && 0 <= j < |b| ==> a[i].td.id < b[j].td.id
    ensures InOrder(a + b, issued)
  {
  }

  lemma CountedSuffix<T>(es: seq<Entry<Item<T>>>, k: nat, begun: int, sends: seq<nat>)
    requires k <= |es| && Counted(es, begun, sends)
    ensures Counted(es[k..], begun, sends)
  {
  }

  lemma CountedJoin<T>(a: seq<Entry<Item<T>>>, b: seq<Entry<Item<T>>>, begun: int, sends: seq<nat>)
    requires Counted(a, begun, sends) && Counted(b, begun, sends)
    ensures Counted(a + b, begun, sends)
  {
  }

  /** Counts of other batches are not disturbed by sends of this one. */
  lemma CountedElsewhere<T>(es: seq<Entry<Item<T>>>, begun: int, sends: seq<nat>, id: nat, n: nat)
    requires Counted(es, begun, sends) && id < |sends|
    requires forall i :: 0 <= i < |es| ==> es[i].td.id != id
    ensures Counted(es, begun, sends[id := n])
  {
  }

  lemma CountedMoreSends<T>(es: seq<Entry<Item<T>>>, begun: int, sends: seq<nat>, n: nat)
    requires Counted(es, begun, sends)
    ensures Counted(es, begun, sends + [n])
  {
  }

  /** A new entry at the end, perhaps with the oldest queued one gone, keeps the order. */
  lemma EnqueueKeepsOrder<T>(front: seq<Entry<Item<T>>>, dlq: seq<Entry<Item<T>>>, k: nat,
                             e: Entry<Item<T>>, issued: nat)
    requires InOrder(front + dlq, issued) && k <= |dlq| && e.td.id == issued
    ensures InOrder(front + (dlq[k..] + [e]), issued + 1)
  {
    InOrderParts(front, dlq, issued);
    InOrderSuffix(dlq, k, issued);
    InOrderJoin(dlq[k..], [e], issued + 1);
    InOrderJoin(front, dlq[k..] + [e], issued + 1);
  }

  lemma EnqueueKeepsInv<T>(m: Machine<T>, batch: T, now: int)
    requires Inv(m)
    ensures Inv(Next(m, Enqueue(batch, now)))
  {
    var k := if |m.dlq| >= MAX_ENTRIES then 1 else 0;
    var e := Entry(Item(batch, |m.sends|, m.begun), now, 0);
    var sends := m.sends + [1];
    assert m.dlq[0..] == m.dlq;
    EnqueueKeepsOrder(if m.drain.Some? then m.drain.value.still + m.drain.value.pending else [], m.dlq, k, e, |m.sends|);
    CountedSuffix(m.dlq, k, m.begun, m.sends);
    CountedMoreSends(m.dlq[k..], m.begun, m.sends, 1);
    assert Counted([e], m.begun, sends);
    CountedJoin(m.dlq[k..], [e], m.begun, sends);
    hide Counted;
    hide InOrder;
    if m.drain.Some? {
      CountedMoreSends(m.drain.value.still, m.begun, m.sends, 1);
      CountedMoreSends(m.drain.value.pending, m.begun - 1, m.sends, 1);
    }
  }

  lemma BeginKeepsInv<T>(m: Machine<T>)
    requires Inv(m) && Enabled(m, BeginDrain)
    ensures Inv(Next(m, BeginDrain))
  {
  }

  lemma SendKeepsInv<T>(m: Machine<T>, ok: bool)
    requires Inv(m) && Enabled(m, Send(ok))
    ensures Inv(Next(m, Send(ok)))
  {
    var d := m.drain.value;
    var e, later := d.pending[0], d.pending[1..];
    var back := if GoesBack(e, ok) then [Retried(e)] else [];
    assert d.pending == [e] + later;
    SendKeepsOrder(d.still, e, back, later, m.dlq, |m.sends|);
    SendKeepsCounts(m, e, later, back);
    hide Counted;
    hide InOrder;
    assert Live(m) == d.still + ([e] + later) + m.dlq;
  }

  /** The sent entry is counted once more, the others are not disturbed. */
  lemma SendKeepsCounts<T>(m: Machine<T>, e: Entry<Item<T>>, later: seq<Entry<Item<T>>>, back: seq<Entry<Item<T>>>)
    requires Inv(m) && m.drain.Some? && m.drain.value.pending == [e] + later
    requires back == [] || (back == [Retried(e)] && e.attempts + 1 < MAX_ATTEMPTS)
    ensures e.td.id < |m.sends| && m.sends[e.td.id] <= MAX_ATTEMPTS
    ensures var sends := m.sends[e.td.id := m.sends[e.td.id] + 1];
            && Counted(m.drain.value.still + back, m.begun, sends)
            && Counted(later, m.begun - 1, sends)
            && Counted(m.dlq, m.begun, sends)
  {
    var d, issued := m.drain.value, |m.sends|;
    assert d.pending[0] == e && d.pending[1..] == later;
    var n := m.sends[e.td.id] + 1;
    InOrderParts(d.still + d.pending, m.dlq, issued);
    InOrderParts(d.still, d.pending, issued);
    InOrderParts([e], later, issued);
    assert (d.still + d.pending)[|d.still|] == e && [e][0] == e;
    CountedSuffix(d.pending, 1, m.begun - 1, m.sends);
    CountedElsewhere(d.still, m.begun, m.sends, e.td.id, n);
    CountedElsewhere(m.dlq, m.begun, m.sends, e.td.id, n);
    CountedElsewhere(later, m.begun - 1, m.sends, e.td.id, n);
    assert Counted(back, m.begun, m.sends[e.td.id := n]);
    CountedJoin(d.still, back, m.begun, m.sends[e.td.id := n]);
  }

  /** Replacing an entry by its retried self, or dropping it, keeps the order. */
  lemma SendKeepsOrder<T>(still: seq<Entry<Item<T>>>, e: Entry<Item<T>>, back: seq<Entry<Item<T>>>,
                          later: seq<Entry<Item<T>>>, dlq: seq<Entry<Item<T>>>, issued: nat)
    requires InOrder(still + ([e] + later) + dlq, issued)
    requires back == [] || back == [Retried(e)]
    ensures InOrder(still + back + later + dlq, issued)
  {
    var before, after := still + ([e] + later) + dlq, still + back + later + dlq;
    if back == [] {
      assert forall i :: 0 <= i < |after| ==> after[i] == before[if i < |still| then i else i + 1];
      InOrderPicked(before, after, |still|, 1, issued);
    } else {
      assert forall i :: 0 <= i < |after| ==> after[i].td == before[i].td;
      InOrderPicked(before, after, |still|, 0, issued);
    }
  }

  /** A list whose ids are those of an ordered one, with `gap` of them skipped at `k`, is ordered. */
  lemma InOrderPicked<T>(es: seq<Entry<Item<T>>>, picked: seq<Entry<Item<T>>>, k: nat, gap: nat, issued: nat)
    requires InOrder(es, issued) && |picked| + gap == |es|
    requires forall i :: 0 <= i < |picked| ==> picked[i].td.id == es[if i < k then i else i + gap].td.id
    ensures InOrder(picked, issued)
  {
  }

  lemma EndKeepsInv<T>(m: Machine<T>)
    requires Inv(m) && Enabled(m, EndDrain)
    ensures Inv(Next(m, EndDrain))
  {
    var still := m.drain.value.still;
    assert Live(m) == still + m.dlq;
    CountedJoin(still, m.dlq, m.begun, m.sends);
    var all := still + m.dlq;
    var k := if |all| <= MAX_ENTRIES then 0 else |all| - MAX_ENTRIES;
    InOrderSuffix(all, k, |m.sends|);
    CountedSuffix(all, k, m.begun, m.sends);
    assert all[0..] == all;
    assert still == [] ==> all == m.dlq;
    assert Live(Next(m, EndDrain)) == [] + Merged(still, m.dlq) == all[k..];
  }

  lemma StepKeepsInv<T>(m: Machine<T>, a: Action<T>)
    requires Inv(m) && Enabled(m, a)
    ensures Inv(Next(m, a))
  {
    match a
    case Enqueue(batch, now) => EnqueueKeepsInv(m, batch, now);
    case BeginDrain => BeginKeepsInv(m);
    case Send(ok) => SendKeepsInv(m, ok);
    case EndDrain => EndKeepsInv(m);
  }

  // ---- runs ----

  /** After a restart: what was restored, with the attempts it had been saved with. */
  function Initial<T>(restored: seq<Entry<T>>): Machine<T> {
    var kept := restored[..if |restored| <= MAX_ENTRIES then |restored| else MAX_ENTRIES];
    Machine(seq(|kept|, i requires 0 <= i < |kept| =>
              Entry(Item(kept[i].td, i, -kept[i].attempts), kept[i].enqueueAtNs, kept[i].attempts)),
            None, 0,
            seq(|kept|, i requires 0 <= i < |kept| => if kept[i].attempts >= 0 then kept[i].attempts + 1 else 0))
  }

  /** Entries saved by an earlier process, which had the same limits. */
  ghost predicate Restorable<T>(restored: seq<Entry<T>>) {
    forall i :: 0 <= i < |restored| ==> 0 <= restored[i].attempts < MAX_ATTEMPTS
  }

  ghost predicate Reaches<T>(m: Machine<T>, actions: seq<Action<T>>, m': Machine<T>)
    decreases |actions|
  {
    if actions == [] then m' == m
    else Enabled(m, actions[0]) && Reaches(Next(m, actions[0]), actions[1..], m')
  }

  lemma InitialInv<T>(restored: seq<Entry<T>>)
    requires Restorable(restored)
    ensures Inv(Initial(restored))
  {
  }

  lemma {:induction false} RunKeepsInv<T>(m: Machine<T>, actions: seq<Action<T>>, m': Machine<T>)
    requires Inv(m) && Reaches(m, actions, m')
    ensures Inv(m')
    decreases |actions|
  {
    if actions != [] {
      StepKeepsInv(m, actions[0]);
      RunKeepsInv(Next(m, actions[0]), actions[1..], m');
    }
  }

  /** At every point of every interleaving: at most 32 entries queued and 64 live, queued attempts between 0 and 4,
      everything live in enqueue order, every queued entry gone once five drains begun after it was enqueued are over,
      and no batch sent more than six times. */
  lemma DlqIsBounded<T>(restored: seq<Entry<T>>, actions: seq<Action<T>>, m: Machine<T>)
    requires Restorable(restored) && Reaches(Initial(restored), actions, m)
    ensures |m.dlq| <= MAX_ENTRIES && |Live(m)| <= 2 * MAX_ENTRIES
    ensures forall i :: 0 <= i < |m.dlq| ==> 0 <= m.dlq[i].attempts <= 4
    ensures forall i, j :: 0 <= i < j < |Live(m)| ==> Live(m)[i].td.id < Live(m)[j].td.id
    ensures forall i :: 0 <= i < |Live(m)| ==> m.begun - Live(m)[i].td.born <= MAX_ATTEMPTS
    ensures m.drain.None? ==> forall i :: 0 <= i < |Live(m)| ==> m.begun - Live(m)[i].td.born < MAX_ATTEMPTS
    ensures forall i :: 0 <= i < |m.sends| ==> m.sends[i] <= 6
  {
    InitialInv(restored);
    RunKeepsInv(Initial(restored), actions, m);
  }

  /** A merge keeps exactly the newest 32: whatever it drops was enqueued before everything it keeps. */
  lemma MergeKeepsTheNewest<T>(m: Machine<T>)
    requires Inv(m) && Enabled(m, EndDrain)
    ensures var all, m' := Live(m), Next(m, EndDrain);
            && |m'.dlq| == (if |all| <= MAX_ENTRIES then |all| else MAX_ENTRIES)
            && m'.dlq == all[|all| - |m'.dlq|..]
            && forall i, j :: 0 <= i < |all| - |m'.dlq| <= j < |all| ==> all[i].td.id < all[j].td.id
  {
  }

  // ---- how an entry leaves ----

  /** A send that succeeds, or the fifth one that fails, takes the entry out; any other failure leaves it in its place
      with one attempt more. */
  lemma SendOutcome<T>(m: Machine<T>, ok: bool)
    requires Inv(m) && Enabled(m, Send(ok))
    ensures var e, m' := m.drain.value.pending[0], Next(m, Send(ok));
            var i := |m.drain.value.still|;
            && Live(m)[i] == e
            && (ok || e.attempts == 4 ==> Live(m') == Live(m)[..i] + Live(m)[i + 1..])
            && (!ok && e.attempts <= 3 ==> Live(m') == Live(m)[..i] + [e.(attempts := e.attempts + 1)] + Live(m)[i + 1..])
  {
    var still, e, rest := m.drain.value.still, m.drain.value.pending[0], m.drain.value.pending[1..];
    assert m.drain.value.pending == [e] + rest;
    LiveAround(still, e, rest, m.dlq);
    var back := if GoesBack(e, ok) then [Retried(e)] else [];
    assert Live(Next(m, Send(ok))) == still + back + rest + m.dlq;
    assert Live(m) == still + ([e] + rest) + m.dlq;
    assert e.attempts <= 4;
    hide Live;
    hide Inv;
    hide Next;
    Regroup(still, back, rest, m.dlq);
  }

  lemma Regroup<U>(a: seq<U>, b: seq<U>, c: seq<U>, d: seq<U>)
    ensures a + b + c + d == a + b + (c + d)
    ensures b == [] ==> a + b + c + d == a + (c + d)
  {
  }

  lemma LiveAround<U>(a: seq<U>, e: U, b: seq<U>, c: seq<U>)
    ensures var all := a + ([e] + b) + c;
            all[|a|] == e && all[..|a|] == a && all[|a| + 1..] == b + c
  {
  }

  /** Enqueueing puts the batch last, with no attempts, and pushes out the oldest queued entry if and only if there are 32. */
  lemma EnqueueOutcome<T>(m: Machine<T>, batch: T, now: int)
    requires Inv(m)
    ensures var m', front := Next(m, Enqueue(batch, now)), Live(m)[..|Live(m)| - |m.dlq|];
            var kept := if |m.dlq| == 32 then m.dlq[1..] else m.dlq;
            && m'.dlq == kept + [Entry(Item(batch, |m.sends|, m.begun), now, 0)]
            && Live(m') == front + m'.dlq
  {
    var front := if m.drain.Some? then m.drain.value.still + m.drain.value.pending else [];
    assert Live(m) == front + m.dlq;
  }

  ghost predicate HasId<T>(es: seq<Entry<Item<T>>>, id: nat) {
    exists i :: 0 <= i < |es| && es[i].td.id == id
  }

  ghost predicate Lives<T>(m: Machine<T>, id: nat) { HasId(Live(m), id) }

  /** The four ways out: sent, failed for the fifth time, pushed out of a full queue, or too old for a full merge. */
  ghost predicate Leaves<T>(m: Machine<T>, a: Action<T>, i: nat)
    requires Enabled(m, a) && i < |Live(m)|
  {
    match a
    case Enqueue(_, _) => |m.dlq| == 32 && i == |Live(m)| - 32
    case BeginDrain => false
    case Send(ok) => i == |m.drain.value.still| && (ok || Live(m)[i].attempts == 4)
    case EndDrain => i < |Live(m)| - 32
  }

  lemma LivesAt<T>(m: Machine<T>, i: nat, id: nat)
    requires i < |Live(m)| && Live(m)[i].td.id == id
    ensures Lives(m, id)
  {
  }

  /** A live list made by cutting one entry out of an ordered one lacks exactly that entry. */
  lemma CutOut<T>(es: seq<Entry<Item<T>>>, i: nat, j: nat, issued: nat)
    requires InOrder(es, issued) && i < |es| && j < |es|
    ensures var cut := es[..j] + es[j + 1..];
            HasId(cut, es[i].td.id) <==> i != j
  {
    var cut := es[..j] + es[j + 1..];
    assert forall k :: 0 <= k < |cut| ==> cut[k] == es[if k < j then k else k + 1];
    if i != j {
      assert cut[if i < j then i else i - 1] == es[i];
    }
  }

  lemma SendTakesOut<T>(m: Machine<T>, ok: bool, i: nat)
    requires Inv(m) && Enabled(m, Send(ok)) && i < |Live(m)|
    ensures !Lives(Next(m, Send(ok)), Live(m)[i].td.id) <==> Leaves(m, Send(ok), i)
  {
    hide Next;
    hide InOrder;
    var j, es, m' := |m.drain.value.still|, Live(m), Next(m, Send(ok));
    SendOutcome(m, ok);
    assert es[j].attempts <= 4;
    hide Live;
    hide Inv;
    if ok || es[j].attempts == 4 {
      CutOut(es, i, j, |m.sends|);
    } else {
      var back := es[j].(attempts := es[j].attempts + 1);
      assert Live(m')[i].td.id == es[i].td.id by { Replaced(es, j, back, i); }
    }
  }

  lemma Replaced<T>(es: seq<Entry<Item<T>>>, j: nat, back: Entry<Item<T>>, i: nat)
    requires i < |es| && j < |es| && back.td == es[j].td
    ensures var r := es[..j] + [back] + es[j + 1..]; |r| == |es| && r[i].td == es[i].td
  {
  }

  /** Seen on all live entries: one more at the end, and with 32 queued the first of those cut out. */
  lemma EnqueueOnLive<T>(m: Machine<T>, batch: T, now: int) returns (e: Entry<Item<T>>)
    requires Inv(m)
    ensures e.td.id == |m.sends| && |m.dlq| <= |Live(m)|
    ensures var es, es', j := Live(m), Live(Next(m, Enqueue(batch, now))), |Live(m)| - 32;
            if |m.dlq| == 32 then es' == es[..j] + es[j + 1..] + [e] else es' == es + [e]
  {
    hide Next;
    e := Entry(Item(batch, |m.sends|, m.begun), now, 0);
    EnqueueOutcome(m, batch, now);
    QueueIsLast(m);
    hide Live;
    if |m.dlq| == 32 { PushedOut(Live(m), m.dlq, e); } else { Appended(Live(m), m.dlq, e); }
  }

  lemma EnqueuePushesOut<T>(m: Machine<T>, batch: T, now: int, i: nat)
    requires Inv(m) && i < |Live(m)|
    ensures !Lives(Next(m, Enqueue(batch, now)), Live(m)[i].td.id) <==> Leaves(m, Enqueue(batch, now), i)
  {
    hide Next;
    hide InOrder;
    hide Live;
    hide Inv;
    hide HasId;
    var e := EnqueueOnLive(m, batch, now);
    var es, j := Live(m), |Live(m)| - 32;
    NewIdIsNew(m, i);
    if |m.dlq| == 32 {
      CutOut(es, i, j, |m.sends|);
      OneMoreAtTheEnd(es[..j] + es[j + 1..], e, es[i].td.id);
    } else {
      OneMoreAtTheEnd(es, e, es[i].td.id);
      HasItsId(es, i);
    }
  }

  lemma HasItsId<T>(es: seq<Entry<Item<T>>>, i: nat)
    requires i < |es|
    ensures HasId(es, es[i].td.id)
  {
  }

  lemma PushedOut<U>(es: seq<U>, q: seq<U>, e: U)
    requires |q| <= |es| && es[|es| - |q|..] == q && q != []
    ensures var j := |es| - |q|; es[..j] + (q[1..] + [e]) == es[..j] + es[j + 1..] + [e]
  {
    var j := |es| - |q|;
    assert es[j + 1..] == es[j..][1..];
  }

  lemma Appended<U>(es: seq<U>, q: seq<U>, e: U)
    requires |q| <= |es| && es[|es| - |q|..] == q
    ensures es[..|es| - |q|] + (q + [e]) == es + [e]
  {
    assert es == es[..|es| - |q|] + q;
  }

  lemma OneMoreAtTheEnd<T>(es: seq<Entry<Item<T>>>, e: Entry<Item<T>>, id: nat)
    requires e.td.id != id
    ensures HasId(es + [e], id) <==> HasId(es, id)
  {
    if HasId(es, id) {
      var k :| 0 <= k < |es| && es[k].td.id == id;
      assert (es + [e])[k] == es[k];
    }
  }

  lemma QueueIsLast<T>(m: Machine<T>)
    ensures |m.dlq| <= |Live(m)| && Live(m)[|Live(m)| - |m.dlq|..] == m.dlq
    ensures Live(m) == Live(m)[..|Live(m)| - |m.dlq|] + m.dlq
    ensures forall j :: |Live(m)| - |m.dlq| <= j <= |Live(m)| ==> Live(m)[j..] == m.dlq[j - (|Live(m)| - |m.dlq|)..]
  {
  }

  lemma NewIdIsNew<T>(m: Machine<T>, i: nat)
    requires Inv(m) && i < |Live(m)|
    ensures Live(m)[i].td.id < |m.sends| && InOrder(Live(m), |m.sends|)
  {
  }

  lemma EndDropsTheOldest<T>(m: Machine<T>, i: nat)
    requires Inv(m) && Enabled(m, EndDrain) && i < |Live(m)|
    ensures !Lives(Next(m, EndDrain), Live(m)[i].td.id) <==> Leaves(m, EndDrain, i)
  {
    var es, m' := Live(m), Next(m, EndDrain);
    MergeKeepsTheNewest(m);
    NewIdIsNew(m, i);
    var d := |es| - |m'.dlq|;
    assert Live(m') == m'.dlq == es[d..];
    if i >= d { assert es[d..][i - d] == es[i]; LivesAt(m', i - d, es[i].td.id); }
  }

  lemma BeginKeepsAll<T>(m: Machine<T>, i: nat)
    requires Enabled(m, BeginDrain) && i < |Live(m)|
    ensures Lives(Next(m, BeginDrain), Live(m)[i].td.id)
  {
    assert Live(Next(m, BeginDrain)) == [] + m.dlq + [] == m.dlq;
    assert Live(m) == [] + m.dlq == m.dlq;
    LivesAt(Next(m, BeginDrain), i, Live(m)[i].td.id);
  }

  /** In every run a live entry leaves if and only if its send succeeds, its fifth retry fails, a new batch pushes it out
      of a full queue, or 32 newer ones are left at the end of a drain. */
  lemma LeavesOnlyFourWays<T>(restored: seq<Entry<T>>, actions: seq<Action<T>>, m: Machine<T>, a: Action<T>, i: nat)
    requires Restorable(restored) && Reaches(Initial(restored), actions, m) && Enabled(m, a) && i < |Live(m)|
    ensures !Lives(Next(m, a), Live(m)[i].td.id) <==> Leaves(m, a, i)
  {
    hide Inv;
    hide Reaches;
    hide Next;
    hide Live;
    hide Lives;
    hide Initial;
    InitialInv(restored);
    RunKeepsInv(Initial(restored), actions, m);
    match a
    case Enqueue(batch, now) => EnqueuePushesOut(m, batch, now, i);
    case BeginDrain => BeginKeepsAll(m, i);
    case Send(ok) => SendTakesOut(m, ok, i);
    case EndDrain => EndDropsTheOldest(m, i);
  }

  /** In every run a failed retry is the entry's fifth, and its batch's sixth send, exactly if the entry is abandoned;
      before that it stays, one attempt on. */
  lemma FailedRetryGoesBack<T>(restored: seq<Entry<T>>, actions: seq<Action<T>>, m: Machine<T>)
    requires Restorable(restored) && Reaches(Initial(restored), actions, m) && Enabled(m, Send(false))
    ensures var e, m', i := m.drain.value.pending[0], Next(m, Send(false)), |m.drain.value.still|;
            && (e.attempts <= 3 ==> i < |Live(m')| && Live(m')[i] == e.(attempts := e.attempts + 1))
            && (e.attempts >= 4 ==> !Lives(m', e.td.id))
            && e.td.id < |m'.sends| && m'.sends[e.td.id] == e.attempts + 2
  {
    hide Reaches;
    hide Initial;
    InitialInv(restored);
    RunKeepsInv(Initial(restored), actions, m);
    SendOutcome(m, false);
    SendTakesOut(m, false, |m.drain.value.still|);
  }

  /** A queue saved at shutdown and restored at the next start resumes as it was: same batches, times,
      attempts and order, provided no payload is over the loader's bound. */
  lemma {:induction false} RestartResumes<T(!new)>(c: Codec<T>, q: seq<Entry<T>>, rs: seq<Record>)
    requires LeftInverse(c) && Marshalled(c, q) == Some(rs) && Savable(rs)
    requires |q| <= MAX_ENTRIES && FirstOversized(rs) == |rs|
    ensures var r := Unmarshalled(c, Decoded(Encoded(rs)));
            && !r.failed
            && var resumed := Initial(r.entries).dlq;
               && |resumed| == |q|
               && forall i :: 0 <= i < |q| ==>
                    && resumed[i].td.batch == q[i].td && resumed[i].attempts == q[i].attempts
                    && resumed[i].enqueueAtNs == q[i].enqueueAtNs
  {
    SavedQueueLoadsBack(c, q, rs);
    assert q[..|q|] == q;
  }
}
