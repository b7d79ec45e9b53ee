/** The in-memory dead-letter queue: the critical sections of the processor, and the
    machine they form when one drainer and any number of enqueuers interleave. */
module Dlq {
  import opened DlqStore

  const MAX_ENTRIES: nat := 32
  const MAX_ATTEMPTS: nat := 5

  // ---- the critical sections on values ----

  /** Enqueueing evicts the oldest entry of a full queue. */
  function Enqueued<T>(q: seq<Entry<T>>, td: T, now: int): seq<Entry<T>> {
    (if |q| >= MAX_ENTRIES then q[1..] else q) + [Entry(td, now, 0)]
  }

  function Newest<T>(q: seq<Entry<T>>): (r: seq<Entry<T>>)
    ensures |r| <= MAX_ENTRIES
  {
    if |q| <= MAX_ENTRIES then q else q[|q| - MAX_ENTRIES..]
  }

  /** Putting the still failing entries back in front; nothing is touched if there are none. */
  function Merged<T>(still: seq<Entry<T>>, q: seq<Entry<T>>): seq<Entry<T>> {
    if still == [] then q else Newest(still + q)
  }

  function Retried<T>(e: Entry<T>): Entry<T> { e.(attempts := e.attempts + 1) }

  /** A failed retry goes back to the queue unless it was the last attempt. */
  predicate GoesBack<T>(e: Entry<T>, sent: bool) { !sent && e.attempts + 1 < MAX_ATTEMPTS }

  /** The entries that go back, given the outcome of each send. */
  function StillFailing<T>(pending: seq<Entry<T>>, sent: seq<bool>): seq<Entry<T>>
    requires |sent| == |pending|
  {
    if pending == [] then []
    else
      var n := |pending| - 1;
      StillFailing(pending[..n], sent[..n]) + if GoesBack(pending[n], sent[n]) then [Retried(pending[n])] else []
  }

  /** `e` is an entry whose send failed and that had at most three attempts before, one attempt on. */
  predicate FailsAgain<T(==)>(pending: seq<Entry<T>>, sent: seq<bool>, e: Entry<T>)
    requires |sent| == |pending|
  {
    exists i :: 0 <= i < |pending| && !sent[i] && pending[i].attempts <= 3 &&
                e == Entry(pending[i].td, pending[i].enqueueAtNs, pending[i].attempts + 1)
  }

  lemma {:induction false} StillFailingMembers<T>(pending: seq<Entry<T>>, sent: seq<bool>)
    requires |sent| == |pending|
    ensures forall e :: e in StillFailing(pending, sent) <==> FailsAgain(pending, sent, e)
  {
    if pending != [] {
      var n := |pending| - 1;
      StillFailingMembers(pending[..n], sent[..n]);
      forall e ensures FailsAgain(pending, sent, e) <==>
                       FailsAgain(pending[..n], sent[..n], e) || (GoesBack(pending[n], sent[n]) && e == Retried(pending[n]))
      {
        if FailsAgain(pending[..n], sent[..n], e) {
          var i :| 0 <= i < n && !sent[..n][i] && pending[..n][i].attempts <= 3 &&
                   e == Entry(pending[..n][i].td, pending[..n][i].enqueueAtNs, pending[..n][i].attempts + 1);
          assert pending[i] == pending[..n][i];
        }
        if FailsAgain(pending, sent, e) {
          var i :| 0 <= i < |pending| && !sent[i] && pending[i].attempts <= 3 &&
                   e == Entry(pending[i].td, pending[i].enqueueAtNs, pending[i].attempts + 1);
          if i < n { assert pending[i] == pending[..n][i] && sent[i] == sent[..n][i]; }
        }
      }
    }
  }

  // ---- the code ----

  class Queue<T> {
    var dlq: seq<Entry<T>>

    constructor ()
      ensures dlq == []
    {
      dlq := [];
    }

    /** Start: as much of the loaded file as fits. */
    method Restore(entries: seq<Entry<T>>)
      requires |dlq| <= MAX_ENTRIES
      modifies this
      ensures dlq == old(dlq) + entries[..if |entries| <= MAX_ENTRIES - |old(dlq)| then |entries| else MAX_ENTRIES - |old(dlq)|]
    {
      var i := 0;
      ghost var before := dlq;
      while i < |entries| && |dlq| < MAX_ENTRIES
        invariant i <= |entries| && dlq == before + entries[..i] && |dlq| <= MAX_ENTRIES
      {
        assert entries[..i + 1] == entries[..i] + [entries[i]];
        dlq := dlq + [entries[i]];
        i := i + 1;
      }
    }

    method EnqueueDlq(td: T, now: int)
      modifies this
      ensures dlq == Enqueued(old(dlq), td, now)
    {
      if |dlq| >= MAX_ENTRIES {
        dlq := dlq[1..];
      }
      dlq := dlq + [Entry(td, now, 0)];
    }

    /** First half of a drain: take everything. */
    method SnapshotAndClear() returns (pending: seq<Entry<T>>)
      modifies this
      ensures pending == old(dlq) && dlq == []
    {
      pending := dlq;
      dlq := [];
    }

    /** Second half of a drain, after the sends: prepend and cap again. */
    method MergeStillFailing(still: seq<Entry<T>>)
      requires |dlq| <= MAX_ENTRIES
      modifies this
      ensures dlq == Merged(still, old(dlq))
    {
      if |still| > 0 {
        dlq := still + dlq;
        ghost var all, k := dlq, 0;
        assert all[0..] == all;
        while |dlq| > MAX_ENTRIES
          invariant k <= |all| && dlq == all[k..] && (k == 0 || |dlq| >= MAX_ENTRIES)
        {
          assert all[k..][1..] == all[k + 1..];
          dlq := dlq[1..];
          k := k + 1;
        }
      }
    }

    /** A whole drain with nothing in between. */
    method DrainOnce(sent: seq<bool>)
      requires |dlq| <= MAX_ENTRIES && |sent| == |dlq|
      modifies this
      ensures dlq == Newest(StillFailing(old(dlq), sent))
    {
      if |dlq| == 0 {
        return;
      }
      var pending := SnapshotAndClear();
      var still := RetryPending(pending, sent);
      StillFailingIsShorter(pending, sent);
      assert still + [] == still;
      MergeStillFailing(still);
    }
  }

  /** The sends of one drain, made without holding the lock; `sent` is what each returned. */
  method RetryPending<T>(pending: seq<Entry<T>>, sent: seq<bool>) returns (still: seq<Entry<T>>)
    requires |sent| == |pending|
    ensures still == StillFailing(pending, sent)
    ensures forall e :: e in still <==> FailsAgain(pending, sent, e)
  {
    StillFailingMembers(pending, sent);
    still := [];
    for i := 0 to |pending|
      invariant still == StillFailing(pending[..i], sent[..i])
    {
      var entry := pending[i];
      assert pending[..i + 1][..i] == pending[..i] && sent[..i + 1][..i] == sent[..i];
      entry := entry.(attempts := entry.attempts + 1);
      if sent[i] {
        continue;
      }
      if entry.attempts >= MAX_ATTEMPTS {
        continue;
      }
      still := still + [entry];
    }
    assert pending[..|pending|] == pending && sent[..|sent|] == sent;
  }

  lemma {:induction false} StillFailingIsShorter<T>(pending: seq<Entry<T>>, sent: seq<bool>)
    requires |sent| == |pending|
    ensures |StillFailing(pending, sent)| <= |pending|
  {
    if pending != [] { StillFailingIsShorter(pending[..|pending| - 1], sent[..|pending| - 1]); }
  }
}
