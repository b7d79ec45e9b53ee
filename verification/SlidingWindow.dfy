/** The ten-bucket circular window and the log of arrivals it stands for.

    A window is never told to forget: a bucket is recycled when an arrival of a
    different second, congruent modulo ten, reaches it. `LiveTally` says what
    survives in terms of the whole log alone, for arrivals in any order. */
module SlidingWindow {

  const BUCKETS: nat := 10
  const WINDOW_SECONDS: int := 10

  /** One arrival at a window: its second, and what it adds to the two counters. */
  datatype Mark = Mark(sec: nat, total: nat, hits: nat)

  datatype Tally = Tally(hits: int, total: int) {
    function Plus(m: Mark): Tally { Tally(hits + m.hits, total + m.total) }
    function Sum(t: Tally): Tally { Tally(hits + t.hits, total + t.total) }
  }

  const NONE := Tally(0, 0)

  /** An arrival of another second that falls in the same bucket. */
  predicate Ousts(m: Mark, sec: nat) {
    m.sec % BUCKETS == sec % BUCKETS && m.sec != sec
  }

  /** Some later arrival took the bucket of `sec` for another second. */
  ghost predicate Displaced(sec: nat, later: seq<Mark>) {
    exists j {:trigger Ousts(later[j], sec)} :: 0 <= j < |later| && Ousts(later[j], sec)
  }

  /** The true counts: every arrival in [lo, hi]. */
  ghost function PlainTally(marks: seq<Mark>, lo: int, hi: int): Tally {
    if marks == [] then NONE
    else
      var rest := PlainTally(marks[1..], lo, hi);
      if lo <= marks[0].sec <= hi then rest.Plus(marks[0]) else rest
  }

  /** The counts of the arrivals in [lo, hi] that nothing displaced. */
  ghost function LiveTally(marks: seq<Mark>, lo: int, hi: int): Tally {
    if marks == [] then NONE
    else
      var rest := LiveTally(marks[1..], lo, hi);
      if lo <= marks[0].sec <= hi && !Displaced(marks[0].sec, marks[1..]) then rest.Plus(marks[0]) else rest
  }

  /** The counts of the arrivals in [lo, hi] that were displaced. */
  ghost function LostTally(marks: seq<Mark>, lo: int, hi: int): Tally {
    if marks == [] then NONE
    else
      var rest := LostTally(marks[1..], lo, hi);
      if lo <= marks[0].sec <= hi && Displaced(marks[0].sec, marks[1..]) then rest.Plus(marks[0]) else rest
  }

  // ---- one bucket ----

  /** The second the last arrival of class `b` had, or -1. */
  ghost function LastSec(marks: seq<Mark>, b: nat): int {
    if marks == [] then -1
    else
      var r := LastSec(marks[1..], b);
      if r != -1 then r else if marks[0].sec % BUCKETS == b then marks[0].sec else -1
  }

  /** The counts of the undisplaced arrivals of class `b`. */
  ghost function BucketTally(marks: seq<Mark>, b: nat): Tally {
    if marks == [] then NONE
    else
      var rest := BucketTally(marks[1..], b);
      if marks[0].sec % BUCKETS == b && !Displaced(marks[0].sec, marks[1..]) then rest.Plus(marks[0]) else rest
  }

  lemma {:induction false} LastSecIsAnArrival(marks: seq<Mark>, b: nat)
    ensures LastSec(marks, b) == -1 <==> (forall j :: 0 <= j < |marks| ==> marks[j].sec % BUCKETS != b)
    ensures LastSec(marks, b) != -1 ==>
              exists j :: 0 <= j < |marks| && marks[j].sec % BUCKETS == b && marks[j].sec == LastSec(marks, b)
    ensures LastSec(marks, b) == -1 ==> BucketTally(marks, b) == NONE
  {
    if marks != [] {
      LastSecIsAnArrival(marks[1..], b);
      assert forall j :: 0 <= j < |marks[1..]| ==> marks[1..][j] == marks[j + 1];
    }
  }

  /** A bucket showing another second means displacement; an untouched bucket means none. */
  lemma LastSecDisplaces(sec: nat, later: seq<Mark>)
    ensures var l := LastSec(later, sec % BUCKETS);
            && (l == -1 ==> !Displaced(sec, later) && BucketTally(later, sec % BUCKETS) == NONE)
            && (l != -1 && l != sec ==> Displaced(sec, later))
  {
    LastSecIsAnArrival(later, sec % BUCKETS);
    var l := LastSec(later, sec % BUCKETS);
    if l != -1 {
      var j :| 0 <= j < |later| && later[j].sec % BUCKETS == sec % BUCKETS && later[j].sec == l;
      assert l != sec ==> Ousts(later[j], sec);
    }
  }

  lemma {:induction false} LastSecAppend(marks: seq<Mark>, m: Mark, b: nat)
    ensures LastSec(marks + [m], b) == if m.sec % BUCKETS == b then m.sec else LastSec(marks, b)
  {
    if marks != [] {
      assert (marks + [m])[1..] == marks[1..] + [m];
      LastSecAppend(marks[1..], m, b);
    } else {
      assert [m][1..] == [];
    }
  }

  lemma DisplacedAppend(sec: nat, later: seq<Mark>, m: Mark)
    ensures Displaced(sec, later + [m]) <==> Displaced(sec, later) || Ousts(m, sec)
  {
    var all := later + [m];
    if Displaced(sec, later) {
      var j :| 0 <= j < |later| && Ousts(later[j], sec);
      assert Ousts(all[j], sec);
    }
    if Ousts(m, sec) {
      assert Ousts(all[|later|], sec);
    }
  }

  /** What the roll-then-add code does to one bucket, whatever the order of arrival. */
  lemma {:induction false} BucketAppend(marks: seq<Mark>, m: Mark, b: nat)
    ensures BucketTally(marks + [m], b) ==
            if m.sec % BUCKETS != b then BucketTally(marks, b)
            else if LastSec(marks, b) == m.sec then BucketTally(marks, b).Plus(m)
            else NONE.Plus(m)
  {
    if marks == [] {
      assert [m][1..] == [];
    } else {
      var a, rest := marks[0], marks[1..];
      assert (marks + [m])[1..] == rest + [m];
      BucketAppend(rest, m, b);
      DisplacedAppend(a.sec, rest, m);
      LastSecDisplaces(a.sec, rest);
    }
  }

  // ---- all ten buckets ----

  /** What one bucket shows: its second and its two counters. */
  datatype Cell = Cell(sec: int, tally: Tally) {
    function Within(lo: int, hi: int): Tally { if lo <= sec <= hi then tally else NONE }
  }

  ghost function CellOf(marks: seq<Mark>, b: nat): Cell {
    Cell(LastSec(marks, b), BucketTally(marks, b))
  }

  ghost predicate CellsMatch(cells: seq<Cell>, marks: seq<Mark>) {
    |cells| == BUCKETS && forall b :: 0 <= b < BUCKETS ==> cells[b] == CellOf(marks, b)
  }

  ghost function CellsOf(marks: seq<Mark>): (cells: seq<Cell>)
    ensures CellsMatch(cells, marks)
  {
    seq(BUCKETS, b requires 0 <= b < BUCKETS => CellOf(marks, b))
  }

  /** What reading the first `n` cells one after the other adds up to. */
  ghost function Collected(cells: seq<Cell>, n: nat, lo: int, hi: int): Tally
    requires n <= |cells|
  {
    if n == 0 then NONE
    else Collected(cells, n - 1, lo, hi).Sum(cells[n - 1].Within(lo, hi))
  }

  /** Changing one cell changes the sum by what that cell contributes. */
  lemma {:induction false} CollectedUpdate(cells: seq<Cell>, cells': seq<Cell>, n: nat, c: nat, m: Mark, lo: int, hi: int)
    requires c < |cells| && n <= |cells| == |cells'|
    requires forall b :: 0 <= b < n && b != c ==> cells'[b] == cells[b]
    requires cells'[c].Within(lo, hi) == cells[c].Within(lo, hi).Plus(m)
    ensures Collected(cells', n, lo, hi) ==
            if c < n then Collected(cells, n, lo, hi).Plus(m) else Collected(cells, n, lo, hi)
  {
    if n > 0 {
      CollectedUpdate(cells, cells', n - 1, c, m, lo, hi);
    }
  }

  /** How an arrival at the front of the log shows in its bucket, and only there. */
  lemma FrontCell(marks: seq<Mark>, b: nat, lo: int, hi: int)
    requires marks != []
    ensures marks[0].sec % BUCKETS != b ==> CellOf(marks, b) == CellOf(marks[1..], b)
    ensures marks[0].sec % BUCKETS == b ==>
              CellOf(marks, b).Within(lo, hi) ==
              CellOf(marks[1..], b).Within(lo, hi).Plus(LiveFront(marks, lo, hi))
  {
    LastSecDisplaces(marks[0].sec, marks[1..]);
  }

  ghost function LiveFront(marks: seq<Mark>, lo: int, hi: int): Mark
    requires marks != []
  {
    if lo <= marks[0].sec <= hi && !Displaced(marks[0].sec, marks[1..]) then marks[0] else Mark(0, 0, 0)
  }

  lemma {:induction false} EmptyLogCollectsNothing(cells: seq<Cell>, n: nat, lo: int, hi: int)
    requires n <= |cells| && forall b :: 0 <= b < n ==> cells[b].tally == NONE
    ensures Collected(cells, n, lo, hi) == NONE
  {
    if n > 0 { EmptyLogCollectsNothing(cells, n - 1, lo, hi); }
  }

  /** Ten buckets are enough: reading them all gives the live counts of the range. */
  lemma {:induction false} CellsHoldLiveTally(cells: seq<Cell>, marks: seq<Mark>, lo: int, hi: int)
    requires CellsMatch(cells, marks)
    ensures Collected(cells, BUCKETS, lo, hi) == LiveTally(marks, lo, hi)
    decreases |marks|
  {
    if marks == [] {
      EmptyLogCollectsNothing(cells, BUCKETS, lo, hi);
    } else {
      var rest := CellsOf(marks[1..]);
      CellsHoldLiveTally(rest, marks[1..], lo, hi);
      var c := marks[0].sec % BUCKETS;
      forall b | 0 <= b < BUCKETS ensures b != c ==> cells[b] == rest[b] {
        FrontCell(marks, b, lo, hi);
      }
      FrontCell(marks, c, lo, hi);
      CollectedUpdate(rest, cells, BUCKETS, c, LiveFront(marks, lo, hi), lo, hi);
    }
  }

  // ---- how far the live counts are the true counts ----

  /** Nothing is invented: live and displaced arrivals make up the true counts, in any order of arrival. */
  lemma {:induction false} LiveAndLostMakePlain(marks: seq<Mark>, lo: int, hi: int)
    ensures LiveTally(marks, lo, hi).total + LostTally(marks, lo, hi).total == PlainTally(marks, lo, hi).total
    ensures LiveTally(marks, lo, hi).hits + LostTally(marks, lo, hi).hits == PlainTally(marks, lo, hi).hits
    ensures LostTally(marks, lo, hi).total >= 0 && LostTally(marks, lo, hi).hits >= 0
  {
    if marks != [] {
      LiveAndLostMakePlain(marks[1..], lo, hi);
    }
  }

  lemma {:induction false} LiveIsATally(marks: seq<Mark>, lo: int, hi: int)
    requires forall i :: 0 <= i < |marks| ==> marks[i].hits <= marks[i].total
    ensures 0 <= LiveTally(marks, lo, hi).hits <= LiveTally(marks, lo, hi).total
  {
    if marks != [] { LiveIsATally(marks[1..], lo, hi); }
  }

  /** The window is exact precisely when no counted arrival of the range was displaced. */
  lemma {:induction false} ExactIffNoneDisplaced(marks: seq<Mark>, lo: int, hi: int)
    ensures LiveTally(marks, lo, hi).total == PlainTally(marks, lo, hi).total <==>
            forall i :: 0 <= i < |marks| && lo <= marks[i].sec <= hi && marks[i].total > 0 ==>
                          !Displaced(marks[i].sec, marks[i + 1..])
  {
    hide LiveTally;
    hide PlainTally;
    hide Displaced;
    LiveAndLostMakePlain(marks, lo, hi);
    if marks != [] {
      var rest := marks[1..];
      LiveAndLostMakePlain(rest, lo, hi);
      ExactIffNoneDisplaced(rest, lo, hi);
      assert forall i :: 0 <= i < |rest| ==> rest[i] == marks[i + 1] && rest[i + 1..] == marks[i + 2..];
      if LostTally(marks, lo, hi).total == 0 {
        forall i | 0 <= i < |marks| && lo <= marks[i].sec <= hi && marks[i].total > 0
          ensures !Displaced(marks[i].sec, marks[i + 1..])
        {
          if i > 0 { assert rest[i - 1] == marks[i]; }
        }
      } else if LostTally(rest, lo, hi).total != 0 {
        var i :| 0 <= i < |rest| && lo <= rest[i].sec <= hi && rest[i].total > 0 && Displaced(rest[i].sec, rest[i + 1..]);
        assert marks[i + 1] == rest[i] && marks[i + 2..] == rest[i + 1..];
      }
    }
  }

  /** Every arrival is at most nine seconds behind the largest second before it. */
  ghost predicate AtMostNineBehind(marks: seq<Mark>) {
    forall i, j :: 0 <= i < j < |marks| ==> marks[i].sec - 9 <= marks[j].sec
  }

  /** Then nothing that is still in the window at `now` has been displaced. */
  lemma RecentStays(marks: seq<Mark>, now: int)
    requires AtMostNineBehind(marks) && marks != [] && now - (WINDOW_SECONDS - 1) <= marks[0].sec
    requires forall i :: 0 <= i < |marks| ==> marks[i].sec <= now
    ensures !Displaced(marks[0].sec, marks[1..])
  {
  }

  /** With bounded reordering, reading the window at or past the newest second is exact. */
  lemma {:induction false} BoundedReorderingIsExact(marks: seq<Mark>, now: int)
    requires AtMostNineBehind(marks)
    requires forall i :: 0 <= i < |marks| ==> marks[i].sec <= now
    ensures LiveTally(marks, now - 9, now) == PlainTally(marks, now - 9, now)
  {
    if marks != [] {
      hide Displaced;
      assert forall i :: 0 <= i < |marks[1..]| ==> marks[1..][i] == marks[i + 1];
      BoundedReorderingIsExact(marks[1..], now);
      if now - (WINDOW_SECONDS - 1) <= marks[0].sec { RecentStays(marks, now); }
    }
  }

  /** Nine is the most that can be allowed: one arrival ten seconds behind loses the newest one. */
  lemma TenBehindLosesAnArrival()
    ensures var marks := [Mark(10, 1, 0), Mark(0, 1, 0)];
            PlainTally(marks, 1, 10).total == 1 && LiveTally(marks, 1, 10).total == 0
  {
    var marks := [Mark(10, 1, 0), Mark(0, 1, 0)];
    assert marks[1..] == [Mark(0, 1, 0)] && marks[1..][1..] == [];
    assert Ousts(marks[1..][0], 10);
    assert Displaced(10, marks[1..]);
  }

  /** The seconds the buckets carry depend on the seconds of the arrivals only. */
  lemma {:induction false} SameSecondsSameBuckets(a: seq<Mark>, c: seq<Mark>, b: nat)
    requires |a| == |c| && forall i :: 0 <= i < |a| ==> a[i].sec == c[i].sec
    ensures LastSec(a, b) == LastSec(c, b)
  {
    if a != [] {
      assert forall i :: 0 <= i < |a| - 1 ==> a[1..][i] == a[i + 1] && c[1..][i] == c[i + 1];
      SameSecondsSameBuckets(a[1..], c[1..], b);
    }
  }

  /** Filling in the counts of the newest arrival touches its bucket only. */
  lemma {:induction false} RecountLast(before: seq<Mark>, last: Mark, m: Mark)
    requires m.sec == last.sec && last.total == last.hits == 0
    ensures forall b :: 0 <= b < BUCKETS ==>
              && LastSec(before + [m], b) == LastSec(before + [last], b)
              && BucketTally(before + [m], b) ==
                 if b == m.sec % BUCKETS then BucketTally(before + [last], b).Plus(m)
                 else BucketTally(before + [last], b)
  {
    forall b | 0 <= b < BUCKETS
      ensures LastSec(before + [m], b) == LastSec(before + [last], b)
      ensures BucketTally(before + [m], b) ==
              if b == m.sec % BUCKETS then BucketTally(before + [last], b).Plus(m)
              else BucketTally(before + [last], b)
    {
      LastSecAppend(before, m, b);
      LastSecAppend(before, last, b);
      BucketAppend(before, m, b);
      BucketAppend(before, last, b);
    }
  }

  /** Go's countingWindow: three arrays of ten, rolled lazily. */
  class CountingWindow {
    const hits: array<int>
    const total: array<int>
    const bucketSec: array<int>
    ghost var marks: seq<Mark>

    ghost const Repr: set<object>

    ghost predicate Shape() {
      && Repr == {this, hits, total, bucketSec}
      && hits != total && hits != bucketSec && total != bucketSec
      && hits.Length == total.Length == bucketSec.Length == BUCKETS
    }

    ghost predicate Valid()
      reads this, hits, total, bucketSec
    {
      && Shape()
      && forall b :: 0 <= b < BUCKETS ==>
           Cell(bucketSec[b], Tally(hits[b], total[b])) == CellOf(marks, b)
    }

    constructor ()
      ensures Valid() && fresh(Repr) && marks == []
    {
      var h, t := new int[BUCKETS](_ => 0), new int[BUCKETS](_ => 0);
      var c := new int[BUCKETS](_ => -1);
      hits, total, bucketSec := h, t, c;
      marks := [];
      Repr := {this, h, t, c};
    }

    /** The bucket is taken over by `sec`: an arrival that counts nothing yet. */
    method MaybeRoll(bucket: nat, sec: nat)
      requires Valid() && bucket == sec % BUCKETS
      modifies Repr
      ensures Valid() && marks == old(marks) + [Mark(sec, 0, 0)]
    {
      ghost var m := Mark(sec, 0, 0);
      forall b | 0 <= b < BUCKETS
        ensures LastSec(marks + [m], b) == if m.sec % BUCKETS == b then m.sec else LastSec(marks, b)
        ensures BucketTally(marks + [m], b) ==
                if m.sec % BUCKETS != b then BucketTally(marks, b)
                else if LastSec(marks, b) == m.sec then BucketTally(marks, b).Plus(m) else NONE.Plus(m)
      {
        LastSecAppend(marks, m, b);
        BucketAppend(marks, m, b);
      }
      marks := marks + [m];
      if bucketSec[bucket] == sec {
        return;
      }
      bucketSec[bucket] := sec;
      hits[bucket] := 0;
      total[bucket] := 0;
    }

    /** `total[bucket]++`, and `hits[bucket]++` when `hit`, for the arrival just rolled in. */
    method Count(bucket: nat, hit: bool)
      requires Valid() && marks != []
      requires var m := marks[|marks| - 1]; m.sec % BUCKETS == bucket && m.total == m.hits == 0
      modifies Repr
      ensures Valid()
      ensures marks == old(marks[..|marks| - 1] + [Mark(marks[|marks| - 1].sec, 1, if hit then 1 else 0)])
    {
      ghost var before, last := marks[..|marks| - 1], marks[|marks| - 1];
      ghost var m := Mark(last.sec, 1, if hit then 1 else 0);
      RecountLast(before, last, m);
      assert before + [last] == marks;
      total[bucket] := total[bucket] + 1;
      if hit {
        hits[bucket] := hits[bucket] + 1;
      }
      marks := before + [m];
    }

    /** The window read at `nowSec` counts the live arrivals of the last ten seconds. */
    method Collect(nowSec: int) returns (h: int, t: int)
      requires Valid()
      ensures Tally(h, t) == LiveTally(marks, nowSec - 9, nowSec)
    {
      ghost var cells := CellsOf(marks);
      h, t := SumCells(nowSec, cells);
      CellsHoldLiveTally(cells, marks, nowSec - (WINDOW_SECONDS - 1), nowSec);
    }

    method SumCells(nowSec: int, ghost cells: seq<Cell>) returns (h: int, t: int)
      requires Shape() && |cells| == BUCKETS
      requires forall b :: 0 <= b < BUCKETS ==> cells[b] == Cell(bucketSec[b], Tally(hits[b], total[b]))
      ensures Tally(h, t) == Collected(cells, BUCKETS, nowSec - (WINDOW_SECONDS - 1), nowSec)
    {
      var minSec := nowSec - (WINDOW_SECONDS - 1);
      h, t := 0, 0;
      for i := 0 to BUCKETS
        invariant Tally(h, t) == Collected(cells, i, minSec, nowSec)
      {
        var s := bucketSec[i];
        if s >= minSec && s <= nowSec {
          h := h + hits[i];
          t := t + total[i];
        }
      }
    }
  }
}
