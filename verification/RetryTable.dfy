/** The open-addressed table behind the retry trigger, and the key-to-second map
    it stands for. Keys are the non-zero hashes of outbound requests. */
module RetryTable {
  import opened Options

  const SIZE: nat := 256
  const PROBES: nat := 8
  const RETRY_WINDOW_MS: int := 10_000

  datatype Table = Table(hash: seq<nat>, lastSec: seq<int>)

  function Empty(): (t: Table)
    ensures |t.hash| == |t.lastSec| == SIZE
    ensures forall i :: 0 <= i < SIZE ==> t.hash[i] == t.lastSec[i] == 0
  {
    Table(seq(SIZE, _ => 0), seq(SIZE, _ => 0))
  }

  datatype Outcome = Outcome(table: Table, retry: bool)

  function Slot(key: nat, offset: nat): nat {
    (key % SIZE + offset) % SIZE
  }

  /** Each non-zero key sits in one slot only, within eight slots of its home,
      and no empty slot comes before it. */
  ghost predicate Inv(t: Table) {
    && Distinct(t)
    && forall i :: 0 <= i < SIZE && t.hash[i] != 0 ==> Placed(t, i)
  }

  ghost predicate Distinct(t: Table) {
    && |t.hash| == |t.lastSec| == SIZE
    && forall i, j :: 0 <= i < j < SIZE && t.hash[i] != 0 ==> t.hash[i] != t.hash[j]
  }

  ghost predicate Placed(t: Table, i: nat)
    requires |t.hash| == SIZE && i < SIZE
  {
    exists d: nat :: d < PROBES && PlacedAt(t.hash, t.hash[i], i, d)
  }

  ghost predicate PlacedAt(hash: seq<nat>, key: nat, i: nat, d: nat)
    requires |hash| == SIZE
  {
    Slot(key, d) == i && forall e: nat {:trigger Slot(key, e)} :: e < d ==> hash[Slot(key, e)] != 0
  }

  /** The first probe, from `d` on, that meets an empty slot or the key itself; eight if none does. */
  function FirstStop(t: Table, key: nat, d: nat): (r: nat)
    requires |t.hash| == SIZE && d <= PROBES
    ensures d <= r <= PROBES
    ensures r < PROBES ==> t.hash[Slot(key, r)] == 0 || t.hash[Slot(key, r)] == key
    ensures forall e: nat :: d <= e < r ==> t.hash[Slot(key, e)] != 0 && t.hash[Slot(key, e)] != key
    decreases PROBES - d
  {
    if d == PROBES || t.hash[Slot(key, d)] == 0 || t.hash[Slot(key, d)] == key then d
    else FirstStop(t, key, d + 1)
  }

  /** Where a sighting writes. */
  function Target(t: Table, key: nat): nat
    requires |t.hash| == SIZE
  {
    var d := FirstStop(t, key, 0);
    Slot(key, if d == PROBES then 0 else d)
  }

  /** One sighting of a non-zero key at `ms`. */
  function Sight(t: Table, key: nat, ms: nat): Outcome
    requires |t.hash| == |t.lastSec| == SIZE
  {
    var d := FirstStop(t, key, 0);
    var i := Target(t, key);
    Outcome(Table(t.hash[i := key], t.lastSec[i := ms / 1000]),
            d < PROBES && t.hash[i] == key && ms - t.lastSec[i] * 1000 <= RETRY_WINDOW_MS)
  }

  // ---- the map a table stands for ----

  /** The non-zero slots are exactly the graph of `m`. */
  ghost predicate Remembers(t: Table, m: map<nat, int>) {
    && Distinct(t)
    && (forall i :: 0 <= i < SIZE && t.hash[i] != 0 ==> t.hash[i] in m && m[t.hash[i]] == t.lastSec[i])
    && forall k :: k in m ==> k != 0 && HasSlot(t, k)
  }

  ghost predicate HasSlot(t: Table, key: nat)
    requires Distinct(t)
  {
    exists i :: 0 <= i < SIZE && t.hash[i] == key
  }

  /** Every probe slot of the key holds some other key. */
  ghost predicate Overflows(t: Table, key: nat)
    requires |t.hash| == SIZE
  {
    forall d: nat :: d < PROBES ==> t.hash[Slot(key, d)] != 0 && t.hash[Slot(key, d)] != key
  }

  /** What an overflow drops before a sighting of `key` is stored: the key at its home slot. */
  ghost function Dropped(t: Table, key: nat): set<nat>
    requires |t.hash| == SIZE
  {
    if Overflows(t, key) then {t.hash[Slot(key, 0)]} else {}
  }

  lemma SlotsApart(key: nat, d: nat, e: nat)
    requires d < PROBES && e < PROBES
    ensures Slot(key, d) == Slot(key, e) <==> d == e
  {
  }

  /** The scan finds a resident key, and only a resident key. */
  lemma ScanFindsResidents(t: Table, key: nat)
    requires Inv(t) && key != 0
    ensures var d := FirstStop(t, key, 0);
            HasSlot(t, key) <==> d < PROBES && t.hash[Slot(key, d)] == key
    ensures Overflows(t, key) <==> FirstStop(t, key, 0) == PROBES
  {
    var d := FirstStop(t, key, 0);
    if HasSlot(t, key) {
      var i :| 0 <= i < SIZE && t.hash[i] == key;
      assert Placed(t, i);
      var home: nat :| home < PROBES && PlacedAt(t.hash, key, i, home);
      assert t.hash[Slot(key, home)] == key;
      assert d <= home;
      assert d < home ==> t.hash[Slot(key, d)] != 0;
    }
    assert d < PROBES ==> !Overflows(t, key);
  }

  /** Writing a key where the scan stopped keeps every other key where its scan finds it. */
  lemma OthersStayPlaced(t: Table, i: nat, key: nat, sec: int, k: nat)
    requires |t.hash| == |t.lastSec| == SIZE && i < SIZE && k < SIZE && k != i && key != 0
    requires Placed(t, k)
    ensures Placed(Table(t.hash[i := key], t.lastSec[i := sec]), k)
  {
    var d: nat :| d < PROBES && PlacedAt(t.hash, t.hash[k], k, d);
    assert PlacedAt(t.hash[i := key], t.hash[k], k, d);
  }

  lemma SightKeepsInv(t: Table, key: nat, ms: nat)
    requires Inv(t) && key != 0
    ensures Inv(Sight(t, key, ms).table)
  {
    var stop := FirstStop(t, key, 0);
    var d := if stop == PROBES then 0 else stop;
    var i := Target(t, key);
    var t' := Table(t.hash[i := key], t.lastSec[i := ms / 1000]);
    assert t' == Sight(t, key, ms).table;
    assert Distinct(t') by {
      ScanFindsResidents(t, key);
      assert HasSlot(t, key) ==> t.hash[i] == key;
    }
    forall k | 0 <= k < SIZE && t'.hash[k] != 0 ensures Placed(t', k) {
      if k != i {
        OthersStayPlaced(t, i, key, ms / 1000, k);
      } else {
        assert PlacedAt(t'.hash, key, i, d);
      }
    }
  }

  /** Overwriting one slot, seen from the map. */
  lemma OverwriteIsMapUpdate(t: Table, m: map<nat, int>, i: nat, key: nat, sec: int)
    requires Remembers(t, m) && i < SIZE && key != 0
    requires Distinct(Table(t.hash[i := key], t.lastSec[i := sec]))
    ensures Remembers(Table(t.hash[i := key], t.lastSec[i := sec]), (m - {t.hash[i]})[key := sec])
  {
    var t' := Table(t.hash[i := key], t.lastSec[i := sec]);
    var want := (m - {t.hash[i]})[key := sec];
    forall j | 0 <= j < SIZE && t'.hash[j] != 0
      ensures t'.hash[j] in want && want[t'.hash[j]] == t'.lastSec[j]
    {
      if j != i {
        assert t'.hash[i] != t'.hash[j] && t.hash[j] != t.hash[i];
      }
    }
    forall k | k in want ensures k != 0 && HasSlot(t', k) {
      if k == key {
        assert t'.hash[i] == k;
      } else {
        assert HasSlot(t, k);
        var j :| 0 <= j < SIZE && t.hash[j] == k;
        assert t'.hash[j] == k;
      }
    }
  }

  /** A sighting is a lookup and an update of the map. It loses at most one key, the one
      at the home slot, and only when all eight probe slots hold other keys. */
  lemma SightIsMapUpdate(t: Table, m: map<nat, int>, key: nat, ms: nat)
    requires Inv(t) && Remembers(t, m) && key != 0
    ensures Inv(Sight(t, key, ms).table)
    ensures Sight(t, key, ms).retry == (key in m && ms - m[key] * 1000 <= 10_000)
    ensures Remembers(Sight(t, key, ms).table,
                      (m - Dropped(t, key))[key := ms / 1000])
    ensures Overflows(t, key) ==> key !in m && t.hash[Slot(key, 0)] in m
  {
    SightKeepsInv(t, key, ms);
    ScanFindsResidents(t, key);
    var i := Target(t, key);
    OverwriteIsMapUpdate(t, m, i, key, ms / 1000);
    assert key in m <==> HasSlot(t, key);
    if FirstStop(t, key, 0) < PROBES {
      assert (m - {t.hash[i]})[key := ms / 1000] == (m - {})[key := ms / 1000];
    }
  }

  // ---- whole runs ----

  datatype Sighting = Sighting(key: nat, ms: nat)

  ghost predicate Keyed(log: seq<Sighting>) {
    forall j :: 0 <= j < |log| ==> log[j].key != 0
  }

  function TableAfter(log: seq<Sighting>): (t: Table)
    ensures |t.hash| == |t.lastSec| == SIZE
  {
    if log == [] then Empty()
    else Sight(TableAfter(log[..|log| - 1]), log[|log| - 1].key, log[|log| - 1].ms).table
  }

  /** The plain map: the second of the last sighting of each key. */
  ghost function PlainMemory(log: seq<Sighting>): map<nat, int> {
    if log == [] then map[]
    else PlainMemory(log[..|log| - 1])[log[|log| - 1].key := log[|log| - 1].ms / 1000]
  }

  /** The plain map with one key dropped at each overflow. */
  ghost function LossyMemory(log: seq<Sighting>): map<nat, int> {
    if log == [] then map[]
    else (LossyMemory(log[..|log| - 1]) - Dropped(TableAfter(log[..|log| - 1]), log[|log| - 1].key))
         [log[|log| - 1].key := log[|log| - 1].ms / 1000]
  }

  /** After any run the table stands for the lossy map, and the lossy map is never wrong:
      what it still holds is the second of the key's latest sighting. */
  lemma {:induction false} TableStandsForLossyMemory(log: seq<Sighting>)
    requires Keyed(log)
    ensures Inv(TableAfter(log)) && Remembers(TableAfter(log), LossyMemory(log))
    ensures forall k :: k in LossyMemory(log) ==> k in PlainMemory(log) && LossyMemory(log)[k] == PlainMemory(log)[k]
  {
    if log != [] {
      var s := log[|log| - 1];
      TableStandsForLossyMemory(log[..|log| - 1]);
      SightIsMapUpdate(TableAfter(log[..|log| - 1]), LossyMemory(log[..|log| - 1]), s.key, s.ms);
    }
  }

  /** After any run, the answer for a key: one the lossy map has dropped is taken for new, any other is looked up. */
  lemma SightIsALookup(log: seq<Sighting>, key: nat, ms: nat)
    requires Keyed(log) && key != 0
    ensures key in LossyMemory(log) ==> key in PlainMemory(log)
    ensures Sight(TableAfter(log), key, ms).retry ==
            (key in LossyMemory(log) && ms - PlainMemory(log)[key] * 1000 <= 10_000)
  {
    hide TableAfter;
    hide LossyMemory;
    hide PlainMemory;
    hide Sight;
    hide Inv;
    hide Remembers;
    TableStandsForLossyMemory(log);
    SightIsMapUpdate(TableAfter(log), LossyMemory(log), key, ms);
  }

  lemma {:induction false} PlainMemoryIsLatest(log: seq<Sighting>, key: nat) returns (j: nat)
    requires key in PlainMemory(log)
    ensures j < |log| && log[j].key == key && PlainMemory(log)[key] == log[j].ms / 1000
    ensures forall i :: j < i < |log| ==> log[i].key != key
  {
    var n := |log| - 1;
    if log[n].key == key {
      j := n;
    } else {
      j := PlainMemoryIsLatest(log[..n], key);
      assert forall i :: 0 <= i < n ==> log[..n][i] == log[i];
    }
  }

  /** No false alarm: a reported retry has a real earlier sighting at most ten seconds old. */
  lemma RetryMeansEarlierSighting(log: seq<Sighting>, key: nat, ms: nat)
    requires Keyed(log) && key != 0
    ensures Sight(TableAfter(log), key, ms).retry ==>
              exists j :: 0 <= j < |log| && log[j].key == key && ms - log[j].ms <= 10_000
  {
    TableStandsForLossyMemory(log);
    SightIsMapUpdate(TableAfter(log), LossyMemory(log), key, ms);
    if Sight(TableAfter(log), key, ms).retry {
      var j := PlainMemoryIsLatest(log, key);
      assert log[j].key == key && ms - log[j].ms <= RETRY_WINDOW_MS;
    }
  }

  /** A resident key is reported exactly when its latest sighting, rounded down to the second,
      is at most ten seconds back; so whenever it is seen again within 9001 ms. */
  lemma ResidentKeyIsReported(log: seq<Sighting>, key: nat, ms: nat, j: nat)
    requires Keyed(log) && key in LossyMemory(log)
    requires j < |log| && log[j].key == key && forall i :: j < i < |log| ==> log[i].key != key
    ensures Sight(TableAfter(log), key, ms).retry <==> ms - log[j].ms / 1000 * 1000 <= 10_000
    ensures ms - log[j].ms <= 9001 ==> Sight(TableAfter(log), key, ms).retry
  {
    TableStandsForLossyMemory(log);
    SightIsMapUpdate(TableAfter(log), LossyMemory(log), key, ms);
    var i := PlainMemoryIsLatest(log, key);
    assert i == j;
  }

  /** Homes at most seven slots apart, in either direction around the table. */
  predicate Close(a: nat, b: nat) {
    (a % 256 + 263 - b % 256) % 256 <= 14
  }

  ghost function Neighbours(log: seq<Sighting>, key: nat): set<nat> {
    set j | 0 <= j < |log| && log[j].key != key && Close(log[j].key, key) :: log[j].key
  }

  /** At each sighting fewer than eight other keys seen so far have a home within seven slots. */
  ghost predicate Uncrowded(log: seq<Sighting>) {
    forall j :: 0 <= j < |log| ==> |Neighbours(log[..j], log[j].key)| < 8
  }

  lemma {:induction false} DistinctCount(xs: seq<nat>, s: set<nat>)
    requires forall i, j :: 0 <= i < j < |xs| ==> xs[i] != xs[j]
    requires forall i :: 0 <= i < |xs| ==> xs[i] in s
    ensures |xs| <= |s|
  {
    if xs != [] {
      DistinctCount(xs[1..], s - {xs[0]});
    }
  }

  lemma ReachableIsClose(a: nat, d: nat, b: nat, e: nat)
    requires d < PROBES && e < PROBES && Slot(a, d) == Slot(b, e)
    ensures Close(a, b)
  {
  }

  lemma OverflowNeedsNeighbours(log: seq<Sighting>, key: nat)
    requires Keyed(log) && key != 0 && Overflows(TableAfter(log), key)
    ensures |Neighbours(log, key)| >= 8
  {
    var t := TableAfter(log);
    TableStandsForLossyMemory(log);
    var xs := seq(PROBES, (d: nat) requires d < PROBES => t.hash[Slot(key, d)]);
    forall d | 0 <= d < PROBES ensures xs[d] in Neighbours(log, key) {
      var i := Slot(key, d);
      assert Placed(t, i) && xs[d] != key && xs[d] in LossyMemory(log);
      var e: nat :| e < PROBES && PlacedAt(t.hash, xs[d], i, e);
      ReachableIsClose(xs[d], e, key, d);
      var j := PlainMemoryIsLatest(log, xs[d]);
      assert log[j].key == xs[d];
    }
    forall d, e | 0 <= d < e < PROBES ensures xs[d] != xs[e] {
      SlotsApart(key, d, e);
    }
    DistinctCount(xs, Neighbours(log, key));
  }

  /** Without crowding nothing is ever lost: the table behaves as the plain map for the whole run. */
  lemma {:induction false} UncrowdedTableIsPlain(log: seq<Sighting>)
    requires Keyed(log) && Uncrowded(log)
    ensures LossyMemory(log) == PlainMemory(log)
    ensures Remembers(TableAfter(log), PlainMemory(log))
  {
    if log != [] {
      var before, s := log[..|log| - 1], log[|log| - 1];
      assert Uncrowded(before) by {
        assert forall j :: 0 <= j < |before| ==> before[j] == log[j] && before[..j] == log[..j];
      }
      UncrowdedTableIsPlain(before);
      assert |Neighbours(before, s.key)| < PROBES;
      assert Dropped(TableAfter(before), s.key) == {} by {
        if Overflows(TableAfter(before), s.key) { OverflowNeedsNeighbours(before, s.key); }
      }
      assert PlainMemory(before) - {} == PlainMemory(before);
    }
    TableStandsForLossyMemory(log);
  }

  /** Keys 256, 512, 768, ..., which all have their home at slot 0. */
  function SameHome(j: nat): nat { 256 * (j + 1) }

  lemma SameHomeSlots(j: nat)
    ensures SameHome(j) != 0 && SameHome(j) % SIZE == 0
    ensures forall e: nat :: e < PROBES ==> Slot(SameHome(j), e) == e
  {
  }

  /** The first `d` of them, sighted one after the other. */
  function Crowd(d: nat): (log: seq<Sighting>)
    ensures |log| == d
  {
    if d == 0 then [] else Crowd(d - 1) + [Sighting(SameHome(d - 1), 0)]
  }

  /** A key with home 0 that is not in the first `d` slots, all taken: it goes to the next slot, or home if none is left. */
  lemma SightCrowded(t: Table, key: nat, d: nat)
    requires |t.hash| == |t.lastSec| == SIZE && d <= PROBES && key % SIZE == 0
    requires forall e: nat :: e < PROBES ==> Slot(key, e) == e
    requires forall e: nat :: e < d ==> t.hash[e] != 0 && t.hash[e] != key
    requires d < PROBES ==> t.hash[d] == 0
    ensures key != 0 ==> !Sight(t, key, 0).retry
    ensures Sight(t, key, 0).table.hash == t.hash[if d < PROBES then d else 0 := key]
  {
    var r := FirstStop(t, key, 0);
    assert d < PROBES ==> Slot(key, d) == d;
  }

  lemma CrowdNext(d: nat)
    ensures TableAfter(Crowd(d + 1)) == Sight(TableAfter(Crowd(d)), SameHome(d), 0).table
  {
    hide Sight;
    assert Crowd(d + 1)[..d] == Crowd(d);
  }

  lemma {:induction false} CrowdFills(d: nat)
    requires d <= PROBES
    ensures var t := TableAfter(Crowd(d));
            forall e: nat :: e < PROBES ==> t.hash[e] == if e < d then SameHome(e) else 0
  {
    hide Sight;
    if d == 0 {
      assert TableAfter(Crowd(0)) == Empty();
    } else {
      hide TableAfter;
      CrowdFills(d - 1);
      SameHomeSlots(d - 1);
      CrowdNext(d - 1);
      forall e: nat | e < d - 1 ensures SameHome(e) != 0 && SameHome(e) != SameHome(d - 1) {}
      SightCrowded(TableAfter(Crowd(d - 1)), SameHome(d - 1), d - 1);
    }
  }

  /** A retry can be missed: the ninth key of one home takes the first one's slot, which is then taken for a new key. */
  lemma NinthKeyEvictsTheFirst()
    ensures var log := Crowd(9);
            Sighting(SameHome(0), 0) in log && !Sight(TableAfter(log), SameHome(0), 0).retry
  {
    hide Sight;
    hide TableAfter;
    CrowdFills(PROBES);
    SameHomeSlots(0);
    SameHomeSlots(PROBES);
    CrowdNext(PROBES);
    SightCrowded(TableAfter(Crowd(PROBES)), SameHome(PROBES), PROBES);
    SightCrowded(TableAfter(Crowd(PROBES + 1)), SameHome(0), PROBES);
    CrowdStarts(PROBES + 1);
  }

  lemma {:induction false} CrowdStarts(d: nat)
    ensures d > 0 ==> Sighting(SameHome(0), 0) in Crowd(d)
  {
    if d > 1 { CrowdStarts(d - 1); }
  }

  // ---- the code ----

  /** A completion's retry answer: an explicit hint wins, a zero key is never a retry. */
  function Ask(t: Table, hint: Option<bool>, key: nat, ms: nat): Outcome
    requires |t.hash| == |t.lastSec| == SIZE
  {
    if hint.Some? then Outcome(t, hint.value)
    else if key == 0 then Outcome(t, false)
    else Sight(t, key, ms)
  }

  lemma StopOrGoOn(t: Table, key: nat, ms: nat, offset: nat)
    requires |t.hash| == |t.lastSec| == SIZE && offset < PROBES
    requires FirstStop(t, key, 0) == FirstStop(t, key, offset)
    ensures var i := Slot(key, offset);
            if t.hash[i] == 0 || t.hash[i] == key
            then Sight(t, key, ms) ==
                 Outcome(Table(t.hash[i := key], t.lastSec[i := ms / 1000]),
                         t.hash[i] == key && ms - t.lastSec[i] * 1000 <= RETRY_WINDOW_MS)
            else FirstStop(t, key, 0) == FirstStop(t, key, offset + 1)
  {
  }

  lemma Exhausted(t: Table, key: nat, ms: nat)
    requires |t.hash| == |t.lastSec| == SIZE && FirstStop(t, key, 0) == FirstStop(t, key, PROBES)
    ensures var i := key % SIZE;
            Sight(t, key, ms) == Outcome(Table(t.hash[i := key], t.lastSec[i := ms / 1000]), false)
  {
  }

  class RetryCells {
    const hash: array<nat>
    const lastSec: array<int>
    ghost const Repr: set<object>

    ghost predicate Valid() {
      && Repr == {this, hash, lastSec}
      && hash.Length == lastSec.Length == SIZE
      && (hash as object) != (lastSec as object)
    }

    ghost function Contents(): (t: Table)
      requires Valid()
      reads hash, lastSec
      ensures |t.hash| == |t.lastSec| == SIZE
    {
      Table(hash[..], lastSec[..])
    }

    constructor ()
      ensures Valid() && fresh(Repr) && Contents() == Empty()
    {
      var h, l := new nat[SIZE](_ => 0), new int[SIZE](_ => 0);
      hash, lastSec := h, l;
      Repr := {this, h, l};
    }

    method IsRetry(hint: Option<bool>, key: nat, ms: nat) returns (retry: bool)
      requires Valid()
      modifies hash, lastSec
      ensures Valid() && Outcome(Contents(), retry) == Ask(old(Contents()), hint, key, ms)
    {
      if hint.Some? {
        return hint.value;
      }
      if key == 0 {
        return false;
      }
      retry := Probe(key, ms);
    }

    /** The scan of the probe slots, for a key that is not zero. */
    method Probe(key: nat, ms: nat) returns (retry: bool)
      requires Valid() && key != 0
      modifies hash, lastSec
      ensures Outcome(Contents(), retry) == Sight(old(Contents()), key, ms)
    {
      hide FirstStop;
      hide Sight;
      ghost var t := Contents();
      var idx := key % SIZE;
      for offset := 0 to PROBES
        invariant t == Contents()
        invariant FirstStop(t, key, 0) == FirstStop(t, key, offset)
      {
        var i := (idx + offset) % SIZE;
        assert i == Slot(key, offset) && hash[i] == t.hash[i] && lastSec[i] == t.lastSec[i];
        StopOrGoOn(t, key, ms, offset);
        if hash[i] == 0 {
          Store(i, key, ms / 1000);
          return false;
        }
        if hash[i] == key {
          var ageMs := ms - lastSec[i] * 1000;
          Store(i, key, ms / 1000);
          return ageMs <= RETRY_WINDOW_MS;
        }
      }
      // Every probe met another key: the home slot is overwritten.
      Exhausted(t, key, ms);
      Store(idx, key, ms / 1000);
      return false;
    }

    method Store(i: nat, key: nat, sec: int)
      requires Valid() && i < SIZE
      modifies hash, lastSec
      ensures Valid() && Contents() == Table(old(Contents()).hash[i := key], old(Contents()).lastSec[i := sec])
    {
      hash[i] := key;
      lastSec[i] := sec;
    }
  }
}
