/** The dead-letter queue's file: a header with a version and a count, then one
    length-delimited record per entry. Payloads are opaque bytes here; `DlqStore` adds the codec. */
module DlqFile {

  type Byte = n: int | 0 <= n < 256
  type Bytes = seq<Byte>

  const VERSION: Byte := 1
  const HEADER_SIZE: nat := 9
  const RECORD_HEADER_SIZE: nat := 16
  const MAX_COUNT: nat := 1_000_000
  const MAX_PAYLOAD: nat := 67_108_864
  const TWO_32: int := 0x1_0000_0000
  const TWO_63: int := 0x8000_0000_0000_0000
  const TWO_64: int := 0x1_0000_0000_0000_0000

  // ---- big-endian numbers ----

  function Pow256(w: nat): nat {
    if w == 0 then 1 else 256 * Pow256(w - 1)
  }

  /** The `w` low bytes of `n`, most significant first. */
  function PutBE(n: nat, w: nat): (bs: Bytes)
    ensures |bs| == w
  {
    if w == 0 then [] else PutBE(n / 256, w - 1) + [n % 256]
  }

  function GetBE(bs: Bytes): nat {
    if bs == [] then 0 else GetBE(bs[..|bs| - 1]) * 256 + bs[|bs| - 1]
  }

  lemma {:induction false} GetPut(n: nat, w: nat)
    requires n < Pow256(w)
    ensures GetBE(PutBE(n, w)) == n
  {
    if w > 0 {
      GetPut(n / 256, w - 1);
      assert PutBE(n, w)[..w - 1] == PutBE(n / 256, w - 1);
    }
  }

  lemma {:induction false} PutGet(bs: Bytes)
    ensures GetBE(bs) < Pow256(|bs|) && PutBE(GetBE(bs), |bs|) == bs
  {
    if bs != [] {
      PutGet(bs[..|bs| - 1]);
      assert bs == bs[..|bs| - 1] + [bs[|bs| - 1]];
    }
  }

  lemma Widths()
    ensures Pow256(4) == TWO_32 && Pow256(8) == TWO_64
  {
    assert Pow256(2) == 65536;
    assert Pow256(4) == 256 * (256 * Pow256(2));
    assert Pow256(6) == 256 * (256 * Pow256(4));
    assert Pow256(8) == 256 * (256 * Pow256(6));
  }

  /** Go's conversions: `uint32(x)`, `uint64(x)` of an int64, and back. */
  function AsU32(x: int): nat { x % TWO_32 }
  function AsU64(x: int): nat { x % TWO_64 }
  function AsI64(u: nat): int { if u >= TWO_63 then u - TWO_64 else u }

  // ---- records ----

  datatype Record = Record(payload: Bytes, enqueueAtNs: int, attempts: int)

  function RecordBytes(e: Record): Bytes {
    PutBE(AsU32(|e.payload|), 4) + PutBE(AsU64(e.enqueueAtNs), 8) + PutBE(AsU32(e.attempts), 4) + e.payload
  }

  function Body(q: seq<Record>): Bytes {
    if q == [] then [] else RecordBytes(q[0]) + Body(q[1..])
  }

  function Header(count: nat): Bytes {
    [VERSION] + PutBE(AsU64(count), 8)
  }

  /** What saving a non-empty queue writes. */
  function Encoded(q: seq<Record>): Bytes {
    Header(|q|) + Body(q)
  }

  // ---- reading ----

  datatype Loaded = Loaded(records: seq<Record>, failed: bool)

  /** Up to `n` records from the front of `bytes`; the first one that cannot be read ends it. */
  function Parse(bytes: Bytes, n: nat): (r: Loaded)
    ensures |r.records| <= n && RECORD_HEADER_SIZE * |r.records| <= |bytes|
    ensures !r.failed ==> |r.records| == n
  {
    if n == 0 then Loaded([], false)
    else if !Readable(bytes) then Loaded([], true)
    else
      var more := Parse(bytes[RECORD_HEADER_SIZE + GetBE(bytes[..4])..], n - 1);
      Loaded([FirstRecord(bytes)] + more.records, more.failed)
  }

  /** A whole record of acceptable size is at the front. */
  predicate Readable(bytes: Bytes) {
    && |bytes| >= RECORD_HEADER_SIZE
    && GetBE(bytes[..4]) <= MAX_PAYLOAD
    && RECORD_HEADER_SIZE + GetBE(bytes[..4]) <= |bytes|
  }

  function FirstRecord(bytes: Bytes): Record
    requires Readable(bytes)
  {
    Record(bytes[16..16 + GetBE(bytes[..4])], AsI64(GetBE(bytes[4..12])), GetBE(bytes[12..16]))
  }

  function Decoded(file: Bytes): Loaded {
    if |file| < HEADER_SIZE || file[0] != VERSION || GetBE(file[1..9]) > MAX_COUNT then Loaded([], true)
    else Parse(file[9..], GetBE(file[1..9]))
  }

  // ---- properties ----

  /** Within the widths of the record header. */
  predicate InWidths(e: Record) {
    && -TWO_63 <= e.enqueueAtNs < TWO_63
    && 0 <= e.attempts < TWO_32
    && |e.payload| < TWO_32
  }

  ghost predicate Savable(q: seq<Record>) {
    forall i :: 0 <= i < |q| ==> InWidths(q[i])
  }

  /** Over the loader's bound on payloads, which the saver does not check. */
  predicate Oversized(e: Record) {
    |e.payload| > MAX_PAYLOAD
  }

  function FirstOversized(q: seq<Record>): (m: nat)
    ensures m <= |q|
    ensures m < |q| ==> Oversized(q[m])
    ensures forall i :: 0 <= i < m ==> !Oversized(q[i])
  {
    if q == [] || Oversized(q[0]) then 0 else 1 + FirstOversized(q[1..])
  }

  /** The bytes one record takes. */
  function RecordSize(e: Record): nat {
    RECORD_HEADER_SIZE + |e.payload|
  }

  /** How many leading records lie wholly within the first `k` bytes. */
  function WholeRecords(q: seq<Record>, k: nat): (m: nat)
    ensures m <= |q|
  {
    if q == [] || k < RecordSize(q[0]) then 0 else 1 + WholeRecords(q[1..], k - RecordSize(q[0]))
  }

  /** What the loader recovers from the first `k` bytes of the records. */
  function Recovered(q: seq<Record>, k: nat): seq<Record> {
    q[..if WholeRecords(q, k) <= FirstOversized(q) then WholeRecords(q, k) else FirstOversized(q)]
  }

  lemma Slices(a: Bytes, b: Bytes, d: Bytes, payload: Bytes, rest: Bytes)
    requires |a| == 4 && |b| == 8 && |d| == 4
    ensures var bytes := a + b + d + payload + rest;
            && bytes[..4] == a && bytes[4..12] == b && bytes[12..16] == d
            && bytes[16..16 + |payload|] == payload && bytes[16 + |payload|..] == rest
  {
  }

  // ---- the bytes themselves ----

  /** The digit of `n` to base 256 at place `i`, counted from the least significant. */
  function Digit256(n: nat, i: nat): nat {
    if i == 0 then n % 256 else Digit256(n / 256, i - 1)
  }

  /** Big-endian: the byte at place `i` is the digit that many places from the most significant end. */
  ghost predicate IsBigEndian(bs: Bytes, n: nat, w: nat) {
    |bs| == w && forall i :: 0 <= i < w ==> bs[i] == Digit256(n, w - 1 - i)
  }

  lemma {:induction false} PutIsBigEndian(n: nat, w: nat)
    ensures IsBigEndian(PutBE(n, w), n, w)
  {
    if w > 0 { PutIsBigEndian(n / 256, w - 1); }
  }

  /** The header: one byte of value 1, then the count in eight. */
  lemma HeaderLayout(count: nat)
    requires count < TWO_64
    ensures |Header(count)| == 9 && Header(count)[0] == 1 && IsBigEndian(Header(count)[1..9], count, 8)
  {
    assert AsU64(count) == count;
    hide PutBE;
    hide IsBigEndian;
    PutIsBigEndian(count, 8);
    HeaderSlices(PutBE(count, 8), []);
    assert Header(count) == [VERSION] + PutBE(count, 8) + [];
  }

  /** A record: the payload's length in four bytes, the enqueue time in eight, the attempts in four, then the payload.
      A negative time is written as its complement to two to the power of 64. */
  lemma RecordLayout(e: Record)
    requires InWidths(e)
    ensures var b := RecordBytes(e);
            var time := if e.enqueueAtNs >= 0 then e.enqueueAtNs else e.enqueueAtNs + 0x1_0000_0000_0000_0000;
            && |b| == 16 + |e.payload| && b[16..] == e.payload
            && IsBigEndian(b[..4], |e.payload|, 4)
            && IsBigEndian(b[4..12], time, 8)
            && IsBigEndian(b[12..16], e.attempts, 4)
  {
    var time := if e.enqueueAtNs >= 0 then e.enqueueAtNs else e.enqueueAtNs + 0x1_0000_0000_0000_0000;
    assert AsU64(e.enqueueAtNs) == time && AsU32(|e.payload|) == |e.payload| && AsU32(e.attempts) == e.attempts;
    hide IsBigEndian;
    hide PutBE;
    PutIsBigEndian(|e.payload|, 4);
    PutIsBigEndian(time, 8);
    PutIsBigEndian(e.attempts, 4);
    var a, b, d := PutBE(|e.payload|, 4), PutBE(time, 8), PutBE(e.attempts, 4);
    Slices(a, b, d, e.payload, []);
    assert a + b + d + e.payload + [] == a + b + d + e.payload;
    assert (a + b + d + e.payload)[16..] == e.payload;
  }

  /** A whole record at the front is read back, unless its payload is over the loader's bound. */
  lemma ReadsBack(e: Record, rest: Bytes)
    requires InWidths(e)
    ensures var bytes := RecordBytes(e) + rest;
            && |RecordBytes(e)| == RecordSize(e)
            && GetBE(bytes[..4]) == |e.payload|
            && (Readable(bytes) <==> !Oversized(e))
            && (Readable(bytes) ==> FirstRecord(bytes) == e && bytes[RecordSize(e)..] == rest)
  {
    hide PutBE;
    hide GetBE;
    hide Pow256;
    Slices(PutBE(AsU32(|e.payload|), 4), PutBE(AsU64(e.enqueueAtNs), 8), PutBE(AsU32(e.attempts), 4), e.payload, rest);
    Widths();
    GetPut(AsU32(|e.payload|), 4);
    GetPut(AsU64(e.enqueueAtNs), 8);
    GetPut(AsU32(e.attempts), 4);
  }

  lemma CutAfter(a: Bytes, rest: Bytes, k: nat)
    requires k <= |rest|
    ensures (a + rest)[..|a| + k] == a + rest[..k]
  {
  }

  lemma PrefixOfPrefix(bytes: Bytes, k: nat, j: nat)
    requires j <= k <= |bytes|
    ensures bytes[..k][..j] == bytes[..j]
  {
  }

  /** A file that ends inside a record yields nothing from that record. */
  lemma CutInside(e: Record, rest: Bytes, k: nat)
    requires InWidths(e) && k < RecordSize(e)
    ensures |RecordBytes(e)| == RecordSize(e)
    ensures !Readable((RecordBytes(e) + rest)[..k])
  {
    ReadsBack(e, rest);
    hide RecordBytes;
    hide GetBE;
    if k >= RECORD_HEADER_SIZE {
      PrefixOfPrefix(RecordBytes(e) + rest, k, 4);
    }
  }

  /** The first record of a cut file: lost if the cut falls inside it or its payload is oversized. */
  lemma CutFirst(e: Record, rest: Bytes, k: nat, n: nat)
    requires InWidths(e) && n > 0 && k <= RecordSize(e) + |rest|
    ensures |RecordBytes(e)| == RecordSize(e)
    ensures Parse((RecordBytes(e) + rest)[..k], n) ==
            if k < RecordSize(e) || Oversized(e) then Loaded([], true)
            else
              var more := Parse(rest[..k - RecordSize(e)], n - 1);
              Loaded([e] + more.records, more.failed)
  {
    hide RecordBytes;
    hide GetBE;
    hide Readable;
    hide FirstRecord;
    if k < RecordSize(e) {
      CutInside(e, rest, k);
    } else {
      ReadsBack(e, []);
      assert RecordBytes(e) + [] == RecordBytes(e);
      CutAfter(RecordBytes(e), rest, k - RecordSize(e));
      ReadsBack(e, rest[..k - RecordSize(e)]);
    }
  }

  lemma RecoveredNext(q: seq<Record>, k: nat)
    requires q != []
    ensures Recovered(q, k) ==
            if k < RecordSize(q[0]) || Oversized(q[0]) then []
            else [q[0]] + Recovered(q[1..], k - RecordSize(q[0]))
    ensures FirstOversized(q) == if Oversized(q[0]) then 0 else 1 + FirstOversized(q[1..])
  {
    hide RecordSize;
    hide Oversized;
  }

  /** Cutting the records anywhere: the wholly contained ones before the first oversized one come back
      unchanged and in order, and an error is reported exactly if something is missing. */
  lemma {:induction false} CutRecords(q: seq<Record>, k: nat)
    requires Savable(q) && k <= |Body(q)|
    ensures Parse(Body(q)[..k], |q|) == Loaded(Recovered(q, k), k < |Body(q)| || FirstOversized(q) < |q|)
  {
    hide RecordBytes;
    hide Recovered;
    hide FirstOversized;
    if q == [] {
      CutNothing();
    } else {
      hide Parse;
      BodySize(q);
      if k >= RecordSize(q[0]) {
        CutRecords(q[1..], k - RecordSize(q[0]));
      }
      CutStep(q, k);
    }
  }

  lemma CutNothing()
    ensures Body([]) == [] && Parse([], 0) == Loaded([], false)
    ensures Recovered([], 0) == [] && FirstOversized([]) == 0
  {
  }

  lemma BodySize(q: seq<Record>)
    requires q != [] && Savable(q)
    ensures |RecordBytes(q[0])| == RecordSize(q[0]) && |Body(q)| == RecordSize(q[0]) + |Body(q[1..])|
    ensures Body(q) == RecordBytes(q[0]) + Body(q[1..]) && InWidths(q[0])
  {
  }

  lemma CutStep(q: seq<Record>, k: nat)
    requires q != [] && Savable(q) && k <= |Body(q)|
    requires |RecordBytes(q[0])| == RecordSize(q[0])
    requires k >= RecordSize(q[0]) ==>
               Parse(Body(q[1..])[..k - RecordSize(q[0])], |q| - 1) ==
               Loaded(Recovered(q[1..], k - RecordSize(q[0])),
                      k - RecordSize(q[0]) < |Body(q[1..])| || FirstOversized(q[1..]) < |q| - 1)
    ensures Parse(Body(q)[..k], |q|) == Loaded(Recovered(q, k), k < |Body(q)| || FirstOversized(q) < |q|)
  {
    hide Parse;
    hide RecordBytes;
    hide Recovered;
    hide FirstOversized;
    BodySize(q);
    hide Body;
    hide Savable;
    hide InWidths;
    RecoveredNext(q, k);
    CutFirst(q[0], Body(q[1..]), k, |q|);
  }

  // ---- whole files ----

  lemma HeaderSlices(count: Bytes, rest: Bytes)
    requires |count| == 8
    ensures var file := [VERSION] + count + rest;
            file[1..9] == count && file[9..] == rest
  {
  }

  lemma HeaderFields(count: nat, rest: Bytes)
    requires count < TWO_64
    ensures var file := Header(count) + rest;
            && |Header(count)| == HEADER_SIZE && file[0] == VERSION
            && GetBE(file[1..9]) == count && file[9..] == rest
  {
    hide PutBE;
    hide GetBE;
    hide Pow256;
    Widths();
    GetPut(count, 8);
    HeaderSlices(PutBE(count, 8), rest);
  }

  lemma DecodedBody(count: nat, rest: Bytes)
    requires count <= MAX_COUNT
    ensures |Header(count)| == HEADER_SIZE && Decoded(Header(count) + rest) == Parse(rest, count)
  {
    hide Parse;
    hide Header;
    hide GetBE;
    HeaderFields(count, rest);
  }

  /** For every savable queue and every cut point: the first `k` bytes of its file load to exactly the records
      wholly inside them, up to the first oversized one, and an error is reported exactly if the file is cut short
      or a record was refused. */
  lemma TruncatedFileLoads(q: seq<Record>, k: nat)
    requires Savable(q) && |q| <= MAX_COUNT && k <= |Encoded(q)|
    ensures Decoded(Encoded(q)[..k]) ==
            if k < HEADER_SIZE then Loaded([], true)
            else Loaded(Recovered(q, k - HEADER_SIZE), k < |Encoded(q)| || FirstOversized(q) < |q|)
  {
    hide Parse;
    hide Header;
    hide GetBE;
    hide Body;
    hide Recovered;
    DecodedBody(|q|, Body(q));
    if k >= HEADER_SIZE {
      CutRecords(q, k - HEADER_SIZE);
      CutAfter(Header(|q|), Body(q), k - HEADER_SIZE);
      hide Decoded;
      DecodedBody(|q|, Body(q)[..k - HEADER_SIZE]);
    }
  }

  lemma {:induction false} NothingCut(q: seq<Record>)
    requires Savable(q)
    ensures WholeRecords(q, |Body(q)|) == |q|
  {
    if q != [] {
      ReadsBack(q[0], []);
      assert RecordBytes(q[0]) + [] == RecordBytes(q[0]);
      NothingCut(q[1..]);
    }
  }

  lemma WholeBody(q: seq<Record>)
    requires Savable(q) && |q| <= MAX_COUNT
    ensures |Encoded(q)| == HEADER_SIZE + |Body(q)| && Recovered(q, |Body(q)|) == q[..FirstOversized(q)]
  {
    hide Body;
    hide Header;
    NothingCut(q);
    HeaderFields(|q|, []);
  }

  lemma WholeFile(q: seq<Record>)
    requires Savable(q) && |q| <= MAX_COUNT
    ensures Decoded(Encoded(q)) == Loaded(q[..FirstOversized(q)], FirstOversized(q) < |q|)
  {
    hide Decoded;
    hide Encoded;
    hide Savable;
    hide Recovered;
    hide FirstOversized;
    WholeBody(q);
    TruncatedFileLoads(q, |Encoded(q)|);
    assert Encoded(q)[..|Encoded(q)|] == Encoded(q);
  }

  /** Saving and loading is the identity exactly for queues within the loader's two bounds, which the saver does
      not enforce. Beyond the payload bound the records before the first oversized one survive; beyond the count
      bound nothing does. */
  lemma RoundTripExactly(q: seq<Record>)
    requires Savable(q) && |q| < TWO_64
    ensures Decoded(Encoded(q)) ==
            if |q| > MAX_COUNT then Loaded([], true) else Loaded(q[..FirstOversized(q)], FirstOversized(q) < |q|)
    ensures Decoded(Encoded(q)) == Loaded(q, false) <==>
            |q| <= 1_000_000 && forall i :: 0 <= i < |q| ==> |q[i].payload| <= 64 * 1024 * 1024
  {
    hide Body;
    hide Parse;
    hide GetBE;
    HeaderFields(|q|, Body(q));
    if |q| <= MAX_COUNT {
      WholeFile(q);
    }
  }

  /** Two queues within the bounds never share a file. */
  lemma EncodingIsInjective(p: seq<Record>, q: seq<Record>)
    requires Savable(p) && Savable(q) && |p| <= MAX_COUNT && |q| <= MAX_COUNT
    requires FirstOversized(p) == |p| && FirstOversized(q) == |q|
    requires Encoded(p) == Encoded(q)
    ensures p == q
  {
    hide Encoded;
    hide Decoded;
    hide Savable;
    hide FirstOversized;
    WholeFile(p);
    WholeFile(q);
    assert p[..|p|] == p && q[..|q|] == q;
  }

  // ---- arbitrary bytes ----

  /** Whatever the bytes, no more records come back than the header announces, the sanity bound allows
      and the file has room for. */
  lemma LoadIsBounded(file: Bytes)
    ensures var r := Decoded(file);
            && |r.records| <= MAX_COUNT
            && (r.records != [] ==>
                  |file| >= HEADER_SIZE + RECORD_HEADER_SIZE * |r.records| && |r.records| <= GetBE(file[1..9]))
            && (!r.failed ==> |file| >= HEADER_SIZE && |r.records| == GetBE(file[1..9]))
  {
    hide GetBE;
  }

  lemma RecordSlices(bytes: Bytes, len: nat)
    requires 16 + len <= |bytes|
    ensures bytes[..16 + len] == bytes[..4] + bytes[4..12] + bytes[12..16] + bytes[16..16 + len]
  {
  }

  lemma ReencodeRecord(bytes: Bytes)
    requires Readable(bytes)
    ensures RecordBytes(FirstRecord(bytes)) == bytes[..RECORD_HEADER_SIZE + GetBE(bytes[..4])]
  {
    hide PutBE;
    hide GetBE;
    hide Pow256;
    Widths();
    PutGet(bytes[..4]);
    PutGet(bytes[4..12]);
    PutGet(bytes[12..16]);
    RecordSlices(bytes, GetBE(bytes[..4]));
  }

  lemma SplitSlices(bytes: Bytes, a: nat, k: nat)
    requires a + k <= |bytes|
    ensures bytes[..a + k] == bytes[..a] + bytes[a..][..k] && bytes[a..][k..] == bytes[a + k..]
  {
  }

  lemma BodyCons(e: Record, more: seq<Record>)
    ensures Body([e] + more) == RecordBytes(e) + Body(more)
  {
  }

  /** No whole record of acceptable size is at the front. */
  predicate Unreadable(bytes: Bytes) {
    |bytes| < 16 || GetBE(bytes[..4]) > 64 * 1024 * 1024 || |bytes| < 16 + GetBE(bytes[..4])
  }

  lemma ParseStops(bytes: Bytes, n: nat)
    requires n == 0 || !Readable(bytes)
    ensures Parse(bytes, n) == Loaded([], n > 0) && Body([]) == []
    ensures n > 0 ==> Unreadable(bytes)
  {
  }

  lemma ParseGoesOn(bytes: Bytes, n: nat)
    requires n > 0 && Readable(bytes)
    ensures var more := Parse(bytes[RECORD_HEADER_SIZE + GetBE(bytes[..4])..], n - 1);
            Parse(bytes, n) == Loaded([FirstRecord(bytes)] + more.records, more.failed)
  {
    hide GetBE;
    hide FirstRecord;
  }

  lemma {:induction false} ReencodeRecords(bytes: Bytes, n: nat) returns (k: nat)
    ensures k <= |bytes| && Body(Parse(bytes, n).records) == bytes[..k]
    ensures Parse(bytes, n).failed ==> Unreadable(bytes[k..])
    decreases n
  {
    hide RecordBytes;
    hide GetBE;
    hide Body;
    hide FirstRecord;
    hide Readable;
    hide Unreadable;
    hide Parse;
    if n == 0 || !Readable(bytes) {
      k := 0;
      ParseStops(bytes, n);
      assert bytes[0..] == bytes;
    } else {
      ReadableSize(bytes);
      var a := RECORD_HEADER_SIZE + GetBE(bytes[..4]);
      ReencodeRecord(bytes);
      ParseGoesOn(bytes, n);
      var k' := ReencodeRecords(bytes[a..], n - 1);
      k := a + k';
      BodyCons(FirstRecord(bytes), Parse(bytes[a..], n - 1).records);
      SplitSlices(bytes, a, k');
    }
  }

  lemma ReadableSize(bytes: Bytes)
    requires Readable(bytes)
    ensures |bytes| >= 16 && RECORD_HEADER_SIZE + GetBE(bytes[..4]) <= |bytes|
  {
  }

  lemma HeaderOf(file: Bytes)
    requires |file| >= HEADER_SIZE && file[0] == VERSION
    ensures Header(GetBE(file[1..9])) == [file[0]] + file[1..9]
  {
    hide PutBE;
    hide GetBE;
    hide Pow256;
    Widths();
    PutGet(file[1..9]);
  }

  lemma FileSlices(file: Bytes, k: nat)
    requires 9 <= k <= |file|
    ensures file[..k] == [file[0]] + file[1..9] + file[9..][..k - 9]
  {
  }

  /** A file without the header, of another version or of too high a count loads to nothing. Any other loads to the
      records that make up its front, as many as announced or, with an error, as many as come before the first that is
      cut short or too big. */
  lemma LoadTakesTheFront(file: Bytes) returns (k: nat)
    ensures var r := Decoded(file);
            if |file| < 9 || file[0] != 1 || GetBE(file[1..9]) > 1_000_000 then r == Loaded([], true)
            else
              && 9 <= k <= |file| && Body(r.records) == file[9..][..k - 9]
              && |r.records| <= GetBE(file[1..9])
              && (!r.failed ==> |r.records| == GetBE(file[1..9]))
              && (r.failed ==> Unreadable(file[9..][k - 9..]))
  {
    hide GetBE;
    hide Parse;
    hide Body;
    hide Unreadable;
    k := 9;
    if |file| >= 9 && file[0] == 1 && GetBE(file[1..9]) <= 1_000_000 {
      var r := ReencodeRecords(file[9..], GetBE(file[1..9]));
      k := 9 + r;
    }
  }

  /** Saving what a file loaded to reproduces the bytes that were read. */
  lemma ReencodingReproducesTheFile(file: Bytes) returns (k: nat)
    requires !Decoded(file).failed
    ensures HEADER_SIZE <= k <= |file| && Encoded(Decoded(file).records) == file[..k]
  {
    hide GetBE;
    hide Parse;
    hide Body;
    hide Header;
    var r := ReencodeRecords(file[9..], GetBE(file[1..9]));
    k := 9 + r;
    HeaderOf(file);
    FileSlices(file, k);
  }
}
