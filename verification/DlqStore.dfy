/** Saving the dead-letter queue to its file and loading it back, payload codec included. */
module DlqStore {
  import opened Options
  import opened DlqFile

  /** A failed batch awaiting retry. */
  datatype Entry<T> = Entry(td: T, enqueueAtNs: int, attempts: int)

  /** Protobuf marshalling seen from outside; either direction may fail. */
  datatype Codec<!T> = Codec(marshal: T -> Option<Bytes>, unmarshal: Bytes -> Option<T>)

  ghost predicate LeftInverse<T(!new)>(c: Codec<T>) {
    forall x :: c.marshal(x).Some? ==> c.unmarshal(c.marshal(x).value) == Some(x)
  }

  /** The records of a queue, or nothing if some entry does not marshal. */
  function Marshalled<T>(c: Codec<T>, q: seq<Entry<T>>): (r: Option<seq<Record>>)
    ensures r.Some? ==> |r.value| == |q|
  {
    if q == [] then Some([])
    else
      match Marshalled(c, q[..|q| - 1])
      case None => None
      case Some(before) =>
        match c.marshal(q[|q| - 1].td)
        case None => None
        case Some(payload) => Some(before + [Record(payload, q[|q| - 1].enqueueAtNs, q[|q| - 1].attempts)])
  }

  datatype Restored<T> = Restored(entries: seq<Entry<T>>, failed: bool)

  /** The entries of the records up to the first payload that does not unmarshal. */
  function Unmarshalled<T>(c: Codec<T>, l: Loaded): Restored<T>
    decreases |l.records|
  {
    if l.records == [] then Restored([], l.failed)
    else
      var r := l.records[0];
      match c.unmarshal(r.payload)
      case None => Restored([], true)
      case Some(td) =>
        var more := Unmarshalled(c, Loaded(l.records[1..], l.failed));
        Restored([Entry(td, r.enqueueAtNs, r.attempts)] + more.entries, more.failed)
  }

  lemma {:induction false} UnmarshalUndoes<T(!new)>(c: Codec<T>, q: seq<Entry<T>>, rs: seq<Record>, i: nat, m: nat, failed: bool)
    requires LeftInverse(c) && Marshalled(c, q) == Some(rs) && i <= m <= |q|
    ensures Unmarshalled(c, Loaded(rs[i..m], failed)) == Restored(q[i..m], failed)
    decreases m - i
  {
    if i < m {
      UnmarshalUndoes(c, q, rs, i + 1, m, failed);
      MarshalledAt(c, q, rs, i);
      assert rs[i..m][0] == rs[i] && rs[i..m][1..] == rs[i + 1..m];
      assert q[i..m] == [q[i]] + q[i + 1..m];
      assert c.unmarshal(c.marshal(q[i].td).value) == Some(q[i].td);
    }
  }

  lemma {:induction false} MarshalledAt<T>(c: Codec<T>, q: seq<Entry<T>>, rs: seq<Record>, i: nat)
    requires Marshalled(c, q) == Some(rs) && i < |q|
    ensures c.marshal(q[i].td) == Some(rs[i].payload)
    ensures rs[i].enqueueAtNs == q[i].enqueueAtNs && rs[i].attempts == q[i].attempts
  {
    if i < |q| - 1 {
      MarshalledAt(c, q[..|q| - 1], rs[..|rs| - 1], i);
    }
  }

  /** Loading stops, with an error, at the first payload that does not unmarshal; every record before it comes back as it
      was written, and without such a payload the load fails only if the file did. */
  lemma {:induction false} LoadStopsAtABadPayload<T>(c: Codec<T>, l: Loaded)
    ensures var r := Unmarshalled(c, l);
            && |r.entries| <= |l.records|
            && (forall i :: 0 <= i < |r.entries| ==>
                  && c.unmarshal(l.records[i].payload) == Some(r.entries[i].td)
                  && r.entries[i].enqueueAtNs == l.records[i].enqueueAtNs && r.entries[i].attempts == l.records[i].attempts)
            && (|r.entries| < |l.records| ==> c.unmarshal(l.records[|r.entries|].payload).None? && r.failed)
            && (|r.entries| == |l.records| ==> r.failed == l.failed)
    decreases |l.records|
  {
    if l.records != [] && c.unmarshal(l.records[0].payload).Some? {
      LoadStopsAtABadPayload(c, Loaded(l.records[1..], l.failed));
    }
  }

  /** A queue has records exactly if every batch in it marshals. */
  lemma {:induction false} MarshalledIffAll<T>(c: Codec<T>, q: seq<Entry<T>>)
    ensures Marshalled(c, q).Some? <==> forall i :: 0 <= i < |q| ==> c.marshal(q[i].td).Some?
  {
    if q != [] {
      MarshalledIffAll(c, q[..|q| - 1]);
    }
  }

  /** What a restart recovers: with a codec that undoes itself, a saved queue loads back whole if no payload is over
      the loader's bound, and otherwise up to the first one that is, with an error. */
  lemma {:induction false} SavedQueueLoadsBack<T(!new)>(c: Codec<T>, q: seq<Entry<T>>, rs: seq<Record>)
    requires LeftInverse(c) && Marshalled(c, q) == Some(rs) && Savable(rs) && |q| <= MAX_COUNT
    ensures Unmarshalled(c, Decoded(Encoded(rs))) == Restored(q[..FirstOversized(rs)], FirstOversized(rs) < |q|)
  {
    var m := FirstOversized(rs);
    WholeFile(rs);
    UnmarshalUndoes(c, q, rs, 0, m, m < |q|);
    assert rs[0..m] == rs[..m] && q[0..m] == q[..m];
  }

  function Start(bytes: Bytes, k: nat): Bytes {
    if k <= |bytes| then bytes[..k] else bytes
  }

  /** A load that stops being able to read after any number of bytes still recovers exactly the records wholly read. */
  lemma {:induction false} InterruptedLoad<T(!new)>(c: Codec<T>, q: seq<Entry<T>>, rs: seq<Record>, readable: nat)
    requires LeftInverse(c) && Marshalled(c, q) == Some(rs) && Savable(rs) && |q| <= MAX_COUNT
    requires HEADER_SIZE <= readable <= |Encoded(rs)|
    ensures var m := |Recovered(rs, readable - HEADER_SIZE)|;
            m <= |q| && Unmarshalled(c, Decoded(Start(Encoded(rs), readable))) ==
                        Restored(q[..m], readable < |Encoded(rs)| || FirstOversized(rs) < |q|)
  {
    hide Encoded;
    hide Decoded;
    TruncatedFileLoads(rs, readable);
    RecoveredIsAPrefix(rs, readable - HEADER_SIZE);
    var m := |Recovered(rs, readable - HEADER_SIZE)|;
    UnmarshalUndoes(c, q, rs, 0, m, readable < |Encoded(rs)| || FirstOversized(rs) < |q|);
    assert rs[0..m] == rs[..m] && q[0..m] == q[..m];
  }

  lemma RecoveredIsAPrefix(rs: seq<Record>, k: nat)
    ensures var m := |Recovered(rs, k)|; m <= |rs| && Recovered(rs, k) == rs[..m]
  {
  }

  /** The file on disk. A save writes a temporary file and renames it over this one. */
  class Store {
    var contents: Option<Bytes>

    constructor ()
      ensures contents == None
    {
      contents := None;
    }

    /** `fails(k)` says whether the save's `k`th file-system operation fails, of create, header, two writes an entry, sync,
        close and rename; `removeFails` whether removing a stale file does. The old file stays unless everything marshals
        and every operation succeeds; then the new one is complete. */
    method Save<T>(path: string, c: Codec<T>, entries: seq<Entry<T>>, fails: nat -> bool, removeFails: bool) returns (ok: bool)
      modifies this
      ensures ok <==>
              path != "" &&
              (entries == [] || (Marshalled(c, entries).Some? && forall k: nat :: k < 5 + 2 * |entries| ==> !fails(k)))
      ensures contents ==
              if !ok then old(contents)
              else if entries == [] then (if removeFails then old(contents) else None)
              else Some(Encoded(Marshalled(c, entries).value))
    {
      if path == "" {
        return false;
      }
      if |entries| == 0 {
        if !removeFails {
          contents := None;
        }
        return true;
      }
      if fails(0) {
        return false;
      }
      if fails(1) {
        return false;
      }
      var tmp := Header(|entries|);
      var written, body := WriteRecords(c, entries, fails);
      if !written {
        return false;
      }
      tmp := tmp + body;
      var n := 2 + 2 * |entries|;
      if fails(n) || fails(n + 1) || fails(n + 2) {
        return false;
      }
      contents := Some(tmp);
      return true;
    }

    /** The loop over the entries, each two writes. */
    method WriteRecords<T>(c: Codec<T>, entries: seq<Entry<T>>, fails: nat -> bool) returns (written: bool, body: Bytes)
      ensures written <==>
              Marshalled(c, entries).Some? && forall k: nat :: 2 <= k < 2 + 2 * |entries| ==> !fails(k)
      ensures written ==> body == Body(Marshalled(c, entries).value)
    {
      hide Body;
      hide RecordBytes;
      hide Marshalled;
      body := [];
      ghost var rs := [];
      NothingMarshalled(c, entries);
      for i := 0 to |entries|
        invariant Marshalled(c, entries[..i]) == Some(rs) && body == Body(rs)
        invariant forall k: nat :: 2 <= k < 2 + 2 * i ==> !fails(k)
      {
        var e := entries[i];
        MarshalledNext(c, entries, i);
        match c.marshal(e.td) {
          case None =>
            MarshalFails(c, entries, i + 1);
            return false, body;
          case Some(payload) =>
            if fails(2 + 2 * i) || fails(3 + 2 * i) {
              return false, body;
            }
            var r := Record(payload, e.enqueueAtNs, e.attempts);
            BodyAppend(rs, r);
            body := body + RecordBytes(r);
            rs := rs + [r];
        }
      }
      assert entries[..|entries|] == entries;
      return true, body;
    }

    /** Reads records one after the other; the first that cannot be read or unmarshalled ends the load. `openFails` says
        whether an existing file cannot be opened; reading fails after `readable` bytes, just as if the file ended there. */
    method Load<T>(path: string, c: Codec<T>, openFails: bool, readable: nat) returns (r: Restored<T>)
      ensures r ==
              if path == "" || contents.None? then Restored([], false)
              else if openFails then Restored([], true)
              else Unmarshalled(c, Decoded(Start(contents.value, readable)))
    {
      if path == "" || contents.None? {
        return Restored([], false);
      }
      if openFails {
        return Restored([], true);
      }
      var f := Start(contents.value, readable);
      if |f| < HEADER_SIZE || f[0] != VERSION {
        return Restored([], true);
      }
      var count := GetBE(f[1..9]);
      if count > MAX_COUNT {
        return Restored([], true);
      }
      r := LoadRecords(c, f, count);
    }

    method LoadRecords<T>(c: Codec<T>, f: Bytes, count: nat) returns (r: Restored<T>)
      requires |f| >= HEADER_SIZE
      ensures r == Unmarshalled(c, Parse(f[9..], count))
    {
      hide Parse;
      hide GetBE;
      hide Unmarshalled;
      hide Joined;
      hide AsI64;
      var out: seq<Entry<T>> := [];
      var pos := HEADER_SIZE;
      JoinedAssoc(out, [], Unmarshalled(c, Parse(f[9..], count)));
      for i := 0 to count
        invariant HEADER_SIZE <= pos <= |f|
        invariant Unmarshalled(c, Parse(f[9..], count)) == Joined(out, Unmarshalled(c, Parse(f[pos..], count - i)))
      {
        LoadTurn(c, f, pos, count - i, out);
        if |f| - pos < RECORD_HEADER_SIZE {
          return Restored(out, true);
        }
        var payloadLen := GetBE(f[pos..pos + 4]);
        var enqueueNs := AsI64(GetBE(f[pos + 4..pos + 12]));
        var attempts := GetBE(f[pos + 12..pos + 16]);
        if payloadLen > MAX_PAYLOAD || |f| - pos - RECORD_HEADER_SIZE < payloadLen {
          return Restored(out, true);
        }
        var payload := f[pos + 16..pos + 16 + payloadLen];
        match c.unmarshal(payload) {
          case None => return Restored(out, true);
          case Some(td) =>
            out := out + [Entry(td, enqueueNs, attempts)];
            pos := pos + RECORD_HEADER_SIZE + payloadLen;
        }
      }
      LoadNext(c, f[pos..], 0);
      JoinedAssoc(out, [], Restored([], false));
      return Restored(out, false);
    }
  }

  // ---- steps of the two loops ----

  lemma {:induction false} NothingMarshalled<T>(c: Codec<T>, q: seq<Entry<T>>)
    ensures Marshalled(c, q[..0]) == Some([]) && Body([]) == []
    ensures Marshalled(c, q[..|q|]) == Marshalled(c, q)
  {
    assert q[..|q|] == q;
  }

  lemma {:induction false} MarshalledNext<T>(c: Codec<T>, q: seq<Entry<T>>, i: nat)
    requires i < |q|
    ensures q[..i + 1][..i] == q[..i]
    ensures Marshalled(c, q[..i + 1]) ==
            if Marshalled(c, q[..i]).None? || c.marshal(q[i].td).None? then None
            else Some(Marshalled(c, q[..i]).value +
                      [Record(c.marshal(q[i].td).value, q[i].enqueueAtNs, q[i].attempts)])
  {
  }

  lemma {:induction false} MarshalFails<T>(c: Codec<T>, q: seq<Entry<T>>, i: nat)
    requires i <= |q| && Marshalled(c, q[..i]).None?
    ensures Marshalled(c, q).None?
    decreases |q| - i
  {
    if i == |q| {
      assert q[..i] == q;
    } else {
      MarshalledNext(c, q, i);
      MarshalFails(c, q, i + 1);
    }
  }

  lemma {:induction false} BodyAppend(rs: seq<Record>, r: Record)
    ensures Body(rs + [r]) == Body(rs) + RecordBytes(r)
  {
    hide RecordBytes;
    if rs == [] {
      assert [r][1..] == [];
    } else {
      assert (rs + [r])[1..] == rs[1..] + [r];
      BodyAppend(rs[1..], r);
    }
  }

  function Joined<T>(before: seq<Entry<T>>, r: Restored<T>): Restored<T> {
    Restored(before + r.entries, r.failed)
  }

  lemma JoinedAssoc<T>(a: seq<Entry<T>>, b: seq<Entry<T>>, r: Restored<T>)
    ensures Joined(a, Joined(b, r)) == Joined(a + b, r)
    ensures Joined([], r) == r
    ensures r.entries == [] ==> Joined(a, r) == Restored(a, r.failed)
  {
    assert a + (b + r.entries) == a + b + r.entries;
    assert [] + r.entries == r.entries;
    assert a + [] == a;
  }

  /** One turn of the load loop. */
  lemma {:induction false} LoadNext<T>(c: Codec<T>, bytes: Bytes, n: nat)
    ensures n == 0 ==> Unmarshalled(c, Parse(bytes, n)) == Restored([], false)
    ensures n > 0 && !Readable(bytes) ==> Unmarshalled(c, Parse(bytes, n)) == Restored([], true)
    ensures n > 0 && Readable(bytes) ==>
              var e, rest := FirstRecord(bytes), bytes[RECORD_HEADER_SIZE + GetBE(bytes[..4])..];
              Unmarshalled(c, Parse(bytes, n)) ==
              match c.unmarshal(e.payload)
              case None => Restored([], true)
              case Some(td) => Joined([Entry(td, e.enqueueAtNs, e.attempts)], Unmarshalled(c, Parse(rest, n - 1)))
  {
    hide GetBE;
    if n > 0 && Readable(bytes) {
      var more := Parse(bytes[RECORD_HEADER_SIZE + GetBE(bytes[..4])..], n - 1);
      assert Parse(bytes, n).records[1..] == more.records;
    }
  }

  /** The same, inside the file at `pos`, with `out` read so far. */
  lemma {:induction false} LoadTurn<T>(c: Codec<T>, f: Bytes, pos: nat, n: nat, out: seq<Entry<T>>)
    requires pos <= |f| && n > 0
    ensures var left := Joined(out, Unmarshalled(c, Parse(f[pos..], n)));
            if |f| - pos < RECORD_HEADER_SIZE then left == Restored(out, true)
            else
              var len := GetBE(f[pos..pos + 4]);
              if len > MAX_PAYLOAD || |f| - pos - RECORD_HEADER_SIZE < len then left == Restored(out, true)
              else
                match c.unmarshal(f[pos + 16..pos + 16 + len])
                case None => left == Restored(out, true)
                case Some(td) =>
                  left == Joined(out + [Entry(td, AsI64(GetBE(f[pos + 4..pos + 12])), GetBE(f[pos + 12..pos + 16]))],
                                 Unmarshalled(c, Parse(f[pos + RECORD_HEADER_SIZE + len..], n - 1)))
  {
    hide Parse;
    hide GetBE;
    hide Unmarshalled;
    hide Joined;
    hide AsI64;
    LoadNext(c, f[pos..], n);
    JoinedAssoc(out, [], Restored([], true));
    if pos + RECORD_HEADER_SIZE <= |f| {
      HeaderAt(f, pos);
      var len := GetBE(f[pos..pos + 4]);
      if len <= MAX_PAYLOAD && pos + RECORD_HEADER_SIZE + len <= |f| {
        PayloadAt(f, pos, len);
        var e := FirstRecord(f[pos..]);
        var u := c.unmarshal(e.payload);
        if u.Some? {
          JoinedAssoc(out, [Entry(u.value, e.enqueueAtNs, e.attempts)],
                      Unmarshalled(c, Parse(f[pos + RECORD_HEADER_SIZE + len..], n - 1)));
        }
      }
    }
  }

  lemma HeaderAt(f: Bytes, pos: nat)
    requires pos + RECORD_HEADER_SIZE <= |f|
    ensures f[pos..][..4] == f[pos..pos + 4] && f[pos..][4..12] == f[pos + 4..pos + 12]
    ensures f[pos..][12..16] == f[pos + 12..pos + 16]
  {
  }

  lemma PayloadAt(f: Bytes, pos: nat, len: nat)
    requires pos + RECORD_HEADER_SIZE + len <= |f|
    ensures f[pos..][16..16 + len] == f[pos + 16..pos + 16 + len]
    ensures f[pos..][RECORD_HEADER_SIZE + len..] == f[pos + RECORD_HEADER_SIZE + len..]
  {
  }
}
