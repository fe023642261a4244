/**
 The transaction manager's routines: byte loops of the key codec, the read and conflict loops over
 the store's iterator, and the snapshot iterator object.
 */
module MvccManager {
  import opened Bytes
  import opened MvccKeys
  import opened MvccStore
  import opened MvccTx
  import opened MvccScan

  // ---- Key codec ----

  lemma DivOfSum(q: nat, m: nat, r: nat)
    requires m > 0
    ensures (q * m + r) / m == q + r / m
  {
    var x := q * m + r;
    assert r == r / m * m + r % m;
    assert x == (q + r / m) * m + r % m;
    UniqueQuotient(x, m, q + r / m, r % m);
  }

  lemma UniqueQuotient(x: nat, m: nat, q: nat, r: nat)
    requires m > 0 && x == q * m + r && r < m
    ensures x / m == q
  {
    var p := x / m;
    assert x == p * m + x % m;
    if p < q { MulMono(p + 1, q, m); } else if q < p { MulMono(q + 1, p, m); }
  }

  lemma {:induction false} PowSplit(a: nat, b: nat)
    ensures Pow256(a + b) == Pow256(a) * Pow256(b)
    decreases a
  {
    if a > 0 {
      PowSplit(a - 1, b);
      var x, y := Pow256(a - 1), Pow256(b);
      assert 256 * (x * y) == (256 * x) * y;
    }
  }

  lemma PowStep(i: nat)
    requires i > 0
    ensures Pow256(i) == 256 * Pow256(i - 1)
  {
  }

  /** Byte `i` of a big-endian number is what shifting and masking extracts. */
  lemma {:induction false} BigEndianAt(v: nat, k: nat, i: nat)
    requires v < Pow256(k) && i < k
    ensures Pow256(k - 1 - i) > 0 && BigEndian(v, k)[i] == v / Pow256(k - 1 - i) % 256
    decreases k
  {
    hide Pow256;
    DivBound(v, k);
    PowPositive(k - 1 - i);
    if i > 0 {
      PowStep(i);
      var big, m := Pow256(k - 1), Pow256(k - 1 - i);
      BigEndianAt(v % big, k - 1, i - 1);
      assert BigEndian(v, k)[i] == BigEndian(v % big, k - 1)[i - 1];
      PowSplit(i, k - 1 - i);
      LowerByte(v, big, m, Pow256(i - 1));
    }
  }

  lemma LowerByte(v: nat, big: nat, m: nat, t: nat)
    requires m > 0 && big == (256 * t) * m && big > 0
    ensures v % big / m % 256 == v / m % 256
  {
    var q, r := v / big, v % big;
    var k := q * (256 * t);
    assert v == q * big + r;
    MulAssoc(q, 256 * t, m);
    assert v == k * m + r;
    DivOfSum(k, m, r);
    MulShuffle(q, t);
    AddMultiple(r / m, q * t);
  }

  lemma MulAssoc(a: nat, b: nat, c: nat)
    ensures a * (b * c) == (a * b) * c
  {
  }

  lemma MulShuffle(q: nat, t: nat)
    ensures q * (256 * t) == 256 * (q * t)
  {
  }

  lemma AddMultiple(x: nat, y: nat)
    ensures (256 * y + x) % 256 == x % 256
  {
  }

  lemma {:induction false} FromBigEndianSnoc(b: Bytes, x: byte)
    ensures FromBigEndian(b + [x]) == FromBigEndian(b) * 256 + x
    decreases |b|
  {
    if b != [] {
      FromBigEndianSnoc(b[1..], x);
      assert (b + [x])[1..] == b[1..] + [x];
      var h, p := b[0], Pow256(|b| - 1);
      assert h * (256 * p) == (h * p) * 256;
    }
  }

  method EncodeKey(key: Bytes, version: nat) returns (encoded: Bytes)
    requires version < U64_LIMIT
    ensures encoded == Encode(key, version)
  {
    hide BigEndian, Pow256;
    WidthLimits();
    var inverted := MAX_VERSION - version;
    ghost var be := BigEndian(inverted, 8);
    encoded := key + [0];
    for i := 0 to 8
      invariant encoded == key + [0] + be[..i]
    {
      BigEndianAt(inverted, 8, i);
      encoded := encoded + [inverted / Pow256(7 - i) % 256];
      assert be[..i + 1] == be[..i] + [be[i]];
    }
    assert be[..8] == be;
  }

  method DecodeKey(b: Bytes) returns (r: Decoded)
    ensures r == Decode(b)
  {
    hide Pow256, FromBigEndian;
    if |b| < 10 { return Corrupt; }
    var keyLen := |b| - 9;
    if b[keyLen] != 0 { return Corrupt; }
    var inverted: nat := 0;
    ghost var tail := b[keyLen + 1..];
    EmptyBigEndian();
    for i := 0 to 8
      invariant inverted == FromBigEndian(tail[..i])
    {
      FromBigEndianSnoc(tail[..i], tail[i]);
      assert tail[..i + 1] == tail[..i] + [tail[i]];
      inverted := inverted * 256 + b[keyLen + 1 + i];
    }
    assert tail[..8] == tail == b[|b| - 8..];
    FromBigEndianBound(tail);
    WidthLimits();
    return Versioned(b[..keyLen], MAX_VERSION - inverted);
  }

  lemma EmptyBigEndian()
    ensures FromBigEndian([]) == 0
  {
  }

  // ---- The manager ----

  class TxManager {
    var nextId: nat
    var nextTs: nat
    const capacity: nat
    var store: Store
    var active: map<nat, Tx>
    var wal: seq<(nat, nat)>
    ghost var commits: seq<Commit>

    ghost function State(): Manager
      reads this
    {
      Manager(nextId, nextTs, capacity, store, active, wal, commits)
    }

    constructor (capacity: nat)
      ensures State() == Fresh(capacity)
    {
      this.capacity := capacity;
      nextId, nextTs, store, active, wal, commits := 1, 1, [], map[], [], [];
    }

    method TxBegin() returns (id: Option<nat>)
      modifies this
      ensures State() == Begin(old(State()))
      ensures id.Some? ==> id.value == old(nextId) && id.value in active && active[id.value] == Tx(old(nextTs), [])
      ensures id.None? <==> |old(active)| >= capacity
    {
      if |active| >= capacity { return None; }
      id := Some(nextId);
      active := active[nextId := Tx(nextTs, [])];
      wal := wal + [(nextId, nextTs)];
      nextId, nextTs := nextId + 1, nextTs + 1;
    }

    method SearchWrites(ws: seq<Write>, key: Bytes) returns (at: Option<nat>)
      ensures at == FindWrite(ws, key)
    {
      var i := 0;
      while i < |ws|
        invariant 0 <= i <= |ws|
        invariant FindWrite(ws, key) == match FindWrite(ws[i..], key) case None => None case Some(k) => Some(k + i)
      {
        assert ws[i..][0] == ws[i] && ws[i..][1..] == ws[i + 1..];
        if ws[i].key == key { return Some(i); }
        i := i + 1;
      }
      return None;
    }

    method AddBufferedWrite(id: nat, w: Write)
      requires id in active
      modifies this`active
      ensures State() == Buffer(old(State()), id, w)
    {
      var tx := active[id];
      var at := SearchWrites(tx.writes, w.key);
      var ws := if at.Some? then tx.writes[at.value := w] else tx.writes + [w];
      active := active[id := tx.(writes := ws)];
    }

    method TxPut(id: nat, key: Bytes, value: Bytes) returns (st: Status)
      modifies this`active
      ensures State() == Buffer(old(State()), id, Write(key, value, false))
      ensures st == if id in old(active) then OK else Aborted
    {
      if id !in active { return Aborted; }
      AddBufferedWrite(id, Write(key, value, false));
      return OK;
    }

    method TxDelete(id: nat, key: Bytes) returns (st: Status)
      modifies this`active
      ensures State() == Buffer(old(State()), id, Write(key, [], true))
      ensures st == if id in old(active) then OK else Aborted
    {
      if id !in active { return Aborted; }
      AddBufferedWrite(id, Write(key, [], true));
      return OK;
    }

    /** Iterate from the newest version not above the snapshot until the key changes. */
    method ReadStore(key: Bytes, ts: nat) returns (value: Option<Bytes>)
      requires ts < U64_LIMIT
      ensures value == StoreGet(store, key, ts)
    {
      hide Encode, Decode, Seek;
      var prefix := EncodeKey(key, ts);
      var i := Seek(store, prefix);
      while i < |store|
        invariant i <= |store|
        invariant StoreGet(store, key, ts) == GetFrom(store, i, key, ts)
      {
        var d := DecodeKey(store[i].key);
        if d.Versioned? {
          if d.key != key { return None; }
          if d.version <= ts {
            if store[i].value == [] { return None; }
            return Some(store[i].value);
          }
        }
        i := i + 1;
      }
      return None;
    }

    method TxGet(id: nat, key: Bytes) returns (value: Option<Bytes>)
      requires id in active && active[id].startTs < U64_LIMIT
      ensures value == Get(State(), id, key)
    {
      var tx := active[id];
      var own := SearchWrites(tx.writes, key);
      if own.Some? {
        if tx.writes[own.value].isDelete { return None; }
        return Some(tx.writes[own.value].value);
      }
      value := ReadStore(key, tx.startTs);
    }

    method GetLatestCommitTs(key: Bytes) returns (ts: nat)
      ensures ts == LatestTs(store, key)
    {
      hide Encode, Decode, Seek;
      var prefix := EncodeKey(key, MAX_VERSION);
      var i := Seek(store, prefix);
      ts := 0;
      if i < |store| {
        var d := DecodeKey(store[i].key);
        if d.Versioned? && d.key == key { ts := d.version; }
      }
    }

    method CheckWriteConflicts(tx: Tx) returns (conflict: bool)
      ensures conflict <==> HasConflict(store, tx)
    {
      hide LatestTs;
      var i := 0;
      while i < |tx.writes|
        invariant 0 <= i <= |tx.writes|
        invariant forall k :: 0 <= k < i ==> LatestTs(store, tx.writes[k].key) <= tx.startTs
      {
        var latest := GetLatestCommitTs(tx.writes[i].key);
        if latest > tx.startTs { return true; }
        i := i + 1;
      }
      return false;
    }

    method TxCommit(id: nat) returns (st: Status)
      requires nextTs < U64_LIMIT
      modifies this
      ensures (st, State()) == CommitTx(old(State()), id)
    {
      if id !in active { return Aborted; }
      var tx := active[id];
      var conflict := CheckWriteConflicts(tx);
      if conflict {
        active := active - {id};
        return Conflict;
      }
      var ts := nextTs;
      nextTs := nextTs + 1;
      ApplyAll(tx.writes, ts);
      active := active - {id};
      wal := wal + [(id, ts)];
      commits := commits + [Commit(tx.startTs, ts, tx.writes)];
      return OK;
    }

    method ApplyAll(ws: seq<Write>, ts: nat)
      requires ts < U64_LIMIT
      modifies this`store
      ensures store == PutAll(old(store), ws, ts)
    {
      hide Put, Encode;
      var i := 0;
      assert ws[..0] == [];
      while i < |ws|
        invariant 0 <= i <= |ws|
        invariant store == PutAll(old(store), ws[..i], ts)
      {
        var k := EncodeKey(ws[i].key, ts);
        assert ws[..i + 1][..i] == ws[..i];
        if ws[i].isDelete {
          store := Put(store, k, []);
        } else {
          store := Put(store, k, ws[i].value);
        }
        i := i + 1;
      }
      assert ws[..|ws|] == ws;
    }

    method TxAbort(id: nat) returns (st: Status)
      modifies this
      ensures State() == AbortTx(old(State()), id)
      ensures st == if id in old(active) then OK else Aborted
    {
      if id !in active { return Aborted; }
      active := active - {id};
      wal := wal + [(id, 0)];
      return OK;
    }

    /** Opening an existing database resets the counters; scanning the log restores them. */
    method OpenAndRecover()
      modifies this
      ensures State() == Reopen(old(State()))
    {
      nextId, nextTs, active := 1, 1, map[];
      var maxId, maxTs := 0, 0;
      var i := 0;
      assert wal[..0] == [];
      while i < |wal|
        invariant 0 <= i <= |wal|
        invariant maxId == MaxId(wal[..i]) && maxTs == MaxTs(wal[..i])
      {
        assert wal[..i + 1][..i] == wal[..i];
        if wal[i].0 > maxId { maxId := wal[i].0; }
        if wal[i].1 > maxTs { maxTs := wal[i].1; }
        i := i + 1;
      }
      assert wal[..|wal|] == wal;
      if maxId >= nextId { nextId := maxId + 1; }
      if maxTs >= nextTs { nextTs := maxTs + 1; }
    }
  }

  // ---- The snapshot iterator ----

  class TxIter {
    const store: Store
    const ts: nat
    var pos: nat
    var current: Option<Pair>

    constructor (store: Store, ts: nat)
      ensures this.store == store && this.ts == ts && pos == 0 && current == None
    {
      this.store, this.ts := store, ts;
      pos, current := 0, None;
    }

    method AdvanceToVisible()
      requires pos <= |store|
      modifies this
      ensures Stop(pos, current) == Advance(store, old(pos), ts, None)
    {
      hide Decode;
      current := None;
      var last: Option<Bytes> := None;
      while pos < |store|
        invariant pos <= |store| && current == None
        invariant Advance(store, pos, ts, last) == Advance(store, old(pos), ts, None)
        decreases |store| - pos
      {
        var d := DecodeKey(store[pos].key);
        if d.Versioned? && last != Some(d.key) && d.version <= ts {
          if store[pos].value != [] {
            current := Some(Pair(d.key, store[pos].value));
            return;
          }
          last := Some(d.key);
        }
        pos := pos + 1;
      }
    }

    method SeekToFirst()
      modifies this
      ensures Stop(pos, current) == Advance(store, 0, ts, None)
    {
      pos := 0;
      AdvanceToVisible();
    }

    method Next()
      requires pos <= |store|
      modifies this
      ensures old(current).None? ==> pos == old(pos) && current == None
      ensures old(current).Some? ==> Stop(pos, current) == Advance(store, SkipKey(store, old(pos), old(current).value.key), ts, None)
    {
      if current.None? { return; }
      hide Decode;
      var skip := current.value.key;
      while pos < |store|
        invariant pos <= |store| && current == old(current)
        invariant SkipKey(store, pos, skip) == SkipKey(store, old(pos), skip)
        decreases |store| - pos
      {
        var d := DecodeKey(store[pos].key);
        if d.Versioned? && d.key != skip { break; }
        pos := pos + 1;
      }
      AdvanceToVisible();
    }
  }

  /** Seek to the first entry, then step until the iterator is no longer valid. */
  method ScanAll(store: Store, ts: nat) returns (out: seq<Pair>)
    ensures out == Scan(store, ts)
  {
    var it := new TxIter(store, ts);
    it.SeekToFirst();
    out := [];
    ghost var from := 0;
    while it.current.Some?
      invariant from <= |store| && it.store == store && it.ts == ts
      invariant Stop(it.pos, it.current) == Advance(store, from, ts, None)
      invariant out + ScanFrom(store, from, ts) == Scan(store, ts)
      decreases |store| - from
    {
      StopsOnKey(store, from, ts, None);
      out := out + [it.current.value];
      from := SkipKey(store, it.pos, it.current.value.key);
      it.Next();
    }
  }
}
