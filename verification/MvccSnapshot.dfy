/**
 Snapshot reads: what the iterator finds in the store is what replaying the committed history says.
 */
module MvccSnapshot {
  import opened Bytes
  import opened MvccKeys
  import opened MvccStore
  import opened MvccTx

  // ---- Well-formed histories ----

  predicate WriteOk(w: Write)
  {
    KeyOk(w.key) && (!w.isDelete ==> w.value != [])
  }

  predicate WritesOk(ws: seq<Write>)
  {
    && (forall i :: 0 <= i < |ws| ==> WriteOk(ws[i]))
    && forall i, j :: 0 <= i < j < |ws| ==> ws[i].key != ws[j].key
  }

  /** Commit timestamps ascend, stay below `bound`, and follow their own start. */
  predicate CommitsOk(cs: seq<Commit>, bound: nat)
  {
    && (forall i :: 0 <= i < |cs| ==> WritesOk(cs[i].writes) && 1 <= cs[i].ts < bound && cs[i].startTs < cs[i].ts)
    && forall i, j :: 0 <= i < j < |cs| ==> cs[i].ts < cs[j].ts
  }

  // ---- The store as a map of versions ----

  function PutWrites(m: map<Bytes, Bytes>, ws: seq<Write>, ts: nat): map<Bytes, Bytes>
    requires ts < U64_LIMIT
  {
    if ws == [] then m
    else PutWrites(m, ws[..|ws| - 1], ts)[Encode(ws[|ws| - 1].key, ts) := StoredValue(ws[|ws| - 1])]
  }

  function VersionMap(cs: seq<Commit>): map<Bytes, Bytes>
    requires forall i :: 0 <= i < |cs| ==> cs[i].ts < U64_LIMIT
  {
    if cs == [] then map[] else PutWrites(VersionMap(cs[..|cs| - 1]), cs[|cs| - 1].writes, cs[|cs| - 1].ts)
  }

  ghost predicate StoreInv(s: Store, cs: seq<Commit>)
  {
    Sorted(s) && CommitsOk(cs, U64_LIMIT) && View(s) == VersionMap(cs)
  }

  lemma {:induction false} PutAllView(s: Store, ws: seq<Write>, ts: nat)
    requires Sorted(s) && ts < U64_LIMIT
    ensures Sorted(PutAll(s, ws, ts)) && View(PutAll(s, ws, ts)) == PutWrites(View(s), ws, ts)
    decreases |ws|
  {
    if ws != [] {
      var front := ws[..|ws| - 1];
      PutAllView(s, front, ts);
      PutSorted(PutAll(s, front, ts), Encode(ws[|ws| - 1].key, ts), StoredValue(ws[|ws| - 1]));
      PutView(PutAll(s, front, ts), Encode(ws[|ws| - 1].key, ts), StoredValue(ws[|ws| - 1]));
    }
  }

  /** A commit keeps the store in step with the history. */
  lemma CommitKeepsStore(s: Store, cs: seq<Commit>, c: Commit)
    requires StoreInv(s, cs) && CommitsOk(cs + [c], U64_LIMIT) && c.ts < U64_LIMIT
    ensures StoreInv(PutAll(s, c.writes, c.ts), cs + [c])
  {
    assert (cs + [c])[|cs|] == c && (cs + [c])[..|cs|] == cs;
    PutAllView(s, c.writes, c.ts);
  }

  // ---- Looking a version up ----

  /** The value commit `v` stored for `key`, if it wrote it. */
  function VersionOf(cs: seq<Commit>, key: Bytes, v: nat): Option<Bytes>
  {
    if cs == [] then None
    else
      var c := cs[|cs| - 1];
      var w := FindWrite(c.writes, key);
      if c.ts == v && w.Some? then Some(StoredValue(c.writes[w.value])) else VersionOf(cs[..|cs| - 1], key, v)
  }

  lemma {:induction false} PutWritesLookup(m: map<Bytes, Bytes>, ws: seq<Write>, ts: nat, key: Bytes, v: nat)
    requires WritesOk(ws) && ts < U64_LIMIT && KeyOk(key) && v < U64_LIMIT
    ensures var w := FindWrite(ws, key);
            At(PutWrites(m, ws, ts), Encode(key, v)) ==
              if v == ts && w.Some? then Some(StoredValue(ws[w.value])) else At(m, Encode(key, v))
    decreases |ws|
  {
    hide Encode, KeyOk;
    if ws != [] {
      var front, last := ws[..|ws| - 1], ws[|ws| - 1];
      assert WriteOk(last);
      PutWritesLookup(m, front, ts, key, v);
      FindLast(ws, key);
      if Encode(key, v) == Encode(last.key, ts) {
        KeysNonEmpty(key, last.key);
        EncodeInjective(key, v, last.key, ts);
      }
    }
  }

  lemma KeysNonEmpty(a: Bytes, b: Bytes)
    requires KeyOk(a) && KeyOk(b)
    ensures a != [] && b != []
  {
  }

  /** With distinct keys, a search from the front and one from the back agree. */
  lemma FindLast(ws: seq<Write>, key: Bytes)
    requires WritesOk(ws) && ws != []
    ensures WritesOk(ws[..|ws| - 1])
    ensures FindWrite(ws, key) == if ws[|ws| - 1].key == key then Some(|ws| - 1) else FindWrite(ws[..|ws| - 1], key)
  {
    hide FindWrite, WriteOk;
    var front := ws[..|ws| - 1];
    var r, f := FindWrite(ws, key), FindWrite(front, key);
    assert forall i: nat :: i < |front| ==> front[i] == ws[i];
    if f.Some? { assert ws[f.value].key == key; }
    if r.Some? && r.value < |front| { assert front[r.value].key == key; }
  }

  lemma {:induction false} VersionLookup(cs: seq<Commit>, key: Bytes, v: nat)
    requires CommitsOk(cs, U64_LIMIT) && KeyOk(key) && v < U64_LIMIT
    ensures At(VersionMap(cs), Encode(key, v)) == VersionOf(cs, key, v)
    decreases |cs|
  {
    hide Encode, KeyOk, WritesOk;
    if cs != [] {
      var front, c := cs[..|cs| - 1], cs[|cs| - 1];
      VersionLookup(front, key, v);
      PutWritesLookup(VersionMap(front), c.writes, c.ts, key, v);
    }
  }

  ghost predicate IsVersion(x: Bytes)
  {
    exists k: Bytes, v: nat :: KeyOk(k) && v < U64_LIMIT && x == Encode(k, v)
  }

  lemma {:induction false} PutWritesKeys(m: map<Bytes, Bytes>, ws: seq<Write>, ts: nat)
    requires WritesOk(ws) && ts < U64_LIMIT && forall x :: x in m ==> IsVersion(x)
    ensures forall x :: x in PutWrites(m, ws, ts) ==> IsVersion(x)
    decreases |ws|
  {
    hide Encode, KeyOk;
    if ws != [] {
      PutWritesKeys(m, ws[..|ws| - 1], ts);
      var last := ws[|ws| - 1];
      assert WriteOk(last);
      assert IsVersion(Encode(last.key, ts));
    }
  }

  /** Every key in the store is the encoding of a well-formed key and a version. */
  lemma {:induction false} VersionMapKeys(cs: seq<Commit>)
    requires CommitsOk(cs, U64_LIMIT)
    ensures forall x :: x in VersionMap(cs) ==> IsVersion(x)
    decreases |cs|
  {
    if cs != [] {
      VersionMapKeys(cs[..|cs| - 1]);
      PutWritesKeys(VersionMap(cs[..|cs| - 1]), cs[|cs| - 1].writes, cs[|cs| - 1].ts);
    }
  }

  // ---- The newest version visible at a timestamp ----

  datatype Seen = Nothing | Value(version: nat, data: Bytes)

  function Visible(cs: seq<Commit>, ts: nat, key: Bytes): Seen
  {
    if cs == [] then Nothing
    else
      var c := cs[|cs| - 1];
      var w := FindWrite(c.writes, key);
      if c.ts <= ts && w.Some? then Value(c.ts, StoredValue(c.writes[w.value])) else Visible(cs[..|cs| - 1], ts, key)
  }

  lemma {:induction false} ApplyWritesAt(kv: map<Bytes, Bytes>, ws: seq<Write>, key: Bytes)
    requires WritesOk(ws)
    ensures var w := FindWrite(ws, key);
            At(ApplyWrites(kv, ws), key) ==
              if w.None? then At(kv, key) else if ws[w.value].isDelete then None else Some(ws[w.value].value)
    decreases |ws|
  {
    if ws != [] {
      FindLast(ws, key);
      ApplyWritesAt(kv, ws[..|ws| - 1], key);
    }
  }

  /** The newest visible version is what replaying the history up to `ts` leaves. */
  lemma {:induction false} VisibleIsSnapshot(cs: seq<Commit>, ts: nat, key: Bytes)
    requires CommitsOk(cs, U64_LIMIT)
    ensures var seen := Visible(cs, ts, key);
            At(Snapshot(cs, ts), key) == if seen.Nothing? || seen.data == [] then None else Some(seen.data)
    decreases |cs|
  {
    if cs != [] {
      var front, c := cs[..|cs| - 1], cs[|cs| - 1];
      VisibleIsSnapshot(front, ts, key);
      if c.ts <= ts {
        ApplyWritesAt(Snapshot(front, ts), c.writes, key);
        var w := FindWrite(c.writes, key);
        if w.Some? { assert WriteOk(c.writes[w.value]); }
      }
    }
  }

  lemma {:induction false} VersionBelow(cs: seq<Commit>, key: Bytes, v: nat)
    requires CommitsOk(cs, U64_LIMIT) && VersionOf(cs, key, v).Some?
    ensures cs != [] && 1 <= v <= cs[|cs| - 1].ts
    decreases |cs|
  {
    var front := cs[..|cs| - 1];
    if !(cs[|cs| - 1].ts == v) {
      VersionBelow(front, key, v);
    }
  }

  /** It is the largest version not above `ts`. */
  lemma {:induction false} VisibleIsLatest(cs: seq<Commit>, ts: nat, key: Bytes, v: nat)
    requires CommitsOk(cs, U64_LIMIT)
    ensures var seen := Visible(cs, ts, key);
            && (seen.Value? ==> 1 <= seen.version <= ts && VersionOf(cs, key, seen.version) == Some(seen.data))
            && (VersionOf(cs, key, v).Some? && v <= ts ==> seen.Value? && v <= seen.version)
    decreases |cs|
  {
    if cs != [] {
      var front, c := cs[..|cs| - 1], cs[|cs| - 1];
      VisibleIsLatest(front, ts, key, v);
      if VersionOf(cs, key, v).Some? { VersionBelow(cs, key, v); }
      var seen := Visible(front, ts, key);
      if seen.Value? { VersionBelow(front, key, seen.version); }
    }
  }

  // ---- Where the iterator lands ----

  lemma StoredAt(s: Store, cs: seq<Commit>, i: nat) returns (k: Bytes, v: nat)
    requires StoreInv(s, cs) && i < |s|
    ensures KeyOk(k) && v < U64_LIMIT && s[i].key == Encode(k, v)
    ensures Decode(s[i].key) == Versioned(k, v)
    ensures VersionOf(cs, k, v) == Some(s[i].value)
  {
    hide Encode, Decode, View, VersionMap, CommitsOk;
    ViewHas(s, s[i].key);
    VersionMapKeys(cs);
    assert IsVersion(s[i].key);
    k, v :| KeyOk(k) && v < U64_LIMIT && s[i].key == Encode(k, v);
    VersionLookup(cs, k, v);
    DecodeEncode(k, v);
  }

  lemma PlaceOf(s: Store, cs: seq<Commit>, key: Bytes, v: nat) returns (j: nat)
    requires StoreInv(s, cs) && KeyOk(key) && v < U64_LIMIT && VersionOf(cs, key, v).Some?
    ensures j < |s| && s[j].key == Encode(key, v)
  {
    hide Encode, View, VersionMap, CommitsOk;
    VersionLookup(cs, key, v);
    ViewHas(s, Encode(key, v));
    j :| 0 <= j < |s| && s[j].key == Encode(key, v);
  }

  /** A version at or below `ts` lies at or behind the seek position for `ts`. */
  lemma BehindSeek(s: Store, cs: seq<Commit>, key: Bytes, ts: nat, v: nat) returns (j: nat)
    requires StoreInv(s, cs) && KeyOk(key) && v <= ts < U64_LIMIT && VersionOf(cs, key, v).Some?
    ensures Seek(s, Encode(key, ts)) <= j < |s| && s[j].key == Encode(key, v)
  {
    hide Encode, StoreInv, Seek, Less;
    j := PlaceOf(s, cs, key, v);
    EncodeOrder(key, v, key, ts);
    LessIrreflexive(key);
  }

  /** Seeking to (key, ts) lands on the newest version visible at `ts`, or on another key if there is none. */
  lemma SeekVisible(s: Store, cs: seq<Commit>, key: Bytes, ts: nat)
    requires StoreInv(s, cs) && KeyOk(key) && ts < U64_LIMIT
    ensures var i := Seek(s, Encode(key, ts));
            var seen := Visible(cs, ts, key);
            && (seen.Nothing? ==> i == |s| || (Decode(s[i].key).Versioned? && Decode(s[i].key).key != key))
            && (seen.Value? ==> i < |s| && Decode(s[i].key) == Versioned(key, seen.version) && s[i].value == seen.data)
  {
    hide Encode, Decode, VersionOf, Visible, Less, Seek, View, VersionMap, CommitsOk, KeyOk;
    var i := Seek(s, Encode(key, ts));
    var seen := Visible(cs, ts, key);
    if i < |s| {
      var k, v := StoredAt(s, cs, i);
      SeekAbove(s, Encode(key, ts), i);
      VisibleIsLatest(cs, ts, key, v);
      if k == key {
        OwnVersion(s, cs, key, ts, i, v);
      } else if seen.Value? {
        var j := BehindSeek(s, cs, key, ts, seen.version);
        Squeezed(s, key, ts, i, k, v, j, seen.version);
      }
    } else if seen.Value? {
      VisibleIsLatest(cs, ts, key, 0);
      var j := BehindSeek(s, cs, key, ts, seen.version);
    }
  }

  /** What sits between the seek position and a visible version of `key` is `key` itself. */
  lemma Squeezed(s: Store, key: Bytes, ts: nat, i: nat, k: Bytes, v: nat, j: nat, w: nat)
    requires Sorted(s) && KeyOk(key) && KeyOk(k) && ts < U64_LIMIT && v < U64_LIMIT && w < U64_LIMIT
    requires i <= j < |s| && s[i].key == Encode(k, v) && s[j].key == Encode(key, w)
    requires !Less(s[i].key, Encode(key, ts))
    ensures k == key
  {
    hide Encode;
    EncodeOrder(k, v, key, ts);
    EncodeOrder(k, v, key, w);
    LessTotal(k, key);
    if i == j { KeysNonEmpty(k, key); EncodeInjective(k, v, key, w); }
  }

  /** If the seek lands on `key` itself, it lands on the newest visible version. */
  lemma OwnVersion(s: Store, cs: seq<Commit>, key: Bytes, ts: nat, i: nat, v: nat)
    requires StoreInv(s, cs) && KeyOk(key) && ts < U64_LIMIT && v < U64_LIMIT
    requires i == Seek(s, Encode(key, ts)) < |s| && s[i].key == Encode(key, v) && VersionOf(cs, key, v) == Some(s[i].value)
    requires !Less(s[i].key, Encode(key, ts))
    ensures Visible(cs, ts, key) == Value(v, s[i].value)
  {
    hide Encode, VersionOf, Visible, Less, Seek, View, VersionMap, CommitsOk;
    EncodeOrder(key, v, key, ts);
    LessIrreflexive(key);
    VisibleIsLatest(cs, ts, key, v);
    var seen := Visible(cs, ts, key);
    var j := BehindSeek(s, cs, key, ts, seen.version);
    if i < j {
      EncodeOrder(key, v, key, seen.version);
    } else {
      KeysNonEmpty(key, key);
      EncodeInjective(key, v, key, seen.version);
    }
  }

  /** Reading the store at `ts` is reading the snapshot at `ts`. */
  lemma StoreGetCorrect(s: Store, cs: seq<Commit>, key: Bytes, ts: nat)
    requires StoreInv(s, cs) && KeyOk(key) && ts < U64_LIMIT
    ensures StoreGet(s, key, ts) == At(Snapshot(cs, ts), key)
  {
    hide Encode, Decode, Visible, Seek, StoreInv, KeyOk, Snapshot;
    SeekVisible(s, cs, key, ts);
    StoreCommits(s, cs);
    VisibleIsSnapshot(cs, ts, key);
    VisibleIsLatest(cs, ts, key, 0);
  }

  lemma StoreCommits(s: Store, cs: seq<Commit>)
    requires StoreInv(s, cs)
    ensures CommitsOk(cs, U64_LIMIT)
  {
  }

  /** The conflict check reads the newest committed version of a key. */
  lemma LatestTsCorrect(s: Store, cs: seq<Commit>, key: Bytes, v: nat)
    requires StoreInv(s, cs) && KeyOk(key)
    ensures VersionOf(cs, key, v).Some? ==> v <= LatestTs(s, key)
    ensures LatestTs(s, key) > 0 ==> VersionOf(cs, key, LatestTs(s, key)).Some?
  {
    hide Encode, Decode, Visible, Seek, StoreInv, KeyOk, VersionOf;
    SeekVisible(s, cs, key, MAX_VERSION);
    StoreCommits(s, cs);
    VisibleIsLatest(cs, MAX_VERSION, key, v);
    if VersionOf(cs, key, v).Some? { VersionSmall(cs, key, v); }
  }

  lemma VersionSmall(cs: seq<Commit>, key: Bytes, v: nat)
    requires CommitsOk(cs, U64_LIMIT) && VersionOf(cs, key, v).Some?
    ensures v <= MAX_VERSION
  {
    VersionBelow(cs, key, v);
  }
}
