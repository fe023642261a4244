/**
 The snapshot iterator: seeking to the first entry and stepping to the end lists exactly the live
 keys of the snapshot, once each, in ascending order.
 */
module MvccScan {
  import opened Bytes
  import opened MvccKeys
  import opened MvccStore
  import opened MvccTx
  import opened MvccSnapshot
  import opened MvccRuns

  // ---- The iterator ----

  /** Where the iterator stops, and the visible pair it shows there. */
  datatype Stop = Stop(pos: nat, current: Option<Pair>)

  /** `last` is the key whose visible version was a tombstone: its older versions are skipped. */
  function Advance(s: Store, i: nat, ts: nat, last: Option<Bytes>): (r: Stop)
    requires i <= |s|
    ensures i <= r.pos <= |s| && (r.current.Some? ==> r.pos < |s|)
    decreases |s| - i
  {
    if i == |s| then Stop(i, None)
    else match Decode(s[i].key)
      case Corrupt => Advance(s, i + 1, ts, last)
      case Versioned(k, v) =>
        if last == Some(k) || v > ts then Advance(s, i + 1, ts, last)
        else if s[i].value == [] then Advance(s, i + 1, ts, Some(k))
        else Stop(i, Some(Pair(k, s[i].value)))
  }

  /** Past every entry of `key` from `i` on. */
  function SkipKey(s: Store, i: nat, key: Bytes): (r: nat)
    requires i <= |s|
    ensures i <= r <= |s|
    ensures i < |s| && Decode(s[i].key).Versioned? && Decode(s[i].key).key == key ==> r > i
    decreases |s| - i
  {
    if i == |s| then i
    else match Decode(s[i].key)
      case Versioned(k, v) => if k != key then i else SkipKey(s, i + 1, key)
      case Corrupt => SkipKey(s, i + 1, key)
  }

  lemma {:induction false} StopsOnKey(s: Store, i: nat, ts: nat, last: Option<Bytes>)
    requires i <= |s|
    ensures var r := Advance(s, i, ts, last);
            r.current.Some? ==> Decode(s[r.pos].key).Versioned? && Decode(s[r.pos].key).key == r.current.value.key
    decreases |s| - i
  {
    hide Decode;
    if i < |s| {
      StopsOnKey(s, i + 1, ts, last);
      var d := Decode(s[i].key);
      if d.Versioned? { StopsOnKey(s, i + 1, ts, Some(d.key)); }
    }
  }

  /** The pairs shown from position `i` on. */
  function ScanFrom(s: Store, i: nat, ts: nat): seq<Pair>
    requires i <= |s|
    decreases |s| - i
  {
    var r := Advance(s, i, ts, None);
    if r.current.None? then []
    else
      StopsOnKey(s, i, ts, None);
      [r.current.value] + ScanFrom(s, SkipKey(s, r.pos, r.current.value.key), ts)
  }

  function Scan(s: Store, ts: nat): seq<Pair> { ScanFrom(s, 0, ts) }

  // ---- Entries of a well-formed store ----

  function KeyOf(s: Store, i: nat): Bytes
    requires i < |s|
  {
    match Decode(s[i].key) case Versioned(k, _) => k case Corrupt => []
  }

  function VersionAt(s: Store, i: nat): nat
    requires i < |s|
  {
    match Decode(s[i].key) case Versioned(_, v) => v case Corrupt => 0
  }

  lemma EntryShape(s: Store, cs: seq<Commit>, i: nat)
    requires StoreInv(s, cs) && i < |s|
    ensures Decode(s[i].key) == Versioned(KeyOf(s, i), VersionAt(s, i))
    ensures KeyOk(KeyOf(s, i)) && VersionAt(s, i) < U64_LIMIT && s[i].key == Encode(KeyOf(s, i), VersionAt(s, i))
    ensures VersionOf(cs, KeyOf(s, i), VersionAt(s, i)) == Some(s[i].value)
  {
    hide StoreInv, Decode, Encode, VersionOf, KeyOk;
    var k, v := StoredAt(s, cs, i);
  }

  /** Entries are ordered by key, newest version first. */
  lemma EntryOrder(s: Store, cs: seq<Commit>, i: nat, j: nat)
    requires StoreInv(s, cs) && i < j < |s|
    ensures Less(KeyOf(s, i), KeyOf(s, j)) || (KeyOf(s, i) == KeyOf(s, j) && VersionAt(s, i) > VersionAt(s, j))
  {
    EntryShape(s, cs, i);
    EntryShape(s, cs, j);
    hide Encode, KeyOf, VersionAt, VersionOf, Decode;
    EncodeOrder(KeyOf(s, i), VersionAt(s, i), KeyOf(s, j), VersionAt(s, j));
  }

  /** Entries of one key are adjacent. */
  lemma Between(s: Store, cs: seq<Commit>, i: nat, x: nat, j: nat)
    requires StoreInv(s, cs) && i <= x <= j < |s| && KeyOf(s, i) == KeyOf(s, j)
    ensures KeyOf(s, x) == KeyOf(s, i)
  {
    hide KeyOf, VersionAt, StoreInv;
    if i < x < j {
      EntryOrder(s, cs, i, x);
      EntryOrder(s, cs, x, j);
      if Less(KeyOf(s, i), KeyOf(s, x)) {
        if KeyOf(s, x) != KeyOf(s, j) { LessTransitive(KeyOf(s, i), KeyOf(s, x), KeyOf(s, j)); }
        LessIrreflexive(KeyOf(s, i));
      }
    }
  }

  // ---- Liveness at a timestamp ----

  predicate Live(cs: seq<Commit>, ts: nat, k: Bytes)
  {
    k in Snapshot(cs, ts)
  }

  /** The first entry of a key that is not above `ts` is what the snapshot shows of that key. */
  lemma FirstVisible(s: Store, cs: seq<Commit>, i: nat, ts: nat)
    requires StoreInv(s, cs) && i < |s| && ts < U64_LIMIT && VersionAt(s, i) <= ts
    requires forall j :: 0 <= j < i && KeyOf(s, j) == KeyOf(s, i) ==> VersionAt(s, j) > ts
    ensures At(Snapshot(cs, ts), KeyOf(s, i)) == if s[i].value == [] then None else Some(s[i].value)
  {
    hide Snapshot, Encode, Decode, VersionOf, Visible, StoreInv, KeyOf, VersionAt, KeyOk;
    StoreCommits(s, cs);
    EntryShape(s, cs, i);
    var k, v := KeyOf(s, i), VersionAt(s, i);
    VisibleIsLatest(cs, ts, k, v);
    VisibleIsSnapshot(cs, ts, k);
    var seen := Visible(cs, ts, k);
    var j := PlaceOf(s, cs, k, seen.version);
    EntryAt(s, cs, j, k, seen.version);
    if i < j {
      EntryOrder(s, cs, i, j);
      LessIrreflexive(k);
    }
  }

  lemma EntryAt(s: Store, cs: seq<Commit>, j: nat, k: Bytes, v: nat)
    requires StoreInv(s, cs) && j < |s| && KeyOk(k) && v < U64_LIMIT && s[j].key == Encode(k, v)
    ensures KeyOf(s, j) == k && VersionAt(s, j) == v
  {
    DecodeEncode(k, v);
  }

  /** A key whose every entry is above `ts` is not in the snapshot. */
  lemma NoneVisible(s: Store, cs: seq<Commit>, k: Bytes, ts: nat)
    requires StoreInv(s, cs) && KeyOk(k) && ts < U64_LIMIT
    requires forall j :: 0 <= j < |s| && KeyOf(s, j) == k ==> VersionAt(s, j) > ts
    ensures !Live(cs, ts, k)
  {
    hide Snapshot, Encode, Decode, VersionOf, Visible, StoreInv, KeyOf, VersionAt, KeyOk;
    StoreCommits(s, cs);
    VisibleIsSnapshot(cs, ts, k);
    VisibleIsLatest(cs, ts, k, 0);
    var seen := Visible(cs, ts, k);
    if seen.Value? {
      var j := PlaceOf(s, cs, k, seen.version);
      EntryAt(s, cs, j, k, seen.version);
    }
  }

  // ---- Advancing ----

  /** At `i`, no entry of its key before `i` is visible, unless that key is already known to be deleted. */
  ghost predicate Ready(s: Store, cs: seq<Commit>, i: nat, ts: nat, last: Option<Bytes>)
  {
    && (last.Some? ==> !Live(cs, ts, last.value))
    && (i < |s| ==> forall j :: 0 <= j < i && KeyOf(s, j) == KeyOf(s, i) ==> VersionAt(s, j) > ts || last == Some(KeyOf(s, i)))
  }

  /** The iterator stops at the first live key, with its snapshot value; everything it passed is dead. */
  ghost predicate Stopped(s: Store, cs: seq<Commit>, i: nat, ts: nat, r: Stop)
    requires i <= |s| && r.pos <= |s| && (r.current.Some? ==> r.pos < |s|)
  {
    && (r.current.Some? ==>
          && KeyOf(s, r.pos) == r.current.value.key
          && At(Snapshot(cs, ts), r.current.value.key) == Some(r.current.value.value))
    && (forall x: nat :: i <= x < r.pos ==> !Live(cs, ts, KeyOf(s, x)) || (r.current.Some? && KeyOf(s, x) == r.current.value.key))
    && (r.current.None? ==> r.pos == |s|)
  }

  lemma {:induction false} AdvanceStops(s: Store, cs: seq<Commit>, i: nat, ts: nat, last: Option<Bytes>)
    requires StoreInv(s, cs) && i <= |s| && ts < U64_LIMIT && Ready(s, cs, i, ts, last)
    ensures Stopped(s, cs, i, ts, Advance(s, i, ts, last))
    decreases |s| - i
  {
    hide Snapshot, Encode, Decode, VersionOf, StoreInv, KeyOf, VersionAt, KeyOk;
    if i < |s| {
      EntryShape(s, cs, i);
      var k, v := KeyOf(s, i), VersionAt(s, i);
      var r := Advance(s, i, ts, last);
      if last == Some(k) {
        ReadyNext(s, cs, i, ts, last);
        AdvanceStops(s, cs, i + 1, ts, last);
      } else if v > ts {
        ReadyNext(s, cs, i, ts, last);
        AdvanceStops(s, cs, i + 1, ts, last);
        SkippedDead(s, cs, i, ts, last, r);
      } else {
        FirstVisible(s, cs, i, ts);
        if s[i].value == [] {
          ReadyNext(s, cs, i, ts, Some(k));
          AdvanceStops(s, cs, i + 1, ts, Some(k));
        }
      }
    }
  }

  lemma ReadyNext(s: Store, cs: seq<Commit>, i: nat, ts: nat, last: Option<Bytes>)
    requires StoreInv(s, cs) && i < |s|
    requires last.Some? ==> !Live(cs, ts, last.value)
    requires last == Some(KeyOf(s, i)) || forall j :: 0 <= j <= i && KeyOf(s, j) == KeyOf(s, i) ==> VersionAt(s, j) > ts
    ensures Ready(s, cs, i + 1, ts, last)
  {
    hide KeyOf, VersionAt, StoreInv, Live;
    if i + 1 < |s| {
      forall j | 0 <= j < i + 1 && KeyOf(s, j) == KeyOf(s, i + 1)
        ensures VersionAt(s, j) > ts || last == Some(KeyOf(s, i + 1))
      {
        Between(s, cs, j, i, i + 1);
      }
    }
  }

  /** An entry passed because its version is too new: its key is either still ahead or not in the snapshot. */
  lemma SkippedDead(s: Store, cs: seq<Commit>, i: nat, ts: nat, last: Option<Bytes>, r: Stop)
    requires StoreInv(s, cs) && i < |s| && ts < U64_LIMIT && Ready(s, cs, i, ts, last)
    requires last != Some(KeyOf(s, i)) && VersionAt(s, i) > ts
    requires i + 1 <= r.pos <= |s| && (r.current.Some? ==> r.pos < |s|) && Stopped(s, cs, i + 1, ts, r)
    ensures !Live(cs, ts, KeyOf(s, i)) || (r.current.Some? && KeyOf(s, i) == r.current.value.key)
  {
    hide KeyOf, VersionAt, StoreInv, Live, KeyOk, At;
    EntryShape(s, cs, i);
    var k := KeyOf(s, i);
    if i + 1 < |s| && KeyOf(s, i + 1) == k {
      // the claim about i + 1, or the stop itself
      assert i + 1 < r.pos ==> !Live(cs, ts, k) || (r.current.Some? && k == r.current.value.key);
    } else {
      forall j | 0 <= j < |s| && KeyOf(s, j) == k ensures VersionAt(s, j) > ts {
        if j > i { Between(s, cs, i, i + 1, j); }
      }
      NoneVisible(s, cs, k, ts);
    }
  }

  // ---- Stepping over a key ----

  ghost predicate GroupStart(s: Store, i: nat)
    requires i <= |s|
  {
    i < |s| ==> forall j :: 0 <= j < i ==> KeyOf(s, j) != KeyOf(s, i)
  }

  lemma {:induction false} SkipKeyLands(s: Store, cs: seq<Commit>, i: nat, key: Bytes)
    requires StoreInv(s, cs) && i <= |s| && (i < |s| ==> KeyOf(s, i) == key || (i > 0 && KeyOf(s, i - 1) == key)) && (i == |s| ==> i > 0 && KeyOf(s, i - 1) == key)
    ensures var r := SkipKey(s, i, key);
            && GroupStart(s, r)
            && (forall x: nat :: i <= x < r ==> KeyOf(s, x) == key)
            && r > 0 && KeyOf(s, r - 1) == key
    decreases |s| - i
  {
    hide KeyOf, VersionAt, StoreInv, Decode;
    if i < |s| {
      EntryShape(s, cs, i);
      KeyOfIs(s, i);
      if KeyOf(s, i) == key {
        SkipKeyLands(s, cs, i + 1, key);
      } else {
        forall j | 0 <= j < i ensures KeyOf(s, j) != KeyOf(s, i) {
          if KeyOf(s, j) == KeyOf(s, i) { Between(s, cs, j, i - 1, i); }
        }
      }
    }
  }

  lemma KeyOfIs(s: Store, i: nat)
    requires i < |s| && Decode(s[i].key).Versioned?
    ensures KeyOf(s, i) == Decode(s[i].key).key
  {
  }

  // ---- The whole scan ----

  /** `out` lists exactly the live keys met from position `i` on, ascending, with their snapshot values. */
  ghost predicate Lists(s: Store, cs: seq<Commit>, i: nat, ts: nat, out: seq<Pair>)
  {
    && (forall a, b :: 0 <= a < b < |out| ==> Less(out[a].key, out[b].key))
    && (forall a :: 0 <= a < |out| ==>
          && At(Snapshot(cs, ts), out[a].key) == Some(out[a].value)
          && Held(s, i, out[a].key))
    && (forall x: nat :: i <= x < |s| && Live(cs, ts, KeyOf(s, x)) ==> Listed(out, KeyOf(s, x)))
  }

  /** `k` has an entry at or behind position `i`. */
  ghost predicate Held(s: Store, i: nat, k: Bytes)
  {
    exists x: nat :: i <= x < |s| && KeyOf(s, x) == k
  }

  ghost predicate Listed(out: seq<Pair>, k: Bytes)
  {
    exists a: nat :: a < |out| && out[a].key == k
  }

  lemma {:induction false} ScanLists(s: Store, cs: seq<Commit>, i: nat, ts: nat)
    requires StoreInv(s, cs) && i <= |s| && ts < U64_LIMIT && GroupStart(s, i)
    ensures Lists(s, cs, i, ts, ScanFrom(s, i, ts))
    decreases |s| - i
  {
    hide Snapshot, Encode, Decode, StoreInv, KeyOf, VersionAt, Advance, SkipKey, Lists;
    AdvanceStops(s, cs, i, ts, None);
    var r := Advance(s, i, ts, None);
    if r.current.Some? {
      var key := r.current.value.key;
      SkipKeyLands(s, cs, r.pos, key);
      StopsOnKey(s, i, ts, None);
      var next := SkipKey(s, r.pos, key);
      ScanLists(s, cs, next, ts);
      Prepended(s, cs, i, ts, r, next, ScanFrom(s, next, ts));
    } else {
      EmptyLists(s, cs, i, ts, r);
    }
  }

  lemma EmptyLists(s: Store, cs: seq<Commit>, i: nat, ts: nat, r: Stop)
    requires i <= |s| && r.pos == |s| && r.current.None? && Stopped(s, cs, i, ts, r)
    ensures Lists(s, cs, i, ts, [])
  {
  }

  lemma ListedPlace(s: Store, cs: seq<Commit>, i: nat, ts: nat, out: seq<Pair>, a: nat) returns (x: nat)
    requires Lists(s, cs, i, ts, out) && a < |out|
    ensures i <= x < |s| && KeyOf(s, x) == out[a].key
    ensures At(Snapshot(cs, ts), out[a].key) == Some(out[a].value)
  {
    assert Held(s, i, out[a].key);
    x :| i <= x < |s| && KeyOf(s, x) == out[a].key;
  }

  lemma Prepended(s: Store, cs: seq<Commit>, i: nat, ts: nat, r: Stop, next: nat, rest: seq<Pair>)
    requires StoreInv(s, cs) && i <= r.pos < next <= |s| && r.current.Some? && Stopped(s, cs, i, ts, r)
    requires forall x: nat :: r.pos <= x < next ==> KeyOf(s, x) == r.current.value.key
    requires Lists(s, cs, next, ts, rest) && GroupStart(s, next)
    ensures Lists(s, cs, i, ts, [r.current.value] + rest)
  {
    hide Snapshot, StoreInv, KeyOf, VersionAt, Less, Live;
    var key := r.current.value.key;
    var out := [r.current.value] + rest;
    forall a, b | 0 <= a < b < |out| ensures Less(out[a].key, out[b].key) {
      if a == 0 {
        var x := ListedPlace(s, cs, next, ts, rest, b - 1);
        HeadBelow(s, cs, r.pos, next, x);
      }
    }
    forall a | 0 <= a < |out| ensures At(Snapshot(cs, ts), out[a].key) == Some(out[a].value) && Held(s, i, out[a].key) {
      if a == 0 {
        assert KeyOf(s, r.pos) == out[a].key;
      } else {
        var x := ListedPlace(s, cs, next, ts, rest, a - 1);
      }
    }
    forall x: nat | i <= x < |s| && Live(cs, ts, KeyOf(s, x)) ensures Listed(out, KeyOf(s, x)) {
      if x < next {
        assert out[0].key == KeyOf(s, x);
      } else {
        assert Listed(rest, KeyOf(s, x));
        var a: nat :| a < |rest| && rest[a].key == KeyOf(s, x);
        assert out[a + 1].key == KeyOf(s, x);
      }
    }
  }

  lemma HeadBelow(s: Store, cs: seq<Commit>, p: nat, next: nat, x: nat)
    requires StoreInv(s, cs) && p < next <= x < |s| && GroupStart(s, next)
    ensures Less(KeyOf(s, p), KeyOf(s, x))
  {
    hide KeyOf, VersionAt, StoreInv, Less;
    EntryOrder(s, cs, p, x);
    if KeyOf(s, p) == KeyOf(s, x) { Between(s, cs, p, next, x); }
  }

  /** Scanning at `ts` lists the snapshot at `ts`: every live key once, ascending, with the value a read returns. */
  lemma ScanCorrect(s: Store, cs: seq<Commit>, ts: nat)
    requires StoreInv(s, cs) && ts < U64_LIMIT
    ensures var out := Scan(s, ts);
            && (forall a, b :: 0 <= a < b < |out| ==> Less(out[a].key, out[b].key))
            && (forall k: Bytes, v: Bytes :: KeyOk(k) ==> (Pair(k, v) in out <==> At(Snapshot(cs, ts), k) == Some(v)))
            && (forall a :: 0 <= a < |out| ==> KeyOk(out[a].key) && StoreGet(s, out[a].key, ts) == Some(out[a].value))
  {
    hide Snapshot, StoreInv, KeyOf, VersionAt, Less, KeyOk, StoreGet, ScanFrom, Lists;
    var out := Scan(s, ts);
    ScanLists(s, cs, 0, ts);
    ListedAscend(s, cs, ts, out);
    forall k: Bytes, v: Bytes | KeyOk(k) ensures Pair(k, v) in out <==> At(Snapshot(cs, ts), k) == Some(v) {
      ListedExactly(s, cs, ts, out, k, v);
    }
    forall a | 0 <= a < |out| ensures KeyOk(out[a].key) && StoreGet(s, out[a].key, ts) == Some(out[a].value) {
      var x := ListedPlace(s, cs, 0, ts, out, a);
      EntryShape(s, cs, x);
      StoreGetCorrect(s, cs, out[a].key, ts);
    }
  }

  lemma ListedAscend(s: Store, cs: seq<Commit>, ts: nat, out: seq<Pair>)
    requires Lists(s, cs, 0, ts, out)
    ensures forall a, b :: 0 <= a < b < |out| ==> Less(out[a].key, out[b].key)
  {
  }

  lemma ListedExactly(s: Store, cs: seq<Commit>, ts: nat, out: seq<Pair>, k: Bytes, v: Bytes)
    requires StoreInv(s, cs) && ts < U64_LIMIT && KeyOk(k) && Lists(s, cs, 0, ts, out)
    ensures Pair(k, v) in out <==> At(Snapshot(cs, ts), k) == Some(v)
  {
    hide Snapshot, StoreInv, KeyOf, Less, KeyOk;
    if Pair(k, v) in out {
      var a: nat :| a < |out| && out[a] == Pair(k, v);
      var y := ListedPlace(s, cs, 0, ts, out, a);
    }
    if At(Snapshot(cs, ts), k) == Some(v) {
      var x := LivePlace(s, cs, ts, k);
      assert Live(cs, ts, KeyOf(s, x));
      assert Listed(out, k);
      var a: nat :| a < |out| && out[a].key == k;
      var y := ListedPlace(s, cs, 0, ts, out, a);
      assert out[a] == Pair(k, v);
    }
  }

  /** A live key has an entry in the store. */
  lemma LivePlace(s: Store, cs: seq<Commit>, ts: nat, k: Bytes) returns (x: nat)
    requires StoreInv(s, cs) && KeyOk(k) && ts < U64_LIMIT && Live(cs, ts, k)
    ensures x < |s| && KeyOf(s, x) == k
  {
    hide Snapshot, StoreInv, KeyOf, VersionOf, Visible, KeyOk;
    StoreCommits(s, cs);
    VisibleIsSnapshot(cs, ts, k);
    VisibleIsLatest(cs, ts, k, 0);
    var seen := Visible(cs, ts, k);
    x := PlaceOf(s, cs, k, seen.version);
    EntryAt(s, cs, x, k, seen.version);
  }

  /** In every run, the iterator of an active transaction lists the committed state as of its start. */
  lemma SnapshotScan(capacity: nat, run: seq<Manager>, k: nat, id: nat)
    requires Run(capacity, run) && k < |run| && id in run[k].active
    ensures run[k].active[id].startTs < U64_LIMIT
    ensures var ts := run[k].active[id].startTs;
            var out := Scan(run[k].store, ts);
            && (forall a, b :: 0 <= a < b < |out| ==> Less(out[a].key, out[b].key))
            && (forall key: Bytes, v: Bytes :: KeyOk(key) ==> (Pair(key, v) in out <==> At(Snapshot(run[k].commits, ts), key) == Some(v)))
  {
    hide Scan, Snapshot, StoreInv, KeyOk, Less, WritesOk, Isolated;
    RunKeeps(capacity, run, k);
    ScanCorrect(run[k].store, run[k].commits, run[k].active[id].startTs);
  }
}
