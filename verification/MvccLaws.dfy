/**
 What a client of the transaction manager can rely on, call by call: reading its own writes, what a commit
 makes visible and to whom, and when a commit is refused.
 */
module MvccLaws {
  import opened Bytes
  import opened MvccKeys
  import opened MvccStore
  import opened MvccTx
  import opened MvccSnapshot
  import opened MvccRuns

  // ---- Own writes ----

  lemma {:induction false} FirstWrite(ws: seq<Write>, i: nat)
    requires i < |ws| && forall j :: 0 <= j < i ==> ws[j].key != ws[i].key
    ensures FindWrite(ws, ws[i].key) == Some(i)
  {
    var f := FindWrite(ws, ws[i].key);
    if f.Some? && f.value > i { NoEarlier(ws, ws[i].key, i); }
  }

  lemma {:induction false} NoEarlier(ws: seq<Write>, key: Bytes, j: nat)
    requires FindWrite(ws, key).Some? && j < FindWrite(ws, key).value
    ensures ws[j].key != key
  {
    if j > 0 { NoEarlier(ws[1..], key, j - 1); }
  }

  /** After buffering a write, its key shows it and every other key shows what it did. */
  lemma FindAfterAdd(ws: seq<Write>, w: Write, key: Bytes)
    ensures var r := AddWrite(ws, w);
            var f := FindWrite(r, key);
            if key == w.key then f.Some? && r[f.value] == w
            else f.Some? == FindWrite(ws, key).Some? && (f.Some? ==> r[f.value] == ws[FindWrite(ws, key).value])
  {
    hide FindWrite;
    var r := AddWrite(ws, w);
    var at, f := FindWrite(ws, w.key), FindWrite(ws, key);
    if key == w.key {
      var i := if at.Some? then at.value else |ws|;
      forall j | 0 <= j < i ensures r[j].key != w.key {
        if at.Some? { NoEarlier(ws, w.key, j); }
      }
      FirstWrite(r, i);
    } else if f.Some? {
      forall j | 0 <= j < f.value ensures r[j].key != key { NoEarlier(ws, key, j); }
      FirstWrite(r, f.value);
    }
  }

  /** Read your own writes: the last put or delete of a key is what the transaction reads; other keys are unaffected. */
  lemma ReadOwnWrite(m: Manager, id: nat, w: Write, key: Bytes)
    requires id in m.active && m.active[id].startTs < U64_LIMIT
    ensures Get(Buffer(m, id, w), id, key) ==
              if key != w.key then Get(m, id, key) else if w.isDelete then None else Some(w.value)
  {
    hide FindWrite, AddWrite, StoreGet;
    FindAfterAdd(m.active[id].writes, w, key);
  }

  /** Until the commit nobody else sees the write. */
  lemma OthersUnaffected(m: Manager, id: nat, w: Write, other: nat, key: Bytes)
    requires other in m.active && other != id && m.active[other].startTs < U64_LIMIT
    ensures other in Buffer(m, id, w).active && Get(Buffer(m, id, w), other, key) == Get(m, other, key)
    ensures Buffer(m, id, w).store == m.store && Buffer(m, id, w).commits == m.commits
  {
  }

  // ---- Commit and abort ----

  /** Some commit after the transaction's start wrote one of its keys. */
  ghost predicate Overwritten(m: Manager, id: nat)
    requires id in m.active
  {
    exists i: nat, key :: Overwrites(m, id, i, key)
  }

  predicate Overwrites(m: Manager, id: nat, i: nat, key: Bytes)
    requires id in m.active
  {
    && i < |m.commits| && m.active[id].startTs < m.commits[i].ts
    && Writes(m.commits[i].writes, key) && Writes(m.active[id].writes, key)
  }

  lemma {:induction false} VersionCommitted(cs: seq<Commit>, key: Bytes, v: nat) returns (i: nat)
    requires VersionOf(cs, key, v).Some?
    ensures i < |cs| && cs[i].ts == v && Writes(cs[i].writes, key)
    decreases |cs|
  {
    var c := cs[|cs| - 1];
    if c.ts == v && FindWrite(c.writes, key).Some? {
      i := |cs| - 1;
    } else {
      i := VersionCommitted(cs[..|cs| - 1], key, v);
    }
  }

  lemma ConflictIsOverwrite(m: Manager, id: nat)
    requires Inv(m) && id in m.active
    ensures HasConflict(m.store, m.active[id]) <==> Overwritten(m, id)
  {
    hide LatestTs, VersionOf, StoreInv, KeyOk, CommitsOk, Isolated;
    var tx := m.active[id];
    CommitsInv(m);
    if HasConflict(m.store, tx) {
      var j: nat :| j < |tx.writes| && LatestTs(m.store, tx.writes[j].key) > tx.startTs;
      var key := tx.writes[j].key;
      assert WriteOk(tx.writes[j]);
      LatestTsCorrect(m.store, m.commits, key, 0);
      var i := VersionCommitted(m.commits, key, LatestTs(m.store, key));
      assert Overwrites(m, id, i, key);
    }
    if Overwritten(m, id) {
      var i: nat, key :| Overwrites(m, id, i, key);
      var j: nat :| j < |tx.writes| && tx.writes[j].key == key;
      assert WriteOk(tx.writes[j]);
      CommittedVersion(m.commits, i, key);
      LatestTsCorrect(m.store, m.commits, key, m.commits[i].ts);
    }
  }

  lemma CommitsInv(m: Manager)
    requires Inv(m)
    ensures CommitsOk(m.commits, U64_LIMIT) && StoreInv(m.store, m.commits)
  {
    assert CommitsOk(m.commits, m.nextTs);
  }

  /** Which answer a commit gives, exactly. */
  lemma CommitDecision(m: Manager, id: nat)
    requires Inv(m)
    ensures CommitTx(m, id).0 == if id !in m.active then Aborted else if Overwritten(m, id) then Conflict else OK
  {
    hide HasConflict, PutAll, Overwritten;
    if id in m.active { ConflictIsOverwrite(m, id); }
  }

  /** A refused commit and an abort leave the committed data alone; either way the transaction is over and no other is touched. */
  lemma EndsAlone(m: Manager, id: nat, other: nat)
    requires Inv(m)
    ensures var (st, m') := CommitTx(m, id);
            && (st != OK ==> m'.store == m.store && m'.commits == m.commits && m'.nextTs == m.nextTs)
            && id !in m'.active
            && (other != id ==> (other in m'.active <==> other in m.active) && (other in m.active ==> m'.active[other] == m.active[other]))
    ensures var m' := AbortTx(m, id);
            && m'.store == m.store && m'.commits == m.commits && m'.nextTs == m.nextTs
            && id !in m'.active
            && (other != id ==> (other in m'.active <==> other in m.active) && (other in m.active ==> m'.active[other] == m.active[other]))
  {
    hide HasConflict, PutAll, Inv;
  }

  /** Every commit is at or below the newest timestamp handed out, so the snapshot there is the whole history. */
  lemma {:induction false} WholeHistory(cs: seq<Commit>, bound: nat, a: nat, b: nat)
    requires CommitsOk(cs, bound) && bound <= a + 1 && bound <= b + 1
    ensures Snapshot(cs, a) == Snapshot(cs, b)
    decreases |cs|
  {
    hide WritesOk, ApplyWrites;
    if cs != [] { WholeHistory(cs[..|cs| - 1], bound, a, b); }
  }

  /** A commit that answers OK applies exactly its write set to the newest state of the database. */
  lemma CommitApplies(m: Manager, id: nat)
    requires Inv(m) && CommitTx(m, id).0 == OK
    ensures var m' := CommitTx(m, id).1;
            && m'.nextTs == m.nextTs + 1
            && Snapshot(m'.commits, m.nextTs) == ApplyWrites(Snapshot(m.commits, m.nextTs - 1), m.active[id].writes)
  {
    hide HasConflict, PutAll, StoreInv, ApplyWrites, Isolated, CommitsOk;
    var m' := CommitTx(m, id).1;
    assert m'.commits[..|m.commits|] == m.commits;
    WholeHistory(m.commits, m.nextTs, m.nextTs, m.nextTs - 1);
  }

  /** Read at the commit's timestamp, the store shows the transaction's own writes and otherwise what it showed before. */
  lemma CommitIsRead(m: Manager, id: nat, key: Bytes)
    requires Inv(m) && m.nextTs + 1 < U64_LIMIT && CommitTx(m, id).0 == OK && KeyOk(key)
    ensures var m' := CommitTx(m, id).1;
            var ws := m.active[id].writes;
            var w := FindWrite(ws, key);
            StoreGet(m'.store, key, m.nextTs) ==
              if w.None? then StoreGet(m.store, key, m.nextTs - 1) else if ws[w.value].isDelete then None else Some(ws[w.value].value)
  {
    hide HasConflict, PutAll, StoreInv, ApplyWrites, Isolated, CommitsOk, Snapshot, StoreGet, FindWrite, KeyOk, WritesOk;
    CommitKeeps(m, id);
    CommitsInv(m);
    CommitsInv(CommitTx(m, id).1);
    CommitApplies(m, id);
    StoreGetCorrect(m.store, m.commits, key, m.nextTs - 1);
    StoreGetCorrect(CommitTx(m, id).1.store, CommitTx(m, id).1.commits, key, m.nextTs);
    ApplyWritesAt(Snapshot(m.commits, m.nextTs - 1), m.active[id].writes, key);
  }

  // ---- Begin ----

  /** With room in the table, a transaction begins with nothing written and reads the newest state of the database. */
  lemma BeginReads(m: Manager, key: Bytes)
    requires Inv(m) && m.nextTs + 1 < U64_LIMIT && |m.active| < m.capacity && KeyOk(key)
    ensures var m' := Begin(m);
            && m.nextId !in m.active && m'.active.Keys == m.active.Keys + {m.nextId} && m'.active[m.nextId].writes == []
            && m'.nextTs == m.nextTs + 1 && m'.active[m.nextId].startTs < U64_LIMIT
            && (forall i :: 0 <= i < |m.commits| ==> m.commits[i].ts < m'.active[m.nextId].startTs)
            && Get(m', m.nextId, key) == StoreGet(m.store, key, m.nextTs - 1)
  {
    hide StoreInv, Isolated, Snapshot, StoreGet, WritesOk, KeyOk, MaxTs, MaxId;
    CommitsInv(m);
    WholeHistory(m.commits, m.nextTs, m.nextTs, m.nextTs - 1);
    StoreGetCorrect(m.store, m.commits, key, m.nextTs - 1);
    StoreGetCorrect(m.store, m.commits, key, m.nextTs);
  }

  /** What a commit wrote is what the next transaction to begin reads. */
  lemma NextReadsCommit(m: Manager, id: nat, key: Bytes)
    requires Inv(m) && m.nextTs + 2 < U64_LIMIT && |m.active| <= m.capacity && KeyOk(key) && CommitTx(m, id).0 == OK
    ensures var m1 := CommitTx(m, id).1;
            var m2 := Begin(m1);
            var ws := m.active[id].writes;
            var w := FindWrite(ws, key);
            && m1.nextId in m2.active && m2.active[m1.nextId].startTs < U64_LIMIT
            && Get(m2, m1.nextId, key) ==
                 if w.None? then StoreGet(m.store, key, m.nextTs - 1) else if ws[w.value].isDelete then None else Some(ws[w.value].value)
  {
    hide HasConflict, PutAll, Inv, StoreGet, FindWrite, KeyOk;
    CommitKeeps(m, id);
    CommitIsRead(m, id, key);
    CommitRoom(m, id);
    BeginReads(CommitTx(m, id).1, key);
  }

  lemma CommitRoom(m: Manager, id: nat)
    requires m.nextTs < U64_LIMIT && CommitTx(m, id).0 == OK
    ensures id in m.active && |CommitTx(m, id).1.active| == |m.active| - 1
    ensures CommitTx(m, id).1.nextTs == m.nextTs + 1 && CommitTx(m, id).1.capacity == m.capacity
  {
    hide HasConflict, PutAll;
    assert (m.active - {id}).Keys == m.active.Keys - {id};
  }

  /** Closing and reopening loses the running transactions and nothing that was committed. */
  lemma ReopenReads(m: Manager, key: Bytes)
    requires Inv(m) && KeyOk(key)
    ensures var m' := Reopen(m);
            && m'.active == map[] && m'.nextTs == m.nextTs && m'.nextId == m.nextId
            && StoreGet(m'.store, key, m'.nextTs - 1) == StoreGet(m.store, key, m.nextTs - 1)
  {
    hide StoreInv, Isolated, StoreGet, WritesOk, KeyOk, ActiveOk;
  }
}
