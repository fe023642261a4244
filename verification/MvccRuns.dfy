/**
 Snapshot isolation over whole runs of the transaction manager.
 */
module MvccRuns {
  import opened Bytes
  import opened MvccKeys
  import opened MvccStore
  import opened MvccTx
  import opened MvccSnapshot

  // ---- The invariant ----

  predicate Writes(ws: seq<Write>, key: Bytes)
  {
    exists i :: 0 <= i < |ws| && ws[i].key == key
  }

  /** A commit that started before an earlier one finished shares no key with it. */
  predicate NoOverlap(a: Commit, b: Commit)
  {
    b.startTs < a.ts ==> forall i, j :: 0 <= i < |a.writes| && 0 <= j < |b.writes| ==> a.writes[i].key != b.writes[j].key
  }

  ghost predicate Isolated(cs: seq<Commit>)
  {
    forall i, j :: 0 <= i < j < |cs| ==> NoOverlap(cs[i], cs[j])
  }

  ghost predicate ActiveOk(m: Manager)
  {
    forall id: nat :: id in m.active ==> id < m.nextId && 1 <= m.active[id].startTs < m.nextTs && WritesOk(m.active[id].writes)
  }

  /** The log has seen every timestamp and id handed out. */
  predicate WalOk(m: Manager)
  {
    m.nextTs == MaxTs(m.wal) + 1 && m.nextId == MaxId(m.wal) + 1
  }

  ghost predicate Inv(m: Manager)
  {
    && m.nextTs < U64_LIMIT
    && StoreInv(m.store, m.commits) && CommitsOk(m.commits, m.nextTs)
    && ActiveOk(m) && WalOk(m) && Isolated(m.commits)
  }

  // ---- Steps keep it ----

  lemma MaxAppend(wal: seq<(nat, nat)>, r: (nat, nat))
    ensures MaxTs(wal + [r]) == if r.1 > MaxTs(wal) then r.1 else MaxTs(wal)
    ensures MaxId(wal + [r]) == if r.0 > MaxId(wal) then r.0 else MaxId(wal)
  {
    assert (wal + [r])[..|wal|] == wal;
  }

  lemma AddWriteOk(ws: seq<Write>, w: Write)
    requires WritesOk(ws) && WriteOk(w)
    ensures WritesOk(AddWrite(ws, w))
  {
  }

  lemma NothingWritten()
    ensures WritesOk([])
  {
  }

  lemma BeginKeeps(m: Manager)
    requires Inv(m) && m.nextTs + 1 < U64_LIMIT
    ensures Inv(Begin(m))
  {
    NothingWritten();
    hide StoreInv, WritesOk, Isolated;
    MaxAppend(m.wal, (m.nextId, m.nextTs));
  }

  lemma BufferKeeps(m: Manager, id: nat, w: Write)
    requires Inv(m) && WriteOk(w)
    ensures Inv(Buffer(m, id, w))
  {
    hide StoreInv, WriteOk, WritesOk, Isolated;
    if id in m.active { AddWriteOk(m.active[id].writes, w); }
  }

  lemma AbortKeeps(m: Manager, id: nat)
    requires Inv(m)
    ensures Inv(AbortTx(m, id))
  {
    hide StoreInv, WritesOk, Isolated;
    if id in m.active { MaxAppend(m.wal, (id, 0)); }
  }

  lemma ReopenKeeps(m: Manager)
    requires Inv(m)
    ensures Inv(Reopen(m))
  {
    hide StoreInv, WritesOk, Isolated;
  }

  /** The write that commit `i` made to one of its keys is found under its timestamp. */
  lemma {:induction false} CommittedVersion(cs: seq<Commit>, i: nat, key: Bytes)
    requires CommitsOk(cs, U64_LIMIT) && i < |cs| && Writes(cs[i].writes, key)
    ensures VersionOf(cs, key, cs[i].ts).Some?
    decreases |cs|
  {
    if i < |cs| - 1 {
      CommittedVersion(cs[..|cs| - 1], i, key);
    }
  }

  /** Passing the conflict check means: no earlier commit after our snapshot wrote any of our keys. */
  lemma CheckIsolates(m: Manager, tx: Tx, i: nat)
    requires Inv(m) && WritesOk(tx.writes) && !HasConflict(m.store, tx) && i < |m.commits|
    ensures NoOverlap(m.commits[i], Commit(tx.startTs, m.nextTs, tx.writes))
  {
    var a := m.commits[i];
    if tx.startTs < a.ts {
      forall x, y | 0 <= x < |a.writes| && 0 <= y < |tx.writes| ensures a.writes[x].key != tx.writes[y].key {
        var key := tx.writes[y].key;
        if a.writes[x].key == key {
          assert WriteOk(tx.writes[y]);
          CommittedVersion(m.commits, i, key);
          LatestTsCorrect(m.store, m.commits, key, a.ts);
          assert false;
        }
      }
    }
  }

  lemma CommitKeeps(m: Manager, id: nat)
    requires Inv(m) && m.nextTs + 1 < U64_LIMIT
    ensures Inv(CommitTx(m, id).1)
  {
    hide StoreInv, HasConflict, NoOverlap, PutAll, WritesOk;
    if id in m.active {
      var tx := m.active[id];
      if !HasConflict(m.store, tx) {
        var c := Commit(tx.startTs, m.nextTs, tx.writes);
        MaxAppend(m.wal, (id, m.nextTs));
        assert CommitsOk(m.commits + [c], m.nextTs + 1);
        CommitKeepsStore(m.store, m.commits, c);
        forall i | 0 <= i < |m.commits| ensures NoOverlap(m.commits[i], c) { CheckIsolates(m, tx, i); }
      }
    }
  }

  lemma StepKeeps(m: Manager, e: Event)
    requires Inv(m) && Allowed(m, e)
    ensures Inv(Step(m, e))
  {
    hide Inv, Begin, Buffer, CommitTx, AbortTx, Reopen, KeyOk;
    match e
    case EBegin => BeginKeeps(m);
    case EPut(id, k, v) => BufferKeeps(m, id, Write(k, v, false));
    case EDelete(id, k) => BufferKeeps(m, id, Write(k, [], true));
    case ECommit(id) => CommitKeeps(m, id);
    case EAbort(id) => AbortKeeps(m, id);
    case EReopen => ReopenKeeps(m);
  }

  lemma FreshOk(capacity: nat)
    ensures Inv(Fresh(capacity))
  {
  }

  lemma {:induction false} RunKeeps(capacity: nat, run: seq<Manager>, k: nat)
    requires Run(capacity, run) && k < |run|
    ensures Inv(run[k])
  {
    hide Inv, Step, Fresh, Allowed;
    if k == 0 {
      FreshOk(capacity);
    } else {
      RunKeeps(capacity, run, k - 1);
      assert StepsTo(run[k - 1], run[k]);
      var e :| Allowed(run[k - 1], e) && run[k] == Step(run[k - 1], e);
      StepKeeps(run[k - 1], e);
    }
  }

  // ---- Snapshot reads ----

  /** A transaction reads its own buffered write, else the state of the database at its start. */
  lemma SnapshotRead(capacity: nat, run: seq<Manager>, k: nat, id: nat, key: Bytes)
    requires Run(capacity, run) && k < |run| && id in run[k].active && KeyOk(key)
    ensures run[k].active[id].startTs < U64_LIMIT
    ensures var tx := run[k].active[id];
            var w := FindWrite(tx.writes, key);
            Get(run[k], id, key) ==
              if w.None? then At(Snapshot(run[k].commits, tx.startTs), key)
              else if tx.writes[w.value].isDelete then None
              else Some(tx.writes[w.value].value)
  {
    hide Snapshot, StoreGet, StoreInv, FindWrite, WritesOk, KeyOk, Isolated;
    RunKeeps(capacity, run, k);
    var m := run[k];
    StoreGetCorrect(m.store, m.commits, key, m.active[id].startTs);
  }

  /** Commits above a timestamp do not show in the snapshot at that timestamp. */
  lemma LaterCommit(cs: seq<Commit>, c: Commit, ts: nat)
    requires c.ts > ts
    ensures Snapshot(cs + [c], ts) == Snapshot(cs, ts)
  {
    assert (cs + [c])[..|cs|] == cs;
  }

  lemma StepKeepsSnapshot(m: Manager, e: Event, ts: nat)
    requires Inv(m) && Allowed(m, e) && ts < m.nextTs
    ensures ts < Step(m, e).nextTs && Snapshot(Step(m, e).commits, ts) == Snapshot(m.commits, ts)
  {
    hide Snapshot, StoreInv, HasConflict, PutAll, AddWrite;
    if e.ECommit? && e.id in m.active && !HasConflict(m.store, m.active[e.id]) {
      LaterCommit(m.commits, Commit(m.active[e.id].startTs, m.nextTs, m.active[e.id].writes), ts);
    }
  }

  /** The snapshot of a running transaction never changes, whatever the others do. */
  lemma {:induction false} SnapshotStable(capacity: nat, run: seq<Manager>, j: nat, k: nat, ts: nat)
    requires Run(capacity, run) && j <= k < |run| && ts < run[j].nextTs
    ensures ts < run[k].nextTs && Snapshot(run[k].commits, ts) == Snapshot(run[j].commits, ts)
    decreases k
  {
    hide Inv, Step, Fresh, Allowed, Snapshot;
    if j < k {
      SnapshotStable(capacity, run, j, k - 1, ts);
      RunKeeps(capacity, run, k - 1);
      assert StepsTo(run[k - 1], run[k]);
      var e :| Allowed(run[k - 1], e) && run[k] == Step(run[k - 1], e);
      StepKeepsSnapshot(run[k - 1], e, ts);
    }
  }

  /** Ids are handed out once: an id seen before and still active is the same transaction. */
  lemma {:induction false} SameTransaction(capacity: nat, run: seq<Manager>, j: nat, k: nat, id: nat)
    requires Run(capacity, run) && j <= k < |run| && id < run[j].nextId
    ensures run[j].nextId <= run[k].nextId
    ensures id in run[k].active ==> id in run[j].active && run[j].active[id].startTs == run[k].active[id].startTs
    decreases k
  {
    hide Inv, Fresh, HasConflict, PutAll, AddWrite, MaxTs, MaxId;
    if j < k {
      SameTransaction(capacity, run, j, k - 1, id);
      RunKeeps(capacity, run, k - 1);
      NextIdLogged(run[k - 1]);
      assert StepsTo(run[k - 1], run[k]);
      var e :| Allowed(run[k - 1], e) && run[k] == Step(run[k - 1], e);
    }
  }

  lemma NextIdLogged(m: Manager)
    requires Inv(m)
    ensures m.nextId == MaxId(m.wal) + 1 && forall id: nat :: id in m.active ==> id < m.nextId
  {
  }

  /**
   Repeatable reads: at any two moments of its life at which a transaction has not itself written
   `key`, it reads the same value.
   */
  lemma RepeatableRead(capacity: nat, run: seq<Manager>, j: nat, k: nat, id: nat, key: Bytes)
    requires Run(capacity, run) && j <= k < |run| && KeyOk(key)
    requires id in run[j].active && id in run[k].active
    requires FindWrite(run[j].active[id].writes, key).None? && FindWrite(run[k].active[id].writes, key).None?
    ensures run[j].active[id].startTs < U64_LIMIT && run[k].active[id].startTs < U64_LIMIT
    ensures Get(run[j], id, key) == Get(run[k], id, key)
  {
    hide Snapshot, StoreGet, StoreInv, FindWrite, Isolated, WritesOk, KeyOk;
    RunKeeps(capacity, run, j);
    SameTransaction(capacity, run, j, k, id);
    SnapshotRead(capacity, run, j, id, key);
    SnapshotRead(capacity, run, k, id, key);
    SnapshotStable(capacity, run, j, k, run[j].active[id].startTs);
  }

  // ---- First committer wins ----

  /** Two commits, each begun before the other committed, wrote disjoint sets of keys. */
  lemma FirstCommitterWins(capacity: nat, run: seq<Manager>, k: nat, a: nat, b: nat, key: Bytes)
    requires Run(capacity, run) && k < |run| && a < |run[k].commits| && b < |run[k].commits| && a != b
    requires run[k].commits[a].startTs < run[k].commits[b].ts && run[k].commits[b].startTs < run[k].commits[a].ts
    ensures !(Writes(run[k].commits[a].writes, key) && Writes(run[k].commits[b].writes, key))
  {
    hide StoreInv, WritesOk;
    RunKeeps(capacity, run, k);
    var cs := run[k].commits;
    assert if a < b then NoOverlap(cs[a], cs[b]) else NoOverlap(cs[b], cs[a]);
  }
}
