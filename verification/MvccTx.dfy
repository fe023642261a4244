/**
 The transaction manager: snapshot timestamps, buffered writes, commit with conflict check.
 Every API call is one atomic step.
 */
module MvccTx {
  import opened Bytes
  import opened MvccKeys
  import opened MvccStore

  datatype Write = Write(key: Bytes, value: Bytes, isDelete: bool)

  datatype Tx = Tx(startTs: nat, writes: seq<Write>)

  /** A successful commit, as history. */
  datatype Commit = Commit(startTs: nat, ts: nat, writes: seq<Write>)

  datatype Manager = Manager(
    nextId: nat,
    nextTs: nat,
    capacity: nat,
    store: Store,
    active: map<nat, Tx>,
    wal: seq<(nat, nat)>,       // (transaction id, timestamp) of the records written
    commits: seq<Commit>)       // history

  datatype Status = OK | NotFound | Conflict | Aborted

  // ---- Write sets ----

  function FindWrite(ws: seq<Write>, key: Bytes): (r: Option<nat>)
    ensures r.Some? ==> r.value < |ws| && ws[r.value].key == key
    ensures r.None? ==> forall i :: 0 <= i < |ws| ==> ws[i].key != key
  {
    if ws == [] then None
    else if ws[0].key == key then Some(0)
    else match FindWrite(ws[1..], key)
      case None => assert forall i :: 0 < i < |ws| ==> ws[i] == ws[1..][i - 1]; None
      case Some(i) => Some(i + 1)
  }

  /** One entry per key: a later write replaces an earlier one in place. */
  function AddWrite(ws: seq<Write>, w: Write): seq<Write>
  {
    match FindWrite(ws, w.key)
    case Some(i) => ws[i := w]
    case None => ws + [w]
  }

  // ---- Reading the store ----

  /** The loop of tx_get from iterator position `i`. */
  function GetFrom(s: Store, i: nat, key: Bytes, ts: nat): Option<Bytes>
    decreases |s| - i
  {
    if i >= |s| then None
    else match Decode(s[i].key)
      case Corrupt => GetFrom(s, i + 1, key, ts)
      case Versioned(k, v) =>
        if k != key then None
        else if v <= ts then (if s[i].value == [] then None else Some(s[i].value))
        else GetFrom(s, i + 1, key, ts)
  }

  function StoreGet(s: Store, key: Bytes, ts: nat): Option<Bytes>
    requires ts < U64_LIMIT
  {
    GetFrom(s, Seek(s, Encode(key, ts)), key, ts)
  }

  /** The version of the newest commit of `key`, 0 if there is none. */
  function LatestTs(s: Store, key: Bytes): nat
  {
    var i := Seek(s, Encode(key, MAX_VERSION));
    if i >= |s| then 0
    else match Decode(s[i].key)
      case Versioned(k, v) => if k == key then v else 0
      case Corrupt => 0
  }

  predicate HasConflict(s: Store, tx: Tx)
  {
    exists i :: 0 <= i < |tx.writes| && LatestTs(s, tx.writes[i].key) > tx.startTs
  }

  function StoredValue(w: Write): Bytes { if w.isDelete then [] else w.value }

  function PutAll(s: Store, ws: seq<Write>, ts: nat): Store
    requires ts < U64_LIMIT
  {
    if ws == [] then s
    else Put(PutAll(s, ws[..|ws| - 1], ts), Encode(ws[|ws| - 1].key, ts), StoredValue(ws[|ws| - 1]))
  }

  // ---- The API ----

  function Begin(m: Manager): Manager
  {
    if |m.active| >= m.capacity then m
    else m.(nextId := m.nextId + 1, nextTs := m.nextTs + 1,
            active := m.active[m.nextId := Tx(m.nextTs, [])], wal := m.wal + [(m.nextId, m.nextTs)])
  }

  function Buffer(m: Manager, id: nat, w: Write): Manager
  {
    if id !in m.active then m
    else m.(active := m.active[id := m.active[id].(writes := AddWrite(m.active[id].writes, w))])
  }

  function Get(m: Manager, id: nat, key: Bytes): Option<Bytes>
    requires id in m.active && m.active[id].startTs < U64_LIMIT
  {
    var tx := m.active[id];
    match FindWrite(tx.writes, key)
    case Some(i) => if tx.writes[i].isDelete then None else Some(tx.writes[i].value)
    case None => StoreGet(m.store, key, tx.startTs)
  }

  function CommitTx(m: Manager, id: nat): (Status, Manager)
    requires m.nextTs < U64_LIMIT
  {
    if id !in m.active then (Aborted, m)
    else
      var tx := m.active[id];
      if HasConflict(m.store, tx) then (Conflict, m.(active := m.active - {id}))
      else (OK, m.(nextTs := m.nextTs + 1, store := PutAll(m.store, tx.writes, m.nextTs), active := m.active - {id},
                   wal := m.wal + [(id, m.nextTs)], commits := m.commits + [Commit(tx.startTs, m.nextTs, tx.writes)]))
  }

  function AbortTx(m: Manager, id: nat): Manager
  {
    if id !in m.active then m else m.(active := m.active - {id}, wal := m.wal + [(id, 0)])
  }

  /** Highest id and timestamp among the log records. */
  function MaxId(wal: seq<(nat, nat)>): nat
  {
    if wal == [] then 0 else var r := MaxId(wal[..|wal| - 1]); if wal[|wal| - 1].0 > r then wal[|wal| - 1].0 else r
  }

  function MaxTs(wal: seq<(nat, nat)>): nat
  {
    if wal == [] then 0 else var r := MaxTs(wal[..|wal| - 1]); if wal[|wal| - 1].1 > r then wal[|wal| - 1].1 else r
  }

  /** Close and reopen, then recover the counters from the log. */
  function Reopen(m: Manager): Manager
  {
    m.(nextId := if MaxId(m.wal) >= 1 then MaxId(m.wal) + 1 else 1,
       nextTs := if MaxTs(m.wal) >= 1 then MaxTs(m.wal) + 1 else 1,
       active := map[])
  }

  function Fresh(capacity: nat): Manager
  {
    Manager(1, 1, capacity, [], map[], [], [])
  }

  // ---- Runs ----

  datatype Event =
    | EBegin
    | EPut(id: nat, key: Bytes, value: Bytes)
    | EDelete(id: nat, key: Bytes)
    | ECommit(id: nat)
    | EAbort(id: nat)
    | EReopen

  /** Keys are non-empty and NUL-free, values non-empty, and the 64-bit clock has room. */
  predicate Allowed(m: Manager, e: Event)
  {
    && m.nextTs + 1 < U64_LIMIT
    && match e
       case EPut(_, k, v) => KeyOk(k) && v != []
       case EDelete(_, k) => KeyOk(k)
       case _ => true
  }

  function Step(m: Manager, e: Event): Manager
    requires Allowed(m, e)
  {
    match e
    case EBegin => Begin(m)
    case EPut(id, k, v) => Buffer(m, id, Write(k, v, false))
    case EDelete(id, k) => Buffer(m, id, Write(k, [], true))
    case ECommit(id) => CommitTx(m, id).1
    case EAbort(id) => AbortTx(m, id)
    case EReopen => Reopen(m)
  }

  /** A run: states linked by allowed events, from a fresh database. */
  ghost predicate Run(capacity: nat, run: seq<Manager>)
  {
    && run != [] && run[0] == Fresh(capacity)
    && forall k :: 0 <= k < |run| - 1 ==> StepsTo(run[k], run[k + 1])
  }

  ghost predicate StepsTo(m: Manager, m': Manager)
  {
    exists e :: Allowed(m, e) && m' == Step(m, e)
  }

  // ---- What the store should hold ----

  /** The effect of one commit's writes on the key-value state. */
  function ApplyWrites(kv: map<Bytes, Bytes>, ws: seq<Write>): map<Bytes, Bytes>
  {
    if ws == [] then kv
    else
      var before := ApplyWrites(kv, ws[..|ws| - 1]);
      var w := ws[|ws| - 1];
      if w.isDelete then before - {w.key} else before[w.key := w.value]
  }

  /** The database at `ts`: replay, in order, exactly the commits with commit timestamp at most `ts`. */
  function Snapshot(cs: seq<Commit>, ts: nat): map<Bytes, Bytes>
  {
    if cs == [] then map[]
    else
      var before := Snapshot(cs[..|cs| - 1], ts);
      if cs[|cs| - 1].ts <= ts then ApplyWrites(before, cs[|cs| - 1].writes) else before
  }

  function At(kv: map<Bytes, Bytes>, k: Bytes): Option<Bytes>
  {
    if k in kv then Some(kv[k]) else None
  }
}
