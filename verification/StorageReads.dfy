/**
 Reading a key through the memtable and the levels, and what flushes change about it.
 */
module StorageReads {
  import opened Bytes
  import opened StorageWal
  import opened StorageLog
  import opened LsmMerge
  import opened LsmLevels
  import opened LsmManager
  import opened LsmReads
  import opened SstBlock
  import opened LsmLevelManager

  /** The memtable in front of the levels. */
  datatype Db = Db(table: Memtable, files: Manager)

  datatype GetResult = Hit(value: Bytes) | Absent | BadKey

  /** A live cell answers at once; for a key that is absent or marked deleted the levels are asked. */
  function Get(db: Db, key: Bytes): GetResult
  {
    if key == [] then BadKey
    else if key in db.table && !db.table[key].deleted then Hit(db.table[key].value)
    else if Visible(Answer(db.files.levels, key)) != [] then Hit(Visible(Answer(db.files.levels, key))[0])
    else Absent
  }

  /** What the updates mean: the memtable's cell counts if there is one, a tombstone included. */
  function Meant(db: Db, key: Bytes): GetResult
  {
    if key == [] then BadKey
    else if key in db.table then (if db.table[key].deleted then Absent else Hit(db.table[key].value))
    else if Visible(Answer(db.files.levels, key)) != [] then Hit(Visible(Answer(db.files.levels, key))[0])
    else Absent
  }

  /** A read goes wrong exactly for a key deleted in the memtable that the levels still show. */
  predicate Resurrected(db: Db, key: Bytes)
  {
    key != [] && key in db.table && db.table[key].deleted && Visible(Answer(db.files.levels, key)) != []
  }

  lemma GetExactly(db: Db, key: Bytes)
    ensures Get(db, key) == Meant(db, key) <==> !Resurrected(db, key)
    ensures Resurrected(db, key) ==> Get(db, key).Hit? && Meant(db, key) == Absent
  {
  }

  // ---- Flushing ----

  /** The memtable's cells in key order, as its iterator yields them. */
  ghost predicate Lists(es: seq<Entry>, table: Memtable)
  {
    && Ascending(es)
    && (forall i: nat :: i < |es| ==> es[i].key in table && table[es[i].key] == Cell(es[i].value, es[i].deleted))
    && forall key :: key in table ==> exists i: nat :: i < |es| && es[i].key == key
  }

  /** The entries become the newest file of the first level and the memtable is emptied; an empty memtable is left alone. */
  function Flushed(db: Db, es: seq<Entry>): Db
    requires |db.files.levels| > 0
  {
    if es == [] then db
    else Db(map[], Manager(db.files.levels[0 := db.files.levels[0] + [File(db.files.next, es)]], db.files.next + 1))
  }

  lemma ListedLookup(es: seq<Entry>, table: Memtable, key: Bytes)
    requires Lists(es, table)
    ensures key in table ==> Lookup(es, key) != NotFound && Visible(Lookup(es, key)) == if table[key].deleted then [] else [table[key].value]
    ensures key !in table ==> Lookup(es, key) == NotFound
  {
    hide Lookup, Ascending;
    LookupMisses(es, key);
    if key in table {
      var i: nat :| i < |es| && es[i].key == key;
      LookupFinds(es, i);
    }
  }

  /** A flush changes nothing about what the updates mean, and right after it every read is right. */
  lemma FlushMeans(db: Db, es: seq<Entry>, key: Bytes)
    requires |db.files.levels| > 0 && Lists(es, db.table)
    ensures var db' := Flushed(db, es);
            Meant(db', key) == Meant(db, key) && Get(db', key) == Meant(db, key)
  {
    hide Answer, Lookup, Lists;
    ListedLookup(es, db.table, key);
    if es == [] {
      EmptyTable(es, db.table, key);
    } else {
      FlushReads(db.files, File(db.files.next, es), key);
    }
  }

  lemma EmptyTable(es: seq<Entry>, table: Memtable, key: Bytes)
    requires Lists(es, table) && es == []
    ensures key !in table
  {
  }

  // ---- Runs of updates and flushes ----

  datatype Act = Do(op: Op) | Flush

  /** `dbs` are the states of a run of updates and flushes from an empty database; compaction is a matter of the levels alone. */
  ghost predicate Run(acts: seq<Act>, dbs: seq<Db>)
  {
    && |dbs| == |acts| + 1
    && dbs[0] == Db(map[], Manager(seq(MAX_LEVELS, _ => []), 1))
    && forall i: nat :: i < |acts| ==> Steps(acts[i], dbs[i], dbs[i + 1])
  }

  ghost predicate Steps(act: Act, db: Db, db': Db)
  {
    && |db.files.levels| > 0
    && match act
       case Do(op) => db' == Db(MemApply(db.table, op).table, db.files)
       case Flush => exists es :: Lists(es, db.table) && db' == Flushed(db, es)
  }

  /** The last update of a key decides what it should read as. */
  function Latest(acts: seq<Act>, key: Bytes): GetResult
  {
    if key == [] then BadKey
    else if acts == [] then Absent
    else
      var act := acts[|acts| - 1];
      if act.Do? && act.op.key == key then (if act.op.Put? then Hit(act.op.value) else Absent)
      else Latest(acts[..|acts| - 1], key)
  }

  /** The database means what the updates say, whenever it was flushed. */
  lemma {:induction false} RunMeans(acts: seq<Act>, dbs: seq<Db>, key: Bytes)
    requires Run(acts, dbs)
    ensures Meant(dbs[|acts|], key) == Latest(acts, key)
    decreases |acts|
  {
    hide Answer, Flushed, Lists;
    if acts == [] {
      NothingThere(key);
    } else {
      var n := |acts| - 1;
      RunFront(acts, dbs);
      RunMeans(acts[..n], dbs[..n + 1], key);
      assert Steps(acts[n], dbs[n], dbs[n + 1]);
      if acts[n].Flush? {
        var es :| Lists(es, dbs[n].table) && dbs[n + 1] == Flushed(dbs[n], es);
        FlushMeans(dbs[n], es, key);
      }
    }
  }

  lemma RunFront(acts: seq<Act>, dbs: seq<Db>)
    requires Run(acts, dbs) && acts != []
    ensures Run(acts[..|acts| - 1], dbs[..|acts|])
  {
    hide Steps;
    var n := |acts| - 1;
    forall i: nat | i < n ensures Steps(acts[..n][i], dbs[..n + 1][i], dbs[..n + 1][i + 1]) {
      assert Steps(acts[i], dbs[i], dbs[i + 1]);
    }
  }

  lemma NothingThere(key: Bytes)
    ensures var db := Db(map[], Manager(seq(MAX_LEVELS, _ => []), 1));
            Meant(db, key) == if key == [] then BadKey else Absent
  {
    NoFiles(seq(MAX_LEVELS, _ => []), key);
  }

  lemma {:induction false} NoFiles(levels: seq<Files>, key: Bytes)
    requires forall i: nat :: i < |levels| ==> levels[i] == []
    ensures Answer(levels, key) == NotFound
    decreases |levels|
  {
    if levels != [] {
      assert levels[0] == [];
      NoFiles(levels[1..], key);
    }
  }

  /** The key was deleted after the last flush and had a value when that flush was made. */
  predicate DeletedSinceFlush(acts: seq<Act>, key: Bytes)
  {
    && key != [] && acts != []
    && var act := acts[|acts| - 1];
       && act.Do?
       && if act.op.key != key then DeletedSinceFlush(acts[..|acts| - 1], key)
          else act.op.Delete? && AtLastFlush(acts, key).Hit?
  }

  /** What the key should read as at the last flush; absent when there was none. */
  function AtLastFlush(acts: seq<Act>, key: Bytes): GetResult
  {
    if acts == [] then Absent
    else if acts[|acts| - 1].Flush? then Latest(acts, key)
    else AtLastFlush(acts[..|acts| - 1], key)
  }

  /** What the levels show is what was meant at the last flush. */
  lemma {:induction false} LevelsShow(acts: seq<Act>, dbs: seq<Db>, key: Bytes)
    requires Run(acts, dbs) && key != []
    ensures var seen := Visible(Answer(dbs[|acts|].files.levels, key));
            (seen != []) == AtLastFlush(acts, key).Hit?
    ensures key in dbs[|acts|].table && dbs[|acts|].table[key].deleted && AtLastFlush(acts, key).Hit? <==> DeletedSinceFlush(acts, key)
    decreases |acts|
  {
    hide Answer, Flushed, Lists;
    if acts == [] {
      NoFiles(dbs[0].files.levels, key);
    } else {
      var n := |acts| - 1;
      RunFront(acts, dbs);
      LevelsShow(acts[..n], dbs[..n + 1], key);
      assert Steps(acts[n], dbs[n], dbs[n + 1]);
      if acts[n].Flush? {
        RunMeans(acts, dbs, key);
        var es :| Lists(es, dbs[n].table) && dbs[n + 1] == Flushed(dbs[n], es);
        FlushEmpties(dbs[n], es);
      }
    }
  }

  lemma FlushEmpties(db: Db, es: seq<Entry>)
    requires |db.files.levels| > 0 && Lists(es, db.table)
    ensures Flushed(db, es).table == map[]
  {
    if es == [] {
      forall key ensures key !in db.table { EmptyTable(es, db.table, key); }
    }
  }

  /** A read returns the last value put, or nothing after a delete, except exactly for a key deleted since the last flush that had a value there. */
  lemma ReadsExactly(acts: seq<Act>, dbs: seq<Db>, key: Bytes)
    requires Run(acts, dbs)
    ensures Get(dbs[|acts|], key) == Latest(acts, key) <==> !DeletedSinceFlush(acts, key)
  {
    hide Answer, Latest, AtLastFlush, Steps;
    RunMeans(acts, dbs, key);
    GetExactly(dbs[|acts|], key);
    if key != [] { LevelsShow(acts, dbs, key); }
  }

  /** The shortest instance: put, flush, delete, and the value is back. */
  lemma DeletedKeyReturns(key: Bytes, value: Bytes) returns (dbs: seq<Db>)
    requires key != []
    ensures var acts := [Do(Put(key, value)), Flush, Do(Delete(key))];
            Run(acts, dbs) && Latest(acts, key) == Absent && Get(dbs[3], key) == Hit(value)
  {
    hide Answer, Lookup;
    var acts := [Do(Put(key, value)), Flush, Do(Delete(key))];
    var m0 := Manager(seq(MAX_LEVELS, _ => []), 1);
    var cell := Cell(value, false);
    var es := [Entry(key, value, false)];
    var d1 := Db(map[key := cell], m0);
    var d2 := Flushed(d1, es);
    dbs := [Db(map[], m0), d1, d2, Db(map[key := Cell([], true)], d2.files)];
    assert Lists(es, d1.table) by { assert es[0].key == key; }
    assert Steps(acts[0], dbs[0], dbs[1]) && Steps(acts[1], dbs[1], dbs[2]) && Steps(acts[2], dbs[2], dbs[3]);
    NoFiles(m0.levels, key);
    ListedLookup(es, d1.table, key);
    FlushReads(m0, File(1, es), key);
  }

  // ---- The storage object's reads ----

  class Database {
    var table: Memtable
    var files: LevelManager

    ghost function State(): Db
      reads this, files
    {
      Db(table, files.State())
    }

    ghost predicate Valid()
      reads this, files
    {
      LsmManager.Inv(files.State())
    }

    constructor (files: LevelManager)
      requires LsmManager.Inv(files.State())
      ensures Valid() && this.files == files && State() == Db(map[], files.State())
    {
      this.table, this.files := map[], files;
    }

    /** The memtable first, then the levels, whatever the memtable says about a deletion. */
    method GetKey(key: Bytes) returns (r: GetResult)
      requires Valid()
      ensures r == Get(State(), key)
    {
      if key == [] { return BadKey; }
      if key in table && !table[key].deleted { return Hit(table[key].value); }
      var found := files.Get(key);
      match found
      case Found(value, deleted) => return if deleted then Absent else Hit(value);
      case _ => return Absent;
    }

    /** `es` is what the memtable's iterator yields. */
    method FlushTable(es: seq<Entry>)
      requires Valid() && Lists(es, table) && [] !in table
      modifies this`table, files
      ensures Valid() && State() == Flushed(old(State()), es)
    {
      if es == [] { return; }
      files.Flush(es);
      table := map[];
    }
  }
}
