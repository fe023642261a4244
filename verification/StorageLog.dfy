/**
 The storage engine's logged memtable: every update goes to the log first, and reopening replays it.
 */
module StorageLog {
  import opened Bytes
  import opened StorageWal

  /** What a sequence of updates leaves in the memtable; refused updates leave nothing. */
  function Effect(ops: seq<Op>): Memtable
    decreases |ops|
  {
    if ops == [] then map[] else MemApply(Effect(ops[..|ops| - 1]), ops[|ops| - 1]).table
  }

  /** Update `i` is the last one of the key. */
  predicate LastOf(ops: seq<Op>, i: nat, key: Bytes)
  {
    i < |ops| && ops[i].key == key && forall j: nat :: i < j < |ops| ==> ops[j].key != key
  }

  /** A key shows its last put, is deleted if its last update was a delete, and is absent if it was never updated. */
  lemma {:induction false} EffectShows(ops: seq<Op>, i: nat, key: Bytes)
    requires key != []
    ensures LastOf(ops, i, key) && ops[i].Put? ==> key in Effect(ops) && Effect(ops)[key] == Cell(ops[i].value, false)
    ensures LastOf(ops, i, key) && ops[i].Delete? ==> key in Effect(ops) && Effect(ops)[key].deleted
    ensures (forall j: nat :: j < |ops| ==> ops[j].key != key) ==> key !in Effect(ops)
    decreases |ops|
  {
    if ops != [] {
      var front := ops[..|ops| - 1];
      EffectShows(front, i, key);
      assert forall j: nat :: j < |front| ==> front[j] == ops[j];
    }
  }

  /** The empty key is never there, and a deleted key keeps the value it had. */
  lemma {:induction false} EffectKeeps(ops: seq<Op>, key: Bytes)
    ensures [] !in Effect(ops)
    ensures key in Effect(ops) ==> Effect(ops + [Delete(key)]) == Effect(ops)[key := Cell(Effect(ops)[key].value, true)]
    decreases |ops|
  {
    if ops != [] { EffectKeeps(ops[..|ops| - 1], key); }
    assert (ops + [Delete(key)])[..|ops|] == ops;
  }

  lemma {:induction false} ApplyAllSnoc(mt: Memtable, ops: seq<Op>, op: Op)
    requires MemApplyAll(mt, ops).status == Ok
    ensures MemApplyAll(mt, ops + [op]) == MemApply(MemApplyAll(mt, ops).table, op)
    decreases |ops|
  {
    hide MemApply;
    if ops == [] {
      assert (ops + [op])[1..] == [];
    } else {
      assert (ops + [op])[1..] == ops[1..] + [op];
      ApplyAllSnoc(MemApply(mt, ops[0]).table, ops[1..], op);
    }
  }

  lemma {:induction false} EffectWhenNamed(ops: seq<Op>)
    requires AllNamed(ops)
    ensures MemApplyAll(map[], ops) == Outcome(Ok, Effect(ops))
    decreases |ops|
  {
    if ops != [] {
      var front, last := ops[..|ops| - 1], ops[|ops| - 1];
      EffectWhenNamed(front);
      ApplyAllSnoc(map[], front, last);
      assert ops == front + [last];
    }
  }

  lemma EffectSnoc(ops: seq<Op>, op: Op)
    ensures Effect(ops + [op]) == MemApply(Effect(ops), op).table
  {
    hide MemApply;
    assert (ops + [op])[..|ops|] == ops;
  }

  lemma {:induction false} LogAppend(a: seq<Op>, b: seq<Op>, crc: Crc)
    ensures Log(a + b, crc) == Log(a, crc) + Log(b, crc)
    decreases |a|
  {
    hide Record;
    if a == [] {
      assert a + b == b;
    } else {
      assert (a + b)[1..] == a[1..] + b;
      LogAppend(a[1..], b, crc);
    }
  }

  lemma LogAlone(op: Op, crc: Crc)
    ensures Log([op], crc) == Record(op, crc)
  {
    hide Record;
    assert [op][1..] == [];
  }

  lemma LogSnoc(ops: seq<Op>, op: Op, crc: Crc)
    ensures Log(ops + [op], crc) == Log(ops, crc) + Record(op, crc)
  {
    hide Record;
    LogAppend(ops, [op], crc);
    LogAlone(op, crc);
  }

  /** The recovery loop over the bytes of a log file. */
  method Recover(file: Bytes, mt0: Memtable, crc: Crc) returns (status: Status, mt: Memtable)
    ensures Outcome(status, mt) == Replay(file, mt0, crc)
  {
    mt := mt0;
    var rest := file;
    while true
      invariant Replay(rest, mt, crc) == Replay(file, mt0, crc)
      decreases |rest|
    {
      hide ReadNext, Deliver;
      var n := ReadNext(rest, crc);
      if n.Stop? { return Ok, mt; }
      if n.Bad? { return n.status, mt; }
      var r := Deliver(mt, n.kind, n.key, n.valueLength, n.tail);
      mt := r.table;
      if r.status != Ok { return r.status, mt; }
      rest := n.rest;
    }
  }

  class Storage {
    const crc: Crc
    var log: Bytes
    var memtable: Memtable
    ghost var ops: seq<Op>

    /** The memtable answers for the updates; the file may hold a torn record. */
    ghost predicate Live()
      reads this
    {
      memtable == Effect(ops)
    }

    /** Moreover the file is exactly the log of the updates, and no record length wrapped. */
    ghost predicate Valid()
      reads this
    {
      Live() && log == Log(ops, crc) && AllFit(ops)
    }

    constructor (crc: Crc)
      ensures Valid() && ops == [] && this.crc == crc
    {
      this.crc, log, memtable, ops := crc, [], map[], [];
    }

    /** Fill the record buffer piece by piece and append it to the file. */
    method WriteRecord(op: Op)
      modifies this`log
      ensures log == old(log) + Record(op, crc)
    {
      hide U32;
      var body: Bytes := [TypeOf(op)];
      body := body + U32(|op.key|);
      body := body + op.key;
      body := body + U32(|ValueOf(op)|);
      body := body + ValueOf(op);
      assert body == Body(op);
      var buf := U32(CRC_SIZE + |body|);
      buf := buf + U32(crc(body));
      buf := buf + body;
      log := log + buf;
    }

    /** An update: the record is written before the memtable can refuse the key. */
    method Update(op: Op) returns (status: Status)
      requires Live()
      modifies this
      ensures Live() && (Valid() <==> old(Valid()) && Fits(op))
      ensures ops == old(ops) + [op]
      ensures log == old(log) + Record(op, crc)
      ensures status == if op.key == [] then InvalidArg else Ok
      ensures memtable == MemApply(old(memtable), op).table
      ensures op.key == [] ==> memtable == old(memtable)
    {
      hide Record, Log, Effect;
      WriteRecord(op);
      var r := MemApply(memtable, op);
      memtable := r.table;
      EffectSnoc(ops, op);
      LogSnoc(ops, op, crc);
      ghost var r0 := Record(op, crc);
      assert old(log) == log[..|log| - |r0|] && Log(ops, crc) == Log(ops + [op], crc)[..|Log(ops + [op], crc)| - |r0|];
      assert Fits((ops + [op])[|ops|]) <==> Fits(op);
      assert forall i: nat :: i < |ops| ==> (ops + [op])[i] == ops[i];
      ops := ops + [op];
      return r.status;
    }

    /**
     Closing, losing the file from byte `cut` on, and opening again: the log is replayed into a new memtable,
     and later records go behind whatever the file holds.  A torn record stays in the file.
     */
    method Reopen(cut: nat) returns (status: Status)
      requires cut <= |log|
      modifies this
      ensures log == old(log)[..cut]
      ensures Outcome(status, memtable) == Replay(log, map[], crc)
      ensures old(Valid()) ==> ops == old(ops[..Whole(ops, cut, crc)])
      ensures old(Valid()) ==> (status == Ok <==> AllNamed(ops))
      ensures old(Valid()) && status == Ok ==> Live() && (Valid() <==> cut == |Log(ops, crc)|)
      ensures old(Valid()) && status == Ok && cut == old(|log|) ==> memtable == old(memtable)
    {
      hide Record, Log, Effect, Replay, Whole, MemApplyAll;
      log := log[..cut];
      status, memtable := Recover(log, map[], crc);
      if old(Valid()) {
        ghost var was := ops;
        ops := ops[..Whole(ops, cut, crc)];
        PrefixRecovery(was, cut, map[], crc);
        AppliesWhenNamed(map[], ops);
        if AllNamed(ops) { EffectWhenNamed(ops); }
        WholeExactly(was, cut, crc, |was|);
        assert was[..|was|] == was;
        LogAppend(ops, was[|ops|..], crc);
        assert was == ops + was[|ops|..];
      }
    }
  }
}
