/**
 Appending to a log that was cut: when the updates made after reopening are recovered the next time.
 */
module StorageTear {
  import opened Bytes
  import opened StorageWal
  import opened StorageLog

  /** Whole records in front of any file replay as their operations, and the file after them. */
  lemma {:induction false} ReplayBehind(ops: seq<Op>, file: Bytes, mt: Memtable, crc: Crc)
    requires AllFit(ops)
    ensures var o := MemApplyAll(mt, ops);
            Replay(Log(ops, crc) + file, mt, crc) == if o.status == Ok then Replay(file, o.table, crc) else o
    decreases |ops|
  {
    hide Record, ReadNext, Deliver, MemApply;
    if ops == [] {
      assert Log(ops, crc) + file == file;
    } else {
      var r, rest := Record(ops[0], crc), Log(ops[1..], crc);
      assert Log(ops, crc) + file == r + (rest + file);
      ReadWhole(ops[0], rest + file, crc);
      DeliverWhole(mt, ops[0]);
      ReplayBehind(ops[1..], file, MemApply(mt, ops[0]).table, crc);
    }
  }

  // ---- What a file cannot contain ----

  /** The two tables hold the same cell for the key, or none. */
  predicate SameCell(a: Memtable, b: Memtable, key: Bytes)
  {
    (key in a <==> key in b) && (key in a ==> a[key] == b[key])
  }

  /** Where a record's parts lie in the file. */
  lemma ReadParts(file: Bytes, crc: Crc)
    requires ReadNext(file, crc).Found?
    ensures var n := ReadNext(file, crc);
            && 17 + |n.key| + |n.rest| <= |file|
            && |n.key| == FromLittleEndian(file[9..13])
            && n.key == file[13..13 + |n.key|]
            && FromLittleEndian(file[..4]) >= MIN_RECORD
            && |n.rest| == |file| - 4 - FromLittleEndian(file[..4])
  {
    hide FromLittleEndian;
    var len := FromLittleEndian(file[..4]);
    var body := file[4..4 + len][4..];
    assert body == file[8..4 + len];
    var klen := FromLittleEndian(body[1..5]);
    assert body[1..5] == file[8..4 + len][1..5] == file[9..13];
    assert ParseBody(body, file[4 + len..]).Found?;
    assert 9 + klen <= |body|;
    assert body[5..5 + klen] == file[8..4 + len][5..5 + klen] == file[13..13 + klen];
  }

  lemma DeliverElsewhere(mt: Memtable, n: Next, key: Bytes)
    requires n.Found? && n.key != key
    ensures SameCell(mt, Deliver(mt, n.kind, n.key, n.valueLength, n.tail).table, key)
  {
  }

  /** A file too short for a record of the key leaves the key's cell alone. */
  lemma {:induction false} ShortFile(file: Bytes, mt: Memtable, crc: Crc, key: Bytes)
    requires |file| < 17 + |key|
    ensures SameCell(mt, Replay(file, mt, crc).table, key)
    decreases |file|
  {
    hide ReadNext, Deliver;
    var n := ReadNext(file, crc);
    if n.Found? {
      ReadParts(file, crc);
      DeliverElsewhere(mt, n, key);
      ShortFile(n.rest, Deliver(mt, n.kind, n.key, n.valueLength, n.tail).table, crc, key);
    }
  }

  // ---- The tear ----

  /** A key of another length than the torn record's, all of whose bytes are 1. */
  function LostKey(torn: Op): (key: Bytes)
    ensures 13 <= |key| <= 14 && |key| != |torn.key|
    ensures forall i :: 0 <= i < |key| ==> key[i] == 1
  {
    seq(if |torn.key| == 13 then 14 else 13, i => 1)
  }

  lemma SmallLength(n: nat)
    requires n < 256
    ensures U32(n)[3] == 0
  {
    assert LittleEndian(0, 1) == [0];
    assert LittleEndian(0, 2) == [0] + LittleEndian(0, 1);
    assert LittleEndian(0, 3) == [0] + LittleEndian(0, 2);
    assert LittleEndian(n, 4) == [n % 256] + LittleEndian(0, 3);
  }

  lemma RecordFields(op: Op, crc: Crc)
    ensures var r := Record(op, crc);
            r[..4] == U32(|r| - 4) && r[9..13] == U32(|op.key|)
  {
    hide Body, U32;
    BodyParts(op);
    var r, b := Record(op, crc), Body(op);
    assert r[..4] == U32(CRC_SIZE + |b|);
    assert r[8..] == b;
    assert r[9..13] == b[1..5];
  }

  /** The record read across the tear is not the one appended, and leaves too little for it behind. */
  lemma ReadAcross(torn: Op, t: nat, last: Op, crc: Crc)
    requires Fits(torn) && 0 < t < |Record(torn, crc)|
    requires last.key == LostKey(torn) && ValueOf(last) == []
    ensures var n := ReadNext(Record(torn, crc)[..t] + Record(last, crc), crc);
            n.Found? ==> n.key != last.key && |n.rest| < 17 + |last.key|
  {
    hide Record, ReadNext, U32, FromLittleEndian;
    var r, f := Record(torn, crc), Record(torn, crc)[..t] + Record(last, crc);
    var n := ReadNext(f, crc);
    if n.Found? {
      ReadParts(f, crc);
      RecordFields(torn, crc);
      RecordFields(last, crc);
      if t >= 4 {
        assert f[..4] == r[..4];
        U32RoundTrip(|r| - 4);
      }
      if t >= 13 {
        assert f[9..13] == r[9..13];
        U32RoundTrip(|torn.key|);
      } else if |n.key| == |last.key| {
        SmallLength(|last.key|);
        assert n.key[t - 1] == f[12 + t] == Record(last, crc)[12] == Record(last, crc)[9..13][3];
        assert n.key[t - 1] != last.key[t - 1];
      }
    }
  }

  /** An update of that key that changes its cell. */
  function LostUpdate(torn: Op, mt: Memtable): (op: Op)
    ensures op.key == LostKey(torn) && ValueOf(op) == [] && Fits(op)
    ensures !SameCell(mt, MemApply(mt, op).table, op.key)
  {
    var key := LostKey(torn);
    if key in mt && !mt[key].deleted then Delete(key) else Put(key, [])
  }

  /** Behind a torn record, whatever it is and wherever it was torn, that update is not replayed. */
  lemma TornReplay(torn: Op, t: nat, mt: Memtable, crc: Crc)
    requires Fits(torn) && 0 < t < |Record(torn, crc)|
    ensures var op := LostUpdate(torn, mt);
            SameCell(mt, Replay(Record(torn, crc)[..t] + Record(op, crc), mt, crc).table, op.key)
  {
    hide Record, ReadNext, Deliver;
    var op := LostUpdate(torn, mt);
    var f := Record(torn, crc)[..t] + Record(op, crc);
    ReadAcross(torn, t, op, crc);
    var n := ReadNext(f, crc);
    if n.Found? {
      DeliverElsewhere(mt, n, op.key);
      ShortFile(n.rest, Deliver(mt, n.kind, n.key, n.valueLength, n.tail).table, crc, op.key);
    }
  }

  // ---- When an append survives ----

  /** The log is cut, `more` is appended, and the next recovery delivers the whole records and `more`. */
  predicate Survives(ops: seq<Op>, cut: nat, crc: Crc, more: seq<Op>)
    requires cut <= |Log(ops, crc)|
  {
    Replay(Log(ops, crc)[..cut] + Log(more, crc), map[], crc) == Outcome(Ok, Effect(ops[..Whole(ops, cut, crc)] + more))
  }

  /** Every sequence of updates made after reopening the cut log is recovered. */
  ghost predicate AppendsSurvive(ops: seq<Op>, cut: nat, crc: Crc)
    requires cut <= |Log(ops, crc)|
  {
    forall more | AllFit(more) && AllNamed(more) :: Survives(ops, cut, crc, more)
  }

  lemma CutPieces(ops: seq<Op>, cut: nat, crc: Crc)
    requires cut <= |Log(ops, crc)|
    ensures var w := Whole(ops, cut, crc);
            var t := cut - |Log(ops[..w], crc)|;
            && t >= 0
            && (w == |ops| ==> t == 0)
            && (w < |ops| ==> t < |Record(ops[w], crc)|)
            && Log(ops, crc)[..cut] == Log(ops[..w], crc) + if w < |ops| then Record(ops[w], crc)[..t] else []
  {
    hide Record, Whole, Log;
    var w := Whole(ops, cut, crc);
    WholeExactly(ops, cut, crc, w);
    if w < |ops| {
      WholeExactly(ops, cut, crc, w + 1);
      SplitLog(ops, w, crc);
    } else {
      assert ops[..w] == ops;
    }
  }

  lemma SplitLog(ops: seq<Op>, w: nat, crc: Crc)
    requires w < |ops|
    ensures Log(ops[..w + 1], crc) == Log(ops[..w], crc) + Record(ops[w], crc)
    ensures Log(ops, crc) == Log(ops[..w], crc) + Record(ops[w], crc) + Log(ops[w + 1..], crc)
  {
    hide Record, Log;
    var front, upTo, behind := ops[..w], ops[..w + 1], ops[w + 1..];
    assert upTo == front + [ops[w]];
    LogSnoc(front, ops[w], crc);
    assert ops == upTo + behind;
    LogAppend(upTo, behind, crc);
  }

  lemma SurvivesOnBoundary(ops: seq<Op>, cut: nat, crc: Crc, more: seq<Op>)
    requires AllFit(ops) && AllFit(more) && AllNamed(more)
    requires cut <= |Log(ops, crc)| && cut == |Log(ops[..Whole(ops, cut, crc)], crc)|
    requires AllNamed(ops[..Whole(ops, cut, crc)])
    ensures Survives(ops, cut, crc, more)
  {
    hide Record, Replay, MemApplyAll, Effect, Whole;
    var kept := ops[..Whole(ops, cut, crc)];
    CutPieces(ops, cut, crc);
    assert Log(ops, crc)[..cut] == Log(kept, crc);
    LogAppend(kept, more, crc);
    var all := kept + more;
    ReplayBehind(all, [], map[], crc);
    assert Log(all, crc) + [] == Log(all, crc);
    EffectWhenNamed(all);
    ReplayEmpty(Effect(all), crc);
  }

  lemma ReplayEmpty(mt: Memtable, crc: Crc)
    ensures Replay([], mt, crc) == Outcome(Ok, mt)
  {
  }

  lemma LostBehindTear(ops: seq<Op>, cut: nat, crc: Crc)
    requires AllFit(ops) && cut <= |Log(ops, crc)| && cut != |Log(ops[..Whole(ops, cut, crc)], crc)|
    requires AllNamed(ops[..Whole(ops, cut, crc)])
    ensures var w := Whole(ops, cut, crc);
            w < |ops| && !Survives(ops, cut, crc, [LostUpdate(ops[w], Effect(ops[..w]))])
  {
    hide Record, Replay, MemApplyAll, MemApply, Effect, Whole, SameCell;
    CutPieces(ops, cut, crc);
    var w := Whole(ops, cut, crc);
    var kept, torn := ops[..w], ops[w];
    var mt := Effect(kept);
    var op, t := LostUpdate(torn, mt), cut - |Log(kept, crc)|;
    LogAlone(op, crc);
    var tail := Record(torn, crc)[..t] + Record(op, crc);
    assert Log(ops, crc)[..cut] + Log([op], crc) == Log(kept, crc) + tail;
    EffectWhenNamed(kept);
    ReplayBehind(kept, tail, map[], crc);
    TornReplay(torn, t, mt, crc);
    EffectSnoc(kept, op);
  }

  /** Updates made after reopening a cut log are recovered exactly when the cut fell between two records and the reopening succeeded. */
  lemma AppendSurvivesExactly(ops: seq<Op>, cut: nat, crc: Crc)
    requires AllFit(ops) && cut <= |Log(ops, crc)|
    ensures AppendsSurvive(ops, cut, crc) <==>
            AllNamed(ops[..Whole(ops, cut, crc)]) && cut == |Log(ops[..Whole(ops, cut, crc)], crc)|
  {
    hide Survives, Effect, Record, Log, Replay, Whole;
    var kept := ops[..Whole(ops, cut, crc)];
    if AppendsSurvive(ops, cut, crc) {
      RefusedStaysRefused(ops, cut, crc);
      if cut != |Log(kept, crc)| { LostBehindTear(ops, cut, crc); }
    } else if AllNamed(kept) && cut == |Log(kept, crc)| {
      forall more | AllFit(more) && AllNamed(more) ensures Survives(ops, cut, crc, more) {
        SurvivesOnBoundary(ops, cut, crc, more);
      }
    }
  }

  lemma RefusedStaysRefused(ops: seq<Op>, cut: nat, crc: Crc)
    requires AllFit(ops) && cut <= |Log(ops, crc)| && Survives(ops, cut, crc, [])
    ensures AllNamed(ops[..Whole(ops, cut, crc)])
  {
    hide Record, Replay, MemApplyAll, Effect, Whole;
    assert Log(ops, crc)[..cut] + Log([], crc) == Log(ops, crc)[..cut];
    RecoverySucceedsExactly(ops, cut, map[], crc);
  }
}
