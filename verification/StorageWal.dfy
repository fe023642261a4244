/**
 The storage engine's write-ahead log as a byte sequence: writing records, and replaying whatever
 prefix of the file survived.
 */
module StorageWal {
  import opened Bytes

  const LENGTH_SIZE: nat := 4
  const CRC_SIZE: nat := 4
  const MIN_RECORD: nat := 13
  const PUT: byte := 1
  const DELETE: byte := 2

  type u32 = v: nat | v < U32_LIMIT

  /** The checksum is some fixed function of the bytes. */
  type Crc = Bytes -> u32

  datatype Op = Put(key: Bytes, value: Bytes) | Delete(key: Bytes)

  datatype Status = Ok | InvalidArg | Corruption | OutOfBounds

  /** A memtable cell keeps its value when it is marked deleted. */
  datatype Cell = Cell(value: Bytes, deleted: bool)

  type Memtable = map<Bytes, Cell>

  datatype Outcome = Outcome(status: Status, table: Memtable)

  // ---- The memtable ----

  function MemPut(mt: Memtable, key: Bytes, value: Bytes): Outcome
  {
    if key == [] then Outcome(InvalidArg, mt) else Outcome(Ok, mt[key := Cell(value, false)])
  }

  function MemDelete(mt: Memtable, key: Bytes): Outcome
  {
    if key == [] then Outcome(InvalidArg, mt)
    else Outcome(Ok, mt[key := Cell(if key in mt then mt[key].value else [], true)])
  }

  function MemApply(mt: Memtable, op: Op): Outcome
  {
    match op
    case Put(k, v) => MemPut(mt, k, v)
    case Delete(k) => MemDelete(mt, k)
  }

  /** Operations one after the other, up to the first that is refused. */
  function MemApplyAll(mt: Memtable, ops: seq<Op>): Outcome
    decreases |ops|
  {
    if ops == [] then Outcome(Ok, mt)
    else
      var r := MemApply(mt, ops[0]);
      if r.status == Ok then MemApplyAll(r.table, ops[1..]) else r
  }

  // ---- Writing ----

  function TypeOf(op: Op): byte
  {
    if op.Put? then PUT else DELETE
  }

  function ValueOf(op: Op): Bytes
  {
    if op.Put? then op.value else []
  }

  function Body(op: Op): (r: Bytes)
    ensures |r| == 9 + |op.key| + |ValueOf(op)|
  {
    [TypeOf(op)] + U32(|op.key|) + op.key + U32(|ValueOf(op)|) + ValueOf(op)
  }

  function Record(op: Op, crc: Crc): (r: Bytes)
    ensures |r| == 17 + |op.key| + |ValueOf(op)|
  {
    U32(CRC_SIZE + |Body(op)|) + U32(crc(Body(op))) + Body(op)
  }

  function Log(ops: seq<Op>, crc: Crc): Bytes
  {
    if ops == [] then [] else Record(ops[0], crc) + Log(ops[1..], crc)
  }

  /** The record's length field does not wrap. */
  predicate Fits(op: Op)
  {
    MIN_RECORD + |op.key| + |ValueOf(op)| < U32_LIMIT
  }

  predicate AllFit(ops: seq<Op>)
  {
    forall i :: 0 <= i < |ops| ==> Fits(ops[i])
  }

  // ---- Reading ----

  datatype Next =
    | Stop
    | Bad(status: Status)
    | Found(kind: byte, key: Bytes, valueLength: nat, tail: Bytes, rest: Bytes)

  /** The next record, if the file holds all of it. */
  function ReadNext(file: Bytes, crc: Crc): (r: Next)
    ensures r.Found? ==> |r.rest| < |file|
  {
    if |file| < LENGTH_SIZE then Stop
    else
      var len := FromLittleEndian(file[..LENGTH_SIZE]);
      if len < MIN_RECORD then Bad(Corruption)
      else if |file| - LENGTH_SIZE < len then Stop
      else
        var record := file[LENGTH_SIZE..LENGTH_SIZE + len];
        if FromLittleEndian(record[..CRC_SIZE]) != crc(record[CRC_SIZE..]) then Bad(Corruption)
        else ParseBody(record[CRC_SIZE..], file[LENGTH_SIZE + len..])
  }

  function ParseBody(body: Bytes, rest: Bytes): (r: Next)
    requires |body| >= 9
    ensures r.Found? ==> r.rest == rest
  {
    var klen := FromLittleEndian(body[1..5]);
    if 9 + klen > |body| then Bad(OutOfBounds)
    else Found(body[0], body[5..5 + klen], FromLittleEndian(body[5 + klen..9 + klen]), body[9 + klen..], rest)
  }

  /** Hand a parsed record to the memtable. */
  function Deliver(mt: Memtable, kind: byte, key: Bytes, valueLength: nat, tail: Bytes): Outcome
  {
    if kind == PUT then
      if key == [] then Outcome(InvalidArg, mt)
      else if valueLength > |tail| then Outcome(OutOfBounds, mt)
      else MemPut(mt, key, tail[..valueLength])
    else if kind == DELETE then MemDelete(mt, key)
    else Outcome(Corruption, mt)
  }

  /** Replay a log file into a memtable. */
  function Replay(file: Bytes, mt: Memtable, crc: Crc): Outcome
    decreases |file|
  {
    var n := ReadNext(file, crc);
    if n.Stop? then Outcome(Ok, mt)
    else if n.Bad? then Outcome(n.status, mt)
    else
      var r := Deliver(mt, n.kind, n.key, n.valueLength, n.tail);
      if r.status == Ok then Replay(n.rest, r.table, crc) else r
  }

  // ---- One record ----

  lemma BodyParts(op: Op)
    ensures var b, k := Body(op), |op.key|;
            && b[0] == TypeOf(op) && b[1..5] == U32(k) && b[5..5 + k] == op.key
            && b[5 + k..9 + k] == U32(|ValueOf(op)|) && b[9 + k..] == ValueOf(op)
  {
    hide U32;
    var b, k, v := Body(op), |op.key|, ValueOf(op);
    var a0, a1, a2 := [TypeOf(op)] + U32(k), [TypeOf(op)] + U32(k) + op.key, [TypeOf(op)] + U32(k) + op.key + U32(|v|);
    assert b == a2 + v;
    assert b[..9 + k] == a2;
    assert b[5..5 + k] == a2[5..5 + k] == op.key;
    assert b[1..5] == a0[1..5] == U32(k);
    assert b[5 + k..9 + k] == a2[5 + k..] == U32(|v|);
  }

  lemma ParseWhole(op: Op, rest: Bytes)
    requires Fits(op)
    ensures ParseBody(Body(op), rest) == Found(TypeOf(op), op.key, |ValueOf(op)|, ValueOf(op), rest)
  {
    hide Body, U32;
    BodyParts(op);
    U32RoundTrip(|op.key|);
    U32RoundTrip(|ValueOf(op)|);
  }

  lemma RecordParts(op: Op, rest: Bytes, crc: Crc)
    ensures var f, n := Record(op, crc) + rest, CRC_SIZE + |Body(op)|;
            && f[..4] == U32(n) && f[4..4 + n] == U32(crc(Body(op))) + Body(op) && f[4 + n..] == rest
            && (U32(crc(Body(op))) + Body(op))[..4] == U32(crc(Body(op)))
            && (U32(crc(Body(op))) + Body(op))[4..] == Body(op)
  {
    hide Body, U32;
    var n := CRC_SIZE + |Body(op)|;
    var head, mid := U32(n), U32(crc(Body(op))) + Body(op);
    assert Record(op, crc) == head + mid;
    assert Record(op, crc) + rest == head + mid + rest;
  }

  lemma ReadWhole(op: Op, rest: Bytes, crc: Crc)
    requires Fits(op)
    ensures ReadNext(Record(op, crc) + rest, crc) == Found(TypeOf(op), op.key, |ValueOf(op)|, ValueOf(op), rest)
  {
    hide Body, U32, Record, ParseBody;
    RecordParts(op, rest, crc);
    U32RoundTrip(CRC_SIZE + |Body(op)|);
    U32RoundTrip(crc(Body(op)));
    ParseWhole(op, rest);
  }

  /** A record cut short is taken for the end of the log. */
  lemma ReadTorn(op: Op, cut: nat, crc: Crc)
    requires Fits(op) && cut < |Record(op, crc)|
    ensures ReadNext(Record(op, crc)[..cut], crc) == Stop
  {
    hide Body, U32, ParseBody;
    if cut >= 4 {
      var n := CRC_SIZE + |Body(op)|;
      assert Record(op, crc)[..cut][..4] == U32(n);
      U32RoundTrip(n);
    }
  }

  lemma DeliverWhole(mt: Memtable, op: Op)
    ensures Deliver(mt, TypeOf(op), op.key, |ValueOf(op)|, ValueOf(op)) == MemApply(mt, op)
  {
    assert ValueOf(op)[..|ValueOf(op)|] == ValueOf(op);
  }

  // ---- Any prefix ----

  /** How many records lie wholly before the cut. */
  function Whole(ops: seq<Op>, cut: nat, crc: Crc): (n: nat)
    ensures n <= |ops|
  {
    if ops == [] || cut < |Record(ops[0], crc)| then 0 else 1 + Whole(ops[1..], cut - |Record(ops[0], crc)|, crc)
  }

  /** `Whole` counts exactly the records that end at or before the cut. */
  lemma {:induction false} WholeExactly(ops: seq<Op>, cut: nat, crc: Crc, i: nat)
    requires i <= |ops|
    ensures i <= Whole(ops, cut, crc) <==> |Log(ops[..i], crc)| <= cut
    decreases |ops|
  {
    if i > 0 {
      assert ops[..i][1..] == ops[1..][..i - 1];
      if cut >= |Record(ops[0], crc)| { WholeExactly(ops[1..], cut - |Record(ops[0], crc)|, crc, i - 1); }
    }
  }

  /** Whatever byte the file was cut at, replay delivers exactly the whole records before it. */
  lemma {:induction false} PrefixRecovery(ops: seq<Op>, cut: nat, mt: Memtable, crc: Crc)
    requires AllFit(ops) && cut <= |Log(ops, crc)|
    ensures Replay(Log(ops, crc)[..cut], mt, crc) == MemApplyAll(mt, ops[..Whole(ops, cut, crc)])
    decreases |ops|
  {
    hide Record, ReadNext, Deliver, MemApply;
    if ops == [] {
      ReadEmpty(crc);
    } else {
      var r, rest := Record(ops[0], crc), Log(ops[1..], crc);
      if cut < |r| {
        assert (r + rest)[..cut] == r[..cut];
        ReadTorn(ops[0], cut, crc);
      } else {
        var w := Whole(ops[1..], cut - |r|, crc);
        assert (r + rest)[..cut] == r + rest[..cut - |r|];
        ReadWhole(ops[0], rest[..cut - |r|], crc);
        DeliverWhole(mt, ops[0]);
        assert ops[..w + 1][1..] == ops[1..][..w];
        var o := MemApply(mt, ops[0]);
        if o.status == Ok { PrefixRecovery(ops[1..], cut - |r|, o.table, crc); }
      }
    }
  }

  lemma ReadEmpty(crc: Crc)
    ensures ReadNext([], crc) == Stop
  {
  }

  // ---- When replay succeeds ----

  predicate AllNamed(ops: seq<Op>)
  {
    forall i :: 0 <= i < |ops| ==> ops[i].key != []
  }

  lemma {:induction false} AppliesWhenNamed(mt: Memtable, ops: seq<Op>)
    ensures MemApplyAll(mt, ops).status == Ok || MemApplyAll(mt, ops).status == InvalidArg
    ensures MemApplyAll(mt, ops).status == Ok <==> AllNamed(ops)
    decreases |ops|
  {
    if ops != [] {
      var r := MemApply(mt, ops[0]);
      AppliesWhenNamed(r.table, ops[1..]);
      assert AllNamed(ops) <==> ops[0].key != [] && AllNamed(ops[1..]) by {
        assert forall i: nat :: i < |ops| - 1 ==> ops[1..][i] == ops[i + 1];
        if ops[0].key != [] && AllNamed(ops[1..]) {
          forall i: nat | i < |ops| ensures ops[i].key != [] { if i > 0 { assert ops[1..][i - 1].key != []; } }
        }
      }
    }
  }

  /** Replay of a cut log succeeds exactly when every whole record names a key; nothing else can go wrong. */
  lemma RecoverySucceedsExactly(ops: seq<Op>, cut: nat, mt: Memtable, crc: Crc)
    requires AllFit(ops) && cut <= |Log(ops, crc)|
    ensures Replay(Log(ops, crc)[..cut], mt, crc).status == Ok <==> AllNamed(ops[..Whole(ops, cut, crc)])
    ensures Replay(Log(ops, crc)[..cut], mt, crc).status in {Ok, InvalidArg}
  {
    PrefixRecovery(ops, cut, mt, crc);
    AppliesWhenNamed(mt, ops[..Whole(ops, cut, crc)]);
  }

  /** A later append behind a torn record: the length is read across the tear, and the append is lost. */
  lemma AppendBehindTearIsLost(crc: Crc)
    ensures var op := Put([1], []);
            && Fits(op) && |Record(op, crc)| > 1
            && Replay(Record(op, crc)[..1] + Record(op, crc), map[], crc) == Outcome(Ok, map[])
            && Replay(Record(op, crc), map[], crc) == Outcome(Ok, map[[1] := Cell([], false)])
  {
    var op := Put([1], []);
    var r := Record(op, crc);
    FourteenBytes();
    assert r[..4] == [14, 0, 0, 0];
    assert r[..1] == [r[0]] && r[0] == r[..4][0] && r[1] == r[..4][1] && r[2] == r[..4][2];
    var file := r[..1] + r;
    assert file[..4] == [14, 14, 0, 0];
    FromFour(14, 14, 0, 0);
    assert ReadNext(file, crc) == Stop;
    PrefixRecovery([op], |r|, map[], crc);
    assert Log([op], crc) == r + Log([], crc) == r;
    assert r[..|r|] == r;
    WholeExactly([op], |r|, crc, 1);
    assert [op][..1] == [op];
    assert MemApply(map[], op) == Outcome(Ok, map[[1] := Cell([], false)]);
  }

  lemma FourteenBytes()
    ensures U32(14) == [14, 0, 0, 0]
  {
    assert LittleEndian(0, 0) == [];
    assert LittleEndian(0, 1) == [0] + LittleEndian(0, 0) == [0];
    assert LittleEndian(0, 2) == [0] + LittleEndian(0, 1) == [0, 0];
    assert LittleEndian(0, 3) == [0] + LittleEndian(0, 2) == [0, 0, 0];
    assert LittleEndian(14, 4) == [14] + LittleEndian(0, 3);
  }

  lemma FromFour(a: byte, b: byte, c: byte, d: byte)
    ensures FromLittleEndian([a, b, c, d]) == a + 256 * (b + 256 * (c + 256 * d))
  {
    assert [d][1..] == [] && [c, d][1..] == [d] && [b, c, d][1..] == [c, d] && [a, b, c, d][1..] == [b, c, d];
    assert FromLittleEndian([d]) == d + 256 * FromLittleEndian([]) == d;
    assert FromLittleEndian([c, d]) == c + 256 * FromLittleEndian([d]);
    assert FromLittleEndian([b, c, d]) == b + 256 * FromLittleEndian([c, d]);
  }
}
