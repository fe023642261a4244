/**
 The entries of an AppendEntries request on the wire: for each entry its term (8 bytes), the
 command length (4 bytes) and the command.
 */
module RaftWire {
  import opened Bytes
  import opened RaftNode

  /** What fits the wire format's integer widths. */
  predicate Encodable(e: Entry)
  {
    && e.term < U64_LIMIT && |e.command| < U32_LIMIT
    && forall i :: 0 <= i < |e.command| ==> 0 <= e.command[i] < 256
  }

  function EncodeEntry(e: Entry): Bytes
    requires Encodable(e)
  {
    U64(e.term) + U32(|e.command|) + e.command
  }

  predicate AllEncodable(es: seq<Entry>)
  {
    forall i :: 0 <= i < |es| ==> Encodable(es[i])
  }

  function EncodeEntries(es: seq<Entry>): Bytes
    requires AllEncodable(es)
  {
    if es == [] then [] else EncodeEntry(es[0]) + EncodeEntries(es[1..])
  }

  datatype Parsed = Stop | Item(entry: Entry, rest: Bytes)

  /** One entry off the front, or Stop when the payload ends inside it. */
  function ParseEntry(b: Bytes): (r: Parsed)
    ensures r.Item? ==> |r.rest| < |b|
  {
    if |b| < 12 then Stop
    else
      var term := FromLittleEndian(b[..8]);
      var len := FromLittleEndian(b[8..12]);
      if 12 + len > |b| then Stop else Item(Entry(term, b[12..12 + len]), b[12 + len..])
  }

  function ParseEntries(b: Bytes, count: nat): seq<Entry>
    decreases count
  {
    if count == 0 then []
    else match ParseEntry(b)
      case Stop => []
      case Item(e, rest) => [e] + ParseEntries(rest, count - 1)
  }

  lemma ParseOne(e: Entry, rest: Bytes)
    requires Encodable(e)
    ensures ParseEntry(EncodeEntry(e) + rest) == Item(e, rest)
  {
    hide LittleEndian, FromLittleEndian;
    var b := EncodeEntry(e) + rest;
    U64RoundTrip(e.term);
    U32RoundTrip(|e.command|);
    assert b[..8] == U64(e.term);
    assert b[8..12] == U32(|e.command|);
    assert b[12..12 + |e.command|] == e.command;
    assert b[12 + |e.command|..] == rest;
  }

  /** A follower parses exactly the entries the leader serialized. */
  lemma {:induction false} WireRoundTrip(es: seq<Entry>)
    requires AllEncodable(es)
    ensures ParseEntries(EncodeEntries(es), |es|) == es
  {
    if es != [] {
      hide ParseEntry, EncodeEntry;
      ParseOne(es[0], EncodeEntries(es[1..]));
      WireRoundTrip(es[1..]);
      assert es == [es[0]] + es[1..];
    }
  }

  /** The leader's serialization loop. */
  method SerializeEntries(log: seq<Entry>, next: nat, count: nat) returns (payload: Bytes)
    requires next >= 1 && next - 1 + count <= |log| && AllEncodable(log)
    ensures payload == EncodeEntries(log[next - 1..next - 1 + count])
  {
    hide LittleEndian, U64, U32, EncodeEntries;
    payload := [];
    var i := 0;
    ghost var all := log[next - 1..next - 1 + count];
    assert all[0..] == all;
    while i < count
      invariant 0 <= i <= count
      invariant payload + EncodeEntries(all[i..]) == EncodeEntries(all)
    {
      var e := log[next - 1 + i];
      EncodeFront(all, i);
      ghost var before, rest := payload, EncodeEntries(all[i + 1..]);
      payload := payload + U64(e.term);
      payload := payload + U32(|e.command|);
      payload := payload + e.command;
      assert payload == before + EncodeEntry(e);
      assert before + (EncodeEntry(e) + rest) == payload + rest;
      i := i + 1;
    }
    EncodeNothing(all);
    assert i == |all| && payload + [] == payload;
  }

  lemma EncodeFront(es: seq<Entry>, i: nat)
    requires i < |es| && AllEncodable(es)
    ensures EncodeEntries(es[i..]) == EncodeEntry(es[i]) + EncodeEntries(es[i + 1..])
  {
    assert es[i..][0] == es[i] && es[i..][1..] == es[i + 1..];
  }

  lemma EncodeNothing(es: seq<Entry>)
    requires AllEncodable(es)
    ensures EncodeEntries(es[|es|..]) == []
  {
  }

  /** The follower's parsing loop, which stops at a truncated entry. */
  method Parse(payload: Bytes, count: nat) returns (entries: seq<Entry>)
    ensures entries == ParseEntries(payload, count)
  {
    hide LittleEndian, FromLittleEndian;
    entries := [];
    var rest := payload;  // from the read pointer to the end
    var i := 0;
    while i < count && rest != []
      invariant 0 <= i <= count
      invariant entries + ParseEntries(rest, count - i) == ParseEntries(payload, count)
    {
      if |rest| < 8 { return; }
      var term := FromLittleEndian(rest[..8]);
      if |rest| < 12 { return; }
      var len := FromLittleEndian(rest[8..12]);
      if 12 + len > |rest| { return; }
      var e := Entry(term, rest[12..12 + len]);
      assert ParseEntry(rest) == Item(e, rest[12 + len..]);
      entries := entries + [e];
      rest := rest[12 + len..];
      i := i + 1;
    }
  }
}
