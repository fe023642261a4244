/**
 SSTable data blocks: compressed entries, restart offsets and a checksum, and the search through them.
 */
module SstBlock {
  import opened Bytes
  import opened LsmMerge
  import opened SstCodec

  type u32 = v: nat | v < U32_LIMIT

  type Crc = Bytes -> u32

  /**
   What a lookup reports; a tombstone carries no value.  `Undefined` stands for malformed files on
   which the source would read outside its buffers or divide by zero.
   */
  datatype Read = Found(value: Bytes, deleted: bool) | NotFound | Corrupt | IoError | Undefined

  function Shown(e: Entry): Read
  {
    Found(if e.deleted then [] else e.value, e.deleted)
  }

  // ---- What a lookup must answer ----

  function Lookup(es: seq<Entry>, key: Bytes): Read
  {
    if es == [] then NotFound else if es[0].key == key then Shown(es[0]) else Lookup(es[1..], key)
  }

  lemma {:induction false} LookupFinds(es: seq<Entry>, i: nat)
    requires Ascending(es) && i < |es|
    ensures Lookup(es, es[i].key) == Shown(es[i])
    decreases |es|
  {
    if i > 0 {
      LessAsymmetric(es[0].key, es[i].key);
      LookupFinds(es[1..], i - 1);
    }
  }

  lemma {:induction false} LookupMisses(es: seq<Entry>, key: Bytes)
    ensures Lookup(es, key) == NotFound <==> forall i: nat :: i < |es| ==> es[i].key != key
    decreases |es|
  {
    if es != [] {
      LookupMisses(es[1..], key);
      if Lookup(es, key) == NotFound {
        forall i: nat | i < |es| ensures es[i].key != key { if i > 0 { assert es[1..][i - 1] == es[i]; } }
      }
    }
  }

  lemma {:induction false} LookupSkips(es: seq<Entry>, j: nat, key: Bytes)
    requires j <= |es| && forall k: nat :: k < j ==> es[k].key != key
    ensures Lookup(es[j..], key) == Lookup(es, key)
    decreases j
  {
    if j == 0 {
      assert es[0..] == es;
    } else {
      LookupSkips(es[1..], j - 1, key);
      assert es[1..][j - 1..] == es[j..];
    }
  }

  lemma LookupStep(es: seq<Entry>, i: nat, key: Bytes)
    requires i < |es|
    ensures Lookup(es[i..], key) == if es[i].key == key then Shown(es[i]) else Lookup(es[i + 1..], key)
  {
    assert es[i..][1..] == es[i + 1..];
  }

  lemma LookupPast(es: seq<Entry>, i: nat, key: Bytes)
    requires Ascending(es) && i < |es| && Less(key, es[i].key)
    ensures Lookup(es[i..], key) == NotFound
  {
    forall k: nat | k < |es[i..]| ensures es[i..][k].key != key {
      if k > 0 { LessTransitive(key, es[i].key, es[i + k].key); }
      LessIrreflexive(key);
    }
    LookupMisses(es[i..], key);
  }

  // ---- Block contents ----

  function PrevKey(es: seq<Entry>, i: nat): Bytes
    requires i <= |es|
  {
    if i == 0 then [] else es[i - 1].key
  }

  function Piece(es: seq<Entry>, i: nat): Bytes
    requires i < |es|
  {
    EncodeEntry(PrevKey(es, i), es[i], i % RESTART_INTERVAL == 0)
  }

  function Data(es: seq<Entry>): Bytes
  {
    if es == [] then [] else Data(es[..|es| - 1]) + Piece(es, |es| - 1)
  }

  function Offset(es: seq<Entry>, i: nat): nat
    requires i <= |es|
  {
    |Data(es[..i])|
  }

  function Restarts(es: seq<Entry>): seq<nat>
  {
    if es == [] then []
    else
      var n := |es| - 1;
      Restarts(es[..n]) + if n % RESTART_INTERVAL == 0 then [|Data(es[..n])|] else []
  }

  function Words(s: seq<nat>): (r: Bytes)
    ensures |r| == 4 * |s|
  {
    if s == [] then [] else Words(s[..|s| - 1]) + U32(s[|s| - 1])
  }

  function Sealed(data: Bytes, restarts: seq<nat>, crc: Crc): (r: Bytes)
    ensures |r| == |data| + 4 * |restarts| + 8
  {
    var body := data + Words(restarts) + U32(|restarts|);
    body + U32(crc(body))
  }

  function Block(es: seq<Entry>, crc: Crc): Bytes
  {
    Sealed(Data(es), Restarts(es), crc)
  }

  predicate AllSized(es: seq<Entry>)
  {
    forall i: nat :: i < |es| ==> Sized(es[i])
  }

  lemma {:induction false} DataPrefix(es: seq<Entry>, i: nat)
    requires i <= |es|
    ensures Offset(es, i) <= |Data(es)| && Data(es)[..Offset(es, i)] == Data(es[..i])
    decreases |es|
  {
    hide Piece;
    if i == |es| {
      assert es[..i] == es;
    } else {
      DataPrefix(es[..|es| - 1], i);
      assert es[..|es| - 1][..i] == es[..i];
    }
  }

  lemma NextOffset(es: seq<Entry>, i: nat)
    requires i < |es|
    ensures Offset(es, i + 1) == Offset(es, i) + |Piece(es, i)| <= |Data(es)|
    ensures Data(es)[Offset(es, i)..Offset(es, i + 1)] == Piece(es, i)
  {
    hide EncodeEntry;
    DataPrefix(es, i + 1);
    assert es[..i + 1][..i] == es[..i];
    assert Piece(es[..i + 1], i) == Piece(es, i);
    var d, e := Data(es[..i]), Piece(es, i);
    assert Data(es[..i + 1]) == d + e;
    assert (d + e)[|d|..] == e;
  }

  /** Parsing at entry `i`'s offset, with the key before it at hand, gives entry `i`. */
  lemma ParseAt(es: seq<Entry>, i: nat, cur: Bytes)
    requires AllSized(es) && i < |es| && (i % RESTART_INTERVAL == 0 || cur == es[i - 1].key)
    ensures var p, q := Offset(es, i), Offset(es, i + 1);
            p < q <= |Data(es)| &&
            var t := Data(es)[p..];
            var h := ParseHeader(t);
            && h.Header? && h.shared <= |cur| && h.shared + h.unshared == |es[i].key|
            && (i % RESTART_INTERVAL == 0 ==> h.shared == 0)
            && h.valueLength == |es[i].value| && h.deleted == es[i].deleted
            && p + h.size + h.unshared + h.valueLength == q
            && cur[..h.shared] + t[h.size..h.size + h.unshared] == es[i].key
            && t[h.size + h.unshared..h.size + h.unshared + h.valueLength] == es[i].value
  {
    hide ParseHeader, EncodeEntry, Data, SharedOf;
    NextOffset(es, i);
    var p, q := Offset(es, i), Offset(es, i + 1);
    var prev, restart := PrevKey(es, i), i % RESTART_INTERVAL == 0;
    var t, rest := Data(es)[p..], Data(es)[q..];
    assert t == Data(es)[p..q] + rest;
    EntryRoundTrip(prev, es[i], restart, rest);
    EntryLength(prev, es[i], restart);
    var s := SharedOf(prev, es[i], restart);
    assert prev[..s] == cur[..s];
  }

  lemma {:induction false} RestartAt(es: seq<Entry>, r: nat)
    ensures |Restarts(es)| == (|es| + RESTART_INTERVAL - 1) / RESTART_INTERVAL
    ensures r < |Restarts(es)| ==> RESTART_INTERVAL * r < |es| && Restarts(es)[r] == Offset(es, RESTART_INTERVAL * r)
    decreases |es|
  {
    hide Data;
    if es != [] {
      var n := |es| - 1;
      RestartAt(es[..n], r);
      if r < |Restarts(es[..n])| { assert es[..n][..RESTART_INTERVAL * r] == es[..RESTART_INTERVAL * r]; }
    }
  }

  lemma {:induction false} WordAt(s: seq<nat>, i: nat)
    requires i < |s|
    ensures Words(s)[4 * i..4 * i + 4] == U32(s[i])
    decreases |s|
  {
    hide U32;
    var front := Words(s[..|s| - 1]);
    if i < |s| - 1 {
      WordAt(s[..|s| - 1], i);
      assert (front + U32(s[|s| - 1]))[4 * i..4 * i + 4] == front[4 * i..4 * i + 4];
    } else {
      assert (front + U32(s[i]))[4 * i..4 * i + 4] == U32(s[i]);
    }
  }

  // ---- Reading a block's trailer ----

  function WordIn(b: Bytes, at: nat): nat
    requires at + 4 <= |b|
  {
    FromLittleEndian(b[at..at + 4])
  }

  /** The parts of a sealed block, as the reader finds them. */
  lemma SealedParts(data: Bytes, restarts: seq<nat>, crc: Crc)
    requires |Sealed(data, restarts, crc)| < U32_LIMIT
    ensures var b := Sealed(data, restarts, crc);
            && WordIn(b, |b| - 8) == |restarts| && WordIn(b, |b| - 4) == crc(b[..|b| - 4])
            && b[..|data|] == data
            && b[|data|..|b| - 8] == Words(restarts)
  {
    hide U32;
    var w, n := Words(restarts), U32(|restarts|);
    var body := data + w + n;
    var b := Sealed(data, restarts, crc);
    assert b == body + U32(crc(body));
    assert b[..|b| - 4] == body;
    assert b[|b| - 8..|b| - 4] == n;
    assert b[|b| - 4..|b| - 4 + 4] == U32(crc(body));
    U32RoundTrip(|restarts|);
    U32RoundTrip(crc(body));
  }

  lemma RestartWord(data: Bytes, restarts: seq<nat>, crc: Crc, r: nat)
    requires r < |restarts| && restarts[r] < U32_LIMIT && |Sealed(data, restarts, crc)| < U32_LIMIT
    ensures WordIn(Sealed(data, restarts, crc), |data| + 4 * r) == restarts[r]
  {
    hide U32, Sealed;
    SealedParts(data, restarts, crc);
    WordAt(restarts, r);
    var b := Sealed(data, restarts, crc);
    assert b[|data|..|b| - 8][4 * r..4 * r + 4] == b[|data| + 4 * r..|data| + 4 * r + 4];
    U32RoundTrip(restarts[r]);
  }

  // ---- Search ----

  /** `block` is what the writer made of `es`. */
  ghost predicate IsBlock(block: Bytes, es: seq<Entry>, crc: Crc)
  {
    block == Block(es, crc) && es != [] && Ascending(es) && AllSized(es) && |block| < U32_LIMIT
  }

  /** `key` is no earlier than the entries before restart point `left - 1`. */
  ghost predicate SkipsBefore(es: seq<Entry>, left: nat, key: Bytes)
  {
    left == 0 || (RESTART_INTERVAL * (left - 1) < |es| && Less(es[RESTART_INTERVAL * (left - 1)].key, key))
  }

  lemma RestartKey(block: Bytes, es: seq<Entry>, crc: Crc, r: nat)
    requires IsBlock(block, es, crc) && r < |Restarts(es)|
    ensures RESTART_INTERVAL * r < |es|
    ensures |Data(es)| + 4 * |Restarts(es)| + 8 == |block| && block[..|Data(es)|] == Data(es)
    ensures WordIn(block, |Data(es)| + 4 * r) == Offset(es, RESTART_INTERVAL * r) <= |Data(es)|
  {
    hide Data, Restarts, Sealed;
    RestartAt(es, r);
    DataPrefix(es, RESTART_INTERVAL * r);
    RestartWord(Data(es), Restarts(es), crc, r);
    SealedParts(Data(es), Restarts(es), crc);
  }

  /** One probe of the restart points: a key to compare with, or the reason to give up. */
  datatype Probe = Go(key: Bytes) | Halt(why: Read)

  /** The key stored at restart point `r`. */
  method KeyAtRestart(block: Bytes, start: nat, r: nat, ghost es: seq<Entry>, ghost crc: Crc)
    returns (probe: Probe)
    requires start <= |block|
    ensures IsBlock(block, es, crc) && start == |Data(es)| && r < |Restarts(es)| ==>
              RESTART_INTERVAL * r < |es| && probe == Go(es[RESTART_INTERVAL * r].key)
  {
    hide IsBlock, ParseHeader, Data, Restarts, Offset;
    ghost var good := IsBlock(block, es, crc) && start == |Data(es)| && r < |Restarts(es)|;
    if good {
      RestartKey(block, es, crc, r);
      GoodSized(block, es, crc);
      ParseAt(es, RESTART_INTERVAL * r, []);
    }
    if start + 4 * r + 4 > |block| { return Halt(Undefined); }
    var pos := WordIn(block, start + 4 * r);
    if pos > start { return Halt(Undefined); }
    var t := block[pos..start];
    assert good ==> t == Data(es)[pos..];
    var h := ParseHeader(t);
    if h.Broken? || h.shared != 0 { return Halt(Corrupt); }
    if (pos + h.size + h.unshared) % U64_LIMIT > start { return Halt(Corrupt); }
    if pos + h.size + h.unshared > start { return Halt(Undefined); }
    var key := t[h.size..h.size + h.unshared];
    assert good ==> [] + key == key;
    probe := Go(key);
  }

  lemma GoodSized(block: Bytes, es: seq<Entry>, crc: Crc)
    requires IsBlock(block, es, crc)
    ensures AllSized(es) && Ascending(es)
  {
  }

  /** Binary search over the restart points for one to start the scan at. */
  method SearchRestarts(block: Bytes, start: nat, num: nat, key: Bytes, ghost es: seq<Entry>, ghost crc: Crc)
    returns (probe: Probe, left: nat)
    requires start <= |block|
    ensures IsBlock(block, es, crc) && start == |Data(es)| && num == |Restarts(es)| ==>
              probe.Go? && left <= num && SkipsBefore(es, left, key)
  {
    hide IsBlock, Data, Restarts;
    left := 0;
    var right := num;
    while left < right
      invariant left <= right <= num
      invariant IsBlock(block, es, crc) && start == |Data(es)| && num == |Restarts(es)| ==> SkipsBefore(es, left, key)
    {
      var mid := left + (right - left) / 2;
      probe := KeyAtRestart(block, start, mid, es, crc);
      if probe.Halt? { return; }
      if Less(probe.key, key) { left := mid + 1; } else { right := mid; }
    }
    probe := Go(key);
  }

  /** The scan stands before entry `i`, holding what it needs to decompress it. */
  ghost predicate ScanAt(data: Bytes, pos: nat, es: seq<Entry>, i: nat, cur: Bytes)
  {
    && data == Data(es) && Ascending(es) && AllSized(es) && |data| < U32_LIMIT
    && i <= |es| && pos == Offset(es, i)
    && (i % RESTART_INTERVAL == 0 || cur == es[i - 1].key)
  }

  lemma ScanStep(data: Bytes, pos: nat, es: seq<Entry>, i: nat, cur: Bytes, key: Bytes)
    requires ScanAt(data, pos, es, i, cur) && pos < |data|
    ensures i < |es|
    ensures var t := data[pos..];
            var h := ParseHeader(t);
            && h.Header? && h.shared <= |cur|
            && pos + h.size + h.unshared + h.valueLength <= |data| < U32_LIMIT
            && cur[..h.shared] + t[h.size..h.size + h.unshared] == es[i].key
            && t[h.size + h.unshared..h.size + h.unshared + h.valueLength] == es[i].value && h.deleted == es[i].deleted
            && ScanAt(data, pos + h.size + h.unshared + h.valueLength, es, i + 1, es[i].key)
    ensures es[i].key == key ==> Lookup(es[i..], key) == Shown(es[i])
    ensures Less(key, es[i].key) ==> Lookup(es[i..], key) == NotFound
    ensures es[i].key != key ==> Lookup(es[i..], key) == Lookup(es[i + 1..], key)
  {
    hide ParseHeader, Data, Ascending;
    assert es[..|es|] == es;
    ParseAt(es, i, cur);
    LookupStep(es, i, key);
    if Less(key, es[i].key) { LookupPast(es, i, key); }
  }

  lemma ScanEnd(data: Bytes, es: seq<Entry>, i: nat, cur: Bytes, pos: nat, key: Bytes)
    requires ScanAt(data, pos, es, i, cur) && pos >= |data|
    ensures Lookup(es[i..], key) == NotFound
  {
    hide Data;
    if i < |es| { ParseAt(es, i, cur); }
  }

  /** Linear scan from a restart point. */
  method Scan(block: Bytes, start: nat, pos0: nat, key: Bytes, ghost es: seq<Entry>, ghost i0: nat) returns (r: Read)
    requires start <= |block|
    ensures ScanAt(block[..start], pos0, es, i0, []) ==> r == Lookup(es[i0..], key)
  {
    hide ParseHeader, Data, Offset, ScanAt, Lookup;
    ghost var good := ScanAt(block[..start], pos0, es, i0, []);
    ghost var i: nat := i0;
    var pos: nat, cur: Bytes := pos0, [];
    InRange(block[..start], pos, es, i, cur);
    while pos < start
      invariant good ==> ScanAt(block[..start], pos, es, i, cur) && i <= |es|
      invariant good ==> Lookup(es[i..], key) == Lookup(es[i0..], key)
      decreases start - pos
    {
      if good { ScanStep(block[..start], pos, es, i, cur, key); }
      var t := block[pos..start];
      assert t == block[..start][pos..];
      var h := ParseHeader(t);
      if h.Broken? { return NotFound; }
      var p := pos + h.size;
      if (p + h.unshared + h.valueLength) % U64_LIMIT > start { return NotFound; }
      if p + h.unshared + h.valueLength > start || h.shared > |cur| { return Undefined; }
      cur := cur[..h.shared] + t[h.size..h.size + h.unshared];
      if cur == key {
        return Found(if h.deleted then [] else t[h.size + h.unshared..h.size + h.unshared + h.valueLength], h.deleted);
      } else if Less(key, cur) {
        return NotFound;
      }
      pos := p + h.unshared + h.valueLength;
      i := i + 1;
    }
    if good { ScanEnd(block[..start], es, i, cur, pos, key); }
    return NotFound;
  }

  lemma InRange(data: Bytes, pos: nat, es: seq<Entry>, i: nat, cur: Bytes)
    ensures ScanAt(data, pos, es, i, cur) ==> i <= |es|
  {
  }

  /** The scan may start at the restart point before the first one not below the key. */
  lemma StartIsEarlyEnough(block: Bytes, es: seq<Entry>, crc: Crc, left: nat, key: Bytes)
    requires IsBlock(block, es, crc) && left <= |Restarts(es)| && SkipsBefore(es, left, key)
    ensures var r := if left > 0 then left - 1 else 0;
            && r < |Restarts(es)| && RESTART_INTERVAL * r < |es|
            && |block| - 8 - 4 * |Restarts(es)| == |Data(es)| && block[..|Data(es)|] == Data(es)
            && ScanAt(Data(es), WordIn(block, |Data(es)| + 4 * r), es, RESTART_INTERVAL * r, [])
            && Lookup(es[RESTART_INTERVAL * r..], key) == Lookup(es, key)
  {
    hide Data, Restarts, Block;
    RestartAt(es, 0);
    var r := if left > 0 then left - 1 else 0;
    RestartKey(block, es, crc, r);
    forall k: nat | k < RESTART_INTERVAL * r ensures es[k].key != key {
      LessTransitive(es[k].key, es[RESTART_INTERVAL * r].key, key);
      LessIrreflexive(key);
    }
    LookupSkips(es, RESTART_INTERVAL * r, key);
  }

  lemma TrailerOf(block: Bytes, es: seq<Entry>, crc: Crc)
    requires IsBlock(block, es, crc)
    ensures |block| >= 8 && WordIn(block, |block| - 8) == |Restarts(es)|
    ensures WordIn(block, |block| - 4) == crc(block[..|block| - 4])
    ensures 4 * |Restarts(es)| + 8 <= |block| < U32_LIMIT
  {
    hide Data, Restarts, Sealed;
    SealedParts(Data(es), Restarts(es), crc);
  }

  /** Search one block for a key. */
  method SearchBlock(block: Bytes, key: Bytes, crc: Crc, ghost es: seq<Entry>) returns (r: Read)
    ensures |block| < 8 || WordIn(block, |block| - 4) != crc(block[..|block| - 4]) ==> r == Corrupt
    ensures IsBlock(block, es, crc) ==> r == Lookup(es, key)
  {
    hide IsBlock, Data, Restarts, Lookup, ScanAt, SkipsBefore;
    ghost var good := IsBlock(block, es, crc);
    if good { TrailerOf(block, es, crc); }
    if |block| < 8 { return Corrupt; }
    var num := WordIn(block, |block| - 8);
    if WordIn(block, |block| - 4) != crc(block[..|block| - 4]) { return Corrupt; }
    var trailer := num * 4 % U32_LIMIT;
    if trailer > |block| - 8 { return Undefined; }
    var start := |block| - 8 - trailer;
    if good { DataStart(block, es, crc); }
    var probe, left := SearchRestarts(block, start, num, key, es, crc);
    if probe.Halt? { return probe.why; }
    if good { StartIsEarlyEnough(block, es, crc, left, key); }
    var restart := if left > 0 then left - 1 else 0;
    if start + 4 * restart + 4 > |block| { return Undefined; }
    r := Scan(block, start, WordIn(block, start + 4 * restart), key, es, RESTART_INTERVAL * restart);
  }

  lemma DataStart(block: Bytes, es: seq<Entry>, crc: Crc)
    requires IsBlock(block, es, crc)
    ensures |Data(es)| + 4 * |Restarts(es)| + 8 == |block|
  {
  }
}
