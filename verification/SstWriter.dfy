/**
 Writing an SSTable: entries are packed into blocks as they arrive, and the whole file, read back,
 answers every lookup as the entries do.
 */
module SstWriter {
  import opened Bytes
  import opened LsmMerge
  import opened SstCodec
  import opened SstBlock
  import opened SstBloom
  import opened SstTable
  import opened SstFile
  import opened SstReader

  const BLOCK_SIZE: nat := 4096

  datatype Option<T> = None | Some(value: T)

  // ---- Packing entries into blocks ----

  datatype Packed = Packed(blocks: Blocks, cur: seq<Entry>)

  function NextPiece(cur: seq<Entry>, e: Entry): Bytes
  {
    EncodeEntry(PrevKey(cur, |cur|), e, |cur| % RESTART_INTERVAL == 0)
  }

  /** Room for the entry, one more restart offset and the trailer. */
  predicate HasRoom(cur: seq<Entry>, e: Entry)
  {
    |Data(cur)| + |NextPiece(cur, e)| + (|Restarts(cur)| + 1) * 4 + 8 <= BLOCK_SIZE
  }

  function PackOne(p: Packed, e: Entry): Packed
  {
    if p.cur == [] || HasRoom(p.cur, e) then Packed(p.blocks, p.cur + [e]) else Packed(p.blocks + [p.cur], [e])
  }

  function Pack(es: seq<Entry>): Packed
  {
    if es == [] then Packed([], []) else PackOne(Pack(es[..|es| - 1]), es[|es| - 1])
  }

  function Closed(p: Packed): Blocks
  {
    if p.cur == [] then p.blocks else p.blocks + [p.cur]
  }

  lemma FlatSnoc(bs: Blocks, b: seq<Entry>)
    ensures Flat(bs + [b]) == Flat(bs) + b
  {
    assert (bs + [b])[..|bs|] == bs;
  }

  lemma PackOneKeeps(p: Packed, e: Entry)
    requires NoneEmpty(p.blocks)
    ensures var q := PackOne(p, e);
            Flat(q.blocks) + q.cur == Flat(p.blocks) + p.cur + [e] && NoneEmpty(q.blocks) && q.cur != []
  {
    hide HasRoom, Flat;
    FlatSnoc(p.blocks, p.cur);
  }

  lemma ClosedKeeps(p: Packed)
    requires NoneEmpty(p.blocks)
    ensures Flat(Closed(p)) == Flat(p.blocks) + p.cur && NoneEmpty(Closed(p))
  {
    hide Flat;
    FlatSnoc(p.blocks, p.cur);
  }

  lemma {:induction false} PackCovers(es: seq<Entry>)
    ensures var p := Pack(es);
            Flat(p.blocks) + p.cur == es && NoneEmpty(p.blocks) && (es != [] <==> p.cur != [])
    decreases |es|
  {
    hide PackOne, Flat, Pack;
    if es == [] {
      PackNothing();
    } else {
      var front, e := es[..|es| - 1], es[|es| - 1];
      PackCovers(front);
      PackOneKeeps(Pack(front), e);
      PackSnoc(front, e);
      assert es == front + [e];
    }
  }

  lemma PackNothing()
    ensures Pack([]) == Packed([], []) && Flat([]) == []
  {
  }

  /** Packing loses, repeats and reorders nothing. */
  lemma PackKeepsAll(es: seq<Entry>)
    ensures var p := Pack(es);
            && Flat(p.blocks) + p.cur == es && NoneEmpty(p.blocks) && (es != [] <==> p.cur != [])
            && Flat(Closed(p)) == es && NoneEmpty(Closed(p))
  {
    hide Pack, Flat, Closed;
    PackCovers(es);
    ClosedKeeps(Pack(es));
  }

  // ---- The block buffer never overflows ----

  /** The entry alone, with its restart offset and trailer, fits the buffer of two block sizes. */
  predicate FitsBuffer(e: Entry)
  {
    Sized(e) && |EncodeEntry([], e, true)| + 12 <= 2 * BLOCK_SIZE
  }

  predicate AllFitBuffer(es: seq<Entry>)
  {
    forall i: nat :: i < |es| ==> FitsBuffer(es[i])
  }

  function SealedSize(es: seq<Entry>): nat
  {
    |Data(es)| + 4 * |Restarts(es)| + 8
  }

  lemma AppendPiece(cur: seq<Entry>, e: Entry)
    ensures Data(cur + [e]) == Data(cur) + NextPiece(cur, e)
    ensures Restarts(cur + [e]) == Restarts(cur) + if |cur| % RESTART_INTERVAL == 0 then [|Data(cur)|] else []
  {
    hide EncodeEntry;
    assert (cur + [e])[..|cur|] == cur;
    assert PrevKey(cur + [e], |cur|) == PrevKey(cur, |cur|);
  }

  lemma SingleSize(e: Entry)
    ensures SealedSize([e]) == |EncodeEntry([], e, true)| + 12
  {
    AppendPiece([], e);
    assert [] + [e] == [e];
  }

  predicate Bounded(bs: Blocks)
  {
    forall i: nat :: i < |bs| ==> SealedSize(bs[i]) <= 2 * BLOCK_SIZE
  }

  /** No block, sealed or open, outgrows the buffer. */
  lemma {:induction false} BufferNeverOverflows(es: seq<Entry>)
    requires AllFitBuffer(es)
    ensures var p := Pack(es);
            && Bounded(p.blocks) && Bounded(Closed(p)) && (p.cur != [] ==> SealedSize(p.cur) <= 2 * BLOCK_SIZE)
    decreases |es|
  {
    if es != [] {
      hide SealedSize, EncodeEntry, Data, Restarts;
      var e := es[|es| - 1];
      BufferNeverOverflows(es[..|es| - 1]);
      var q := Pack(es[..|es| - 1]);
      SingleSize(e);
      assert [] + [e] == [e];
      if q.cur != [] { SizeAfter(q.cur, e); }
    }
  }

  lemma SizeAfter(cur: seq<Entry>, e: Entry)
    ensures HasRoom(cur, e) ==> SealedSize(cur + [e]) <= BLOCK_SIZE
  {
    AppendPiece(cur, e);
  }

  /** Blocks hold as much as fits: none but a single entry exceeds the block size, and none could have taken the next entry as well. */
  ghost predicate Tight(bs: Blocks)
  {
    && (forall i: nat :: i < |bs| ==> |bs[i]| == 1 || SealedSize(bs[i]) <= BLOCK_SIZE)
    && forall i: nat :: i + 1 < |bs| && bs[i + 1] != [] ==> SealedSize(bs[i] + [bs[i + 1][0]]) + 4 > BLOCK_SIZE
  }

  lemma {:induction false} PackIsTight(es: seq<Entry>)
    ensures Tight(Pack(es).blocks) && Tight(Closed(Pack(es)))
    decreases |es|
  {
    if es != [] {
      hide SealedSize, HasRoom;
      var e := es[|es| - 1];
      var p := Pack(es[..|es| - 1]);
      PackIsTight(es[..|es| - 1]);
      PackCovers(es[..|es| - 1]);
      OpenSize(p.cur, e);
      TightStep(p, e);
    }
  }

  lemma OpenSize(cur: seq<Entry>, e: Entry)
    ensures if HasRoom(cur, e) then SealedSize(cur + [e]) <= BLOCK_SIZE else SealedSize(cur + [e]) + 4 > BLOCK_SIZE
  {
    hide EncodeEntry;
    AppendPiece(cur, e);
  }

  lemma TightSnoc(bs: Blocks, c: seq<Entry>)
    requires Tight(bs) && (|c| == 1 || SealedSize(c) <= BLOCK_SIZE)
    requires bs != [] && c != [] ==> SealedSize(bs[|bs| - 1] + [c[0]]) + 4 > BLOCK_SIZE
    ensures Tight(bs + [c])
  {
    hide SealedSize;
    var cs := bs + [c];
    forall i: nat | i + 1 < |cs| && cs[i + 1] != [] ensures SealedSize(cs[i] + [cs[i + 1][0]]) + 4 > BLOCK_SIZE {
      if i + 1 < |bs| { assert cs[i + 1] == bs[i + 1]; }
    }
  }

  lemma TightStep(p: Packed, e: Entry)
    requires Tight(p.blocks) && Tight(Closed(p)) && NoneEmpty(p.blocks) && (p.cur == [] ==> p.blocks == [])
    requires if HasRoom(p.cur, e) then SealedSize(p.cur + [e]) <= BLOCK_SIZE else SealedSize(p.cur + [e]) + 4 > BLOCK_SIZE
    ensures Tight(PackOne(p, e).blocks) && Tight(Closed(PackOne(p, e)))
  {
    hide SealedSize, HasRoom;
    var bs := Closed(p);
    if p.cur == [] || HasRoom(p.cur, e) {
      var c := p.cur + [e];
      if p.blocks != [] { LastTight(p.blocks, p.cur, bs); }
      TightSnoc(p.blocks, c);
    } else {
      TightSnoc(bs, [e]);
    }
  }

  lemma LastTight(front: Blocks, c: seq<Entry>, bs: Blocks)
    requires bs == front + [c] && Tight(bs) && front != [] && c != []
    ensures SealedSize(front[|front| - 1] + [c[0]]) + 4 > BLOCK_SIZE
  {
    hide SealedSize;
    assert bs[|front|] == c && bs[|front| - 1] == front[|front| - 1];
  }

  // ---- The file ----

  function KeysOf(es: seq<Entry>): (r: seq<Bytes>)
    ensures |r| == |es| && forall i: nat :: i < |es| ==> r[i] == es[i].key
  {
    if es == [] then [] else KeysOf(es[..|es| - 1]) + [es[|es| - 1].key]
  }

  function NewFilter(estimated: nat): (b: Bloom)
    requires estimated * BITS_PER_KEY + 17 < U64_LIMIT
    ensures WellSized(b) && b.numBits >= (if estimated == 0 then 1000 else estimated) * BITS_PER_KEY
    ensures estimated > 0 ==> b.numBits < estimated * BITS_PER_KEY + 8 + BITS_PER_KEY
  {
    Create(if estimated > 0 then estimated else 1000)
  }

  function FilterOf(es: seq<Entry>, estimated: nat, hash: Hash): (b: Bloom)
    requires estimated * BITS_PER_KEY + 17 < U64_LIMIT
    ensures WellSized(b)
  {
    AddAll(NewFilter(estimated), hash, KeysOf(es))
  }

  /** The file written for `es`. */
  function Written(es: seq<Entry>, estimated: nat, hash: Hash, crc: Crc): Bytes
    requires estimated * BITS_PER_KEY + 17 < U64_LIMIT
  {
    TableFile(Closed(Pack(es)), FilterOf(es, estimated, hash), crc)
  }

  /** Whatever the writer was given in ascending order, opening the file gives a table of exactly that. */
  lemma WrittenOpens(es: seq<Entry>, estimated: nat, hash: Hash, crc: Crc)
    requires estimated * BITS_PER_KEY + 17 < U64_LIMIT && Ascending(es) && AllFitBuffer(es)
    requires TableFits(Closed(Pack(es)), FilterOf(es, estimated, hash), crc)
    ensures var o := Open(Written(es, estimated, hash, crc), crc);
            && o.Opened? && IsTable(o.t, Closed(Pack(es)), hash, crc) && Flat(Closed(Pack(es))) == es
            && o.t.footer.numEntries == |es|
            && (es != [] && |es[0].key| <= MAX_FOOTER_KEY ==> o.t.footer.minKey == es[0].key)
            && (es != [] && |es[|es| - 1].key| <= MAX_FOOTER_KEY ==> o.t.footer.maxKey == es[|es| - 1].key)
  {
    hide Pack, Open, TableFile, TableFits, MayContain, Closed, AddAll, EncodeEntry;
    var bs, bloom := Closed(Pack(es)), FilterOf(es, estimated, hash);
    PackKeepsAll(es);
    OpenRoundTrip(bs, bloom, crc);
    forall i: nat | i < |es| ensures MayContain(bloom, hash, es[i].key) {
      NoFalseNegatives(NewFilter(estimated), hash, KeysOf(es), i);
    }
  }

  // ---- The writer object ----

  /** The open block: its buffer, restart offsets, entries since the last restart, and previous key. */
  datatype BlockState = BlockState(buf: Bytes, restarts: seq<nat>, since: nat, prev: Option<Bytes>)

  function BlockOf(cur: seq<Entry>): BlockState
  {
    BlockState(Data(cur), Restarts(cur), if cur == [] then RESTART_INTERVAL else (|cur| - 1) % RESTART_INTERVAL + 1,
               if cur == [] then None else Some(LastKey(cur)))
  }

  lemma BlockAppend(cur: seq<Entry>, e: Entry)
    ensures var restart := |cur| % RESTART_INTERVAL == 0;
            var b := BlockOf(cur);
            && (b.since >= RESTART_INTERVAL <==> restart) && (cur == [] <==> b.prev.None?)
            && (cur != [] ==> b.prev == Some(PrevKey(cur, |cur|)))
            && BlockOf(cur + [e]) == BlockState(
                 b.buf + NextPiece(cur, e), b.restarts + (if restart then [|b.buf|] else []),
                 (if restart then 0 else b.since) + 1, Some(e.key))
  {
    hide NextPiece, Data, Restarts;
    AppendPiece(cur, e);
    assert (cur + [e])[|cur|] == e;
  }

  lemma StateOf(cur: seq<Entry>)
    ensures var b := BlockOf(cur);
            b.buf == Data(cur) && b.restarts == Restarts(cur) && (b.since >= RESTART_INTERVAL <==> |cur| % RESTART_INTERVAL == 0)
  {
    BlockAppend(cur, Entry([], [], false));
  }

  lemma {:induction false} EmptyBuffer(cur: seq<Entry>)
    requires AllSized(cur)
    ensures Data(cur) == [] <==> cur == []
  {
    if cur != [] {
      hide EncodeEntry;
      var n := |cur| - 1;
      EntryLength(PrevKey(cur, n), cur[n], n % RESTART_INTERVAL == 0);
    }
  }

  /** What has reached the file, and the statistics. */
  datatype FileState = FileState(
    file: Bytes, index: seq<IndexEntry>, numEntries: nat, minKey: Option<Bytes>, maxKey: Option<Bytes>)

  function FileOf(es: seq<Entry>, crc: Crc): FileState
  {
    var bs := Pack(es).blocks;
    FileState(FileBlocks(bs, crc), IndexOf(bs, crc), |es|,
              if es == [] then None else Some(es[0].key), if es == [] then None else Some(LastKey(es)))
  }

  function FlushedFile(f: FileState, cur: seq<Entry>, crc: Crc): FileState
  {
    f.(file := f.file + Block(cur, crc), index := f.index + [IndexEntry(LastKey(cur), |f.file|, |Block(cur, crc)|)])
  }

  lemma FlushedBlocks(bs: Blocks, cur: seq<Entry>, crc: Crc)
    ensures FileBlocks(bs + [cur], crc) == FileBlocks(bs, crc) + Block(cur, crc)
    ensures IndexOf(bs + [cur], crc)
            == IndexOf(bs, crc) + [IndexEntry(LastKey(cur), |FileBlocks(bs, crc)|, |Block(cur, crc)|)]
  {
    assert (bs + [cur])[..|bs|] == bs;
  }

  lemma PackSnoc(es: seq<Entry>, e: Entry)
    ensures Pack(es + [e]) == PackOne(Pack(es), e)
  {
    assert (es + [e])[..|es|] == es;
  }

  lemma FilterSnoc(es: seq<Entry>, e: Entry, estimated: nat, hash: Hash)
    requires estimated * BITS_PER_KEY + 17 < U64_LIMIT
    ensures FilterOf(es + [e], estimated, hash) == SstBloom.Add(FilterOf(es, estimated, hash), hash, e.key)
  {
    assert (es + [e])[..|es|] == es;
    assert KeysOf(es + [e])[..|es|] == KeysOf(es);
  }

  /** The open block holds some of the entries, and its buffer is empty only before its first. */
  lemma OpenBlock(es: seq<Entry>)
    requires AllFitBuffer(es)
    ensures Data(Pack(es).cur) == [] <==> Pack(es).cur == []
  {
    hide Pack, Flat, EncodeEntry;
    PackKeepsAll(es);
    var p := Pack(es);
    forall i: nat | i < |p.cur| ensures Sized(p.cur[i]) {
      assert (Flat(p.blocks) + p.cur)[|Flat(p.blocks)| + i] == p.cur[i];
    }
    EmptyBuffer(p.cur);
  }

  /** The file's state after one more entry. */
  lemma FileStep(es: seq<Entry>, e: Entry, crc: Crc)
    ensures var cur := Pack(es).cur;
            var f := if cur == [] || HasRoom(cur, e) then FileOf(es, crc) else FlushedFile(FileOf(es, crc), cur, crc);
            FileOf(es + [e], crc) == f.(
            numEntries := f.numEntries + 1, maxKey := Some(e.key), minKey := if f.minKey.None? then Some(e.key) else f.minKey)
  {
    hide HasRoom, FileBlocks, IndexOf, Pack, Block;
    PackSnoc(es, e);
    FlushedBlocks(Pack(es).blocks, Pack(es).cur, crc);
  }

  class Writer {
    const hash: Hash
    const crc: Crc
    const estimated: nat
    const bloom: BloomFilter
    var blk: BlockState
    var out: FileState
    ghost var es: seq<Entry>

    ghost predicate Valid()
      reads this, bloom, bloom.bits
    {
      && estimated * BITS_PER_KEY + 17 < U64_LIMIT && AllFitBuffer(es)
      && bloom.Valid() && bloom.Contents() == FilterOf(es, estimated, hash)
      && blk == BlockOf(Pack(es).cur) && out == FileOf(es, crc)
    }

    constructor (estimated: nat, hash: Hash, crc: Crc)
      requires estimated * BITS_PER_KEY + 17 < U64_LIMIT
      ensures Valid() && es == [] && fresh(bloom) && fresh(bloom.bits)
      ensures this.estimated == estimated && this.hash == hash && this.crc == crc
    {
      this.estimated, this.hash, this.crc := estimated, hash, crc;
      bloom := new BloomFilter(if estimated > 0 then estimated else 1000);
      blk := BlockState([], [], RESTART_INTERVAL, None);
      out := FileState([], [], 0, None, None);
      es := [];
    }

    /** Seal the open block, append it to the file and index it. */
    method FlushBlock(ghost cur: seq<Entry>)
      requires cur != [] && blk == BlockOf(cur)
      modifies this`blk, this`out
      ensures blk == BlockOf([])
      ensures out == FlushedFile(old(out), cur, crc)
    {
      hide Data, Restarts, U32, Words;
      var buf := blk.buf;
      WordsEmpty();
      for i := 0 to |blk.restarts|
        invariant blk == BlockOf(cur) && out == old(out)
        invariant buf == Data(cur) + Words(Restarts(cur)[..i])
      {
        WordsSnoc(Restarts(cur), i);
        buf := buf + U32(blk.restarts[i]);
      }
      assert Restarts(cur)[..|blk.restarts|] == Restarts(cur);
      buf := buf + U32(|blk.restarts|);
      buf := buf + U32(crc(buf));
      assert buf == Block(cur, crc);
      var e := IndexEntry(blk.prev.value, |out.file|, |buf|);
      out := out.(file := out.file + buf, index := out.index + [e]);
      blk := BlockState([], [], RESTART_INTERVAL, None);
      EmptyBlock();
    }

    lemma WordsSnoc(s: seq<nat>, i: nat)
      requires i < |s|
      ensures Words(s[..i + 1]) == Words(s[..i]) + U32(s[i])
    {
      assert s[..i + 1][..i] == s[..i];
    }

    lemma WordsEmpty()
      ensures Words([]) == []
    {
    }

    lemma EmptyBlock()
      ensures BlockOf([]) == BlockState([], [], RESTART_INTERVAL, None)
    {
    }

    /** Write one entry, opening a new block first when the current one is full. */
    method Add(e: Entry)
      requires Valid() && FitsBuffer(e)
      modifies this, bloom.bits
      ensures Valid() && es == old(es) + [e]
    {
      hide Pack, Data, Restarts, EncodeEntry, BlockOf, FileOf, FilterOf, SstBloom.Add, FitsBuffer, NextPiece;
      ghost var cur := Pack(es).cur;
      PackSnoc(es, e);
      FilterSnoc(es, e, estimated, hash);
      FileStep(es, e, crc);
      OpenBlock(es);
      StateOf(cur);
      bloom.AddKey(hash, e.key);
      var restart := blk.since >= RESTART_INTERVAL;
      var piece := EntryPiece(e, restart, cur);
      var full := |blk.buf| + |piece| + ((|blk.restarts| + 1) * 4 + 8) > BLOCK_SIZE && |blk.buf| > 0;
      if full {
        FlushBlock(cur);
        restart := true;
        piece := EntryPiece(e, restart, []);
        cur := [];
      }
      Append(e, restart, piece, cur);
      es := es + [e];
      assert [] + [e] == [e];
    }

    /** Record the restart point, the entry's bytes and the statistics. */
    method Append(e: Entry, restart: bool, piece: Bytes, ghost cur: seq<Entry>)
      requires blk == BlockOf(cur) && piece == NextPiece(cur, e) && (restart <==> |cur| % RESTART_INTERVAL == 0)
      modifies this`blk, this`out
      ensures blk == BlockOf(cur + [e])
      ensures out == old(out).(numEntries := old(out).numEntries + 1, maxKey := Some(e.key),
                               minKey := if old(out).minKey.None? then Some(e.key) else old(out).minKey)
    {
      BlockAppend(cur, e);
      blk := BlockState(
        blk.buf + piece, blk.restarts + (if restart then [|blk.buf|] else []), (if restart then 0 else blk.since) + 1, Some(e.key));
      out := out.(numEntries := out.numEntries + 1, maxKey := Some(e.key),
      minKey := if out.minKey.None? then Some(e.key) else out.minKey);
    }

    method EntryPiece(e: Entry, restart: bool, ghost cur: seq<Entry>) returns (piece: Bytes)
      requires blk == BlockOf(cur) && (restart <==> |cur| % RESTART_INTERVAL == 0)
      ensures piece == NextPiece(cur, e)
    {
      hide Varint, SharedPrefix, Data, Restarts;
      var shared := 0;
      if !restart && blk.prev.Some? { shared := SharedPrefixLength(blk.prev.value, e.key); }
      assert shared == SharedOf(PrevKey(cur, |cur|), e, restart);
      piece := EncodeVarint(shared);
      var part := EncodeVarint(|e.key| - shared);
      piece := piece + part;
      part := EncodeVarint(|e.value|);
      piece := piece + part;
      piece := piece + [if e.deleted then 1 else 0];
      piece := piece + e.key[shared..];
      piece := piece + e.value;
    }

    /** Flush what is open, then append index, filter and footer. */
    method Finish() returns (file: Bytes)
      requires Valid()
      modifies this`blk, this`out
      ensures file == Written(es, estimated, hash, crc)
    {
      hide Pack, Data, Restarts, BlockOf, FilterOf, FileOf, AllFitBuffer, IndexOf, FileBlocks, FooterBytes, Serialize;
      hide IndexBytes, FooterOf;
      ghost var p := Pack(es);
      ghost var bs := Closed(p);
      OpenBlock(es);
      StateOf(p.cur);
      FileParts(es, crc);
      if |blk.buf| > 0 {
        FlushedBlocks(p.blocks, p.cur, crc);
        FlushBlock(p.cur);
      }
      file := WriteIndex();
      FooterMatches(es, bloom.Contents(), crc);
      file := AddFooter(file);
      Reassociate(FileBlocks(bs, crc), IndexBytes(IndexOf(bs, crc)), Serialize(bloom.Contents()),
                  FooterBytes(FooterOf(bs, bloom.Contents(), crc), crc));
    }

    /** The filter and the footer behind the index. */
    method AddFooter(front: Bytes) returns (file: Bytes)
      requires bloom.Valid() && |front| >= |out.file|
      ensures var b := Serialize(bloom.Contents());
              file == front + b + FooterBytes(
                                    Footer(|out.file|, |front| - |out.file|, |front|, |b|, out.numEntries,
                                           FooterKeyIn(out.minKey), FooterKeyIn(out.maxKey)), crc)
    {
      hide FooterBytes, Serialize;
      var b := Serialize(bloom.Contents());
      var footer := Footer(
        |out.file|, |front| - |out.file|, |front|, |b|, out.numEntries, FooterKeyIn(out.minKey), FooterKeyIn(out.maxKey));
      file := front + b;
      file := file + FooterBytes(footer, crc);
    }

    method WriteIndex() returns (file: Bytes)
      ensures file == out.file + IndexBytes(out.index)
    {
      hide IndexEntryBytes;
      file := out.file;
      assert IndexBytes(out.index[..0]) == [];
      for i := 0 to |out.index|
        invariant file == out.file + IndexBytes(out.index[..i])
      {
        IndexBytesSnoc(out.index[..i], out.index[i]);
        assert out.index[..i + 1] == out.index[..i] + [out.index[i]];
        file := file + IndexEntryBytes(out.index[i]);
      }
      assert out.index[..|out.index|] == out.index;
    }
  }

  function FooterKeyIn(key: Option<Bytes>): (r: Bytes)
    ensures |r| <= MAX_FOOTER_KEY
  {
    if key.None? then [] else FooterKeyOf(key.value)
  }

  lemma Reassociate(a: Bytes, b: Bytes, c: Bytes, d: Bytes)
    ensures a + b + c + d == a + (b + (c + d))
  {
  }

  lemma FileParts(es: seq<Entry>, crc: Crc)
    ensures var f := FileOf(es, crc);
            && f.file == FileBlocks(Pack(es).blocks, crc) && f.index == IndexOf(Pack(es).blocks, crc) && f.numEntries == |es|
            && FooterKeyIn(f.minKey) == (if es == [] then [] else FooterKeyOf(es[0].key))
            && FooterKeyIn(f.maxKey) == FooterKeyOf(LastKey(es))
  {
  }

  lemma FooterMatches(es: seq<Entry>, bloom: Bloom, crc: Crc)
    ensures var bs := Closed(Pack(es));
            var data, index := |FileBlocks(bs, crc)|, |IndexBytes(IndexOf(bs, crc))|;
            FooterOf(bs, bloom, crc) == Footer(
                                          data, index, data + index, |Serialize(bloom)|, |es|,
                                          if es == [] then [] else FooterKeyOf(es[0].key), FooterKeyOf(LastKey(es)))
  {
    hide Pack, FileBlocks, IndexBytes;
    PackKeepsAll(es);
  }

  // ---- Writing, then reading ----

  /** Write all entries of a table, in order. */
  method WriteTable(es: seq<Entry>, estimated: nat, hash: Hash, crc: Crc) returns (file: Bytes)
    requires estimated * BITS_PER_KEY + 17 < U64_LIMIT && AllFitBuffer(es)
    ensures file == Written(es, estimated, hash, crc)
  {
    hide Pack, Closed, FilterOf, FitsBuffer, BlockOf, FileOf;
    var w := new Writer(estimated, hash, crc);
    for i := 0 to |es|
      invariant w.Valid() && w.es == es[..i] && fresh(w) && fresh(w.bloom) && fresh(w.bloom.bits)
      invariant w.estimated == estimated && w.hash == hash && w.crc == crc
    {
      assert es[..i + 1] == es[..i] + [es[i]];
      w.Add(es[i]);
    }
    assert es[..|es|] == es;
    file := w.Finish();
  }

  /** Write a table, open it again, and look one key up: exactly the entry with that key, or none. */
  method WriteThenGet(es: seq<Entry>, estimated: nat, key: Bytes, hash: Hash, crc: Crc) returns (r: Read)
    requires estimated * BITS_PER_KEY + 17 < U64_LIMIT && Ascending(es) && AllFitBuffer(es)
    requires TableFits(Closed(Pack(es)), FilterOf(es, estimated, hash), crc)
    ensures r == Lookup(es, key)
  {
    hide IsTable, TableFits, Pack, Closed, FilterOf, Ascending, Lookup, FitsBuffer, Written;
    var file := WriteTable(es, estimated, hash, crc);
    WrittenOpens(es, estimated, hash, crc);
    var o := OpenTable(file, crc);
    ghost var bs := Closed(Pack(es));
    IndexLength(o.t, bs, hash, crc);
    var reader := new Reader(o.t, hash, crc);
    r := reader.Get(key, bs);
  }
}
