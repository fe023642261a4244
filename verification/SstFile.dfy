/**
 A whole SSTable file as a list of blocks, opened again from its bytes.
 */
module SstFile {
  import opened Bytes
  import opened LsmMerge
  import opened SstCodec
  import opened SstBlock
  import opened SstBloom
  import opened SstTable

  type Blocks = seq<seq<Entry>>

  function Flat(bs: Blocks): seq<Entry>
  {
    if bs == [] then [] else Flat(bs[..|bs| - 1]) + bs[|bs| - 1]
  }

  function FileBlocks(bs: Blocks, crc: Crc): Bytes
  {
    if bs == [] then [] else FileBlocks(bs[..|bs| - 1], crc) + Block(bs[|bs| - 1], crc)
  }

  predicate NoneEmpty(bs: Blocks)
  {
    forall i: nat :: i < |bs| ==> bs[i] != []
  }

  function LastKey(es: seq<Entry>): Bytes
  {
    if es == [] then [] else es[|es| - 1].key
  }

  function IndexOf(bs: Blocks, crc: Crc): (r: seq<IndexEntry>)
    ensures |r| == |bs|
  {
    if bs == [] then []
    else
      var n := |bs| - 1;
      IndexOf(bs[..n], crc) + [IndexEntry(LastKey(bs[n]), |FileBlocks(bs[..n], crc)|, |Block(bs[n], crc)|)]
  }

  /** Each index entry points at its block. */
  lemma {:induction false} IndexPoints(bs: Blocks, crc: Crc, i: nat)
    requires i < |bs|
    ensures var e := IndexOf(bs, crc)[i];
            && e.lastKey == LastKey(bs[i]) && e.offset + e.size <= |FileBlocks(bs, crc)|
            && e.size == |Block(bs[i], crc)|
            && FileBlocks(bs, crc)[e.offset..e.offset + e.size] == Block(bs[i], crc)
    decreases |bs|
  {
    hide Block, FileBlocks, IndexOf;
    var n := |bs| - 1;
    var a, b := FileBlocks(bs[..n], crc), Block(bs[n], crc);
    LastBlock(bs, crc);
    if i < n {
      IndexPoints(bs[..n], crc, i);
      var e := IndexOf(bs[..n], crc)[i];
      assert (a + b)[e.offset..e.offset + e.size] == a[e.offset..e.offset + e.size];
    } else {
      assert (a + b)[|a|..|a| + |b|] == b;
    }
  }

  lemma LastBlock(bs: Blocks, crc: Crc)
    requires bs != []
    ensures var n := |bs| - 1;
            && FileBlocks(bs, crc) == FileBlocks(bs[..n], crc) + Block(bs[n], crc)
            && IndexOf(bs, crc) == IndexOf(bs[..n], crc) + [IndexEntry(LastKey(bs[n]), |FileBlocks(bs[..n], crc)|, |Block(bs[n], crc)|)]
  {
    hide Block;
  }

  // ---- The file ----

  function FooterKeyOf(key: Bytes): (r: Bytes)
    ensures |r| <= MAX_FOOTER_KEY
  {
    if |key| <= MAX_FOOTER_KEY then key else []
  }

  function FooterOf(bs: Blocks, bloom: Bloom, crc: Crc): (f: Footer)
    ensures |f.minKey| <= MAX_FOOTER_KEY && |f.maxKey| <= MAX_FOOTER_KEY
  {
    var data, index := |FileBlocks(bs, crc)|, |IndexBytes(IndexOf(bs, crc))|;
    var es := Flat(bs);
    Footer(data, index, data + index, |Serialize(bloom)|, |es|,
           if es == [] then [] else FooterKeyOf(es[0].key), FooterKeyOf(LastKey(es)))
  }

  function TableFile(bs: Blocks, bloom: Bloom, crc: Crc): Bytes
  {
    FileBlocks(bs, crc) + (IndexBytes(IndexOf(bs, crc)) + (Serialize(bloom) + FooterBytes(FooterOf(bs, bloom, crc), crc)))
  }

  /** Every length and offset fits the field it is stored in. */
  predicate TableFits(bs: Blocks, bloom: Bloom, crc: Crc)
  {
    && |FileBlocks(bs, crc)| + |IndexBytes(IndexOf(bs, crc))| < U64_LIMIT
    && |IndexBytes(IndexOf(bs, crc))| < U32_LIMIT && |Serialize(bloom)| < U32_LIMIT && bloom.numBits + 7 < U64_LIMIT
    && |Flat(bs)| < U64_LIMIT
    && (forall i: nat :: i < |bs| ==> |Block(bs[i], crc)| < U32_LIMIT && |LastKey(bs[i])| < U64_LIMIT)
  }

  // ---- Opening ----

  datatype Table = Table(file: Bytes, footer: Footer, bloom: Bloom, index: seq<IndexEntry>)

  datatype Opened = Unreadable | Opened(t: Table)

  function Open(file: Bytes, crc: Crc): Opened
  {
    if |file| < FOOTER_SIZE then Unreadable
    else
      var f := ParseFooter(file[|file| - FOOTER_SIZE..], crc);
      if f.BadFooter? || f.f.bloomOffset + f.f.bloomSize > |file| then Unreadable
      else
        var bloom := Deserialize(file[f.f.bloomOffset..f.f.bloomOffset + f.f.bloomSize]);
        if bloom.Failed? || f.f.indexOffset + f.f.indexSize > |file| then Unreadable
        else
          Opened(Table(file, f.f, bloom.b, ParseIndex(file[f.f.indexOffset..f.f.indexOffset + f.f.indexSize])))
  }

  lemma IndexFits(bs: Blocks, bloom: Bloom, crc: Crc, i: nat)
    requires TableFits(bs, bloom, crc) && i < |bs|
    ensures IndexEntryFits(IndexOf(bs, crc)[i])
  {
    hide FileBlocks, IndexBytes, Flat;
    IndexPoints(bs, crc, i);
  }

  lemma Parts(a: Bytes, b: Bytes, c: Bytes, d: Bytes)
    ensures var f := a + (b + (c + d));
            && f[..|a|] == a && f[|a|..|a| + |b|] == b && f[|a| + |b|..|a| + |b| + |c|] == c && f[|f| - |d|..] == d
  {
  }

  lemma OpenParts(file: Bytes, b: Bytes, c: Bytes, f: Footer, bloom: Bloom, crc: Crc)
    requires FooterFits(f) && FOOTER_SIZE <= |file| && file[|file| - FOOTER_SIZE..] == FooterBytes(f, crc)
    requires f.indexOffset + f.indexSize <= |file| && file[f.indexOffset..f.indexOffset + f.indexSize] == b
    requires f.bloomOffset + f.bloomSize <= |file| && file[f.bloomOffset..f.bloomOffset + f.bloomSize] == c
    requires Deserialize(c) == Loaded(bloom)
    ensures Open(file, crc) == Opened(Table(file, f, bloom, ParseIndex(b)))
  {
    hide ParseFooter, FooterBytes, Deserialize, ParseIndex;
    FooterRoundTrip(f, crc);
  }

  /** Opening a written file recovers its footer, its filter and its index. */
  lemma OpenRoundTrip(bs: Blocks, bloom: Bloom, crc: Crc)
    requires TableFits(bs, bloom, crc) && WellSized(bloom)
    ensures Open(TableFile(bs, bloom, crc), crc)
            == Opened(Table(TableFile(bs, bloom, crc), FooterOf(bs, bloom, crc), bloom, IndexOf(bs, crc)))
  {
    hide FileBlocks, IndexBytes, Serialize, FooterBytes, Flat, IndexOf, Block, Open;
    var index := IndexOf(bs, crc);
    forall i: nat | i < |index| ensures IndexEntryFits(index[i]) { IndexFits(bs, bloom, crc, i); }
    SerializeRoundTrip(bloom);
    IndexRoundTrip(index);
    var a, b, c, f := FileBlocks(bs, crc), IndexBytes(index), Serialize(bloom), FooterOf(bs, bloom, crc);
    Parts(a, b, c, FooterBytes(f, crc));
    hide TableFits;
    OpenParts(TableFile(bs, bloom, crc), b, c, f, bloom, crc);
  }

  // ---- Lookup, block by block ----

  lemma {:induction false} LookupConcat(a: seq<Entry>, b: seq<Entry>, key: Bytes)
    ensures Lookup(a + b, key) == if Lookup(a, key) == NotFound then Lookup(b, key) else Lookup(a, key)
    decreases |a|
  {
    if a == [] {
      assert a + b == b;
    } else {
      LookupConcat(a[1..], b, key);
      assert (a + b)[1..] == a[1..] + b;
    }
  }

  lemma {:induction false} LookupAllBelow(es: seq<Entry>, key: Bytes)
    requires forall i: nat :: i < |es| ==> Less(es[i].key, key)
    ensures Lookup(es, key) == NotFound
  {
    LessIrreflexive(key);
    LookupMisses(es, key);
  }

  lemma {:induction false} LookupAllAbove(es: seq<Entry>, key: Bytes)
    requires forall i: nat :: i < |es| ==> Less(key, es[i].key)
    ensures Lookup(es, key) == NotFound
  {
    LessIrreflexive(key);
    LookupMisses(es, key);
  }

  /** No entry up to the last of `es` is as late as `key`. */
  lemma BelowLast(es: seq<Entry>, key: Bytes)
    requires Ascending(es) && es != [] && Less(LastKey(es), key)
    ensures forall i: nat :: i < |es| ==> Less(es[i].key, key)
  {
    forall i: nat | i < |es| ensures Less(es[i].key, key) {
      if i < |es| - 1 { LessTransitive(es[i].key, LastKey(es), key); }
    }
  }

  lemma AscendingParts(a: seq<Entry>, b: seq<Entry>)
    requires Ascending(a + b)
    ensures Ascending(a) && Ascending(b)
    ensures forall i: nat, j: nat :: i < |a| && j < |b| ==> Less(a[i].key, b[j].key)
  {
    forall i, j | 0 <= i < j < |a| ensures Less(a[i].key, a[j].key) { assert (a + b)[i] == a[i] && (a + b)[j] == a[j]; }
    forall i, j | 0 <= i < j < |b| ensures Less(b[i].key, b[j].key) {
      assert (a + b)[|a| + i] == b[i] && (a + b)[|a| + j] == b[j];
    }
    forall i: nat, j: nat | i < |a| && j < |b| ensures Less(a[i].key, b[j].key) {
      assert (a + b)[i] == a[i] && (a + b)[|a| + j] == b[j];
    }
  }

  /** The first block whose last key is not before `key` decides the lookup; with no such block it fails. */
  lemma {:induction false} LookupInBlock(bs: Blocks, key: Bytes, left: nat)
    requires Ascending(Flat(bs)) && NoneEmpty(bs) && left <= |bs|
    requires forall i: nat :: i < left ==> Less(LastKey(bs[i]), key)
    requires left < |bs| ==> !Less(LastKey(bs[left]), key)
    ensures Lookup(Flat(bs), key) == if left < |bs| then Lookup(bs[left], key) else NotFound
    decreases |bs|
  {
    if bs != [] {
      hide Ascending, Lookup;
      var n := |bs| - 1;
      var front, last := Flat(bs[..n]), bs[n];
      AscendingParts(front, last);
      LookupConcat(front, last, key);
      if left == |bs| {
        LookupInBlock(bs[..n], key, n);
        BelowLast(last, key);
        LookupAllBelow(last, key);
      } else {
        LookupInBlock(bs[..n], key, left);
        if left < n { LaterBlockMisses(bs, key, left); }
      }
    }
  }

  /** A block after the deciding one cannot hold the key. */
  lemma LaterBlockMisses(bs: Blocks, key: Bytes, left: nat)
    requires Ascending(Flat(bs)) && NoneEmpty(bs) && left < |bs| - 1 && !Less(LastKey(bs[left]), key)
    ensures Lookup(bs[|bs| - 1], key) == NotFound
  {
    hide Ascending, Lookup;
    var n := |bs| - 1;
    var front, last := Flat(bs[..n]), bs[n];
    AscendingParts(front, last);
    LastKeyInFlat(bs[..n], left);
    var k := LastKey(bs[left]);
    LessTotal(k, key);
    forall j: nat | j < |last| ensures Less(key, last[j].key) {
      if Less(key, k) { LessTransitive(key, k, last[j].key); }
    }
    LookupAllAbove(last, key);
  }

  lemma {:induction false} LastKeyInFlat(bs: Blocks, i: nat)
    requires i < |bs| && bs[i] != []
    ensures exists x: nat :: x < |Flat(bs)| && Flat(bs)[x].key == LastKey(bs[i])
    decreases |bs|
  {
    var n := |bs| - 1;
    var front := Flat(bs[..n]);
    if i < n {
      LastKeyInFlat(bs[..n], i);
      var x: nat :| x < |front| && front[x].key == LastKey(bs[i]);
      assert Flat(bs)[x] == front[x];
    } else {
      assert Flat(bs)[|front| + |bs[n]| - 1] == bs[n][|bs[n]| - 1];
    }
  }

  lemma {:induction false} BlockParts(bs: Blocks, i: nat)
    requires i < |bs| && Ascending(Flat(bs)) && AllSized(Flat(bs))
    ensures Ascending(bs[i]) && AllSized(bs[i])
    decreases |bs|
  {
    hide Ascending;
    var n := |bs| - 1;
    var front, last := Flat(bs[..n]), bs[n];
    AscendingParts(front, last);
    assert forall x: nat :: x < |front| ==> Flat(bs)[x] == front[x];
    assert forall x: nat :: x < |last| ==> Flat(bs)[|front| + x] == last[x];
    if i < n { BlockParts(bs[..n], i); }
  }
}
