/**
 Reading an SSTable: opening the file, point lookup, and the iterator compaction walks it with.
 */
module SstReader {
  import opened Bytes
  import opened LsmMerge
  import opened SstCodec
  import opened SstBlock
  import opened SstBloom
  import opened SstTable
  import opened SstFile

  /** The index entries of a buffer, one after the other. */
  method ReadIndex(buf: Bytes) returns (index: seq<IndexEntry>)
    ensures index == ParseIndex(buf)
  {
    hide ParseIndex, DecodeVarint, FromLittleEndian;
    index := [];
    var rest := buf;
    while rest != []
      invariant index + ParseIndex(rest) == ParseIndex(buf)
      decreases |rest|
    {
      ParseIndexStep(rest);
      var d := DecodeVarint(rest);
      var n, klen := d.1, d.0;
      if n == 0 || n + klen + 12 > |rest| { return; }
      var t := rest[n + klen..];
      index := index + [IndexEntry(rest[n..n + klen], FromLittleEndian(t[..8]), FromLittleEndian(t[8..12]))];
      rest := t[12..];
    }
    ParseIndexEmpty();
  }

  lemma ParseIndexEmpty()
    ensures ParseIndex([]) == []
  {
  }

  lemma ParseIndexStep(buf: Bytes)
    requires buf != []
    ensures var n, klen := DecodeVarint(buf).1, DecodeVarint(buf).0;
            if n == 0 || n + klen + 12 > |buf| then ParseIndex(buf) == []
            else
              var t := buf[n + klen..];
              var e := IndexEntry(buf[n..n + klen], FromLittleEndian(t[..8]), FromLittleEndian(t[8..12]));
              ParseIndex(buf) == [e] + ParseIndex(t[12..])
  {
  }

  /** Open a table file; everything but the data blocks is read into memory. */
  method OpenTable(file: Bytes, crc: Crc) returns (r: Opened)
    ensures r == Open(file, crc)
  {
    hide ParseFooter, Deserialize, ParseIndex;
    if |file| < FOOTER_SIZE { return Unreadable; }
    var f := ParseFooter(file[|file| - FOOTER_SIZE..], crc);
    if f.BadFooter? || f.f.bloomOffset + f.f.bloomSize > |file| { return Unreadable; }
    var bloom := Deserialize(file[f.f.bloomOffset..f.f.bloomOffset + f.f.bloomSize]);
    if bloom.Failed? || f.f.indexOffset + f.f.indexSize > |file| { return Unreadable; }
    var index := ReadIndex(file[f.f.indexOffset..f.f.indexOffset + f.f.indexSize]);
    return Opened(Table(file, f.f, bloom.b, index));
  }

  /** `t` was opened from a file written with these blocks, holding ascending entries. */
  ghost predicate IsTable(t: Table, bs: Blocks, hash: Hash, crc: Crc)
  {
    && t == Table(TableFile(bs, t.bloom, crc), FooterOf(bs, t.bloom, crc), t.bloom, IndexOf(bs, crc))
    && TableFits(bs, t.bloom, crc) && WellSized(t.bloom)
    && NoneEmpty(bs) && Ascending(Flat(bs)) && AllSized(Flat(bs))
    && (forall i: nat :: i < |Flat(bs)| ==> MayContain(t.bloom, hash, Flat(bs)[i].key))
  }

  lemma {:induction false} LastKeysAscend(bs: Blocks, i: nat, j: nat)
    requires Ascending(Flat(bs)) && NoneEmpty(bs) && i < j < |bs|
    ensures Less(LastKey(bs[i]), LastKey(bs[j]))
    decreases |bs|
  {
    hide Ascending;
    var n := |bs| - 1;
    AscendingParts(Flat(bs[..n]), bs[n]);
    if j < n {
      LastKeysAscend(bs[..n], i, j);
    } else {
      LastKeyInFlat(bs[..n], i);
    }
  }

  /** What the index says about block `i`, and that the file holds it there. */
  lemma IndexAt(t: Table, bs: Blocks, hash: Hash, crc: Crc, i: nat)
    requires IsTable(t, bs, hash, crc) && i < |bs|
    ensures |t.index| == |bs| && t.index[i].lastKey == LastKey(bs[i])
    ensures t.index[i].offset + t.index[i].size <= |t.file|
    ensures t.file[t.index[i].offset..t.index[i].offset + t.index[i].size] == Block(bs[i], crc)
    ensures IsBlock(Block(bs[i], crc), bs[i], crc)
  {
    hide FileBlocks, IndexBytes, Serialize, FooterBytes, Flat, IndexOf, Block, Ascending, MayContain;
    IndexPoints(bs, crc, i);
    BlockParts(bs, i);
    var a := FileBlocks(bs, crc);
    Parts(a, IndexBytes(IndexOf(bs, crc)), Serialize(t.bloom), FooterBytes(FooterOf(bs, t.bloom, crc), crc));
    var e := t.index[i];
    assert t.file[..|a|][e.offset..e.offset + e.size] == t.file[e.offset..e.offset + e.size];
  }

  lemma IndexLength(t: Table, bs: Blocks, hash: Hash, crc: Crc)
    requires IsTable(t, bs, hash, crc)
    ensures |t.index| == |bs| && WellSized(t.bloom)
  {
  }

  lemma IndexOrdered(t: Table, bs: Blocks, hash: Hash, crc: Crc, i: nat, j: nat, key: Bytes)
    requires IsTable(t, bs, hash, crc) && i <= j < |bs| && Less(LastKey(bs[j]), key)
    ensures Less(LastKey(bs[i]), key)
  {
    if i < j {
      LastKeysAscend(bs, i, j);
      LessTransitive(LastKey(bs[i]), LastKey(bs[j]), key);
    }
  }

  /** A key the filter rules out is not in the table. */
  lemma FilteredIsAbsent(t: Table, bs: Blocks, hash: Hash, crc: Crc, key: Bytes)
    requires IsTable(t, bs, hash, crc) && !MayContain(t.bloom, hash, key)
    ensures Lookup(Flat(bs), key) == NotFound
  {
    hide MayContain, Flat;
    LookupMisses(Flat(bs), key);
  }

  lemma TableLookup(t: Table, bs: Blocks, hash: Hash, crc: Crc, key: Bytes, left: nat)
    requires IsTable(t, bs, hash, crc) && left <= |bs|
    requires forall i: nat :: i < left ==> Less(LastKey(bs[i]), key)
    requires left < |bs| ==> !Less(LastKey(bs[left]), key)
    ensures Lookup(Flat(bs), key) == if left < |bs| then Lookup(bs[left], key) else NotFound
  {
    LookupInBlock(bs, key, left);
  }

  class Reader {
    const table: Table
    const bloom: BloomFilter
    const hash: Hash
    const crc: Crc

    ghost predicate Valid()
      reads this, bloom, bloom.bits
    {
      bloom.Valid() && bloom.Contents() == table.bloom
    }

    constructor (t: Table, hash: Hash, crc: Crc)
      requires WellSized(t.bloom)
      ensures Valid() && table == t && this.hash == hash && this.crc == crc
    {
      table, this.hash, this.crc := t, hash, crc;
      bloom := new BloomFilter.Load(t.bloom);
    }

    /** Binary search for the first block whose last key is not before `key`. */
    method FindBlock(key: Bytes, ghost bs: Blocks) returns (left: nat)
      ensures left <= |table.index|
      ensures IsTable(table, bs, hash, crc) ==>
                && |bs| == |table.index|
                && (forall i: nat :: i < left ==> Less(LastKey(bs[i]), key))
                && (left < |bs| ==> !Less(LastKey(bs[left]), key))
    {
      hide IsTable, LastKey;
      ghost var good := IsTable(table, bs, hash, crc);
      if good { IndexLength(table, bs, hash, crc); }
      left := 0;
      var right := |table.index|;
      while left < right
        invariant left <= right <= |table.index|
        invariant good ==> forall i: nat :: i < left ==> Less(LastKey(bs[i]), key)
        invariant good && right < |bs| ==> !Less(LastKey(bs[right]), key)
      {
        var mid := left + (right - left) / 2;
        if good { IndexAt(table, bs, hash, crc, mid); }
        if Less(table.index[mid].lastKey, key) {
          if good {
            forall i: nat | i <= mid ensures Less(LastKey(bs[i]), key) { IndexOrdered(table, bs, hash, crc, i, mid, key); }
          }
          left := mid + 1;
        } else {
          right := mid;
        }
      }
    }

    /** Point lookup: filter, index, then the one block that can hold the key. */
    method Get(key: Bytes, ghost bs: Blocks) returns (r: Read)
      requires Valid()
      ensures IsTable(table, bs, hash, crc) ==> r == Lookup(Flat(bs), key)
      ensures !MayContain(table.bloom, hash, key) ==> r == NotFound
    {
      hide IsTable, Lookup, Flat, LastKey, MayContain;
      ghost var good := IsTable(table, bs, hash, crc);
      var may := bloom.Query(hash, key);
      if !may {
        if good { FilteredIsAbsent(table, bs, hash, crc, key); }
        return NotFound;
      }
      var left := FindBlock(key, bs);
      if good { TableLookup(table, bs, hash, crc, key, left); }
      if left >= |table.index| { return NotFound; }
      if good { IndexAt(table, bs, hash, crc, left); }
      var e := table.index[left];
      if e.offset + e.size > |table.file| { return IoError; }
      ghost var es := if good then bs[left] else [];
      r := SearchBlock(table.file[e.offset..e.offset + e.size], key, crc, es);
    }
  }
}
