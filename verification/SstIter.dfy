/**
 The iterator compaction reads tables with, and the merge of whole tables into a new one.
 */
module SstIter {
  import opened Bytes
  import opened LsmMerge
  import opened LsmMergeRun
  import opened LsmMergeIter
  import opened SstCodec
  import opened SstBlock
  import opened SstBloom
  import opened SstTable
  import opened SstFile
  import opened SstReader
  import opened SstWriter

  /** The loaded block, the position behind the current entry, and that entry. */
  datatype Cursor = Cursor(
    block: Bytes, number: nat, pos: nat, dataEnd: nat, key: Bytes, value: Bytes, deleted: bool, valid: bool)
  {
    function Current(): Entry { Entry(key, value, deleted) }
  }

  /** The cursor shows entry `i` of block `b` and stands behind it. */
  ghost predicate Shows(c: Cursor, bs: Blocks, crc: Crc, b: nat, i: nat)
  {
    && b < |bs| && i < |bs[b]| && c.number == b && c.Current() == bs[b][i]
    && c.block == Block(bs[b], crc) && c.dataEnd == |Data(bs[b])| <= |c.block|
    && ScanAt(c.block[..c.dataEnd], c.pos, bs[b], i + 1, c.key)
  }

  /** Where that entry stands in the whole table. */
  function Rank(bs: Blocks, b: nat, i: nat): nat
    requires b < |bs|
  {
    |Flat(bs[..b])| + i
  }

  lemma {:induction false} FlatSplits(bs: Blocks, b: nat)
    requires b < |bs|
    ensures Rank(bs, b, |bs[b]|) == |Flat(bs[..b + 1])| <= |Flat(bs)|
    ensures forall i: nat :: i < |bs[b]| ==> Flat(bs)[Rank(bs, b, i)] == bs[b][i]
    decreases |bs|
  {
    hide Flat;
    var n := |bs| - 1;
    FlatLast(bs);
    FlatLast(bs[..b + 1]);
    assert bs[..b + 1][..b] == bs[..b];
    var front, last := Flat(bs[..n]), bs[n];
    if b < n {
      FlatSplits(bs[..n], b);
      assert bs[..n][..b] == bs[..b] && bs[..n][..b + 1] == bs[..b + 1];
      assert forall i: nat :: i < |front| ==> (front + last)[i] == front[i];
    } else {
      assert bs[..n + 1] == bs;
      assert forall i: nat :: i < |last| ==> (front + last)[|front| + i] == last[i];
    }
  }

  lemma FlatLast(bs: Blocks)
    requires bs != []
    ensures Flat(bs) == Flat(bs[..|bs| - 1]) + bs[|bs| - 1]
  {
  }

  lemma {:induction false} FlatEmpty(bs: Blocks)
    requires NoneEmpty(bs)
    ensures Flat(bs) == [] <==> bs == []
  {
  }

  /** Outcome of parsing: the cursor moved to the next entry of its block, or stopped. */
  function ParseNext(c: Cursor): (r: Cursor)
    requires c.pos <= c.dataEnd <= |c.block|
    ensures r.valid ==> c.pos < r.pos <= r.dataEnd && r.dataEnd == c.dataEnd && r.block == c.block && r.number == c.number
  {
    if c.pos >= c.dataEnd then c.(valid := false)
    else
      var t := c.block[c.pos..c.dataEnd];
      var h := ParseHeader(t);
      if h.Broken? || h.size + h.unshared + h.valueLength > |t| || h.shared > |c.key| then c.(valid := false)
      else
        var v := h.size + h.unshared;
        c.(pos := c.pos + v + h.valueLength, key := c.key[..h.shared] + t[h.size..v],
        value := t[v..v + h.valueLength], deleted := h.deleted, valid := true)
  }

  /** Parsing in the middle of a block shows the next entry; at its end, parsing stops. */
  lemma ParseNextShows(c: Cursor, bs: Blocks, crc: Crc, b: nat, i: nat)
    requires b < |bs| && i <= |bs[b]| && c.number == b && c.block == Block(bs[b], crc)
    requires c.dataEnd == |Data(bs[b])| <= |c.block| && c.pos <= c.dataEnd
    requires ScanAt(c.block[..c.dataEnd], c.pos, bs[b], i, c.key)
    ensures ParseNext(c).valid <==> i < |bs[b]|
    ensures i < |bs[b]| ==> Shows(ParseNext(c), bs, crc, b, i)
  {
    hide ScanAt, Block, Data, ParseHeader, Lookup;
    var data := c.block[..c.dataEnd];
    if c.pos < c.dataEnd {
      ScanStep(data, c.pos, bs[b], i, c.key, []);
      assert c.block[c.pos..c.dataEnd] == data[c.pos..];
    } else {
      ScanFinished(data, c.pos, bs[b], i, c.key);
    }
  }

  lemma ScanFinished(data: Bytes, pos: nat, es: seq<Entry>, i: nat, cur: Bytes)
    requires ScanAt(data, pos, es, i, cur) && pos >= |data|
    ensures i == |es|
  {
    hide Data;
    if i < |es| { ParseAt(es, i, cur); }
  }

  /** Load block `n`; fails where the index, the file or the trailer does not allow it. */
  function LoadBlock(t: Table, c: Cursor, n: nat): (r: Cursor)
    ensures r.valid ==> n < |t.index| && r.number == n && r.pos == 0 && r.dataEnd <= |r.block| && r.key == []
  {
    if n >= |t.index| || t.index[n].offset + t.index[n].size > |t.file| || t.index[n].size < 8 then c.(valid := false)
    else
      var e := t.index[n];
      var block := t.file[e.offset..e.offset + e.size];
      var trailer := WordIn(block, |block| - 8) * 4 % U32_LIMIT;
      if trailer > |block| - 8 then c.(valid := false)
      else c.(block := block, number := n, pos := 0, dataEnd := |block| - 8 - trailer, key := [], valid := true)
  }

  lemma LoadBlockStarts(t: Table, c: Cursor, bs: Blocks, hash: Hash, crc: Crc, b: nat)
    requires IsTable(t, bs, hash, crc) && b < |bs|
    ensures var r := LoadBlock(t, c, b);
            && r.valid && r.block == Block(bs[b], crc) && r.dataEnd == |Data(bs[b])|
            && ScanAt(r.block[..r.dataEnd], 0, bs[b], 0, r.key) && bs[b] != []
  {
    hide Block, Data, IsTable, Restarts;
    IndexAt(t, bs, hash, crc, b);
    var block := Block(bs[b], crc);
    TrailerOf(block, bs[b], crc);
    DataStart(block, bs[b], crc);
    RestartAt(bs[b], 0);
    NotEmptyBlock(bs[b], crc);
    RestartKey(block, bs[b], crc, 0);
    ScanStarts(block[..|Data(bs[b])|], bs[b], crc, block);
  }

  lemma NotEmptyBlock(es: seq<Entry>, crc: Crc)
    requires IsBlock(Block(es, crc), es, crc)
    ensures es != []
  {
  }

  lemma ScanStarts(data: Bytes, es: seq<Entry>, crc: Crc, block: Bytes)
    requires IsBlock(block, es, crc) && data == Data(es)
    ensures ScanAt(data, 0, es, 0, [])
  {
    assert es[..0] == [];
  }

  // ---- Stepping through the table ----

  /** The cursor shows the table's entry number `r`. */
  ghost predicate ShowsRank(c: Cursor, bs: Blocks, crc: Crc, r: nat)
  {
    exists b: nat, i: nat :: Shows(c, bs, crc, b, i) && Rank(bs, b, i) == r
  }

  predicate InPlace(t: Table, c: Cursor)
  {
    c.valid ==> c.number < |t.index| && c.pos <= c.dataEnd <= |c.block|
  }

  function FirstCursor(t: Table, c: Cursor): (r: Cursor)
    ensures InPlace(t, r)
  {
    var l := LoadBlock(t, c, 0);
    if |t.index| == 0 then c.(valid := false) else if l.valid then ParseNext(l) else l
  }

  function NextCursor(t: Table, c: Cursor): (r: Cursor)
    requires c.valid && InPlace(t, c)
    ensures InPlace(t, r)
    ensures r.valid ==> r.number > c.number || (r.number == c.number && r.dataEnd == c.dataEnd && r.pos > c.pos)
  {
    var tried := ParseNext(c);
    if tried.valid then tried
    else
      var l := LoadBlock(t, tried, c.number + 1);
      if c.number + 1 < |t.index| && l.valid then ParseNext(l) else tried
  }

  lemma TableFacts(t: Table, bs: Blocks, hash: Hash, crc: Crc)
    requires IsTable(t, bs, hash, crc)
    ensures |t.index| == |bs| && NoneEmpty(bs) && (Flat(bs) == [] <==> bs == [])
  {
    FlatEmpty(bs);
  }

  lemma RankSteps(bs: Blocks, b: nat, i: nat)
    requires b < |bs| && i < |bs[b]| && NoneEmpty(bs)
    ensures Rank(bs, b, i + 1) == Rank(bs, b, i) + 1 <= |Flat(bs)|
    ensures i + 1 < |bs[b]| ==> Rank(bs, b, i) + 1 < |Flat(bs)|
    ensures i + 1 == |bs[b]| && b + 1 < |bs| ==> Rank(bs, b + 1, 0) == Rank(bs, b, i) + 1 < |Flat(bs)|
    ensures i + 1 == |bs[b]| && b + 1 == |bs| ==> Rank(bs, b, i) + 1 == |Flat(bs)|
  {
    hide Flat;
    FlatSplits(bs, b);
    assert bs[..|bs|] == bs;
    if b + 1 < |bs| { FlatSplits(bs, b + 1); }
  }

  lemma FirstShows(t: Table, c: Cursor, bs: Blocks, hash: Hash, crc: Crc)
    requires IsTable(t, bs, hash, crc)
    ensures FirstCursor(t, c).valid <==> Flat(bs) != []
    ensures FirstCursor(t, c).valid ==> ShowsRank(FirstCursor(t, c), bs, crc, 0)
  {
    hide IsTable, Shows, LoadBlock, ParseNext, Flat, NoneEmpty;
    TableFacts(t, bs, hash, crc);
    if bs != [] {
      LoadBlockStarts(t, c, bs, hash, crc, 0);
      ParseNextShows(LoadBlock(t, c, 0), bs, crc, 0, 0);
      assert bs[..0] == [];
      FlatNone();
      assert Rank(bs, 0, 0) == 0;
    }
  }

  lemma FlatNone()
    ensures Flat([]) == []
  {
  }

  /** One step shows the next entry, and stops exactly behind the last. */
  lemma NextShows(t: Table, c: Cursor, bs: Blocks, hash: Hash, crc: Crc, r: nat)
    requires IsTable(t, bs, hash, crc) && c.valid && InPlace(t, c) && ShowsRank(c, bs, crc, r)
    ensures NextCursor(t, c).valid <==> r + 1 < |Flat(bs)|
    ensures NextCursor(t, c).valid ==> ShowsRank(NextCursor(t, c), bs, crc, r + 1)
  {
    hide IsTable, LoadBlock, ParseNext, Flat, NoneEmpty, NextCursor, ScanAt;
    var b: nat, i: nat :| Shows(c, bs, crc, b, i) && Rank(bs, b, i) == r;
    TableFacts(t, bs, hash, crc);
    ParsedOn(t, c, bs, hash, crc, b, i);
    NextShowsAt(t, c, bs, hash, crc, b, i);
    RankSteps(bs, b, i);
  }

  lemma ParsedOn(t: Table, c: Cursor, bs: Blocks, hash: Hash, crc: Crc, b: nat, i: nat)
    requires IsTable(t, bs, hash, crc) && InPlace(t, c) && c.valid && Shows(c, bs, crc, b, i)
    ensures c.number == b < |bs| && i < |bs[b]|
    ensures ParseNext(c).valid <==> i + 1 < |bs[b]|
    ensures ParseNext(c).valid ==> Shows(ParseNext(c), bs, crc, b, i + 1)
  {
    hide IsTable, LoadBlock, ParseNext, NoneEmpty, ScanAt;
    ParseNextShows(c, bs, crc, b, i + 1);
  }

  /** Behind the last entry of a block, the first of the next block follows. */
  lemma NextBlockShows(t: Table, tried: Cursor, bs: Blocks, hash: Hash, crc: Crc, b: nat)
    requires IsTable(t, bs, hash, crc) && b < |bs|
    ensures LoadBlock(t, tried, b).valid
    ensures ParseNext(LoadBlock(t, tried, b)).valid && Shows(ParseNext(LoadBlock(t, tried, b)), bs, crc, b, 0)
  {
    hide IsTable, LoadBlock, ParseNext, ScanAt, Shows;
    LoadBlockStarts(t, tried, bs, hash, crc, b);
    ParseNextShows(LoadBlock(t, tried, b), bs, crc, b, 0);
  }

  lemma NextShowsAt(t: Table, c: Cursor, bs: Blocks, hash: Hash, crc: Crc, b: nat, i: nat)
    requires IsTable(t, bs, hash, crc) && InPlace(t, c) && c.valid && Shows(c, bs, crc, b, i) && |t.index| == |bs|
    requires b < |bs| && i < |bs[b]| && c.number == b
    requires ParseNext(c).valid <==> i + 1 < |bs[b]|
    requires ParseNext(c).valid ==> Shows(ParseNext(c), bs, crc, b, i + 1)
    ensures NextCursor(t, c).valid <==> i + 1 < |bs[b]| || b + 1 < |bs|
    ensures i + 1 < |bs[b]| ==> Shows(NextCursor(t, c), bs, crc, b, i + 1)
    ensures i + 1 == |bs[b]| && b + 1 < |bs| ==> Shows(NextCursor(t, c), bs, crc, b + 1, 0)
  {
    hide IsTable, LoadBlock, ParseNext, Shows;
    if b + 1 < |bs| { NextBlockShows(t, ParseNext(c), bs, hash, crc, b + 1); }
  }

  lemma ShownAt(c: Cursor, bs: Blocks, crc: Crc, r: nat)
    requires ShowsRank(c, bs, crc, r)
    ensures r < |Flat(bs)| && Flat(bs)[r] == c.Current()
  {
    hide Flat;
    var b: nat, i: nat :| Shows(c, bs, crc, b, i) && Rank(bs, b, i) == r;
    FlatSplits(bs, b);
  }

  class TableIter {
    const table: Table
    var c: Cursor

    constructor (t: Table)
      ensures table == t && !c.valid
    {
      table := t;
      c := Cursor([], 0, 0, 0, [], [], false, false);
    }

    method SeekToFirst()
      modifies this
      ensures c == FirstCursor(table, old(c))
    {
      if |table.index| == 0 {
        c := c.(valid := false);
        return;
      }
      c := LoadBlock(table, c, 0);
      if !c.valid { return; }
      c := ParseNext(c);
    }

    method Next()
      requires InPlace(table, c)
      modifies this
      ensures c == if old(c).valid then NextCursor(table, old(c)) else old(c)
    {
      hide ParseNext, LoadBlock;
      if !c.valid { return; }
      var tried := ParseNext(c);
      if !tried.valid && c.number + 1 < |table.index| {
        var loaded := LoadBlock(table, tried, c.number + 1);
        if loaded.valid {
          c := ParseNext(loaded);
          return;
        }
      }
      c := tried;
    }
  }

  /** Walking the iterator from the first entry shows exactly the table's entries, in order. */
  method Collect(t: Table, ghost bs: Blocks, ghost hash: Hash, ghost crc: Crc) returns (es: seq<Entry>)
    ensures IsTable(t, bs, hash, crc) ==> es == Flat(bs)
  {
    hide IsTable, Flat, ShowsRank, FirstCursor, NextCursor;
    ghost var good := IsTable(t, bs, hash, crc);
    var it := new TableIter(t);
    if good { FirstShows(t, it.c, bs, hash, crc); }
    it.SeekToFirst();
    es := [];
    while it.c.valid
      invariant it.table == t && fresh(it) && InPlace(t, it.c)
      invariant good ==> |es| <= |Flat(bs)| && es == Flat(bs)[..|es|] && (it.c.valid <==> |es| < |Flat(bs)|)
      invariant good && it.c.valid ==> ShowsRank(it.c, bs, crc, |es|)
      decreases it.c.valid, |t.index| - it.c.number, it.c.dataEnd - it.c.pos
    {
      if good {
        ShownAt(it.c, bs, crc, |es|);
        NextShows(t, it.c, bs, hash, crc, |es|);
      }
      es := es + [it.c.Current()];
      it.Next();
    }
  }

  // ---- Compaction of whole tables ----

  /** Lookup in an ascending list is lookup in the map it stands for. */
  lemma {:induction false} LookupIsMap(es: seq<Entry>, key: Bytes)
    requires Ascending(es)
    ensures Lookup(es, key) == if key in ToMap(es) then Shown(ToMap(es)[key]) else NotFound
  {
    hide Ascending, ToMap, Lookup;
    ToMapHas(es, key);
    if x: nat :| x < |es| && es[x].key == key {
      LookupFinds(es, x);
    } else {
      LookupMisses(es, key);
    }
  }

  /**
   Read the tables, merge them and look a key up in the merged entries: the highest-numbered table
   that has the key decides, and tombstones vanish at the bottommost level.
   */
  method MergeTables(
    ts: seq<Table>, bottommost: bool, ghost bss: seq<Blocks>, ghost hash: Hash, ghost crc: Crc)
    returns (merged: seq<Entry>)
    requires |bss| == |ts| && forall i: nat :: i < |ts| ==> IsTable(ts[i], bss[i], hash, crc)
    ensures Ascending(merged)
    ensures ToMap(merged) == Surviving(Overlay(seq(|bss|, i requires 0 <= i < |bss| => Flat(bss[i]))), bottommost)
  {
    hide IsTable, Flat, Ascending, ToMap, Overlay, Surviving;
    var inputs: Inputs := [];
    for i := 0 to |ts|
      invariant |inputs| == i
      invariant forall j: nat :: j < i ==> inputs[j] == Flat(bss[j]) && Ascending(inputs[j])
    {
      var es := Collect(ts[i], bss[i], hash, crc);
      TableAscends(ts[i], bss[i], hash, crc);
      inputs := inputs + [es];
    }
    assert inputs == seq(|bss|, i requires 0 <= i < |bss| => Flat(bss[i]));
    merged := MergeAll(inputs, bottommost);
  }

  lemma TableAscends(t: Table, bs: Blocks, hash: Hash, crc: Crc)
    requires IsTable(t, bs, hash, crc)
    ensures Ascending(Flat(bs))
  {
  }
}
