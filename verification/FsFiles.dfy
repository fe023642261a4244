/**
 File contents over direct and indirect blocks: finding or allocating a file's block, and what a
 write to one file does to the bytes of every file.
 */
module FsFiles {
  import opened Bytes
  import opened FsBlocks
  import opened FsAlloc

  // ---- Finding or allocating the block of a file position ----

  /** Allocate and link at a slot held in the inode; a failed allocation stores 0 over 0. */
  function AllocDirect(fs: FS, i: nat, s: nat): (r: (FS, nat))
    requires Shaped(fs) && Valid(fs, i, s) && s <= NDIRECT
    ensures Shaped(r.0) && r.0.geo == fs.geo && |r.0.inodes| == |fs.inodes|
  {
    var (fs1, b) := Balloc(fs);
    (SetAddr(fs1, i, s, b), b)
  }

  /** Read word `k` of block `q`, allocating the block it should name when it is 0. */
  function ThroughIndirect(fs: FS, q: nat, k: nat): (r: (FS, nat))
    requires Shaped(fs) && q < fs.geo.size && k < NINDIRECT
    ensures Shaped(r.0) && r.0.geo == fs.geo && |r.0.inodes| == |fs.inodes|
  {
    if Word(fs.disk[q], k) != 0 then (fs, Word(fs.disk[q], k))
    else
      var (fs1, c) := Balloc(fs);
      (Put(fs1, q, PutWord(fs1.disk[q], k, c)), c)
  }

  /** The block of file position `bn`; 0 when there is none and none can be had. */
  function Bmap(fs: FS, i: nat, bn: nat): (r: (FS, nat))
    requires Shaped(fs) && i < |fs.inodes|
    requires fs.inodes[i].addrs[NDIRECT] < fs.geo.size
    ensures Shaped(r.0) && r.0.geo == fs.geo && |r.0.inodes| == |fs.inodes|
  {
    var addrs := fs.inodes[i].addrs;
    if bn < NDIRECT then
      if addrs[bn] != 0 then (fs, addrs[bn]) else AllocDirect(fs, i, bn)
    else if bn < MAXFILE then
      if addrs[NDIRECT] != 0 then ThroughIndirect(fs, addrs[NDIRECT], bn - NDIRECT)
      else
        var (fs1, q) := AllocDirect(fs, i, NDIRECT);
        ThroughIndirect(fs1, if q < fs.geo.size then q else 0, bn - NDIRECT)
    else (fs, 0)
  }

  /** Pointers that were set stay, other inodes keep theirs, and no data block changes. */
  ghost predicate Grows(fs: FS, fs': FS, i: nat)
    requires Shaped(fs) && Shaped(fs')
  {
    && fs'.geo == fs.geo && |fs'.inodes| == |fs.inodes|
    && (forall j: nat :: j < |fs.inodes| ==>
          fs'.inodes[j].kind == fs.inodes[j].kind && fs'.inodes[j].size == fs.inodes[j].size)
    && (forall j: nat, t: nat :: Valid(fs, j, t) && (j != i || Addr(fs, j, t) != 0) ==> Addr(fs', j, t) == Addr(fs, j, t))
    && (forall j: nat, t: nat :: Valid(fs, j, t) && t != NDIRECT && 0 < Addr(fs, j, t) < fs.geo.size ==>
          fs'.disk[Addr(fs, j, t)] == fs.disk[Addr(fs, j, t)])
  }

  lemma GrowsRefl(fs: FS, i: nat)
    requires Shaped(fs)
    ensures Grows(fs, fs, i)
  {
    hide Addr;
  }

  lemma GrowsTransitive(a: FS, b: FS, c: FS, i: nat)
    requires Shaped(a) && Shaped(b) && Shaped(c) && Grows(a, b, i) && Grows(b, c, i)
    ensures Grows(a, c, i)
  {
    hide Addr;
    assert forall j: nat, t: nat :: Valid(a, j, t) ==> Valid(b, j, t);
  }

  /** The state right after an allocation, with the block still in transit. */
  lemma BallocGrows(fs: FS, i: nat)
    requires Inv(fs, {}) && Balloc(fs).1 != 0
    ensures Grows(fs, Balloc(fs).0, i)
  {
    hide Addr, Used, Balloc;
    BallocStep(fs, {});
    var (fs1, b) := Balloc(fs);
    NotOwned(fs, b);
  }

  lemma IndirectIs(fs: FS, i: nat)
    requires Shaped(fs) && i < |fs.inodes|
    ensures Valid(fs, i, NDIRECT) && Addr(fs, i, NDIRECT) == fs.inodes[i].addrs[NDIRECT]
  {
  }

  /** Linking a block in transit grows the inode by it. */
  lemma LinkGrows(fs: FS, pending: set<nat>, i: nat, s: nat, b: nat)
    requires Inv(fs, pending) && Valid(fs, i, s) && Addr(fs, i, s) == 0 && b in pending
    requires s == NDIRECT ==> fs.disk[b] == ZeroBlock()
    requires s > NDIRECT ==> 0 < Addr(fs, i, NDIRECT) < fs.geo.size
    ensures Grows(fs, SetAddr(fs, i, s, b), i)
  {
    hide Addr, Used, ZeroBlock, Word, PutWord;
    IndirectIs(fs, i);
    LinkStep(fs, pending, i, s, b);
    var fs' := SetAddr(fs, i, s, b);
    if s > NDIRECT {
      assert Valid(fs, i, NDIRECT);
      forall j: nat, t: nat | Valid(fs, j, t) && t != NDIRECT && Addr(fs, j, t) != 0
        ensures Addr(fs, j, t) != Addr(fs, i, NDIRECT)
      {
      }
    }
  }

  lemma AllocDirectStep(fs: FS, i: nat, s: nat)
    requires Inv(fs, {}) && Valid(fs, i, s) && s <= NDIRECT && Addr(fs, i, s) == 0
    ensures var (fs', b) := AllocDirect(fs, i, s);
            && Inv(fs', {}) && Grows(fs, fs', i)
            && (if b == 0 then fs' == fs && Full(fs) else Addr(fs', i, s) == b && fs'.disk[b] == ZeroBlock())
            && (b != 0 ==> forall t: nat :: Valid(fs, i, t) && t != s ==> Addr(fs', i, t) == Addr(fs, i, t))
            && b < fs.geo.size
  {
    hide Used, ZeroBlock, Balloc, Grows, Inv;
    BallocStep(fs, {});
    InvShaped(fs, {});
    var (fs1, b) := Balloc(fs);
    if b == 0 {
      assert fs.inodes[i].addrs[s := 0] == fs.inodes[i].addrs;
      assert fs.inodes[i := fs.inodes[i]] == fs.inodes;
      GrowsRefl(fs, i);
    } else {
      BallocGrows(fs, i);
      assert Valid(fs1, i, s);
      assert {} + {b} == {b} && {b} - {b} == {};
      LinkStep(fs1, {b}, i, s, b);
      LinkGrows(fs1, {b}, i, s, b);
      InvShaped(fs1, {b});
      GrowsTransitive(fs, fs1, SetAddr(fs1, i, s, b), i);
    }
  }

  lemma InvShaped(fs: FS, pending: set<nat>)
    requires Inv(fs, pending)
    ensures Shaped(fs) && 0 < fs.geo.dataStart <= fs.geo.size
    ensures forall i: nat, s: nat :: Valid(fs, i, s) && Addr(fs, i, s) != 0 ==> fs.geo.dataStart <= Addr(fs, i, s) < fs.geo.size
  {
  }

  lemma PutSameWord(blk: Bytes, k: nat)
    requires |blk| == BSIZE && k < NINDIRECT
    ensures PutWord(blk, k, Word(blk, k)) == blk
  {
    hide FromLittleEndian, LittleEndian;
    FromLittleEndianRoundTrip(blk[4 * k..4 * k + 4]);
    assert blk == blk[..4 * k] + blk[4 * k..4 * k + 4] + blk[4 * k + 4..];
  }

  /** A word of 0 that stays 0 changes nothing. */
  lemma PutNothing(fs: FS, q: nat, k: nat)
    requires Shaped(fs) && q < fs.geo.size && k < NINDIRECT && Word(fs.disk[q], k) == 0
    ensures Put(fs, q, PutWord(fs.disk[q], k, 0)) == fs
  {
    hide Word, PutWord;
    PutSameWord(fs.disk[q], k);
    assert fs.disk[q := fs.disk[q]] == fs.disk;
  }

  lemma ThroughFull(fs: FS, q: nat, k: nat)
    requires Inv(fs, {}) && Full(fs) && q < fs.geo.size && k < NINDIRECT && Word(fs.disk[q], k) == 0
    ensures ThroughIndirect(fs, q, k) == (fs, 0)
  {
    hide Used, Word, PutWord, Addr;
    PutNothing(fs, q, k);
  }

  lemma WordIs(fs: FS, i: nat, k: nat)
    requires Shaped(fs) && i < |fs.inodes| && k < NINDIRECT && 0 < Addr(fs, i, NDIRECT) < fs.geo.size
    ensures Valid(fs, i, NDIRECT + 1 + k) && Addr(fs, i, NDIRECT + 1 + k) == Word(fs.disk[Addr(fs, i, NDIRECT)], k)
  {
  }

  lemma ThroughIndirectStep(fs: FS, i: nat, k: nat)
    requires Inv(fs, {}) && i < |fs.inodes| && k < NINDIRECT && 0 < Addr(fs, i, NDIRECT) < fs.geo.size
    ensures var s := NDIRECT + 1 + k;
            var (fs', a) := ThroughIndirect(fs, Addr(fs, i, NDIRECT), k);
            && Valid(fs, i, s) && Inv(fs', {}) && Grows(fs, fs', i)
            && (Addr(fs, i, s) != 0 ==> fs' == fs && a == Addr(fs, i, s))
            && (if a == 0 then fs' == fs && Full(fs) else Addr(fs', i, s) == a)
            && (a != 0 && Addr(fs, i, s) == 0 ==> a < fs.geo.size && fs'.disk[a] == ZeroBlock())
  {
    hide Used, Word, PutWord, Addr, Grows, Inv, Balloc, ZeroBlock;
    InvShaped(fs, {});
    var s, q := NDIRECT + 1 + k, Addr(fs, i, NDIRECT);
    WordIs(fs, i, k);
    IndirectIs(fs, i);
    GrowsRefl(fs, i);
    if Addr(fs, i, s) == 0 {
      BallocStep(fs, {});
      var (fs1, b) := Balloc(fs);
      if b == 0 {
        ThroughFull(fs, q, k);
      } else {
        ThroughLinked(fs, fs1, i, k, b);
      }
    }
  }

  /** The freshly allocated block `b`, linked through the indirect block. */
  lemma ThroughLinked(fs: FS, fs1: FS, i: nat, k: nat, b: nat)
    requires Inv(fs, {}) && i < |fs.inodes| && k < NINDIRECT && 0 < Addr(fs, i, NDIRECT) < fs.geo.size
    requires Addr(fs, i, NDIRECT + 1 + k) == 0
    requires Balloc(fs) == (fs1, b) && b != 0
    ensures var s := NDIRECT + 1 + k;
            var fs' := Put(fs1, Addr(fs, i, NDIRECT), PutWord(fs1.disk[Addr(fs, i, NDIRECT)], k, b));
            Inv(fs', {}) && Grows(fs, fs', i) && Addr(fs', i, s) == b && b < fs.geo.size && fs'.disk[b] == ZeroBlock()
  {
    hide Used, Word, PutWord, Addr, Grows, Inv, Balloc, ZeroBlock;
    InvShaped(fs, {});
    var s, q := NDIRECT + 1 + k, Addr(fs, i, NDIRECT);
    BallocStep(fs, {});
    BallocGrows(fs, i);
    NotOwned(fs, b);
    IndirectIs(fs, i);
    IndirectIs(fs1, i);
    assert Valid(fs1, i, s) && Valid(fs, i, s);
    assert {} + {b} == {b} && {b} - {b} == {};
    InvShaped(fs1, {b});
    LinkStep(fs1, {b}, i, s, b);
    LinkGrows(fs1, {b}, i, s, b);
    assert SetAddr(fs1, i, s, b) == Put(fs1, q, PutWord(fs1.disk[q], k, b));
    GrowsTransitive(fs, fs1, SetAddr(fs1, i, s, b), i);
  }

  /**
   Finding a block never disturbs another: a block that is there is returned unchanged; otherwise a
   zeroed block is linked, unless the disk is full.
   */
  lemma BmapStep(fs: FS, i: nat, bn: nat)
    requires Inv(fs, {}) && i < |fs.inodes|
    ensures fs.inodes[i].addrs[NDIRECT] < fs.geo.size
    ensures var (fs', a) := Bmap(fs, i, bn);
            && Inv(fs', {}) && Grows(fs, fs', i)
            && (bn >= MAXFILE ==> fs' == fs && a == 0)
            && (bn < MAXFILE ==>
                  && (Addr(fs, i, Slot(bn)) != 0 ==> fs' == fs && a == Addr(fs, i, Slot(bn)))
                  && (if a == 0 then Full(fs') else Addr(fs', i, Slot(bn)) == a)
                  && (a != 0 && Addr(fs, i, Slot(bn)) == 0 ==> a < fs.geo.size && fs'.disk[a] == ZeroBlock()))
  {
    hide Used, Word, PutWord, Grows, Balloc, ZeroBlock, AllocDirect, ThroughIndirect;
    IndirectIs(fs, i);
    InvShaped(fs, {});
    GrowsRefl(fs, i);
    if bn < NDIRECT {
      assert Valid(fs, i, bn);
      if Addr(fs, i, bn) == 0 { AllocDirectStep(fs, i, bn); }
    } else if bn < MAXFILE {
      if Addr(fs, i, NDIRECT) != 0 {
        ThroughIndirectStep(fs, i, bn - NDIRECT);
      } else {
        BmapFresh(fs, i, bn);
      }
    }
  }

  /** The first block behind the direct ones: the indirect block comes first. */
  lemma BmapFresh(fs: FS, i: nat, bn: nat)
    requires Inv(fs, {}) && i < |fs.inodes| && NDIRECT <= bn < MAXFILE && Addr(fs, i, NDIRECT) == 0
    ensures var (fs1, q) := AllocDirect(fs, i, NDIRECT);
            q < fs.geo.size &&
            var (fs', a) := ThroughIndirect(fs1, q, bn - NDIRECT);
            && Inv(fs', {}) && Grows(fs, fs', i) && Addr(fs, i, Slot(bn)) == 0
            && (if a == 0 then Full(fs') else Addr(fs', i, Slot(bn)) == a && a < fs.geo.size && fs'.disk[a] == ZeroBlock())
  {
    hide Used, Word, PutWord, Grows, Balloc, ZeroBlock, AllocDirect, ThroughIndirect;
    IndirectIs(fs, i);
    AllocDirectStep(fs, i, NDIRECT);
    var (fs1, q) := AllocDirect(fs, i, NDIRECT);
    var k := bn - NDIRECT;
    if q == 0 {
      ThroughFull(fs, 0, k);
    } else {
      assert Valid(fs, i, Slot(bn));
      assert Addr(fs1, i, Slot(bn)) == 0;
      ThroughIndirectStep(fs1, i, k);
      GrowsTransitive(fs, fs1, ThroughIndirect(fs1, q, k).0, i);
    }
  }
}
