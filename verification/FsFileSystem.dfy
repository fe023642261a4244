/**
 The file system object: block allocation, block mapping, reading, writing and truncating, each on
 the disk and the inodes in place.
 */
module FsFileSystem {
  import opened Bytes
  import opened Bits
  import opened FsBlocks
  import opened FsAlloc
  import opened FsFiles
  import opened FsBytes
  import opened FsTruncate

  datatype ReadResult = ReadError | ReadOk(data: Bytes)

  datatype WriteResult = WriteError | WriteOk(n: nat)

  function Min(a: nat, b: nat): (r: nat)
    ensures r <= a && r <= b && (r == a || r == b)
  {
    if a < b then a else b
  }

  class FileSystem {
    const geo: Geo
    var disk: seq<Bytes>
    var inodes: seq<Inode>
    /** The inodes as they stand on the disk. */
    var saved: seq<Inode>

    function State(): FS
      reads this
    {
      FS(geo, disk, inodes)
    }

    ghost predicate Ok()
      reads this
    {
      Inv(State(), {}) && Sized(State()) && |saved| == |inodes|
    }

    lemma FirstFreeIs(fs: FS, from: nat, r: nat)
      requires Shaped(fs) && from <= r <= fs.geo.size && (forall c: nat :: from <= c < r ==> Used(fs, c))
      requires r < fs.geo.size ==> !Used(fs, r)
      ensures FirstFree(fs, from) == r
      decreases r - from
    {
      hide Used;
      if from < r { FirstFreeIs(fs, from + 1, r); }
    }

    lemma BitAt(fs: FS, b: nat, bi: nat)
      requires Shaped(fs) && b % BPB == 0 && bi < BPB && b + bi < fs.geo.size
      ensures BitBlock(fs.geo, b) == BitBlock(fs.geo, b + bi) < fs.geo.size
      ensures Used(fs, b + bi) <==> BitSet(fs.disk[BitBlock(fs.geo, b)][bi / 8], bi % 8)
    {
      assert (b + bi) / BPB == b / BPB && (b + bi) % BPB == bi;
    }

    /** Scan the bitmap, block by block and bit by bit, for a free block; mark and zero it. */
    method AllocBlock() returns (r: nat)
      requires Shaped(State())
      modifies this`disk
      ensures Shaped(State()) && (State(), r) == Balloc(old(State()))
    {
      hide Used, BitSet, BitBlock, Marked;
      ghost var fs := State();
      var b := 0;
      while b < geo.size
        invariant b % BPB == 0 && State() == fs
        invariant forall c: nat :: c < Min(b, geo.size) ==> Used(fs, c)
      {
        var bi := 0;
        while bi < BPB && b + bi < geo.size
          invariant bi <= BPB && State() == fs && b % BPB == 0
          invariant forall c: nat :: c < Min(b + bi, geo.size) ==> Used(fs, c)
        {
          BitAt(fs, b, bi);
          if !BitSet(disk[BitBlock(geo, b)][bi / 8], bi % 8) {
            FirstFreeIs(fs, 0, b + bi);
            TakeBlock(b + bi);
            return b + bi;
          }
          bi := bi + 1;
        }
        b := b + BPB;
      }
      FirstFreeIs(fs, 0, geo.size);
      return 0;
    }

    /** Mark a block in use and zero it. */
    method TakeBlock(b: nat)
      requires Shaped(State()) && b < geo.size
      modifies this`disk
      ensures Shaped(State()) && State() == Put(Marked(old(State()), b), b, ZeroBlock())
    {
      hide Marked;
      MarkedFrame(State(), b);
      SetBitOf(b);
      disk := disk[b := ZeroBlock()];
    }

    method SetBitOf(b: nat)
      requires Shaped(State()) && b < geo.size
      modifies this`disk
      ensures State() == Marked(old(State()), b)
    {
      var q := BitBlock(geo, b);
      var x: byte := disk[q][b % BPB / 8];
      OrBitByte(x, b % BPB % 8);
      var blk: Bytes := disk[q][b % BPB / 8 := OrBit(x, b % BPB % 8)];
      disk := disk[q := blk];
    }

    /** Clear the bit of a block; a block that is free already is left alone. */
    method FreeBlock(b: nat)
      requires Shaped(State()) && 0 < b < geo.size
      modifies this`disk
      ensures State() == if old(Used(State(), b)) then Freed(old(State()), b) else old(State())
    {
      var q := BitBlock(geo, b);
      var x: byte := disk[q][b % BPB / 8];
      if !BitSet(x, b % BPB % 8) { return; }
      var blk: Bytes := disk[q][b % BPB / 8 := ClearBit(x, b % BPB % 8)];
      disk := disk[q := blk];
    }

    /** The block of a file position, allocating what is missing. */
    method MapBlock(i: nat, bn: nat) returns (addr: nat)
      requires Shaped(State()) && i < |inodes| && inodes[i].addrs[NDIRECT] < geo.size
      modifies this`disk, this`inodes
      ensures Shaped(State()) && (State(), addr) == Bmap(old(State()), i, bn)
      ensures |inodes| == |old(inodes)|
    {
      hide Balloc, Word, PutWord;
      if bn < NDIRECT {
        addr := inodes[i].addrs[bn];
        if addr == 0 {
          addr := AllocBlock();
          SetSlot(i, bn, addr);
        }
        return;
      }
      if bn < MAXFILE {
        var q := inodes[i].addrs[NDIRECT];
        if q == 0 {
          q := AllocBlock();
          SetSlot(i, NDIRECT, q);
        }
        if q >= geo.size { q := 0; }
        addr := Word(disk[q], bn - NDIRECT);
        if addr == 0 {
          addr := AllocBlock();
          disk := disk[q := PutWord(disk[q], bn - NDIRECT, addr)];
        }
        return;
      }
      return 0;
    }

    method SetSlot(i: nat, s: nat, v: nat)
      requires Shaped(State()) && Valid(State(), i, s) && s <= NDIRECT
      modifies this`inodes
      ensures Shaped(State()) && State() == SetAddr(old(State()), i, s, v)
    {
      var ip := inodes[i];
      inodes := inodes[i := ip.(addrs := ip.addrs[s := v])];
    }

    /** Save the in-memory inode. */
    method Update(i: nat)
      requires i < |inodes| == |saved|
      modifies this`saved
      ensures saved == old(saved)[i := inodes[i]]
    {
      saved := saved[i := inodes[i]];
    }

    /** Read up to `n` bytes at `off`. */
    method Read(i: nat, off: nat, n: nat) returns (r: ReadResult)
      requires Ok() && i < |inodes| && off < U32_LIMIT && n < U32_LIMIT
      modifies this`disk, this`inodes
      ensures Ok() && State() == old(State())
      ensures r == if inodes[i].kind == T_DEV || off > inodes[i].size || off + n >= U32_LIMIT then ReadError
                   else ReadOk(Content(State(), i)[off..Min(off + n, inodes[i].size)])
    {
      hide Inv, Sized, Addr, Used;
      if inodes[i].kind == T_DEV { return ReadError; }
      if off > inodes[i].size || (off + n) % U32_LIMIT < off { return ReadError; }
      ContentSize(State(), i);
      var len := if off + n > inodes[i].size then inodes[i].size - off else n;
      ghost var fs := State();
      var dst: Bytes := [];
      while |dst| < len
        invariant State() == fs && |dst| <= len && dst == Content(fs, i)[off..off + |dst|]
      {
        var chunk := ReadStep(i, off + |dst|, Chunk(off, len, |dst|));
        dst := dst + chunk;
      }
      r := ReadOk(dst);
    }

    /** The stretch of one block that a read wants; its block is always there. */
    method ReadStep(i: nat, p: nat, m: nat) returns (chunk: Bytes)
      requires Inv(State(), {}) && Sized(State()) && i < |inodes|
      requires p + m <= inodes[i].size <= MAXBYTES && 0 < m && p % BSIZE + m <= BSIZE
      modifies this`disk, this`inodes
      ensures State() == old(State()) && chunk == Content(State(), i)[p..p + m]
    {
      hide Inv, Sized, Addr, Used, Bmap, Content;
      ReadChunk(State(), i, p, m);
      MaxBytes();
      BmapStep(State(), i, p / BSIZE);
      var a := MapBlock(i, p / BSIZE);
      chunk := disk[a][p % BSIZE..p % BSIZE + m];
    }

    /** Write `src` at `off`: refused outright, cut short by a full disk, or done completely. */
    method Write(i: nat, off: nat, src: Bytes) returns (r: WriteResult)
      requires Ok() && i < |inodes| && off < U32_LIMIT && |src| < U32_LIMIT
      modifies this
      ensures Ok() && |inodes| == |old(inodes)|
      ensures var bad := old(inodes[i].kind == T_DEV || off > inodes[i].size || off + |src| > MAXBYTES);
              && (bad ==> r == WriteError && State() == old(State()) && saved == old(saved))
              && (!bad && r == WriteError ==> Full(State()) && saved == old(saved))
      ensures r.WriteOk? ==> r.n == |src| && Content(State(), i) == Overlay(old(Content(State(), i)), off, src)
      ensures r.WriteOk? && old(saved[i] == inodes[i]) ==> saved[i] == inodes[i]
      ensures r == WriteError ==>
                && inodes[i].size == old(inodes[i].size)
                && forall x: nat :: x < inodes[i].size && !(off <= x < off + |src|) ==>
                                      Content(State(), i)[x] == old(Content(State(), i))[x]
      ensures forall j: nat :: j < |inodes| && j != i ==>
                                 Content(State(), j) == old(Content(State(), j)) && saved[j] == old(saved)[j]
    {
      hide Inv, Sized, Addr, Used, Progress, Content;
      ghost var fs0 := State();
      ContentSize(fs0, i);
      if inodes[i].kind == T_DEV { return WriteError; }
      if off > inodes[i].size || (off + |src|) % U32_LIMIT < off { return WriteError; }
      if off + |src| > MAXFILE * BSIZE { return WriteError; }
      var tot := 0;
      ProgressStart(fs0, i, off, src);
      while tot < |src|
        invariant tot <= |src| && Shaped(State()) && Inv(State(), {}) && Progress(fs0, State(), i, off, src, tot)
        invariant |inodes| == |fs0.inodes| && saved == old(saved)
      {
        var m := WriteStep(fs0, i, off, src, tot);
        if m == 0 {
          WriteStopped(fs0, State(), i, off, src, tot);
          return WriteError;
        }
        tot := tot + m;
      }
      ProgressFacts(fs0, State(), i, off, src);
      WriteDone(fs0, State(), i, off, src);
      if |src| > 0 && off + |src| > inodes[i].size {
        inodes := inodes[i := inodes[i].(size := off + |src|)];
        Update(i);
      } else {
        assert WithSize(State(), i, inodes[i].size) == State();
      }
      r := WriteOk(|src|);
    }

    lemma ProgressStart(fs: FS, i: nat, off: nat, src: Bytes)
      requires Shaped(fs) && i < |fs.inodes| && off + |src| <= MAXBYTES
      ensures Progress(fs, fs, i, off, src, 0)
    {
    }

    /** The write left sizes alone, and no new block means an untouched inode. */
    lemma ProgressFacts(fs0: FS, fs: FS, i: nat, off: nat, src: Bytes)
      requires Shaped(fs0) && Shaped(fs) && Sized(fs0) && Progress(fs0, fs, i, off, src, |src|)
      ensures |fs.inodes| == |fs0.inodes| && i < |fs.inodes| && fs.inodes[i].size == fs0.inodes[i].size
      ensures off + |src| <= fs0.inodes[i].size ==> fs.inodes == fs0.inodes
    {
      hide Mapped, ByteAt;
    }

    /** Map one block and store what belongs in it; 0 when no block can be had. */
    method WriteStep(ghost fs0: FS, i: nat, off: nat, src: Bytes, tot: nat) returns (m: nat)
      requires Shaped(fs0) && Inv(fs0, {}) && Shaped(State()) && Inv(State(), {}) && Progress(fs0, State(), i, off, src, tot)
      requires i < |inodes| && tot < |src| && off + |src| <= MAXBYTES
      modifies this`disk, this`inodes
      ensures Shaped(State()) && Inv(State(), {}) && |inodes| == |old(inodes)| && tot + m <= |src|
      ensures Progress(fs0, State(), i, off, src, tot + m)
      ensures m == 0 ==> Full(State())
    {
      hide Inv, Addr, Used, Progress, Bmap, Mapped;
      MapStep(fs0, State(), i, off, src, tot);
      var a := MapBlock(i, (off + tot) / BSIZE);
      if a == 0 { return 0; }
      ChunkStep(fs0, State(), i, off, src, tot);
      m := Chunk(off, |src|, tot);
      var o := (off + tot) % BSIZE;
      disk := disk[a := Spliced(disk[a], o, src[tot..tot + m])];
    }

    lemma ContentSize(fs: FS, i: nat)
      requires Inv(fs, {}) && Sized(fs) && i < |fs.inodes|
      ensures Shaped(fs) && fs.inodes[i].size <= MAXBYTES < U32_LIMIT
    {
    }

    /** Free every block of a file; each of them is free afterwards and no other block changes hands. */
    method Truncate(i: nat)
      requires Ok() && i < |inodes|
      modifies this
      ensures Ok() && |inodes| == |old(inodes)|
      ensures inodes[i] == old(inodes[i]).(size := 0, addrs := inodes[i].addrs)
      ensures forall s: nat :: s < SLOTS ==> Addr(State(), i, s) == 0
      ensures saved == old(saved)[i := inodes[i]]
      ensures forall j: nat :: j < |inodes| && j != i ==>
                                 inodes[j] == old(inodes[j]) && Content(State(), j) == old(Content(State(), j))
    {
      hide Inv, Sized, Addr, Used, Content, Word;
      ghost var fs0 := State();
      ContentSize(fs0, i);
      for k := 0 to NDIRECT
        invariant Shaped(State()) && Inv(State(), {}) && OnlyFreed(fs0, State(), i)
        invariant saved == old(saved)
        invariant inodes[i].kind == fs0.inodes[i].kind && forall t: nat :: t < k ==> inodes[i].addrs[t] == 0
      {
        DropDirect(i, k);
      }
      DropIndirect(i);
      WithSizeKeeps(State(), i, 0, {});
      inodes := inodes[i := inodes[i].(size := 0)];
      Update(i);
      AllClear(State(), i);
      TruncateDone(fs0, State(), i);
    }

    lemma AllClear(fs: FS, i: nat)
      requires Shaped(fs) && i < |fs.inodes| && forall t: nat :: t <= NDIRECT ==> fs.inodes[i].addrs[t] == 0
      ensures forall s: nat :: s < SLOTS ==> Addr(fs, i, s) == 0
    {
    }

    /** Free a block that no inode of `zi` points to any more. */
    method FreeInTransit(ghost zi: seq<Inode>, ghost pending: set<nat>, b: nat)
      requires Shaped(State()) && Inv(FS(geo, disk, zi), pending) && b in pending
      modifies this`disk
      ensures Shaped(State()) && Inv(FS(geo, disk, zi), pending - {b})
      ensures forall c: nat :: geo.dataStart <= c < geo.size ==> disk[c] == old(disk)[c]
    {
      hide Addr, Freed, Word;
      ghost var z := FS(geo, disk, zi);
      FreeStep(z, pending, b);
      InTransitUsed(z, State(), pending, b);
      FreeBlock(b);
    }

    lemma InTransitUsed(z: FS, fs: FS, pending: set<nat>, b: nat)
      requires Inv(z, pending) && b in pending && Shaped(fs) && fs.geo == z.geo && fs.disk == z.disk
      ensures 0 < b < fs.geo.size && Used(fs, b) && Shaped(Freed(fs, b))
      ensures Freed(z, b) == FS(z.geo, Freed(fs, b).disk, z.inodes)
    {
      hide Addr, Word;
      assert Used(z, b);
      UsedSame(z, fs, b);
    }

    /** Free the block of one direct slot. */
    method DropDirect(i: nat, k: nat)
      requires Shaped(State()) && Inv(State(), {}) && i < |inodes| && k < NDIRECT
      modifies this`disk, this`inodes
      ensures Shaped(State()) && Inv(State(), {}) && OnlyFreed(old(State()), State(), i)
      ensures inodes == old(inodes)[i := old(inodes[i]).(addrs := old(inodes[i].addrs)[k := 0])]
    {
      hide Inv, Addr, Used, Word, Freed;
      var b := inodes[i].addrs[k];
      var without := inodes[i := inodes[i].(addrs := inodes[i].addrs[k := 0])];
      if b != 0 {
        DirectInTransit(State(), i, k);
        FreeInTransit(without, {b}, b);
        assert {b} - {b} == {};
      } else {
        assert inodes[i].addrs[k := 0] == inodes[i].addrs;
        assert without == inodes;
      }
      inodes := without;
    }

    lemma DirectInTransit(fs: FS, i: nat, k: nat)
      requires Inv(fs, {}) && i < |fs.inodes| && k < NDIRECT && fs.inodes[i].addrs[k] != 0
      ensures Inv(Unlinked(fs, i, k), {fs.inodes[i].addrs[k]})
    {
      hide Used, Word;
      UnlinkStep(fs, {}, i, k);
      var b := fs.inodes[i].addrs[k];
      assert Addr(fs, i, k) == b;
      assert b in Taken(fs, i, k, k + 1);
      assert {} + Taken(fs, i, k, k + 1) == {b};
    }

    /** Free what the indirect block names, then the indirect block itself. */
    method DropIndirect(i: nat)
      requires Shaped(State()) && Inv(State(), {}) && i < |inodes|
      modifies this`disk, this`inodes
      ensures Shaped(State()) && Inv(State(), {}) && OnlyFreed(old(State()), State(), i)
      ensures inodes == old(inodes)[i := old(inodes[i]).(addrs := old(inodes[i].addrs)[NDIRECT := 0])]
    {
      hide Inv, Addr, Used, Word, Freed, Taken;
      var q := inodes[i].addrs[NDIRECT];
      ghost var fs := State();
      var without := inodes[i := inodes[i].(addrs := inodes[i].addrs[NDIRECT := 0])];
      if q != 0 {
        IndirectInTransit(fs, i);
        for j := 0 to NINDIRECT
          invariant Shaped(State()) && inodes == fs.inodes && without == Unlinked(fs, i, NDIRECT).inodes
          invariant Inv(FS(geo, disk, without), {q} + Taken(fs, i, NDIRECT + 1 + j, SLOTS))
          invariant forall c: nat :: geo.dataStart <= c < geo.size ==> disk[c] == fs.disk[c]
        {
          var w := Word(disk[q], j);
          NextTaken(fs, i, j);
          if w != 0 { FreeInTransit(without, {q} + Taken(fs, i, NDIRECT + 1 + j, SLOTS), w); }
        }
        NoneTaken(fs, i);
        FreeInTransit(without, {q}, q);
        assert {q} - {q} == {};
      } else {
        assert inodes[i].addrs[NDIRECT := 0] == inodes[i].addrs;
        assert without == inodes;
      }
      inodes := without;
    }

    lemma NoneTaken(fs: FS, i: nat)
      requires Shaped(fs) && i < |fs.inodes|
      ensures forall q: nat :: {q} + Taken(fs, i, SLOTS, SLOTS) == {q}
    {
      assert Taken(fs, i, SLOTS, SLOTS) == {};
    }

    lemma IndirectInTransit(fs: FS, i: nat)
      requires Inv(fs, {}) && i < |fs.inodes| && fs.inodes[i].addrs[NDIRECT] != 0
      ensures var q := fs.inodes[i].addrs[NDIRECT];
              && fs.geo.dataStart <= q < fs.geo.size
              && Inv(Unlinked(fs, i, NDIRECT), {q} + Taken(fs, i, NDIRECT + 1, SLOTS))
    {
      hide Used, Word, Taken, Addr;
      IndirectIs(fs, i);
      UnlinkStep(fs, {}, i, NDIRECT);
      TakenSplits(fs, {}, i, NDIRECT);
      var q := fs.inodes[i].addrs[NDIRECT];
      assert {} + Taken(fs, i, NDIRECT, SLOTS) == {q} + Taken(fs, i, NDIRECT + 1, SLOTS);
    }

    /** Word `j` of the indirect block, when set, is the next block to go. */
    lemma NextTaken(fs: FS, i: nat, j: nat)
      requires Inv(fs, {}) && i < |fs.inodes| && fs.inodes[i].addrs[NDIRECT] != 0 && j < NINDIRECT
      ensures var q := fs.inodes[i].addrs[NDIRECT];
              q < fs.geo.size &&
              var w := Word(fs.disk[q], j);
              var now, next := {q} + Taken(fs, i, NDIRECT + 1 + j, SLOTS), {q} + Taken(fs, i, NDIRECT + 2 + j, SLOTS);
              if w == 0 then now == next else w in now && now - {w} == next
    {
      hide Used, Word, Taken, Addr;
      IndirectIs(fs, i);
      InvShaped(fs, {});
      WordIs(fs, i, j);
      TakenSplits(fs, {}, i, NDIRECT + 1 + j);
      Distinct(fs, i, NDIRECT, NDIRECT + 1 + j);
    }

    lemma Distinct(fs: FS, i: nat, s: nat, t: nat)
      requires Inv(fs, {}) && Valid(fs, i, s) && Valid(fs, i, t) && s != t && Addr(fs, i, s) != 0
      ensures Addr(fs, i, s) != Addr(fs, i, t)
    {
    }
  }
}
