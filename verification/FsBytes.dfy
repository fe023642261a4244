/**
 Files as byte sequences: reading, overwriting and truncating, seen through block pointers.
 */
module FsBytes {
  import opened Bytes
  import opened FsBlocks
  import opened FsAlloc
  import opened FsFiles

  const MAXBYTES: nat := 4243456

  lemma MaxBytes()
    ensures MAXBYTES == MAXFILE * BSIZE
  {
  }

  /** Position `p` of file `i` has a block. */
  predicate Mapped(fs: FS, i: nat, p: nat)
    requires Shaped(fs)
  {
    i < |fs.inodes| && p < MAXBYTES && Addr(fs, i, Slot(p / BSIZE)) != 0
  }

  function ByteAt(fs: FS, i: nat, p: nat): byte
    requires Shaped(fs) && i < |fs.inodes| && p < MAXBYTES
  {
    var a := Addr(fs, i, Slot(p / BSIZE));
    if a < fs.geo.size then fs.disk[a][p % BSIZE] else 0
  }

  /** Every byte of every file has a block. */
  ghost predicate Sized(fs: FS)
    requires Shaped(fs)
  {
    forall i: nat :: i < |fs.inodes| ==>
      && fs.inodes[i].size <= MAXBYTES
      && forall p: nat :: p < fs.inodes[i].size ==> Mapped(fs, i, p)
  }

  function Content(fs: FS, i: nat): (r: Bytes)
    requires Shaped(fs) && i < |fs.inodes| && fs.inodes[i].size <= MAXBYTES
    ensures |r| == fs.inodes[i].size
  {
    seq(fs.inodes[i].size, p requires 0 <= p < fs.inodes[i].size => ByteAt(fs, i, p))
  }

  /** `old` with `src` laid over it from `off` on, growing it if need be. */
  function Overlay(old0: Bytes, off: nat, src: Bytes): Bytes
    requires off <= |old0|
  {
    old0[..off] + src + if off + |src| <= |old0| then old0[off + |src|..] else []
  }

  /** Whatever only grows a file leaves every byte of every file in place. */
  lemma GrowsBytes(fs: FS, fs': FS, i: nat)
    requires Inv(fs, {}) && Inv(fs', {}) && Grows(fs, fs', i)
    ensures forall j: nat, p: nat :: Mapped(fs, j, p) ==> Mapped(fs', j, p) && ByteAt(fs', j, p) == ByteAt(fs, j, p)
  {
    hide Addr, Used;
    InvShaped(fs, {});
    forall j: nat, p: nat | Mapped(fs, j, p) ensures Mapped(fs', j, p) && ByteAt(fs', j, p) == ByteAt(fs, j, p) {
      assert Valid(fs, j, Slot(p / BSIZE));
    }
  }

  // ---- Overwriting part of one block ----

  function Spliced(blk: Bytes, o: nat, chunk: Bytes): (r: Bytes)
    requires |blk| == BSIZE && o + |chunk| <= BSIZE
    ensures |r| == BSIZE
    ensures forall k: nat :: k < BSIZE ==> r[k] == if o <= k < o + |chunk| then chunk[k - o] else blk[k]
  {
    blk[..o] + chunk + blk[o + |chunk|..]
  }

  lemma SameSlot(p: nat, x: nat)
    requires p < MAXBYTES && x < MAXBYTES && Slot(p / BSIZE) == Slot(x / BSIZE)
    ensures p / BSIZE == x / BSIZE && x - p == x % BSIZE - p % BSIZE
  {
  }

  function Stored(fs: FS, i: nat, p: nat, chunk: Bytes): (r: FS)
    requires Shaped(fs) && Mapped(fs, i, p) && Addr(fs, i, Slot(p / BSIZE)) < fs.geo.size && p % BSIZE + |chunk| <= BSIZE
    ensures Shaped(r) && r.geo == fs.geo && r.inodes == fs.inodes
  {
    var a := Addr(fs, i, Slot(p / BSIZE));
    Put(fs, a, Spliced(fs.disk[a], p % BSIZE, chunk))
  }

  /** Storing a chunk changes exactly the bytes it covers, in exactly one file. */
  lemma StoreStep(fs: FS, i: nat, p: nat, chunk: Bytes)
    requires Inv(fs, {}) && Mapped(fs, i, p) && p % BSIZE + |chunk| <= BSIZE
    ensures Addr(fs, i, Slot(p / BSIZE)) < fs.geo.size
    ensures var fs' := Stored(fs, i, p, chunk);
            && Inv(fs', {})
            && (forall j: nat, x: nat :: Mapped(fs, j, x) ==>
                  && Mapped(fs', j, x)
                  && ByteAt(fs', j, x) == if j == i && p <= x < p + |chunk| then chunk[x - p] else ByteAt(fs, j, x))
  {
    hide Addr, Used, Spliced, Slot;
    var s := Slot(p / BSIZE);
    InvShaped(fs, {});
    assert Valid(fs, i, s);
    var a := Addr(fs, i, s);
    PutData(fs, {}, i, s, Spliced(fs.disk[a], p % BSIZE, chunk));
    var fs' := Stored(fs, i, p, chunk);
    forall j: nat, x: nat | Mapped(fs, j, x)
      ensures Mapped(fs', j, x)
      ensures ByteAt(fs', j, x) == if j == i && p <= x < p + |chunk| then chunk[x - p] else ByteAt(fs, j, x)
    {
      var t := Slot(x / BSIZE);
      assert Valid(fs, j, t);
      if Addr(fs, j, t) == a {
        assert j == i && t == s;
        SameSlot(p, x);
      } else {
        if j == i && p <= x < p + |chunk| { SameBlock(p, x, |chunk|); }
      }
    }
  }

  lemma SameBlock(p: nat, x: nat, m: nat)
    requires p % BSIZE + m <= BSIZE && p <= x < p + m
    ensures x / BSIZE == p / BSIZE
  {
  }

  // ---- A write in progress ----

  /** The first `k` bytes of the source are in place, and every other byte is what it was. */
  ghost predicate Progress(fs0: FS, fs: FS, i: nat, off: nat, src: Bytes, k: nat)
    requires Shaped(fs0) && Shaped(fs)
  {
    && k <= |src| && off + k <= MAXBYTES && fs.geo == fs0.geo && |fs.inodes| == |fs0.inodes| && i < |fs.inodes|
    && (forall j: nat :: j < |fs.inodes| ==>
          fs.inodes[j].kind == fs0.inodes[j].kind && fs.inodes[j].size == fs0.inodes[j].size)
    && (forall j: nat, x: nat :: Mapped(fs0, j, x) ==>
          && Mapped(fs, j, x)
          && ByteAt(fs, j, x) == if j == i && off <= x < off + k then src[x - off] else ByteAt(fs0, j, x))
    && (forall x: nat :: off <= x < off + k ==> Mapped(fs, i, x) && ByteAt(fs, i, x) == src[x - off])
    && ((forall x: nat :: off <= x < off + |src| ==> Mapped(fs0, i, x)) ==> fs.inodes == fs0.inodes)
  }

  function Chunk(off: nat, n: nat, k: nat): (m: nat)
    requires k < n
    ensures 0 < m <= n - k && (off + k) % BSIZE + m <= BSIZE
  {
    var m := BSIZE - (off + k) % BSIZE;
    if n - k < m then n - k else m
  }

  /** A block-mapping step of the write loop. */
  lemma MapStep(fs0: FS, fs: FS, i: nat, off: nat, src: Bytes, k: nat)
    requires Inv(fs0, {}) && Inv(fs, {}) && Progress(fs0, fs, i, off, src, k) && k < |src| && off + |src| <= MAXBYTES
    ensures fs.inodes[i].addrs[NDIRECT] < fs.geo.size
    ensures var (fs1, a) := Bmap(fs, i, (off + k) / BSIZE);
            && Inv(fs1, {}) && (a == 0 ==> Full(fs1)) && (a != 0 ==> Mapped(fs1, i, off + k) && Addr(fs1, i, Slot((off + k) / BSIZE)) == a)
            && Progress(fs0, fs1, i, off, src, k)
  {
    hide Addr, Used, Slot, Inv, Bmap, Mapped, ByteAt, Grows;
    var bn := (off + k) / BSIZE;
    InvShaped(fs0, {});
    InvShaped(fs, {});
    MaxBytes();
    BmapStep(fs, i, bn);
    var (fs1, a) := Bmap(fs, i, bn);
    GrowsBytes(fs, fs1, i);
    MapKeepsProgress(fs0, fs, fs1, i, off, src, k, a);
  }

  lemma MapKeepsProgress(fs0: FS, fs: FS, fs1: FS, i: nat, off: nat, src: Bytes, k: nat, a: nat)
    requires Shaped(fs0) && Shaped(fs) && Shaped(fs1) && Progress(fs0, fs, i, off, src, k)
    requires k < |src| && off + |src| <= MAXBYTES && Grows(fs, fs1, i)
    requires forall j: nat, p: nat :: Mapped(fs, j, p) ==> Mapped(fs1, j, p) && ByteAt(fs1, j, p) == ByteAt(fs, j, p)
    requires Addr(fs, i, Slot((off + k) / BSIZE)) != 0 ==> fs1 == fs
    requires a != 0 ==> Addr(fs1, i, Slot((off + k) / BSIZE)) == a
    ensures a != 0 ==> Mapped(fs1, i, off + k)
    ensures Progress(fs0, fs1, i, off, src, k)
  {
    if forall x: nat :: off <= x < off + |src| ==> Mapped(fs0, i, x) {
      assert Mapped(fs0, i, off + k);
      assert Mapped(fs, i, off + k);
    }
  }

  /** Storing the next chunk advances the write. */
  lemma ChunkStep(fs0: FS, fs: FS, i: nat, off: nat, src: Bytes, k: nat)
    requires Inv(fs0, {}) && Inv(fs, {}) && Progress(fs0, fs, i, off, src, k) && k < |src| && off + |src| <= MAXBYTES
    requires Mapped(fs, i, off + k)
    ensures Addr(fs, i, Slot((off + k) / BSIZE)) < fs.geo.size
    ensures var m := Chunk(off, |src|, k);
            var fs' := Stored(fs, i, off + k, src[k..k + m]);
            Inv(fs', {}) && Progress(fs0, fs', i, off, src, k + m)
  {
    hide Addr, Used, Slot, Inv, Mapped, ByteAt, Stored;
    var m := Chunk(off, |src|, k);
    InvShaped(fs0, {});
    InvShaped(fs, {});
    StoreStep(fs, i, off + k, src[k..k + m]);
    var fs' := Stored(fs, i, off + k, src[k..k + m]);
    forall x: nat | off <= x < off + k + m ensures Mapped(fs', i, x) && ByteAt(fs', i, x) == src[x - off] {
      if x >= off + k { ChunkMapped(fs, i, off, |src|, k, x); }
    }
  }

  lemma ChunkMapped(fs: FS, i: nat, off: nat, n: nat, k: nat, x: nat)
    requires Shaped(fs) && Mapped(fs, i, off + k) && k < n && off + n <= MAXBYTES && off + k <= x < off + k + Chunk(off, n, k)
    ensures Mapped(fs, i, x)
  {
    SameBlock(off + k, x, Chunk(off, n, k));
  }

  lemma MappedBound(fs: FS)
    requires Shaped(fs)
    ensures forall j: nat, x: nat :: Mapped(fs, j, x) ==> j < |fs.inodes| && x < MAXBYTES
  {
  }

  // ---- What a write leaves ----

  function WithSize(fs: FS, i: nat, size: nat): (r: FS)
    requires Shaped(fs) && i < |fs.inodes|
    ensures Shaped(r) && r.geo == fs.geo && r.disk == fs.disk && |r.inodes| == |fs.inodes|
  {
    fs.(inodes := fs.inodes[i := fs.inodes[i].(size := size)])
  }

  /** A size is no pointer: changing it moves no block. */
  lemma WithSizeKeeps(fs: FS, i: nat, size: nat, pending: set<nat>)
    requires Inv(fs, pending) && i < |fs.inodes|
    ensures var fs' := WithSize(fs, i, size);
            && Inv(fs', pending) && SameAddrs(fs, fs')
            && (forall j: nat, x: nat :: j < |fs.inodes| && x < MAXBYTES ==>
                  (Mapped(fs', j, x) <==> Mapped(fs, j, x)) && ByteAt(fs', j, x) == ByteAt(fs, j, x))
  {
    hide Used, Word, Slot;
    var fs' := WithSize(fs, i, size);
    assert forall j: nat, s: nat :: Valid(fs, j, s) ==> Addr(fs', j, s) == Addr(fs, j, s);
    forall b: nat | b < fs.geo.size ensures Used(fs', b) <==> Used(fs, b) { UsedSame(fs, fs', b); }
    InvSurvives(fs, fs', pending, pending);
  }

  function Max(a: nat, b: nat): nat
  {
    if a < b then b else a
  }

  /** After the last chunk and the size update, the file is the old one with the source laid over it. */
  lemma WriteDone(fs0: FS, fs: FS, i: nat, off: nat, src: Bytes)
    requires Inv(fs0, {}) && Inv(fs, {}) && Sized(fs0) && i < |fs0.inodes| && off <= fs0.inodes[i].size
    requires off + |src| <= MAXBYTES && Progress(fs0, fs, i, off, src, |src|)
    ensures fs0.inodes[i].size <= MAXBYTES
    ensures var fs' := WithSize(fs, i, Max(fs0.inodes[i].size, off + |src|));
            && Inv(fs', {}) && Sized(fs')
            && Content(fs', i) == Overlay(Content(fs0, i), off, src)
            && (forall j: nat :: j < |fs0.inodes| && j != i ==>
                  fs0.inodes[j].size == fs'.inodes[j].size <= MAXBYTES && Content(fs', j) == Content(fs0, j))
  {
    hide Addr, Used, Slot, Inv, Mapped, ByteAt;
    InvShaped(fs0, {});
    InvShaped(fs, {});
    var size := Max(fs0.inodes[i].size, off + |src|);
    MappedBound(fs0);
    WithSizeKeeps(fs, i, size, {});
    var fs' := WithSize(fs, i, size);
    SizedAfter(fs0, fs, fs', i, off, src);
    OverlayAfter(fs0, fs', i, off, src);
    forall j: nat | j < |fs0.inodes| && j != i ensures Content(fs', j) == Content(fs0, j) { }
  }

  lemma SizedAfter(fs0: FS, fs: FS, fs': FS, i: nat, off: nat, src: Bytes)
    requires Shaped(fs0) && Shaped(fs) && Shaped(fs') && Sized(fs0) && i < |fs0.inodes| && off <= fs0.inodes[i].size
    requires off + |src| <= MAXBYTES && Progress(fs0, fs, i, off, src, |src|)
    requires fs' == WithSize(fs, i, Max(fs0.inodes[i].size, off + |src|))
    requires forall j: nat, x: nat :: j < |fs.inodes| && x < MAXBYTES ==> (Mapped(fs', j, x) <==> Mapped(fs, j, x))
    ensures Sized(fs')
  {
    hide Addr, Used, Slot, Mapped, ByteAt;
    forall j: nat, p: nat | j < |fs'.inodes| && p < fs'.inodes[j].size ensures Mapped(fs', j, p) {
      if p < fs0.inodes[j].size { assert Mapped(fs0, j, p); }
    }
  }

  lemma OverlayAfter(fs0: FS, fs': FS, i: nat, off: nat, src: Bytes)
    requires Shaped(fs0) && Shaped(fs') && Sized(fs0) && Sized(fs') && i < |fs0.inodes| == |fs'.inodes|
    requires off <= fs0.inodes[i].size && fs'.inodes[i].size == Max(fs0.inodes[i].size, off + |src|)
    requires forall x: nat :: off <= x < off + |src| ==> x < MAXBYTES && ByteAt(fs', i, x) == src[x - off]
    requires forall x: nat :: Mapped(fs0, i, x) && !(off <= x < off + |src|) ==> ByteAt(fs', i, x) == ByteAt(fs0, i, x)
    ensures fs0.inodes[i].size <= MAXBYTES && fs'.inodes[i].size <= MAXBYTES
    ensures Content(fs', i) == Overlay(Content(fs0, i), off, src)
  {
    hide Addr, Used, Slot, Mapped, ByteAt;
    var a, b := Content(fs', i), Overlay(Content(fs0, i), off, src);
    assert |a| == |b|;
    forall x: nat | x < |a| ensures a[x] == b[x] {
      if x < fs0.inodes[i].size { assert Mapped(fs0, i, x); }
    }
  }

  /** A write that ran out of blocks: sizes stay, other files stay, and this file changed only inside the range. */
  lemma WriteStopped(fs0: FS, fs: FS, i: nat, off: nat, src: Bytes, k: nat)
    requires Inv(fs0, {}) && Inv(fs, {}) && Sized(fs0) && i < |fs0.inodes| && Progress(fs0, fs, i, off, src, k)
    ensures Sized(fs)
    ensures forall j: nat :: j < |fs0.inodes| ==> fs.inodes[j].size == fs0.inodes[j].size <= MAXBYTES
    ensures forall j: nat :: j < |fs0.inodes| && j != i ==> Content(fs, j) == Content(fs0, j)
    ensures forall x: nat :: x < fs0.inodes[i].size ==>
              Content(fs, i)[x] == if off <= x < off + k then src[x - off] else Content(fs0, i)[x]
  {
    hide Addr, Used, Slot, Inv, Mapped, ByteAt;
    InvShaped(fs0, {});
    InvShaped(fs, {});
    forall j: nat, p: nat | j < |fs.inodes| && p < fs.inodes[j].size ensures Mapped(fs, j, p) {
      assert Mapped(fs0, j, p);
    }
    forall j: nat | j < |fs0.inodes| && j != i ensures Content(fs, j) == Content(fs0, j) { }
  }

  /** Reading one chunk of a block gives that stretch of the file. */
  lemma ReadChunk(fs: FS, i: nat, p: nat, m: nat)
    requires Inv(fs, {}) && Sized(fs) && i < |fs.inodes| && p + m <= fs.inodes[i].size && 0 < m && p % BSIZE + m <= BSIZE
    ensures fs.inodes[i].size <= MAXBYTES && 0 < Addr(fs, i, Slot(p / BSIZE)) < fs.geo.size
    ensures fs.disk[Addr(fs, i, Slot(p / BSIZE))][p % BSIZE..p % BSIZE + m] == Content(fs, i)[p..p + m]
  {
    hide Addr, Used, Slot;
    InvShaped(fs, {});
    assert Mapped(fs, i, p);
    assert Valid(fs, i, Slot(p / BSIZE));
    var a := fs.disk[Addr(fs, i, Slot(p / BSIZE))][p % BSIZE..p % BSIZE + m];
    var b := Content(fs, i)[p..p + m];
    forall x: nat | x < m ensures a[x] == b[x] {
      SameBlock(p, p + x, m);
      assert (p + x) % BSIZE == p % BSIZE + x;
    }
  }
}
