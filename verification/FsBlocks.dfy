/**
 Disk layout of the file system: the free-block bitmap, block pointers held by inodes and indirect
 blocks, and the invariant that accounts for every block.
 */
module FsBlocks {
  import opened Bytes
  import opened Bits

  const BSIZE: nat := 4096
  const NDIRECT: nat := 12
  const NINDIRECT: nat := 1024
  const MAXFILE: nat := 1036
  const SLOTS: nat := 1037
  const BPB: nat := 32768
  const T_DEV: nat := 3

  datatype Inode = Inode(kind: nat, size: nat, addrs: seq<nat>)

  /** Blocks on the disk, where the bitmap starts, and the first block that can hold file data. */
  datatype Geo = Geo(size: nat, bmapStart: nat, dataStart: nat)

  datatype FS = FS(geo: Geo, disk: seq<Bytes>, inodes: seq<Inode>)

  predicate Shaped(fs: FS)
  {
    && |fs.disk| == fs.geo.size < U32_LIMIT
    && 0 < fs.geo.bmapStart && fs.geo.bmapStart + fs.geo.size / BPB < fs.geo.dataStart <= fs.geo.size
    && (forall b: nat :: b < |fs.disk| ==> |fs.disk[b]| == BSIZE)
    && (forall i: nat :: i < |fs.inodes| ==> |fs.inodes[i].addrs| == NDIRECT + 1)
  }

  // ---- The bitmap ----

  function BitBlock(geo: Geo, b: nat): nat
  {
    b / BPB + geo.bmapStart
  }

  predicate Used(fs: FS, b: nat)
    requires Shaped(fs) && b < fs.geo.size
  {
    BitSet(fs.disk[BitBlock(fs.geo, b)][b % BPB / 8], b % BPB % 8)
  }

  /** The bitmap with the bit of block `b` changed by `f`'s result `x`. */
  function WithByte(fs: FS, b: nat, x: byte): (r: FS)
    requires Shaped(fs) && b < fs.geo.size
    ensures Shaped(r) && r.inodes == fs.inodes && r.geo == fs.geo
    ensures forall c: nat :: c < fs.geo.size && c != BitBlock(fs.geo, b) ==> r.disk[c] == fs.disk[c]
  {
    var q := BitBlock(fs.geo, b);
    var changed: Bytes := fs.disk[q][b % BPB / 8 := x];
    fs.(disk := fs.disk[q := changed])
  }

  function Marked(fs: FS, b: nat): FS
    requires Shaped(fs) && b < fs.geo.size
  {
    var x := fs.disk[BitBlock(fs.geo, b)][b % BPB / 8];
    OrBitByte(x, b % BPB % 8);
    WithByte(fs, b, OrBit(x, b % BPB % 8))
  }

  function Freed(fs: FS, b: nat): FS
    requires Shaped(fs) && b < fs.geo.size
  {
    var x := fs.disk[BitBlock(fs.geo, b)][b % BPB / 8];
    WithByte(fs, b, ClearBit(x, b % BPB % 8))
  }

  /** Different blocks have different bits. */
  lemma BitPlace(geo: Geo, b: nat, c: nat)
    requires BitBlock(geo, b) == BitBlock(geo, c) && b % BPB / 8 == c % BPB / 8 && b % BPB % 8 == c % BPB % 8
    ensures b == c
  {
  }

  lemma MarkedUses(fs: FS, b: nat, c: nat)
    requires Shaped(fs) && b < fs.geo.size && c < fs.geo.size
    ensures Used(Marked(fs, b), c) <==> c == b || Used(fs, c)
  {
    hide BitSet, OrBit;
    var x := fs.disk[BitBlock(fs.geo, b)][b % BPB / 8];
    OrBitByte(x, b % BPB % 8);
    if BitBlock(fs.geo, b) == BitBlock(fs.geo, c) && b % BPB / 8 == c % BPB / 8 {
      OrBitSets(x, b % BPB % 8, c % BPB % 8);
      if b % BPB % 8 == c % BPB % 8 { BitPlace(fs.geo, b, c); }
    }
  }

  lemma FreedUses(fs: FS, b: nat, c: nat)
    requires Shaped(fs) && b < fs.geo.size && c < fs.geo.size
    ensures Used(Freed(fs, b), c) <==> c != b && Used(fs, c)
  {
    hide BitSet, ClearBit;
    var x := fs.disk[BitBlock(fs.geo, b)][b % BPB / 8];
    if BitBlock(fs.geo, b) == BitBlock(fs.geo, c) && b % BPB / 8 == c % BPB / 8 {
      ClearBitClears(x, b % BPB % 8, c % BPB % 8);
      if b % BPB % 8 == c % BPB % 8 { BitPlace(fs.geo, b, c); }
    }
  }

  // ---- Block pointers ----

  function Word(blk: Bytes, k: nat): nat
    requires |blk| == BSIZE && k < NINDIRECT
  {
    FromLittleEndian(blk[4 * k..4 * k + 4])
  }

  function PutWord(blk: Bytes, k: nat, v: nat): (r: Bytes)
    requires |blk| == BSIZE && k < NINDIRECT
    ensures |r| == BSIZE
  {
    blk[..4 * k] + U32(v) + blk[4 * k + 4..]
  }

  lemma WordAfter(blk: Bytes, k: nat, v: nat, m: nat)
    requires |blk| == BSIZE && k < NINDIRECT && m < NINDIRECT && v < U32_LIMIT
    ensures Word(PutWord(blk, k, v), m) == if m == k then v else Word(blk, m)
  {
    hide FromLittleEndian, U32;
    var r := PutWord(blk, k, v);
    if m == k {
      assert r[4 * k..4 * k + 4] == U32(v);
      U32RoundTrip(v);
    } else if m < k {
      assert r[4 * m..4 * m + 4] == blk[4 * m..4 * m + 4];
    } else {
      assert r[4 * m..4 * m + 4] == blk[4 * m..4 * m + 4];
    }
  }

  /**
   The pointers of inode `i`: slots 0 to 11 are direct, slot 12 names the indirect block, and the
   slots after it are the words of that block.
   */
  function Addr(fs: FS, i: nat, s: nat): nat
    requires Shaped(fs) && i < |fs.inodes| && s < SLOTS
  {
    var addrs := fs.inodes[i].addrs;
    if s <= NDIRECT then addrs[s]
    else if addrs[NDIRECT] == 0 || addrs[NDIRECT] >= fs.geo.size then 0
    else Word(fs.disk[addrs[NDIRECT]], s - NDIRECT - 1)
  }

  /** The slot of a file's `bn`-th data block. */
  function Slot(bn: nat): (s: nat)
    requires bn < MAXFILE
    ensures s < SLOTS && s != NDIRECT
  {
    if bn < NDIRECT then bn else bn + 1
  }

  // ---- The invariant ----

  predicate Valid(fs: FS, i: nat, s: nat)
  {
    i < |fs.inodes| && s < SLOTS
  }

  ghost predicate Owned(fs: FS, b: nat)
    requires Shaped(fs)
  {
    exists i: nat, s: nat :: Valid(fs, i, s) && Addr(fs, i, s) == b
  }

  /** Pointers lead to data blocks. */
  ghost predicate PointersOk(fs: FS)
    requires Shaped(fs)
  {
    forall i: nat, s: nat :: Valid(fs, i, s) && Addr(fs, i, s) != 0 ==> fs.geo.dataStart <= Addr(fs, i, s) < fs.geo.size
  }

  /** No block is pointed to twice. */
  ghost predicate NoSharing(fs: FS)
    requires Shaped(fs)
  {
    forall i: nat, s: nat, j: nat, t: nat ::
      Valid(fs, i, s) && Valid(fs, j, t) && Addr(fs, i, s) != 0 && Addr(fs, i, s) == Addr(fs, j, t) ==> i == j && s == t
  }

  /** The bitmap marks exactly the reserved blocks, the owned ones and those in transit. */
  ghost predicate Accounted(fs: FS, pending: set<nat>)
    requires Shaped(fs)
  {
    && (forall b: nat :: b < fs.geo.size ==> (Used(fs, b) <==> b < fs.geo.dataStart || b in pending || Owned(fs, b)))
    && (forall b: nat :: b in pending ==> fs.geo.dataStart <= b < fs.geo.size && !Owned(fs, b))
  }

  /** The first block of the disk, which the boot loader would use, reads as all zeros. */
  predicate BootClear(fs: FS)
    requires Shaped(fs)
  {
    forall k: nat :: k < NINDIRECT ==> Word(fs.disk[0], k) == 0
  }

  ghost predicate Inv(fs: FS, pending: set<nat>)
  {
    Shaped(fs) && PointersOk(fs) && NoSharing(fs) && Accounted(fs, pending) && BootClear(fs)
  }

  /** Every pointer of every inode is the same. */
  ghost predicate SameAddrs(fs: FS, fs': FS)
    requires Shaped(fs) && Shaped(fs')
  {
    |fs'.inodes| == |fs.inodes| && forall i: nat, s: nat :: Valid(fs, i, s) ==> Addr(fs', i, s) == Addr(fs, i, s)
  }

  lemma OwnedSame(fs: FS, fs': FS, b: nat)
    requires Shaped(fs) && Shaped(fs') && SameAddrs(fs, fs')
    ensures Owned(fs', b) <==> Owned(fs, b)
  {
    if Owned(fs, b) {
      var i: nat, s: nat :| Valid(fs, i, s) && Addr(fs, i, s) == b;
      assert Valid(fs', i, s);
    }
    if Owned(fs', b) {
      var i: nat, s: nat :| Valid(fs', i, s) && Addr(fs', i, s) == b;
      assert Valid(fs, i, s);
    }
  }

  /** Pointers survive any change that spares the indirect blocks. */
  lemma AddrsSurvive(fs: FS, fs': FS)
    requires Shaped(fs) && Shaped(fs') && fs'.geo == fs.geo && fs'.inodes == fs.inodes
    requires forall i: nat :: Valid(fs, i, NDIRECT) ==>
               var a := Addr(fs, i, NDIRECT); a == 0 || a >= fs.geo.size || fs'.disk[a] == fs.disk[a]
    ensures SameAddrs(fs, fs')
  {
    forall i: nat, s: nat | Valid(fs, i, s) ensures Addr(fs', i, s) == Addr(fs, i, s) {
      assert Valid(fs, i, NDIRECT);
    }
  }

  /** Everything but the bitmap part of the invariant follows from unchanged pointers. */
  lemma InvSurvives(fs: FS, fs': FS, pending: set<nat>, pending': set<nat>)
    requires Inv(fs, pending) && Shaped(fs') && fs'.geo == fs.geo && SameAddrs(fs, fs') && fs'.disk[0] == fs.disk[0]
    requires forall b: nat :: b in pending' ==> fs.geo.dataStart <= b < fs.geo.size && !Owned(fs, b)
    requires forall b: nat :: b < fs.geo.size ==> (Used(fs', b) <==> b < fs.geo.dataStart || b in pending' || Owned(fs, b))
    ensures Inv(fs', pending')
  {
    hide Addr, Used;
    forall b: nat ensures Owned(fs', b) <==> Owned(fs, b) { OwnedSame(fs, fs', b); }
    assert forall i: nat, s: nat :: Valid(fs', i, s) <==> Valid(fs, i, s);
  }
}
