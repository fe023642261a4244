/**
 A freshly formatted disk with its root directory, and what the invariant's condition on block 0 is for.
 */
module FsFormat {
  import opened Bytes
  import opened Bits
  import opened FsBlocks
  import opened FsAlloc
  import opened FsFiles
  import opened FsBytes

  const T_DIR: nat := 1
  const ROOTINO: nat := 1

  /** A disk of zeros and inodes without blocks; superblock and inode blocks are `geo` and `inodes`. */
  function Blank(geo: Geo, n: nat): FS
  {
    FS(geo, seq(geo.size, _ => ZeroBlock()), seq(n, _ => Inode(0, 0, seq(NDIRECT + 1, _ => 0))))
  }

  predicate GeoOk(geo: Geo)
  {
    geo.size < U32_LIMIT && 0 < geo.bmapStart && geo.bmapStart + geo.size / BPB < geo.dataStart <= geo.size
  }

  /** The bits of the first `k` blocks set. */
  function Reserved(fs: FS, k: nat): (r: FS)
    requires Shaped(fs) && k <= fs.geo.size
    ensures Shaped(r) && r.geo == fs.geo && r.inodes == fs.inodes
  {
    if k == 0 then fs else Marked(Reserved(fs, k - 1), k - 1)
  }

  lemma {:induction false} NoBitInZero(j: nat)
    ensures !BitSet(0, j)
  {
    if j > 0 { NoBitInZero(j - 1); }
  }

  lemma {:induction false} ReservedUses(fs: FS, k: nat, c: nat)
    requires Shaped(fs) && k <= fs.geo.size && c < fs.geo.size
    ensures Used(Reserved(fs, k), c) <==> c < k || Used(fs, c)
    ensures Reserved(fs, k).disk[0] == fs.disk[0]
    decreases k
  {
    hide Used, Marked;
    if k > 0 {
      ReservedUses(fs, k - 1, c);
      MarkedUses(Reserved(fs, k - 1), k - 1, c);
      MarkedFrame(Reserved(fs, k - 1), k - 1);
    }
  }

  /** A directory entry: a two-byte inode number and a name of up to 14 characters, filled up with zeros. */
  function DirEntry(inum: nat, name: Bytes): (r: Bytes)
    requires |name| <= 14
    ensures |r| == 16
  {
    LittleEndian(inum, 2) + name + seq(14 - |name|, _ => 0)
  }

  const DOT: byte := 46

  function RootBlock(): (r: Bytes)
    ensures |r| == BSIZE
  {
    DirEntry(ROOTINO, [DOT]) + DirEntry(ROOTINO, [DOT, DOT]) + seq(BSIZE - 32, _ => 0)
  }

  /** The root's bytes: inode 1 under the names "." and "..", and zeros everywhere else. */
  lemma RootEntries(k: nat)
    requires k < BSIZE
    ensures RootBlock()[k] == if k == 0 || k == 16 then ROOTINO else if k in {2, 18, 19} then DOT else 0
  {
    assert LittleEndian(0, 1) == [0] + LittleEndian(0, 0) == [0];
    assert LittleEndian(ROOTINO, 2) == [1] + LittleEndian(0, 1) == [1, 0];
    var a, b, z := DirEntry(ROOTINO, [DOT]), DirEntry(ROOTINO, [DOT, DOT]), seq(BSIZE - 32, _ => 0);
    assert RootBlock() == a + b + z;
    assert k < 16 ==> RootBlock()[k] == a[k];
    assert 16 <= k < 32 ==> RootBlock()[k] == b[k - 16];
    assert k >= 32 ==> RootBlock()[k] == z[k - 32];
  }

  /** What formatting leaves: the root directory in the first data block, its size rounded up to a block. */
  function Formatted(geo: Geo, n: nat): (r: FS)
    requires GeoOk(geo) && geo.dataStart < geo.size && n > ROOTINO
    ensures Shaped(r) && r.geo == geo && |r.inodes| == n
  {
    var fs := Put(Reserved(Blank(geo, n), geo.dataStart + 1), geo.dataStart, RootBlock());
    fs.(inodes := fs.inodes[ROOTINO := Inode(T_DIR, BSIZE, [geo.dataStart] + seq(NDIRECT, _ => 0))])
  }

  lemma FormattedUses(geo: Geo, n: nat, c: nat)
    requires GeoOk(geo) && geo.dataStart < geo.size && n > ROOTINO && c < geo.size
    ensures Used(Formatted(geo, n), c) <==> c <= geo.dataStart
    ensures Formatted(geo, n).disk[0] == ZeroBlock()
  {
    hide Used, Word, RootBlock, Reserved;
    var blank := Blank(geo, n);
    var fs := Reserved(blank, geo.dataStart + 1);
    ReservedUses(blank, geo.dataStart + 1, c);
    BlankUnused(geo, n, c);
    PutUses(fs, geo.dataStart, RootBlock(), c);
    UsedSame(Put(fs, geo.dataStart, RootBlock()), Formatted(geo, n), c);
  }

  /** The only pointer on a formatted disk is the root directory's first. */
  lemma FormattedAddrs(geo: Geo, n: nat, i: nat, s: nat)
    requires GeoOk(geo) && geo.dataStart < geo.size && n > ROOTINO && i < n && s < SLOTS
    ensures Addr(Formatted(geo, n), i, s) == if i == ROOTINO && s == 0 then geo.dataStart else 0
  {
  }

  /** Formatting establishes the invariant every operation keeps, with a root directory of one block. */
  lemma FormattedOk(geo: Geo, n: nat)
    requires GeoOk(geo) && geo.dataStart < geo.size && n > ROOTINO
    ensures var fs := Formatted(geo, n); Inv(fs, {}) && Sized(fs)
    ensures Formatted(geo, n).inodes[ROOTINO].kind == T_DIR && Formatted(geo, n).inodes[ROOTINO].size == BSIZE
    ensures Content(Formatted(geo, n), ROOTINO) == RootBlock()
    ensures forall i: nat :: i < n && i != ROOTINO ==> Formatted(geo, n).inodes[i].size == 0 && Formatted(geo, n).inodes[i].kind == 0
  {
    var fs := Formatted(geo, n);
    FormattedRoot(geo, n);
    hide Used, Word, ZeroBlock, Addr, RootBlock, Formatted;
    forall c: nat | c < geo.size ensures Used(fs, c) <==> c <= geo.dataStart { FormattedUses(geo, n, c); }
    FormattedUses(geo, n, 0);
    forall k: nat | k < NINDIRECT ensures Word(fs.disk[0], k) == 0 { ClearBlockWords(k); }
    forall i: nat, s: nat | Valid(fs, i, s) ensures Addr(fs, i, s) == if i == ROOTINO && s == 0 then geo.dataStart else 0 {
      FormattedAddrs(geo, n, i, s);
    }
    assert Valid(fs, ROOTINO, 0);
    assert Owned(fs, geo.dataStart);
  }

  lemma FormattedRoot(geo: Geo, n: nat)
    requires GeoOk(geo) && geo.dataStart < geo.size && n > ROOTINO
    ensures var fs := Formatted(geo, n);
            && fs.inodes[ROOTINO].kind == T_DIR && fs.inodes[ROOTINO].size == BSIZE
            && fs.disk[geo.dataStart] == RootBlock()
            && forall i: nat :: i < n && i != ROOTINO ==> fs.inodes[i].size == 0 && fs.inodes[i].kind == 0
  {
    hide RootBlock;
  }

  lemma BlankUnused(geo: Geo, n: nat, c: nat)
    requires GeoOk(geo) && c < geo.size
    ensures Shaped(Blank(geo, n)) && !Used(Blank(geo, n), c)
  {
    NoBitInZero(c % BPB % 8);
  }

  /**
   On a full disk, the first block behind the direct ones is looked up in block 0: the failed
   allocation of the indirect block goes unnoticed, and whatever block 0 holds there is believed.
   */
  lemma BootBlockBelieved(fs: FS, i: nat, bn: nat)
    requires Shaped(fs) && Full(fs) && i < |fs.inodes| && NDIRECT <= bn < MAXFILE && fs.inodes[i].addrs[NDIRECT] == 0
    ensures Bmap(fs, i, bn).1 == Word(fs.disk[0], bn - NDIRECT)
    ensures Bmap(fs, i, bn).1 == 0 <==> Word(fs.disk[0], bn - NDIRECT) == 0
  {
    hide Used, Word, PutWord;
    assert Balloc(fs) == (fs, 0);
    assert fs.inodes[i].addrs[NDIRECT := 0] == fs.inodes[i].addrs;
    assert fs.inodes[i := fs.inodes[i]] == fs.inodes;
    assert SetAddr(fs, i, NDIRECT, 0) == fs;
  }
}
