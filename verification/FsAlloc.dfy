/**
 Allocating, linking and freeing blocks: each step keeps every block accounted for.
 */
module FsAlloc {
  import opened Bytes
  import opened Bits
  import opened FsBlocks

  function ZeroBlock(): (r: Bytes)
    ensures |r| == BSIZE
  {
    seq(BSIZE, _ => 0)
  }

  function Put(fs: FS, b: nat, blk: Bytes): (r: FS)
    requires Shaped(fs) && b < fs.geo.size && |blk| == BSIZE
    ensures Shaped(r) && r.geo == fs.geo && r.inodes == fs.inodes && r.disk[b] == blk
    ensures forall c: nat :: c < fs.geo.size && c != b ==> r.disk[c] == fs.disk[c]
  {
    fs.(disk := fs.disk[b := blk])
  }

  /** The first free block at or after `b`; the disk size when there is none. */
  function FirstFree(fs: FS, b: nat): (r: nat)
    requires Shaped(fs) && b <= fs.geo.size
    ensures b <= r <= fs.geo.size && (r < fs.geo.size ==> !Used(fs, r))
    ensures forall c: nat :: b <= c < r ==> Used(fs, c)
    decreases fs.geo.size - b
  {
    if b == fs.geo.size || !Used(fs, b) then b else FirstFree(fs, b + 1)
  }

  predicate Full(fs: FS)
    requires Shaped(fs)
  {
    forall c: nat :: c < fs.geo.size ==> Used(fs, c)
  }

  /** Mark the first free block and zero it; 0 when the disk is full. */
  function Balloc(fs: FS): (r: (FS, nat))
    requires Shaped(fs)
    ensures Shaped(r.0) && r.0.geo == fs.geo && r.0.inodes == fs.inodes
  {
    var b := FirstFree(fs, 0);
    if b == fs.geo.size then (fs, 0) else (Put(Marked(fs, b), b, ZeroBlock()), b)
  }

  lemma UsedSame(fs: FS, fs': FS, b: nat)
    requires Shaped(fs) && Shaped(fs') && fs'.geo == fs.geo && b < fs.geo.size
    requires fs'.disk[BitBlock(fs.geo, b)] == fs.disk[BitBlock(fs.geo, b)]
    ensures Used(fs', b) <==> Used(fs, b)
  {
  }

  /** Writing outside the bitmap changes no bit. */
  lemma PutUses(fs: FS, b: nat, blk: Bytes, c: nat)
    requires Shaped(fs) && fs.geo.dataStart <= b < fs.geo.size && |blk| == BSIZE && c < fs.geo.size
    ensures Used(Put(fs, b, blk), c) <==> Used(fs, c)
  {
    UsedSame(fs, Put(fs, b, blk), c);
  }

  /** Writing a block that is no indirect block changes no pointer. */
  lemma PutKeepsAddrs(fs: FS, b: nat, blk: Bytes)
    requires Shaped(fs) && b < fs.geo.size && |blk| == BSIZE
    requires forall i: nat :: Valid(fs, i, NDIRECT) ==> Addr(fs, i, NDIRECT) != b
    ensures SameAddrs(fs, Put(fs, b, blk))
  {
    AddrsSurvive(fs, Put(fs, b, blk));
  }

  lemma BitmapKeepsAddrs(fs: FS, fs': FS, b: nat, pending: set<nat>)
    requires Inv(fs, pending) && b < fs.geo.size && Shaped(fs') && fs'.geo == fs.geo && fs'.inodes == fs.inodes
    requires forall c: nat :: c < fs.geo.size && c != BitBlock(fs.geo, b) ==> fs'.disk[c] == fs.disk[c]
    ensures SameAddrs(fs, fs') && fs'.disk[0] == fs.disk[0]
  {
    hide Used, Addr;
    assert BitBlock(fs.geo, b) != 0 && BitBlock(fs.geo, b) < fs.geo.dataStart;
    forall i: nat | Valid(fs, i, NDIRECT)
      ensures var a := Addr(fs, i, NDIRECT); a == 0 || a >= fs.geo.size || fs'.disk[a] == fs.disk[a]
    {
    }
    AddrsSurvive(fs, fs');
  }

  /** Allocation: a free block becomes a zeroed block in transit, and nothing else changes. */
  lemma BallocStep(fs: FS, pending: set<nat>)
    requires Inv(fs, pending)
    ensures var (fs', b) := Balloc(fs);
            if b == 0 then fs' == fs && Full(fs)
            else
              && fs.geo.dataStart <= b < fs.geo.size && !Owned(fs, b) && b !in pending
              && Inv(fs', pending + {b}) && SameAddrs(fs, fs') && fs'.disk[b] == ZeroBlock()
              && (forall c: nat :: fs.geo.dataStart <= c < fs.geo.size && c != b ==> fs'.disk[c] == fs.disk[c])
  {
    hide Used, Addr, Marked;
    var b := FirstFree(fs, 0);
    if b < fs.geo.size {
      assert !Used(fs, b);
      var fs1 := Marked(fs, b);
      MarkedFrame(fs, b);
      BitmapKeepsAddrs(fs, fs1, b, pending);
      forall c: nat | c < fs.geo.size ensures Used(fs1, c) <==> c == b || Used(fs, c) { MarkedUses(fs, b, c); }
      InvSurvives(fs, fs1, pending, pending + {b});
      PutPending(fs1, pending + {b}, b, ZeroBlock());
      SameAddrsTransitive(fs, fs1, Put(fs1, b, ZeroBlock()));
    } else {
      assert Full(fs);
    }
  }

  lemma MarkedFrame(fs: FS, b: nat)
    requires Shaped(fs) && b < fs.geo.size
    ensures Shaped(Marked(fs, b)) && Marked(fs, b).geo == fs.geo && Marked(fs, b).inodes == fs.inodes
    ensures forall c: nat :: c < fs.geo.size && c != BitBlock(fs.geo, b) ==> Marked(fs, b).disk[c] == fs.disk[c]
  {
  }

  lemma SameAddrsTransitive(a: FS, b: FS, c: FS)
    requires Shaped(a) && Shaped(b) && Shaped(c) && SameAddrs(a, b) && SameAddrs(b, c)
    ensures SameAddrs(a, c)
  {
    hide Addr;
    assert forall i: nat, s: nat :: Valid(a, i, s) ==> Valid(b, i, s);
  }

  lemma NotOwned(fs: FS, b: nat)
    requires Shaped(fs) && !Owned(fs, b)
    ensures forall i: nat, s: nat :: Valid(fs, i, s) ==> Addr(fs, i, s) != b
  {
    hide Addr;
  }

  /** A block in transit can be written freely. */
  lemma PutPending(fs: FS, pending: set<nat>, b: nat, blk: Bytes)
    requires Inv(fs, pending) && b in pending && |blk| == BSIZE
    ensures Inv(Put(fs, b, blk), pending) && SameAddrs(fs, Put(fs, b, blk))
  {
    hide Used, Addr;
    var fs' := Put(fs, b, blk);
    NotOwned(fs, b);
    PutKeepsAddrs(fs, b, blk);
    forall c: nat | c < fs.geo.size ensures Used(fs', c) <==> Used(fs, c) { PutUses(fs, b, blk, c); }
    InvSurvives(fs, fs', pending, pending);
  }

  /** A data block of a file can be written freely: it holds no pointers. */
  lemma PutData(fs: FS, pending: set<nat>, i: nat, s: nat, blk: Bytes)
    requires Inv(fs, pending) && Valid(fs, i, s) && s != NDIRECT && Addr(fs, i, s) != 0 && |blk| == BSIZE
    ensures Addr(fs, i, s) < fs.geo.size && Inv(Put(fs, Addr(fs, i, s), blk), pending)
    ensures SameAddrs(fs, Put(fs, Addr(fs, i, s), blk))
  {
    hide Used, Addr;
    var b := Addr(fs, i, s);
    var fs' := Put(fs, b, blk);
    forall j: nat | Valid(fs, j, NDIRECT) ensures Addr(fs, j, NDIRECT) != b { }
    PutKeepsAddrs(fs, b, blk);
    forall c: nat | c < fs.geo.size ensures Used(fs', c) <==> Used(fs, c) { PutUses(fs, b, blk, c); }
    InvSurvives(fs, fs', pending, pending);
  }

  // ---- Linking ----

  /** Store pointer `v` in slot `s` of inode `i`. */
  function SetAddr(fs: FS, i: nat, s: nat, v: nat): (r: FS)
    requires Shaped(fs) && Valid(fs, i, s)
    requires s > NDIRECT ==> fs.inodes[i].addrs[NDIRECT] < fs.geo.size
    ensures Shaped(r) && r.geo == fs.geo && |r.inodes| == |fs.inodes|
  {
    var ip := fs.inodes[i];
    if s <= NDIRECT then fs.(inodes := fs.inodes[i := ip.(addrs := ip.addrs[s := v])])
    else Put(fs, ip.addrs[NDIRECT], PutWord(fs.disk[ip.addrs[NDIRECT]], s - NDIRECT - 1, v))
  }

  /** The new pointer is where it was put, and every other pointer is what it was. */
  ghost predicate OnlyLinked(fs: FS, fs': FS, i: nat, s: nat, v: nat)
    requires Shaped(fs) && Shaped(fs')
  {
    && |fs'.inodes| == |fs.inodes|
    && forall j: nat, t: nat :: Valid(fs, j, t) ==> Addr(fs', j, t) == if j == i && t == s then v else Addr(fs, j, t)
  }

  lemma ClearBlockWords(k: nat)
    requires k < NINDIRECT
    ensures Word(ZeroBlock(), k) == 0
  {
    var w := ZeroBlock()[4 * k..4 * k + 4];
    assert w == [0, 0, 0, 0];
    ZeroWord();
  }

  lemma ZeroWord()
    ensures FromLittleEndian([0, 0, 0, 0]) == 0
  {
    assert [0][1..] == [] && [0, 0][1..] == [0] && [0, 0, 0][1..] == [0, 0] && [0, 0, 0, 0][1..] == [0, 0, 0];
    assert FromLittleEndian([0]) == 256 * FromLittleEndian([]) == 0;
    assert FromLittleEndian([0, 0]) == 256 * FromLittleEndian([0]);
    assert FromLittleEndian([0, 0, 0]) == 256 * FromLittleEndian([0, 0]);
  }

  lemma SetInodeSlot(fs: FS, pending: set<nat>, i: nat, s: nat, b: nat)
    requires Inv(fs, pending) && Valid(fs, i, s) && s <= NDIRECT && Addr(fs, i, s) == 0 && 0 < b < fs.geo.size
    requires s == NDIRECT ==> fs.disk[b] == ZeroBlock()
    ensures OnlyLinked(fs, SetAddr(fs, i, s, b), i, s, b)
  {
    hide Word, ZeroBlock;
    var fs' := SetAddr(fs, i, s, b);
    forall j: nat, t: nat | Valid(fs, j, t)
      ensures Addr(fs', j, t) == if j == i && t == s then b else Addr(fs, j, t)
    {
      if s == NDIRECT && t > NDIRECT { ClearBlockWords(t - NDIRECT - 1); }
    }
  }

  lemma SetWordSlot(fs: FS, pending: set<nat>, i: nat, s: nat, b: nat)
    requires Inv(fs, pending) && Valid(fs, i, s) && s > NDIRECT && Addr(fs, i, NDIRECT) != 0 && b < fs.geo.size
    ensures Addr(fs, i, NDIRECT) < fs.geo.size
    ensures OnlyLinked(fs, SetAddr(fs, i, s, b), i, s, b)
  {
    hide Word, PutWord, Used;
    var q := Addr(fs, i, NDIRECT);
    var fs' := SetAddr(fs, i, s, b);
    forall j: nat, t: nat | Valid(fs, j, t)
      ensures Addr(fs', j, t) == if j == i && t == s then b else Addr(fs, j, t)
    {
      assert Valid(fs, j, NDIRECT);
      if t > NDIRECT && Addr(fs, j, NDIRECT) == q {
        assert j == i;
        WordAfter(fs.disk[q], s - NDIRECT - 1, b, t - NDIRECT - 1);
      }
    }
  }

  /** Linking a block in transit keeps the invariant, with one block less in transit. */
  lemma LinkKeeps(fs: FS, fs': FS, pending: set<nat>, i: nat, s: nat, b: nat)
    requires Inv(fs, pending) && Valid(fs, i, s) && Addr(fs, i, s) == 0 && b in pending
    requires Shaped(fs') && fs'.geo == fs.geo && OnlyLinked(fs, fs', i, s, b) && fs'.disk[0] == fs.disk[0]
    requires forall c: nat :: c < fs.geo.size ==> (Used(fs', c) <==> Used(fs, c))
    ensures Inv(fs', pending - {b})
  {
    hide Used, Addr;
    assert forall j: nat, t: nat :: Valid(fs', j, t) <==> Valid(fs, j, t);
    NotOwned(fs, b);
    assert forall j: nat, t: nat :: Valid(fs, j, t) && !(j == i && t == s) ==> Addr(fs', j, t) != b;
    forall c: nat | c != 0 ensures Owned(fs', c) <==> c == b || Owned(fs, c) {
      if Owned(fs, c) {
        var j: nat, t: nat :| Valid(fs, j, t) && Addr(fs, j, t) == c;
        assert Addr(fs', j, t) == c;
      }
      if c == b { assert Addr(fs', i, s) == b; }
      if Owned(fs', c) {
        var j: nat, t: nat :| Valid(fs', j, t) && Addr(fs', j, t) == c;
        if !(j == i && t == s) { assert Addr(fs, j, t) == c; }
      }
    }
  }

  lemma LinkStep(fs: FS, pending: set<nat>, i: nat, s: nat, b: nat)
    requires Inv(fs, pending) && Valid(fs, i, s) && Addr(fs, i, s) == 0 && b in pending
    requires s == NDIRECT ==> fs.disk[b] == ZeroBlock()
    requires s > NDIRECT ==> Addr(fs, i, NDIRECT) != 0
    ensures s > NDIRECT ==> Addr(fs, i, NDIRECT) < fs.geo.size
    ensures var fs' := SetAddr(fs, i, s, b);
            && Inv(fs', pending - {b}) && OnlyLinked(fs, fs', i, s, b)
            && (forall c: nat :: c < fs.geo.size && (s > NDIRECT ==> c != Addr(fs, i, NDIRECT)) ==> fs'.disk[c] == fs.disk[c])
  {
    hide Used, ZeroBlock, Word, PutWord;
    assert Valid(fs, i, NDIRECT);
    if s <= NDIRECT { SetInodeSlot(fs, pending, i, s, b); } else { SetWordSlot(fs, pending, i, s, b); }
    var fs' := SetAddr(fs, i, s, b);
    forall c: nat | c < fs.geo.size ensures Used(fs', c) <==> Used(fs, c) { UsedSame(fs, fs', c); }
    LinkKeeps(fs, fs', pending, i, s, b);
  }

  // ---- Freeing ----

  /** Freeing a block in transit returns it to the free ones. */
  lemma FreeStep(fs: FS, pending: set<nat>, b: nat)
    requires Inv(fs, pending) && b in pending
    ensures var fs' := Freed(fs, b);
            && Inv(fs', pending - {b}) && SameAddrs(fs, fs')
            && (forall c: nat :: fs.geo.dataStart <= c < fs.geo.size ==> fs'.disk[c] == fs.disk[c])
  {
    hide Used, Addr, Freed;
    var fs' := Freed(fs, b);
    FreedFrame(fs, b);
    BitmapKeepsAddrs(fs, fs', b, pending);
    forall c: nat | c < fs.geo.size ensures Used(fs', c) <==> c != b && Used(fs, c) { FreedUses(fs, b, c); }
    InvSurvives(fs, fs', pending, pending - {b});
  }

  lemma FreedFrame(fs: FS, b: nat)
    requires Shaped(fs) && b < fs.geo.size
    ensures Shaped(Freed(fs, b)) && Freed(fs, b).geo == fs.geo && Freed(fs, b).inodes == fs.inodes
    ensures forall c: nat :: c < fs.geo.size && c != BitBlock(fs.geo, b) ==> Freed(fs, b).disk[c] == fs.disk[c]
  {
  }
}
