/**
 Truncation: a file gives up its blocks one by one, and every one of them becomes free again.
 */
module FsTruncate {
  import opened Bytes
  import opened FsBlocks
  import opened FsAlloc
  import opened FsFiles
  import opened FsBytes

  /** The blocks named by slots `lo` to `hi` of inode `i`. */
  function Taken(fs: FS, i: nat, lo: nat, hi: nat): set<nat>
    requires Shaped(fs) && i < |fs.inodes| && hi <= SLOTS
  {
    set t: nat | lo <= t < hi && Addr(fs, i, t) != 0 :: Addr(fs, i, t)
  }

  /** Inode `i` without pointer `s`. */
  function Unlinked(fs: FS, i: nat, s: nat): (r: FS)
    requires Shaped(fs) && i < |fs.inodes| && s <= NDIRECT
    ensures Shaped(r) && r.geo == fs.geo && r.disk == fs.disk && |r.inodes| == |fs.inodes|
  {
    var ip := fs.inodes[i];
    fs.(inodes := fs.inodes[i := ip.(addrs := ip.addrs[s := 0])])
  }

  /** Slots that vanish with slot `s`: the indirect block takes its words along. */
  function LastSlot(s: nat): nat
  {
    if s == NDIRECT then SLOTS else s + 1
  }

  lemma UnlinkedAddrs(fs: FS, i: nat, s: nat)
    requires Shaped(fs) && i < |fs.inodes| && s <= NDIRECT
    ensures forall j: nat, t: nat :: Valid(fs, j, t) ==>
              Addr(Unlinked(fs, i, s), j, t) == if j == i && s <= t < LastSlot(s) then 0 else Addr(fs, j, t)
  {
    hide Word;
  }

  /** Blocks whose pointers are cleared are in transit. */
  lemma UnlinkStep(fs: FS, pending: set<nat>, i: nat, s: nat)
    requires Inv(fs, pending) && i < |fs.inodes| && s <= NDIRECT
    ensures Inv(Unlinked(fs, i, s), pending + Taken(fs, i, s, LastSlot(s)))
  {
    hide Addr, Used;
    var fs' := Unlinked(fs, i, s);
    var gone := Taken(fs, i, s, LastSlot(s));
    UnlinkedAddrs(fs, i, s);
    assert forall j: nat, t: nat :: Valid(fs', j, t) <==> Valid(fs, j, t);
    forall b: nat | b < fs.geo.size ensures Used(fs', b) <==> Used(fs, b) { UsedSame(fs, fs', b); }
    forall b: nat | b != 0 ensures Owned(fs, b) <==> Owned(fs', b) || b in gone { OwnedOrGone(fs, pending, i, s, b); }
    forall b: nat | b in gone ensures fs.geo.dataStart <= b < fs.geo.size && !Owned(fs', b) {
      GoneNotOwned(fs, pending, i, s, b);
    }
    assert forall b: nat :: b in pending ==> !Owned(fs', b);
  }

  lemma OwnedOrGone(fs: FS, pending: set<nat>, i: nat, s: nat, b: nat)
    requires Inv(fs, pending) && i < |fs.inodes| && s <= NDIRECT && b != 0
    ensures Owned(fs, b) <==> Owned(Unlinked(fs, i, s), b) || b in Taken(fs, i, s, LastSlot(s))
  {
    hide Addr, Used;
    var fs' := Unlinked(fs, i, s);
    UnlinkedAddrs(fs, i, s);
    if Owned(fs, b) {
      var j: nat, t: nat :| Valid(fs, j, t) && Addr(fs, j, t) == b;
      assert Valid(fs', j, t);
      if !(j == i && s <= t < LastSlot(s)) { assert Addr(fs', j, t) == b; }
    }
    if Owned(fs', b) {
      var j: nat, t: nat :| Valid(fs', j, t) && Addr(fs', j, t) == b;
      assert Valid(fs, j, t) && Addr(fs, j, t) == b;
    }
    if b in Taken(fs, i, s, LastSlot(s)) {
      var t: nat :| s <= t < LastSlot(s) && Addr(fs, i, t) == b;
      assert Valid(fs, i, t);
    }
  }

  lemma GoneNotOwned(fs: FS, pending: set<nat>, i: nat, s: nat, b: nat)
    requires Inv(fs, pending) && i < |fs.inodes| && s <= NDIRECT && b in Taken(fs, i, s, LastSlot(s))
    ensures fs.geo.dataStart <= b < fs.geo.size && !Owned(Unlinked(fs, i, s), b)
  {
    hide Addr, Used;
    var fs' := Unlinked(fs, i, s);
    UnlinkedAddrs(fs, i, s);
    var t: nat :| s <= t < LastSlot(s) && Addr(fs, i, t) != 0 && Addr(fs, i, t) == b;
    assert Valid(fs, i, t);
    forall j: nat, u: nat | Valid(fs', j, u) ensures Addr(fs', j, u) != b { assert Valid(fs, j, u); }
  }

  /** Taking slot `t` out of the range takes its block out of the set. */
  lemma TakenSplits(fs: FS, pending: set<nat>, i: nat, t: nat)
    requires Inv(fs, pending) && i < |fs.inodes| && t < SLOTS
    ensures var b := Addr(fs, i, t);
            Taken(fs, i, t, SLOTS) == Taken(fs, i, t + 1, SLOTS) + if b == 0 then {} else {b}
    ensures Addr(fs, i, t) !in Taken(fs, i, t + 1, SLOTS)
  {
    hide Addr, Used;
    assert forall u: nat :: u < SLOTS ==> Valid(fs, i, u);
  }

  /** Nothing but bitmap bits and inode `i` has changed. */
  ghost predicate OnlyFreed(fs0: FS, fs: FS, i: nat)
    requires Shaped(fs0) && Shaped(fs)
  {
    && fs.geo == fs0.geo && |fs.inodes| == |fs0.inodes|
    && (forall j: nat :: j < |fs.inodes| && j != i ==> fs.inodes[j] == fs0.inodes[j])
    && (forall c: nat :: fs.geo.dataStart <= c < fs.geo.size ==> fs.disk[c] == fs0.disk[c])
  }

  /** Other files cannot tell that a file was truncated. */
  lemma TruncateDone(fs0: FS, fs: FS, i: nat)
    requires Inv(fs0, {}) && Inv(fs, {}) && Sized(fs0) && OnlyFreed(fs0, fs, i) && i < |fs.inodes|
    requires fs.inodes[i].size == 0
    ensures Sized(fs) && Content(fs, i) == []
    ensures forall j: nat :: j < |fs.inodes| && j != i ==>
              fs.inodes[j].size == fs0.inodes[j].size <= MAXBYTES && Content(fs, j) == Content(fs0, j)
  {
    hide Used, Word, Slot;
    InvShaped(fs0, {});
    forall j: nat, t: nat | Valid(fs, j, t) && j != i ensures Addr(fs, j, t) == Addr(fs0, j, t) {
      assert Valid(fs0, j, NDIRECT);
      IndirectIs(fs0, j);
    }
    forall j: nat, p: nat | j < |fs.inodes| && j != i && p < fs.inodes[j].size
      ensures Mapped(fs, j, p) && ByteAt(fs, j, p) == ByteAt(fs0, j, p)
    {
      assert Mapped(fs0, j, p);
      assert Valid(fs0, j, Slot(p / BSIZE));
    }
    forall j: nat | j < |fs.inodes| && j != i ensures Content(fs, j) == Content(fs0, j) { }
  }
}
