/**
 The log's routines as they run: block writes issued one at a time against the disk.  Each method
 issues exactly the write sequence that FsLog reasons about; `trace` records it.
 */
module FsLogDevice {
  import opened FsLog

  lemma NoWrites(d: Disk)
    ensures Apply(d, []) == d
  {
  }

  class LogDevice {
    const area: Area
    const disk: array<Block>
    var lh: seq<nat>             // the in-memory header: home block numbers of this transaction
    var cache: map<nat, Block>   // contents of the pinned, modified buffers
    ghost var trace: seq<Write>

    ghost predicate Valid()
      reads this, disk
    {
      Formatted(area, disk[..])
    }

    /** An opened device: recovery has run. */
    constructor (area: Area, disk: array<Block>)
      requires Formatted(area, disk[..])
      requires forall i :: 0 <= i < |Header(area, disk[..])| ==> Header(area, disk[..])[i] < disk.Length && !area.Contains(Header(area, disk[..])[i])
      modifies disk
      ensures this.area == area && this.disk == disk && lh == [] && cache == map[]
      ensures disk[..] == Recover(area, old(disk[..])) && Clean(area, disk[..])
    {
      this.area, this.disk := area, disk;
      lh, cache, trace := [], map[], [];
      new;
      RecoverFromLog();
    }

    method BWrite(b: nat, data: Block)
      requires b < disk.Length
      modifies disk, this`trace
      ensures disk[..] == old(disk[..])[b := data]
      ensures trace == old(trace) + [Write(b, data)]
    {
      disk[b] := data;
      trace := trace + [Write(b, data)];
    }

    method ReadHead()
      requires Valid()
      modifies this`lh
      ensures lh == Header(area, disk[..])
    {
      var w := disk[area.start];
      var n := w[0];
      lh := [];
      for i := 0 to n
        invariant lh == w[1..1 + i]
      {
        lh := lh + [w[1 + i]];
      }
    }

    method WriteHead()
      requires Valid() && |lh| <= area.size - 1
      modifies disk, this`trace
      ensures Valid() && disk[..] == old(disk[..])[area.start := HeaderBlock(old(disk[area.start]), lh)]
      ensures trace == old(trace) + [Write(area.start, HeaderBlock(old(disk[area.start]), lh))]
    {
      var w := disk[area.start];
      ghost var w0 := w;
      w := w[0 := |lh|];
      for i := 0 to |lh|
        invariant |w| == |w0| && w[0] == |lh|
        invariant forall k :: 0 <= k < i ==> w[1 + k] == lh[k]
        invariant forall k :: i < k < |w| ==> w[k] == w0[k]
      {
        w := w[1 + i := lh[i]];
      }
      assert w == HeaderBlock(w0, lh);
      HeaderFormatted(area, disk[..], lh);
      BWrite(area.start, w);
    }

    /** The home blocks of the current header lie outside the log. */
    ghost predicate Targets()
      reads this
    {
      |lh| <= area.size - 1 && forall i :: 0 <= i < |lh| ==> lh[i] < disk.Length && !area.Contains(lh[i])
    }

    method InstallTrans()
      requires Valid() && Targets()
      modifies disk, this`trace
      ensures Valid()
      ensures disk[..] == Apply(old(disk[..]), InstallWrites(lh, Logged(area, old(disk[..]), |lh|)))
      ensures trace == old(trace) + InstallWrites(lh, Logged(area, old(disk[..]), |lh|))
      ensures disk[area.start] == old(disk[area.start])
    {
      hide Apply, Formatted;
      ghost var d := disk[..];
      AreaBounds(area, d);
      ghost var ws := InstallWrites(lh, Logged(area, d, |lh|));
      NoWrites(d);
      for tail := 0 to |lh|
        invariant Valid() && lh == old(lh)
        invariant disk[..] == Apply(d, ws[..tail])
        invariant trace == old(trace) + ws[..tail]
        invariant forall b :: area.start <= b < area.start + area.size ==> disk[b] == d[b]
      {
        var data := disk[area.start + 1 + tail];
        assert ws[..tail + 1] == ws[..tail] + [Write(lh[tail], data)];
        ApplyOne(d, ws[..tail], Write(lh[tail], data));
        AreaBounds(area, disk[..]);
        FormattedKept(area, disk[..], Write(lh[tail], data));
        BWrite(lh[tail], data);
      }
      assert ws[..|lh|] == ws;
    }

    method RecoverFromLog()
      requires Valid()
      requires forall i :: 0 <= i < |Header(area, disk[..])| ==> Header(area, disk[..])[i] < disk.Length && !area.Contains(Header(area, disk[..])[i])
      modifies this`lh, this`trace, disk
      ensures disk[..] == Recover(area, old(disk[..])) && Clean(area, disk[..]) && lh == []
      ensures trace == old(trace) + RecoveryWrites(area, old(disk[..]))
    {
      ghost var d := disk[..];
      ReadHead();
      if |lh| > 0 {
        ghost var ins := InstallWrites(lh, Logged(area, d, |lh|));
        InstallTrans();
        ApplyOne(d, ins, Write(area.start, HeaderBlock(disk[area.start], [])));
        lh := [];
        WriteHead();
      }
    }

    method WriteLog()
      requires Valid() && Transaction(area, disk[..], lh, cache)
      modifies disk, this`trace
      ensures Valid()
      ensures disk[..] == Apply(old(disk[..]), LogWrites(area, Contents(lh, cache)))
      ensures trace == old(trace) + LogWrites(area, Contents(lh, cache))
      ensures disk[area.start] == old(disk[area.start])
      ensures Logged(area, disk[..], |lh|) == Contents(lh, cache)
    {
      hide Apply, Formatted;
      ghost var d := disk[..];
      AreaBounds(area, d);
      ghost var ws := LogWrites(area, Contents(lh, cache));
      NoWrites(d);
      for tail := 0 to |lh|
        invariant Valid() && lh == old(lh) && cache == old(cache)
        invariant disk[..] == Apply(d, ws[..tail])
        invariant trace == old(trace) + ws[..tail]
        invariant disk[area.start] == d[area.start]
        invariant forall k :: 0 <= k < tail ==> disk[area.start + 1 + k] == cache[lh[k]]
      {
        var data := cache[lh[tail]];
        assert ws[..tail + 1] == ws[..tail] + [Write(area.start + 1 + tail, data)];
        ApplyOne(d, ws[..tail], Write(area.start + 1 + tail, data));
        FormattedKept(area, disk[..], Write(area.start + 1 + tail, data));
        BWrite(area.start + 1 + tail, data);
      }
      assert ws[..|lh|] == ws;
    }

    /** Commit the transaction: its writes are `CommitWrites`, so CrashAtomicity applies to every cut of them. */
    method Commit()
      requires Clean(area, disk[..]) && Transaction(area, disk[..], lh, cache)
      modifies this, disk
      ensures disk[..] == Apply(old(disk[..]), CommitWrites(area, old(disk[..]), old(lh), Contents(old(lh), old(cache))))
      ensures trace == old(trace) + CommitWrites(area, old(disk[..]), old(lh), Contents(old(lh), old(cache)))
      ensures Clean(area, disk[..]) && lh == [] && cache == map[]
      ensures AllNew(area, old(disk[..]), old(lh), old(cache), disk[..])
    {
      if |lh| > 0 {
        CommitPending();
      }
      cache := map[];
    }

    method CommitPending()
      requires Clean(area, disk[..]) && Transaction(area, disk[..], lh, cache) && lh != []
      modifies this`lh, this`trace, disk
      ensures disk[..] == Apply(old(disk[..]), CommitWrites(area, old(disk[..]), old(lh), Contents(old(lh), cache)))
      ensures trace == old(trace) + CommitWrites(area, old(disk[..]), old(lh), Contents(old(lh), cache))
      ensures Clean(area, disk[..]) && lh == []
      ensures AllNew(area, old(disk[..]), old(lh), cache, disk[..])
    {
      hide Apply, HeaderBlock, LogWrites, InstallWrites, Contents, AllNew, Pending;
      ghost var d, dst := disk[..], lh;
      ghost var contents := Contents(lh, cache);
      ghost var head := HeaderBlock(d[area.start], lh);
      WriteLog();
      ApplyOne(d, LogWrites(area, contents), Write(area.start, head));
      WriteHead();
      ghost var mid := disk[..];
      CommitPoint(area, d, dst, cache);
      LoggedAfter(area, Apply(d, LogWrites(area, contents)), dst, cache, head);
      InstallTrans();
      ApplyOne(mid, InstallWrites(dst, contents), Write(area.start, HeaderBlock(head, [])));
      lh := [];
      WriteHead();
      AfterClear(area, d, dst, cache, mid);
      ghost var first := LogWrites(area, contents) + [Write(area.start, head)];
      ghost var rest := InstallWrites(dst, contents) + [Write(area.start, HeaderBlock(head, []))];
      ApplyConcat(d, first, rest);
      assert CommitWrites(area, d, dst, contents) == first + rest;
    }
  }
}
