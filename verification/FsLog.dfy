/**
 The write-ahead log of simple-fs: crash atomicity of a transaction.

 The disk is a sequence of blocks of 32-bit words, written one block at a time in program order.
 Block `start` is the log header (word 0 is the count `n`, words 1..n the home block numbers);
 blocks `start + 1 ..` hold the logged contents.
 */
module FsLog {

  type Block = seq<int>
  type Disk = seq<Block>

  const BLOCK_WORDS: nat := 1024

  datatype Write = Write(blockno: nat, data: Block)

  /** Where the log lies: the header at `start`, `size - 1` log blocks behind it. */
  datatype Area = Area(start: nat, size: nat) {
    predicate Contains(b: nat) { start <= b < start + size }
  }

  predicate Formatted(a: Area, d: Disk)
  {
    && 1 <= a.size && a.start + a.size <= |d| && a.size <= BLOCK_WORDS
    && (forall b :: 0 <= b < |d| ==> |d[b]| == BLOCK_WORDS)
    && 0 <= d[a.start][0] <= a.size - 1
    && forall i :: 1 <= i <= d[a.start][0] ==> d[a.start][i] >= 0
  }

  /** The home block numbers in an on-disk header. */
  function Header(a: Area, d: Disk): seq<nat>
    requires Formatted(a, d)
  {
    d[a.start][1..1 + d[a.start][0]]
  }

  /** A header block rewritten for `dst`; words beyond the new count keep their old content. */
  function HeaderBlock(old_: Block, dst: seq<nat>): (r: Block)
    requires |dst| < BLOCK_WORDS == |old_|
    ensures |r| == BLOCK_WORDS
  {
    [|dst|] + dst + old_[1 + |dst|..]
  }

  function Apply(d: Disk, ws: seq<Write>): (r: Disk)
    ensures |r| == |d|
  {
    if ws == [] then d
    else
      var w := ws[|ws| - 1];
      var before := Apply(d, ws[..|ws| - 1]);
      if w.blockno < |d| then before[w.blockno := w.data] else before
  }

  /** The disk after a crash in the middle of a series of writes: only the first `k` arrived. */
  function CrashAfter(d: Disk, ws: seq<Write>, k: nat): Disk
  {
    Apply(d, if k <= |ws| then ws[..k] else ws)
  }

  // ---- The write sequences of commit and recovery ----

  function LogWrites(a: Area, contents: seq<Block>): (r: seq<Write>)
    ensures |r| == |contents|
  {
    seq(|contents|, i requires 0 <= i < |contents| => Write(a.start + 1 + i, contents[i]))
  }

  function InstallWrites(dst: seq<nat>, contents: seq<Block>): (r: seq<Write>)
    requires |dst| == |contents|
    ensures |r| == |dst|
  {
    seq(|dst|, i requires 0 <= i < |dst| => Write(dst[i], contents[i]))
  }

  /** Log blocks, header (the commit point), home blocks, cleared header. */
  function CommitWrites(a: Area, d: Disk, dst: seq<nat>, contents: seq<Block>): seq<Write>
    requires Formatted(a, d) && |dst| == |contents| <= a.size - 1
  {
    if dst == [] then []
    else
      var head := HeaderBlock(d[a.start], dst);
      LogWrites(a, contents) + [Write(a.start, head)] + InstallWrites(dst, contents) + [Write(a.start, HeaderBlock(head, []))]
  }

  function Logged(a: Area, d: Disk, n: nat): (r: seq<Block>)
    requires a.start + 1 + n <= |d|
    ensures |r| == n
  {
    d[a.start + 1..a.start + 1 + n]
  }

  /** Replay of a non-empty header, then the cleared header; nothing when the log is empty. */
  function RecoveryWrites(a: Area, d: Disk): seq<Write>
    requires Formatted(a, d)
  {
    var dst := Header(a, d);
    if dst == [] then []
    else InstallWrites(dst, Logged(a, d, |dst|)) + [Write(a.start, HeaderBlock(d[a.start], []))]
  }

  /** A recovery attempt interrupted after `k` writes. */
  function InterruptedRecovery(a: Area, d: Disk, k: nat): Disk
    requires Formatted(a, d)
  {
    CrashAfter(d, RecoveryWrites(a, d), k)
  }

  function Recover(a: Area, d: Disk): Disk
    requires Formatted(a, d)
  {
    Apply(d, RecoveryWrites(a, d))
  }

  // ---- A transaction ----

  /** Home blocks lie outside the log, on the disk, and every logged block has its new content in the cache. */
  predicate Transaction(a: Area, d: Disk, dst: seq<nat>, cache: map<nat, Block>)
  {
    && |dst| <= a.size - 1
    && (forall i :: 0 <= i < |dst| ==> dst[i] < |d| && !a.Contains(dst[i]) && dst[i] in cache && |cache[dst[i]]| == BLOCK_WORDS)
  }

  function Contents(dst: seq<nat>, cache: map<nat, Block>): (r: seq<Block>)
    requires forall i :: 0 <= i < |dst| ==> dst[i] in cache
    ensures |r| == |dst|
  {
    seq(|dst|, i requires 0 <= i < |dst| => cache[dst[i]])
  }

  predicate Clean(a: Area, d: Disk)
  {
    Formatted(a, d) && d[a.start][0] == 0
  }

  /** Every home block is as on `d0`. */
  ghost predicate AllOld(a: Area, d0: Disk, d: Disk)
  {
    |d| == |d0| && forall b: nat :: b < |d| && !a.Contains(b) ==> d[b] == d0[b]
  }

  /** Every logged home block has its new content, and every other home block is as on `d0`. */
  ghost predicate AllNew(a: Area, d0: Disk, dst: seq<nat>, cache: map<nat, Block>, d: Disk)
    requires forall i :: 0 <= i < |dst| ==> dst[i] in cache
  {
    |d| == |d0| && forall b: nat :: b < |d| && !a.Contains(b) ==> d[b] == if b in dst then cache[b] else d0[b]
  }

  /** Between the commit point and the cleared header: the log is complete, home blocks are old or new. */
  ghost predicate Pending(a: Area, d0: Disk, dst: seq<nat>, cache: map<nat, Block>, d: Disk)
    requires forall i :: 0 <= i < |dst| ==> dst[i] in cache
  {
    && Formatted(a, d) && |d| == |d0| && Header(a, d) == dst
    && a.start + 1 + |dst| <= |d| && Logged(a, d, |dst|) == Contents(dst, cache)
    && forall b: nat :: b < |d| && !a.Contains(b) ==> d[b] == d0[b] || (b in dst && d[b] == cache[b])
  }

  // ---- Writing one block at a time ----

  lemma ApplyOne(d: Disk, ws: seq<Write>, w: Write)
    ensures Apply(d, ws + [w]) == if w.blockno < |d| then Apply(d, ws)[w.blockno := w.data] else Apply(d, ws)
  {
    assert (ws + [w])[..|ws|] == ws;
  }

  lemma {:induction false} ApplyConcat(d: Disk, a: seq<Write>, b: seq<Write>)
    ensures Apply(d, a + b) == Apply(Apply(d, a), b)
    decreases |b|
  {
    if b == [] {
      assert a + b == a;
    } else {
      var front := b[..|b| - 1];
      ApplyConcat(d, a, front);
      assert a + b == (a + front) + [b[|b| - 1]];
      ApplyOne(d, a + front, b[|b| - 1]);
    }
  }

  lemma AreaBounds(a: Area, d: Disk)
    requires Formatted(a, d)
    ensures 1 <= a.size <= BLOCK_WORDS && a.start + a.size <= |d| && forall b :: 0 <= b < |d| ==> |d[b]| == BLOCK_WORDS
  {
  }

  lemma FormattedKept(a: Area, d: Disk, w: Write)
    requires Formatted(a, d) && w.blockno < |d| && w.blockno != a.start && |w.data| == BLOCK_WORDS
    ensures Formatted(a, d[w.blockno := w.data])
  {
  }

  /** Writing log blocks changes no home block and not the header. */
  lemma {:induction false} AfterLogWrites(a: Area, d: Disk, contents: seq<Block>, k: nat)
    requires Formatted(a, d) && k <= |contents| <= a.size - 1
    requires forall i :: 0 <= i < |contents| ==> |contents[i]| == BLOCK_WORDS
    ensures var r := Apply(d, LogWrites(a, contents)[..k]);
            && Formatted(a, r) && AllOld(a, d, r) && r[a.start] == d[a.start]
            && forall i :: 0 <= i < k ==> r[a.start + 1 + i] == contents[i]
    decreases k
  {
    if k > 0 {
      AfterLogWrites(a, d, contents, k - 1);
      var ws := LogWrites(a, contents);
      assert ws[..k][..k - 1] == ws[..k - 1];
      var before := Apply(d, ws[..k - 1]);
      assert Apply(d, ws[..k]) == before[a.start + k := contents[k - 1]];
    }
  }

  /** The state right after the header write. */
  lemma CommitPoint(a: Area, d: Disk, dst: seq<nat>, cache: map<nat, Block>)
    requires Formatted(a, d) && Transaction(a, d, dst, cache)
    ensures var contents := Contents(dst, cache);
            Pending(a, d, dst, cache, Apply(d, LogWrites(a, contents) + [Write(a.start, HeaderBlock(d[a.start], dst))]))
  {
    hide Apply, Formatted, HeaderBlock;
    var contents := Contents(dst, cache);
    var ws := LogWrites(a, contents);
    AfterLogWrites(a, d, contents, |dst|);
    assert ws[..|dst|] == ws;
    var before := Apply(d, ws);
    var head := HeaderBlock(d[a.start], dst);
    ApplyOne(d, ws, Write(a.start, head));
    HeaderFormatted(a, before, dst);
    LoggedAfter(a, before, dst, cache, head);
  }

  lemma LoggedAfter(a: Area, d: Disk, dst: seq<nat>, cache: map<nat, Block>, head: Block)
    requires forall i :: 0 <= i < |dst| ==> dst[i] in cache
    requires a.start + 1 + |dst| <= |d|
    requires forall i :: 0 <= i < |dst| ==> d[a.start + 1 + i] == Contents(dst, cache)[i]
    ensures Logged(a, d[a.start := head], |dst|) == Contents(dst, cache)
  {
  }

  lemma HeaderFormatted(a: Area, d: Disk, dst: seq<nat>)
    requires Formatted(a, d) && |dst| <= a.size - 1
    ensures Formatted(a, d[a.start := HeaderBlock(d[a.start], dst)])
    ensures Header(a, d[a.start := HeaderBlock(d[a.start], dst)]) == dst
  {
    var head := HeaderBlock(d[a.start], dst);
    assert head[1..1 + |dst|] == dst;
    forall i | 1 <= i <= |dst| ensures head[i] >= 0 { assert head[i] == dst[i - 1]; }
  }

  /** Installing `k` blocks keeps the transaction pending; installed blocks hold their new content. */
  lemma {:induction false} AfterInstalls(a: Area, d0: Disk, dst: seq<nat>, cache: map<nat, Block>, d: Disk, k: nat)
    requires Transaction(a, d0, dst, cache) && Pending(a, d0, dst, cache, d) && k <= |dst|
    ensures var r := Apply(d, InstallWrites(dst, Contents(dst, cache))[..k]);
            && Pending(a, d0, dst, cache, r) && r[a.start] == d[a.start]
            && forall i :: 0 <= i < k ==> r[dst[i]] == cache[dst[i]]
    decreases k
  {
    hide Formatted, Header, Logged;
    if k > 0 {
      var ws := InstallWrites(dst, Contents(dst, cache));
      AfterInstalls(a, d0, dst, cache, d, k - 1);
      assert ws[..k][..k - 1] == ws[..k - 1];
      var before := Apply(d, ws[..k - 1]);
      assert Apply(d, ws[..k]) == before[dst[k - 1] := cache[dst[k - 1]]];
      InstallOne(a, d0, dst, cache, before, k - 1);
    }
  }

  /** Installing one block leaves the log area, and with it the pending transaction, as they are. */
  lemma InstallOne(a: Area, d0: Disk, dst: seq<nat>, cache: map<nat, Block>, d: Disk, i: nat)
    requires Transaction(a, d0, dst, cache) && Pending(a, d0, dst, cache, d) && i < |dst|
    ensures dst[i] < |d| && dst[i] in cache && dst[i] != a.start && Pending(a, d0, dst, cache, d[dst[i] := cache[dst[i]]])
  {
    var b := dst[i];
    var r := d[b := cache[b]];
    FormattedKept(a, d, Write(b, cache[b]));
    assert r[a.start] == d[a.start];
    assert Logged(a, r, |dst|) == Logged(a, d, |dst|);
  }

  /** All blocks installed and the header cleared: everything is new and the log is empty. */
  lemma AfterClear(a: Area, d0: Disk, dst: seq<nat>, cache: map<nat, Block>, d: Disk)
    requires Transaction(a, d0, dst, cache) && Pending(a, d0, dst, cache, d)
    ensures var ws := InstallWrites(dst, Contents(dst, cache)) + [Write(a.start, HeaderBlock(d[a.start], []))];
            Clean(a, Apply(d, ws)) && AllNew(a, d0, dst, cache, Apply(d, ws))
  {
    var ins := InstallWrites(dst, Contents(dst, cache));
    AfterInstalls(a, d0, dst, cache, d, |dst|);
    assert ins[..|dst|] == ins;
    var r := Apply(d, ins);
    var head := HeaderBlock(d[a.start], []);
    ApplyOne(d, ins, Write(a.start, head));
    HeaderFormatted(a, r, []);
    var fin := r[a.start := head];
    forall b: nat | b < |fin| && !a.Contains(b) ensures fin[b] == if b in dst then cache[b] else d0[b] {
      if b in dst {
        var i :| 0 <= i < |dst| && dst[i] == b;
      }
    }
  }

  // ---- Recovery ----

  /** Recovery of a pending transaction performs exactly the rest of its commit. */
  lemma RecoveryIsInstall(a: Area, d0: Disk, dst: seq<nat>, cache: map<nat, Block>, d: Disk)
    requires Transaction(a, d0, dst, cache) && Pending(a, d0, dst, cache, d) && dst != []
    ensures RecoveryWrites(a, d) == InstallWrites(dst, Contents(dst, cache)) + [Write(a.start, HeaderBlock(d[a.start], []))]
  {
  }

  /** What recovery attempts can meet: a pending transaction, or one already finished. */
  ghost predicate Decided(a: Area, d0: Disk, dst: seq<nat>, cache: map<nat, Block>, d: Disk)
    requires forall i :: 0 <= i < |dst| ==> dst[i] in cache
  {
    Pending(a, d0, dst, cache, d) || (Clean(a, d) && AllNew(a, d0, dst, cache, d))
  }

  lemma InterruptedKeeps(a: Area, d0: Disk, dst: seq<nat>, cache: map<nat, Block>, d: Disk, k: nat)
    requires Transaction(a, d0, dst, cache) && dst != [] && Decided(a, d0, dst, cache, d)
    ensures Decided(a, d0, dst, cache, InterruptedRecovery(a, d, k))
  {
    if Pending(a, d0, dst, cache, d) {
      RecoveryIsInstall(a, d0, dst, cache, d);
      var ins := InstallWrites(dst, Contents(dst, cache));
      var ws := RecoveryWrites(a, d);
      hide Apply, Pending, Transaction, Clean, AllNew, Formatted;
      if k <= |dst| {
        AfterInstalls(a, d0, dst, cache, d, k);
        assert ws[..k] == ins[..k];
      } else {
        AfterClear(a, d0, dst, cache, d);
        assert k == |ws| ==> ws[..k] == ws;
      }
    } else {
      CleanRecovery(a, d, k);
    }
  }

  lemma CleanRecovery(a: Area, d: Disk, k: nat)
    requires Clean(a, d)
    ensures RecoveryWrites(a, d) == [] && InterruptedRecovery(a, d, k) == d && Recover(a, d) == d
  {
  }

  lemma RecoverFinishes(a: Area, d0: Disk, dst: seq<nat>, cache: map<nat, Block>, d: Disk)
    requires Transaction(a, d0, dst, cache) && dst != [] && Decided(a, d0, dst, cache, d)
    ensures Clean(a, Recover(a, d)) && AllNew(a, d0, dst, cache, Recover(a, d))
  {
    if Pending(a, d0, dst, cache, d) {
      RecoveryIsInstall(a, d0, dst, cache, d);
      AfterClear(a, d0, dst, cache, d);
    } else {
      CleanRecovery(a, d, 0);
    }
  }

  // ---- The commit, cut anywhere ----

  /** Cut before the header is on disk: the log reads as empty and no home block has changed. */
  lemma CutBefore(a: Area, d: Disk, dst: seq<nat>, cache: map<nat, Block>, k: nat)
    requires Clean(a, d) && Transaction(a, d, dst, cache) && k <= |dst|
    ensures var r := CrashAfter(d, CommitWrites(a, d, dst, Contents(dst, cache)), k);
            Clean(a, r) && AllOld(a, d, r)
  {
    var contents := Contents(dst, cache);
    var ws := CommitWrites(a, d, dst, contents);
    if dst != [] {
      AfterLogWrites(a, d, contents, k);
      assert ws[..k] == LogWrites(a, contents)[..k];
    }
  }

  /** Cut after the header is on disk: the transaction is decided. */
  lemma CutAfter(a: Area, d: Disk, dst: seq<nat>, cache: map<nat, Block>, k: nat)
    requires Clean(a, d) && Transaction(a, d, dst, cache) && dst != [] && k > |dst|
    ensures Decided(a, d, dst, cache, CrashAfter(d, CommitWrites(a, d, dst, Contents(dst, cache)), k))
  {
    hide Apply, Pending, Formatted, Header, Logged;
    AreaBounds(a, d);
    var contents := Contents(dst, cache);
    var n := |dst|;
    var head := HeaderBlock(d[a.start], dst);
    var first := LogWrites(a, contents) + [Write(a.start, head)];
    var mid := Apply(d, first);
    CommitPoint(a, d, dst, cache);
    HeadAfter(a, d, LogWrites(a, contents), head);
    var rest := InstallWrites(dst, contents) + [Write(a.start, HeaderBlock(head, []))];
    var ws := CommitWrites(a, d, dst, contents);
    hide Transaction, HeaderBlock, Contents, LogWrites, InstallWrites, AllNew;
    assert ws == first + rest;
    var j := if k <= |ws| then k - n - 1 else n + 1;
    CutInRest(first, rest, ws, k);
    ApplyConcat(d, first, rest[..j]);
    if j <= n {
      AfterInstalls(a, d, dst, cache, mid, j);
      assert rest[..j] == InstallWrites(dst, contents)[..j];
    } else {
      AfterClear(a, d, dst, cache, mid);
      assert rest[..j] == rest;
    }
  }

  lemma CutInRest(first: seq<Write>, rest: seq<Write>, ws: seq<Write>, k: nat)
    requires ws == first + rest && k >= |first|
    ensures var j := if k <= |ws| then k - |first| else |rest|;
            (if k <= |ws| then ws[..k] else ws) == first + rest[..j]
  {
  }

  lemma HeadAfter(a: Area, d: Disk, ws: seq<Write>, head: Block)
    requires a.start < |d|
    ensures Apply(d, ws + [Write(a.start, head)])[a.start] == head
  {
    ApplyOne(d, ws, Write(a.start, head));
  }

  // ---- Any number of crashes during recovery ----

  predicate AllFormatted(a: Area, d: Disk, crashes: seq<nat>)
    decreases |crashes|
  {
    Formatted(a, d) && (crashes == [] || AllFormatted(a, InterruptedRecovery(a, d, crashes[0]), crashes[1..]))
  }

  /** Recovery attempts cut after `crashes[0]`, `crashes[1]`, ... writes, then one that completes. */
  function RecoverThrough(a: Area, d: Disk, crashes: seq<nat>): Disk
    requires AllFormatted(a, d, crashes)
    decreases |crashes|
  {
    if crashes == [] then Recover(a, d)
    else RecoverThrough(a, InterruptedRecovery(a, d, crashes[0]), crashes[1..])
  }

  lemma {:induction false} DecidedBecomesNew(a: Area, d0: Disk, dst: seq<nat>, cache: map<nat, Block>, d: Disk, crashes: seq<nat>)
    requires Transaction(a, d0, dst, cache) && dst != [] && Decided(a, d0, dst, cache, d)
    ensures AllFormatted(a, d, crashes)
    ensures Clean(a, RecoverThrough(a, d, crashes)) && AllNew(a, d0, dst, cache, RecoverThrough(a, d, crashes))
    decreases |crashes|
  {
    hide InterruptedRecovery, Recover, Transaction, AllNew, Header, Contents, Logged;
    if crashes == [] {
      RecoverFinishes(a, d0, dst, cache, d);
    } else {
      InterruptedKeeps(a, d0, dst, cache, d, crashes[0]);
      DecidedBecomesNew(a, d0, dst, cache, InterruptedRecovery(a, d, crashes[0]), crashes[1..]);
    }
  }

  lemma {:induction false} CleanStays(a: Area, d: Disk, crashes: seq<nat>)
    requires Clean(a, d)
    ensures AllFormatted(a, d, crashes) && RecoverThrough(a, d, crashes) == d
    decreases |crashes|
  {
    if crashes == [] {
      CleanRecovery(a, d, 0);
    } else {
      CleanRecovery(a, d, crashes[0]);
      CleanStays(a, d, crashes[1..]);
    }
  }

  /**
   Crash atomicity: cut a commit after any `k` of its writes, then crash any number of times during
   recovery.  Once recovery completes the log is empty, and the home blocks are all old if the
   header had not reached the disk and all new if it had.
   */
  lemma CrashAtomicity(a: Area, d: Disk, dst: seq<nat>, cache: map<nat, Block>, k: nat, crashes: seq<nat>)
    requires Clean(a, d) && Transaction(a, d, dst, cache)
    ensures var cut := CrashAfter(d, CommitWrites(a, d, dst, Contents(dst, cache)), k);
            && AllFormatted(a, cut, crashes)
            && var r := RecoverThrough(a, cut, crashes);
               && Clean(a, r)
               && (k <= |dst| || dst == [] ==> AllOld(a, d, r))
               && (k > |dst| ==> AllNew(a, d, dst, cache, r))
  {
    hide CommitWrites, Formatted, Contents, RecoverThrough, AllFormatted, Decided;
    var cut := CrashAfter(d, CommitWrites(a, d, dst, Contents(dst, cache)), k);
    if dst == [] {
      EmptyCommit(a, d, cache, k);
      CleanStays(a, d, crashes);
    } else if k <= |dst| {
      CutBefore(a, d, dst, cache, k);
      CleanStays(a, cut, crashes);
    } else {
      CutAfter(a, d, dst, cache, k);
      DecidedBecomesNew(a, d, dst, cache, cut, crashes);
    }
  }

  lemma EmptyCommit(a: Area, d: Disk, cache: map<nat, Block>, k: nat)
    requires Clean(a, d)
    ensures CrashAfter(d, CommitWrites(a, d, [], Contents([], cache)), k) == d
  {
  }
}
