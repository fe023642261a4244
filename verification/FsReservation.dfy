/**
 Log space reservation in simple-fs: begin_op, log_write and end_op of any number of threads,
 interleaved in any order, with a commit when the last operation ends.
 */
module FsReservation {

  const MAX_OP_BLOCKS: nat := 10
  const LOG_SIZE: nat := 30

  /** A thread outside any operation, or in one that has added `added` new blocks in `calls` log_write calls. */
  datatype Thread = Idle | InOp(added: nat, calls: nat)

  datatype Log = Log(size: nat, blocks: seq<nat>, outstanding: nat, committing: bool, threads: seq<Thread>)

  datatype Event =
    | BeginOp(thread: nat)
    | LogWrite(thread: nat, blockno: nat)
    | EndOp(thread: nat)
    | CommitDone

  predicate Active(s: Log, t: nat) { t < |s.threads| && s.threads[t].InOp? }

  /** begin_op waits unless this holds. */
  predicate Admits(s: Log)
  {
    !s.committing && |s.blocks| + (s.outstanding + 1) * MAX_OP_BLOCKS <= s.size - 1
  }

  /** log_write gives up here, before it looks for the block. */
  predicate Full(s: Log) { |s.blocks| >= s.size - 1 }

  /** Each operation keeps to its budget of new blocks; otherwise an event may happen whenever the code lets it. */
  predicate Enabled(s: Log, e: Event)
  {
    match e
    case BeginOp(t) => t < |s.threads| && s.threads[t].Idle? && Admits(s)
    case LogWrite(t, b) => Active(s, t) && (b in s.blocks || s.threads[t].added < MAX_OP_BLOCKS)
    case EndOp(t) => Active(s, t)
    case CommitDone => s.committing
  }

  function Next(s: Log, e: Event): Log
    requires Enabled(s, e)
  {
    match e
    case BeginOp(t) => s.(outstanding := s.outstanding + 1, threads := s.threads[t := InOp(0, 0)])
    case LogWrite(t, b) =>
      var u := s.threads[t];
      if Full(s) || b in s.blocks then s.(threads := s.threads[t := InOp(u.added, u.calls + 1)])
      else s.(blocks := s.blocks + [b], threads := s.threads[t := InOp(u.added + 1, u.calls + 1)])
    case EndOp(t) =>
      var left := if s.outstanding > 0 then s.outstanding - 1 else 0;
      s.(outstanding := left, committing := s.committing || left == 0, threads := s.threads[t := Idle])
    case CommitDone => s.(blocks := [], committing := false)
  }

  function Init(size: nat, threads: nat): Log
  {
    Log(size, [], 0, false, seq(threads, _ => Idle))
  }

  /** The state after a sequence of events, if each was enabled when it happened. */
  ghost predicate Reaches(s: Log, es: seq<Event>, s': Log)
    decreases |es|
  {
    if es == [] then s' == s
    else Enabled(s, es[0]) && Reaches(Next(s, es[0]), es[1..], s')
  }

  ghost predicate Reachable(size: nat, threads: nat, s: Log)
  {
    exists es :: Reaches(Init(size, threads), es, s)
  }

  // ---- Budgets ----

  function Budget(t: Thread): nat
  {
    if t.InOp? && t.added < MAX_OP_BLOCKS then MAX_OP_BLOCKS - t.added else 0
  }

  function Reserved(ts: seq<Thread>): nat
  {
    if ts == [] then 0 else Budget(ts[0]) + Reserved(ts[1..])
  }

  function Running(ts: seq<Thread>): nat
  {
    if ts == [] then 0 else (if ts[0].InOp? then 1 else 0) + Running(ts[1..])
  }

  lemma {:induction false} ReservedUpdate(ts: seq<Thread>, i: nat, t: Thread)
    requires i < |ts|
    ensures Reserved(ts[i := t]) == Reserved(ts) - Budget(ts[i]) + Budget(t)
    ensures Running(ts[i := t]) == Running(ts) - (if ts[i].InOp? then 1 else 0) + (if t.InOp? then 1 else 0)
    decreases |ts|
  {
    if i > 0 {
      assert ts[i := t][1..] == ts[1..][i - 1 := t];
      ReservedUpdate(ts[1..], i - 1, t);
    } else {
      assert ts[i := t][1..] == ts[1..];
    }
  }

  lemma {:induction false} ReservedBounds(ts: seq<Thread>, i: nat)
    requires i < |ts|
    ensures Reserved(ts) >= Budget(ts[i])
    ensures ts[i].InOp? ==> Running(ts) >= 1
    decreases |ts|
  {
    if i > 0 { ReservedBounds(ts[1..], i - 1); }
  }

  lemma {:induction false} ReservedAtMost(ts: seq<Thread>)
    ensures Reserved(ts) <= Running(ts) * MAX_OP_BLOCKS
    ensures Running(ts) == 0 ==> forall i :: 0 <= i < |ts| ==> ts[i].Idle?
    decreases |ts|
  {
    if ts != [] { ReservedAtMost(ts[1..]); }
  }

  lemma {:induction false} AllIdle(n: nat)
    ensures Reserved(seq(n, _ => Idle)) == 0 && Running(seq(n, _ => Idle)) == 0
    decreases n
  {
    if n > 0 {
      AllIdle(n - 1);
      assert seq(n, _ => Idle)[1..] == seq(n - 1, _ => Idle);
    }
  }

  // ---- The invariant ----

  predicate Distinct(xs: seq<nat>)
  {
    forall i, j :: 0 <= i < j < |xs| ==> xs[i] != xs[j]
  }

  ghost predicate Inv(s: Log)
  {
    && s.outstanding == Running(s.threads)
    && (s.committing ==> s.outstanding == 0)
    && (!s.committing && s.outstanding == 0 ==> s.blocks == [])
    && Distinct(s.blocks)
    && (s.blocks != [] || s.outstanding > 0 ==> |s.blocks| + Reserved(s.threads) <= s.size - 1)
    && forall t :: 0 <= t < |s.threads| && s.threads[t].InOp? ==> s.threads[t].added <= MAX_OP_BLOCKS && s.threads[t].added <= s.threads[t].calls
  }

  lemma NextKeeps(s: Log, e: Event)
    requires Inv(s) && Enabled(s, e)
    ensures Inv(Next(s, e))
  {
    ReservedAtMost(s.threads);
    match e
    case BeginOp(t) => ReservedUpdate(s.threads, t, InOp(0, 0));
    case LogWrite(t, b) => LogWriteKeeps(s, t, b);
    case EndOp(t) =>
      ReservedBounds(s.threads, t);
      ReservedUpdate(s.threads, t, Idle);
    case CommitDone =>
  }

  lemma LogWriteKeeps(s: Log, t: nat, b: nat)
    requires Inv(s) && Enabled(s, LogWrite(t, b))
    ensures Inv(Next(s, LogWrite(t, b)))
  {
    var u := s.threads[t];
    ReservedBounds(s.threads, t);
    ReservedUpdate(s.threads, t, InOp(u.added, u.calls + 1));
    ReservedUpdate(s.threads, t, InOp(u.added + 1, u.calls + 1));
    if b !in s.blocks { NewBlockFits(s, t, b); }
  }

  lemma {:induction false} ReachesKeeps(s: Log, es: seq<Event>, s': Log)
    requires Inv(s) && Reaches(s, es, s')
    ensures Inv(s')
    decreases |es|
  {
    if es != [] {
      NextKeeps(s, es[0]);
      ReachesKeeps(Next(s, es[0]), es[1..], s');
    }
  }

  lemma ReachableInv(size: nat, threads: nat, s: Log)
    requires Reachable(size, threads, s)
    ensures Inv(s)
  {
    var es :| Reaches(Init(size, threads), es, s);
    AllIdle(threads);
    ReachesKeeps(Init(size, threads), es, s);
  }

  lemma NewBlockFits(s: Log, t: nat, b: nat)
    requires Inv(s) && Enabled(s, LogWrite(t, b)) && b !in s.blocks
    ensures !Full(s)
  {
    ReservedBounds(s.threads, t);
  }

  // ---- The results ----

  /**
   In every interleaving, an operation within its budget is never refused a new block: the log-full
   branch is only ever taken for a block that is already logged, where it changes nothing in the log.
   */
  lemma NewBlockNeverRefused(size: nat, threads: nat, s: Log, t: nat, b: nat)
    requires Reachable(size, threads, s) && Enabled(s, LogWrite(t, b))
    ensures b !in s.blocks ==> !Full(s) && Next(s, LogWrite(t, b)).blocks == s.blocks + [b]
    ensures b in s.blocks ==> Next(s, LogWrite(t, b)).blocks == s.blocks
    ensures Full(s) <==> |s.blocks| == s.size - 1
  {
    ReachableInv(size, threads, s);
    ReservedBounds(s.threads, t);
    if b !in s.blocks { NewBlockFits(s, t, b); }
  }

  /** If an operation makes at most MAX_OP_BLOCKS calls in all, it never meets a full log. */
  lemma FewCallsNeverFull(size: nat, threads: nat, s: Log, t: nat)
    requires Reachable(size, threads, s) && Active(s, t) && s.threads[t].calls < MAX_OP_BLOCKS
    ensures !Full(s)
  {
    ReachableInv(size, threads, s);
    ReservedBounds(s.threads, t);
  }

  /** Logged block numbers stay distinct and fit the on-disk header, and no operation runs during a commit. */
  lemma LogStaysWithinBounds(size: nat, threads: nat, s: Log)
    requires Reachable(size, threads, s)
    ensures Distinct(s.blocks)
    ensures s.blocks != [] ==> |s.blocks| <= s.size - 1
    ensures s.committing ==> !Admits(s) && forall t :: !Active(s, t)
  {
    ReachableInv(size, threads, s);
    ReservedAtMost(s.threads);
  }

  /** Nobody waits for nothing: with no operation running and no commit under way the next one is admitted, and a finished commit leaves it so. */
  lemma IdleAdmits(size: nat, threads: nat, s: Log)
    requires Reachable(size, threads, s) && size > MAX_OP_BLOCKS
    ensures (forall t :: !Active(s, t)) ==> Admits(if s.committing then Next(s, CommitDone) else s)
  {
    ReachableInv(size, threads, s);
    ReachableSize(size, threads, s);
    if forall t :: !Active(s, t) {
      forall i: nat | i < |s.threads| ensures !s.threads[i].InOp? { assert !Active(s, i); }
      NoneRunning(s.threads);
    }
  }

  lemma {:induction false} NoneRunning(ts: seq<Thread>)
    requires forall i: nat :: i < |ts| ==> !ts[i].InOp?
    ensures Running(ts) == 0
    decreases |ts|
  {
    if ts != [] {
      forall i: nat | i < |ts| - 1 ensures !ts[1..][i].InOp? { assert ts[1..][i] == ts[i + 1]; }
      NoneRunning(ts[1..]);
    }
  }

  lemma {:induction false} SizeKept(s: Log, es: seq<Event>, s': Log)
    requires Reaches(s, es, s')
    ensures s'.size == s.size
    decreases |es|
  {
    if es != [] { SizeKept(Next(s, es[0]), es[1..], s'); }
  }

  lemma ReachableSize(size: nat, threads: nat, s: Log)
    requires Reachable(size, threads, s)
    ensures s.size == size
  {
    var es :| Reaches(Init(size, threads), es, s);
    SizeKept(Init(size, threads), es, s);
  }

  /** Ending an operation starts the commit exactly when it was the last one running. */
  lemma LastOneCommits(size: nat, threads: nat, s: Log, t: nat)
    requires Reachable(size, threads, s) && Active(s, t)
    ensures var s' := Next(s, EndOp(t));
            && !s.committing && s'.blocks == s.blocks
            && (s'.committing <==> forall u :: !Active(s', u))
  {
    ReachableInv(size, threads, s);
    NextKeeps(s, EndOp(t));
    ReservedBounds(s.threads, t);
    var s' := Next(s, EndOp(t));
    ReservedAtMost(s'.threads);
    if forall u :: !Active(s', u) {
      forall i: nat | i < |s'.threads| ensures !s'.threads[i].InOp? { assert !Active(s', i); }
      NoneRunning(s'.threads);
    }
  }

  // ---- The log-full branch can be taken ----

  lemma {:induction false} ReachesConcat(s: Log, a: seq<Event>, m: Log, b: seq<Event>, s': Log)
    requires Reaches(s, a, m) && Reaches(m, b, s')
    ensures Reaches(s, a + b, s')
    decreases |a|
  {
    if a == [] {
      assert a + b == b;
    } else {
      assert (a + b)[1..] == a[1..] + b;
      ReachesConcat(Next(s, a[0]), a[1..], m, b, s');
    }
  }

  function Range(lo: nat, n: nat): seq<nat> { seq(n, i => lo + i) }

  /** Thread `t` logs the fresh blocks lo, lo + 1, ..., one call each. */
  lemma {:induction false} WriteMany(s: Log, t: nat, lo: nat, n: nat) returns (es: seq<Event>, s': Log)
    requires Active(s, t) && s.threads[t].added + n <= MAX_OP_BLOCKS
    requires |s.blocks| + n <= s.size - 1
    requires forall i :: 0 <= i < |s.blocks| ==> s.blocks[i] < lo
    ensures Reaches(s, es, s')
    ensures s' == s.(blocks := s.blocks + Range(lo, n), threads := s.threads[t := InOp(s.threads[t].added + n, s.threads[t].calls + n)])
    decreases n
  {
    if n == 0 {
      es, s' := [], s;
      assert s.blocks + Range(lo, 0) == s.blocks;
    } else {
      var e := LogWrite(t, lo);
      var s1 := Next(s, e);
      var es1;
      es1, s' := WriteMany(s1, t, lo + 1, n - 1);
      es := [e] + es1;
      assert es[1..] == es1;
      assert s.blocks + [lo] + Range(lo + 1, n - 1) == s.blocks + Range(lo, n);
    }
  }

  lemma OneEvent(s: Log, e: Event)
    requires Enabled(s, e)
    ensures Reaches(s, [e], Next(s, e))
  {
    assert [e][1..] == [];
  }

  /**
   With the real sizes, three operations within budget fill the log exactly; a further log_write of
   a block that is already logged then takes the log-full branch.
   */
  lemma FullBranchReachable() returns (s: Log)
    ensures Reachable(LOG_SIZE, 3, s) && Enabled(s, LogWrite(1, 0)) && Full(s) && 0 in s.blocks
  {
    hide Reaches;
    var s0 := Init(LOG_SIZE, 3);
    OneEvent(s0, BeginOp(0));
    var s1 := Next(s0, BeginOp(0));
    OneEvent(s1, BeginOp(1));
    var s2 := Next(s1, BeginOp(1));
    ReachesConcat(s0, [BeginOp(0)], s1, [BeginOp(1)], s2);
    var e3, s3 := WriteMany(s2, 0, 0, 9);
    ReachesConcat(s0, [BeginOp(0)] + [BeginOp(1)], s2, e3, s3);
    var p3 := [BeginOp(0)] + [BeginOp(1)] + e3;
    OneEvent(s3, EndOp(0));
    var s4 := Next(s3, EndOp(0));
    ReachesConcat(s0, p3, s3, [EndOp(0)], s4);
    OneEvent(s4, BeginOp(2));
    var s5 := Next(s4, BeginOp(2));
    ReachesConcat(s0, p3 + [EndOp(0)], s4, [BeginOp(2)], s5);
    var p5 := p3 + [EndOp(0)] + [BeginOp(2)];
    var e6, s6 := WriteMany(s5, 1, 9, 10);
    ReachesConcat(s0, p5, s5, e6, s6);
    var e7, s7 := WriteMany(s6, 2, 19, 10);
    ReachesConcat(s0, p5 + e6, s6, e7, s7);
    s := s7;
    assert s.blocks[0] == 0;
  }

  // ---- The routines ----

  /** What became of a write: sent to the disk at once, refused by a full log, or logged. */
  datatype Written = Direct | Refused | Logged

  /** The log bookkeeping shared by all threads; every method runs under the log's lock. */
  class OpLog {
    const size: nat
    var blocks: seq<nat>
    var outstanding: nat
    var committing: bool
    ghost var threads: seq<Thread>

    ghost function State(): Log
      reads this
    {
      Log(size, blocks, outstanding, committing, threads)
    }

    constructor (size: nat, ghost threads: nat)
      ensures State() == Init(size, threads)
    {
      this.size := size;
      blocks, outstanding, committing := [], 0, false;
      this.threads := seq(threads, _ => Idle);
    }

    /** One pass of begin_op's waiting loop by thread `t`; the thread waits and tries again when not admitted. */
    method TryBegin(ghost t: nat) returns (admitted: bool)
      requires t < |threads| && threads[t].Idle?
      modifies this
      ensures admitted <==> old(Admits(State()))
      ensures admitted ==> State() == Next(old(State()), BeginOp(t))
      ensures !admitted ==> State() == old(State())
    {
      if committing { return false; }
      if |blocks| + (outstanding + 1) * MAX_OP_BLOCKS > size - 1 { return false; }
      outstanding := outstanding + 1;
      threads := threads[t := InOp(0, 0)];
      return true;
    }

    /** Outside every operation the block goes straight to the disk, and the log is not involved. */
    method Write(b: nat, ghost t: nat) returns (w: Written)
      requires outstanding > 0 ==> Enabled(State(), LogWrite(t, b))
      modifies this`blocks, this`threads
      ensures State() == if old(outstanding) == 0 then old(State()) else Next(old(State()), LogWrite(t, b))
      ensures w == if old(outstanding) == 0 then Direct else if old(Full(State())) then Refused else Logged
      ensures w == Logged ==> b in blocks
    {
      if outstanding < 1 { return Direct; }
      ghost var u := threads[t];
      if |blocks| >= size - 1 {
        threads := threads[t := InOp(u.added, u.calls + 1)];
        return Refused;
      }
      var i := 0;
      while i < |blocks| && blocks[i] != b
        invariant 0 <= i <= |blocks|
        invariant forall k :: 0 <= k < i ==> blocks[k] != b
      {
        i := i + 1;
      }
      if i == |blocks| {
        blocks := blocks + [b];
        threads := threads[t := InOp(u.added + 1, u.calls + 1)];
      } else {
        threads := threads[t := InOp(u.added, u.calls + 1)];
      }
      return Logged;
    }

    /** `commit` tells the caller that it ended the last operation and has to commit. */
    method End(ghost t: nat) returns (commit: bool)
      requires Inv(State()) && Active(State(), t)
      modifies this
      ensures State() == Next(old(State()), EndOp(t)) && Inv(State())
      ensures commit <==> outstanding == 0
    {
      NextKeeps(State(), EndOp(t));
      ReservedBounds(threads, t);
      outstanding := outstanding - 1;
      commit := outstanding == 0;
      if commit { committing := true; }
      threads := threads[t := Idle];
    }

    method Committed()
      requires committing
      modifies this
      ensures State() == Next(old(State()), CommitDone)
    {
      blocks := [];
      committing := false;
    }
  }
}
