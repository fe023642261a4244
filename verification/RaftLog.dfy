/**
 Log Matching (section 5.3 of the extended Raft paper): in every run without crashes, two logs
 that hold an entry with the same index and term agree on everything up to that index.
 */
module RaftLog {
  import opened RaftNode
  import opened RaftSystem
  import opened RaftElection
  import opened RaftSafety

  type Logs = map<nat, seq<Entry>>

  // ---- The invariant ----

  /** Entry `k` of `log` was written by the leader of its term, whose own log agrees up to there. */
  predicate EntryTrue(leaderLog: Logs, log: seq<Entry>, k: nat)
    requires k < |log|
  {
    var t := log[k].term;
    t in leaderLog && k < |leaderLog[t]| && leaderLog[t][..k + 1] == log[..k + 1]
  }

  ghost predicate LogTrue(leaderLog: Logs, log: seq<Entry>)
  {
    forall k :: 0 <= k < |log| ==> EntryTrue(leaderLog, log, k)
  }

  /** An AppendEntries request with entries is a true slice of its term's leader log. */
  predicate Slice(leaderLog: Logs, m: Msg)
    requires m.Append?
  {
    && m.term in leaderLog
    && var l := leaderLog[m.term];
       && m.prevLogIndex + |m.entries| <= |l|
       && m.entries == l[m.prevLogIndex..m.prevLogIndex + |m.entries|]
       && (m.prevLogIndex > 0 ==> m.prevLogTerm == l[m.prevLogIndex - 1].term)
  }

  predicate RequestTrue(s: System, m: Msg)
  {
    m.Append? && m.entries != [] ==> Slice(s.leaderLog, m) && Elected(s, m.term, m.from) && m.from != m.to
  }

  predicate LeaderTrue(s: System, nd: Node)
  {
    nd.term in s.leaderLog && s.leaderLog[nd.term] == nd.log && NextOk(nd)
  }

  predicate NextOk(nd: Node)
  {
    |nd.nextIndex| == nd.numNodes && forall p :: 0 <= p < |nd.nextIndex| ==> nd.nextIndex[p] >= 1
  }

  ghost predicate SomeoneWon(s: System, t: nat)
  {
    exists i: nat :: Elected(s, t, i)
  }

  ghost predicate NodeLogs(s: System)
  {
    forall i :: 0 <= i < |s.nodes| ==> LogTrue(s.leaderLog, s.nodes[i].log)
  }

  ghost predicate LeaderLogs(s: System)
  {
    forall t: nat :: t in s.leaderLog ==> t >= 1 && SomeoneWon(s, t) && LogTrue(s.leaderLog, s.leaderLog[t])
  }

  ghost predicate Requests(s: System)
  {
    forall m :: m in s.msgs ==> RequestTrue(s, m)
  }

  ghost predicate Leaders(s: System)
  {
    forall i :: 0 <= i < |s.nodes| && s.nodes[i].role == Leader ==> LeaderTrue(s, s.nodes[i])
  }

  ghost predicate LogInv(s: System)
  {
    NodeLogs(s) && LeaderLogs(s) && Requests(s) && Leaders(s)
  }

  // ---- Log matching itself ----

  /** Two true logs agree up to any index at which their terms agree. */
  lemma TrueLogsMatch(leaderLog: Logs, a: seq<Entry>, b: seq<Entry>, k: nat)
    requires LogTrue(leaderLog, a) && LogTrue(leaderLog, b)
    requires k < |a| && k < |b| && a[k].term == b[k].term
    ensures a[..k + 1] == b[..k + 1]
  {
    assert EntryTrue(leaderLog, a, k) && EntryTrue(leaderLog, b, k);
  }

  // ---- The follower's append loop ----

  /** Appending to a prefix of `l` the entries of `l` that follow it yields a longer prefix. */
  lemma {:induction false} StoreOntoPrefix(l: seq<Entry>, at: nat, n: nat)
    requires at + n <= |l|
    ensures StoreEntries(l[..at], at, l[at..at + n]) == l[..at + n]
    decreases n
  {
    if n > 0 {
      var es := l[at..at + n];
      assert l[..at] + [es[0]] == l[..at + 1];
      assert es[1..] == l[at + 1..at + n];
      StoreOntoPrefix(l, at + 1, n - 1);
    }
  }

  /** A follower that passed the previous-entry check keeps its log or ends with a prefix of the leader's. */
  lemma {:induction false} StoreMatches(leaderLog: Logs, log: seq<Entry>, l: seq<Entry>, at: nat, n: nat)
    requires LogTrue(leaderLog, log) && LogTrue(leaderLog, l) && forall t: nat :: t in leaderLog ==> t >= 1
    requires at <= |log| && at + n <= |l| && log[..at] == l[..at]
    ensures var r := StoreEntries(log, at, l[at..at + n]);
            (r == log || r == l[..at + n]) && l[..at + n] <= r
    decreases n
  {
    if n > 0 {
      var es := l[at..at + n];
      assert es[0] == l[at] && es[1..] == l[at + 1..at + n];
      assert l[..at] + [es[0]] == l[..at + 1];
      if at < |log| && log[at].term == l[at].term {
        assert EntryTrue(leaderLog, log, at);
        TrueLogsMatch(leaderLog, log, l, at);
        StoreMatches(leaderLog, log, l, at + 1, n - 1);
      } else {
        if at < |log| { assert EntryTrue(leaderLog, log, at); } else { assert log == log[..at]; }
        StoreOntoPrefix(l, at + 1, n - 1);
      }
    }
  }

  // ---- What a handler may do to logs ----

  ghost predicate LogStep(s: System, i: nat, out: Out)
    requires i < |s.nodes|
  {
    var nd, new_ := s.nodes[i], out.node;
    && (new_.role == Leader && nd.role == Leader && new_.term == nd.term ==>
          || new_.log == nd.log
          || exists c :: new_.log == nd.log + [Entry(nd.term, c)])
    && (new_.role == Leader && !(nd.role == Leader && new_.term == nd.term) ==> new_.log == nd.log)
    && (new_.role != Leader ==>
          || new_.log == nd.log
          || exists t: nat, k: nat :: t in s.leaderLog && k <= |s.leaderLog[t]| && new_.log == s.leaderLog[t][..k])
    && (new_.role == Leader ==> NextOk(new_))
    && (forall m :: m in out.sends && m.Append? && m.entries != [] ==> OwnSlice(new_, m))
  }

  predicate OwnSlice(nd: Node, m: Msg)
    requires m.Append?
  {
    && nd.role == Leader && m.term == nd.term && m.from == nd.id && m.to != m.from
    && m.prevLogIndex + |m.entries| <= |nd.log|
    && m.entries == nd.log[m.prevLogIndex..m.prevLogIndex + |m.entries|]
    && (m.prevLogIndex > 0 ==> m.prevLogTerm == nd.log[m.prevLogIndex - 1].term)
  }

  // ---- Such a handler keeps the invariant ----

  /** The new history extends every leader log of the old one. */
  ghost predicate Extends(a: Logs, b: Logs)
  {
    forall t: nat :: t in a ==> t in b && |a[t]| <= |b[t]| && b[t][..|a[t]|] == a[t]
  }

  lemma EntryExtends(a: Logs, b: Logs, log: seq<Entry>, k: nat)
    requires Extends(a, b) && k < |log| && EntryTrue(a, log, k)
    ensures EntryTrue(b, log, k)
  {
    var t := log[k].term;
    assert b[t][..k + 1] == b[t][..|a[t]|][..k + 1];
  }

  lemma TrueExtends(a: Logs, b: Logs, log: seq<Entry>)
    requires Extends(a, b) && LogTrue(a, log)
    ensures LogTrue(b, log)
  {
    forall k | 0 <= k < |log| ensures EntryTrue(b, log, k) { EntryExtends(a, b, log, k); }
  }

  lemma PrefixTrue(a: Logs, log: seq<Entry>, k: nat)
    requires LogTrue(a, log) && k <= |log|
    ensures LogTrue(a, log[..k])
  {
    forall j | 0 <= j < k ensures EntryTrue(a, log[..k], j) {
      assert EntryTrue(a, log, j);
      assert log[..k][..j + 1] == log[..j + 1];
    }
  }

  /** A term without a winner so far has no leader log. */
  lemma FreshTerm(s: System, i: nat, out: Out)
    requires ElectionInv(s) && LogInv(s) && i < |s.nodes| && ElectionStep(s, i, out)
    requires out.node.role == Leader && !(s.nodes[i].role == Leader && s.nodes[i].term == out.node.term)
    ensures out.node.term !in s.leaderLog
  {
    var t := out.node.term;
    if t in s.leaderLog {
      var s' := Record(s, i, out);
      ElectionPreserved(s, i, out);
      assert SomeoneWon(s, t);
      var j: nat :| Elected(s, t, j);
      assert Elected(s', t, j) && Elected(s', t, i);
      OneWinner(s', t, i, j);
      assert false;
    }
  }

  lemma HistoryExtends(s: System, i: nat, out: Out)
    requires ElectionInv(s) && LogInv(s) && i < |s.nodes| && ElectionStep(s, i, out) && LogStep(s, i, out)
    ensures Extends(s.leaderLog, Record(s, i, out).leaderLog)
  {
    if out.node.role == Leader {
      if s.nodes[i].role == Leader && s.nodes[i].term == out.node.term {
        assert LeaderTrue(s, s.nodes[i]);
      } else {
        FreshTerm(s, i, out);
      }
    }
  }

  /** The log a server ends up with is true in the new history. */
  lemma NewLogTrue(s: System, i: nat, out: Out)
    requires ElectionInv(s) && LogInv(s) && i < |s.nodes| && ElectionStep(s, i, out) && LogStep(s, i, out)
    ensures LogTrue(Record(s, i, out).leaderLog, out.node.log)
  {
    var nd, new_ := s.nodes[i], out.node;
    var b := Record(s, i, out).leaderLog;
    HistoryExtends(s, i, out);
    TrueExtends(s.leaderLog, b, nd.log);
    hide ElectionInv, ElectionStep, Extends;
    if new_.log != nd.log {
      if new_.role == Leader {
        AppendedTrue(b, nd.log, new_.log, new_.term);
      } else {
        var t: nat, k: nat :| t in s.leaderLog && k <= |s.leaderLog[t]| && new_.log == s.leaderLog[t][..k];
        PrefixTrue(s.leaderLog, s.leaderLog[t], k);
        TrueExtends(s.leaderLog, b, new_.log);
      }
    }
  }

  lemma AppendedTrue(b: Logs, log: seq<Entry>, log': seq<Entry>, t: nat)
    requires LogTrue(b, log) && |log'| == |log| + 1 && log'[..|log|] == log && log'[|log|].term == t
    requires t in b && b[t] == log'
    ensures LogTrue(b, log')
  {
    forall k | 0 <= k < |log'| ensures EntryTrue(b, log', k) {
      if k < |log| {
        assert EntryTrue(b, log, k);
        assert log'[..k + 1] == log[..k + 1];
      }
    }
  }

  lemma SliceExtends(a: Logs, b: Logs, m: Msg)
    requires m.Append? && Slice(a, m) && Extends(a, b)
    ensures Slice(b, m)
  {
    var l, l' := a[m.term], b[m.term];
    assert l'[..|l|] == l;
    assert l'[m.prevLogIndex..m.prevLogIndex + |m.entries|] == l[m.prevLogIndex..m.prevLogIndex + |m.entries|];
  }

  lemma KeepRequests(s: System, i: nat, out: Out)
    requires ElectionInv(s) && LogInv(s) && i < |s.nodes| && ElectionStep(s, i, out) && LogStep(s, i, out)
    ensures Requests(Record(s, i, out))
  {
    var s' := Record(s, i, out);
    HistoryExtends(s, i, out);
    ElectionPreserved(s, i, out);
    WinsGrow(s, i, out);
    LeaderElected(s', i);
    hide ElectionInv, ElectionStep, Extends, NodeLogs, LeaderLogs, Leaders, Elected;
    forall m | m in s'.msgs ensures RequestTrue(s', m) {
      if m.Append? && m.entries != [] {
        if m in s.msgs {
          assert RequestTrue(s, m);
          SliceExtends(s.leaderLog, s'.leaderLog, m);
        } else {
          assert OwnSlice(out.node, m);
          OwnId(s', i);
        }
      }
    }
  }

  lemma WinsGrow(s: System, i: nat, out: Out)
    requires i < |s.nodes|
    ensures forall t: nat, j: nat :: Elected(s, t, j) ==> Elected(Record(s, i, out), t, j)
  {
  }

  lemma LeaderElected(s: System, i: nat)
    requires ElectionInv(s) && i < |s.nodes|
    ensures s.nodes[i].role == Leader ==> Elected(s, s.nodes[i].term, i)
  {
  }

  lemma OwnId(s: System, i: nat)
    requires ElectionInv(s) && i < |s.nodes|
    ensures s.nodes[i].id == i && s.nodes[i].numNodes == |s.nodes| && |s.nodes| >= 2
  {
    assert Shape(s.nodes[i], i, |s.nodes|);
  }

  /** Another server that is still leading keeps its log as its term's leader log. */
  lemma OtherLeader(s: System, i: nat, out: Out, j: nat)
    requires i < |s.nodes| && j < |s.nodes| && j != i && ElectionInv(Record(s, i, out))
    requires s.nodes[j].role == Leader && LeaderTrue(s, s.nodes[j])
    ensures LeaderTrue(Record(s, i, out), s.nodes[j])
  {
    hide ElectionInv, NextOk;
    var s' := Record(s, i, out);
    LeaderElected(s', j);
    if out.node.role == Leader && out.node.term == s.nodes[j].term {
      LeaderElected(s', i);
      OneWinner(s', out.node.term, i, j);
    }
  }

  lemma KeepLeaders(s: System, i: nat, out: Out)
    requires ElectionInv(s) && LogInv(s) && i < |s.nodes| && ElectionStep(s, i, out) && LogStep(s, i, out)
    ensures Leaders(Record(s, i, out))
  {
    hide ElectionInv, ElectionStep, NodeLogs, LeaderLogs, Requests, NextOk;
    var s' := Record(s, i, out);
    ElectionPreserved(s, i, out);
    forall j | 0 <= j < |s'.nodes| && s'.nodes[j].role == Leader ensures LeaderTrue(s', s'.nodes[j]) {
      if j != i { OtherLeader(s, i, out, j); }
    }
  }

  lemma KeepLogs(s: System, i: nat, out: Out)
    requires ElectionInv(s) && LogInv(s) && i < |s.nodes| && ElectionStep(s, i, out) && LogStep(s, i, out)
    ensures NodeLogs(Record(s, i, out)) && LeaderLogs(Record(s, i, out))
  {
    hide ElectionInv, ElectionStep, LogStep, Extends, LogTrue, Elected, Requests, Leaders;
    var s' := Record(s, i, out);
    HistoryExtends(s, i, out);
    NewLogTrue(s, i, out);
    ElectionPreserved(s, i, out);
    LeaderElected(s', i);
    WinsGrow(s, i, out);
    LeaderTerm(s', i);
    forall j | 0 <= j < |s'.nodes| ensures LogTrue(s'.leaderLog, s'.nodes[j].log) {
      if j != i { TrueExtends(s.leaderLog, s'.leaderLog, s.nodes[j].log); }
    }
    forall t: nat | t in s'.leaderLog ensures t >= 1 && SomeoneWon(s', t) && LogTrue(s'.leaderLog, s'.leaderLog[t]) {
      if out.node.role == Leader && t == out.node.term {
        assert Elected(s', t, i);
      } else {
        assert SomeoneWon(s, t);
        var j: nat :| Elected(s, t, j);
        assert Elected(s', t, j);
        TrueExtends(s.leaderLog, s'.leaderLog, s.leaderLog[t]);
      }
    }
  }

  lemma LeaderTerm(s: System, i: nat)
    requires ElectionInv(s) && i < |s.nodes|
    ensures s.nodes[i].role == Leader ==> s.nodes[i].term >= 1
  {
    assert Shape(s.nodes[i], i, |s.nodes|);
  }

  lemma LogPreserved(s: System, i: nat, out: Out)
    requires ElectionInv(s) && LogInv(s) && i < |s.nodes| && ElectionStep(s, i, out) && LogStep(s, i, out)
    ensures LogInv(Record(s, i, out))
  {
    hide NodeLogs, LeaderLogs, Requests, Leaders, ElectionStep, LogStep, ElectionInv;
    KeepLogs(s, i, out);
    KeepRequests(s, i, out);
    KeepLeaders(s, i, out);
  }

  // ---- Every handler is such a step ----

  lemma AppendForSlice(nd: Node, peer: nat)
    requires nd.role == Leader && peer < |nd.nextIndex| && nd.nextIndex[peer] >= 1 && peer != nd.id
    ensures AppendFor(nd, peer).entries != [] ==> OwnSlice(nd, AppendFor(nd, peer))
  {
  }

  lemma ProposeLog(s: System, i: nat, c: Command)
    requires ElectionInv(s) && LogInv(s) && i < |s.nodes|
    ensures LogStep(s, i, Propose(s.nodes[i], c))
  {
    hide NodeLogs, LeaderLogs, Requests, ElectionInv, AppendFor;
    var nd := s.nodes[i];
    OwnId(s, i);
    var out := Propose(nd, c);
    if nd.role == Leader {
      assert LeaderTrue(s, nd);
      if nd.running {
        forall m | m in out.sends && m.Append? && m.entries != [] ensures OwnSlice(out.node, m) {
          var p: nat :| p < nd.numNodes && p != nd.id && p < |nd.nextIndex| && m == AppendFor(out.node, p);
          AppendForSlice(out.node, p);
        }
      }
    }
  }

  lemma ReplicateLog(s: System, i: nat, peer: nat)
    requires ElectionInv(s) && LogInv(s) && i < |s.nodes|
    ensures LogStep(s, i, ReplicateToPeer(s.nodes[i], peer))
  {
    hide NodeLogs, LeaderLogs, Requests, ElectionInv, AppendFor;
    var nd := s.nodes[i];
    if nd.role == Leader {
      assert LeaderTrue(s, nd);
      if peer < nd.numNodes && peer != nd.id { AppendForSlice(nd, peer); }
    }
  }

  /** A leader never receives an AppendEntries request of its own term. */
  lemma NotFromSelf(s: System, i: nat, m: Msg)
    requires ElectionInv(s) && LogInv(s) && i < |s.nodes| && m in s.msgs && m.Append? && m.entries != [] && m.to == i
    requires s.nodes[i].role == Leader
    ensures s.nodes[i].term != m.term
  {
    if s.nodes[i].term == m.term {
      assert RequestTrue(s, m);
      LeaderElected(s, i);
      OneWinner(s, m.term, i, m.from);
      assert false;
    }
  }

  lemma HandleAppendLog(s: System, i: nat, m: Msg, timeout: nat)
    requires ElectionInv(s) && LogInv(s) && i < |s.nodes| && m in s.msgs && m.Append? && m.entries != [] && m.to == i
    ensures LogStep(s, i, HandleAppend(s.nodes[i], m, timeout))
  {
    hide ElectionInv, LeaderLogs, LogTrue, StoreEntries, TermAt, Min, NoVotes;
    var nd := s.nodes[i];
    var out := HandleAppend(nd, m, timeout);
    if nd.role == Leader {
      NotFromSelf(s, i, m);
      assert LeaderTrue(s, nd);
    }
    if out.node.log != nd.log {
      assert RequestTrue(s, m);
      FollowerLog(s, nd.log, m);
    }
  }

  /** The log left by an accepted request is a prefix of the sender's log or the old log. */
  lemma FollowerLog(s: System, log: seq<Entry>, m: Msg)
    requires LeaderLogs(s) && LogTrue(s.leaderLog, log) && m.Append? && Slice(s.leaderLog, m)
    requires m.prevLogIndex > 0 ==> TermAt(log, m.prevLogIndex) != 0 && TermAt(log, m.prevLogIndex) == m.prevLogTerm
    ensures var l := s.leaderLog[m.term];
            var r := StoreEntries(log, m.prevLogIndex, m.entries);
            r == log || (m.prevLogIndex + |m.entries| <= |l| && r == l[..m.prevLogIndex + |m.entries|])
  {
    var l := s.leaderLog[m.term];
    var p := m.prevLogIndex;
    if p > 0 {
      TrueLogsMatch(s.leaderLog, log, l, p - 1);
    }
    StoreMatches(s.leaderLog, log, l, p, |m.entries|);
  }

  lemma NoEntriesSent(nd: Node, m: Msg, timeout: nat)
    requires !(m.Append? && m.entries != [])
    ensures forall r :: r in Receive(nd, m, timeout).sends ==> !r.Append?
    ensures Receive(nd, m, timeout).node.log == nd.log
    ensures var new_ := Receive(nd, m, timeout).node;
            new_.role == Leader && (nd.role == Leader ==> NextOk(nd)) ==> NextOk(new_)
  {
    hide CommitUpTo, UpToDate, NoVotes, OneVote, LastTerm;
  }

  lemma ReceiveLog(s: System, i: nat, m: Msg, timeout: nat)
    requires ElectionInv(s) && LogInv(s) && i < |s.nodes| && m.to == i && (m.TimeoutNow? || m in s.msgs)
    ensures LogStep(s, i, Receive(s.nodes[i], m, timeout))
  {
    if m.Append? && m.entries != [] {
      HandleAppendLog(s, i, m, timeout);
    } else {
      var nd := s.nodes[i];
      NoEntriesSent(nd, m, timeout);
      if nd.role == Leader { assert LeaderTrue(s, nd); }
      hide Receive, ElectionInv, NodeLogs, LeaderLogs, Requests, Leaders;
    }
  }

  /** Events other than deliveries and leader sends neither touch the log nor make a leader. */
  lemma LocalLog(s: System, i: nat, ev: Event)
    requires ElectionInv(s) && LogInv(s) && i < |s.nodes|
    requires ev.TickElection? || ev.BeginPreVote? || ev.StartServer? || ev.StopServer? || ev.Heartbeats?
    ensures LogStep(s, i, Handle(s.nodes[i], ev))
  {
    OwnId(s, i);
    hide ElectionInv, NodeLogs, LeaderLogs, Requests, OneVote, LastTerm;
    var nd := s.nodes[i];
    if nd.role == Leader { assert LeaderTrue(s, nd); }
    var out := Handle(nd, ev);
    forall m | m in out.sends && m.Append? ensures m.entries == [] {
      if ev.Heartbeats? { var p: nat :| p < nd.numNodes && m == HeartbeatTo(nd, p); }
    }
  }

  lemma HandleLog(s: System, i: nat, ev: Event)
    requires ElectionInv(s) && LogInv(s) && i < |s.nodes| && Enabled(s, i, ev)
    ensures LogStep(s, i, Handle(s.nodes[i], ev))
  {
    hide LogStep, ElectionInv, LogInv, Receive, Propose, ReplicateToPeer, Tick, StartPreVote, SendHeartbeats;
    match ev
    case Deliver(m, timeout) => ReceiveLog(s, i, m, timeout);
    case ClientPropose(c) => ProposeLog(s, i, c);
    case Replicate(p) => ReplicateLog(s, i, p);
    case _ => LocalLog(s, i, ev);
  }

  // ---- Whole runs ----

  lemma InitLog(n: nat)
    ensures LogInv(Init(n))
  {
  }

  lemma {:induction false} QuietRunKeeps(n: nat, run: seq<System>, k: nat)
    requires n >= 2 && QuietRun(n, run) && k < |run|
    ensures ElectionInv(run[k]) && LogInv(run[k])
  {
    hide ElectionInv, LogInv, Init, Handle;
    if k == 0 {
      InitElection(n);
      InitLog(n);
    } else {
      QuietRunKeeps(n, run, k - 1);
      assert QuietStep(run[k - 1], run[k]);
      var i: nat, ev :| Next(run[k - 1], i, ev, run[k]);
      HandleStep(run[k - 1], i, ev);
      HandleLog(run[k - 1], i, ev);
      ElectionPreserved(run[k - 1], i, Handle(run[k - 1].nodes[i], ev));
      LogPreserved(run[k - 1], i, Handle(run[k - 1].nodes[i], ev));
    }
  }

  /** Same index and term at two servers: the logs agree up to and including that index. */
  lemma LogMatching(n: nat, run: seq<System>, k: nat, a: nat, b: nat, index: nat)
    requires n >= 2 && QuietRun(n, run) && k < |run|
    requires a < |run[k].nodes| && b < |run[k].nodes|
    requires index < |run[k].nodes[a].log| && index < |run[k].nodes[b].log|
    requires run[k].nodes[a].log[index].term == run[k].nodes[b].log[index].term
    ensures run[k].nodes[a].log[..index + 1] == run[k].nodes[b].log[..index + 1]
  {
    QuietRunKeeps(n, run, k);
    TrueLogsMatch(run[k].leaderLog, run[k].nodes[a].log, run[k].nodes[b].log, index);
  }

  lemma ExtendsTransitive(a: Logs, b: Logs, c: Logs)
    requires Extends(a, b) && Extends(b, c)
    ensures Extends(a, c)
  {
    forall t: nat | t in a ensures t in c && |a[t]| <= |c[t]| && c[t][..|a[t]|] == a[t] {
      assert c[t][..|b[t]|][..|a[t]|] == c[t][..|a[t]|];
    }
  }

  /** The history of leader logs only grows. */
  lemma {:induction false} HistoryGrows(n: nat, run: seq<System>, j: nat, k: nat)
    requires n >= 2 && QuietRun(n, run) && j <= k < |run|
    ensures Extends(run[j].leaderLog, run[k].leaderLog)
    decreases k
  {
    hide ElectionInv, LogInv, Init, Handle;
    if j < k {
      HistoryGrows(n, run, j, k - 1);
      QuietRunKeeps(n, run, k - 1);
      assert QuietStep(run[k - 1], run[k]);
      var i: nat, ev :| Next(run[k - 1], i, ev, run[k]);
      HandleStep(run[k - 1], i, ev);
      HandleLog(run[k - 1], i, ev);
      HistoryExtends(run[k - 1], i, Handle(run[k - 1].nodes[i], ev));
      ExtendsTransitive(run[j].leaderLog, run[k - 1].leaderLog, run[k].leaderLog);
    }
  }

  /** Leader Append-Only: between any two moments at which a term has a leader, the leader's log only grows. */
  lemma LeaderAppendOnly(n: nat, run: seq<System>, j: nat, k: nat, a: nat, b: nat)
    requires n >= 2 && QuietRun(n, run) && j <= k < |run|
    requires a < |run[j].nodes| && b < |run[k].nodes|
    requires run[j].nodes[a].role == Leader && run[k].nodes[b].role == Leader
    requires run[j].nodes[a].term == run[k].nodes[b].term
    ensures run[j].nodes[a].log <= run[k].nodes[b].log
  {
    QuietRunKeeps(n, run, j);
    QuietRunKeeps(n, run, k);
    HistoryGrows(n, run, j, k);
    assert LeaderTrue(run[j], run[j].nodes[a]) && LeaderTrue(run[k], run[k].nodes[b]);
  }
}
