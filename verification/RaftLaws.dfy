/**
 What each exchange of messages achieves: which log wins a vote, when an election is won, what a follower's
 log holds after a request, how a leader closes in on it, and what a commit index stands for.
 */
module RaftLaws {
  import opened RaftNode
  import opened RaftSystem
  import opened RaftLog

  // ---- Up-to-date logs ----

  /** A candidate with log `c` passes the check of a voter with log `v`. */
  predicate Passes(c: seq<Entry>, v: seq<Entry>)
  {
    UpToDate(v, LastTerm(c), |c|)
  }

  lemma PassesPreorder(a: seq<Entry>, b: seq<Entry>, c: seq<Entry>)
    ensures Passes(a, a)
    ensures Passes(a, b) || Passes(b, a)
    ensures Passes(a, b) && Passes(b, c) ==> Passes(a, c)
  {
  }

  /** Logs tie exactly when they have the same length and end in the same term. */
  lemma PassesTie(a: seq<Entry>, b: seq<Entry>)
    ensures Passes(a, b) && Passes(b, a) <==> |a| == |b| && (a != [] ==> a[|a| - 1].term == b[|b| - 1].term)
  {
  }

  /** More entries win within a term, and a later last term wins over any length. */
  lemma PassesStrictly(a: seq<Entry>, e: Entry, c: seq<Entry>, v: seq<Entry>)
    ensures a == [] || e.term >= a[|a| - 1].term ==> Passes(a + [e], a) && !Passes(a, a + [e])
    ensures c != [] && c[|c| - 1].term > (if v == [] then 0 else v[|v| - 1].term) ==> Passes(c, v) && !Passes(v, c)
  {
  }

  /** The reply to a candidate's own request: granted exactly to an up-to-date log by a voter that is free in that term. */
  lemma VoteExchange(c: Node, v: Node, timeout: nat)
    ensures var out := HandleRequestVote(v, VoteRequestTo(c, v.id), timeout);
            var free := c.term > v.term || (c.term == v.term && (v.votedFor == NOBODY || v.votedFor == c.id));
            var granted := free && Passes(c.log, v.log);
            && out.sends == {VoteReply(v.id, c.id, if c.term > v.term then c.term else v.term, granted)}
            && out.node.term == (if c.term > v.term then c.term else v.term)
            && (granted ==> out.node.votedFor == c.id && out.node.disk == Saved(c.term, c.id) && out.node.timer == 0)
            && (!granted ==> out.node.votedFor == if c.term > v.term then NOBODY else v.votedFor)
            && (c.term > v.term ==> out.node.role == Follower) && (c.term <= v.term ==> out.node.role == v.role)
            && out.node.log == v.log && out.node.commitIndex == v.commitIndex
  {
    hide UpToDate;
  }

  // ---- Winning an election ----

  /** Granted replies of the node's own term arriving from these servers, one after the other. */
  function Granting(nd: Node, from: seq<nat>, timeout: nat): Node
  {
    if from == [] then nd
    else HandleVoteReply(Granting(nd, from[..|from| - 1], timeout),
                         VoteReply(from[|from| - 1], nd.id, nd.term, true), timeout).node
  }

  function Voters(nd: Node, from: seq<nat>): set<nat>
  {
    {nd.id} + set p | p in from
  }

  /** The ballot at a moment of counting: who is marked, how many, and whether that was enough. */
  predicate Counted(c: Node, nd: Node, from: seq<nat>)
  {
    if 2 * |Voters(c, from)| > c.numNodes then
      && nd.role == Leader && nd.currentLeader == c.id && nd.term == c.term && nd.log == c.log && nd.id == c.id && nd.commitIndex == c.commitIndex
      && |nd.nextIndex| == |nd.matchIndex| == c.numNodes
      && forall p: nat :: p < c.numNodes ==> nd.nextIndex[p] == |c.log| + 1 && nd.matchIndex[p] == 0
    else
      && nd.role == Candidate && nd.term == c.term && nd.log == c.log && nd.numNodes == c.numNodes && nd.id == c.id
      && nd.commitIndex == c.commitIndex
      && |nd.votesGranted| == c.numNodes && nd.votesReceived == |Voters(c, from)|
      && forall p: nat :: p < c.numNodes ==> (nd.votesGranted[p] <==> p in Voters(c, from))
  }

  lemma OneMore(s: set<nat>, p: nat)
    ensures |s + {p}| == if p in s then |s| else |s| + 1
  {
    if p in s { assert s + {p} == s; }
  }

  /** An election started by a running server of a larger cluster: a new term, its own vote, and a request to every peer. */
  lemma ElectionBegins(nd: Node, timeout: nat)
    requires nd.running && nd.id < nd.numNodes && nd.numNodes >= 2
    ensures var out := StartElection(nd, timeout);
            var c := out.node;
            && c.term == nd.term + 1 && c.votedFor == nd.id && c.disk == Saved(c.term, nd.id) && c.timer == 0 && c.timeout == timeout && c.currentLeader == NOBODY
            && c.log == nd.log && c.commitIndex == nd.commitIndex && c.id == nd.id && c.numNodes == nd.numNodes
            && Counted(c, c, [])
            && (forall p: nat :: p < nd.numNodes && p != nd.id ==> VoteRequestTo(c, p) in out.sends)
            && (forall m :: m in out.sends ==> m.RequestVote? && m.to != nd.id && m == VoteRequestTo(c, m.to))
  {
    hide LastTerm;
    assert Voters(StartElection(nd, timeout).node, []) == {nd.id};
  }

  /** A candidate leads exactly once the distinct servers that granted their vote, itself included, are a majority. */
  lemma {:induction false} ElectionWon(nd: Node, timeout: nat, from: seq<nat>)
    requires nd.running && nd.id < nd.numNodes && nd.numNodes >= 2
    requires forall i :: 0 <= i < |from| ==> from[i] < nd.numNodes
    ensures var c := StartElection(nd, timeout).node;
            Counted(c, Granting(c, from, timeout), from)
    decreases |from|
  {
    hide StartElection, HandleVoteReply, Voters, Counted;
    var c := StartElection(nd, timeout).node;
    ElectionBegins(nd, timeout);
    if from != [] {
      var front, p := from[..|from| - 1], from[|from| - 1];
      ElectionWon(nd, timeout, front);
      VotersSnoc(c, front, p);
      assert from == front + [p];
      Tallied(c, Granting(c, front, timeout), front, p, timeout);
    }
  }

  lemma VotersSnoc(c: Node, front: seq<nat>, p: nat)
    ensures Voters(c, front + [p]) == Voters(c, front) + {p}
    ensures |Voters(c, front) + {p}| == if p in Voters(c, front) then |Voters(c, front)| else |Voters(c, front)| + 1
  {
    OneMore(Voters(c, front), p);
  }

  lemma Tallied(c: Node, d: Node, front: seq<nat>, p: nat, timeout: nat)
    requires Counted(c, d, front) && p < c.numNodes && c.id < c.numNodes && c.numNodes >= 2
    requires |Voters(c, front) + {p}| == if p in Voters(c, front) then |Voters(c, front)| else |Voters(c, front)| + 1
    requires Voters(c, front + [p]) == Voters(c, front) + {p}
    ensures Counted(c, HandleVoteReply(d, VoteReply(p, c.id, c.term, true), timeout).node, front + [p])
  {
    hide Voters;
  }

  /** A server alone in its cluster leads as soon as it stands, and everything in its log is committed. */
  lemma LoneServer(nd: Node, timeout: nat)
    requires nd.running && nd.id == 0 && nd.numNodes == 1
    ensures var out := StartElection(nd, timeout);
            && out.sends == {} && out.node.role == Leader && out.node.term == nd.term + 1 && out.node.votedFor == nd.id
            && out.node.disk == Saved(nd.term + 1, nd.id) && out.node.log == nd.log && out.node.commitIndex == |nd.log|
    ensures StartPreVote(nd, timeout).node.role == Leader && StartPreVote(nd, timeout).node.term == nd.term + 1
  {
  }

  /** A reply that grants nothing, or comes from an older term or a second time, changes nothing. */
  lemma OtherReplies(nd: Node, m: Msg, timeout: nat)
    requires m.VoteReply? && m.term <= nd.term
    requires !m.granted || m.term < nd.term || (m.from < |nd.votesGranted| && nd.votesGranted[m.from])
    ensures HandleVoteReply(nd, m, timeout) == Out(nd, {})
  {
  }

  // ---- The ballot before an election ----

  /** A pre-vote binds nobody: it is granted to an up-to-date log of a term not behind by a server that hears from no leader. */
  lemma PreVoteExchange(c: Node, v: Node)
    ensures var out := HandlePreVote(v, PreVoteTo(c, v.id));
            var hearsLeader := v.currentLeader >= 0 && v.timer < v.timeout;
            && out.node == v
            && out.sends == {PreVoteReply(v.id, c.id, v.term, c.term + 1 >= v.term && !hearsLeader && Passes(c.log, v.log))}
  {
    hide UpToDate;
  }

  /** A server asks every peer, without touching its term or vote. */
  lemma PreVoteBegins(nd: Node, timeout: nat)
    requires nd.running && nd.id < nd.numNodes && nd.numNodes >= 2
    ensures var out := StartPreVote(nd, timeout);
            var c := out.node;
            && c.role == PreCandidate && c.term == nd.term && c.votedFor == nd.votedFor && c.disk == nd.disk && c.log == nd.log
            && c.timer == 0 && c.timeout == timeout && c.currentLeader == NOBODY && c.commitIndex == nd.commitIndex
            && (forall p: nat :: p < nd.numNodes && p != nd.id ==> PreVoteTo(c, p) in out.sends)
            && (forall m :: m in out.sends ==> m.PreVote? && m.to != nd.id && m == PreVoteTo(c, m.to))
            && PreCounted(c, c, [])
  {
    hide LastTerm;
    assert Voters(StartPreVote(nd, timeout).node, []) == {nd.id};
  }

  function PreGranting(nd: Node, from: seq<nat>, timeout: nat): Node
  {
    if from == [] then nd
    else HandlePreVoteReply(PreGranting(nd, from[..|from| - 1], timeout),
                            PreVoteReply(from[|from| - 1], nd.id, nd.term, true), timeout).node
  }

  /** Before a majority the server counts; with it, it stands in the next term. */
  predicate PreCounted(c: Node, nd: Node, from: seq<nat>)
  {
    if 2 * |Voters(c, from)| > c.numNodes then
      && nd.role == Candidate && nd.term == c.term + 1 && nd.votedFor == c.id && nd.disk == Saved(c.term + 1, c.id) && nd.log == c.log
    else
      && nd.role == PreCandidate && nd.running && nd.term == c.term && nd.log == c.log && nd.numNodes == c.numNodes && nd.id == c.id
      && |nd.votesGranted| == c.numNodes && nd.votesReceived == |Voters(c, from)|
      && forall p: nat :: p < c.numNodes ==> (nd.votesGranted[p] <==> p in Voters(c, from))
  }

  /** The election proper begins exactly once a majority, itself included, has granted the pre-vote. */
  lemma {:induction false} PreVoteWon(nd: Node, timeout: nat, from: seq<nat>)
    requires nd.running && nd.id < nd.numNodes && nd.numNodes >= 2
    requires forall i :: 0 <= i < |from| ==> from[i] < nd.numNodes
    ensures var c := StartPreVote(nd, timeout).node;
            PreCounted(c, PreGranting(c, from, timeout), from)
    decreases |from|
  {
    hide StartPreVote, HandlePreVoteReply, Voters, PreCounted;
    var c := StartPreVote(nd, timeout).node;
    PreVoteBegins(nd, timeout);
    PreIdentity(nd, timeout);
    if from != [] {
      var front, p := from[..|from| - 1], from[|from| - 1];
      PreVoteWon(nd, timeout, front);
      VotersSnoc(c, front, p);
      assert from == front + [p];
      PreTallied(c, PreGranting(c, front, timeout), front, p, timeout);
    }
  }

  lemma PreIdentity(nd: Node, timeout: nat)
    requires nd.numNodes >= 2
    ensures StartPreVote(nd, timeout).node.id == nd.id && StartPreVote(nd, timeout).node.numNodes == nd.numNodes
  {
  }

  lemma PreTallied(c: Node, d: Node, front: seq<nat>, p: nat, timeout: nat)
    requires PreCounted(c, d, front) && p < c.numNodes && c.id < c.numNodes && c.numNodes >= 2
    requires |Voters(c, front) + {p}| == if p in Voters(c, front) then |Voters(c, front)| else |Voters(c, front)| + 1
    requires Voters(c, front + [p]) == Voters(c, front) + {p}
    ensures PreCounted(c, HandlePreVoteReply(d, PreVoteReply(p, c.id, c.term, true), timeout).node, front + [p])
  {
    hide Voters;
  }

  // ---- Higher terms ----

  /** Whoever handles a message of a higher term follows in that term, and has saved it. */
  lemma HigherTermWins(nd: Node, m: Msg, timeout: nat)
    requires m.term > nd.term
    requires m.RequestVote? || m.Append?
             || (m.VoteReply? && nd.role == Candidate && m.from < nd.numNodes == |nd.votesGranted|)
             || (m.PreVoteReply? && nd.role == PreCandidate && m.from < nd.numNodes == |nd.votesGranted|)
             || (m.AppendReply? && nd.role == Leader && m.from < nd.numNodes == |nd.nextIndex| == |nd.matchIndex|)
    ensures var d := Receive(nd, m, timeout).node;
            && d.role == Follower && d.term == m.term && d.disk == Saved(d.term, d.votedFor)
            && (d.votedFor == NOBODY || (m.RequestVote? && d.votedFor == m.candidate))
            && d.timer == 0 && d.timeout == timeout
            && (!m.Append? ==> d.log == nd.log && d.commitIndex == nd.commitIndex && d.currentLeader == NOBODY)
            && d.votesReceived == 0 && d.votesGranted == NoVotes(nd.numNodes)
  {
    hide UpToDate, StoreEntries, NoVotes;
  }

  /** Nobody follows an older term. */
  lemma LowerTermRefused(nd: Node, m: Msg, timeout: nat)
    requires m.term < nd.term && (m.RequestVote? || m.Append?)
    ensures var out := Receive(nd, m, timeout);
            && out.node == nd
            && out.sends == {if m.RequestVote? then VoteReply(nd.id, m.from, nd.term, false) else AppendReply(nd.id, m.from, nd.term, false, 0)}
  {
  }

  // ---- Storing entries ----

  /** `c` is the first index at which the log ends or holds another term than the entry meant for it. */
  predicate FirstDifference(log: seq<Entry>, at: nat, entries: seq<Entry>, c: nat)
  {
    && at <= c < at + |entries| && c <= |log|
    && (c == |log| || log[c].term != entries[c - at].term)
    && forall j: nat :: at <= j < c ==> log[j].term == entries[j - at].term
  }

  predicate TermsPositive(log: seq<Entry>)
  {
    forall i :: 0 <= i < |log| ==> log[i].term >= 1
  }

  lemma {:induction false} StoreBehind(log: seq<Entry>, entries: seq<Entry>)
    ensures StoreEntries(log, |log|, entries) == log + entries
    decreases |entries|
  {
    if entries != [] {
      StoreBehind(log + [entries[0]], entries[1..]);
      assert log + [entries[0]] + entries[1..] == log + entries;
    } else {
      assert log + entries == log;
    }
  }

  lemma StoreHere(log: seq<Entry>, at: nat, entries: seq<Entry>)
    requires at <= |log| && TermsPositive(log) && entries != []
    ensures StoreEntries(log, at, entries) ==
              StoreEntries(if at < |log| && log[at].term == entries[0].term then log else log[..at] + [entries[0]], at + 1, entries[1..])
  {
    if at == |log| { assert log[..at] == log; }
  }

  /** Every entry is there already. */
  predicate Present(log: seq<Entry>, at: nat, entries: seq<Entry>)
  {
    at + |entries| <= |log| && forall j: nat :: j < |entries| ==> log[at + j].term == entries[j].term
  }

  lemma FirstLater(log: seq<Entry>, at: nat, entries: seq<Entry>, c: nat)
    requires at < |log| && entries != [] && log[at].term == entries[0].term
    ensures FirstDifference(log, at, entries, c) ==> c > at && FirstDifference(log, at + 1, entries[1..], c) && entries[1..][c - at - 1..] == entries[c - at..]
    ensures Present(log, at, entries) <==> Present(log, at + 1, entries[1..])
  {
    var rest := entries[1..];
    if FirstDifference(log, at, entries, c) {
      assert rest[c - at - 1] == entries[c - at];
    }
    if Present(log, at + 1, rest) {
      forall j: nat | j < |entries| ensures log[at + j].term == entries[j].term {
        if j > 0 { assert log[at + 1 + (j - 1)].term == rest[j - 1].term; }
      }
    }
    if Present(log, at, entries) {
      forall j: nat | j < |rest| ensures log[at + 1 + j].term == rest[j].term {
        assert log[at + (j + 1)].term == entries[j + 1].term;
      }
    }
  }

  /** The log is cut at the first difference and continued with the entries from there; it stays as it is exactly without one. */
  lemma {:induction false} StoreExactly(log: seq<Entry>, at: nat, entries: seq<Entry>, c: nat)
    requires at <= |log| && TermsPositive(log)
    ensures FirstDifference(log, at, entries, c) ==> StoreEntries(log, at, entries) == log[..c] + entries[c - at..]
    ensures StoreEntries(log, at, entries) == log <==> Present(log, at, entries)
    decreases |entries|
  {
    hide StoreEntries, FirstDifference;
    if entries == [] {
      StoreNothing(log, at, c);
    } else {
      StoreHere(log, at, entries);
      if at < |log| && log[at].term == entries[0].term {
        StoreExactly(log, at + 1, entries[1..], c);
        FirstLater(log, at, entries, c);
      } else {
        var cut := log[..at];
        StoreBehind(cut + [entries[0]], entries[1..]);
        assert cut + [entries[0]] + entries[1..] == cut + entries;
        DifferenceHere(log, at, entries, c);
      }
    }
  }

  lemma StoreNothing(log: seq<Entry>, at: nat, c: nat)
    requires at <= |log|
    ensures StoreEntries(log, at, []) == log && Present(log, at, []) && !FirstDifference(log, at, [], c)
  {
  }

  lemma DifferenceHere(log: seq<Entry>, at: nat, entries: seq<Entry>, c: nat)
    requires at <= |log| && entries != [] && !(at < |log| && log[at].term == entries[0].term)
    ensures FirstDifference(log, at, entries, c) <==> c == at
    ensures !Present(log, at, entries) && log[..at] + entries != log
  {
    assert at < |log| ==> log[at + 0].term != entries[0].term;
    assert (log[..at] + entries)[at] == entries[0];
  }

  /** Either every entry is there already or there is a first difference. */
  lemma {:induction false} DifferenceOrPresent(log: seq<Entry>, at: nat, entries: seq<Entry>) returns (c: nat)
    requires at <= |log|
    ensures Present(log, at, entries) || FirstDifference(log, at, entries, c)
    decreases |entries|
  {
    c := at;
    if entries != [] && at < |log| && log[at].term == entries[0].term {
      c := DifferenceOrPresent(log, at + 1, entries[1..]);
      FirstLater(log, at, entries, c);
      if FirstDifference(log, at + 1, entries[1..], c) {
        assert entries[1..][c - at - 1] == entries[c - at];
        forall j: nat | at <= j < c ensures log[j].term == entries[j - at].term {
          if j > at { assert entries[1..][j - at - 1] == entries[j - at]; }
        }
      }
    }
  }

  // ---- A leader and a follower ----

  /** The follower's log agrees with the leader's on the first `k` entries. */
  predicate Agree(a: seq<Entry>, b: seq<Entry>, k: nat)
  {
    k <= |a| && k <= |b| && a[..k] == b[..k]
  }

  function NextFor(ld: Node, p: nat): nat
  {
    if p < |ld.nextIndex| then ld.nextIndex[p] else 0
  }

  /** A leader that still has entries for the follower, whose term is not ahead; both logs are pieces of leaders' logs. */
  ghost predicate Behind(h: Logs, ld: Node, fw: Node)
  {
    && ld.role == Leader && fw.id < ld.numNodes && fw.id != ld.id && |ld.nextIndex| == |ld.matchIndex| == ld.numNodes
    && 1 <= NextFor(ld, fw.id) <= |ld.log| && fw.term <= ld.term
    && LogTrue(h, ld.log) && LogTrue(h, fw.log) && forall t: nat :: t in h ==> t >= 1
  }

  /** The check of the previous entry is passed exactly by a log that agrees with the leader's up to there. */
  lemma PreviousEntry(h: Logs, ld: Node, fw: Node)
    requires Behind(h, ld, fw)
    ensures var prev := NextFor(ld, fw.id) - 1;
            prev == 0 || (TermAt(fw.log, prev) != 0 && TermAt(fw.log, prev) == TermAt(ld.log, prev)) <==> Agree(fw.log, ld.log, prev)
  {
    var prev := NextFor(ld, fw.id) - 1;
    if prev > 0 {
      assert EntryTrue(h, ld.log, prev - 1);
      if prev <= |fw.log| && fw.log[prev - 1].term == ld.log[prev - 1].term { TrueLogsMatch(h, fw.log, ld.log, prev - 1); }
      if Agree(fw.log, ld.log, prev) { assert fw.log[..prev][prev - 1] == ld.log[..prev][prev - 1]; }
    }
  }

  /** The request carries the next entries, up to the limit. */
  lemma RequestFor(h: Logs, ld: Node, fw: Node)
    requires Behind(h, ld, fw)
    ensures var prev := NextFor(ld, fw.id) - 1;
            var upto := Min(|ld.log|, prev + MAX_ENTRIES_PER_APPEND);
            && prev < upto
            && ReplicateToPeer(ld, fw.id).sends ==
                 {Append(ld.id, fw.id, ld.term, ld.id, prev, TermAt(ld.log, prev), ld.commitIndex, ld.log[prev..upto])}
  {
  }

  /** A request of the current or a newer term: the answer and what becomes of log and commit index. */
  lemma RequestHandled(fw: Node, m: Msg, timeout: nat)
    requires m.Append? && m.entries != [] && m.term >= fw.term
    ensures var out := Receive(fw, m, timeout);
            var yes := m.prevLogIndex == 0 || (TermAt(fw.log, m.prevLogIndex) != 0 && TermAt(fw.log, m.prevLogIndex) == m.prevLogTerm);
            && out.node.term == m.term && out.node.currentLeader == m.leader && out.node.id == fw.id
            && out.node.role == (if m.term > fw.term || fw.role == Candidate then Follower else fw.role)
            && out.node.timer == 0 && out.node.timeout == (if m.term > fw.term then timeout else fw.timeout)
            && out.node.votedFor == (if m.term > fw.term then NOBODY else fw.votedFor)
            && out.sends == {AppendReply(fw.id, m.from, m.term, yes, |out.node.log|)}
            && out.node.log == (if yes then StoreEntries(fw.log, m.prevLogIndex, m.entries) else fw.log)
            && out.node.commitIndex == if yes && m.leaderCommit > fw.commitIndex
                                       then Min(Min(m.leaderCommit, m.prevLogIndex + |m.entries|), |out.node.log|) else fw.commitIndex
  {
    hide StoreEntries, TermAt;
  }

  /** What the follower makes of it: its log then starts with the leader's entries, or it is as before and the follower says no. */
  lemma RequestAnswered(h: Logs, ld: Node, fw: Node, m: Msg, timeout: nat)
    requires Behind(h, ld, fw) && m in ReplicateToPeer(ld, fw.id).sends
    ensures var prev := NextFor(ld, fw.id) - 1;
            var upto := Min(|ld.log|, prev + MAX_ENTRIES_PER_APPEND);
            var out := Receive(fw, m, timeout);
            var yes := Agree(fw.log, ld.log, prev);
            && out.node.id == fw.id
            && out.node.term == ld.term && out.node.currentLeader == ld.id && out.node.timer == 0 && out.node.role != Candidate
            && out.sends == {AppendReply(fw.id, ld.id, ld.term, yes, |out.node.log|)}
            && (yes ==> Agree(out.node.log, ld.log, upto) && LogTrue(h, out.node.log)
                        && (out.node.log == fw.log || out.node.log == ld.log[..upto])
                        && out.node.commitIndex == (if ld.commitIndex > fw.commitIndex then Min(ld.commitIndex, upto) else fw.commitIndex))
            && (!yes ==> out.node.log == fw.log && out.node.commitIndex == fw.commitIndex)
  {
    hide StoreEntries, LogTrue, TermAt, Receive, ReplicateToPeer;
    RequestFor(h, ld, fw);
    PreviousEntry(h, ld, fw);
    RequestHandled(fw, m, timeout);
    var prev := NextFor(ld, fw.id) - 1;
    var upto := Min(|ld.log|, prev + MAX_ENTRIES_PER_APPEND);
    if Agree(fw.log, ld.log, prev) {
      StoreMatches(h, fw.log, ld.log, prev, upto - prev);
      PrefixTrue(h, ld.log, upto);
    }
  }

  /** What the leader learns from the answer. */
  lemma AnswerHandled(ld: Node, m: Msg, timeout: nat)
    requires m.AppendReply? && ld.role == Leader && m.term == ld.term && m.from < ld.numNodes
    requires |ld.nextIndex| == |ld.matchIndex| == ld.numNodes
    ensures var d := HandleAppendReply(ld, m, timeout).node;
            var news := m.success && m.matchIndex > ld.matchIndex[m.from];
            && d.role == Leader && d.term == ld.term && d.log == ld.log && d.id == ld.id && d.numNodes == ld.numNodes
            && |d.nextIndex| == |d.matchIndex| == d.numNodes
            && d.matchIndex[m.from] == (if news then m.matchIndex else ld.matchIndex[m.from])
            && d.nextIndex[m.from] == (if news then m.matchIndex + 1
                                       else if !m.success && ld.nextIndex[m.from] > 1 then ld.nextIndex[m.from] - 1 else ld.nextIndex[m.from])
            && forall p: nat :: p < d.numNodes && p != m.from ==> d.nextIndex[p] == ld.nextIndex[p] && d.matchIndex[p] == ld.matchIndex[p]
  {
    hide CommitUpTo;
  }

  /** A refusal brings the leader one entry further back, an acceptance ends the search. */
  ghost predicate Round(ld: Node, fw: Node, timeout: nat, ld': Node, fw': Node)
  {
    exists m, reply ::
      && m in ReplicateToPeer(ld, fw.id).sends && Receive(fw, m, timeout) == Out(fw', {reply})
      && Receive(ld, reply, timeout) == Out(ld', {})
  }

  /** `pairs` are the two servers before and after each of a row of undisturbed exchanges. */
  ghost predicate Rounds(pairs: seq<(Node, Node)>, timeout: nat)
  {
    forall i :: 0 <= i < |pairs| - 1 ==> Round(pairs[i].0, pairs[i].1, timeout, pairs[i + 1].0, pairs[i + 1].1)
  }

  lemma OneRound(h: Logs, ld: Node, fw: Node, timeout: nat, ld': Node, fw': Node)
    requires Behind(h, ld, fw) && Round(ld, fw, timeout, ld', fw')
    ensures var prev := NextFor(ld, fw.id) - 1;
            if Agree(fw.log, ld.log, prev) then Agree(fw'.log, ld.log, Min(|ld.log|, prev + MAX_ENTRIES_PER_APPEND))
            else prev > 0 && fw'.log == fw.log && ld'.log == ld.log && fw'.id == fw.id && NextFor(ld', fw.id) == prev && Behind(h, ld', fw')
  {
    hide LogTrue, ReplicateToPeer, HandleAppendReply, HandleAppend, HandleHeartbeat;
    var m, reply :|
      && m in ReplicateToPeer(ld, fw.id).sends && Receive(fw, m, timeout) == Out(fw', {reply})
      && Receive(ld, reply, timeout) == Out(ld', {});
    RequestAnswered(h, ld, fw, m, timeout);
    RequestFor(h, ld, fw);
    var yes := Agree(fw.log, ld.log, NextFor(ld, fw.id) - 1);
    assert reply in {AppendReply(fw.id, ld.id, ld.term, yes, |fw'.log|)} by { assert reply in {reply}; }
    AnswerHandled(ld, reply, timeout);
  }

  /**
   The search for the common prefix ends: within as many exchanges as the leader has to go back, the follower's log
   starts with the leader's entries up to the limit behind any common prefix.
   */
  lemma {:induction false} SearchEnds(h: Logs, pairs: seq<(Node, Node)>, timeout: nat, common: nat) returns (k: nat)
    requires |pairs| > 0 && Behind(h, pairs[0].0, pairs[0].1) && Rounds(pairs, timeout)
    requires common < NextFor(pairs[0].0, pairs[0].1.id) <= common + |pairs| - 1
    requires Agree(pairs[0].1.log, pairs[0].0.log, common)
    ensures 0 < k <= NextFor(pairs[0].0, pairs[0].1.id) - common && k < |pairs|
    ensures Agree(pairs[k].1.log, pairs[0].0.log, Min(|pairs[0].0.log|, common + MAX_ENTRIES_PER_APPEND))
    decreases |pairs|
  {
    hide Round, Behind;
    var (ld, fw) := pairs[0];
    assert Round(pairs[0].0, pairs[0].1, timeout, pairs[1].0, pairs[1].1);
    OneRound(h, ld, fw, timeout, pairs[1].0, pairs[1].1);
    var prev := NextFor(ld, fw.id) - 1;
    if Agree(fw.log, ld.log, prev) {
      k := 1;
      AgreeShorter(pairs[1].1.log, ld.log, Min(|ld.log|, prev + MAX_ENTRIES_PER_APPEND), Min(|ld.log|, common + MAX_ENTRIES_PER_APPEND));
    } else {
      var rest := pairs[1..];
      assert Rounds(rest, timeout) by {
        forall i | 0 <= i < |rest| - 1 ensures Round(rest[i].0, rest[i].1, timeout, rest[i + 1].0, rest[i + 1].1) {
          assert Round(pairs[i + 1].0, pairs[i + 1].1, timeout, pairs[i + 2].0, pairs[i + 2].1);
        }
      }
      k := SearchEnds(h, rest, timeout, common);
      k := k + 1;
    }
  }

  lemma AgreeShorter(a: seq<Entry>, b: seq<Entry>, k: nat, j: nat)
    requires Agree(a, b, k) && j <= k
    ensures Agree(a, b, j)
  {
    assert a[..j] == a[..k][..j] && b[..j] == b[..k][..j];
  }

  // ---- The commit index ----

  /** The servers known to hold the entry at an index: the leader and the peers that acknowledged it. */
  function Holders(nd: Node, index: nat): set<nat>
  {
    {nd.id} + set p: nat | p < |nd.matchIndex| && nd.matchIndex[p] >= index
  }

  function HoldersUpTo(nd: Node, index: nat, upto: nat): set<nat>
    requires upto <= |nd.matchIndex|
  {
    set p: nat | p < upto && p != nd.id && nd.matchIndex[p] >= index
  }

  lemma {:induction false} CountIsHolders(nd: Node, index: nat, upto: nat)
    requires upto <= |nd.matchIndex|
    ensures CountMatching(nd, index, upto) == |HoldersUpTo(nd, index, upto)|
    decreases upto
  {
    if upto > 0 {
      CountIsHolders(nd, index, upto - 1);
      var before, now := HoldersUpTo(nd, index, upto - 1), HoldersUpTo(nd, index, upto);
      if upto - 1 != nd.id && nd.matchIndex[upto - 1] >= index {
        assert now == before + {upto - 1};
      } else {
        assert now == before;
      }
    } else {
      assert HoldersUpTo(nd, index, 0) == {};
    }
  }

  lemma CountAll(nd: Node, index: nat)
    ensures 1 + CountMatching(nd, index, |nd.matchIndex|) == |Holders(nd, index)|
  {
    CountIsHolders(nd, index, |nd.matchIndex|);
    var peers := HoldersUpTo(nd, index, |nd.matchIndex|);
    assert Holders(nd, index) == peers + {nd.id};
  }

  /** An entry of the current term that a majority holds. */
  predicate Committable(nd: Node, index: nat)
  {
    1 <= index <= |nd.log| && nd.log[index - 1].term == nd.term && 2 * |Holders(nd, index)| > nd.numNodes
  }

  /** The commit index moves to the newest committable entry above it, and stays if there is none. */
  lemma {:induction false} CommitExactly(nd: Node, upto: nat)
    requires upto <= |nd.log| && nd.term >= 1
    ensures var r := CommitUpTo(nd, upto);
            && r >= nd.commitIndex && (r != nd.commitIndex ==> r <= upto && Committable(nd, r))
            && forall k: nat :: k <= upto && Committable(nd, k) ==> k <= r
    decreases upto
  {
    hide Holders;
    if upto > nd.commitIndex {
      CountAll(nd, upto);
      CommitExactly(nd, upto - 1);
    }
  }

  // ---- The timer, heartbeats and proposals ----

  /** A server starts an election exactly when it has heard from nobody for its timeout. */
  lemma TimerExpires(nd: Node, elapsed: nat, timeout: nat)
    requires nd.running && nd.role != Leader && nd.numNodes >= 2 && nd.id < nd.numNodes
    ensures var out := Tick(nd, elapsed, timeout);
            if nd.timer + elapsed < nd.timeout then out.sends == {} && out.node == nd.(timer := nd.timer + elapsed)
            else out.node.role == Candidate && out.node.term == nd.term + 1 && out.node.votedFor == nd.id && out.node.timer == 0
  {
  }

  /** Leaders and stopped servers start no election. */
  lemma TimerIdle(nd: Node, elapsed: nat, timeout: nat)
    requires !nd.running || nd.role == Leader
    ensures Tick(nd, elapsed, timeout) == Out(nd, {}) && (!nd.running ==> StartElection(nd, timeout) == Out(nd, {}) == StartPreVote(nd, timeout))
  {
  }

  /** A leader's heartbeat reaches every peer, turns candidates of its term into followers, restarts the timer and leaves logs alone. */
  lemma HeartbeatExchange(ld: Node, fw: Node, elapsed: nat, timeout: nat)
    requires ld.role == Leader && fw.id < ld.numNodes && fw.id != ld.id && fw.term <= ld.term && fw.role != Leader && elapsed < timeout
    ensures exists m :: m in SendHeartbeats(ld).sends && m.to == fw.id && HeartbeatHeard(ld, fw, m, elapsed, timeout)
  {
    hide LastTerm;
    var m := HeartbeatTo(ld, fw.id);
    assert m in SendHeartbeats(ld).sends;
    Heard(ld, fw, elapsed, timeout);
  }

  predicate HeartbeatHeard(ld: Node, fw: Node, m: Msg, elapsed: nat, timeout: nat)
  {
    var out := Receive(fw, m, timeout);
    && out.node.role == Follower && out.node.term == ld.term && out.node.currentLeader == ld.id && out.node.log == fw.log
    && out.node.timer == 0 && out.node.timeout == timeout && out.node.votedFor == (if ld.term > fw.term then NOBODY else fw.votedFor)
    && out.sends == {AppendReply(fw.id, ld.id, ld.term, true, |fw.log|)}
    && out.node.commitIndex == (if ld.commitIndex <= fw.commitIndex then fw.commitIndex else Min(ld.commitIndex, |fw.log|))
    && Tick(out.node, elapsed, timeout).sends == {} && Tick(out.node, elapsed, timeout).node.role == Follower
  }

  lemma Heard(ld: Node, fw: Node, elapsed: nat, timeout: nat)
    requires fw.term <= ld.term && fw.role != Leader && elapsed < timeout
    ensures HeartbeatHeard(ld, fw, HeartbeatTo(ld, fw.id), elapsed, timeout)
  {
    hide LastTerm;
  }

  /** A proposal is appended in the leader's term, and a follower that was level with the leader is level again after one message. */
  lemma ProposalReplicated(ld: Node, fw: Node, c: Command, timeout: nat)
    requires ld.running && ld.role == Leader && ld.numNodes >= 2 && fw.id < ld.numNodes == |ld.nextIndex| && fw.id != ld.id && fw.term <= ld.term
    requires fw.log == ld.log && ld.nextIndex[fw.id] == |ld.log| + 1 && TermsPositive(ld.log)
    ensures var out := Propose(ld, c);
            && out.node.log == ld.log + [Entry(ld.term, c)] && out.node.commitIndex == ld.commitIndex && out.node.role == Leader
            && exists m :: m in out.sends && m.to == fw.id && Levels(m, fw, out.node, timeout)
  {
    hide StoreEntries;
    var e := Entry(ld.term, c);
    var d := Propose(ld, c).node;
    var m := AppendFor(d, fw.id);
    assert d.log[|ld.log|..|ld.log| + 1] == [e];
    assert m.entries == [e];
    assert m in Propose(ld, c).sends;
    RequestHandled(fw, m, timeout);
    StoreBehind(fw.log, [e]);
    assert |ld.log| > 0 ==> d.log[|ld.log| - 1] == ld.log[|ld.log| - 1];
    assert Levels(m, fw, d, timeout);
  }

  predicate Levels(m: Msg, fw: Node, ld: Node, timeout: nat)
  {
    && Receive(fw, m, timeout).node.log == ld.log
    && Receive(fw, m, timeout).sends == {AppendReply(fw.id, ld.id, ld.term, true, |ld.log|)}
  }

  /** A lone server commits what it is given at once; nobody else accepts a proposal. */
  lemma ProposalAlone(nd: Node, c: Command)
    ensures nd.running && nd.role == Leader && nd.numNodes == 1 ==>
              var out := Propose(nd, c);
              out.sends == {} && out.node.log == nd.log + [Entry(nd.term, c)] && out.node.commitIndex == |nd.log| + 1
    ensures !nd.running || nd.role != Leader ==> Propose(nd, c) == Out(nd, {})
  {
  }

  /** Told by its leader to take over, a follower stands in the next term at once; anyone else ignores the message. */
  lemma TakesOver(nd: Node, m: Msg, timeout: nat)
    requires m.TimeoutNow? && nd.running && nd.numNodes >= 2 && nd.id < nd.numNodes
    ensures var out := Receive(nd, m, timeout);
            if nd.role == Follower && m.term == nd.term && m.leader == nd.currentLeader
            then out.node.role == Candidate && out.node.term == nd.term + 1 && out.node.votedFor == nd.id
            else out == Out(nd, {})
  {
  }

  /** A server coming back knows its saved term and vote and its log, has committed nothing, and is quiet until it is started. */
  lemma ComesBack(id: nat, n: nat, saved: Saved, log: seq<Entry>, elapsed: nat, timeout: nat, c: Command)
    ensures var nd := Restarted(id, n, saved, log);
            && nd.role == Follower && nd.term == saved.term && nd.votedFor == saved.votedFor && nd.disk == saved && nd.log == log
            && nd.commitIndex == 0 && nd.currentLeader == NOBODY
            && Tick(nd, elapsed, timeout) == StartPreVote(nd, timeout) == Propose(nd, c) == Out(nd, {})
  {
  }
}
