/**
 A Raft server as the program has it: an object whose handlers update its fields.  Each method's
 contract ties the new fields to the corresponding function of RaftNode.
 */
module RaftServer {
  import opened RaftNode

  datatype LeaderState = LeaderState(nextIndex: seq<nat>, matchIndex: seq<nat>)
  datatype Tally = Tally(received: nat, granted: seq<bool>)
  datatype Timer = Timer(elapsed: nat, timeout: nat)

  class Server {
    const id: nat
    const numNodes: nat
    var role: Role
    var persistent: Saved
    var disk: Saved
    var log: seq<Entry>
    var commitIndex: nat
    var leaderState: LeaderState
    var running: bool
    var currentLeader: int
    var tally: Tally
    var timer: Timer

    ghost function State(): Node
      reads this
    {
      Node(id, numNodes, role, persistent.term, persistent.votedFor, disk, log, commitIndex,
           leaderState.nextIndex, leaderState.matchIndex, running, currentLeader,
           tally.received, tally.granted, timer.elapsed, timer.timeout)
    }

    /** A new server, or one recovering its term, vote and log from storage. */
    constructor (id: nat, numNodes: nat, saved: Saved, log: seq<Entry>)
      ensures State() == Restarted(id, numNodes, saved, log)
    {
      this.id, this.numNodes := id, numNodes;
      role, persistent, disk := Follower, saved, saved;
      this.log, commitIndex, leaderState := log, 0, LeaderState([], []);
      running, currentLeader := false, NOBODY;
      tally, timer := Tally(0, NoVotes(numNodes)), Timer(0, 0);
    }

    method StepDownTo(newTerm: nat, random: nat)
      modifies this
      ensures State() == StepDown(old(State()), newTerm, random)
    {
      hide NoVotes;
      role := Follower;
      persistent := Saved(newTerm, NOBODY);
      currentLeader := NOBODY;
      tally := Tally(0, NoVotes(numNodes));
      disk := persistent;
      timer := Timer(0, random);
    }

    method Lead()
      modifies this
      ensures State() == BecomeLeader(old(State()))
    {
      role := Leader;
      currentLeader := id;
      var last := |log|;
      var next, matching := [], [];
      for i := 0 to numNodes
        invariant next == seq(i, _ => last + 1) && matching == seq(i, _ => 0)
      {
        next := next + [last + 1];
        matching := matching + [0];
      }
      leaderState := LeaderState(next, matching);
      if numNodes == 1 { commitIndex := last; }
    }

    method Elect(random: nat) returns (sends: set<Msg>)
      modifies this
      ensures Out(State(), sends) == StartElection(old(State()), random)
    {
      hide OneVote, LastTerm;
      sends := {};
      if !running { return; }
      role := Candidate;
      persistent := Saved(persistent.term + 1, id);
      currentLeader := NOBODY;
      disk := persistent;
      tally := Tally(1, OneVote(numNodes, id));
      timer := Timer(0, random);
      if tally.received > numNodes / 2 {
        Lead();
        return;
      }
      sends := RequestVotes();
    }

    /** One vote request for every peer. */
    method RequestVotes() returns (sends: set<Msg>)
      ensures sends == set p | 0 <= p < numNodes && p != id :: VoteRequestTo(State(), p)
    {
      hide LastTerm;
      sends := {};
      var p := 0;
      while p < numNodes
        invariant 0 <= p <= numNodes
        invariant sends == set q | 0 <= q < p && q != id :: VoteRequestTo(State(), q)
      {
        if p != id {
          sends := sends + {RequestVote(id, p, persistent.term, id, |log|, LastTerm(log))};
          assert RequestVote(id, p, persistent.term, id, |log|, LastTerm(log)) == VoteRequestTo(State(), p);
        }
        p := p + 1;
      }
    }

    method OnRequestVote(m: Msg, random: nat) returns (reply: Msg)
      requires m.RequestVote?
      modifies this
      ensures Out(State(), {reply}) == HandleRequestVote(old(State()), m, random)
    {
      hide NoVotes, UpToDate, StepDown;
      if m.term > persistent.term { StepDownTo(m.term, random); }
      reply := VoteReply(id, m.from, persistent.term, false);
      if m.term < persistent.term { return; }
      var canVote := persistent.votedFor == NOBODY || persistent.votedFor == m.candidate;
      var logOk := UpToDate(log, m.lastLogTerm, m.lastLogIndex);
      if canVote && logOk {
        persistent := Saved(persistent.term, m.candidate);
        disk := persistent;
        reply := VoteReply(id, m.from, persistent.term, true);
        timer := Timer(0, random);
      }
    }

    method OnVoteReply(m: Msg, random: nat)
      requires m.VoteReply? && |tally.granted| == numNodes
      modifies this
      ensures Out(State(), {}) == HandleVoteReply(old(State()), m, random)
    {
      if m.from >= numNodes || role != Candidate { return; }
      if m.term > persistent.term { StepDownTo(m.term, random); return; }
      if m.term < persistent.term { return; }
      if m.granted && !tally.granted[m.from] {
        tally := Tally(tally.received + 1, tally.granted[m.from := true]);
        if tally.received > numNodes / 2 { Lead(); }
      }
    }

    method OnPreVoteReply(m: Msg, random: nat) returns (sends: set<Msg>)
      requires m.PreVoteReply? && |tally.granted| == numNodes
      modifies this
      ensures Out(State(), sends) == HandlePreVoteReply(old(State()), m, random)
    {
      sends := {};
      if m.from >= numNodes || role != PreCandidate { return; }
      if m.term > persistent.term { StepDownTo(m.term, random); return; }
      if m.granted && !tally.granted[m.from] {
        tally := Tally(tally.received + 1, tally.granted[m.from := true]);
        if tally.received > numNodes / 2 { sends := Elect(random); }
      }
    }

    method OnTimeoutNow(m: Msg, random: nat) returns (sends: set<Msg>)
      requires m.TimeoutNow?
      modifies this
      ensures Out(State(), sends) == HandleTimeoutNow(old(State()), m, random)
    {
      sends := {};
      if !running || role != Follower || m.term != persistent.term || m.leader != currentLeader { return; }
      sends := Elect(random);
    }

    method OnHeartbeat(m: Msg, random: nat) returns (reply: Msg)
      requires m.Append?
      modifies this
      ensures Out(State(), {reply}) == HandleHeartbeat(old(State()), m, random)
    {
      hide NoVotes, StoreEntries, TermAt, StepDown;
      if m.term > persistent.term { StepDownTo(m.term, random); }
      reply := AppendReply(id, m.from, persistent.term, false, 0);
      if m.term < persistent.term { return; }
      timer := Timer(0, random);
      currentLeader := m.leader;
      if role == Candidate || role == PreCandidate {
        role := Follower;
        tally := tally.(received := 0);
      }
      reply := AppendReply(id, m.from, persistent.term, true, |log|);
      if m.leaderCommit > commitIndex {
        commitIndex := if m.leaderCommit < |log| then m.leaderCommit else |log|;
      }
    }

    /** Conflict detection, truncation and append, entry by entry. */
    method TakeEntries(at: nat, entries: seq<Entry>)
      modifies this`log
      ensures log == StoreEntries(old(log), at, entries)
    {
      var i := 0;
      while i < |entries|
        modifies this`log
        invariant 0 <= i <= |entries|
        invariant StoreEntries(log, at + i, entries[i..]) == StoreEntries(old(log), at, entries)
      {
        assert entries[i..][0] == entries[i] && entries[i..][1..] == entries[i + 1..];
        var index := at + 1 + i;
        var existing := TermAt(log, index);
        if existing != 0 && existing != entries[i].term {
          log := TruncateAfter(log, index - 1);
        }
        if index > |log| {
          log := log + [entries[i]];
        }
        i := i + 1;
      }
    }

    /** The accepted part of a request: its entries, then its commit index. */
    method Store(m: Msg)
      requires m.Append?
      modifies this`log, this`commitIndex
      ensures log == StoreEntries(old(log), m.prevLogIndex, m.entries)
      ensures commitIndex == if m.leaderCommit > old(commitIndex)
                             then Min(Min(m.leaderCommit, m.prevLogIndex + |m.entries|), |log|) else old(commitIndex)
    {
      TakeEntries(m.prevLogIndex, m.entries);
      if m.leaderCommit > commitIndex {
        var newCommit := m.leaderCommit;
        if m.prevLogIndex + |m.entries| < newCommit { newCommit := m.prevLogIndex + |m.entries|; }
        if |log| < newCommit { newCommit := |log|; }
        commitIndex := newCommit;
      }
    }

    method OnAppend(m: Msg, random: nat) returns (reply: Msg)
      requires m.Append?
      modifies this
      ensures Out(State(), {reply}) == HandleAppend(old(State()), m, random)
    {
      hide NoVotes, StoreEntries, TermAt, StepDown;
      if m.term > persistent.term { StepDownTo(m.term, random); }
      reply := AppendReply(id, m.from, persistent.term, false, 0);
      if m.term < persistent.term { return; }
      timer := timer.(elapsed := 0);
      currentLeader := m.leader;
      if role == Candidate {
        role := Follower;
        tally := tally.(received := 0);
      }
      if m.prevLogIndex > 0 {
        var atPrev := TermAt(log, m.prevLogIndex);
        if atPrev == 0 || atPrev != m.prevLogTerm {
          reply := AppendReply(id, m.from, persistent.term, false, |log|);
          return;
        }
      }
      Store(m);
      reply := AppendReply(id, m.from, persistent.term, true, |log|);
    }

    /** The highest index of the current term held by a majority becomes the commit index. */
    method AdvanceCommitIndex()
      modifies this`commitIndex
      ensures State() == old(State()).(commitIndex := CommitUpTo(old(State()), |log|))
    {
      ghost var nd := State();
      var last := |log|;
      var newCommit := commitIndex;
      var n := commitIndex + 1;
      while n <= last
        invariant commitIndex < n && (n <= last + 1 || n == commitIndex + 1)
        invariant newCommit == CommitUpTo(nd, n - 1)
      {
        var count := 1;
        var i := 0;
        while i < |leaderState.matchIndex|
          invariant 0 <= i <= |leaderState.matchIndex|
          invariant count == 1 + CountMatching(nd, n, i)
        {
          if i != id && leaderState.matchIndex[i] >= n { count := count + 1; }
          i := i + 1;
        }
        if count > numNodes / 2 && TermAt(log, n) == persistent.term { newCommit := n; }
        n := n + 1;
      }
      CommitStops(nd, n - 1);
      if newCommit > commitIndex { commitIndex := newCommit; }
    }

    lemma CommitStops(nd: Node, n: nat)
      requires n >= |nd.log| && (n == |nd.log| || n == nd.commitIndex)
      ensures CommitUpTo(nd, n) == CommitUpTo(nd, |nd.log|)
    {
    }

    method OnAppendReply(m: Msg, random: nat)
      requires m.AppendReply? && (role == Leader ==> |leaderState.nextIndex| == numNodes && |leaderState.matchIndex| == numNodes)
      modifies this
      ensures Out(State(), {}) == HandleAppendReply(old(State()), m, random)
    {
      if m.from >= numNodes || role != Leader { return; }
      if m.term > persistent.term { StepDownTo(m.term, random); return; }
      if m.term < persistent.term { return; }
      if m.success {
        if m.matchIndex > leaderState.matchIndex[m.from] {
          leaderState := LeaderState(leaderState.nextIndex[m.from := m.matchIndex + 1], leaderState.matchIndex[m.from := m.matchIndex]);
        }
        AdvanceCommitIndex();
      } else if leaderState.nextIndex[m.from] > 1 {
        leaderState := leaderState.(nextIndex := leaderState.nextIndex[m.from := leaderState.nextIndex[m.from] - 1]);
      }
    }

    method ReplicateTo(peer: nat) returns (sends: set<Msg>)
      requires role == Leader ==> |leaderState.nextIndex| == numNodes && forall p :: 0 <= p < numNodes ==> leaderState.nextIndex[p] >= 1
      ensures Out(State(), sends) == ReplicateToPeer(State(), peer)
    {
      sends := {};
      if role != Leader || peer >= numNodes || peer == id { return; }
      var next := leaderState.nextIndex[peer];
      var prev := if next > 1 then next - 1 else 0;
      var count := 0;
      if |log| >= next {
        count := |log| - next + 1;
        if count > MAX_ENTRIES_PER_APPEND { count := MAX_ENTRIES_PER_APPEND; }
      }
      var entries := [];
      var i := 0;
      while i < count
        invariant 0 <= i <= count && (count > 0 ==> next - 1 + count <= |log|)
        invariant count > 0 ==> entries == log[next - 1..next - 1 + i]
        invariant count == 0 ==> entries == []
      {
        entries := entries + [log[next - 1 + i]];
        i := i + 1;
      }
      assert count == 0 && next >= 1 && next - 1 <= |log| ==> log[next - 1..next - 1] == [];
      sends := {Append(id, peer, persistent.term, id, prev, TermAt(log, prev), commitIndex, entries)};
    }

    method ProposeCommand(command: Command) returns (sends: set<Msg>)
      requires role == Leader ==> |leaderState.nextIndex| == numNodes && forall p :: 0 <= p < numNodes ==> leaderState.nextIndex[p] >= 1
      modifies this
      ensures Out(State(), sends) == Propose(old(State()), command)
    {
      sends := {};
      if !running || role != Leader { return; }
      log := log + [Entry(persistent.term, command)];
      if numNodes == 1 {
        commitIndex := |log|;
        return;
      }
      ghost var d := State();
      var p := 0;
      while p < numNodes
        modifies {}
        invariant 0 <= p <= numNodes
        invariant sends == set q | 0 <= q < p && q != id && q < |d.nextIndex| :: AppendFor(d, q)
      {
        if p != id {
          var one := ReplicateTo(p);
          sends := sends + one;
        }
        p := p + 1;
      }
    }
  }
}
