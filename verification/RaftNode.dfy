/**
 One Raft server: its state and its handlers, as functions from a state and an input to a new
 state and the messages sent.  Fixed membership; no compaction, so log index `k` (from 1) is
 `log[k - 1]`.
 */
module RaftNode {
  datatype Role = Follower | Candidate | Leader | PreCandidate

  type Command = seq<int>

  datatype Entry = Entry(term: nat, command: Command)

  const NOBODY: int := -1

  const MAX_ENTRIES_PER_APPEND: nat := 100

  /** The (term, vote) register on stable storage. */
  datatype Saved = Saved(term: nat, votedFor: int)

  datatype Node = Node(
    id: nat,
    numNodes: nat,
    role: Role,
    term: nat,
    votedFor: int,
    disk: Saved,
    log: seq<Entry>,
    commitIndex: nat,
    nextIndex: seq<nat>,
    matchIndex: seq<nat>,
    running: bool,
    currentLeader: int,
    votesReceived: nat,
    votesGranted: seq<bool>,
    timer: nat,
    timeout: nat)

  datatype Msg =
    | RequestVote(from: nat, to: nat, term: nat, candidate: nat, lastLogIndex: nat, lastLogTerm: nat)
    | VoteReply(from: nat, to: nat, term: nat, granted: bool)
    | Append(from: nat, to: nat, term: nat, leader: nat, prevLogIndex: nat, prevLogTerm: nat,
             leaderCommit: nat, entries: seq<Entry>)
    | AppendReply(from: nat, to: nat, term: nat, success: bool, matchIndex: nat)
    | PreVote(from: nat, to: nat, term: nat, candidate: nat, lastLogIndex: nat, lastLogTerm: nat)
    | PreVoteReply(from: nat, to: nat, term: nat, granted: bool)
    | TimeoutNow(from: nat, to: nat, term: nat, leader: nat)

  /** A handler's effect: the new state and the messages handed to the network. */
  datatype Out = Out(node: Node, sends: set<Msg>)

  // ---- Log ----

  function LastTerm(log: seq<Entry>): nat
  {
    if log == [] then 0 else log[|log| - 1].term
  }

  /** Term of the entry at a 1-based index; 0 when there is none. */
  function TermAt(log: seq<Entry>, index: nat): nat
  {
    if index == 0 || index > |log| then 0 else log[index - 1].term
  }

  function TruncateAfter(log: seq<Entry>, index: nat): seq<Entry>
  {
    if index >= |log| then log else log[..index]
  }

  // ---- Elections ----

  function NoVotes(n: nat): seq<bool> { seq(n, _ => false) }

  function OneVote(n: nat, id: nat): seq<bool>
  {
    if id < n then NoVotes(n)[id := true] else NoVotes(n)
  }

  /** Every change of term or vote is written to the register before anything is sent. */
  function StepDown(nd: Node, newTerm: nat, timeout: nat): Node
  {
    nd.(role := Follower, term := newTerm, votedFor := NOBODY, disk := Saved(newTerm, NOBODY), currentLeader := NOBODY,
        votesReceived := 0, votesGranted := NoVotes(nd.numNodes), timer := 0, timeout := timeout)
  }

  function UpToDate(log: seq<Entry>, lastTerm: nat, lastIndex: nat): bool
  {
    lastTerm > LastTerm(log) || (lastTerm == LastTerm(log) && lastIndex >= |log|)
  }

  function BecomeLeader(nd: Node): Node
  {
    nd.(role := Leader, currentLeader := nd.id,
        nextIndex := seq(nd.numNodes, _ => |nd.log| + 1),
        matchIndex := seq(nd.numNodes, _ => 0),
        commitIndex := if nd.numNodes == 1 then |nd.log| else nd.commitIndex)
  }

  function VoteRequestTo(nd: Node, peer: nat): Msg
  {
    RequestVote(nd.id, peer, nd.term, nd.id, |nd.log|, LastTerm(nd.log))
  }

  function PreVoteTo(nd: Node, peer: nat): Msg
  {
    PreVote(nd.id, peer, nd.term + 1, nd.id, |nd.log|, LastTerm(nd.log))
  }

  function StartElection(nd: Node, timeout: nat): Out
  {
    if !nd.running then Out(nd, {})
    else
      var d := nd.(role := Candidate, term := nd.term + 1, votedFor := nd.id, disk := Saved(nd.term + 1, nd.id), currentLeader := NOBODY,
                   votesReceived := 1, votesGranted := OneVote(nd.numNodes, nd.id), timer := 0, timeout := timeout);
      if 1 > nd.numNodes / 2 then Out(BecomeLeader(d), {})
      else Out(d, set p | 0 <= p < nd.numNodes && p != nd.id :: VoteRequestTo(d, p))
  }

  function StartPreVote(nd: Node, timeout: nat): Out
  {
    if !nd.running then Out(nd, {})
    else
      var d := nd.(role := PreCandidate, currentLeader := NOBODY, votesReceived := 1,
                   votesGranted := OneVote(nd.numNodes, nd.id), timer := 0, timeout := timeout);
      if 1 > nd.numNodes / 2 then StartElection(d, timeout)
      else Out(d, set p | 0 <= p < nd.numNodes && p != nd.id :: PreVoteTo(d, p))
  }

  function HandlePreVote(nd: Node, m: Msg): Out
    requires m.PreVote?
  {
    var grant := !(nd.currentLeader >= 0 && nd.timer < nd.timeout) && m.term >= nd.term
                 && UpToDate(nd.log, m.lastLogTerm, m.lastLogIndex);
    Out(nd, {PreVoteReply(nd.id, m.from, nd.term, grant)})
  }

  function HandlePreVoteReply(nd: Node, m: Msg, timeout: nat): Out
    requires m.PreVoteReply?
  {
    if m.from >= nd.numNodes || |nd.votesGranted| != nd.numNodes || nd.role != PreCandidate then Out(nd, {})
    else if m.term > nd.term then Out(StepDown(nd, m.term, timeout), {})
    else if m.granted && !nd.votesGranted[m.from] then
      var d := nd.(votesGranted := nd.votesGranted[m.from := true], votesReceived := nd.votesReceived + 1);
      if d.votesReceived > d.numNodes / 2 then StartElection(d, timeout) else Out(d, {})
    else Out(nd, {})
  }

  function HandleTimeoutNow(nd: Node, m: Msg, timeout: nat): Out
    requires m.TimeoutNow?
  {
    if nd.role == Follower && m.term == nd.term && m.leader == nd.currentLeader
    then StartElection(nd, timeout) else Out(nd, {})
  }

  function HandleRequestVote(nd: Node, m: Msg, timeout: nat): Out
    requires m.RequestVote?
  {
    var c := if m.term > nd.term then StepDown(nd, m.term, timeout) else nd;
    if m.term < c.term then Out(c, {VoteReply(nd.id, m.from, c.term, false)})
    else if (c.votedFor == NOBODY || c.votedFor == m.candidate) && UpToDate(c.log, m.lastLogTerm, m.lastLogIndex) then
      Out(c.(votedFor := m.candidate, disk := Saved(c.term, m.candidate), timer := 0, timeout := timeout),
          {VoteReply(nd.id, m.from, c.term, true)})
    else Out(c, {VoteReply(nd.id, m.from, c.term, false)})
  }

  function HandleVoteReply(nd: Node, m: Msg, timeout: nat): Out
    requires m.VoteReply?
  {
    if m.from >= nd.numNodes || |nd.votesGranted| != nd.numNodes || nd.role != Candidate then Out(nd, {})
    else if m.term > nd.term then Out(StepDown(nd, m.term, timeout), {})
    else if m.term == nd.term && m.granted && !nd.votesGranted[m.from] then
      var d := nd.(votesGranted := nd.votesGranted[m.from := true], votesReceived := nd.votesReceived + 1);
      Out(if d.votesReceived > d.numNodes / 2 then BecomeLeader(d) else d, {})
    else Out(nd, {})
  }

  // ---- Replication ----

  function Min(a: nat, b: nat): nat { if a < b then a else b }

  function AppendFor(nd: Node, peer: nat): Msg
    requires peer < |nd.nextIndex|
  {
    var next := nd.nextIndex[peer];
    var prev := if next > 1 then next - 1 else 0;
    var count := if |nd.log| >= next then Min(|nd.log| - next + 1, MAX_ENTRIES_PER_APPEND) else 0;
    var entries := if next >= 1 && next - 1 + count <= |nd.log| then nd.log[next - 1..next - 1 + count] else [];
    Append(nd.id, peer, nd.term, nd.id, prev, TermAt(nd.log, prev), nd.commitIndex, entries)
  }

  function ReplicateToPeer(nd: Node, peer: nat): Out
  {
    if nd.role != Leader || peer >= nd.numNodes || peer == nd.id || peer >= |nd.nextIndex| then Out(nd, {})
    else Out(nd, {AppendFor(nd, peer)})
  }

  function HeartbeatTo(nd: Node, peer: nat): Msg
  {
    Append(nd.id, peer, nd.term, nd.id, |nd.log|, LastTerm(nd.log), nd.commitIndex, [])
  }

  function SendHeartbeats(nd: Node): Out
  {
    if nd.role != Leader then Out(nd, {})
    else Out(nd, set p | 0 <= p < nd.numNodes && p != nd.id :: HeartbeatTo(nd, p))
  }

  function Propose(nd: Node, command: Command): Out
  {
    if !nd.running || nd.role != Leader then Out(nd, {})
    else
      var d := nd.(log := nd.log + [Entry(nd.term, command)]);
      if nd.numNodes == 1 then Out(d.(commitIndex := |d.log|), {})
      else Out(d, set p | 0 <= p < nd.numNodes && p != nd.id && p < |nd.nextIndex| :: AppendFor(d, p))
  }

  /** A follower takes over the entries that follow index `at`, cutting its log at the first conflict. */
  function StoreEntries(log: seq<Entry>, at: nat, entries: seq<Entry>): seq<Entry>
    decreases |entries|
  {
    if entries == [] then log
    else
      var e := entries[0];
      var existing := TermAt(log, at + 1);
      var cut := if existing != 0 && existing != e.term then TruncateAfter(log, at) else log;
      var next := if at + 1 > |cut| then cut + [e] else cut;
      StoreEntries(next, at + 1, entries[1..])
  }

  /** Term handling common to both AppendEntries handlers, up to the role change. */
  function AcceptLeader(nd: Node, m: Msg, timeout: nat, preToo: bool): Node
    requires m.Append?
  {
    var d := nd.(currentLeader := m.leader, timer := 0, timeout := if preToo then timeout else nd.timeout);
    if d.role == Candidate || (preToo && d.role == PreCandidate) then d.(role := Follower, votesReceived := 0) else d
  }

  function HandleHeartbeat(nd: Node, m: Msg, timeout: nat): Out
    requires m.Append?
  {
    var c := if m.term > nd.term then StepDown(nd, m.term, timeout) else nd;
    if m.term < c.term then Out(c, {AppendReply(nd.id, m.from, c.term, false, 0)})
    else
      var d := AcceptLeader(c, m, timeout, true);
      Out(d.(commitIndex := if m.leaderCommit > d.commitIndex then Min(m.leaderCommit, |d.log|) else d.commitIndex),
          {AppendReply(nd.id, m.from, d.term, true, |d.log|)})
  }

  function HandleAppend(nd: Node, m: Msg, timeout: nat): Out
    requires m.Append?
  {
    var c := if m.term > nd.term then StepDown(nd, m.term, timeout) else nd;
    if m.term < c.term then Out(c, {AppendReply(nd.id, m.from, c.term, false, 0)})
    else
      var d := AcceptLeader(c, m, timeout, false);
      var at := TermAt(d.log, m.prevLogIndex);
      if m.prevLogIndex > 0 && (at == 0 || at != m.prevLogTerm) then
        Out(d, {AppendReply(nd.id, m.from, d.term, false, |d.log|)})
      else
        var log := StoreEntries(d.log, m.prevLogIndex, m.entries);
        var commit := if m.leaderCommit > d.commitIndex
                      then Min(Min(m.leaderCommit, m.prevLogIndex + |m.entries|), |log|) else d.commitIndex;
        Out(d.(log := log, commitIndex := commit), {AppendReply(nd.id, m.from, d.term, true, |log|)})
  }

  function CountMatching(nd: Node, index: nat, upto: nat): nat
    requires upto <= |nd.matchIndex|
  {
    if upto == 0 then 0
    else CountMatching(nd, index, upto - 1) + if upto - 1 != nd.id && nd.matchIndex[upto - 1] >= index then 1 else 0
  }

  /** The highest index up to `upto` held by a majority and written in the current term. */
  function CommitUpTo(nd: Node, upto: nat): (r: nat)
    ensures r >= nd.commitIndex
    decreases upto
  {
    if upto <= nd.commitIndex then nd.commitIndex
    else if 1 + CountMatching(nd, upto, |nd.matchIndex|) > nd.numNodes / 2 && TermAt(nd.log, upto) == nd.term then upto
    else CommitUpTo(nd, upto - 1)
  }

  function HandleAppendReply(nd: Node, m: Msg, timeout: nat): Out
    requires m.AppendReply?
  {
    if m.from >= nd.numNodes || |nd.nextIndex| != nd.numNodes || |nd.matchIndex| != nd.numNodes || nd.role != Leader then Out(nd, {})
    else if m.term > nd.term then Out(StepDown(nd, m.term, timeout), {})
    else if m.term < nd.term then Out(nd, {})
    else if m.success then
      var d := if m.matchIndex > nd.matchIndex[m.from]
               then nd.(matchIndex := nd.matchIndex[m.from := m.matchIndex], nextIndex := nd.nextIndex[m.from := m.matchIndex + 1])
               else nd;
      Out(d.(commitIndex := CommitUpTo(d, |d.log|)), {})
    else if nd.nextIndex[m.from] > 1 then
      Out(nd.(nextIndex := nd.nextIndex[m.from := nd.nextIndex[m.from] - 1]), {})
    else Out(nd, {})
  }

  function Receive(nd: Node, m: Msg, timeout: nat): Out
  {
    match m
    case RequestVote(_, _, _, _, _, _) => HandleRequestVote(nd, m, timeout)
    case VoteReply(_, _, _, _) => HandleVoteReply(nd, m, timeout)
    case Append(_, _, _, _, _, _, _, es) => if es != [] then HandleAppend(nd, m, timeout) else HandleHeartbeat(nd, m, timeout)
    case AppendReply(_, _, _, _, _) => HandleAppendReply(nd, m, timeout)
    case PreVote(_, _, _, _, _, _) => HandlePreVote(nd, m)
    case PreVoteReply(_, _, _, _) => HandlePreVoteReply(nd, m, timeout)
    case TimeoutNow(_, _, _, _) => HandleTimeoutNow(nd, m, timeout)
  }

  /** The election timer: elapsed time is added, and an expired timer starts an election. */
  function Tick(nd: Node, elapsed: nat, timeout: nat): Out
  {
    if !nd.running || nd.role == Leader then Out(nd, {})
    else
      var d := nd.(timer := nd.timer + elapsed);
      if d.timer >= d.timeout then StartElection(d, timeout) else Out(d, {})
  }

  /** A server as created, and as it comes back from a crash with a saved (term, vote) and some log. */
  function Restarted(id: nat, n: nat, saved: Saved, log: seq<Entry>): Node
  {
    Node(id, n, Follower, saved.term, saved.votedFor, saved, log, 0, [], [], false, NOBODY, 0, NoVotes(n), 0, 0)
  }
}
