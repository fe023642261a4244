/**
 A cluster of Raft servers over a network that may lose, duplicate, delay and reorder messages,
 with servers that may crash and come back.
 */
module RaftSystem {
  import opened RaftNode

  /**
   `msgs` holds everything ever sent: any of it may be delivered at any time, any number of times,
   or never.  The last three fields are history: the vote each server cast in each term, the
   majority behind each (term, winner), and each term's leader log as last seen.
   */
  datatype System = System(
    nodes: seq<Node>,
    msgs: set<Msg>,
    votes: map<(nat, nat), int>,
    wins: map<(nat, nat), set<nat>>,
    leaderLog: map<nat, seq<Entry>>)

  function Init(n: nat): System
  {
    System(seq(n, i requires 0 <= i < n => Restarted(i, n, Saved(0, NOBODY), [])), {}, map[], map[], map[])
  }

  /** What may happen at one server without a crash. */
  datatype Event =
    | Deliver(msg: Msg, timeout: nat)
    | TickElection(elapsed: nat, timeout: nat)
    | BeginPreVote(timeout: nat)
    | ClientPropose(command: Command)
    | Replicate(peer: nat)
    | Heartbeats
    | StartServer
    | StopServer

  function Handle(nd: Node, ev: Event): Out
  {
    match ev
    case Deliver(m, timeout) => Receive(nd, m, timeout)
    case TickElection(elapsed, timeout) => Tick(nd, elapsed, timeout)
    case BeginPreVote(timeout) => StartPreVote(nd, timeout)
    case ClientPropose(c) => Propose(nd, c)
    case Replicate(p) => ReplicateToPeer(nd, p)
    case Heartbeats => SendHeartbeats(nd)
    case StartServer => Out(nd.(running := true), {})
    case StopServer => Out(nd.(running := false), {})
  }

  /** Leadership transfer itself is not modelled, so a TimeoutNow request may arrive at any time. */
  predicate Enabled(s: System, i: nat, ev: Event)
  {
    ev.Deliver? ==> ev.msg.to == i && (ev.msg.TimeoutNow? || ev.msg in s.msgs)
  }

  function Granted(nd: Node): set<nat>
  {
    set v: nat | v < |nd.votesGranted| && nd.votesGranted[v]
  }

  /** Install a handler's effect at server `i` and extend the history by what it shows. */
  function Record(s: System, i: nat, out: Out): System
    requires i < |s.nodes|
  {
    var old_, new_ := s.nodes[i], out.node;
    System(
      s.nodes[i := new_],
      s.msgs + out.sends,
      if new_.votedFor >= 0 then s.votes[(i, new_.term) := new_.votedFor] else s.votes,
      if new_.role == Leader && !(old_.role == Leader && old_.term == new_.term)
        then s.wins[(new_.term, i) := Granted(new_)] else s.wins,
      if new_.role == Leader then s.leaderLog[new_.term := new_.log] else s.leaderLog)
  }

  predicate Next(s: System, i: nat, ev: Event, s': System)
  {
    i < |s.nodes| && Enabled(s, i, ev) && s' == Record(s, i, Handle(s.nodes[i], ev))
  }

  /**
   Server `i` crashes and restarts from its saved register, with whatever log its storage yields.
   If it crashes inside a handler that had just stepped down to a higher term, the register
   already holds that term and no vote.
   */
  predicate Crash(s: System, i: nat, saved: Saved, log: seq<Entry>, s': System)
  {
    && i < |s.nodes|
    && (saved == s.nodes[i].disk || (saved.term > s.nodes[i].term && saved.votedFor == NOBODY))
    && s' == s.(nodes := s.nodes[i := Restarted(i, |s.nodes|, saved, log)])
  }

  ghost predicate Step(s: System, s': System)
  {
    || (exists i: nat, ev :: Next(s, i, ev, s'))
    || (exists i: nat, saved, log :: Crash(s, i, saved, log, s'))
  }

  ghost predicate QuietStep(s: System, s': System)
  {
    exists i: nat, ev :: Next(s, i, ev, s')
  }

  /** A run of a cluster of `n` servers, with crashes. */
  ghost predicate Run(n: nat, run: seq<System>)
  {
    && run != [] && run[0] == Init(n)
    && forall k :: 0 <= k < |run| - 1 ==> Step(run[k], run[k + 1])
  }

  /** A run without crashes. */
  ghost predicate QuietRun(n: nat, run: seq<System>)
  {
    && run != [] && run[0] == Init(n)
    && forall k :: 0 <= k < |run| - 1 ==> QuietStep(run[k], run[k + 1])
  }
}
