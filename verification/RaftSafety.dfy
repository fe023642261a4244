/**
 Every handler respects the election rules, so every run keeps the election invariant.
 */
module RaftSafety {
  import opened RaftNode
  import opened RaftSystem
  import opened RaftElection

  lemma OneVoteGranted(nd: Node, n: nat, id: nat)
    requires id < n && nd.votesGranted == OneVote(n, id)
    ensures Granted(nd) == {id} && |Granted(nd)| == 1
  {
  }

  lemma AddedVote(nd: Node, d: Node, v: nat)
    requires v < |nd.votesGranted| && !nd.votesGranted[v] && d.votesGranted == nd.votesGranted[v := true]
    ensures Granted(d) == Granted(nd) + {v} && |Granted(d)| == |Granted(nd)| + 1
  {
    assert v !in Granted(nd);
  }

  /** A handler that leaves term and vote alone and starts nothing. */
  predicate Quiet(nd: Node, new_: Node)
  {
    && new_.id == nd.id && new_.numNodes == nd.numNodes && new_.term == nd.term && new_.votedFor == nd.votedFor
    && new_.disk == nd.disk
    && |new_.votesGranted| == |nd.votesGranted|
    && (|| (new_.role == nd.role && new_.votesGranted == nd.votesGranted && new_.votesReceived == nd.votesReceived)
        || new_.role == Follower || new_.role == PreCandidate)
  }

  predicate PlainSends(i: nat, sends: set<Msg>)
  {
    forall m :: m in sends ==> m.from == i && !m.RequestVote? && !(m.VoteReply? && m.granted)
  }

  lemma QuietHandler(s: System, i: nat, out: Out)
    requires ElectionInv(s) && i < |s.nodes| && Quiet(s.nodes[i], out.node) && PlainSends(i, out.sends)
    ensures ElectionStep(s, i, out)
  {
    assert Shape(s.nodes[i], i, |s.nodes|);
    assert out.node.votesGranted == s.nodes[i].votesGranted ==> Granted(out.node) == Granted(s.nodes[i]);
  }

  /** Moving to a higher term as a follower without a vote, then possibly voting. */
  lemma HigherTerm(s: System, i: nat, out: Out)
    requires ElectionInv(s) && i < |s.nodes|
    requires var nd, new_ := s.nodes[i], out.node;
             && new_.id == nd.id && new_.numNodes == nd.numNodes && new_.term > nd.term && new_.role == Follower
             && new_.disk == Saved(new_.term, new_.votedFor) && |new_.votesGranted| == |s.nodes|
    requires forall m :: m in out.sends ==> SendOk(i, out.node, m)
    ensures ElectionStep(s, i, out)
  {
    assert Shape(s.nodes[i], i, |s.nodes|);
  }

  /** Starting an election from any state in the same term. */
  lemma ElectionStarts(s: System, i: nat, d: Node, timeout: nat)
    requires ElectionInv(s) && i < |s.nodes|
    requires d.running && d.id == i && d.numNodes == |s.nodes| && d.term == s.nodes[i].term
    ensures ElectionStep(s, i, StartElection(d, timeout))
  {
    var out := StartElection(d, timeout);
    OneVoteGranted(out.node, d.numNodes, i);
    forall m | m in out.sends ensures SendOk(i, out.node, m) {
      var p: nat :| p < d.numNodes && m == VoteRequestTo(out.node, p);
    }
  }

  lemma RequestVoteStep(s: System, i: nat, m: Msg, timeout: nat)
    requires ElectionInv(s) && i < |s.nodes| && m.RequestVote? && m in s.msgs
    ensures ElectionStep(s, i, HandleRequestVote(s.nodes[i], m, timeout))
  {
    var nd := s.nodes[i];
    assert Shape(nd, i, |s.nodes|);
    assert MessageTrue(s, m);
    var out := HandleRequestVote(nd, m, timeout);
    if m.term > nd.term {
      HigherTerm(s, i, out);
    } else {
      assert out.node.votesGranted == nd.votesGranted;
      assert Granted(out.node) == Granted(nd);
    }
  }

  lemma VoteReplyStep(s: System, i: nat, m: Msg, timeout: nat)
    requires ElectionInv(s) && i < |s.nodes| && m.VoteReply? && m in s.msgs && m.to == i
    ensures ElectionStep(s, i, HandleVoteReply(s.nodes[i], m, timeout))
  {
    var nd := s.nodes[i];
    assert Shape(nd, i, |s.nodes|);
    var out := HandleVoteReply(nd, m, timeout);
    if nd.role == Candidate && m.from < nd.numNodes && m.term > nd.term {
      HigherTerm(s, i, out);
    } else if nd.role == Candidate && m.from < nd.numNodes && m.term == nd.term && m.granted && !nd.votesGranted[m.from] {
      AddedVote(nd, out.node, m.from);
      assert m == VoteReply(m.from, i, nd.term, true);
    } else {
      QuietHandler(s, i, out);
    }
  }

  lemma PreVoteReplyStep(s: System, i: nat, m: Msg, timeout: nat)
    requires ElectionInv(s) && i < |s.nodes| && m.PreVoteReply?
    ensures ElectionStep(s, i, HandlePreVoteReply(s.nodes[i], m, timeout))
  {
    hide ElectionStep, Granted, MessagesTrue, WinsTrue, CountsTrue, VotesKept;
    var nd := s.nodes[i];
    assert Shape(nd, i, |s.nodes|);
    var out := HandlePreVoteReply(nd, m, timeout);
    if m.from >= nd.numNodes || nd.role != PreCandidate {
      QuietHandler(s, i, out);
    } else if m.term > nd.term {
      HigherTerm(s, i, out);
    } else if m.granted && !nd.votesGranted[m.from] {
      var d := nd.(votesGranted := nd.votesGranted[m.from := true], votesReceived := nd.votesReceived + 1);
      if d.votesReceived > d.numNodes / 2 && d.running { ElectionStarts(s, i, d, timeout); } else { QuietHandler(s, i, out); }
    } else {
      QuietHandler(s, i, out);
    }
  }

  lemma AppendStep(s: System, i: nat, m: Msg, timeout: nat)
    requires ElectionInv(s) && i < |s.nodes| && m.Append?
    ensures ElectionStep(s, i, HandleAppend(s.nodes[i], m, timeout))
    ensures ElectionStep(s, i, HandleHeartbeat(s.nodes[i], m, timeout))
  {
    hide ElectionStep, Granted, MessagesTrue, WinsTrue, CountsTrue, VotesKept, StoreEntries, TermAt;
    var nd := s.nodes[i];
    assert Shape(nd, i, |s.nodes|);
    if m.term > nd.term {
      HigherTerm(s, i, HandleAppend(nd, m, timeout));
      HigherTerm(s, i, HandleHeartbeat(nd, m, timeout));
    } else {
      QuietHandler(s, i, HandleAppend(nd, m, timeout));
      QuietHandler(s, i, HandleHeartbeat(nd, m, timeout));
    }
  }

  lemma AppendReplyStep(s: System, i: nat, m: Msg, timeout: nat)
    requires ElectionInv(s) && i < |s.nodes| && m.AppendReply?
    ensures ElectionStep(s, i, HandleAppendReply(s.nodes[i], m, timeout))
  {
    hide ElectionStep, Granted, MessagesTrue, WinsTrue, CountsTrue, VotesKept, CommitUpTo;
    var nd := s.nodes[i];
    assert Shape(nd, i, |s.nodes|);
    var out := HandleAppendReply(nd, m, timeout);
    if out.node.term > nd.term { HigherTerm(s, i, out); } else { QuietHandler(s, i, out); }
  }

  lemma ReceiveStep(s: System, i: nat, m: Msg, timeout: nat)
    requires ElectionInv(s) && i < |s.nodes| && m.to == i && (m.TimeoutNow? || m in s.msgs)
    ensures ElectionStep(s, i, Receive(s.nodes[i], m, timeout))
  {
    hide ElectionStep, Granted, MessagesTrue, WinsTrue, CountsTrue, VotesKept,
         HandleRequestVote, HandleVoteReply, HandleAppend, HandleHeartbeat, HandleAppendReply, HandlePreVoteReply, StartElection;
    var nd := s.nodes[i];
    assert Shape(nd, i, |s.nodes|);
    match m
    case RequestVote(_, _, _, _, _, _) => RequestVoteStep(s, i, m, timeout);
    case VoteReply(_, _, _, _) => VoteReplyStep(s, i, m, timeout);
    case Append(_, _, _, _, _, _, _, _) => AppendStep(s, i, m, timeout);
    case AppendReply(_, _, _, _, _) => AppendReplyStep(s, i, m, timeout);
    case PreVote(_, _, _, _, _, _) => QuietHandler(s, i, HandlePreVote(nd, m));
    case PreVoteReply(_, _, _, _) => PreVoteReplyStep(s, i, m, timeout);
    case TimeoutNow(_, _, _, _) => ElectOrStay(s, i, nd, timeout, HandleTimeoutNow(nd, m, timeout));
  }

  /** An event that either starts an election from `d` or changes nothing that matters. */
  lemma ElectOrStay(s: System, i: nat, d: Node, timeout: nat, out: Out)
    requires ElectionInv(s) && i < |s.nodes| && Quiet(s.nodes[i], d) && d.numNodes == |s.nodes|
    requires out == StartElection(d, timeout) || (Quiet(s.nodes[i], out.node) && PlainSends(i, out.sends))
    ensures ElectionStep(s, i, out)
  {
    assert Shape(s.nodes[i], i, |s.nodes|);
    hide ElectionStep, Granted, MessagesTrue, WinsTrue, CountsTrue, VotesKept, ElectionInv;
    if out == StartElection(d, timeout) && d.running {
      ElectionStarts(s, i, d, timeout);
    } else {
      QuietHandler(s, i, out);
    }
  }

  lemma AppendForShape(nd: Node, peer: nat)
    requires peer < |nd.nextIndex|
    ensures AppendFor(nd, peer).Append? && AppendFor(nd, peer).from == nd.id
  {
  }

  lemma LeaderSends(s: System, i: nat, ev: Event)
    requires ElectionInv(s) && i < |s.nodes| && (ev.ClientPropose? || ev.Replicate? || ev.Heartbeats?)
    ensures ElectionStep(s, i, Handle(s.nodes[i], ev))
  {
    hide ElectionStep, Granted, MessagesTrue, WinsTrue, CountsTrue, VotesKept, AppendFor;
    var nd := s.nodes[i];
    assert Shape(nd, i, |s.nodes|);
    var out := Handle(nd, ev);
    forall m | m in out.sends ensures m.from == i && m.Append? {
      match ev {
        case ClientPropose(c) =>
          var d := nd.(log := nd.log + [Entry(nd.term, c)]);
          var p: nat :| p < |nd.nextIndex| && m == AppendFor(d, p);
          AppendForShape(d, p);
        case Replicate(p) => AppendForShape(nd, p);
        case Heartbeats =>
          var p: nat :| p < nd.numNodes && m == HeartbeatTo(nd, p);
      }
    }
    QuietHandler(s, i, out);
  }

  lemma HandleStep(s: System, i: nat, ev: Event)
    requires ElectionInv(s) && i < |s.nodes| && Enabled(s, i, ev)
    ensures ElectionStep(s, i, Handle(s.nodes[i], ev))
  {
    hide ElectionStep, Granted, MessagesTrue, WinsTrue, CountsTrue, VotesKept, StartElection, Receive, Propose, ReplicateToPeer, SendHeartbeats;
    var nd := s.nodes[i];
    assert Shape(nd, i, |s.nodes|);
    match ev
    case Deliver(m, timeout) => ReceiveStep(s, i, m, timeout);
    case TickElection(elapsed, timeout) => ElectOrStay(s, i, nd.(timer := nd.timer + elapsed), timeout, Tick(nd, elapsed, timeout));
    case BeginPreVote(timeout) => PreVoteStarts(s, i, timeout);
    case ClientPropose(_) => LeaderSends(s, i, ev);
    case Replicate(_) => LeaderSends(s, i, ev);
    case Heartbeats => LeaderSends(s, i, ev);
    case StartServer => QuietHandler(s, i, Handle(nd, ev));
    case StopServer => QuietHandler(s, i, Handle(nd, ev));
  }

  lemma PreVoteStarts(s: System, i: nat, timeout: nat)
    requires ElectionInv(s) && i < |s.nodes|
    ensures ElectionStep(s, i, StartPreVote(s.nodes[i], timeout))
  {
    hide ElectionStep, Granted, MessagesTrue, WinsTrue, CountsTrue, VotesKept;
    var nd := s.nodes[i];
    assert Shape(nd, i, |s.nodes|);
    var out := StartPreVote(nd, timeout);
    forall m | m in out.sends ensures m.from == i && m.PreVote? {
      var p: nat :| p < nd.numNodes && m == PreVoteTo(out.node, p);
    }
    QuietHandler(s, i, out);
  }

  lemma CrashKeeps(s: System, i: nat, saved: Saved, log: seq<Entry>, s': System)
    requires ElectionInv(s) && Crash(s, i, saved, log, s')
    ensures ElectionInv(s')
  {
    assert Shape(s.nodes[i], i, |s.nodes|);
    assert Shape(s'.nodes[i], i, |s.nodes|);
    assert forall v: nat, t: nat, c: int :: VotedFor(s, v, t, c) <==> VotedFor(s', v, t, c);
    assert forall t: nat, j: nat :: Elected(s', t, j) <==> Elected(s, t, j);
    CrashKeepsMessages(s, s');
    CrashKeepsWins(s, i, s');
  }

  lemma CrashKeepsMessages(s: System, s': System)
    requires MessagesTrue(s) && s'.msgs == s.msgs && s'.votes == s.votes && |s'.nodes| == |s.nodes|
    ensures MessagesTrue(s')
  {
    forall m | m in s'.msgs ensures MessageTrue(s', m) { assert MessageTrue(s, m); }
  }

  lemma CrashKeepsWins(s: System, i: nat, s': System)
    requires WinsTrue(s) && i < |s.nodes| && s'.votes == s.votes && s'.wins == s.wins && |s'.nodes| == |s.nodes|
    requires s'.nodes[i].role == Follower && s'.nodes[i].term >= s.nodes[i].term
    requires forall j :: 0 <= j < |s.nodes| && j != i ==> s'.nodes[j] == s.nodes[j]
    ensures WinsTrue(s')
  {
    forall t: nat, j: nat | Elected(s', t, j)
      ensures j < |s'.nodes| && 1 <= t <= s'.nodes[j].term && Majority(s', t, j, s'.wins[(t, j)])
    {
      assert Elected(s, t, j);
      assert forall v :: v in s.wins[(t, j)] ==> VotedFor(s, v, t, j) && VotedFor(s', v, t, j);
    }
    forall j | 0 <= j < |s'.nodes| && s'.nodes[j].role == Leader ensures Elected(s', s'.nodes[j].term, j) {
      assert Elected(s, s.nodes[j].term, j);
    }
    forall j | 0 <= j < |s'.nodes| && s'.nodes[j].role == Candidate ensures !Elected(s', s'.nodes[j].term, j) {
      assert !Elected(s, s.nodes[j].term, j);
    }
  }

  lemma InitElection(n: nat)
    requires n >= 2
    ensures ElectionInv(Init(n))
  {
  }

  /** Recorded wins are never forgotten. */
  lemma StepKeeps(s: System, s': System)
    requires ElectionInv(s) && Step(s, s')
    ensures ElectionInv(s')
    ensures forall t: nat, i: nat :: Elected(s, t, i) ==> Elected(s', t, i)
  {
    hide ElectionInv, Handle, Restarted;
    if i: nat, ev :| Next(s, i, ev, s') {
      HandleStep(s, i, ev);
      ElectionPreserved(s, i, Handle(s.nodes[i], ev));
    } else {
      var i: nat, saved, log :| Crash(s, i, saved, log, s');
      CrashKeeps(s, i, saved, log, s');
    }
  }

  lemma {:induction false} RunKeeps(n: nat, run: seq<System>, k: nat)
    requires n >= 2 && Run(n, run) && k < |run|
    ensures ElectionInv(run[k])
  {
    hide ElectionInv, Step, Init;
    if k == 0 { InitElection(n); } else { RunKeeps(n, run, k - 1); StepKeeps(run[k - 1], run[k]); }
  }

  lemma {:induction false} WinsLast(n: nat, run: seq<System>, j: nat, k: nat, t: nat, i: nat)
    requires n >= 2 && Run(n, run) && j <= k < |run| && Elected(run[j], t, i)
    ensures Elected(run[k], t, i)
    decreases k
  {
    hide ElectionInv, Step, Init, Elected;
    if j < k {
      WinsLast(n, run, j, k - 1, t, i);
      RunKeeps(n, run, k - 1);
      StepKeeps(run[k - 1], run[k]);
    }
  }

  /** Leaders of one term, seen at any two moments of a run, are the same server. */
  lemma ElectionSafety(n: nat, run: seq<System>, j: nat, k: nat, a: nat, b: nat)
    requires n >= 2 && Run(n, run) && j < |run| && k < |run|
    requires a < |run[j].nodes| && run[j].nodes[a].role == Leader
    requires b < |run[k].nodes| && run[k].nodes[b].role == Leader
    requires run[j].nodes[a].term == run[k].nodes[b].term
    ensures a == b
  {
    RunKeeps(n, run, j);
    RunKeeps(n, run, k);
    var last := if j < k then k else j;
    RunKeeps(n, run, last);
    var t := run[j].nodes[a].term;
    assert Elected(run[j], t, a) && Elected(run[k], t, b);
    WinsLast(n, run, j, last, t, a);
    WinsLast(n, run, k, last, t, b);
    OneWinner(run[last], t, a, b);
  }
}
