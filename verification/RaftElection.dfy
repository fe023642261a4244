/**
 Election Safety (section 5.2 of the extended Raft paper): over a whole run with message loss,
 duplication, reordering and crashes, at most one server becomes leader in any term.
 */
module RaftElection {
  import opened RaftNode
  import opened RaftSystem

  // ---- Majorities ----

  lemma {:induction false} BoundedSet(a: set<nat>, n: nat)
    requires forall v :: v in a ==> v < n
    ensures |a| <= n
    decreases n
  {
    if n > 0 {
      var b := a - {n - 1};
      BoundedSet(b, n - 1);
      if n - 1 in a { assert a == b + {n - 1}; } else { assert a == b; }
    } else {
      assert a == {};
    }
  }

  /** Two majorities of the same cluster share a server. */
  lemma MajoritiesMeet(a: set<nat>, b: set<nat>, n: nat) returns (v: nat)
    requires forall x :: x in a ==> x < n
    requires forall x :: x in b ==> x < n
    requires 2 * |a| > n && 2 * |b| > n
    ensures v in a && v in b
  {
    if a * b == {} {
      assert |a + b| == |a| + |b|;
      BoundedSet(a + b, n);
      assert false;
    }
    v :| v in a * b;
  }

  // ---- The invariant ----

  predicate Shape(nd: Node, i: nat, n: nat)
  {
    && nd.id == i && nd.numNodes == n && |nd.votesGranted| == n
    && nd.disk == Saved(nd.term, nd.votedFor)
    && (nd.role == Candidate ==> nd.votesReceived == |Granted(nd)|)
    && (nd.role == Candidate || nd.role == Leader ==> nd.term >= 1)
  }

  ghost predicate Shapes(s: System)
  {
    forall i :: 0 <= i < |s.nodes| ==> Shape(s.nodes[i], i, |s.nodes|)
  }

  predicate VotedFor(s: System, v: nat, term: nat, c: int)
  {
    (v, term) in s.votes && s.votes[(v, term)] == c
  }

  /** The recorded votes are the ones the servers still stand by, and no server voted ahead of its term. */
  ghost predicate VotesKept(s: System)
  {
    && (forall i :: 0 <= i < |s.nodes| && s.nodes[i].votedFor >= 0 ==> VotedFor(s, i, s.nodes[i].term, s.nodes[i].votedFor))
    && (forall i: nat, t: nat :: (i, t) in s.votes ==> i < |s.nodes| && t <= s.nodes[i].term && s.votes[(i, t)] >= 0)
    && (forall i: nat, t: nat :: (i, t) in s.votes && t == s.nodes[i].term ==> s.nodes[i].votedFor == s.votes[(i, t)])
  }

  ghost predicate MessagesTrue(s: System)
  {
    forall m :: m in s.msgs ==> MessageTrue(s, m)
  }

  predicate MessageTrue(s: System, m: Msg)
  {
    && m.from < |s.nodes|
    && (m.RequestVote? ==> m.candidate == m.from)
    && (m.VoteReply? && m.granted ==> VotedFor(s, m.from, m.term, m.to))
  }

  /** A candidate only counts servers that voted for it in its current term. */
  ghost predicate CountsTrue(s: System)
  {
    forall i, v :: 0 <= i < |s.nodes| && s.nodes[i].role == Candidate && v in Granted(s.nodes[i]) ==>
      VotedFor(s, v, s.nodes[i].term, i)
  }

  predicate Elected(s: System, t: nat, i: nat)
  {
    (t, i) in s.wins
  }

  ghost predicate Majority(s: System, t: nat, i: nat, q: set<nat>)
  {
    && 2 * |q| > |s.nodes|
    && (forall v :: v in q ==> v < |s.nodes|)
    && (forall v :: v in q ==> VotedFor(s, v, t, i))
  }

  /** Every recorded win has a majority of votes behind it, and its term is not ahead of the winner's. */
  ghost predicate WinsTrue(s: System)
  {
    && (forall t: nat, i: nat :: Elected(s, t, i) ==> i < |s.nodes| && 1 <= t <= s.nodes[i].term && Majority(s, t, i, s.wins[(t, i)]))
    && (forall i :: 0 <= i < |s.nodes| && s.nodes[i].role == Leader ==> Elected(s, s.nodes[i].term, i))
    && (forall i :: 0 <= i < |s.nodes| && s.nodes[i].role == Candidate ==> !Elected(s, s.nodes[i].term, i))
  }

  ghost predicate ElectionInv(s: System)
  {
    |s.nodes| >= 2 && Shapes(s) && VotesKept(s) && MessagesTrue(s) && CountsTrue(s) && WinsTrue(s)
  }

  /** Two winners of one term are the same server. */
  lemma OneWinner(s: System, t: nat, a: nat, b: nat)
    requires ElectionInv(s) && Elected(s, t, a) && Elected(s, t, b)
    ensures a == b
  {
    var v := MajoritiesMeet(s.wins[(t, a)], s.wins[(t, b)], |s.nodes|);
    assert VotedFor(s, v, t, a) && VotedFor(s, v, t, b);
  }

  // ---- What a handler may do, as far as elections go ----

  /** The voters a server counts after a handler: those it counted before, or repliers that voted for it. */
  ghost predicate NewCounts(s: System, i: nat, new_: Node)
    requires i < |s.nodes|
  {
    forall v :: v in Granted(new_) ==>
      || (s.nodes[i].role == Candidate && s.nodes[i].term == new_.term && v in Granted(s.nodes[i]))
      || VoteReply(v, i, new_.term, true) in s.msgs
      || (v == i && new_.votedFor == i && new_.term > s.nodes[i].term)
  }

  ghost predicate ElectionStep(s: System, i: nat, out: Out)
    requires i < |s.nodes|
  {
    var nd, new_ := s.nodes[i], out.node;
    && Shape(new_, i, |s.nodes|)
    && new_.term >= nd.term
    && (new_.term == nd.term ==> new_.votedFor == nd.votedFor || nd.votedFor == NOBODY)
    && (new_.role == Candidate ==>
          && NewCounts(s, i, new_)
          && (new_.term > nd.term || (nd.role == Candidate && new_.term == nd.term)))
    && (new_.role == Leader ==>
          || (nd.role == Leader && new_.term == nd.term)
          || (nd.role == Candidate && new_.term == nd.term && NewCounts(s, i, new_) && 2 * |Granted(new_)| > |s.nodes|))
    && (forall m :: m in out.sends ==> SendOk(i, new_, m))
  }

  predicate SendOk(i: nat, new_: Node, m: Msg)
  {
    && m.from == i
    && (m.RequestVote? ==> m.candidate == i)
    && (m.VoteReply? && m.granted ==> m.term == new_.term && new_.votedFor == m.to)
  }

  // ---- Such a handler keeps the invariant ----

  /** Recorded votes are never changed, only added to. */
  lemma VotesGrow(s: System, i: nat, out: Out)
    requires VotesKept(s) && i < |s.nodes| && ElectionStep(s, i, out)
    ensures forall v: nat, t: nat, c: int :: VotedFor(s, v, t, c) ==> VotedFor(Record(s, i, out), v, t, c)
    ensures out.node.votedFor >= 0 ==> VotedFor(Record(s, i, out), i, out.node.term, out.node.votedFor)
  {
    var s' := Record(s, i, out);
    forall v: nat, t: nat, c: int | VotedFor(s, v, t, c) ensures VotedFor(s', v, t, c) {
      if v == i && t == out.node.term && out.node.votedFor >= 0 {
        assert t <= s.nodes[i].term;
      }
    }
  }

  lemma KeepVotes(s: System, i: nat, out: Out)
    requires VotesKept(s) && i < |s.nodes| && ElectionStep(s, i, out)
    ensures VotesKept(Record(s, i, out))
  {
    hide Shape, Granted, NewCounts, SendOk;
    VotesGrow(s, i, out);
    var s' := Record(s, i, out);
    forall j: nat, t: nat | (j, t) in s'.votes
      ensures j < |s'.nodes| && t <= s'.nodes[j].term && s'.votes[(j, t)] >= 0
      ensures t == s'.nodes[j].term ==> s'.nodes[j].votedFor == s'.votes[(j, t)]
    {
      if !(j == i && t == out.node.term && out.node.votedFor >= 0) {
        assert (j, t) in s.votes;
      }
    }
    forall j | 0 <= j < |s'.nodes| && s'.nodes[j].votedFor >= 0
      ensures VotedFor(s', j, s'.nodes[j].term, s'.nodes[j].votedFor)
    {
      if j != i { assert VotedFor(s, j, s.nodes[j].term, s.nodes[j].votedFor); }
    }
  }

  lemma KeepMessages(s: System, i: nat, out: Out)
    requires VotesKept(s) && MessagesTrue(s) && i < |s.nodes| && ElectionStep(s, i, out)
    ensures MessagesTrue(Record(s, i, out))
  {
    VotesGrow(s, i, out);
    hide Shape, Granted, NewCounts, VotesKept, VotedFor;
    var s' := Record(s, i, out);
    forall m | m in s'.msgs ensures MessageTrue(s', m) {
      if m in s.msgs { assert MessageTrue(s, m); } else { assert SendOk(i, out.node, m); }
    }
  }

  /** Everyone a server newly counts has its vote for this term on record. */
  lemma NewCountsTrue(s: System, i: nat, out: Out, v: nat)
    requires VotesKept(s) && MessagesTrue(s) && CountsTrue(s) && i < |s.nodes| && ElectionStep(s, i, out)
    requires NewCounts(s, i, out.node) && v in Granted(out.node)
    ensures VotedFor(Record(s, i, out), v, out.node.term, i)
  {
    VotesGrow(s, i, out);
    hide Shape, VotesKept, Record;
    var r := VoteReply(v, i, out.node.term, true);
    if r in s.msgs {
      assert MessageTrue(s, r);
      assert VotedFor(s, v, out.node.term, i);
    } else if s.nodes[i].role == Candidate && s.nodes[i].term == out.node.term && v in Granted(s.nodes[i]) {
      assert VotedFor(s, v, s.nodes[i].term, i);
    }
  }

  lemma KeepCounts(s: System, i: nat, out: Out)
    requires VotesKept(s) && MessagesTrue(s) && CountsTrue(s) && i < |s.nodes| && ElectionStep(s, i, out)
    ensures CountsTrue(Record(s, i, out))
  {
    var s' := Record(s, i, out);
    VotesGrow(s, i, out);
    forall j, v | 0 <= j < |s'.nodes| && s'.nodes[j].role == Candidate && v in Granted(s'.nodes[j])
      ensures VotedFor(s', v, s'.nodes[j].term, j)
    {
      if j == i {
        NewCountsTrue(s, i, out, v);
      } else {
        assert s'.nodes[j] == s.nodes[j];
        assert VotedFor(s, v, s.nodes[j].term, j);
      }
    }
  }

  lemma MajorityKept(s: System, i: nat, out: Out, t: nat, j: nat, q: set<nat>)
    requires VotesKept(s) && i < |s.nodes| && ElectionStep(s, i, out) && Majority(s, t, j, q)
    ensures Majority(Record(s, i, out), t, j, q)
  {
    VotesGrow(s, i, out);
    hide VotesKept, ElectionStep, VotedFor;
  }

  /** A new leader's count is a majority that voted for it. */
  lemma NewWin(s: System, i: nat, out: Out)
    requires VotesKept(s) && MessagesTrue(s) && CountsTrue(s) && i < |s.nodes| && ElectionStep(s, i, out)
    requires out.node.role == Leader && !(s.nodes[i].role == Leader && s.nodes[i].term == out.node.term)
    ensures Majority(Record(s, i, out), out.node.term, i, Granted(out.node))
  {
    forall v | v in Granted(out.node) ensures VotedFor(Record(s, i, out), v, out.node.term, i) {
      NewCountsTrue(s, i, out, v);
    }
  }

  lemma KeepWins(s: System, i: nat, out: Out)
    requires ElectionInv(s) && i < |s.nodes| && ElectionStep(s, i, out)
    ensures WinsTrue(Record(s, i, out))
  {
    hide Granted, NewCounts, SendOk, Majority, VotesKept, MessagesTrue, CountsTrue;
    var s' := Record(s, i, out);
    forall t: nat, j: nat | Elected(s', t, j)
      ensures j < |s'.nodes| && 1 <= t <= s'.nodes[j].term && Majority(s', t, j, s'.wins[(t, j)])
    {
      if j == i && t == out.node.term && out.node.role == Leader && !(s.nodes[i].role == Leader && s.nodes[i].term == t) {
        NewWin(s, i, out);
      } else {
        assert Elected(s, t, j);
        MajorityKept(s, i, out, t, j, s.wins[(t, j)]);
      }
    }
    forall j | 0 <= j < |s'.nodes| && s'.nodes[j].role == Leader ensures Elected(s', s'.nodes[j].term, j) {
      if j != i { assert Elected(s, s.nodes[j].term, j); }
    }
    forall j | 0 <= j < |s'.nodes| && s'.nodes[j].role == Candidate ensures !Elected(s', s'.nodes[j].term, j) {
      assert Elected(s', s'.nodes[j].term, j) ==> Elected(s, s'.nodes[j].term, j);
    }
  }

  lemma KeepShapes(s: System, i: nat, out: Out)
    requires Shapes(s) && i < |s.nodes| && ElectionStep(s, i, out)
    ensures Shapes(Record(s, i, out))
  {
  }

  lemma ElectionPreserved(s: System, i: nat, out: Out)
    requires ElectionInv(s) && i < |s.nodes| && ElectionStep(s, i, out)
    ensures ElectionInv(Record(s, i, out))
  {
    hide Shapes, VotesKept, MessagesTrue, CountsTrue, WinsTrue, ElectionStep;
    KeepShapes(s, i, out);
    KeepVotes(s, i, out);
    KeepMessages(s, i, out);
    KeepCounts(s, i, out);
    KeepWins(s, i, out);
  }
}
