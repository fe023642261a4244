/**
 Consistent hashing: where a key's walk around the ring leads, and how little of it changes when a
 node joins or leaves.
 */
module HashRing {

  type NodeId = nat

  const RING_SIZE: nat := 0x1_0000_0000_0000_0000

  /** A virtual node: a position on the ring and the node it belongs to. */
  datatype VNode = VNode(hash: nat, node: NodeId)

  ghost predicate Sorted(vs: seq<VNode>)
  {
    forall i, j :: 0 <= i < j < |vs| ==> vs[i].hash <= vs[j].hash
  }

  /** Sorting leaves the order among equal hashes open. */
  ghost predicate SortOf(vs: seq<VNode>, r: seq<VNode>)
  {
    Sorted(r) && multiset(r) == multiset(vs)
  }

  /** The first position whose hash is at least `h`; `|vs|` when there is none. */
  function Start(vs: seq<VNode>, h: nat): (r: nat)
    ensures r <= |vs|
    ensures forall i :: 0 <= i < r ==> vs[i].hash < h
    ensures r < |vs| ==> vs[r].hash >= h
  {
    if vs == [] || vs[0].hash >= h then 0 else 1 + Start(vs[1..], h)
  }

  /** All virtual nodes in clockwise order from `h`. */
  function Walk(vs: seq<VNode>, h: nat): seq<VNode>
  {
    vs[Start(vs, h)..] + vs[..Start(vs, h)]
  }

  function NodesOf(vs: seq<VNode>): (r: seq<NodeId>)
    ensures |r| == |vs| && forall i :: 0 <= i < |vs| ==> r[i] == vs[i].node
  {
    if vs == [] then [] else [vs[0].node] + NodesOf(vs[1..])
  }

  /** First occurrences, in order. */
  function Firsts(s: seq<NodeId>): seq<NodeId>
  {
    if s == [] then []
    else
      var p := Firsts(s[..|s| - 1]);
      if s[|s| - 1] in p then p else p + [s[|s| - 1]]
  }

  /** Nodes in the order in which the walk from `h` first meets them. */
  function Preference(vs: seq<VNode>, h: nat): seq<NodeId>
  {
    Firsts(NodesOf(Walk(vs, h)))
  }

  function Without(s: seq<NodeId>, n: NodeId): (r: seq<NodeId>)
    ensures n !in r
  {
    if s == [] then [] else Without(s[..|s| - 1], n) + if s[|s| - 1] == n then [] else [s[|s| - 1]]
  }

  function Removed(vs: seq<VNode>, n: NodeId): (r: seq<VNode>)
    ensures |r| <= |vs|
  {
    if vs == [] then [] else Removed(vs[..|vs| - 1], n) + if vs[|vs| - 1].node == n then [] else [vs[|vs| - 1]]
  }

  // ---- The walk, by clockwise distance ----

  /** Clockwise distance from `h` to `x`. */
  function Distance(h: nat, x: nat): (d: nat)
    requires h < RING_SIZE && x < RING_SIZE
  {
    if x >= h then x - h else x + RING_SIZE - h
  }

  lemma {:induction false} StartSplits(vs: seq<VNode>, h: nat)
    requires Sorted(vs)
    ensures forall i :: Start(vs, h) <= i < |vs| ==> vs[i].hash >= h
  {
  }

  lemma WalkAt(vs: seq<VNode>, h: nat, x: nat)
    requires x < |vs|
    ensures var s := Start(vs, h);
            |Walk(vs, h)| == |vs| && Walk(vs, h)[x] == if x < |vs| - s then vs[s + x] else vs[x - (|vs| - s)]
  {
  }

  /** The walk visits virtual nodes by increasing clockwise distance. */
  lemma WalkByDistance(vs: seq<VNode>, h: nat, i: nat, j: nat)
    requires Sorted(vs) && h < RING_SIZE && (forall x: nat :: x < |vs| ==> vs[x].hash < RING_SIZE) && i < j < |vs|
    ensures |Walk(vs, h)| == |vs| && Walk(vs, h)[i].hash < RING_SIZE && Walk(vs, h)[j].hash < RING_SIZE
    ensures Distance(h, Walk(vs, h)[i].hash) <= Distance(h, Walk(vs, h)[j].hash)
  {
    hide Walk;
    StartSplits(vs, h);
    WalkAt(vs, h, i);
    WalkAt(vs, h, j);
  }

  // ---- Leaving: the preference list loses that node and nothing else changes ----

  lemma {:induction false} RemovedConcat(a: seq<VNode>, b: seq<VNode>, n: NodeId)
    ensures Removed(a + b, n) == Removed(a, n) + Removed(b, n)
    decreases |b|
  {
    if b == [] {
      assert a + b == a;
    } else {
      RemovedConcat(a, b[..|b| - 1], n);
      assert (a + b)[..|a + b| - 1] == a + b[..|b| - 1];
    }
  }

  lemma {:induction false} RemovedMembers(vs: seq<VNode>, n: NodeId)
    ensures forall v :: v in Removed(vs, n) <==> v in vs && v.node != n
    decreases |vs|
  {
    if vs != [] {
      RemovedMembers(vs[..|vs| - 1], n);
      assert vs == vs[..|vs| - 1] + [vs[|vs| - 1]];
    }
  }

  lemma {:induction false} StartAt(a: seq<VNode>, b: seq<VNode>, h: nat)
    requires (forall v :: v in a ==> v.hash < h) && (forall v :: v in b ==> v.hash >= h)
    ensures Start(a + b, h) == |a|
  {
    var s := Start(a + b, h);
    assert forall i :: 0 <= i < |a| ==> (a + b)[i] == a[i];
    assert b != [] ==> (a + b)[|a|] == b[0];
  }

  lemma RemovedWalk(vs: seq<VNode>, n: NodeId, h: nat)
    requires Sorted(vs)
    ensures Walk(Removed(vs, n), h) == Removed(Walk(vs, h), n)
  {
    var s := Start(vs, h);
    var a, b := vs[..s], vs[s..];
    StartSplits(vs, h);
    assert vs == a + b;
    RemovedConcat(a, b, n);
    RemovedConcat(b, a, n);
    RemovedMembers(a, n);
    RemovedMembers(b, n);
    StartAt(Removed(a, n), Removed(b, n), h);
    var ra, rb := Removed(a, n), Removed(b, n);
    assert (ra + rb)[|ra|..] == rb && (ra + rb)[..|ra|] == ra;
  }

  lemma {:induction false} NodesOfSnoc(vs: seq<VNode>, v: VNode)
    ensures NodesOf(vs + [v]) == NodesOf(vs) + [v.node]
  {
  }

  lemma {:induction false} NodesOfRemoved(vs: seq<VNode>, n: NodeId)
    ensures NodesOf(Removed(vs, n)) == Without(NodesOf(vs), n)
    decreases |vs|
  {
    hide NodesOf, Removed, Without;
    if vs == [] {
      NothingRemoved(n);
    } else {
      var front, last := vs[..|vs| - 1], vs[|vs| - 1];
      NodesOfRemoved(front, n);
      NodesOfRemovedSnoc(front, last, n);
      assert vs == front + [last];
    }
  }

  lemma NothingRemoved(n: NodeId)
    ensures NodesOf(Removed([], n)) == [] == Without(NodesOf([]), n)
  {
  }

  lemma RemovedSnoc(vs: seq<VNode>, v: VNode, n: NodeId)
    ensures Removed(vs + [v], n) == if v.node == n then Removed(vs, n) else Removed(vs, n) + [v]
  {
    assert (vs + [v])[..|vs|] == vs;
  }

  lemma NodesOfRemovedSnoc(vs: seq<VNode>, v: VNode, n: NodeId)
    requires NodesOf(Removed(vs, n)) == Without(NodesOf(vs), n)
    ensures NodesOf(Removed(vs + [v], n)) == Without(NodesOf(vs + [v]), n)
  {
    hide NodesOf, Removed, Without;
    NodesOfSnoc(vs, v);
    RemovedSnoc(vs, v, n);
    WithoutSnoc(NodesOf(vs), v.node, n);
    if v.node == n {
      assert Without(NodesOf(vs), n) + [] == Without(NodesOf(vs), n);
    } else {
      NodesOfSnoc(Removed(vs, n), v);
    }
  }

  lemma {:induction false} FirstsMembers(s: seq<NodeId>)
    ensures forall x :: x in Firsts(s) <==> x in s
    decreases |s|
  {
    if s != [] {
      FirstsMembers(s[..|s| - 1]);
      assert s == s[..|s| - 1] + [s[|s| - 1]];
    }
  }

  lemma WithoutSnoc(s: seq<NodeId>, x: NodeId, n: NodeId)
    ensures Without(s + [x], n) == Without(s, n) + if x == n then [] else [x]
  {
    assert (s + [x])[..|s|] == s;
  }

  lemma FirstsSnoc(s: seq<NodeId>, x: NodeId)
    ensures Firsts(s + [x]) == if x in Firsts(s) then Firsts(s) else Firsts(s) + [x]
  {
    assert (s + [x])[..|s|] == s;
  }

  lemma {:induction false} WithoutMembers(s: seq<NodeId>, n: NodeId)
    ensures forall x :: x in Without(s, n) <==> x in s && x != n
    decreases |s|
  {
    if s != [] {
      WithoutMembers(s[..|s| - 1], n);
      assert s == s[..|s| - 1] + [s[|s| - 1]];
    }
  }

  lemma {:induction false} FirstsWithout(s: seq<NodeId>, n: NodeId)
    ensures Firsts(Without(s, n)) == Without(Firsts(s), n)
    decreases |s|
  {
    hide Firsts, Without;
    if s == [] {
      FirstsWithoutNone(n);
    } else {
      FirstsWithout(s[..|s| - 1], n);
      FirstsWithoutSnoc(s[..|s| - 1], s[|s| - 1], n);
      assert s == s[..|s| - 1] + [s[|s| - 1]];
    }
  }

  lemma FirstsWithoutNone(n: NodeId)
    ensures Firsts(Without([], n)) == [] == Without(Firsts([]), n)
  {
  }

  lemma FirstsWithoutSnoc(s: seq<NodeId>, x: NodeId, n: NodeId)
    requires Firsts(Without(s, n)) == Without(Firsts(s), n)
    ensures Firsts(Without(s + [x], n)) == Without(Firsts(s + [x]), n)
  {
    hide Firsts, Without;
    WithoutSnoc(s, x, n);
    FirstsSnoc(s, x);
    WithoutMembers(Firsts(s), n);
    if x == n { assert Without(s, n) + [] == Without(s, n); }
    if x !in Firsts(s) {
      WithoutSnoc(Firsts(s), x, n);
      if x == n { assert Without(Firsts(s), n) + [] == Without(Firsts(s), n); }
    }
    if x != n { FirstsSnoc(Without(s, n), x); }
  }

  /** Removing a node deletes it from every key's preference list, and changes nothing else. */
  lemma RemoveMovesOnlyItsKeys(vs: seq<VNode>, n: NodeId, h: nat)
    requires Sorted(vs)
    ensures Preference(Removed(vs, n), h) == Without(Preference(vs, h), n)
  {
    RemovedWalk(vs, n, h);
    NodesOfRemoved(Walk(vs, h), n);
    FirstsWithout(NodesOf(Walk(vs, h)), n);
  }

  // ---- Joining ----

  /** Virtual nodes at the same position belong to the same node. */
  ghost predicate TiesShareNode(vs: seq<VNode>)
  {
    forall i, j :: 0 <= i < j < |vs| && vs[i].hash == vs[j].hash ==> vs[i].node == vs[j].node
  }

  lemma InBoth(s: seq<VNode>, t: seq<VNode>, v: VNode) returns (i: nat)
    requires multiset(s) == multiset(t) && v in s
    ensures i < |t| && t[i] == v
  {
    assert v in multiset(t);
    i :| i < |t| && t[i] == v;
  }

  lemma HeadsAgree(s: seq<VNode>, t: seq<VNode>)
    requires Sorted(s) && Sorted(t) && multiset(s) == multiset(t) && TiesShareNode(s) && s != []
    ensures t != [] && s[0] == t[0]
  {
    var i := InBoth(s, t, s[0]);
    var j := InBoth(t, s, t[0]);
  }

  lemma TailsAgree(s: seq<VNode>, t: seq<VNode>)
    requires multiset(s) == multiset(t) && s != [] && t != [] && s[0] == t[0]
    ensures multiset(s[1..]) == multiset(t[1..])
  {
    assert s == [s[0]] + s[1..] && t == [t[0]] + t[1..];
    assert multiset(s[1..]) == multiset(s) - multiset{s[0]};
    assert multiset(t[1..]) == multiset(t) - multiset{t[0]};
  }

  /** Without conflicting ties there is only one sorted order. */
  lemma {:induction false} SortUnique(s: seq<VNode>, t: seq<VNode>)
    requires Sorted(s) && Sorted(t) && multiset(s) == multiset(t) && TiesShareNode(s)
    ensures s == t
    decreases |s|
  {
    if s == [] {
      assert |multiset(t)| == 0;
    } else {
      HeadsAgree(s, t);
      TailsAgree(s, t);
      SortUnique(s[1..], t[1..]);
      assert s == [s[0]] + s[1..] && t == [t[0]] + t[1..];
    }
  }

  lemma {:induction false} RemovedCounts(vs: seq<VNode>, n: NodeId, v: VNode)
    ensures multiset(Removed(vs, n))[v] == if v.node == n then 0 else multiset(vs)[v]
    decreases |vs|
  {
    if vs != [] {
      RemovedCounts(vs[..|vs| - 1], n, v);
      assert vs == vs[..|vs| - 1] + [vs[|vs| - 1]];
    }
  }

  lemma {:induction false} RemovedSorted(vs: seq<VNode>, n: NodeId)
    requires Sorted(vs)
    ensures Sorted(Removed(vs, n))
    decreases |vs|
  {
    if vs != [] {
      RemovedSorted(vs[..|vs| - 1], n);
      RemovedMembers(vs[..|vs| - 1], n);
      forall v | v in Removed(vs[..|vs| - 1], n) ensures v.hash <= vs[|vs| - 1].hash {
        var i :| 0 <= i < |vs| - 1 && vs[i] == v;
      }
    }
  }

  /** The virtual nodes of the joining node `n`, and only them, are new. */
  ghost predicate Joins(vs: seq<VNode>, n: NodeId, added: seq<VNode>, vs': seq<VNode>)
  {
    && (forall v :: v in vs ==> v.node != n)
    && (forall v :: v in added ==> v.node == n)
    && SortOf(vs + added, vs')
  }

  /** Whatever order sorting chose, taking the joined node out again leaves a sort of the old ring. */
  lemma JoinThenLeave(vs: seq<VNode>, n: NodeId, added: seq<VNode>, vs': seq<VNode>)
    requires Joins(vs, n, added, vs')
    ensures SortOf(vs, Removed(vs', n))
  {
    RemovedSorted(vs', n);
    forall v ensures multiset(Removed(vs', n))[v] == multiset(vs)[v] {
      RemovedCounts(vs', n, v);
      assert multiset(vs')[v] == multiset(vs)[v] + multiset(added)[v];
      if v.node == n { assert v !in vs; } else { assert v !in added; }
    }
  }

  /** A joining node is only ever inserted into preference lists. */
  lemma JoinOnlyInserts(vs: seq<VNode>, n: NodeId, added: seq<VNode>, vs': seq<VNode>, h: nat)
    requires Sorted(vs) && TiesShareNode(vs) && Joins(vs, n, added, vs')
    ensures Without(Preference(vs', h), n) == Preference(vs, h)
  {
    JoinThenLeave(vs, n, added, vs');
    SortUnique(vs, Removed(vs', n));
    RemoveMovesOnlyItsKeys(vs', n, h);
  }

  // ---- The primary ----

  /** The node that owns position `h`; 0 on an empty ring. */
  function Primary(vs: seq<VNode>, h: nat): NodeId
  {
    if vs == [] then 0 else Walk(vs, h)[0].node
  }

  lemma {:induction false} FirstsHead(s: seq<NodeId>)
    requires s != []
    ensures Firsts(s) != [] && Firsts(s)[0] == s[0]
    decreases |s|
  {
    if |s| > 1 { FirstsHead(s[..|s| - 1]); }
  }

  lemma PrimaryIsPreferred(vs: seq<VNode>, h: nat)
    requires vs != []
    ensures Preference(vs, h) != [] && Preference(vs, h)[0] == Primary(vs, h)
  {
    FirstsHead(NodesOf(Walk(vs, h)));
  }

  lemma {:induction false} WithoutHead(s: seq<NodeId>, n: NodeId)
    requires s != [] && s[0] != n
    ensures Without(s, n) != [] && Without(s, n)[0] == s[0]
    decreases |s|
  {
    if |s| > 1 { WithoutHead(s[..|s| - 1], n); }
  }

  /** No key changes owner except to the node that joined. */
  ghost predicate MovesOnlyTo(vs: seq<VNode>, n: NodeId, vs': seq<VNode>)
  {
    forall h: nat :: Primary(vs', h) == Primary(vs, h) || Primary(vs', h) == n
  }

  lemma JoinMovesOnlyToNew(vs: seq<VNode>, n: NodeId, added: seq<VNode>, vs': seq<VNode>)
    requires Sorted(vs) && TiesShareNode(vs) && Joins(vs, n, added, vs')
    ensures MovesOnlyTo(vs, n, vs')
  {
    forall h: nat ensures Primary(vs', h) == Primary(vs, h) || Primary(vs', h) == n {
      JoinOnlyInserts(vs, n, added, vs', h);
      if vs' != [] {
        PrimaryIsPreferred(vs', h);
        if Primary(vs', h) != n {
          WithoutHead(Preference(vs', h), n);
          if vs != [] { PrimaryIsPreferred(vs, h); }
        }
      } else {
        assert |multiset(vs')| == |vs + added|;
      }
    }
  }

  /** Removing a node moves only the keys it owned. */
  lemma LeaveMovesOnlyItsKeys(vs: seq<VNode>, n: NodeId, h: nat)
    requires Sorted(vs) && vs != [] && Primary(vs, h) != n
    ensures Primary(Removed(vs, n), h) == Primary(vs, h)
  {
    RemoveMovesOnlyItsKeys(vs, n, h);
    PrimaryIsPreferred(vs, h);
    WithoutHead(Preference(vs, h), n);
    RemovedMembers(vs, n);
    assert Walk(vs, h)[0] in vs;
    PrimaryIsPreferred(Removed(vs, n), h);
  }

  // ---- Sorting ----

  function Insert(s: seq<VNode>, v: VNode): (r: seq<VNode>)
    requires Sorted(s)
    ensures Sorted(r) && multiset(r) == multiset(s) + multiset{v}
  {
    if s == [] || v.hash <= s[0].hash then
      [v] + s
    else
      var t := Insert(s[1..], v);
      InsertStep(s, v, t);
      [s[0]] + t
  }

  lemma InsertStep(s: seq<VNode>, v: VNode, t: seq<VNode>)
    requires Sorted(s) && s != [] && s[0].hash <= v.hash && Sorted(t) && multiset(t) == multiset(s[1..]) + multiset{v}
    ensures Sorted([s[0]] + t) && multiset([s[0]] + t) == multiset(s) + multiset{v}
  {
    assert s == [s[0]] + s[1..];
    forall i | 0 <= i < |t| ensures s[0].hash <= t[i].hash {
      assert t[i] in multiset(t);
      assert t[i] == v || t[i] in s[1..];
    }
  }

  function Sort(s: seq<VNode>): (r: seq<VNode>)
    ensures SortOf(s, r)
  {
    if s == [] then [] else
      assert s == [s[0]] + s[1..];
      Insert(Sort(s[1..]), s[0])
  }

  /** Sorting and searching look at hashes only. */
  lemma SameHashes(t: seq<VNode>, r: seq<VNode>, h: nat)
    requires Sorted(t) && |r| == |t| && forall x: nat :: x < |t| ==> r[x].hash == t[x].hash
    ensures Sorted(r) && Start(r, h) == Start(t, h)
  {
    StartSplits(t, h);
    var s := Start(r, h);
  }

  /** The element at `q` can stand first among those with its hash. */
  lemma Promote(t: seq<VNode>, q: nat) returns (r: seq<VNode>)
    requires Sorted(t) && q < |t|
    ensures SortOf(t, r) && Primary(r, t[q].hash) == t[q].node
  {
    var h := t[q].hash;
    var p := Start(t, h);
    StartSplits(t, h);
    r := t[p := t[q]][q := t[p]];
    SameHashes(t, r, h);
  }

  /** Movement is minimal, whatever order sorting picks among ties, exactly when the old ties share a node. */
  lemma MinimalMovementExactly(vs: seq<VNode>, n: NodeId, added: seq<VNode>)
    requires Sorted(vs) && (forall v :: v in vs ==> v.node != n) && (forall v :: v in added ==> v.node == n)
    ensures TiesShareNode(vs) <==> forall vs' :: Joins(vs, n, added, vs') ==> MovesOnlyTo(vs, n, vs')
  {
    if TiesShareNode(vs) {
      forall vs' | Joins(vs, n, added, vs') ensures MovesOnlyTo(vs, n, vs') { JoinMovesOnlyToNew(vs, n, added, vs'); }
    } else {
      var vs' := ConflictingTie(vs, n, added);
    }
  }

  lemma ConflictingTie(vs: seq<VNode>, n: NodeId, added: seq<VNode>) returns (vs': seq<VNode>)
    requires Sorted(vs) && (forall v :: v in vs ==> v.node != n) && (forall v :: v in added ==> v.node == n)
    requires !TiesShareNode(vs)
    ensures Joins(vs, n, added, vs') && !MovesOnlyTo(vs, n, vs')
  {
    var i, j :| 0 <= i < j < |vs| && vs[i].hash == vs[j].hash && vs[i].node != vs[j].node;
    var h := vs[i].hash;
    var m := if Primary(vs, h) == vs[i].node then vs[j] else vs[i];
    var t := Sort(vs + added);
    assert m in vs + added;
    var q := InBoth(vs + added, t, m);
    vs' := Promote(t, q);
    assert Primary(vs', h) == m.node;
  }
}
