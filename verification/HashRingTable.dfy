/**
 The hash ring object: sorted virtual nodes and the list of nodes, searched and compacted in place.
 */
module HashRingTable {
  import opened HashRing
  import opened Bytes

  const DEFAULT_VIRTUAL_NODES: nat := 150
  const MIN_REPLICATION: nat := 1
  const MAX_REPLICATION: nat := 7

  datatype Status = Ok | Exists | NotFound

  ghost predicate Distinct(s: seq<NodeId>)
  {
    forall i, j :: 0 <= i < j < |s| ==> s[i] != s[j]
  }

  lemma {:induction false} FirstsDistinct(s: seq<NodeId>)
    ensures Distinct(Firsts(s))
    decreases |s|
  {
    if s != [] { FirstsDistinct(s[..|s| - 1]); }
  }

  function Members(s: seq<NodeId>): set<NodeId>
  {
    set x | x in s
  }

  lemma {:induction false} DistinctSize(s: seq<NodeId>)
    requires Distinct(s)
    ensures |Members(s)| == |s|
    decreases |s|
  {
    if s != [] {
      var front, x := s[..|s| - 1], s[|s| - 1];
      DistinctFront(s);
      DistinctSize(front);
      MembersSnoc(front, x);
      assert s == front + [x];
    }
  }

  lemma DistinctFront(s: seq<NodeId>)
    requires Distinct(s) && s != []
    ensures Distinct(s[..|s| - 1]) && s[|s| - 1] !in s[..|s| - 1]
  {
  }

  lemma MembersSnoc(s: seq<NodeId>, x: NodeId)
    ensures Members(s + [x]) == Members(s) + {x}
  {
  }

  /** Equal members and no repetition: equal length. */
  lemma SameSize(s: seq<NodeId>, t: seq<NodeId>)
    requires Distinct(s) && Distinct(t) && forall x :: x in s <==> x in t
    ensures |s| == |t|
  {
    DistinctSize(s);
    DistinctSize(t);
    assert Members(s) == Members(t);
  }

  predicate HasVNode(vs: seq<VNode>, n: NodeId)
  {
    exists v :: v in vs && v.node == n
  }

  /** Every node of the ring appears exactly once in every key's preference list. */
  lemma PreferenceIsAllNodes(vs: seq<VNode>, h: nat)
    ensures Distinct(Preference(vs, h))
    ensures forall n :: n in Preference(vs, h) <==> HasVNode(vs, n)
  {
    var w := Walk(vs, h);
    FirstsDistinct(NodesOf(w));
    FirstsMembers(NodesOf(w));
    assert vs == vs[..Start(vs, h)] + vs[Start(vs, h)..];
    forall n ensures n in NodesOf(w) <==> HasVNode(vs, n) {
      if n in NodesOf(w) {
        var i :| 0 <= i < |w| && NodesOf(w)[i] == n;
        assert w[i] in vs;
      }
      if v :| v in vs && v.node == n {
        assert v in w;
        var i :| 0 <= i < |w| && w[i] == v;
        assert NodesOf(w)[i] == n;
      }
    }
  }

  /** The virtual nodes of one node. */
  function VNodesOf(n: NodeId, hash: (NodeId, nat) -> nat, k: nat): (r: seq<VNode>)
    ensures |r| == k && forall v :: v in r ==> v.node == n
  {
    if k == 0 then [] else VNodesOf(n, hash, k - 1) + [VNode(hash(n, k - 1), n)]
  }

  /** Replica `i` of a node sits at the hash of node and replica number. */
  lemma {:induction false} VNodesPlaced(n: NodeId, hash: (NodeId, nat) -> nat, k: nat, i: nat)
    requires i < k
    ensures VNodesOf(n, hash, k)[i] == VNode(hash(n, i), n)
  {
    if i < k - 1 { VNodesPlaced(n, hash, k - 1, i); }
  }

  function AllVNodes(nodes: seq<NodeId>, hash: (NodeId, nat) -> nat, k: nat): seq<VNode>
  {
    if nodes == [] then [] else AllVNodes(nodes[..|nodes| - 1], hash, k) + VNodesOf(nodes[|nodes| - 1], hash, k)
  }

  lemma {:induction false} AllVNodesMembers(nodes: seq<NodeId>, hash: (NodeId, nat) -> nat, k: nat)
    requires k > 0
    ensures forall n :: n in nodes <==> HasVNode(AllVNodes(nodes, hash, k), n)
    decreases |nodes|
  {
    if nodes != [] {
      var front, x := nodes[..|nodes| - 1], nodes[|nodes| - 1];
      AllVNodesMembers(front, hash, k);
      var a, b := AllVNodes(front, hash, k), VNodesOf(x, hash, k);
      assert b[0] in a + b && b[0].node == x;
      forall n ensures n in nodes <==> HasVNode(a + b, n) {
        if n in front {
          var v :| v in a && v.node == n;
          assert v in a + b;
        }
        if HasVNode(a + b, n) {
          var v :| v in a + b && v.node == n;
          if v in a { assert HasVNode(a, n); } else { assert v in b; }
        }
      }
    }
  }

  lemma {:induction false} RemovedAll(vs: seq<VNode>, n: NodeId)
    requires forall v :: v in vs ==> v.node == n
    ensures Removed(vs, n) == []
    decreases |vs|
  {
    if vs != [] { RemovedAll(vs[..|vs| - 1], n); }
  }

  lemma {:induction false} RemovedNone(vs: seq<VNode>, n: NodeId)
    requires forall v :: v in vs ==> v.node != n
    ensures Removed(vs, n) == vs
    decreases |vs|
  {
    if vs != [] { RemovedNone(vs[..|vs| - 1], n); }
  }

  lemma AllVNodesSnoc(nodes: seq<NodeId>, x: NodeId, hash: (NodeId, nat) -> nat, k: nat)
    ensures AllVNodes(nodes + [x], hash, k) == AllVNodes(nodes, hash, k) + VNodesOf(x, hash, k)
  {
    assert (nodes + [x])[..|nodes|] == nodes;
  }

  lemma RemovedAllVNodesSnoc(nodes: seq<NodeId>, x: NodeId, n: NodeId, hash: (NodeId, nat) -> nat, k: nat)
    requires Removed(AllVNodes(nodes, hash, k), n) == AllVNodes(Without(nodes, n), hash, k)
    ensures Removed(AllVNodes(nodes + [x], hash, k), n) == AllVNodes(Without(nodes + [x], n), hash, k)
  {
    hide Removed, AllVNodes, Without, VNodesOf;
    AllVNodesSnoc(nodes, x, hash, k);
    WithoutSnoc(nodes, x, n);
    RemovedConcat(AllVNodes(nodes, hash, k), VNodesOf(x, hash, k), n);
    VNodesOwned(x, hash, k);
    if x == n {
      RemovedAll(VNodesOf(x, hash, k), n);
      assert Without(nodes, n) + [] == Without(nodes, n);
    } else {
      RemovedNone(VNodesOf(x, hash, k), n);
      AllVNodesSnoc(Without(nodes, n), x, hash, k);
    }
  }

  lemma VNodesOwned(n: NodeId, hash: (NodeId, nat) -> nat, k: nat)
    ensures forall v :: v in VNodesOf(n, hash, k) ==> v.node == n
  {
  }

  lemma {:induction false} RemovedAllVNodes(nodes: seq<NodeId>, n: NodeId, hash: (NodeId, nat) -> nat, k: nat)
    ensures Removed(AllVNodes(nodes, hash, k), n) == AllVNodes(Without(nodes, n), hash, k)
    decreases |nodes|
  {
    hide AllVNodes, Removed, Without;
    if nodes == [] {
      RemovedFromNone(n, hash, k);
    } else {
      var front, x := nodes[..|nodes| - 1], nodes[|nodes| - 1];
      RemovedAllVNodes(front, n, hash, k);
      RemovedAllVNodesSnoc(front, x, n, hash, k);
      assert nodes == front + [x];
    }
  }

  lemma RemovedFromNone(n: NodeId, hash: (NodeId, nat) -> nat, k: nat)
    ensures Removed(AllVNodes([], hash, k), n) == [] == AllVNodes(Without([], n), hash, k)
  {
  }

  lemma RemovedPermutes(vs: seq<VNode>, ws: seq<VNode>, n: NodeId)
    requires multiset(vs) == multiset(ws)
    ensures multiset(Removed(vs, n)) == multiset(Removed(ws, n))
  {
    forall v ensures multiset(Removed(vs, n))[v] == multiset(Removed(ws, n))[v] {
      RemovedCounts(vs, n, v);
      RemovedCounts(ws, n, v);
    }
  }

  lemma {:induction false} WithoutOne(s: seq<NodeId>, i: nat)
    requires Distinct(s) && i < |s|
    ensures Without(s, s[i]) == s[..i] + s[i + 1..]
    decreases |s|
  {
    var front, x := s[..|s| - 1], s[|s| - 1];
    if i < |front| {
      WithoutOne(front, i);
      assert s[i + 1..] == front[i + 1..] + [x];
    } else {
      WithoutNone(front, x);
    }
  }

  lemma {:induction false} WithoutNone(s: seq<NodeId>, n: NodeId)
    requires n !in s
    ensures Without(s, n) == s
    decreases |s|
  {
    if s != [] { WithoutNone(s[..|s| - 1], n); }
  }

  lemma {:induction false} WithoutDistinct(s: seq<NodeId>, n: NodeId)
    requires Distinct(s)
    ensures Distinct(Without(s, n))
    decreases |s|
  {
    if s != [] {
      var front := s[..|s| - 1];
      WithoutDistinct(front, n);
      WithoutMembers(front, n);
      assert forall x :: x in Without(front, n) ==> x in front;
      assert s[|s| - 1] !in front;
    }
  }

  function Min(a: int, b: int): (r: int)
    ensures r <= a && r <= b && (r == a || r == b)
  {
    if a < b then a else b
  }

  class Ring {
    const virtualNodes: nat
    const replication: nat
    const vnodeHash: (NodeId, nat) -> nat
    const keyHash: Bytes -> nat
    var vnodes: seq<VNode>
    var nodes: seq<NodeId>

    /** The ring is a sorted arrangement of exactly the virtual nodes of its nodes. */
    ghost predicate Valid()
      reads this
    {
      && virtualNodes > 0 && MIN_REPLICATION <= replication <= MAX_REPLICATION
      && Distinct(nodes)
      && SortOf(AllVNodes(nodes, vnodeHash, virtualNodes), vnodes)
    }

    constructor (virtualNodes: int, replication: int, vnodeHash: (NodeId, nat) -> nat, keyHash: Bytes -> nat)
      ensures Valid() && nodes == [] && vnodes == []
      ensures this.vnodeHash == vnodeHash && this.keyHash == keyHash
      ensures this.virtualNodes == if virtualNodes < 1 then DEFAULT_VIRTUAL_NODES else virtualNodes
      ensures this.replication == if replication < MIN_REPLICATION then MIN_REPLICATION
                                  else if replication > MAX_REPLICATION then MAX_REPLICATION else replication
    {
      this.virtualNodes := if virtualNodes < 1 then DEFAULT_VIRTUAL_NODES else virtualNodes;
      this.replication := if replication < MIN_REPLICATION then MIN_REPLICATION
      else if replication > MAX_REPLICATION then MAX_REPLICATION else replication;
      this.vnodeHash, this.keyHash := vnodeHash, keyHash;
      vnodes, nodes := [], [];
    }

    lemma NodesHaveVNodes()
      requires Valid()
      ensures forall n :: n in nodes <==> HasVNode(vnodes, n)
    {
      AllVNodesMembers(nodes, vnodeHash, virtualNodes);
      assert forall v :: v in vnodes <==> v in multiset(vnodes);
      assert forall v :: v in vnodes <==> v in AllVNodes(nodes, vnodeHash, virtualNodes);
    }

    method HasNode(n: NodeId) returns (b: bool)
      ensures b <==> n in nodes
    {
      for i := 0 to |nodes|
        invariant forall j :: 0 <= j < i ==> nodes[j] != n
      {
        if nodes[i] == n { return true; }
      }
      return false;
    }

    method AddNode(n: NodeId) returns (s: Status)
      requires Valid()
      modifies this
      ensures Valid()
      ensures s == if n in old(nodes) then Exists else Ok
      ensures s == Exists ==> vnodes == old(vnodes) && nodes == old(nodes)
      ensures s == Ok ==> nodes == old(nodes) + [n]
      ensures s == Ok ==> Joins(old(vnodes), n, VNodesOf(n, vnodeHash, virtualNodes), vnodes)
      ensures s == Ok && TiesShareNode(old(vnodes)) ==>
                forall h: nat :: Without(Preference(vnodes, h), n) == Preference(old(vnodes), h)
    {
      hide Preference, Without, AllVNodes, SortOf, Joins, VNodesOf, TiesShareNode;
      var has := HasNode(n);
      if has { return Exists; }
      NodesHaveVNodes();
      ghost var before := vnodes;
      nodes := nodes + [n];
      AppendVNodes(n);
      vnodes := Sort(vnodes);
      JoinKeeps(before, old(nodes), n, vnodes);
      return Ok;
    }

    method AppendVNodes(n: NodeId)
      modifies this`vnodes
      ensures vnodes == old(vnodes) + VNodesOf(n, vnodeHash, virtualNodes)
    {
      for i := 0 to virtualNodes
        invariant vnodes == old(vnodes) + VNodesOf(n, vnodeHash, i)
      {
        vnodes := vnodes + [VNode(vnodeHash(n, i), n)];
      }
    }

    lemma JoinKeeps(vs: seq<VNode>, ns: seq<NodeId>, n: NodeId, vs': seq<VNode>)
      requires SortOf(AllVNodes(ns, vnodeHash, virtualNodes), vs) && n !in ns && !HasVNode(vs, n)
      requires SortOf(vs + VNodesOf(n, vnodeHash, virtualNodes), vs')
      ensures SortOf(AllVNodes(ns + [n], vnodeHash, virtualNodes), vs')
      ensures Joins(vs, n, VNodesOf(n, vnodeHash, virtualNodes), vs')
      ensures TiesShareNode(vs) ==> forall h: nat :: Without(Preference(vs', h), n) == Preference(vs, h)
    {
      hide Preference, Without, AllVNodes, VNodesOf, TiesShareNode;
      var added := VNodesOf(n, vnodeHash, virtualNodes);
      VNodesOwned(n, vnodeHash, virtualNodes);
      AllVNodesSnoc(ns, n, vnodeHash, virtualNodes);
      assert multiset(AllVNodes(ns, vnodeHash, virtualNodes) + added) == multiset(vs + added);
      if TiesShareNode(vs) {
        forall h: nat ensures Without(Preference(vs', h), n) == Preference(vs, h) {
          JoinOnlyInserts(vs, n, added, vs', h);
        }
      }
    }

    method RemoveNode(n: NodeId) returns (s: Status)
      requires Valid()
      modifies this
      ensures Valid()
      ensures s == if n in old(nodes) then Ok else NotFound
      ensures s == NotFound ==> vnodes == old(vnodes) && nodes == old(nodes)
      ensures s == Ok ==> nodes == Without(old(nodes), n) && vnodes == Removed(old(vnodes), n)
      ensures s == Ok ==> forall h: nat :: Preference(vnodes, h) == Without(Preference(old(vnodes), h), n)
    {
      hide Preference;
      var found := -1;
      for i := 0 to |nodes|
        invariant found == -1 && forall j :: 0 <= j < i ==> nodes[j] != n
      {
        if nodes[i] == n { found := i; break; }
      }
      if found < 0 { return NotFound; }
      WithoutOne(nodes, found);
      WithoutDistinct(nodes, n);
      nodes := nodes[..found] + nodes[found + 1..];
      Compact(n);
      ghost var all := AllVNodes(old(nodes), vnodeHash, virtualNodes);
      RemovedPermutes(old(vnodes), all, n);
      RemovedAllVNodes(old(nodes), n, vnodeHash, virtualNodes);
      RemovedSorted(old(vnodes), n);
      forall h: nat ensures Preference(vnodes, h) == Without(Preference(old(vnodes), h), n) {
        RemoveMovesOnlyItsKeys(old(vnodes), n, h);
      }
      return Ok;
    }

    /** Shift the surviving virtual nodes to the front and cut the rest off. */
    method Compact(n: NodeId)
      modifies this`vnodes
      ensures vnodes == Removed(old(vnodes), n)
    {
      var write := 0;
      for i := 0 to |vnodes|
        invariant write <= i && |vnodes| == |old(vnodes)|
        invariant vnodes[..write] == Removed(old(vnodes)[..i], n)
        invariant vnodes[i..] == old(vnodes)[i..]
      {
        assert old(vnodes)[..i + 1][..i] == old(vnodes)[..i];
        assert vnodes[i] == vnodes[i..][0] == old(vnodes)[i];
        ghost var rest := vnodes[i..];
        if vnodes[i].node != n {
          if write != i { vnodes := vnodes[write := vnodes[i]]; }
          write := write + 1;
        }
        assert vnodes[i + 1..] == rest[1..];
      }
      assert old(vnodes)[..|vnodes|] == old(vnodes);
      vnodes := vnodes[..write];
    }

    /** Binary search for the first virtual node at or after `h`, wrapping at the end; -1 on an empty ring. */
    method FindVNode(h: nat) returns (idx: int)
      requires Valid()
      ensures idx == if vnodes == [] then -1 else if Start(vnodes, h) == |vnodes| then 0 else Start(vnodes, h)
    {
      if vnodes == [] { return -1; }
      var lo, hi := 0, |vnodes|;
      while lo < hi
        invariant 0 <= lo <= Start(vnodes, h) <= hi <= |vnodes|
      {
        var mid := lo + (hi - lo) / 2;
        StartSplits(vnodes, h);
        if vnodes[mid].hash < h { lo := mid + 1; } else { hi := mid; }
      }
      idx := if lo >= |vnodes| then 0 else lo;
    }

    method GetNode(key: Bytes) returns (n: NodeId)
      requires Valid()
      ensures n == Primary(vnodes, keyHash(key))
      ensures vnodes == [] ==> n == 0
      ensures vnodes != [] ==> n in nodes && n == Preference(vnodes, keyHash(key))[0]
    {
      if vnodes == [] { return 0; }
      var idx := FindVNode(keyHash(key));
      n := vnodes[idx].node;
      PrimaryIsPreferred(vnodes, keyHash(key));
      NodesHaveVNodes();
    }

    method Contains(s: seq<NodeId>, n: NodeId) returns (b: bool)
      ensures b <==> n in s
    {
      for j := 0 to |s|
        invariant forall i :: 0 <= i < j ==> s[i] != n
      {
        if s[j] == n { return true; }
      }
      return false;
    }

    /** The first distinct nodes met on the walk from the key's position. */
    method GetReplicas(key: Bytes, limit: int) returns (r: seq<NodeId>)
      requires Valid()
      ensures |r| == if limit <= 0 then 0 else Min(Min(replication, limit), |nodes|)
      ensures Distinct(r) && forall n :: n in r ==> n in nodes
      ensures |r| <= |Preference(vnodes, keyHash(key))| && r == Preference(vnodes, keyHash(key))[..|r|]
      ensures r != [] ==> r[0] == Primary(vnodes, keyHash(key))
    {
      hide Preference, Primary, AllVNodes, SortOf, HasVNode, Distinct;
      ghost var p := Preference(vnodes, keyHash(key));
      NodesHaveVNodes();
      PreferenceIsAllNodes(vnodes, keyHash(key));
      SameSize(nodes, p);
      r := [];
      if limit > 0 && vnodes != [] {
        PrimaryIsPreferred(vnodes, keyHash(key));
        var target: int := replication;
        if target > limit { target := limit; }
        if target > |nodes| { target := |nodes|; }
        r := WalkRing(keyHash(key), target);
      } else if vnodes == [] {
        EmptyPreference(keyHash(key));
      }
      PrefixDistinct(p, |r|);
    }

    method WalkRing(h: nat, target: int) returns (r: seq<NodeId>)
      requires Valid() && vnodes != [] && 0 <= target <= |Preference(vnodes, h)|
      ensures r == Preference(vnodes, h)[..target]
    {
      hide Firsts, NodesOf, Walk, AllVNodes, SortOf;
      r := [];
      var start := FindVNode(h);
      var i := 0;
      ghost var w := NodesOf(Walk(vnodes, h));
      WalkIndex(vnodes, h, 0);
      assert w[..0] == [];
      FirstsEmpty();
      while i < |vnodes| && |r| < target
        invariant 0 <= i <= |vnodes| && |r| <= target && r == Firsts(w[..i])
      {
        var node := vnodes[(start + i) % |vnodes|].node;
        WalkIndex(vnodes, h, i);
        assert w[..i + 1] == w[..i] + [node];
        FirstsSnoc(w[..i], node);
        var dup := Contains(r, node);
        if !dup { r := r + [node]; }
        i := i + 1;
      }
      FirstsPrefix(w, i);
      assert w[..|w|] == w;
    }
  }

  lemma EmptyPreference(h: nat)
    ensures Preference([], h) == []
  {
  }

  lemma FirstsEmpty()
    ensures Firsts([]) == []
  {
  }

  lemma PrefixDistinct(s: seq<NodeId>, k: nat)
    requires Distinct(s) && k <= |s|
    ensures Distinct(s[..k])
  {
  }

  lemma WalkIndex(vs: seq<VNode>, h: nat, i: nat)
    requires i < |vs|
    ensures var start := if Start(vs, h) == |vs| then 0 else Start(vs, h);
            && |NodesOf(Walk(vs, h))| == |vs|
            && NodesOf(Walk(vs, h))[i] == vs[(start + i) % |vs|].node
  {
    hide Walk;
    var s := Start(vs, h);
    WalkAt(vs, h, i);
    Wraps(if s == |vs| then 0 else s, i, |vs|);
  }

  lemma Wraps(s: nat, i: nat, n: nat)
    requires s < n && i < n
    ensures (s + i) % n == if s + i < n then s + i else s + i - n
  {
    if s + i >= n { assert (s + i - n + 1 * n) % n == (s + i - n) % n; }
  }

  lemma {:induction false} FirstsPrefix(s: seq<NodeId>, i: nat)
    requires i <= |s|
    ensures |Firsts(s[..i])| <= |Firsts(s)| && Firsts(s)[..|Firsts(s[..i])|] == Firsts(s[..i])
    decreases |s|
  {
    if i < |s| {
      FirstsPrefix(s[..|s| - 1], i);
      assert s[..|s| - 1][..i] == s[..i];
    } else {
      assert s[..i] == s;
    }
  }
}
