/**
 The memtable's skip list: nodes linked on several levels, searched from the top level down.
 */
module SkipList {
  import opened Bytes
  import opened LsmMerge
  import opened LsmMergeRun
  import opened StorageWal
  import opened SkipLinks

  const MAX_LEVEL: nat := 12

  datatype GetResult = BadKey | Absent | Hit(value: Bytes)

  class Node {
    const key: Bytes
    const height: nat
    var value: Bytes
    var deleted: bool
    var forward: seq<Node?>

    constructor (height: nat, key: Bytes, value: Bytes)
      ensures this.height == height && this.key == key && this.value == value && !deleted
      ensures |forward| == height && forall l: nat :: l < height ==> forward[l] == null
    {
      this.height, this.key, this.value, deleted := height, key, value, false;
      forward := seq(height, _ => null);
    }
  }

  function At(s: seq<Node>, i: nat): Node?
  {
    if i < |s| then s[i] else null
  }

  function Heights(s: seq<Node>): (r: seq<nat>)
    ensures |r| == |s| && forall i: nat :: i < |s| ==> r[i] == s[i].height
  {
    seq(|s|, i requires 0 <= i < |s| => s[i].height)
  }

  /** The header, whose key is empty, and the nodes behind it in strictly ascending key order. */
  ghost predicate Sorted(s: seq<Node>)
  {
    forall i: nat, j: nat :: i < j < |s| ==> Less(s[i].key, s[j].key)
  }

  /** On each level a node points to the next one high enough to be on that level. */
  ghost predicate Linked(s: seq<Node>)
    reads s`forward
  {
    && (forall i: nat {:trigger s[i].forward} :: i < |s| ==> |s[i].forward| == s[i].height)
    && (forall i: nat, l: nat {:trigger s[i].forward[l]} :: i < |s| && l < s[i].height ==>
          s[i].forward[l] == At(s, NextOn(Heights(s), i, l)))
  }

  /** The table the nodes from `from` on stand for. */
  ghost function TableFrom(s: seq<Node>, from: nat): Memtable
    reads s`value, s`deleted
    requires from <= |s|
    decreases |s| - from
  {
    if from == |s| then map[] else TableFrom(s, from + 1)[s[from].key := Cell(s[from].value, s[from].deleted)]
  }

  ghost predicate Present(s: seq<Node>, from: nat, k: Bytes)
  {
    exists i: nat :: from <= i < |s| && s[i].key == k
  }

  /** `t` has exactly the keys and cells of the nodes from `from` on. */
  ghost predicate Matches(s: seq<Node>, from: nat, t: Memtable)
    reads s`value, s`deleted
  {
    && (forall i: nat {:trigger s[i].key} :: from <= i < |s| ==> s[i].key in t && t[s[i].key] == Cell(s[i].value, s[i].deleted))
    && (forall k :: k in t ==> Present(s, from, k))
  }

  lemma {:induction false} TableMatches(s: seq<Node>, from: nat)
    requires Sorted(s) && from <= |s|
    ensures Matches(s, from, TableFrom(s, from))
    decreases |s| - from
  {
    if from < |s| {
      hide Less, Sorted, Matches;
      TableMatches(s, from + 1);
      MatchesCons(s, from, TableFrom(s, from + 1));
    }
  }

  lemma MatchesCons(s: seq<Node>, from: nat, t: Memtable)
    requires Sorted(s) && from < |s| && Matches(s, from + 1, t)
    ensures Matches(s, from, t[s[from].key := Cell(s[from].value, s[from].deleted)])
  {
    hide Less, Sorted;
    forall i: nat | from < i < |s| ensures s[i].key != s[from].key { KeysDiffer(s, from, i); }
    forall k | k in t ensures Present(s, from, k) { assert Present(s, from + 1, k); }
    assert Present(s, from, s[from].key);
  }

  lemma MatchesUnique(s: seq<Node>, from: nat, t: Memtable, u: Memtable)
    requires Matches(s, from, t) && Matches(s, from, u)
    ensures t == u
  {
    forall k | k in t ensures k in u && u[k] == t[k] { assert Present(s, from, k); }
    forall k | k in u ensures k in t { assert Present(s, from, k); }
  }

  // ---- Inserting a node ----

  function Spliced(s: seq<Node>, p: nat, n: Node): seq<Node>
    requires p < |s|
  {
    s[..p + 1] + [n] + s[p + 1..]
  }

  lemma SplicedAt(s: seq<Node>, p: nat, n: Node, j: nat)
    requires p < |s|
    ensures var r := Spliced(s, p, n);
            && |r| == |s| + 1 && r[p + 1] == n && At(r, Moved(p, j)) == At(s, j)
            && (j < |s| ==> r[Moved(p, j)] == s[j]) && At(r, p + 1) == n
    ensures Heights(Spliced(s, p, n)) == Grown(Heights(s), p, n.height)
  {
  }

  lemma SplicedSorted(s: seq<Node>, p: nat, n: Node)
    requires Sorted(s) && p < |s| && Less(s[p].key, n.key) && (p + 1 < |s| ==> Less(n.key, s[p + 1].key))
    ensures Sorted(Spliced(s, p, n))
  {
    var r := Spliced(s, p, n);
    forall i: nat, j: nat | i < j < |r| ensures Less(r[i].key, r[j].key) {
      if j == p + 1 {
        if i < p { LessTransitive(s[i].key, s[p].key, n.key); }
      } else if i == p + 1 {
        assert r[j] == s[j - 1];
        if j > p + 2 { LessTransitive(n.key, s[p + 1].key, s[j - 1].key); }
      } else {
        assert r[i] == s[if i <= p then i else i - 1] && r[j] == s[if j <= p then j else j - 1];
      }
    }
  }

  /** A spliced-in node adds its cell to the table. */
  lemma TableSpliced(s: seq<Node>, p: nat, n: Node)
    requires p < |s| && Sorted(s) && Sorted(Spliced(s, p, n))
    ensures TableFrom(Spliced(s, p, n), 1) == TableFrom(s, 1)[n.key := Cell(n.value, n.deleted)]
  {
    hide TableFrom, Matches, Spliced;
    SplicedAt(s, p, n, 0);
    TableMatches(s, 1);
    TableMatches(Spliced(s, p, n), 1);
    SplicedMatches(s, p, n, TableFrom(s, 1));
    MatchesUnique(Spliced(s, p, n), 1, TableFrom(Spliced(s, p, n), 1), TableFrom(s, 1)[n.key := Cell(n.value, n.deleted)]);
  }

  lemma SplicedMatches(s: seq<Node>, p: nat, n: Node, t: Memtable)
    requires p < |s| && Sorted(Spliced(s, p, n)) && Matches(s, 1, t)
    ensures Matches(Spliced(s, p, n), 1, t[n.key := Cell(n.value, n.deleted)])
  {
    hide Less, Sorted, Spliced, At, Heights;
    var r, u := Spliced(s, p, n), t[n.key := Cell(n.value, n.deleted)];
    SplicedAt(s, p, n, 0);
    forall i: nat | 1 <= i < |r| ensures r[i].key in u && u[r[i].key] == Cell(r[i].value, r[i].deleted) {
      if i != p + 1 {
        SplicedAt(s, p, n, if i <= p then i else i - 1);
        KeysDiffer(r, i, p + 1);
      }
    }
    forall k | k in u ensures Present(r, 1, k) {
      if k == n.key {
        assert r[p + 1].key == k;
      } else {
        assert Present(s, 1, k);
        var i: nat :| 1 <= i < |s| && s[i].key == k;
        SplicedAt(s, p, n, i);
        assert r[Moved(p, i)].key == k;
      }
    }
  }

  lemma KeysDiffer(s: seq<Node>, i: nat, j: nat)
    requires Sorted(s) && i < |s| && j < |s| && i != j
    ensures s[i].key != s[j].key
  {
    if i < j { LessAsymmetric(s[i].key, s[j].key); } else { LessAsymmetric(s[j].key, s[i].key); }
  }

  /** Levels below `m` are linked through the new node, the others still pass over it. */
  ghost predicate PartLinked(s: seq<Node>, p: nat, n: Node, m: nat)
    requires p < |s|
    reads s`forward, n`forward
  {
    var r, hs := Spliced(s, p, n), Heights(s);
    var g := Grown(hs, p, n.height);
    && |n.forward| == n.height
    && (forall i: nat {:trigger s[i].forward} :: i < |s| ==> |s[i].forward| == s[i].height)
    && (forall i: nat, l: nat {:trigger s[i].forward[l]} :: i < |s| && l < s[i].height ==>
          s[i].forward[l] == LinkAt(s, p, n, i, l, l < m))
    && (forall l: nat {:trigger n.forward[l]} :: l < m && l < n.height ==> n.forward[l] == NewLink(s, p, n, l))
  }

  function LinkAt(s: seq<Node>, p: nat, n: Node, i: nat, l: nat, done: bool): Node?
    requires p < |s| && i < |s|
  {
    GrownAt(Heights(s), p, n.height, i);
    At(Spliced(s, p, n),
       if done then NextOn(Grown(Heights(s), p, n.height), Moved(p, i), l) else Moved(p, NextOn(Heights(s), i, l)))
  }

  function NewLink(s: seq<Node>, p: nat, n: Node, l: nat): Node?
    requires p < |s|
  {
    At(Spliced(s, p, n), NextOn(Grown(Heights(s), p, n.height), p + 1, l))
  }

  lemma PartLinkedStart(s: seq<Node>, p: nat, n: Node)
    requires p < |s| && Linked(s) && |n.forward| == n.height
    ensures PartLinked(s, p, n, 0)
  {
    hide Grown, Spliced;
    forall i: nat, l: nat | i < |s| && l < s[i].height ensures s[i].forward[l] == LinkAt(s, p, n, i, l, false) {
      SplicedAt(s, p, n, NextOn(Heights(s), i, l));
    }
  }

  lemma PartLinkedEnd(s: seq<Node>, p: nat, n: Node)
    requires p < |s| && PartLinked(s, p, n, n.height)
    ensures Linked(Spliced(s, p, n))
  {
    hide Grown, Spliced, At;
    var r := Spliced(s, p, n);
    var hs := Heights(s);
    SplicedAt(s, p, n, 0);
    forall i: nat | i < |r| ensures |r[i].forward| == r[i].height {
      if i != p + 1 { SplicedAt(s, p, n, if i <= p then i else i - 1); }
    }
    forall i: nat, l: nat | i < |r| && l < r[i].height ensures r[i].forward[l] == At(r, NextOn(Heights(r), i, l)) {
      if i != p + 1 {
        var j := if i <= p then i else i - 1;
        SplicedAt(s, p, n, j);
        NextGrown(hs, p, n.height, j, l);
        assert s[j].forward[l] == LinkAt(s, p, n, j, l, l < n.height);
      } else {
        assert n.forward[l] == NewLink(s, p, n, l);
      }
    }
  }

  /** What changes on level `m`: only the link of the one node that passed over the new one. */
  lemma LevelLinks(s: seq<Node>, p: nat, n: Node, m: nat, u: nat)
    requires u <= p < |s| && m < n.height && m < s[u].height && NextOn(Heights(s), u, m) > p
    ensures NewLink(s, p, n, m) == LinkAt(s, p, n, u, m, false)
    ensures LinkAt(s, p, n, u, m, true) == n
    ensures forall i: nat :: i < |s| && i != u && m < s[i].height ==>
              LinkAt(s, p, n, i, m, true) == LinkAt(s, p, n, i, m, false)
  {
    hide Grown, Spliced, At;
    var hs := Heights(s);
    NextOfNew(hs, p, n.height, u, m);
    NextGrown(hs, p, n.height, u, m);
    SplicedAt(s, p, n, u);
    forall i: nat | i < |s| && i != u && m < s[i].height
      ensures LinkAt(s, p, n, i, m, true) == LinkAt(s, p, n, i, m, false)
    {
      NextGrown(hs, p, n.height, i, m);
      if i <= p && NextOn(hs, i, m) > p { OnePasses(hs, p, i, u, m); }
    }
  }

  class List {
    const header: Node
    var level: nat
    var count: nat
    ghost var nodes: seq<Node>

    ghost predicate Valid()
      reads this, nodes
    {
      && |nodes| > 0 && nodes[0] == header && header.key == [] && header.height == MAX_LEVEL
      && 1 <= level <= MAX_LEVEL && count == |nodes| - 1
      && (forall i: nat :: 0 < i < |nodes| ==> 1 <= nodes[i].height <= level)
      && Sorted(nodes) && Linked(nodes)
    }

    ghost function Table(): Memtable
      reads this, nodes
    {
      if nodes == [] then map[] else TableFrom(nodes, 1)
    }

    constructor ()
      ensures Valid() && Table() == map[] && count == 0 && fresh(header) && nodes == [header]
    {
      header := new Node(MAX_LEVEL, [], []);
      level, count := 1, 0;
      nodes := [header];
    }

    /** `p` is the last position before `key`. */
    ghost predicate Before(p: nat, key: Bytes)
      reads this`nodes
    {
      p < |nodes| && (p == 0 || Less(nodes[p].key, key)) && (p + 1 < |nodes| ==> !Less(nodes[p + 1].key, key))
    }

    /** On level `l`, position `u` is the last before `key`. */
    ghost predicate LastOn(u: nat, l: nat, key: Bytes)
      reads this`nodes
    {
      && u < |nodes| && l < nodes[u].height && (u == 0 || Less(nodes[u].key, key))
      && var n := NextOn(Heights(nodes), u, l); n < |nodes| ==> !Less(nodes[n].key, key)
    }

    /** Walk right on one level while the next key is smaller. */
    method WalkRight(x0: Node, l: nat, key: Bytes, ghost p0: nat) returns (x: Node, ghost p: nat)
      requires Valid() && p0 < |nodes| && x0 == nodes[p0] && l < x0.height && (p0 == 0 || Less(x0.key, key))
      ensures p0 <= p && LastOn(p, l, key) && x == nodes[p]
    {
      hide Less, Sorted;
      x, p := x0, p0;
      while x.forward[l] != null && Less(x.forward[l].key, key)
        invariant p0 <= p < |nodes| && x == nodes[p] && l < x.height && (p == 0 || Less(x.key, key))
        decreases |nodes| - p
      {
        p := NextOn(Heights(nodes), p, l);
        x := x.forward[l];
      }
    }

    /** Search from the top level down, remembering where each level was left. */
    method Search(key: Bytes) returns (update: seq<Node>, x: Node, ghost us: seq<nat>, ghost p: nat)
      requires Valid() && key != []
      ensures |update| == |us| == MAX_LEVEL && Before(p, key) && x == nodes[p]
      ensures forall l: nat :: l < MAX_LEVEL ==> us[l] <= p && LastOn(us[l], l, key) && update[l] == nodes[us[l]]
    {
      hide Less, Sorted, Linked, LastOn;
      x, p := header, 0;
      update, us := seq(MAX_LEVEL, _ => header), seq(MAX_LEVEL, _ => 0);
      HighLevels(key);
      var i := level;
      while i > 0
        invariant 0 <= i <= level && p < |nodes| && x == nodes[p] && i <= x.height && (p == 0 || Less(x.key, key))
        invariant |update| == |us| == MAX_LEVEL
        invariant forall l: nat :: l < MAX_LEVEL ==> us[l] <= p && update[l] == nodes[us[l]]
        invariant forall l: nat :: i <= l < MAX_LEVEL ==> LastOn(us[l], l, key)
        invariant i < level ==> LastOn(p, i, key)
      {
        i := i - 1;
        x, p := WalkRight(x, i, key, p);
        LastOnFacts(p, i, key);
        update, us := update[i := x], us[i := p];
      }
      LowestIsBefore(p, key);
    }

    lemma LastOnFacts(p: nat, l: nat, key: Bytes)
      requires LastOn(p, l, key)
      ensures p < |nodes| && l < nodes[p].height && (p == 0 || Less(nodes[p].key, key))
    {
    }

    /** Above the list's level only the header has links. */
    lemma HighLevels(key: Bytes)
      requires Valid()
      ensures forall l: nat :: level <= l < MAX_LEVEL ==> LastOn(0, l, key)
    {
      hide Linked, Sorted, Less;
    }

    lemma LowestIsBefore(p: nat, key: Bytes)
      requires Valid() && LastOn(p, 0, key)
      ensures Before(p, key)
    {
      LowestNext();
    }

    lemma LowestNext()
      requires Valid()
      ensures forall i: nat :: i < |nodes| ==> NextOn(Heights(nodes), i, 0) == i + 1
    {
      forall i: nat | i < |nodes| ensures NextOn(Heights(nodes), i, 0) == i + 1 { NextLowest(Heights(nodes), i); }
    }

    /** Link a new node in on each of its levels. */
    method LinkIn(n: Node, update: seq<Node>, ghost us: seq<nat>, ghost p: nat)
      requires p < |nodes| && Linked(nodes) && Sorted(nodes) && n !in nodes && |n.forward| == n.height <= MAX_LEVEL
      requires |update| == |us| == MAX_LEVEL
      requires forall l: nat :: l < n.height ==>
                 us[l] <= p && l < nodes[us[l]].height && NextOn(Heights(nodes), us[l], l) > p && update[l] == nodes[us[l]]
      modifies nodes`forward, n`forward
      ensures Linked(Spliced(nodes, p, n))
    {
      hide Spliced, Grown, LinkAt, NewLink, Linked, Heights;
      ghost var s := nodes;
      PartLinkedStart(s, p, n);
      for i := 0 to n.height
        invariant PartLinked(s, p, n, i) && s == nodes
      {
        LevelLinks(s, p, n, i, us[i]);
        DistinctNodes(s, us[i]);
        n.forward := n.forward[i := update[i].forward[i]];
        update[i].forward := update[i].forward[i := n];
      }
      PartLinkedEnd(s, p, n);
    }

    lemma DistinctNodes(s: seq<Node>, u: nat)
      requires Sorted(s) && u < |s|
      ensures forall i: nat :: i < |s| && i != u ==> s[i] != s[u]
    {
      forall i: nat | i < |s| && i != u ensures s[i] != s[u] { LessIrreflexive(s[u].key); }
    }

    /** The position after `p` is the only place the key can be. */
    lemma Found(p: nat, key: Bytes)
      requires Valid() && Before(p, key) && key != []
      ensures nodes[p].forward[0] == At(nodes, p + 1)
      ensures key in Table() <==> p + 1 < |nodes| && nodes[p + 1].key == key
      ensures p + 1 < |nodes| && nodes[p + 1].key == key ==> Table()[key] == Cell(nodes[p + 1].value, nodes[p + 1].deleted)
      ensures p + 1 < |nodes| && nodes[p + 1].key != key ==> Less(key, nodes[p + 1].key)
      ensures Less(nodes[p].key, key)
    {
      hide TableFrom, Linked;
      LowestLink(p);
      TableMatches(nodes, 1);
      if p + 1 < |nodes| { LessTotal(key, nodes[p + 1].key); }
      if key in Table() {
        assert Present(nodes, 1, key);
        var i: nat :| 1 <= i < |nodes| && nodes[i].key == key;
        if i <= p {
          LessIrreflexive(key);
          if i < p { LessTransitive(nodes[i].key, nodes[p].key, key); }
        } else if i > p + 1 {
          BehindIsGreater(p, key, i);
        }
      }
    }

    lemma LowestLink(p: nat)
      requires Valid() && p < |nodes|
      ensures |nodes[p].forward| > 0 && nodes[p].forward[0] == At(nodes, p + 1)
    {
      LowestNext();
    }

    lemma BehindIsGreater(p: nat, key: Bytes, i: nat)
      requires Sorted(nodes) && Before(p, key) && p + 1 < i < |nodes|
      ensures nodes[i].key != key
    {
      LessTotal(key, nodes[p + 1].key);
      if Less(key, nodes[p + 1].key) { LessTransitive(key, nodes[p + 1].key, nodes[i].key); }
      LessIrreflexive(key);
    }

    /** Insert or overwrite; `height` is the level drawn for a new node. */
    method Put(key: Bytes, value: Bytes, height: nat) returns (status: Status)
      requires Valid() && 1 <= height <= MAX_LEVEL
      modifies this, nodes
      ensures Valid() && Outcome(status, Table()) == MemPut(old(Table()), key, value)
      ensures forall n :: n in nodes ==> n in old(nodes) || fresh(n)
      ensures count == old(count) + if key == [] || key in old(Table()) then 0 else 1
    {
      hide Less, Linked, Sorted, TableFrom;
      if key == [] { return InvalidArg; }
      var update, x, us, p := Search(key);
      Found(p, key);
      LowestLink(p);
      var y := x.forward[0];
      if y != null && y.key == key {
        SetCell(y, p + 1, value, false);
      } else {
        Insert(key, value, height, update, us, p);
      }
      return Ok;
    }

    /** Overwrite the cell of one node. */
    method SetCell(y: Node, ghost i: nat, value: Bytes, deleted: bool)
      requires Valid() && 0 < i < |nodes| && nodes[i] == y
      modifies y`value, y`deleted
      ensures Valid() && Table() == old(Table())[y.key := Cell(value, deleted)]
      ensures y.value == value
    {
      hide Less, Linked, TableFrom, Sorted, Matches;
      ghost var t := Table();
      TableMatches(nodes, 1);
      OldCells(t);
      forall k: nat | k < |nodes| && k != i ensures nodes[k].key != y.key { KeysDiffer(nodes, k, i); }
      y.value, y.deleted := value, deleted;
      TableMatches(nodes, 1);
      NewCells(t, i);
      MatchesUnique(nodes, 1, Table(), t[y.key := Cell(value, deleted)]);
    }

    lemma OldCells(t: Memtable)
      requires Matches(nodes, 1, t)
      ensures forall k: nat {:trigger nodes[k].key} :: 1 <= k < |nodes| ==> nodes[k].key in t && t[nodes[k].key] == Cell(nodes[k].value, nodes[k].deleted)
      ensures forall x :: x in t ==> Present(nodes, 1, x)
    {
    }

    /** After a change at position `i` alone, the table is the old one with that cell replaced. */
    lemma NewCells(t: Memtable, i: nat)
      requires 0 < i < |nodes| && forall x :: x in t ==> Present(nodes, 1, x)
      requires forall k: nat {:trigger nodes[k].key} :: 1 <= k < |nodes| && k != i ==>
                 nodes[k].key != nodes[i].key && nodes[k].key in t && t[nodes[k].key] == Cell(nodes[k].value, nodes[k].deleted)
      ensures Matches(nodes, 1, t[nodes[i].key := Cell(nodes[i].value, nodes[i].deleted)])
    {
      assert Present(nodes, 1, nodes[i].key);
    }

    /** A new node behind position `p`. */
    method Insert(key: Bytes, value: Bytes, height: nat, update: seq<Node>, ghost us: seq<nat>, ghost p: nat)
      requires Valid() && 1 <= height <= MAX_LEVEL && key != [] && p < |nodes| && |update| == |us| == MAX_LEVEL
      requires Less(nodes[p].key, key) && (p + 1 < |nodes| ==> Less(key, nodes[p + 1].key))
      requires forall l: nat :: l < MAX_LEVEL ==> us[l] <= p && LastOn(us[l], l, key) && update[l] == nodes[us[l]]
      modifies this, nodes`forward
      ensures Valid() && Table() == old(Table())[key := Cell(value, false)] && count == old(count) + 1
      ensures forall n :: n in nodes ==> n in old(nodes) || fresh(n)
    {
      hide Less, Linked, Sorted, TableFrom, Heights, LastOn;
      if height > level { level := height; }
      var n := new Node(height, key, value);
      forall l: nat | l < MAX_LEVEL ensures l < nodes[us[l]].height && NextOn(Heights(nodes), us[l], l) > p {
        PassesOver(us[l], l, p, key);
      }
      LinkIn(n, update, us, p);
      SplicedSorted(nodes, p, n);
      TableSpliced(nodes, p, n);
      SplicedFacts(nodes, p, n);
      nodes := Spliced(nodes, p, n);
      count := count + 1;
    }

    lemma SplicedFacts(s: seq<Node>, p: nat, n: Node)
      requires p < |s|
      ensures var r := Spliced(s, p, n);
              && |r| == |s| + 1 && r[0] == s[0]
              && (forall i: nat :: 0 < i < |r| ==> r[i] == n || exists j: nat :: 0 < j < |s| && r[i] == s[j])
              && (forall x :: x in r ==> x == n || x in s)
    {
      var r := Spliced(s, p, n);
      forall i: nat | 0 < i < |r| ensures r[i] == n || exists j: nat :: 0 < j < |s| && r[i] == s[j] {
        if i != p + 1 { assert r[i] == s[if i <= p then i else i - 1]; }
      }
    }

    /** The last node before the key on a level links past the key's place. */
    lemma PassesOver(u: nat, l: nat, p: nat, key: Bytes)
      requires Sorted(nodes) && LastOn(u, l, key) && u <= p < |nodes| && Less(nodes[p].key, key)
      ensures l < nodes[u].height && NextOn(Heights(nodes), u, l) > p
    {
      var n := NextOn(Heights(nodes), u, l);
      if n < p { LessTransitive(nodes[n].key, nodes[p].key, key); }
    }

    /** The value of a key that is there and not deleted. */
    method Get(key: Bytes) returns (r: GetResult)
      requires Valid()
      ensures r == if key == [] then BadKey
                   else if key in Table() && !Table()[key].deleted then Hit(Table()[key].value) else Absent
    {
      hide Less, Linked, Sorted, TableFrom;
      if key == [] { return BadKey; }
      var update, x, us, p := Search(key);
      Found(p, key);
      LowestLink(p);
      var y := x.forward[0];
      if y != null && y.key == key {
        if y.deleted { return Absent; }
        return Hit(y.value);
      }
      return Absent;
    }

    /** Whether the key is there, deleted or not. */
    method Contains(key: Bytes) returns (b: bool)
      requires Valid()
      ensures b <==> key != [] && key in Table()
    {
      hide Less, Linked, Sorted, TableFrom;
      if key == [] { return false; }
      var update, x, us, p := Search(key);
      Found(p, key);
      LowestLink(p);
      var y := x.forward[0];
      b := y != null && y.key == key;
    }

    /** Mark a key deleted, inserting it first if it is not there. */
    method Delete(key: Bytes, height: nat) returns (status: Status)
      requires Valid() && 1 <= height <= MAX_LEVEL
      modifies this, nodes
      ensures Valid() && Outcome(status, Table()) == MemDelete(old(Table()), key)
      ensures forall n :: n in nodes ==> n in old(nodes) || fresh(n)
    {
      hide Less, Linked, Sorted, TableFrom;
      if key == [] { return InvalidArg; }
      var update, x, us, p := Search(key);
      Found(p, key);
      LowestLink(p);
      var y := x.forward[0];
      if y != null && y.key == key {
        SetCell(y, p + 1, y.value, true);
        return Ok;
      }
      status := Put(key, [], height);
      ghost var q := 0;
      y, q := Locate(key);
      SetCell(y, q, y.value, true);
    }

    /** The node of a key that is there. */
    method Locate(key: Bytes) returns (y: Node, ghost q: nat)
      requires Valid() && key != [] && key in Table()
      ensures 0 < q < |nodes| && nodes[q] == y && y in nodes && y.key == key
      ensures Table()[key] == Cell(y.value, y.deleted)
    {
      hide Less, Linked, Sorted, TableFrom;
      var update, x, us, p := Search(key);
      Found(p, key);
      LowestLink(p);
      y, q := x.forward[0], p + 1;
    }

    /** Move an iterator to the first node whose key is at least `key`; the empty key leaves it where it was. */
    method Seek(key: Bytes, cur: Node?, ghost at: nat) returns (y: Node?, ghost q: nat)
      requires Valid() && 0 < at <= |nodes| && cur == At(nodes, at)
      ensures 0 < q <= |nodes| && y == At(nodes, q)
      ensures key == [] ==> q == at
      ensures key != [] ==> forall i: nat :: 0 < i < |nodes| ==> (Less(nodes[i].key, key) <==> i < q)
    {
      hide Linked, TableFrom;
      if key == [] { return cur, at; }
      var update, x, us, p := Search(key);
      LowestLink(p);
      y, q := x.forward[0], p + 1;
      forall i: nat | 0 < i < |nodes| ensures Less(nodes[i].key, key) <==> i < q { SplitAt(p, key, i); }
    }

    lemma SplitAt(p: nat, key: Bytes, i: nat)
      requires Sorted(nodes) && Before(p, key) && 0 < i < |nodes|
      ensures Less(nodes[i].key, key) <==> i <= p
    {
      if i < p { LessTransitive(nodes[i].key, nodes[p].key, key); }
      if i > p + 1 && Less(nodes[i].key, key) { LessTransitive(nodes[p + 1].key, nodes[i].key, key); }
    }

    /** Walk the lowest level: every cell of the table, once, in ascending key order. */
    method Entries() returns (es: seq<Entry>)
      requires Valid()
      ensures |es| == count && Ascending(es)
      ensures forall i: nat :: i < |es| ==>
                es[i].key in Table() && Table()[es[i].key] == Cell(es[i].value, es[i].deleted)
      ensures forall k :: k in Table() ==> Holds(es, k)
    {
      hide Less, Linked, TableFrom, Sorted;
      LowestLink(0);
      es := [];
      var x := header.forward[0];
      while x != null
        invariant |es| < |nodes| && x == At(nodes, |es| + 1) && Copied(es)
        decreases |nodes| - |es|
      {
        es := es + [Entry(x.key, x.value, x.deleted)];
        LowestLink(|es|);
        x := x.forward[0];
      }
      CopiedAll(es);
    }

    ghost predicate Copied(es: seq<Entry>)
      reads this, nodes
    {
      |es| < |nodes| && forall i: nat :: i < |es| ==> es[i] == Entry(nodes[i + 1].key, nodes[i + 1].value, nodes[i + 1].deleted)
    }

    lemma CopiedAll(es: seq<Entry>)
      requires Valid() && Copied(es) && |es| == |nodes| - 1
      ensures Ascending(es)
      ensures forall i: nat :: i < |es| ==>
                es[i].key in Table() && Table()[es[i].key] == Cell(es[i].value, es[i].deleted)
      ensures forall k :: k in Table() ==> Holds(es, k)
    {
      hide Less, Linked, TableFrom;
      TableMatches(nodes, 1);
      forall k | k in Table() ensures Holds(es, k) {
        assert Present(nodes, 1, k);
        var i: nat :| 1 <= i < |nodes| && nodes[i].key == k;
        assert es[i - 1].key == k;
      }
    }
  }
}
