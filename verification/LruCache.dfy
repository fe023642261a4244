/**
 The block cache object: entries threaded on a doubly linked list in order of use and on hash chains.
 */
module LruCache {
  import opened Bytes
  import opened LruSpec

  const INITIAL_BUCKETS: nat := 256

  class Entry {
    const key: Bytes
    const data: Bytes
    const hash: nat
    var prev: Entry?
    var next: Entry?
    var hashNext: Entry?

    constructor (key: Bytes, data: Bytes, hash: nat)
      ensures this.key == key && this.data == data && this.hash == hash
    {
      this.key, this.data, this.hash := key, data, hash;
      prev, next, hashNext := null, null, null;
    }
  }

  function At(s: seq<Entry>, i: int): Entry?
  {
    if 0 <= i < |s| then s[i] else null
  }

  ghost predicate Apart(s: seq<Entry>)
  {
    forall i: nat, j: nat :: i < j < |s| ==> s[i] != s[j]
  }

  /** The doubly linked list from `h` to `t` is `s`. */
  ghost predicate Listed(s: seq<Entry>, h: Entry?, t: Entry?)
    reads s`prev, s`next
  {
    && Apart(s) && h == At(s, 0) && t == At(s, |s| - 1)
    && (forall i: nat {:trigger s[i].next} :: i < |s| ==> s[i].next == At(s, i + 1))
    && (forall i: nat {:trigger s[i].prev} :: i < |s| ==> s[i].prev == At(s, i - 1))
  }

  /** The hash chain from `first` is `c`. */
  ghost predicate ChainOk(first: Entry?, c: seq<Entry>)
    reads c`hashNext
  {
    && Apart(c) && first == At(c, 0)
    && (forall i: nat {:trigger c[i].hashNext} :: i < |c| ==> c[i].hashNext == At(c, i + 1))
  }

  function ItemOf(e: Entry): Item
  {
    Item(e.key, e.data)
  }

  function Items(s: seq<Entry>): (r: seq<Item>)
    ensures |r| == |s| && forall i: nat :: i < |s| ==> r[i] == ItemOf(s[i])
  {
    seq(|s|, i requires 0 <= i < |s| => ItemOf(s[i]))
  }

  /** The chains hold exactly the entries of `m`, each in the bucket of its hash. */
  ghost predicate Hashed(cs: seq<seq<Entry>>, m: set<Entry>)
    requires |cs| > 0
  {
    && (forall b: nat, e :: b < |cs| && e in cs[b] ==> e in m && e.hash % |cs| == b)
    && (forall e :: e in m ==> e in cs[e.hash % |cs|])
  }

  ghost predicate Keyed(m: set<Entry>, hashOf: Bytes -> nat)
  {
    forall e :: e in m ==> e.hash == hashOf(e.key)
  }

  ghost function Members(s: seq<Entry>): set<Entry>
  {
    set e | e in s
  }

  // ---- List surgery on ghost sequences ----

  lemma CutOut(s: seq<Entry>, i: nat)
    requires i < |s| && Apart(s)
    ensures Apart(s[..i] + s[i + 1..]) && s[i] !in s[..i] + s[i + 1..]
    ensures Members(s[..i] + s[i + 1..]) == Members(s) - {s[i]}
  {
    var r := s[..i] + s[i + 1..];
    assert forall k: nat :: k < |r| ==> r[k] == s[if k < i then k else k + 1];
    forall e | e in s && e != s[i] ensures e in r {
      var k: nat :| k < |s| && s[k] == e;
      assert r[if k < i then k else k - 1] == e;
    }
  }

  lemma PutInFront(s: seq<Entry>, e: Entry)
    requires Apart(s) && e !in s
    ensures Apart([e] + s) && Members([e] + s) == Members(s) + {e}
  {
  }

  /** Forward and backward pointers skip position `i`. */
  lemma ListSkips(s: seq<Entry>, i: nat, h: Entry?, t: Entry?)
    requires i < |s| && Apart(s)
    requires forall j: nat {:trigger s[j].next} :: j < |s| && j != i ==> s[j].next == if j + 1 == i then At(s, i + 1) else At(s, j + 1)
    requires forall j: nat {:trigger s[j].prev} :: j < |s| && j != i ==> s[j].prev == if j == i + 1 then At(s, i - 1) else At(s, j - 1)
    requires h == (if i == 0 then At(s, 1) else At(s, 0)) && t == if i == |s| - 1 then At(s, i - 1) else At(s, |s| - 1)
    ensures Listed(s[..i] + s[i + 1..], h, t)
  {
    hide Apart, At;
    CutOut(s, i);
    var r := s[..i] + s[i + 1..];
    AtCut(s, i, 0);
    AtCut(s, i, |s| - 2);
    forall k: nat | k < |r| ensures r[k].next == At(r, k + 1) && r[k].prev == At(r, k - 1) {
      AtCut(s, i, k);
      AtCut(s, i, k + 1);
      AtCut(s, i, k - 1);
    }
  }

  lemma AtCut(s: seq<Entry>, i: nat, x: int)
    requires i < |s|
    ensures var r := s[..i] + s[i + 1..];
            && At(r, x) == (if x < i then At(s, x) else At(s, x + 1))
            && (0 <= x < |r| ==> r[x] == s[if x < i then x else x + 1])
    ensures At(s, -1) == null == At(s, |s|)
  {
  }

  lemma ChainSkips(c: seq<Entry>, k: nat, first: Entry?)
    requires k < |c| && Apart(c)
    requires forall j: nat {:trigger c[j].hashNext} :: j < |c| && j != k ==> c[j].hashNext == if j + 1 == k then At(c, k + 1) else At(c, j + 1)
    requires first == if k == 0 then At(c, 1) else At(c, 0)
    ensures ChainOk(first, c[..k] + c[k + 1..])
  {
    hide Apart, At;
    CutOut(c, k);
    var r := c[..k] + c[k + 1..];
    AtCut(c, k, 0);
    forall j: nat | j < |r| ensures r[j].hashNext == At(r, j + 1) {
      AtCut(c, k, j);
      AtCut(c, k, j + 1);
    }
  }

  lemma HashedInsert(cs: seq<seq<Entry>>, m: set<Entry>, e: Entry)
    requires |cs| > 0 && Hashed(cs, m)
    ensures var b := e.hash % |cs|; Hashed(cs[b := [e] + cs[b]], m + {e})
  {
  }

  lemma HashedRemove(cs: seq<seq<Entry>>, m: set<Entry>, e: Entry, k: nat)
    requires |cs| > 0 && Hashed(cs, m)
    requires var c := cs[e.hash % |cs|]; k < |c| && c[k] == e && Apart(c)
    ensures var b := e.hash % |cs|; Hashed(cs[b := cs[b][..k] + cs[b][k + 1..]], m - {e})
  {
    var b := e.hash % |cs|;
    CutOut(cs[b], k);
    var r := cs[b][..k] + cs[b][k + 1..];
    assert forall x :: x in r <==> x in Members(r);
    assert forall x :: x in cs[b] <==> x in Members(cs[b]);
  }

  lemma InChain(cs: seq<seq<Entry>>, m: set<Entry>, e: Entry) returns (k: nat)
    requires |cs| > 0 && Hashed(cs, m) && e in m
    ensures k < |cs[e.hash % |cs|]| && cs[e.hash % |cs|][k] == e
  {
    k :| k < |cs[e.hash % |cs|]| && cs[e.hash % |cs|][k] == e;
  }

  /** Chains of different buckets have no entry in common. */
  lemma ElsewhereAbsent(cs: seq<seq<Entry>>, m: set<Entry>, b: nat, e: Entry)
    requires |cs| > 0 && Hashed(cs, m) && b < |cs| && (e !in m || b != e.hash % |cs|)
    ensures e !in cs[b]
  {
  }

  class Cache {
    const hashOf: Bytes -> nat
    const capacity: nat
    const buckets: array<Entry?>
    var head: Entry?
    var tail: Entry?
    var usage: nat
    var hits: nat
    var misses: nat
    ghost var list: seq<Entry>
    ghost var chains: seq<seq<Entry>>
    ghost var members: set<Entry>

    /** The hash chains hold `members`. */
    ghost predicate Chained()
      reads this`chains, this`members, buckets, members`hashNext
    {
      && |chains| == buckets.Length > 0 && Hashed(chains, members) && Keyed(members, hashOf)
      && forall b: nat :: b < |chains| ==> ChainOk(buckets[b], chains[b])
    }

    /** Unlink an entry from the list of use. */
    method LruRemove(e: Entry, ghost i: nat)
      requires Listed(list, head, tail) && i < |list| && list[i] == e
      modifies this`head, this`tail, this`list, list`prev, list`next
      ensures list == old(list)[..i] + old(list)[i + 1..] && Listed(list, head, tail)
    {
      ghost var s := list;
      SkipForward(e, i);
      SkipBackward(e, i);
      ListSkips(s, i, head, tail);
      e.prev, e.next := null, null;
      list := s[..i] + s[i + 1..];
      CutOut(s, i);
    }

    method SkipForward(e: Entry, ghost i: nat)
      requires Listed(list, head, tail) && i < |list| && list[i] == e
      modifies this`head, list`next
      ensures head == if i == 0 then At(list, 1) else At(list, 0)
      ensures forall j: nat {:trigger list[j].next} :: j < |list| ==> list[j].next == if j + 1 == i then At(list, i + 1) else At(list, j + 1)
    {
      if e.prev != null { e.prev.next := e.next; } else { head := e.next; }
    }

    method SkipBackward(e: Entry, ghost i: nat)
      requires Apart(list) && i < |list| && list[i] == e && tail == At(list, |list| - 1)
      requires e.next == At(list, i + 1) && forall j: nat {:trigger list[j].prev} :: j < |list| ==> list[j].prev == At(list, j - 1)
      modifies this`tail, list`prev
      ensures tail == if i == |list| - 1 then At(list, i - 1) else At(list, |list| - 1)
      ensures forall j: nat {:trigger list[j].prev} :: j < |list| ==> list[j].prev == if j == i + 1 then At(list, i - 1) else At(list, j - 1)
    {
      if e.next != null { e.next.prev := e.prev; } else { tail := e.prev; }
    }

    /** Link an entry in at the front. */
    method LruInsertHead(e: Entry)
      requires Listed(list, head, tail) && e !in list
      modifies this`head, this`tail, this`list, list`prev, e`prev, e`next
      ensures list == [e] + old(list) && Listed(list, head, tail)
    {
      PutInFront(list, e);
      e.prev, e.next := null, head;
      if head != null { head.prev := e; }
      head := e;
      if tail == null { tail := e; }
      list := [e] + list;
    }

    /** Walk the key's hash chain. */
    method HashFind(key: Bytes, hash: nat) returns (r: Entry?)
      requires Chained() && hash == hashOf(key)
      ensures r != null ==> r in members && r.key == key
      ensures r == null ==> forall e :: e in members ==> e.key != key
    {
      ghost var c := chains[hash % buckets.Length];
      ghost var k: nat := 0;
      r := buckets[hash % buckets.Length];
      while r != null
        invariant k <= |c| && r == At(c, k)
        invariant forall j: nat :: j < k ==> c[j].key != key
        decreases |c| - k
      {
        if r.hash == hash && r.key == key { return; }
        r := r.hashNext;
        k := k + 1;
      }
    }

    method HashInsert(e: Entry)
      requires Chained() && e !in members && e.hash == hashOf(e.key)
      modifies this`chains, this`members, buckets, e`hashNext
      ensures Chained() && members == old(members) + {e}
    {
      hide Hashed, Apart;
      var b := e.hash % buckets.Length;
      forall d: nat | d < |chains| ensures e !in chains[d] { ElsewhereAbsent(chains, members, d, e); }
      HashedInsert(chains, members, e);
      PutInFront(chains[b], e);
      ghost var c := chains[b];
      e.hashNext := buckets[b];
      buckets[b] := e;
      chains := chains[b := [e] + c];
      members := members + {e};
      assert ChainOk(e, [e] + c);
    }

    method HashRemove(e: Entry)
      requires Chained() && e in members
      modifies this`chains, this`members, buckets, members`hashNext
      ensures Chained() && members == old(members) - {e}
    {
      hide Hashed, Keyed;
      var b := e.hash % buckets.Length;
      ghost var c := chains[b];
      ghost var n := InChain(chains, members, e);
      ghost var k: nat := 0;
      var before: Entry? := null;
      var cur := buckets[b];
      while cur != e
        invariant k <= n && cur == c[k] && before == At(c, k - 1)
        decreases n - k
      {
        before := cur;
        cur := cur.hashNext;
        k := k + 1;
      }
      Unchain(e, before, k, b);
    }

    /** Take the entry at position `k` of its chain out. */
    method Unchain(e: Entry, before: Entry?, ghost k: nat, b: nat)
      requires Chained() && e in members && b == e.hash % buckets.Length
      requires k < |chains[b]| && chains[b][k] == e && before == At(chains[b], k - 1)
      modifies this`chains, this`members, buckets, members`hashNext
      ensures Chained() && members == old(members) - {e}
    {
      hide Hashed, Apart, At;
      ghost var c := chains[b];
      forall d: nat, x | d < |chains| && d != b && x in chains[d] ensures x !in c {
        DifferentChains(chains, members, d, b, x);
      }
      ChainMembers(chains, members, b);
      HashedRemove(chains, members, e, k);
      SkipInChain(e, before, k, b);
      forall d: nat | d < |chains| && d != b ensures ChainOk(buckets[d], chains[d]) {
        assert old(ChainOk(buckets[d], chains[d]));
        forall x | x in chains[d] ensures x.hashNext == old(x.hashNext) {
          DifferentChains(chains, members, d, b, x);
        }
      }
      chains := chains[b := c[..k] + c[k + 1..]];
      members := members - {e};
    }

    /** The pointer to an entry now points behind it. */
    method SkipInChain(e: Entry, before: Entry?, ghost k: nat, b: nat)
      requires b < buckets.Length == |chains| && ChainOk(buckets[b], chains[b])
      requires k < |chains[b]| && chains[b][k] == e && before == At(chains[b], k - 1)
      modifies buckets, chains[b]`hashNext
      ensures ChainOk(buckets[b], chains[b][..k] + chains[b][k + 1..])
      ensures forall d: nat :: d < buckets.Length && d != b ==> buckets[d] == old(buckets[d])
    {
      ghost var c := chains[b];
      if before == null { buckets[b] := e.hashNext; } else { before.hashNext := e.hashNext; }
      e.hashNext := null;
      ChainSkips(c, k, buckets[b]);
    }

    lemma ChainMembers(cs: seq<seq<Entry>>, m: set<Entry>, b: nat)
      requires |cs| > 0 && Hashed(cs, m) && b < |cs|
      ensures forall x :: x in cs[b] ==> x in m
    {
    }

    lemma DifferentChains(cs: seq<seq<Entry>>, m: set<Entry>, d: nat, b: nat, x: Entry)
      requires |cs| > 0 && Hashed(cs, m) && d < |cs| && b < |cs| && d != b && x in cs[d]
      ensures x !in cs[b]
    {
      assert x.hash % |cs| == d;
      ElsewhereAbsent(cs, m, b, x);
    }

    ghost predicate Valid()
      reads this, buckets, members, list
    {
      && Chained() && members == Members(list) && Listed(list, head, tail)
      && DistinctKeys(Contents()) && usage == Total(Contents()) <= capacity
    }

    /** Keys and data, most recently used first. */
    ghost function Contents(): seq<Item>
      reads this`list
    {
      Items(list)
    }

    constructor (capacity: nat, hashOf: Bytes -> nat)
      ensures Valid() && Contents() == [] && this.capacity == capacity && this.hashOf == hashOf
      ensures hits == 0 == misses && fresh(buckets) && members == {}
    {
      this.capacity, this.hashOf := capacity, hashOf;
      buckets := new Entry?[INITIAL_BUCKETS](_ => null);
      head, tail, usage, hits, misses := null, null, 0, 0, 0;
      list, members := [], {};
      chains := seq(INITIAL_BUCKETS, _ => []);
    }

    /** Where the entry of a key stands. */
    lemma Position(e: Entry) returns (i: nat)
      requires members == Members(list) && DistinctKeys(Contents()) && e in members
      ensures i < |list| && list[i] == e && Find(Contents(), e.key) == i
    {
      i :| i < |list| && list[i] == e;
      assert forall k: nat :: k < |list| ==> Contents()[k].key == list[k].key;
    }

    lemma Absent(key: Bytes)
      requires members == Members(list) && forall e :: e in members ==> e.key != key
      ensures Find(Contents(), key) == |list|
    {
      assert forall k: nat :: k < |list| ==> list[k] in members;
    }

    lemma ItemsCut(s: seq<Entry>, i: nat)
      requires i < |s|
      ensures Items(s[..i] + s[i + 1..]) == Items(s)[..i] + Items(s)[i + 1..]
      ensures Total(Items(s)) == Total(Items(s)[..i] + Items(s)[i + 1..]) + |s[i].key| + |s[i].data|
      ensures DistinctKeys(Items(s)) ==> DistinctKeys(Items(s)[..i] + Items(s)[i + 1..])
    {
      hide Total, DistinctKeys;
      TotalCut(Items(s), i);
      DistinctCut(Items(s), i);
    }

    lemma TotalCut(xs: seq<Item>, i: nat)
      requires i < |xs|
      ensures Total(xs) == Total(xs[..i] + xs[i + 1..]) + Size(xs[i])
    {
      TotalConcat(xs[..i], xs[i..]);
      TotalConcat(xs[..i], xs[i + 1..]);
      assert xs == xs[..i] + xs[i..] && xs[i..][1..] == xs[i + 1..];
    }

    lemma DistinctCut(xs: seq<Item>, i: nat)
      requires i < |xs|
      ensures DistinctKeys(xs) ==> DistinctKeys(xs[..i] + xs[i + 1..])
    {
      var ys := xs[..i] + xs[i + 1..];
      assert forall k: nat :: k < |ys| ==> ys[k] == xs[if k < i then k else k + 1];
    }

    /** Take an entry out of the list, its chain and the account. */
    method Drop(e: Entry, ghost i: nat)
      requires Valid() && i < |list| && list[i] == e
      modifies this`head, this`tail, this`list, this`chains, this`members, this`usage, buckets, members
      ensures Valid() && Contents() == old(Contents())[..i] + old(Contents())[i + 1..]
      ensures members == old(members) - {e}
    {
      hide Hashed, Keyed, Apart, At, Items, ChainOk, Total, DistinctKeys;
      CutOutMembers(i);
      ItemsCut(list, i);
      LruRemove(e, i);
      HashRemove(e);
      usage := usage - (|e.key| + |e.data|);
    }

    lemma CutOutMembers(i: nat)
      requires i < |list| && Listed(list, head, tail)
      ensures Members(list[..i] + list[i + 1..]) == Members(list) - {list[i]}
    {
      CutOut(list, i);
    }

    /** Drop least recently used entries until `needed` more bytes fit. */
    method EvictIfNeeded(needed: nat)
      requires Valid() && needed <= capacity
      modifies this`head, this`tail, this`list, this`chains, this`members, this`usage, buckets, members
      ensures Valid() && usage + needed <= capacity && members <= old(members)
      ensures Contents() == Evict(old(Contents()), capacity - needed)
    {
      hide Hashed, Keyed, Apart, ItemOf, ChainOk, Total, DistinctKeys;
      while usage + needed > capacity && tail != null
        invariant Valid() && members <= old(members)
        invariant Evict(Contents(), capacity - needed) == Evict(old(Contents()), capacity - needed)
        decreases |list|
      {
        ghost var xs := Contents();
        LastCut(xs);
        Drop(tail, |list| - 1);
      }
      EmptyTotal(Contents());
    }

    lemma LastCut(xs: seq<Item>)
      ensures xs != [] ==> xs[..|xs| - 1] + xs[|xs| - 1 + 1..] == xs[..|xs| - 1]
    {
    }

    lemma EmptyTotal(xs: seq<Item>)
      ensures xs == [] ==> Total(xs) == 0
    {
    }

    /** A hit returns the data and makes its entry the most recently used. */
    method Get(key: Bytes) returns (data: seq<Bytes>)
      requires Valid()
      modifies this, members
      ensures Valid() && Contents() == Touch(old(Contents()), key) && members == old(members)
      ensures var i := Find(old(Contents()), key);
              && data == (if i < |old(Contents())| then [old(Contents())[i].data] else [])
              && hits == old(hits) + |data| && misses == old(misses) + 1 - |data|
    {
      hide Hashed, Keyed, Apart, At, ChainOk, Total, DistinctKeys, Find;
      var e := HashFind(key, hashOf(key));
      if e == null {
        Absent(key);
        misses := misses + 1;
        return [];
      }
      ghost var i := Position(e);
      hits := hits + 1;
      ToFront(e, i);
      return [e.data];
    }

    method ToFront(e: Entry, ghost i: nat)
      requires Valid() && i < |list| && list[i] == e && Find(Contents(), e.key) == i
      modifies this`head, this`tail, this`list, members
      ensures Valid() && Contents() == Touch(old(Contents()), e.key)
    {
      hide Hashed, Keyed, At, ChainOk, Find, Total, Items, DistinctKeys, Apart, Touch;
      ghost var s := list;
      CutOut(s, i);
      TouchItems(s, i);
      TotalTouch(Items(s), e.key);
      TouchDistinct(Items(s), e.key);
      LruRemove(e, i);
      PutInFront(list, e);
      LruInsertHead(e);
    }

    lemma TouchItems(s: seq<Entry>, i: nat)
      requires i < |s| && Find(Items(s), s[i].key) == i
      ensures Items([s[i]] + (s[..i] + s[i + 1..])) == Touch(Items(s), s[i].key)
    {
      hide Find, ItemOf;
      var xs := Items(s);
      var r := [s[i]] + (s[..i] + s[i + 1..]);
      assert Touch(xs, s[i].key) == [xs[i]] + xs[..i] + xs[i + 1..];
      assert forall k: nat :: k < |r| ==> r[k] == if k == 0 then s[i] else s[if k <= i then k - 1 else k];
    }

    lemma TouchDistinct(xs: seq<Item>, key: Bytes)
      requires DistinctKeys(xs)
      ensures DistinctKeys(Touch(xs, key))
    {
      var p := Find(xs, key);
      if p < |xs| {
        var ys := Touch(xs, key);
        assert ys[0] == xs[p];
        assert forall i: nat :: 0 < i < |ys| ==> ys[i] == xs[if i <= p then i - 1 else i];
      }
    }

    /** Drop the key's entry, if any. */
    method Invalidate(key: Bytes)
      requires Valid()
      modifies this`head, this`tail, this`list, this`chains, this`members, this`usage, buckets, members
      ensures Valid() && Contents() == Without(old(Contents()), key) && members <= old(members)
      ensures forall e :: e in members ==> e.key != key
    {
      hide Hashed, Keyed, Apart, At, ChainOk, Total, Find, DistinctKeys, Items;
      var e := HashFind(key, hashOf(key));
      if e == null {
        Absent(key);
        return;
      }
      ghost var i := Position(e);
      OtherKeys(e, i);
      Drop(e, i);
    }

    lemma OtherKeys(e: Entry, i: nat)
      requires members == Members(list) && DistinctKeys(Contents()) && i < |list| && list[i] == e
      ensures forall x :: x in members && x != e ==> x.key != e.key
    {
      forall x | x in members && x != e ensures x.key != e.key {
        var k: nat :| k < |list| && list[k] == x;
        assert Contents()[k].key == x.key && Contents()[i].key == e.key;
      }
    }

    /** Store data under a key, replacing what was there and evicting what no longer fits. */
    method Put(key: Bytes, data: Bytes)
      requires Valid()
      modifies this, buckets, members
      ensures Valid() && Contents() == LruSpec.Put(old(Contents()), capacity, Item(key, data))
      ensures forall e :: e in members ==> e in old(members) || fresh(e)
      ensures hits == old(hits) && misses == old(misses)
    {
      hide Hashed, Keyed, Apart, At, ChainOk, Total, Find, Without, Evict, Items, DistinctKeys, Listed;
      Invalidate(key);
      if |key| + |data| > capacity { return; }
      EvictIfNeeded(|key| + |data|);
      NewEntry(key, data);
    }

    method NewEntry(key: Bytes, data: Bytes)
      requires Valid() && usage + |key| + |data| <= capacity && forall x :: x in members ==> x.key != key
      modifies this`head, this`tail, this`list, this`chains, this`members, this`usage, buckets, members
      ensures Valid() && Contents() == [Item(key, data)] + old(Contents())
      ensures forall e :: e in members ==> e in old(members) || fresh(e)
    {
      hide Hashed, Keyed, Apart, At, ChainOk, Total, Items, DistinctKeys, Listed;
      var e := new Entry(key, data, hashOf(key));
      Admit(e);
    }

    method Admit(e: Entry)
      requires Valid() && e !in members && e.hash == hashOf(e.key) && usage + |e.key| + |e.data| <= capacity
      requires forall x :: x in members ==> x.key != e.key
      modifies this`head, this`tail, this`list, this`chains, this`members, this`usage, buckets, members, e
      ensures Valid() && Contents() == [ItemOf(e)] + old(Contents()) && members == old(members) + {e}
    {
      hide Hashed, Keyed, At, ChainOk, Items, Total, DistinctKeys, Apart;
      MembersListed();
      PutInFront(list, e);
      ItemsInFront(list, e);
      HashInsert(e);
      LruInsertHead(e);
      usage := usage + (|e.key| + |e.data|);
    }

    lemma MembersListed()
      requires members == Members(list)
      ensures forall x :: x in list <==> x in members
    {
    }

    lemma ItemsInFront(s: seq<Entry>, e: Entry)
      requires forall x :: x in s ==> x.key != e.key
      ensures Items([e] + s) == [ItemOf(e)] + Items(s)
      ensures Total(Items([e] + s)) == |e.key| + |e.data| + Total(Items(s))
      ensures DistinctKeys(Items(s)) ==> DistinctKeys(Items([e] + s))
    {
      hide DistinctKeys;
      var xs := Items(s);
      assert Items([e] + s) == [ItemOf(e)] + xs;
      assert ([ItemOf(e)] + xs)[1..] == xs;
      DistinctInFront(xs, ItemOf(e));
    }

    lemma DistinctInFront(xs: seq<Item>, x: Item)
      requires forall i: nat :: i < |xs| ==> xs[i].key != x.key
      ensures DistinctKeys(xs) ==> DistinctKeys([x] + xs)
    {
    }

    /** Forget everything but the statistics. */
    method Clear()
      requires Valid()
      modifies this, buckets
      ensures Valid() && Contents() == [] && members == {} && hits == old(hits) && misses == old(misses)
    {
      for b := 0 to buckets.Length
        invariant forall d: nat :: d < b ==> buckets[d] == null
        invariant hits == old(hits) && misses == old(misses)
      {
        buckets[b] := null;
      }
      head, tail, usage := null, null, 0;
      list, members := [], {};
      chains := seq(buckets.Length, _ => []);
    }
  }
}
