/**
 What the block cache holds after any run of operations: a list of items, most recently used first.
 */
module LruSpec {
  import opened Bytes

  datatype Item = Item(key: Bytes, data: Bytes)

  function Size(x: Item): nat
  {
    |x.key| + |x.data|
  }

  function Total(xs: seq<Item>): nat
  {
    if xs == [] then 0 else Size(xs[0]) + Total(xs[1..])
  }

  /** The position of `key`; the length when it is absent. */
  function Find(xs: seq<Item>, key: Bytes): (r: nat)
    ensures r <= |xs|
    ensures forall i: nat :: i < r ==> xs[i].key != key
    ensures r < |xs| ==> xs[r].key == key
  {
    if xs == [] || xs[0].key == key then 0 else 1 + Find(xs[1..], key)
  }

  function Without(xs: seq<Item>, key: Bytes): seq<Item>
  {
    var i := Find(xs, key);
    if i < |xs| then xs[..i] + xs[i + 1..] else xs
  }

  /** A hit moves the item to the front. */
  function Touch(xs: seq<Item>, key: Bytes): seq<Item>
  {
    var i := Find(xs, key);
    if i < |xs| then [xs[i]] + xs[..i] + xs[i + 1..] else xs
  }

  /** Drop items from the back until the rest takes at most `room`. */
  function Evict(xs: seq<Item>, room: nat): seq<Item>
  {
    if xs != [] && Total(xs) > room then Evict(xs[..|xs| - 1], room) else xs
  }

  function Put(xs: seq<Item>, capacity: nat, x: Item): seq<Item>
  {
    var rest := Without(xs, x.key);
    if Size(x) > capacity then rest else [x] + Evict(rest, capacity - Size(x))
  }

  // ---- One step ----

  ghost predicate DistinctKeys(xs: seq<Item>)
  {
    forall i: nat, j: nat :: i < j < |xs| ==> xs[i].key != xs[j].key
  }

  lemma {:induction false} TotalConcat(a: seq<Item>, b: seq<Item>)
    ensures Total(a + b) == Total(a) + Total(b)
    decreases |a|
  {
    if a == [] {
      assert a + b == b;
    } else {
      TotalConcat(a[1..], b);
      assert (a + b)[1..] == a[1..] + b;
    }
  }

  /** Eviction keeps the longest prefix that fits. */
  lemma {:induction false} EvictIsLongestFit(xs: seq<Item>, room: nat)
    ensures var n := |Evict(xs, room)|;
            && n <= |xs| && Evict(xs, room) == xs[..n] && Total(xs[..n]) <= room
            && (forall k: nat :: n < k <= |xs| ==> Total(xs[..k]) > room)
    decreases |xs|
  {
    if xs != [] && Total(xs) > room {
      var front := xs[..|xs| - 1];
      EvictIsLongestFit(front, room);
      assert forall k: nat :: k <= |front| ==> front[..k] == xs[..k];
      assert xs[..|xs|] == xs;
    } else {
      assert xs[..|xs|] == xs;
    }
  }

  lemma TotalWithout(xs: seq<Item>, key: Bytes)
    ensures Total(Without(xs, key)) <= Total(xs)
  {
    var i := Find(xs, key);
    if i < |xs| {
      TotalConcat(xs[..i], xs[i..]);
      TotalConcat(xs[..i], xs[i + 1..]);
      assert xs == xs[..i] + xs[i..] && xs[i..][1..] == xs[i + 1..];
    }
  }

  lemma TotalTouch(xs: seq<Item>, key: Bytes)
    ensures Total(Touch(xs, key)) == Total(xs)
  {
    var i := Find(xs, key);
    if i < |xs| {
      TotalConcat(xs[..i], xs[i..]);
      TotalConcat([xs[i]] + xs[..i], xs[i + 1..]);
      TotalConcat([xs[i]], xs[..i]);
      assert xs == xs[..i] + xs[i..] && xs[i..][1..] == xs[i + 1..];
      assert Total([xs[i]]) == Size(xs[i]) by { assert [xs[i]][1..] == []; }
    }
  }

  // ---- Runs ----

  datatype Op = PutOp(x: Item) | GetOp(key: Bytes) | InvalidateOp(key: Bytes) | ClearOp

  function Step(xs: seq<Item>, capacity: nat, op: Op): seq<Item>
  {
    match op
    case PutOp(x) => Put(xs, capacity, x)
    case GetOp(k) => Touch(xs, k)
    case InvalidateOp(k) => Without(xs, k)
    case ClearOp => []
  }

  function Run(capacity: nat, ops: seq<Op>): seq<Item>
  {
    if ops == [] then [] else Step(Run(capacity, ops[..|ops| - 1]), capacity, ops[|ops| - 1])
  }

  predicate Uses(op: Op, key: Bytes)
  {
    (op.PutOp? && op.x.key == key) || (op.GetOp? && op.key == key)
  }

  /** One more than the position of the last operation that used the key. */
  function LastUse(ops: seq<Op>, key: Bytes): (r: nat)
    ensures r <= |ops|
  {
    if ops == [] then 0 else if Uses(ops[|ops| - 1], key) then |ops| else LastUse(ops[..|ops| - 1], key)
  }

  /** What a map with puts, invalidations and clears, and no capacity, would hold for the key. */
  function Latest(ops: seq<Op>, key: Bytes): seq<Bytes>
  {
    if ops == [] then []
    else
      var op := ops[|ops| - 1];
      if op.PutOp? && op.x.key == key then [op.x.data]
      else if op.ClearOp? || (op.InvalidateOp? && op.key == key) then []
      else Latest(ops[..|ops| - 1], key)
  }

  /** Items in order of use, each used at some time, each holding the latest value put for its key. */
  ghost predicate Recent(xs: seq<Item>, ops: seq<Op>)
  {
    && (forall i: nat, j: nat :: i < j < |xs| ==> LastUse(ops, xs[i].key) > LastUse(ops, xs[j].key))
    && (forall i: nat :: i < |xs| ==> Latest(ops, xs[i].key) == [xs[i].data])
  }

  lemma StepRecent(xs: seq<Item>, capacity: nat, ops: seq<Op>, op: Op)
    requires Recent(xs, ops)
    ensures Recent(Step(xs, capacity, op), ops + [op])
  {
    assert (ops + [op])[..|ops|] == ops;
    match op
    case PutOp(x) => PutRecent(xs, capacity, ops, x);
    case GetOp(k) => TouchRecent(xs, ops, k);
    case InvalidateOp(k) => DropRecent(xs, ops, k);
    case ClearOp =>
  }

  lemma UnusedKeeps(ops: seq<Op>, op: Op, key: Bytes)
    ensures !Uses(op, key) ==> LastUse(ops + [op], key) == LastUse(ops, key)
    ensures Uses(op, key) ==> LastUse(ops + [op], key) == |ops| + 1
    ensures !op.ClearOp? && !(op.PutOp? && op.x.key == key) && !(op.InvalidateOp? && op.key == key) ==>
              Latest(ops + [op], key) == Latest(ops, key)
  {
    assert (ops + [op])[..|ops|] == ops;
  }

  /** Items of `xs` in their order, and possibly fewer of them. */
  ghost predicate Thinned(ys: seq<Item>, xs: seq<Item>, at: seq<nat>)
  {
    && |at| == |ys| && (forall i: nat :: i < |ys| ==> at[i] < |xs| && ys[i] == xs[at[i]])
    && (forall i: nat, j: nat :: i < j < |ys| ==> at[i] < at[j])
  }

  lemma WithoutThins(xs: seq<Item>, key: Bytes) returns (at: seq<nat>)
    ensures Thinned(Without(xs, key), xs, at)
    ensures DistinctKeys(xs) ==> forall i: nat :: i < |Without(xs, key)| ==> Without(xs, key)[i].key != key
  {
    hide Find;
    var p, ys := Find(xs, key), Without(xs, key);
    at := seq(|ys|, i requires 0 <= i < |ys| => if i < p then i else i + 1);
    assert forall i: nat :: i < |ys| ==> ys[i] == xs[if i < p then i else i + 1];
  }

  lemma DistinctWhenRecent(xs: seq<Item>, ops: seq<Op>)
    requires Recent(xs, ops)
    ensures DistinctKeys(xs)
  {
  }

  lemma WithoutRecent(xs: seq<Item>, ops: seq<Op>, key: Bytes)
    requires Recent(xs, ops)
    ensures Recent(Without(xs, key), ops) && forall i: nat :: i < |Without(xs, key)| ==> Without(xs, key)[i].key != key
  {
    hide Find, Latest, LastUse, Without;
    DistinctWhenRecent(xs, ops);
    var at := WithoutThins(xs, key);
  }

  /** A put leaves the standing of every other key as it was. */
  lemma OthersRecent(rest: seq<Item>, ops: seq<Op>, x: Item)
    requires Recent(rest, ops) && forall i: nat :: i < |rest| ==> rest[i].key != x.key
    ensures Recent(rest, ops + [PutOp(x)]) && forall i: nat :: i < |rest| ==> LastUse(ops + [PutOp(x)], rest[i].key) <= |ops|
  {
    hide Latest, LastUse;
    var op := PutOp(x);
    var now := ops + [op];
    forall i: nat | i < |rest|
      ensures LastUse(now, rest[i].key) == LastUse(ops, rest[i].key) <= |ops| && Latest(now, rest[i].key) == Latest(ops, rest[i].key)
    {
      UnusedKeeps(ops, op, rest[i].key);
    }
    forall i: nat, j: nat | i < j < |rest| ensures LastUse(now, rest[i].key) > LastUse(now, rest[j].key) {
    }
  }

  lemma InFrontRecent(x: Item, rest: seq<Item>, n: nat, ops: seq<Op>)
    requires n <= |rest| && Recent(rest, ops) && Latest(ops, x.key) == [x.data]
    requires forall i: nat :: i < |rest| ==> LastUse(ops, rest[i].key) < LastUse(ops, x.key)
    ensures Recent([x] + rest[..n], ops)
  {
    hide Latest, LastUse;
  }

  lemma PutRecent(xs: seq<Item>, capacity: nat, ops: seq<Op>, x: Item)
    requires Recent(xs, ops)
    ensures Recent(Put(xs, capacity, x), ops + [PutOp(x)])
  {
    hide Find, Latest, LastUse, Without, Evict, Recent;
    var rest := Without(xs, x.key);
    WithoutRecent(xs, ops, x.key);
    OthersRecent(rest, ops, x);
    UnusedKeeps(ops, PutOp(x), x.key);
    LatestPut(ops, x);
    if Size(x) <= capacity {
      EvictIsLongestFit(rest, capacity - Size(x));
      InFrontRecent(x, rest, |Evict(rest, capacity - Size(x))|, ops + [PutOp(x)]);
    }
  }

  lemma LatestPut(ops: seq<Op>, x: Item)
    ensures Latest(ops + [PutOp(x)], x.key) == [x.data]
  {
  }

  lemma TouchRecent(xs: seq<Item>, ops: seq<Op>, key: Bytes)
    requires Recent(xs, ops)
    ensures Recent(Touch(xs, key), ops + [GetOp(key)])
  {
    hide Find, Latest, LastUse;
    var op := GetOp(key);
    var p := Find(xs, key);
    var ys := Touch(xs, key);
    DistinctWhenRecent(xs, ops);
    forall k ensures Latest(ops + [op], k) == Latest(ops, k) && (k != key ==> LastUse(ops + [op], k) == LastUse(ops, k)) {
      UnusedKeeps(ops, op, k);
    }
    UnusedKeeps(ops, op, key);
    if p < |xs| {
      assert ys[0] == xs[p];
      assert forall i: nat :: 0 < i < |ys| ==> ys[i] == xs[if i <= p then i - 1 else i];
    }
  }

  lemma DropRecent(xs: seq<Item>, ops: seq<Op>, key: Bytes)
    requires Recent(xs, ops)
    ensures Recent(Without(xs, key), ops + [InvalidateOp(key)])
  {
    hide Find, Latest, LastUse, Without;
    var op := InvalidateOp(key);
    DistinctWhenRecent(xs, ops);
    var at := WithoutThins(xs, key);
    forall k ensures LastUse(ops + [op], k) == LastUse(ops, k) && (k != key ==> Latest(ops + [op], k) == Latest(ops, k)) {
      UnusedKeeps(ops, op, k);
    }
  }

  /**
   After any run: no key twice, items in order of last use, a hit returns the value last put, and the
   sizes add up to no more than the capacity.
   */
  lemma {:induction false} RunIsLru(capacity: nat, ops: seq<Op>)
    ensures var xs := Run(capacity, ops);
            DistinctKeys(xs) && Recent(xs, ops) && Total(xs) <= capacity
    decreases |ops|
  {
    if ops != [] {
      var front, op := ops[..|ops| - 1], ops[|ops| - 1];
      RunIsLru(capacity, front);
      assert ops == front + [op];
      StepRecent(Run(capacity, front), capacity, front, op);
      StepFits(Run(capacity, front), capacity, op);
    }
    DistinctWhenRecent(Run(capacity, ops), ops);
  }

  lemma StepFits(xs: seq<Item>, capacity: nat, op: Op)
    requires Total(xs) <= capacity
    ensures Total(Step(xs, capacity, op)) <= capacity
  {
    hide Without, Touch, Evict;
    match op
    case PutOp(x) =>
      TotalWithout(xs, x.key);
      if Size(x) <= capacity {
        var e := Evict(Without(xs, x.key), capacity - Size(x));
        EvictIsLongestFit(Without(xs, x.key), capacity - Size(x));
        assert ([x] + e)[1..] == e;
      }
    case GetOp(k) => TotalTouch(xs, k);
    case InvalidateOp(k) => TotalWithout(xs, k);
    case ClearOp =>
  }

  // ---- What one operation does to the items ----

  lemma WithoutAt(xs: seq<Item>, key: Bytes, i: nat)
    ensures |Without(xs, key)| == if Find(xs, key) < |xs| then |xs| - 1 else |xs|
    ensures i < |Without(xs, key)| ==> Without(xs, key)[i] == xs[if i < Find(xs, key) then i else i + 1]
  {
  }

  lemma FindHolds(xs: seq<Item>, key: Bytes)
    ensures var p := Find(xs, key);
            p <= |xs| && (p < |xs| ==> xs[p].key == key) && forall i: nat :: i < p ==> xs[i].key != key
  {
  }

  /** Removal takes out the key's item and no other, and keeps the order. */
  lemma WithoutExactly(xs: seq<Item>, key: Bytes, y: Item)
    requires DistinctKeys(xs)
    ensures y in Without(xs, key) <==> y in xs && y.key != key
    ensures DistinctKeys(Without(xs, key)) && |Without(xs, key)| >= |xs| - 1
  {
    hide Find, Without;
    var p, ys := Find(xs, key), Without(xs, key);
    WithoutAt(xs, key, 0);
    FindHolds(xs, key);
    forall i: nat ensures |ys| == (if p < |xs| then |xs| - 1 else |xs|) && (i < |ys| ==> ys[i] == xs[if i < p then i else i + 1]) {
      WithoutAt(xs, key, i);
    }
    if y in xs && y.key != key {
      var k: nat :| k < |xs| && xs[k] == y;
      assert k != p;
      assert ys[if k < p then k else k - 1] == y;
    }
    if y in ys {
      var k: nat :| k < |ys| && ys[k] == y;
      var at := if k < p then k else k + 1;
      assert xs[at] == y && at != p;
    }
  }

  /** A hit changes no item and puts the one asked for in front; a miss changes nothing. */
  lemma TouchExactly(xs: seq<Item>, key: Bytes, y: Item)
    requires DistinctKeys(xs)
    ensures y in Touch(xs, key) <==> y in xs
    ensures y in xs && y.key == key ==> Touch(xs, key) == [y] + Without(xs, key)
    ensures (forall x :: x in xs ==> x.key != key) ==> Touch(xs, key) == xs
  {
    var p, ys := Find(xs, key), Touch(xs, key);
    if p < |xs| {
      assert ys == [xs[p]] + Without(xs, key);
      WithoutExactly(xs, key, y);
    }
  }

  /** An item that fits is in front right after its put, followed by as many of the others as fit, most recent first. */
  lemma PutExactly(xs: seq<Item>, capacity: nat, x: Item)
    ensures var rest := Without(xs, x.key);
            if Size(x) > capacity then Put(xs, capacity, x) == rest
            else exists n: nat :: n <= |rest| && Put(xs, capacity, x) == [x] + rest[..n] && LongestFit(rest, capacity - Size(x), n)
  {
    hide Without, Evict;
    var rest := Without(xs, x.key);
    if Size(x) <= capacity {
      EvictIsLongestFit(rest, capacity - Size(x));
      assert LongestFit(rest, capacity - Size(x), |Evict(rest, capacity - Size(x))|);
    }
  }

  predicate LongestFit(xs: seq<Item>, room: nat, n: nat)
  {
    n <= |xs| && Total(xs[..n]) <= room && (n < |xs| ==> Total(xs[..n + 1]) > room)
  }

  /** After any run, an item that fits and was put last is the first one; a hit in between keeps its data. */
  lemma PutIsInFront(capacity: nat, ops: seq<Op>, x: Item, more: seq<Op>)
    requires Size(x) <= capacity
    requires more == [] || more == [GetOp(x.key)]
    ensures var xs := Run(capacity, ops + [PutOp(x)] + more); xs != [] && xs[0] == x
  {
    var now := ops + [PutOp(x)];
    assert now[..|ops|] == ops;
    assert Run(capacity, now) == Put(Run(capacity, ops), capacity, x);
    if more == [] {
      assert now + more == now;
    } else {
      assert (now + more)[..|now|] == now;
      assert Run(capacity, now + more) == Touch(Run(capacity, now), x.key);
    }
  }

  /** An invalidation takes out its key and nothing else, and clearing takes out everything. */
  lemma GoneExactly(capacity: nat, ops: seq<Op>, key: Bytes, y: Item)
    ensures y in Run(capacity, ops + [InvalidateOp(key)]) <==> y in Run(capacity, ops) && y.key != key
    ensures Run(capacity, ops + [ClearOp]) == [] && Latest(ops + [ClearOp], key) == [] && Latest(ops + [InvalidateOp(key)], key) == []
  {
    assert (ops + [InvalidateOp(key)])[..|ops|] == ops && (ops + [ClearOp])[..|ops|] == ops;
    RunIsLru(capacity, ops);
    WithoutExactly(Run(capacity, ops), key, y);
  }

  /** With room for everything a put drops nothing. */
  lemma PutDropsNothing(xs: seq<Item>, capacity: nat, x: Item)
    requires Size(x) + Total(Without(xs, x.key)) <= capacity
    ensures Put(xs, capacity, x) == [x] + Without(xs, x.key)
  {
    hide Without;
  }
}
