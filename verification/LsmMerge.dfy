/**
 The k-way merge behind compaction: a min-heap of iterators over strictly ascending inputs.  On
 equal keys the higher-numbered input comes first, and the others are skipped.
 */
module LsmMerge {
  import opened Bytes

  datatype Entry = Entry(key: Bytes, value: Bytes, deleted: bool)

  type Inputs = seq<seq<Entry>>

  predicate Ascending(es: seq<Entry>)
  {
    forall i, j :: 0 <= i < j < |es| ==> Less(es[i].key, es[j].key)
  }

  /** Iterator positions over the inputs; an iterator is valid while entries remain. */
  datatype Iters = Iters(inputs: Inputs, pos: seq<nat>) {
    predicate Ok()
    {
      && |pos| == |inputs|
      && (forall i :: 0 <= i < |inputs| ==> Ascending(inputs[i]) && pos[i] <= |inputs[i]|)
    }

    predicate Valid(i: nat) requires Ok() { i < |inputs| && pos[i] < |inputs[i]| }

    function Current(i: nat): Entry requires Ok() && Valid(i) { inputs[i][pos[i]] }

    function Advanced(i: nat): Iters requires Ok() && Valid(i) { Iters(inputs, pos[i := pos[i] + 1]) }
  }

  /** The heap order: smaller key first, on equal keys the higher-numbered input first. */
  predicate Before(it: Iters, a: nat, b: nat)
    requires it.Ok() && it.Valid(a) && it.Valid(b)
  {
    Less(it.Current(a).key, it.Current(b).key) || (it.Current(a).key == it.Current(b).key && a > b)
  }

  predicate AllValid(it: Iters, h: seq<nat>)
    requires it.Ok()
  {
    forall x :: 0 <= x < |h| ==> it.Valid(h[x])
  }

  lemma BeforeTransitive(it: Iters, a: nat, b: nat, c: nat)
    requires it.Ok() && it.Valid(a) && it.Valid(b) && it.Valid(c) && Before(it, a, b) && Before(it, b, c)
    ensures Before(it, a, c)
  {
    var ka, kb, kc := it.Current(a).key, it.Current(b).key, it.Current(c).key;
    if Less(ka, kb) && Less(kb, kc) { LessTransitive(ka, kb, kc); }
  }

  lemma BeforeTotal(it: Iters, a: nat, b: nat)
    requires it.Ok() && it.Valid(a) && it.Valid(b)
    ensures a == b || Before(it, a, b) || Before(it, b, a)
    ensures !(Before(it, a, b) && Before(it, b, a)) && !Before(it, a, a)
  {
    var ka, kb := it.Current(a).key, it.Current(b).key;
    LessTotal(ka, kb);
    LessIrreflexive(ka);
    if Less(ka, kb) { LessAsymmetric(ka, kb); }
    if Less(kb, ka) { LessAsymmetric(kb, ka); }
  }

  /** `a` may stand above `b` in the heap. */
  predicate NotAfter(it: Iters, a: nat, b: nat)
    requires it.Ok() && it.Valid(a) && it.Valid(b)
  {
    !Before(it, b, a)
  }

  lemma NotAfterTransitive(it: Iters, a: nat, b: nat, c: nat)
    requires it.Ok() && it.Valid(a) && it.Valid(b) && it.Valid(c) && NotAfter(it, a, b) && NotAfter(it, b, c)
    ensures NotAfter(it, a, c)
  {
    BeforeTotal(it, a, b);
    BeforeTotal(it, b, c);
    BeforeTotal(it, a, c);
    if Before(it, c, a) && a != b && b != c { BeforeTransitive(it, a, b, c); }
  }

  // ---- The heap ----

  function Parent(c: nat): nat requires c > 0 { (c - 1) / 2 }

  /** Children of nodes from `lo` on stand below their parents. */
  ghost predicate HeapFrom(it: Iters, h: seq<nat>, lo: nat)
    requires it.Ok() && AllValid(it, h)
  {
    forall c :: 0 < c < |h| && Parent(c) >= lo ==> NotAfter(it, h[Parent(c)], h[c])
  }

  function Swap(h: seq<nat>, i: nat, j: nat): (r: seq<nat>)
    requires i < |h| && j < |h|
    ensures |r| == |h|
  {
    h[i := h[j]][j := h[i]]
  }

  lemma SwapPermutes(h: seq<nat>, i: nat, j: nat)
    requires i < |h| && j < |h|
    ensures multiset(Swap(h, i, j)) == multiset(h)
  {
  }

  /** Which of a node and its children comes first. */
  function Smallest(it: Iters, h: seq<nat>, idx: nat): (r: nat)
    requires it.Ok() && AllValid(it, h) && idx < |h|
    ensures idx <= r < |h|
    ensures r == idx || r == 2 * idx + 1 || r == 2 * idx + 2
  {
    var s := if 2 * idx + 1 < |h| && Before(it, h[2 * idx + 1], h[idx]) then 2 * idx + 1 else idx;
    if 2 * idx + 2 < |h| && Before(it, h[2 * idx + 2], h[s]) then 2 * idx + 2 else s
  }

  lemma SmallestFirst(it: Iters, h: seq<nat>, idx: nat)
    requires it.Ok() && AllValid(it, h) && idx < |h|
    ensures var s := Smallest(it, h, idx);
            && NotAfter(it, h[s], h[idx])
            && (forall c :: c < |h| && (c == 2 * idx + 1 || c == 2 * idx + 2) ==> NotAfter(it, h[s], h[c]))
  {
    BeforeTotal(it, h[idx], h[idx]);
    if 2 * idx + 1 < |h| {
      BeforeTotal(it, h[2 * idx + 1], h[idx]);
      BeforeTotal(it, h[2 * idx + 1], h[2 * idx + 1]);
      if 2 * idx + 2 < |h| {
        BeforeTotal(it, h[2 * idx + 2], h[2 * idx + 2]);
        BeforeTotal(it, h[2 * idx + 2], h[2 * idx + 1]);
        BeforeTotal(it, h[2 * idx + 2], h[idx]);
        if Before(it, h[2 * idx + 1], h[idx]) && Before(it, h[2 * idx + 2], h[2 * idx + 1]) {
          BeforeTransitive(it, h[2 * idx + 2], h[2 * idx + 1], h[idx]);
        }
        if Before(it, h[2 * idx + 1], h[2 * idx + 2]) && Before(it, h[2 * idx + 2], h[idx]) {
          BeforeTransitive(it, h[2 * idx + 1], h[2 * idx + 2], h[idx]);
        }
      }
    }
  }

  lemma SwapValid(it: Iters, h: seq<nat>, i: nat, j: nat)
    requires it.Ok() && AllValid(it, h) && i < |h| && j < |h|
    ensures AllValid(it, Swap(h, i, j))
  {
  }

  function SiftDown(it: Iters, h: seq<nat>, idx: nat): (r: seq<nat>)
    requires it.Ok() && AllValid(it, h) && idx < |h|
    ensures |r| == |h|
    decreases |h| - idx
  {
    var s := Smallest(it, h, idx);
    if s == idx then h
    else
      SwapValid(it, h, idx, s);
      SiftDown(it, Swap(h, idx, s), s)
  }

  /** Ordered from `lo` on except around `idx`, whose children are not before `idx`'s own parent. */
  ghost predicate HeapExcept(it: Iters, h: seq<nat>, lo: nat, idx: nat)
    requires it.Ok() && AllValid(it, h)
  {
    && (forall c :: 0 < c < |h| && Parent(c) >= lo && Parent(c) != idx ==> NotAfter(it, h[Parent(c)], h[c]))
    && (idx > lo && idx < |h| && Parent(idx) >= lo ==>
          forall c :: 0 < c < |h| && Parent(c) == idx ==> NotAfter(it, h[Parent(idx)], h[c]))
  }

  lemma SwapStep(it: Iters, h: seq<nat>, lo: nat, idx: nat)
    requires it.Ok() && AllValid(it, h) && lo <= idx < |h| && HeapExcept(it, h, lo, idx) && Smallest(it, h, idx) != idx
    ensures var s := Smallest(it, h, idx);
            AllValid(it, Swap(h, idx, s)) && HeapExcept(it, Swap(h, idx, s), lo, s)
  {
    hide Before, Smallest;
    var s := Smallest(it, h, idx);
    SmallestFirst(it, h, idx);
    SwapValid(it, h, idx, s);
    var r := Swap(h, idx, s);
    assert Parent(s) == idx;
    forall c | 0 < c < |r| && Parent(c) >= lo && Parent(c) != s ensures NotAfter(it, r[Parent(c)], r[c]) {
      if Parent(c) == idx {
        assert c == 2 * idx + 1 || c == 2 * idx + 2;
      } else if c == idx {
        assert r[c] == h[s] && r[Parent(c)] == h[Parent(c)];
      } else {
        assert c != s;
        assert r[c] == h[c] && r[Parent(c)] == h[Parent(c)];
      }
    }
    forall c | 0 < c < |r| && Parent(c) == s ensures NotAfter(it, r[Parent(s)], r[c]) {
      assert r[c] == h[c] && r[idx] == h[s];
    }
  }

  lemma {:induction false} SiftRestores(it: Iters, h: seq<nat>, lo: nat, idx: nat)
    requires it.Ok() && AllValid(it, h) && lo <= idx < |h| && HeapExcept(it, h, lo, idx)
    ensures AllValid(it, SiftDown(it, h, idx)) && HeapFrom(it, SiftDown(it, h, idx), lo)
    ensures multiset(SiftDown(it, h, idx)) == multiset(h)
    decreases |h| - idx
  {
    hide Before;
    var s := Smallest(it, h, idx);
    if s == idx {
      SmallestFirst(it, h, idx);
      forall c | 0 < c < |h| && Parent(c) >= lo ensures NotAfter(it, h[Parent(c)], h[c]) {
        if Parent(c) == idx { assert c == 2 * idx + 1 || c == 2 * idx + 2; }
      }
    } else {
      SwapStep(it, h, lo, idx);
      SwapPermutes(h, idx, s);
      SiftRestores(it, Swap(h, idx, s), lo, s);
    }
  }

  /** Heap order makes the root come first. */
  lemma {:induction false} RootFirst(it: Iters, h: seq<nat>, x: nat)
    requires it.Ok() && AllValid(it, h) && HeapFrom(it, h, 0) && x < |h|
    ensures NotAfter(it, h[0], h[x])
    decreases x
  {
    if x == 0 {
      BeforeTotal(it, h[0], h[0]);
    } else {
      RootFirst(it, h, Parent(x));
      NotAfterTransitive(it, h[0], h[Parent(x)], h[x]);
    }
  }

  // ---- The merge state ----

  function ValidSet(it: Iters): set<nat>
    requires it.Ok()
  {
    set i: nat | i < |it.inputs| && it.Valid(i)
  }

  /** The heap holds exactly the valid iterators, once each, in heap order. */
  ghost predicate HeapOk(it: Iters, h: seq<nat>)
  {
    it.Ok() && AllValid(it, h) && HeapFrom(it, h, 0) && multiset(h) == multiset(ValidSet(it))
  }

  lemma InHeap(it: Iters, h: seq<nat>, i: nat) returns (x: nat)
    requires HeapOk(it, h) && it.Valid(i)
    ensures x < |h| && h[x] == i
  {
    assert i in ValidSet(it);
    assert i in multiset(h);
    x :| x < |h| && h[x] == i;
  }

  lemma HeapDistinct(it: Iters, h: seq<nat>, x: nat, y: nat)
    requires HeapOk(it, h) && x < y < |h|
    ensures h[x] != h[y]
  {
    if h[x] == h[y] { CountTwice(h, x, y); }
  }

  lemma CountTwice(h: seq<nat>, x: nat, y: nat)
    requires x < y < |h| && h[x] == h[y]
    ensures multiset(h)[h[x]] >= 2
  {
    assert h == h[..y] + [h[y]] + h[y + 1..];
    assert h[x] in h[..y];
    assert multiset(h) == multiset(h[..y]) + multiset{h[y]} + multiset(h[y + 1..]);
  }

  /** The top of the heap has the smallest current key, and the highest number among equals. */
  lemma TopIsFirst(it: Iters, h: seq<nat>, i: nat)
    requires HeapOk(it, h) && it.Valid(i)
    ensures |h| > 0 && NotAfter(it, h[0], i)
  {
    var x := InHeap(it, h, i);
    RootFirst(it, h, x);
  }

  /** Take the top iterator one entry further: re-sift it, or drop it when it is exhausted. */
  function StepHeap(it: Iters, h: seq<nat>): seq<nat>
    requires HeapOk(it, h) && h != []
  {
    var top := h[0];
    var it1 := it.Advanced(top);
    AdvancedOk(it, top);
    OthersValid(it, h);
    if it1.Valid(top) then SiftDown(it1, h, 0)
    else
      var h1 := h[0 := h[|h| - 1]][..|h| - 1];
      if h1 == [] then [] else SiftDown(it1, h1, 0)
  }

  lemma AdvancedOk(it: Iters, i: nat)
    requires it.Ok() && it.Valid(i)
    ensures it.Advanced(i).Ok()
    ensures forall j: nat :: j != i ==> (it.Advanced(i).Valid(j) <==> it.Valid(j))
    ensures forall j: nat :: j != i && it.Valid(j) ==> it.Advanced(i).Current(j) == it.Current(j)
  {
  }

  /** After advancing the top, the rest of the heap is still valid. */
  lemma OthersValid(it: Iters, h: seq<nat>)
    requires HeapOk(it, h) && h != []
    ensures var it1 := it.Advanced(h[0]);
            && it1.Ok()
            && (it1.Valid(h[0]) ==> AllValid(it1, h))
            && AllValid(it1, h[1..])
            && AllValid(it1, h[0 := h[|h| - 1]][..|h| - 1])
  {
    var it1 := it.Advanced(h[0]);
    AdvancedOk(it, h[0]);
    forall x: nat | 0 < x < |h| ensures it1.Valid(h[x]) { HeapDistinct(it, h, 0, x); }
    var h1 := h[0 := h[|h| - 1]][..|h| - 1];
    assert forall x: nat :: x < |h1| ==> h1[x] == if x == 0 then h[|h| - 1] else h[x];
  }

  /** The order among the other iterators is untouched. */
  lemma OthersOrdered(it: Iters, h: seq<nat>, a: nat, b: nat)
    requires HeapOk(it, h) && h != [] && it.Valid(a) && it.Valid(b) && a != h[0] && b != h[0]
    ensures var it1 := it.Advanced(h[0]);
            it1.Ok() && it1.Valid(a) && it1.Valid(b) && (NotAfter(it, a, b) <==> NotAfter(it1, a, b))
  {
    AdvancedOk(it, h[0]);
  }

  lemma StepHeapKeepsResift(it: Iters, h: seq<nat>)
    requires HeapOk(it, h) && h != [] && it.Advanced(h[0]).Ok() && it.Advanced(h[0]).Valid(h[0])
    ensures HeapOk(it.Advanced(h[0]), StepHeap(it, h))
  {
    hide NotAfter;
    var it1 := it.Advanced(h[0]);
    OthersValid(it, h);
    forall c | 0 < c < |h| && Parent(c) != 0 ensures NotAfter(it1, h[Parent(c)], h[c]) {
      HeapDistinct(it, h, 0, c);
      HeapDistinct(it, h, 0, Parent(c));
      OthersOrdered(it, h, h[Parent(c)], h[c]);
    }
    SiftRestores(it1, h, 0, 0);
    AdvancedOk(it, h[0]);
    assert ValidSet(it1) == ValidSet(it);
  }

  lemma DropMultiset(h: seq<nat>)
    requires h != []
    ensures multiset(h[0 := h[|h| - 1]][..|h| - 1]) == multiset(h) - multiset{h[0]}
  {
    var h1 := h[0 := h[|h| - 1]][..|h| - 1];
    if |h| == 1 {
      assert h == [h[0]];
      assert h1 == [];
    } else {
      var mid := h[1..|h| - 1];
      assert h == [h[0]] + mid + [h[|h| - 1]];
      assert h1 == [h[|h| - 1]] + mid;
    }
  }

  /** Without the exhausted top, the heap holds the iterators still valid. */
  lemma DropValid(it: Iters, h: seq<nat>)
    requires HeapOk(it, h) && h != [] && it.Advanced(h[0]).Ok() && !it.Advanced(h[0]).Valid(h[0])
    ensures multiset(h[0 := h[|h| - 1]][..|h| - 1]) == multiset(ValidSet(it.Advanced(h[0])))
  {
    hide NotAfter, Before, HeapFrom;
    var it1 := it.Advanced(h[0]);
    DropMultiset(h);
    AdvancedOk(it, h[0]);
    assert ValidSet(it1) == ValidSet(it) - {h[0]};
  }

  lemma StepHeapKeepsDrop(it: Iters, h: seq<nat>)
    requires HeapOk(it, h) && h != [] && it.Advanced(h[0]).Ok() && !it.Advanced(h[0]).Valid(h[0])
    ensures HeapOk(it.Advanced(h[0]), StepHeap(it, h))
  {
    hide NotAfter, Before;
    var it1 := it.Advanced(h[0]);
    OthersValid(it, h);
    DropValid(it, h);
    var h1 := h[0 := h[|h| - 1]][..|h| - 1];
    if h1 != [] {
      forall c | 0 < c < |h1| && Parent(c) != 0 ensures NotAfter(it1, h1[Parent(c)], h1[c]) {
        assert h1[c] == h[c] && h1[Parent(c)] == h[Parent(c)];
        HeapDistinct(it, h, 0, c);
        HeapDistinct(it, h, 0, Parent(c));
        OthersOrdered(it, h, h[Parent(c)], h[c]);
      }
      SiftRestores(it1, h1, 0, 0);
    }
  }

  lemma StepHeapKeeps(it: Iters, h: seq<nat>)
    requires HeapOk(it, h) && h != []
    ensures it.Advanced(h[0]).Ok() && HeapOk(it.Advanced(h[0]), StepHeap(it, h))
  {
    hide HeapOk, StepHeap;
    TopValid(it, h);
    AdvancedOk(it, h[0]);
    if it.Advanced(h[0]).Valid(h[0]) { StepHeapKeepsResift(it, h); } else { StepHeapKeepsDrop(it, h); }
  }

  lemma TopValid(it: Iters, h: seq<nat>)
    requires HeapOk(it, h) && h != []
    ensures it.Ok() && it.Valid(h[0])
  {
  }
}
