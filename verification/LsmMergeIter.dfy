/**
 The merge iterator object: a heap array of iterator numbers, rearranged in place.
 */
module LsmMergeIter {
  import opened Bytes
  import opened LsmMerge
  import opened LsmMergeRun

  // ---- Termination ----

  /** Entries not yet passed by the first `n` iterators. */
  function Remaining(it: Iters, n: nat): nat
    requires it.Ok() && n <= |it.inputs|
  {
    if n == 0 then 0 else Remaining(it, n - 1) + |it.inputs[n - 1]| - it.pos[n - 1]
  }

  lemma {:induction false} AdvancingConsumes(it: Iters, i: nat, n: nat)
    requires it.Ok() && it.Valid(i) && n <= |it.inputs| && it.Advanced(i).Ok()
    ensures Remaining(it.Advanced(i), n) == Remaining(it, n) - if i < n then 1 else 0
    decreases n
  {
    if n > 0 { AdvancingConsumes(it, i, n - 1); }
  }

  // ---- Building ----

  /** The valid iterators among the first `n`, in order of number. */
  function ValidBelow(it: Iters, n: nat): (r: seq<nat>)
    requires it.Ok() && n <= |it.inputs|
    ensures |r| <= n && AllValid(it, r)
  {
    if n == 0 then [] else ValidBelow(it, n - 1) + if it.Valid(n - 1) then [n - 1] else []
  }

  function ValidUpTo(it: Iters, n: nat): set<nat>
    requires it.Ok()
  {
    set i: nat | i < n && it.Valid(i)
  }

  lemma {:induction false} ValidBelowAll(it: Iters, n: nat)
    requires it.Ok() && n <= |it.inputs|
    ensures multiset(ValidBelow(it, n)) == multiset(ValidUpTo(it, n))
    decreases n
  {
    if n > 0 {
      ValidBelowAll(it, n - 1);
      ValidUpToNext(it, n);
      var front := ValidBelow(it, n - 1);
      if it.Valid(n - 1) {
        assert ValidBelow(it, n) == front + [n - 1];
      } else {
        assert ValidBelow(it, n) == front + [] == front;
      }
    }
  }

  lemma ValidUpToNext(it: Iters, n: nat)
    requires it.Ok() && 0 < n <= |it.inputs|
    ensures n - 1 !in ValidUpTo(it, n - 1)
    ensures ValidUpTo(it, n) == ValidUpTo(it, n - 1) + if it.Valid(n - 1) then {n - 1} else {}
  {
  }

  /** One round of heap building: sifting node `i` extends the ordered part down to `i`. */
  lemma BuildStep(it: Iters, h: seq<nat>, i: nat)
    requires it.Ok() && AllValid(it, h) && i < |h| && (HeapFrom(it, h, i + 1) || HeapFrom(it, h, i))
    ensures AllValid(it, SiftDown(it, h, i)) && HeapFrom(it, SiftDown(it, h, i), i)
    ensures multiset(SiftDown(it, h, i)) == multiset(h)
  {
    hide NotAfter, SiftDown;
    SiftRestores(it, h, i, i);
  }

  // ---- The iterator object ----

  class MergeIter {
    const inputs: Inputs
    var pos: seq<nat>
    const heap: array<nat>
    var heapSize: nat

    ghost function Its(): Iters
      reads this
    {
      Iters(inputs, pos)
    }

    ghost predicate Valid()
      reads this, heap
    {
      heapSize <= heap.Length && Its().Ok() && HeapOk(Its(), heap[..heapSize])
    }

    constructor (its: Iters)
      requires its.Ok()
      ensures Valid() && Its() == its && fresh(heap)
    {
      inputs, pos, heapSize := its.inputs, its.pos, 0;
      heap := new nat[|its.inputs|];
      new;
      Collect();
      Build();
    }

    /** Put the valid iterators into the heap array. */
    method Collect()
      requires Its().Ok() && heap.Length == |inputs|
      modifies this`heapSize, heap
      ensures heapSize <= heap.Length && heap[..heapSize] == ValidBelow(Its(), |inputs|)
    {
      heapSize := 0;
      for i := 0 to |inputs|
        invariant heapSize <= i && heap[..heapSize] == ValidBelow(Its(), i)
      {
        if pos[i] < |inputs[i]| {
          heap[heapSize] := i;
          heapSize := heapSize + 1;
        }
      }
    }

    /** Order the heap bottom-up. */
    method Build()
      requires Its().Ok() && heapSize <= heap.Length && heap[..heapSize] == ValidBelow(Its(), |inputs|)
      modifies heap
      ensures Valid()
    {
      hide NotAfter, SiftDown, ValidBelow;
      var i: nat := heapSize / 2;
      ghost var it := Its();
      ghost var h0 := heap[..heapSize];
      while i > 0
        invariant i <= heapSize && AllValid(it, heap[..heapSize]) && HeapFrom(it, heap[..heapSize], i)
        invariant multiset(heap[..heapSize]) == multiset(h0)
      {
        BuildStep(it, heap[..heapSize], i - 1);
        SiftDownAt(i - 1);
        i := i - 1;
      }
      if heapSize > 0 {
        BuildStep(it, heap[..heapSize], 0);
        SiftDownAt(0);
      }
      ValidBelowAll(it, |inputs|);
      assert ValidSet(it) == ValidUpTo(it, |inputs|);
    }

    /** Take the top iterator one entry further and restore the heap. */
    method StepTop()
      requires Valid() && heapSize > 0
      modifies this, heap
      ensures Valid() && Its() == old(Its().Advanced(heap[0]))
      ensures heap[..heapSize] == old(StepHeap(Its(), heap[..heapSize]))
    {
      hide HeapFrom, SiftDown, AllValid, HeapOk;
      ghost var it, h := Its(), heap[..heapSize];
      TopValid(it, h);
      StepHeapKeeps(it, h);
      OthersValid(it, h);
      var top := heap[0];
      pos := pos[top := pos[top] + 1];
      if pos[top] < |inputs[top]| {
        SiftDownAt(0);
      } else {
        heapSize := heapSize - 1;
        heap[0] := heap[heapSize];
        assert heap[..heapSize] == h[0 := h[|h| - 1]][..|h| - 1];
        if heapSize > 0 { SiftDownAt(0); }
      }
    }

    /** Step past the current key in every input that holds it. */
    method Next(ghost seen: seq<Entry>)
      requires Valid() && heapSize > 0 && Progress(Its(), heap[..heapSize], seen)
      modifies this, heap
      ensures Valid() && Progress(Its(), heap[..heapSize], seen + [old(Its().Current(heap[0]))])
      ensures Remaining(Its(), |inputs|) < old(Remaining(Its(), |inputs|))
    {
      hide HeapOk, Progress, Skipping, Remaining, Ascending;
      TopValid(Its(), heap[..heapSize]);
      Emit(Its(), heap[..heapSize], seen);
      ghost var e := Its().Current(heap[0]);
      ghost var seen' := seen + [e];
      var saved := inputs[heap[0]][pos[heap[0]]].key;
      ghost var untouched := true;
      while heapSize > 0
        invariant Valid() && Skipping(Its(), heap[..heapSize], seen', saved)
        invariant untouched ==> heapSize > 0 && Its() == old(Its()) && heap[..heapSize] == old(heap[..heapSize])
        invariant !untouched ==> Remaining(Its(), |inputs|) < old(Remaining(Its(), |inputs|))
        decreases Remaining(Its(), |inputs|)
      {
        TopValid(Its(), heap[..heapSize]);
        if inputs[heap[0]][pos[heap[0]]].key != saved { break; }
        SkipOne(Its(), heap[..heapSize], seen', saved);
        AdvancingConsumes(Its(), heap[0], |inputs|);
        StepTop();
        untouched := false;
      }
      if heapSize > 0 { TopValid(Its(), heap[..heapSize]); }
      SkipDone(Its(), heap[..heapSize], seen', saved);
    }

    method SiftDownAt(idx0: nat)
      requires heapSize <= heap.Length && Its().Ok() && AllValid(Its(), heap[..heapSize]) && idx0 < heapSize
      modifies heap
      ensures AllValid(Its(), old(heap[..heapSize])) && heap[..heapSize] == SiftDown(Its(), old(heap[..heapSize]), idx0)
      ensures forall x :: heapSize <= x < heap.Length ==> heap[x] == old(heap[x])
    {
      var idx := idx0;
      ghost var it := Its();
      while true
        invariant idx < heapSize <= heap.Length && it == Its() && AllValid(it, heap[..heapSize])
        invariant SiftDown(it, heap[..heapSize], idx) == SiftDown(it, old(heap[..heapSize]), idx0)
        invariant forall x :: heapSize <= x < heap.Length ==> heap[x] == old(heap[x])
        decreases heapSize - idx
      {
        hide SiftDown, AllValid, Before, Swap;
        ghost var h := heap[..heapSize];
        var smallest := FindSmallest(idx);
        if smallest == idx { SiftStops(it, h, idx); break; }
        SiftSwaps(it, h, idx);
        var tmp := heap[idx];
        heap[idx] := heap[smallest];
        heap[smallest] := tmp;
        SwapIs(h, idx, smallest, heap[..heapSize]);
        idx := smallest;
      }
    }

    lemma SiftStops(it: Iters, h: seq<nat>, idx: nat)
      requires it.Ok() && AllValid(it, h) && idx < |h| && Smallest(it, h, idx) == idx
      ensures SiftDown(it, h, idx) == h
    {
    }

    lemma SiftSwaps(it: Iters, h: seq<nat>, idx: nat)
      requires it.Ok() && AllValid(it, h) && idx < |h| && Smallest(it, h, idx) != idx
      ensures var s := Smallest(it, h, idx);
              AllValid(it, Swap(h, idx, s)) && SiftDown(it, h, idx) == SiftDown(it, Swap(h, idx, s), s)
    {
      SwapValid(it, h, idx, Smallest(it, h, idx));
    }

    lemma SwapIs(h: seq<nat>, i: nat, j: nat, h': seq<nat>)
      requires i < |h| && j < |h| && |h'| == |h| && h'[i] == h[j] && h'[j] == h[i]
      requires forall x :: 0 <= x < |h| && x != i && x != j ==> h'[x] == h[x]
      ensures h' == Swap(h, i, j)
    {
    }

    method FindSmallest(idx: nat) returns (smallest: nat)
      requires heapSize <= heap.Length && Its().Ok() && AllValid(Its(), heap[..heapSize]) && idx < heapSize
      ensures smallest == Smallest(Its(), heap[..heapSize], idx)
    {
      smallest := idx;
      var left, right := 2 * idx + 1, 2 * idx + 2;
      if left < heapSize {
        var b := CompareLess(heap[left], heap[smallest]);
        if b { smallest := left; }
      }
      if right < heapSize {
        var b := CompareLess(heap[right], heap[smallest]);
        if b { smallest := right; }
      }
    }

    method CompareLess(a: nat, b: nat) returns (r: bool)
      requires Its().Ok() && Its().Valid(a) && Its().Valid(b)
      ensures r <==> Before(Its(), a, b)
    {
      var ka, kb := inputs[a][pos[a]].key, inputs[b][pos[b]].key;
      if ka != kb { return Less(ka, kb); }
      LessIrreflexive(ka);
      return !(a <= b);
    }
  }
  /** The merge loop of compaction; tombstones are dropped when the target is the bottommost level. */
  method MergeAll(inputs: Inputs, bottommost: bool) returns (written: seq<Entry>)
    requires forall i: nat :: i < |inputs| ==> Ascending(inputs[i])
    ensures Ascending(written)
    ensures ToMap(written) == Surviving(Overlay(inputs), bottommost)
  {
    hide MergeOf, Progress, HeapOk, ToMap, Overlay, Remaining;
    var mi := new MergeIter(Iters(inputs, seq(|inputs|, _ => 0)));
    var out: seq<Entry> := [];
    written := [];
    Started(mi.Its(), mi.heap[..mi.heapSize]);
    while mi.heapSize > 0
      invariant mi.Valid() && mi.inputs == inputs && Progress(mi.Its(), mi.heap[..mi.heapSize], out)
      invariant written == Kept(out, bottommost) && fresh(mi) && fresh(mi.heap)
      decreases Remaining(mi.Its(), |inputs|)
    {
      TopValid(mi.Its(), mi.heap[..mi.heapSize]);
      var e := inputs[mi.heap[0]][mi.pos[mi.heap[0]]];
      if !(e.deleted && bottommost) { written := written + [e]; }
      KeptStep(out, e, bottommost);
      mi.Next(out);
      out := out + [e];
    }
    assert mi.heap[..mi.heapSize] == [];
    Complete(mi.Its(), out);
    MergeIsOverlay(inputs, out);
    MergeAscending(inputs, out);
    KeptMap(out, bottommost);
  }

  lemma MergeAscending(inputs: Inputs, out: seq<Entry>)
    requires MergeOf(inputs, out)
    ensures Ascending(out)
  {
  }

  /** What a compaction must leave: everything, less the tombstones when nothing lies below. */
  function Surviving(m: map<Bytes, Entry>, bottommost: bool): map<Bytes, Entry>
  {
    map k | k in m && !(bottommost && m[k].deleted) :: m[k]
  }

  /** Entries written to the output table. */
  function Kept(es: seq<Entry>, bottommost: bool): seq<Entry>
  {
    if es == [] then []
    else Kept(es[..|es| - 1], bottommost) + if es[|es| - 1].deleted && bottommost then [] else [es[|es| - 1]]
  }

  lemma KeptStep(es: seq<Entry>, e: Entry, bottommost: bool)
    ensures Kept(es + [e], bottommost) == Kept(es, bottommost) + if e.deleted && bottommost then [] else [e]
  {
    assert (es + [e])[..|es|] == es;
  }

  lemma {:induction false} KeptAscends(es: seq<Entry>, bottommost: bool)
    requires Ascending(es)
    ensures Ascending(Kept(es, bottommost)) && forall e :: e in Kept(es, bottommost) ==> e in es
    decreases |es|
  {
    if es != [] {
      var front, last := es[..|es| - 1], es[|es| - 1];
      KeptAscends(front, bottommost);
      forall e | e in Kept(front, bottommost) ensures Less(e.key, last.key) {
        var x :| 0 <= x < |front| && front[x] == e;
        assert es[x] == e;
      }
    }
  }

  lemma SurvivingAdd(m: map<Bytes, Entry>, e: Entry, bottommost: bool)
    requires e.key !in m
    ensures Surviving(m[e.key := e], bottommost)
            == if e.deleted && bottommost then Surviving(m, bottommost) else Surviving(m, bottommost)[e.key := e]
  {
  }

  lemma {:induction false} KeptMap(es: seq<Entry>, bottommost: bool)
    requires Ascending(es)
    ensures Ascending(Kept(es, bottommost))
    ensures ToMap(Kept(es, bottommost)) == Surviving(ToMap(es), bottommost)
    decreases |es|
  {
    KeptAscends(es, bottommost);
    if es != [] {
      hide Ascending, Surviving;
      var front, last := es[..|es| - 1], es[|es| - 1];
      FrontAscends(es);
      KeptMap(front, bottommost);
      ToMapHas(front, last.key);
      SurvivingAdd(ToMap(front), last, bottommost);
      var kept := Kept(front, bottommost);
      if last.deleted && bottommost {
        assert kept + [] == kept;
      } else {
        assert (kept + [last])[..|kept|] == kept;
        assert ToMap(kept + [last]) == ToMap(kept)[last.key := last];
      }
    }
  }

  lemma FrontAscends(es: seq<Entry>)
    requires Ascending(es) && es != []
    ensures Ascending(es[..|es| - 1]) && !Holds(es[..|es| - 1], es[|es| - 1].key)
  {
    forall x: nat | x < |es| - 1 ensures es[x].key != es[|es| - 1].key { LessAsymmetric(es[x].key, es[|es| - 1].key); }
  }

  lemma Started(it: Iters, h: seq<nat>)
    requires HeapOk(it, h) && forall i: nat :: i < |it.inputs| ==> it.pos[i] == 0
    ensures Progress(it, h, [])
  {
  }
}
