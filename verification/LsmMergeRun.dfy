/**
 Running the merge: what each step skips, and what the whole run outputs.
 */
module LsmMergeRun {
  import opened Bytes
  import opened LsmMerge

  // ---- What the output must be ----

  predicate Holds(es: seq<Entry>, k: Bytes)
  {
    exists x: nat :: x < |es| && es[x].key == k
  }

  predicate Somewhere(inputs: Inputs, k: Bytes)
  {
    exists i: nat :: i < |inputs| && Holds(inputs[i], k)
  }

  /** `e` stands in input `i`, and no higher-numbered input has its key. */
  predicate NewestIn(inputs: Inputs, i: nat, e: Entry)
  {
    && i < |inputs| && e in inputs[i]
    && forall j: nat :: i < j < |inputs| ==> !Holds(inputs[j], e.key)
  }

  ghost predicate Newest(inputs: Inputs, e: Entry)
  {
    exists i: nat :: NewestIn(inputs, i, e)
  }

  /** Every key of the union once, ascending, with the entry of the highest-numbered input that holds it. */
  ghost predicate MergeOf(inputs: Inputs, out: seq<Entry>)
  {
    && Ascending(out)
    && (forall o: nat :: o < |out| ==> Newest(inputs, out[o]))
    && (forall k: Bytes :: Somewhere(inputs, k) ==> Holds(out, k))
  }

  // ---- One step: current entry out, its key skipped everywhere ----

  /** How far the iterators have come: each passed entry is accounted for by `seen`. */
  ghost predicate Passed(it: Iters, seen: seq<Entry>)
    requires it.Ok()
  {
    forall i: nat, x: nat :: i < |it.inputs| && x < it.pos[i] ==> Holds(seen, it.inputs[i][x].key)
  }

  ghost predicate SeenBelow(it: Iters, seen: seq<Entry>)
    requires it.Ok()
  {
    forall o: nat, i: nat :: o < |seen| && it.Valid(i) ==> Less(seen[o].key, it.Current(i).key)
  }

  /** The invariant between steps of the merge. */
  ghost predicate Progress(it: Iters, h: seq<nat>, seen: seq<Entry>)
  {
    && HeapOk(it, h) && Ascending(seen)
    && Passed(it, seen) && SeenBelow(it, seen)
    && forall o: nat :: o < |seen| ==> Newest(it.inputs, seen[o])
  }

  /** While the entries with key `k` are being skipped: everything current is at or above `k`. */
  ghost predicate Skipping(it: Iters, h: seq<nat>, seen: seq<Entry>, k: Bytes)
  {
    && HeapOk(it, h) && Passed(it, seen) && Holds(seen, k)
    && forall i: nat :: it.Valid(i) ==> !Less(it.Current(i).key, k)
  }

  /** The top entry is the newest of its key. */
  lemma TopNewest(it: Iters, h: seq<nat>, seen: seq<Entry>)
    requires Progress(it, h, seen) && h != []
    ensures it.Valid(h[0]) && NewestIn(it.inputs, h[0], it.Current(h[0]))
  {
    hide HeapOk, Less, Ascending;
    TopValid(it, h);
    var top := h[0];
    var e := it.Current(top);
    forall j: nat | top < j < |it.inputs| ensures !Holds(it.inputs[j], e.key) {
      if Holds(it.inputs[j], e.key) {
        var y: nat :| y < |it.inputs[j]| && it.inputs[j][y].key == e.key;
        HigherIsPassed(it, h, seen, j, y);
      }
    }
  }

  /** A higher-numbered input with the top's key would have been on top, or would be behind already. */
  lemma HigherIsPassed(it: Iters, h: seq<nat>, seen: seq<Entry>, j: nat, y: nat)
    requires Progress(it, h, seen) && h != [] && it.Ok() && it.Valid(h[0])
    requires h[0] < j < |it.inputs| && y < |it.inputs[j]|
    ensures it.inputs[j][y].key != it.Current(h[0]).key
  {
    var k := it.Current(h[0]).key;
    if it.inputs[j][y].key == k {
      if y < it.pos[j] {
        assert Holds(seen, k);
        var o: nat :| o < |seen| && seen[o].key == k;
        LessIrreflexive(k);
        assert false;
      } else {
        assert it.Valid(j);
        TopIsFirst(it, h, j);
        assert false;
      }
    }
  }

  /** Emitting the top entry. */
  lemma Emit(it: Iters, h: seq<nat>, seen: seq<Entry>)
    requires Progress(it, h, seen) && h != []
    ensures it.Valid(h[0])
    ensures var e := it.Current(h[0]);
            && Skipping(it, h, seen + [e], e.key) && Ascending(seen + [e])
            && forall o: nat :: o < |seen + [e]| ==> Newest(it.inputs, (seen + [e])[o])
  {
    TopNewest(it, h, seen);
    var e := it.Current(h[0]);
    var seen' := seen + [e];
    assert Newest(it.inputs, e);
    forall i: nat | it.Valid(i) ensures !Less(it.Current(i).key, e.key) {
      TopIsFirst(it, h, i);
    }
    forall i: nat, x: nat | i < |it.inputs| && x < it.pos[i] ensures Holds(seen', it.inputs[i][x].key) {
      assert Holds(seen, it.inputs[i][x].key);
      var o: nat :| o < |seen| && seen[o].key == it.inputs[i][x].key;
      assert seen'[o].key == it.inputs[i][x].key;
    }
    assert seen'[|seen|].key == e.key;
  }

  /** Advancing the top iterator past `k` keeps skipping. */
  lemma SkipOne(it: Iters, h: seq<nat>, seen: seq<Entry>, k: Bytes)
    requires Skipping(it, h, seen, k) && h != [] && it.Valid(h[0]) && it.Current(h[0]).key == k
    ensures it.Advanced(h[0]).Ok() && Skipping(it.Advanced(h[0]), StepHeap(it, h), seen, k)
  {
    StepHeapKeeps(it, h);
    AdvancedOk(it, h[0]);
    hide StepHeap, HeapOk;
    var it1 := it.Advanced(h[0]);
    forall i: nat, x: nat | i < |it1.inputs| && x < it1.pos[i] ensures Holds(seen, it1.inputs[i][x].key) {
      if x < it.pos[i] { assert Holds(seen, it.inputs[i][x].key); }
    }
    forall i: nat | it1.Valid(i) ensures !Less(it1.Current(i).key, k) {
      if i == h[0] {
        var es, p := it.inputs[i], it.pos[i];
        assert Less(es[p].key, es[p + 1].key);
        LessAsymmetric(es[p].key, es[p + 1].key);
      } else {
        assert it.Valid(i);
      }
    }
  }

  /** When the top no longer has key `k`, nothing current has. */
  lemma SkipDone(it: Iters, h: seq<nat>, seen: seq<Entry>, k: Bytes)
    requires Skipping(it, h, seen, k) && Ascending(seen) && seen != [] && seen[|seen| - 1].key == k
    requires h != [] ==> it.Valid(h[0]) && it.Current(h[0]).key != k
    requires forall o: nat :: o < |seen| ==> Newest(it.inputs, seen[o])
    ensures Progress(it, h, seen)
  {
    forall o: nat, i: nat | o < |seen| && it.Valid(i) ensures Less(seen[o].key, it.Current(i).key) {
      TopIsFirst(it, h, i);
      var top, cur := it.Current(h[0]).key, it.Current(i).key;
      LessTotal(k, top);
      LessTotal(top, cur);
      if Less(top, cur) { LessTransitive(k, top, cur); }
      if o < |seen| - 1 { LessTransitive(seen[o].key, k, cur); }
    }
  }

  /** When the heap is empty the merge is complete. */
  lemma Complete(it: Iters, seen: seq<Entry>)
    requires Progress(it, [], seen)
    ensures MergeOf(it.inputs, seen)
  {
    forall k: Bytes | Somewhere(it.inputs, k) ensures Holds(seen, k) {
      var i: nat :| i < |it.inputs| && Holds(it.inputs[i], k);
      var x: nat :| x < |it.inputs[i]| && it.inputs[i][x].key == k;
      if it.Valid(i) { TopIsFirst(it, [], i); }
      assert x < it.pos[i];
    }
  }

  // ---- Uniqueness and the map view ----

  /** The inputs overlaid as maps, later inputs on top. */
  function Overlay(inputs: Inputs): map<Bytes, Entry>
  {
    if inputs == [] then map[] else Overlay(inputs[..|inputs| - 1]) + ToMap(inputs[|inputs| - 1])
  }

  function ToMap(es: seq<Entry>): map<Bytes, Entry>
  {
    if es == [] then map[] else ToMap(es[..|es| - 1])[es[|es| - 1].key := es[|es| - 1]]
  }

  lemma {:induction false} ToMapHas(es: seq<Entry>, k: Bytes)
    requires Ascending(es)
    ensures k in ToMap(es) <==> Holds(es, k)
    ensures forall x: nat :: x < |es| && es[x].key == k ==> k in ToMap(es) && ToMap(es)[k] == es[x]
    decreases |es|
  {
    if es != [] {
      var front, last := es[..|es| - 1], es[|es| - 1];
      ToMapHas(front, k);
      forall x: nat | x < |es| && es[x].key == k ensures k in ToMap(es) && ToMap(es)[k] == es[x] {
        if x < |front| {
          assert front[x] == es[x];
          LessAsymmetric(es[x].key, last.key);
        }
      }
      if k in ToMap(es) && k != last.key {
        var x: nat :| x < |front| && front[x].key == k;
        assert es[x].key == k;
      }
    }
  }

  /** An entry that is newest in its input is the one the overlay shows. */
  lemma {:induction false} OverlayNewest(inputs: Inputs, i: nat, e: Entry)
    requires (forall j: nat :: j < |inputs| ==> Ascending(inputs[j])) && NewestIn(inputs, i, e)
    ensures e.key in Overlay(inputs) && Overlay(inputs)[e.key] == e
    decreases |inputs|
  {
    hide Ascending;
    var front, last := inputs[..|inputs| - 1], inputs[|inputs| - 1];
    ToMapHas(last, e.key);
    if i < |inputs| - 1 {
      OverlayNewest(front, i, e);
    } else {
      var x: nat :| x < |last| && last[x] == e;
    }
  }

  lemma {:induction false} OverlayKeys(inputs: Inputs, k: Bytes)
    requires (forall j: nat :: j < |inputs| ==> Ascending(inputs[j])) && k in Overlay(inputs)
    ensures Somewhere(inputs, k)
    decreases |inputs|
  {
    hide Ascending;
    var front, last := inputs[..|inputs| - 1], inputs[|inputs| - 1];
    ToMapHas(last, k);
    if k !in ToMap(last) {
      OverlayKeys(front, k);
      var i: nat :| i < |front| && Holds(front[i], k);
      assert Holds(inputs[i], k);
    } else {
      assert Holds(inputs[|inputs| - 1], k);
    }
  }

  /** The merge is the overlay of its inputs, as a map. */
  lemma MergeIsOverlay(inputs: Inputs, out: seq<Entry>)
    requires (forall j: nat :: j < |inputs| ==> Ascending(inputs[j])) && MergeOf(inputs, out)
    ensures ToMap(out) == Overlay(inputs)
  {
    forall k: Bytes
      ensures k in ToMap(out) <==> k in Overlay(inputs)
      ensures k in ToMap(out) ==> ToMap(out)[k] == Overlay(inputs)[k]
    {
      hide Ascending, Overlay, ToMap;
      ToMapHas(out, k);
      if k in Overlay(inputs) { OverlayKeys(inputs, k); }
      if Holds(out, k) {
        var o: nat :| o < |out| && out[o].key == k;
        assert Newest(inputs, out[o]);
        var i: nat :| NewestIn(inputs, i, out[o]);
        OverlayNewest(inputs, i, out[o]);
      }
    }
  }
}
