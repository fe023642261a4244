/**
 Flushes and compactions across levels: which files end up where, and exactly when a compaction
 leaves every read as it was.
 */
module LsmManager {
  import opened Bytes
  import opened LsmMerge
  import opened LsmMergeRun
  import opened LsmMergeIter
  import opened SstBlock
  import opened SstFile
  import opened SstIter
  import opened LsmLevels

  datatype Manager = Manager(levels: seq<Files>, next: nat)

  // ---- File numbers ----

  ghost predicate DistinctNumbers(fs: Files)
  {
    forall i: nat, j: nat :: i < j < |fs| ==> fs[i].number != fs[j].number
  }

  /** The files whose numbers are not in `gone`. */
  function Keep(fs: Files, gone: set<nat>): (r: Files)
    ensures forall f :: f in r <==> f in fs && f.number !in gone
  {
    if fs == [] then []
    else
      var last := fs[|fs| - 1];
      assert fs == fs[..|fs| - 1] + [last];
      Keep(fs[..|fs| - 1], gone) + if last.number in gone then [] else [last]
  }

  function Numbers(fs: Files): (r: set<nat>)
    ensures forall f :: f in fs ==> f.number in r
  {
    set f | f in fs :: f.number
  }

  /** Without the first file of that number. */
  function Removed(fs: Files, n: nat): Files
  {
    if fs == [] then [] else if fs[0].number == n then fs[1..] else [fs[0]] + Removed(fs[1..], n)
  }

  lemma {:induction false} RemovedAbsent(fs: Files, n: nat)
    requires forall i: nat :: i < |fs| ==> fs[i].number != n
    ensures Removed(fs, n) == fs
    decreases |fs|
  {
    if fs != [] { RemovedAbsent(fs[1..], n); }
  }

  lemma {:induction false} RemovedSnoc(fs: Files, f: File, n: nat)
    requires f.number != n
    ensures Removed(fs + [f], n) == Removed(fs, n) + [f]
    decreases |fs|
  {
    if fs == [] {
      assert ([] + [f])[1..] == [];
    } else {
      assert (fs + [f])[1..] == fs[1..] + [f];
      RemovedSnoc(fs[1..], f, n);
    }
  }

  lemma {:induction false} RemovedLast(fs: Files, f: File)
    requires forall i: nat :: i < |fs| ==> fs[i].number != f.number
    ensures Removed(fs + [f], f.number) == fs
    decreases |fs|
  {
    if fs == [] {
      assert ([] + [f])[1..] == [];
    } else {
      assert (fs + [f])[1..] == fs[1..] + [f];
      RemovedLast(fs[1..], f);
      assert fs == [fs[0]] + fs[1..];
    }
  }

  /** Removing by number, with distinct numbers, filters. */
  lemma {:induction false} RemovedKeeps(fs: Files, gone: set<nat>, n: nat)
    requires DistinctNumbers(fs)
    ensures Removed(Keep(fs, gone), n) == Keep(fs, gone + {n})
    decreases |fs|
  {
    if fs != [] {
      hide Removed;
      var front, last := fs[..|fs| - 1], fs[|fs| - 1];
      RemovedKeeps(front, gone, n);
      var k := Keep(front, gone);
      if last.number in gone {
        assert k + [] == k;
      } else if last.number == n {
        OthersDiffer(fs, k);
        RemovedLast(k, last);
        RemovedAbsent(k, n);
        assert k + [] == k;
      } else {
        RemovedSnoc(k, last, n);
      }
    } else {
      RemovedAbsent(fs, n);
    }
  }

  lemma OthersDiffer(fs: Files, k: Files)
    requires fs != [] && DistinctNumbers(fs) && forall f :: f in k ==> f in fs[..|fs| - 1]
    ensures forall i: nat :: i < |k| ==> k[i].number != fs[|fs| - 1].number
  {
    forall i: nat | i < |k| ensures k[i].number != fs[|fs| - 1].number {
      assert k[i] in k;
      var x :| 0 <= x < |fs| - 1 && fs[x] == k[i];
    }
  }

  lemma {:induction false} KeepNothingGone(fs: Files)
    ensures Keep(fs, {}) == fs
    decreases |fs|
  {
    if fs != [] {
      var front, last := fs[..|fs| - 1], fs[|fs| - 1];
      KeepNothingGone(front);
      assert Keep(fs, {}) == Keep(front, {}) + [last];
      assert fs == front + [last];
    }
  }

  lemma {:induction false} KeepAllGone(fs: Files, gone: set<nat>)
    requires forall f :: f in fs ==> f.number in gone
    ensures Keep(fs, gone) == []
    decreases |fs|
  {
    if fs != [] {
      assert fs[|fs| - 1] in fs;
      KeepAllGone(fs[..|fs| - 1], gone);
    }
  }

  lemma {:induction false} KeepTail(fs: Files)
    requires fs != [] && DistinctNumbers(fs)
    ensures Keep(fs, {fs[0].number}) == fs[1..]
    decreases |fs|
  {
    if |fs| > 1 {
      KeepTail(fs[..|fs| - 1]);
      assert fs[..|fs| - 1][1..] + [fs[|fs| - 1]] == fs[1..];
    }
  }

  /** Removing the touching files by number leaves the ones apart. */
  lemma {:induction false} KeepApart(fs: Files, lo: Bytes, hi: Bytes, gone: set<nat>)
    requires forall i: nat :: i < |fs| ==> (fs[i].number in gone <==> Touches(fs[i], lo, hi))
    ensures Keep(fs, gone) == Apart(fs, lo, hi)
    decreases |fs|
  {
    if fs != [] {
      hide Touches;
      KeepApart(fs[..|fs| - 1], lo, hi, gone);
    }
  }

  lemma TouchingNumbers(fs: Files, lo: Bytes, hi: Bytes)
    requires DistinctNumbers(fs)
    ensures Keep(fs, Numbers(Touching(fs, lo, hi))) == Apart(fs, lo, hi)
  {
    hide Touches;
    TouchingSplit(fs, lo, hi);
    var gone := Numbers(Touching(fs, lo, hi));
    forall i: nat | i < |fs| ensures fs[i].number in gone <==> Touches(fs[i], lo, hi) {
      if fs[i].number in gone {
        var f :| f in Touching(fs, lo, hi) && f.number == fs[i].number;
        var x :| 0 <= x < |fs| && fs[x] == f;
        assert x == i;
      } else {
        assert fs[i] in fs;
      }
    }
    KeepApart(fs, lo, hi, gone);
  }

  // ---- The invariant ----

  ghost predicate LevelOk(fs: Files, next: nat, first: bool)
  {
    && AllGood(fs) && DistinctNumbers(fs) && (forall i: nat :: i < |fs| ==> fs[i].number < next)
    && (if first then forall i: nat :: i < |fs| ==> fs[i].entries != [] else Ordered(fs))
  }

  ghost predicate Inv(m: Manager)
  {
    |m.levels| == MAX_LEVELS && forall l: nat :: l < MAX_LEVELS ==> LevelOk(m.levels[l], m.next, l == 0)
  }

  // ---- Compaction ----

  /** The files a compaction takes from its source level. */
  function Sources(fs: Files, level: nat): Files
  {
    if level == 0 || fs == [] then fs else fs[..1]
  }

  function Lowest(fs: Files): Bytes
  {
    if fs == [] then []
    else if |fs| == 1 then MinKey(fs[0])
    else
      var m := Lowest(fs[..|fs| - 1]);
      if Less(MinKey(fs[|fs| - 1]), m) then MinKey(fs[|fs| - 1]) else m
  }

  function Highest(fs: Files): Bytes
  {
    if fs == [] then []
    else if |fs| == 1 then MaxKey(fs[0])
    else
      var m := Highest(fs[..|fs| - 1]);
      if Less(m, MaxKey(fs[|fs| - 1])) then MaxKey(fs[|fs| - 1]) else m
  }

  lemma {:induction false} Hull(fs: Files)
    ensures forall i: nat :: i < |fs| ==> !Less(MinKey(fs[i]), Lowest(fs)) && !Less(Highest(fs), MaxKey(fs[i]))
    decreases |fs|
  {
    if fs != [] {
      hide MinKey, MaxKey;
      var front, f := fs[..|fs| - 1], fs[|fs| - 1];
      Hull(front);
      LessIrreflexive(MinKey(f));
      LessIrreflexive(MaxKey(f));
      forall i: nat | i < |fs| ensures !Less(MinKey(fs[i]), Lowest(fs)) && !Less(Highest(fs), MaxKey(fs[i])) {
        if i < |front| {
          assert front[i] == fs[i];
          if Less(MinKey(fs[i]), MinKey(f)) && Less(MinKey(f), Lowest(front)) {
            LessTransitive(MinKey(fs[i]), MinKey(f), Lowest(front));
          }
          if Less(Highest(front), MaxKey(f)) && Less(MaxKey(f), MaxKey(fs[i])) {
            LessTransitive(Highest(front), MaxKey(f), MaxKey(fs[i]));
          }
        }
      }
    }
  }

  function EntriesOf(fs: Files): (r: Inputs)
    ensures |r| == |fs| && forall i: nat :: i < |fs| ==> r[i] == fs[i].entries
  {
    seq(|fs|, i requires 0 <= i < |fs| => fs[i].entries)
  }

  /** `out` holds the merge of the inputs; tombstones are gone when nothing lies below. */
  ghost predicate IsMerge(inputs: Files, bottommost: bool, out: seq<Entry>)
  {
    Ascending(out) && ToMap(out) == Surviving(Overlay(EntriesOf(inputs)), bottommost)
  }

  /** The overlay of the inputs answers as a scan from the last input back. */
  lemma {:induction false} OverlayIsScan(fs: Files, key: Bytes)
    requires AllGood(fs)
    ensures var m := Overlay(EntriesOf(fs));
            ScanBack(fs, key) == if key in m then Shown(m[key]) else NotFound
    decreases |fs|
  {
    if fs != [] {
      hide Ascending, ToMap, Lookup;
      var n := |fs| - 1;
      OverlayIsScan(fs[..n], key);
      assert EntriesOf(fs)[..n] == EntriesOf(fs[..n]);
      LookupIsMap(fs[n].entries, key);
    }
  }

  lemma MergedLookup(inputs: Files, bottommost: bool, out: seq<Entry>, key: Bytes)
    requires AllGood(inputs) && IsMerge(inputs, bottommost, out)
    ensures var r := ScanBack(inputs, key);
            Lookup(out, key) == if bottommost && r.Found? && r.deleted then NotFound else r
  {
    hide Overlay, ToMap, Lookup, Ascending, ScanBack;
    OverlayIsScan(inputs, key);
    LookupIsMap(out, key);
  }

  /** Every merged key comes from an input. */
  lemma MergedFrom(inputs: Files, bottommost: bool, out: seq<Entry>, x: nat) returns (i: nat, e: Entry)
    requires AllGood(inputs) && IsMerge(inputs, bottommost, out) && x < |out|
    ensures i < |inputs| && e in inputs[i].entries && e.key == out[x].key
  {
    hide Overlay, ToMap, Ascending, ScanBack, Lookup;
    var key := out[x].key;
    LookupFinds(out, x);
    MergedLookup(inputs, bottommost, out, key);
    ScanBackNone(inputs, key);
    i :| i < |inputs| && Lookup(inputs[i].entries, key) != NotFound;
    LookupMisses(inputs[i].entries, key);
    var y: nat :| y < |inputs[i].entries| && inputs[i].entries[y].key == key;
    e := inputs[i].entries[y];
  }

  lemma MergedGood(inputs: Files, bottommost: bool, out: File)
    requires AllGood(inputs) && IsMerge(inputs, bottommost, out.entries)
    ensures GoodFile(out)
  {
    hide Overlay, ToMap, Ascending;
    forall e | e in out.entries ensures e.key != [] {
      var x :| 0 <= x < |out.entries| && out.entries[x] == e;
      var i, f := MergedFrom(inputs, bottommost, out.entries, x);
    }
  }

  /** A file apart from the range is on the same side of everything that is merged. */
  lemma ApartSide(s: Files, tgt: Files, lo: Bytes, hi: Bytes, bottommost: bool, out: File, r: File, x: nat)
    requires AllGood(s) && AllGood(tgt) && Ordered(tgt)
    requires forall i: nat :: i < |s| ==> !Less(MinKey(s[i]), lo) && !Less(hi, MaxKey(s[i]))
    requires IsMerge(s + Touching(tgt, lo, hi), bottommost, out.entries) && AllGood(s + Touching(tgt, lo, hi))
    requires r in tgt && !Touches(r, lo, hi) && r.entries != [] && x < |out.entries|
    ensures Less(hi, MinKey(r)) ==> Less(out.entries[x].key, MinKey(r))
    ensures Less(MaxKey(r), lo) ==> Less(MaxKey(r), out.entries[x].key)
  {
    hide IsMerge, Ascending, Ordered, LastKey, Touching, MinKey, MaxKey;
    var inputs := s + Touching(tgt, lo, hi);
    var i, e := MergedFrom(inputs, bottommost, out.entries, x);
    KeyInRange(inputs[i], e);
    if i < |s| {
      SourceSide(s[i], lo, hi, e.key, r);
    } else {
      TouchingSplit(tgt, lo, hi);
      assert inputs[i] == Touching(tgt, lo, hi)[i - |s|];
      TouchedSide(tgt, lo, hi, inputs[i], e.key, r);
    }
  }

  lemma SourceSide(f: File, lo: Bytes, hi: Bytes, k: Bytes, r: File)
    requires !Less(MinKey(f), lo) && !Less(hi, MaxKey(f)) && !Less(k, MinKey(f)) && !Less(MaxKey(f), k)
    ensures Less(hi, MinKey(r)) ==> Less(k, MinKey(r))
    ensures Less(MaxKey(r), lo) ==> Less(MaxKey(r), k)
  {
    if Less(hi, MinKey(r)) {
      NotAboveBelow(MaxKey(f), hi, MinKey(r));
      NotAboveBelow(k, MaxKey(f), MinKey(r));
    }
    if Less(MaxKey(r), lo) {
      BelowNotAbove(MaxKey(r), lo, MinKey(f));
      BelowNotAbove(MaxKey(r), MinKey(f), k);
    }
  }

  lemma TouchedSide(tgt: Files, lo: Bytes, hi: Bytes, t: File, k: Bytes, r: File)
    requires AllGood(tgt) && Ordered(tgt) && t in tgt && r in tgt && Touches(t, lo, hi) && !Touches(r, lo, hi)
    requires r.entries != [] && !Less(k, MinKey(t)) && !Less(MaxKey(t), k) && t.entries != []
    ensures Less(hi, MinKey(r)) ==> Less(k, MinKey(r))
    ensures Less(MaxKey(r), lo) ==> Less(MaxKey(r), k)
  {
    hide Ascending, LastKey, MinKey, MaxKey;
    var a :| 0 <= a < |tgt| && tgt[a] == t;
    var b :| 0 <= b < |tgt| && tgt[b] == r;
    if Less(hi, MinKey(r)) {
      if b < a { StartsAbove(tgt, hi, b, a); }
      NotAboveBelow(k, MaxKey(t), MinKey(r));
    }
    if Less(MaxKey(r), lo) {
      if a < b {
        RangeNotEmpty(r);
        EndsBelow(t, r, lo);
      }
      BelowNotAbove(MaxKey(r), MinKey(t), k);
    }
  }

  lemma EndsBelow(t: File, r: File, lo: Bytes)
    requires GoodFile(r) && r.entries != [] && Less(MaxKey(t), MinKey(r)) && Less(MaxKey(r), lo)
    ensures Less(MaxKey(t), lo)
  {
    RangeNotEmpty(r);
    BelowNotAbove(MaxKey(t), MinKey(r), MaxKey(r));
    LessTransitive(MaxKey(t), MaxKey(r), lo);
  }

  /** The merged file's range is clear of every file left on the target level. */
  lemma MergedClear(s: Files, tgt: Files, lo: Bytes, hi: Bytes, bottommost: bool, out: File)
    requires AllGood(s) && AllGood(tgt) && Ordered(tgt)
    requires forall i: nat :: i < |s| ==> !Less(MinKey(s[i]), lo) && !Less(hi, MaxKey(s[i]))
    requires IsMerge(s + Touching(tgt, lo, hi), bottommost, out.entries)
    ensures AllGood(s + Touching(tgt, lo, hi)) && GoodFile(out) && Clear(Apart(tgt, lo, hi), out)
  {
    hide IsMerge, Ascending, Ordered, LastKey, Touching, Apart;
    TouchingSplit(tgt, lo, hi);
    InputsGood(s, tgt, lo, hi);
    MergedGood(s + Touching(tgt, lo, hi), bottommost, out);
    var rs := Apart(tgt, lo, hi);
    if out.entries != [] {
      forall i: nat | i < |rs| && rs[i].entries != []
        ensures Less(MaxKey(out), MinKey(rs[i])) || Less(MaxKey(rs[i]), MinKey(out))
      {
        assert rs[i] in rs;
        var last := |out.entries| - 1;
        LastIs(out);
        ApartSide(s, tgt, lo, hi, bottommost, out, rs[i], last);
        ApartSide(s, tgt, lo, hi, bottommost, out, rs[i], 0);
      }
    }
  }

  lemma LastIs(f: File)
    requires f.entries != []
    ensures MaxKey(f) == f.entries[|f.entries| - 1].key
  {
  }

  lemma InputsGood(s: Files, tgt: Files, lo: Bytes, hi: Bytes)
    requires AllGood(s) && AllGood(tgt)
    ensures AllGood(s + Touching(tgt, lo, hi))
  {
    hide GoodFile, Touches;
    TouchingSplit(tgt, lo, hi);
    var all := s + Touching(tgt, lo, hi);
    forall i: nat | i < |all| ensures GoodFile(all[i]) {
      if i >= |s| {
        assert all[i] in Touching(tgt, lo, hi);
        var x :| 0 <= x < |tgt| && tgt[x] == all[i];
      }
    }
  }
}
