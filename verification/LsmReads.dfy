/**
 What flushes and compactions do to the levels and to reads.
 */
module LsmReads {
  import opened Bytes
  import opened LsmMerge
  import opened LsmMergeRun
  import opened LsmMergeIter
  import opened SstBlock
  import opened LsmLevels
  import opened LsmManager

  // ---- Placement ----

  function Rest(fs: Files, level: nat): Files
  {
    if level == 0 || fs == [] then [] else fs[1..]
  }

  /** The files a compaction of `level` merges: its sources, then the target files they touch. */
  function MergeInputs(m: Manager, level: nat): Files
    requires level + 1 < |m.levels|
  {
    var s := Sources(m.levels[level], level);
    s + Touching(m.levels[level + 1], Lowest(s), Highest(s))
  }

  ghost predicate ValidOutput(m: Manager, level: nat, out: File)
    requires level + 1 < |m.levels|
  {
    out.number == m.next && IsMerge(MergeInputs(m, level), level + 1 == MAX_LEVELS - 1, out.entries)
  }

  /** The target files that stay, with the output put in its place. */
  function NewTarget(m: Manager, level: nat, out: File): Files
    requires level + 1 < |m.levels|
  {
    var s := Sources(m.levels[level], level);
    Inserted(Apart(m.levels[level + 1], Lowest(s), Highest(s)), out)
  }

  function Compacted(m: Manager, level: nat, out: File): Manager
    requires level + 1 < |m.levels|
  {
    Manager(m.levels[level := Rest(m.levels[level], level)][level + 1 := NewTarget(m, level, out)], m.next + 1)
  }

  lemma SourcesOk(fs: Files, next: nat, level: nat)
    requires LevelOk(fs, next, level == 0)
    ensures AllGood(Sources(fs, level)) && LevelOk(Rest(fs, level), next, level == 0)
  {
  }

  lemma LevelLater(fs: Files, next: nat, first: bool)
    requires LevelOk(fs, next, first)
    ensures LevelOk(fs, next + 1, first)
  {
  }

  /** The files apart keep their distinct numbers, all below `next`. */
  lemma ApartNumbers(fs: Files, lo: Bytes, hi: Bytes, next: nat)
    requires DistinctNumbers(fs) && forall i: nat :: i < |fs| ==> fs[i].number < next
    ensures DistinctNumbers(Apart(fs, lo, hi)) && forall i: nat :: i < |Apart(fs, lo, hi)| ==> Apart(fs, lo, hi)[i].number < next
  {
    hide Apart, Touches, DistinctNumbers;
    TouchingNumbers(fs, lo, hi);
    KeepNumbers(fs, Numbers(Touching(fs, lo, hi)));
    forall i: nat | i < |Apart(fs, lo, hi)| ensures Apart(fs, lo, hi)[i].number < next {
      TouchingSplit(fs, lo, hi);
      assert Apart(fs, lo, hi)[i] in Apart(fs, lo, hi);
    }
  }

  lemma {:induction false} KeepNumbers(fs: Files, gone: set<nat>)
    requires DistinctNumbers(fs)
    ensures DistinctNumbers(Keep(fs, gone))
    decreases |fs|
  {
    hide Keep;
    if fs == [] {
      assert forall f :: f !in Keep(fs, gone);
    } else {
      var k := Keep(fs[..|fs| - 1], gone);
      KeepNumbers(fs[..|fs| - 1], gone);
      OthersDiffer(fs, k);
      KeepLast(fs, gone);
    }
  }

  lemma KeepLast(fs: Files, gone: set<nat>)
    requires fs != []
    ensures var last := fs[|fs| - 1];
            Keep(fs, gone) == Keep(fs[..|fs| - 1], gone) + if last.number in gone then [] else [last]
  {
  }

  lemma InsertedNumbers(fs: Files, f: File)
    requires DistinctNumbers(fs) && forall i: nat :: i < |fs| ==> fs[i].number < f.number
    ensures DistinctNumbers(Inserted(fs, f))
    ensures forall i: nat :: i < |Inserted(fs, f)| ==> Inserted(fs, f)[i].number < f.number + 1
  {
    hide MinKey;
    var p, r := InsertPos(fs, MinKey(f)), Inserted(fs, f);
    assert forall i: nat :: i < |r| && i != p ==> r[i] == fs[if i < p then i else i - 1];
    assert r[p] == f;
  }

  /** Compaction keeps every level below the first sorted and disjoint. */
  lemma CompactionPlaces(m: Manager, level: nat, out: File)
    requires Inv(m) && level + 1 < MAX_LEVELS && ValidOutput(m, level, out)
    ensures Inv(Compacted(m, level, out))
  {
    hide LevelOk, IsMerge, Inserted, Apart, Sources, Touching;
    var src, tgt := m.levels[level], m.levels[level + 1];
    assert LevelOk(src, m.next, level == 0) && LevelOk(tgt, m.next, false);
    var s := Sources(src, level);
    SourcesOk(src, m.next, level);
    Hull(s);
    TargetPlaces(s, tgt, Lowest(s), Highest(s), level + 1 == MAX_LEVELS - 1, out, m.next);
    forall l: nat | l < MAX_LEVELS ensures LevelOk(Compacted(m, level, out).levels[l], m.next + 1, l == 0) {
      if l == level {
        LevelLater(Rest(src, level), m.next, level == 0);
      } else if l != level + 1 {
        LevelLater(m.levels[l], m.next, l == 0);
      }
    }
  }

  lemma TargetPlaces(s: Files, tgt: Files, lo: Bytes, hi: Bytes, bottommost: bool, out: File, next: nat)
    requires AllGood(s) && LevelOk(tgt, next, false) && out.number == next
    requires forall i: nat :: i < |s| ==> !Less(MinKey(s[i]), lo) && !Less(hi, MaxKey(s[i]))
    requires IsMerge(s + Touching(tgt, lo, hi), bottommost, out.entries)
    ensures LevelOk(Inserted(Apart(tgt, lo, hi), out), next + 1, false)
  {
    hide IsMerge, Inserted, Apart, Touching, Ordered, AllGood, DistinctNumbers, MinKey, MaxKey;
    MergedClear(s, tgt, lo, hi, bottommost, out);
    ApartOrdered(tgt, lo, hi);
    ApartNumbers(tgt, lo, hi, next);
    InsertOrdered(Apart(tgt, lo, hi), out);
    InsertedNumbers(Apart(tgt, lo, hi), out);
  }

  /** A flush adds the newest file to the first level. */
  lemma FlushPlaces(m: Manager, f: File)
    requires Inv(m) && GoodFile(f) && f.entries != [] && f.number == m.next
    ensures Inv(Manager(m.levels[0 := m.levels[0] + [f]], m.next + 1))
  {
    hide GoodFile;
    var m' := Manager(m.levels[0 := m.levels[0] + [f]], m.next + 1);
    assert LevelOk(m.levels[0], m.next, true);
    forall l: nat | l < MAX_LEVELS ensures LevelOk(m'.levels[l], m'.next, l == 0) {
      if l > 0 { LevelLater(m.levels[l], m.next, false); }
    }
  }

  /** One flush or one compaction. */
  ghost predicate Changes(m: Manager, m': Manager)
    requires Inv(m)
  {
    || (exists f: File :: GoodFile(f) && f.entries != [] && f.number == m.next
                          && m' == Manager(m.levels[0 := m.levels[0] + [f]], m.next + 1))
    || (exists level: nat, out: File :: level + 1 < MAX_LEVELS && ValidOutput(m, level, out) && m' == Compacted(m, level, out))
  }

  /** Flushes and compactions, one after the other, from an empty manager. */
  ghost predicate Run(run: seq<Manager>)
  {
    && |run| > 0 && run[0] == Manager(seq(MAX_LEVELS, _ => []), 1)
    && forall k: nat :: k + 1 < |run| ==> Inv(run[k]) ==> Changes(run[k], run[k + 1])
  }

  /** Every level but the first is sorted and disjoint at every moment of every run. */
  lemma {:induction false} RunPlaces(run: seq<Manager>, k: nat)
    requires Run(run) && k < |run|
    ensures Inv(run[k])
    decreases k
  {
    if k > 0 {
      hide LevelOk, ValidOutput, Compacted;
      RunPlaces(run, k - 1);
      var m, m' := run[k - 1], run[k];
      assert Changes(m, m');
      if f: File :| GoodFile(f) && f.entries != [] && f.number == m.next
                    && m' == Manager(m.levels[0 := m.levels[0] + [f]], m.next + 1) {
        FlushPlaces(m, f);
      } else {
        var level: nat, out: File :| level + 1 < MAX_LEVELS && ValidOutput(m, level, out) && m' == Compacted(m, level, out);
        CompactionPlaces(m, level, out);
      }
    }
  }

  // ---- Reads ----

  /** Level by level, the newest file of each first. */
  function Answer(levels: seq<Files>, key: Bytes): Read
  {
    if levels == [] then NotFound
    else
      var r := ScanBack(levels[0], key);
      if r != NotFound then r else Answer(levels[1..], key)
  }

  /** What a client sees: a tombstone hides the key. */
  function Visible(r: Read): seq<Bytes>
  {
    if r.Found? && !r.deleted then [r.value] else []
  }

  lemma {:induction false} AnswerConcat(a: seq<Files>, b: seq<Files>, key: Bytes)
    ensures Answer(a + b, key) == if Answer(a, key) != NotFound then Answer(a, key) else Answer(b, key)
    decreases |a|
  {
    if a == [] {
      assert a + b == b;
    } else {
      AnswerConcat(a[1..], b, key);
      assert (a + b)[1..] == a[1..] + b;
    }
  }

  /** The answer, taken apart at the two levels a compaction touches. */
  lemma AnswerAt(levels: seq<Files>, level: nat, key: Bytes)
    requires level + 1 < |levels|
    ensures Answer(levels, key) == FirstOf(Answer(levels[..level], key), FirstOf(ScanBack(levels[level], key),
                                   FirstOf(ScanBack(levels[level + 1], key), Answer(levels[level + 2..], key))))
  {
    assert levels == levels[..level] + levels[level..];
    AnswerConcat(levels[..level], levels[level..], key);
    assert levels[level..][1..] == levels[level + 1..];
    assert levels[level + 1..][1..] == levels[level + 2..];
  }

  function FirstOf(a: Read, b: Read): Read
  {
    if a != NotFound then a else b
  }

  /** After a flush a key reads as the flushed entry if there is one, a tombstone included, and else as before. */
  lemma FlushReads(m: Manager, f: File, key: Bytes)
    requires |m.levels| > 0
    ensures var m' := Manager(m.levels[0 := m.levels[0] + [f]], m.next + 1);
            Answer(m'.levels, key) == FirstOf(Lookup(f.entries, key), Answer(m.levels, key))
  {
    hide Lookup;
    var fs := m.levels[0];
    assert (fs + [f])[..|fs|] == fs;
    assert m.levels[0 := fs + [f]][1..] == m.levels[1..];
  }

  /** Only one file of an ordered level can hold a key. */
  lemma Unique(fs: Files, key: Bytes, i: nat, j: nat)
    requires AllGood(fs) && Ordered(fs) && key != [] && i < |fs| && j < |fs|
    requires Lookup(fs[i].entries, key) != NotFound && Lookup(fs[j].entries, key) != NotFound
    ensures i == j
  {
    hide Lookup, Ascending;
    InsideRange(fs[i], key);
    InsideRange(fs[j], key);
    if i < j { BelowNotAboveKey(fs, key, i, j); }
    if j < i { BelowNotAboveKey(fs, key, j, i); }
  }

  lemma InsideRange(f: File, key: Bytes)
    requires GoodFile(f) && Lookup(f.entries, key) != NotFound
    ensures !Less(key, MinKey(f)) && !Less(MaxKey(f), key)
  {
    hide Lookup, Ascending;
    if Less(key, MinKey(f)) || Less(MaxKey(f), key) { OutOfRange(f, key); }
  }

  lemma {:induction false} ScanBackHolder(fs: Files, key: Bytes)
    ensures ScanBack(fs, key) == NotFound || exists g :: g in fs && ScanBack(fs, key) == Lookup(g.entries, key)
    ensures (exists g :: g in fs && Lookup(g.entries, key) != NotFound) ==> ScanBack(fs, key) != NotFound
    decreases |fs|
  {
    hide Lookup;
    if fs != [] {
      var front, last := fs[..|fs| - 1], fs[|fs| - 1];
      ScanBackHolder(front, key);
      assert fs == front + [last];
    }
  }

  /** On an ordered level, splitting off the touching files splits the scan. */
  lemma SplitScan(tgt: Files, lo: Bytes, hi: Bytes, key: Bytes)
    requires AllGood(tgt) && Ordered(tgt) && key != []
    ensures ScanBack(tgt, key) == FirstOf(ScanBack(Touching(tgt, lo, hi), key), ScanBack(Apart(tgt, lo, hi), key))
    ensures ScanBack(Touching(tgt, lo, hi), key) == NotFound || ScanBack(Apart(tgt, lo, hi), key) == NotFound
  {
    hide Lookup, Touches, Ordered, AllGood, ScanBack, Touching, Apart;
    var t, a := Touching(tgt, lo, hi), Apart(tgt, lo, hi);
    TouchingSplit(tgt, lo, hi);
    ScanBackHolder(t, key);
    ScanBackHolder(a, key);
    ScanBackHolder(tgt, key);
    forall f, g | f in tgt && g in tgt && Lookup(f.entries, key) != NotFound && Lookup(g.entries, key) != NotFound
      ensures f == g
    {
      var i :| 0 <= i < |tgt| && tgt[i] == f;
      var j :| 0 <= j < |tgt| && tgt[j] == g;
      Unique(tgt, key, i, j);
    }
  }

  /** A key that a source holds is in no target file apart from the sources' range. */
  lemma ApartMisses(s: Files, tgt: Files, lo: Bytes, hi: Bytes, key: Bytes)
    requires AllGood(s) && AllGood(tgt) && ScanBack(s, key) != NotFound
    requires forall i: nat :: i < |s| ==> !Less(MinKey(s[i]), lo) && !Less(hi, MaxKey(s[i]))
    ensures ScanBack(Apart(tgt, lo, hi), key) == NotFound
  {
    hide Lookup, ScanBack, Apart, GoodFile, MinKey, MaxKey;
    var a := Apart(tgt, lo, hi);
    TouchingSplit(tgt, lo, hi);
    ScanBackHolder(a, key);
    ScanBackHolder(s, key);
    var f :| f in s && Lookup(f.entries, key) != NotFound;
    var x :| 0 <= x < |s| && s[x] == f;
    InsideRange(f, key);
    if g :| g in a && Lookup(g.entries, key) != NotFound {
      var y :| 0 <= y < |tgt| && tgt[y] == g;
      InsideRange(g, key);
      InHull(f, lo, hi, key);
      if Less(hi, MinKey(g)) { NotAboveBelow(key, hi, MinKey(g)); }
      if Less(MaxKey(g), lo) { BelowNotAbove(MaxKey(g), lo, key); }
      assert false;
    }
  }

  lemma InHull(f: File, lo: Bytes, hi: Bytes, key: Bytes)
    requires !Less(MinKey(f), lo) && !Less(hi, MaxKey(f)) && !Less(key, MinKey(f)) && !Less(MaxKey(f), key)
    ensures !Less(key, lo) && !Less(hi, key)
  {
    hide MinKey, MaxKey;
    if Less(key, lo) { BelowNotAbove(key, lo, MinKey(f)); }
    if Less(hi, key) { BelowNotAbove(hi, key, MaxKey(f)); }
  }

  lemma ScanBackOne(f: File, key: Bytes)
    ensures ScanBack([f], key) == Lookup(f.entries, key)
  {
    assert [f][..0] == [];
  }

  /** The ordered target level answers with the merged file first. */
  lemma InsertedScan(fs: Files, f: File, key: Bytes)
    requires AllGood(Inserted(fs, f)) && Ordered(Inserted(fs, f)) && key != []
    ensures ScanBack(Inserted(fs, f), key) == FirstOf(Lookup(f.entries, key), ScanBack(fs, key))
    ensures Lookup(f.entries, key) == NotFound || ScanBack(fs, key) == NotFound
  {
    hide Lookup, Ordered, AllGood, MinKey, ScanBack, InsertPos;
    var r := Inserted(fs, f);
    var p := InsertPos(fs, MinKey(f));
    var a, b := fs[..p], fs[p..];
    assert fs == a + b && r == a + [f] + b && r[p] == f;
    ScanBackConcat(a, b, key);
    ScanBackConcat(a + [f], b, key);
    ScanBackConcat(a, [f], key);
    ScanBackOne(f, key);
    if Lookup(f.entries, key) != NotFound {
      forall j: nat | j < |fs| ensures Lookup(fs[j].entries, key) == NotFound {
        var x := if j < p then j else j + 1;
        assert r[x] == fs[j];
        if Lookup(fs[j].entries, key) != NotFound { Unique(r, key, x, p); }
      }
      ScanBackNone(fs, key);
    }
  }

  /** The remaining files of the source level, and the sources themselves. */
  lemma SourceScan(src: Files, level: nat, next: nat, key: Bytes)
    requires LevelOk(src, next, level == 0) && key != []
    ensures ScanBack(src, key) == FirstOf(ScanBack(Rest(src, level), key), ScanBack(Sources(src, level), key))
    ensures ScanBack(Rest(src, level), key) == NotFound || ScanBack(Sources(src, level), key) == NotFound
  {
    if level > 0 && src != [] {
      hide Lookup, AllGood, Ordered, DistinctNumbers;
      assert src == src[..1] + src[1..];
      ScanBackConcat(src[..1], src[1..], key);
      assert src[..1][..0] == [];
      assert ScanBack(src[..1], key) == Lookup(src[0].entries, key);
      if Lookup(src[0].entries, key) != NotFound {
        forall j: nat | j < |src[1..]| ensures Lookup(src[1..][j].entries, key) == NotFound {
          if Lookup(src[j + 1].entries, key) != NotFound { Unique(src, key, 0, j + 1); }
        }
        ScanBackNone(src[1..], key);
      }
    }
  }

  /**
   Reads across a compaction.  Because target files outrank source files in the merge, a key that
   both hold reads as its older value afterwards, unless a level above shadows it: reads stay as they
   were exactly when no unshadowed key is held by both with different outcomes.
   */
  lemma CompactionReads(m: Manager, level: nat, out: File, key: Bytes)
    requires Inv(m) && level + 1 < MAX_LEVELS && ValidOutput(m, level, out) && key != []
    ensures var s := Sources(m.levels[level], level);
            var rs, rt := ScanBack(s, key), ScanBack(Touching(m.levels[level + 1], Lowest(s), Highest(s)), key);
            Visible(Answer(Compacted(m, level, out).levels, key)) == Visible(Answer(m.levels, key))
            <==> Answer(m.levels[..level], key) != NotFound || rs == NotFound || rt == NotFound || Visible(rs) == Visible(rt)
  {
    hide LevelOk, IsMerge, Lookup, ScanBack, Touching, Apart, Inserted, Ordered, Answer, Sources, Lowest, Highest;
    hide AllGood;
    var src, tgt, m' := m.levels[level], m.levels[level + 1], Compacted(m, level, out);
    assert LevelOk(src, m.next, level == 0) && LevelOk(tgt, m.next, false);
    LevelFacts(tgt, m.next);
    var s := Sources(src, level);
    var lo, hi, bottom := Lowest(s), Highest(s), level + 1 == MAX_LEVELS - 1;
    SourcesOk(src, m.next, level);
    Hull(s);
    AnswerAt(m.levels, level, key);
    AnswerAt(m'.levels, level, key);
    assert m'.levels[..level] == m.levels[..level] && m'.levels[level + 2..] == m.levels[level + 2..];
    SourceScan(src, level, m.next, key);
    SplitScan(tgt, lo, hi, key);
    CompactionPlaces(m, level, out);
    assert LevelOk(m'.levels[level + 1], m'.next, false);
    LevelFacts(m'.levels[level + 1], m'.next);
    InsertedScan(Apart(tgt, lo, hi), out, key);
    InputsGood(s, tgt, lo, hi);
    MergedLookup(s + Touching(tgt, lo, hi), bottom, out.entries, key);
    ScanBackConcat(s, Touching(tgt, lo, hi), key);
    if ScanBack(s, key) != NotFound { ApartMisses(s, tgt, lo, hi, key); }
    NoneBelow(m.levels, level, key);
    OnlyFound(s, key);
    OnlyFound(Touching(tgt, lo, hi), key);
  }

  lemma LevelFacts(fs: Files, next: nat)
    requires LevelOk(fs, next, false)
    ensures AllGood(fs) && Ordered(fs)
  {
  }

  lemma NoneBelow(levels: seq<Files>, level: nat, key: Bytes)
    requires |levels| == MAX_LEVELS && level + 1 < MAX_LEVELS
    ensures level + 1 == MAX_LEVELS - 1 ==> Answer(levels[level + 2..], key) == NotFound
  {
  }

  lemma {:induction false} OnlyFound(fs: Files, key: Bytes)
    ensures ScanBack(fs, key).Found? || ScanBack(fs, key) == NotFound
    decreases |fs|
  {
    if fs != [] {
      OnlyFound(fs[..|fs| - 1], key);
      LookupFound(fs[|fs| - 1].entries, key);
    }
  }

  lemma {:induction false} LookupFound(es: seq<Entry>, key: Bytes)
    ensures Lookup(es, key).Found? || Lookup(es, key) == NotFound
    decreases |es|
  {
    if es != [] { LookupFound(es[1..], key); }
  }

  // ---- An old value coming back ----

  function Versioned(value: byte): Entry
  {
    Entry([1], [value], false)
  }

  function OneKey(number: nat, value: byte): File
  {
    File(number, [Versioned(value)])
  }

  /** Value 9 was written after value 7 reached the second level. */
  function Updated(): Manager
  {
    Manager([[OneKey(1, 9)], [OneKey(0, 7)], [], [], [], [], []], 2)
  }

  lemma OneKeyFacts(number: nat, value: byte)
    ensures GoodFile(OneKey(number, value)) && MinKey(OneKey(number, value)) == [1] == MaxKey(OneKey(number, value))
    ensures Lookup([Versioned(value)], [1]) == Found([value], false)
    ensures ToMap([Versioned(value)]) == map[[1] := Versioned(value)]
    ensures ScanBack([OneKey(number, value)], [1]) == Found([value], false)
  {
    assert [Versioned(value)][..0] == [];
    assert ToMap([]) == map[];
  }

  lemma UpdatedOk()
    ensures Inv(Updated())
  {
    OneKeyFacts(1, 9);
    OneKeyFacts(0, 7);
    var m := Updated();
    forall l: nat | l < MAX_LEVELS ensures LevelOk(m.levels[l], m.next, l == 0) {
      if l > 1 { assert m.levels[l] == []; }
    }
  }

  /** Compacting such a first level hides the newer value: the read goes from 9 back to 7. */
  lemma OldValueReturns()
    ensures var m, out := Updated(), OneKey(2, 7);
            && Inv(m) && ValidOutput(m, 0, out)
            && Visible(Answer(m.levels, [1])) == [[9]] && Visible(Answer(Compacted(m, 0, out).levels, [1])) == [[7]]
  {
    var m, out := Updated(), OneKey(2, 7);
    var s := [OneKey(1, 9)];
    UpdatedOk();
    OneKeyFacts(1, 9);
    OneKeyFacts(0, 7);
    OneKeyFacts(2, 7);
    LessIrreflexive([1]);
    assert [OneKey(0, 7)][..0] == [];
    assert Touching([], Lowest(s), Highest(s)) == [];
    assert Touching([OneKey(0, 7)], Lowest(s), Highest(s)) == [OneKey(0, 7)];
    UpdatedMerges(s);
    assert ScanBack([OneKey(1, 9)], [1]) == Found([9], false);
    assert Apart([OneKey(0, 7)], Lowest(s), Highest(s)) == [] by {
      assert Apart([], Lowest(s), Highest(s)) == [];
    }
    assert Inserted([], out) == [out];
    var after := Compacted(m, 0, out).levels;
    assert after[0] == [] && after[1] == [out];
    assert after[1..][0] == [out];
    assert ScanBack([out], [1]) == Found([7], false);
  }

  lemma UpdatedMerges(s: Files)
    requires s == [OneKey(1, 9)]
    ensures IsMerge(s + [OneKey(0, 7)], false, [Versioned(7)])
  {
    OneKeyFacts(1, 9);
    OneKeyFacts(0, 7);
    var inputs: Inputs := [[Versioned(9)], [Versioned(7)]];
    assert EntriesOf(s + [OneKey(0, 7)]) == inputs;
    assert inputs[..1] == [[Versioned(9)]] && inputs[..1][..0] == [];
    assert Overlay([]) == map[];
    assert Overlay([[Versioned(9)]]) == map[[1] := Versioned(9)];
    assert Overlay(inputs) == map[[1] := Versioned(7)];
    assert Surviving(Overlay(inputs), false) == map[[1] := Versioned(7)];
  }
}
