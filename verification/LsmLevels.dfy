/**
 Levels of tables: where a file belongs, which files a key or a range can concern, and what a lookup
 across all levels means.
 */
module LsmLevels {
  import opened Bytes
  import opened LsmMerge
  import opened LsmMergeRun
  import opened SstBlock
  import opened SstFile

  const MAX_LEVELS: nat := 7

  /** A table file, by its entries. */
  datatype File = File(number: nat, entries: seq<Entry>)

  type Files = seq<File>

  function MinKey(f: File): Bytes
  {
    if f.entries == [] then [] else f.entries[0].key
  }

  function MaxKey(f: File): Bytes
  {
    LastKey(f.entries)
  }

  ghost predicate GoodFile(f: File)
  {
    Ascending(f.entries) && forall e :: e in f.entries ==> e.key != []
  }

  ghost predicate AllGood(fs: Files)
  {
    forall i: nat :: i < |fs| ==> GoodFile(fs[i])
  }

  /** Empty files first, then disjoint ranges in ascending order. */
  ghost predicate Ordered(fs: Files)
  {
    forall i: nat, j: nat :: i < j < |fs| ==>
      fs[i].entries == [] || (fs[j].entries != [] && Less(MaxKey(fs[i]), MinKey(fs[j])))
  }

  // ---- Keys and ranges ----

  lemma EmptyIsLeast(k: Bytes)
    ensures Less([], k) <==> k != []
    ensures !Less(k, [])
  {
  }

  /** A file's keys lie between its first and its last. */
  lemma KeyInRange(f: File, e: Entry)
    requires GoodFile(f) && e in f.entries
    ensures !Less(e.key, MinKey(f)) && !Less(MaxKey(f), e.key)
  {
    var x :| 0 <= x < |f.entries| && f.entries[x] == e;
    LessIrreflexive(e.key);
    if x > 0 { LessAsymmetric(f.entries[0].key, e.key); }
    if x < |f.entries| - 1 { LessAsymmetric(e.key, MaxKey(f)); }
  }

  lemma RangeNotEmpty(f: File)
    requires GoodFile(f) && f.entries != []
    ensures !Less(MaxKey(f), MinKey(f)) && MinKey(f) != [] && MaxKey(f) != []
  {
    KeyInRange(f, f.entries[0]);
    assert f.entries[0] in f.entries && f.entries[|f.entries| - 1] in f.entries;
  }

  /** `a <= b` and `b < c` give `a < c`. */
  lemma NotAboveBelow(a: Bytes, b: Bytes, c: Bytes)
    requires !Less(b, a) && Less(b, c)
    ensures Less(a, c)
  {
    LessTotal(a, b);
    if Less(a, b) { LessTransitive(a, b, c); }
  }

  lemma BelowNotAbove(a: Bytes, b: Bytes, c: Bytes)
    requires Less(a, b) && !Less(c, b)
    ensures Less(a, c)
  {
    LessTotal(b, c);
    if Less(b, c) { LessTransitive(a, b, c); }
  }

  // ---- Lookup through a list of files, the last one first ----

  function ScanBack(fs: Files, key: Bytes): Read
  {
    if fs == [] then NotFound
    else
      var r := Lookup(fs[|fs| - 1].entries, key);
      if r != NotFound then r else ScanBack(fs[..|fs| - 1], key)
  }

  lemma {:induction false} ScanBackConcat(a: Files, b: Files, key: Bytes)
    ensures ScanBack(a + b, key) == if ScanBack(b, key) != NotFound then ScanBack(b, key) else ScanBack(a, key)
    decreases |b|
  {
    if b == [] {
      assert a + b == a;
    } else {
      ScanBackConcat(a, b[..|b| - 1], key);
      assert (a + b)[..|a + b| - 1] == a + b[..|b| - 1];
    }
  }

  lemma {:induction false} ScanBackNone(fs: Files, key: Bytes)
    ensures ScanBack(fs, key) == NotFound <==> forall i: nat :: i < |fs| ==> Lookup(fs[i].entries, key) == NotFound
    decreases |fs|
  {
    if fs != [] { ScanBackNone(fs[..|fs| - 1], key); }
  }

  /** When only file `i` can hold the key, it decides. */
  lemma {:induction false} ScanBackOnly(fs: Files, key: Bytes, i: nat)
    requires i < |fs| && forall j: nat :: j < |fs| && j != i ==> Lookup(fs[j].entries, key) == NotFound
    ensures ScanBack(fs, key) == Lookup(fs[i].entries, key)
    decreases |fs|
  {
    if i < |fs| - 1 {
      ScanBackOnly(fs[..|fs| - 1], key, i);
    } else {
      ScanBackNone(fs[..|fs| - 1], key);
    }
  }

  lemma OutOfRange(f: File, key: Bytes)
    requires GoodFile(f) && (Less(key, MinKey(f)) || Less(MaxKey(f), key))
    ensures Lookup(f.entries, key) == NotFound
  {
    forall x: nat | x < |f.entries| ensures f.entries[x].key != key { KeyInRange(f, f.entries[x]); }
    LookupMisses(f.entries, key);
  }

  /** The first file not wholly below `key`; the number of files when all are. */
  function FirstNotBelow(fs: Files, key: Bytes): (r: nat)
    ensures r <= |fs|
    ensures forall i: nat :: i < r ==> Less(MaxKey(fs[i]), key)
    ensures r < |fs| ==> !Less(MaxKey(fs[r]), key)
  {
    if fs == [] || !Less(MaxKey(fs[0]), key) then 0 else 1 + FirstNotBelow(fs[1..], key)
  }

  /** Binary search may rely on this: once a file reaches `key`, so do all behind it. */
  lemma ReachesKey(fs: Files, key: Bytes, i: nat, j: nat)
    requires AllGood(fs) && Ordered(fs) && i <= j < |fs| && !Less(MaxKey(fs[i]), key) && key != []
    ensures !Less(MaxKey(fs[j]), key)
  {
    EmptyIsLeast(key);
    if i < j {
      RangeNotEmpty(fs[j]);
      BelowNotAbove(MaxKey(fs[i]), MinKey(fs[j]), MaxKey(fs[j]));
      if Less(MaxKey(fs[j]), key) { LessTransitive(MaxKey(fs[i]), MaxKey(fs[j]), key); }
    }
  }

  /** On an ordered level only one file can hold the key, and it is the first not below it. */
  lemma LevelLookup(fs: Files, key: Bytes)
    requires AllGood(fs) && Ordered(fs) && key != []
    ensures var i := FirstNotBelow(fs, key);
            ScanBack(fs, key) == if i < |fs| then Lookup(fs[i].entries, key) else NotFound
  {
    hide Ascending, Lookup, LastKey;
    var i := FirstNotBelow(fs, key);
    EmptyIsLeast(key);
    forall j: nat | j < |fs| && j != i ensures Lookup(fs[j].entries, key) == NotFound {
      if j > i {
        BelowNotAboveKey(fs, key, i, j);
      }
      OutOfRange(fs[j], key);
    }
    if i < |fs| { ScanBackOnly(fs, key, i); } else { ScanBackNone(fs, key); }
  }

  lemma BelowNotAboveKey(fs: Files, key: Bytes, i: nat, j: nat)
    requires AllGood(fs) && Ordered(fs) && key != [] && i < j < |fs| && !Less(MaxKey(fs[i]), key)
    ensures Less(key, MinKey(fs[j]))
  {
    EmptyIsLeast(key);
    NotAboveBelow(key, MaxKey(fs[i]), MinKey(fs[j]));
  }

  // ---- Files that touch a range ----

  predicate Touches(f: File, lo: Bytes, hi: Bytes)
  {
    !Less(hi, MinKey(f)) && !Less(MaxKey(f), lo)
  }

  function Touching(fs: Files, lo: Bytes, hi: Bytes): (r: Files)
  {
    if fs == [] then []
    else Touching(fs[..|fs| - 1], lo, hi) + if Touches(fs[|fs| - 1], lo, hi) then [fs[|fs| - 1]] else []
  }

  function Apart(fs: Files, lo: Bytes, hi: Bytes): (r: Files)
  {
    if fs == [] then []
    else Apart(fs[..|fs| - 1], lo, hi) + if Touches(fs[|fs| - 1], lo, hi) then [] else [fs[|fs| - 1]]
  }

  lemma {:induction false} TouchingSplit(fs: Files, lo: Bytes, hi: Bytes)
    ensures forall f :: f in Touching(fs, lo, hi) <==> f in fs && Touches(f, lo, hi)
    ensures forall f :: f in Apart(fs, lo, hi) <==> f in fs && !Touches(f, lo, hi)
    decreases |fs|
  {
    if fs != [] {
      TouchingSplit(fs[..|fs| - 1], lo, hi);
      assert fs == fs[..|fs| - 1] + [fs[|fs| - 1]];
    }
  }

  lemma AppendOrdered(a: Files, f: File)
    requires AllGood(a) && Ordered(a) && GoodFile(f)
    requires forall i: nat :: i < |a| ==> a[i].entries == [] || (f.entries != [] && Less(MaxKey(a[i]), MinKey(f)))
    ensures AllGood(a + [f]) && Ordered(a + [f])
  {
    hide GoodFile, LastKey;
  }

  lemma {:induction false} ApartOrdered(fs: Files, lo: Bytes, hi: Bytes)
    requires AllGood(fs) && Ordered(fs)
    ensures AllGood(Apart(fs, lo, hi)) && Ordered(Apart(fs, lo, hi))
    decreases |fs|
  {
    if fs != [] {
      hide Less, GoodFile, LastKey, Touches;
      var front, last := fs[..|fs| - 1], fs[|fs| - 1];
      ApartOrdered(front, lo, hi);
      TouchingSplit(front, lo, hi);
      var a := Apart(front, lo, hi);
      forall i: nat | i < |a|
        ensures a[i].entries == [] || (last.entries != [] && Less(MaxKey(a[i]), MinKey(last)))
      {
        assert a[i] in a;
        assert a[i] in front;
        var x :| 0 <= x < |front| && front[x] == a[i];
        assert fs[x] == a[i];
      }
      AppendOrdered(a, last);
      assert a + [] == a;
    }
  }

  /** The touching files of an ordered level are consecutive: skip those below, stop at the first above. */
  lemma {:induction false} TouchingRun(fs: Files, lo: Bytes, hi: Bytes, a: nat, b: nat)
    requires a <= b <= |fs|
    requires forall i: nat :: i < a ==> Less(MaxKey(fs[i]), lo)
    requires forall i: nat :: a <= i < b ==> Touches(fs[i], lo, hi)
    requires forall i: nat :: b <= i < |fs| ==> Less(hi, MinKey(fs[i]))
    ensures Touching(fs, lo, hi) == fs[a..b]
    decreases |fs|
  {
    hide Less, MinKey, MaxKey;
    var front := if fs == [] then [] else fs[..|fs| - 1];
    assert forall i: nat :: i < |front| ==> front[i] == fs[i];
    if fs == [] {
    } else if b < |fs| {
      TouchingRun(fs[..|fs| - 1], lo, hi, a, b);
      assert fs[..|fs| - 1][a..b] == fs[a..b];
    } else if a < b {
      TouchingRun(fs[..|fs| - 1], lo, hi, a, b - 1);
      assert fs[..|fs| - 1][a..b - 1] + [fs[b - 1]] == fs[a..b];
    } else {
      TouchingRun(fs[..|fs| - 1], lo, hi, a - 1, b - 1);
    }
  }

  /** Once a file starts above `hi`, so do all behind it. */
  lemma StartsAbove(fs: Files, hi: Bytes, i: nat, j: nat)
    requires AllGood(fs) && Ordered(fs) && i <= j < |fs| && Less(hi, MinKey(fs[i]))
    ensures Less(hi, MinKey(fs[j]))
  {
    EmptyIsLeast(hi);
    if i < j {
      RangeNotEmpty(fs[i]);
      BelowNotAbove(hi, MinKey(fs[i]), MaxKey(fs[i]));
      LessTransitive(hi, MaxKey(fs[i]), MinKey(fs[j]));
    }
  }

  // ---- Insertion ----

  /** The first file that does not start below `key`. */
  function InsertPos(fs: Files, key: Bytes): (r: nat)
    ensures r <= |fs|
    ensures forall i: nat :: i < r ==> Less(MinKey(fs[i]), key)
    ensures r < |fs| ==> !Less(MinKey(fs[r]), key)
  {
    if fs == [] || !Less(MinKey(fs[0]), key) then 0 else 1 + InsertPos(fs[1..], key)
  }

  lemma StartsAtOrAbove(fs: Files, key: Bytes, i: nat, j: nat)
    requires AllGood(fs) && Ordered(fs) && i <= j < |fs| && !Less(MinKey(fs[i]), key)
    ensures !Less(MinKey(fs[j]), key)
  {
    EmptyIsLeast(key);
    if i < j && fs[i].entries != [] {
      RangeNotEmpty(fs[i]);
      NotAboveBelow(MinKey(fs[i]), MaxKey(fs[i]), MinKey(fs[j]));
      if Less(MinKey(fs[j]), key) { LessTransitive(MinKey(fs[i]), MinKey(fs[j]), key); }
    } else if i < j {
      EmptyIsLeast(MinKey(fs[j]));
    }
  }

  function Inserted(fs: Files, f: File): Files
  {
    var p := InsertPos(fs, MinKey(f));
    fs[..p] + [f] + fs[p..]
  }

  /** `f`'s range meets that of no other file. */
  ghost predicate Clear(fs: Files, f: File)
  {
    f.entries == [] || forall i: nat :: i < |fs| && fs[i].entries != [] ==>
      Less(MaxKey(f), MinKey(fs[i])) || Less(MaxKey(fs[i]), MinKey(f))
  }

  /** Inserting a file whose range is clear keeps the level ordered. */
  lemma InsertOrdered(fs: Files, f: File)
    requires AllGood(fs) && Ordered(fs) && GoodFile(f) && Clear(fs, f)
    ensures AllGood(Inserted(fs, f)) && Ordered(Inserted(fs, f))
  {
    hide Less, GoodFile, LastKey;
    var p := InsertPos(fs, MinKey(f));
    var r := Inserted(fs, f);
    EmptyIsLeast(MinKey(f));
    forall i: nat | i < |fs| ensures i < p ==> fs[i].entries == [] || (f.entries != [] && Less(MaxKey(fs[i]), MinKey(f)))
      ensures i >= p ==> f.entries == [] || (fs[i].entries != [] && Less(MaxKey(f), MinKey(fs[i])))
    {
      Beside(fs, f, i, p);
    }
    forall i: nat, j: nat | i < j < |r|
      ensures r[i].entries == [] || (r[j].entries != [] && Less(MaxKey(r[i]), MinKey(r[j])))
    {
      var x, y := if i < p then i else i - 1, if j < p then j else j - 1;
      assert i != p ==> r[i] == fs[x];
      assert j != p ==> r[j] == fs[y];
    }
    forall i: nat | i < |r| ensures GoodFile(r[i]) {
      assert i < p ==> r[i] == fs[i];
      assert i > p ==> r[i] == fs[i - 1];
    }
  }

  lemma Beside(fs: Files, f: File, i: nat, p: nat)
    requires AllGood(fs) && Ordered(fs) && GoodFile(f) && Clear(fs, f) && p == InsertPos(fs, MinKey(f)) && i < |fs|
    ensures i < p ==> fs[i].entries == [] || (f.entries != [] && Less(MaxKey(fs[i]), MinKey(f)))
    ensures i >= p ==> f.entries == [] || (fs[i].entries != [] && Less(MaxKey(f), MinKey(fs[i])))
  {
    EmptyIsLeast(MinKey(f));
    EmptyIsLeast(MinKey(fs[i]));
    if f.entries != [] && fs[i].entries != [] {
      RangeNotEmpty(f);
      RangeNotEmpty(fs[i]);
      if i < p {
        if Less(MaxKey(f), MinKey(fs[i])) { LessTransitive(MaxKey(f), MinKey(fs[i]), MinKey(f)); }
      } else {
        StartsAtOrAbove(fs, MinKey(f), p, i);
        if Less(MaxKey(fs[i]), MinKey(f)) { NotAboveBelow(MinKey(fs[i]), MaxKey(fs[i]), MinKey(f)); }
      }
    } else if f.entries != [] {
      RangeNotEmpty(f);
      if i >= p { StartsAtOrAbove(fs, MinKey(f), p, i); }
    }
  }
}
