/**
 The level manager object: files added and removed in place, lookups and range queries by binary
 search, and whole flushes and compactions.
 */
module LsmLevelManager {
  import opened Bytes
  import opened LsmMerge
  import opened LsmMergeRun
  import opened LsmMergeIter
  import opened SstBlock
  import opened LsmLevels
  import opened LsmManager
  import opened LsmReads

  datatype Status = Ok | InvalidArg | NotFoundStatus

  // ---- Ranges with bounds left out ----

  datatype Bound = NoBound | Given(key: Bytes)

  function KeyOf(b: Bound): Bytes
  {
    if b.Given? then b.key else []
  }

  /** A bound left out excludes nothing. */
  predicate Meets(f: File, lo: Bound, hi: Bound)
  {
    (hi.Given? ==> !Less(hi.key, MinKey(f))) && (lo.Given? ==> !Less(MaxKey(f), lo.key))
  }

  function Meeting(fs: Files, lo: Bound, hi: Bound): Files
  {
    if fs == [] then []
    else Meeting(fs[..|fs| - 1], lo, hi) + if Meets(fs[|fs| - 1], lo, hi) then [fs[|fs| - 1]] else []
  }

  /** With an upper bound, a missing lower bound is the empty key, so every level answers the same question. */
  lemma {:induction false} MeetingTouches(fs: Files, lo: Bound, hi: Bytes)
    ensures Meeting(fs, lo, Given(hi)) == Touching(fs, KeyOf(lo), hi)
    decreases |fs|
  {
    hide MinKey, MaxKey;
    if fs != [] {
      MeetingTouches(fs[..|fs| - 1], lo, hi);
      var last := fs[|fs| - 1];
      assert !Less(MaxKey(last), []);
    }
  }

  class LevelManager {
    var levels: seq<Files>
    var next: nat

    function State(): Manager
      reads this
    {
      Manager(levels, next)
    }

    constructor ()
      ensures Inv(State()) && State() == Manager(seq(MAX_LEVELS, _ => []), 1)
    {
      levels := seq(MAX_LEVELS, _ => []);
      next := 1;
    }

    /** Binary search for the place of a file that starts at `key`. */
    method FindInsertPos(fs: Files, key: Bytes) returns (left: nat)
      requires AllGood(fs) && Ordered(fs)
      ensures left == InsertPos(fs, key)
    {
      hide AllGood, Ordered, MinKey;
      left := 0;
      var right := |fs|;
      while left < right
        invariant left <= InsertPos(fs, key) <= right <= |fs|
      {
        var mid := left + (right - left) / 2;
        if Less(MinKey(fs[mid]), key) {
          if InsertPos(fs, key) <= mid { StartsAtOrAbove(fs, key, InsertPos(fs, key), mid); }
          left := mid + 1;
        } else {
          right := mid;
        }
      }
    }

    /** Add a file: behind the others on the first level, in key order on the others. */
    method AddTable(level: int, f: File) returns (s: Status)
      requires |levels| == MAX_LEVELS
      requires 0 < level < MAX_LEVELS ==> AllGood(levels[level]) && Ordered(levels[level])
      modifies this
      ensures s == if 0 <= level < MAX_LEVELS then Ok else InvalidArg
      ensures s != Ok ==> levels == old(levels) && next == old(next)
      ensures s == Ok ==>
                && levels == old(levels)[level := if level == 0 then old(levels)[0] + [f] else Inserted(old(levels)[level], f)]
                && next == if f.number >= old(next) then f.number + 1 else old(next)
    {
      if level < 0 || level >= MAX_LEVELS { return InvalidArg; }
      var fs := levels[level];
      if level == 0 {
        levels := levels[0 := fs + [f]];
      } else {
        var pos := FindInsertPos(fs, MinKey(f));
        levels := levels[level := fs[..pos] + [f] + fs[pos..]];
      }
      if f.number >= next { next := f.number + 1; }
      return Ok;
    }

    /** Remove the first file with that number. */
    method RemoveTable(level: int, number: nat) returns (s: Status)
      requires |levels| == MAX_LEVELS
      modifies this`levels
      ensures !(0 <= level < MAX_LEVELS) ==> s == InvalidArg && levels == old(levels)
      ensures 0 <= level < MAX_LEVELS ==> levels == old(levels)[level := Removed(old(levels)[level], number)]
      ensures 0 <= level < MAX_LEVELS ==>
                (s == Ok <==> exists i: nat :: i < |old(levels)[level]| && old(levels)[level][i].number == number)
    {
      if level < 0 || level >= MAX_LEVELS { return InvalidArg; }
      var fs := levels[level];
      for i := 0 to |fs|
        invariant levels == old(levels)
        invariant forall j: nat :: j < i ==> fs[j].number != number
      {
        if fs[i].number == number {
          RemovedAt(fs, i);
          levels := levels[level := fs[..i] + fs[i + 1..]];
          return Ok;
        }
      }
      RemovedAbsent(fs, number);
      assert levels[level := fs] == levels;
      return NotFoundStatus;
    }

    lemma RemovedAt(fs: Files, i: nat)
      requires i < |fs| && forall j: nat :: j < i ==> fs[j].number != fs[i].number
      ensures Removed(fs, fs[i].number) == fs[..i] + fs[i + 1..]
      decreases i
    {
      if i > 0 {
        RemovedAt(fs[1..], i - 1);
        assert [fs[0]] + fs[1..][..i - 1] == fs[..i] && fs[1..][i..] == fs[i + 1..];
      }
    }

    /** Binary search for the first file that reaches `key`. */
    method FindFile(fs: Files, key: Bytes) returns (left: nat)
      requires AllGood(fs) && Ordered(fs)
      ensures left == FirstNotBelow(fs, key)
    {
      hide AllGood, Ordered, MaxKey;
      left := 0;
      var right := |fs|;
      while left < right
        invariant left <= FirstNotBelow(fs, key) <= right <= |fs|
      {
        var mid := left + (right - left) / 2;
        if Less(MaxKey(fs[mid]), key) {
          EmptyIsLeast(MaxKey(fs[mid]));
          NoneBelowEmpty(MaxKey(fs[mid]), key);
          if FirstNotBelow(fs, key) <= mid { ReachesKey(fs, key, FirstNotBelow(fs, key), mid); }
          left := mid + 1;
        } else {
          right := mid;
        }
      }
    }

    lemma NoneBelowEmpty(a: Bytes, key: Bytes)
      requires Less(a, key)
      ensures key != []
    {
    }

    predicate InRange(f: File, key: Bytes)
    {
      f.entries == [] || (!Less(key, MinKey(f)) && !Less(MaxKey(f), key))
    }

    lemma RangeCheck(f: File, key: Bytes)
      requires GoodFile(f) && !InRange(f, key)
      ensures Lookup(f.entries, key) == NotFound
    {
      OutOfRange(f, key);
    }

    /** Look a key up: the first level newest to oldest, then one file of each other level. */
    method Get(key: Bytes) returns (r: Read)
      requires Inv(State()) && key != []
      ensures r == Answer(levels, key)
    {
      hide Inv, LevelOk, Lookup, ScanBack, GoodFile, InRange, Answer;
      LevelIs(0);
      var l0 := levels[0];
      var i := |l0|;
      assert l0[..|l0|] == l0;
      while i > 0
        invariant 0 <= i <= |l0| && ScanBack(l0, key) == ScanBack(l0[..i], key)
      {
        ScanStep(l0, i, key);
        if InRange(l0[i - 1], key) {
          r := Lookup(l0[i - 1].entries, key);
          if r != NotFound {
            AnswerStep(levels, 0, key);
            return;
          }
        } else {
          RangeCheck(l0[i - 1], key);
        }
        i := i - 1;
      }
      ScanNothing(key);
      AnswerStep(levels, 0, key);
      for level := 1 to MAX_LEVELS
        invariant Answer(levels, key) == Answer(levels[level..], key)
      {
        LevelIs(level);
        AnswerStep(levels, level, key);
        var fs := levels[level];
        LevelLookup(fs, key);
        var left := FindFile(fs, key);
        if left < |fs| {
          if InRange(fs[left], key) {
            r := Lookup(fs[left].entries, key);
            if r != NotFound { return; }
          } else {
            RangeCheck(fs[left], key);
          }
        }
      }
      AnswerNothing(key);
      return NotFound;
    }

    lemma LevelIs(level: nat)
      requires Inv(State()) && level < MAX_LEVELS
      ensures |levels| == MAX_LEVELS && AllGood(levels[level]) && (level > 0 ==> Ordered(levels[level]))
    {
      assert LevelOk(levels[level], next, level == 0);
    }

    lemma ScanStep(fs: Files, i: nat, key: Bytes)
      requires 0 < i <= |fs|
      ensures ScanBack(fs[..i], key) == FirstOf(Lookup(fs[i - 1].entries, key), ScanBack(fs[..i - 1], key))
    {
      assert fs[..i][..i - 1] == fs[..i - 1];
    }

    lemma ScanNothing(key: Bytes)
      ensures forall fs: Files :: ScanBack(fs[..0], key) == NotFound
    {
    }

    lemma AnswerStep(ls: seq<Files>, level: nat, key: Bytes)
      requires level < |ls|
      ensures Answer(ls[level..], key) == FirstOf(ScanBack(ls[level], key), Answer(ls[level + 1..], key))
      ensures ls[0..] == ls
    {
      assert ls[level..][1..] == ls[level + 1..];
    }

    lemma AnswerNothing(key: Bytes)
      ensures forall ls: seq<Files> :: Answer(ls[|ls|..], key) == NotFound
    {
    }

    /**
     The files of a level that a range concerns; a level that does not exist has none.  A null bound comes with length
     0: behind the first level it is compared as the empty key, also where it is the upper one.
     */
    method FindOverlapping(level: int, lo: Bound, hi: Bound) returns (r: Files)
      requires Inv(State())
      ensures |levels| == MAX_LEVELS
      ensures r == if level == 0 then Meeting(levels[0], lo, hi)
                   else if 0 < level < MAX_LEVELS then Touching(levels[level], KeyOf(lo), KeyOf(hi))
                   else []
    {
      hide Inv, LevelOk, GoodFile, MinKey, MaxKey, Touching, Ordered;
      LevelIs(0);
      if level < 0 || level >= MAX_LEVELS { return []; }
      LevelIs(level);
      var fs := levels[level];
      if level == 0 {
        r := CheckAll(fs, lo, hi);
        return;
      }
      var lowest, highest := KeyOf(lo), KeyOf(hi);
      var left := FindFile(fs, lowest);
      var i := left;
      r := [];
      while i < |fs|
        invariant left <= i <= |fs| && r == fs[left..i]
        invariant forall j: nat :: left <= j < i ==> !Less(highest, MinKey(fs[j]))
      {
        if Less(highest, MinKey(fs[i])) { break; }
        r := r + [fs[i]];
        i := i + 1;
      }
      RunTouches(fs, lowest, highest, left, i);
    }

    /** On the first level the ranges may overlap, so every file is checked. */
    method CheckAll(fs: Files, lo: Bound, hi: Bound) returns (r: Files)
      ensures r == Meeting(fs, lo, hi)
    {
      hide Less, MinKey, MaxKey;
      r := [];
      for i := 0 to |fs|
        invariant r == Meeting(fs[..i], lo, hi)
      {
        assert fs[..i + 1][..i] == fs[..i];
        var overlap := true;
        if hi.Given? && Less(hi.key, MinKey(fs[i])) { overlap := false; }
        if lo.Given? && Less(MaxKey(fs[i]), lo.key) { overlap := false; }
        if overlap { r := r + [fs[i]]; }
      }
      assert fs[..|fs|] == fs;
    }

    lemma RunTouches(fs: Files, lo: Bytes, hi: Bytes, left: nat, i: nat)
      requires AllGood(fs) && Ordered(fs) && left == FirstNotBelow(fs, lo) && left <= i <= |fs|
      requires forall j: nat :: left <= j < i ==> !Less(hi, MinKey(fs[j]))
      requires i < |fs| ==> Less(hi, MinKey(fs[i]))
      ensures Touching(fs, lo, hi) == fs[left..i]
    {
      hide AllGood, Ordered, MinKey, MaxKey, Touching, Less;
      forall j: nat | left <= j < i ensures Touches(fs[j], lo, hi) {
        ReachesLow(fs, lo, left, j);
      }
      forall j: nat | i <= j < |fs| ensures Less(hi, MinKey(fs[j])) { StartsAbove(fs, hi, i, j); }
      TouchingRun(fs, lo, hi, left, i);
    }

    lemma ReachesLow(fs: Files, lo: Bytes, i: nat, j: nat)
      requires AllGood(fs) && Ordered(fs) && i <= j < |fs| && !Less(MaxKey(fs[i]), lo)
      ensures !Less(MaxKey(fs[j]), lo)
    {
      EmptyIsLeast(MaxKey(fs[j]));
      if lo != [] { ReachesKey(fs, lo, i, j); }
    }

    /** Write the memtable's entries, if any, as the newest file of the first level. */
    method Flush(entries: seq<Entry>)
      requires Inv(State()) && Ascending(entries) && forall e :: e in entries ==> e.key != []
      modifies this
      ensures Inv(State())
      ensures State() == if entries == [] then old(State())
                         else Manager(old(levels)[0 := old(levels)[0] + [File(old(next), entries)]], old(next) + 1)
    {
      hide LevelOk, Ascending;
      if entries == [] { return; }
      var f := File(next, entries);
      FlushPlaces(State(), f);
      var s := AddTable(0, f);
    }

    /** The range of the source files, by comparing each file's bounds. */
    method Bounds(fs: Files) returns (lo: Bytes, hi: Bytes)
      requires fs != []
      ensures lo == Lowest(fs) && hi == Highest(fs)
    {
      hide MinKey, MaxKey;
      lo, hi := MinKey(fs[0]), MaxKey(fs[0]);
      assert fs[..1] == [fs[0]];
      for i := 1 to |fs|
        invariant lo == Lowest(fs[..i]) && hi == Highest(fs[..i])
      {
        assert fs[..i + 1][..i] == fs[..i];
        if Less(MinKey(fs[i]), lo) { lo := MinKey(fs[i]); }
        if Less(hi, MaxKey(fs[i])) { hi := MaxKey(fs[i]); }
      }
      assert fs[..|fs|] == fs;
    }

    /** Remove files one by one, by number. */
    method RemoveTables(level: nat, gone: Files)
      requires |levels| == MAX_LEVELS && level < MAX_LEVELS && DistinctNumbers(levels[level])
      modifies this`levels
      ensures levels == old(levels)[level := Keep(old(levels)[level], Numbers(gone))]
    {
      ghost var fs := levels[level];
      KeepNothingGone(fs);
      assert Numbers(gone[..0]) == {};
      for i := 0 to |gone|
        invariant levels == old(levels)[level := Keep(fs, Numbers(gone[..i]))]
      {
        hide DistinctNumbers, Removed, Keep;
        var s := RemoveTable(level, gone[i].number);
        RemovedKeeps(fs, Numbers(gone[..i]), gone[i].number);
        NumbersSnoc(gone, i);
      }
      assert gone[..|gone|] == gone;
    }

    lemma NumbersSnoc(fs: Files, i: nat)
      requires i < |fs|
      ensures Numbers(fs[..i + 1]) == Numbers(fs[..i]) + {fs[i].number}
    {
      assert fs[..i + 1] == fs[..i] + [fs[i]];
    }

    /** Merge the source files of a level and the target files they touch into one new target file. */
    method Compact(level: int) returns (s: Status, out: File)
      requires Inv(State())
      modifies this
      ensures Inv(State())
      ensures level < 0 || level >= MAX_LEVELS - 1 ==> s == InvalidArg && State() == old(State())
      ensures 0 <= level < MAX_LEVELS - 1 ==> s == Ok
      ensures 0 <= level < MAX_LEVELS - 1 && old(levels)[level] == [] ==> State() == old(State())
      ensures 0 <= level < MAX_LEVELS - 1 && old(levels)[level] != [] ==>
                ValidOutput(old(State()), level, out) && State() == Compacted(old(State()), level, out)
    {
      hide LevelOk, Ascending, Touching, Apart, Keep, MinKey, MaxKey, ToMap, Overlay, Surviving, AllGood, Ordered;
      hide DistinctNumbers, Lowest, Highest, Inserted;
      out := File(0, []);
      if level < 0 || level >= MAX_LEVELS - 1 { return InvalidArg, out; }
      ghost var m := State();
      LevelParts(m, level);
      LevelParts(m, level + 1);
      if |levels[level]| == 0 { return Ok, out; }
      var sources := if level == 0 then levels[0] else levels[level][..1];
      var lo, hi := Bounds(sources);
      var touched := FindOverlapping(level + 1, Given(lo), Given(hi));
      InputsAscend(m, level);
      assert sources == Sources(m.levels[level], level);
      assert sources + touched == MergeInputs(m, level);
      var merged := MergeAll(EntriesOf(sources + touched), level + 1 == MAX_LEVELS - 1);
      var number := next;
      out := File(number, merged);
      RemoveTables(level, sources);
      SourcesGone(m.levels[level], level);
      RemoveTables(level + 1, touched);
      TouchingNumbers(m.levels[level + 1], lo, hi);
      ApartOrdered(m.levels[level + 1], lo, hi);
      s := AddTable(level + 1, out);
      CompactionPlaces(m, level, out);
      assert State() == Compacted(m, level, out);
    }

    lemma LevelParts(m: Manager, level: nat)
      requires Inv(m) && level < MAX_LEVELS
      ensures |m.levels| == MAX_LEVELS && AllGood(m.levels[level]) && DistinctNumbers(m.levels[level])
      ensures level > 0 ==> Ordered(m.levels[level])
    {
      assert LevelOk(m.levels[level], m.next, level == 0);
    }

    lemma InputsAscend(m: Manager, level: nat)
      requires Inv(m) && level + 1 < MAX_LEVELS
      ensures forall i: nat :: i < |MergeInputs(m, level)| ==> Ascending(EntriesOf(MergeInputs(m, level))[i])
    {
      hide Ascending, Touching, Lowest, Highest, Ordered, DistinctNumbers;
      LevelParts(m, level);
      LevelParts(m, level + 1);
      var src := Sources(m.levels[level], level);
      SourcesGood(m.levels[level], level);
      InputsGood(src, m.levels[level + 1], Lowest(src), Highest(src));
      var all := MergeInputs(m, level);
      assert forall i: nat :: i < |all| ==> GoodFile(all[i]);
    }

    lemma SourcesGood(fs: Files, level: nat)
      requires AllGood(fs)
      ensures AllGood(Sources(fs, level))
    {
    }

    lemma SourcesGone(fs: Files, level: nat)
      requires DistinctNumbers(fs) && fs != []
      ensures Keep(fs, Numbers(Sources(fs, level))) == Rest(fs, level)
    {
      hide DistinctNumbers, Keep;
      if level == 0 {
        KeepAllGone(fs, Numbers(fs));
      } else {
        KeepTail(fs);
        assert fs[..1] == [fs[0]];
        assert Numbers(fs[..1]) == {fs[0].number};
      }
    }
  }
}
