/**
 The ordered store under the transaction manager, seen through its iterator: pairs in strictly
 ascending key order.
 */
module MvccStore {
  import opened Bytes
  import opened MvccKeys

  datatype Pair = Pair(key: Bytes, value: Bytes)

  type Store = seq<Pair>

  predicate Sorted(s: Store)
  {
    forall i, j :: 0 <= i < j < |s| ==> Less(s[i].key, s[j].key)
  }

  /** Where iteration from `k` starts: the first pair whose key is not below `k`. */
  function Seek(s: Store, k: Bytes): (i: nat)
    ensures i <= |s|
    ensures forall j :: 0 <= j < i ==> Less(s[j].key, k)
    ensures i < |s| ==> !Less(s[i].key, k)
  {
    if s == [] || !Less(s[0].key, k) then 0
    else
      var i := 1 + Seek(s[1..], k);
      assert forall j :: 0 < j < i ==> s[j] == s[1..][j - 1];
      i
  }

  function Put(s: Store, k: Bytes, v: Bytes): Store
  {
    var i := Seek(s, k);
    if i < |s| && s[i].key == k then s[i := Pair(k, v)] else s[..i] + [Pair(k, v)] + s[i..]
  }

  /** The store as a map. */
  function View(s: Store): map<Bytes, Bytes>
  {
    if s == [] then map[] else View(s[..|s| - 1])[s[|s| - 1].key := s[|s| - 1].value]
  }

  lemma SeekAbove(s: Store, k: Bytes, j: nat)
    requires Sorted(s) && Seek(s, k) <= j < |s|
    ensures !Less(s[j].key, k)
    ensures s[j].key != k ==> Less(k, s[j].key)
  {
    hide Less, Seek;
    var i := Seek(s, k);
    LessTotal(k, s[j].key);
    if Less(s[j].key, k) && i < j { LessTransitive(s[i].key, s[j].key, k); }
  }

  lemma PutSorted(s: Store, k: Bytes, v: Bytes)
    requires Sorted(s)
    ensures Sorted(Put(s, k, v))
  {
    var i := Seek(s, k);
    var r := Put(s, k, v);
    if i < |s| && s[i].key == k {
      assert forall j :: 0 <= j < |s| ==> r[j].key == s[j].key;
    } else {
      forall a, b | 0 <= a < b < |r| ensures Less(r[a].key, r[b].key) {
        if b > i {
          SeekAbove(s, k, b - 1);
          if a == i { } else if a > i { assert r[a] == s[a - 1]; }
          else if Less(s[a].key, k) { }
        }
      }
    }
  }

  /** The map holds exactly the pairs. */
  lemma {:induction false} ViewHas(s: Store, k: Bytes)
    requires Sorted(s)
    ensures k in View(s) <==> exists i :: 0 <= i < |s| && s[i].key == k
    ensures forall i :: 0 <= i < |s| && s[i].key == k ==> k in View(s) && View(s)[k] == s[i].value
    decreases |s|
  {
    if s != [] {
      var front, last := s[..|s| - 1], s[|s| - 1];
      ViewHas(front, k);
      forall i | 0 <= i < |s| && s[i].key == k ensures k in View(s) && View(s)[k] == s[i].value {
        if i < |front| {
          assert front[i] == s[i];
          LessAsymmetric(s[i].key, last.key);
        }
      }
      if k in View(s) && k != last.key {
        var i :| 0 <= i < |front| && front[i].key == k;
        assert s[i].key == k;
      }
    }
  }

  /** Putting into the store is updating the map. */
  lemma PutView(s: Store, k: Bytes, v: Bytes)
    requires Sorted(s)
    ensures View(Put(s, k, v)) == View(s)[k := v]
  {
    PutSorted(s, k, v);
    var r := Put(s, k, v);
    var m := View(s)[k := v];
    forall x ensures (x in View(r) <==> x in m) && (x in m ==> View(r)[x] == m[x]) {
      PutLookup(s, k, v, x);
    }
  }

  lemma PutLookup(s: Store, k: Bytes, v: Bytes, x: Bytes)
    requires Sorted(s)
    ensures var r := Put(s, k, v);
            var m := View(s)[k := v];
            (x in View(r) <==> x in m) && (x in m ==> View(r)[x] == m[x])
  {
    hide View, Seek, Put;
    PutSorted(s, k, v);
    ViewHas(s, x);
    ViewHas(Put(s, k, v), x);
    PutAt(s, k, v);
    if x != k { PutElsewhere(s, k, v, x); }
  }

  lemma PutAt(s: Store, k: Bytes, v: Bytes)
    requires Sorted(s)
    ensures var r := Put(s, k, v); Seek(s, k) < |r| && r[Seek(s, k)] == Pair(k, v)
  {
    hide Seek;
  }

  /** Putting `k` leaves the pairs of every other key as they are. */
  lemma PutElsewhere(s: Store, k: Bytes, v: Bytes, x: Bytes)
    requires x != k
    ensures forall j :: 0 <= j < |s| && s[j].key == x ==> exists i :: 0 <= i < |Put(s, k, v)| && Put(s, k, v)[i] == s[j]
    ensures forall i :: 0 <= i < |Put(s, k, v)| && Put(s, k, v)[i].key == x ==> exists j :: 0 <= j < |s| && s[j] == Put(s, k, v)[i]
  {
    hide Seek;
    var r := Put(s, k, v);
    var at := Seek(s, k);
    forall j | 0 <= j < |s| && s[j].key == x ensures exists i :: 0 <= i < |r| && r[i] == s[j] {
      var i := if j < at || |r| == |s| then j else j + 1;
      assert r[i] == s[j];
    }
    forall i | 0 <= i < |r| && r[i].key == x ensures exists j :: 0 <= j < |s| && s[j] == r[i] {
      var j := if i < at || |r| == |s| then i else i - 1;
      assert s[j] == r[i];
    }
  }
}
