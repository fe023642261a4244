/**
 Which node follows which on each level of a skip list, by the nodes' heights alone.
 */
module SkipLinks {

  /** The next position after `i` whose height exceeds `l`; the length when there is none. */
  function NextOn(hs: seq<nat>, i: nat, l: nat): (r: nat)
    requires i < |hs|
    ensures i < r <= |hs| && (r < |hs| ==> hs[r] > l)
    ensures forall k: nat :: i < k < r ==> hs[k] <= l
    decreases |hs| - i
  {
    if i + 1 == |hs| || hs[i + 1] > l then i + 1 else NextOn(hs, i + 1, l)
  }

  lemma NextIs(hs: seq<nat>, i: nat, l: nat, r: nat)
    requires i < r <= |hs| && (r < |hs| ==> hs[r] > l) && forall k: nat :: i < k < r ==> hs[k] <= l
    ensures NextOn(hs, i, l) == r
  {
  }

  /** On the lowest level every node follows the one before it. */
  lemma NextLowest(hs: seq<nat>, i: nat)
    requires i < |hs| && forall k: nat :: k < |hs| ==> hs[k] > 0
    ensures NextOn(hs, i, 0) == i + 1
  {
  }

  // ---- Inserting a node of height `h` behind position `p` ----

  function Grown(hs: seq<nat>, p: nat, h: nat): seq<nat>
    requires p < |hs|
  {
    hs[..p + 1] + [h] + hs[p + 1..]
  }

  /** Where a position moves to. */
  function Moved(p: nat, j: nat): nat
  {
    if j <= p then j else j + 1
  }

  lemma GrownAt(hs: seq<nat>, p: nat, h: nat, j: nat)
    requires p < |hs|
    ensures |Grown(hs, p, h)| == |hs| + 1 && Grown(hs, p, h)[p + 1] == h
    ensures j < |hs| ==> Grown(hs, p, h)[Moved(p, j)] == hs[j]
    ensures j < |hs| + 1 && j != p + 1 ==> Grown(hs, p, h)[j] == hs[if j <= p then j else j - 1]
  {
  }

  /** A link that passes over the new node: it now leads there if the new node is high enough. */
  lemma NextGrown(hs: seq<nat>, p: nat, h: nat, i: nat, l: nat)
    requires p < |hs| && i < |hs|
    ensures Moved(p, i) < |Grown(hs, p, h)|
    ensures NextOn(Grown(hs, p, h), Moved(p, i), l) ==
            if i <= p && NextOn(hs, i, l) > p && l < h then p + 1 else Moved(p, NextOn(hs, i, l))
  {
    hide Grown;
    var g, n := Grown(hs, p, h), NextOn(hs, i, l);
    GrownAt(hs, p, h, i);
    GrownAt(hs, p, h, n);
    var r := if i <= p && n > p && l < h then p + 1 else Moved(p, n);
    forall k: nat | Moved(p, i) < k < r ensures g[k] <= l { GrownAt(hs, p, h, k); }
    NextIs(g, Moved(p, i), l, r);
  }

  /** The new node's own links are those of the nodes whose links passed over it. */
  lemma NextOfNew(hs: seq<nat>, p: nat, h: nat, u: nat, l: nat)
    requires u <= p < |hs| && NextOn(hs, u, l) > p
    ensures p + 1 < |Grown(hs, p, h)| && NextOn(Grown(hs, p, h), p + 1, l) == Moved(p, NextOn(hs, u, l))
  {
    hide Grown;
    var g, n := Grown(hs, p, h), NextOn(hs, u, l);
    GrownAt(hs, p, h, n);
    forall k: nat | p + 1 < k < n + 1 ensures g[k] <= l { GrownAt(hs, p, h, k); }
    NextIs(g, p + 1, l, n + 1);
  }

  /** Only one node of sufficient height has a link that passes over position `p`. */
  lemma OnePasses(hs: seq<nat>, p: nat, i: nat, u: nat, l: nat)
    requires i <= p < |hs| && u <= p && hs[i] > l && hs[u] > l && NextOn(hs, i, l) > p && NextOn(hs, u, l) > p
    ensures i == u
  {
  }

  /** The positions met by following the links of level `l` from `i`. */
  function Walk(hs: seq<nat>, i: nat, l: nat): seq<nat>
    requires i < |hs|
    decreases |hs| - i
  {
    var n := NextOn(hs, i, l);
    if n == |hs| then [] else [n] + Walk(hs, n, l)
  }

  /** Each level visits exactly the nodes high enough for it, in list order: a sublist of the lowest level. */
  lemma {:induction false} WalkIsSublist(hs: seq<nat>, i: nat, l: nat)
    requires i < |hs|
    ensures forall a: nat, b: nat :: a < b < |Walk(hs, i, l)| ==> Walk(hs, i, l)[a] < Walk(hs, i, l)[b]
    ensures forall j: nat :: j in Walk(hs, i, l) <==> i < j < |hs| && hs[j] > l
    decreases |hs| - i
  {
    var n := NextOn(hs, i, l);
    if n < |hs| {
      WalkIsSublist(hs, n, l);
      var w := Walk(hs, n, l);
      assert forall a: nat :: a < |w| ==> w[a] in w;
    }
  }
}
