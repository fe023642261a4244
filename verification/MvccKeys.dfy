/**
 Versioned keys: key, a zero byte, then the bitwise complement of the version as eight big-endian
 bytes, so that byte order is key ascending and version descending.
 */
module MvccKeys {
  import opened Bytes

  datatype Option<+T> = None | Some(value: T)

  const MAX_VERSION: nat := U64_LIMIT - 1

  /** `k` bytes, most significant first. */
  function BigEndian(v: nat, k: nat): (r: Bytes)
    requires v < Pow256(k)
    ensures |r| == k
  {
    if k == 0 then []
    else
      DivBound(v, k);
      [v / Pow256(k - 1)] + BigEndian(v % Pow256(k - 1), k - 1)
  }

  function FromBigEndian(b: Bytes): nat
  {
    if b == [] then 0 else b[0] * Pow256(|b| - 1) + FromBigEndian(b[1..])
  }

  lemma {:induction false} PowPositive(k: nat)
    ensures Pow256(k) > 0
  {
    if k > 0 { PowPositive(k - 1); }
  }

  lemma DivBound(v: nat, k: nat)
    requires k > 0 && v < Pow256(k)
    ensures Pow256(k - 1) > 0 && 0 <= v / Pow256(k - 1) < 256 && 0 <= v % Pow256(k - 1) < Pow256(k - 1)
    ensures v == v / Pow256(k - 1) * Pow256(k - 1) + v % Pow256(k - 1)
  {
    PowPositive(k - 1);
    var p := Pow256(k - 1);
    var q := v / p;
    assert v == q * p + v % p;
    if q >= 256 { MulMono(256, q, p); }
  }

  lemma MulMono(a: nat, b: nat, p: nat)
    requires a <= b
    ensures a * p <= b * p
  {
  }

  lemma {:induction false} BigEndianRoundTrip(v: nat, k: nat)
    requires v < Pow256(k)
    ensures FromBigEndian(BigEndian(v, k)) == v
    decreases k
  {
    if k > 0 {
      DivBound(v, k);
      BigEndianRoundTrip(v % Pow256(k - 1), k - 1);
      assert BigEndian(v, k)[1..] == BigEndian(v % Pow256(k - 1), k - 1);
    }
  }

  lemma {:induction false} FromBigEndianBound(b: Bytes)
    ensures FromBigEndian(b) < Pow256(|b|)
  {
    if b != [] {
      FromBigEndianBound(b[1..]);
      MulMono(b[0], 255, Pow256(|b| - 1));
    }
  }

  lemma QuotientOrder(a: nat, b: nat, p: nat)
    requires p > 0
    ensures a < b <==> a / p < b / p || (a / p == b / p && a % p < b % p)
  {
    var qa, qb := a / p, b / p;
    assert a == qa * p + a % p && b == qb * p + b % p;
    if qa < qb { MulMono(qa + 1, qb, p); } else if qb < qa { MulMono(qb + 1, qa, p); }
  }

  /** Big-endian bytes compare as the numbers do. */
  lemma {:induction false} BigEndianOrder(a: nat, b: nat, k: nat)
    requires a < Pow256(k) && b < Pow256(k)
    ensures Less(BigEndian(a, k), BigEndian(b, k)) <==> a < b
    decreases k
  {
    if k > 0 {
      var p := Pow256(k - 1);
      DivBound(a, k);
      DivBound(b, k);
      QuotientOrder(a, b, p);
      BigEndianOrder(a % p, b % p, k - 1);
      assert BigEndian(a, k)[1..] == BigEndian(a % p, k - 1);
      assert BigEndian(b, k)[1..] == BigEndian(b % p, k - 1);
    }
  }

  // ---- Encoding ----

  predicate NulFree(k: Bytes) { forall i :: 0 <= i < |k| ==> k[i] != 0 }

  /** The keys the transaction manager's promises are about. */
  predicate KeyOk(k: Bytes) { k != [] && NulFree(k) }

  function Suffix(version: nat): (r: Bytes)
    requires version < U64_LIMIT
    ensures |r| == 9
  {
    WidthLimits();
    [0] + BigEndian(MAX_VERSION - version, 8)
  }

  function Encode(key: Bytes, version: nat): (r: Bytes)
    requires version < U64_LIMIT
    ensures |r| == |key| + 9
  {
    key + Suffix(version)
  }

  datatype Decoded = Corrupt | Versioned(key: Bytes, version: nat)

  function Decode(b: Bytes): Decoded
  {
    if |b| < 10 || b[|b| - 9] != 0 then Corrupt
    else
      var inverted := FromBigEndian(b[|b| - 8..]);
      FromBigEndianBound(b[|b| - 8..]);
      WidthLimits();
      Versioned(b[..|b| - 9], MAX_VERSION - inverted)
  }

  /** Decoding undoes encoding for every non-empty key. */
  lemma DecodeEncode(key: Bytes, version: nat)
    requires key != [] && version < U64_LIMIT
    ensures Decode(Encode(key, version)) == Versioned(key, version)
  {
    hide BigEndian, FromBigEndian, Pow256;
    var b := Encode(key, version);
    WidthLimits();
    BigEndianRoundTrip(MAX_VERSION - version, 8);
    assert b[|b| - 8..] == BigEndian(MAX_VERSION - version, 8);
    assert b[..|b| - 9] == key;
  }

  lemma SuffixOrder(v: nat, w: nat)
    requires v < U64_LIMIT && w < U64_LIMIT
    ensures Less(Suffix(v), Suffix(w)) <==> v > w
  {
    hide BigEndian, Pow256;
    WidthLimits();
    BigEndianOrder(MAX_VERSION - v, MAX_VERSION - w, 8);
    assert Suffix(v)[1..] == BigEndian(MAX_VERSION - v, 8) && Suffix(w)[1..] == BigEndian(MAX_VERSION - w, 8);
  }

  /** The order law: byte order on encoded NUL-free keys is key ascending, then version descending. */
  lemma {:induction false} EncodeOrder(k: Bytes, v: nat, l: Bytes, w: nat)
    requires NulFree(k) && NulFree(l) && v < U64_LIMIT && w < U64_LIMIT
    ensures Less(Encode(k, v), Encode(l, w)) <==> Less(k, l) || (k == l && v > w)
    decreases |k|
  {
    hide Suffix;
    if k == [] && l == [] {
      SuffixOrder(v, w);
      assert Encode(k, v) == Suffix(v) && Encode(l, w) == Suffix(w);
    } else if k == [] {
      SuffixHead(v);
    } else if l == [] {
      SuffixHead(w);
    } else {
      assert Encode(k, v)[1..] == Encode(k[1..], v) && Encode(l, w)[1..] == Encode(l[1..], w);
      EncodeOrder(k[1..], v, l[1..], w);
      assert k == [k[0]] + k[1..] && l == [l[0]] + l[1..];
    }
  }

  lemma SuffixHead(v: nat)
    requires v < U64_LIMIT
    ensures Suffix(v)[0] == 0
  {
  }

  lemma EncodeInjective(k: Bytes, v: nat, l: Bytes, w: nat)
    requires k != [] && l != [] && v < U64_LIMIT && w < U64_LIMIT && Encode(k, v) == Encode(l, w)
    ensures k == l && v == w
  {
    DecodeEncode(k, v);
    DecodeEncode(l, w);
  }

  /** With a NUL in a key the law fails: a version of "a\0" sorts between two versions of "a". */
  lemma NulBreaksOrder()
    ensures var a: Bytes := [97]; var b: Bytes := [97, 0];
            && Less(a, b)
            && exists v: nat, w: nat :: v < U64_LIMIT && w < U64_LIMIT && Less(Encode(b, v), Encode(a, w))
  {
    var a: Bytes := [97];
    var b: Bytes := [97, 0];
    assert a[1..] == [] && b[1..] == [0];
    hide BigEndian;
    WidthLimits();
    assert Suffix(0) == [0] + BigEndian(MAX_VERSION, 8) && Suffix(MAX_VERSION) == [0] + BigEndian(0, 8);
    TopByte();
    var x, y := Encode(b, MAX_VERSION), Encode(a, 0);
    assert x[0] == y[0] == 97 && x[1] == y[1] == 0;
    assert x[2] == 0 && y[2] == BigEndian(MAX_VERSION, 8)[0];
    assert x[1..][1..][0] == x[2] && y[1..][1..][0] == y[2];
    assert Less(x[1..][1..], y[1..][1..]);
    assert Less(x[1..], y[1..]);
    assert Less(x, y);
  }

  lemma TopByte()
    ensures MAX_VERSION < Pow256(8) && BigEndian(MAX_VERSION, 8)[0] == 255
  {
    WidthLimits();
    assert Pow256(8) == 256 * Pow256(7);
    assert Pow256(7) == 0x100_0000_0000_0000;
  }

  // ---- Exactly when the order law holds ----

  /** Eight bytes of all ones, and possibly more. */
  predicate StartsWithOnes(b: Bytes)
  {
    |b| >= 8 && forall i: nat :: i < 8 ==> b[i] == 255
  }

  /** `l` continues `k` with a NUL byte that can be taken for `k`'s separator. */
  predicate Clash(k: Bytes, l: Bytes)
  {
    |l| > |k| && l[..|k|] == k && l[|k|] == 0 && !StartsWithOnes(l[|k| + 1..])
  }

  ghost predicate OrderLaw(k: Bytes, l: Bytes)
  {
    forall v: nat, w: nat :: v < U64_LIMIT && w < U64_LIMIT ==>
      (Less(Encode(k, v), Encode(l, w)) <==> Less(k, l) || (k == l && v > w))
  }

  lemma {:induction false} LessStrip(p: Bytes, a: Bytes, b: Bytes)
    ensures Less(p + a, p + b) <==> Less(a, b)
    decreases |p|
  {
    if p == [] {
      assert p + a == a && p + b == b;
    } else {
      LessStrip(p[1..], a, b);
      assert (p + a)[1..] == p[1..] + a && (p + b)[1..] == p[1..] + b;
    }
  }

  /** Nothing of length `n` sorts after `n` ones that go on. */
  lemma {:induction false} BelowOnes(b: Bytes, t: Bytes)
    requires |t| > |b| && forall i: nat :: i < |b| ==> t[i] == 255
    ensures Less(b, t)
    decreases |b|
  {
    if b != [] { BelowOnes(b[1..], t[1..]); }
  }

  /** Ones sort after anything that has a smaller byte among as many. */
  lemma {:induction false} OnesNotBelow(b: Bytes, t: Bytes, i: nat)
    requires i < |b| && i < |t| && t[i] < 255 && forall j: nat :: j < |b| ==> b[j] == 255
    ensures !Less(b, t)
    decreases i
  {
    if i > 0 && t[0] == 255 { OnesNotBelow(b[1..], t[1..], i - 1); }
  }

  predicate Ones(b: Bytes)
  {
    forall i: nat :: i < |b| ==> b[i] == 255
  }

  lemma {:induction false} AllOnes(k: nat)
    ensures Pow256(k) > 0 && Ones(BigEndian(Pow256(k) - 1, k))
    decreases k
  {
    if k > 0 {
      AllOnes(k - 1);
      var p := Pow256(k - 1);
      var b := BigEndian(Pow256(k) - 1, k);
      assert Pow256(k) - 1 == 255 * p + (p - 1);
      TopDigit(p);
      assert b == [255] + BigEndian(p - 1, k - 1);
    }
  }

  lemma TopDigit(p: nat)
    requires p > 0
    ensures (255 * p + (p - 1)) / p == 255 && (255 * p + (p - 1)) % p == p - 1
  {
    var x := 255 * p + (p - 1);
    var q, r := x / p, x % p;
    assert x == q * p + r && 0 <= r < p;
    if q <= 254 {
      MulMono(q, 254, p);
    } else if q >= 256 {
      MulMono(256, q, p);
    }
  }

  /** Version 0 is encoded as a separator and eight ones. */
  lemma OldestVersion()
    ensures Suffix(0)[0] == 0 && forall i: nat :: 1 <= i < 9 ==> Suffix(0)[i] == 255
  {
    hide BigEndian, Pow256;
    WidthLimits();
    AllOnes(8);
    assert Suffix(0) == [0] + BigEndian(Pow256(8) - 1, 8);
  }

  lemma {:induction false} OrderUnlessClash(k: Bytes, v: nat, l: Bytes, w: nat)
    requires v < U64_LIMIT && w < U64_LIMIT && !Clash(k, l) && !Clash(l, k)
    ensures Less(Encode(k, v), Encode(l, w)) <==> Less(k, l) || (k == l && v > w)
    decreases |k|
  {
    hide Suffix;
    if k == [] && l == [] {
      SuffixOrder(v, w);
      assert Encode(k, v) == Suffix(v) && Encode(l, w) == Suffix(w);
    } else if k == [] {
      EmptyFirst(v, l, w);
    } else if l == [] {
      EmptyFirst(w, k, v);
      LessAsymmetric(Encode(l, w), Encode(k, v));
    } else {
      assert Encode(k, v)[1..] == Encode(k[1..], v) && Encode(l, w)[1..] == Encode(l[1..], w);
      assert k == [k[0]] + k[1..] && l == [l[0]] + l[1..];
      if k[0] == l[0] {
        ClashTail(k, l);
        ClashTail(l, k);
        OrderUnlessClash(k[1..], v, l[1..], w);
      }
    }
  }

  lemma ClashTail(k: Bytes, l: Bytes)
    requires k != [] && l != [] && k[0] == l[0]
    ensures Clash(k[1..], l[1..]) ==> Clash(k, l)
  {
    assert k == [k[0]] + k[1..];
    if |l| > |k| {
      assert l[..|k|] == [l[0]] + l[1..][..|k| - 1];
      assert l[1..][|k|..] == l[|k| + 1..];
    }
  }

  /** The empty key sorts before every key it does not clash with. */
  lemma EmptyFirst(v: nat, l: Bytes, w: nat)
    requires v < U64_LIMIT && w < U64_LIMIT && l != [] && !Clash([], l)
    ensures Less(Encode([], v), Encode(l, w))
  {
    hide Suffix;
    SuffixHead(v);
    var a, b := Encode([], v), Encode(l, w);
    assert a == Suffix(v) && b[0] == l[0];
    if l[0] == 0 {
      assert l[..0] == [] && StartsWithOnes(l[1..]);
      forall i: nat | i < 8 ensures b[1..][i] == 255 { assert b[1..][i] == l[1..][i]; }
      BelowOnes(a[1..], b[1..]);
    }
  }

  lemma ClashBreaks(k: Bytes, l: Bytes)
    requires Clash(k, l)
    ensures Less(k, l) && Less(Encode(l, 0), Encode(k, 0))
  {
    hide Suffix;
    OldestVersion();
    var rest := l[|k| + 1..];
    var y := rest + Suffix(0);
    assert l == k + ([0] + rest);
    LessStrip(k, [], [0] + rest);
    assert k + [] == k;
    assert Encode(l, 0) == k + ([0] + y);
    LessStrip(k, Suffix(0), [0] + y);
    var i: nat := if |rest| < 8 then |rest| else NotOne(rest);
    assert y[i] < 255;
    OnesNotBelow(Suffix(0)[1..], y, i);
    assert ([0] + y)[1..] == y;
    assert !Less(Encode(k, 0), Encode(l, 0));
    LessTotal(Encode(k, 0), Encode(l, 0));
  }

  ghost function NotOne(b: Bytes): (i: nat)
    requires |b| >= 8 && !StartsWithOnes(b)
    ensures i < 8 && b[i] != 255
  {
    var i: nat :| i < 8 && b[i] != 255; i
  }

  /** The order law holds for two keys, over all versions, exactly when neither clashes with the other. */
  lemma OrderExactly(k: Bytes, l: Bytes)
    ensures OrderLaw(k, l) <==> !Clash(k, l) && !Clash(l, k)
  {
    hide Encode, Clash;
    if Clash(k, l) {
      ClashBreaks(k, l);
      LessAsymmetric(Encode(l, 0), Encode(k, 0));
      assert !OrderLaw(k, l);
    } else if Clash(l, k) {
      ClashBreaks(l, k);
      LessAsymmetric(l, k);
      assert !OrderLaw(k, l);
    } else {
      forall v: nat, w: nat | v < U64_LIMIT && w < U64_LIMIT
        ensures Less(Encode(k, v), Encode(l, w)) <==> Less(k, l) || (k == l && v > w)
      {
        OrderUnlessClash(k, v, l, w);
      }
    }
  }
}
