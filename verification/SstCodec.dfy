/**
 The byte format of SSTable entries: variable-length integers and keys stored as the difference
 from the key before.
 */
module SstCodec {
  import opened Bytes
  import opened LsmMerge

  const RESTART_INTERVAL: nat := 16
  const MAX_VARINT: nat := 10

  // ---- Variable-length integers ----

  /** Groups of seven bits, least significant first; the top bit says that more follow. */
  function Varint(v: nat): (r: Bytes)
    ensures r != []
  {
    if v < 128 then [v] else [v % 128 + 128] + Varint(v / 128)
  }

  /** Value and number of bytes read; 0 bytes when no integer ends within `k` bytes. */
  function ReadGroups(buf: Bytes, k: nat): (r: (nat, nat))
    ensures r.1 <= |buf| && r.1 <= k && (r.1 == 0 ==> r.0 == 0)
    decreases k
  {
    if k == 0 || buf == [] then (0, 0)
    else if buf[0] < 128 then (buf[0], 1)
    else
      var more := ReadGroups(buf[1..], k - 1);
      if more.1 == 0 then (0, 0) else (buf[0] - 128 + 128 * more.0, more.1 + 1)
  }

  /** At most ten groups, cut down to 64 bits. */
  function DecodeVarint(buf: Bytes): (r: (nat, nat))
    ensures r.0 < U64_LIMIT && r.1 <= |buf|
  {
    var g := ReadGroups(buf, MAX_VARINT);
    (g.0 % U64_LIMIT, g.1)
  }

  lemma {:induction false} GroupsRoundTrip(v: nat, k: nat, rest: Bytes)
    requires |Varint(v)| <= k
    ensures ReadGroups(Varint(v) + rest, k) == (v, |Varint(v)|)
    decreases k
  {
    if v >= 128 {
      GroupsRoundTrip(v / 128, k - 1, rest);
      assert (Varint(v) + rest)[1..] == Varint(v / 128) + rest;
    }
  }

  function Pow128(k: nat): nat
  {
    if k == 0 then 1 else 128 * Pow128(k - 1)
  }

  lemma {:induction false} VarintLength(v: nat, k: nat)
    requires k > 0 && v < Pow128(k)
    ensures |Varint(v)| <= k
    decreases k
  {
    if v >= 128 { VarintLength(v / 128, k - 1); }
  }

  lemma U64InTenGroups()
    ensures U64_LIMIT <= Pow128(MAX_VARINT)
  {
    assert Pow128(2) == 16384;
    assert Pow128(4) == 128 * (128 * Pow128(2));
    assert Pow128(6) == 128 * (128 * Pow128(4));
    assert Pow128(8) == 128 * (128 * Pow128(6));
    assert Pow128(10) == 128 * (128 * Pow128(8));
  }

  /** Every 64-bit integer is read back, whatever follows it. */
  lemma VarintRoundTrip(v: nat, rest: Bytes)
    requires v < U64_LIMIT
    ensures DecodeVarint(Varint(v) + rest) == (v, |Varint(v)|) && |Varint(v)| <= MAX_VARINT
  {
    U64InTenGroups();
    VarintLength(v, MAX_VARINT);
    GroupsRoundTrip(v, MAX_VARINT, rest);
  }

  method EncodeVarint(value: nat) returns (r: Bytes)
    ensures r == Varint(value)
  {
    r := [];
    var v := value;
    while v >= 128
      invariant r + Varint(v) == Varint(value)
    {
      r := r + [v % 128 + 128];
      v := v / 128;
    }
    r := r + [v];
  }

  /** The decoding loop: each byte adds seven bits at a growing shift. */
  method DecodeVarintAt(buf: Bytes) returns (value: nat, n: nat)
    ensures n == DecodeVarint(buf).1 && (n > 0 ==> value == DecodeVarint(buf).0)
  {
    hide ReadGroups;
    var i: nat, sum: nat, weight: nat := 0, 0, 1;
    assert buf[0..] == buf;
    while i < |buf| && i < MAX_VARINT
      invariant i <= |buf| && i <= MAX_VARINT
      invariant ReadGroups(buf, MAX_VARINT) == Continued(i, sum, weight, ReadGroups(buf[i..], MAX_VARINT - i))
    {
      var b := buf[i];
      assert buf[i..][1..] == buf[i + 1..];
      GroupStep(buf[i..], MAX_VARINT - i, i, sum, weight);
      if b < 128 { return (sum + weight * b) % U64_LIMIT, i + 1; }
      sum := sum + weight * (b - 128);
      weight := weight * 128;
      i := i + 1;
    }
    GroupsEnd(buf[i..], MAX_VARINT - i);
    return 0, 0;
  }

  /** The loop's state, completed with what the remaining bytes give. */
  function Continued(i: nat, sum: nat, weight: nat, more: (nat, nat)): (nat, nat)
  {
    if more.1 == 0 then (0, 0) else (sum + weight * more.0, i + more.1)
  }

  lemma GroupsEnd(buf: Bytes, k: nat)
    requires buf == [] || k == 0
    ensures ReadGroups(buf, k) == (0, 0)
  {
  }

  lemma GroupStep(buf: Bytes, k: nat, i: nat, sum: nat, weight: nat)
    requires buf != [] && k > 0
    ensures buf[0] < 128 ==> ReadGroups(buf, k) == (buf[0], 1)
    ensures buf[0] >= 128 ==> Continued(i, sum, weight, ReadGroups(buf, k))
                              == Continued(i + 1, sum + weight * (buf[0] - 128), weight * 128, ReadGroups(buf[1..], k - 1))
  {
    if buf[0] >= 128 {
      var low, high := buf[0] - 128, ReadGroups(buf[1..], k - 1).0;
      assert weight * (low + 128 * high) == weight * low + weight * 128 * high;
    }
  }

  // ---- Shared prefixes ----

  function SharedPrefix(a: Bytes, b: Bytes): (n: nat)
    ensures n <= |a| && n <= |b| && a[..n] == b[..n]
    ensures n < |a| && n < |b| ==> a[n] != b[n]
  {
    if a == [] || b == [] || a[0] != b[0] then 0
    else
      var n := SharedPrefix(a[1..], b[1..]);
      assert a[..n + 1] == [a[0]] + a[1..][..n] && b[..n + 1] == [b[0]] + b[1..][..n];
      1 + n
  }

  method SharedPrefixLength(a: Bytes, b: Bytes) returns (i: nat)
    ensures i == SharedPrefix(a, b)
  {
    i := 0;
    while i < |a| && i < |b| && a[i] == b[i]
      invariant i <= |a| && i <= |b|
      invariant SharedPrefix(a, b) == i + SharedPrefix(a[i..], b[i..])
    {
      assert a[i..][1..] == a[i + 1..] && b[i..][1..] == b[i + 1..];
      i := i + 1;
    }
  }

  // ---- Entries ----

  function SharedOf(prev: Bytes, e: Entry, restart: bool): (n: nat)
    ensures n <= |prev| && n <= |e.key| && prev[..n] == e.key[..n]
    ensures restart ==> n == 0
  {
    if restart then 0 else SharedPrefix(prev, e.key)
  }

  function HeaderBytes(shared: nat, unshared: nat, valueLength: nat, deleted: bool): Bytes
  {
    Varint(shared) + Varint(unshared) + Varint(valueLength) + [if deleted then 1 else 0]
  }

  function EncodeEntry(prev: Bytes, e: Entry, restart: bool): Bytes
  {
    var s := SharedOf(prev, e, restart);
    HeaderBytes(s, |e.key| - s, |e.value|, e.deleted) + e.key[s..] + e.value
  }

  predicate Sized(e: Entry)
  {
    |e.key| < U64_LIMIT && |e.value| < U64_LIMIT
  }

  datatype Header = Broken | Header(shared: nat, unshared: nat, valueLength: nat, deleted: bool, size: nat)

  /** Read an entry header from the front of `t`. */
  function ParseHeader(t: Bytes): (h: Header)
    ensures h.Header? ==> 0 < h.size <= |t| && h.unshared < U64_LIMIT && h.valueLength < U64_LIMIT
  {
    var a := DecodeVarint(t);
    if a.1 == 0 then Broken
    else
      var b := DecodeVarint(t[a.1..]);
      if b.1 == 0 then Broken
      else
        var c := DecodeVarint(t[a.1 + b.1..]);
        var n := a.1 + b.1 + c.1;
        if c.1 == 0 || n >= |t| then Broken
        else Header(a.0, b.0, c.0, t[n] != 0, n + 1)
  }

  lemma HeaderRoundTrip(shared: nat, unshared: nat, valueLength: nat, deleted: bool, rest: Bytes)
    requires shared < U64_LIMIT && unshared < U64_LIMIT && valueLength < U64_LIMIT
    ensures var h := HeaderBytes(shared, unshared, valueLength, deleted);
            ParseHeader(h + rest) == Header(shared, unshared, valueLength, deleted, |h|) && |h| <= 31
  {
    hide DecodeVarint, Varint;
    var a, b, c, d := Varint(shared), Varint(unshared), Varint(valueLength), [if deleted then 1 else 0];
    Pieces(a, b, c, d, rest);
    VarintRoundTrip(shared, b + (c + (d + rest)));
    VarintRoundTrip(unshared, c + (d + rest));
    VarintRoundTrip(valueLength, d + rest);
  }

  lemma Pieces(a: Bytes, b: Bytes, c: Bytes, d: Bytes, rest: Bytes)
    requires |d| == 1
    ensures var t := a + b + c + d + rest;
            && t == a + (b + (c + (d + rest))) && t[|a|..] == b + (c + (d + rest)) && t[|a| + |b|..] == c + (d + rest)
            && t[|a| + |b| + |c|] == d[0]
  {
  }

  /** One entry, read back behind the key it was compressed against. */
  lemma EntryRoundTrip(prev: Bytes, e: Entry, restart: bool, rest: Bytes)
    requires Sized(e)
    ensures var t := EncodeEntry(prev, e, restart) + rest;
            var h := ParseHeader(t);
            && h.Header? && h.shared == SharedOf(prev, e, restart) && h.shared + h.unshared == |e.key|
            && h.valueLength == |e.value| && h.deleted == e.deleted
            && h.size + h.unshared + h.valueLength == |EncodeEntry(prev, e, restart)|
            && prev[..h.shared] + t[h.size..h.size + h.unshared] == e.key
            && t[h.size + h.unshared..h.size + h.unshared + h.valueLength] == e.value
  {
    hide ParseHeader, HeaderBytes, SharedPrefix;
    var s := SharedOf(prev, e, restart);
    var h := HeaderBytes(s, |e.key| - s, |e.value|, e.deleted);
    var delta := e.key[s..];
    assert EncodeEntry(prev, e, restart) + rest == h + (delta + e.value + rest);
    assert EncodeEntry(prev, e, restart) + rest == h + delta + (e.value + rest);
    HeaderRoundTrip(s, |e.key| - s, |e.value|, e.deleted, delta + e.value + rest);
    assert e.key == e.key[..s] + delta;
  }

  /** An entry never takes more than 31 header bytes beside its key and value. */
  lemma EntryLength(prev: Bytes, e: Entry, restart: bool)
    requires Sized(e)
    ensures 3 < |EncodeEntry(prev, e, restart)| <= 31 + |e.key| + |e.value|
  {
    hide Varint;
    var s := SharedOf(prev, e, restart);
    VarintRoundTrip(s, []);
    VarintRoundTrip(|e.key| - s, []);
    VarintRoundTrip(|e.value|, []);
  }
}
