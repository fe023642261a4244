/**
 The bloom filter of an SSTable: bits set for each key, and its byte form.
 */
module SstBloom {
  import opened Bytes
  import opened Bits
  import opened SstBlock

  const BITS_PER_KEY: nat := 10
  const NUM_HASHES: byte := 7

  /** The two hashes are fixed functions of the key and a seed. */
  type Hash = (Bytes, u32) -> u32

  datatype Bloom = Bloom(bits: Bytes, numBits: nat, numHashes: byte)

  /** As many bytes as the bit count needs. */
  predicate WellSized(b: Bloom)
  {
    b.numBits > 0 && |b.bits| == (b.numBits + 7) / 8 && b.numBits < U64_LIMIT
  }

  function Create(estimated: nat): (b: Bloom)
    ensures |b.bits| == (b.numBits + 7) / 8 && b.numBits > 0
    ensures estimated * BITS_PER_KEY <= b.numBits < estimated * BITS_PER_KEY + 8 + BITS_PER_KEY
  {
    var keys := if estimated == 0 then 1 else estimated;
    var bytes := (keys * BITS_PER_KEY + 7) / 8;
    Bloom(seq(bytes, _ => 0), bytes * 8, NUM_HASHES)
  }

  /** The position of the `i`-th bit: double hashing in 32-bit arithmetic. */
  function BitOf(b: Bloom, hash: Hash, key: Bytes, i: nat): (p: nat)
    requires b.numBits > 0
    ensures p < b.numBits
  {
    var h1 := hash(key, 0);
    var h2 := hash(key, h1);
    ((h1 + i * h2) % U32_LIMIT) % b.numBits
  }

  // ---- Adding and testing ----

  predicate Test(b: Bloom, p: nat)
  {
    p / 8 < |b.bits| && BitSet(b.bits[p / 8], p % 8)
  }

  predicate Hits(b: Bloom, hash: Hash, key: Bytes, n: nat)
    requires b.numBits > 0
  {
    forall i: nat :: i < n ==> Test(b, BitOf(b, hash, key, i))
  }

  /** A key whose bits are all set may be in the table; any other key is not. */
  predicate MayContain(b: Bloom, hash: Hash, key: Bytes)
    requires b.numBits > 0
  {
    Hits(b, hash, key, b.numHashes)
  }

  function SetBit(b: Bloom, p: nat): (r: Bloom)
    requires WellSized(b) && p < b.numBits
    ensures WellSized(r) && r.numBits == b.numBits && r.numHashes == b.numHashes
  {
    OrBitByte(b.bits[p / 8], p % 8);
    b.(bits := b.bits[p / 8 := OrBit(b.bits[p / 8], p % 8)])
  }

  lemma SetBitTests(b: Bloom, p: nat, q: nat)
    requires WellSized(b) && p < b.numBits
    ensures Test(SetBit(b, p), q) <==> p == q || Test(b, q)
  {
    if q / 8 == p / 8 { OrBitSets(b.bits[p / 8], p % 8, q % 8); }
  }

  function AddBits(b: Bloom, hash: Hash, key: Bytes, n: nat): (r: Bloom)
    requires WellSized(b)
    ensures WellSized(r) && r.numBits == b.numBits && r.numHashes == b.numHashes
  {
    if n == 0 then b
    else
      var r := AddBits(b, hash, key, n - 1);
      SetBit(r, BitOf(r, hash, key, n - 1))
  }

  function Add(b: Bloom, hash: Hash, key: Bytes): (r: Bloom)
    requires WellSized(b)
    ensures WellSized(r) && r.numBits == b.numBits && r.numHashes == b.numHashes
  {
    AddBits(b, hash, key, b.numHashes)
  }

  /** Adding a key sets its own bits and clears none. */
  lemma {:induction false} AddBitsTests(b: Bloom, hash: Hash, key: Bytes, n: nat, q: nat)
    requires WellSized(b)
    ensures Test(AddBits(b, hash, key, n), q) <==> Test(b, q) || exists i: nat :: i < n && BitOf(b, hash, key, i) == q
    decreases n
  {
    if n > 0 {
      hide SetBit, Test;
      AddBitsTests(b, hash, key, n - 1, q);
      var r := AddBits(b, hash, key, n - 1);
      SetBitTests(r, BitOf(r, hash, key, n - 1), q);
      assert BitOf(r, hash, key, n - 1) == BitOf(b, hash, key, n - 1);
    }
  }

  lemma AddHits(b: Bloom, hash: Hash, key: Bytes)
    requires WellSized(b)
    ensures MayContain(Add(b, hash, key), hash, key)
  {
    hide Test;
    var r := Add(b, hash, key);
    forall i: nat | i < r.numHashes ensures Test(r, BitOf(r, hash, key, i)) {
      AddBitsTests(b, hash, key, b.numHashes, BitOf(b, hash, key, i));
      assert BitOf(r, hash, key, i) == BitOf(b, hash, key, i);
    }
  }

  lemma AddKeeps(b: Bloom, hash: Hash, key: Bytes, other: Bytes)
    requires WellSized(b) && MayContain(b, hash, other)
    ensures MayContain(Add(b, hash, key), hash, other)
  {
    hide Test;
    var r := Add(b, hash, key);
    forall i: nat | i < r.numHashes ensures Test(r, BitOf(r, hash, other, i)) {
      AddBitsTests(b, hash, key, b.numHashes, BitOf(b, hash, other, i));
      assert BitOf(r, hash, other, i) == BitOf(b, hash, other, i);
    }
  }

  function AddAll(b: Bloom, hash: Hash, keys: seq<Bytes>): (r: Bloom)
    requires WellSized(b)
    ensures WellSized(r) && r.numBits == b.numBits && r.numHashes == b.numHashes
  {
    if keys == [] then b else Add(AddAll(b, hash, keys[..|keys| - 1]), hash, keys[|keys| - 1])
  }

  /** No false negatives: every key added is reported, however many were added since. */
  lemma {:induction false} NoFalseNegatives(b: Bloom, hash: Hash, keys: seq<Bytes>, i: nat)
    requires WellSized(b) && i < |keys|
    ensures MayContain(AddAll(b, hash, keys), hash, keys[i])
    decreases |keys|
  {
    hide MayContain, Add;
    var front, last := keys[..|keys| - 1], keys[|keys| - 1];
    if i == |keys| - 1 {
      AddHits(AddAll(b, hash, front), hash, last);
    } else {
      NoFalseNegatives(b, hash, front, i);
      AddKeeps(AddAll(b, hash, front), hash, last, keys[i]);
    }
  }

  /** Bit `q` is one of the bits of one of the keys. */
  ghost predicate BitOfSome(b: Bloom, hash: Hash, keys: seq<Bytes>, q: nat)
    requires b.numBits > 0
  {
    exists j: nat, i: nat :: BitOfKey(b, hash, keys, j, i, q)
  }

  predicate BitOfKey(b: Bloom, hash: Hash, keys: seq<Bytes>, j: nat, i: nat, q: nat)
    requires b.numBits > 0
  {
    j < |keys| && i < b.numHashes && BitOf(b, hash, keys[j], i) == q
  }

  lemma {:induction false} AddAllTests(b: Bloom, hash: Hash, keys: seq<Bytes>, q: nat)
    requires WellSized(b)
    ensures Test(AddAll(b, hash, keys), q) <==> Test(b, q) || BitOfSome(b, hash, keys, q)
    decreases |keys|
  {
    hide Test, BitOf;
    if keys != [] {
      var n := |keys| - 1;
      var front, last := keys[..n], keys[n];
      AddAllTests(b, hash, front, q);
      var r := AddAll(b, hash, front);
      AddBitsTests(r, hash, last, r.numHashes, q);
      forall i: nat ensures BitOf(r, hash, last, i) == BitOf(b, hash, last, i) { SameBits(b, r, hash, last, i); }
      if i: nat :| i < b.numHashes && BitOf(b, hash, last, i) == q { assert BitOfKey(b, hash, keys, n, i, q); }
      if j: nat, i: nat :| BitOfKey(b, hash, front, j, i, q) { assert BitOfKey(b, hash, keys, j, i, q); }
      if j: nat, i: nat :| BitOfKey(b, hash, keys, j, i, q) && j < n { assert BitOfKey(b, hash, front, j, i, q); }
    }
  }

  lemma SameBits(a: Bloom, b: Bloom, hash: Hash, key: Bytes, i: nat)
    requires a.numBits == b.numBits > 0
    ensures BitOf(a, hash, key, i) == BitOf(b, hash, key, i)
  {
  }

  lemma FreshTests(estimated: nat, p: nat)
    ensures !Test(Create(estimated), p)
  {
    NoBits(p % 8);
  }

  lemma {:induction false} NoBits(j: nat)
    ensures !BitSet(0, j)
  {
    if j > 0 { NoBits(j - 1); }
  }

  /** A fresh filter reports a key exactly when every bit of it belongs to some key that was added. */
  lemma ReportsExactly(estimated: nat, hash: Hash, keys: seq<Bytes>, key: Bytes)
    requires WellSized(Create(estimated))
    ensures var b := Create(estimated);
            MayContain(AddAll(b, hash, keys), hash, key) <==> forall i: nat :: i < b.numHashes ==> BitOfSome(b, hash, keys, BitOf(b, hash, key, i))
    ensures !MayContain(Create(estimated), hash, key)
  {
    hide Test, BitOf, BitOfSome;
    var b := Create(estimated);
    var r := AddAll(b, hash, keys);
    forall i: nat ensures Test(r, BitOf(r, hash, key, i)) <==> BitOfSome(b, hash, keys, BitOf(b, hash, key, i)) {
      SameBits(b, r, hash, key, i);
      FreshTests(estimated, BitOf(b, hash, key, i));
      AddAllTests(b, hash, keys, BitOf(b, hash, key, i));
    }
    FreshTests(estimated, BitOf(b, hash, key, 0));
  }

  // ---- Byte form ----

  function Serialize(b: Bloom): Bytes
  {
    U64(b.numBits) + [b.numHashes] + b.bits
  }

  datatype Loaded = Failed | Loaded(b: Bloom)

  function Deserialize(buf: Bytes): Loaded
  {
    if |buf| < 9 then Failed
    else
      var numBits := FromLittleEndian(buf[..8]);
      var numBytes := ((numBits + 7) % U64_LIMIT) / 8;
      if |buf| < 9 + numBytes then Failed else Loaded(Bloom(buf[9..9 + numBytes], numBits, buf[8]))
  }

  /** A filter read back from its bytes is the filter written. */
  lemma SerializeRoundTrip(b: Bloom)
    requires WellSized(b) && b.numBits + 7 < U64_LIMIT
    ensures Deserialize(Serialize(b)) == Loaded(b)
  {
    hide U64;
    U64RoundTrip(b.numBits);
    var s := Serialize(b);
    assert s[..8] == U64(b.numBits);
    assert s[9..9 + |b.bits|] == b.bits;
  }

  // ---- The filter object ----

  class BloomFilter {
    const numBits: nat
    const numHashes: byte
    const bits: array<byte>

    ghost predicate Valid()
      reads this, bits
    {
      WellSized(Contents())
    }

    function Contents(): Bloom
      reads this, bits
    {
      Bloom(bits[..], numBits, numHashes)
    }

    constructor (estimated: nat)
      requires estimated * BITS_PER_KEY + 17 < U64_LIMIT
      ensures Valid() && fresh(bits) && Contents() == Create(estimated)
    {
      var keys := if estimated == 0 then 1 else estimated;
      var bytes := (keys * BITS_PER_KEY + 7) / 8;
      numBits, numHashes := bytes * 8, NUM_HASHES;
      bits := new byte[bytes](_ => 0);
    }

    /** A filter read from a file. */
    constructor Load(b: Bloom)
      requires WellSized(b)
      ensures Valid() && fresh(bits) && Contents() == b
    {
      numBits, numHashes := b.numBits, b.numHashes;
      bits := new byte[|b.bits|](i requires 0 <= i < |b.bits| => b.bits[i]);
      new;
      assert bits[..] == b.bits;
    }

    method AddKey(hash: Hash, key: Bytes)
      requires Valid()
      modifies bits
      ensures Valid() && Contents() == Add(old(Contents()), hash, key)
    {
      ghost var b0 := Contents();
      var h1 := hash(key, 0);
      var h2 := hash(key, h1);
      for i := 0 to numHashes
        invariant Contents() == AddBits(b0, hash, key, i)
      {
        var p := ((h1 + i * h2) % U32_LIMIT) % numBits;
        ghost var b := Contents();
        OrBitByte(bits[p / 8], p % 8);
        bits[p / 8] := OrBit(bits[p / 8], p % 8);
        assert Contents().bits == SetBit(b, p).bits;
      }
    }

    method Query(hash: Hash, key: Bytes) returns (r: bool)
      requires Valid()
      ensures r <==> MayContain(Contents(), hash, key)
    {
      var h1 := hash(key, 0);
      var h2 := hash(key, h1);
      for i := 0 to numHashes
        invariant Hits(Contents(), hash, key, i)
      {
        var p := ((h1 + i * h2) % U32_LIMIT) % numBits;
        assert p == BitOf(Contents(), hash, key, i);
        if !BitSet(bits[p / 8], p % 8) { return false; }
      }
      return true;
    }
  }
}
