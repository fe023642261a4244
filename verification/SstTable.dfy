/**
 The SSTable file: data blocks, index, bloom filter and footer, and what opening it recovers.
 */
module SstTable {
  import opened Bytes
  import opened LsmMerge
  import opened SstCodec
  import opened SstBlock
  import opened SstBloom

  const MAX_FOOTER_KEY: nat := 256
  const FOOTER_SIZE: nat := 576
  const MAGIC: nat := 0x5353_5442_4C45_5631

  lemma Cut(a: Bytes, b: Bytes)
    ensures (a + b)[..|a|] == a && (a + b)[|a|..] == b
  {
  }

  // ---- Index ----

  datatype IndexEntry = IndexEntry(lastKey: Bytes, offset: nat, size: nat)

  function IndexEntryBytes(e: IndexEntry): (r: Bytes)
    ensures r != []
  {
    Varint(|e.lastKey|) + (e.lastKey + (U64(e.offset) + U32(e.size)))
  }

  function IndexBytes(es: seq<IndexEntry>): Bytes
  {
    if es == [] then [] else IndexEntryBytes(es[0]) + IndexBytes(es[1..])
  }

  /** Entries up to the end of the buffer, or up to the first that does not fit. */
  function ParseIndex(buf: Bytes): seq<IndexEntry>
    decreases |buf|
  {
    if buf == [] then []
    else
      var (klen, n) := DecodeVarint(buf);
      if n == 0 || n + klen + 12 > |buf| then []
      else
        var t := buf[n + klen..];
        [IndexEntry(buf[n..n + klen], FromLittleEndian(t[..8]), FromLittleEndian(t[8..12]))] + ParseIndex(t[12..])
  }

  predicate IndexEntryFits(e: IndexEntry)
  {
    |e.lastKey| < U64_LIMIT && e.offset < U64_LIMIT && e.size < U32_LIMIT
  }

  lemma ParseOneIndex(e: IndexEntry, rest: Bytes)
    requires IndexEntryFits(e)
    ensures ParseIndex(IndexEntryBytes(e) + rest) == [e] + ParseIndex(rest)
  {
    hide DecodeVarint, Varint, U64, U32, FromLittleEndian;
    IndexPieces(Varint(|e.lastKey|), e.lastKey, U64(e.offset), U32(e.size), rest);
    VarintRoundTrip(|e.lastKey|, e.lastKey + (U64(e.offset) + U32(e.size) + rest));
    U64RoundTrip(e.offset);
    U32RoundTrip(e.size);
  }

  lemma IndexPieces(v: Bytes, k: Bytes, o: Bytes, z: Bytes, rest: Bytes)
    requires |o| == 8 && |z| == 4
    ensures var buf, n := v + (k + (o + z)) + rest, |v| + |k|;
            && buf == v + (k + (o + z + rest)) && buf[|v|..n] == k && |buf| >= n + 12
            && buf[n..][..8] == o && buf[n..][8..12] == z && buf[n..][12..] == rest
  {
  }

  /** The whole index is read back. */
  lemma {:induction false} IndexRoundTrip(es: seq<IndexEntry>)
    requires forall i: nat :: i < |es| ==> IndexEntryFits(es[i])
    ensures ParseIndex(IndexBytes(es)) == es
    decreases |es|
  {
    if es != [] {
      hide IndexEntryBytes, ParseIndex, IndexEntryFits;
      assert forall i: nat :: i < |es| - 1 ==> es[1..][i] == es[i + 1];
      IndexRoundTrip(es[1..]);
      ParseOneIndex(es[0], IndexBytes(es[1..]));
      assert es == [es[0]] + es[1..];
    }
  }

  lemma {:induction false} IndexBytesSnoc(es: seq<IndexEntry>, e: IndexEntry)
    ensures IndexBytes(es + [e]) == IndexBytes(es) + IndexEntryBytes(e)
    decreases |es|
  {
    hide IndexEntryBytes;
    if es == [] {
      assert (es + [e])[1..] == [];
      assert IndexBytes([e]) == IndexEntryBytes(e) + IndexBytes([]);
    } else {
      assert (es + [e])[1..] == es[1..] + [e];
      IndexBytesSnoc(es[1..], e);
    }
  }

  // ---- Footer ----

  datatype Footer = Footer(
    indexOffset: nat, indexSize: nat, bloomOffset: nat, bloomSize: nat, numEntries: nat, minKey: Bytes, maxKey: Bytes)

  function Zeros(n: nat): (r: Bytes)
    ensures |r| == n
  {
    seq(n, _ => 0)
  }

  function Padded(key: Bytes): (r: Bytes)
    requires |key| <= MAX_FOOTER_KEY
    ensures |r| == MAX_FOOTER_KEY && r[..|key|] == key
  {
    key + Zeros(MAX_FOOTER_KEY - |key|)
  }

  predicate FooterFits(f: Footer)
  {
    && f.indexOffset < U64_LIMIT && f.indexSize < U32_LIMIT && f.bloomOffset < U64_LIMIT && f.bloomSize < U32_LIMIT
    && f.numEntries < U64_LIMIT && |f.minKey| <= MAX_FOOTER_KEY && |f.maxKey| <= MAX_FOOTER_KEY
  }

  /** The two key fields and the magic number. */
  function FooterKeys(f: Footer): (r: Bytes)
    requires |f.minKey| <= MAX_FOOTER_KEY && |f.maxKey| <= MAX_FOOTER_KEY
    ensures |r| == 528
  {
    U32(|f.minKey|) + (Padded(f.minKey) + (U32(|f.maxKey|) + (Padded(f.maxKey) + U64(MAGIC))))
  }

  /** The structure as it lies in memory, with the compiler's padding, without the checksum. */
  function FooterBody(f: Footer): (r: Bytes)
    requires |f.minKey| <= MAX_FOOTER_KEY && |f.maxKey| <= MAX_FOOTER_KEY
    ensures |r| == 568
  {
    U64(f.indexOffset) + (U32(f.indexSize) + (Zeros(4) + (U64(f.bloomOffset)
    + (U32(f.bloomSize) + (Zeros(4) + (U64(f.numEntries) + FooterKeys(f)))))))
  }

  function FooterBytes(f: Footer, crc: Crc): (r: Bytes)
    requires |f.minKey| <= MAX_FOOTER_KEY && |f.maxKey| <= MAX_FOOTER_KEY
    ensures |r| == FOOTER_SIZE
  {
    FooterBody(f) + (U32(crc(FooterBody(f))) + Zeros(4))
  }

  datatype FooterRead = BadFooter | GoodFooter(f: Footer)

  function Field(b: Bytes, at: nat, width: nat): nat
    requires at + width <= |b|
  {
    FromLittleEndian(b[at..at + width])
  }

  function Capped(n: nat): (r: nat)
    ensures r <= MAX_FOOTER_KEY
  {
    if n <= MAX_FOOTER_KEY then n else MAX_FOOTER_KEY
  }

  function ParseFooter(b: Bytes, crc: Crc): FooterRead
    requires |b| == FOOTER_SIZE
  {
    if Field(b, 560, 8) != MAGIC || Field(b, 568, 4) != crc(b[..568]) then BadFooter
    else
      GoodFooter(Footer(
          Field(b, 0, 8), Field(b, 8, 4), Field(b, 16, 8), Field(b, 24, 4), Field(b, 32, 8),
          b[44..44 + Capped(Field(b, 40, 4))], b[304..304 + Capped(Field(b, 300, 4))]))
  }

  /** A footer is accepted exactly when it carries the magic number and the checksum of what is before it. */
  lemma FooterAccepted(b: Bytes, crc: Crc)
    requires |b| == FOOTER_SIZE
    ensures ParseFooter(b, crc).GoodFooter? <==> b[560..568] == U64(MAGIC) && b[568..572] == U32(crc(b[..568]))
  {
    hide FromLittleEndian, LittleEndian;
    FromLittleEndianRoundTrip(b[560..568]);
    FromLittleEndianRoundTrip(b[568..572]);
    U64RoundTrip(MAGIC);
    U32RoundTrip(crc(b[..568]));
  }

  lemma FooterKeyFields(f: Footer)
    requires |f.minKey| <= MAX_FOOTER_KEY && |f.maxKey| <= MAX_FOOTER_KEY
    ensures var k := FooterKeys(f);
            && k[0..4] == U32(|f.minKey|) && k[4..4 + |f.minKey|] == f.minKey
            && k[260..264] == U32(|f.maxKey|) && k[264..264 + |f.maxKey|] == f.maxKey && k[520..528] == U64(MAGIC)
  {
    hide U32, U64, Padded;
    var k := FooterKeys(f);
    var k1 := Padded(f.minKey) + (U32(|f.maxKey|) + (Padded(f.maxKey) + U64(MAGIC)));
    var k2 := U32(|f.maxKey|) + (Padded(f.maxKey) + U64(MAGIC));
    var k3 := Padded(f.maxKey) + U64(MAGIC);
    Cut(U32(|f.minKey|), k1);
    Cut(Padded(f.minKey), k2);
    Cut(U32(|f.maxKey|), k3);
    Cut(Padded(f.maxKey), U64(MAGIC));
    assert k[4..] == k1 && k[260..] == k2 && k[264..] == k3 && k[520..] == U64(MAGIC);
    assert k[4..4 + |f.minKey|] == k1[..256][..|f.minKey|];
    assert k[264..264 + |f.maxKey|] == k3[..256][..|f.maxKey|];
  }

  lemma FooterNumbers(f: Footer)
    requires |f.minKey| <= MAX_FOOTER_KEY && |f.maxKey| <= MAX_FOOTER_KEY
    ensures var b := FooterBody(f);
            && b[0..8] == U64(f.indexOffset) && b[8..12] == U32(f.indexSize) && b[16..24] == U64(f.bloomOffset)
            && b[24..28] == U32(f.bloomSize) && b[32..40] == U64(f.numEntries) && b[40..] == FooterKeys(f)
  {
    hide U32, U64, FooterKeys, Zeros;
    var b := FooterBody(f);
    var b6 := U64(f.numEntries) + FooterKeys(f);
    var b5 := Zeros(4) + b6;
    var b4 := U32(f.bloomSize) + b5;
    var b3 := U64(f.bloomOffset) + b4;
    var b2 := Zeros(4) + b3;
    var b1 := U32(f.indexSize) + b2;
    Cut(U64(f.indexOffset), b1);
    Cut(U32(f.indexSize), b2);
    Cut(Zeros(4), b3);
    Cut(U64(f.bloomOffset), b4);
    Cut(U32(f.bloomSize), b5);
    Cut(Zeros(4), b6);
    Cut(U64(f.numEntries), FooterKeys(f));
    assert b[8..] == b1 && b[12..] == b2 && b[16..] == b3;
    assert b[24..] == b4 && b[28..] == b5 && b[32..] == b6;
  }

  /** The footer is read back, field for field. */
  lemma FooterRoundTrip(f: Footer, crc: Crc)
    requires FooterFits(f)
    ensures ParseFooter(FooterBytes(f, crc), crc) == GoodFooter(f)
  {
    hide U32, U64, FooterKeys, FooterBody, Zeros;
    var body, b := FooterBody(f), FooterBytes(f, crc);
    FooterNumbers(f);
    FooterKeyFields(f);
    Cut(body, U32(crc(body)) + Zeros(4));
    assert b[568..572] == U32(crc(body));
    assert forall i, j :: 0 <= i <= j <= 568 ==> b[i..j] == body[i..j];
    assert forall i, j :: 0 <= i <= j <= 528 ==> FooterKeys(f)[i..j] == body[40 + i..40 + j];
    U64RoundTrip(f.indexOffset);
    U32RoundTrip(f.indexSize);
    U64RoundTrip(f.bloomOffset);
    U32RoundTrip(f.bloomSize);
    U64RoundTrip(f.numEntries);
    U32RoundTrip(|f.minKey|);
    U32RoundTrip(|f.maxKey|);
    U64RoundTrip(MAGIC);
    U32RoundTrip(crc(body));
  }
}
