/**
 Packed encodings of `backend/src/relayer/encoder.ts` and the digests computed from them.
 Each payload has a fixed width, and equal payloads come from equal fields.
 */
module Encoder {
  import opened Integers
  import opened Bytes
  import opened HexFields

  datatype ScoreData = ScoreData(
    score: u32, fulfilledCount: u32, lateCount: u32, breachedCount: u32, epoch: u32, sourceLedgerSeq: u64)

  /** The hash fields are hexadecimal texts. */
  datatype HeaderProof = HeaderProof(
    previousLedgerHash: string, txSetResultHash: string, bucketListHash: string, ledgerVersion: u32)

  // ------------------------------------------------------------------- leaves

  function ScoreBytes(s: ScoreData): (p: Buffer)
    ensures |p| == 28
  {
    BigEndian(s.score, 4) + BigEndian(s.fulfilledCount, 4) + BigEndian(s.lateCount, 4)
    + BigEndian(s.breachedCount, 4) + BigEndian(s.epoch, 4) + BigEndian(s.sourceLedgerSeq, 8)
  }

  function LeafPayload(contractId: Digest, address: Digest, s: ScoreData): (p: Buffer)
    ensures |p| == 92
  {
    contractId + address + ScoreBytes(s)
  }

  method WriteScore(buf: array<byte>, s: ScoreData)
    requires buf.Length == 92
    modifies buf
    ensures buf[..] == old(buf[..64]) + ScoreBytes(s)
  {
    WriteUInt(buf, s.score, 4, 64);
    WriteUInt(buf, s.fulfilledCount, 4, 68);
    WriteUInt(buf, s.lateCount, 4, 72);
    WriteUInt(buf, s.breachedCount, 4, 76);
    WriteUInt(buf, s.epoch, 4, 80);
    WriteUInt(buf, s.sourceLedgerSeq, 8, 84);
    assert buf[..92] == buf[..];
  }

  /** `encodeLeafPayload` fills its 92-byte buffer left to right. */
  method EncodeLeafPayload(contractId: Digest, address: Digest, s: ScoreData) returns (buf: array<byte>)
    ensures fresh(buf) && buf.Length == 92
    ensures buf[..] == LeafPayload(contractId, address, s)
  {
    buf := new byte[92](_ => 0);
    CopyInto(buf, contractId, 0);
    CopyInto(buf, address, 32);
    WriteScore(buf, s);
  }

  function LeafHash(h: HashFn, contractId: Digest, address: Digest, s: ScoreData): Digest {
    h(LeafPayload(contractId, address, s))
  }

  /** Every field can be read back from its place in a score's 28 bytes. */
  lemma ScoreReadsBack(s: ScoreData)
    ensures var p := ScoreBytes(s);
            && Read(p[..4]) == s.score && Read(p[4..8]) == s.fulfilledCount && Read(p[8..12]) == s.lateCount
            && Read(p[12..16]) == s.breachedCount && Read(p[16..20]) == s.epoch && Read(p[20..28]) == s.sourceLedgerSeq
  {
    var p := ScoreBytes(s);
    Spans();
    assert p[..4] == BigEndian(s.score, 4) && p[4..8] == BigEndian(s.fulfilledCount, 4);
    assert p[8..12] == BigEndian(s.lateCount, 4) && p[12..16] == BigEndian(s.breachedCount, 4);
    assert p[16..20] == BigEndian(s.epoch, 4) && p[20..28] == BigEndian(s.sourceLedgerSeq, 8);
    ReadBack(s.score, 4);
    ReadBack(s.fulfilledCount, 4);
    ReadBack(s.lateCount, 4);
    ReadBack(s.breachedCount, 4);
    ReadBack(s.epoch, 4);
    ReadBack(s.sourceLedgerSeq, 8);
  }

  lemma LeafFields(c: Digest, a: Digest, s: ScoreData)
    ensures var p := LeafPayload(c, a, s);
            p[..32] == c && p[32..64] == a && p[64..] == ScoreBytes(s)
  {
  }

  /** A leaf payload reads back as contract, address and the six score fields, big-endian, in this order. */
  lemma LeafReadsBack(c: Digest, a: Digest, s: ScoreData)
    ensures var p := LeafPayload(c, a, s);
            && p[..32] == c && p[32..64] == a && Read(p[64..68]) == s.score && Read(p[68..72]) == s.fulfilledCount
            && Read(p[72..76]) == s.lateCount && Read(p[76..80]) == s.breachedCount && Read(p[80..84]) == s.epoch
            && Read(p[84..92]) == s.sourceLedgerSeq
  {
    var p, q := LeafPayload(c, a, s), ScoreBytes(s);
    LeafFields(c, a, s);
    ScoreReadsBack(s);
    assert p[64..68] == q[..4] && p[68..72] == q[4..8] && p[72..76] == q[8..12] && p[76..80] == q[12..16];
    assert p[80..84] == q[16..20] && p[84..92] == q[20..28];
  }

  /** Equal leaf payloads have equal contract bytes, address bytes and score fields. */
  lemma LeafPayloadInjective(c1: Digest, a1: Digest, s1: ScoreData, c2: Digest, a2: Digest, s2: ScoreData)
    requires LeafPayload(c1, a1, s1) == LeafPayload(c2, a2, s2)
    ensures c1 == c2 && a1 == a2 && s1 == s2
  {
    LeafReadsBack(c1, a1, s1);
    LeafReadsBack(c2, a2, s2);
  }

  // ------------------------------------------------------------------ headers

  const ZEROS: Digest := seq(32, _ => 0)

  /** The first 32 bytes, filled up with zeros on the right. */
  function Fit32(b: Buffer): Digest {
    if |b| >= 32 then b[..32] else b + seq(32 - |b|, _ => 0)
  }

  /** What a header carries of a hash field. */
  function Carried(field: string): Digest {
    Fit32(HexBytes(field))
  }

  function HeaderPayload(ledgerSeq: u32, p: HeaderProof): (b: Buffer)
    ensures |b| == 104
  {
    BigEndian(ledgerSeq, 4) + Carried(p.previousLedgerHash) + Carried(p.txSetResultHash) + Carried(p.bucketListHash)
    + BigEndian(p.ledgerVersion, 4)
  }

  /** `field.copy(buf, at, 0, 32)` into a buffer that is still zero from there on. */
  method CopyField(buf: array<byte>, field: Buffer, at: nat)
    requires at + 32 <= buf.Length && forall i :: at <= i < buf.Length ==> buf[i] == 0
    modifies buf
    ensures buf[..at + 32] == old(buf[..at]) + Fit32(field)
    ensures forall i :: at + 32 <= i < buf.Length ==> buf[i] == 0
  {
    var src := if |field| >= 32 then field[..32] else field;
    CopyInto(buf, src, at);
    assert buf[..at + 32] == buf[..at + |src|] + buf[at + |src|..at + 32];
    assert buf[at + |src|..at + 32] == seq(32 - |src|, _ => 0);
    assert src + seq(32 - |src|, _ => 0) == Fit32(field);
  }

  method CopyFields(buf: array<byte>, p: HeaderProof)
    requires buf.Length == 104 && forall i :: 4 <= i < buf.Length ==> buf[i] == 0
    modifies buf
    ensures buf[..100] == old(buf[..4]) + Carried(p.previousLedgerHash) + Carried(p.txSetResultHash)
                          + Carried(p.bucketListHash)
  {
    CopyField(buf, HexBytes(p.previousLedgerHash), 4);
    CopyField(buf, HexBytes(p.txSetResultHash), 36);
    CopyField(buf, HexBytes(p.bucketListHash), 68);
  }

  /** `encodeHeaderPayload`: each field's bytes are cut after 32, and a shorter field leaves zeros behind it. */
  method EncodeHeaderPayload(ledgerSeq: u32, p: HeaderProof) returns (buf: array<byte>)
    ensures fresh(buf) && buf.Length == 104
    ensures buf[..] == HeaderPayload(ledgerSeq, p)
  {
    buf := new byte[104](_ => 0);
    WriteUInt(buf, ledgerSeq, 4, 0);
    assert buf[..4] == BigEndian(ledgerSeq, 4);
    CopyFields(buf, p);
    ghost var front := buf[..100];
    WriteUInt(buf, p.ledgerVersion, 4, 100);
    assert buf[..] == buf[..104] == front + BigEndian(p.ledgerVersion, 4);
  }

  function HeaderHash(h: HashFn, ledgerSeq: u32, p: HeaderProof): Digest {
    h(HeaderPayload(ledgerSeq, p))
  }

  lemma HeaderFields(s: u32, p: HeaderProof)
    ensures var b := HeaderPayload(s, p);
            && b[..4] == BigEndian(s, 4) && b[4..36] == Carried(p.previousLedgerHash)
            && b[36..68] == Carried(p.txSetResultHash) && b[68..100] == Carried(p.bucketListHash)
            && b[100..104] == BigEndian(p.ledgerVersion, 4)
  {
  }

  /** A header payload reads back as sequence, the three carried fields and version. */
  lemma HeaderReadsBack(s: u32, p: HeaderProof)
    ensures var b := HeaderPayload(s, p);
            && Read(b[..4]) == s && b[4..36] == Carried(p.previousLedgerHash) && b[36..68] == Carried(p.txSetResultHash)
            && b[68..100] == Carried(p.bucketListHash) && Read(b[100..104]) == p.ledgerVersion
  {
    HeaderFields(s, p);
    Spans();
    ReadBack(s, 4);
    ReadBack(p.ledgerVersion, 4);
  }

  /** Two headers that carry the same. */
  predicate SameHeader(p: HeaderProof, q: HeaderProof) {
    && Carried(p.previousLedgerHash) == Carried(q.previousLedgerHash)
    && Carried(p.txSetResultHash) == Carried(q.txSetResultHash)
    && Carried(p.bucketListHash) == Carried(q.bucketListHash) && p.ledgerVersion == q.ledgerVersion
  }

  /** Equal header payloads carry equal sequences, versions and 32-byte fields. */
  lemma HeaderPayloadInjective(s1: u32, p1: HeaderProof, s2: u32, p2: HeaderProof)
    requires HeaderPayload(s1, p1) == HeaderPayload(s2, p2)
    ensures s1 == s2 && SameHeader(p1, p2)
  {
    HeaderReadsBack(s1, p1);
    HeaderReadsBack(s2, p2);
  }

  // -------------------------------------------------------- aggregation leaves

  function AggregationPayload(sequenceId: u64, address: Digest, leaf: Digest, score: u32, sourceLedgerSeq: u64)
    : (b: Buffer)
    ensures |b| == 84
  {
    BigEndian(sequenceId, 8) + address + leaf + BigEndian(score, 4) + BigEndian(sourceLedgerSeq, 8)
  }

  /** `encodeAggregationPayload`. */
  method EncodeAggregationPayload(sequenceId: u64, address: Digest, leaf: Digest, score: u32, sourceLedgerSeq: u64)
    returns (buf: array<byte>)
    ensures fresh(buf) && buf.Length == 84
    ensures buf[..] == AggregationPayload(sequenceId, address, leaf, score, sourceLedgerSeq)
  {
    buf := new byte[84](_ => 0);
    WriteUInt(buf, sequenceId, 8, 0);
    CopyInto(buf, address, 8);
    CopyInto(buf, leaf, 40);
    WriteUInt(buf, score, 4, 72);
    WriteUInt(buf, sourceLedgerSeq, 8, 76);
    assert buf[..84] == buf[..];
  }

  /** Double hashing of the aggregation payload. */
  function AggregationLeaf(h: HashFn, sequenceId: u64, address: Digest, leaf: Digest, s: ScoreData): Digest {
    h(h(AggregationPayload(sequenceId, address, leaf, s.score, s.sourceLedgerSeq)))
  }

  lemma AggregationFields(i: u64, a: Digest, l: Digest, sc: u32, src: u64)
    ensures var b := AggregationPayload(i, a, l, sc, src);
            && b[..8] == BigEndian(i, 8) && b[8..40] == a && b[40..72] == l
            && b[72..76] == BigEndian(sc, 4) && b[76..84] == BigEndian(src, 8)
  {
  }

  /** An aggregation payload reads back as position, address, leaf, score and source ledger. */
  lemma AggregationReadsBack(i: u64, a: Digest, l: Digest, sc: u32, src: u64)
    ensures var b := AggregationPayload(i, a, l, sc, src);
            && Read(b[..8]) == i && b[8..40] == a && b[40..72] == l && Read(b[72..76]) == sc && Read(b[76..84]) == src
  {
    AggregationFields(i, a, l, sc, src);
    Spans();
    ReadBack(i, 8);
    ReadBack(sc, 4);
    ReadBack(src, 8);
  }

  lemma AggregationPayloadInjective(i1: u64, a1: Digest, l1: Digest, sc1: u32, src1: u64,
                                    i2: u64, a2: Digest, l2: Digest, sc2: u32, src2: u64)
    requires AggregationPayload(i1, a1, l1, sc1, src1) == AggregationPayload(i2, a2, l2, sc2, src2)
    ensures i1 == i2 && a1 == a2 && l1 == l2 && sc1 == sc2 && src1 == src2
  {
    AggregationReadsBack(i1, a1, l1, sc1, src1);
    AggregationReadsBack(i2, a2, l2, sc2, src2);
  }
}
