/**
 What an accepted header hash pins down. The verifier compares the header's bucket list hash
 with the state root as texts, while the header hash covers bytes: the header carries the
 root exactly when the bucket list field is not too short. Then it binds the whole batch.
 */
module HeaderBinding {
  import opened Integers
  import opened Wrappers
  import opened Bytes
  import opened HexFields
  import opened Encoder
  import opened MerkleTrees
  import opened StateProofs

  // ------------------------------------------- what a header carries of a field

  predicate ZeroDigits(s: string) {
    forall i :: 0 <= i < |s| ==> IsHexDigit(s[i]) && Nibble(s[i]) == 0
  }

  lemma {:induction false} ZeroDigitsZeroBytes(s: string)
    requires ZeroDigits(s)
    ensures FromHex(s) == seq(|s| / 2, _ => 0)
  {
    if |s| >= 2 {
      assert ZeroDigits(s[2..]);
      ZeroDigitsZeroBytes(s[2..]);
    }
  }

  /** The digit at a position, read off the decoded bytes. */
  function DigitAt(b: Buffer, i: nat): int
    requires i < 2 * |b|
  {
    if i % 2 == 0 then b[i / 2] / 16 else b[i / 2] % 16
  }

  lemma DigitsOfBytes(s: string, i: nat)
    requires i < 2 * |FromHex(s)|
    ensures i < |s| && IsHexDigit(s[i]) && DigitAt(FromHex(s), i) == Nibble(s[i])
  {
    BytesArePairs(s, i / 2);
    assert i == 2 * (i / 2) || i == 2 * (i / 2) + 1;
  }

  lemma ZeroBytesZeroDigits(s: string)
    requires AllHex(s) && |s| % 2 == 0 && FromHex(s) == seq(|s| / 2, _ => 0)
    ensures ZeroDigits(s)
  {
    forall i | 0 <= i < |s| ensures Nibble(s[i]) == 0 {
      DigitsOfBytes(s, i);
      assert FromHex(s)[i / 2] == 0;
    }
  }

  /** Shifted against itself by the padding, a field that still reads the same has nothing but zeros. */
  lemma {:induction false} ShiftedDigitsVanish(short: string, full: string, j: nat)
    requires AllHex(short) && |short| < 64 && |full| == 64 && AllHex(full)
    requires full == seq(64 - |short|, _ => '0') + short
    requires Fit32(FromHex(short)) == FromHex(full)
    requires j < 64
    ensures Nibble(full[j]) == 0
    decreases j
  {
    var pad := 64 - |short|;
    BytesWithin(short);
    BytesWithin(full);
    if j >= pad {
      var i := j - pad;
      assert full[j] == short[i];
      ShiftedDigitsVanish(short, full, i);
      if i < 2 * |FromHex(short)| {
        DigitsOfBytes(short, i);
        DigitsOfBytes(full, i);
        assert DigitAt(FromHex(full), i) == DigitAt(FromHex(short), i);
      } else {
        DigitsOfBytes(full, j);
        assert FromHex(full)[j / 2] == 0;
      }
    }
  }

  /** A short field and the full one it is padded to: the header carries the same only of zeros. */
  lemma ShortCarriesSameIff(short: string, full: string)
    requires AllHex(short) && |short| < 64 && |full| == 64 && AllHex(full)
    requires full == seq(64 - |short|, _ => '0') + short
    ensures Fit32(FromHex(short)) == FromHex(full) <==> FromHex(full) == ZEROS
  {
    if Fit32(FromHex(short)) == FromHex(full) {
      forall j | 0 <= j < 64 ensures Nibble(full[j]) == 0 { ShiftedDigitsVanish(short, full, j); }
      ZeroDigitsZeroBytes(full);
    }
    if FromHex(full) == ZEROS { PaddedZeros(short, full); }
  }

  lemma PaddedZeros(short: string, full: string)
    requires AllHex(short) && |short| < 64 && |full| == 64 && AllHex(full)
    requires full == seq(64 - |short|, _ => '0') + short && FromHex(full) == ZEROS
    ensures Fit32(FromHex(short)) == ZEROS
  {
    ZeroBytesZeroDigits(full);
    forall i | 0 <= i < |short| ensures Nibble(short[i]) == 0 { assert full[64 - |short| + i] == short[i]; }
    ZeroDigitsZeroBytes(short);
  }

  lemma LowerPads(s: string)
    requires |Strip(s)| < 64
    ensures NormalizeHex32(s) == "0x" + (seq(64 - |Strip(s)|, _ => '0') + Lower(Strip(s)))
  {
  }

  /** When the texts compare equal, the header carries the root exactly of a bucket list field that is not short. */
  lemma BucketCarriesRootIff(bucket: string, root: string)
    requires Same(AsText, bucket, root) && |HexBytes(root)| == 32
    ensures Carried(bucket) == HexBytes(root) <==> |Strip(bucket)| >= 64 || HexBytes(root) == ZEROS
  {
    BytesWithin(Strip(root));
    if |Strip(bucket)| >= 64 {
      NormalizedEqualLowered(bucket, root);
    } else {
      PaddedTo(bucket, root);
      LowerSameBytes(Strip(bucket));
      LowerSameBytes(Strip(root));
      ShortCarriesSameIff(Lower(Strip(bucket)), Lower(Strip(root)));
    }
  }

  /** A short bucket list field that compares equal to a root's text is that text without leading zeros. */
  lemma PaddedTo(bucket: string, root: string)
    requires Same(AsText, bucket, root) && |HexBytes(root)| == 32 && |Strip(bucket)| < 64 <= |Strip(root)|
    ensures var short, full := Lower(Strip(bucket)), Lower(Strip(root));
            && |full| == 64 && AllHex(full) && AllHex(short) && full == seq(64 - |short|, _ => '0') + short
  {
    var short, full := Lower(Strip(bucket)), Lower(Strip(root));
    NormalizedDigits(root);
    LowerPads(bucket);
    assert NormalizeHex32(bucket)[2..] == seq(64 - |short|, _ => '0') + short;
    LowerSameBytes(Strip(root));
    FromHexPrefix(full, 32);
    assert full[..64] == full;
    forall i | 0 <= i < |short| ensures IsHexDigit(short[i]) { assert full[64 - |short| + i] == short[i]; }
  }

  // --------------------------------------------------- what acceptance says of texts

  lemma RootIsDigest(h: HashFn, codec: AddressCodec, b: BatchProof, trusted: string)
    requires Accepts(h, codec, b, trusted)
    ensures |HexBytes(b.stateRootHash)| == 32
  {
    assert EntryProved(h, codec, b, 0);
  }

  /** An accepted header carries the state root exactly when its bucket list field is not short, or the root is zero. */
  lemma HeaderCarriesRootIff(h: HashFn, codec: AddressCodec, b: BatchProof, trusted: string)
    requires Accepts(h, codec, b, trusted)
    ensures Carried(b.headerProof.bucketListHash) == HexBytes(b.stateRootHash)
            <==> |Strip(b.headerProof.bucketListHash)| >= 64 || HexBytes(b.stateRootHash) == ZEROS
  {
    RootIsDigest(h, codec, b, trusted);
    BucketCarriesRootIff(b.headerProof.bucketListHash, b.stateRootHash);
  }

  /** A digest's text compares equal only to fields of at most 64 digits, and of 64 only to its own. */
  lemma ComparedWithDigest(digest: Digest, field: string)
    requires Same(AsText, ToHex(digest), field)
    ensures FullField(field) || ShortField(field)
    ensures HexBytes(field) == digest <==> |Strip(field)| == 64
  {
    HexRoundTrip(digest);
    NormalizedDigits(ToHex(digest));
    LowerAllHex(ToHex(digest));
    NormalizedToDigits(field);
    BytesWithin(Strip(field));
    if FullField(field) { NormalizedIffDigest(digest, field); }
  }

  lemma SameDigestTexts(x: Digest, y: Digest)
    requires Same(AsText, ToHex(x), ToHex(y))
    ensures x == y
  {
    HexRoundTrip(x);
    HexRoundTrip(y);
    NormalizedIffSameBytes(ToHex(x), ToHex(y));
  }

  function ComputedLeaves(h: HashFn, codec: AddressCodec, b: BatchProof): seq<Digest>
    requires codec(b.contractId).Some?
    requires forall i :: 0 <= i < |b.entries| ==> codec(b.entries[i].stellarAddress).Some?
  {
    seq(|b.entries|, i requires 0 <= i < |b.entries| => ComputedLeaf(h, codec, b, i))
  }

  /** No leaf field has lost a digit. */
  predicate WholeLeaves(b: BatchProof) {
    forall i :: 0 <= i < |b.entries| ==> |Strip(b.entries[i].leafHash)| == 64
  }

  /** An accepted batch's root is rebuilt from the computed leaves exactly when no leaf field is short. */
  lemma RebuiltFromComputedIff(h: HashFn, codec: AddressCodec, b: BatchProof, trusted: string)
    requires Accepts(h, codec, b, trusted)
    ensures LeafBytes(b.entries) == ComputedLeaves(h, codec, b) <==> WholeLeaves(b)
  {
    forall i | 0 <= i < |b.entries|
      ensures LeafBytes(b.entries)[i] == ComputedLeaves(h, codec, b)[i] <==> |Strip(b.entries[i].leafHash)| == 64
    {
      assert EntryProved(h, codec, b, i);
      ComparedWithDigest(ComputedLeaf(h, codec, b, i), b.entries[i].leafHash);
    }
  }

  /** What a caller can check of a batch's texts, and the verifier does not. */
  predicate WholeTexts(b: BatchProof) {
    |Strip(b.headerProof.bucketListHash)| >= 64 && WholeLeaves(b)
  }

  // ------------------------------------------------------ binding to the header

  function EntryPayload(codec: AddressCodec, b: BatchProof, i: nat): Buffer
    requires i < |b.entries| && codec(b.contractId).Some? && codec(b.entries[i].stellarAddress).Some?
  {
    LeafPayload(codec(b.contractId).value, codec(b.entries[i].stellarAddress).value, b.entries[i].scoreData)
  }

  /** The inputs hashed while checking the leaves, rebuilding the root and checking the header. */
  ghost function BatchInputs(h: HashFn, codec: AddressCodec, b: BatchProof): set<Buffer>
    requires |b.entries| > 0 && Decodable(codec, b)
  {
    (set i: int | 0 <= i < |b.entries| :: EntryPayload(codec, b, i))
    + TreeInputs(h, LeafBytes(b.entries))
    + {HeaderPayload(b.ledgerSeq, b.headerProof)}
  }

  lemma LeavesHashed(h: HashFn, codec: AddressCodec, b: BatchProof, trusted: string, inputs: set<Buffer>)
    requires Accepts(h, codec, b, trusted) && BatchInputs(h, codec, b) <= inputs
    ensures AllNodesAt(h, inputs, 0, ComputedLeaves(h, codec, b))
    ensures forall i :: 0 <= i < |b.entries| ==>
              EntryPayload(codec, b, i) in inputs && h(EntryPayload(codec, b, i)) == ComputedLeaves(h, codec, b)[i]
  {
    forall i | 0 <= i < |b.entries|
      ensures EntryPayload(codec, b, i) in inputs && h(EntryPayload(codec, b, i)) == ComputedLeaves(h, codec, b)[i]
      ensures NodeAt(h, inputs, 0, ComputedLeaves(h, codec, b)[i])
    {
      var p := EntryPayload(codec, b, i);
      assert p in BatchInputs(h, codec, b);
      assert LeftSpine(h, inputs, [p], ComputedLeaves(h, codec, b)[i]);
    }
  }

  /** The strict address order makes all leaf hashes different. */
  lemma LeavesDistinct(h: HashFn, codec: AddressCodec, b: BatchProof, trusted: string, inputs: set<Buffer>)
    requires Accepts(h, codec, b, trusted) && BatchInputs(h, codec, b) <= inputs && CollisionFree(h, inputs)
    ensures Distinct(ComputedLeaves(h, codec, b))
  {
    LeavesHashed(h, codec, b, trusted, inputs);
    var leaves := ComputedLeaves(h, codec, b);
    forall i, j | 0 <= i < j < |leaves| ensures leaves[i] != leaves[j] {
      if leaves[i] == leaves[j] {
        assert EntryPayload(codec, b, i) == EntryPayload(codec, b, j);
        assert Before(codec, b.entries[i], b.entries[j]);
        var c := codec(b.contractId).value;
        var x, y := codec(b.entries[i].stellarAddress).value, codec(b.entries[j].stellarAddress).value;
        LeafPayloadInjective(c, x, b.entries[i].scoreData, c, y, b.entries[j].scoreData);
        CompareEqual(x, y);
        assert false;
      }
    }
  }

  /** What two batches agree on: everything but spelling, audit paths and aggregation. */
  ghost predicate SameContent(codec: AddressCodec, a: BatchProof, b: BatchProof) {
    && a.ledgerSeq == b.ledgerSeq && SameHeader(a.headerProof, b.headerProof)
    && HexBytes(a.stateRootHash) == HexBytes(b.stateRootHash) && codec(a.contractId) == codec(b.contractId)
    && |a.entries| == |b.entries|
    && forall i :: 0 <= i < |a.entries| ==> SameEntry(codec, a.entries[i], b.entries[i])
  }

  ghost predicate SameEntry(codec: AddressCodec, x: BatchEntry, y: BatchEntry) {
    && x.sequenceId == y.sequenceId && HexBytes(x.leafHash) == HexBytes(y.leafHash) && x.scoreData == y.scoreData
    && codec(x.stellarAddress) == codec(y.stellarAddress)
  }

  /** Equal claims about the header hash are about equal digests, and so about equal headers. */
  lemma HeadersAgree(h: HashFn, inputs: set<Buffer>, s: u32, p: HeaderProof, x: string, tx: string,
                     t: u32, q: HeaderProof, y: string, ty: string)
    requires CollisionFree(h, inputs) && HeaderPayload(s, p) in inputs && HeaderPayload(t, q) in inputs
    requires Same(AsText, ToHex(HeaderHash(h, s, p)), x) && Same(AsText, x, tx)
    requires Same(AsText, ToHex(HeaderHash(h, t, q)), y) && Same(AsText, y, ty) && Same(AsText, tx, ty)
    ensures s == t && SameHeader(p, q)
  {
    SameDigestTexts(HeaderHash(h, s, p), HeaderHash(h, t, q));
    HeaderPayloadInjective(s, p, t, q);
  }

  lemma RootsAgree(h: HashFn, codec: AddressCodec, a: BatchProof, ta: string, b: BatchProof, tb: string)
    requires Accepts(h, codec, a, ta) && Accepts(h, codec, b, tb) && Same(AsText, ta, tb)
    requires WholeTexts(a) && WholeTexts(b)
    requires CollisionFree(h, BatchInputs(h, codec, a) + BatchInputs(h, codec, b))
    ensures a.ledgerSeq == b.ledgerSeq && SameHeader(a.headerProof, b.headerProof)
    ensures HexBytes(a.stateRootHash) == HexBytes(b.stateRootHash)
    ensures Root(h, ComputedLeaves(h, codec, a)) == Root(h, ComputedLeaves(h, codec, b))
  {
    assert HeaderPayload(a.ledgerSeq, a.headerProof) in BatchInputs(h, codec, a);
    assert HeaderPayload(b.ledgerSeq, b.headerProof) in BatchInputs(h, codec, b);
    HeadersAgree(h, BatchInputs(h, codec, a) + BatchInputs(h, codec, b),
                 a.ledgerSeq, a.headerProof, a.ledgerHeaderHash, ta,
                 b.ledgerSeq, b.headerProof, b.ledgerHeaderHash, tb);
    HeaderCarriesRootIff(h, codec, a, ta);
    HeaderCarriesRootIff(h, codec, b, tb);
    RebuiltFromComputedIff(h, codec, a, ta);
    RebuiltFromComputedIff(h, codec, b, tb);
  }

  /**
   Two batches accepted under one trusted header hash, none of whose bucket list and leaf
   fields is short, carry the same ledger sequence and the same ordered entries, whatever
   their lengths, unless the hash collides on the inputs the two verifications hash.
   */
  lemma HeaderBindsBatch(h: HashFn, codec: AddressCodec, a: BatchProof, ta: string, b: BatchProof, tb: string)
    requires Accepts(h, codec, a, ta) && Accepts(h, codec, b, tb) && Same(AsText, ta, tb)
    requires WholeTexts(a) && WholeTexts(b)
    requires CollisionFree(h, BatchInputs(h, codec, a) + BatchInputs(h, codec, b))
    ensures SameContent(codec, a, b)
  {
    var inputs := BatchInputs(h, codec, a) + BatchInputs(h, codec, b);
    var x, y := ComputedLeaves(h, codec, a), ComputedLeaves(h, codec, b);
    RootsAgree(h, codec, a, ta, b, tb);
    RebuiltFromComputedIff(h, codec, a, ta);
    RebuiltFromComputedIff(h, codec, b, tb);
    LeavesHashed(h, codec, a, ta, inputs);
    LeavesHashed(h, codec, b, tb, inputs);
    LeavesDistinct(h, codec, a, ta, inputs);
    LeavesDistinct(h, codec, b, tb, inputs);
    RootBindsLeaves(h, inputs, 0, x, y);
    assert |a.entries| == |x| && |b.entries| == |y|;
    EntryAgrees(h, codec, a, ta, b, tb, inputs, 0);
    forall i | 0 <= i < |a.entries| ensures SameEntry(codec, a.entries[i], b.entries[i]) {
      EntryAgrees(h, codec, a, ta, b, tb, inputs, i);
    }
  }

  lemma EntryAgrees(h: HashFn, codec: AddressCodec, a: BatchProof, ta: string, b: BatchProof, tb: string,
                    inputs: set<Buffer>, i: nat)
    requires Accepts(h, codec, a, ta) && Accepts(h, codec, b, tb) && WholeLeaves(a) && WholeLeaves(b)
    requires BatchInputs(h, codec, a) <= inputs && BatchInputs(h, codec, b) <= inputs && CollisionFree(h, inputs)
    requires ComputedLeaves(h, codec, a) == ComputedLeaves(h, codec, b) && i < |a.entries| && i < |b.entries|
    ensures codec(a.contractId) == codec(b.contractId) && SameEntry(codec, a.entries[i], b.entries[i])
  {
    LeavesHashed(h, codec, a, ta, inputs);
    LeavesHashed(h, codec, b, tb, inputs);
    assert EntryProved(h, codec, a, i) && EntryProved(h, codec, b, i);
    ComparedWithDigest(ComputedLeaf(h, codec, a, i), a.entries[i].leafHash);
    ComparedWithDigest(ComputedLeaf(h, codec, b, i), b.entries[i].leafHash);
    assert ComputedLeaves(h, codec, a)[i] == ComputedLeaves(h, codec, b)[i];
    assert EntryPayload(codec, a, i) == EntryPayload(codec, b, i);
    LeafPayloadInjective(codec(a.contractId).value, codec(a.entries[i].stellarAddress).value, a.entries[i].scoreData,
                         codec(b.contractId).value, codec(b.entries[i].stellarAddress).value, b.entries[i].scoreData);
  }

  // ----------------------------------------------------------- single proofs

  ghost function SingleInputs(h: HashFn, codec: AddressCodec, p: StateProof): set<Buffer>
    requires codec(p.contractId).Some? && codec(p.stellarAddress).Some?
  {
    var payload := SinglePayload(codec, p);
    {payload, HeaderPayload(p.ledgerSeq, p.headerProof)} + PathInputs(h, h(payload), p.merkleProof)
  }

  function SinglePayload(codec: AddressCodec, p: StateProof): Buffer
    requires codec(p.contractId).Some? && codec(p.stellarAddress).Some?
  {
    LeafPayload(codec(p.contractId).value, codec(p.stellarAddress).value, p.scoreData)
  }

  ghost predicate SingleAccepts(h: HashFn, codec: AddressCodec, p: StateProof, trusted: string) {
    SingleVerdictOf(h, codec, AsText, p, Some(trusted)).ValidSingle?
  }

  ghost predicate SingleHolds(h: HashFn, codec: AddressCodec, p: StateProof, trusted: string) {
    && p.version == PROOF_VERSION && trusted != "" && codec(p.contractId).Some? && codec(p.stellarAddress).Some?
    && Same(AsText, ToHex(h(SinglePayload(codec, p))), p.leafHash)
    && FoldPath(h, h(SinglePayload(codec, p)), p.merkleProof) == HexBytes(p.stateRootHash)
    && Same(AsText, p.headerProof.bucketListHash, p.stateRootHash)
    && Same(AsText, ToHex(HeaderHash(h, p.ledgerSeq, p.headerProof)), p.ledgerHeaderHash)
    && Same(AsText, p.ledgerHeaderHash, trusted)
  }

  /** The single verifier accepts exactly the proofs whose every check holds. */
  lemma SingleVerdictIffHolds(h: HashFn, codec: AddressCodec, p: StateProof, trusted: string)
    ensures SingleAccepts(h, codec, p, trusted) <==> SingleHolds(h, codec, p, trusted)
  {
  }

  /**
   A single proof accepted under the header of an accepted batch, with whole bucket list, leaf
   and sibling fields, is about one of the batch's entries: same ledger, same contract, same
   address bytes, same score.
   */
  lemma SingleProofIsInBatch(h: HashFn, codec: AddressCodec, p: StateProof, tp: string, b: BatchProof, tb: string)
    returns (i: nat)
    requires SingleAccepts(h, codec, p, tp) && Accepts(h, codec, b, tb) && Same(AsText, tp, tb)
    requires |Strip(p.headerProof.bucketListHash)| >= 64 && DigestSiblings(p.merkleProof) && WholeTexts(b)
    requires codec(p.contractId).Some? && codec(p.stellarAddress).Some?
    requires CollisionFree(h, SingleInputs(h, codec, p) + BatchInputs(h, codec, b))
    ensures p.ledgerSeq == b.ledgerSeq && SameHeader(p.headerProof, b.headerProof)
    ensures codec(p.contractId) == codec(b.contractId)
    ensures i < |b.entries|
    ensures codec(p.stellarAddress) == codec(b.entries[i].stellarAddress) && p.scoreData == b.entries[i].scoreData
  {
    var inputs := SingleInputs(h, codec, p) + BatchInputs(h, codec, b);
    SingleRootAgrees(h, codec, p, tp, b, tb);
    LeavesHashed(h, codec, b, tb, inputs);
    RebuiltFromComputedIff(h, codec, b, tb);
    var leaves, payload := ComputedLeaves(h, codec, b), SinglePayload(codec, p);
    forall k | 0 <= k < |leaves| ensures exists q :: q in inputs && |q| == LEAF_WIDTH && h(q) == leaves[k] {
      assert EntryPayload(codec, b, k) in inputs;
    }
    PathStartsAtLeaf(h, inputs, payload, p.merkleProof, leaves);
    i :| 0 <= i < |leaves| && leaves[i] == h(payload);
    assert EntryPayload(codec, b, i) == payload;
    LeafPayloadInjective(codec(p.contractId).value, codec(p.stellarAddress).value, p.scoreData,
                         codec(b.contractId).value, codec(b.entries[i].stellarAddress).value, b.entries[i].scoreData);
  }

  lemma SingleRootAgrees(h: HashFn, codec: AddressCodec, p: StateProof, tp: string, b: BatchProof, tb: string)
    requires SingleAccepts(h, codec, p, tp) && Accepts(h, codec, b, tb) && Same(AsText, tp, tb)
    requires |Strip(p.headerProof.bucketListHash)| >= 64 && WholeTexts(b)
    requires codec(p.contractId).Some? && codec(p.stellarAddress).Some?
    requires CollisionFree(h, SingleInputs(h, codec, p) + BatchInputs(h, codec, b))
    ensures p.ledgerSeq == b.ledgerSeq && SameHeader(p.headerProof, b.headerProof)
    ensures FoldPath(h, h(SinglePayload(codec, p)), p.merkleProof) == Root(h, ComputedLeaves(h, codec, b))
  {
    SingleVerdictIffHolds(h, codec, p, tp);
    assert HeaderPayload(p.ledgerSeq, p.headerProof) in SingleInputs(h, codec, p);
    assert HeaderPayload(b.ledgerSeq, b.headerProof) in BatchInputs(h, codec, b);
    HeadersAgree(h, SingleInputs(h, codec, p) + BatchInputs(h, codec, b),
                 p.ledgerSeq, p.headerProof, p.ledgerHeaderHash, tp,
                 b.ledgerSeq, b.headerProof, b.ledgerHeaderHash, tb);
    BucketCarriesRootIff(p.headerProof.bucketListHash, p.stateRootHash);
    HeaderCarriesRootIff(h, codec, b, tb);
    RebuiltFromComputedIff(h, codec, b, tb);
  }

  // -------------------------------------------------- the unpinned aggregation root

  function ExtendEntry(e: BatchEntry, node: ProofNode): BatchEntry {
    e.(aggregationProof := e.aggregationProof + [node])
  }

  /** The batch with one more node on top of its aggregation tree. */
  function Regrafted(h: HashFn, b: BatchProof, extra: Digest): BatchProof {
    b.(aggregationRoot := Hex(HashPair(h, HexBytes(b.aggregationRoot), extra)),
       entries := seq(|b.entries|, i requires 0 <= i < |b.entries| =>
         ExtendEntry(b.entries[i], ProofNode(Hex(extra), true))))
  }

  /**
   The aggregation root, unlike the entries, is not pinned by the header: grafting any
   sibling above it gives another accepted batch.
   */
  lemma AggregationRootNotPinned(h: HashFn, codec: AddressCodec, b: BatchProof, trusted: string, extra: Digest)
    requires Accepts(h, codec, b, trusted)
    ensures Accepts(h, codec, Regrafted(h, b, extra), trusted)
    ensures HexBytes(Regrafted(h, b, extra).aggregationRoot) == h(HexBytes(b.aggregationRoot) + extra)
  {
    var c := Regrafted(h, b, extra);
    HexRoundTrip(extra);
    HexRoundTrip(HashPair(h, HexBytes(b.aggregationRoot), extra));
    assert LeafBytes(c.entries) == LeafBytes(b.entries);
    forall i | 0 <= i < |c.entries| ensures EntryProved(h, codec, c, i) {
      assert EntryProved(h, codec, b, i);
      var path := c.entries[i].aggregationProof;
      assert path[..|path| - 1] == b.entries[i].aggregationProof;
    }
    forall i, j | 0 <= i < j < |c.entries| ensures Before(codec, c.entries[i], c.entries[j]) {
      assert Before(codec, b.entries[i], b.entries[j]);
    }
  }

  /** When all else checks, acceptance is the order of the entries and the text of the bucket list field. */
  lemma AcceptsIffOrderedAndCarried(h: HashFn, codec: AddressCodec, b: BatchProof, trusted: string)
    requires b.version == BATCH_PROOF_VERSION && trusted != "" && |b.entries| > 0 && Decodable(codec, b)
    requires forall i :: 0 <= i < |b.entries| ==> EntryProved(h, codec, b, i)
    requires Root(h, LeafBytes(b.entries)) == HexBytes(b.stateRootHash)
    requires Same(AsText, ToHex(HeaderHash(h, b.ledgerSeq, b.headerProof)), b.ledgerHeaderHash)
    requires Same(AsText, b.ledgerHeaderHash, trusted)
    ensures Accepts(h, codec, b, trusted) <==>
              StrictlySorted(codec, b.entries) && Same(AsText, b.headerProof.bucketListHash, b.stateRootHash)
  {
  }

  lemma HexComparesAsDigits(d: Digest)
    ensures Same(AsText, ToHex(d), Hex(d)) && FullField(Hex(d))
  {
    HexRoundTrip(d);
    NormalizedIffDigest(d, Hex(d));
  }
}
