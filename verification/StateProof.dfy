/**
 State proofs and their zero-trust verification: `backend/src/schemas/stateProof.ts` and
 `backend/src/relayer/verifier.ts`. The hash fields are texts of any shape: the verifier does
 not check them against the schema. What an accepted header pins down is in `HeaderBinding`.
 */
module StateProofs {
  import opened Integers
  import opened Wrappers
  import opened Bytes
  import opened HexFields
  import opened Encoder
  import opened MerkleTrees

  /** `addressToBytes32`; `None` is its throw on a malformed `0x` payload. */
  type AddressCodec = string -> Option<Digest>

  const PROOF_VERSION: string := "1.0.0"
  const BATCH_PROOF_VERSION: string := "1.1.0"

  datatype StateProof = StateProof(
    version: string, networkPassphrase: string, ledgerSeq: u32, ledgerHeaderHash: string, stateRootHash: string,
    contractId: string, stellarAddress: string, scoreData: ScoreData, leafHash: string,
    merkleProof: seq<ProofNode>, headerProof: HeaderProof)

  datatype BatchEntry = BatchEntry(
    sequenceId: nat, stellarAddress: string, scoreData: ScoreData, leafHash: string,
    merkleProof: seq<ProofNode>, aggregationProof: seq<ProofNode>)

  datatype BatchProof = BatchProof(
    version: string, networkPassphrase: string, ledgerSeq: u32, ledgerHeaderHash: string, stateRootHash: string,
    contractId: string, aggregationRoot: string, headerProof: HeaderProof, entries: seq<BatchEntry>)

  datatype VerifyError =
    | UnsupportedVersion
    | AnchorRequired
    | NoEntries
    | SequenceMismatch(index: nat)
    | NotSorted(index: nat)
    | LeafMismatch(index: nat)
    | StateRootMismatch(index: nat)
    | AggregationMismatch(index: nat)
    | ReconstructedRootMismatch
    | BucketListMismatch
    | HeaderHashMismatch
    | TrustedHashMismatch
    | Exception

  datatype BatchVerdict =
    | Valid(scores: seq<u32>, ledgerSeq: u32, aggregationRoot: string, entryCount: nat)
    | Invalid(error: VerifyError)

  datatype SingleVerdict =
    | ValidSingle(score: u32, ledgerSeq: u32, stellarAddress: string, contractId: string)
    | InvalidSingle(error: VerifyError)

  /** The verifier compares hash fields as normalised text; what is meant is to compare their bytes. */
  datatype Comparison = AsText | AsBytes

  predicate Same(how: Comparison, x: string, y: string) {
    match how
    case AsText => NormalizeHex32(x) == NormalizeHex32(y)
    case AsBytes => HexBytes(x) == HexBytes(y)
  }

  /** A missing anchor and an empty one are refused alike. */
  predicate NoAnchor(trusted: Option<string>) {
    trusted.None? || trusted.value == ""
  }

  // ---------------------------------------------------------- the batch verifier

  /** Checks 1 to 5 on entry `i`, in the verifier's order; `None` when they all pass. */
  function EntryFailure(h: HashFn, codec: AddressCodec, how: Comparison, b: BatchProof, i: nat): Option<VerifyError>
    requires i < |b.entries|
  {
    var e := b.entries[i];
    var address, prev := codec(e.stellarAddress), codec(b.entries[if i > 0 then i - 1 else 0].stellarAddress);
    if e.sequenceId != i then Some(SequenceMismatch(i))
    else if i > 0 && (prev.None? || address.None?) then Some(Exception)
    else if i > 0 && Compare(address.value, prev.value) <= 0 then Some(NotSorted(i))
    else if codec(b.contractId).None? || address.None? then Some(Exception)
    else
      var leaf := LeafHash(h, codec(b.contractId).value, address.value, e.scoreData);
      if !Same(how, ToHex(leaf), e.leafHash) then Some(LeafMismatch(i))
      else if FoldPath(h, leaf, e.merkleProof) != HexBytes(b.stateRootHash) then Some(StateRootMismatch(i))
      else if i >= 0x1_0000_0000_0000_0000 then Some(Exception)
      else
        var aggLeaf := AggregationLeaf(h, i, address.value, leaf, e.scoreData);
        if FoldPath(h, aggLeaf, e.aggregationProof) != HexBytes(b.aggregationRoot) then Some(AggregationMismatch(i))
        else None
  }

  function Failures(h: HashFn, codec: AddressCodec, how: Comparison, b: BatchProof): (fs: seq<Option<VerifyError>>)
    ensures |fs| == |b.entries|
  {
    seq(|b.entries|, i requires 0 <= i < |b.entries| => EntryFailure(h, codec, how, b, i))
  }

  function FirstFrom(failures: seq<Option<VerifyError>>, i: nat): Option<VerifyError>
    requires i <= |failures|
    decreases |failures| - i
  {
    if i == |failures| then None
    else if failures[i].Some? then failures[i]
    else FirstFrom(failures, i + 1)
  }

  /** The failure that the verifier's loop returns with, if any. */
  function FirstFailure(h: HashFn, codec: AddressCodec, how: Comparison, b: BatchProof): Option<VerifyError> {
    FirstFrom(Failures(h, codec, how, b), 0)
  }

  /** The leaves the root is rebuilt from: whatever bytes the leaf fields decode to. */
  function LeafBytes(entries: seq<BatchEntry>): seq<Buffer> {
    seq(|entries|, i requires 0 <= i < |entries| => HexBytes(entries[i].leafHash))
  }

  function Scores(entries: seq<BatchEntry>): seq<u32> {
    seq(|entries|, i requires 0 <= i < |entries| => entries[i].scoreData.score)
  }

  /** The last checks of both verifiers: the header carries the root, hashes to its claim, and is the trusted one. */
  function AnchorFailure(h: HashFn, how: Comparison, stateRoot: string, ledgerSeq: u32, header: HeaderProof,
                         headerHash: string, trusted: string): Option<VerifyError>
  {
    if !Same(how, header.bucketListHash, stateRoot) then Some(BucketListMismatch)
    else if !Same(how, ToHex(HeaderHash(h, ledgerSeq, header)), headerHash) then Some(HeaderHashMismatch)
    else if !Same(how, headerHash, trusted) then Some(TrustedHashMismatch)
    else None
  }

  method CheckAnchor(h: HashFn, stateRoot: string, ledgerSeq: u32, header: HeaderProof, headerHash: string,
                     trusted: string)
    returns (failure: Option<VerifyError>)
    ensures failure == AnchorFailure(h, AsText, stateRoot, ledgerSeq, header, headerHash, trusted)
  {
    if NormalizeHex32(header.bucketListHash) != NormalizeHex32(stateRoot) {
      return Some(BucketListMismatch);
    }
    var computed := NormalizeHex32(ToHex(HeaderHash(h, ledgerSeq, header)));
    var claimed := NormalizeHex32(headerHash);
    if computed != claimed {
      return Some(HeaderHashMismatch);
    }
    failure := if claimed != NormalizeHex32(trusted) then Some(TrustedHashMismatch) else None;
  }

  function BatchVerdictOf(h: HashFn, codec: AddressCodec, how: Comparison, b: BatchProof, trusted: Option<string>)
    : BatchVerdict
  {
    if b.version != BATCH_PROOF_VERSION then Invalid(UnsupportedVersion)
    else if NoAnchor(trusted) then Invalid(AnchorRequired)
    else if |b.entries| == 0 then Invalid(NoEntries)
    else if FirstFailure(h, codec, how, b).Some? then Invalid(FirstFailure(h, codec, how, b).value)
    else if Root(h, LeafBytes(b.entries)) != HexBytes(b.stateRootHash) then Invalid(ReconstructedRootMismatch)
    else
      var failure := AnchorFailure(h, how, b.stateRootHash, b.ledgerSeq, b.headerProof, b.ledgerHeaderHash,
                                   trusted.value);
      if failure.Some? then Invalid(failure.value)
      else Valid(Scores(b.entries), b.ledgerSeq, b.aggregationRoot, |b.entries|)
  }

  /** The loop body of the batch verifier. */
  method CheckEntry(h: HashFn, codec: AddressCodec, b: BatchProof, i: nat,
                    expectedRoot: Buffer, expectedAggRoot: Buffer)
    returns (failure: Option<VerifyError>)
    requires i < |b.entries|
    requires expectedRoot == HexBytes(b.stateRootHash) && expectedAggRoot == HexBytes(b.aggregationRoot)
    ensures failure == Failures(h, codec, AsText, b)[i]
  {
    assert Failures(h, codec, AsText, b)[i] == EntryFailure(h, codec, AsText, b, i);
    var e := b.entries[i];
    if e.sequenceId != i {
      return Some(SequenceMismatch(i));
    }
    if i > 0 {
      var prev, curr := codec(b.entries[i - 1].stellarAddress), codec(e.stellarAddress);
      if prev.None? || curr.None? {
        return Some(Exception);
      }
      if Compare(curr.value, prev.value) <= 0 {
        return Some(NotSorted(i));
      }
    }
    var contract, address := codec(b.contractId), codec(e.stellarAddress);
    if contract.None? || address.None? {
      return Some(Exception);
    }
    var leaf := LeafHash(h, contract.value, address.value, e.scoreData);
    if NormalizeHex32(ToHex(leaf)) != NormalizeHex32(e.leafHash) {
      return Some(LeafMismatch(i));
    }
    var inState := MerkleTree.Verify(h, leaf, e.merkleProof, expectedRoot);
    if !inState {
      return Some(StateRootMismatch(i));
    }
    if i >= 0x1_0000_0000_0000_0000 {
      return Some(Exception);
    }
    var aggLeaf := AggregationLeaf(h, i, address.value, leaf, e.scoreData);
    var inBatch := MerkleTree.Verify(h, aggLeaf, e.aggregationProof, expectedAggRoot);
    failure := if inBatch then None else Some(AggregationMismatch(i));
  }

  lemma ScoresPush(entries: seq<BatchEntry>, i: nat)
    requires i < |entries|
    ensures Scores(entries[..i + 1]) == Scores(entries[..i]) + [entries[i].scoreData.score]
    ensures entries[..|entries|] == entries
  {
  }

  /** The loop over the entries, which pushes their scores and stops at the first failure. */
  method CheckEntries(h: HashFn, codec: AddressCodec, b: BatchProof, expectedRoot: Buffer, expectedAggRoot: Buffer)
    returns (failure: Option<VerifyError>, scores: seq<u32>)
    requires expectedRoot == HexBytes(b.stateRootHash) && expectedAggRoot == HexBytes(b.aggregationRoot)
    ensures failure == FirstFailure(h, codec, AsText, b)
    ensures failure.None? ==> scores == Scores(b.entries)
  {
    scores := [];
    ghost var failures := Failures(h, codec, AsText, b);
    for i := 0 to |b.entries|
      invariant FirstFrom(failures, 0) == FirstFrom(failures, i)
      invariant scores == Scores(b.entries[..i])
    {
      ScoresPush(b.entries, i);
      failure := CheckEntry(h, codec, b, i, expectedRoot, expectedAggRoot);
      if failure.Some? {
        return;
      }
      scores := scores + [b.entries[i].scoreData.score];
    }
    assert b.entries[..|b.entries|] == b.entries;
    failure := None;
  }

  /** `verifyPactumBatchedStateProof`. */
  method VerifyBatch(h: HashFn, codec: AddressCodec, b: BatchProof, trusted: Option<string>) returns (r: BatchVerdict)
    ensures r == BatchVerdictOf(h, codec, AsText, b, trusted)
  {
    if b.version != BATCH_PROOF_VERSION {
      return Invalid(UnsupportedVersion);
    }
    if trusted.None? || trusted.value == "" {
      return Invalid(AnchorRequired);
    }
    if |b.entries| == 0 {
      return Invalid(NoEntries);
    }
    var expectedRoot, expectedAggRoot := HexBytes(b.stateRootHash), HexBytes(b.aggregationRoot);
    var failure, scores := CheckEntries(h, codec, b, expectedRoot, expectedAggRoot);
    if failure.Some? {
      return Invalid(failure.value);
    }
    var root := MerkleTree.ComputeRootFromLeaves(h, LeafBytes(b.entries));
    if root.value != expectedRoot {
      return Invalid(ReconstructedRootMismatch);
    }
    failure := CheckAnchor(h, b.stateRootHash, b.ledgerSeq, b.headerProof, b.ledgerHeaderHash, trusted.value);
    r := if failure.Some? then Invalid(failure.value)
         else Valid(scores, b.ledgerSeq, b.aggregationRoot, |b.entries|);
  }

  // --------------------------------------------------------- the single verifier

  function SingleVerdictOf(h: HashFn, codec: AddressCodec, how: Comparison, p: StateProof, trusted: Option<string>)
    : SingleVerdict
  {
    if p.version != PROOF_VERSION then InvalidSingle(UnsupportedVersion)
    else if NoAnchor(trusted) then InvalidSingle(AnchorRequired)
    else if codec(p.contractId).None? || codec(p.stellarAddress).None? then InvalidSingle(Exception)
    else
      var leaf := LeafHash(h, codec(p.contractId).value, codec(p.stellarAddress).value, p.scoreData);
      if !Same(how, ToHex(leaf), p.leafHash) then InvalidSingle(LeafMismatch(0))
      else if FoldPath(h, leaf, p.merkleProof) != HexBytes(p.stateRootHash) then InvalidSingle(StateRootMismatch(0))
      else
        var failure := AnchorFailure(h, how, p.stateRootHash, p.ledgerSeq, p.headerProof, p.ledgerHeaderHash,
                                     trusted.value);
        if failure.Some? then InvalidSingle(failure.value)
        else ValidSingle(p.scoreData.score, p.ledgerSeq, p.stellarAddress, p.contractId)
  }

  /** `verifyPactumStateProof`. */
  method VerifySingle(h: HashFn, codec: AddressCodec, p: StateProof, trusted: Option<string>) returns (r: SingleVerdict)
    ensures r == SingleVerdictOf(h, codec, AsText, p, trusted)
  {
    if p.version != PROOF_VERSION {
      return InvalidSingle(UnsupportedVersion);
    }
    if trusted.None? || trusted.value == "" {
      return InvalidSingle(AnchorRequired);
    }
    var contract, address := codec(p.contractId), codec(p.stellarAddress);
    if contract.None? || address.None? {
      return InvalidSingle(Exception);
    }
    var leaf := LeafHash(h, contract.value, address.value, p.scoreData);
    if NormalizeHex32(ToHex(leaf)) != NormalizeHex32(p.leafHash) {
      return InvalidSingle(LeafMismatch(0));
    }
    var inState := MerkleTree.Verify(h, leaf, p.merkleProof, HexBytes(p.stateRootHash));
    if !inState {
      return InvalidSingle(StateRootMismatch(0));
    }
    var failure := CheckAnchor(h, p.stateRootHash, p.ledgerSeq, p.headerProof, p.ledgerHeaderHash, trusted.value);
    r := if failure.Some? then InvalidSingle(failure.value)
         else ValidSingle(p.scoreData.score, p.ledgerSeq, p.stellarAddress, p.contractId);
  }

  // ----------------------------------------------------- what acceptance means

  /** The leaf the verifier computes for an entry. */
  function ComputedLeaf(h: HashFn, codec: AddressCodec, b: BatchProof, i: nat): Digest
    requires i < |b.entries| && codec(b.contractId).Some? && codec(b.entries[i].stellarAddress).Some?
  {
    LeafHash(h, codec(b.contractId).value, codec(b.entries[i].stellarAddress).value, b.entries[i].scoreData)
  }

  ghost predicate EntryProved(h: HashFn, codec: AddressCodec, b: BatchProof, i: nat)
    requires i < |b.entries| && codec(b.contractId).Some?
  {
    var e := b.entries[i];
    && e.sequenceId == i < 0x1_0000_0000_0000_0000
    && codec(e.stellarAddress).Some?
    && var leaf := ComputedLeaf(h, codec, b, i);
    && Same(AsText, ToHex(leaf), e.leafHash)
    && FoldPath(h, leaf, e.merkleProof) == HexBytes(b.stateRootHash)
    && FoldPath(h, AggregationLeaf(h, i, codec(e.stellarAddress).value, leaf, e.scoreData), e.aggregationProof)
       == HexBytes(b.aggregationRoot)
  }

  /** Both addresses decode and the first comes strictly before the second. */
  predicate Before(codec: AddressCodec, x: BatchEntry, y: BatchEntry) {
    && codec(x.stellarAddress).Some? && codec(y.stellarAddress).Some?
    && Compare(codec(x.stellarAddress).value, codec(y.stellarAddress).value) < 0
  }

  ghost predicate StrictlySorted(codec: AddressCodec, entries: seq<BatchEntry>) {
    forall i, j :: 0 <= i < j < |entries| ==> Before(codec, entries[i], entries[j])
  }

  /** Every address the batch mentions decodes. */
  ghost predicate Decodable(codec: AddressCodec, b: BatchProof) {
    codec(b.contractId).Some? && forall i :: 0 <= i < |b.entries| ==> codec(b.entries[i].stellarAddress).Some?
  }

  ghost predicate Accepts(h: HashFn, codec: AddressCodec, b: BatchProof, trusted: string) {
    && b.version == BATCH_PROOF_VERSION && trusted != "" && |b.entries| > 0 && Decodable(codec, b)
    && (forall i :: 0 <= i < |b.entries| ==> EntryProved(h, codec, b, i))
    && StrictlySorted(codec, b.entries)
    && Root(h, LeafBytes(b.entries)) == HexBytes(b.stateRootHash)
    && Same(AsText, b.headerProof.bucketListHash, b.stateRootHash)
    && Same(AsText, ToHex(HeaderHash(h, b.ledgerSeq, b.headerProof)), b.ledgerHeaderHash)
    && Same(AsText, b.ledgerHeaderHash, trusted)
  }

  ghost predicate Passes(h: HashFn, codec: AddressCodec, b: BatchProof, i: nat)
    requires i < |b.entries|
  {
    EntryFailure(h, codec, AsText, b, i).None?
  }

  lemma {:induction false} NoFailureIff(failures: seq<Option<VerifyError>>, i: nat)
    requires i <= |failures|
    ensures FirstFrom(failures, i).None? <==> forall j :: i <= j < |failures| ==> failures[j].None?
    decreases |failures| - i
  {
    if i < |failures| { NoFailureIff(failures, i + 1); }
  }

  lemma PassesIffNoFailure(h: HashFn, codec: AddressCodec, b: BatchProof)
    ensures FirstFailure(h, codec, AsText, b).None? <==> forall i :: 0 <= i < |b.entries| ==> Passes(h, codec, b, i)
  {
    var failures := Failures(h, codec, AsText, b);
    NoFailureIff(failures, 0);
    assert forall i :: 0 <= i < |b.entries| ==> (Passes(h, codec, b, i) <==> failures[i].None?);
  }

  /** Adjacent comparisons order the whole list. */
  lemma {:induction false} SortedFromAdjacent(codec: AddressCodec, entries: seq<BatchEntry>, i: nat, j: nat)
    requires forall k :: 0 < k < |entries| ==> Before(codec, entries[k - 1], entries[k])
    requires i < j < |entries|
    ensures Before(codec, entries[i], entries[j])
    decreases j
  {
    assert Before(codec, entries[j - 1], entries[j]);
    if i < j - 1 {
      SortedFromAdjacent(codec, entries, i, j - 1);
      CompareTransitive(codec(entries[i].stellarAddress).value, codec(entries[j - 1].stellarAddress).value,
                        codec(entries[j].stellarAddress).value);
    }
  }

  /** An entry passes exactly when it is proved and follows its predecessor. */
  lemma EntryPassesIff(h: HashFn, codec: AddressCodec, b: BatchProof, i: nat)
    requires i < |b.entries| && codec(b.contractId).Some?
    requires i > 0 ==> codec(b.entries[i - 1].stellarAddress).Some?
    ensures EntryFailure(h, codec, AsText, b, i).None? <==>
              EntryProved(h, codec, b, i) && (i > 0 ==> Before(codec, b.entries[i - 1], b.entries[i]))
  {
    if i > 0 && codec(b.entries[i].stellarAddress).Some? {
      CompareFlip(codec(b.entries[i].stellarAddress).value, codec(b.entries[i - 1].stellarAddress).value);
    }
  }

  lemma PassingEntries(h: HashFn, codec: AddressCodec, b: BatchProof)
    requires |b.entries| > 0 && FirstFailure(h, codec, AsText, b).None?
    ensures codec(b.contractId).Some?
    ensures forall i :: 0 <= i < |b.entries| ==> EntryProved(h, codec, b, i)
    ensures StrictlySorted(codec, b.entries)
  {
    PassesIffNoFailure(h, codec, b);
    assert Passes(h, codec, b, 0);
    forall i | 0 <= i < |b.entries|
      ensures EntryProved(h, codec, b, i) && (i > 0 ==> Before(codec, b.entries[i - 1], b.entries[i]))
    {
      assert Passes(h, codec, b, i);
      if i > 0 { assert Passes(h, codec, b, i - 1); }
      EntryPassesIff(h, codec, b, i);
    }
    forall i, j | 0 <= i < j < |b.entries| ensures Before(codec, b.entries[i], b.entries[j]) {
      SortedFromAdjacent(codec, b.entries, i, j);
    }
  }

  lemma AllPass(h: HashFn, codec: AddressCodec, b: BatchProof)
    requires Decodable(codec, b) && StrictlySorted(codec, b.entries)
    requires forall i :: 0 <= i < |b.entries| ==> EntryProved(h, codec, b, i)
    ensures FirstFailure(h, codec, AsText, b).None?
  {
    forall i | 0 <= i < |b.entries| ensures Passes(h, codec, b, i) {
      assert EntryProved(h, codec, b, i);
      if i > 0 { assert Before(codec, b.entries[i - 1], b.entries[i]); }
      EntryPassesIff(h, codec, b, i);
    }
    PassesIffNoFailure(h, codec, b);
  }

  /** The verifier accepts exactly the batches whose every check holds. */
  lemma VerdictIffAccepts(h: HashFn, codec: AddressCodec, b: BatchProof, trusted: string)
    ensures BatchVerdictOf(h, codec, AsText, b, Some(trusted)).Valid? <==> Accepts(h, codec, b, trusted)
  {
    if BatchVerdictOf(h, codec, AsText, b, Some(trusted)).Valid? {
      PassingEntries(h, codec, b);
      forall i | 0 <= i < |b.entries| ensures codec(b.entries[i].stellarAddress).Some? {
        assert EntryProved(h, codec, b, i);
      }
    }
    if Accepts(h, codec, b, trusted) { AllPass(h, codec, b); }
  }

  // ------------------------------------------------- text against decoded bytes

  /** Every hash field that the verifier compares has its 64 digits. */
  predicate FullFields(b: BatchProof, trusted: string) {
    && FullField(b.stateRootHash) && FullField(b.headerProof.bucketListHash)
    && FullField(b.ledgerHeaderHash) && FullField(trusted)
    && forall i :: 0 <= i < |b.entries| ==> FullField(b.entries[i].leafHash)
  }

  lemma SameOnFullFields(x: string, y: string)
    requires FullField(x) && FullField(y)
    ensures Same(AsText, x, y) <==> Same(AsBytes, x, y)
  {
    NormalizedIffSameBytes(x, y);
  }

  lemma SameOnDigest(digest: Digest, y: string)
    requires FullField(y)
    ensures Same(AsText, ToHex(digest), y) <==> Same(AsBytes, ToHex(digest), y)
  {
    HexRoundTrip(digest);
    NormalizedIffDigest(digest, y);
  }

  lemma EntryReadsBytes(h: HashFn, codec: AddressCodec, b: BatchProof, i: nat)
    requires i < |b.entries| && FullField(b.entries[i].leafHash)
    ensures EntryFailure(h, codec, AsText, b, i) == EntryFailure(h, codec, AsBytes, b, i)
  {
    if codec(b.contractId).Some? && codec(b.entries[i].stellarAddress).Some? {
      SameOnDigest(ComputedLeaf(h, codec, b, i), b.entries[i].leafHash);
    }
  }

  lemma FailuresReadBytes(h: HashFn, codec: AddressCodec, b: BatchProof)
    requires forall i :: 0 <= i < |b.entries| ==> FullField(b.entries[i].leafHash)
    ensures Failures(h, codec, AsText, b) == Failures(h, codec, AsBytes, b)
  {
    var x, y := Failures(h, codec, AsText, b), Failures(h, codec, AsBytes, b);
    forall i | 0 <= i < |x| ensures x[i] == y[i] { EntryReadsBytes(h, codec, b, i); }
  }

  lemma AnchorReadsBytes(h: HashFn, stateRoot: string, ledgerSeq: u32, header: HeaderProof, headerHash: string,
                         trusted: string)
    requires FullField(stateRoot) && FullField(header.bucketListHash) && FullField(headerHash) && FullField(trusted)
    ensures AnchorFailure(h, AsText, stateRoot, ledgerSeq, header, headerHash, trusted)
            == AnchorFailure(h, AsBytes, stateRoot, ledgerSeq, header, headerHash, trusted)
  {
    SameOnFullFields(header.bucketListHash, stateRoot);
    SameOnDigest(HeaderHash(h, ledgerSeq, header), headerHash);
    SameOnFullFields(headerHash, trusted);
  }

  /** When every compared field has its 64 digits, comparing texts decides like comparing the decoded bytes. */
  lemma VerdictReadsBytes(h: HashFn, codec: AddressCodec, b: BatchProof, trusted: string)
    requires FullFields(b, trusted)
    ensures BatchVerdictOf(h, codec, AsText, b, Some(trusted)) == BatchVerdictOf(h, codec, AsBytes, b, Some(trusted))
  {
    FailuresReadBytes(h, codec, b);
    AnchorReadsBytes(h, b.stateRootHash, b.ledgerSeq, b.headerProof, b.ledgerHeaderHash, trusted);
    SameFailuresSameVerdict(h, codec, b, trusted);
  }

  lemma SameFailuresSameVerdict(h: HashFn, codec: AddressCodec, b: BatchProof, trusted: string)
    requires Failures(h, codec, AsText, b) == Failures(h, codec, AsBytes, b)
    requires AnchorFailure(h, AsText, b.stateRootHash, b.ledgerSeq, b.headerProof, b.ledgerHeaderHash, trusted)
             == AnchorFailure(h, AsBytes, b.stateRootHash, b.ledgerSeq, b.headerProof, b.ledgerHeaderHash, trusted)
    ensures BatchVerdictOf(h, codec, AsText, b, Some(trusted)) == BatchVerdictOf(h, codec, AsBytes, b, Some(trusted))
  {
  }

  /** So does the single verifier. */
  lemma SingleVerdictReadsBytes(h: HashFn, codec: AddressCodec, p: StateProof, trusted: string)
    requires FullField(p.stateRootHash) && FullField(p.headerProof.bucketListHash) && FullField(p.leafHash)
    requires FullField(p.ledgerHeaderHash) && FullField(trusted)
    ensures SingleVerdictOf(h, codec, AsText, p, Some(trusted)) == SingleVerdictOf(h, codec, AsBytes, p, Some(trusted))
  {
    if codec(p.contractId).Some? && codec(p.stellarAddress).Some? {
      SameOnDigest(LeafHash(h, codec(p.contractId).value, codec(p.stellarAddress).value, p.scoreData), p.leafHash);
    }
    AnchorReadsBytes(h, p.stateRootHash, p.ledgerSeq, p.headerProof, p.ledgerHeaderHash, trusted);
  }
}
