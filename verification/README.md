# Pactum: verified model

Pactum records commitments between Stellar accounts, scores the parties by how they kept
them, and carries those scores to other chains. This project models its decision-making
core in Dafny and proves what that core promises, for every input, every run or every
reachable state.

- **Batched state proofs.** A relayer sorts score entries, builds a Merkle tree that
  duplicates odd nodes, and hashes a header over its root. Hash fields are texts that the
  verifier does not check against the schema. A header hash pins down the whole batch as long
  as no bucket list or leaf field has lost digits, and what the generator produces is accepted
  exactly when the addresses differ.
- **Homomorphic scores and range proofs.** The Paillier and Pedersen arithmetic off chain and
  its 128-bit counterpart on chain: decryption, the linear score, and exactly which commitments
  have a range proof, from Fermat's little theorem and certificates that 2^64 - 59 is prime and
  7 a primitive root of it.
- **The registry contract.** Commitments, milestones, disputes and their four resolution
  routes, attestor stakes, escrows, the two-schema reputation store and the ledger-decay trust
  score, as one object and as a state machine whose runs keep the invariants below.
- **The finality indexer**, a reorg-following replica of a hash-linked chain.
- **The state channel, the rate limiter and the strkey decoder.**

Every entrypoint of the registry and the channel is a method whose contract says that it
leaves exactly the specified state, or reports the specified error and leaves everything as
it was: a panic on the host reverts the whole invocation. The statements over runs are about
those specifications.

Check everything with `dafny verify dfyconfig.toml`.

## What the code does not do as documented

Each of these is shown on an input, beside the exact condition under which the documented
behaviour holds.

- Key generation accepts equal primes; the key then decrypts wrongly unless the prime is 2.
- The contract's encrypted score adds the late and breached penalties instead of subtracting
  them, because both weights are even and the negation placeholder is lost.
- The range proof does not bound the rating. Some proof is accepted for exactly the commitments
  that the modulus does not divide, whatever they commit to, and one constant proof passes under
  every key, so any ciphertext can be accumulated.
- An outcome kind beyond the three listed is counted as a breach.
- An untouched trust score can fall: it never does exactly from scores of at most 50.
- `direct_count` can part from the sum of the three counters at the u32 maximum.
- The stake escrowed for a dispute that a panel settles is never paid out; exactly the disputes
  settled without a panel pay theirs.
- A committee can split so that no outcome can reach its majority; exactly then its dispute is
  never settled, whatever is called.
- A panel that lists a member twice can have a threshold above its number of distinct members;
  no vote then settles its dispute, only the timeout does.
- The aggregation root of a batch is not covered by the header.
- A hash field with fewer digits than the schema demands compares equal to its padded form, but
  is hashed as other bytes. A header with a short bucket list field does not carry the root it
  was checked against, a root rebuilt from short leaf fields is not that of the computed leaves,
  and either way two different batches can share a header hash without a collision on anything
  that the two verifications hash.
- A single proof is generated over an entry list that holds another score for its address, and
  is then refused.
- A state channel accepts one negative amount, and then records less than it holds. It also
  accepts a negative balance in a dispute proof: closing then pays the other party more than the
  collateral out of what other channels of the token hold, and one of those can no longer be
  closed. Opening and closing move exactly what they record when nothing is negative; in every
  run the contract holds what its channels brought in minus what they paid out.
- A channel's "signed state proof" carries no signature of the other party, so one party alone
  can dispute with the largest nonce, after which no dispute succeeds.
- When the end of a dispute window overflows u64, the channel can neither be disputed further nor
  closed by its parties; only the ruleset's verdict can still close it.
- The ledger tables accept sequences below 1. Rolled back to 0 or below they keep a ledger stored
  at or below the target, without a checkpoint.
- The in-memory ledger store keeps its deletions when a rollback throws.

## How it is modelled

- **Hashing.** The digest is a parameter from bytes to 32 bytes. Where a result needs it, the
  hash is assumed free of collisions on inputs that the runs at hand actually hash, and on nothing
  else: for the binding of batches those are the leaf payloads, the inner nodes of the rebuilt
  tree and the header; the counterexamples are free of collisions on every input hashed, audit
  paths and aggregation included.
- **Texts.** Hash fields and siblings are strings, decoded as far as whole pairs of digits go.
  Lower-casing is that of ASCII.
- **Addresses.** In the relayer an address is text with a decoder to 32 bytes as a parameter
  that may fail; in the contracts it is an opaque identity.
- **Authorisation, clock, tokens.** An invocation carries the ledger's time and sequence, the
  addresses that authorise it, and whether an incoming token transfer succeeds. An outgoing
  transfer fails when the contract's own balance is short, which is proved not to happen to the
  registry, nor to a channel unless something negative was brought in. It is recorded with its
  recipient.
- **Machine integers.** Widths, saturation, wrap-around and checked arithmetic are written out.
  Ledger sequences, versions and score fields of a batch are integers of the widths its schema
  demands; the verifier itself does not parse the schema, and what it does with other JavaScript
  numbers is not modelled.
  The checksum register is its sixteen bits.
- **Transactions.** One database transaction is one step.
- **The source of ledgers** answers with the ledger it is asked for. Canonicity is stated for a
  complete hash-linked source and ledgers that their hash determines.

## Model

| member | source | states |
|---|---|---|
| MerkleTrees.MerkleTree.BuildTree | backend/src/relayer/merkleTree.ts:51-63 | the pushed layers are the leaves and their repeated pairing, an odd last node paired with itself, up to one node |
| MerkleTrees.MerkleTree.GetRoot | backend/src/relayer/merkleTree.ts:69-71 | the last layer is the one root |
| MerkleTrees.MerkleTree.GetProof | backend/src/relayer/merkleTree.ts:80-107 | an index in range yields the sibling path of that leaf; any other index is the out-of-bounds error |
| MerkleTrees.MerkleTree.GetAllProofs | backend/src/relayer/merkleTree.ts:118-120 | one path per leaf, in leaf order |
| MerkleTrees.MerkleTree.Verify | backend/src/relayer/merkleTree.ts:138-151 | accepts exactly when folding the bytes of the sibling texts from the leaf, whatever their lengths, gives the expected root |
| MerkleTrees.MerkleTree.ComputeRootFromLeaves | backend/src/relayer/merkleTree.ts:172-174 | the root of the tree over the leaves; no leaves is an error |
| MerkleTrees.AuditPathFolds | backend/src/relayer/merkleTree.ts:80-107 | every leaf path of every tree, odd or even, folds to the root |
| MerkleTrees.RootBindsLeaves | backend/src/relayer/merkleTree.ts:51-63 | two duplicate-free leaf lists with one root are equal whatever their lengths, unless two hashed inputs collide |
| MerkleTrees.LayerRule | backend/src/relayer/merkleTree.ts:51-63 | each layer hashes its nodes in pairs, left before right, and an odd last node with itself |
| MerkleTrees.PathStartsAtLeaf | backend/src/relayer/merkleTree.ts:138-151 | a 92-byte leaf payload whose path of 32-byte siblings folds to the root of hashed leaf payloads is one of those leaves, so depth cannot be confused |
| Encoder.EncodeLeafPayload | backend/src/relayer/encoder.ts:55-74 | the buffer written in place is the 92-byte big-endian packing of contract, address and score fields |
| Encoder.LeafPayloadInjective | backend/src/relayer/encoder.ts:55-74 | equal leaf payloads come from equal contract, address and score |
| Encoder.LeafReadsBack | backend/src/relayer/encoder.ts:55-74 | every field of a leaf payload reads back, big-endian, from its own offset |
| Encoder.EncodeHeaderPayload | backend/src/relayer/encoder.ts:99-114 | the buffer written in place is the 104-byte packing of sequence, the decoded bytes of the three hash texts, cut after 32 and zero-filled on the right, and version |
| Encoder.HeaderPayloadInjective | backend/src/relayer/encoder.ts:99-114 | equal header payloads come from equal sequences, versions and 32-byte fields |
| Encoder.HeaderReadsBack | backend/src/relayer/encoder.ts:99-114 | so does every field of a header payload |
| Encoder.EncodeAggregationPayload | backend/src/relayer/encoder.ts:132-146 | the buffer written in place is the packing of leaf hash, sequence id and address |
| Encoder.AggregationPayloadInjective | backend/src/relayer/encoder.ts:132-146 | equal aggregation payloads come from equal fields |
| Encoder.AggregationReadsBack | backend/src/relayer/encoder.ts:132-146 | and every field of an aggregation payload |
| StateProofs.VerifyBatch | backend/src/relayer/verifier.ts:116-240 | on hash fields of any text, the loop with its early returns gives the verdict of all checks in order, comparing normalised texts, and the scores of an accepted batch |
| StateProofs.VerifySingle | backend/src/relayer/verifier.ts:27-110 | the single verifier gives the verdict of its checks in order, comparing normalised texts |
| StateProofs.VerdictIffAccepts | backend/src/relayer/verifier.ts:149-225 | the batch verifier accepts exactly when the header reads as the trusted one, every path checks, the rebuilt root is the committed one and the address bytes strictly increase |
| StateProofs.VerdictReadsBytes | backend/src/relayer/verifier.ts:16-19 | when every compared field has its 64 digits the verdict on texts is the verdict on the decoded bytes |
| StateProofs.SingleVerdictReadsBytes | backend/src/relayer/verifier.ts:43-92 | so is the verdict on a single proof |
| HeaderBinding.HeaderCarriesRootIff | backend/src/relayer/verifier.ts:193-200 | the header of an accepted batch carries the state root exactly when the bucket list field has at least 64 characters, or the root is zero |
| HeaderBinding.RebuiltFromComputedIff | backend/src/relayer/verifier.ts:186-191 | the root is rebuilt from the computed leaves exactly when no leaf field is short |
| HeaderBinding.SingleVerdictIffHolds | backend/src/relayer/verifier.ts:27-110 | the single verifier accepts exactly when each of its checks holds |
| HeaderBinding.HeaderBindsBatch | backend/src/relayer/verifier.ts:149-225 | two batches without short bucket list and leaf fields, accepted under one trusted header hash, have the same ledger sequence and the same ordered address bytes and scores, unless two hashed inputs collide |
| HeaderMisbinding.ShortFieldMisbinds | backend/src/relayer/verifier.ts:193-220 | with a 62-digit bucket list field two batches about different addresses are accepted under one header hash, without a collision on anything the two verifications hash |
| HeaderMisbinding.ShortLeavesMisbind | backend/src/relayer/verifier.ts:186-191 | so are two with whole bucket list fields and leaf fields of 62 and 63 digits, again without a collision on anything hashed |
| HeaderBinding.SingleProofIsInBatch | backend/src/relayer/verifier.ts:27-110 | a single proof accepted under the header of an accepted batch, neither with a short field, is about one of its entries, with the same score |
| HeaderBinding.AggregationRootNotPinned | backend/src/relayer/verifier.ts:193-215 | the aggregation root is not covered by the header: grafting a sibling above it gives another accepted batch |
| StateProofGeneration.StateProofGenerator.SetScoreData | backend/src/relayer/stateProofGenerator.ts:61-63 | the local score of one address is replaced, the others kept |
| StateProofGeneration.SetScoreIsAttested | backend/src/relayer/stateProofGenerator.ts:61-84 | a score that was set is the one attested, whatever is fetched in between |
| StateProofGeneration.StateProofGenerator.FetchScoreData | backend/src/relayer/stateProofGenerator.ts:81-141 | the local score, else the answer of the RPC server, which is kept, else 50 with no outcomes and source ledger 1; stored scores stay |
| StateProofGeneration.CachedAllKeepsScores | backend/src/relayer/stateProofGenerator.ts:81-141 | what has been fetched before does not change what is fetched next |
| StateProofGeneration.StateProofGenerator.CollectSortedEntries | backend/src/relayer/stateProofGenerator.ts:279-298 | the records without earlier duplicates, and an extra one whose address is new, sorted by address bytes; an undecodable address throws |
| StateProofGeneration.StateProofGenerator.GenerateProof | backend/src/relayer/stateProofGenerator.ts:147-180 | the result is the proof of the target in the tree over the given list, or the error the source throws; it is about the address asked for and carries the stored score, else the server answer, else the neutral one, dated by that score unless a ledger is asked for |
| StateProofGeneration.GeneratedSingleAcceptedIffAgrees | backend/src/relayer/stateProofGenerator.ts:147-180 | a generated single proof is accepted for its own header hash exactly when the given list has no other score for the address, unless two score payloads collide |
| StateProofGeneration.DisagreeingListIsRefused | backend/src/relayer/stateProofGenerator.ts:147-180 | a list with another score is taken all the same and the proof is refused |
| StateProofGeneration.StateProofGenerator.GenerateBatchProof | backend/src/relayer/stateProofGenerator.ts:181-268 | the result is the batch over the resolved targets, or the error the source throws; it has one entry for each address the targets are about, carrying the score of the last target about it: a record its own, an address the stored, else the served, else the neutral one; it is dated by its newest score unless a ledger is asked for, and headed by the header given, or by one that carries its root |
| StateProofGeneration.SortSorts | backend/src/relayer/stateProofGenerator.ts:295-297 | sorting permutes the entries and orders them by address bytes |
| StateProofGeneration.StrictIffDistinct | backend/src/relayer/stateProofGenerator.ts:295-297 | the sorted entries strictly increase exactly when no two share address bytes |
| StateProofGeneration.DeduplicateKeepsLast | backend/src/relayer/stateProofGenerator.ts:283-293 | deduplication keeps, for every address, its last record and nothing else |
| StateProofGeneration.AssembledEntryProved | backend/src/relayer/stateProofGenerator.ts:225-255 | every state path and aggregation path of an assembled batch checks |
| StateProofGeneration.AssembledAcceptedIff | backend/src/relayer/stateProofGenerator.ts:181-268 | an assembled batch is accepted for its own header hash exactly when its entries strictly increase and the bucket list text of the header reads as the state root |
| StateProofGeneration.GeneratedAcceptedIffDistinct | backend/src/relayer/stateProofGenerator.ts:181-298 | a batch generated under the default header is accepted for its own header hash exactly when the distinct targets have distinct address bytes |
| StateProofGeneration.GeneratedTextsAreWhole | backend/src/relayer/stateProofGenerator.ts:181-298 | a batch generated under the default header has no short field, so its header binds it |
| HexFields.NormalizedIffSameBytes | backend/src/relayer/verifier.ts:16-19 | between hash fields of 64 digits, equal normalised text is equal 32 bytes |
| HexFields.NormalizedIffDigest | backend/src/relayer/verifier.ts:43-53 | comparing the text of a computed digest with a field of 64 digits compares the digest with the bytes of the field |
| HexFields.ComparedFaithfullyIff | backend/src/relayer/verifier.ts:16-19 | a field of any text compares with the schema-valid fields as its bytes do, exactly unless it has fewer than 64 digits or something after 64 digits that decoding drops |
| ModularArithmetic.ModPow | backend/src/crypto/paillier.ts:41-53 | square-and-multiply returns the truncating remainder of the mathematical power for bases of either sign, and 1 modulo the modulus for a negative exponent |
| ModularArithmetic.ExtGcdIsGreatest | backend/src/crypto/paillier.ts:56-61 | the extended algorithm returns a Bezout combination that is the greatest common divisor |
| ModularArithmetic.CoprimeIffExtGcdOne | backend/src/crypto/paillier.ts:63-68 | the inverse exists exactly for coprime arguments |
| ModularArithmetic.Gcd | backend/src/crypto/paillier.ts:74-79 | the loop returns the greatest common divisor |
| CompactPrime.CompactModulusIsPrime | backend/src/crypto/paillier.ts:109 | 2^64 - 59 is prime |
| Paillier.KeyPairShape | backend/src/crypto/paillier.ts:130-150 | key generation succeeds exactly when the least common multiple is invertible modulo n, and then mu inverts it |
| Paillier.DistinctPrimesCanDecrypt | backend/src/crypto/paillier.ts:130-150 | a key generated from distinct primes strips every unit blinding |
| PaillierKeys.KeyDecryptsIffDistinct | backend/src/crypto/paillier.ts:130-150 | a generated key decrypts every encryption exactly when the primes differ or both are 2: the check key generation does not make |
| PaillierKeys.RepeatedOddPrimeMisdecrypts | backend/src/crypto/paillier.ts:130-150 | under a repeated odd prime p a certain encryption of 0 decrypts to p |
| Paillier.DecryptInvertsEncrypt | backend/src/crypto/paillier.ts:155-185 | decrypting an encryption returns the plaintext for every plaintext below n and every unit blinding |
| Paillier.ComputeEncryptedScore | backend/src/crypto/paillier.ts:254-277 | the accumulator ends as the ciphertext of the homomorphic formula |
| Paillier.EncryptedScoreDecrypts | backend/src/crypto/paillier.ts:254-277 | whatever ciphertexts encode f, l and b, the evaluated ciphertext decrypts to 50 + 10f - 10l - 50b modulo n |
| Paillier.ServiceKeyCanDecrypt | backend/src/services/HomomorphicReputationService.ts:146-161 | the service key with prime modulus exists and strips every unit blinding: r^(n-1) = 1 mod n lifts to r^(n(n-1)) = 1 mod n^2 |
| Paillier.ServiceScoreIsExact | backend/src/services/HomomorphicReputationService.ts:146-161 | three plaintexts encrypted under the service key with any non-zero blindings score to the linear formula modulo n |
| Paillier.DerivedBlindingIsUnit | backend/src/crypto/paillier.ts:314-318 | for a prime modulus the derived default blinding is a unit |
| RangeProof.FiatShamirChallenge | backend/src/crypto/bulletproof.ts:93-107 | the mutated state ends as the challenge, which is never zero |
| RangeProof.SigmaCompleteness | backend/src/crypto/bulletproof.ts:124-183 | for every prime modulus dividing neither generator, witnesses reduced modulo p - 1 satisfy the verification equation |
| PrimitiveRoot.SevenGenerates | backend/src/crypto/bulletproof.ts:50-59 | the generator 7 is a primitive root: every residue that the prime modulus does not divide is a power of it |
| RangeProof.AnyRatingHasProof | backend/src/crypto/bulletproof.ts:27-31 | the range is not enforced: a commitment to any integer, in range or not, has a proof the verifier accepts |
| RangeProof.ProvableIffNotMultiple | backend/src/crypto/bulletproof.ts:171-183 | witnesses that the verifier accepts exist for exactly the commitments that the modulus does not divide |
| RangeProof.GeneratedProofVerifies | backend/src/crypto/bulletproof.ts:124-183 | every in-range rating gives a proof the verifier accepts; other ratings are refused |
| HeReputation.MulMod128 | contracts/registry/src/he_reputation.rs:207-219 | shift-and-add multiplication returns the product modulo any non-zero modulus, every intermediate within 128 bits |
| HeReputation.ModPow128 | contracts/registry/src/he_reputation.rs:177-192 | the 128-bit power loop returns the same value as the unbounded one |
| HeReputation.FiatShamirChallenge128 | contracts/registry/src/he_reputation.rs:318-333 | on 64-bit inputs the wrapping challenge equals the off-chain challenge |
| HeReputation.VerifyRangeProof128 | contracts/registry/src/he_reputation.rs:354-371 | the contract accepts exactly the proofs the off-chain verifier accepts |
| HeReputation.GeneratedProofFitsChain | contracts/registry/src/he_reputation.rs:354-371 | every generated proof with a non-negative blinding fits 64-bit fields and is accepted by the contract |
| HeReputation.ChainProofExistsIff | contracts/registry/src/he_reputation.rs:336-371 | on chain too, 64-bit witnesses exist for exactly the commitments that the modulus does not divide, whatever they commit to |
| HeReputation.ConstantProofIsAccepted | contracts/registry/src/he_reputation.rs:426-428 | one constant proof passes under every key, so any ciphertext can be accumulated |
| HeReputation.LimbsRoundTrip | backend/src/crypto/paillier.ts:293-304 | the two limbs carry a value faithfully exactly when it is below 2^128 |
| HeReputation.SplitThenJoin | contracts/registry/src/he_reputation.rs:122-133 | joining and splitting 128-bit limbs is the identity |
| HeReputation.AddMatchesOffChain | contracts/registry/src/he_reputation.rs:230-235 | on-chain addition is off-chain addition under the compact key |
| HeReputation.ScaleMatchesOffChain | contracts/registry/src/he_reputation.rs:242-246 | on-chain scaling is off-chain scaling under the compact key |
| HeReputation.ComputeEncryptedScore128 | contracts/registry/src/he_reputation.rs:278-305 | the contract computes the ciphertext of its score formula |
| HeReputation.OnChainScoreAddsPenalties | contracts/registry/src/he_reputation.rs:255-305 | with the placeholder negation the on-chain score decrypts to 50 + 10f + 10l + 50b |
| HeReputation.OnChainScoreCorrectIff | contracts/registry/src/he_reputation.rs:255-305 | the on-chain score is the documented one exactly when 20l + 100b vanishes modulo n |
| HeReputation.EncryptedRows.Accumulate | contracts/registry/src/he_reputation.rs:415-446 | an invalid proof changes nothing; after a valid one the ciphertext is folded into one lane of one row, fulfilled for kind 0, late for 1 and breached for every kind from 2 on |
| HeReputation.KindsChooseTheirLanes | contracts/registry/src/he_reputation.rs:439-443 | kind 0 adds its plaintext to the fulfilled lane and to no other, kind 1 to the late one |
| HeReputation.KindsFromTwoAreBreaches | contracts/registry/src/he_reputation.rs:408-443 | a kind from 2 on, listed or not, adds its plaintext to the breached lane and to no other |
| HeReputation.EmptyHoldsZero | contracts/registry/src/he_reputation.rs:432-437 | a row that was never written decrypts to zero in every lane |
| HeReputation.AccumulationDecryptsToSum | contracts/registry/src/he_reputation.rs:415-446 | however many outcomes a lane accumulates, it decrypts to their sum modulo n |
| TrustStores.TrustStore.UpdateTrustHistory | contracts/registry/src/trust_score.rs:181-235 | the row of one issuer is folded to the current bucket and one lane adjusted; the other rows are kept |
| TrustScores.AdjustMovesOneUnit | contracts/registry/src/trust_score.rs:239-247 | an addition moves the undecayed value of its lane by exactly one scaled unit unless full, a retraction by one unit or what is left, nothing else moves, and a retraction undoes an addition |
| TrustScores.FoldKeepsQueryIff | contracts/registry/src/trust_score.rs:140-149 | folding at a bucket leaves the query at that bucket unchanged exactly when the sum fits u64 |
| TrustScores.FoldNeverInflates | contracts/registry/src/trust_score.rs:140-149 | folding never adds value |
| TrustScores.SplitGapDecaysNoMore | contracts/registry/src/trust_score.rs:129-149 | folding part way and querying later decays no more than one fold over the whole gap |
| TrustScores.AnySplitDecaysNoMore | contracts/registry/src/trust_score.rs:200-208 | however a gap is split into folds, the aggregate keeps at least what one fold over the gap keeps, provided the first fold does not saturate: no later one can |
| TrustScores.EffectiveNonIncreasing | contracts/registry/src/trust_score.rs:153-172 | the effective value of a lane never grows with the decay steps |
| TrustScores.UpdateBoundsWeight | contracts/registry/src/trust_score.rs:181-247 | an added outcome adds at most one scaled unit to its lane, a retracted one removes a unit or empties the lane, other lanes never grow |
| TrustScores.UpdateMovesSeen | contracts/registry/src/trust_score.rs:181-247 | an update moves what a query at that ledger sees of its lane by exactly one unit, up or down to zero, and of no other lane, up to the u64 caps |
| TrustScores.ScoreFormula | contracts/registry/src/trust_score.rs:273-307 | the score is 50 plus 10 per fulfilled, minus 10 per late and 50 per breached outcome, each lane halved every 64 buckets of 10000 ledgers, rounded down and clamped to 0..100 |
| TrustScores.FreshCountsScore | contracts/registry/src/trust_score.rs:273-307 | within its bucket an unaged row of f, l and b outcomes scores 50 + 10f - 10l - 50b, clamped |
| TrustScores.ScoreFitsI128 | contracts/registry/src/trust_score.rs:289-296 | no intermediate of the score leaves i128 |
| TrustScores.FullyDecayedScoresBase | contracts/registry/src/trust_score.rs:273-307 | after 2048 buckets without a write the score is exactly 50 |
| TrustScores.ScoreNeverFallsIff | contracts/registry/src/trust_score.rs:45-47 | the documented claim that an untouched score never falls holds from a ledger on exactly when the score then is at most 50 |
| TrustScores.ScoreCanFall | contracts/registry/src/trust_score.rs:273-307 | one fulfilled outcome scores 60 and, 64 buckets later, 55 |
| Reputations.ReputationStore.UpdateReputation | contracts/registry/src/reputation.rs:400-455 | the row of one issuer is stepped in the schema in force, migrating first under V2; other rows are kept |
| Reputations.ReputationStore.ApplyOutcome | contracts/registry/src/reputation.rs:458-477 | exactly the matching counter moves by one, saturating; other statuses are not counted |
| Reputations.ReputationStore.MigrateReputation | contracts/registry/src/reputation.rs:265-291 | a pending V1 row becomes a V2 row and disappears; anything else is left alone |
| Reputations.ReputationStore.MigrateReputationBatch | contracts/registry/src/reputation.rs:306-321 | the addresses are migrated in order; before V2 or above 100 addresses nothing changes |
| Reputations.ReputationStore.Upgrade | contracts/registry/src/upgrade.rs:158-184 | the schema moves forward to a supported version, or nothing changes |
| Reputations.UpgradeRule | contracts/registry/src/upgrade.rs:158-184 | the schema moves exactly forward, to at most 2, and no row changes |
| Reputations.MigratedAllKeepsReads | contracts/registry/src/reputation.rs:306-321 | a batch changes no read, invents no row, and leaves exactly the other addresses pending |
| Reputations.MovedCountIsDistinctPending | contracts/registry/src/reputation.rs:306-321 | the reported count is the number of distinct pending addresses in the batch |
| Reputations.RefinesPlainCounters | contracts/registry/src/reputation.rs:199-225 | under any interleaving of upgrades, migrations and updates the store reads as a plain counter map with at most one row per address |
| Reputations.DirectCountKeptIff | contracts/registry/src/reputation.rs:439-448 | direct_count stays the sum of the counters through an update exactly when the counter it touches moves, or a retraction finds nothing counted at all |
| Reputations.DirectCountCanDrift | contracts/registry/src/reputation.rs:439-448 | at the u32 maximum one more outcome parts direct_count from the sum |
| Commitments.PackRoundTrip | contracts/registry/src/commitments.rs:100-144 | packing is refused exactly when a lane exceeds 16 bits, and the accessors undo it |
| Commitments.UnpackRoundTrip | contracts/registry/src/commitments.rs:125-144 | the four lanes determine the packed word |
| Commitments.LanesAreDisjoint | contracts/registry/src/commitments.rs:117-144 | on 64-bit words the or of the shifted lanes is their sum, and shift-and-mask reads each back |
| Staking.CutSplitsStake | contracts/registry/src/economics/slash.rs:16-34 | cut and remainder add up to the stake, the cut is a tenth rounded down, and refusal is exactly an overflowing product or a percentage above 100 |
| RegistryContracts.RegistryContract.Initialize | contracts/registry/src/lib.rs:77-124 | stores the deduplicated committee and the admin once, with everybody's consent |
| RegistryContracts.RegistryContract.SetPaused | contracts/registry/src/lib.rs:291-322 | the admin alone sets the pause flag |
| RegistryContracts.RegistryContract.SetStakingToken | contracts/registry/src/staking.rs:110-128 | an arbitrator sets the staking token once |
| RegistryContracts.RegistryContract.SetDisputeToken | contracts/registry/src/lib.rs:501-515 | an arbitrator sets the dispute token once |
| RegistryContracts.RegistryContract.CreateCommitment | contracts/registry/src/commitments.rs:626-718 | a valid request stores one pending commitment under the next id; an invalid one changes nothing |
| RegistryContracts.RegistryContract.CreateBatch | contracts/registry/src/commitments.rs:750-821 | all commitments of the batch are stored under consecutive ids, or none |
| RegistryContracts.RegistryContract.Attest | contracts/registry/src/attestation.rs:90-206 | records the next milestone, resolves on a breach or the last one, and scores the issuer once |
| RegistryContracts.RegistryContract.Dispute | contracts/registry/src/disputes.rs:17-109 | escrows the stake, locks the panel, moves the status and retracts the outcome, or changes nothing |
| RegistryContracts.RegistryContract.LockPanel | contracts/registry/src/disputes.rs:76-80 | every panel member's stake is locked |
| RegistryContracts.RegistryContract.ResolveDispute | contracts/registry/src/disputes.rs:144-230 | the custom resolver settles at once; a committee member's vote is recorded and settles on a majority |
| RegistryContracts.RegistryContract.FinalizeResolution | contracts/registry/src/disputes.rs:235-291 | the outcome is written and scored and the escrow paid to the issuer when fulfilled, to the counterparty otherwise |
| RegistryContracts.RegistryContract.CastDisputeVote | contracts/registry/src/voting.rs:144-230 | records one panel vote and concludes at the threshold, or changes nothing |
| RegistryContracts.RegistryContract.CheckDisputeTimeout | contracts/registry/src/voting.rs:242-274 | after the window the dispute falls back to a breach without slashing |
| RegistryContracts.RegistryContract.UnlockPanel | contracts/registry/src/voting.rs:97-124 | slashes, unlocks and clears every panel entry in order, or changes nothing when a slash overflows |
| RegistryContracts.RegistryContract.StakeAttestor | contracts/registry/src/staking.rs:139-173 | adds to the stake and to the vault, or changes nothing |
| RegistryContracts.RegistryContract.RequestUnstake | contracts/registry/src/staking.rs:188-220 | starts the unbonding period of an unlocked stake |
| RegistryContracts.RegistryContract.FinalizeUnstake | contracts/registry/src/staking.rs:233-271 | pays the whole stake back to the attestor after the unbonding period |
| RegistryContracts.RegistryContract.MigrateReputationBatch | contracts/registry/src/lib.rs:402-405 | gated by the pause, migrates the batch and returns how many rows moved |
| RegistryRules.InitializeRule | contracts/registry/src/lib.rs:77-124 | the committee is appointed once, with everybody named in it and the admin signing, each member once |
| RegistryRules.PauseRule | contracts/registry/src/lib.rs:291-322 | only the admin pauses or resumes; while paused nothing is created, attested, disputed, resolved or migrated |
| RegistryRules.TokenRule | contracts/registry/src/staking.rs:110-137 | each token is set once, by an arbitrator |
| RegistryRules.CreateRule | contracts/registry/src/lib.rs:150-207 | the exact condition for creating a commitment, every field it records, and that nothing else changes |
| RegistryRules.AttestRule | contracts/registry/src/attestation.rs:90-190 | in reachable states, exactly who attests which milestone when, and the time that a resolving attestation keeps |
| RegistryRules.DisputeRule | contracts/registry/src/disputes.rs:17-142 | in reachable states, exactly when a dispute is opened, within a week of the attestation; it escrows 100000000 and locks exactly the panel members who have a stake |
| RegistryRules.ResolveRule | contracts/registry/src/disputes.rs:144-233 | in reachable states, exactly who is heard on a dispute without a panel |
| RegistryRules.StakeRule | contracts/registry/src/staking.rs:139-186 | exactly when a stake is taken; it adds to that attestor and to no other |
| RegistryRules.UnstakeRule | contracts/registry/src/staking.rs:188-271 | in reachable states, exactly when a stake can be asked back, and that it is paid out exactly from 14 days after |
| RegistryMilestones.MilestonesSoundInEveryRun | contracts/registry/src/commitments.rs:100-156 | in every reachable state late <= attested <= count, the lanes agree with the recorded outcomes in order, and a commitment has left Pending exactly on a breach or its last milestone |
| RegistryMilestones.ResolvesExactlyOnBreachOrLast | contracts/registry/src/attestation.rs:129-170 | an attestation resolves exactly on a breach or the last milestone: Breached on a breach, Late exactly when some milestone was late |
| RegistryCounters.CountersExactInEveryRun | contracts/registry/src/reputation.rs:400-477 | across every entrypoint each counter of an issuer of fewer than 2^32 commitments is the number of its commitments in that status |
| RegistryCounters.AggregatesAgree | contracts/registry/src/trust_score.rs:181-247 | in every reachable state the counters are those numbers, direct_count is their sum, and no decayed value exceeds the scale times its counter |
| RegistryCounters.CountsAreStatuses | contracts/registry/src/reputation.rs:400-477 | field by field, the public counters are the issuer commitments that are fulfilled, late and breached, and each trust lane weighs at most its own |
| RegistryCounters.TrustFollowsStatuses | contracts/registry/src/trust_score.rs:181-247 | in every run, whatever is called, what the score sees of a lane moves by exactly one unit for each commitment that enters or leaves it, and by nothing else |
| RegistryPanels.ReleaseAllExact | contracts/registry/src/voting.rs:97-124 | even with duplicate panel entries exactly the losing voters are slashed, once each, all are unlocked and their records cleared; it panics exactly on an overflowing losing stake |
| RegistryPanels.PanelsSoundInEveryRun | contracts/registry/src/voting.rs:170-228 | in every reachable state each tally lane is the number of distinct recorded panel members for it, below the threshold while open, and nothing is left of closed disputes |
| RegistryPanels.VoteResolvesAtThreshold | contracts/registry/src/voting.rs:199-228 | a vote resolves exactly when the recorded members reach the threshold, and then releases the panel and leaves no record or tally |
| RegistryPanels.VotingXorTimeout | contracts/registry/src/voting.rs:258-270 | while a panel dispute is open the timeout succeeds exactly from a week after the disputed attestation, when every vote is refused; it slashes nobody |
| RegistryVault.VaultSoundInEveryRun | contracts/registry/src/staking.rs:80-90 | in every run the balance of each token is the stakes plus the slashed amounts plus the escrows recorded in it, and exactly open disputes and panel-settled ones have an escrow |
| RegistryVault.PayoutsAreFunded | contracts/registry/src/staking.rs:254-264 | no payout of a stake or an escrow ever fails for lack of funds |
| RegistryVault.StepMoves | contracts/registry/src/disputes.rs:235-243 | every call moves every commitment along Pending, attested, Disputed, settled, or leaves it alone |
| RegistryVault.PastDisputeForever | contracts/registry/src/disputes.rs:241-243 | once disputed, always disputed or settled; once settled, never changed again |
| RegistryVault.DisputedAtMostOnce | contracts/registry/src/disputes.rs:28-71 | a successful dispute finds no escrow to overwrite and no later dispute of that commitment succeeds |
| RegistryVault.EscrowLeavesOnlyByResolution | contracts/registry/src/disputes.rs:261-287 | only a resolver or committee settlement of a commitment without a panel pays an escrow out |
| RegistryVault.PanelEscrowIsNeverPaid | contracts/registry/src/voting.rs:78-91 | the stake escrowed for a panel dispute stays in the contract in every continuation |
| RegistryPayouts.EscrowsPaidOnceInEveryRun | contracts/registry/src/disputes.rs:261-287 | in every run the escrow of each dispute settled without a panel has gone once, in full, to the issuer when fulfilled and to the counterparty otherwise, and nothing was paid for any other commitment |
| RegistryPayouts.WinnerTakesEscrow | contracts/registry/src/disputes.rs:261-287 | party by party: 100000000 to the issuer of a commitment settled fulfilled, to the counterparty of one settled late or breached |
| RegistryPayouts.WithdrawalPaysWholeStake | contracts/registry/src/staking.rs:233-271 | a finished withdrawal pays the attestor the whole positive stake and cannot be repeated |
| RegistryCommittee.CommitteeSoundInEveryRun | contracts/registry/src/commitments.rs:249-284 | in every reachable state committee lanes count distinct voting arbitrators, at most half of them while the dispute is open |
| RegistryCommittee.SettlesExactlyOnMajority | contracts/registry/src/disputes.rs:193-230 | a committee vote settles exactly when more than half of the distinct arbitrators chose its outcome |
| RegistrySettling.CommitteeSettlesIff | contracts/registry/src/disputes.rs:188-230 | in every reachable state some continuation settles an open committee dispute exactly when, for some outcome, the votes it has and the votes still out exceed half of the arbitrators |
| RegistrySettling.HopelessForever | contracts/registry/src/disputes.rs:188-230 | a committee dispute that no outcome can win any more stays open, whatever is called |
| RegistryExamples.SplitCommitteeDeadlocks | contracts/registry/src/disputes.rs:217-226 | a run from the fresh contract in which a committee of two disagrees and the dispute stays open in every continuation |
| RegistryExamples.PanelEscrowIsStranded | contracts/registry/src/voting.rs:78-91 | a run from the fresh contract after which the escrow of a panel dispute is never paid |
| RegistryPanelVotes.VotesSettleIff | contracts/registry/src/voting.rs:144-230 | in every reachable state votes at a given time settle an open panel dispute exactly when its week is not over and some outcome reaches the threshold with the eligible members, its losers all slashable |
| RegistryPanelVotes.OutOfReachForever | contracts/registry/src/voting.rs:144-230 | when the votes recorded and those of all members still out make the threshold for no outcome, the dispute stays open in every continuation until its timeout is called, whatever else is |
| RegistryPanelVotes.TooFewMembersNeverSettle | contracts/registry/src/voting.rs:199-206 | with fewer distinct members than the threshold no vote ever settles |
| RegistryPanelVotes.DuplicatePanelIsAccepted | contracts/registry/src/commitments.rs:626-718 | one member listed twice with a threshold of two is accepted at creation |
| StateChannels.StateChannelContract.Open | contracts/state_channel/src/lib.rs:98-165 | locks what the parties pay in and stores the open channel, or changes nothing |
| StateChannels.StateChannelContract.Dispute | contracts/state_channel/src/lib.rs:176-231 | a newer balance-conserving proof inside the window replaces the latest state and restarts the window |
| StateChannels.StateChannelContract.Verify | contracts/state_channel/src/lib.rs:237-324 | an invalid transition closes the channel and pays the whole collateral to the challenger, recorded with its recipient; a valid one changes nothing |
| StateChannels.StateChannelContract.Close | contracts/state_channel/src/lib.rs:328-386 | pays each party its latest balance and closes, with both signatures or after the window |
| StateChannels.BooksBalanceInEveryRun | contracts/state_channel/src/lib.rs:98-386 | in every run, negative amounts and balances included, the contract holds of each token what its channels brought in minus what they paid out, and only closed channels have paid |
| StateChannels.CloseSucceedsIffFunded | contracts/state_channel/src/lib.rs:354-374 | a close that no check refuses succeeds exactly when the contract holds what the latest state owes |
| StateChannels.ChannelsSoundInEveryRun | contracts/state_channel/src/lib.rs:98-386 | with non-negative amounts and proof balances, holdings per token are the collateral of the channels not closed, and every closed channel has paid each address exactly what its latest state owes it, together the collateral |
| StateChannels.SettlementsPayCollateral | contracts/state_channel/src/lib.rs:283-311 | whoever may close or win a channel is paid: the funds are there |
| StateChannels.CooperativeCloseRefunds | contracts/state_channel/src/lib.rs:328-386 | an open channel is closed by a party exactly when both have signed, and each gets back what it put in |
| StateChannels.CloseFollowsProof | contracts/state_channel/src/lib.rs:201-225 | closed after a dispute, a channel pays each party what the disputing proof says |
| StateChannels.ChallengerTakesAll | contracts/state_channel/src/lib.rs:283-324 | an invalid state pays the whole collateral to the challenger, who is the party that did not dispute, and nothing to anyone else, and the latest balances say so; a valid one changes nothing |
| StateChannels.AfterDispute | contracts/state_channel/src/lib.rs:206-228 | after a dispute exactly the other party can challenge it, and either party can close exactly once the window counted from it is over |
| StateChannels.OpenRecordsWhatItReceivesIff | contracts/state_channel/src/lib.rs:108-153 | opening records what it receives exactly when neither amount is negative |
| StateChannels.ClosePaysCollateralIff | contracts/state_channel/src/lib.rs:360-374 | closing pays the collateral exactly when neither latest balance is negative |
| StateChannels.NegativeAmountIsAccepted | contracts/state_channel/src/lib.rs:108-110 | ten locked against minus three is accepted and recorded as seven |
| StateChannels.NegativeProofIsAccepted | contracts/state_channel/src/lib.rs:201-204 | a proof of a hundred against minus ninety, disputed and closed on one signature, pays a hundred out of a channel of ten; another channel of the token can then not be closed although no check refuses it |
| StateChannels.LargestNonceIsLast | contracts/state_channel/src/lib.rs:175-199 | one party alone can dispute an open channel with the largest nonce, and no dispute ever succeeds after that |
| StateChannels.DisputeNoncesIncrease | contracts/state_channel/src/lib.rs:197-199 | a later accepted dispute carries a strictly larger nonce |
| StateChannels.NonceNeverFalls | contracts/state_channel/src/lib.rs:197-225 | no call lowers a nonce, and a closed channel never changes |
| StateChannels.DisputeXorClose | contracts/state_channel/src/lib.rs:206-213 | a disputed channel never admits both a dispute and a close; when the end of the window fits u64 either party can close exactly from then on |
| StateChannels.BlockedIffWindowOverflows | contracts/state_channel/src/lib.rs:347-350 | a disputed channel can at no time be disputed further or closed exactly when the end of its window overflows u64 |
| StateChannels.ChallengeStillCloses | contracts/state_channel/src/lib.rs:283-324 | then only an invalid transition still closes it, for the other party |
| StateChannels.OverflowingWindowIsAccepted | contracts/state_channel/src/lib.rs:98-231 | the longest window, disputed at time 1, is accepted and overflows |
| Indexers.PostgresIndexerStore.AppendLedger | backend/src/indexer/store.ts:124-203 | the transaction appends the linked successor or repeats the checkpoint, or is rolled back |
| Indexers.PostgresIndexerStore.RollbackTo | backend/src/indexer/store.ts:205-247 | the transaction truncates to a stored ledger or to nothing, or is rolled back |
| Indexers.InMemoryIndexerStore.AppendLedger | backend/src/indexer/store.ts:27-42 | appends the linked successor, or throws unchanged |
| Indexers.InMemoryIndexerStore.RollbackTo | backend/src/indexer/store.ts:44-57 | truncates, and keeps the deletion when it throws on a missing ledger |
| Indexers.AppendRule | backend/src/indexer/store.ts:124-204 | on a run exactly the first ledger, a repeat of the newest, or the linked successor is taken, and it becomes the checkpoint |
| Indexers.RollbackRule | backend/src/indexer/store.ts:205-247 | on a run a rollback goes exactly to 0 or below or to a stored ledger, and keeps exactly what is up to it |
| Indexers.OpsKeepRun | backend/src/indexer/store.ts:124-247 | any interleaving of append and rollback transactions keeps one contiguous hash-linked run topped by the checkpoint, given appended sequences of at least 1, as the indexer appends and the tables do not demand |
| Indexers.UncheckedRollbackKeepsRunIff | backend/src/indexer/store.ts:205-220 | a rollback to 0 or below leaves a run exactly when no ledger is stored at or below its target |
| Indexers.LedgerZeroBreaksRun | backend/src/indexer/store.ts:205-220 | ledger 0 appended and rolled back to 0 stays behind without a checkpoint |
| Indexers.StoresAgree | backend/src/indexer/store.ts:27-57 | on a run both stores do the same on every non-repeated append and every successful rollback |
| Indexers.MemoryRollbackKeepsRunIff | backend/src/indexer/store.ts:44-57 | the in-memory rollback keeps the run exactly when its target is not a positive number below the run |
| Indexers.MemoryRollbackBreaksRun | backend/src/indexer/store.ts:44-57 | a store of ledger 5 alone, rolled back to 3, throws, has lost it and keeps it as checkpoint |
| FinalityIndexers.FinalityIndexer.Create | backend/src/indexer/listener.ts:78-95 | the options are accepted exactly when each is in range, with the defaults applied |
| FinalityIndexers.FinalityIndexer.FindCommonAncestor | backend/src/indexer/listener.ts:166-184 | returns the newest agreeing stored ledger in the window; 0 or nothing otherwise, as the floor and the candidates decide |
| FinalityIndexers.FinalityIndexer.Reconcile | backend/src/indexer/listener.ts:103-121 | a checkpoint that is not canonical is rolled back to that ancestor, keeping exactly the ledgers up to it, or nothing changes |
| FinalityIndexers.FinalityIndexer.Commit | backend/src/indexer/listener.ts:123-151 | keeps what is stored and appends the source's ledgers of the range, each linked, stopping at the first that is missing or unlinked, with the checkpoint on the last |
| FinalityIndexers.FinalityIndexer.Sync | backend/src/indexer/listener.ts:97-164 | the new store is the old one up to where the sync resumes, the canonical checkpoint or else the ancestor found, followed by the reported number of the source ledgers; nothing stored is lost while the checkpoint is canonical, nothing past the finalized sequence is appended, and against a linked source a returning sync leaves every stored ledger canonical |
| FinalityIndexers.AgreementIsPrefix | backend/src/indexer/listener.ts:166-184 | against a linked source agreement at one stored sequence carries down to all below |
| RateLimiters.RateLimiter.Sweep | backend/src/middleware/rateLimiter.ts:68-75 | at most once a minute, exactly the keys whose newest timestamp has left the window are dropped |
| RateLimiters.RateLimiter.Handle | backend/src/middleware/rateLimiter.ts:77-114 | prunes, then records the request below the limit or refuses it with its reset |
| RateLimiters.AtMostMaxPerWindow | backend/src/middleware/rateLimiter.ts:65-115 | with a clock that does not go back, every half-open window of length windowMs admits at most max requests of a key, over the whole run and through sweeps |
| RateLimiters.AllowedIffRoom | backend/src/middleware/rateLimiter.ts:77-114 | a request is let through and recorded exactly when fewer than max of its key were in the last windowMs; the response counts what is left and gives the window end rounded up |
| RateLimiters.SweepIsInvisible | backend/src/middleware/rateLimiter.ts:68-83 | sweeping changes no response, and leaves no key whose newest entry has expired |
| RateLimiters.AdmittedExactlyFromReset | backend/src/middleware/rateLimiter.ts:88-101 | a rejected key not used in between is admitted exactly from its reported reset on, and the reported wait is long enough |
| Base32s.Base32Decode | zk/src/strkey.ts:18-38 | despite the wrapping 32-bit accumulator the bytes are the exact quotient of the base-32 number; other characters are refused |
| Base32s.DecodeEncode | zk/src/strkey.ts:18-38 | decoding inverts base32 encoding (section 6 of RFC 4648) of whole bytes |
| Base32s.EncodeDecode | zk/src/strkey.ts:18-38 | a string of whole bytes is the only encoding of its bytes |
| Crc16s.Crc16Xmodem | zk/src/strkey.ts:41-57 | the shift-xor loop returns the bit-by-bit CRC-16/XMODEM |
| Crc16s.ShiftedIsBitwise | zk/src/strkey.ts:44-54 | on any register and byte one shift-xor step is eight steps of the division by 0x1021 |
| Strkeys.DecodeEd25519PublicKey | zk/src/strkey.ts:64-83 | returns the key of the checked address, or the first failing check's error |
| Strkeys.DecodeIffEncode | zk/src/strkey.ts:64-83 | exactly the strkey encodings of 32-byte keys are accepted, each as its own key |
| Strkeys.AddressToLimbs | zk/src/strkey.ts:100-106 | the two limbs are the big-endian halves of the decoded key |
| Strkeys.LimbsAreHalves | zk/src/strkey.ts:85-106 | the first limb is the more significant half: hi * 2^128 + lo is the key as a 256-bit number |
| Strkeys.LimbsIdentifyAddress | zk/src/strkey.ts:93-106 | each limb fits 128 bits and no two accepted addresses share both |

## Left out

- Ids and counts: the exact counters are stated for issuers of fewer than 2^32 commitments; above that the u32 counters saturate.
- Committees: the majority results assume at most 2^32 - 1 arbitrators, the length limit of the host's vectors.
- FinalityIndexers.FinalityIndexer.Sync: the commit hook, metrics and a source that changes during one sync are not modelled; every call uses one fixed answer per sequence.
- StateProofGeneration.StateProofGenerator.FetchScoreData: the RPC server is a parameter with one answer per address; how the answer is read out of XDR is not modelled.
- Hash fields with characters outside ASCII: their lower-casing may change lengths.
- RangeProof.GeneratedProofVerifies: completeness only. The documented range check does not hold (RangeProof.ProvableIffNotMultiple); that a prover knows an opening of the commitment is a cryptographic assumption and not claimed.
- RegistryContracts.RegistryContract.Attest: event emission, storage expiry and the reentrancy flag are not state here; one call is one step.
- RegistryContracts.RegistryContract.Upgrade: who holds upgrade authority is not modelled, so any caller may move the schema; the invariants hold all the same.
- RegistryPanelVotes.VotesSettleIff: the votes are all on one dispute and at one time; over continuations in which other calls stake, lock or release members in between, only RegistryPanelVotes.OutOfReachForever is stated, since a lock released by one dispute can be taken again by another.
- StateProofs.VerifyBatch: numbers that are not integers of the schema's widths are left out.
- StateProofs.VerifySingle: likewise.
- Self-payment: a party that is the contract's own address is not modelled.
- Direct token donations to the contract: the vault equation counts what its own entrypoints move.
- Stake locks when two open disputes share an attestor: the lock is one flag, and no claim is made that it stays held.
- Legacy records: decoding commitments stored before milestones, resolvers or packed counters, and the single-arbitrator key.
- Read-only entrypoints, restoration of archived entries, and fee, rollup and event bookkeeping of the registry: they add only easy members.
- `getMultiProof`, `getCompactMultiProof` and the leaf-set rebuild of `zk/src/tree.ts`, `rollup.rs` and `contracts/fraud_verifier`: the full-tree or single-path form of the results above.
- Rate limiter responses: the header texts; the numbers in them are modelled.
- Key encodings of `addressToBytes32` other than the strkey decoder.
- HTTP routes, the web client, Soroban RPC and XDR, SQL text, Redis, sockets, metrics, logging and key management.
