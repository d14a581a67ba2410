/**
 The on-chain side, `contracts/registry/src/he_reputation.rs`: 128-bit modular arithmetic,
 the range-proof verifier, ciphertext limbs, and the encrypted reputation rows.

 Every intermediate value has a fixed-width type, so verification also shows that no
 operation leaves its width (the contract is built with overflow checks on).
 */
module HeReputation {
  import opened Wrappers
  import opened Integers
  import opened NumberTheory
  import opened ModularArithmetic
  import opened CompactPrime
  import opened Paillier
  import opened RangeProof

  const PAILLIER_N: word64 := 0xFFFF_FFFF_FFFF_FFC5
  const PAILLIER_N_SQ: word128 := (PAILLIER_N as word128) * (PAILLIER_N as word128)

  lemma OnChainModulus()
    ensures PAILLIER_N as int == COMPACT_N
    ensures PAILLIER_N_SQ as int == COMPACT_N * COMPACT_N < TWO_128
  {
  }

  // ------------------------------------------------------ modular arithmetic

  /** `add_mod`: the comparison avoids forming `a + b` when it would pass `m`. */
  function AddMod(a: word128, b: word128, m: word128): (r: word128)
    requires m != 0
    ensures r as int == (a as int + b as int) % (m as int)
  {
    var x, y := a % m, b % m;
    SumResidue(a as int, b as int, m as int);
    if m - x <= y then x - (m - y) else x + y
  }

  lemma SumResidue(a: nat, b: nat, m: nat)
    requires m > 0
    ensures var s := a % m + b % m; (a + b) % m == (if s >= m then s - m else s)
  {
    ModMod(a, m);
    ModMod(b, m);
    CongruentAdd(a, a % m, b, b % m, m);
    var s := a % m + b % m;
    DivModUnique(s, m, if s >= m then 1 else 0, if s >= m then s - m else s);
  }

  function MulModSpec(a: word128, b: word128, m: word128): word128
    requires m != 0
  {
    ((a as int * b as int) % m as int) as word128
  }

  /** One round of Russian-peasant multiplication keeps `result + a b` fixed modulo `m`. */
  lemma PeasantStep(result: nat, a: nat, b: nat, m: nat)
    requires m > 0
    ensures var r := if b % 2 == 1 then (result + a) % m else result;
            (r + ((a + a) % m) * (b / 2)) % m == (result + a * b) % m
  {
    var h := b / 2;
    var d, s := (a + a) * h, ((a + a) % m) * h;
    MulMod(a + a, h, m);
    HalveFactor(a, b);
    if b % 2 == 1 {
      ModMod(result + a, m);
      CongruentAdd((result + a) % m, result + a, s, d, m);
    } else {
      CongruentAdd(result, result, s, d, m);
    }
  }

  lemma HalveFactor(a: nat, b: nat)
    ensures a * b == (if b % 2 == 1 then a else 0) + (a + a) * (b / 2)
  {
    var h := b / 2;
    assert (a + a) * h == a * (2 * h);
    assert b % 2 == 1 ==> a * b == a * (2 * h) + a;
  }

  /** `mul_mod`: `(a b) mod m` for every non-zero 128-bit modulus. */
  method MulMod128(a: word128, b: word128, m: word128) returns (result: word128)
    requires m != 0
    ensures result == MulModSpec(a, b, m)
  {
    result := 0;
    var x, y := a % m, b % m;
    ghost var target := (a as int * b as int) % (m as int);
    MulMod(a as int, b as int, m as int);
    while y > 0
      invariant result < m
      invariant (result as int + (x as int) * (y as int)) % (m as int) == target
      decreases y
    {
      PeasantStep(result as int, x as int, y as int, m as int);
      if y % 2 == 1 {
        result := AddMod(result, x, m);
      }
      x := AddMod(x, x, m);
      y := y / 2;
    }
    DivModUnique(result as int, m as int, 0, result as int);
  }

  /** `mod_pow`: `base^exp mod m`, the value of the unbounded `modPow`. */
  method ModPow128(base: word128, exp: word128, modulus: word128) returns (result: word128)
    requires modulus != 0
    ensures result as int == ModExp(base as int, exp as int, modulus as int)
  {
    if modulus == 1 {
      return 0;
    }
    result := 1;
    var b, e := base % modulus, exp;
    ghost var m: nat := modulus as int;
    ghost var target := Pow(base as int, exp as int) % m;
    ModMod(base as int, m);
    CongruentPow(b as int, base as int, exp as int, m);
    while e > 0
      invariant result < modulus
      invariant (result as int * Pow(b as int, e as int)) % m == target
      decreases e
    {
      ModPowStep(result as int, b as int, e as int, m);
      if e % 2 == 1 {
        result := MulMod128(result, b, modulus);
      }
      b := MulMod128(b, b, modulus);
      e := e / 2;
    }
    assert result as int * Pow(b as int, 0) == result as int;
    DivModUnique(result as int, m, 0, result as int);
  }

  // ------------------------------------------------------------- range proofs

  datatype ChainProof = ChainProof(commitment: word64, witnessA: word64, witnessB: word64)

  function WrappingMul(a: word128, b: word128): word128 {
    ((a as int * b as int) % TWO_128) as word128
  }

  function WrappingAdd(a: word128, b: word128): word128 {
    ((a as int + b as int) % TWO_128) as word128
  }

  function Xor128(a: word128, b: word128): (r: word128)
    ensures r as int == Xor(a as int, b as int)
  {
    XorFits(a as int, b as int, 128);
    Xor(a as int, b as int) as word128
  }

  function Truncate64(x: word128): word64 {
    (x as int % TWO_64) as word64
  }

  /** `fiat_shamir_challenge`, in wrapping 128-bit arithmetic. */
  method FiatShamirChallenge128(commitment: word64, pkN: word64) returns (c: word64)
    ensures c as int == Challenge(commitment as int, pkN as int)
  {
    var state := WrappingMul(commitment as word128, MIX_C as word128);
    state := Xor128(state, WrappingMul(PEDERSEN_G as word128, MIX_G as word128));
    ghost var s1 := Xor((commitment as int * MIX_C) % TWO_128, PEDERSEN_G * MIX_G);
    Narrow(PEDERSEN_G * MIX_G);
    assert state as int == s1;
    Narrow(s1);
    state := WrappingAdd(state, WrappingMul(PEDERSEN_H as word128, MIX_H as word128));
    Narrow(PEDERSEN_H * MIX_H);
    ghost var s2 := (s1 + PEDERSEN_H * MIX_H) % TWO_128;
    assert state as int == s2;
    ProductFits(pkN as int);
    Narrow(pkN as int * MIX_N);
    state := Xor128(state, WrappingMul(pkN as word128, MIX_N as word128));
    Narrow(state as int);
    assert state as int == MixedState(commitment as int, pkN as int);
    var folded := Truncate64(Xor128(state, state / (TWO_64 as word128)));
    c := folded % PAILLIER_N;
    if c == 0 {
      c := 1;
    }
  }

  lemma Narrow(x: nat)
    requires x < TWO_128
    ensures x % TWO_128 == x
  {
    DivModUnique(x, TWO_128, 0, x);
  }

  lemma ProductFits(n: nat)
    requires n < TWO_64
    ensures n * MIX_N < TWO_128
  {
    assert n * MIX_N <= TWO_64 * MIX_N;
  }

  function OffChain(proof: ChainProof): Proof {
    Proof(proof.commitment as int, proof.witnessA as int, proof.witnessB as int)
  }

  /** `verify_range_proof` accepts exactly what the off-chain pre-flight check accepts. */
  method VerifyRangeProof128(proof: ChainProof, pkN: word64) returns (ok: bool)
    ensures ok <==> VerifyRangeProof(OffChain(proof), pkN as int)
  {
    OnChainModulus();
    var n := PAILLIER_N as word128;
    var ga := ModPow128(PEDERSEN_G as word128, proof.witnessA as word128, n);
    var hb := ModPow128(PEDERSEN_H as word128, proof.witnessB as word128, n);
    var lhs := MulMod128(ga, hb, n);
    var challenge := FiatShamirChallenge128(proof.commitment, pkN);
    var rhs := ModPow128(proof.commitment as word128, challenge as word128, n);
    ok := lhs == rhs;
  }

  /**
   A proof generated off chain, with a non-negative blinding, fits the contract's 64-bit
   fields and is one the contract accepts.
   */
  lemma GeneratedProofFitsChain(rating: int, blinding: nat, pkN: word64)
    requires RATING_MIN <= rating <= RATING_MAX
    ensures var g := GenerateRangeProof(rating, blinding, pkN as int);
            && g.Ok?
            && g.value.commitment < TWO_64 && 0 <= g.value.witnessA < TWO_64 && 0 <= g.value.witnessB < TWO_64
            && var chain := ChainProof(g.value.commitment as word64, g.value.witnessA as word64,
                                       g.value.witnessB as word64);
               VerifyRangeProof(OffChain(chain), pkN as int)
  {
    GeneratedProofVerifies(rating, blinding, pkN as int);
    var proof := GenerateRangeProof(rating, blinding, pkN as int).value;
    var c := Challenge(proof.commitment, pkN as int);
    WitnessBound(rating, c, PEDERSEN_P - 1);
    WitnessBound(blinding, c, PEDERSEN_P - 1);
  }

  /**
   The range is not enforced: the contract accepts some proof for exactly the commitments
   that the modulus does not divide, whatever they commit to.
   */
  lemma ChainProofExistsIff(commitment: word64, pkN: word64)
    ensures (exists a: word64, b: word64 :: VerifyRangeProof(OffChain(ChainProof(commitment, a, b)), pkN as int))
            <==> commitment as int % PEDERSEN_P != 0
  {
    ProvableIffNotMultiple(commitment as int, pkN as int);
    if commitment as int % PEDERSEN_P != 0 {
      var a := ProofFor(commitment as int, pkN as int);
      assert VerifyRangeProof(OffChain(ChainProof(commitment, a as word64, 0)), pkN as int);
    } else {
      forall a: word64, b: word64 ensures !VerifyRangeProof(OffChain(ChainProof(commitment, a, b)), pkN as int) {
        assert OffChain(ChainProof(commitment, a, b)) == Proof(commitment as int, a as int, b as int);
      }
    }
  }

  /** One constant proof passes under every key, so any ciphertext can be accumulated. */
  lemma ConstantProofIsAccepted(pkN: word64)
    ensures VerifyRangeProof(OffChain(ChainProof(1, 0, 0)), pkN as int)
  {
    ConstantProofVerifies(pkN as int);
    assert OffChain(ChainProof(1, 0, 0)) == Proof(1, 0, 0);
  }

  lemma WitnessBound(e: nat, c: nat, m: nat)
    requires m > 0
    ensures 0 <= Rem(e * c, m) < m
  {
    assert e * c >= 0;
  }

  // ------------------------------------------------------- ciphertext limbs

  datatype EncryptedScore = EncryptedScore(lo: word64, hi: word64, count: word32)

  function FromU128(value: word128, count: word32): EncryptedScore {
    EncryptedScore(Truncate64(value), (value as int / TWO_64) as word64, count)
  }

  function ToU128(s: EncryptedScore): word128 {
    (s.hi as int * TWO_64 + s.lo as int) as word128
  }

  /** `toEncryptedScore` on an arbitrary BigInt: both limbs are masked to 64 bits. */
  function ToEncryptedScore(value: nat, count: word32): EncryptedScore {
    EncryptedScore((value % TWO_64) as word64, ((value / TWO_64) % TWO_64) as word64, count)
  }

  /** The limbs carry a value faithfully exactly when it is below `2^128`. */
  lemma LimbsRoundTrip(value: nat, count: word32)
    ensures ToU128(ToEncryptedScore(value, count)) as int == value <==> value < TWO_128
    ensures value < TWO_128 ==> ToEncryptedScore(value, count) == FromU128(value as word128, count)
  {
    var h := value / TWO_64;
    if value < TWO_128 {
      assert h < TWO_64;
      DivModUnique(h, TWO_64, 0, h);
    }
  }

  lemma SplitThenJoin(s: EncryptedScore)
    ensures FromU128(ToU128(s), s.count) == s
  {
    DivModUnique(ToU128(s) as int, TWO_64, s.hi as int, s.lo as int);
  }

  // ------------------------------------------------- homomorphic operations

  function SaturatingAdd(a: word32, b: word32): word32 {
    if a as int + b as int > 0xFFFF_FFFF then 0xFFFF_FFFF else a + b
  }

  method EncAdd128(a: EncryptedScore, b: EncryptedScore) returns (r: EncryptedScore)
    ensures r == EncAddScore(a, b)
  {
    OnChainModulus();
    var product := MulMod128(ToU128(a), ToU128(b), PAILLIER_N_SQ);
    r := FromU128(product, SaturatingAdd(a.count, b.count));
  }

  function EncAddScore(a: EncryptedScore, b: EncryptedScore): EncryptedScore {
    FromU128(MulModSpec(ToU128(a), ToU128(b), PAILLIER_N_SQ), SaturatingAdd(a.count, b.count))
  }

  method EncScale128(ct: EncryptedScore, k: word64) returns (r: EncryptedScore)
    ensures r == EncScaleScore(ct, k)
  {
    var power := ModPow128(ToU128(ct), k as word128, PAILLIER_N_SQ);
    r := FromU128(power, ct.count);
  }

  function EncScaleScore(ct: EncryptedScore, k: word64): EncryptedScore {
    FromU128(ModExp(ToU128(ct) as int, k as int, PAILLIER_N_SQ as int) as word128, ct.count)
  }

  /** `enc_negate`: subtraction from `n^2`; an oversized value trips the overflow check. */
  function EncNegateScore(ct: EncryptedScore): Option<EncryptedScore> {
    var value := ToU128(ct);
    if value == 0 then Some(FromU128(0, ct.count))
    else if value > PAILLIER_N_SQ then None
    else Some(FromU128(PAILLIER_N_SQ - value, ct.count))
  }

  /** `compute_encrypted_score`; `None` is the overflow panic of `enc_negate`. */
  method ComputeEncryptedScore128(f: EncryptedScore, l: EncryptedScore, b: EncryptedScore)
    returns (r: Option<EncryptedScore>)
    ensures r == OnChainScore(f, l, b)
  {
    var base := FromU128(BaseCiphertext(), 1);
    var scoredF := EncScale128(f, FULFILLED_WEIGHT as word64);
    var negL := EncNegateScore(l);
    if negL.None? { return None; }
    var scoredL := EncScale128(negL.value, LATE_WEIGHT as word64);
    var negB := EncNegateScore(b);
    if negB.None? { return None; }
    var scoredB := EncScale128(negB.value, BREACH_WEIGHT as word64);
    var acc := EncAdd128(base, scoredF);
    acc := EncAdd128(acc, scoredL);
    acc := EncAdd128(acc, scoredB);
    r := Some(acc);
  }

  function BaseCiphertext(): word128 {
    (1 + (BASE_SCORE as word128) * (PAILLIER_N as word128)) % PAILLIER_N_SQ
  }

  function OnChainScore(f: EncryptedScore, l: EncryptedScore, b: EncryptedScore): Option<EncryptedScore> {
    var negL, negB := EncNegateScore(l), EncNegateScore(b);
    if negL.None? || negB.None? then None
    else
      var base := FromU128(BaseCiphertext(), 1);
      Some(EncAddScore(EncAddScore(EncAddScore(base, EncScaleScore(f, FULFILLED_WEIGHT as word64)),
                                   EncScaleScore(negL.value, LATE_WEIGHT as word64)),
                       EncScaleScore(negB.value, BREACH_WEIGHT as word64)))
  }

  /** Joining freshly split limbs gives the value back. */
  lemma JoinAfterSplit(value: word128, count: word32)
    ensures ToU128(FromU128(value, count)) == value
  {
  }

  lemma AddMatchesOffChain(a: EncryptedScore, b: EncryptedScore)
    ensures ToU128(EncAddScore(a, b)) as int == EncAdd(CompactPublicKey(), ToU128(a) as int, ToU128(b) as int)
  {
    OnChainModulus();
    JoinAfterSplit(MulModSpec(ToU128(a), ToU128(b), PAILLIER_N_SQ), SaturatingAdd(a.count, b.count));
  }

  lemma ScaleMatchesOffChain(a: EncryptedScore, k: word64)
    ensures ToU128(EncScaleScore(a, k)) as int == EncScale(CompactPublicKey(), ToU128(a) as int, k as int)
  {
    OnChainModulus();
    JoinAfterSplit(ModExp(ToU128(a) as int, k as int, PAILLIER_N_SQ as int) as word128, a.count);
  }

  lemma {:induction false} EvenPowerOfNegation(x: int, h: nat)
    ensures Pow(-x, h + h) == Pow(x, h + h)
  {
    PowAdd(-x, h, h);
    PowAdd(x, h, h);
    PowMulBase(-x, -x, h);
    PowMulBase(x, x, h);
    assert (-x) * (-x) == x * x;
  }

  /** Under an even weight the subtracted ciphertext scales like the original one. */
  lemma NegationLostUnderEvenWeight(ct: EncryptedScore, h: nat)
    requires 0 < ToU128(ct) < PAILLIER_N_SQ && 2 * h < TWO_64
    ensures EncNegateScore(ct).Some?
    ensures ToU128(EncScaleScore(EncNegateScore(ct).value, (2 * h) as word64))
            == ToU128(EncScaleScore(ct, (2 * h) as word64))
  {
    OnChainModulus();
    var m := PAILLIER_N_SQ as int;
    var x := ToU128(ct) as int;
    JoinAfterSplit(PAILLIER_N_SQ - ToU128(ct), ct.count);
    assert m - x == -x + 1 * m;
    ModAddMultiple(-x, 1, m);
    CongruentPow(m - x, -x, 2 * h, m);
    EvenPowerOfNegation(x, h);
    JoinAfterSplit(ModExp(x, 2 * h, m) as word128, ct.count);
    JoinAfterSplit(ModExp(m - x, 2 * h, m) as word128, ct.count);
  }

  /** The score's ciphertext is an encryption of `m` under the compact key. */
  ghost predicate Holds(s: EncryptedScore, m: nat) {
    exists r: nat :: HoldsWith(s, m, r)
  }

  ghost predicate HoldsWith(s: EncryptedScore, m: nat, r: nat) {
    Encodes(COMPACT_N, ToU128(s) as int, m, r)
  }

  /** Off-chain decryption under the service key. */
  ghost function ServiceDecrypt(s: EncryptedScore): int {
    ServiceKeyCanDecrypt();
    Decrypt(ServiceKey().value, ToU128(s) as int)
  }

  lemma BaseHolds()
    ensures Holds(FromU128(BaseCiphertext(), 1), BASE_SCORE)
  {
    OnChainModulus();
    BaseEncodes(CompactPublicKey(), BASE_SCORE);
    GeneratorPower(COMPACT_N, BASE_SCORE);
    DivModUnique(BASE_SCORE, COMPACT_N, 0, BASE_SCORE);
    var c := 1 + BASE_SCORE * COMPACT_N;
    DivModUnique(c, COMPACT_N * COMPACT_N, 0, c);
    assert BaseCiphertext() as int == c;
    JoinAfterSplit(BaseCiphertext(), 1);
    assert HoldsWith(FromU128(BaseCiphertext(), 1), BASE_SCORE, 1);
  }

  lemma AddHolds(a: EncryptedScore, m: nat, b: EncryptedScore, l: nat)
    requires Holds(a, m) && Holds(b, l)
    ensures Holds(EncAddScore(a, b), m + l)
  {
    var r: nat :| HoldsWith(a, m, r);
    var s: nat :| HoldsWith(b, l, s);
    AddMatchesOffChain(a, b);
    AddEncodes(CompactPublicKey(), ToU128(a) as int, ToU128(b) as int, m, l, r, s);
    assert HoldsWith(EncAddScore(a, b), m + l, r * s);
  }

  lemma ScaleHolds(a: EncryptedScore, m: nat, k: word64)
    requires Holds(a, m)
    ensures m * k as int >= 0 && Holds(EncScaleScore(a, k), m * k as int)
  {
    var r: nat :| HoldsWith(a, m, r);
    ScaleMatchesOffChain(a, k);
    ScaleEncodes(CompactPublicKey(), ToU128(a) as int, m, r, k as int);
    assert HoldsWith(EncScaleScore(a, k), m * k as int, Pow(r, k as int));
  }

  lemma DecryptHolds(s: EncryptedScore, m: nat)
    requires Holds(s, m)
    ensures ServiceDecrypt(s) == m % COMPACT_N
  {
    ServiceKeyCanDecrypt();
    var r: nat :| HoldsWith(s, m, r);
    DecryptEncoded(ServiceKey().value, ToU128(s) as int, m, r);
  }

  lemma HoldsNonZero(s: EncryptedScore, m: nat)
    requires Holds(s, m)
    ensures ToU128(s) > 0
  {
    ServiceKeyCanDecrypt();
    var r: nat :| HoldsWith(s, m, r);
    EncodingIsPositive(ServiceKey().value, ToU128(s) as int, m, r);
  }

  /** Scaling the contract's negation by an even weight encodes the un-negated count. */
  lemma NegatedScaleHolds(s: EncryptedScore, m: nat, h: nat)
    requires Holds(s, m) && ToU128(s) < PAILLIER_N_SQ && 2 * h < TWO_64
    ensures EncNegateScore(s).Some?
    ensures m * (2 * h) >= 0 && Holds(EncScaleScore(EncNegateScore(s).value, (2 * h) as word64), m * (2 * h))
  {
    HoldsNonZero(s, m);
    NegationLostUnderEvenWeight(s, h);
    ScaleHolds(s, m, (2 * h) as word64);
  }

  /**
   What the contract's score actually encodes. Both penalty weights are even, so the
   subtraction stand-in for negation is lost and late and breached counts are added:
   the result decrypts to `50 + 10 f + 10 l + 50 b`.
   */
  lemma OnChainScoreAddsPenalties(cf: EncryptedScore, f: nat, cl: EncryptedScore, l: nat, cb: EncryptedScore, b: nat)
    requires Holds(cf, f) && Holds(cl, l) && Holds(cb, b)
    requires ToU128(cl) < PAILLIER_N_SQ && ToU128(cb) < PAILLIER_N_SQ
    ensures OnChainScore(cf, cl, cb).Some?
    ensures ServiceDecrypt(OnChainScore(cf, cl, cb).value) == (50 + 10 * f + 10 * l + 50 * b) % COMPACT_N
  {
    BaseHolds();
    ScaleHolds(cf, f, 10);
    NegatedScaleHolds(cl, l, 5);
    NegatedScaleHolds(cb, b, 25);
    var base, sf := FromU128(BaseCiphertext(), 1), EncScaleScore(cf, 10);
    var sl := EncScaleScore(EncNegateScore(cl).value, 10);
    var sb := EncScaleScore(EncNegateScore(cb).value, 50);
    var a1 := EncAddScore(base, sf);
    var a2 := EncAddScore(a1, sl);
    AddHolds(base, 50, sf, f * 10);
    AddHolds(a1, 50 + f * 10, sl, l * 10);
    AddHolds(a2, 50 + f * 10 + l * 10, sb, b * 50);
    DecryptHolds(EncAddScore(a2, sb), 50 + f * 10 + l * 10 + b * 50);
  }

  /** The contract's score decrypts to the documented formula iff `20 l + 100 b` vanishes modulo `n`. */
  lemma OnChainScoreCorrectIff(cf: EncryptedScore, f: nat, cl: EncryptedScore, l: nat, cb: EncryptedScore, b: nat)
    requires Holds(cf, f) && Holds(cl, l) && Holds(cb, b)
    requires ToU128(cl) < PAILLIER_N_SQ && ToU128(cb) < PAILLIER_N_SQ
    ensures OnChainScore(cf, cl, cb).Some?
    ensures ServiceDecrypt(OnChainScore(cf, cl, cb).value) == LinearScore(f, l, b) % COMPACT_N
            <==> (20 * l + 100 * b) % COMPACT_N == 0
  {
    OnChainScoreAddsPenalties(cf, f, cl, l, cb, b);
    SameResidueIff(LinearScore(f, l, b), 20 * l + 100 * b, COMPACT_N);
  }

  lemma SameResidueIff(t: int, d: int, m: nat)
    requires m > 0
    ensures (t + d) % m == t % m <==> d % m == 0
  {
    if d % m == 0 {
      ModAddMultiple(t, d / m, m);
    }
    if (t + d) % m == t % m {
      var k := CongruentWitness(t + d, t, m);
      MultipleMod(k, m);
    }
  }

  // ------------------------------------------------------ accumulation on chain

  datatype EncryptedReputation = EncryptedReputation(
    encFulfilled: EncryptedScore, encLate: EncryptedScore, encBreached: EncryptedScore, updatedLedger: word32)

  datatype ContractError = InvalidRangeProof

  function EmptyReputation(now: word32): EncryptedReputation {
    EncryptedReputation(FromU128(1, 0), FromU128(1, 0), FromU128(1, 0), now)
  }

  function AddOutcome(rep: EncryptedReputation, kind: word32, outcome: EncryptedScore, now: word32)
    : EncryptedReputation
  {
    if kind == 0 then rep.(encFulfilled := EncAddScore(rep.encFulfilled, outcome), updatedLedger := now)
    else if kind == 1 then rep.(encLate := EncAddScore(rep.encLate, outcome), updatedLedger := now)
    else rep.(encBreached := EncAddScore(rep.encBreached, outcome), updatedLedger := now)
  }

  /** The persistent `EncryptedReputation` rows of the contract. */
  class EncryptedRows {
    var rows: map<string, EncryptedReputation>

    constructor ()
      ensures rows == map[]
    {
      rows := map[];
    }

    /** `accumulate_encrypted_outcome`; a panic leaves the rows untouched. */
    method Accumulate(address: string, outcome: EncryptedScore, kind: word32, proof: ChainProof, pkN: word64,
                      now: word32)
      returns (r: Result<(), ContractError>)
      modifies this
      ensures r.Ok? <==> VerifyRangeProof(OffChain(proof), pkN as int)
      ensures r.Err? ==> rows == old(rows)
      ensures r.Ok? ==>
                var row := if address in old(rows) then old(rows)[address] else EmptyReputation(now);
                rows == old(rows)[address := AddOutcome(row, kind, outcome, now)]
    {
      var ok := VerifyRangeProof128(proof, pkN);
      if !ok {
        return Err(InvalidRangeProof);
      }
      var rep := if address in rows then rows[address] else EmptyReputation(now);
      if kind == 0 {
        var sum := EncAdd128(rep.encFulfilled, outcome);
        rep := rep.(encFulfilled := sum);
      } else if kind == 1 {
        var sum := EncAdd128(rep.encLate, outcome);
        rep := rep.(encLate := sum);
      } else {
        var sum := EncAdd128(rep.encBreached, outcome);
        rep := rep.(encBreached := sum);
      }
      rep := rep.(updatedLedger := now);
      rows := rows[address := rep];
      r := Ok(());
    }
  }

  /** Every kind from 2 on, listed or not, adds to the breached lane and to no other. */
  lemma KindsFromTwoAreBreaches(rep: EncryptedReputation, kind: word32, outcome: EncryptedScore, now: word32,
                                b: nat, v: nat)
    requires kind >= 2 && Holds(rep.encBreached, b) && Holds(outcome, v)
    ensures var next := AddOutcome(rep, kind, outcome, now);
            && next == rep.(encBreached := next.encBreached, updatedLedger := now)
            && ServiceDecrypt(next.encBreached) == (b + v) % COMPACT_N
  {
    AddHolds(rep.encBreached, b, outcome, v);
    DecryptHolds(EncAddScore(rep.encBreached, outcome), b + v);
  }

  /** Kind 0 adds to the fulfilled lane and to no other, kind 1 to the late one. */
  lemma KindsChooseTheirLanes(rep: EncryptedReputation, outcome: EncryptedScore, now: word32, f: nat, l: nat, v: nat)
    requires Holds(rep.encFulfilled, f) && Holds(rep.encLate, l) && Holds(outcome, v)
    ensures var next := AddOutcome(rep, 0, outcome, now);
            && next == rep.(encFulfilled := next.encFulfilled, updatedLedger := now)
            && ServiceDecrypt(next.encFulfilled) == (f + v) % COMPACT_N
    ensures var next := AddOutcome(rep, 1, outcome, now);
            && next == rep.(encLate := next.encLate, updatedLedger := now)
            && ServiceDecrypt(next.encLate) == (l + v) % COMPACT_N
  {
    AddHolds(rep.encFulfilled, f, outcome, v);
    AddHolds(rep.encLate, l, outcome, v);
    DecryptHolds(EncAddScore(rep.encFulfilled, outcome), f + v);
    DecryptHolds(EncAddScore(rep.encLate, outcome), l + v);
  }

  /** The aggregate of a lane after a run of accumulations. */
  function AccumulateAll(start: EncryptedScore, outcomes: seq<EncryptedScore>): EncryptedScore {
    if outcomes == [] then start
    else EncAddScore(AccumulateAll(start, outcomes[..|outcomes| - 1]), outcomes[|outcomes| - 1])
  }

  function Sum(xs: seq<nat>): nat {
    if xs == [] then 0 else Sum(xs[..|xs| - 1]) + xs[|xs| - 1]
  }

  ghost predicate AllHold(outcomes: seq<EncryptedScore>, plain: seq<nat>) {
    && |outcomes| == |plain|
    && forall i :: 0 <= i < |outcomes| ==> Holds(outcomes[i], plain[i])
  }

  lemma {:induction false} AccumulationHoldsSum(outcomes: seq<EncryptedScore>, plain: seq<nat>)
    requires AllHold(outcomes, plain)
    ensures Holds(AccumulateAll(FromU128(1, 0), outcomes), Sum(plain))
  {
    if outcomes == [] {
      OnChainModulus();
      BaseEncodes(CompactPublicKey(), 0);
      JoinAfterSplit(1, 0);
      DivModUnique(1, COMPACT_N * COMPACT_N, 0, 1);
      assert HoldsWith(FromU128(1, 0), 0, 1);
    } else {
      var k := |outcomes| - 1;
      AccumulationHoldsSum(outcomes[..k], plain[..k]);
      AddHolds(AccumulateAll(FromU128(1, 0), outcomes[..k]), Sum(plain[..k]), outcomes[k], plain[k]);
    }
  }

  /** However many outcomes a lane accumulates, it decrypts to their sum modulo `n`. */
  lemma AccumulationDecryptsToSum(outcomes: seq<EncryptedScore>, plain: seq<nat>)
    requires AllHold(outcomes, plain)
    ensures ServiceDecrypt(AccumulateAll(FromU128(1, 0), outcomes)) == Sum(plain) % COMPACT_N
  {
    AccumulationHoldsSum(outcomes, plain);
    DecryptHolds(AccumulateAll(FromU128(1, 0), outcomes), Sum(plain));
  }

  /** A row that was never written holds zero in every lane. */
  lemma EmptyHoldsZero(now: word32)
    ensures var row := EmptyReputation(now);
            && ServiceDecrypt(row.encFulfilled) == 0 && ServiceDecrypt(row.encLate) == 0
            && ServiceDecrypt(row.encBreached) == 0
  {
    var row := EmptyReputation(now);
    FreshLaneHoldsZero(row.encFulfilled);
    FreshLaneHoldsZero(row.encLate);
    FreshLaneHoldsZero(row.encBreached);
  }

  lemma FreshLaneHoldsZero(lane: EncryptedScore)
    requires lane == AccumulateAll(FromU128(1, 0), [])
    ensures ServiceDecrypt(lane) == 0
  {
    AccumulationDecryptsToSum([], []);
  }
}
