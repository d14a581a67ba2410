/**
 The Sigma-style range proof of `backend/src/crypto/bulletproof.ts`.

 Main results: every generated proof is accepted, for every in-range rating, every blinding
 and every transcript modulus; but so is some proof for every commitment that the modulus
 does not divide, as 7 generates all residues, so acceptance bounds no rating.
 */
module RangeProof {
  import opened Wrappers
  import opened NumberTheory
  import opened ModularArithmetic
  import opened Primes
  import opened CompactPrime
  import opened PrimitiveRoot

  const PEDERSEN_P: nat := COMPACT_N
  const PEDERSEN_G: nat := 7
  const PEDERSEN_H: nat := 0x9e3779b97f4a7c15
  const RATING_MIN: nat := 1
  const RATING_MAX: nat := 5

  const TWO_64: nat := 0x1_0000_0000_0000_0000
  const TWO_128: nat := 0x1_0000_0000_0000_0000_0000_0000_0000_0000

  datatype Proof = Proof(commitment: nat, witnessA: int, witnessB: int)

  datatype RangeError = RatingOutOfRange(rating: int)

  // ------------------------------------------------------ bitwise exclusive or

  /** Exclusive or of non-negative integers, bit by bit. */
  function Xor(a: nat, b: nat): nat
    decreases a + b
  {
    if a == 0 && b == 0 then 0
    else 2 * Xor(a / 2, b / 2) + (if a % 2 == b % 2 then 0 else 1)
  }

  lemma {:induction false} XorBound(a: nat, b: nat, k: nat)
    requires a < TwoTo(k) && b < TwoTo(k)
    ensures Xor(a, b) < TwoTo(k)
  {
    if k != 0 && (a != 0 || b != 0) {
      XorBound(a / 2, b / 2, k - 1);
    }
  }

  lemma Doubling(k: nat, v: nat)
    requires TwoTo(k) == v
    ensures TwoTo(2 * k) == v * v
  {
    TwoToAdd(k, k);
  }

  /** Exclusive or stays within 128 bits. */
  lemma XorFits(a: nat, b: nat, width: nat)
    requires width == 128 && a < TWO_128 && b < TWO_128
    ensures Xor(a, b) < TWO_128
  {
    var eighth := width / 16;
    assert TwoTo(eighth) == 256 by { assert TwoTo(8) == 256; }
    Doubling(eighth, 256);
    Doubling(2 * eighth, 256 * 256);
    Doubling(4 * eighth, 0x1_0000_0000);
    Doubling(8 * eighth, TWO_64);
    XorBound(a, b, width);
  }

  // -------------------------------------------------- Fiat-Shamir transcript

  const MIX_C: nat := 0x9e3779b97f4a7c15
  const MIX_G: nat := 0x6c62272e07bb0142
  const MIX_H: nat := 0x94d049bb133111eb
  const MIX_N: nat := 0xbf58476d1ce4e5b9

  /** `fiatShamirChallenge`; masking with `2^128 - 1` is reduction modulo `2^128`. */
  method FiatShamirChallenge(commitment: nat, pkN: nat) returns (c: nat)
    ensures c == Challenge(commitment, pkN)
    ensures 1 <= c < PEDERSEN_P
  {
    var state := (commitment * MIX_C) % TWO_128;
    state := Xor(state, PEDERSEN_G * MIX_G) % TWO_128;
    state := (state + PEDERSEN_H * MIX_H) % TWO_128;
    state := Xor(state, pkN * MIX_N) % TWO_128;
    var folded := Xor(state, state / TWO_64) % TWO_64;
    c := folded % PEDERSEN_P;
    if c == 0 {
      c := 1;
    }
  }

  function MixedState(commitment: nat, pkN: nat): nat {
    var first := Xor((commitment * MIX_C) % TWO_128, PEDERSEN_G * MIX_G) % TWO_128;
    Xor((first + PEDERSEN_H * MIX_H) % TWO_128, pkN * MIX_N) % TWO_128
  }

  function FoldState(state: nat): nat {
    var c := (Xor(state, state / TWO_64) % TWO_64) % PEDERSEN_P;
    if c == 0 then 1 else c
  }

  function Challenge(commitment: nat, pkN: nat): nat {
    FoldState(MixedState(commitment, pkN))
  }

  // ------------------------------------------------ generation, verification

  function Commit(rating: int, blinding: int): nat {
    (ModExpInt(PEDERSEN_G, rating, PEDERSEN_P) * ModExpInt(PEDERSEN_H, blinding, PEDERSEN_P)) % PEDERSEN_P
  }

  function GenerateRangeProof(rating: int, blinding: int, pkN: nat): Result<Proof, RangeError> {
    if rating < RATING_MIN || rating > RATING_MAX then Err(RatingOutOfRange(rating))
    else
      var p := PEDERSEN_P;
      var commitment := Commit(rating, blinding);
      var challenge := Challenge(commitment, pkN);
      Ok(Proof(commitment, Rem(rating * challenge, p - 1), Rem(blinding * challenge, p - 1)))
  }

  predicate VerifyRangeProof(proof: Proof, pkN: nat) {
    var p := PEDERSEN_P;
    var ga := ModExpInt(PEDERSEN_G, proof.witnessA, p);
    var hb := ModExpInt(PEDERSEN_H, proof.witnessB, p);
    var challenge := Challenge(proof.commitment, pkN);
    (ga * hb) % p == ModExpInt(proof.commitment, challenge, p)
  }

  /** The exponent a witness stands for: a negative exponent acts as zero in `modPow`. */
  function Effective(e: int): nat {
    if e < 0 then 0 else e
  }

  lemma ModExpEffective(b: nat, e: int, m: nat)
    requires m > 0
    ensures ModExpInt(b, e, m) == Pow(b, Effective(e)) % m
  {
  }

  /** A witness exponent reduced modulo `p - 1` raises the base as the full product does. */
  lemma WitnessPower(p: nat, base: nat, e: int, c: nat)
    requires IsPrime(p) && !Divides(p, base) && c > 0
    ensures Effective(e) * c >= 0
    ensures ModExpInt(base, Rem(e * c, p - 1), p) == Pow(base, Effective(e) * c) % p
  {
    if e >= 0 {
      assert e * c >= 0;
      FermatReduce(p, base, e * c);
    } else {
      assert e * c < 0;
      assert Effective(Rem(e * c, p - 1)) == 0;
      ModExpEffective(base, Rem(e * c, p - 1), p);
    }
  }

  /** Both sides of the verification equation, over the commitment's representation. */
  lemma SigmaEquation(p: nat, g: nat, h: nat, v: nat, r: nat, c: nat)
    requires p > 0
    ensures v * c >= 0 && r * c >= 0
    ensures (Pow(g, v * c) * Pow(h, r * c)) % p == Pow(((Pow(g, v) % p) * (Pow(h, r) % p)) % p, c) % p
  {
    var x, y := Pow(g, v), Pow(h, r);
    PowPow(g, v, c);
    PowPow(h, r, c);
    PowMulBase(x, y, c);
    MulMod(x, y, p);
    ModMod(x * y, p);
    CongruentPow(((x % p) * (y % p)) % p, x * y, c, p);
  }

  /** Completeness, for any prime modulus dividing neither generator. */
  lemma SigmaCompleteness(p: nat, g: nat, h: nat, v: int, r: int, c: nat)
    requires IsPrime(p) && !Divides(p, g) && !Divides(p, h) && c > 0
    ensures var commitment := (ModExpInt(g, v, p) * ModExpInt(h, r, p)) % p;
            (ModExpInt(g, Rem(v * c, p - 1), p) * ModExpInt(h, Rem(r * c, p - 1), p)) % p
            == ModExpInt(commitment, c, p)
  {
    WitnessPower(p, g, v, c);
    WitnessPower(p, h, r, c);
    var i, j := Effective(v), Effective(r);
    ModExpEffective(g, v, p);
    ModExpEffective(h, r, p);
    SigmaEquation(p, g, h, i, j, c);
    MulMod(Pow(g, i * c), Pow(h, j * c), p);
  }

  lemma GeneratorsAreUnits()
    ensures IsPrime(PEDERSEN_P) && !Divides(PEDERSEN_P, PEDERSEN_G) && !Divides(PEDERSEN_P, PEDERSEN_H)
  {
    CompactModulusIsPrime();
  }

  /** The verifier knows no range: a commitment to any rating, in range or not, has an accepted proof. */
  lemma AnyRatingHasProof(rating: int, blinding: int, pkN: nat)
    ensures var c := Challenge(Commit(rating, blinding), pkN);
            VerifyRangeProof(Proof(Commit(rating, blinding), Rem(rating * c, PEDERSEN_P - 1),
                                   Rem(blinding * c, PEDERSEN_P - 1)), pkN)
  {
    GeneratorsAreUnits();
    var c := Challenge(Commit(rating, blinding), pkN);
    SigmaCompleteness(PEDERSEN_P, PEDERSEN_G, PEDERSEN_H, rating, blinding, c);
  }

  /** Every generated proof verifies; generation fails exactly on out-of-range ratings. */
  lemma GeneratedProofVerifies(rating: int, blinding: int, pkN: nat)
    ensures GenerateRangeProof(rating, blinding, pkN).Ok? <==> RATING_MIN <= rating <= RATING_MAX
    ensures GenerateRangeProof(rating, blinding, pkN).Ok? ==>
              VerifyRangeProof(GenerateRangeProof(rating, blinding, pkN).value, pkN)
  {
    if RATING_MIN <= rating <= RATING_MAX {
      AnyRatingHasProof(rating, blinding, pkN);
    }
  }

  // -------------------------------------------------- what acceptance rules out

  /** An accepted proof with a given commitment, whatever it commits to. */
  lemma ProofFor(commitment: nat, pkN: nat) returns (a: nat)
    requires commitment % PEDERSEN_P != 0
    ensures a < PEDERSEN_P && VerifyRangeProof(Proof(commitment, a, 0), pkN)
  {
    var v := SevenGenerates(PEDERSEN_P, commitment % PEDERSEN_P);
    GeneratorsAreUnits();
    a := WitnessFor(PEDERSEN_P, PEDERSEN_G, PEDERSEN_H, v, commitment, Challenge(commitment, pkN));
  }

  /** A commitment congruent to a power of one generator needs no share of the other. */
  lemma WitnessFor(p: nat, g: nat, h: nat, v: nat, commitment: nat, c: nat) returns (a: nat)
    requires IsPrime(p) && !Divides(p, g) && !Divides(p, h) && Pow(g, v) % p == commitment % p && c > 0
    ensures a < p && (ModExpInt(g, a, p) * ModExpInt(h, 0, p)) % p == ModExpInt(commitment, c, p)
  {
    a := Rem(v * c, p - 1);
    SigmaCompleteness(p, g, h, v, 0, c);
    MulMod(commitment, 1, p);
    CongruentPow((commitment % p * (1 % p)) % p, commitment, c, p);
  }

  /** One constant proof passes under every key. */
  lemma ConstantProofVerifies(pkN: nat)
    ensures VerifyRangeProof(Proof(1, 0, 0), pkN)
  {
    PowOne(Challenge(1, pkN));
  }

  /** Witnesses exist for exactly the commitments that the modulus does not divide. */
  lemma ProvableIffNotMultiple(commitment: nat, pkN: nat)
    ensures (exists a: int, b: int :: VerifyRangeProof(Proof(commitment, a, b), pkN))
            <==> commitment % PEDERSEN_P != 0
  {
    var p, c := PEDERSEN_P, Challenge(commitment, pkN);
    if commitment % p != 0 {
      var a := ProofFor(commitment, pkN);
    } else {
      forall a: int, b: int ensures !VerifyRangeProof(Proof(commitment, a, b), pkN) {
        GeneratorsAreUnits();
        ProductIsUnit(p, PEDERSEN_G, PEDERSEN_H, Effective(a), Effective(b));
        ModExpEffective(PEDERSEN_G, a, p);
        ModExpEffective(PEDERSEN_H, b, p);
        MulMod(Pow(PEDERSEN_G, Effective(a)), Pow(PEDERSEN_H, Effective(b)), p);
        MultiplePower(p, commitment, c);
      }
    }
  }

  lemma ProductIsUnit(p: nat, g: nat, h: nat, i: nat, j: nat)
    requires IsPrime(p) && !Divides(p, g) && !Divides(p, h)
    ensures (Pow(g, i) * Pow(h, j)) % p != 0
  {
    PowerIsUnit(p, g, i);
    PowerIsUnit(p, h, j);
    PowPositive(g, i);
    if Divides(p, Pow(g, i) * Pow(h, j)) { Euclid(p, Pow(g, i), Pow(h, j)); }
  }

  lemma MultiplePower(p: nat, x: nat, e: nat)
    requires p > 0 && x % p == 0 && e > 0
    ensures ModExpInt(x, e, p) == 0
  {
    CongruentMul(x, 0, Pow(x, e - 1), Pow(x, e - 1), p);
  }
}
