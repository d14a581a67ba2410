/**
 Paillier encryption, decryption and the encrypted score formula of
 `backend/src/crypto/paillier.ts`, and the service's prime-modulus key of
 `backend/src/services/HomomorphicReputationService.ts`.

 Main results: decryption inverts encryption exactly for keys of distinct primes, and the
 homomorphic evaluation of the score formula decrypts to the formula's value modulo `n`.
 */
module Paillier {
  import opened Wrappers
  import opened NumberTheory
  import opened ModularArithmetic
  import opened Primes
  import opened CompactPrime

  datatype PublicKey = PublicKey(n: nat, nSquared: nat, g: nat)

  datatype PrivateKey = PrivateKey(publicKey: PublicKey, lambda: nat, mu: nat)

  datatype PaillierError = PlaintextOutOfRange(plaintext: int) | MuMissing(inner: ArithmeticError)

  /** BigInt division truncates toward zero. */
  function Quotient(a: int, b: nat): int
    requires b > 0
  {
    if a >= 0 then a / b else -((-a) / b)
  }

  // -------------------------------------------------------------------- keys

  function PublicKeyFor(n: nat): PublicKey {
    PublicKey(n, n * n, n + 1)
  }

  function CompactPublicKey(): PublicKey {
    PublicKeyFor(COMPACT_N)
  }

  function KeyPairFromPrimes(p: nat, q: nat): Result<PrivateKey, PaillierError>
    requires p > 1 && q > 1
  {
    var n := p * q;
    ProductPositive(p, q);
    ProductPositive(n, n);
    var pk := PublicKeyFor(n);
    var lambda := Lcm(p - 1, q - 1);
    var lValue := Quotient(ModExp(pk.g, lambda, pk.nSquared) - 1, n);
    match ModInverse(lValue, n)
    case Ok(mu) => Ok(PrivateKey(pk, lambda, mu))
    case Err(e) => Err(MuMissing(e))
  }

  /** The key the service derives for the compact prime modulus. */
  function ServiceKey(): Result<PrivateKey, PaillierError> {
    match ModInverse(COMPACT_N - 1, COMPACT_N)
    case Ok(mu) => Ok(PrivateKey(CompactPublicKey(), COMPACT_N - 1, mu))
    case Err(e) => Err(MuMissing(e))
  }

  lemma ProductPositive(a: nat, b: nat)
    requires a > 0 && b > 0
    ensures a * b > 0 && a * b >= a
  {
  }

  // ----------------------------------------------- encryption and decryption

  ghost predicate WellFormed(pk: PublicKey) {
    pk.n > 1 && pk == PublicKeyFor(pk.n)
  }

  function DeriveBlinding(plaintext: nat, n: nat): nat
    requires n > 0
  {
    var mixed := ((plaintext + 0x9e3779b97f4a7c15) * 0x6c62272e07bb0142) % n;
    if mixed == 0 then 1 else mixed
  }

  function Encrypt(pk: PublicKey, plaintext: int, r: Option<nat>): Result<nat, PaillierError>
    requires pk.n > 0 && pk.nSquared > 0
  {
    if plaintext < 0 || plaintext >= pk.n then Err(PlaintextOutOfRange(plaintext))
    else
      var blinding := if r.Some? then r.value else DeriveBlinding(plaintext, pk.n);
      var gm := ModExp(pk.g, plaintext, pk.nSquared);
      var rn := ModExp(blinding, pk.n, pk.nSquared);
      Ok((gm * rn) % pk.nSquared)
  }

  function Decrypt(sk: PrivateKey, ciphertext: nat): int
    requires sk.publicKey.n > 0 && sk.publicKey.nSquared > 0
  {
    var cl := ModExp(ciphertext, sk.lambda, sk.publicKey.nSquared);
    var lValue := Quotient(cl - 1, sk.publicKey.n);
    Rem(lValue * sk.mu, sk.publicKey.n)
  }

  // ---------------------------------------------------- homomorphic algebra

  function EncAdd(pk: PublicKey, a: nat, b: nat): nat
    requires pk.nSquared > 0
  {
    (a * b) % pk.nSquared
  }

  function EncScale(pk: PublicKey, ct: nat, k: nat): nat
    requires pk.nSquared > 0
  {
    ModExp(ct, k, pk.nSquared)
  }

  function EncNegate(pk: PublicKey, ct: nat): nat
    requires pk.n > 0 && pk.nSquared > 0
  {
    ModExp(ct, pk.n - 1, pk.nSquared)
  }

  const BASE_SCORE: nat := 50
  const FULFILLED_WEIGHT: nat := 10
  const LATE_WEIGHT: nat := 10
  const BREACH_WEIGHT: nat := 50

  function EncryptedScoreOf(pk: PublicKey, encF: nat, encL: nat, encB: nat): nat
    requires pk.n > 0 && pk.nSquared > 0
  {
    var encBase := ModExp(pk.g, BASE_SCORE, pk.nSquared);
    var scoredF := EncScale(pk, encF, FULFILLED_WEIGHT);
    var scoredL := EncScale(pk, EncNegate(pk, encL), LATE_WEIGHT);
    var scoredB := EncScale(pk, EncNegate(pk, encB), BREACH_WEIGHT);
    EncAdd(pk, EncAdd(pk, EncAdd(pk, encBase, scoredF), scoredL), scoredB)
  }

  /** `computeEncryptedScore`, through the `modPow` loop and the running accumulator. */
  method ComputeEncryptedScore(pk: PublicKey, encF: nat, encL: nat, encB: nat) returns (acc: nat)
    requires WellFormed(pk)
    ensures acc == EncryptedScoreOf(pk, encF, encL, encB)
  {
    ProductPositive(pk.n, pk.n);
    var encBase := ModPow(pk.g, BASE_SCORE, pk.nSquared);
    var scoredF := ModPow(encF, FULFILLED_WEIGHT, pk.nSquared);
    var negL := ModPow(encL, pk.n - 1, pk.nSquared);
    var scoredL := ModPow(negL, LATE_WEIGHT, pk.nSquared);
    var negB := ModPow(encB, pk.n - 1, pk.nSquared);
    var scoredB := ModPow(negB, BREACH_WEIGHT, pk.nSquared);
    acc := (encBase * scoredF) % pk.nSquared;
    acc := (acc * scoredL) % pk.nSquared;
    acc := (acc * scoredB) % pk.nSquared;
  }

  // ------------------------------------------------ what a ciphertext encodes

  /** `c` is `(1+n)^m r^n` modulo `n^2` for a unit `r`: an encryption of `m`. */
  ghost predicate Encodes(n: nat, c: nat, m: nat, r: nat) {
    n > 1 && Coprime(r, n) && c % (n * n) == (Pow(1 + n, m) * Pow(r, n)) % (n * n)
  }

  /** The two facts about `lambda` and `mu` on which decryption rests. */
  ghost predicate CanDecrypt(sk: PrivateKey) {
    && WellFormed(sk.publicKey)
    && (sk.lambda * sk.mu) % sk.publicKey.n == 1
    && forall r: nat :: Coprime(r, sk.publicKey.n) ==> UnitOrder(sk.publicKey.n, sk.lambda, r)
  }

  ghost predicate UnitOrder(n: nat, lambda: nat, r: nat)
    requires n > 1
  {
    Pow(Pow(r, n), lambda) % (n * n) == 1
  }

  lemma EncryptEncodes(pk: PublicKey, m: nat, r: nat)
    requires WellFormed(pk) && m < pk.n && Coprime(r, pk.n)
    ensures Encrypt(pk, m, Some(r)).Ok? && Encodes(pk.n, Encrypt(pk, m, Some(r)).value, m, r)
  {
    var k := pk.nSquared;
    var x, y := Pow(pk.g, m), Pow(r, pk.n);
    MulMod(x, y, k);
    ModMod(x * y, k);
    ModMod((x % k) * (y % k), k);
  }

  lemma AddEncodes(pk: PublicKey, c: nat, d: nat, m: nat, l: nat, r: nat, s: nat)
    requires WellFormed(pk) && Encodes(pk.n, c, m, r) && Encodes(pk.n, d, l, s)
    ensures Encodes(pk.n, EncAdd(pk, c, d), m + l, r * s)
  {
    var n := pk.n;
    CoprimeProduct(r, s, n);
    var k := n * n;
    var x, y, u, v := Pow(1 + n, m), Pow(r, n), Pow(1 + n, l), Pow(s, n);
    CongruentMul(c, x * y, d, u * v, k);
    ModMod(c * d, k);
    PowAdd(1 + n, m, l);
    PowMulBase(r, s, n);
    Interchange(x, y, u, v);
  }

  lemma ScaleEncodes(pk: PublicKey, c: nat, m: nat, r: nat, k: nat)
    requires WellFormed(pk) && Encodes(pk.n, c, m, r)
    ensures m * k >= 0 && Pow(r, k) >= 0
    ensures Encodes(pk.n, EncScale(pk, c, k), m * k, Pow(r, k))
  {
    var n := pk.n;
    CoprimePower(r, k, n);
    var nn := n * n;
    var x, y := Pow(1 + n, m), Pow(r, n);
    CongruentPow(c, x * y, k, nn);
    ModMod(Pow(c, k), nn);
    PowMulBase(x, y, k);
    PowPow(1 + n, m, k);
    PowPow(r, n, k);
    PowPow(r, k, n);
    assert n * k == k * n;
  }

  lemma BaseEncodes(pk: PublicKey, m: nat)
    requires WellFormed(pk)
    ensures Encodes(pk.n, ModExp(pk.g, m, pk.nSquared), m, 1)
  {
    CoprimePower(1, 0, pk.n) by {
      forall d: nat | Divides(d, 1) && Divides(d, pk.n) ensures d == 1 { DividesBounds(d, 1); }
    }
    PowOne(pk.n);
    ModMod(Pow(pk.g, m), pk.nSquared);
  }

  // -------------------------------------------------------------- decryption

  /** `(1+n)^e == 1 + (e mod n) n` modulo `n^2`. */
  lemma GeneratorPower(n: nat, e: nat)
    requires n > 1
    ensures Pow(1 + n, e) % (n * n) == 1 + (e % n) * n
  {
    var k := LinearExpansion(n, e);
    var q, r := e / n, e % n;
    assert e == n * q + r;
    assert e * n == q * (n * n) + r * n by { assert (n * q + r) * n == q * (n * n) + r * n; }
    assert Pow(1 + n, e) == (q + k) * (n * n) + (1 + r * n);
    SmallResidue(r, n);
    DivModUnique(Pow(1 + n, e), n * n, q + k, 1 + r * n);
  }

  lemma SmallResidue(r: nat, n: nat)
    requires n > 1 && r < n
    ensures 1 + r * n < n * n
  {
    Distribute(r, n - 1 - r, n);
    Distribute(n - 1, 1, n);
    assert (n - 1 - r) * n >= 0;
  }

  /** The decryption exponent strips the blinding and leaves `m lambda` in the exponent. */
  lemma DecryptionPower(sk: PrivateKey, c: nat, m: nat, r: nat)
    requires CanDecrypt(sk) && Encodes(sk.publicKey.n, c, m, r)
    ensures m * sk.lambda >= 0
    ensures ModExp(c, sk.lambda, sk.publicKey.nSquared) == 1 + ((m * sk.lambda) % sk.publicKey.n) * sk.publicKey.n
  {
    var n, l := sk.publicKey.n, sk.lambda;
    var nn := n * n;
    var x, y := Pow(1 + n, m), Pow(r, n);
    CongruentPow(c, x * y, l, nn);
    PowMulBase(x, y, l);
    PowPow(1 + n, m, l);
    assert UnitOrder(n, l, r);
    SmallResidue(0, n);
    DivModUnique(1, nn, 0, 1);
    CongruentMul(Pow(x, l), Pow(x, l), Pow(y, l), 1, nn);
    GeneratorPower(n, m * l);
  }

  /** `L(1 + l n) == l`, scaled by `mu`. */
  lemma DecryptionScaling(sk: PrivateKey, c: nat, l: nat)
    requires WellFormed(sk.publicKey)
    requires ModExp(c, sk.lambda, sk.publicKey.nSquared) == 1 + l * sk.publicKey.n
    ensures Decrypt(sk, c) == (l * sk.mu) % sk.publicKey.n
  {
    DivModUnique(l * sk.publicKey.n, sk.publicKey.n, l, 0);
    assert l * sk.publicKey.n >= 0 && l * sk.mu >= 0;
  }

  /** Decryption of any encoding of `m` is `m` modulo `n`. */
  lemma DecryptEncoded(sk: PrivateKey, c: nat, m: nat, r: nat)
    requires CanDecrypt(sk) && Encodes(sk.publicKey.n, c, m, r)
    ensures Decrypt(sk, c) == m % sk.publicKey.n
  {
    var n, l := sk.publicKey.n, sk.lambda;
    DecryptionPower(sk, c, m, r);
    var e := (m * l) % n;
    DecryptionScaling(sk, c, e);
    MulMod(m * l, sk.mu, n);
    assert (m * l) * sk.mu == m * (l * sk.mu);
    DivModUnique(1, n, 0, 1);
    CongruentMul(m, m, l * sk.mu, 1, n);
  }

  /** Decrypting an encryption returns the plaintext, for every plaintext and unit blinding. */
  lemma DecryptInvertsEncrypt(sk: PrivateKey, m: nat, r: nat)
    requires CanDecrypt(sk) && m < sk.publicKey.n && Coprime(r, sk.publicKey.n)
    ensures Encrypt(sk.publicKey, m, Some(r)).Ok?
    ensures Decrypt(sk, Encrypt(sk.publicKey, m, Some(r)).value) == m
  {
    EncryptEncodes(sk.publicKey, m, r);
    DecryptEncoded(sk, Encrypt(sk.publicKey, m, Some(r)).value, m, r);
    DivModUnique(m, sk.publicKey.n, 0, m);
  }

  /** Zero is never a ciphertext. */
  lemma EncodingIsPositive(sk: PrivateKey, c: nat, m: nat, r: nat)
    requires CanDecrypt(sk) && Encodes(sk.publicKey.n, c, m, r)
    ensures c > 0
  {
    DecryptionPower(sk, c, m, r);
    var n := sk.publicKey.n;
    assert sk.lambda > 0 by { DivModUnique(0, n, 0, 0); assert 0 * sk.mu == 0; }
    assert Pow(0, sk.lambda) == 0 * Pow(0, sk.lambda - 1);
    DivModUnique(0, n * n, 0, 0);
    assert ((m * sk.lambda) % n) * n >= 0;
  }

  /** The score formula over plaintexts, possibly negative. */
  function LinearScore(f: int, l: int, b: int): int {
    BASE_SCORE + FULFILLED_WEIGHT * f - LATE_WEIGHT * l - BREACH_WEIGHT * b
  }

  lemma NegatedWeight(n: nat, v: nat, w: nat, s: int)
    requires n > 0
    ensures (s + v * (n - 1) * w) % n == (s - w * v) % n
  {
    assert v * (n - 1) * w == (v * w) * n - w * v by {
      assert v * (n - 1) == v * n - v;
      assert (v * n - v) * w == (v * n) * w - v * w;
      assert (v * n) * w == (v * w) * n;
    }
    ModAddMultiple(s - w * v, v * w, n);
  }

  /**
   The homomorphic score: whatever ciphertexts encode `f`, `l` and `b`, the evaluated
   ciphertext decrypts to `50 + 10 f - 10 l - 50 b` modulo `n`.
   */
  lemma EncryptedScoreDecrypts(sk: PrivateKey, cf: nat, f: nat, rf: nat, cl: nat, l: nat, rl: nat,
                               cb: nat, b: nat, rb: nat)
    requires CanDecrypt(sk)
    requires Encodes(sk.publicKey.n, cf, f, rf)
    requires Encodes(sk.publicKey.n, cl, l, rl)
    requires Encodes(sk.publicKey.n, cb, b, rb)
    ensures Decrypt(sk, EncryptedScoreOf(sk.publicKey, cf, cl, cb)) == LinearScore(f, l, b) % sk.publicKey.n
  {
    var pk := sk.publicKey;
    var n := pk.n;
    BaseEncodes(pk, BASE_SCORE);
    ScaleEncodes(pk, cf, f, rf, FULFILLED_WEIGHT);
    ScaleEncodes(pk, cl, l, rl, n - 1);
    ScaleEncodes(pk, EncNegate(pk, cl), l * (n - 1), Pow(rl, n - 1), LATE_WEIGHT);
    ScaleEncodes(pk, cb, b, rb, n - 1);
    ScaleEncodes(pk, EncNegate(pk, cb), b * (n - 1), Pow(rb, n - 1), BREACH_WEIGHT);
    var c0 := ModExp(pk.g, BASE_SCORE, pk.nSquared);
    var c1 := EncScale(pk, cf, FULFILLED_WEIGHT);
    var c2 := EncScale(pk, EncNegate(pk, cl), LATE_WEIGHT);
    var c3 := EncScale(pk, EncNegate(pk, cb), BREACH_WEIGHT);
    var r1, r2, r3 := Pow(rf, FULFILLED_WEIGHT), Pow(Pow(rl, n - 1), LATE_WEIGHT), Pow(Pow(rb, n - 1), BREACH_WEIGHT);
    var m1, m2, m3 := f * FULFILLED_WEIGHT, l * (n - 1) * LATE_WEIGHT, b * (n - 1) * BREACH_WEIGHT;
    AddEncodes(pk, c0, c1, BASE_SCORE, m1, 1, r1);
    AddEncodes(pk, EncAdd(pk, c0, c1), c2, BASE_SCORE + m1, m2, 1 * r1, r2);
    AddEncodes(pk, EncAdd(pk, EncAdd(pk, c0, c1), c2), c3, BASE_SCORE + m1 + m2, m3, 1 * r1 * r2, r3);
    DecryptEncoded(sk, EncryptedScoreOf(pk, cf, cl, cb), BASE_SCORE + m1 + m2 + m3, 1 * r1 * r2 * r3);
    NegatedWeight(n, l, LATE_WEIGHT, BASE_SCORE + m1 + m3);
    NegatedWeight(n, b, BREACH_WEIGHT, BASE_SCORE + m1 - LATE_WEIGHT * l);
  }

  // ------------------------------------------------------------ valid keys

  /** One more than a multiple of `n` has an `n`-th power one more than a multiple of its square. */
  lemma LiftsToSquare(n: nat, x: nat, k: nat)
    requires n > 1 && x == 1 + k * n
    ensures n * n > 1 && Pow(x, n) % (n * n) == 1
  {
    var j := LinearExpansion(k * n, n);
    SquareFactor(n, k, j);
    SmallResidue(0, n);
    DivModUnique(Pow(x, n), n * n, k + j * (k * k), 1);
  }

  /** From `r^lambda == 1` modulo `n` to `r^(n lambda) == 1` modulo `n^2`. */
  lemma LiftOrder(n: nat, lambda: nat, r: nat)
    requires n > 1 && Pow(r, lambda) % n == 1
    ensures UnitOrder(n, lambda, r)
  {
    PowPositive(r, lambda);
    var x := Pow(r, lambda);
    DivisionFacts(x, n);
    LiftsToSquare(n, x, x / n);
    PowPow(r, lambda, n);
    PowPow(r, n, lambda);
    assert lambda * n == n * lambda;
  }

  lemma SquareFactor(n: int, k: int, j: int)
    ensures n * (k * n) + j * ((k * n) * (k * n)) == (k + j * (k * k)) * (n * n)
  {
    Interchange(k, n, k, n);
    var nn, kk := n * n, k * k;
    assert n * (k * n) == k * nn;
    assert j * (kk * nn) == (j * kk) * nn;
    assert k * nn + (j * kk) * nn == (k + j * kk) * nn;
  }

  lemma PrimeOrder(p: nat, lambda: nat, r: nat)
    requires IsPrime(p) && Divides(p - 1, lambda) && !Divides(p, r)
    ensures Pow(r, lambda) % p == 1
  {
    var k := DividesWitness(p - 1, lambda);
    assert k >= 0 by { assert k < 0 ==> k * (p - 1) < 0; }
    assert lambda == (p - 1) * k;
    PowPow(r, p - 1, k);
    Fermat(p, r);
    DivModUnique(1, p, 0, 1);
    CongruentPow(Pow(r, p - 1), 1, k, p);
    PowOne(k);
  }

  lemma CoprimeToProduct(p: nat, q: nat, r: nat)
    requires IsPrime(p) && IsPrime(q) && p * q > 0 && Coprime(r, p * q)
    ensures !Divides(p, r) && !Divides(q, r)
  {
    DividesFromWitness(p, q);
    DividesFromWitness(q, p);
  }

  /** What key generation computes: `lambda` is below `n`, so `mu` inverts `lambda` itself. */
  lemma KeyPairShape(p: nat, q: nat)
    requires IsPrime(p) && IsPrime(q)
    ensures var key := KeyPairFromPrimes(p, q);
            var lambda := Lcm(p - 1, q - 1);
            && p * q > 1 && 0 < lambda < p * q
            && (key.Ok? <==> Coprime(lambda, p * q))
            && (key.Ok? ==> key.value.publicKey == PublicKeyFor(p * q)
                            && key.value.lambda == lambda
                            && (lambda * key.value.mu) % (p * q) == 1)
  {
    var n, lambda := p * q, Lcm(p - 1, q - 1);
    ProductPositive(p, q);
    assert n > 1;
    LambdaBelow(p, q, lambda);
    GeneratorPower(n, lambda);
    DivModUnique(lambda, n, 0, lambda);
    DivModUnique(lambda * n, n, lambda, 0);
    DivModUnique(1, n, 0, 1);
  }

  lemma LambdaBelow(p: nat, q: nat, lambda: nat)
    requires p > 1 && q > 1 && lambda <= (p - 1) * (q - 1)
    ensures lambda < p * q
  {
    assert (p - 1) * (q - 1) == p * q - p - q + 1;
  }

  /** Keys of distinct primes decrypt, whenever key generation succeeds. */
  lemma DistinctPrimesCanDecrypt(p: nat, q: nat)
    requires IsPrime(p) && IsPrime(q) && p != q
    ensures KeyPairFromPrimes(p, q).Ok? ==> CanDecrypt(KeyPairFromPrimes(p, q).value)
  {
    KeyPairShape(p, q);
    var n, lambda := p * q, Lcm(p - 1, q - 1);
    forall r: nat | Coprime(r, n) ensures UnitOrder(n, lambda, r) {
      CoprimeToProduct(p, q, r);
      PrimeOrder(p, lambda, r);
      PrimeOrder(q, lambda, r);
      JoinResidues(p, q, Pow(r, lambda));
      LiftOrder(n, lambda, r);
    }
  }

  lemma JoinResidues(p: nat, q: nat, x: int)
    requires IsPrime(p) && IsPrime(q) && p != q && x % p == 1 && x % q == 1
    ensures p * q > 1 && x % (p * q) == 1
  {
    ProductPositive(p, q);
    PredecessorDivisible(p, x);
    PredecessorDivisible(q, x);
    PrimeProductDivides(p, q, x - 1);
    var n := p * q;
    var k := DividesWitness(n, x - 1);
    DivModUnique(x, n, k, 1);
  }

  lemma PredecessorDivisible(p: nat, x: int)
    requires p > 1 && x % p == 1
    ensures Divides(p, x - 1)
  {
    DivModUnique(x - 1, p, x / p, 0);
  }

  /** The service key exists and decrypts: its modulus is prime and `n - 1` is its own group order. */
  lemma ServiceKeyCanDecrypt()
    ensures ServiceKey().Ok? && CanDecrypt(ServiceKey().value)
  {
    var n := COMPACT_N;
    CompactModulusIsPrime();
    DivModUnique(1, n, 0, 1);
    DivModUnique(n - 1, n, 0, n - 1);
    if Divides(n, n - 1) { DividesBounds(n, n - 1); }
    PrimeCoprime(n, n - 1);
    forall r: nat | Coprime(r, n) ensures UnitOrder(n, n - 1, r) {
      PrimeCoprime(n, r);
      Fermat(n, r);
      LiftOrder(n, n - 1, r);
    }
  }

  /** For a prime modulus the derived default blinding is always a unit. */
  lemma DerivedBlindingIsUnit(m: nat, n: nat)
    requires IsPrime(n)
    ensures Coprime(DeriveBlinding(m, n), n)
  {
    var b := DeriveBlinding(m, n);
    assert 0 < b < n;
    if Divides(n, b) { DividesBounds(n, b); }
    PrimeCoprime(n, b);
  }

  /**
   The service end to end: three plaintexts encrypted under the service key, with any
   non-zero blindings, score to exactly the linear formula modulo `COMPACT_N`.
   */
  lemma ServiceScoreIsExact(f: nat, l: nat, b: nat, rf: nat, rl: nat, rb: nat)
    requires f < COMPACT_N && l < COMPACT_N && b < COMPACT_N
    requires 0 < rf < COMPACT_N && 0 < rl < COMPACT_N && 0 < rb < COMPACT_N
    ensures ServiceKey().Ok?
    ensures var sk := ServiceKey().value;
            var pk := sk.publicKey;
            && WellFormed(pk)
            && Encrypt(pk, f, Some(rf)).Ok? && Encrypt(pk, l, Some(rl)).Ok? && Encrypt(pk, b, Some(rb)).Ok?
            && Decrypt(sk, EncryptedScoreOf(pk, Encrypt(pk, f, Some(rf)).value, Encrypt(pk, l, Some(rl)).value,
                                            Encrypt(pk, b, Some(rb)).value))
               == LinearScore(f, l, b) % COMPACT_N
  {
    ServiceKeyCanDecrypt();
    CompactModulusIsPrime();
    var sk := ServiceKey().value;
    var pk := sk.publicKey;
    forall r: nat | 0 < r < COMPACT_N ensures Coprime(r, COMPACT_N) {
      if Divides(COMPACT_N, r) { DividesBounds(COMPACT_N, r); }
      PrimeCoprime(COMPACT_N, r);
    }
    EncryptEncodes(pk, f, rf);
    EncryptEncodes(pk, l, rl);
    EncryptEncodes(pk, b, rb);
    EncryptedScoreDecrypts(sk, Encrypt(pk, f, Some(rf)).value, f, rf, Encrypt(pk, l, Some(rl)).value, l, rl,
                           Encrypt(pk, b, Some(rb)).value, b, rb);
  }
}
