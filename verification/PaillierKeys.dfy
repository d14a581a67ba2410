/**
 Exactly which prime pairs give a key that decrypts. `keyPairFromPrimes` accepts `p == q`
 (`lcm(p-1, p-1) == p-1` is invertible modulo `p^2`), and such a key decrypts wrongly
 for every prime but 2.
 */
module PaillierKeys {
  import opened Wrappers
  import opened NumberTheory
  import opened ModularArithmetic
  import opened Primes
  import opened Paillier

  /** `(1 + x)^n` to second order. */
  lemma {:induction false} QuadraticExpansion(x: int, n: nat) returns (k: int)
    ensures Pow(1 + x, n) == 1 + n * x + Choose(n, 2) * (x * x) + k * (x * x * x)
  {
    if n == 0 {
      k := 0;
    } else {
      var j := QuadraticExpansion(x, n - 1);
      var c := Choose(n - 1, 2);
      ChooseOne(n - 1);
      assert Choose(n, 2) == (n - 1) + c;
      k := c + j + j * x;
      QuadraticStep(x, n, c, j);
    }
  }

  lemma {:induction false} ChooseOne(n: nat)
    ensures Choose(n, 1) == n
  {
    if n != 0 { ChooseOne(n - 1); }
  }

  lemma QuadraticStep(x: int, n: int, c: int, j: int)
    ensures (1 + x) * (1 + (n - 1) * x + c * (x * x) + j * (x * x * x))
            == 1 + n * x + ((n - 1) + c) * (x * x) + (c + j + j * x) * (x * x * x)
  {
    var s, t := x * x, x * x * x;
    assert x * ((n - 1) * x) == (n - 1) * s;
    assert x * (c * s) == c * t;
    assert x * (j * t) == (j * x) * t;
    assert (1 + x) * (1 + (n - 1) * x + c * s + j * t)
        == 1 + (n - 1) * x + c * s + j * t + (x + x * ((n - 1) * x) + x * (c * s) + x * (j * t));
  }

  /** `(1 + p)^p == 1 + p^2 u` with `u == 1` modulo `p`, for odd primes. */
  lemma FirstLift(p: nat) returns (w: int)
    requires IsPrime(p) && p != 2
    ensures Pow(1 + p, p) == 1 + (p * p) * (1 + p * w)
  {
    var k := QuadraticExpansion(p, p);
    PrimeDividesChoose(p, 2);
    var c := DividesWitness(p, Choose(p, 2));
    w := c + k;
    FirstLiftAlgebra(p, p * p, c, k);
  }

  lemma FirstLiftAlgebra(p: int, s: int, c: int, k: int)
    ensures s + (c * p) * s + k * (s * p) == s * (1 + p * (c + k))
  {
    var pc, pk := p * c, p * k;
    assert (c * p) * s == s * pc;
    assert k * (s * p) == s * pk;
    assert p * (c + k) == pc + pk;
  }

  /** `(1 + p)^(p^2) == 1 + p^3 v` with `v == 1` modulo `p`. */
  lemma SecondLift(p: nat) returns (z: int)
    requires IsPrime(p) && p != 2
    ensures Pow(1 + p, p * p) == 1 + (p * p * p) * (1 + p * z)
  {
    var w := FirstLift(p);
    var s, u := p * p, 1 + p * w;
    PowPow(1 + p, p, p);
    var j := LinearExpansion(s * u, p);
    z := w + j * (u * u);
    Interchange(s, u, s, u);
    SecondLiftAlgebra(p, s, w, u, j);
  }

  lemma SecondLiftAlgebra(p: int, s: int, w: int, u: int, j: int)
    requires s == p * p && u == 1 + p * w
    ensures p * (s * u) + j * ((s * u) * (s * u)) == (s * p) * (1 + p * (w + j * (u * u)))
  {
    var t, uu := s * p, u * u;
    Interchange(s, u, s, u);
    assert s * s == t * p;
    assert p * (s * u) == t * u;
    assert t * u == t + t * (p * w);
    assert j * ((s * s) * uu) == t * (p * (j * uu)) by {
      assert j * ((t * p) * uu) == (t * p) * (j * uu);
    }
    assert p * (w + j * uu) == p * w + p * (j * uu);
  }

  lemma ThirdLift(p: nat)
    requires IsPrime(p) && p != 2
    ensures var n := p * p;
            n > 1 && Pow(Pow(1 + p, n), p - 1) % (n * n) == 1 + ((p - 1) * p) * n
  {
    var z := SecondLift(p);
    var n := p * p;
    var t, v := n * p, 1 + p * z;
    var x := t * v;
    var j := LinearExpansion(x, p - 1);
    ThirdLiftAlgebra(p, n, t, z, v, j);
    var m := (p - 1) * z + j * (n * (v * v));
    assert n > 1 && (p - 1) * p < n by { assert (p - 1) * p == n - p; }
    SmallResidue((p - 1) * p, n);
    DivModUnique(Pow(1 + x, p - 1), n * n, m, 1 + ((p - 1) * p) * n);
  }

  lemma ThirdLiftAlgebra(p: int, n: int, t: int, z: int, v: int, j: int)
    requires n == p * p && t == n * p && v == 1 + p * z
    ensures (p - 1) * (t * v) + j * ((t * v) * (t * v))
            == ((p - 1) * z + j * (n * (v * v))) * (n * n) + ((p - 1) * p) * n
  {
    var nn, vv, q := n * n, v * v, p - 1;
    assert t * v == t + z * nn by {
      assert t * p == nn by { assert t * p == n * (p * p); }
      assert t * (p * z) == z * (t * p);
    }
    assert (t * v) * (t * v) == nn * n * vv by {
      Interchange(t, v, t, v);
      Interchange(n, p, n, p);
    }
    CollectTerms(q, t, z, nn, n, vv, j);
    assert q * t == (q * p) * n;
  }

  lemma CollectTerms(q: int, t: int, z: int, nn: int, n: int, vv: int, j: int)
    ensures q * (t + z * nn) + j * (nn * n * vv) == (q * z + j * (n * vv)) * nn + q * t
  {
    assert q * (z * nn) == (q * z) * nn;
    assert j * (nn * n * vv) == (j * (n * vv)) * nn;
  }

  lemma LcmSelf(a: nat)
    requires a > 0
    ensures Lcm(a, a) == a
  {
    DividesFromWitness(a, 1);
    ExtGcdIsGreatest(a, a, a);
    DividesBounds(ExtGcd(a, a).0, a);
  }

  lemma CoprimePredecessorSquare(p: nat)
    requires IsPrime(p)
    ensures Coprime(p - 1, p * p)
  {
    if Divides(p, p - 1) { DividesBounds(p, p - 1); }
    PrimeCoprime(p, p - 1);
    CoprimeProduct(p, p, p - 1);
  }

  lemma CoprimeSuccessorSquare(p: nat)
    requires IsPrime(p)
    ensures Coprime(1 + p, p * p)
  {
    if Divides(p, 1 + p) {
      DividesFromWitness(p, 1);
      DividesCombination(p, 1 + p, p, 1, -1);
      DividesBounds(p, 1);
    }
    PrimeCoprime(p, 1 + p);
    CoprimeProduct(p, p, 1 + p);
  }

  /** Under a key of a repeated odd prime, an encryption of 0 decrypts to `p`. */
  lemma RepeatedOddPrimeMisdecrypts(p: nat)
    requires IsPrime(p) && p != 2
    ensures var key := KeyPairFromPrimes(p, p);
            && key.Ok?
            && Coprime(1 + p, p * p)
            && key.value.publicKey == PublicKeyFor(p * p) && p * p > 1
            && Encrypt(key.value.publicKey, 0, Some(1 + p)).Ok?
            && Decrypt(key.value, Encrypt(key.value.publicKey, 0, Some(1 + p)).value) == p
  {
    KeyPairShape(p, p);
    LcmSelf(p - 1);
    CoprimePredecessorSquare(p);
    CoprimeSuccessorSquare(p);
    var sk := KeyPairFromPrimes(p, p).value;
    var n := p * p;
    MisdecryptionPower(p, n);
    MisdecryptionResidue(p, n, sk.mu);
    DecryptionScaling(sk, Encrypt(sk.publicKey, 0, Some(1 + p)).value, (p - 1) * p);
  }

  lemma MisdecryptionPower(p: nat, n: nat)
    requires IsPrime(p) && p != 2 && n == p * p
    ensures n > 1
    ensures ModExp((ModExp(n + 1, 0, n * n) * ModExp(1 + p, n, n * n)) % (n * n), p - 1, n * n) == 1 + ((p - 1) * p) * n
  {
    ThirdLift(p);
    var nn := n * n;
    var y := Pow(1 + p, n);
    SmallResidue(0, n);
    DivModUnique(1, nn, 0, 1);
    ModMod(y, nn);
    CongruentPow((1 * (y % nn)) % nn, y, p - 1, nn);
  }

  lemma MisdecryptionResidue(p: nat, n: nat, mu: nat)
    requires p > 1 && n == p * p && ((p - 1) * mu) % n == 1
    ensures (((p - 1) * p) * mu) % n == p
  {
    SquareAboveBase(p, n);
    var e := (p - 1) * mu;
    DivModUnique(1, n, 0, 1);
    CongruentMul(p, p, e, 1, n);
    DivModUnique(p, n, 0, p);
    RegroupFactors(p - 1, p, mu);
  }

  lemma SquareAboveBase(p: nat, n: nat)
    requires p > 1 && n == p * p
    ensures 1 < p < n
  {
    assert p * p >= 2 * p;
  }

  lemma RegroupFactors(a: int, b: int, c: int)
    ensures (a * b) * c == b * (a * c)
  {
  }

  /** The repeated prime 2 is harmless: odd fourth powers are 1 modulo 16. */
  lemma RepeatedTwoCanDecrypt()
    requires KeyPairFromPrimes(2, 2).Ok?
    ensures IsPrime(2) && CanDecrypt(KeyPairFromPrimes(2, 2).value)
  {
    PrimeByTrial(2, 1);
    KeyPairShape(2, 2);
    LcmSelf(1);
    forall r: nat | Coprime(r, 4) ensures UnitOrder(4, 1, r) {
      if r % 2 == 0 { assert Divides(2, r) && Divides(2, 4); }
      OddFourthPower(r);
    }
  }

  lemma OddFourthPower(r: nat)
    requires r % 2 == 1
    ensures Pow(r, 4) % 16 == 1 && Pow(Pow(r, 4), 1) == Pow(r, 4)
  {
    var h := r / 2;
    var e := (h * (h + 1)) / 2;
    assert h * (h + 1) == 2 * e by { EvenProduct(h); }
    var s := r * r;
    assert s == 1 + 8 * e by { assert r == 2 * h + 1; assert s == 4 * (h * (h + 1)) + 1; }
    SquareOfOnePlusEight(s, e);
    assert Pow(r, 4) == s * s by {
      assert Pow(r, 4) == r * Pow(r, 3);
      assert Pow(r, 3) == r * Pow(r, 2);
      assert Pow(r, 2) == r * Pow(r, 1);
      assert Pow(r, 1) == r;
      assert r * (r * s) == s * s;
    }
    assert Pow(Pow(r, 4), 1) == Pow(r, 4) * Pow(Pow(r, 4), 0);
  }

  lemma SquareOfOnePlusEight(s: nat, e: nat)
    requires s == 1 + 8 * e
    ensures (s * s) % 16 == 1
  {
    assert s * s == 1 + 16 * (e + 4 * (e * e));
  }

  lemma EvenProduct(h: nat)
    ensures (h * (h + 1)) % 2 == 0
  {
    MulMod(h, h + 1, 2);
  }

  ghost predicate DecryptsEverything(sk: PrivateKey)
    requires sk.publicKey.n > 0 && sk.publicKey.nSquared > 0
  {
    forall m: nat, r: nat :: m < sk.publicKey.n && Coprime(r, sk.publicKey.n) ==> RoundTrips(sk, m, r)
  }

  ghost predicate RoundTrips(sk: PrivateKey, m: nat, r: nat)
    requires sk.publicKey.n > 0 && sk.publicKey.nSquared > 0
  {
    var c := Encrypt(sk.publicKey, m, Some(r));
    c.Ok? && Decrypt(sk, c.value) == m
  }

  /**
   A generated key decrypts every encryption if and only if its primes are distinct
   (or are both 2): the check that `keyPairFromPrimes` does not make.
   */
  lemma KeyDecryptsIffDistinct(p: nat, q: nat)
    requires IsPrime(p) && IsPrime(q) && KeyPairFromPrimes(p, q).Ok?
    ensures var sk := KeyPairFromPrimes(p, q).value;
            && sk.publicKey.n > 1 && sk.publicKey.nSquared > 0
            && (DecryptsEverything(sk) <==> p != q || p == 2)
  {
    KeyPairShape(p, q);
    var sk := KeyPairFromPrimes(p, q).value;
    ProductPositive(sk.publicKey.n, sk.publicKey.n);
    if p != q || p == 2 {
      if p != q { DistinctPrimesCanDecrypt(p, q); } else { RepeatedTwoCanDecrypt(); }
      forall m: nat, r: nat | m < sk.publicKey.n && Coprime(r, sk.publicKey.n) ensures RoundTrips(sk, m, r) {
        DecryptInvertsEncrypt(sk, m, r);
      }
    } else {
      RepeatedOddPrimeMisdecrypts(p);
      assert !RoundTrips(sk, 0, 1 + p);
    }
  }
}
