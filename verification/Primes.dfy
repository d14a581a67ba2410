/**
 Euclid's lemma, Fermat's little theorem, and a primality criterion of Pocklington's kind.
 */
module Primes {
  import opened NumberTheory
  import opened ModularArithmetic

  lemma PrimeCoprime(p: nat, a: nat)
    requires IsPrime(p)
    ensures Coprime(a, p) <==> !Divides(p, a)
  {
    DividesFromWitness(p, 1);
    if Divides(p, a) {
      assert Divides(p, p) && p != 1;
    } else {
      forall d: nat | Divides(d, a) && Divides(d, p) ensures d == 1 {
        PrimeDivisor(p, d);
      }
    }
  }

  lemma Euclid(p: nat, a: nat, b: int)
    requires IsPrime(p) && Divides(p, a * b) && !Divides(p, a)
    ensures Divides(p, b)
  {
    PrimeCoprime(p, a);
    CoprimeDivides(p, a, b);
  }

  /** Distinct primes dividing `n` divide it together. */
  lemma PrimeProductDivides(p: nat, q: nat, n: int)
    requires IsPrime(p) && IsPrime(q) && p != q && Divides(p, n) && Divides(q, n)
    ensures Divides(p * q, n)
  {
    var k := DividesWitness(p, n);
    assert n == p * k;
    if Divides(q, p) { PrimeDivisor(p, q); }
    Euclid(q, p, k);
    var l := DividesWitness(q, k);
    assert n == l * (p * q);
    assert p * q > 0;
    DividesFromWitness(p * q, l);
  }

  // ------------------------------------------------------- Fermat's theorem

  lemma PrimeDividesChoose(p: nat, k: nat)
    requires IsPrime(p) && 0 < k < p
    ensures Divides(p, Choose(p, k))
  {
    ChooseAbsorb(p, k);
    DividesFromWitness(p, Choose(p - 1, k - 1));
    if Divides(p, k) { DividesBounds(p, k); }
    Euclid(p, k, Choose(p, k));
  }

  lemma SwapLast(k: int, p: int, x: int)
    ensures (k * p) * x == (k * x) * p
  {
  }

  lemma {:induction false} BinomialSumModPrime(a: nat, p: nat, m: nat)
    requires IsPrime(p) && m < p
    ensures BinomialSum(a, p, m) % p == 1
  {
    if m > 0 {
      BinomialSumModPrime(a, p, m - 1);
      PrimeDividesChoose(p, m);
      var k := DividesWitness(p, Choose(p, m));
      SwapLast(k, p, Pow(a, m));
      ModAddMultiple(BinomialSum(a, p, m - 1), k * Pow(a, m), p);
    }
  }

  lemma {:induction false} FermatPower(p: nat, a: nat)
    requires IsPrime(p)
    ensures Pow(a, p) % p == a % p
  {
    if a != 0 {
      var b := a - 1;
      FermatPower(p, b);
      BinomialTheorem(b, p);
      BinomialSumModPrime(b, p, p - 1);
      ChooseBeyond(p, p);
      assert Pow(a, p) == BinomialSum(b, p, p - 1) + Pow(b, p);
      CongruentAdd(BinomialSum(b, p, p - 1), 1, Pow(b, p), b, p);
    } else {
      assert Pow(0, p) == 0 * Pow(0, p - 1);
    }
  }

  /** Fermat's little theorem. */
  lemma Fermat(p: nat, a: nat)
    requires IsPrime(p) && !Divides(p, a)
    ensures Pow(a, p - 1) % p == 1
  {
    FermatPower(p, a);
    var x := Pow(a, p - 1);
    var k := CongruentWitness(Pow(a, p), a, p);
    assert a * (x - 1) == k * p by { assert Pow(a, p) == a * x; }
    DividesFromWitness(p, k);
    Euclid(p, a, x - 1);
    var l := DividesWitness(p, x - 1);
    ModAddMultiple(1, l, p);
    DivModUnique(1, p, 0, 1);
  }

  /** Exponents may be reduced modulo `p - 1` under a base that `p` does not divide. */
  lemma FermatReduce(p: nat, a: nat, e: nat)
    requires IsPrime(p) && !Divides(p, a)
    ensures Pow(a, e % (p - 1)) % p == Pow(a, e) % p
  {
    if p == 2 {
      // Every power of an odd base is odd.
      Fermat(2, a);
      PowOddModTwo(a, e);
    } else {
      var m := p - 1;
      var q, r := e / m, e % m;
      assert e == m * q + r;
      PowAdd(a, m * q, r);
      PowPow(a, m, q);
      Fermat(p, a);
      DivModUnique(1, p, 0, 1);
      CongruentPow(Pow(a, m), 1, q, p);
      PowOne(q);
      CongruentMul(Pow(a, m * q), 1, Pow(a, r), Pow(a, r), p);
    }
  }

  lemma {:induction false} PowOddModTwo(a: nat, e: nat)
    requires a % 2 == 1
    ensures Pow(a, e) % 2 == 1 && Pow(a, 0) % 2 == 1
  {
    if e != 0 {
      PowOddModTwo(a, e - 1);
      CongruentMul(a, 1, Pow(a, e - 1), 1, 2);
    }
  }

  // ------------------------------------------------- divisors and primality

  function LeastDivisor(n: nat, from: nat): (d: nat)
    requires 1 < from <= n
    requires forall e: nat :: Divides(e, n) && 1 < e ==> e >= from
    ensures Divides(d, n) && 1 < d
    ensures forall e: nat :: Divides(e, n) && 1 < e ==> e >= d
    decreases n - from
  {
    if n % from == 0 then from
    else
      assert from < n by { if from == n { DividesFromWitness(n, 1); } }
      LeastDivisor(n, from + 1)
  }

  /** A number with no prime divisor up to its square root is prime. */
  lemma PrimeIfNoSmallPrimeDivisor(n: nat)
    requires n > 1
    requires forall r: nat :: IsPrime(r) && Divides(r, n) ==> r * r > n
    ensures IsPrime(n)
  {
    var d := LeastDivisor(n, 2);
    forall e: nat | Divides(e, d) && 1 < e ensures e >= d {
      DividesTransitive(e, d, n);
    }
    assert IsPrime(d);
    var c := DividesWitness(d, n);
    if d < n {
      assert c > 1 by { assert c <= 1 ==> c * d <= d; }
      assert n == c * d && n == d * c;
      DividesFromWitness(c, d);
      SquareBound(c, d);
      assert false;
    }
  }

  lemma SquareBound(c: nat, d: nat)
    ensures c >= d ==> c * d >= d * d
  {
  }

  /** Trial division. */
  lemma PrimeByTrial(n: nat, bound: nat)
    requires n > 1 && n < (bound + 1) * (bound + 1)
    requires forall d: nat :: 2 <= d <= bound ==> n % d != 0
    ensures IsPrime(n)
  {
    forall r: nat | IsPrime(r) && Divides(r, n) ensures r * r > n {
      assert r > bound;
      assert r * r >= (bound + 1) * (bound + 1);
    }
    PrimeIfNoSmallPrimeDivisor(n);
  }

  /**
   Pocklington's step: if `a^((n-1)/q) - 1` is invertible modulo `n` while `a^(n-1) == 1`,
   every prime divisor of `n` is one more than a multiple of the prime `q`.
   */
  lemma PocklingtonStep(n: nat, a: nat, q: nat, m: nat, u: nat, r: nat)
    requires n > 1 && IsPrime(q) && m * q == n - 1
    requires Pow(a, n - 1) % n == 1
    requires (u * (Pow(a, m) - 1)) % n == 1
    requires IsPrime(r) && Divides(r, n)
    ensures Divides(q, r - 1)
  {
    var b := Pow(a, m);
    PowPositive(a, m);
    PowPow(a, m, q);
    DivModUnique(1, n, 0, 1);
    DivModUnique(1, r, 0, 1);
    DescendMod(Pow(b, q), 1, n, r);
    DescendMod(u * (b - 1), 1, n, r);
    if !Divides(q, r - 1) {
      UnitBase(b, q, r);
      UnitMinusOne(b, u, r);
    }
  }

  lemma UnitMinusOne(b: nat, u: nat, r: nat)
    requires r > 1 && b % r == 1
    ensures (u * (b - 1)) % r == 0
  {
    var k := b / r;
    assert b == r * k + b % r;
    assert u * (k * r) == (u * k) * r;
    MultipleMod(u * k, r);
  }

  /** Orders dividing both `q` and `r - 1`, which are coprime, are trivial. */
  lemma UnitBase(b: nat, q: nat, r: nat)
    requires IsPrime(q) && IsPrime(r) && Pow(b, q) % r == 1 && !Divides(q, r - 1)
    ensures b % r == 1
  {
    PrimeCoprime(q, r - 1);
    var (g, x, y) := ExtGcd(r - 1, q);
    CoprimeIffExtGcdOne(r - 1, q);
    BaseNotDivisible(b, q, r);
    Fermat(r, b);
    TwoExponents(b, r, r - 1, q, x, y);
  }

  lemma BaseNotDivisible(b: nat, q: nat, r: nat)
    requires r > 1 && q > 0 && Pow(b, q) % r == 1
    ensures !Divides(r, b)
  {
    if Divides(r, b) {
      var k := DividesWitness(r, b);
      assert Pow(b, q) == (k * Pow(b, q - 1)) * r;
      MultipleMod(k * Pow(b, q - 1), r);
      assert false;
    }
  }

  lemma DescendMod(a: int, b: int, n: nat, r: nat)
    requires n > 1 && IsPrime(r) && Divides(r, n) && a % n == b % n
    ensures a % r == b % r
  {
    var k := CongruentWitness(a, b, n);
    var l := DividesWitness(r, n);
    assert a == b + (k * l) * r;
    ModAddMultiple(b, k * l, r);
  }

  /** If `b^c` and `b^d` are both 1 and `c x + d y == 1`, then `b` is 1. */
  lemma BothPositive(b: nat, r: nat, c: nat, d: nat, x: nat, y: nat)
    requires r > 1 && Pow(b, c) % r == 1 && Pow(b, d) % r == 1 && c * x + d * y == 1
    ensures b % r == 1
  {
    UnitPower(b, r, c, x);
    UnitPower(b, r, d, y);
    PowAdd(b, c * x, d * y);
    CongruentMul(Pow(b, c * x), 1, Pow(b, d * y), 1, r);
  }

  lemma NonPositive(c: nat, x: int)
    requires x <= 0
    ensures c * x <= 0
  {
  }

  lemma TwoExponents(b: nat, r: nat, c: nat, d: nat, x: int, y: int)
    requires r > 1 && Pow(b, c) % r == 1 && Pow(b, d) % r == 1 && c * x + d * y == 1
    ensures b % r == 1
  {
    if x >= 0 && y > 0 {
      BothPositive(b, r, c, d, x, y);
    } else if x >= 0 {
      SplitExponent(b, r, c, x, d, -y);
    } else {
      NonPositive(c, x);
      if y <= 0 { NonPositive(d, y); }
      SplitExponent(b, r, d, y, c, -x);
    }
  }

  lemma UnitPower(b: nat, r: nat, c: nat, x: nat)
    requires r > 1 && Pow(b, c) % r == 1
    ensures c * x >= 0 && Pow(b, c * x) % r == 1
  {
    PowPow(b, c, x);
    DivModUnique(1, r, 0, 1);
    CongruentPow(Pow(b, c), 1, x, r);
    PowOne(x);
  }

  lemma SplitExponent(b: nat, r: nat, c: nat, x: nat, d: nat, z: nat)
    requires r > 1 && Pow(b, c) % r == 1 && Pow(b, d) % r == 1
    requires c * x == 1 + d * z
    ensures b % r == 1
  {
    UnitPower(b, r, c, x);
    UnitPower(b, r, d, z);
    assert Pow(b, 1 + d * z) == b * Pow(b, d * z);
    CongruentMul(b, b, Pow(b, d * z), 1, r);
  }
}
