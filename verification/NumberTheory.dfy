/**
 Integer facts the cryptographic modules rest on: congruences, powers, divisibility,
 Euclid's lemma, Fermat's little theorem and the first-order expansion of `(1 + x)^n`.
 Everything is proved from the definitions.
 */
module NumberTheory {

  // ---------------------------------------------------------------- division

  lemma DivModUnique(a: int, m: int, q: int, r: int)
    requires m > 0 && 0 <= r < m && a == q * m + r
    ensures a / m == q && a % m == r
  {
    var d := q - a / m;
    assert m * d == a % m - r by {
      assert a == m * (a / m) + a % m;
      assert m * d == m * q - m * (a / m);
    }
    assert d >= 1 ==> m * d >= m;
    assert d <= -1 ==> m * d <= -m;
  }

  lemma DivisionFacts(a: nat, t: nat)
    requires t > 0
    ensures a / t >= 0 && 0 <= a % t < t && a == t * (a / t) + a % t
  {
  }

  lemma MulAtLeast(t: nat, q: nat)
    requires t > 0
    ensures t * q >= q
  {
  }

  lemma Distribute(a: int, b: int, c: int)
    ensures (a + b) * c == a * c + b * c && c * (a + b) == c * a + c * b
  {
  }

  lemma ModAddMultiple(a: int, k: int, m: int)
    requires m > 0
    ensures (a + k * m) % m == a % m
  {
    assert a + k * m == (a / m + k) * m + a % m;
    DivModUnique(a + k * m, m, a / m + k, a % m);
  }

  lemma MultipleMod(k: int, m: int)
    requires m > 0
    ensures (k * m) % m == 0
  {
    ModAddMultiple(0, k, m);
  }

  /** The quotient witnessing that `a` and `b` leave the same remainder. */
  lemma CongruentWitness(a: int, b: int, m: int) returns (k: int)
    requires m > 0 && a % m == b % m
    ensures a == b + k * m
  {
    k := a / m - b / m;
    assert a == m * (a / m) + a % m;
    assert b == m * (b / m) + b % m;
  }

  lemma CongruentMul(a: int, b: int, c: int, d: int, m: int)
    requires m > 0 && a % m == b % m && c % m == d % m
    ensures (a * c) % m == (b * d) % m
  {
    var k := CongruentWitness(a, b, m);
    var l := CongruentWitness(c, d, m);
    var t := b * l + k * d + k * l * m;
    assert a * c == b * d + t * m by {
      calc {
        a * c;
        (b + k * m) * (d + l * m);
        b * d + b * (l * m) + (k * m) * d + (k * m) * (l * m);
        b * d + (b * l) * m + (k * d) * m + (k * l * m) * m;
        b * d + (b * l + k * d + k * l * m) * m;
      }
    }
    ModAddMultiple(b * d, t, m);
  }

  lemma CongruentAdd(a: int, b: int, c: int, d: int, m: int)
    requires m > 0 && a % m == b % m && c % m == d % m
    ensures (a + c) % m == (b + d) % m
  {
    var k := CongruentWitness(a, b, m);
    var l := CongruentWitness(c, d, m);
    assert a + c == (b + d) + (k + l) * m;
    ModAddMultiple(b + d, k + l, m);
  }

  lemma ModMod(a: int, m: int)
    requires m > 0
    ensures (a % m) % m == a % m
  {
    DivModUnique(a % m, m, 0, a % m);
  }

  /** Reducing both factors first does not change a product's residue. */
  lemma MulMod(a: int, b: int, m: int)
    requires m > 0
    ensures ((a % m) * (b % m)) % m == (a * b) % m
    ensures ((a % m) * b) % m == (a * b) % m
    ensures (a * (b % m)) % m == (a * b) % m
  {
    ModMod(a, m);
    ModMod(b, m);
    CongruentMul(a % m, a, b % m, b, m);
    CongruentMul(a % m, a, b, b, m);
    CongruentMul(a, a, b % m, b, m);
  }

  // ------------------------------------------------------------------ powers

  function Pow(b: int, e: nat): int {
    if e == 0 then 1 else b * Pow(b, e - 1)
  }

  lemma {:induction false} PowAdd(b: int, d: nat, e: nat)
    ensures Pow(b, d + e) == Pow(b, d) * Pow(b, e)
  {
    if d != 0 {
      PowAdd(b, d - 1, e);
      calc {
        Pow(b, d + e);
        b * Pow(b, d - 1 + e);
        b * (Pow(b, d - 1) * Pow(b, e));
        (b * Pow(b, d - 1)) * Pow(b, e);
        Pow(b, d) * Pow(b, e);
      }
    }
  }

  lemma {:induction false} PowMulBase(a: int, b: int, e: nat)
    ensures Pow(a * b, e) == Pow(a, e) * Pow(b, e)
  {
    if e != 0 {
      PowMulBase(a, b, e - 1);
      Interchange(a, b, Pow(a, e - 1), Pow(b, e - 1));
    }
  }

  lemma Interchange(a: int, b: int, x: int, y: int)
    ensures (a * b) * (x * y) == (a * x) * (b * y)
  {
    calc {
      (a * b) * (x * y);
      a * (b * (x * y));
      a * (x * (b * y));
      (a * x) * (b * y);
    }
  }

  lemma {:induction false} PowPow(b: int, d: nat, e: nat)
    ensures 0 <= d * e && Pow(Pow(b, d), e) == Pow(b, d * e)
  {
    if e != 0 {
      PowPow(b, d, e - 1);
      assert d * e == d + d * (e - 1);
      PowAdd(b, d, d * (e - 1));
    }
  }

  lemma {:induction false} PowOne(e: nat)
    ensures Pow(1, e) == 1
  {
    if e != 0 { PowOne(e - 1); }
  }

  lemma {:induction false} PowPositive(b: nat, e: nat)
    ensures Pow(b, e) >= 0
    ensures b > 0 ==> Pow(b, e) > 0
  {
    if e != 0 { PowPositive(b, e - 1); }
  }

  function TwoTo(k: nat): (p: nat)
    ensures p > 0
  {
    if k == 0 then 1 else 2 * TwoTo(k - 1)
  }

  lemma {:induction false} TwoToAdd(j: nat, k: nat)
    ensures TwoTo(j + k) == TwoTo(j) * TwoTo(k)
  {
    if j != 0 { TwoToAdd(j - 1, k); }
  }

  lemma {:induction false} CongruentPow(a: int, b: int, e: nat, m: int)
    requires m > 0 && a % m == b % m
    ensures Pow(a, e) % m == Pow(b, e) % m
  {
    if e != 0 {
      CongruentPow(a, b, e - 1, m);
      CongruentMul(a, b, Pow(a, e - 1), Pow(b, e - 1), m);
    }
  }

  /** `(1 + x)^n == 1 + n x` up to a multiple of `x^2`. */
  lemma {:induction false} LinearExpansion(x: int, n: nat) returns (k: int)
    ensures Pow(1 + x, n) == 1 + n * x + k * (x * x)
  {
    if n == 0 {
      k := 0;
    } else {
      var j := LinearExpansion(x, n - 1);
      k := n - 1 + j + j * x;
      calc {
        Pow(1 + x, n);
        (1 + x) * (1 + (n - 1) * x + j * (x * x));
        1 + (n - 1) * x + j * (x * x) + x * (1 + (n - 1) * x + j * (x * x));
        { assert x * (1 + (n - 1) * x + j * (x * x)) == x + (n - 1) * (x * x) + (j * x) * (x * x); }
        1 + (n - 1) * x + x + (n - 1) * (x * x) + j * (x * x) + (j * x) * (x * x);
        { assert (n - 1) * (x * x) + j * (x * x) + (j * x) * (x * x) == k * (x * x); }
        1 + n * x + k * (x * x);
      }
    }
  }

  // ------------------------------------------------------- greatest divisors

  /** `d` divides `n`; only positive divisors are ever asked about. */
  predicate Divides(d: nat, n: int)
  {
    d > 0 && n % d == 0
  }

  lemma DividesWitness(d: nat, n: int) returns (k: int)
    requires Divides(d, n)
    ensures n == k * d
  {
    k := n / d;
  }

  lemma DividesFromWitness(d: nat, k: int)
    requires d > 0
    ensures Divides(d, k * d) && Divides(d, d * k)
  {
    MultipleMod(k, d);
    assert d * k == k * d;
  }

  lemma DividesCombination(d: nat, a: int, b: int, x: int, y: int)
    requires Divides(d, a) && Divides(d, b)
    ensures Divides(d, a * x + b * y)
  {
    var k := DividesWitness(d, a);
    var l := DividesWitness(d, b);
    assert a * x + b * y == (k * x + l * y) * d by {
      assert (k * d) * x == (k * x) * d;
      assert (l * d) * y == (l * y) * d;
    }
    DividesFromWitness(d, k * x + l * y);
  }

  lemma DividesBounds(d: nat, n: nat)
    requires Divides(d, n) && n > 0
    ensures d <= n
  {
    var k := DividesWitness(d, n);
    assert k <= 0 ==> k * d <= 0;
    assert k >= 1 ==> k * d >= d;
  }

  lemma DividesTransitive(d: nat, e: nat, n: int)
    requires Divides(d, e) && Divides(e, n)
    ensures Divides(d, n)
  {
    var k := DividesWitness(d, e);
    var l := DividesWitness(e, n);
    assert n == (l * k) * d;
    DividesFromWitness(d, l * k);
  }

  ghost predicate IsPrime(p: int)
  {
    p > 1 && forall d: nat :: Divides(d, p) && 1 < d ==> d >= p
  }

  lemma PrimeDivisor(p: nat, d: nat)
    requires IsPrime(p) && Divides(d, p)
    ensures d == 1 || d == p
  {
    DividesBounds(d, p);
  }

  // ---------------------------------------------------- binomial coefficients

  function Choose(n: nat, k: nat): nat {
    if k == 0 then 1
    else if n == 0 then 0
    else Choose(n - 1, k - 1) + Choose(n - 1, k)
  }

  lemma {:induction false} ChooseBeyond(n: nat, k: nat)
    ensures k > n ==> Choose(n, k) == 0
    ensures Choose(n, n) == 1
  {
    if n != 0 {
      ChooseBeyond(n - 1, k);
      if k > 0 { ChooseBeyond(n - 1, k - 1); }
      ChooseBeyond(n - 1, n);
      ChooseBeyond(n - 1, n - 1);
    }
  }

  /** `k * C(n, k) == n * C(n-1, k-1)`. */
  lemma {:induction false} ChooseAbsorb(n: nat, k: nat)
    requires n >= 1 && k >= 1
    ensures k * Choose(n, k) == n * Choose(n - 1, k - 1)
  {
    if n == 1 {
      if k > 1 { ChooseBeyond(1, k); ChooseBeyond(0, k - 1); }
    } else {
      var a, b := Choose(n - 1, k - 1), Choose(n - 1, k);
      ChooseAbsorb(n - 1, k);
      var d := Choose(n - 2, k - 1);
      var c := if k == 1 then 0 else Choose(n - 2, k - 2);
      assert (k - 1) * a == (n - 1) * c && a == c + d by {
        if k > 1 { ChooseAbsorb(n - 1, k - 1); }
      }
      AbsorbAlgebra(n, k, a, b, c, d);
    }
  }

  lemma AbsorbAlgebra(n: int, k: int, a: int, b: int, c: int, d: int)
    requires a == c + d && (k - 1) * a == (n - 1) * c && k * b == (n - 1) * d
    ensures k * (a + b) == n * a
  {
    calc {
      k * (a + b);
      (k - 1) * a + a + k * b;
      (n - 1) * c + a + (n - 1) * d;
      (n - 1) * (c + d) + a;
      n * a;
    }
  }

  /** The first `m + 1` terms of the expansion of `(1 + a)^n`. */
  function BinomialSum(a: nat, n: nat, m: nat): int {
    var t := Choose(n, m) * Pow(a, m);
    if m == 0 then t else BinomialSum(a, n, m - 1) + t
  }

  lemma {:induction false} BinomialPascal(a: nat, n: nat, m: nat)
    ensures BinomialSum(a, n + 1, m + 1) == BinomialSum(a, n, m + 1) + a * BinomialSum(a, n, m)
  {
    var x := Pow(a, m);
    var cl, cr := Choose(n, m), Choose(n, m + 1);
    assert Choose(n + 1, m + 1) == cl + cr;
    assert Pow(a, m + 1) == a * x;
    assert (cl + cr) * (a * x) == cr * (a * x) + a * (cl * x);
    if m == 0 {
      assert BinomialSum(a, n + 1, 0) == 1 == BinomialSum(a, n, 0);
      assert BinomialSum(a, n, 0) == cl * x;
    } else {
      BinomialPascal(a, n, m - 1);
      var s := BinomialSum(a, n, m - 1);
      assert BinomialSum(a, n, m) == s + cl * x;
      assert a * (s + cl * x) == a * s + a * (cl * x);
    }
  }

  lemma {:induction false} BinomialTheorem(a: nat, n: nat)
    ensures BinomialSum(a, n, n) == Pow(1 + a, n)
  {
    if n != 0 {
      var s := BinomialSum(a, n - 1, n - 1);
      BinomialTheorem(a, n - 1);
      BinomialPascal(a, n - 1, n - 1);
      assert BinomialSum(a, n - 1, n) == s by {
        ChooseBeyond(n - 1, n);
        assert Choose(n - 1, n) * Pow(a, n) == 0;
      }
      assert s + a * s == (1 + a) * s;
    }
  }
}
