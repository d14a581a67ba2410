/**
 The modular-arithmetic helpers of `backend/src/crypto/paillier.ts`: binary
 exponentiation, the extended Euclidean algorithm, modular inverses, gcd and lcm.
 JavaScript's `%` takes the sign of its left operand, so it is written out as `Rem`.
 */
module ModularArithmetic {
  import opened Wrappers
  import opened NumberTheory

  datatype ArithmeticError = NoInverse(a: int, m: int)

  /** BigInt remainder: truncating, so it has the sign of `a`. */
  function Rem(a: int, m: nat): int
    requires m > 0
  {
    if a >= 0 then a % m else -((-a) % m)
  }

  /** `((a % m) + m) % m` lands on the least non-negative residue for either sign. */
  lemma RemNormalizes(a: int, m: nat)
    requires m > 0
    ensures Rem(Rem(a, m) + m, m) == a % m
  {
    if a >= 0 {
      ModAddMultiple(a % m, 1, m);
      ModMod(a, m);
    } else {
      var r := (-a) % m;
      var q := (-a) / m;
      assert -a == m * q + r;
      if r == 0 {
        assert a == (-q) * m + 0;
        DivModUnique(a, m, -q, 0);
        DivModUnique(m, m, 1, 0);
      } else {
        assert a == (-q - 1) * m + (m - r);
        DivModUnique(a, m, -q - 1, m - r);
        DivModUnique(m - r, m, 0, m - r);
      }
    }
  }

  /** One squaring step keeps `result * base^exp` fixed modulo `m`. */
  lemma PowHalving(base: nat, exp: nat, m: nat)
    requires m > 0
    ensures Pow(base, exp) == (if exp % 2 == 1 then base else 1) * Pow(base * base, exp / 2)
    ensures Pow((base * base) % m, exp / 2) % m == Pow(base * base, exp / 2) % m
  {
    var h := exp / 2;
    PowMulBase(base, base, h);
    PowAdd(base, h, h);
    ModMod(base * base, m);
    CongruentPow((base * base) % m, base * base, h, m);
    if exp % 2 == 1 {
      assert exp == (h + h) + 1;
    } else {
      assert exp == h + h;
    }
  }

  /** What `modPow` computes for a non-negative exponent. */
  function ModExp(base: nat, exp: nat, modulus: nat): nat
    requires modulus > 0
  {
    Pow(base, exp) % modulus
  }

  /** `modPow` on any exponent: a negative one never enters the loop. */
  function ModExpInt(base: nat, exp: int, modulus: nat): nat
    requires modulus > 0
  {
    if exp < 0 then 1 % modulus else ModExp(base, exp, modulus)
  }

  /** The loop body's new product has the residue of the old one. */
  lemma ModPowStep(result: nat, b: nat, e: nat, m: nat)
    requires m > 0 && e > 0
    ensures var r := if e % 2 == 1 then (result * b) % m else result;
            (r * Pow((b * b) % m, e / 2)) % m == (result * Pow(b, e)) % m
  {
    PowHalving(b, e, m);
    var tail, next := Pow(b * b, e / 2), Pow((b * b) % m, e / 2);
    if e % 2 == 1 {
      var p := result * b;
      ModMod(p, m);
      CongruentMul(p % m, p, next, tail, m);
      assert p * tail == result * (b * tail);
    } else {
      CongruentMul(result, result, next, tail, m);
    }
  }

  function Abs(x: int): nat {
    if x < 0 then -x else x
  }

  lemma {:induction false} PowSign(a: int, e: nat)
    ensures Pow(-a, e) == if e % 2 == 1 then -Pow(a, e) else Pow(a, e)
  {
    if e > 0 {
      PowSign(a, e - 1);
      assert (-a) * Pow(a, e - 1) == -(a * Pow(a, e - 1));
      assert (-a) * -Pow(a, e - 1) == a * Pow(a, e - 1);
    }
  }

  lemma AbsProduct(x: int, y: int)
    ensures Abs(x * y) == Abs(x) * Abs(y)
    ensures x >= 0 && y >= 0 ==> x * y >= 0
    ensures x <= 0 && y >= 0 ==> x * y <= 0
    ensures x >= 0 && y <= 0 ==> x * y <= 0
  {
  }

  lemma RemMagnitude(x: int, m: nat)
    requires m > 0
    ensures Abs(Rem(x, m)) == Abs(x) % m
    ensures x >= 0 ==> Rem(x, m) >= 0
    ensures x <= 0 ==> Rem(x, m) <= 0
  {
  }

  /** A remainder is known by its magnitude and the sign of its power. */
  lemma RemOfPower(base: int, exp: nat, m: nat, result: int)
    requires m > 0 && Abs(result) == Pow(Abs(base), exp) % m
    requires if base < 0 && exp % 2 == 1 then result <= 0 else result >= 0
    ensures result == Rem(Pow(base, exp), m)
  {
    PowPositive(Abs(base), exp);
    if base < 0 { PowSign(-base, exp); }
  }

  lemma PowIsExp(base: nat, exp: int, m: nat)
    requires m > 0
    ensures exp >= 0 ==> Rem(Pow(base, exp), m) == ModExpInt(base, exp, m)
  {
    if exp >= 0 { PowPositive(base, exp); }
  }

  /** Part way through the loop: what is still to come times what is there is the power, up to signs. */
  ghost predicate Exponentiating(base: int, exp: nat, m: nat, result: int, b: int, e: nat)
    requires m > 0
  {
    && e <= exp && Abs(result) < m
    && (Abs(result) * Pow(Abs(b), e)) % m == Pow(Abs(base), exp) % m
    && (b >= 0 || (base < 0 && e == exp && result == 1))
    && (if e == exp then result == 1 && (base < 0 ==> b <= 0)
        else if base < 0 && exp % 2 == 1 then result <= 0 else result >= 0)
  }

  lemma StartsExponentiating(base: int, exp: nat, m: nat)
    requires m > 1
    ensures Exponentiating(base, exp, m, 1, Rem(base, m), exp)
  {
    RemMagnitude(base, m);
    ModMod(Abs(base), m);
    CongruentPow(Abs(Rem(base, m)), Abs(base), exp, m);
  }

  lemma KeepsExponentiating(base: int, exp: nat, m: nat, result: int, b: int, e: nat)
    requires m > 1 && e > 0 && Exponentiating(base, exp, m, result, b, e)
    ensures Exponentiating(base, exp, m, if e % 2 == 1 then Rem(result * b, m) else result, Rem(b * b, m), e / 2)
  {
    ModPowStep(Abs(result), Abs(b), e, m);
    AbsProduct(result, b);
    AbsProduct(b, b);
    RemMagnitude(result * b, m);
    RemMagnitude(b * b, m);
  }

  lemma EndsExponentiating(base: int, exp: nat, m: nat, result: int, b: int)
    requires m > 1 && Exponentiating(base, exp, m, result, b, 0)
    ensures result == Rem(Pow(base, exp), m)
  {
    assert Abs(result) * Pow(Abs(b), 0) == Abs(result);
    SmallRemainder(Abs(result), m);
    RemOfPower(base, exp, m, result);
  }

  lemma SmallRemainder(a: nat, m: nat)
    requires a < m
    ensures a % m == a
  {
    DivModUnique(a, m, 0, a);
  }

  /** `modPow`: right-to-left binary exponentiation, with the sign JavaScript's remainder gives. */
  method ModPow(base: int, exp: int, modulus: nat) returns (result: int)
    requires modulus > 0
    ensures result == if exp < 0 then 1 % modulus else Rem(Pow(base, exp), modulus)
    ensures base >= 0 ==> result == ModExpInt(base, exp, modulus)
  {
    if base >= 0 { PowIsExp(base, exp, modulus); }
    if modulus == 1 {
      return 0;
    }
    result := 1;
    var b, e := Rem(base, modulus), exp;
    if exp >= 0 { StartsExponentiating(base, exp, modulus); }
    while e > 0
      invariant if exp < 0 then e == exp && result == 1
                else 0 <= e && Exponentiating(base, exp, modulus, result, b, e)
      decreases e
    {
      KeepsExponentiating(base, exp, modulus, result, b, e);
      if e % 2 == 1 {
        result := Rem(result * b, modulus);
      }
      b, e := Rem(b * b, modulus), e / 2;
    }
    if exp >= 0 { EndsExponentiating(base, exp, modulus, result, b); }
  }

  // ------------------------------------------------------------- extended gcd

  /** `extGcd`: Bezout coefficients, with the recursion of the source. */
  function ExtGcd(a: nat, b: nat): (r: (nat, int, int))
    ensures a * r.1 + b * r.2 == r.0
    ensures a + b > 0 ==> Divides(r.0, a) && Divides(r.0, b)
    decreases a
  {
    if a == 0 then
      assert b > 0 ==> Divides(b, b) by { if b > 0 { DividesFromWitness(b, 1); } }
      (b, 0, 1)
    else
      var (g, x, y) := ExtGcd(b % a, a);
      assert b == a * (b / a) + b % a;
      assert a * (y - (b / a) * x) + b * x == g by {
        ExtGcdAlgebra(a, b, b / a, b % a, x, y);
      }
      assert Divides(g, b) by {
        DividesCombination(g, a, b % a, b / a, 1);
      }
      (g, y - (b / a) * x, x)
  }

  lemma ExtGcdAlgebra(a: int, b: int, q: int, r: int, x: int, y: int)
    requires b == a * q + r
    ensures a * (y - q * x) + b * x == r * x + a * y
  {
    calc {
      a * (y - q * x) + b * x;
      a * y - a * (q * x) + (a * q + r) * x;
      a * y - a * (q * x) + (a * q) * x + r * x;
      { assert a * (q * x) == (a * q) * x; }
      r * x + a * y;
    }
  }

  ghost predicate Coprime(a: nat, b: nat)
  {
    forall d: nat :: Divides(d, a) && Divides(d, b) ==> d == 1
  }

  /** The first component really is the greatest common divisor. */
  lemma ExtGcdIsGreatest(a: nat, b: nat, d: nat)
    requires a + b > 0 && Divides(d, a) && Divides(d, b)
    ensures Divides(d, ExtGcd(a, b).0) && 0 < ExtGcd(a, b).0 && d <= ExtGcd(a, b).0
  {
    var (g, x, y) := ExtGcd(a, b);
    DividesCombination(d, a, b, x, y);
    assert g > 0;
    DividesBounds(d, g);
  }

  lemma CoprimeIffExtGcdOne(a: nat, b: nat)
    requires a + b > 0
    ensures Coprime(a, b) <==> ExtGcd(a, b).0 == 1
  {
    var g := ExtGcd(a, b).0;
    assert Divides(g, a) && Divides(g, b);
    if g == 1 {
      forall d: nat | Divides(d, a) && Divides(d, b) ensures d == 1 {
        ExtGcdIsGreatest(a, b, d);
      }
    }
  }

  /** `modInverse`: the throw becomes an error value. */
  function ModInverse(a: int, m: nat): (r: Result<nat, ArithmeticError>)
    requires m > 0
    ensures r.Ok? <==> Coprime(a % m, m)
    ensures r.Ok? ==> r.value < m && (a * r.value) % m == 1 % m
    ensures r.Err? ==> r.error == NoInverse(a, m)
  {
    RemNormalizes(a, m);
    var (g, x, y) := ExtGcd(Rem(Rem(a, m) + m, m), m);
    CoprimeIffExtGcdOne(a % m, m);
    if g != 1 then Err(NoInverse(a, m))
    else
      RemNormalizes(x, m);
      InverseFromBezout(a, x, y, m);
      Ok(Rem(Rem(x, m) + m, m))
  }

  lemma InverseFromBezout(a: int, x: int, y: int, m: nat)
    requires m > 0 && (a % m) * x + m * y == 1
    ensures (a * (x % m)) % m == 1 % m
  {
    MulMod(a, x, m);
    assert (a % m) * x == 1 + (-y) * m;
    ModAddMultiple(1, -y, m);
  }

  lemma CoprimeProduct(a: nat, b: nat, m: nat)
    requires m > 0 && Coprime(a, m) && Coprime(b, m)
    ensures Coprime(a * b, m)
  {
    forall d: nat | Divides(d, a * b) && Divides(d, m) ensures d == 1 {
      forall e: nat | Divides(e, a) && Divides(e, d) ensures e == 1 {
        DividesTransitive(e, d, m);
      }
      CoprimeDivides(d, a, b);
    }
  }

  lemma {:induction false} CoprimePower(a: nat, e: nat, m: nat)
    requires m > 0 && Coprime(a, m)
    ensures Pow(a, e) >= 0 && Coprime(Pow(a, e), m)
  {
    PowPositive(a, e);
    if e == 0 {
      forall d: nat | Divides(d, 1) && Divides(d, m) ensures d == 1 { DividesBounds(d, 1); }
    } else {
      CoprimePower(a, e - 1, m);
      CoprimeProduct(a, Pow(a, e - 1), m);
    }
  }

  /** A coprime factor can be cancelled from a congruence to zero. */
  lemma CoprimeDivides(m: nat, a: nat, b: int)
    requires m > 0 && Coprime(a, m) && Divides(m, a * b)
    ensures Divides(m, b)
  {
    var (g, x, y) := ExtGcd(a, m);
    CoprimeIffExtGcdOne(a, m);
    var k := DividesWitness(m, a * b);
    CancelAlgebra(a, b, m, x, y, k);
    DividesFromWitness(m, k * x + y * b);
  }

  lemma CancelAlgebra(a: int, b: int, m: int, x: int, y: int, k: int)
    requires a * x + m * y == 1 && a * b == k * m
    ensures b == (k * x + y * b) * m
  {
    calc {
      b;
      (a * x + m * y) * b;
      (a * x) * b + (m * y) * b;
      { assert (a * x) * b == (a * b) * x; assert (m * y) * b == (y * b) * m; }
      (k * m) * x + (y * b) * m;
      { assert (k * m) * x == (k * x) * m; }
      (k * x) * m + (y * b) * m;
      (k * x + y * b) * m;
    }
  }

  // -------------------------------------------------------------- gcd and lcm

  /** `gcd`: the loop computes what the recursion computes. */
  method Gcd(a: nat, b: nat) returns (g: nat)
    requires a + b > 0
    ensures g == ExtGcd(a, b).0
  {
    var x, y := a, b;
    while y != 0
      invariant x + y > 0
      invariant forall d: nat :: Divides(d, x) && Divides(d, y) <==> Divides(d, a) && Divides(d, b)
      decreases y
    {
      forall d: nat ensures Divides(d, y) ==> (Divides(d, x % y) <==> Divides(d, x)) {
        if Divides(d, y) { DividesRemainder(d, x, y); }
      }
      x, y := y, x % y;
    }
    g := x;
    DividesFromWitness(g, 1);
    MultipleMod(0, g);
    assert Divides(g, x) && Divides(g, 0);
    var e := ExtGcd(a, b).0;
    ExtGcdIsGreatest(a, b, g);
    assert Divides(e, g);
    DividesBounds(e, g);
  }

  lemma DividesRemainder(d: nat, x: nat, y: nat)
    requires Divides(d, y) && y > 0
    ensures Divides(d, x % y) <==> Divides(d, x)
  {
    var q := x / y;
    assert x == y * q + x % y;
    if Divides(d, x) { DividesCombination(d, x, y, 1, -q); assert x * 1 + y * (-q) == x % y; }
    if Divides(d, x % y) { DividesCombination(d, x % y, y, 1, q); assert (x % y) * 1 + y * q == x; }
  }

  /** `lcm`, on positive arguments as key generation calls it. */
  function Lcm(a: nat, b: nat): (l: nat)
    requires a > 0 && b > 0
    ensures l > 0 && Divides(a, l) && Divides(b, l) && l <= a * b
  {
    var g := ExtGcd(a, b).0;
    assert Divides(g, a) && Divides(g, b);
    LcmIsMultiple(a, b, g);
    (a / g) * b
  }

  lemma LcmIsMultiple(a: nat, b: nat, g: nat)
    requires a > 0 && b > 0 && Divides(g, a) && Divides(g, b)
    ensures (a / g) * b > 0 && Divides(a, (a / g) * b) && Divides(b, (a / g) * b)
    ensures (a / g) * b <= a * b
  {
    var k := DividesWitness(g, a);
    var l := DividesWitness(g, b);
    assert k == a / g by { DivModUnique(a, g, k, 0); }
    FactorBounds(a, k, g);
    SwapFactors(a, b, k, l, g);
    DividesFromWitness(b, k);
    DividesFromWitness(a, l);
    MulOrder(k, a, b);
  }

  lemma FactorBounds(a: nat, k: int, g: nat)
    requires a > 0 && a == k * g
    ensures 0 < k <= a
  {
    assert k <= 0 ==> k * g <= 0;
    assert k >= 1 && g >= 1 ==> k * g >= k;
  }

  lemma SwapFactors(a: int, b: int, k: int, l: int, g: int)
    requires a == k * g && b == l * g
    ensures k * b == l * a
  {
    assert k * (l * g) == l * (k * g);
  }

  lemma MulOrder(k: nat, a: nat, b: nat)
    requires 0 < k <= a && 0 < b
    ensures 0 < k * b <= a * b
  {
  }
}
