/**
 7 is a primitive root modulo `2^64 - 59`: every number the prime does not divide is a power
 of 7. The certificate is one power of 7 for each prime divisor of
 `2^64 - 60 == 2^2 * 11 * 137 * 547 * 5594472617641`.
 */
module PrimitiveRoot {
  import opened NumberTheory
  import opened ModularArithmetic
  import opened Primes
  import opened CompactPrime

  // ------------------------------------------------------------ the powers

  function SevenPower(d: nat): nat
    requires d < 16
  {
    [1, 7, 49, 343, 2401, 16807, 117649, 823543, 5764801, 40353607, 282475249, 1977326743, 13841287201,
     96889010407, 678223072849, 4747561509943][d]
  }

  lemma SevenPowers(d: nat)
    requires d < 16
    ensures Pow(7, d) == SevenPower(d)
    decreases d
  {
    if d > 0 { SevenPowers(d - 1); }
  }

  lemma FirstSeven(d: nat) returns (k: nat)
    requires d < 16
    ensures k == d && Pow(7, k) % COMPACT_N == SevenPower(d)
  {
    k := d;
    SevenPowers(d);
  }

  lemma SevenDigit(e: nat, d: nat, t: nat, x: nat, a: nat, b: nat, c: nat, f: nat, y: nat, n: nat) returns (k: nat)
    requires d < 16 && SevenPower(d) == t && n > 0 && Pow(7, e) % n == x
    requires Squarings(t, x, a, b, c, f, y, n)
    ensures k == 16 * e + d && Pow(7, k) % n == y
  {
    SevenPowers(d);
    k := NextPower(7, e, d, t, x, a, b, c, f, y, n);
  }

  predicate Product(s: nat, t: nat, y: nat, n: nat)
    requires n > 0
  {
    (s * t) % n == y
  }

  lemma Combine(g: nat, i: nat, j: nat, s: nat, t: nat, y: nat, n: nat)
    requires n > 0 && Pow(g, i) % n == s && Pow(g, j) % n == t && Product(s, t, y, n)
    ensures Pow(g, i + j) % n == y
  {
    PowAdd(g, i, j);
    MulMod(Pow(g, i), Pow(g, j), n);
  }

  lemma SevenToQPart1() returns (k: nat)
    ensures k + 1 == 5335305 && Pow(7, k) % 18446744073709551557 == 13142506113768802704
  {
    assert Squarings(7, 16807, 282475249, 79792266297612001, 12254184449241318778, 12061797395292962236,
                     10645605472212529424, 18446744073709551557);
    assert Squarings(117649, 10645605472212529424, 16169271547306464080, 5850316774555401858, 1012397369808684087,
                     14428543151626284830, 15836838854140137973, 18446744073709551557);
    assert Squarings(40353607, 15836838854140137973, 6415388394982404263, 3949054279461898205, 4703400282424184113,
                     3460198729296482133, 14096117745959088765, 18446744073709551557);
    assert Squarings(1, 14096117745959088765, 14075574273359581133, 5462961054525181712, 14295453484071534888,
                     18312645539152374657, 18312645539152374657, 18446744073709551557);
    assert Squarings(5764801, 18312645539152374657, 5050892777817941034, 6007741511142083498, 72817512359164397,
                     11691209888912587629, 13142506113768802704, 18446744073709551557);
    k := FirstSeven(5);
    k := SevenDigit(k, 1, 7, 16807, 282475249, 79792266297612001, 12254184449241318778, 12061797395292962236,
                    10645605472212529424, 18446744073709551557);
    k := SevenDigit(k, 6, 117649, 10645605472212529424, 16169271547306464080, 5850316774555401858,
                    1012397369808684087, 14428543151626284830, 15836838854140137973, 18446744073709551557);
    k := SevenDigit(k, 9, 40353607, 15836838854140137973, 6415388394982404263, 3949054279461898205,
                    4703400282424184113, 3460198729296482133, 14096117745959088765, 18446744073709551557);
    k := SevenDigit(k, 0, 1, 14096117745959088765, 14075574273359581133, 5462961054525181712, 14295453484071534888,
                    18312645539152374657, 18312645539152374657, 18446744073709551557);
    k := SevenDigit(k, 8, 5764801, 18312645539152374657, 5050892777817941034, 6007741511142083498, 72817512359164397,
                    11691209888912587629, 13142506113768802704, 18446744073709551557);
  }

  lemma SevenToQ() returns (k: nat)
    ensures k + 1 == 5594472617642 && Pow(7, k) % 18446744073709551557 == 10760120558423526716
  {
    assert Squarings(96889010407, 13142506113768802704, 10250850205143532690, 16275870201705692045,
                     9552508725961425650, 7400302553913822770, 5845276735662568045, 18446744073709551557);
    assert Squarings(40353607, 5845276735662568045, 5453461553337034199, 16889039386412863918, 9118957462863558629,
                     15970321688023522041, 3970198420905559080, 18446744073709551557);
    assert Squarings(117649, 3970198420905559080, 2509901367825018467, 1434039013319837413, 17653159769676092830,
                     2455020000311800656, 9976054612586649795, 18446744073709551557);
    assert Squarings(282475249, 9976054612586649795, 17186175953846254858, 16596971040584653220, 1479476299817500735,
                     7304151970457041067, 16320864645116811623, 18446744073709551557);
    assert Squarings(40353607, 16320864645116811623, 10925543777592679042, 3256148394900007903, 9227727478354896080,
                     7289831941586234730, 10760120558423526716, 18446744073709551557);
    k := SevenToQPart1();
    k := SevenDigit(k, 13, 96889010407, 13142506113768802704, 10250850205143532690, 16275870201705692045,
                    9552508725961425650, 7400302553913822770, 5845276735662568045, 18446744073709551557);
    k := SevenDigit(k, 9, 40353607, 5845276735662568045, 5453461553337034199, 16889039386412863918,
                    9118957462863558629, 15970321688023522041, 3970198420905559080, 18446744073709551557);
    k := SevenDigit(k, 6, 117649, 3970198420905559080, 2509901367825018467, 1434039013319837413, 17653159769676092830,
                    2455020000311800656, 9976054612586649795, 18446744073709551557);
    k := SevenDigit(k, 10, 282475249, 9976054612586649795, 17186175953846254858, 16596971040584653220,
                    1479476299817500735, 7304151970457041067, 16320864645116811623, 18446744073709551557);
    k := SevenDigit(k, 9, 40353607, 16320864645116811623, 10925543777592679042, 3256148394900007903,
                    9227727478354896080, 7289831941586234730, 10760120558423526716, 18446744073709551557);
  }

  lemma SevenOverQ() returns (k: nat)
    ensures k + 1 == 3297317 && Pow(7, k) % 18446744073709551557 == 15879299558148181875
  {
    assert Squarings(49, 343, 117649, 13841287201, 7113790643470898831, 3085511579762556701, 3616114818688865893,
                     18446744073709551557);
    assert Squarings(16807, 3616114818688865893, 6708427641812857077, 9398342340677843325, 8179082529442880256,
                     12026109517465993374, 1847844415394226769, 18446744073709551557);
    assert Squarings(1, 1847844415394226769, 3278789322754560794, 6037645892624331693, 1023475639862908934,
                     6926903800869823713, 6926903800869823713, 18446744073709551557);
    assert Squarings(49, 6926903800869823713, 13092341513541627600, 5846152813797459828, 10054229987439487411,
                     9442356937032948075, 1506888071875666750, 18446744073709551557);
    assert Squarings(2401, 1506888071875666750, 9643378618567172152, 14564313561011554282, 859330528338873838,
                     10163463125781830629, 15879299558148181875, 18446744073709551557);
    k := FirstSeven(3);
    k := SevenDigit(k, 2, 49, 343, 117649, 13841287201, 7113790643470898831, 3085511579762556701, 3616114818688865893,
                    18446744073709551557);
    k := SevenDigit(k, 5, 16807, 3616114818688865893, 6708427641812857077, 9398342340677843325, 8179082529442880256,
                    12026109517465993374, 1847844415394226769, 18446744073709551557);
    k := SevenDigit(k, 0, 1, 1847844415394226769, 3278789322754560794, 6037645892624331693, 1023475639862908934,
                    6926903800869823713, 6926903800869823713, 18446744073709551557);
    k := SevenDigit(k, 2, 49, 6926903800869823713, 13092341513541627600, 5846152813797459828, 10054229987439487411,
                    9442356937032948075, 1506888071875666750, 18446744073709551557);
    k := SevenDigit(k, 4, 2401, 1506888071875666750, 9643378618567172152, 14564313561011554282, 859330528338873838,
                    10163463125781830629, 15879299558148181875, 18446744073709551557);
  }

  ghost predicate SevenMultiples(q: nat) {
    && Pow(7, q) % 18446744073709551557 == 10760120558423526716
    && Pow(7, 2 * q) % 18446744073709551557 == 499828824007467063
    && Pow(7, 4 * q) % 18446744073709551557 == 11099382530972846093
    && Pow(7, 5 * q) % 18446744073709551557 == 6844334277919420524
    && Pow(7, 7 * q) % 18446744073709551557 == 4211621883493499400
    && Pow(7, 8 * q) % 18446744073709551557 == 4748848864458159945
    && Pow(7, 9 * q) % 18446744073709551557 == 6846681454808793220
    && Pow(7, 12 * q) % 18446744073709551557 == 801867702993927082
    && Pow(7, 14 * q) % 18446744073709551557 == 11625828519750269273
  }

  lemma MultiplesOfQ(q: nat)
    requires Pow(7, q) % 18446744073709551557 == 10760120558423526716
    ensures SevenMultiples(q)
  {
    assert Product(10760120558423526716, 10760120558423526716, 499828824007467063, 18446744073709551557);
    assert Product(499828824007467063, 499828824007467063, 11099382530972846093, 18446744073709551557);
    assert Product(11099382530972846093, 10760120558423526716, 6844334277919420524, 18446744073709551557);
    assert Product(6844334277919420524, 499828824007467063, 4211621883493499400, 18446744073709551557);
    assert Product(11099382530972846093, 11099382530972846093, 4748848864458159945, 18446744073709551557);
    assert Product(4748848864458159945, 10760120558423526716, 6846681454808793220, 18446744073709551557);
    assert Product(4748848864458159945, 11099382530972846093, 801867702993927082, 18446744073709551557);
    assert Product(4211621883493499400, 4211621883493499400, 11625828519750269273, 18446744073709551557);
    Combine(7, q, q, 10760120558423526716, 10760120558423526716, 499828824007467063, 18446744073709551557);
    Combine(7, 2 * q, 2 * q, 499828824007467063, 499828824007467063, 11099382530972846093, 18446744073709551557);
    Combine(7, 4 * q, q, 11099382530972846093, 10760120558423526716, 6844334277919420524, 18446744073709551557);
    Combine(7, 5 * q, 2 * q, 6844334277919420524, 499828824007467063, 4211621883493499400, 18446744073709551557);
    Combine(7, 4 * q, 4 * q, 11099382530972846093, 11099382530972846093, 4748848864458159945, 18446744073709551557);
    Combine(7, 8 * q, q, 4748848864458159945, 10760120558423526716, 6846681454808793220, 18446744073709551557);
    Combine(7, 8 * q, 4 * q, 4748848864458159945, 11099382530972846093, 801867702993927082, 18446744073709551557);
    Combine(7, 7 * q, 7 * q, 4211621883493499400, 4211621883493499400, 11625828519750269273, 18446744073709551557);
  }

  lemma SevenOverTwo(q: nat) returns (k: nat)
    requires SevenMultiples(q)
    ensures k == 1648658 * q && Pow(7, k) % 18446744073709551557 == 18446744073709551556
  {
    assert Squarings(6846681454808793220, 10760120558423526716, 499828824007467063, 11099382530972846093,
                     4748848864458159945, 4997782476097542378, 5259185177612048437, 18446744073709551557);
    assert Squarings(499828824007467063, 5259185177612048437, 18138578255047500178, 9018379485242468563,
                     12794249022049044871, 9061292849773103415, 10377273603410355148, 18446744073709551557);
    assert Squarings(4748848864458159945, 10377273603410355148, 1574396073687867824, 11005162693302610305,
                     3392885339570055481, 9917654169358691367, 5282401866137784418, 18446744073709551557);
    assert Squarings(10760120558423526716, 5282401866137784418, 9620561888259640813, 16842966944820618252,
                     7315454957856869549, 10706575925351277247, 13833105787507955741, 18446744073709551557);
    assert Squarings(499828824007467063, 13833105787507955741, 3807871576374625997, 13603603024533668111,
                     5967053851018088100, 2240111697497435133, 18446744073709551556, 18446744073709551557);
    k := q;
    k := NextPower(7, k, 9 * q, 6846681454808793220, 10760120558423526716, 499828824007467063, 11099382530972846093,
                   4748848864458159945, 4997782476097542378, 5259185177612048437, 18446744073709551557);
    k := NextPower(7, k, 2 * q, 499828824007467063, 5259185177612048437, 18138578255047500178, 9018379485242468563,
                   12794249022049044871, 9061292849773103415, 10377273603410355148, 18446744073709551557);
    k := NextPower(7, k, 8 * q, 4748848864458159945, 10377273603410355148, 1574396073687867824, 11005162693302610305,
                   3392885339570055481, 9917654169358691367, 5282401866137784418, 18446744073709551557);
    k := NextPower(7, k, q, 10760120558423526716, 5282401866137784418, 9620561888259640813, 16842966944820618252,
                   7315454957856869549, 10706575925351277247, 13833105787507955741, 18446744073709551557);
    k := NextPower(7, k, 2 * q, 499828824007467063, 13833105787507955741, 3807871576374625997, 13603603024533668111,
                   5967053851018088100, 2240111697497435133, 18446744073709551556, 18446744073709551557);
  }

  lemma SevenOverEleven(q: nat) returns (k: nat)
    requires SevenMultiples(q)
    ensures k == 299756 * q && Pow(7, k) % 18446744073709551557 == 4218710822462727575
  {
    assert Squarings(6846681454808793220, 11099382530972846093, 4748848864458159945, 4997782476097542378,
                     18175571533068684935, 3797064592479546493, 2293633897483024315, 18446744073709551557);
    assert Squarings(499828824007467063, 2293633897483024315, 7219451530683971908, 2298649274321271278,
                     11414812509031298163, 9398922900609939544, 3755010012322552287, 18446744073709551557);
    assert Squarings(11625828519750269273, 3755010012322552287, 11640993086493983112, 16548011106713936877,
                     10143974851203316501, 17581772874082427685, 10284308257662186235, 18446744073709551557);
    assert Squarings(801867702993927082, 10284308257662186235, 16970715418620748462, 14811639268276423894,
                     7729265186666887169, 361032663237816565, 4218710822462727575, 18446744073709551557);
    k := 4 * q;
    k := NextPower(7, k, 9 * q, 6846681454808793220, 11099382530972846093, 4748848864458159945, 4997782476097542378,
                   18175571533068684935, 3797064592479546493, 2293633897483024315, 18446744073709551557);
    k := NextPower(7, k, 2 * q, 499828824007467063, 2293633897483024315, 7219451530683971908, 2298649274321271278,
                   11414812509031298163, 9398922900609939544, 3755010012322552287, 18446744073709551557);
    k := NextPower(7, k, 14 * q, 11625828519750269273, 3755010012322552287, 11640993086493983112,
                   16548011106713936877, 10143974851203316501, 17581772874082427685, 10284308257662186235,
                   18446744073709551557);
    k := NextPower(7, k, 12 * q, 801867702993927082, 10284308257662186235, 16970715418620748462, 14811639268276423894,
                   7729265186666887169, 361032663237816565, 4218710822462727575, 18446744073709551557);
  }

  lemma SevenOverHundredThirtySeven(q: nat) returns (k: nat)
    requires SevenMultiples(q)
    ensures k == 24068 * q && Pow(7, k) % 18446744073709551557 == 5179764283884716009
  {
    assert Squarings(11625828519750269273, 6844334277919420524, 12532564892913705659, 15147190646165562450,
                     2756780777322956065, 9257751873196761354, 15899513320773448388, 18446744073709551557);
    assert Squarings(1, 15899513320773448388, 15401204860501282318, 16087253301388203086, 5903955044079494016,
                     16469537003382855610, 16469537003382855610, 18446744073709551557);
    assert Squarings(11099382530972846093, 16469537003382855610, 11469435736337126770, 2265391005078063902,
                     11206640849509735842, 16014103450175897278, 5179764283884716009, 18446744073709551557);
    k := 5 * q;
    k := NextPower(7, k, 14 * q, 11625828519750269273, 6844334277919420524, 12532564892913705659,
                   15147190646165562450, 2756780777322956065, 9257751873196761354, 15899513320773448388,
                   18446744073709551557);
    k := NextPower(7, k, 0, 1, 15899513320773448388, 15401204860501282318, 16087253301388203086, 5903955044079494016,
                   16469537003382855610, 16469537003382855610, 18446744073709551557);
    k := NextPower(7, k, 4 * q, 11099382530972846093, 16469537003382855610, 11469435736337126770, 2265391005078063902,
                   11206640849509735842, 16014103450175897278, 5179764283884716009, 18446744073709551557);
  }

  lemma SevenOverFiveHundredFortySeven(q: nat) returns (k: nat)
    requires SevenMultiples(q)
    ensures k == 6028 * q && Pow(7, k) % 18446744073709551557 == 12922235061212681601
  {
    assert Squarings(4211621883493499400, 10760120558423526716, 499828824007467063, 11099382530972846093,
                     4748848864458159945, 4997782476097542378, 6789704123464674547, 18446744073709551557);
    assert Squarings(4748848864458159945, 6789704123464674547, 10343298128398427449, 16188399270504607972,
                     6899416732219801210, 277850984218709203, 16087253301388203086, 18446744073709551557);
    assert Squarings(801867702993927082, 16087253301388203086, 5903955044079494016, 16469537003382855610,
                     11469435736337126770, 2265391005078063902, 12922235061212681601, 18446744073709551557);
    k := q;
    k := NextPower(7, k, 7 * q, 4211621883493499400, 10760120558423526716, 499828824007467063, 11099382530972846093,
                   4748848864458159945, 4997782476097542378, 6789704123464674547, 18446744073709551557);
    k := NextPower(7, k, 8 * q, 4748848864458159945, 6789704123464674547, 10343298128398427449, 16188399270504607972,
                   6899416732219801210, 277850984218709203, 16087253301388203086, 18446744073709551557);
    k := NextPower(7, k, 12 * q, 801867702993927082, 16087253301388203086, 5903955044079494016, 16469537003382855610,
                   11469435736337126770, 2265391005078063902, 12922235061212681601, 18446744073709551557);
  }

  // ------------------------------------------------------ the order of seven

  /** A prime exponent that does not trivialise `b` divides every exponent that does. */
  lemma PrimeOrderDivides(b: nat, n: nat, r: nat, k: nat)
    requires n > 1 && IsPrime(r) && Pow(b, r) % n == 1 && Pow(b, k) % n == 1 && b % n != 1
    ensures Divides(r, k)
  {
    if !Divides(r, k) {
      PrimeCoprime(r, k);
      var (g, x, y) := ExtGcd(k, r);
      CoprimeIffExtGcdOne(k, r);
      TwoExponents(b, n, k, r, x, y);
      assert false;
    }
  }

  /** The cofactor power of `g` for the divisor `r` of `n - 1` is not 1. */
  ghost predicate Cofactor(n: nat, g: nat, r: nat, m: nat)
    requires n > 0
  {
    m * r == n - 1 && Pow(g, m) % n != 1
  }

  lemma UnitPowers(n: nat, g: nat, k: nat, m: nat)
    requires n > 1 && Pow(g, k) % n == 1
    ensures Pow(Pow(g, m), k) % n == 1 && Pow(Pow(g, k), m) % n == 1
  {
    PowPow(g, m, k);
    PowPow(g, k, m);
    assert m * k == k * m;
    DivModUnique(1, n, 0, 1);
    CongruentPow(Pow(g, k), 1, m, n);
    PowOne(m);
  }

  /** Then `r` divides every exponent whose power is 1. */
  lemma CofactorDivides(n: nat, g: nat, r: nat, m: nat, k: nat)
    requires IsPrime(n) && !Divides(n, g) && IsPrime(r) && Cofactor(n, g, r, m) && Pow(g, k) % n == 1
    ensures Divides(r, k)
  {
    PowPositive(g, m);
    PowPow(g, m, r);
    Fermat(n, g);
    UnitPowers(n, g, k, m);
    PrimeOrderDivides(Pow(g, m), n, r, k);
  }

  /** And 4 divides it when `n - 1` is twice the even `m`, as half of it trivialises the same power. */
  lemma HalfDivides(n: nat, g: nat, m: nat, a: nat, k: nat, half: nat)
    requires IsPrime(n) && !Divides(n, g) && IsPrime(2) && Cofactor(n, g, 2, m) && m == 2 * a && k == 2 * half
    requires Pow(g, k) % n == 1
    ensures Divides(2, half)
  {
    PowPositive(g, m);
    PowPow(g, m, 2);
    Fermat(n, g);
    UnitPowers(n, g, k, a);
    Regroup(g, m, a, k, half);
    PrimeOrderDivides(Pow(g, m), n, 2, half);
  }

  lemma Regroup(g: nat, m: nat, a: nat, k: nat, half: nat)
    requires m == 2 * a && k == 2 * half
    ensures Pow(Pow(g, m), half) == Pow(Pow(g, k), a)
  {
    var twice := 2 * a;
    assert twice * half == (half * 2) * a;
    PowPow(g, m, half);
    PowPow(g, k, a);
  }

  lemma PrimeJoins(a: nat, r: nat, k: nat)
    requires IsPrime(r) && Divides(a, k) && Divides(r, k) && !Divides(r, a)
    ensures Divides(a * r, k)
  {
    var c := DividesWitness(a, k);
    assert k == a * c;
    Euclid(r, a, c);
    var d := DividesWitness(r, c);
    assert k == d * (a * r) && a * r > 0;
    DividesFromWitness(a * r, d);
  }

  lemma SmallFactors()
    ensures IsPrime(2) && IsPrime(11) && IsPrime(137) && IsPrime(547)
  {
    PrimeByTrial(2, 1);
    PrimeByTrial(11, 3);
    PrimeByTrial(137, 11);
    Prime547();
  }

  lemma Prime547()
    ensures IsPrime(547)
  {
    PrimeByTrial(547, 23);
  }

  lemma FactorsJoin(q: nat, m: nat, k: nat)
    requires IsPrime(q) && q > m == 3297316
    requires Divides(4, k) && Divides(11, k) && Divides(137, k) && Divides(547, k) && Divides(q, k)
    ensures Divides(m * q, k)
  {
    SmallFactors();
    PrimeJoins(4, 11, k);
    PrimeJoins(44, 137, k);
    PrimeJoins(6028, 547, k);
    if Divides(q, m) { DividesBounds(q, m); }
    PrimeJoins(m, q, k);
  }

  /** With a cofactor for every prime divisor of `n - 1`, only multiples of `n - 1` give 1. */
  lemma FullOrder(n: nat, g: nat, q: nat, m: nat, t: nat, a: nat, b: nat, c: nat, d: nat, k: nat)
    requires IsPrime(n) && !Divides(n, g) && IsPrime(q) && q > m == 3297316 && Cofactor(n, g, q, m)
    requires t == 2 * a && Cofactor(n, g, 2, t)
    requires Cofactor(n, g, 11, b) && Cofactor(n, g, 137, c) && Cofactor(n, g, 547, d)
    requires k > 0 && Pow(g, k) % n == 1
    ensures k >= n - 1
  {
    SmallFactors();
    FourDivides(n, g, t, a, k);
    CofactorDivides(n, g, 11, b, k);
    CofactorDivides(n, g, 137, c, k);
    CofactorDivides(n, g, 547, d, k);
    CofactorDivides(n, g, q, m, k);
    FactorsJoin(q, m, k);
    DividesBounds(n - 1, k);
  }

  lemma FourDivides(n: nat, g: nat, m: nat, a: nat, k: nat)
    requires IsPrime(n) && !Divides(n, g) && IsPrime(2) && Cofactor(n, g, 2, m) && m == 2 * a && Pow(g, k) % n == 1
    ensures Divides(4, k)
  {
    CofactorDivides(n, g, 2, m, k);
    var half := DividesWitness(2, k);
    HalfDivides(n, g, m, a, k, half);
    var quarter := DividesWitness(2, half);
    DividesFromWitness(4, quarter);
  }

  /** The exponents of 7 that give 1 modulo the prime are at least `2^64 - 60`. */
  lemma SevenOrder(n: nat, k: nat)
    requires n == COMPACT_N && k > 0 && Pow(7, k) % n == 1
    ensures k >= n - 1
  {
    var q := SevenToQ();
    CompactModulusIsPrime();
    PrimeCofactor(q);
    MultiplesOfQ(q);
    var a := SevenOverTwo(q);
    var b := SevenOverEleven(q);
    var c := SevenOverHundredThirtySeven(q);
    var d := SevenOverFiveHundredFortySeven(q);
    var m := SevenOverQ();
    FullOrder(n, 7, q, m, a, 824329 * q, b, c, d, k);
  }

  // --------------------------------------------------------- all residues

  /** The residues of the first `k` powers of 7. */
  ghost function Residues(n: nat, k: nat): set<nat>
    requires n > 0
  {
    if k == 0 then {} else Residues(n, k - 1) + {Pow(7, k - 1) % n as nat}
  }

  lemma {:induction false} ResidueHasExponent(n: nat, k: nat, x: nat) returns (v: nat)
    requires n > 0 && x in Residues(n, k)
    ensures v < k && Pow(7, v) % n == x
  {
    if x in Residues(n, k - 1) { v := ResidueHasExponent(n, k - 1, x); } else { v := k - 1; }
  }

  /** Two different exponents below the order give different residues. */
  lemma PowersDiffer(n: nat, i: nat, j: nat)
    requires n == COMPACT_N && i < j < n - 1
    ensures Pow(7, i) % n != Pow(7, j) % n
  {
    if Pow(7, i) % n == Pow(7, j) % n {
      CompactModulusIsPrime();
      var a, b := Pow(7, i), Pow(7, j - i);
      PowAdd(7, i, j - i);
      var c := CongruentWitness(a * b, a, n);
      assert a * (b - 1) == c * n;
      DividesFromWitness(n, c);
      PowerIsUnit(n, 7, i);
      PowPositive(7, i);
      Euclid(n, a, b - 1);
      var d := DividesWitness(n, b - 1);
      ModAddMultiple(1, d, n);
      DivModUnique(1, n, 0, 1);
      SevenOrder(n, j - i);
      assert false;
    }
  }

  lemma {:induction false} PowerIsUnit(n: nat, g: nat, e: nat)
    requires IsPrime(n) && !Divides(n, g)
    ensures !Divides(n, Pow(g, e))
  {
    if Divides(n, Pow(g, e)) {
      if e == 0 {
        DivModUnique(1, n, 0, 1);
      } else {
        Euclid(n, g, Pow(g, e - 1));
        PowerIsUnit(n, g, e - 1);
      }
      assert false;
    }
  }

  lemma {:induction false} ResiduesCount(n: nat, k: nat)
    requires n == COMPACT_N && k <= n - 1
    ensures |Residues(n, k)| == k && forall x :: x in Residues(n, k) ==> 0 < x < n
  {
    if k != 0 {
      ResiduesCount(n, k - 1);
      var x: nat := Pow(7, k - 1) % n;
      if x in Residues(n, k - 1) {
        var v := ResidueHasExponent(n, k - 1, x);
        PowersDiffer(n, v, k - 1);
      }
      CompactModulusIsPrime();
      PowerIsUnit(n, 7, k - 1);
    }
  }

  ghost function UpTo(k: nat): (s: set<nat>)
    ensures forall x: nat :: x in s <==> 0 < x <= k
    ensures |s| == k
  {
    if k == 0 then {} else UpTo(k - 1) + {k}
  }

  lemma SameSize(a: set<nat>, b: set<nat>)
    requires a <= b && |a| == |b|
    ensures a == b
  {
    assert b == a + (b - a);
  }

  /** Every residue that the prime does not divide is a power of 7. */
  lemma SevenGenerates(n: nat, x: nat) returns (v: nat)
    requires n == COMPACT_N && 0 < x < n
    ensures Pow(7, v) % n == x
  {
    ResiduesCount(n, n - 1);
    SameSize(Residues(n, n - 1), UpTo(n - 1));
    v := ResidueHasExponent(n, n - 1, x);
  }
}
