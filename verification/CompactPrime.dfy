/**
 `2^64 - 59` is prime. This is the modulus `COMPACT_N` of the Paillier service key and
 `PEDERSEN_P` of the range proofs (`PAILLIER_N` on chain); the source asserts its
 primality in comments and its correctness depends on it.

 The certificate is a Pocklington chain with base 2:
 71, 7 and 73 by trial division, then 2131 and 15331, then 5594472617641, then `2^64 - 59`.
 Each power of two is built one hexadecimal digit of the exponent at a time.
 */
module CompactPrime {
  import opened NumberTheory
  import opened Primes

  const COMPACT_N: nat := 18446744073709551557

  function Square(x: nat, n: nat): nat
    requires n > 0
  {
    (x * x) % n
  }

  function SmallPower(d: nat): nat
    requires d < 16
  {
    [1, 2, 4, 8, 16, 32, 64, 128, 256, 512, 1024, 2048, 4096, 8192, 16384, 32768][d]
  }

  lemma PowersOfTwo(d: nat)
    requires d < 16
    ensures Pow(2, d) == SmallPower(d)
    decreases d
  {
    if d > 0 { PowersOfTwo(d - 1); }
  }

  lemma FirstDigit(d: nat, n: nat) returns (k: nat)
    requires d < 16 && n > 0
    ensures k == d && Pow(2, k) % n == SmallPower(d) % n
  {
    k := d;
    PowersOfTwo(d);
  }

  lemma SquarePower(g: nat, e: nat, x: nat, n: nat)
    requires n > 0 && Pow(g, e) % n == x % n
    ensures Pow(g, e + e) % n == Square(x, n) % n
  {
    PowAdd(g, e, e);
    CongruentMul(Pow(g, e), x, Pow(g, e), x, n);
    ModMod(x * x, n);
  }

  /** `x`, `a`, `b`, `c`, `f` are successive squares modulo `n`, and `y` is `f` times `t`. */
  predicate Squarings(t: nat, x: nat, a: nat, b: nat, c: nat, f: nat, y: nat, n: nat)
    requires n > 0
  {
    && (x * x) % n == a
    && (a * a) % n == b
    && (b * b) % n == c
    && (c * c) % n == f
    && (f * t) % n == y
  }

  /** From `g^e == x` and `g^d == t` to `g^(16 e + d) == y`, modulo `n`. */
  lemma NextPower(g: nat, e: nat, d: nat, t: nat, x: nat, a: nat, b: nat, c: nat, f: nat, y: nat, n: nat)
    returns (k: nat)
    requires n > 0 && Pow(g, d) % n == t % n && Pow(g, e) % n == x
    requires Squarings(t, x, a, b, c, f, y, n)
    ensures k == 16 * e + d && Pow(g, k) % n == y
  {
    k := 16 * e + d;
    ModMod(Pow(g, e), n);
    SquarePower(g, e, x, n);
    SquarePower(g, 2 * e, a, n);
    SquarePower(g, 4 * e, b, n);
    SquarePower(g, 8 * e, c, n);
    PowAdd(g, 16 * e, d);
    CongruentMul(Pow(g, 16 * e), f, Pow(g, d), t, n);
    ModMod(f * t, n);
  }

  lemma NextDigit(e: nat, d: nat, t: nat, x: nat, a: nat, b: nat, c: nat, f: nat, y: nat, n: nat) returns (k: nat)
    requires d < 16 && SmallPower(d) == t && n > 0 && Pow(2, e) % n == x
    requires Squarings(t, x, a, b, c, f, y, n)
    ensures k == 16 * e + d && Pow(2, k) % n == y
  {
    PowersOfTwo(d);
    k := NextPower(2, e, d, t, x, a, b, c, f, y, n);
  }

  lemma PowerCompactFullPart1() returns (k: nat)
    ensures k + 1 == 16777216 && Pow(2, k) % 18446744073709551557 == 15851729483509411561
  {
    assert Squarings(32768, 32768, 1073741824, 1152921504606846976, 4251398048237748224, 2468817020729163953,
                     9223372036860834459, 18446744073709551557);
    assert Squarings(32768, 9223372036860834459, 13835094762891564748, 9324404851459122819, 3924159923041813042,
                     2671299550264515525, 3343033315822585235, 18446744073709551557);
    assert Squarings(32768, 3343033315822585235, 1769877772898103708, 4366105073903396208, 18273405422850166303,
                     11206251183038943832, 5551234557778193334, 18446744073709551557);
    assert Squarings(32768, 5551234557778193334, 17918740325367301161, 4773837869465431091, 10208600086332917145,
                     8990114436581155560, 12013744823476576347, 18446744073709551557);
    assert Squarings(32768, 12013744823476576347, 8932770450280467366, 9841943747353962516, 955023972884202594,
                     4492261434741577798, 15851729483509411561, 18446744073709551557);
    k := FirstDigit(15, 18446744073709551557);
    k := NextDigit(k, 15, 32768, 32768, 1073741824, 1152921504606846976, 4251398048237748224, 2468817020729163953,
                   9223372036860834459, 18446744073709551557);
    k := NextDigit(k, 15, 32768, 9223372036860834459, 13835094762891564748, 9324404851459122819, 3924159923041813042,
                   2671299550264515525, 3343033315822585235, 18446744073709551557);
    k := NextDigit(k, 15, 32768, 3343033315822585235, 1769877772898103708, 4366105073903396208, 18273405422850166303,
                   11206251183038943832, 5551234557778193334, 18446744073709551557);
    k := NextDigit(k, 15, 32768, 5551234557778193334, 17918740325367301161, 4773837869465431091, 10208600086332917145,
                   8990114436581155560, 12013744823476576347, 18446744073709551557);
    k := NextDigit(k, 15, 32768, 12013744823476576347, 8932770450280467366, 9841943747353962516, 955023972884202594,
                   4492261434741577798, 15851729483509411561, 18446744073709551557);
  }

  lemma PowerCompactFullPart2() returns (k: nat)
    ensures k + 1 == 17592186044416 && Pow(2, k) % 18446744073709551557 == 12840471350872743085
  {
    assert Squarings(32768, 15851729483509411561, 5869667817449081803, 1894371363447459956, 16169431098683173581,
                     7130426083697226807, 3341472985547990814, 18446744073709551557);
    assert Squarings(32768, 3341472985547990814, 11485852074649910077, 354442137573473752, 12069008065566212721,
                     11699641831755983421, 13628203148164281754, 18446744073709551557);
    assert Squarings(32768, 13628203148164281754, 11281956556071968480, 16822887528341493840, 12041565128507567820,
                     9113059142620474183, 828920177477423828, 18446744073709551557);
    assert Squarings(32768, 828920177477423828, 8350390225731980898, 1269209050074312059, 6304619458608696787,
                     11910780085353522045, 14677469391228079111, 18446744073709551557);
    assert Squarings(32768, 14677469391228079111, 16518100287980948598, 16579350095978193623, 6102394859171343025,
                     6948883135166866077, 12840471350872743085, 18446744073709551557);
    k := PowerCompactFullPart1();
    k := NextDigit(k, 15, 32768, 15851729483509411561, 5869667817449081803, 1894371363447459956, 16169431098683173581,
                   7130426083697226807, 3341472985547990814, 18446744073709551557);
    k := NextDigit(k, 15, 32768, 3341472985547990814, 11485852074649910077, 354442137573473752, 12069008065566212721,
                   11699641831755983421, 13628203148164281754, 18446744073709551557);
    k := NextDigit(k, 15, 32768, 13628203148164281754, 11281956556071968480, 16822887528341493840,
                   12041565128507567820, 9113059142620474183, 828920177477423828, 18446744073709551557);
    k := NextDigit(k, 15, 32768, 828920177477423828, 8350390225731980898, 1269209050074312059, 6304619458608696787,
                   11910780085353522045, 14677469391228079111, 18446744073709551557);
    k := NextDigit(k, 15, 32768, 14677469391228079111, 16518100287980948598, 16579350095978193623,
                   6102394859171343025, 6948883135166866077, 12840471350872743085, 18446744073709551557);
  }

  lemma PowerCompactFull() returns (k: nat)
    ensures k + 1 == 18446744073709551557 && Pow(2, k) % 18446744073709551557 == 1
  {
    assert Squarings(32768, 12840471350872743085, 11675204646244283644, 17999831914585743571, 5126433154358762094,
                     11618580768940233932, 13750443415860450410, 18446744073709551557);
    assert Squarings(32768, 13750443415860450410, 2227468768633979414, 2363643984063902104, 8003735663451251540,
                     5001498613042639314, 8232201345549008764, 18446744073709551557);
    assert Squarings(32768, 8232201345549008764, 3631281814852421843, 14540684570057230292, 2027484197132423609,
                     8930946121162169866, 10094512913656268840, 18446744073709551557);
    assert Squarings(4096, 10094512913656268840, 7860816477920010818, 17787426740110265588, 5603525213613496986,
                     694751721844432449, 4904465323524371326, 18446744073709551557);
    assert Squarings(16, 4904465323524371326, 17298733141679259386, 10371382968885067949, 4611686018427387889,
                     3458764513820540917, 1, 18446744073709551557);
    k := PowerCompactFullPart2();
    k := NextDigit(k, 15, 32768, 12840471350872743085, 11675204646244283644, 17999831914585743571,
                   5126433154358762094, 11618580768940233932, 13750443415860450410, 18446744073709551557);
    k := NextDigit(k, 15, 32768, 13750443415860450410, 2227468768633979414, 2363643984063902104, 8003735663451251540,
                   5001498613042639314, 8232201345549008764, 18446744073709551557);
    k := NextDigit(k, 15, 32768, 8232201345549008764, 3631281814852421843, 14540684570057230292, 2027484197132423609,
                   8930946121162169866, 10094512913656268840, 18446744073709551557);
    k := NextDigit(k, 12, 4096, 10094512913656268840, 7860816477920010818, 17787426740110265588, 5603525213613496986,
                   694751721844432449, 4904465323524371326, 18446744073709551557);
    k := NextDigit(k, 4, 16, 4904465323524371326, 17298733141679259386, 10371382968885067949, 4611686018427387889,
                   3458764513820540917, 1, 18446744073709551557);
  }

  lemma PowerCompactOverQ() returns (k: nat)
    ensures k + 1 == 3297317 && Pow(2, k) % 18446744073709551557 == 11493017446059487016
  {
    assert Squarings(4, 8, 64, 4096, 16777216, 281474976710656, 1125899906842624, 18446744073709551557);
    assert Squarings(32, 1125899906842624, 4054449127424, 52577024, 2764343452696576, 248799190130445444,
                     7961574084174254208, 18446744073709551557);
    assert Squarings(1, 7961574084174254208, 18236870514628348699, 15207024341622358901, 10692998876667082725,
                     3199590993540181000, 3199590993540181000, 18446744073709551557);
    assert Squarings(4, 3199590993540181000, 11075302503556232453, 15945028504836738021, 17085842822743485717,
                     14317407125556647726, 1929396281097936233, 18446744073709551557);
    assert Squarings(16, 1929396281097936233, 12498645655068347334, 3693579951573680582, 3379716844818882124,
                     9941685627233493717, 11493017446059487016, 18446744073709551557);
    k := FirstDigit(3, 18446744073709551557);
    k := NextDigit(k, 2, 4, 8, 64, 4096, 16777216, 281474976710656, 1125899906842624, 18446744073709551557);
    k := NextDigit(k, 5, 32, 1125899906842624, 4054449127424, 52577024, 2764343452696576, 248799190130445444,
                   7961574084174254208, 18446744073709551557);
    k := NextDigit(k, 0, 1, 7961574084174254208, 18236870514628348699, 15207024341622358901, 10692998876667082725,
                   3199590993540181000, 3199590993540181000, 18446744073709551557);
    k := NextDigit(k, 2, 4, 3199590993540181000, 11075302503556232453, 15945028504836738021, 17085842822743485717,
                   14317407125556647726, 1929396281097936233, 18446744073709551557);
    k := NextDigit(k, 4, 16, 1929396281097936233, 12498645655068347334, 3693579951573680582, 3379716844818882124,
                   9941685627233493717, 11493017446059487016, 18446744073709551557);
  }

  lemma PowerQFullPart1() returns (k: nat)
    ensures k + 1 == 5335305 && Pow(2, k) % 5594472617641 == 3080566161
  {
    assert Squarings(2, 32, 1024, 1048576, 1099511627776, 3932160, 7864320, 5594472617641);
    assert Squarings(64, 7864320, 308330268349, 12441600000, 3647217347410, 1759861218639, 741665640076, 5594472617641);
    assert Squarings(512, 741665640076, 3642443944213, 257974008869, 3349067180169, 3323836328533, 1084524446032,
                     5594472617641);
    assert Squarings(1, 1084524446032, 2955077838074, 390648079696, 3885427165590, 3407945261164, 3407945261164,
                     5594472617641);
    assert Squarings(256, 3407945261164, 2261184629093, 3998483710615, 1866107242727, 1901258587113, 3080566161,
                     5594472617641);
    k := FirstDigit(5, 5594472617641);
    k := NextDigit(k, 1, 2, 32, 1024, 1048576, 1099511627776, 3932160, 7864320, 5594472617641);
    k := NextDigit(k, 6, 64, 7864320, 308330268349, 12441600000, 3647217347410, 1759861218639, 741665640076,
                   5594472617641);
    k := NextDigit(k, 9, 512, 741665640076, 3642443944213, 257974008869, 3349067180169, 3323836328533, 1084524446032,
                   5594472617641);
    k := NextDigit(k, 0, 1, 1084524446032, 2955077838074, 390648079696, 3885427165590, 3407945261164, 3407945261164,
                   5594472617641);
    k := NextDigit(k, 8, 256, 3407945261164, 2261184629093, 3998483710615, 1866107242727, 1901258587113, 3080566161,
                   5594472617641);
  }

  lemma PowerQFull() returns (k: nat)
    ensures k + 1 == 5594472617641 && Pow(2, k) % 5594472617641 == 1
  {
    assert Squarings(8192, 3080566161, 754411702544, 2934934975910, 603180988353, 1232659635778, 5519134069012,
                     5594472617641);
    assert Squarings(512, 5519134069012, 4510969109344, 3378788523301, 636760876575, 3907287686925, 3304571207763,
                     5594472617641);
    assert Squarings(64, 3304571207763, 5001336194739, 589264706886, 4789188231364, 2778540364455, 4397932178249,
                     5594472617641);
    assert Squarings(1024, 4397932178249, 1198258827149, 3841152904098, 4051158302632, 5279046910159, 1483487361610,
                     5594472617641);
    assert Squarings(256, 1483487361610, 2797236308821, 4195854463231, 2447581770218, 2250901092254, 1, 5594472617641);
    k := PowerQFullPart1();
    k := NextDigit(k, 13, 8192, 3080566161, 754411702544, 2934934975910, 603180988353, 1232659635778, 5519134069012,
                   5594472617641);
    k := NextDigit(k, 9, 512, 5519134069012, 4510969109344, 3378788523301, 636760876575, 3907287686925, 3304571207763,
                   5594472617641);
    k := NextDigit(k, 6, 64, 3304571207763, 5001336194739, 589264706886, 4789188231364, 2778540364455, 4397932178249,
                   5594472617641);
    k := NextDigit(k, 10, 1024, 4397932178249, 1198258827149, 3841152904098, 4051158302632, 5279046910159,
                   1483487361610, 5594472617641);
    k := NextDigit(k, 8, 256, 1483487361610, 2797236308821, 4195854463231, 2447581770218, 2250901092254, 1,
                   5594472617641);
  }

  lemma PowerQOver2131Part1() returns (k: nat)
    ensures k + 1 == 10255002 && Pow(2, k) % 5594472617641 == 2599501432490
  {
    assert Squarings(4096, 512, 262144, 68719476736, 15360, 235929600, 966367641600, 5594472617641);
    assert Squarings(128, 966367641600, 3037500, 3631933632359, 1095850180839, 5497922908080, 4425055029115,
                     5594472617641);
    assert Squarings(1024, 4425055029115, 4367087328546, 1879612541108, 1333199935408, 3538742861549, 4048906612449,
                     5594472617641);
    assert Squarings(512, 4048906612449, 2987281309849, 4771323729010, 923891793189, 1858555477573, 520059518406,
                     5594472617641);
    assert Squarings(512, 520059518406, 2498729901398, 3111288619920, 2746041493630, 1119600993031, 2599501432490,
                     5594472617641);
    k := FirstDigit(9, 5594472617641);
    k := NextDigit(k, 12, 4096, 512, 262144, 68719476736, 15360, 235929600, 966367641600, 5594472617641);
    k := NextDigit(k, 7, 128, 966367641600, 3037500, 3631933632359, 1095850180839, 5497922908080, 4425055029115,
                   5594472617641);
    k := NextDigit(k, 10, 1024, 4425055029115, 4367087328546, 1879612541108, 1333199935408, 3538742861549,
                   4048906612449, 5594472617641);
    k := NextDigit(k, 9, 512, 4048906612449, 2987281309849, 4771323729010, 923891793189, 1858555477573, 520059518406,
                   5594472617641);
    k := NextDigit(k, 9, 512, 520059518406, 2498729901398, 3111288619920, 2746041493630, 1119600993031, 2599501432490,
                   5594472617641);
  }

  lemma PowerQOver2131() returns (k: nat)
    ensures k + 1 == 2625280441 && Pow(2, k) % 5594472617641 == 1346892610175
  {
    assert Squarings(2048, 2599501432490, 3782537863565, 4359353365274, 713135023403, 3665585046103, 4930394162363,
                     5594472617641);
    assert Squarings(256, 4930394162363, 4572330737500, 1221241726119, 4898023657561, 551596515825, 1346892610175,
                     5594472617641);
    k := PowerQOver2131Part1();
    k := NextDigit(k, 11, 2048, 2599501432490, 3782537863565, 4359353365274, 713135023403, 3665585046103,
                   4930394162363, 5594472617641);
    k := NextDigit(k, 8, 256, 4930394162363, 4572330737500, 1221241726119, 4898023657561, 551596515825, 1346892610175,
                   5594472617641);
  }

  lemma PowerQOver15331Part1() returns (k: nat)
    ensures k + 1 == 1425440 && Pow(2, k) % 5594472617641 == 772694486125
  {
    assert Squarings(32, 2, 4, 16, 256, 65536, 2097152, 5594472617641);
    assert Squarings(4096, 2097152, 4398046511104, 62914560, 2949719321413, 610540041231, 42748796649, 5594472617641);
    assert Squarings(1, 42748796649, 4014122535829, 204240466864, 4404931275682, 2976073519676, 2976073519676,
                     5594472617641);
    assert Squarings(2, 2976073519676, 1168347200078, 3660300668936, 2624682327876, 2467396406167, 4934792812334,
                     5594472617641);
    assert Squarings(32768, 4934792812334, 2213538232261, 3339150593479, 3614120755181, 430774753076, 772694486125,
                     5594472617641);
    k := FirstDigit(1, 5594472617641);
    k := NextDigit(k, 5, 32, 2, 4, 16, 256, 65536, 2097152, 5594472617641);
    k := NextDigit(k, 12, 4096, 2097152, 4398046511104, 62914560, 2949719321413, 610540041231, 42748796649,
                   5594472617641);
    k := NextDigit(k, 0, 1, 42748796649, 4014122535829, 204240466864, 4404931275682, 2976073519676, 2976073519676,
                   5594472617641);
    k := NextDigit(k, 1, 2, 2976073519676, 1168347200078, 3660300668936, 2624682327876, 2467396406167, 4934792812334,
                   5594472617641);
    k := NextDigit(k, 15, 32768, 4934792812334, 2213538232261, 3339150593479, 3614120755181, 430774753076,
                   772694486125, 5594472617641);
  }

  lemma PowerQOver15331() returns (k: nat)
    ensures k + 1 == 364912441 && Pow(2, k) % 5594472617641 == 1852426820963
  {
    assert Squarings(8, 772694486125, 3959807441647, 4216798237515, 3501079919715, 2501495916835, 3228549481757,
                     5594472617641);
    assert Squarings(256, 3228549481757, 4846908037093, 1434688708858, 4189688419599, 4662012087416, 1852426820963,
                     5594472617641);
    k := PowerQOver15331Part1();
    k := NextDigit(k, 3, 8, 772694486125, 3959807441647, 4216798237515, 3501079919715, 2501495916835, 3228549481757,
                   5594472617641);
    k := NextDigit(k, 8, 256, 3228549481757, 4846908037093, 1434688708858, 4189688419599, 4662012087416,
                   1852426820963, 5594472617641);
  }

  lemma Power2131Full() returns (k: nat)
    ensures k + 1 == 2131 && Pow(2, k) % 2131 == 1
  {
    assert Squarings(32, 256, 1606, 726, 719, 1259, 1930, 2131);
    assert Squarings(4, 1930, 2043, 1351, 1065, 533, 1, 2131);
    k := FirstDigit(8, 2131);
    k := NextDigit(k, 5, 32, 256, 1606, 726, 719, 1259, 1930, 2131);
    k := NextDigit(k, 2, 4, 1930, 2043, 1351, 1065, 533, 1, 2131);
  }

  lemma Power2131Over71() returns (k: nat)
    ensures k + 1 == 31 && Pow(2, k) % 2131 == 1247
  {
    assert Squarings(16384, 2, 4, 16, 256, 1606, 1247, 2131);
    k := FirstDigit(1, 2131);
    k := NextDigit(k, 14, 16384, 2, 4, 16, 256, 1606, 1247, 2131);
  }

  lemma Power15331Full() returns (k: nat)
    ensures k + 1 == 15331 && Pow(2, k) % 15331 == 1
  {
    assert Squarings(2048, 8, 64, 4096, 5102, 13697, 11057, 15331);
    assert Squarings(16384, 11057, 7855, 9081, 14443, 6663, 9872, 15331);
    assert Squarings(4, 9872, 12548, 2934, 7665, 3833, 1, 15331);
    k := FirstDigit(3, 15331);
    k := NextDigit(k, 11, 2048, 8, 64, 4096, 5102, 13697, 11057, 15331);
    k := NextDigit(k, 14, 16384, 11057, 7855, 9081, 14443, 6663, 9872, 15331);
    k := NextDigit(k, 2, 4, 9872, 12548, 2934, 7665, 3833, 1, 15331);
  }

  lemma Power15331Over73() returns (k: nat)
    ensures k + 1 == 211 && Pow(2, k) % 15331 == 7853
  {
    assert Squarings(4, 8192, 5077, 4518, 6763, 5796, 7853, 15331);
    k := FirstDigit(13, 15331);
    k := NextDigit(k, 2, 4, 8192, 5077, 4518, 6763, 5796, 7853, 15331);
  }

  lemma Power15331Over7() returns (k: nat)
    ensures k + 1 == 2191 && Pow(2, k) % 15331 == 5886
  {
    assert Squarings(256, 256, 4212, 2977, 1211, 10076, 3848, 15331);
    assert Squarings(16384, 3848, 12689, 4559, 10976, 1578, 5886, 15331);
    k := FirstDigit(8, 15331);
    k := NextDigit(k, 8, 256, 256, 4212, 2977, 1211, 10076, 3848, 15331);
    k := NextDigit(k, 14, 16384, 3848, 12689, 4559, 10976, 1578, 5886, 15331);
  }

  lemma SmallPrimes()
    ensures IsPrime(7) && IsPrime(71) && IsPrime(73)
  {
    PrimeByTrial(7, 2);
    PrimeByTrial(71, 8);
    PrimeByTrial(73, 8);
  }

  predicate InvertsPredecessor(u: nat, x: nat, n: nat)
    requires n > 0
  {
    (u * (x - 1)) % n == 1
  }

  /** Pocklington's step with the residue of the cofactor power spelled out. */
  lemma Certificate(n: nat, q: nat, k: nat, m: nat, u: nat, x: nat, r: nat)
    requires n > 1 && x >= 1 && IsPrime(q) && k + 1 == n && m * q == k
    requires Pow(2, k) % n == 1 && Pow(2, m) % n == x
    requires InvertsPredecessor(u, x, n)
    requires IsPrime(r) && Divides(r, n)
    ensures Divides(q, r - 1) && r > q
  {
    ModMod(Pow(2, m), n);
    CongruentAdd(Pow(2, m), x, -1, -1, n);
    CongruentMul(u, u, Pow(2, m) - 1, x - 1, n);
    PocklingtonStep(n, 2, q, m, u, r);
    DividesBounds(q, r - 1);
  }

  lemma ProductBelow(p: nat, q: nat, r: nat)
    requires IsPrime(p) && IsPrime(q) && p != q && r > 1 && Divides(p, r - 1) && Divides(q, r - 1)
    ensures r > p * q
  {
    PrimeProductDivides(p, q, r - 1);
    DividesBounds(p * q, r - 1);
  }

  lemma SquareAbove(r: nat, b: nat, n: nat)
    requires r > b && b * b > n
    ensures r * r > n
  {
    assert r * r >= b * b;
  }

  lemma Prime2131(n: nat)
    requires n == 2131
    ensures IsPrime(n)
  {
    assert InvertsPredecessor(183, 1247, 2131);
    SmallPrimes();
    var k := Power2131Full();
    var m := Power2131Over71();
    forall r: nat | IsPrime(r) && Divides(r, n) ensures r * r > n {
      Certificate(n, 71, k, m, 183, 1247, r);
      SquareAbove(r, 71, n);
    }
    PrimeIfNoSmallPrimeDivisor(n);
  }

  lemma Prime15331(n: nat)
    requires n == 15331
    ensures IsPrime(n)
  {
    assert InvertsPredecessor(6453, 7853, 15331);
    assert InvertsPredecessor(7461, 5886, 15331);
    SmallPrimes();
    var k := Power15331Full();
    var m := Power15331Over73();
    var l := Power15331Over7();
    forall r: nat | IsPrime(r) && Divides(r, n) ensures r * r > n {
      Certificate(n, 73, k, m, 6453, 7853, r);
      Certificate(n, 7, k, l, 7461, 5886, r);
      ProductBelow(73, 7, r);
      SquareAbove(r, 511, n);
    }
    PrimeIfNoSmallPrimeDivisor(n);
  }

  lemma PrimeCofactor(n: nat)
    requires n == 5594472617641
    ensures IsPrime(n)
  {
    assert InvertsPredecessor(1933328135809, 1346892610175, 5594472617641);
    assert InvertsPredecessor(3161697676777, 1852426820963, 5594472617641);
    Prime2131(2131);
    Prime15331(15331);
    var k := PowerQFull();
    var m := PowerQOver2131();
    var l := PowerQOver15331();
    forall r: nat | IsPrime(r) && Divides(r, n) ensures r * r > n {
      Certificate(n, 2131, k, m, 1933328135809, 1346892610175, r);
      Certificate(n, 15331, k, l, 3161697676777, 1852426820963, r);
      ProductBelow(2131, 15331, r);
      SquareAbove(r, 32670361, n);
    }
    PrimeIfNoSmallPrimeDivisor(n);
  }

  /** The modulus shared by the Paillier service key and the Pedersen commitments is prime. */
  lemma CompactModulusIsPrime()
    ensures IsPrime(COMPACT_N)
  {
    assert InvertsPredecessor(1898613474652435203, 11493017446059487016, 18446744073709551557);
    var n := COMPACT_N;
    PrimeCofactor(5594472617641);
    var k := PowerCompactFull();
    var m := PowerCompactOverQ();
    forall r: nat | IsPrime(r) && Divides(r, n) ensures r * r > n {
      Certificate(n, 5594472617641, k, m, 1898613474652435203, 11493017446059487016, r);
      SquareAbove(r, 5594472617641, n);
    }
    PrimeIfNoSmallPrimeDivisor(n);
  }
}
