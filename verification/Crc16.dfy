/**
 The CRC-16/XMODEM checksum of `zk/src/strkey.ts`: its table-free shift-xor loop computes
 the bitwise polynomial division. A register is its sixteen bits, least significant first.
 */
module Crc16s {
  import opened Bytes

  const ZEROES: seq<bool> := [false, false, false, false, false, false, false, false,
                              false, false, false, false, false, false, false, false]

  type Word = w: seq<bool> | |w| == 16 witness ZEROES

  const ZERO: Word := ZEROES

  function Xor(a: Word, b: Word): Word {
    seq(16, i requires 0 <= i < 16 => a[i] != b[i])
  }

  /** `(a << k) & 0xffff`. */
  function Shl(a: Word, k: nat): Word {
    seq(16, i requires 0 <= i < 16 => i >= k && a[i - k])
  }

  /** `a >>> k`. */
  function Shr(a: Word, k: nat): Word {
    seq(16, i requires 0 <= i < 16 => i + k < 16 && a[i + k])
  }

  /** `a & 0xff`. */
  function LowByte(a: Word): Word {
    seq(16, i requires 0 <= i < 16 => i < 8 && a[i])
  }

  predicate BitOf(b: byte, i: nat)
    decreases i
  {
    if i == 0 then b % 2 == 1 else BitOf(b / 2, i - 1)
  }

  function WordOf(b: byte): Word {
    seq(16, i requires 0 <= i < 16 => i < 8 && BitOf(b, i))
  }

  function FromBits(w: Word, from: nat, n: nat): nat
    requires from + n <= 16
    decreases n
  {
    if n == 0 then 0 else (if w[from] then 1 else 0) + 2 * FromBits(w, from + 1, n - 1)
  }

  /** `crc & 0xff` and `(crc >> 8) & 0xff`. */
  function LowHalf(w: Word): byte {
    HalfBelow(w, 0, 8, 256);
    FromBits(w, 0, 8)
  }

  function HighHalf(w: Word): byte {
    HalfBelow(w, 8, 8, 256);
    FromBits(w, 8, 8)
  }

  /** `n` bits stay below `2^n`, here counted down from `limit`. */
  lemma {:induction false} HalfBelow(w: Word, from: nat, n: nat, limit: nat)
    requires from + n <= 16 && Halvings(limit, n)
    ensures FromBits(w, from, n) < limit
    decreases n
  {
    if n > 0 { HalfBelow(w, from + 1, n - 1, limit / 2); }
  }

  predicate Halvings(limit: nat, n: nat)
    decreases n
  {
    if n == 0 then limit == 1 else limit % 2 == 0 && Halvings(limit / 2, n - 1)
  }

  // ------------------------------------------------------- bit-by-bit division

  predicate Poly(i: nat) {
    i == 0 || i == 5 || i == 12
  }

  /** One division step by the polynomial 0x1021. */
  function CrcBit(x: Word): Word {
    if x[15] then Xor(Shl(x, 1), seq(16, i requires 0 <= i < 16 => Poly(i))) else Shl(x, 1)
  }

  function CrcBits(x: Word, n: nat): Word {
    if n == 0 then x else CrcBit(CrcBits(x, n - 1))
  }

  /** CRC-16/XMODEM from zero: each byte enters at the top and is followed by eight steps. */
  function Crc16(bytes: Buffer): Word {
    if bytes == [] then ZERO
    else CrcBits(Xor(Crc16(bytes[..|bytes| - 1]), Shl(WordOf(bytes[|bytes| - 1]), 8)), 8)
  }

  predicate BitAt(x: Word, i: int) {
    0 <= i < 16 && x[i]
  }

  lemma CrcBitAt(x: Word, i: nat)
    requires i < 16
    ensures CrcBit(x)[i] == (BitAt(x, i - 1) != (x[15] && Poly(i)))
  {
  }

  /** Bit `i` after `n` steps, while the polynomial does not feed back. */
  predicate AfterSteps(x: Word, n: nat, i: nat) {
    (((i >= n && BitAt(x, i - n)) != (i < n && BitAt(x, 16 - n + i)))
     != (5 <= i < 5 + n && BitAt(x, 11 - n + i))) != (12 <= i < 12 + n && BitAt(x, 4 - n + i))
  }

  lemma {:induction false} UpToFourSteps(x: Word, n: nat, i: nat)
    requires n <= 4 && i < 16
    ensures CrcBits(x, n)[i] == AfterSteps(x, n, i)
    decreases n
  {
    if n > 0 {
      CrcBitAt(CrcBits(x, n - 1), i);
      UpToFourSteps(x, n - 1, 15);
      if i > 0 { UpToFourSteps(x, n - 1, i - 1); }
    }
  }

  lemma {:induction false} StepsCompose(x: Word, m: nat, n: nat)
    ensures CrcBits(x, m + n) == CrcBits(CrcBits(x, m), n)
  {
    if n > 0 { StepsCompose(x, m, n - 1); }
  }

  lemma EightSteps(x: Word, i: nat)
    requires i < 16
    ensures CrcBits(x, 8)[i] == AfterSteps(CrcBits(x, 4), 4, i)
    ensures forall j :: 0 <= j < 16 ==> BitAt(CrcBits(x, 4), j) == AfterSteps(x, 4, j)
  {
    StepsCompose(x, 4, 4);
    UpToFourSteps(CrcBits(x, 4), 4, i);
    forall j | 0 <= j < 16 ensures BitAt(CrcBits(x, 4), j) == AfterSteps(x, 4, j) {
      UpToFourSteps(x, 4, j);
    }
  }

  // ------------------------------------------------------------- shift and xor

  /** The byte that decides a step: the register's high byte with the message byte mixed in. */
  function CodeOf(crc: Word, b: Word): Word {
    var code := Xor(LowByte(Shr(crc, 8)), LowByte(b));
    Xor(code, Shr(code, 4))
  }

  function CrcShifted(crc: Word, b: Word): Word {
    var code := CodeOf(crc, b);
    Xor(Xor(Xor(Shl(crc, 8), code), Shl(code, 5)), Shl(Shl(code, 5), 7))
  }

  lemma CodeAt(crc: Word, b: Word, i: nat)
    requires i < 16
    ensures var x := Xor(crc, Shl(b, 8));
            CodeOf(crc, b)[i] == (i < 8 && (BitAt(x, i + 8) != (i < 4 && BitAt(x, i + 12))))
  {
  }

  lemma ShiftedAt(crc: Word, b: Word, i: nat)
    requires i < 16
    ensures var x, code := Xor(crc, Shl(b, 8)), CodeOf(crc, b);
            CrcShifted(crc, b)[i]
            == ((((i >= 8 && BitAt(x, i - 8)) != BitAt(code, i)) != (i >= 5 && BitAt(code, i - 5)))
                != (i >= 12 && BitAt(code, i - 12)))
  {
  }

  lemma ShiftedIsBitwiseAt(crc: Word, b: Word, i: nat)
    requires i < 16
    ensures CrcShifted(crc, b)[i] == CrcBits(Xor(crc, Shl(b, 8)), 8)[i]
  {
    var x := Xor(crc, Shl(b, 8));
    ShiftedAt(crc, b, i);
    EightSteps(x, i);
    forall j | 0 <= j < 16
      ensures CodeOf(crc, b)[j] == (j < 8 && (BitAt(x, j + 8) != (j < 4 && BitAt(x, j + 12)))) {
      CodeAt(crc, b, j);
    }
  }

  /** On any register and any byte, the shift-xor step is eight steps of the bitwise division. */
  lemma ShiftedIsBitwise(crc: Word, b: Word)
    ensures CrcShifted(crc, b) == CrcBits(Xor(crc, Shl(b, 8)), 8)
  {
    forall i | 0 <= i < 16 ensures CrcShifted(crc, b)[i] == CrcBits(Xor(crc, Shl(b, 8)), 8)[i] {
      ShiftedIsBitwiseAt(crc, b, i);
    }
  }

  method Crc16Xmodem(bytes: Buffer) returns (crc: Word)
    ensures crc == Crc16(bytes)
  {
    crc := ZERO;
    for i := 0 to |bytes|
      invariant crc == Crc16(bytes[..i])
    {
      assert bytes[..i + 1][..i] == bytes[..i];
      ghost var before, b := crc, WordOf(bytes[i]);
      ShiftedIsBitwise(before, b);
      var code := LowByte(Shr(crc, 8));
      code := Xor(code, LowByte(WordOf(bytes[i])));
      code := Xor(code, Shr(code, 4));
      crc := Shl(crc, 8);
      crc := Xor(crc, code);
      code := Shl(code, 5);
      crc := Xor(crc, code);
      code := Shl(code, 7);
      crc := Xor(crc, code);
      assert crc == CrcShifted(before, b);
    }
    assert bytes[..|bytes|] == bytes;
  }
}
