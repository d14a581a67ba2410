/**
 Base32 as in section 6 of RFC 4648, and the decoder of `zk/src/strkey.ts` that computes it
 with a 32-bit accumulator.
 */
module Base32s {
  import opened Wrappers
  import opened NumberTheory

  datatype Error = WrongLength | InvalidCharacter | WrongVersion | ChecksumMismatch

  type Outcome<+T> = Result<T, Error>

  const BASE32_ALPHABET: string := "ABCDEFGHIJKLMNOPQRSTUVWXYZ234567"

  // ----------------------------------------------------------------- numerals

  /** The number a digit string denotes, most significant digit first. */
  function Value(ds: seq<int>, base: nat): int {
    if ds == [] then 0 else Value(ds[..|ds| - 1], base) * base + ds[|ds| - 1]
  }

  lemma DigitRange(n: nat, base: nat)
    requires base > 0
    ensures n / base >= 0 && 0 <= n % base < base
  {
    DivisionFacts(n, base);
  }

  /** The last `width` digits of a number. */
  function Digits(n: nat, base: nat, width: nat): (ds: seq<int>)
    requires base > 0
    ensures |ds| == width
    decreases width
  {
    if width == 0 then []
    else
      DigitRange(n, base);
      Digits(n / base, base, width - 1) + [n % base]
  }

  predicate AreDigits(ds: seq<int>, base: nat) {
    forall i :: 0 <= i < |ds| ==> 0 <= ds[i] < base
  }

  lemma {:induction false} ValueNonNegative(ds: seq<int>, base: nat)
    requires AreDigits(ds, base)
    ensures Value(ds, base) >= 0
  {
    if ds != [] {
      ValueNonNegative(ds[..|ds| - 1], base);
      assert Value(ds[..|ds| - 1], base) * base >= 0;
    }
  }

  lemma {:induction false} ValueThenDigits(ds: seq<int>, base: nat)
    requires base > 0 && AreDigits(ds, base)
    ensures Value(ds, base) >= 0 && Digits(Value(ds, base), base, |ds|) == ds
  {
    ValueNonNegative(ds, base);
    if ds != [] {
      var front, last := ds[..|ds| - 1], ds[|ds| - 1];
      ValueThenDigits(front, base);
      DivModUnique(Value(ds, base), base, Value(front, base), last);
    }
  }

  lemma {:induction false} DigitsAreDigits(n: nat, base: nat, width: nat)
    requires base > 0
    ensures AreDigits(Digits(n, base, width), base)
    decreases width
  {
    if width > 0 {
      DigitRange(n, base);
      DigitsAreDigits(n / base, base, width - 1);
    }
  }

  lemma {:induction false} DigitsThenValue(n: nat, base: nat, width: nat)
    requires base > 0 && n < Pow(base, width)
    ensures Value(Digits(n, base, width), base) == n
    decreases width
  {
    if width > 0 {
      PowPositive(base, width - 1);
      QuotientBelow(n, base, Pow(base, width - 1));
      DigitsThenValue(n / base, base, width - 1);
      assert Digits(n, base, width)[..width - 1] == Digits(n / base, base, width - 1);
      DivisionFacts(n, base);
    }
  }

  lemma QuotientBelow(n: nat, base: nat, p: nat)
    requires base > 0 && n < base * p
    ensures 0 <= n / base < p
  {
    DivisionFacts(n, base);
    var q := n / base;
    assert q >= p ==> base * q >= base * p by { Distribute(q - p, p, base); }
  }

  lemma {:induction false} ValueBelow(ds: seq<int>, base: nat)
    requires base > 0 && AreDigits(ds, base)
    ensures 0 <= Value(ds, base) < Pow(base, |ds|)
  {
    ValueNonNegative(ds, base);
    if ds != [] {
      ValueBelow(ds[..|ds| - 1], base);
      NextBelow(Value(ds[..|ds| - 1], base), Pow(base, |ds| - 1), base, ds[|ds| - 1]);
    }
  }

  lemma NextBelow(v: int, p: nat, base: nat, d: int)
    requires v < p && 0 <= d < base
    ensures v * base + d < base * p
  {
    Distribute(v, p - v, base);
    MulAtLeast(p - v, base);
  }

  // ------------------------------------------------------------------- base32

  /** `BASE32_ALPHABET.indexOf(c)`. */
  function IndexOf(c: char): int {
    if 'A' <= c <= 'Z' then c as int - 'A' as int
    else if '2' <= c <= '7' then c as int - '2' as int + 26
    else -1
  }

  lemma IndexOfSymbol(d: int)
    requires 0 <= d < 32
    ensures IndexOf(BASE32_ALPHABET[d]) == d
  {
  }

  lemma SymbolOfIndex(c: char)
    requires IndexOf(c) >= 0
    ensures IndexOf(c) < 32 && BASE32_ALPHABET[IndexOf(c)] == c
  {
    IndexOfSymbol(IndexOf(c));
  }

  predicate IsBase32(input: string) {
    forall i :: 0 <= i < |input| ==> IndexOf(input[i]) >= 0
  }

  function Indices(input: string): (ds: seq<int>)
    ensures |ds| == |input|
  {
    seq(|input|, i requires 0 <= i < |input| => IndexOf(input[i]))
  }

  /**
   The bytes a base32 string denotes: its 5-bit digits as one big number, without the bits
   that do not fill a byte.
   */
  function Base32(input: string): Outcome<seq<int>> {
    if !IsBase32(input) then Err(InvalidCharacter)
    else
      IndicesAreDigits(input);
      ValueNonNegative(Indices(input), 32);
      DivisionFacts(Value(Indices(input), 32), TwoTo(5 * |input| % 8));
      Ok(Digits(Value(Indices(input), 32) / TwoTo(5 * |input| % 8), 256, 5 * |input| / 8))
  }

  lemma IndicesAreDigits(input: string)
    requires IsBase32(input)
    ensures AreDigits(Indices(input), 32)
  {
  }

  const WORD: nat := 0x1_0000_0000

  /** A JavaScript number coerced to a signed 32-bit integer. */
  function ToInt32(x: int): (w: int)
    ensures -0x8000_0000 <= w < 0x8000_0000
  {
    var m := x % WORD;
    if m < 0x8000_0000 then m else m - WORD
  }

  /** `(value << 5) | index`: the shift leaves five zero bits, which the index fills. */
  function ShiftIn(value: int, index: int): int
    requires 0 <= index < 32
  {
    ToInt32(value * 32) + index
  }

  /** `(value >> bits) & 0xff`, an arithmetic shift. */
  function ByteAt(value: int, bits: nat): int {
    DivisionFacts(0, TwoTo(bits));
    value / TwoTo(bits) % 256
  }

  predicate Wraps(w: int, v: int) {
    ToInt32(v) == w
  }

  lemma ToInt32Congruent(x: int)
    ensures exists k: int :: ToInt32(x) == x + k * WORD
  {
    var q := x / WORD;
    assert x == q * WORD + x % WORD;
    if x % WORD < 0x8000_0000 {
      assert ToInt32(x) == x + (-q) * WORD;
    } else {
      assert ToInt32(x) == x + (-q - 1) * WORD;
    }
  }

  /** The accumulator stays the running value wrapped to 32 bits. */
  lemma ShiftInWraps(w: int, v: int, d: int)
    requires Wraps(w, v) && 0 <= d < 32
    ensures Wraps(ShiftIn(w, d), v * 32 + d)
  {
    ToInt32Congruent(v);
    var k: int :| w == v + k * WORD;
    ModAddMultiple(v * 32, 32 * k, WORD);
    assert w * 32 % WORD == v * 32 % WORD;
    Shifted32(v, d);
  }

  lemma Shifted32(v: int, d: int)
    requires 0 <= d < 32
    ensures ToInt32(v * 32) + d == ToInt32(v * 32 + d)
  {
    var q, r := v / 0x800_0000, v % 0x800_0000;
    DivModUnique(v * 32, WORD, q, r * 32);
    DivModUnique(v * 32 + d, WORD, q, r * 32 + d);
  }

  /** Wrapping does not reach the bits a byte is taken from. */
  lemma WrappedByte(w: int, v: int, bits: nat)
    requires Wraps(w, v) && bits < 5
    ensures ByteAt(w, bits) == ByteAt(v, bits)
  {
    ToInt32Congruent(v);
    var k: int :| w == v + k * WORD;
    var t := TwoTo(bits);
    var u := TwoTo(5 - bits) * 0x8_0000;
    assert t * u == 0x100_0000 by {
      if bits == 0 { assert TwoTo(5) == 32; } else if bits == 1 { assert TwoTo(4) == 16; }
      else if bits == 2 { assert TwoTo(2) == 4 && TwoTo(3) == 8; } else if bits == 3 { assert TwoTo(3) == 8; }
      else { assert TwoTo(4) == 16; }
    }
    ShiftedByMultiple(v, t, k * u * 256);
    assert k * WORD == (k * u * 256) * t by { Regroup(k, t, u); }
    ModAddMultiple(v / t, k * u, 256);
  }

  lemma Regroup(k: int, t: int, u: int)
    requires t * u == 0x100_0000
    ensures k * WORD == (k * u * 256) * t
  {
    calc {
      (k * u * 256) * t;
      k * 256 * (t * u);
      k * 256 * 0x100_0000;
    }
  }

  lemma ShiftedByMultiple(v: int, t: nat, m: int)
    requires t > 0
    ensures (v + m * t) / t == v / t + m
  {
    var q, r := v / t, v % t;
    assert v == q * t + r;
    Distribute(q, m, t);
    DivModUnique(v + m * t, t, q + m, r);
  }

  /** `bytes` is what has been written after `i` characters. */
  ghost predicate Written(bytes: seq<int>, input: string, i: nat)
    requires i <= |input| && IsBase32(input[..i])
  {
    && |bytes| == 5 * i / 8 && AreDigits(bytes, 256)
    && Value(bytes, 256) == Running(input, i) / TwoTo(5 * i % 8)
  }

  lemma NextIndex(input: string, i: nat)
    requires i < |input|
    ensures Indices(input[..i + 1]) == Indices(input[..i]) + [IndexOf(input[i])]
    ensures Value(Indices(input[..i + 1]), 32) == Value(Indices(input[..i]), 32) * 32 + IndexOf(input[i])
  {
    assert Indices(input[..i + 1])[..i] == Indices(input[..i]);
  }

  /** A character that completes a byte: the quotient by the bits left over gains that byte. */
  lemma ByteCompletes(v: nat, d: int, bits: nat)
    requires 3 <= bits < 8 && 0 <= d < 32
    ensures (v * 32 + d) / TwoTo(bits - 3) == v / TwoTo(bits) * 256 + ByteAt(v * 32 + d, bits - 3)
  {
    QuotientStep(v, d, bits);
    var q := (v * 32 + d) / TwoTo(bits - 3);
    assert q == q / 256 * 256 + q % 256;
  }

  lemma QuotientStep(v: nat, d: int, bits: nat)
    requires 3 <= bits < 8 && 0 <= d < 32
    ensures (v * 32 + d) / TwoTo(bits - 3) / 256 == v / TwoTo(bits)
  {
    if bits == 3 { assert TwoTo(0) == 1 && TwoTo(3) == 8; }
    else if bits == 4 { assert TwoTo(1) == 2 && TwoTo(4) == 16; }
    else if bits == 5 { assert TwoTo(2) == 4 && TwoTo(5) == 32; }
    else if bits == 6 { assert TwoTo(3) == 8 && TwoTo(6) == 64; }
    else { assert TwoTo(4) == 16 && TwoTo(7) == 128; }
  }

  /** One that does not leaves the quotient as it was. */
  lemma NoByteYet(v: nat, d: int, bits: nat)
    requires bits < 3 && 0 <= d < 32
    ensures (v * 32 + d) / TwoTo(bits + 5) == v / TwoTo(bits)
  {
    if bits == 0 { assert TwoTo(5) == 32; }
    else if bits == 1 { assert TwoTo(1) == 2 && TwoTo(6) == 64; }
    else { assert TwoTo(2) == 4 && TwoTo(7) == 128; }
  }

  /** The running value of the first `i` digits. */
  function Running(input: string, i: nat): int
    requires i <= |input|
  {
    Value(Indices(input[..i]), 32)
  }

  lemma RunningNonNegative(input: string, i: nat)
    requires i <= |input| && IsBase32(input[..i])
    ensures Running(input, i) >= 0
  {
    IndicesAreDigits(input[..i]);
    ValueNonNegative(Indices(input[..i]), 32);
  }

  lemma ByteInRange(value: int, bits: nat)
    ensures 0 <= ByteAt(value, bits) < 256
  {
  }

  lemma RunningNext(input: string, i: nat)
    requires i < |input|
    ensures Running(input, i + 1) == Running(input, i) * 32 + IndexOf(input[i])
  {
    NextIndex(input, i);
  }

  lemma WrittenGains(bytes: seq<int>, input: string, i: nat)
    requires i < |input| && IsBase32(input[..i]) && IsBase32(input[..i + 1]) && Written(bytes, input, i)
    requires 5 * i % 8 >= 3 && 0 <= IndexOf(input[i]) < 32
    ensures Written(bytes + [ByteAt(Running(input, i + 1), 5 * i % 8 - 3)], input, i + 1)
  {
    var bits := 5 * i % 8;
    var b := ByteAt(Running(input, i + 1), bits - 3);
    RunningNext(input, i);
    RunningNonNegative(input, i);
    ByteCompletes(Running(input, i), IndexOf(input[i]), bits);
    ByteInRange(Running(input, i + 1), bits - 3);
    assert (bytes + [b])[..|bytes|] == bytes;
    assert 5 * (i + 1) % 8 == bits - 3 && 5 * (i + 1) / 8 == 5 * i / 8 + 1;
  }

  lemma SameQuotient(v: nat, w: int, d: int, bits: nat, after: nat)
    requires w == v * 32 + d && bits < 3 && 0 <= d < 32 && after == bits + 5
    ensures w / TwoTo(after) == v / TwoTo(bits)
  {
    NoByteYet(v, d, bits);
  }

  lemma QuotientWaits(input: string, i: nat)
    requires i < |input| && IsBase32(input[..i]) && 5 * i % 8 < 3 && 0 <= IndexOf(input[i]) < 32
    ensures Running(input, i + 1) / TwoTo(5 * (i + 1) % 8) == Running(input, i) / TwoTo(5 * i % 8)
  {
    RunningNext(input, i);
    RunningNonNegative(input, i);
    SameQuotient(Running(input, i), Running(input, i + 1), IndexOf(input[i]), 5 * i % 8, 5 * (i + 1) % 8);
  }

  lemma WrittenWaits(bytes: seq<int>, input: string, i: nat)
    requires i < |input| && IsBase32(input[..i]) && IsBase32(input[..i + 1]) && Written(bytes, input, i)
    requires 5 * i % 8 < 3 && 0 <= IndexOf(input[i]) < 32
    ensures Written(bytes, input, i + 1)
  {
    QuotientWaits(input, i);
    assert 5 * (i + 1) / 8 == 5 * i / 8;
  }

  lemma WrittenIsBase32(bytes: seq<int>, input: string)
    requires IsBase32(input[..|input|]) && Written(bytes, input, |input|)
    ensures Base32(input) == Ok(bytes)
  {
    assert input[..|input|] == input;
    ValueThenDigits(bytes, 256);
  }

  lemma InvalidAt(input: string, i: nat)
    requires i < |input| && IndexOf(input[i]) < 0
    ensures Base32(input) == Err(InvalidCharacter)
  {
  }

  /** The decoder's state after `i` characters. */
  ghost predicate Decoding(bytes: seq<int>, value: int, bits: nat, input: string, i: nat)
    requires i <= |input|
  {
    && IsBase32(input[..i]) && bits == 5 * i % 8
    && Wraps(value, Running(input, i)) && Written(bytes, input, i)
  }

  lemma OneMore(input: string, i: nat)
    requires i < |input| && IsBase32(input[..i]) && IndexOf(input[i]) >= 0
    ensures IsBase32(input[..i + 1]) && IndexOf(input[i]) < 32
  {
  }

  lemma WrapsNext(value: int, input: string, i: nat)
    requires i < |input| && 0 <= IndexOf(input[i]) < 32 && Wraps(value, Running(input, i))
    ensures Wraps(ShiftIn(value, IndexOf(input[i])), Running(input, i + 1))
  {
    NextIndex(input, i);
    ShiftInWraps(value, Running(input, i), IndexOf(input[i]));
  }

  lemma DecodesNext(bytes: seq<int>, value: int, bits: nat, input: string, i: nat)
    requires i < |input| && Decoding(bytes, value, bits, input, i) && IndexOf(input[i]) >= 0
    ensures IndexOf(input[i]) < 32
    ensures var next := ShiftIn(value, IndexOf(input[i]));
            if bits + 5 >= 8
            then Decoding(bytes + [ByteAt(next, bits - 3)], next, bits - 3, input, i + 1)
            else Decoding(bytes, next, bits + 5, input, i + 1)
  {
    OneMore(input, i);
    WrapsNext(value, input, i);
    if bits < 3 {
      WrittenWaits(bytes, input, i);
    } else {
      WrittenGains(bytes, input, i);
      WrappedByte(ShiftIn(value, IndexOf(input[i])), Running(input, i + 1), bits - 3);
    }
  }

  lemma NothingDecoded(input: string)
    ensures Decoding([], 0, 0, input, 0)
  {
    assert Indices(input[..0]) == [];
  }

  lemma WrittenSize(bytes: seq<int>, value: int, bits: nat, input: string, i: nat)
    requires i <= |input| && Decoding(bytes, value, bits, input, i)
    ensures |bytes| == 5 * i / 8 <= 5 * |input| / 8
    ensures i < |input| && bits + 5 >= 8 ==> |bytes| < 5 * |input| / 8
  {
  }

  /** Despite its wrapping 32-bit accumulator, the decoder yields the exact big-endian bytes. */
  method Base32Decode(input: string) returns (r: Outcome<seq<int>>)
    ensures r == Base32(input)
  {
    var out := new int[5 * |input| / 8];
    var value: int := 0;
    var bits, written: nat := 0, 0;
    NothingDecoded(input);
    for i := 0 to |input|
      invariant written <= out.Length && Decoding(out[..written], value, bits, input, i)
    {
      var index := IndexOf(input[i]);
      if index == -1 {
        InvalidAt(input, i);
        return Err(InvalidCharacter);
      }
      ghost var before := out[..written];
      WrittenSize(before, value, bits, input, i);
      DecodesNext(before, value, bits, input, i);
      value := ShiftIn(value, index);
      bits := bits + 5;
      if bits >= 8 {
        bits := bits - 8;
        out[written] := ByteAt(value, bits);
        written := written + 1;
        assert out[..written] == before + [ByteAt(value, bits)];
      }
    }
    WrittenSize(out[..written], value, bits, input, |input|);
    WrittenIsBase32(out[..written], input);
    assert out[..written] == out[..];
    r := Ok(out[..]);
  }

  /** When the bits fill whole bytes there is nothing to drop. */
  lemma WholeBytes(input: string, width: nat)
    requires IsBase32(input) && 5 * |input| == 8 * width
    ensures Value(Indices(input), 32) >= 0
    ensures Base32(input) == Ok(Digits(Value(Indices(input), 32), 256, width))
    ensures AreDigits(Digits(Value(Indices(input), 32), 256, width), 256)
  {
    IndicesAreDigits(input);
    ValueNonNegative(Indices(input), 32);
    assert 5 * |input| % 8 == 0 && 5 * |input| / 8 == width;
    DividedByOne(Value(Indices(input), 32));
    DigitsAreDigits(Value(Indices(input), 32), 256, width);
  }

  lemma DividedByOne(v: nat)
    ensures v / TwoTo(0) == v
  {
  }

  // ----------------------------------------------------------------- encoding

  /** Base32 of a byte string whose bits fill `width` whole characters. */
  function EncodeBase32(bytes: seq<int>, width: nat): (s: string)
    requires AreDigits(bytes, 256)
    ensures |s| == width
  {
    ValueNonNegative(bytes, 256);
    DigitsAreDigits(Value(bytes, 256), 32, width);
    var ds := Digits(Value(bytes, 256), 32, width);
    seq(width, i requires 0 <= i < width => BASE32_ALPHABET[ds[i]])
  }

  /** Five-bit and eight-bit digit strings of the same bit length range over the same numbers. */
  lemma SameRange(n: nat, m: nat)
    requires 5 * n == 8 * m
    ensures Pow(32, n) == Pow(256, m)
  {
    assert Pow(2, 5) == 32;
    assert Pow(2, 8) == 256 by {
      PowAdd(2, 5, 3);
      assert Pow(2, 3) == 8;
    }
    PowPow(2, 5, n);
    PowPow(2, 8, m);
  }

  lemma EncodedIndices(bytes: seq<int>, width: nat)
    requires AreDigits(bytes, 256) && 5 * width == 8 * |bytes|
    ensures Value(bytes, 256) >= 0 && IsBase32(EncodeBase32(bytes, width))
    ensures Indices(EncodeBase32(bytes, width)) == Digits(Value(bytes, 256), 32, width)
  {
    ValueNonNegative(bytes, 256);
    var ds := Digits(Value(bytes, 256), 32, width);
    DigitsAreDigits(Value(bytes, 256), 32, width);
    forall i | 0 <= i < width ensures IndexOf(EncodeBase32(bytes, width)[i]) == ds[i] {
      IndexOfSymbol(ds[i]);
    }
  }

  /** Decoding inverts encoding. */
  lemma DecodeEncode(bytes: seq<int>, width: nat)
    requires AreDigits(bytes, 256) && 5 * width == 8 * |bytes|
    ensures Base32(EncodeBase32(bytes, width)) == Ok(bytes)
  {
    EncodedIndices(bytes, width);
    WholeBytes(EncodeBase32(bytes, width), |bytes|);
    ValueBelow(bytes, 256);
    SameRange(width, |bytes|);
    DigitsThenValue(Value(bytes, 256), 32, width);
    ValueThenDigits(bytes, 256);
  }

  /** Encoding inverts decoding: a string of whole bytes is the only one for its bytes. */
  lemma EncodeDecode(input: string, width: nat)
    requires IsBase32(input) && 5 * |input| == 8 * width
    ensures Base32(input).Ok? && |Base32(input).value| == width && AreDigits(Base32(input).value, 256)
    ensures EncodeBase32(Base32(input).value, |input|) == input
  {
    WholeBytes(input, width);
    var ds, v := Indices(input), Value(Indices(input), 32);
    IndicesAreDigits(input);
    ValueBelow(ds, 32);
    SameRange(|input|, width);
    DigitsThenValue(v, 256, width);
    ValueThenDigits(ds, 32);
    forall i | 0 <= i < |input| ensures EncodeBase32(Base32(input).value, |input|)[i] == input[i] {
      SymbolOfIndex(input[i]);
    }
  }
}
