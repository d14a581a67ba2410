/**
 Hash fields as hexadecimal text: the comparison `normalizeHex32` of
 `backend/src/relayer/verifier.ts` against the bytes that `Buffer.from(…, 'hex')` yields.
 */
module HexFields {
  import opened Bytes

  predicate IsHexDigit(c: char) {
    '0' <= c <= '9' || 'a' <= c <= 'f' || 'A' <= c <= 'F'
  }

  function Nibble(c: char): (n: int)
    requires IsHexDigit(c)
    ensures 0 <= n < 16
  {
    if c <= '9' then c as int - '0' as int
    else if c <= 'F' then c as int - 'A' as int + 10
    else c as int - 'a' as int + 10
  }

  function LowerChar(c: char): char {
    if 'A' <= c <= 'Z' then (c as int + 32) as char else c
  }

  function Lower(s: string): (t: string)
    ensures |t| == |s|
  {
    seq(|s|, i requires 0 <= i < |s| => LowerChar(s[i]))
  }

  /** `startsWith('0x') ? slice(2) : …`, and `replace(/^0x/, '')`. */
  function Strip(s: string): string {
    if |s| >= 2 && s[0] == '0' && s[1] == 'x' then s[2..] else s
  }

  function PadStart(s: string, width: nat): string {
    if |s| >= width then s else seq(width - |s|, _ => '0') + s
  }

  function NormalizeHex32(hex: string): string {
    "0x" + PadStart(Lower(Strip(hex)), 64)
  }

  /** `Buffer.from(s, 'hex')`: whole pairs of digits, up to the first that is not one. */
  function FromHex(s: string): Buffer {
    if |s| < 2 || !IsHexDigit(s[0]) || !IsHexDigit(s[1]) then []
    else [16 * Nibble(s[0]) + Nibble(s[1])] + FromHex(s[2..])
  }

  function Digit(n: int): (c: char)
    requires 0 <= n < 16
    ensures IsHexDigit(c) && Nibble(c) == n && LowerChar(c) == c
  {
    if n < 10 then (n + '0' as int) as char else (n - 10 + 'a' as int) as char
  }

  /** `toString('hex')`. */
  function ToHex(b: Buffer): (s: string)
    ensures |s| == 2 * |b|
  {
    if b == [] then [] else [Digit(b[0] / 16), Digit(b[0] % 16)] + ToHex(b[1..])
  }

  predicate AllHex(s: string) {
    forall i :: 0 <= i < |s| ==> IsHexDigit(s[i])
  }

  /** The shape the schema demands of a hash field: `0x` and 64 hexadecimal digits. */
  predicate WellFormed(s: string) {
    |s| == 66 && s[0] == '0' && s[1] == 'x' && AllHex(s[2..])
  }

  lemma NibblePinsDigit(c: char, d: char)
    requires IsHexDigit(c) && IsHexDigit(d)
    ensures Nibble(c) == Nibble(d) <==> LowerChar(c) == LowerChar(d)
  {
  }

  lemma LowerTail(s: string)
    requires |s| >= 2
    ensures Lower(s) == [LowerChar(s[0]), LowerChar(s[1])] + Lower(s[2..])
  {
  }

  /** Two digit strings of one even length denote the same bytes exactly when they agree up to case. */
  lemma {:induction false} SameBytesIffSameDigits(s: string, t: string)
    requires AllHex(s) && AllHex(t) && |s| == |t| && |s| % 2 == 0
    ensures FromHex(s) == FromHex(t) <==> Lower(s) == Lower(t)
    ensures 2 * |FromHex(s)| == |s|
  {
    if s != [] {
      SameBytesIffSameDigits(s[2..], t[2..]);
      LowerTail(s);
      LowerTail(t);
      NibblePinsDigit(s[0], t[0]);
      NibblePinsDigit(s[1], t[1]);
      var l, m := Lower(s), Lower(t);
      assert l[0] == LowerChar(s[0]) && l[1] == LowerChar(s[1]) && l[2..] == Lower(s[2..]);
      assert m[0] == LowerChar(t[0]) && m[1] == LowerChar(t[1]) && m[2..] == Lower(t[2..]);
      assert l == [l[0], l[1]] + l[2..] && m == [m[0], m[1]] + m[2..];
      var a, b := FromHex(s), FromHex(t);
      assert a[0] == 16 * Nibble(s[0]) + Nibble(s[1]) && b[0] == 16 * Nibble(t[0]) + Nibble(t[1]);
      assert a[1..] == FromHex(s[2..]) && b[1..] == FromHex(t[2..]);
    }
  }

  lemma {:induction false} ToHexRoundTrip(b: Buffer)
    ensures AllHex(ToHex(b)) && FromHex(ToHex(b)) == b
  {
    if b != [] {
      ToHexRoundTrip(b[1..]);
      assert ToHex(b)[2..] == ToHex(b[1..]);
      assert b[0] == 16 * (b[0] / 16) + b[0] % 16;
      assert b == [b[0]] + b[1..];
    }
  }

  // --------------------------------------------------- texts against their bytes

  /** The bytes a hash field stands for. */
  function HexBytes(s: string): Buffer {
    FromHex(Strip(s))
  }

  /** `0x` and the digits of some bytes. */
  function Hex(b: Buffer): string {
    "0x" + ToHex(b)
  }

  /** 64 hexadecimal digits, with or without the prefix. */
  predicate FullField(s: string) {
    |Strip(s)| == 64 && AllHex(Strip(s))
  }

  /** Fewer digits than the schema demands. */
  predicate ShortField(s: string) {
    |Strip(s)| < 64 && AllHex(Strip(s))
  }

  lemma HexRoundTrip(b: Buffer)
    ensures Strip(Hex(b)) == ToHex(b) && Strip(ToHex(b)) == ToHex(b)
    ensures HexBytes(Hex(b)) == b && HexBytes(ToHex(b)) == b && AllHex(ToHex(b))
  {
    ToHexRoundTrip(b);
    var text := ToHex(b);
    assert |text| >= 2 ==> IsHexDigit(text[1]);
  }

  lemma WellFormedIsFull(s: string)
    requires WellFormed(s)
    ensures FullField(s)
  {
  }

  lemma NormalizedDigits(s: string)
    requires |Strip(s)| >= 64
    ensures NormalizeHex32(s)[2..] == Lower(Strip(s)) && NormalizeHex32(s) == "0x" + Lower(Strip(s))
  {
  }

  /** Between full hash fields the text comparison is equality of their 32 bytes. */
  lemma NormalizedIffSameBytes(s: string, t: string)
    requires FullField(s) && FullField(t)
    ensures NormalizeHex32(s) == NormalizeHex32(t) <==> HexBytes(s) == HexBytes(t)
    ensures |HexBytes(s)| == 32
  {
    NormalizedDigits(s);
    NormalizedDigits(t);
    SameBytesIffSameDigits(Strip(s), Strip(t));
  }

  /** Comparing a computed digest's text with a full field compares the digest with the field's bytes. */
  lemma NormalizedIffDigest(digest: Digest, field: string)
    requires FullField(field)
    ensures NormalizeHex32(ToHex(digest)) == NormalizeHex32(field) <==> digest == HexBytes(field)
  {
    HexRoundTrip(digest);
    NormalizedIffSameBytes(ToHex(digest), field);
  }

  lemma HexDigitLowered(c: char)
    ensures IsHexDigit(LowerChar(c)) <==> IsHexDigit(c)
    ensures IsHexDigit(c) ==> Nibble(LowerChar(c)) == Nibble(c)
  {
  }

  /** Case does not matter to the bytes. */
  lemma {:induction false} LowerSameBytes(s: string)
    ensures FromHex(Lower(s)) == FromHex(s)
  {
    if |s| >= 2 {
      HexDigitLowered(s[0]);
      HexDigitLowered(s[1]);
      LowerTail(s);
      assert Lower(s)[2..] == Lower(s[2..]);
      LowerSameBytes(s[2..]);
    }
  }

  /** Decoding reads whole pairs of digits and nothing else. */
  lemma {:induction false} BytesArePairs(s: string, i: nat)
    requires 2 * i + 1 < 2 * |FromHex(s)|
    ensures 2 * i + 1 < |s| && IsHexDigit(s[2 * i]) && IsHexDigit(s[2 * i + 1])
    ensures FromHex(s)[i] == 16 * Nibble(s[2 * i]) + Nibble(s[2 * i + 1])
  {
    if i > 0 { BytesArePairs(s[2..], i - 1); }
  }

  lemma {:induction false} BytesWithin(s: string)
    ensures 2 * |FromHex(s)| <= |s|
    ensures AllHex(s) ==> |FromHex(s)| == |s| / 2
  {
    if |s| >= 2 { BytesWithin(s[2..]); }
  }

  lemma {:induction false} FromHexPrefix(s: string, n: nat)
    requires n <= |FromHex(s)|
    ensures 2 * n <= |s| && AllHex(s[..2 * n]) && FromHex(s[..2 * n]) == FromHex(s)[..n]
  {
    BytesWithin(s);
    if n > 0 {
      FromHexPrefix(s[2..], n - 1);
      var front := s[..2 * n];
      assert front[2..] == s[2..][..2 * (n - 1)];
      forall i | 0 <= i < |front| ensures IsHexDigit(front[i]) {
        if i >= 2 { assert front[i] == front[2..][i - 2]; }
      }
    } else {
      assert s[..0] == "";
    }
  }

  lemma NormalizedEqualLowered(s: string, t: string)
    requires |Strip(s)| >= 64 && |Strip(t)| >= 64 && NormalizeHex32(s) == NormalizeHex32(t)
    ensures HexBytes(s) == HexBytes(t)
  {
    NormalizedDigits(s);
    NormalizedDigits(t);
    LowerSameBytes(Strip(s));
    LowerSameBytes(Strip(t));
  }

  /** What normalising a field to 66 characters of hexadecimal digits says about it. */
  lemma NormalizedToDigits(s: string)
    requires |NormalizeHex32(s)| == 66 && AllHex(NormalizeHex32(s)[2..])
    ensures FullField(s) || ShortField(s)
  {
    var digits := NormalizeHex32(s)[2..];
    var low, pad := Lower(Strip(s)), 64 - |Strip(s)|;
    forall i | 0 <= i < |Strip(s)| ensures IsHexDigit(Strip(s)[i]) {
      HexDigitLowered(Strip(s)[i]);
      assert digits[pad + i] == low[i];
    }
  }

  /** The full field that a short one is padded to. */
  function Padded(s: string): string {
    "0x" + PadStart(Strip(s), 64)
  }

  lemma PaddedIsTwin(s: string)
    requires ShortField(s)
    ensures WellFormed(Padded(s)) && NormalizeHex32(s) == NormalizeHex32(Padded(s))
    ensures HexBytes(s) != HexBytes(Padded(s))
  {
    var text := Strip(s);
    var digits := PadStart(text, 64);
    assert Strip(Padded(s)) == digits;
    assert Lower(digits) == PadStart(Lower(text), 64);
    BytesWithin(text);
    BytesWithin(digits);
  }

  /** The first 64 characters of an overlong field whose bytes are still 32. */
  lemma CutIsTwin(s: string) returns (t: string)
    requires |Strip(s)| > 64 && |HexBytes(s)| == 32
    ensures WellFormed(t) && NormalizeHex32(s) != NormalizeHex32(t) && HexBytes(s) == HexBytes(t)
  {
    FromHexPrefix(Strip(s), 32);
    t := "0x" + Strip(s)[..64];
    assert Strip(t) == Strip(s)[..64];
  }

  /**
   Comparing a field's text against every field the schema allows is comparing their bytes,
   unless the field has too few digits, or characters after 64 digits that decoding drops.
   */
  lemma ComparedFaithfullyIff(s: string)
    ensures (forall t: string :: WellFormed(t) ==>
               (NormalizeHex32(s) == NormalizeHex32(t) <==> HexBytes(s) == HexBytes(t)))
            <==> !ShortField(s) && !(|Strip(s)| > 64 && |HexBytes(s)| == 32)
  {
    if ShortField(s) {
      PaddedIsTwin(s);
    } else if |Strip(s)| > 64 && |HexBytes(s)| == 32 {
      var t := CutIsTwin(s);
    } else {
      forall t: string | WellFormed(t)
        ensures NormalizeHex32(s) == NormalizeHex32(t) <==> HexBytes(s) == HexBytes(t)
      {
        ComparedFaithfully(s, t);
      }
    }
  }

  lemma ComparedFaithfully(s: string, t: string)
    requires WellFormed(t) && !ShortField(s) && !(|Strip(s)| > 64 && |HexBytes(s)| == 32)
    ensures NormalizeHex32(s) == NormalizeHex32(t) <==> HexBytes(s) == HexBytes(t)
  {
    WellFormedIsFull(t);
    NormalizedDigits(t);
    BytesWithin(Strip(t));
    if FullField(s) {
      NormalizedIffSameBytes(s, t);
    } else {
      LowerAllHex(Strip(t));
      if NormalizeHex32(s) == NormalizeHex32(t) { NormalizedToDigits(s); }
      BytesWithin(Strip(s));
      if |HexBytes(s)| == 32 { FromHexPrefix(Strip(s), 32); }
    }
  }

  lemma LowerAllHex(s: string)
    requires AllHex(s)
    ensures AllHex(Lower(s))
  {
    forall i | 0 <= i < |s| ensures IsHexDigit(Lower(s)[i]) { HexDigitLowered(s[i]); }
  }
}
