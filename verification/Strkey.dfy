/**
 Decoding of Stellar account addresses, `zk/src/strkey.ts`: base32, version byte and
 checksum, and the two limbs handed to the circuit.
 */
module Strkeys {
  import opened Wrappers
  import opened NumberTheory
  import opened Bytes
  import opened Crc16s
  import opened Base32s

  const VERSION_BYTE_ED25519_PUBLIC_KEY: byte := 48
  const STRKEY_LENGTH: nat := 56

  function AsBytes(ds: seq<int>): (b: Buffer)
    requires AreDigits(ds, 256)
    ensures b == ds
  {
    seq(|ds|, i requires 0 <= i < |ds| => ds[i])
  }

  /** The bytes of a strkey: version, key, and the little-endian checksum of both. */
  function Payload(key: Buffer): Buffer {
    var body := [VERSION_BYTE_ED25519_PUBLIC_KEY] + key;
    body + [LowHalf(Crc16(body)), HighHalf(Crc16(body))]
  }

  /** Strkey encoding of an ed25519 public key, as SEP-0023 specifies it. */
  function Encode(key: Buffer): string {
    EncodeBase32(Payload(key), STRKEY_LENGTH)
  }

  function DecodeKey(address: string): Outcome<Buffer> {
    if |address| != STRKEY_LENGTH then Err(WrongLength)
    else if !IsBase32(address) then Err(InvalidCharacter)
    else
      WholeBytes(address, 35);
      var bytes := AsBytes(Base32(address).value);
      var expected := Crc16(bytes[..33]);
      if bytes[0] != VERSION_BYTE_ED25519_PUBLIC_KEY then Err(WrongVersion)
      else if bytes[33] != LowHalf(expected) || bytes[34] != HighHalf(expected) then Err(ChecksumMismatch)
      else Ok(bytes[1..33])
  }

  method DecodeEd25519PublicKey(address: string) returns (r: Outcome<Buffer>)
    ensures r == DecodeKey(address)
  {
    if |address| != STRKEY_LENGTH { return Err(WrongLength); }
    var decoded := Base32Decode(address);
    if decoded.Err? { return Err(decoded.error); }
    WholeBytes(address, 35);
    var bytes := AsBytes(decoded.value);
    if bytes[0] != VERSION_BYTE_ED25519_PUBLIC_KEY { return Err(WrongVersion); }
    var payload := bytes[..33];
    var expected := Crc16Xmodem(payload);
    if bytes[33] != LowHalf(expected) || bytes[34] != HighHalf(expected) { return Err(ChecksumMismatch); }
    r := Ok(bytes[1..33]);
  }

  /** Decoding inverts strkey encoding, for every 32-byte key. */
  lemma DecodesEncoded(key: Buffer)
    requires |key| == 32
    ensures DecodeKey(Encode(key)) == Ok(key)
  {
    DecodeEncode(Payload(key), STRKEY_LENGTH);
    EncodedIndices(Payload(key), STRKEY_LENGTH);
    var bytes := Payload(key);
    assert AsBytes(bytes) == bytes;
    assert bytes[..33] == [VERSION_BYTE_ED25519_PUBLIC_KEY] + key && bytes[1..33] == key;
  }

  /** An accepted address is the encoding of the key it yields. */
  lemma AcceptsOnlyEncodings(address: string)
    requires DecodeKey(address).Ok?
    ensures |DecodeKey(address).value| == 32 && Encode(DecodeKey(address).value) == address
  {
    EncodeDecode(address, 35);
    var bytes, key := AsBytes(Base32(address).value), DecodeKey(address).value;
    assert bytes[..33] == [VERSION_BYTE_ED25519_PUBLIC_KEY] + key;
    assert bytes == Payload(key);
  }

  /** Exactly the strkey encodings of 32-byte keys are accepted, each as its own key. */
  lemma DecodeIffEncode(address: string, key: Buffer)
    ensures DecodeKey(address) == Ok(key) <==> |key| == 32 && address == Encode(key)
  {
    if DecodeKey(address) == Ok(key) { AcceptsOnlyEncodings(address); }
    if |key| == 32 { DecodesEncoded(key); }
  }

  // -------------------------------------------------------------------- limbs

  /** `bytesToBigInt`. */
  method BytesToBigInt(bytes: Buffer) returns (value: int)
    ensures value == Value(bytes, 256)
  {
    value := 0;
    for i := 0 to |bytes|
      invariant value == Value(bytes[..i], 256)
    {
      assert bytes[..i + 1][..i] == bytes[..i];
      value := value * 256 + bytes[i];
    }
    assert bytes[..|bytes|] == bytes;
  }

  datatype Limbs = Limbs(hi: int, lo: int)

  function KeyLimbs(key: Buffer): Limbs
    requires |key| == 32
  {
    Limbs(Value(key[..16], 256), Value(key[16..32], 256))
  }

  method AddressToLimbs(address: string) returns (r: Outcome<Limbs>)
    ensures if DecodeKey(address).Ok?
            then |DecodeKey(address).value| == 32 && r == Ok(KeyLimbs(DecodeKey(address).value))
            else r == Err(DecodeKey(address).error)
  {
    var key := DecodeEd25519PublicKey(address);
    if key.Err? { return Err(key.error); }
    var hi := BytesToBigInt(key.value[..16]);
    var lo := BytesToBigInt(key.value[16..32]);
    r := Ok(Limbs(hi, lo));
  }

  lemma KeyLimbsFit(key: Buffer)
    requires |key| == 32
    ensures var l := KeyLimbs(key); 0 <= l.hi < Pow(2, 128) && 0 <= l.lo < Pow(2, 128)
  {
    LimbBelow(key[..16]);
    LimbBelow(key[16..32]);
  }

  lemma HalfByValue(a: Buffer, b: Buffer)
    requires |a| == |b| && Value(a, 256) == Value(b, 256)
    ensures a == b
  {
    ValueThenDigits(a, 256);
    ValueThenDigits(b, 256);
  }

  lemma KeyLimbsInjective(j: Buffer, k: Buffer)
    requires |j| == 32 == |k| && KeyLimbs(j) == KeyLimbs(k)
    ensures j == k
  {
    HalfByValue(j[..16], k[..16]);
    HalfByValue(j[16..32], k[16..32]);
    assert j == j[..16] + j[16..32] && k == k[..16] + k[16..32];
  }

  /** Each limb fits 128 bits, and no two accepted addresses share both. */
  lemma LimbsIdentifyAddress(a: string, b: string)
    requires DecodeKey(a).Ok? && DecodeKey(b).Ok?
    ensures |DecodeKey(a).value| == 32 == |DecodeKey(b).value|
    ensures var l := KeyLimbs(DecodeKey(a).value); 0 <= l.hi < Pow(2, 128) && 0 <= l.lo < Pow(2, 128)
    ensures KeyLimbs(DecodeKey(a).value) == KeyLimbs(DecodeKey(b).value) ==> a == b
  {
    AcceptsOnlyEncodings(a);
    AcceptsOnlyEncodings(b);
    KeyLimbsFit(DecodeKey(a).value);
    if KeyLimbs(DecodeKey(a).value) == KeyLimbs(DecodeKey(b).value) {
      KeyLimbsInjective(DecodeKey(a).value, DecodeKey(b).value);
    }
  }

  lemma {:induction false} ValueJoins(a: seq<int>, b: seq<int>, base: nat)
    ensures Value(a + b, base) == Value(a, base) * Pow(base, |b|) + Value(b, base)
  {
    if b == [] {
      assert a + b == a;
    } else {
      var front, last := b[..|b| - 1], b[|b| - 1];
      ValueJoins(a, front, base);
      assert (a + b)[..|a + b| - 1] == a + front;
      var v, p, w := Value(a, base), Pow(base, |front|), Value(front, base);
      assert Pow(base, |b|) == base * p;
      assert (v * p + w) * base == v * (base * p) + w * base by {
        assert v * p * base == v * (base * p);
      }
    }
  }

  /** The first limb is the more significant half: together they are the key's 256-bit number. */
  lemma LimbsAreHalves(key: Buffer)
    requires |key| == 32
    ensures var l := KeyLimbs(key); l.hi * Pow(2, 128) + l.lo == Value(key, 256)
  {
    ValueJoins(key[..16], key[16..32], 256);
    PowersOfBytes(|key[16..32]|);
    assert key == key[..16] + key[16..32];
  }

  lemma LimbBelow(half: Buffer)
    requires |half| == 16
    ensures 0 <= Value(half, 256) < Pow(2, 128)
  {
    ValueBelow(half, 256);
    PowersOfBytes(|half|);
  }

  lemma PowersOfBytes(n: nat)
    ensures Pow(256, n) == Pow(2, 8 * n)
  {
    assert Pow(2, 8) == 256 by {
      PowAdd(2, 5, 3);
      assert Pow(2, 5) == 32 && Pow(2, 3) == 8;
    }
    PowPow(2, 8, n);
  }
}
