/**
 Byte buffers: fixed-width big-endian integers, lexicographic comparison as in
 `Buffer.compare`, and in-place writes into a pre-allocated buffer.
 */
module Bytes {

  type byte = x: int | 0 <= x < 256
  type Buffer = seq<byte>
  type Digest = b: seq<byte> | |b| == 32 witness seq(32, _ => 0)

  /** The digest function. Its collisions matter only on the inputs a run actually hashes. */
  type HashFn = Buffer -> Digest

  // ------------------------------------------------------- big-endian integers

  function Span(width: nat): nat {
    if width == 0 then 1 else 256 * Span(width - 1)
  }

  function BigEndian(x: nat, width: nat): (b: Buffer)
    ensures |b| == width
  {
    if width == 0 then [] else BigEndian(x / 256, width - 1) + [x % 256]
  }

  /** The number that bytes stand for, the most significant first. */
  function Read(b: Buffer): nat {
    if b == [] then 0 else 256 * Read(b[..|b| - 1]) + b[|b| - 1]
  }

  lemma {:induction false} ReadBack(x: nat, width: nat)
    requires x < Span(width)
    ensures Read(BigEndian(x, width)) == x
  {
    if width > 0 {
      ReadBack(x / 256, width - 1);
      assert BigEndian(x, width)[..width - 1] == BigEndian(x / 256, width - 1);
    }
  }

  lemma Spans()
    ensures Span(4) == 0x1_0000_0000 && Span(8) == 0x1_0000_0000_0000_0000
  {
    assert Span(2) == 0x1_0000;
    assert Span(3) == 0x100_0000;
    assert Span(5) == 0x100_0000_0000;
    assert Span(6) == 0x1_0000_0000_0000;
    assert Span(7) == 0x100_0000_0000_0000;
  }

  // ------------------------------------------------- lexicographic comparison

  /** `Buffer.compare`: negative, zero or positive. */
  function Compare(a: Buffer, b: Buffer): int {
    if a == [] then (if b == [] then 0 else -1)
    else if b == [] then 1
    else if a[0] < b[0] then -1
    else if a[0] > b[0] then 1
    else Compare(a[1..], b[1..])
  }

  lemma {:induction false} CompareEqual(a: Buffer, b: Buffer)
    ensures Compare(a, b) == 0 <==> a == b
  {
    if a != [] && b != [] {
      CompareEqual(a[1..], b[1..]);
      assert a == [a[0]] + a[1..] && b == [b[0]] + b[1..];
    }
  }

  lemma {:induction false} CompareFlip(a: Buffer, b: Buffer)
    ensures Compare(a, b) == -Compare(b, a)
  {
    if a != [] && b != [] { CompareFlip(a[1..], b[1..]); }
  }

  lemma {:induction false} CompareTransitive(a: Buffer, b: Buffer, c: Buffer)
    requires Compare(a, b) <= 0 && Compare(b, c) <= 0
    ensures Compare(a, c) <= 0
    ensures Compare(a, b) < 0 || Compare(b, c) < 0 ==> Compare(a, c) < 0
  {
    if a != [] && b != [] && c != [] && a[0] == b[0] == c[0] {
      CompareTransitive(a[1..], b[1..], c[1..]);
    }
  }

  // ------------------------------------------------------------ in-place writes

  /** `src.copy(buf, at, 0, |src|)`. */
  method CopyInto(buf: array<byte>, src: Buffer, at: nat)
    requires at + |src| <= buf.Length
    modifies buf
    ensures buf[..at + |src|] == old(buf[..at]) + src
    ensures forall i :: at + |src| <= i < buf.Length ==> buf[i] == old(buf[i])
  {
    for i := 0 to |src|
      invariant buf[..at] == old(buf[..at])
      invariant buf[at..at + i] == src[..i]
      invariant forall j :: at + i <= j < buf.Length ==> buf[j] == old(buf[j])
    {
      buf[at + i] := src[i];
    }
    assert buf[..at + |src|] == buf[..at] + buf[at..at + |src|];
  }

  /** `buf.writeUInt32BE` and `buf.writeBigUInt64BE`. */
  method WriteUInt(buf: array<byte>, x: nat, width: nat, at: nat)
    requires at + width <= buf.Length
    modifies buf
    ensures buf[..at + width] == old(buf[..at]) + BigEndian(x, width)
    ensures forall i :: at + width <= i < buf.Length ==> buf[i] == old(buf[i])
  {
    CopyInto(buf, BigEndian(x, width), at);
  }
}
