/**
 * Bytes, and the little-endian integers that packed C structs hold.
 */
module Bytes {
  newtype byte = x: int | 0 <= x < 0x100

  function ByteOf(v: nat, unit: nat): (b: byte)
    requires unit > 0
  {
    (v / unit % 0x100) as byte
  }

  function Int16Bytes(v: nat): (b: seq<byte>)
    ensures |b| == 2
  {
    [ByteOf(v, 1), ByteOf(v, 0x100)]
  }

  function UInt16At(b: seq<byte>, at: nat): (v: nat)
    requires at + 2 <= |b|
  {
    b[at] as nat + 0x100 * b[at + 1] as nat
  }

  predicate IsInt32(v: int) { -0x8000_0000 <= v < 0x8000_0000 }

  /** The cast to a 32-bit signed integer: the value modulo 2^32, as two's complement. */
  function Wrap32(v: int): (w: int)
    ensures IsInt32(w) && (IsInt32(v) ==> w == v) && (v - w) % 0x1_0000_0000 == 0
  {
    (v + 0x8000_0000) % 0x1_0000_0000 - 0x8000_0000
  }

  function UInt32Bytes(v: nat): (b: seq<byte>)
    ensures |b| == 4
  {
    [ByteOf(v, 1), ByteOf(v, 0x100), ByteOf(v, 0x1_0000), ByteOf(v, 0x100_0000)]
  }

  function Int32Bytes(v: int): (b: seq<byte>)
    requires IsInt32(v)
    ensures |b| == 4
  {
    UInt32Bytes(v % 0x1_0000_0000)
  }

  function UInt32At(b: seq<byte>, at: nat): (v: nat)
    requires at + 4 <= |b|
    ensures v < 0x1_0000_0000
  {
    b[at] as nat + 0x100 * b[at + 1] as nat + 0x1_0000 * b[at + 2] as nat + 0x100_0000 * b[at + 3] as nat
  }

  function Int32At(b: seq<byte>, at: nat): (v: int)
    requires at + 4 <= |b|
    ensures IsInt32(v)
  {
    var u := UInt32At(b, at);
    if u < 0x8000_0000 then u else u - 0x1_0000_0000
  }

  /** The bytes f stand in b at offset at. */
  predicate FieldAt(b: seq<byte>, at: nat, f: seq<byte>) {
    at + |f| <= |b| && b[at..at + |f|] == f
  }

  lemma ReadInt16(b: seq<byte>, at: nat, v: nat)
    requires v < 0x1_0000 && FieldAt(b, at, Int16Bytes(v))
    ensures UInt16At(b, at) == v
  {}

  lemma ReadInt32(b: seq<byte>, at: nat, v: int)
    requires IsInt32(v) && FieldAt(b, at, Int32Bytes(v))
    ensures Int32At(b, at) == v
  {
    var f := b[at..at + 4];
    assert f[0] == b[at] && f[1] == b[at + 1] && f[2] == b[at + 2] && f[3] == b[at + 3];
    Digits(v % 0x1_0000_0000);
  }

  lemma Digits(u: nat)
    requires u < 0x1_0000_0000
    ensures u % 0x100 + 0x100 * (u / 0x100 % 0x100) + 0x1_0000 * (u / 0x1_0000 % 0x100)
            + 0x100_0000 * (u / 0x100_0000 % 0x100) == u
  {
    var v, w, x := u / 0x100, u / 0x1_0000, u / 0x100_0000;
    assert v / 0x100 == w && w / 0x100 == x && x % 0x100 == x;
    assert u == u % 0x100 + 0x100 * v;
    assert v == v % 0x100 + 0x100 * w;
    assert w == w % 0x100 + 0x100 * x;
  }

  /** The bytes of a number are its digits to the base 256, the lowest first: 0x01020304 is 04 03 02 01. */
  lemma LittleEndian(v: nat)
    requires v < 0x1_0000_0000
    ensures var b := UInt32Bytes(v);
      b[0] as nat + 0x100 * b[1] as nat + 0x1_0000 * b[2] as nat + 0x100_0000 * b[3] as nat == v
    ensures v < 0x1_0000 ==> var b := Int16Bytes(v); b[0] as nat + 0x100 * b[1] as nat == v
    ensures UInt32Bytes(0x0102_0304) == [4, 3, 2, 1] && Int16Bytes(0x0102) == [2, 1]
  {
    Digits(v);
  }

  /** memcpy of data to offset at. */
  method Store(b: array<byte>, at: nat, data: seq<byte>)
    requires at + |data| <= b.Length
    modifies b
    ensures FieldAt(b[..], at, data)
    ensures forall p: nat, f: seq<byte> {:trigger FieldAt(b[..], p, f)} ::
      FieldAt(old(b[..]), p, f) && (p + |f| <= at || at + |data| <= p) ==> FieldAt(b[..], p, f)
    ensures forall i :: 0 <= i < b.Length && !(at <= i < at + |data|) ==> b[i] == old(b[i])
  {
    for i := 0 to |data|
      invariant forall j :: 0 <= j < b.Length ==> b[j] == if at <= j < at + i then data[j - at] else old(b[j])
    {
      b[at + i] := data[i];
    }
    forall p: nat, f: seq<byte> | FieldAt(old(b[..]), p, f) && (p + |f| <= at || at + |data| <= p)
      ensures FieldAt(b[..], p, f)
    {
      forall i | 0 <= i < |f| ensures b[..][p + i] == f[i] {
        assert old(b[..])[p..p + |f|][i] == f[i];
      }
    }
  }
}
