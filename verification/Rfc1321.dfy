/**
 * RFC 1321, the MD5 message-digest algorithm: padding (section 3.1), length (3.2),
 * initial chaining value (3.3), the four rounds (3.4) and the output order (3.5).
 * Everything here is the reference; the C implementation is modelled in Md5Body and Md5Stream.
 */
module Rfc1321 {
  import Bytes

  /** Bit operations are on bit vectors. */
  type Byte = bv8

  /** A 32-bit word. Boxing the bits keeps the solver from comparing words bit by bit. */
  datatype Word = Word(bits: bv32)

  datatype Chain = Chain(a: Word, b: Word, c: Word, d: Word)

  const IV: Chain := Chain(Word(0x67452301), Word(0xefcdab89), Word(0x98badcfe), Word(0x10325476))

  // ----- Section 3.4: auxiliary functions ---------------------------------------------

  function FBits(x: bv32, y: bv32, z: bv32): bv32 { (x & y) | (!x & z) }

  function GBits(x: bv32, y: bv32, z: bv32): bv32 { (x & z) | (y & !z) }

  function HBits(x: bv32, y: bv32, z: bv32): bv32 { x ^ y ^ z }

  function IBits(x: bv32, y: bv32, z: bv32): bv32 { y ^ (x | !z) }

  function F(x: Word, y: Word, z: Word): Word { Word(FBits(x.bits, y.bits, z.bits)) }

  function G(x: Word, y: Word, z: Word): Word { Word(GBits(x.bits, y.bits, z.bits)) }

  function H(x: Word, y: Word, z: Word): Word { Word(HBits(x.bits, y.bits, z.bits)) }

  function I(x: Word, y: Word, z: Word): Word { Word(IBits(x.bits, y.bits, z.bits)) }

  /** Addition modulo 2^32. */
  function Add(x: Word, y: Word): Word { Word(x.bits + y.bits) }

  function Auxiliary(i: nat, x: Word, y: Word, z: Word): Word
    requires i < 64
  {
    if i < 16 then F(x, y, z) else if i < 32 then G(x, y, z) else if i < 48 then H(x, y, z) else I(x, y, z)
  }

  // ----- Section 3.4: the operation table, four operations a row ------------------------

  /** The index k of the message word X[k] that operation i adds. */
  function WordIndex(i: nat): (k: nat)
    requires i < 64
    ensures k < 16
  {
    if i < 4 then (match i case 0 => 0 case 1 => 1 case 2 => 2 case _ => 3) else
    if i < 8 then (match i case 4 => 4 case 5 => 5 case 6 => 6 case _ => 7) else
    if i < 12 then (match i case 8 => 8 case 9 => 9 case 10 => 10 case _ => 11) else
    if i < 16 then (match i case 12 => 12 case 13 => 13 case 14 => 14 case _ => 15) else
    if i < 20 then (match i case 16 => 1 case 17 => 6 case 18 => 11 case _ => 0) else
    if i < 24 then (match i case 20 => 5 case 21 => 10 case 22 => 15 case _ => 4) else
    if i < 28 then (match i case 24 => 9 case 25 => 14 case 26 => 3 case _ => 8) else
    if i < 32 then (match i case 28 => 13 case 29 => 2 case 30 => 7 case _ => 12) else
    if i < 36 then (match i case 32 => 5 case 33 => 8 case 34 => 11 case _ => 14) else
    if i < 40 then (match i case 36 => 1 case 37 => 4 case 38 => 7 case _ => 10) else
    if i < 44 then (match i case 40 => 13 case 41 => 0 case 42 => 3 case _ => 6) else
    if i < 48 then (match i case 44 => 9 case 45 => 12 case 46 => 15 case _ => 2) else
    if i < 52 then (match i case 48 => 0 case 49 => 7 case 50 => 14 case _ => 5) else
    if i < 56 then (match i case 52 => 12 case 53 => 3 case 54 => 10 case _ => 1) else
    if i < 60 then (match i case 56 => 8 case 57 => 15 case 58 => 6 case _ => 13) else
    match i case 60 => 4 case 61 => 11 case 62 => 2 case _ => 9
  }

  /** The rotation of operation i. */
  function Shift(i: nat): (s: bv6)
    requires i < 64
    ensures 0 < s < 32
  {
    if i < 16 then (match i % 4 case 0 => 7 case 1 => 12 case 2 => 17 case _ => 22) else
    if i < 32 then (match i % 4 case 0 => 5 case 1 => 9 case 2 => 14 case _ => 20) else
    if i < 48 then (match i % 4 case 0 => 4 case 1 => 11 case 2 => 16 case _ => 23) else
    match i % 4 case 0 => 6 case 1 => 10 case 2 => 15 case _ => 21
  }

  /** The sine table: element i (from zero) is the integer part of 2^32 * |sin(i + 1)|. */
  function T(i: nat): bv32
    requires i < 64
  {
    if i < 4 then (match i case 0 => 0xd76aa478 case 1 => 0xe8c7b756 case 2 => 0x242070db case _ => 0xc1bdceee) else
    if i < 8 then (match i case 4 => 0xf57c0faf case 5 => 0x4787c62a case 6 => 0xa8304613 case _ => 0xfd469501) else
    if i < 12 then (match i case 8 => 0x698098d8 case 9 => 0x8b44f7af case 10 => 0xffff5bb1 case _ => 0x895cd7be) else
    if i < 16 then (match i case 12 => 0x6b901122 case 13 => 0xfd987193 case 14 => 0xa679438e case _ => 0x49b40821) else
    if i < 20 then (match i case 16 => 0xf61e2562 case 17 => 0xc040b340 case 18 => 0x265e5a51 case _ => 0xe9b6c7aa) else
    if i < 24 then (match i case 20 => 0xd62f105d case 21 => 0x02441453 case 22 => 0xd8a1e681 case _ => 0xe7d3fbc8) else
    if i < 28 then (match i case 24 => 0x21e1cde6 case 25 => 0xc33707d6 case 26 => 0xf4d50d87 case _ => 0x455a14ed) else
    if i < 32 then (match i case 28 => 0xa9e3e905 case 29 => 0xfcefa3f8 case 30 => 0x676f02d9 case _ => 0x8d2a4c8a) else
    if i < 36 then (match i case 32 => 0xfffa3942 case 33 => 0x8771f681 case 34 => 0x6d9d6122 case _ => 0xfde5380c) else
    if i < 40 then (match i case 36 => 0xa4beea44 case 37 => 0x4bdecfa9 case 38 => 0xf6bb4b60 case _ => 0xbebfbc70) else
    if i < 44 then (match i case 40 => 0x289b7ec6 case 41 => 0xeaa127fa case 42 => 0xd4ef3085 case _ => 0x04881d05) else
    if i < 48 then (match i case 44 => 0xd9d4d039 case 45 => 0xe6db99e5 case 46 => 0x1fa27cf8 case _ => 0xc4ac5665) else
    if i < 52 then (match i case 48 => 0xf4292244 case 49 => 0x432aff97 case 50 => 0xab9423a7 case _ => 0xfc93a039) else
    if i < 56 then (match i case 52 => 0x655b59c3 case 53 => 0x8f0ccc92 case 54 => 0xffeff47d case _ => 0x85845dd1) else
    if i < 60 then (match i case 56 => 0x6fa87e4f case 57 => 0xfe2ce6e0 case 58 => 0xa3014314 case _ => 0x4e0811a1) else
    match i case 60 => 0xf7537e82 case 61 => 0xbd3af235 case 62 => 0x2ad7d2bb case _ => 0xeb86d391
  }

  function Plus(x: bv32, y: bv32): bv32 { x + y }

  /** x <<< s: the bits shifted out on the left come back on the right. */
  function Rotl(x: bv32, s: bv6): bv32
    requires 0 < s < 32
  {
    (x << s) | (x >> (32 - s))
  }

  /** Rotl is the rotation of the language, for each of the sixteen amounts of the table. */
  lemma RotlRotates(x: bv32)
    ensures Rotl(x, 7) == x.RotateLeft(7) && Rotl(x, 12) == x.RotateLeft(12)
    ensures Rotl(x, 17) == x.RotateLeft(17) && Rotl(x, 22) == x.RotateLeft(22)
    ensures Rotl(x, 5) == x.RotateLeft(5) && Rotl(x, 9) == x.RotateLeft(9)
    ensures Rotl(x, 14) == x.RotateLeft(14) && Rotl(x, 20) == x.RotateLeft(20)
    ensures Rotl(x, 4) == x.RotateLeft(4) && Rotl(x, 11) == x.RotateLeft(11)
    ensures Rotl(x, 16) == x.RotateLeft(16) && Rotl(x, 23) == x.RotateLeft(23)
    ensures Rotl(x, 6) == x.RotateLeft(6) && Rotl(x, 10) == x.RotateLeft(10)
    ensures Rotl(x, 15) == x.RotateLeft(15) && Rotl(x, 21) == x.RotateLeft(21)
  {}

  /** b + ((a + f + x + t) <<< s), the sums modulo 2^32 and the rotation on 32 bits. */
  function MixBits(f: bv32, a: bv32, b: bv32, x: bv32, t: bv32, s: bv6): bv32
    requires 0 < s < 32
  {
    Plus(b, Rotl(a + f + x + t, s))
  }

  function Mix(f: Word, a: Word, b: Word, x: Word, t: bv32, s: bv6): Word
    requires 0 < s < 32
  {
    Word(MixBits(f.bits, a.bits, b.bits, x.bits, t, s))
  }

  /** One operation on the registers: the new value becomes b, and the registers move up one role. */
  function Operation(i: nat, s: Chain, x: seq<Word>): Chain
    requires i < 64 && |x| == 16
  {
    Chain(s.d, Mix(Auxiliary(i, s.b, s.c, s.d), s.a, s.b, x[WordIndex(i)], T(i), Shift(i)), s.b, s.c)
  }

  function Operations(n: nat, s: Chain, x: seq<Word>): Chain
    requires n <= 64 && |x| == 16
  {
    if n == 0 then s else Operation(n - 1, Operations(n - 1, s, x), x)
  }

  // ----- Section 2: words are stored low-order byte first --------------------------------

  function FromBytes(b0: Byte, b1: Byte, b2: Byte, b3: Byte): Word {
    Word(b0 as bv32 + b1 as bv32 * 0x100 + b2 as bv32 * 0x1_0000 + b3 as bv32 * 0x100_0000)
  }

  function WordsOf(block: seq<Byte>): (x: seq<Word>)
    requires |block| == 64
    ensures |x| == 16
  {
    seq(16, j requires 0 <= j < 16 => FromBytes(block[4 * j], block[4 * j + 1], block[4 * j + 2], block[4 * j + 3]))
  }

  function ToBytes(w: Word): (b: seq<Byte>)
    ensures |b| == 4
  {
    [(w.bits & 0xff) as Byte, ((w.bits >> 8) & 0xff) as Byte, ((w.bits >> 16) & 0xff) as Byte, (w.bits >> 24) as Byte]
  }

  /** ToBytes is the inverse of reading a word, so its order is the low-order-first one. */
  lemma WordBytesRoundTrip(w: Word)
    ensures var b := ToBytes(w); FromBytes(b[0], b[1], b[2], b[3]) == w
  {}

  // ----- Sections 3.1 to 3.5 -------------------------------------------------------------

  function Compress(s: Chain, block: seq<Byte>): Chain
    requires |block| == 64
  {
    var e := Operations(64, s, WordsOf(block));
    Chain(Add(e.a, s.a), Add(e.b, s.b), Add(e.c, s.c), Add(e.d, s.d))
  }

  /** The chaining value after all full 64-byte blocks of m, in order. */
  function Fold(s: Chain, m: seq<Byte>): Chain
    decreases |m|
  {
    if |m| < 64 then s else Fold(Compress(s, m[..64]), m[64..])
  }

  function Zeros(n: nat): (z: seq<Byte>)
    ensures |z| == n
  {
    seq(n, _ => 0)
  }

  /** How many zero bytes follow the 0x80 byte. */
  function ZeroCount(length: nat): (z: nat)
    ensures z < 64 && (length + 1 + z + 8) % 64 == 0
  {
    (55 - length) % 64
  }

  /** Byte k of the number v, low-order byte first. */
  function Octet(v: nat, unit: nat): Byte
    requires unit > 0
  {
    (v / unit % 0x100) as Byte
  }

  function LittleEndian32(v: nat): (b: seq<Byte>)
    ensures |b| == 4
  {
    [Octet(v, 1), Octet(v, 0x100), Octet(v, 0x1_0000), Octet(v, 0x100_0000)]
  }

  /** The bit length modulo 2^64 as two words, low-order word first. */
  function LengthBytes(length: nat): (b: seq<Byte>)
    ensures |b| == 8
  {
    var bits := 8 * length % 0x1_0000_0000_0000_0000;
    LittleEndian32(bits % 0x1_0000_0000) + LittleEndian32(bits / 0x1_0000_0000)
  }

  function Pad(m: seq<Byte>): (p: seq<Byte>)
    ensures |p| % 64 == 0
  {
    m + [0x80] + Zeros(ZeroCount(|m|)) + LengthBytes(|m|)
  }

  function Output(s: Chain): (digest: seq<Byte>)
    ensures |digest| == 16
  {
    ToBytes(s.a) + ToBytes(s.b) + ToBytes(s.c) + ToBytes(s.d)
  }

  function Md5(m: seq<Byte>): (digest: seq<Byte>)
    ensures |digest| == 16
  {
    Output(Fold(IV, Pad(m)))
  }

  /** Folding can stop after any whole number of blocks and go on from there. */
  lemma {:induction false} FoldAppend(s: Chain, m: seq<Byte>, n: seq<Byte>)
    requires |m| % 64 == 0
    ensures Fold(s, m + n) == Fold(Fold(s, m), n)
    decreases |m|
  {
    if m == [] {
      assert m + n == n;
    } else {
      assert (m + n)[..64] == m[..64];
      assert (m + n)[64..] == m[64..] + n;
      FoldAppend(Compress(s, m[..64]), m[64..], n);
    }
  }

  /** The table of message words is the arithmetic progression it is usually described by. */
  lemma WordIndexFormula(i: nat)
    requires i < 64
    ensures WordIndex(i) == if i < 16 then i else if i < 32 then (5 * i + 1) % 16
                            else if i < 48 then (3 * i + 5) % 16 else 7 * i % 16
  {}

  // ----- What the bytes of the padding are ---------------------------------------------------

  lemma OctetValue(v: nat, unit: nat)
    requires unit > 0
    ensures Octet(v, unit) as int == v / unit % 0x100
  {
    ByteValue(v / unit % 0x100);
  }

  lemma ByteValue(n: nat)
    requires n < 0x100
    ensures (n as Byte) as int == n
  {
    var b := FindByte(n);
    Back(b);
    assert n as Byte == b;
  }

  lemma {:induction false} FindByte(n: nat) returns (b: Byte)
    requires n < 0x100
    ensures b as int == n
  {
    if n == 0 {
      b := 0;
    } else {
      b := FindByte(n - 1);
      Successor(b);
      b := b + 1;
    }
  }

  lemma Successor(b: Byte)
    requires b as int < 0xff
    ensures (b + 1) as int == b as int + 1
  {
    Greatest(b);
  }

  lemma Greatest(b: Byte)
    ensures b == 0xff <==> b as int == 0xff
  {}

  lemma Back(b: Byte)
    ensures (b as int) as Byte == b
  {}

  /** The four bytes are the digits of the number to the base 256, the lowest one first. */
  lemma LittleEndianValue(v: nat)
    requires v < 0x1_0000_0000
    ensures var b := LittleEndian32(v);
      b[0] as int + 0x100 * b[1] as int + 0x1_0000 * b[2] as int + 0x100_0000 * b[3] as int == v
  {
    hide Octet;
    OctetValue(v, 1);
    OctetValue(v, 0x100);
    OctetValue(v, 0x1_0000);
    OctetValue(v, 0x100_0000);
    Bytes.Digits(v);
  }

  /** The number that bytes stand for, the lowest digit first. */
  function ValueOf(b: seq<Byte>): (v: nat) {
    if b == [] then 0 else b[0] as int + 0x100 * ValueOf(b[1..])
  }

  /** Section 3.2: the length field is the number of bits modulo 2^64, low-order byte first. */
  lemma LengthFieldValue(length: nat)
    ensures ValueOf(LengthBytes(length)) == 8 * length % 0x1_0000_0000_0000_0000
  {
    hide LittleEndian32;
    var bits := 8 * length % 0x1_0000_0000_0000_0000;
    var lo, hi := bits % 0x1_0000_0000, bits / 0x1_0000_0000;
    LittleEndianValue(lo);
    LittleEndianValue(hi);
    FourBytes(LittleEndian32(lo), LittleEndian32(hi));
  }

  lemma FourBytes(lo: seq<Byte>, hi: seq<Byte>)
    requires |lo| == 4 && |hi| == 4
    ensures ValueOf(lo + hi) ==
      (lo[0] as int + 0x100 * lo[1] as int + 0x1_0000 * lo[2] as int + 0x100_0000 * lo[3] as int)
      + 0x1_0000_0000 * (hi[0] as int + 0x100 * hi[1] as int + 0x1_0000 * hi[2] as int + 0x100_0000 * hi[3] as int)
  {
    Unfold4(hi, []);
    assert hi + [] == hi;
    Unfold4(lo, hi);
  }

  lemma ValueStep(low: Byte, rest: seq<Byte>)
    ensures ValueOf([low] + rest) == low as int + 0x100 * ValueOf(rest)
  {
    assert ([low] + rest)[1..] == rest;
  }

  lemma Unfold4(b: seq<Byte>, rest: seq<Byte>)
    requires |b| == 4
    ensures ValueOf(b + rest) == b[0] as int + 0x100 * b[1] as int + 0x1_0000 * b[2] as int
                                 + 0x100_0000 * b[3] as int + 0x1_0000_0000 * ValueOf(rest)
  {
    hide ValueOf;
    ValueStep(b[3], rest);
    ValueStep(b[2], [b[3]] + rest);
    ValueStep(b[1], [b[2]] + ([b[3]] + rest));
    ValueStep(b[0], [b[1]] + ([b[2]] + ([b[3]] + rest)));
    assert b + rest == [b[0]] + ([b[1]] + ([b[2]] + ([b[3]] + rest)));
  }

  lemma ZerosAreZero(n: nat)
    ensures forall k :: 0 <= k < n ==> Zeros(n)[k] == 0
  {}

  /**
   * Sections 3.1 and 3.2: the message, the bit 1, as few zeros as fill up whole blocks, and the length.
   */
  lemma PaddingShape(m: seq<Byte>)
    ensures var p := Pad(m);
      && |m| + 9 <= |p| < |m| + 73 && |p| % 64 == 0
      && p[..|m|] == m && p[|m|] == 0x80
      && (forall k :: |m| < k < |p| - 8 ==> p[k] == 0)
      && ValueOf(p[|p| - 8..]) == 8 * |m| % 0x1_0000_0000_0000_0000
  {
    var p := Pad(m);
    hide LengthBytes, ValueOf, ZeroCount, Zeros;
    ZerosAreZero(ZeroCount(|m|));
    var z := Zeros(ZeroCount(|m|));
    assert p == m + [0x80] + z + LengthBytes(|m|);
    assert p[|p| - 8..] == LengthBytes(|m|);
    assert forall k :: |m| < k < |p| - 8 ==> p[k] == z[k - |m| - 1];
    LengthFieldValue(|m|);
  }
}
