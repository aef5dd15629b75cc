/**
 * The compression function of md5/md5.c: 64 unrolled steps on the registers a, b, c, d whose roles
 * rotate, with boolean functions rewritten to save operations and a rotation made of two shifts.
 * It is proved equal to the table-driven operations of RFC 1321 section 3.4.
 */
module Md5Body {
  import opened Rfc1321

  // ----- The rewritten macros F, G, H, H2 and I against the RFC's functions ---------------

  lemma FRewrite(x: bv32, y: bv32, z: bv32)
    ensures z ^ (x & (y ^ z)) == FBits(x, y, z)
  {}

  lemma GRewrite(x: bv32, y: bv32, z: bv32)
    ensures y ^ (z & (x ^ y)) == GBits(x, y, z)
  {}

  lemma HRewrite(x: bv32, y: bv32, z: bv32)
    ensures (x ^ y) ^ z == HBits(x, y, z)
  {}

  lemma H2Rewrite(x: bv32, y: bv32, z: bv32)
    ensures x ^ (y ^ z) == HBits(x, y, z)
  {}

  lemma IRewrite(x: bv32, y: bv32, z: bv32)
    ensures y ^ (x | !z) == IBits(x, y, z)
  {}

  // ----- STEP: a += f + x + t; a = rotation of a; a += b -----------------------------------

  lemma SumOrder(a: bv32, f: bv32, x: bv32, t: bv32)
    ensures a + (f + x + t) == a + f + x + t
  {}

  lemma PlusOrder(x: bv32, y: bv32)
    ensures x + y == Plus(y, x)
  {}

  method Step(f: bv32, a: bv32, b: bv32, x: bv32, t: bv32, s: bv6) returns (r: bv32)
    requires 0 < s < 32
    ensures r == MixBits(f, a, b, x, t, s)
  {
    SumOrder(a, f, x, t);
    r := a + (f + x + t);
    r := Rotate(r, s);
    PlusOrder(r, b);
    r := r + b;
  }

  method Rotate(x: bv32, s: bv6) returns (r: bv32)
    requires 0 < s < 32
    ensures r == Rotl(x, s)
  {
    r := (x << s) | ((x & 0xffffffff) >> (32 - s));
  }

  method StepF(a: Word, b: Word, c: Word, d: Word, x: Word, t: bv32, s: bv6) returns (r: Word)
    requires 0 < s < 32
    ensures r == Mix(F(b, c, d), a, b, x, t, s)
  {
    var f := d.bits ^ (b.bits & (c.bits ^ d.bits));
    FRewrite(b.bits, c.bits, d.bits);
    var sum := Step(f, a.bits, b.bits, x.bits, t, s);
    r := Word(sum);
  }

  method StepG(a: Word, b: Word, c: Word, d: Word, x: Word, t: bv32, s: bv6) returns (r: Word)
    requires 0 < s < 32
    ensures r == Mix(G(b, c, d), a, b, x, t, s)
  {
    var f := c.bits ^ (d.bits & (b.bits ^ c.bits));
    GRewrite(b.bits, c.bits, d.bits);
    var sum := Step(f, a.bits, b.bits, x.bits, t, s);
    r := Word(sum);
  }

  method StepH(a: Word, b: Word, c: Word, d: Word, x: Word, t: bv32, s: bv6) returns (r: Word)
    requires 0 < s < 32
    ensures r == Mix(H(b, c, d), a, b, x, t, s)
  {
    var f := (b.bits ^ c.bits) ^ d.bits;
    HRewrite(b.bits, c.bits, d.bits);
    var sum := Step(f, a.bits, b.bits, x.bits, t, s);
    r := Word(sum);
  }

  method StepH2(a: Word, b: Word, c: Word, d: Word, x: Word, t: bv32, s: bv6) returns (r: Word)
    requires 0 < s < 32
    ensures r == Mix(H(b, c, d), a, b, x, t, s)
  {
    var f := b.bits ^ (c.bits ^ d.bits);
    H2Rewrite(b.bits, c.bits, d.bits);
    var sum := Step(f, a.bits, b.bits, x.bits, t, s);
    r := Word(sum);
  }

  method StepI(a: Word, b: Word, c: Word, d: Word, x: Word, t: bv32, s: bv6) returns (r: Word)
    requires 0 < s < 32
    ensures r == Mix(I(b, c, d), a, b, x, t, s)
  {
    var f := c.bits ^ (b.bits | !d.bits);
    IRewrite(b.bits, c.bits, d.bits);
    var sum := Step(f, a.bits, b.bits, x.bits, t, s);
    r := Word(sum);
  }

  // ----- The unrolled rounds ---------------------------------------------------------------

  lemma NextF(i: nat, s: Chain, x: seq<Word>, k: nat, t: bv32, shift: bv6)
    requires 0 <= i < 16 && |x| == 16 && k == WordIndex(i) && t == T(i) && shift == Shift(i)
    ensures var p := Operations(i, s, x);
      Operations(i + 1, s, x) == Chain(p.d, Mix(F(p.b, p.c, p.d), p.a, p.b, x[k], t, shift), p.b, p.c)
  {}

  lemma NextG(i: nat, s: Chain, x: seq<Word>, k: nat, t: bv32, shift: bv6)
    requires 16 <= i < 32 && |x| == 16 && k == WordIndex(i) && t == T(i) && shift == Shift(i)
    ensures var p := Operations(i, s, x);
      Operations(i + 1, s, x) == Chain(p.d, Mix(G(p.b, p.c, p.d), p.a, p.b, x[k], t, shift), p.b, p.c)
  {}

  lemma NextH(i: nat, s: Chain, x: seq<Word>, k: nat, t: bv32, shift: bv6)
    requires 32 <= i < 48 && |x| == 16 && k == WordIndex(i) && t == T(i) && shift == Shift(i)
    ensures var p := Operations(i, s, x);
      Operations(i + 1, s, x) == Chain(p.d, Mix(H(p.b, p.c, p.d), p.a, p.b, x[k], t, shift), p.b, p.c)
  {}

  lemma NextI(i: nat, s: Chain, x: seq<Word>, k: nat, t: bv32, shift: bv6)
    requires 48 <= i < 64 && |x| == 16 && k == WordIndex(i) && t == T(i) && shift == Shift(i)
    ensures var p := Operations(i, s, x);
      Operations(i + 1, s, x) == Chain(p.d, Mix(I(p.b, p.c, p.d), p.a, p.b, x[k], t, shift), p.b, p.c)
  {}

  method Round1(ghost saved: Chain, chain: Chain, x: seq<Word>) returns (out: Chain)
    requires |x| == 16
    requires chain == Operations(0, saved, x)
    ensures out == Operations(16, saved, x)
  {
    var a, b, c, d := chain.a, chain.b, chain.c, chain.d;
    a := StepF(a, b, c, d, x[0], 0xd76aa478, 7);           NextF(0, saved, x, 0, 0xd76aa478, 7);
    d := StepF(d, a, b, c, x[1], 0xe8c7b756, 12);          NextF(1, saved, x, 1, 0xe8c7b756, 12);
    c := StepF(c, d, a, b, x[2], 0x242070db, 17);          NextF(2, saved, x, 2, 0x242070db, 17);
    b := StepF(b, c, d, a, x[3], 0xc1bdceee, 22);          NextF(3, saved, x, 3, 0xc1bdceee, 22);
    a := StepF(a, b, c, d, x[4], 0xf57c0faf, 7);           NextF(4, saved, x, 4, 0xf57c0faf, 7);
    d := StepF(d, a, b, c, x[5], 0x4787c62a, 12);          NextF(5, saved, x, 5, 0x4787c62a, 12);
    c := StepF(c, d, a, b, x[6], 0xa8304613, 17);          NextF(6, saved, x, 6, 0xa8304613, 17);
    b := StepF(b, c, d, a, x[7], 0xfd469501, 22);          NextF(7, saved, x, 7, 0xfd469501, 22);
    a := StepF(a, b, c, d, x[8], 0x698098d8, 7);           NextF(8, saved, x, 8, 0x698098d8, 7);
    d := StepF(d, a, b, c, x[9], 0x8b44f7af, 12);          NextF(9, saved, x, 9, 0x8b44f7af, 12);
    c := StepF(c, d, a, b, x[10], 0xffff5bb1, 17);         NextF(10, saved, x, 10, 0xffff5bb1, 17);
    b := StepF(b, c, d, a, x[11], 0x895cd7be, 22);         NextF(11, saved, x, 11, 0x895cd7be, 22);
    a := StepF(a, b, c, d, x[12], 0x6b901122, 7);          NextF(12, saved, x, 12, 0x6b901122, 7);
    d := StepF(d, a, b, c, x[13], 0xfd987193, 12);         NextF(13, saved, x, 13, 0xfd987193, 12);
    c := StepF(c, d, a, b, x[14], 0xa679438e, 17);         NextF(14, saved, x, 14, 0xa679438e, 17);
    b := StepF(b, c, d, a, x[15], 0x49b40821, 22);         NextF(15, saved, x, 15, 0x49b40821, 22);
    out := Chain(a, b, c, d);
  }

  method Round2(ghost saved: Chain, chain: Chain, x: seq<Word>) returns (out: Chain)
    requires |x| == 16
    requires chain == Operations(16, saved, x)
    ensures out == Operations(32, saved, x)
  {
    var a, b, c, d := chain.a, chain.b, chain.c, chain.d;
    a := StepG(a, b, c, d, x[1], 0xf61e2562, 5);           NextG(16, saved, x, 1, 0xf61e2562, 5);
    d := StepG(d, a, b, c, x[6], 0xc040b340, 9);           NextG(17, saved, x, 6, 0xc040b340, 9);
    c := StepG(c, d, a, b, x[11], 0x265e5a51, 14);         NextG(18, saved, x, 11, 0x265e5a51, 14);
    b := StepG(b, c, d, a, x[0], 0xe9b6c7aa, 20);          NextG(19, saved, x, 0, 0xe9b6c7aa, 20);
    a := StepG(a, b, c, d, x[5], 0xd62f105d, 5);           NextG(20, saved, x, 5, 0xd62f105d, 5);
    d := StepG(d, a, b, c, x[10], 0x02441453, 9);          NextG(21, saved, x, 10, 0x02441453, 9);
    c := StepG(c, d, a, b, x[15], 0xd8a1e681, 14);         NextG(22, saved, x, 15, 0xd8a1e681, 14);
    b := StepG(b, c, d, a, x[4], 0xe7d3fbc8, 20);          NextG(23, saved, x, 4, 0xe7d3fbc8, 20);
    a := StepG(a, b, c, d, x[9], 0x21e1cde6, 5);           NextG(24, saved, x, 9, 0x21e1cde6, 5);
    d := StepG(d, a, b, c, x[14], 0xc33707d6, 9);          NextG(25, saved, x, 14, 0xc33707d6, 9);
    c := StepG(c, d, a, b, x[3], 0xf4d50d87, 14);          NextG(26, saved, x, 3, 0xf4d50d87, 14);
    b := StepG(b, c, d, a, x[8], 0x455a14ed, 20);          NextG(27, saved, x, 8, 0x455a14ed, 20);
    a := StepG(a, b, c, d, x[13], 0xa9e3e905, 5);          NextG(28, saved, x, 13, 0xa9e3e905, 5);
    d := StepG(d, a, b, c, x[2], 0xfcefa3f8, 9);           NextG(29, saved, x, 2, 0xfcefa3f8, 9);
    c := StepG(c, d, a, b, x[7], 0x676f02d9, 14);          NextG(30, saved, x, 7, 0x676f02d9, 14);
    b := StepG(b, c, d, a, x[12], 0x8d2a4c8a, 20);         NextG(31, saved, x, 12, 0x8d2a4c8a, 20);
    out := Chain(a, b, c, d);
  }

  method Round3(ghost saved: Chain, chain: Chain, x: seq<Word>) returns (out: Chain)
    requires |x| == 16
    requires chain == Operations(32, saved, x)
    ensures out == Operations(48, saved, x)
  {
    var a, b, c, d := chain.a, chain.b, chain.c, chain.d;
    a := StepH(a, b, c, d, x[5], 0xfffa3942, 4);           NextH(32, saved, x, 5, 0xfffa3942, 4);
    d := StepH2(d, a, b, c, x[8], 0x8771f681, 11);         NextH(33, saved, x, 8, 0x8771f681, 11);
    c := StepH(c, d, a, b, x[11], 0x6d9d6122, 16);         NextH(34, saved, x, 11, 0x6d9d6122, 16);
    b := StepH2(b, c, d, a, x[14], 0xfde5380c, 23);        NextH(35, saved, x, 14, 0xfde5380c, 23);
    a := StepH(a, b, c, d, x[1], 0xa4beea44, 4);           NextH(36, saved, x, 1, 0xa4beea44, 4);
    d := StepH2(d, a, b, c, x[4], 0x4bdecfa9, 11);         NextH(37, saved, x, 4, 0x4bdecfa9, 11);
    c := StepH(c, d, a, b, x[7], 0xf6bb4b60, 16);          NextH(38, saved, x, 7, 0xf6bb4b60, 16);
    b := StepH2(b, c, d, a, x[10], 0xbebfbc70, 23);        NextH(39, saved, x, 10, 0xbebfbc70, 23);
    a := StepH(a, b, c, d, x[13], 0x289b7ec6, 4);          NextH(40, saved, x, 13, 0x289b7ec6, 4);
    d := StepH2(d, a, b, c, x[0], 0xeaa127fa, 11);         NextH(41, saved, x, 0, 0xeaa127fa, 11);
    c := StepH(c, d, a, b, x[3], 0xd4ef3085, 16);          NextH(42, saved, x, 3, 0xd4ef3085, 16);
    b := StepH2(b, c, d, a, x[6], 0x04881d05, 23);         NextH(43, saved, x, 6, 0x04881d05, 23);
    a := StepH(a, b, c, d, x[9], 0xd9d4d039, 4);           NextH(44, saved, x, 9, 0xd9d4d039, 4);
    d := StepH2(d, a, b, c, x[12], 0xe6db99e5, 11);        NextH(45, saved, x, 12, 0xe6db99e5, 11);
    c := StepH(c, d, a, b, x[15], 0x1fa27cf8, 16);         NextH(46, saved, x, 15, 0x1fa27cf8, 16);
    b := StepH2(b, c, d, a, x[2], 0xc4ac5665, 23);         NextH(47, saved, x, 2, 0xc4ac5665, 23);
    out := Chain(a, b, c, d);
  }

  method Round4(ghost saved: Chain, chain: Chain, x: seq<Word>) returns (out: Chain)
    requires |x| == 16
    requires chain == Operations(48, saved, x)
    ensures out == Operations(64, saved, x)
  {
    var a, b, c, d := chain.a, chain.b, chain.c, chain.d;
    a := StepI(a, b, c, d, x[0], 0xf4292244, 6);           NextI(48, saved, x, 0, 0xf4292244, 6);
    d := StepI(d, a, b, c, x[7], 0x432aff97, 10);          NextI(49, saved, x, 7, 0x432aff97, 10);
    c := StepI(c, d, a, b, x[14], 0xab9423a7, 15);         NextI(50, saved, x, 14, 0xab9423a7, 15);
    b := StepI(b, c, d, a, x[5], 0xfc93a039, 21);          NextI(51, saved, x, 5, 0xfc93a039, 21);
    a := StepI(a, b, c, d, x[12], 0x655b59c3, 6);          NextI(52, saved, x, 12, 0x655b59c3, 6);
    d := StepI(d, a, b, c, x[3], 0x8f0ccc92, 10);          NextI(53, saved, x, 3, 0x8f0ccc92, 10);
    c := StepI(c, d, a, b, x[10], 0xffeff47d, 15);         NextI(54, saved, x, 10, 0xffeff47d, 15);
    b := StepI(b, c, d, a, x[1], 0x85845dd1, 21);          NextI(55, saved, x, 1, 0x85845dd1, 21);
    a := StepI(a, b, c, d, x[8], 0x6fa87e4f, 6);           NextI(56, saved, x, 8, 0x6fa87e4f, 6);
    d := StepI(d, a, b, c, x[15], 0xfe2ce6e0, 10);         NextI(57, saved, x, 15, 0xfe2ce6e0, 10);
    c := StepI(c, d, a, b, x[6], 0xa3014314, 15);          NextI(58, saved, x, 6, 0xa3014314, 15);
    b := StepI(b, c, d, a, x[13], 0x4e0811a1, 21);         NextI(59, saved, x, 13, 0x4e0811a1, 21);
    a := StepI(a, b, c, d, x[4], 0xf7537e82, 6);           NextI(60, saved, x, 4, 0xf7537e82, 6);
    d := StepI(d, a, b, c, x[11], 0xbd3af235, 10);         NextI(61, saved, x, 11, 0xbd3af235, 10);
    c := StepI(c, d, a, b, x[2], 0x2ad7d2bb, 15);          NextI(62, saved, x, 2, 0x2ad7d2bb, 15);
    b := StepI(b, c, d, a, x[9], 0xeb86d391, 21);          NextI(63, saved, x, 9, 0xeb86d391, 21);
    out := Chain(a, b, c, d);
  }

  /** One turn of body's loop. */
  method CompressBlock(saved: Chain, block: seq<Byte>) returns (out: Chain)
    requires |block| == 64
    ensures out == Compress(saved, block)
  {
    var x := ReadWords(block);
    var e := Round1(saved, saved, x);
    e := Round2(saved, e, x);
    e := Round3(saved, e, x);
    e := Round4(saved, e, x);
    out := Chain(Add(e.a, saved.a), Add(e.b, saved.b), Add(e.c, saved.c), Add(e.d, saved.d));
  }

  /** SET: four bytes, low-order first, joined with shifts and ors. */
  function Set(b0: Byte, b1: Byte, b2: Byte, b3: Byte): (w: Word)
    ensures w == FromBytes(b0, b1, b2, b3)
  {
    SetBits(b0 as bv32, b1 as bv32, b2 as bv32, b3 as bv32);
    Word(b0 as bv32 | (b1 as bv32 << 8) | (b2 as bv32 << 16) | (b3 as bv32 << 24))
  }

  lemma SetBits(b0: bv32, b1: bv32, b2: bv32, b3: bv32)
    requires b0 <= 0xff && b1 <= 0xff && b2 <= 0xff && b3 <= 0xff
    ensures b0 | (b1 << 8) | (b2 << 16) | (b3 << 24) == b0 + b1 * 0x100 + b2 * 0x1_0000 + b3 * 0x100_0000
  {}

  method ReadWords(block: seq<Byte>) returns (x: seq<Word>)
    requires |block| == 64
    ensures x == WordsOf(block)
  {
    x := [];
    for n := 0 to 16
      invariant x == WordsOf(block)[..n]
    {
      x := x + [Set(block[4 * n], block[4 * n + 1], block[4 * n + 2], block[4 * n + 3])];
    }
  }
}
