/**
 * A digest of the test suite in section A.5 of RFC 1321, derived from the definitions of Rfc1321: the
 * one of "abc". It uses all 64 operations, the sine table, the shifts, the initial chaining value,
 * the padding and the output order.
 */
module Rfc1321Example {
  import opened Rfc1321

  const ABC: seq<Byte> := [0x61, 0x62, 0x63]

  const DIGEST: seq<Byte> :=
    [0x90, 0x01, 0x50, 0x98, 0x3c, 0xd2, 0x4f, 0xb0, 0xd6, 0x96, 0x3f, 0x7d, 0x28, 0xe1, 0x7f, 0x72]

  /** The words of the padded message: the text and the byte 0x80, then zeros, then the length 24. */
  const WORDS: seq<Word> :=
    [Word(0x80636261), Word(0), Word(0), Word(0), Word(0), Word(0), Word(0), Word(0),
     Word(0), Word(0), Word(0), Word(0), Word(0), Word(0), Word(24), Word(0)]

  function Input(k: nat): bv32 {
    if k == 0 then 0x80636261 else if k == 14 then 24 else 0
  }

  lemma InputIs(k: nat)
    requires k < 16
    ensures WORDS[k] == Word(Input(k))
  {}

  function Registers(a: bv32, b: bv32, c: bv32, d: bv32): Chain {
    Chain(Word(a), Word(b), Word(c), Word(d))
  }

  lemma Start()
    ensures Operations(0, IV, WORDS) == Registers(0x67452301, 0xefcdab89, 0x98badcfe, 0x10325476)
  {}

  // One operation: registers, index of the word, sine, rotation, and the new value of b.

  lemma MadeF(i: nat, a: bv32, b: bv32, c: bv32, d: bv32, k: nat, t: bv32, s: bv6, r: bv32)
    requires 0 <= i < 16 && WordIndex(i) == k && T(i) == t && Shift(i) == s
    requires MixBits(FBits(b, c, d), a, b, Input(k), t, s) == r
    requires Operations(i, IV, WORDS) == Registers(a, b, c, d)
    ensures Operations(i + 1, IV, WORDS) == Registers(d, r, b, c)
  {
    hide WordIndex, T, Shift, MixBits, Input, Rotl, Plus, FBits;
    InputIs(k);
  }

  lemma MadeG(i: nat, a: bv32, b: bv32, c: bv32, d: bv32, k: nat, t: bv32, s: bv6, r: bv32)
    requires 16 <= i < 32 && WordIndex(i) == k && T(i) == t && Shift(i) == s
    requires MixBits(GBits(b, c, d), a, b, Input(k), t, s) == r
    requires Operations(i, IV, WORDS) == Registers(a, b, c, d)
    ensures Operations(i + 1, IV, WORDS) == Registers(d, r, b, c)
  {
    hide WordIndex, T, Shift, MixBits, Input, Rotl, Plus, GBits;
    InputIs(k);
  }

  lemma MadeH(i: nat, a: bv32, b: bv32, c: bv32, d: bv32, k: nat, t: bv32, s: bv6, r: bv32)
    requires 32 <= i < 48 && WordIndex(i) == k && T(i) == t && Shift(i) == s
    requires MixBits(HBits(b, c, d), a, b, Input(k), t, s) == r
    requires Operations(i, IV, WORDS) == Registers(a, b, c, d)
    ensures Operations(i + 1, IV, WORDS) == Registers(d, r, b, c)
  {
    hide WordIndex, T, Shift, MixBits, Input, Rotl, Plus, HBits;
    InputIs(k);
  }

  lemma MadeI(i: nat, a: bv32, b: bv32, c: bv32, d: bv32, k: nat, t: bv32, s: bv6, r: bv32)
    requires 48 <= i < 64 && WordIndex(i) == k && T(i) == t && Shift(i) == s
    requires MixBits(IBits(b, c, d), a, b, Input(k), t, s) == r
    requires Operations(i, IV, WORDS) == Registers(a, b, c, d)
    ensures Operations(i + 1, IV, WORDS) == Registers(d, r, b, c)
  {
    hide WordIndex, T, Shift, MixBits, Input, Rotl, Plus, IBits;
    InputIs(k);
  }

  lemma Row0()
    ensures Operations(4, IV, WORDS) == Registers(0xd6d117b4, 0x7ad956f2, 0x2f6fbd72, 0x344a8432)
  {
    hide Operations, Operation, Registers;
    Start();
    MadeF(0, 0x67452301, 0xefcdab89, 0x98badcfe, 0x10325476, 0, 0xd76aa478, 7, 0xd6d117b4);
    MadeF(1, 0x10325476, 0xd6d117b4, 0xefcdab89, 0x98badcfe, 1, 0xe8c7b756, 12, 0x344a8432);
    MadeF(2, 0x98badcfe, 0x344a8432, 0xd6d117b4, 0xefcdab89, 2, 0x242070db, 17, 0x2f6fbd72);
    MadeF(3, 0xefcdab89, 0x2f6fbd72, 0x344a8432, 0xd6d117b4, 3, 0xc1bdceee, 22, 0x7ad956f2);
  }

  lemma Row1()
    ensures Operations(8, IV, WORDS) == Registers(0xc73741ef, 0x928d99f6, 0x207dc67b, 0x8bac3051)
  {
    hide Operations, Operation, Registers;
    Row0();
    MadeF(4, 0xd6d117b4, 0x7ad956f2, 0x2f6fbd72, 0x344a8432, 4, 0xf57c0faf, 7, 0xc73741ef);
    MadeF(5, 0x344a8432, 0xc73741ef, 0x7ad956f2, 0x2f6fbd72, 5, 0x4787c62a, 12, 0x8bac3051);
    MadeF(6, 0x2f6fbd72, 0x8bac3051, 0xc73741ef, 0x7ad956f2, 6, 0xa8304613, 17, 0x207dc67b);
    MadeF(7, 0x7ad956f2, 0x207dc67b, 0x8bac3051, 0xc73741ef, 7, 0xfd469501, 22, 0x928d99f6);
  }

  lemma Row2()
    ensures Operations(12, IV, WORDS) == Registers(0x854b3712, 0x5ed49596, 0x3020401c, 0x74e2f284)
  {
    hide Operations, Operation, Registers;
    Row1();
    MadeF(8, 0xc73741ef, 0x928d99f6, 0x207dc67b, 0x8bac3051, 8, 0x698098d8, 7, 0x854b3712);
    MadeF(9, 0x8bac3051, 0x854b3712, 0x928d99f6, 0x207dc67b, 9, 0x8b44f7af, 12, 0x74e2f284);
    MadeF(10, 0x207dc67b, 0x74e2f284, 0x854b3712, 0x928d99f6, 10, 0xffff5bb1, 17, 0x3020401c);
    MadeF(11, 0x928d99f6, 0x3020401c, 0x74e2f284, 0x854b3712, 11, 0x895cd7be, 22, 0x5ed49596);
  }

  lemma Row3()
    ensures Operations(16, IV, WORDS) == Registers(0xdda9b9a6, 0x72aff2e0, 0xe396856b, 0xa1051895)
  {
    hide Operations, Operation, Registers;
    Row2();
    MadeF(12, 0x854b3712, 0x5ed49596, 0x3020401c, 0x74e2f284, 12, 0x6b901122, 7, 0xdda9b9a6);
    MadeF(13, 0x74e2f284, 0xdda9b9a6, 0x5ed49596, 0x3020401c, 13, 0xfd987193, 12, 0xa1051895);
    MadeF(14, 0x3020401c, 0xa1051895, 0xdda9b9a6, 0x5ed49596, 14, 0xa679438e, 17, 0xe396856b);
    MadeF(15, 0x5ed49596, 0xe396856b, 0xa1051895, 0xdda9b9a6, 15, 0x49b40821, 22, 0x72aff2e0);
  }

  lemma Row4()
    ensures Operations(20, IV, WORDS) == Registers(0x3e9e9126, 0xb5b204e4, 0xe25e1652, 0x4a1d804e)
  {
    hide Operations, Operation, Registers;
    Row3();
    MadeG(16, 0xdda9b9a6, 0x72aff2e0, 0xe396856b, 0xa1051895, 1, 0xf61e2562, 5, 0x3e9e9126);
    MadeG(17, 0xa1051895, 0x3e9e9126, 0x72aff2e0, 0xe396856b, 6, 0xc040b340, 9, 0x4a1d804e);
    MadeG(18, 0xe396856b, 0x4a1d804e, 0x3e9e9126, 0x72aff2e0, 11, 0x265e5a51, 14, 0xe25e1652);
    MadeG(19, 0x72aff2e0, 0xe25e1652, 0x4a1d804e, 0x3e9e9126, 0, 0xe9b6c7aa, 20, 0xb5b204e4);
  }

  lemma Row5()
    ensures Operations(24, IV, WORDS) == Registers(0x59a8ffda, 0x47092c07, 0xabfc7920, 0x6d002f1e)
  {
    hide Operations, Operation, Registers;
    Row4();
    MadeG(20, 0x3e9e9126, 0xb5b204e4, 0xe25e1652, 0x4a1d804e, 5, 0xd62f105d, 5, 0x59a8ffda);
    MadeG(21, 0x4a1d804e, 0x59a8ffda, 0xb5b204e4, 0xe25e1652, 10, 0x02441453, 9, 0x6d002f1e);
    MadeG(22, 0xe25e1652, 0x6d002f1e, 0x59a8ffda, 0xb5b204e4, 15, 0xd8a1e681, 14, 0xabfc7920);
    MadeG(23, 0xb5b204e4, 0xabfc7920, 0x6d002f1e, 0x59a8ffda, 4, 0xe7d3fbc8, 20, 0x47092c07);
  }

  lemma Row6()
    ensures Operations(28, IV, WORDS) == Registers(0xb7f268cf, 0x786acb8f, 0xfe1623b1, 0x09388eff)
  {
    hide Operations, Operation, Registers;
    Row5();
    MadeG(24, 0x59a8ffda, 0x47092c07, 0xabfc7920, 0x6d002f1e, 9, 0x21e1cde6, 5, 0xb7f268cf);
    MadeG(25, 0x6d002f1e, 0xb7f268cf, 0x47092c07, 0xabfc7920, 14, 0xc33707d6, 9, 0x09388eff);
    MadeG(26, 0xabfc7920, 0x09388eff, 0xb7f268cf, 0x47092c07, 3, 0xf4d50d87, 14, 0xfe1623b1);
    MadeG(27, 0x47092c07, 0xfe1623b1, 0x09388eff, 0xb7f268cf, 8, 0x455a14ed, 20, 0x786acb8f);
  }

  lemma Row7()
    ensures Operations(32, IV, WORDS) == Registers(0x790a77fb, 0x726342d3, 0xa62884aa, 0x9f47e4f8)
  {
    hide Operations, Operation, Registers;
    Row6();
    MadeG(28, 0xb7f268cf, 0x786acb8f, 0xfe1623b1, 0x09388eff, 13, 0xa9e3e905, 5, 0x790a77fb);
    MadeG(29, 0x09388eff, 0x790a77fb, 0x786acb8f, 0xfe1623b1, 2, 0xfcefa3f8, 9, 0x9f47e4f8);
    MadeG(30, 0xfe1623b1, 0x9f47e4f8, 0x790a77fb, 0x786acb8f, 7, 0x676f02d9, 14, 0xa62884aa);
    MadeG(31, 0x786acb8f, 0xa62884aa, 0x9f47e4f8, 0x790a77fb, 12, 0x8d2a4c8a, 20, 0x726342d3);
  }

  lemma Row8()
    ensures Operations(36, IV, WORDS) == Registers(0xb3707ebf, 0x3b0875c7, 0x8d212ff5, 0x60127b2e)
  {
    hide Operations, Operation, Registers;
    Row7();
    MadeH(32, 0x790a77fb, 0x726342d3, 0xa62884aa, 0x9f47e4f8, 5, 0xfffa3942, 4, 0xb3707ebf);
    MadeH(33, 0x9f47e4f8, 0xb3707ebf, 0x726342d3, 0xa62884aa, 8, 0x8771f681, 11, 0x60127b2e);
    MadeH(34, 0xa62884aa, 0x60127b2e, 0xb3707ebf, 0x726342d3, 11, 0x6d9d6122, 16, 0x8d212ff5);
    MadeH(35, 0x726342d3, 0x8d212ff5, 0x60127b2e, 0xb3707ebf, 14, 0xfde5380c, 23, 0x3b0875c7);
  }

  lemma Row9()
    ensures Operations(40, IV, WORDS) == Registers(0x21b117b9, 0x5a2f5ea5, 0x3575227e, 0x6e7429d5)
  {
    hide Operations, Operation, Registers;
    Row8();
    MadeH(36, 0xb3707ebf, 0x3b0875c7, 0x8d212ff5, 0x60127b2e, 1, 0xa4beea44, 4, 0x21b117b9);
    MadeH(37, 0x60127b2e, 0x21b117b9, 0x3b0875c7, 0x8d212ff5, 4, 0x4bdecfa9, 11, 0x6e7429d5);
    MadeH(38, 0x8d212ff5, 0x6e7429d5, 0x21b117b9, 0x3b0875c7, 7, 0xf6bb4b60, 16, 0x3575227e);
    MadeH(39, 0x3b0875c7, 0x3575227e, 0x6e7429d5, 0x21b117b9, 10, 0xbebfbc70, 23, 0x5a2f5ea5);
  }

  lemma Row10()
    ensures Operations(44, IV, WORDS) == Registers(0x11de1779, 0x4c6124f4, 0x31c465ca, 0xfadcaa38)
  {
    hide Operations, Operation, Registers;
    Row9();
    MadeH(40, 0x21b117b9, 0x5a2f5ea5, 0x3575227e, 0x6e7429d5, 13, 0x289b7ec6, 4, 0x11de1779);
    MadeH(41, 0x6e7429d5, 0x11de1779, 0x5a2f5ea5, 0x3575227e, 0, 0xeaa127fa, 11, 0xfadcaa38);
    MadeH(42, 0x3575227e, 0xfadcaa38, 0x11de1779, 0x5a2f5ea5, 3, 0xd4ef3085, 16, 0x31c465ca);
    MadeH(43, 0x5a2f5ea5, 0x31c465ca, 0xfadcaa38, 0x11de1779, 6, 0x04881d05, 23, 0x4c6124f4);
  }

  lemma Row11()
    ensures Operations(48, IV, WORDS) == Registers(0x7f2e507b, 0x7beb9700, 0x8fae6399, 0x99d9679d)
  {
    hide Operations, Operation, Registers;
    Row10();
    MadeH(44, 0x11de1779, 0x4c6124f4, 0x31c465ca, 0xfadcaa38, 9, 0xd9d4d039, 4, 0x7f2e507b);
    MadeH(45, 0xfadcaa38, 0x7f2e507b, 0x4c6124f4, 0x31c465ca, 12, 0xe6db99e5, 11, 0x99d9679d);
    MadeH(46, 0x31c465ca, 0x99d9679d, 0x7f2e507b, 0x4c6124f4, 15, 0x1fa27cf8, 16, 0x8fae6399);
    MadeH(47, 0x4c6124f4, 0x8fae6399, 0x99d9679d, 0x7f2e507b, 2, 0xc4ac5665, 23, 0x7beb9700);
  }

  lemma Row12()
    ensures Operations(52, IV, WORDS) == Registers(0x7b201df8, 0x8bf025c4, 0xb298cefd, 0xf4e8e96e)
  {
    hide Operations, Operation, Registers;
    Row11();
    MadeI(48, 0x7f2e507b, 0x7beb9700, 0x8fae6399, 0x99d9679d, 0, 0xf4292244, 6, 0x7b201df8);
    MadeI(49, 0x99d9679d, 0x7b201df8, 0x7beb9700, 0x8fae6399, 7, 0x432aff97, 10, 0xf4e8e96e);
    MadeI(50, 0x8fae6399, 0xf4e8e96e, 0x7b201df8, 0x7beb9700, 14, 0xab9423a7, 15, 0xb298cefd);
    MadeI(51, 0x7beb9700, 0xb298cefd, 0xf4e8e96e, 0x7b201df8, 5, 0xfc93a039, 21, 0x8bf025c4);
  }

  lemma Row13()
    ensures Operations(56, IV, WORDS) == Registers(0x06cc5e8a, 0x3bfa2c27, 0x7d632dd0, 0x5b0d97aa)
  {
    hide Operations, Operation, Registers;
    Row12();
    MadeI(52, 0x7b201df8, 0x8bf025c4, 0xb298cefd, 0xf4e8e96e, 12, 0x655b59c3, 6, 0x06cc5e8a);
    MadeI(53, 0xf4e8e96e, 0x06cc5e8a, 0x8bf025c4, 0xb298cefd, 3, 0x8f0ccc92, 10, 0x5b0d97aa);
    MadeI(54, 0xb298cefd, 0x5b0d97aa, 0x06cc5e8a, 0x8bf025c4, 10, 0xffeff47d, 15, 0x7d632dd0);
    MadeI(55, 0x8bf025c4, 0x7d632dd0, 0x5b0d97aa, 0x06cc5e8a, 1, 0x85845dd1, 21, 0x3bfa2c27);
  }

  lemma Row14()
    ensures Operations(60, IV, WORDS) == Registers(0x7f81cc35, 0x7327d604, 0x4f9dbe3f, 0x094454ab)
  {
    hide Operations, Operation, Registers;
    Row13();
    MadeI(56, 0x06cc5e8a, 0x3bfa2c27, 0x7d632dd0, 0x5b0d97aa, 8, 0x6fa87e4f, 6, 0x7f81cc35);
    MadeI(57, 0x5b0d97aa, 0x7f81cc35, 0x3bfa2c27, 0x7d632dd0, 15, 0xfe2ce6e0, 10, 0x094454ab);
    MadeI(58, 0x7d632dd0, 0x094454ab, 0x7f81cc35, 0x3bfa2c27, 6, 0xa3014314, 15, 0x4f9dbe3f);
    MadeI(59, 0x3bfa2c27, 0x4f9dbe3f, 0x094454ab, 0x7f81cc35, 13, 0x4e0811a1, 21, 0x7327d604);
  }

  lemma Row15()
    ensures Operations(64, IV, WORDS) == Registers(0x310ade8f, 0xc08226b3, 0xe484b9d8, 0x624d8cb2)
  {
    hide Operations, Operation, Registers;
    Row14();
    MadeI(60, 0x7f81cc35, 0x7327d604, 0x4f9dbe3f, 0x094454ab, 4, 0xf7537e82, 6, 0x310ade8f);
    MadeI(61, 0x094454ab, 0x310ade8f, 0x7327d604, 0x4f9dbe3f, 11, 0xbd3af235, 10, 0x624d8cb2);
    MadeI(62, 0x4f9dbe3f, 0x624d8cb2, 0x310ade8f, 0x7327d604, 2, 0x2ad7d2bb, 15, 0xe484b9d8);
    MadeI(63, 0x7327d604, 0xe484b9d8, 0x624d8cb2, 0x310ade8f, 9, 0xeb86d391, 21, 0xc08226b3);
  }

  lemma PaddedBytes()
    ensures var p := Pad(ABC);
      && |p| == 64 && p[0] == 0x61 && p[1] == 0x62 && p[2] == 0x63 && p[3] == 0x80
      && (forall k :: 4 <= k < 56 ==> p[k] == 0) && p[56] == 24 && forall k :: 57 <= k < 64 ==> p[k] == 0
  {
    hide LengthBytes, Zeros;
    LengthOf24();
    ZerosAreZero(52);
    var p, z := Pad(ABC), Zeros(52);
    assert p == ABC + [0x80] + z + LengthBytes(3);
    assert forall k :: 4 <= k < 56 ==> p[k] == z[k - 4];
  }

  lemma PaddedWords()
    ensures |Pad(ABC)| == 64 && WordsOf(Pad(ABC)) == WORDS
  {
    hide Pad, FromBytes;
    PaddedBytes();
    FirstWord();
    var p := Pad(ABC);
    forall j | 0 <= j < 16 ensures WordsOf(p)[j] == WORDS[j] {
      assert WordsOf(p)[j] == FromBytes(p[4 * j], p[4 * j + 1], p[4 * j + 2], p[4 * j + 3]);
    }
  }

  lemma LengthOf24()
    ensures LengthBytes(3) == [24, 0, 0, 0, 0, 0, 0, 0]
  {
    hide Octet;
    SmallNumber(24);
    SmallNumber(0);
  }

  lemma SmallNumber(n: nat)
    requires n == 0 || n == 24
    ensures LittleEndian32(n) == [n as Byte, 0, 0, 0]
  {
    hide Octet;
    assert Octet(n, 1) == n as Byte by { OctetIs(n, 1, n as Byte); }
    OctetIs(n, 0x100, 0);
    OctetIs(n, 0x1_0000, 0);
    OctetIs(n, 0x100_0000, 0);
  }

  lemma OctetIs(v: nat, unit: nat, b: Byte)
    requires unit > 0 && v / unit % 0x100 == b as int
    ensures Octet(v, unit) == b
  {}

  lemma FirstWord()
    ensures FromBytes(0x61, 0x62, 0x63, 0x80) == Word(0x80636261)
    ensures FromBytes(0, 0, 0, 0) == Word(0) && FromBytes(24, 0, 0, 0) == Word(24)
  {}

  lemma FinalRegisters()
    ensures var e := Registers(0x310ade8f, 0xc08226b3, 0xe484b9d8, 0x624d8cb2);
      Output(Chain(Add(e.a, IV.a), Add(e.b, IV.b), Add(e.c, IV.c), Add(e.d, IV.d))) == DIGEST
  {}

  /** MD5 ("abc") = 900150983cd24fb0d6963f7d28e17f72. */
  lemma DigestOfAbc()
    ensures Md5(ABC) == DIGEST
  {
    hide Pad, Operations, WordsOf, Output, Registers;
    PaddedWords();
    Row15();
    FinalRegisters();
    assert Pad(ABC)[..64] == Pad(ABC);
    assert Fold(IV, Pad(ABC)) == Compress(IV, Pad(ABC));
  }
}
