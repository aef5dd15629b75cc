/**
 * MD5_Init, MD5_Update and MD5_Final of md5/md5.c: a context that takes a message in pieces of any
 * size, keeps the unprocessed tail in a 64-byte buffer and the byte count in two words.
 */
module Md5Stream {
  import opened Rfc1321
  import Md5Body

  /** 2^29 and 2^32: the moduli of the two counter words. */
  const LO_MODULUS := 0x2000_0000
  const HI_MODULUS := 0x1_0000_0000

  class Md5Context {
    var lo: nat
    var hi: nat
    var a: Word
    var b: Word
    var c: Word
    var d: Word
    const buffer: array<Byte>
    ghost var message: seq<Byte>  // everything passed to Update since Init

    ghost function State(): Chain
      reads this
    {
      Chain(a, b, c, d)
    }

    /** How much of the message has gone through the compression function. */
    static ghost function Processed(length: nat): (n: nat)
      ensures n <= length && n % 64 == 0 && length - n < 64
    {
      assert length == 64 * (length / 64) + length % 64;
      length - length % 64
    }

    ghost predicate Valid()
      reads this, buffer
    {
      && buffer.Length == 64
      && lo == |message| % LO_MODULUS
      && hi == |message| / LO_MODULUS % HI_MODULUS
      && var n := Processed(|message|);
      && State() == Fold(IV, message[..n])
      && buffer[..|message| - n] == message[n..]
    }

    /** An uninitialized context, as a C local variable is. */
    constructor ()
      ensures fresh(buffer) && buffer.Length == 64
    {
      buffer := new Byte[64];
      lo, hi := 0, 0;
      a, b, c, d := Word(0), Word(0), Word(0), Word(0);
      message := [];
    }

    method Init()
      requires buffer.Length == 64
      modifies this
      ensures Valid() && message == []
    {
      a, b, c, d := Word(0x67452301), Word(0xefcdab89), Word(0x98badcfe), Word(0x10325476);
      lo, hi := 0, 0;
      message := [];
      assert State() == IV && message[..0] == [];
      FoldNothing(IV);
    }

    /** body: one or more whole blocks; the counters and the buffer stay as they are. */
    method Body(data: seq<Byte>)
      requires |data| > 0 && |data| % 64 == 0
      modifies this`a, this`b, this`c, this`d
      ensures State() == Fold(old(State()), data)
    {
      hide Compress, Fold;
      var chain := Chain(a, b, c, d);
      ghost var start := chain;
      assert data[0..] == data;
      var ptr: nat, size: nat, more := 0, |data|, true;
      while more
        invariant size % 64 == 0 && ptr + size == |data|
        invariant more <==> size > 0
        invariant Fold(chain, data[ptr..]) == Fold(start, data)
        decreases size
      {
        FoldBlock(chain, data[ptr..]);
        chain := Md5Body.CompressBlock(chain, data[ptr..][..64]);
        assert data[ptr..][64..] == data[ptr + 64..];
        ptr := ptr + 64;
        size := size - 64;
        more := size != 0;
      }
      assert data[ptr..] == [];
      FoldNothing(chain);
      a, b, c, d := chain.a, chain.b, chain.c, chain.d;
    }

    /** memcpy into the buffer. */
    method Copy(at: nat, data: seq<Byte>)
      requires buffer.Length == 64 && at + |data| <= 64
      modifies buffer
      ensures buffer[..at + |data|] == old(buffer[..at]) + data
      ensures buffer[at + |data|..] == old(buffer[at + |data|..])
    {
      forall i | 0 <= i < |data| {
        buffer[at + i] := data[i];
      }
    }

    /** The counter part of Update: the carry test compares the new low word with the old one. */
    method Count(size: nat)
      requires lo == |message| % LO_MODULUS && hi == |message| / LO_MODULUS % HI_MODULUS
      modifies this`lo, this`hi
      ensures lo == (|message| + size) % LO_MODULUS && hi == (|message| + size) / LO_MODULUS % HI_MODULUS
    {
      var savedLo := lo;
      CounterAdvances(|message|, size);
      lo := (savedLo + size) % LO_MODULUS;
      if lo < savedLo {
        hi := (hi + 1) % HI_MODULUS;
      }
      hi := (hi + size / LO_MODULUS) % HI_MODULUS;
    }

    /** Completes the buffered block with data and processes it. */
    method FillBlock(used: nat, data: seq<Byte>, ghost done: seq<Byte>) returns (ghost next: seq<Byte>)
      requires buffer.Length == 64 && used + |data| == 64
      requires |done| % 64 == 0 && State() == Fold(IV, done)
      modifies this`a, this`b, this`c, this`d, buffer
      ensures next == done + old(buffer[..used]) + data
      ensures |next| % 64 == 0 && State() == Fold(IV, next)
    {
      hide Compress, Fold;
      Copy(used, data);
      next := done + buffer[..];
      FoldAppend(IV, done, buffer[..]);
      Body(buffer[..]);
    }

    /** The last part of Update: whole blocks straight from the caller's data, the rest buffered. */
    method Tail(piece: seq<Byte>, ghost before: seq<Byte>)
      requires buffer.Length == 64
      requires |before| % 64 == 0 && State() == Fold(IV, before)
      modifies this`a, this`b, this`c, this`d, buffer
      ensures var n := |piece| - |piece| % 64;
        State() == Fold(IV, before + piece[..n]) && buffer[..|piece| % 64] == piece[n..]
    {
      hide Compress, Fold;
      var data, size := piece, |piece|;
      ghost var n := |piece| - |piece| % 64;
      assert before + piece[..0] == before;
      if size >= 64 {
        var whole := size - size % 64;
        FoldAppend(IV, before, data[..whole]);
        Body(data[..whole]);
        data := data[whole..];
        size := size % 64;
      }
      assert data == piece[n..];
      Copy(0, data);
    }

    method Update(piece: seq<Byte>)
      requires Valid()
      modifies this, buffer
      ensures Valid() && message == old(message) + piece
    {
      hide Compress, Fold, Processed;
      var data, size := piece, |piece|;
      var used := lo % 64;
      assert used == |message| - Processed(|message|) by { UsedBytes(|message|); }
      Count(size);
      ghost var done, total := message[..Processed(|message|)], message + piece;
      assert message == done + buffer[..used];
      assert total == done + (buffer[..used] + data);

      if used != 0 {
        var available := 64 - used;
        if size < available {
          Copy(used, data);
          Establish(total, done);
          return;
        }
        done := FillBlock(used, data[..available], done);
        assert total == done + data[available..] by {
          assert data == data[..available] + data[available..];
        }
        data := data[available..];
        size := size - available;
      }
      Tail(data, done);
      Split(total, done, data);
      Establish(total, done + data[..|data| - |data| % 64]);
    }

    /** Ghost bookkeeping: total is the message now, done its processed part. */
    ghost method Establish(total: seq<Byte>, done: seq<Byte>)
      requires buffer.Length == 64
      requires lo == |total| % LO_MODULUS && hi == |total| / LO_MODULUS % HI_MODULUS
      requires |done| % 64 == 0 && |done| <= |total| < |done| + 64
      requires total == done + buffer[..|total| - |done|] && State() == Fold(IV, done)
      modifies this`message
      ensures Valid() && message == total
    {
      hide Compress, Fold;
      message := total;
      assert Processed(|total|) == |done| by { WholeBlocks(|done|, |total|); }
      assert total[..|done|] == done && total[|done|..] == buffer[..|total| - |done|];
    }

    /** The 0x80 byte and, when the length field no longer fits, zeros up to the end of the block. */
    method BeginPadding(ghost before: seq<Byte>) returns (used: nat, ghost done: seq<Byte>, ghost padded: seq<Byte>)
      requires Valid() && before == message[..Processed(|message|)]
      modifies this`a, this`b, this`c, this`d, buffer
      ensures used <= 56 && |done| % 64 == 0 && State() == Fold(IV, done)
      ensures padded == done + buffer[..used]
      ensures exists z: nat :: z < 8 && padded == message + [0x80] + Zeros(z)
    {
      hide Compress, Fold;
      used := lo % 64;
      LowBits(|message|);
      assert message == before + buffer[..used];
      Copy(used, [0x80]);
      used := used + 1;
      done, padded := before, message + [0x80];
      assert padded == done + buffer[..used];
      var available := 64 - used;
      if available < 8 {
        padded := message + [0x80] + Zeros(available);
        done := FillBlock(used, Zeros(available), done);
        used := 0;
        assert done == padded;
      } else {
        assert padded == message + [0x80] + Zeros(0);
      }
    }

    /** The zeros before the length field, the length field itself, and the last block. */
    method EndPadding(used: nat, ghost before: seq<Byte>) returns (ghost done: seq<Byte>)
      requires buffer.Length == 64 && used <= 56
      requires |before| % 64 == 0 && State() == Fold(IV, before)
      modifies this`lo, this`a, this`b, this`c, this`d, buffer
      ensures done == before + old(buffer[..used]) + Zeros(56 - used)
                      + (LittleEndian32(old(lo) * 8 % HI_MODULUS) + LittleEndian32(hi))
      ensures |done| % 64 == 0 && State() == Fold(IV, done)
    {
      hide Compress, Fold;
      Copy(used, Zeros(56 - used));
      lo := lo * 8 % HI_MODULUS;
      Copy(56, LittleEndian32(lo));
      done := FillBlock(60, LittleEndian32(hi), before);
    }

    /** Pads, processes the last one or two blocks, and wipes the context. */
    method Final() returns (result: seq<Byte>)
      requires Valid()
      modifies this, buffer
      ensures result == Md5(old(message))
      ensures lo == hi == 0 && State() == Chain(Word(0), Word(0), Word(0), Word(0))
      ensures buffer[..] == Zeros(64)
    {
      hide Compress, Pad, LengthBytes, LittleEndian32, ToBytes;
      var used;
      ghost var done, padded;
      used, done, padded := BeginPadding(message[..Processed(|message|)]);
      ghost var z: nat :| z < 8 && padded == message + [0x80] + Zeros(z);
      BitCount(|message|);
      done := EndPadding(used, done);
      PaddingUnique(message, z, 56 - used);
      assert done == Pad(message);
      result := ToBytes(a) + ToBytes(b) + ToBytes(c) + ToBytes(d);
      Wipe();
    }

    method Wipe()
      requires buffer.Length == 64
      modifies this, buffer
      ensures lo == hi == 0 && State() == Chain(Word(0), Word(0), Word(0), Word(0))
      ensures buffer[..] == Zeros(64)
    {
      lo, hi := 0, 0;
      a, b, c, d := Word(0), Word(0), Word(0), Word(0);
      Copy(0, Zeros(64));
      message := [];
    }
  }

  /** The low counter tells how much of the buffer is used. */
  lemma UsedBytes(length: nat)
    ensures length % LO_MODULUS % 64 == length - Md5Context.Processed(length)
  {
    LowBits(length);
  }

  /** Only one number of whole blocks leaves less than a block. */
  lemma WholeBlocks(whole: nat, length: nat)
    requires whole % 64 == 0 && whole <= length < whole + 64
    ensures length - length % 64 == whole
  {
    var n := whole / 64;
    assert whole == 64 * n && length == 64 * n + (length - whole);
  }

  lemma FoldNothing(s: Chain)
    ensures Fold(s, []) == s
  {}

  lemma FoldBlock(s: Chain, m: seq<Byte>)
    requires |m| >= 64
    ensures Fold(s, m) == Fold(Compress(s, m[..64]), m[64..])
  {}

  /** The buffer fill level can be read off the low counter word. */
  lemma LowBits(length: nat)
    ensures length % LO_MODULUS % 64 == length % 64
  {}

  lemma MoreBlocks(whole: nat, size: nat)
    requires whole % 64 == 0
    ensures (whole + (size - size % 64)) % 64 == 0
  {
    var p, q := whole / 64, size / 64;
    assert whole == 64 * p && size - size % 64 == 64 * q;
    assert whole + (size - size % 64) == 64 * (p + q);
  }

  lemma Split(total: seq<Byte>, done: seq<Byte>, data: seq<Byte>)
    requires total == done + data && |done| % 64 == 0
    ensures var n := |data| - |data| % 64;
      && total == (done + data[..n]) + data[n..]
      && |done + data[..n]| % 64 == 0 && |data[n..]| < 64
  {
    var n := |data| - |data| % 64;
    assert data[..n] + data[n..] == data;
    MoreBlocks(|done|, |data|);
  }

  /** Only one number of zeros under 64 completes a block. */
  lemma PaddingUnique(message: seq<Byte>, z: nat, n: nat)
    requires z + n < 64 && (|message| + 1 + (z + n) + 8) % 64 == 0
    ensures message + [0x80] + Zeros(z) + Zeros(n) + LengthBytes(|message|) == Pad(message)
  {
    assert z + n == ZeroCount(|message|);
    assert Zeros(z) + Zeros(n) == Zeros(z + n);
  }

  lemma Quotient(x: nat, q: nat, r: nat)
    requires x == q * LO_MODULUS + r && r < LO_MODULUS
    ensures x / LO_MODULUS == q && x % LO_MODULUS == r
  {}

  lemma ModAdd(x: nat, y: nat)
    ensures (x % HI_MODULUS + y) % HI_MODULUS == (x + y) % HI_MODULUS
  {}

  /** The split counter with its carry is the byte count modulo 2^61. */
  lemma CounterAdvances(length: nat, size: nat)
    ensures var lo, hi := length % LO_MODULUS, length / LO_MODULUS % HI_MODULUS;
      var newLo := (lo + size) % LO_MODULUS;
      && newLo == (length + size) % LO_MODULUS
      && ((if newLo < lo then (hi + 1) % HI_MODULUS else hi) + size / LO_MODULUS) % HI_MODULUS
         == (length + size) / LO_MODULUS % HI_MODULUS
  {
    var q, lo := length / LO_MODULUS, length % LO_MODULUS;
    var p, t := size / LO_MODULUS, size % LO_MODULUS;
    if lo + t < LO_MODULUS {
      Quotient(length + size, q + p, lo + t);
      Quotient(lo + size, p, lo + t);
      ModAdd(q, p);
    } else {
      Quotient(length + size, q + p + 1, lo + t - LO_MODULUS);
      Quotient(lo + size, p + 1, lo + t - LO_MODULUS);
      ModAdd(q, 1);
      ModAdd(q + 1, p);
    }
  }

  /** The two counter words, the low one times eight, are the length field of the padding. */
  lemma BitCount(length: nat)
    ensures var lo, hi := length % LO_MODULUS, length / LO_MODULUS % HI_MODULUS;
      LengthBytes(length) == LittleEndian32(lo * 8 % HI_MODULUS) + LittleEndian32(hi)
  {
    BitWords(length);
  }

  lemma BitWords(length: nat)
    ensures var lo, hi := length % LO_MODULUS, length / LO_MODULUS % HI_MODULUS;
      var bits := 8 * length % 0x1_0000_0000_0000_0000;
      bits % 0x1_0000_0000 == lo * 8 % HI_MODULUS && bits / 0x1_0000_0000 == hi
  {
    var q, lo := length / LO_MODULUS, length % LO_MODULUS;
    var p, hi := q / HI_MODULUS, q % HI_MODULUS;
    assert 8 * length == p * 0x1_0000_0000_0000_0000 + (hi * HI_MODULUS + 8 * lo);
    Quotient64(8 * length, p, hi * HI_MODULUS + 8 * lo);
  }

  lemma Quotient64(x: nat, q: nat, r: nat)
    requires x == q * 0x1_0000_0000_0000_0000 + r && r < 0x1_0000_0000_0000_0000
    ensures x % 0x1_0000_0000_0000_0000 == r
  {}

  function Flatten(pieces: seq<seq<Byte>>): (m: seq<Byte>) {
    if pieces == [] then [] else Flatten(pieces[..|pieces| - 1]) + pieces[|pieces| - 1]
  }

  /** One piece is itself the message, and pieces come in their order. */
  lemma {:induction false} FlattenInOrder(first: seq<Byte>, rest: seq<seq<Byte>>)
    ensures Flatten([]) == [] && Flatten([first] + rest) == first + Flatten(rest)
    decreases |rest|
  {
    var all, n := [first] + rest, |rest|;
    if n == 0 {
      assert all[..0] == [];
    } else {
      FlattenInOrder(first, rest[..n - 1]);
      assert all[..n] == [first] + rest[..n - 1];
    }
  }

  /**
   * Init, one Update per piece, Final: however the message is cut, empty and multi-block pieces
   * included, the result is the digest of the concatenation.
   */
  method Digest(pieces: seq<seq<Byte>>) returns (result: seq<Byte>)
    ensures result == Md5(Flatten(pieces))
  {
    var context := new Md5Context();
    context.Init();
    for i := 0 to |pieces|
      invariant fresh(context) && fresh(context.buffer)
      invariant context.Valid() && context.message == Flatten(pieces[..i])
    {
      context.Update(pieces[i]);
      assert pieces[..i + 1][..i] == pieces[..i];
    }
    assert pieces[..|pieces|] == pieces;
    result := context.Final();
  }
}
