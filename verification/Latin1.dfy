/**
 * utils_latin2utf, utils_utf2latin and utils_strnewdup of utils.hpp: Latin-1 text to UTF-8 and back,
 * each in two runs, one that only counts and one that fills a buffer of that size.
 */
module Latin1 {
  import opened Bytes

  /** A C string: null, or the bytes before the terminator. */
  datatype CString = Null | Text(chars: seq<byte>) {
    predicate Valid() { Text? ==> 0 !in chars }

    /** s[k]; the terminator can be read, nothing behind it. */
    function At(k: nat): byte
      requires Text? && k <= |chars|
    {
      if k < |chars| then chars[k] else 0
    }
  }

  // ----- The two conversions -----------------------------------------------------------------

  function Encode(c: byte): (u: seq<byte>)
    ensures 1 <= |u| <= 2
  {
    if c < 128 then [c] else [128 + 64 + c / 64, 128 + c % 64]
  }

  function Latin2Utf(s: seq<byte>): seq<byte> {
    if s == [] then [] else Encode(s[0]) + Latin2Utf(s[1..])
  }

  /** s[0] << 6 | s[1] & 63, cut to a byte: the shift leaves two bits of the first byte. */
  function Join(first: byte, second: byte): byte {
    ((first as int * 64) % 0x100 + second as int % 64) as byte
  }

  /** Every byte from 128 on has a byte behind it that belongs to it. */
  predicate Paired(u: seq<byte>) {
    if u == [] then true
    else if u[0] < 128 then Paired(u[1..])
    else |u| >= 2 && Paired(u[2..])
  }

  function Utf2Latin(u: seq<byte>): seq<byte>
    requires Paired(u)
  {
    if u == [] then []
    else if u[0] < 128 then [u[0]] + Utf2Latin(u[1..])
    else [Join(u[0], u[1])] + Utf2Latin(u[2..])
  }

  lemma Conversions()
    ensures Latin2Utf([]) == [] && Paired([]) && Utf2Latin([]) == []
  {}

  lemma LatinStep(s: seq<byte>)
    requires s != []
    ensures Latin2Utf(s) == Encode(s[0]) + Latin2Utf(s[1..])
  {}

  lemma UtfStep(u: seq<byte>)
    requires u != [] && Paired(u)
    ensures u[0] < 128 ==> Paired(u[1..]) && Utf2Latin(u) == [u[0]] + Utf2Latin(u[1..])
    ensures u[0] >= 128 ==> |u| >= 2 && Paired(u[2..]) && Utf2Latin(u) == [Join(u[0], u[1])] + Utf2Latin(u[2..])
  {}

  method LatinToUtf(s: CString, buffer: array?<byte>) returns (cnt: nat)
    requires s.Valid()
    requires buffer != null && s.Text? ==> |Latin2Utf(s.chars)| + 1 <= buffer.Length
    modifies if buffer == null then {} else {buffer}
    ensures s.Null? ==> cnt == 0
    ensures s.Text? ==> cnt == |Latin2Utf(s.chars)| + 1
    ensures buffer != null && s.Text? ==> buffer[..cnt] == Latin2Utf(s.chars) + [0]
    ensures buffer != null ==> forall k :: cnt <= k < buffer.Length ==> buffer[k] == old(buffer[k])
  {
    hide Latin2Utf;
    cnt := 0;
    if s.Text? {
      var i := 0;
      ghost var done := [];
      Conversions();
      assert s.chars[0..] == s.chars;
      while s.At(i) != 0
        invariant 0 <= i <= |s.chars| && cnt == |done|
        invariant done + Latin2Utf(s.chars[i..]) == Latin2Utf(s.chars)
        invariant buffer != null ==> buffer[..cnt] == done
        invariant buffer != null ==> forall k :: cnt <= k < buffer.Length ==> buffer[k] == old(buffer[k])
        decreases |s.chars| - i
      {
        ghost var before := done;
        var c := s.At(i);
        LatinStep(s.chars[i..]);
        assert s.chars[i..][1..] == s.chars[i + 1..];
        done := done + Encode(c);
        assert done + Latin2Utf(s.chars[i + 1..]) == before + (Encode(c) + Latin2Utf(s.chars[i + 1..]));
        if c < 128 {
          if buffer != null {
            buffer[cnt] := c;
          }
          cnt := cnt + 1;
        } else {
          if buffer != null {
            buffer[cnt] := 128 + 64 + c / 64;
            buffer[cnt + 1] := 128 + c % 64;
          }
          cnt := cnt + 2;
        }
        i := i + 1;
      }
      AtEnd(s, i);
      assert done == Latin2Utf(s.chars);
      if buffer != null {
        buffer[cnt] := 0;
      }
      cnt := cnt + 1;
    }
  }

  lemma AtEnd(s: CString, i: nat)
    requires s.Text? && s.Valid() && i <= |s.chars| && s.At(i) == 0
    ensures i == |s.chars| && s.chars[i..] == []
  {}

  /**
   * The positions this loop reads, in order, from position i on. It reads two bytes wherever it
   * finds one from 128 on, and goes on behind them; behind the terminator nothing is known.
   */
  function Reads(chars: seq<byte>, i: nat): seq<nat>
    requires i <= |chars| + 1
    decreases |chars| + 1 - i
  {
    if i >= |chars| then [i]
    else if chars[i] < 128 then [i] + Reads(chars, i + 1)
    else [i, i + 1] + Reads(chars, i + 2)
  }

  ghost predicate StaysInside(chars: seq<byte>) {
    AllUpTo(Reads(chars, 0), |chars|)
  }

  predicate AllUpTo(positions: seq<nat>, last: nat) {
    forall k :: 0 <= k < |positions| ==> positions[k] <= last
  }

  lemma AllUpToAppend(a: seq<nat>, b: seq<nat>, last: nat)
    ensures AllUpTo(a + b, last) <==> AllUpTo(a, last) && AllUpTo(b, last)
  {
    if AllUpTo(a + b, last) {
      forall k | 0 <= k < |a| ensures a[k] <= last {
        assert a[k] == (a + b)[k];
      }
      forall k | 0 <= k < |b| ensures b[k] <= last {
        assert b[k] == (a + b)[|a| + k];
      }
    }
  }

  /** No byte behind the terminator is read if and only if every byte from 128 on is paired. */
  lemma {:induction false} ReadsInside(chars: seq<byte>, i: nat)
    requires i <= |chars|
    ensures AllUpTo(Reads(chars, i), |chars|) <==> Paired(chars[i..])
    decreases |chars| - i
  {
    if i == |chars| {
      assert chars[i..] == [];
    } else if chars[i] < 128 {
      ReadsInside(chars, i + 1);
      AllUpToAppend([i], Reads(chars, i + 1), |chars|);
      assert chars[i..][1..] == chars[i + 1..];
    } else if i + 1 == |chars| {
      assert Reads(chars, i + 2) == [i + 2];
      assert Reads(chars, i)[2] == i + 2;
      assert |chars[i..]| == 1 && chars[i..][0] >= 128;
    } else {
      ReadsInside(chars, i + 2);
      AllUpToAppend([i, i + 1], Reads(chars, i + 2), |chars|);
      assert chars[i..][2..] == chars[i + 2..];
    }
  }

  lemma InsideIffPaired(chars: seq<byte>)
    ensures StaysInside(chars) <==> Paired(chars)
  {
    ReadsInside(chars, 0);
    assert chars[0..] == chars;
  }

  /** The lead byte of a character, alone: the loop reads its byte, the terminator, and what follows. */
  lemma LoneLeadByte()
    ensures Reads([0xC3], 0) == [0, 1, 2] && !StaysInside([0xC3]) && !Paired([0xC3])
  {
    var chars: seq<byte> := [0xC3];
    assert Reads(chars, 2) == [2];
    assert Reads(chars, 0) == [0, 1] + Reads(chars, 2) == [0, 1, 2];
    assert !Paired(chars);
    InsideIffPaired(chars);
  }

  /** inside is false when the loop has stepped over the terminator, and reads on behind it. */
  method UtfToLatin(s: CString, buffer: array?<byte>) returns (cnt: nat, inside: bool)
    requires s.Valid()
    requires buffer != null && s.Text? ==>
      StaysInside(s.chars) && Paired(s.chars) && |Utf2Latin(s.chars)| + 1 <= buffer.Length
    modifies if buffer == null then {} else {buffer}
    ensures inside <==> s.Null? || StaysInside(s.chars)
    ensures s.Null? ==> cnt == 0
    ensures s.Text? && inside ==> Paired(s.chars) && cnt == |Utf2Latin(s.chars)| + 1
    ensures buffer != null && s.Text? ==> buffer[..cnt] == Utf2Latin(s.chars) + [0]
    ensures buffer != null ==> forall k :: cnt <= k < buffer.Length ==> buffer[k] == old(buffer[k])
  {
    hide Utf2Latin, Paired, Join, StaysInside;
    cnt, inside := 0, true;
    if s.Text? {
      InsideIffPaired(s.chars);
      var i := 0;
      ghost var done := [];
      Conversions();
      assert s.chars[0..] == s.chars;
      while i <= |s.chars| && s.At(i) != 0
        invariant 0 <= i <= |s.chars| + 1 && cnt == |done|
        invariant Paired(s.chars) <==> (i <= |s.chars| && Paired(s.chars[i..]))
        invariant Paired(s.chars) ==> done + Utf2Latin(s.chars[i..]) == Utf2Latin(s.chars)
        invariant buffer != null ==> buffer[..cnt] == done
        invariant buffer != null ==> forall k :: cnt <= k < buffer.Length ==> buffer[k] == old(buffer[k])
        decreases |s.chars| + 1 - i
      {
        ghost var before, rest := done, s.chars[i..];
        PairedStep(rest);
        if Paired(rest) {
          UtfStep(rest);
        }
        var c;
        if s.At(i) < 128 {
          c := s.At(i);
          i := i + 1;
          assert rest[1..] == s.chars[i..];
        } else {
          c := Join(s.At(i), s.At(i + 1));
          i := i + 2;
          assert i <= |s.chars| ==> rest[2..] == s.chars[i..];
        }
        done := done + [c];
        assert Paired(s.chars) ==> done + Utf2Latin(s.chars[i..]) == before + ([c] + Utf2Latin(s.chars[i..]));
        if buffer != null {
          buffer[cnt] := c;
        }
        cnt := cnt + 1;
      }
      if i > |s.chars| {
        return cnt, false;
      }
      AtEnd(s, i);
      assert done == Utf2Latin(s.chars);
      if buffer != null {
        buffer[cnt] := 0;
      }
      cnt := cnt + 1;
    }
  }

  lemma PairedStep(u: seq<byte>)
    requires u != []
    ensures Paired(u) <==> if u[0] < 128 then Paired(u[1..]) else |u| >= 2 && Paired(u[2..])
  {}

  /** The buffer of the first run's size is exactly filled by the second. */
  method StrNewDup(s: CString, convertUtf8: bool) returns (copy: array?<byte>, inside: bool)
    requires s.Valid()
    ensures inside <==> (s.Text? && convertUtf8 ==> StaysInside(s.chars))
    ensures inside ==> (copy == null <==> s.Null?)
    ensures inside && s.Text? && !convertUtf8 ==> copy[..] == s.chars + [0]
    ensures inside && s.Text? && convertUtf8 ==> Paired(s.chars) && copy[..] == Utf2Latin(s.chars) + [0]
    ensures copy != null ==> fresh(copy)
  {
    hide StaysInside;
    copy, inside := null, true;
    if s.Text? {
      if convertUtf8 {
        var length;
        length, inside := UtfToLatin(s, null);
        if inside {
          copy := new byte[length];
          var written, _ := UtfToLatin(s, copy);
          assert copy[..length] == copy[..];
        }
      } else {
        copy := new byte[|s.chars| + 1](k requires 0 <= k <= |s.chars| => s.At(k));
      }
    }
  }

  // ----- Round trips ---------------------------------------------------------------------------

  lemma DecodeEncode(c: byte, rest: seq<byte>)
    requires Paired(rest)
    ensures Paired(Encode(c) + rest) && Utf2Latin(Encode(c) + rest) == [c] + Utf2Latin(rest)
  {
    hide Paired, Utf2Latin, Join, Encode;
    var u := Encode(c) + rest;
    EncodedByte(c);
    PairedStep(u);
    if c < 128 {
      assert u[1..] == rest;
    } else {
      assert u[2..] == rest;
    }
    UtfStep(u);
  }

  /** One byte from its one or two. */
  lemma EncodedByte(c: byte)
    ensures c < 128 ==> Encode(c) == [c]
    ensures c >= 128 ==> var u := Encode(c); |u| == 2 && u[0] >= 128 && Join(u[0], u[1]) == c
  {}

  /** Latin-1 text survives the way to UTF-8 and back. */
  lemma {:induction false} LatinRoundTrip(s: seq<byte>)
    ensures Paired(Latin2Utf(s)) && Utf2Latin(Latin2Utf(s)) == s
  {
    if s != [] {
      LatinRoundTrip(s[1..]);
      DecodeEncode(s[0], Latin2Utf(s[1..]));
      assert s == [s[0]] + s[1..];
    }
  }

  /** No terminator appears inside the UTF-8 text. */
  lemma {:induction false} NoNulInUtf(s: seq<byte>)
    requires 0 !in s
    ensures 0 !in Latin2Utf(s)
  {
    if s != [] {
      assert s[0] in s;
      NoNulInUtf(s[1..]);
    }
  }

  /** UTF-8 of code points up to U+00FF: ASCII, or C2 or C3 and a continuation byte. */
  predicate IsLatinUtf8(u: seq<byte>) {
    if u == [] then true
    else if u[0] < 128 then IsLatinUtf8(u[1..])
    else |u| >= 2 && (u[0] == 0xC2 || u[0] == 0xC3) && 0x80 <= u[1] < 0xC0 && IsLatinUtf8(u[2..])
  }

  /** The other way round, exactly the texts whose code points end at U+00FF survive. */
  lemma {:induction false} UtfRoundTrip(u: seq<byte>)
    requires Paired(u)
    ensures Latin2Utf(Utf2Latin(u)) == u <==> IsLatinUtf8(u)
    decreases |u|
  {
    if u != [] {
      var n := if u[0] < 128 then 1 else 2;
      var c := if n == 1 then u[0] else Join(u[0], u[1]);
      var rest := Latin2Utf(Utf2Latin(u[n..]));
      UtfRoundTrip(u[n..]);
      assert Utf2Latin(u) == [c] + Utf2Latin(u[n..]);
      assert Utf2Latin(u)[1..] == Utf2Latin(u[n..]);
      assert Latin2Utf(Utf2Latin(u)) == Encode(c) + rest;
      assert u == u[..n] + u[n..];
      if n == 1 {
        assert Encode(c) == u[..1];
      } else {
        JoinExact(u[0], u[1]);
        assert u[..2] == [u[0], u[1]];
        if Encode(c) + rest == u {
          assert (Encode(c) + rest)[0] == u[0] >= 128;
          assert |Encode(c)| == 2;
          assert Encode(c) == (Encode(c) + rest)[..2] == u[..2];
          assert rest == (Encode(c) + rest)[2..] == u[2..];
        }
      }
    }
  }

  lemma JoinExact(a: byte, b: byte)
    requires a >= 128
    ensures Encode(Join(a, b)) == [a, b] <==> (a == 0xC2 || a == 0xC3) && 0x80 <= b < 0xC0
  {
    hide Join, Encode;
    JoinValue(a, b);
    EncodeValue(Join(a, b), a as int % 4, b as int % 64);
  }

  lemma JoinValue(a: byte, b: byte)
    ensures Join(a, b) as int == a as int % 4 * 64 + b as int % 64
  {
    JoinDigits(a as int, b as int);
  }

  lemma EncodeValue(c: byte, high: nat, low: nat)
    requires c as int == high * 64 + low && high < 4 && low < 64
    ensures Encode(c) == if high < 2 then [c] else [(192 + high) as byte, (128 + low) as byte]
  {
    assert c as int / 64 == high && c as int % 64 == low;
  }

  /** The shift leaves the two low bits of the first byte. */
  lemma JoinDigits(a: int, b: int)
    requires 0 <= a < 0x100 && 0 <= b < 0x100
    ensures a * 64 % 0x100 == a % 4 * 64
    ensures (a % 4 * 64 + b % 64) / 64 == a % 4 && (a % 4 * 64 + b % 64) % 64 == b % 64
  {
    assert a * 64 == a / 4 * 0x100 + a % 4 * 64;
  }

  // ----- RFC 3629 ----------------------------------------------------------------------------

  predicate IsTail(b: byte) { 0x80 <= b <= 0xBF }

  /** The length of the UTF8-char at the head of u (section 4), or 0 if there is none. */
  function CharLength(u: seq<byte>): (n: nat)
    ensures n <= |u|
  {
    if |u| >= 1 && u[0] <= 0x7F then 1
    else if |u| >= 2 && 0xC2 <= u[0] <= 0xDF && IsTail(u[1]) then 2
    else if |u| >= 3 && IsTail(u[1]) && IsTail(u[2])
      && (0xE0 <= u[0] <= 0xEF && (u[0] == 0xE0 ==> u[1] >= 0xA0) && (u[0] == 0xED ==> u[1] <= 0x9F)) then 3
    else if |u| >= 4 && IsTail(u[1]) && IsTail(u[2]) && IsTail(u[3])
      && (0xF0 <= u[0] <= 0xF4 && (u[0] == 0xF0 ==> u[1] >= 0x90) && (u[0] == 0xF4 ==> u[1] <= 0x8F)) then 4
    else 0
  }

  /** The character number those octets encode (section 3). */
  function CharNumber(u: seq<byte>): int
    requires CharLength(u) > 0
  {
    match CharLength(u)
    case 1 => u[0] as int
    case 2 => u[0] as int % 32 * 64 + u[1] as int % 64
    case 3 => u[0] as int % 16 * 4096 + u[1] as int % 64 * 64 + u[2] as int % 64
    case _ => u[0] as int % 8 * 0x4_0000 + u[1] as int % 64 * 4096 + u[2] as int % 64 * 64 + u[3] as int % 64
  }

  predicate IsUtf8(u: seq<byte>)
    decreases |u|
  {
    u == [] || (CharLength(u) > 0 && IsUtf8(u[CharLength(u)..]))
  }

  function CharNumbers(u: seq<byte>): seq<int>
    requires IsUtf8(u)
    decreases |u|
  {
    if u == [] then [] else [CharNumber(u)] + CharNumbers(u[CharLength(u)..])
  }

  /** The output is well-formed UTF-8, and its character numbers are the Latin-1 bytes. */
  lemma {:induction false} LatinCharacters(s: seq<byte>)
    ensures IsUtf8(Latin2Utf(s))
    ensures CharNumbers(Latin2Utf(s)) == seq(|s|, i requires 0 <= i < |s| => s[i] as int)
  {
    if s != [] {
      LatinCharacters(s[1..]);
      var u, rest := Latin2Utf(s), Latin2Utf(s[1..]);
      assert CharLength(u) == |Encode(s[0])| && CharNumber(u) == s[0] as int;
      assert u[CharLength(u)..] == rest;
    }
  }

  /** The examples of section 7 of RFC 3629, and the letter U+00E9. */
  lemma Examples()
    ensures Latin2Utf([0xE9]) == [0xC3, 0xA9] && CharNumber([0xC3, 0xA9]) == 0xE9
    ensures CharLength([0x41]) == 1 && CharNumber([0x41]) == 0x41
    ensures CharLength([0xE2, 0x89, 0xA2]) == 3 && CharNumber([0xE2, 0x89, 0xA2]) == 0x2262
    ensures CharLength([0xF0, 0xA3, 0x8E, 0xB4]) == 4 && CharNumber([0xF0, 0xA3, 0x8E, 0xB4]) == 0x2_33B4
  {
    assert Latin2Utf([]) == [];
  }
}
