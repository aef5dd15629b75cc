/**
 * The UUID reader and writer of sqlite/uuid.c, and the version and variant bits of uuid().
 * The text form is that of RFC 4122, section 3; the reader is more liberal.
 */
module Uuid {
  import opened Bytes
  import opened Wrappers

  /** isxdigit */
  predicate IsHexDigit(c: char) { '0' <= c <= '9' || 'a' <= c <= 'f' || 'A' <= c <= 'F' }

  /** sqlite3UuidHexToInt: bit 6 is set in letters only, and moves 'a' and 'A' from 1 to 10. */
  function HexToInt(h: char): (d: nat)
    ensures d < 16
  {
    (h as int + 9 * (h as int / 64 % 2)) % 16
  }

  const DIGITS := "0123456789abcdef"

  lemma HexDigits(d: nat)
    requires d < 16
    ensures IsHexDigit(DIGITS[d]) && HexToInt(DIGITS[d]) == d
  {
    assert DIGITS[d] == if d < 10 then '0' + d as char else 'a' + (d - 10) as char;
  }

  /** Digits of either case have their usual values. */
  lemma HexValues(c: char)
    ensures '0' <= c <= '9' ==> HexToInt(c) == c as int - '0' as int
    ensures 'a' <= c <= 'f' ==> HexToInt(c) == 10 + c as int - 'a' as int
    ensures 'A' <= c <= 'F' ==> HexToInt(c) == 10 + c as int - 'A' as int
  {}

  // ----- RFC 4122, section 3 -------------------------------------------------------------------

  /** Bytes in lower-case hexadecimal, high digit first. */
  function Hex(b: seq<byte>): (s: string)
    ensures |s| == 2 * |b|
  {
    if b == [] then "" else [DIGITS[b[0] / 16], DIGITS[b[0] % 16]] + Hex(b[1..])
  }

  /** The groups of 8, 4, 4, 4 and 12 digits. */
  function Canonical(b: seq<byte>): (s: string)
    requires |b| == 16
    ensures |s| == 36
  {
    Hex(b[..4]) + "-" + Hex(b[4..6]) + "-" + Hex(b[6..8]) + "-" + Hex(b[8..10]) + "-" + Hex(b[10..])
  }

  lemma HexNothing()
    ensures Hex([]) == ""
  {}

  lemma {:induction false} HexAppend(b: seq<byte>, x: byte)
    ensures Hex(b + [x]) == Hex(b) + [DIGITS[x / 16], DIGITS[x % 16]]
  {
    if b != [] {
      assert (b + [x])[1..] == b[1..] + [x];
      HexAppend(b[1..], x);
    }
  }

  /** Where the printer puts a dash: bits 4, 6, 8 and 10 of 0x550. */
  predicate DashBefore(i: nat) { i == 4 || i == 6 || i == 8 || i == 10 }

  /** How many dashes precede byte i. */
  function Dashes(i: nat): nat {
    if i <= 4 then 0 else if i <= 6 then 1 else if i <= 8 then 2 else if i <= 10 then 3 else 4
  }

  lemma DashCount(i: nat)
    ensures Dashes(i + 1) == Dashes(i) + (if DashBefore(i) then 1 else 0)
    ensures Dashes(i) <= Dashes(i + 1) <= 4 && Dashes(0) == 0 && Dashes(16) == 4
  {}

  /** What has been printed after i bytes. */
  function Printed(b: seq<byte>, i: nat): (s: string)
    requires i <= |b|
  {
    if i == 0 then "" else
    Printed(b, i - 1) + (if DashBefore(i - 1) then "-" else "") + [DIGITS[b[i - 1] / 16], DIGITS[b[i - 1] % 16]]
  }

  lemma {:induction false} PrintedGroup(b: seq<byte>, start: nat, end: nat)
    requires start < end <= |b| && forall i :: start < i < end ==> !DashBefore(i)
    ensures Printed(b, end) == Printed(b, start) + (if DashBefore(start) then "-" else "") + Hex(b[start..end])
    decreases end
  {
    hide Hex, DashBefore;
    HexNothing();
    HexAppend(b[start..end - 1], b[end - 1]);
    assert b[start..end] == b[start..end - 1] + [b[end - 1]];
    if start + 1 != end {
      PrintedGroup(b, start, end - 1);
    }
  }

  lemma PrintedNext(b: seq<byte>, i: nat)
    requires i < |b|
    ensures Printed(b, i + 1) ==
      Printed(b, i) + (if DashBefore(i) then "-" else "") + [DIGITS[b[i] / 16], DIGITS[b[i] % 16]]
  {}

  lemma PrintedNothing(b: seq<byte>)
    ensures Printed(b, 0) == ""
  {}

  /** The dashes of the bit mask are the ones between the groups. */
  lemma PrintedIsCanonical(b: seq<byte>)
    requires |b| == 16
    ensures Printed(b, 16) == Canonical(b)
  {
    hide Hex, Printed;
    PrintedNothing(b);
    PrintedGroup(b, 0, 4);
    PrintedGroup(b, 4, 6);
    PrintedGroup(b, 6, 8);
    PrintedGroup(b, 8, 10);
    PrintedGroup(b, 10, 16);
    assert b[0..4] == b[..4] && b[10..16] == b[10..];
  }

  /** 0x550 and what the shifts make of it. */
  const MASKS := [0x550, 0x2a8, 0x154, 0xaa, 0x55, 0x2a, 0x15, 0xa, 5, 2, 1, 0, 0, 0, 0, 0, 0]

  function Mask(i: nat): nat
    requires i < 17
  {
    MASKS[i]
  }

  lemma MaskBits(i: nat)
    requires i < 16
    ensures Mask(i + 1) == Mask(i) / 2
    ensures Mask(i) % 2 == 1 <==> DashBefore(i)
    ensures Mask(0) == 0x550
  {}

  method BlobToStr(blob: seq<byte>, zStr: array<char>)
    requires |blob| == 16 && zStr.Length >= 37
    modifies zStr
    ensures zStr[..37] == Canonical(blob) + "\0"
    ensures forall j :: 37 <= j < zStr.Length ==> zStr[j] == old(zStr[j])
  {
    hide Canonical, Hex, DashBefore, Dashes, Printed, Mask;
    PrintedNothing(blob);
    MaskBits(0);
    DashCount(0);
    DashCount(15);
    var k, z := 0x550, 0;
    for i := 0 to 16
      invariant k == Mask(i)
      invariant z == 2 * i + Dashes(i) && Dashes(i) <= 4
      invariant zStr[..z] == Printed(blob, i)
      invariant forall j :: 37 <= j < zStr.Length ==> zStr[j] == old(zStr[j])
    {
      MaskBits(i);
      DashCount(i);
      PrintedNext(blob, i);
      ghost var before := zStr[..z];
      if k % 2 == 1 {
        zStr[z] := '-';
        z := z + 1;
        assert zStr[..z] == before + "-";
      }
      ghost var dashed := zStr[..z];
      var x := blob[i];
      zStr[z] := DIGITS[x / 16];
      zStr[z + 1] := DIGITS[x % 16];
      z := z + 2;
      k := k / 2;
      assert zStr[..z] == dashed + [DIGITS[x / 16], DIGITS[x % 16]];
    }
    PrintedIsCanonical(blob);
    zStr[z] := '\0';
  }

  // ----- The reader -----------------------------------------------------------------------------

  /** What is left of z after an optional c. */
  function Skip(z: string, c: char): string {
    if z != "" && z[0] == c then z[1..] else z
  }

  /** n times an optional dash and two hexadecimal digits; then nothing but an optional brace. */
  function ParsePairs(z: string, n: nat): Option<seq<byte>>
  {
    if n == 0 then
      if Skip(z, '}') == "" then Some([]) else None
    else
      var t := Skip(z, '-');
      if |t| >= 2 && IsHexDigit(t[0]) && IsHexDigit(t[1]) then
        match ParsePairs(t[2..], n - 1)
        case None => None
        case Some(rest) => Some([(16 * HexToInt(t[0]) + HexToInt(t[1])) as byte] + rest)
      else
        None
  }

  function Parse(z: string): Option<seq<byte>> {
    ParsePairs(Skip(z, '{'), 16)
  }

  /** zStr is the text and its terminator; on failure a prefix of the bytes has been written. */
  method StrToBlob(zStr: string, aBlob: array<byte>) returns (rc: int)
    requires zStr != "" && zStr[|zStr| - 1] == '\0' && '\0' !in zStr[..|zStr| - 1]
    requires aBlob.Length == 16
    modifies aBlob
    ensures rc == 0 <==> Parse(zStr[..|zStr| - 1]).Some?
    ensures rc == 0 ==> Parse(zStr[..|zStr| - 1]) == Some(aBlob[..])
  {
    hide ParsePairs, HexToInt, IsHexDigit, Skip, Prefixed;
    ghost var text := zStr[..|zStr| - 1];
    ghost var goal := Parse(text);
    var p := 0;
    SkipAt(zStr, p, '{');
    if zStr[p] == '{' {
      p := p + 1;
    }
    PrefixedNothing(goal);
    for i := 0 to 16
      invariant 0 <= p <= |text|
      invariant goal == Prefixed(aBlob[..i], ParsePairs(text[p..], 16 - i))
    {
      ghost var before := aBlob[..i];
      PrefixedNone(before);
      Turn(zStr, p, 16 - i);
      if zStr[p] == '-' {
        p := p + 1;
      }
      if IsHexDigit(zStr[p]) && IsHexDigit(zStr[p + 1]) {
        aBlob[i] := (16 * HexToInt(zStr[p]) + HexToInt(zStr[p + 1])) as byte;
        assert aBlob[..i + 1] == before + [aBlob[i]];
        PrefixedOnce(before, aBlob[i], ParsePairs(text[p + 2..], 15 - i));
        p := p + 2;
      } else {
        return 1;
      }
    }
    assert aBlob[..16] == aBlob[..];
    ParseStep(text[p..], 0);
    PrefixedAll(aBlob[..]);
    PrefixedNone(aBlob[..]);
    SkipAt(zStr, p, '}');
    if zStr[p] == '}' {
      p := p + 1;
    }
    rc := if zStr[p] != '\0' then 1 else 0;
  }

  /** Skipping a character of the text, with the terminator still to come. */
  lemma SkipAt(zStr: string, p: nat, c: char)
    requires p < |zStr| && zStr[|zStr| - 1] == '\0' && '\0' !in zStr[..|zStr| - 1] && c != '\0'
    ensures var text := zStr[..|zStr| - 1];
      var q := if zStr[p] == c then p + 1 else p;
      q <= |text| && Skip(text[p..], c) == text[q..] && (zStr[q] == '\0' <==> text[q..] == "")
  {}

  /** The test for two digits stops at the terminator. */
  lemma PairAt(zStr: string, p: nat)
    requires p < |zStr| && zStr[|zStr| - 1] == '\0' && '\0' !in zStr[..|zStr| - 1]
    ensures var text := zStr[..|zStr| - 1];
      var t := text[p..];
      && (IsHexDigit(zStr[p]) ==> p + 1 < |zStr|)
      && ((|t| >= 2 && IsHexDigit(t[0]) && IsHexDigit(t[1])) <==> (IsHexDigit(zStr[p]) && IsHexDigit(zStr[p + 1])))
      && (|t| >= 2 ==> t[0] == zStr[p] && t[1] == zStr[p + 1] && t[2..] == text[p + 2..])
      && (IsHexDigit(zStr[p]) && IsHexDigit(zStr[p + 1]) ==> p + 2 <= |text|)
  {}

  /** One turn of the reader's loop. */
  lemma ParseStep(z: string, n: nat)
    ensures var t := Skip(z, '-');
      ParsePairs(z, n) ==
        if n == 0 then (if Skip(z, '}') == "" then Some([]) else None)
        else if |t| >= 2 && IsHexDigit(t[0]) && IsHexDigit(t[1]) then
          Prefixed([(16 * HexToInt(t[0]) + HexToInt(t[1])) as byte], ParsePairs(t[2..], n - 1))
        else None
  {}

  /** The same in terms of the text and its terminator. */
  lemma Turn(zStr: string, p: nat, n: nat)
    requires p < |zStr| && zStr[|zStr| - 1] == '\0' && '\0' !in zStr[..|zStr| - 1] && n > 0
    ensures var text := zStr[..|zStr| - 1];
      var q := if zStr[p] == '-' then p + 1 else p;
      && q <= |text|
      && (IsHexDigit(zStr[q]) ==> q + 1 < |zStr|)
      && if IsHexDigit(zStr[q]) && IsHexDigit(zStr[q + 1]) then
           && q + 2 <= |text|
           && ParsePairs(text[p..], n) ==
             Prefixed([(16 * HexToInt(zStr[q]) + HexToInt(zStr[q + 1])) as byte], ParsePairs(text[q + 2..], n - 1))
         else
           ParsePairs(text[p..], n) == None
  {
    hide ParsePairs, HexToInt, IsHexDigit, Skip, Prefixed;
    ParseStep(zStr[..|zStr| - 1][p..], n);
    SkipAt(zStr, p, '-');
    PairAt(zStr, if zStr[p] == '-' then p + 1 else p);
  }

  lemma DigitIsNoPunctuation(c: char)
    requires IsHexDigit(c)
    ensures c !in "-{}"
  {}

  function Prefixed(b: seq<byte>, r: Option<seq<byte>>): Option<seq<byte>> {
    match r case None => None case Some(rest) => Some(b + rest)
  }

  lemma PrefixedNone(b: seq<byte>)
    ensures Prefixed(b, None) == None
  {}

  lemma PrefixedAll(b: seq<byte>)
    ensures Prefixed(b, Some([])) == Some(b)
  {
    assert b + [] == b;
  }

  lemma PrefixedNothing(r: Option<seq<byte>>)
    ensures Prefixed([], r) == r
  {
    if r.Some? {
      assert [] + r.value == r.value;
    }
  }

  lemma PrefixedOnce(b: seq<byte>, x: byte, r: Option<seq<byte>>)
    ensures Prefixed(b + [x], r) == Prefixed(b, Prefixed([x], r))
  {
    if r.Some? {
      assert b + [x] + r.value == b + ([x] + r.value);
    }
  }

  // ----- What the reader accepts -------------------------------------------------------------

  /** A text: optional brace, pairs of digits each with an optional dash before it, optional brace. */
  datatype Form = Form(open: bool, pairs: seq<(bool, char, char)>, close: bool)

  ghost predicate WellFormed(f: Form) {
    |f.pairs| == 16 && forall p <- f.pairs :: IsHexDigit(p.1) && IsHexDigit(p.2)
  }

  function RenderPairs(pairs: seq<(bool, char, char)>): string {
    if pairs == [] then "" else
    (if pairs[0].0 then "-" else "") + [pairs[0].1, pairs[0].2] + RenderPairs(pairs[1..])
  }

  lemma RenderNothing()
    ensures RenderPairs([]) == ""
  {}

  lemma RenderCons(p: (bool, char, char), rest: seq<(bool, char, char)>)
    ensures RenderPairs([p] + rest) == (if p.0 then "-" else "") + [p.1, p.2] + RenderPairs(rest)
  {}

  function Render(f: Form): string {
    (if f.open then "{" else "") + (RenderPairs(f.pairs) + if f.close then "}" else "")
  }

  function PairValues(pairs: seq<(bool, char, char)>): (b: seq<byte>)
    ensures |b| == |pairs|
  {
    seq(|pairs|, i requires 0 <= i < |pairs| => (16 * HexToInt(pairs[i].1) + HexToInt(pairs[i].2)) as byte)
  }

  lemma ValuesCons(pairs: seq<(bool, char, char)>)
    requires pairs != []
    ensures var p := pairs[0];
      PairValues(pairs) == [(16 * HexToInt(p.1) + HexToInt(p.2)) as byte] + PairValues(pairs[1..])
  {}

  /** Every such text is read as the value of its digits. */
  lemma {:induction false} PairsAccepted(pairs: seq<(bool, char, char)>, close: bool)
    requires forall p <- pairs :: IsHexDigit(p.1) && IsHexDigit(p.2)
    ensures ParsePairs(RenderPairs(pairs) + (if close then "}" else ""), |pairs|) == Some(PairValues(pairs))
  {
    hide ParsePairs, HexToInt, IsHexDigit, PairValues;
    RenderNothing();
    var tail := if close then "}" else "";
    var z := RenderPairs(pairs) + tail;
    ParseStep(z, |pairs|);
    if pairs == [] {
      assert z == tail;
      assert PairValues(pairs) == [];
    } else {
      var p, rest := pairs[0], RenderPairs(pairs[1..]) + tail;
      assert p in pairs;
      assert z == (if p.0 then "-" else "") + ([p.1, p.2] + rest);
      DigitIsNoPunctuation(p.1);
      assert Skip(z, '-') == [p.1, p.2] + rest;
      assert Skip(z, '-')[2..] == rest;
      PairsAccepted(pairs[1..], close);
      ValuesCons(pairs);
    }
  }

  lemma SkipMeans(z: string, c: char)
    ensures z == (if z == Skip(z, c) then "" else [c]) + Skip(z, c)
    ensures Skip(z, c) == "" ==> z == "" || z == [c]
  {}

  /** Whatever is read is such a text. */
  lemma {:induction false} PairsSound(z: string, n: nat) returns (pairs: seq<(bool, char, char)>, close: bool)
    requires ParsePairs(z, n).Some?
    ensures |pairs| == n && forall p <- pairs :: IsHexDigit(p.1) && IsHexDigit(p.2)
    ensures z == RenderPairs(pairs) + (if close then "}" else "")
    decreases n
  {
    hide ParsePairs, HexToInt, IsHexDigit, RenderPairs, Skip;
    ParseStep(z, n);
    if n == 0 {
      RenderNothing();
      SkipMeans(z, '}');
      pairs, close := [], z != "";
    } else {
      var t := Skip(z, '-');
      SkipMeans(z, '-');
      var first := (z != t, t[0], t[1]);
      var rest;
      rest, close := PairsSound(t[2..], n - 1);
      pairs := [first] + rest;
      RenderCons(first, rest);
      Reassociate(if z != t then "-" else "", [t[0], t[1]], RenderPairs(rest), if close then "}" else "");
      assert t == [t[0], t[1]] + t[2..];
    }
  }

  lemma Reassociate(a: string, b: string, c: string, d: string)
    ensures a + b + c + d == a + (b + (c + d))
  {}

  /** The reader accepts exactly the well-formed texts, and yields the value of the digits. */
  lemma AcceptsExactly(text: string)
    ensures Parse(text).Some? <==> exists f :: WellFormed(f) && Render(f) == text
    ensures forall f :: WellFormed(f) && Render(f) == text ==> Parse(text) == Some(PairValues(f.pairs))
  {
    hide ParsePairs, RenderPairs, PairValues, IsHexDigit, HexToInt;
    forall f | WellFormed(f) && Render(f) == text
      ensures Parse(text) == Some(PairValues(f.pairs))
    {
      FormAccepted(f);
    }
    if Parse(text).Some? {
      var rest := Skip(text, '{');
      var pairs, close := PairsSound(rest, 16);
      var f := Form(text != rest, pairs, close);
      assert text == (if f.open then "{" else "") + rest;
      assert WellFormed(f) && Render(f) == text;
    }
  }

  lemma FormAccepted(f: Form)
    requires WellFormed(f)
    ensures Parse(Render(f)) == Some(PairValues(f.pairs))
  {
    hide ParsePairs, RenderPairs, PairValues;
    var inner := RenderPairs(f.pairs) + if f.close then "}" else "";
    PairsAccepted(f.pairs, f.close);
    NoLeadingBrace(f.pairs, f.close);
    assert Skip(Render(f), '{') == inner;
  }

  lemma NoLeadingBrace(pairs: seq<(bool, char, char)>, close: bool)
    requires |pairs| == 16 && forall p <- pairs :: IsHexDigit(p.1) && IsHexDigit(p.2)
    ensures var inner := RenderPairs(pairs) + (if close then "}" else ""); inner != "" && inner[0] != '{'
  {}

  // ----- Round trips ------------------------------------------------------------------------

  /** The form a printed UUID has. */
  function PrintedPairs(b: seq<byte>, i: nat): (pairs: seq<(bool, char, char)>)
    requires i <= |b|
    ensures |pairs| == i
  {
    seq(i, j requires 0 <= j < i => (DashBefore(j), DIGITS[b[j] / 16], DIGITS[b[j] % 16]))
  }

  lemma {:induction false} RenderAppend(pairs: seq<(bool, char, char)>, p: (bool, char, char))
    ensures RenderPairs(pairs + [p]) == RenderPairs(pairs) + (if p.0 then "-" else "") + [p.1, p.2]
  {
    if pairs == [] {
      assert RenderPairs([p][1..]) == "";
    } else {
      assert (pairs + [p])[1..] == pairs[1..] + [p];
      RenderAppend(pairs[1..], p);
    }
  }

  lemma {:induction false} PrintedForm(b: seq<byte>, i: nat)
    requires i <= |b|
    ensures RenderPairs(PrintedPairs(b, i)) == Printed(b, i)
  {
    hide RenderPairs, Printed, DashBefore;
    if i == 0 {
      RenderNothing();
      PrintedNothing(b);
      assert PrintedPairs(b, 0) == [];
    } else {
      PrintedForm(b, i - 1);
      PrintedNext(b, i - 1);
      var p := (DashBefore(i - 1), DIGITS[b[i - 1] / 16], DIGITS[b[i - 1] % 16]);
      assert PrintedPairs(b, i) == PrintedPairs(b, i - 1) + [p];
      RenderAppend(PrintedPairs(b, i - 1), p);
    }
  }

  /** Reading the printed form of any 16 bytes returns them. */
  lemma PrintThenRead(b: seq<byte>)
    requires |b| == 16
    ensures Parse(Canonical(b)) == Some(b)
  {
    var f := Form(false, PrintedPairs(b, 16), false);
    PrintedForm(b, 16);
    PrintedIsCanonical(b);
    hide Canonical, RenderPairs, ParsePairs, Printed, HexToInt, IsHexDigit;
    forall i | 0 <= i < 16
      ensures IsHexDigit(f.pairs[i].1) && IsHexDigit(f.pairs[i].2)
      ensures PairValues(f.pairs)[i] == b[i]
    {
      HexDigits(b[i] as nat / 16);
      HexDigits(b[i] as nat % 16);
    }
    FormAccepted(f);
    assert Render(f) == Canonical(b);
    assert PairValues(f.pairs) == b;
  }

  // ----- Reading, then printing ----------------------------------------------------------------

  predicate IsLowerHex(c: char) { '0' <= c <= '9' || 'a' <= c <= 'f' }

  predicate DashAt(k: nat) { k == 8 || k == 13 || k == 18 || k == 23 }

  /** Lower-case digits, and dashes where RFC 4122 section 3 has them. */
  predicate CanonicalUpTo(text: string, n: nat)
    requires n <= |text|
  {
    forall k :: 0 <= k < n ==> if DashAt(k) then text[k] == '-' else IsLowerHex(text[k])
  }

  predicate IsCanonical(text: string) { |text| == 36 && CanonicalUpTo(text, 36) }

  /** Where the digits of byte i stand, and its dash before them. */
  lemma Places(i: nat)
    requires i < 16
    ensures Dashes(i) <= Dashes(i + 1) && 2 * i + Dashes(i + 1) + 2 <= 36
    ensures DashBefore(i) ==> Dashes(i + 1) == Dashes(i) + 1 && DashAt(2 * i + Dashes(i))
    ensures !DashBefore(i) ==> Dashes(i + 1) == Dashes(i)
    ensures !DashAt(2 * i + Dashes(i + 1)) && !DashAt(2 * i + Dashes(i + 1) + 1)
  {}

  lemma LowerHexDigits(c: char)
    requires IsLowerHex(c)
    ensures IsHexDigit(c) && DIGITS[HexToInt(c)] == c
  {}

  lemma {:induction false} PrintedCanonical(b: seq<byte>, i: nat)
    requires i <= |b| == 16
    ensures |Printed(b, i)| == 2 * i + Dashes(i) && CanonicalUpTo(Printed(b, i), |Printed(b, i)|)
  {
    hide Dashes, DashBefore, DashAt, Printed;
    DashCount(0);
    PrintedNothing(b);
    if i > 0 {
      PrintedCanonical(b, i - 1);
      PrintedNext(b, i - 1);
      Places(i - 1);
    }
  }

  /** The digits of a canonical text, two for each byte. */
  function TextPairs(text: string, n: nat): (pairs: seq<(bool, char, char)>)
    requires n <= 16 && |text| == 36
    ensures |pairs| == n
  {
    seq(n, i requires 0 <= i < n =>
      Places(i); (DashBefore(i), text[2 * i + Dashes(i + 1)], text[2 * i + Dashes(i + 1) + 1]))
  }

  lemma {:induction false} TextForm(text: string, n: nat)
    requires n <= 16 && IsCanonical(text)
    ensures 2 * n + Dashes(n) <= 36 && RenderPairs(TextPairs(text, n)) == text[..2 * n + Dashes(n)]
  {
    hide Dashes, DashBefore, DashAt, RenderPairs, IsLowerHex;
    DashCount(0);
    RenderNothing();
    if n > 0 {
      TextForm(text, n - 1);
      Places(n - 1);
      var p := TextPairs(text, n)[n - 1];
      assert TextPairs(text, n) == TextPairs(text, n - 1) + [p];
      RenderAppend(TextPairs(text, n - 1), p);
      var at, digits := 2 * (n - 1) + Dashes(n - 1), 2 * (n - 1) + Dashes(n);
      assert p == (DashBefore(n - 1), text[digits], text[digits + 1]);
      assert text[..digits] == text[..at] + (if p.0 then "-" else "");
      assert text[..digits + 2] == text[..digits] + [p.1, p.2];
    }
  }

  lemma Nibbles(h: nat, l: nat)
    requires h < 16 && l < 16
    ensures (16 * h + l) / 16 == h && (16 * h + l) % 16 == l
  {}

  /** Digits that are printed from their value. */
  lemma PairPrinted(pairs: seq<(bool, char, char)>, i: nat)
    requires i < |pairs|
    ensures PrintedPairs(PairValues(pairs), |pairs|)[i] ==
      (DashBefore(i), DIGITS[HexToInt(pairs[i].1)], DIGITS[HexToInt(pairs[i].2)])
  {
    hide HexToInt, DashBefore;
    Nibbles(HexToInt(pairs[i].1), HexToInt(pairs[i].2));
  }

  lemma TextDigits(text: string, i: nat)
    requires IsCanonical(text) && i < 16
    ensures var p := TextPairs(text, 16)[i];
      && p.0 == DashBefore(i) && IsHexDigit(p.1) && IsHexDigit(p.2)
      && DIGITS[HexToInt(p.1)] == p.1 && DIGITS[HexToInt(p.2)] == p.2
  {
    hide Dashes, DashBefore, DashAt, HexToInt, IsHexDigit, IsLowerHex;
    Places(i);
    LowerHexDigits(text[2 * i + Dashes(i + 1)]);
    LowerHexDigits(text[2 * i + Dashes(i + 1) + 1]);
  }

  /** A canonical text is the printed form of the value of its digits. */
  lemma CanonicalPrinted(text: string)
    requires IsCanonical(text)
    ensures var b := PairValues(TextPairs(text, 16)); Parse(text) == Some(b) && Printed(b, 16) == text
  {
    hide *;
    CanonicalLength(text);
    DashCount(15);
    var pairs := TextPairs(text, 16);
    var b := PairValues(pairs);
    TextForm(text, 16);
    assert text[..36] == text;
    forall i | 0 <= i < 16
      ensures IsHexDigit(pairs[i].1) && IsHexDigit(pairs[i].2)
      ensures PrintedPairs(b, 16)[i] == pairs[i]
    {
      TextDigits(text, i);
      PairPrinted(pairs, i);
    }
    PlainForm(pairs);
    FormAccepted(Form(false, pairs, false));
    assert PrintedPairs(b, 16) == pairs;
    PrintedForm(b, 16);
  }

  /** Braces around a canonical text change nothing. */
  lemma BracesIgnored(text: string)
    requires IsCanonical(text)
    ensures Parse("{" + text + "}") == Parse("{" + text) == Parse(text + "}") == Parse(text)
    ensures Parse(text).Some?
  {
    hide *;
    CanonicalLength(text);
    DashCount(15);
    var pairs := TextPairs(text, 16);
    TextForm(text, 16);
    assert text[..36] == text;
    forall i | 0 <= i < 16 ensures IsHexDigit(pairs[i].1) && IsHexDigit(pairs[i].2) {
      TextDigits(text, i);
    }
    BracedForms(pairs);
    FormAccepted(Form(false, pairs, false));
    FormAccepted(Form(true, pairs, false));
    FormAccepted(Form(false, pairs, true));
    FormAccepted(Form(true, pairs, true));
  }

  lemma BracedForms(pairs: seq<(bool, char, char)>)
    requires |pairs| == 16 && forall i :: 0 <= i < 16 ==> IsHexDigit(pairs[i].1) && IsHexDigit(pairs[i].2)
    ensures forall open, close :: WellFormed(Form(open, pairs, close))
    ensures var text := RenderPairs(pairs);
      && Render(Form(false, pairs, false)) == text
      && Render(Form(true, pairs, false)) == "{" + text
      && Render(Form(false, pairs, true)) == text + "}"
      && Render(Form(true, pairs, true)) == "{" + text + "}"
  {
    hide RenderPairs, IsHexDigit;
    var text := RenderPairs(pairs);
    assert text + "" == text == "" + text && "{" + (text + "") == "{" + text;
    assert "{" + (text + "}") == "{" + text + "}";
  }

  lemma CanonicalLength(text: string)
    requires IsCanonical(text)
    ensures |text| == 36
  {}

  lemma PlainForm(pairs: seq<(bool, char, char)>)
    requires |pairs| == 16 && forall i :: 0 <= i < 16 ==> IsHexDigit(pairs[i].1) && IsHexDigit(pairs[i].2)
    ensures WellFormed(Form(false, pairs, false)) && Render(Form(false, pairs, false)) == RenderPairs(pairs)
  {}

  /**
   * Printing what was read gives the canonical text of the same UUID, which is the text itself if
   * and only if that was canonical already.
   */
  lemma ReadThenPrint(text: string)
    requires Parse(text).Some?
    ensures var b := Parse(text).value;
      && |b| == 16 && IsCanonical(Canonical(b)) && Parse(Canonical(b)) == Some(b)
      && (Canonical(b) == text <==> IsCanonical(text))
  {
    AcceptsExactly(text);
    var b := Parse(text).value;
    hide Canonical, RenderPairs, Parse, Printed, HexToInt, DashAt, DashBefore, IsLowerHex, CanonicalUpTo, TextPairs;
    assert Dashes(16) == 4;
    PrintThenRead(b);
    PrintedIsCanonical(b);
    PrintedCanonical(b, 16);
    if IsCanonical(text) {
      CanonicalPrinted(text);
    }
  }

  /** The bits uuid() sets in sixteen random bytes. */
  function Version4(random: seq<byte>): (b: seq<byte>)
    requires |random| == 16
    ensures |b| == 16
  {
    random[6 := random[6] % 0x10 + 0x40][8 := random[8] % 0x40 + 0x80]
  }

  /** Of the 128 random bits, the six of version and variant are overwritten, and no others. */
  lemma Version4Bits(random: seq<byte>)
    requires |random| == 16
    ensures var b := Version4(random);
      && (forall i :: 0 <= i < 16 && i != 6 && i != 8 ==> b[i] == random[i])
      && b[6] / 16 == 4 && b[6] % 16 == random[6] % 16
      && b[8] / 64 == 2 && b[8] % 64 == random[8] % 64
  {}

  /** The UUID that section 3 of RFC 4122 gives as an example. */
  const EXAMPLE: seq<byte> :=
    [0xf8, 0x1d, 0x4f, 0xae, 0x7d, 0xec, 0x11, 0xd0, 0xa7, 0x65, 0x00, 0xa0, 0xc9, 0x1e, 0x6b, 0xf6]

  lemma TwoBytes(x: byte, y: byte)
    ensures Hex([x, y]) == [DIGITS[x / 16], DIGITS[x % 16], DIGITS[y / 16], DIGITS[y % 16]]
  {
    assert [x, y][1..] == [y] && [y][1..] == [];
    HexNothing();
  }

  lemma {:induction false} HexConcat(b: seq<byte>, c: seq<byte>)
    ensures Hex(b + c) == Hex(b) + Hex(c)
  {
    if b == [] {
      assert b + c == c;
    } else {
      assert (b + c)[1..] == b[1..] + c;
      HexConcat(b[1..], c);
    }
  }

  lemma FirstGroups()
    ensures Hex([0xf8, 0x1d]) == "f81d" && Hex([0x4f, 0xae]) == "4fae" && Hex([0x7d, 0xec]) == "7dec"
    ensures Hex([0x11, 0xd0]) == "11d0"
  {
    hide Hex;
    TwoBytes(0xf8, 0x1d);
    TwoBytes(0x4f, 0xae);
    TwoBytes(0x7d, 0xec);
    TwoBytes(0x11, 0xd0);
  }

  lemma LastGroups()
    ensures Hex([0xa7, 0x65]) == "a765" && Hex([0x00, 0xa0]) == "00a0" && Hex([0xc9, 0x1e]) == "c91e"
    ensures Hex([0x6b, 0xf6]) == "6bf6"
  {
    hide Hex;
    TwoBytes(0xa7, 0x65);
    TwoBytes(0x00, 0xa0);
    TwoBytes(0xc9, 0x1e);
    TwoBytes(0x6b, 0xf6);
  }

  lemma Groups()
    ensures Hex(EXAMPLE[..4]) == "f81d" + "4fae" && Hex(EXAMPLE[4..6]) == "7dec" && Hex(EXAMPLE[6..8]) == "11d0"
    ensures Hex(EXAMPLE[8..10]) == "a765" && Hex(EXAMPLE[10..]) == "00a0" + ("c91e" + "6bf6")
  {
    hide Hex;
    FirstGroups();
    LastGroups();
    assert EXAMPLE[..4] == [0xf8, 0x1d] + [0x4f, 0xae];
    HexConcat([0xf8, 0x1d], [0x4f, 0xae]);
    assert EXAMPLE[4..6] == [0x7d, 0xec] && EXAMPLE[6..8] == [0x11, 0xd0] && EXAMPLE[8..10] == [0xa7, 0x65];
    assert EXAMPLE[10..] == [0x00, 0xa0] + ([0xc9, 0x1e] + [0x6b, 0xf6]);
    HexConcat([0x00, 0xa0], [0xc9, 0x1e] + [0x6b, 0xf6]);
    HexConcat([0xc9, 0x1e], [0x6b, 0xf6]);
  }

  /** It is printed and read as the text given there: f81d4fae-7dec-11d0-a765-00a0c91e6bf6. */
  lemma ExampleText()
    ensures var last := "00a0" + ("c91e" + "6bf6");
      var text := "f81d" + "4fae" + "-" + "7dec" + "-" + "11d0" + "-" + "a765" + "-" + last;
      Canonical(EXAMPLE) == text && Parse(text) == Some(EXAMPLE)
  {
    hide Parse, Hex;
    PrintThenRead(EXAMPLE);
    Groups();
  }

  /** Version 4 and the variant of RFC 4122 show up in the text where section 4.1 puts them. */
  lemma Version4Text(random: seq<byte>)
    requires |random| == 16
    ensures var s := Canonical(Version4(random));
      s[14] == '4' && s[19] in "89ab"
  {}
}
