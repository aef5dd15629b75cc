/**
 * The lossy quantizer of number_compressor.hpp (QLIN16 and QLOG16): doubles become 16-bit codes
 * between the least and the greatest finite nonzero value, with special codes for zeros, infinities
 * and NaN. Arithmetic is exact: rounding, and the storage of offset and scale as float, are left out.
 */
module Quantizer {
  import opened Wrappers

  /** A double; Finite holds a nonzero real. */
  datatype Double = Finite(value: real) | PosZero | NegZero | PosInf | NegInf | NaN

  ghost predicate Canonical(s: seq<Double>) {
    forall i :: 0 <= i < |s| && s[i].Finite? ==> s[i].value != 0.0
  }

  /** The double an exact result stands for: a sum that cancels is +0. */
  function FromReal(r: real): (d: Double) {
    if r == 0.0 then PosZero else Finite(r)
  }

  /** Linear quantization, or logarithmic quantization with these two functions. */
  datatype Mode = Linear | Logarithmic(log: real -> real, exp: real -> real) {
    function Forward(x: real): real {
      if Linear? then x else log(x)
    }

    function Back(y: real): real {
      if Linear? then y else exp(y)
    }

    /** Logarithm and exponential are monotone inverses of each other. */
    ghost predicate Lawful() {
      Logarithmic? ==>
        && (forall x: real {:trigger exp(log(x))} :: x > 0.0 ==> exp(log(x)) == x)
        && (forall y: real {:trigger exp(y)} :: exp(y) > 0.0)
        && (forall y: real {:trigger log(exp(y))} :: log(exp(y)) == y)
        && (forall x: real, y: real :: 0.0 < x < y ==> log(x) < log(y))
        && (forall x: real, y: real :: x < y ==> exp(x) < exp(y))
    }

    /** Forward applies to x. */
    ghost predicate Accepts(x: real) { Linear? || x > 0.0 }
  }

  const TOP := 0xFFF8

  /** Compressed data: two numbers, then one 16-bit code per element. */
  datatype Quantized = Quantized(offset: real, scale: real, codes: seq<nat>)

  /** Least and greatest finite nonzero value, if there is one. */
  function Limits(s: seq<Double>): Option<(real, real)> {
    if s == [] then None else
    var limits := Limits(s[..|s| - 1]);
    match s[|s| - 1]
    case Finite(x) =>
      (match limits
       case None => Some((x, x))
       case Some((lo, hi)) => Some((if x < lo then x else lo, if x > hi then x else hi)))
    case _ => limits
  }

  /** The logarithmic mode refuses data with a negative value. */
  function Refused(s: seq<Double>, mode: Mode): bool {
    mode.Logarithmic? && match Limits(s) case None => false case Some((lo, _)) => lo < 0.0
  }

  function Offset(s: seq<Double>, mode: Mode): real {
    match Limits(s) case None => 0.0 case Some((lo, _)) => mode.Forward(lo)
  }

  function Scale(s: seq<Double>, mode: Mode): (scale: real)
    ensures scale != 0.0
  {
    match Limits(s)
    case None => 1.0
    case Some((lo, hi)) =>
      var step := (mode.Forward(hi) - mode.Forward(lo)) / TOP as real;
      if step == 0.0 then 1.0 else step
  }

  /** The cast to uint16_t binds before the mask: the low three bits of every code are cleared. */
  function Masked(n: int): int { n - n % 8 }

  function Code(d: Double, mode: Mode, offset: real, scale: real): int
    requires scale != 0.0
  {
    match d
    case Finite(x) => Masked(((mode.Forward(x) - offset) / scale).Floor)
    case PosZero => TOP + 1
    case NegZero => TOP + 2
    case PosInf => TOP + 3
    case NegInf => TOP + 4
    case NaN => TOP + 5
  }

  /** The element stays what it was for the two codes that mean nothing. */
  function Decoded(code: int, mode: Mode, offset: real, scale: real, before: Double): Double {
    if code > TOP then
      match code - TOP
      case 1 => PosZero
      case 2 => NegZero
      case 3 => PosInf
      case 4 => NegInf
      case 5 => NaN
      case _ => before
    else
      FromReal(mode.Back(LevelOf(code, offset, scale)))
  }

  function LevelOf(code: int, offset: real, scale: real): real { code as real * scale + offset }

  /** What compressing and decompressing makes of each element. */
  function Image(s: seq<Double>, mode: Mode): (t: seq<Double>)
    ensures |t| == |s|
  {
    var offset, scale := Offset(s, mode), Scale(s, mode);
    seq(|s|, i requires 0 <= i < |s| => Decoded(Code(s[i], mode, offset, scale), mode, offset, scale, s[i]))
  }

  class NumberCompressor {
    var rdata: array<Double>
    var isDoubleType: bool
    var cdata: Option<Quantized>

    constructor (data: array<Double>, isDouble: bool)
      ensures rdata == data && isDoubleType == isDouble && cdata == None
    {
      rdata, isDoubleType, cdata := data, isDouble, None;
    }

    /** The search for the data limits, with its two "is set" flags. */
    method SeekLimits() returns (isSet: bool, lo: real, hi: real)
      ensures isSet == Limits(rdata[..]).Some?
      ensures isSet ==> Limits(rdata[..]) == Some((lo, hi))
      ensures !isSet ==> lo == hi == 0.0
    {
      var minValSet, maxValSet := false, false;
      lo, hi := 0.0, 0.0;
      for i := 0 to rdata.Length
        invariant minValSet == maxValSet == Limits(rdata[..i]).Some?
        invariant minValSet ==> Limits(rdata[..i]) == Some((lo, hi))
        invariant !minValSet ==> lo == hi == 0.0
      {
        assert rdata[..i + 1][..i] == rdata[..i];
        if rdata[i].Finite? {
          if !minValSet || rdata[i].value < lo {
            lo := rdata[i].value;
            minValSet := true;
          }
          if !maxValSet || rdata[i].value > hi {
            hi := rdata[i].value;
            maxValSet := true;
          }
        }
      }
      assert rdata[..rdata.Length] == rdata[..];
      isSet := minValSet;
    }

    method LinlogQuantizerCompress(mode: Mode) returns (status: bool)
      requires mode.Lawful() && Canonical(rdata[..]) && cdata == None
      modifies this`cdata
      ensures status <==> isDoubleType && !(mode.Logarithmic? && exists x: real :: x < 0.0 && Finite(x) in rdata[..])
      ensures !status ==> cdata == None
      ensures status ==> cdata.Some? && var q := cdata.value;
        && q.offset == Offset(rdata[..], mode) && q.scale == Scale(rdata[..], mode)
        && |q.codes| == rdata.Length
        && forall i :: 0 <= i < rdata.Length ==> q.codes[i] == Code(rdata[i], mode, q.offset, q.scale)
    {
      if !isDoubleType {
        return false;
      }
      var isSet, lo, hi := SeekLimits();
      RefusedExactly(rdata[..], mode);
      if mode.Logarithmic? && lo < 0.0 {
        return false;
      }
      var offset, scale := 0.0, 1.0;
      if isSet {
        offset := mode.Forward(lo);
        scale := (mode.Forward(hi) - offset) / TOP as real;
        if scale == 0.0 {
          scale := 1.0;
        }
      }
      var codes: seq<nat> := [];
      for i := 0 to rdata.Length
        invariant |codes| == i
        invariant forall j :: 0 <= j < i ==> codes[j] == Code(rdata[j], mode, offset, scale)
      {
        CodeInRange(rdata[..], mode, i);
        var code := Code(rdata[i], mode, offset, scale);
        codes := codes + [code];
      }
      cdata := Some(Quantized(offset, scale, codes));
      status := true;
    }

    /** In place; isDoubleType is the flag that unpack has just cleared. */
    method LinlogQuantizerDecompress(mode: Mode) returns (status: bool)
      requires cdata.Some? && |cdata.value.codes| == rdata.Length
      modifies rdata
      ensures status == !isDoubleType
      ensures !status ==> rdata[..] == old(rdata[..])
      ensures status ==> var q := cdata.value; forall i :: 0 <= i < rdata.Length ==>
        rdata[i] == Decoded(q.codes[i], mode, q.offset, q.scale, old(rdata[i]))
    {
      if isDoubleType {
        return false;
      }
      hide LevelOf, FromReal, Mode.Back;
      var q := cdata.value;
      for i := 0 to rdata.Length
        invariant forall j :: 0 <= j < i ==> rdata[j] == Decoded(q.codes[j], mode, q.offset, q.scale, old(rdata[j]))
        invariant forall j :: i <= j < rdata.Length ==> rdata[j] == old(rdata[j])
      {
        if q.codes[i] > TOP {
          match q.codes[i] - TOP {
            case 1 => rdata[i] := PosZero;
            case 2 => rdata[i] := NegZero;
            case 3 => rdata[i] := PosInf;
            case 4 => rdata[i] := NegInf;
            case 5 => rdata[i] := NaN;
            case _ =>
          }
        } else {
          rdata[i] := FromReal(mode.Back(LevelOf(q.codes[i], q.offset, q.scale)));
        }
        assert rdata[i] == Decoded(q.codes[i], mode, q.offset, q.scale, old(rdata[i]));
      }
      status := true;
    }
  }

  // ----- Limits ----------------------------------------------------------------------------

  /** lo and hi are values of s, and every finite value lies between them. */
  ghost predicate AreLimits(s: seq<Double>, lo: real, hi: real) {
    && Finite(lo) in s && Finite(hi) in s
    && forall x: real :: Finite(x) in s ==> lo <= x <= hi
  }

  lemma {:induction false} LimitsBound(s: seq<Double>)
    ensures Limits(s).None? <==> forall x: real :: Finite(x) !in s
    ensures Limits(s).Some? ==> AreLimits(s, Limits(s).value.0, Limits(s).value.1)
  {
    if s != [] {
      var n := |s| - 1;
      LimitsBound(s[..n]);
      assert s == s[..n] + [s[n]];
      assert forall d :: d in s <==> d in s[..n] || d == s[n];
    }
  }

  lemma LimitsUnique(s: seq<Double>, lo: real, hi: real)
    requires AreLimits(s, lo, hi)
    ensures Limits(s) == Some((lo, hi))
  {
    LimitsBound(s);
  }

  /** Data are refused for a negative value in logarithmic mode, and for nothing else. */
  lemma RefusedExactly(s: seq<Double>, mode: Mode)
    ensures Refused(s, mode) <==> mode.Logarithmic? && exists x: real :: x < 0.0 && Finite(x) in s
  {
    LimitsBound(s);
  }

  /** The codes of the special values, and what they and the two codes that mean nothing decode to. */
  lemma SpecialCodes(mode: Mode, offset: real, scale: real, before: Double)
    requires scale != 0.0
    ensures Code(PosZero, mode, offset, scale) == 0xFFF9 && Code(NegZero, mode, offset, scale) == 0xFFFA
    ensures Code(PosInf, mode, offset, scale) == 0xFFFB && Code(NegInf, mode, offset, scale) == 0xFFFC
    ensures Code(NaN, mode, offset, scale) == 0xFFFD
    ensures forall d: Double :: !d.Finite? ==> Decoded(Code(d, mode, offset, scale), mode, offset, scale, before) == d
    ensures forall code {:trigger Decoded(code, mode, offset, scale, before)} ::
      code > 0xFFFD ==> Decoded(code, mode, offset, scale, before) == before
    ensures FromReal(0.0) == PosZero && forall r: real :: r != 0.0 ==> FromReal(r) == Finite(r)
  {}

  // ----- One value ---------------------------------------------------------------------------

  /** Dividing a distance by the step puts it on the scale from 0 to TOP. */
  lemma Ratio(a: real, step: real)
    requires step > 0.0 && 0.0 <= a <= TOP as real * step
    ensures 0.0 <= a / step <= TOP as real && a / step * step == a
  {
    assert a / step * step == a;
  }

  /** The step between the forward images of the limits. */
  lemma {:induction false} ScaleFacts(s: seq<Double>, mode: Mode)
    requires mode.Lawful() && Canonical(s) && !Refused(s, mode) && Limits(s).Some?
    ensures var (lo, hi) := Limits(s).value;
      var span := mode.Forward(hi) - mode.Forward(lo);
      && mode.Accepts(lo) && lo <= hi && span >= 0.0 && Offset(s, mode) == mode.Forward(lo)
      && (span == 0.0 <==> lo == hi)
      && (span == 0.0 ==> Scale(s, mode) == 1.0)
      && (span > 0.0 ==> Scale(s, mode) > 0.0 && TOP as real * Scale(s, mode) == span)
  {
    LimitsBound(s);
    var (lo, hi) := Limits(s).value;
    assert Finite(lo) in s;
    var span := mode.Forward(hi) - mode.Forward(lo);
    if span > 0.0 {
      assert span / TOP as real * TOP as real == span;
    }
  }

  /**
   * The two stored numbers: the offset is the least value, and 0xFFF8 times the scale is the range; in
   * logarithmic mode those of the logarithms. Without a range the scale is 1.
   */
  lemma OffsetAndScale(s: seq<Double>, mode: Mode)
    requires mode.Lawful() && Canonical(s) && !Refused(s, mode)
    ensures Limits(s).None? ==> Offset(s, mode) == 0.0 && Scale(s, mode) == 1.0
    ensures Limits(s).Some? ==>
      var (lo, hi), offset, scale := Limits(s).value, Offset(s, mode), Scale(s, mode);
      && lo <= hi && (lo == hi ==> scale == 1.0)
      && (mode.Linear? ==> offset == lo && (lo < hi ==> 65528.0 * scale == hi - lo))
      && (mode.Logarithmic? ==> offset == mode.log(lo) && (lo < hi ==> 65528.0 * scale == mode.log(hi) - mode.log(lo)))
  {
    if Limits(s).Some? {
      ScaleFacts(s, mode);
    }
  }

  /** A finite value lies between the limits, and so does its forward image. */
  lemma Between(s: seq<Double>, mode: Mode, x: real)
    requires mode.Lawful() && Canonical(s) && !Refused(s, mode) && Finite(x) in s
    ensures Limits(s).Some? && mode.Accepts(x)
    ensures var (lo, hi) := Limits(s).value;
      mode.Accepts(lo) && lo <= x <= hi && mode.Forward(lo) <= mode.Forward(x) <= mode.Forward(hi)
  {
    LimitsBound(s);
    ScaleFacts(s, mode);
  }

  /** No finite value gets a code above 0xFFF8, and every code fits 16 bits. */
  lemma CodeInRange(s: seq<Double>, mode: Mode, i: nat)
    requires mode.Lawful() && Canonical(s) && !Refused(s, mode) && i < |s|
    ensures var code := Code(s[i], mode, Offset(s, mode), Scale(s, mode));
      && 0 <= code <= TOP + 5
      && (code <= TOP <==> s[i].Finite?)
      && (s[i].Finite? ==> code % 8 == 0)
  {
    if s[i].Finite? {
      var x := s[i].value;
      assert Finite(x) in s;
      Between(s, mode, x);
      ScaleFacts(s, mode);
      hide Limits, Refused, Scale, Offset, Masked, Canonical, Mode.Forward, Mode.Lawful, Mode.Accepts;
      var a := mode.Forward(x) - Offset(s, mode);
      if a == 0.0 {
        CodeOfDistance(0.0, 1.0);
        assert a / Scale(s, mode) == 0.0 / 1.0;
      } else {
        CodeOfDistance(a, Scale(s, mode));
      }
    }
  }

  lemma CodeOfDistance(a: real, scale: real)
    requires scale > 0.0 && 0.0 <= a <= TOP as real * scale
    ensures var code := Masked((a / scale).Floor); 0 <= code <= TOP && code % 8 == 0
  {
    Ratio(a, scale);
    var n := (a / scale).Floor;
    assert 0 <= n <= TOP;
  }

  /** The forward value that a finite element decodes to. */
  function Level(s: seq<Double>, mode: Mode, i: nat): real
    requires i < |s|
  {
    LevelOf(Code(s[i], mode, Offset(s, mode), Scale(s, mode)), Offset(s, mode), Scale(s, mode))
  }

  /**
   * The error bound, on the value itself or on its logarithm: less than one of 8191 steps between
   * the least and the greatest value, never upwards, and none at all if those are equal.
   */
  lemma {:induction false} ErrorBound(s: seq<Double>, mode: Mode, i: nat)
    requires mode.Lawful() && Canonical(s) && !Refused(s, mode) && i < |s| && s[i].Finite?
    ensures Limits(s).Some?
    ensures var (lo, hi) := Limits(s).value;
      var error := mode.Forward(s[i].value) - Level(s, mode, i);
      && mode.Forward(lo) <= Level(s, mode, i)
      && 0.0 <= error
      && (lo < hi ==> error < (mode.Forward(hi) - mode.Forward(lo)) / 8191.0)
      && (lo == hi ==> error == 0.0)
  {
    var x, offset, scale := s[i].value, Offset(s, mode), Scale(s, mode);
    assert Finite(x) in s;
    Between(s, mode, x);
    ScaleFacts(s, mode);
    LevelIs(s, mode, i);
    hide Limits, Refused, Scale, Offset, Level, Rounded, Mode.Forward;
    if Limits(s).value.0 < Limits(s).value.1 {
      LevelBound(mode.Forward(x) - offset, scale);
    } else {
      CodeReproduced(0.0, 0, scale);
    }
  }

  lemma LevelIs(s: seq<Double>, mode: Mode, i: nat)
    requires i < |s| && s[i].Finite?
    ensures Level(s, mode, i)
            == Rounded(mode.Forward(s[i].value) - Offset(s, mode), Scale(s, mode)) + Offset(s, mode)
  {}

  function Rounded(a: real, scale: real): real
    requires scale != 0.0
  {
    Masked((a / scale).Floor) as real * scale
  }

  /** A distance in steps, rounded down to a multiple of eight steps. */
  lemma LevelBound(a: real, scale: real)
    requires scale > 0.0 && a >= 0.0
    ensures 0.0 <= Rounded(a, scale) <= a < Rounded(a, scale) + 8.0 * scale
  {
    var q := a / scale;
    assert q * scale == a && q >= 0.0;
    var code := Masked(q.Floor) as real;
    assert Rounded(a, scale) == code * scale;
    MaskedFloor(q);
    Steps(a, q, code, scale);
  }

  lemma MaskedFloor(q: real)
    requires q >= 0.0
    ensures 0.0 <= Masked(q.Floor) as real <= q < Masked(q.Floor) as real + 8.0
  {}

  lemma Steps(a: real, q: real, code: real, scale: real)
    requires scale > 0.0 && q * scale == a && 0.0 <= code <= q < code + 8.0
    ensures 0.0 <= code * scale <= a < code * scale + 8.0 * scale
  {
    var r := q - code;
    assert a - code * scale == r * scale;
    assert 0.0 <= r * scale;
    assert r * scale < 8.0 * scale;
  }

  // ----- The whole array ------------------------------------------------------------------------

  /** Zeros, infinities and NaN come back as themselves; a finite value as the value of its level. */
  lemma ImageAt(s: seq<Double>, mode: Mode, i: nat)
    requires mode.Lawful() && Canonical(s) && !Refused(s, mode) && i < |s|
    ensures Image(s, mode)[i] == if s[i].Finite? then FromReal(mode.Back(Level(s, mode, i))) else s[i]
  {
    hide Limits, Refused, Scale, Offset, Masked, FromReal, LevelOf, Mode.Forward, Mode.Back, Mode.Lawful;
    CodeInRange(s, mode, i);
    var offset, scale := Offset(s, mode), Scale(s, mode);
    assert Image(s, mode)[i] == Decoded(Code(s[i], mode, offset, scale), mode, offset, scale, s[i]);
  }

  /**
   * In terms of the values themselves: a finite x comes back as a v that is at most x, and less than
   * 1/8191 of the range below it; in logarithmic mode the same is true of the logarithms.
   */
  lemma {:induction false} ValueErrorBound(s: seq<Double>, mode: Mode, i: nat) returns (v: real)
    requires mode.Lawful() && Canonical(s) && !Refused(s, mode) && i < |s| && s[i].Finite?
    ensures Image(s, mode)[i] == FromReal(v)
    ensures Limits(s).Some?
    ensures var (lo, hi), x := Limits(s).value, s[i].value;
      && lo <= v <= x
      && (mode.Linear? && lo == hi ==> v == x)
      && (mode.Linear? && lo < hi ==> x - v < (hi - lo) / 8191.0)
      && (mode.Logarithmic? ==> v > 0.0)
      && (mode.Logarithmic? && lo == hi ==> mode.log(v) == mode.log(x))
      && (mode.Logarithmic? && lo < hi ==> mode.log(x) - mode.log(v) < (mode.log(hi) - mode.log(lo)) / 8191.0)
  {
    hide Limits, Refused, Scale, Offset, Level, Image, Canonical, FromReal;
    ImageAt(s, mode, i);
    ErrorBound(s, mode, i);
    WithinLimits(s, mode, i);
    assert Finite(s[i].value) in s;
    Between(s, mode, s[i].value);
    v := mode.Back(Level(s, mode, i));
    ForwardBack(mode, Level(s, mode, i));
    BackForward(mode, s[i].value);
    BackMonotone(mode, Level(s, mode, i), mode.Forward(s[i].value));
  }

  lemma BackForward(mode: Mode, x: real)
    requires mode.Lawful() && mode.Accepts(x)
    ensures mode.Back(mode.Forward(x)) == x
  {}

  lemma ForwardBack(mode: Mode, y: real)
    requires mode.Lawful()
    ensures mode.Forward(mode.Back(y)) == y && mode.Accepts(mode.Back(y))
  {}

  lemma ForwardMonotone(mode: Mode, x: real, y: real)
    requires mode.Lawful() && mode.Accepts(x) && x <= y
    ensures mode.Forward(x) <= mode.Forward(y)
  {}

  lemma BackMonotone(mode: Mode, y: real, z: real)
    requires mode.Lawful() && y <= z
    ensures mode.Back(y) <= mode.Back(z)
  {}

  /** The least and the greatest value decode exactly. */
  lemma {:induction false} LimitsDecodeExactly(s: seq<Double>, mode: Mode, i: nat)
    requires mode.Lawful() && Canonical(s) && !Refused(s, mode) && i < |s| && s[i].Finite?
    requires Limits(s).Some? && (s[i].value == Limits(s).value.0 || s[i].value == Limits(s).value.1)
    ensures Level(s, mode, i) == mode.Forward(s[i].value) && Image(s, mode)[i] == s[i]
  {
    hide Limits, Refused, Scale, Offset, Level, Rounded, Image, Mode.Forward, Mode.Back;
    var x, scale := s[i].value, Scale(s, mode);
    ScaleFacts(s, mode);
    LevelIs(s, mode, i);
    var a := mode.Forward(x) - Offset(s, mode);
    if a == 0.0 {
      CodeReproduced(0.0, 0, scale);
    } else {
      CodeReproduced(a, TOP, scale);
    }
    ImageAt(s, mode, i);
    assert Finite(x) in s;
    Between(s, mode, x);
    BackForward(mode, x);
    assert x != 0.0;
  }

  /** Decoded values stay between the limits, and keep their order. */
  lemma OrderPreserved(s: seq<Double>, mode: Mode, i: nat, j: nat)
    requires mode.Lawful() && Canonical(s) && !Refused(s, mode) && i < |s| && j < |s|
    requires s[i].Finite? && s[j].Finite? && s[i].value <= s[j].value
    ensures Level(s, mode, i) <= Level(s, mode, j)
    ensures mode.Back(Level(s, mode, i)) <= mode.Back(Level(s, mode, j))
  {
    var x, y := s[i].value, s[j].value;
    assert Finite(x) in s && Finite(y) in s;
    Between(s, mode, x);
    Between(s, mode, y);
    ForwardMonotone(mode, x, y);
    ScaleFacts(s, mode);
    hide Limits, Refused, Scale, Offset, Level, Rounded, Mode.Forward, Mode.Back;
    LevelIs(s, mode, i);
    LevelIs(s, mode, j);
    RoundedMonotone(mode.Forward(x) - Offset(s, mode), mode.Forward(y) - Offset(s, mode), Scale(s, mode));
    BackMonotone(mode, Level(s, mode, i), Level(s, mode, j));
  }

  lemma RoundedMonotone(a: real, b: real, scale: real)
    requires scale > 0.0 && a <= b
    ensures Rounded(a, scale) <= Rounded(b, scale)
  {
    assert a / scale <= b / scale;
    var m, n := (a / scale).Floor, (b / scale).Floor;
    assert m <= n;
    assert Masked(m) <= Masked(n);
    assert Masked(m) as real * scale <= Masked(n) as real * scale;
  }

  /** The decoded array has the limits of the original: offset and scale are reproduced. */
  lemma ImageLimits(s: seq<Double>, mode: Mode)
    requires mode.Lawful() && Canonical(s) && !Refused(s, mode)
    ensures Limits(Image(s, mode)) == Limits(s) && Canonical(Image(s, mode))
  {
    hide Limits, Refused, Scale, Offset, Level, Rounded, Image, FromReal, Mode.Forward, Mode.Back, Mode.Lawful;
    var t := Image(s, mode);
    LimitsBound(s);
    LimitsBound(t);
    forall i | 0 <= i < |s| && t[i].Finite?
      ensures s[i].Finite? && Limits(s).Some? && Limits(s).value.0 <= t[i].value <= Limits(s).value.1
      ensures t[i].value != 0.0
    {
      ImageAt(s, mode, i);
      FiniteNonzero(mode.Back(Level(s, mode, i)));
      assert Finite(s[i].value) in s;
      WithinLimits(s, mode, i);
    }
    if Limits(s).Some? {
      var (lo, hi) := Limits(s).value;
      var k :| 0 <= k < |s| && s[k] == Finite(lo);
      var l :| 0 <= l < |s| && s[l] == Finite(hi);
      LimitsDecodeExactly(s, mode, k);
      LimitsDecodeExactly(s, mode, l);
      assert t[k] == Finite(lo) && t[l] == Finite(hi);
      LimitsUnique(t, lo, hi);
    }
  }

  lemma FiniteNonzero(r: real)
    ensures FromReal(r).Finite? ==> FromReal(r).value == r && r != 0.0
  {}

  lemma WithinLimits(s: seq<Double>, mode: Mode, i: nat)
    requires mode.Lawful() && Canonical(s) && !Refused(s, mode) && i < |s| && s[i].Finite?
    ensures Limits(s).Some?
    ensures Limits(s).value.0 <= mode.Back(Level(s, mode, i)) <= Limits(s).value.1
  {
    var x := s[i].value;
    assert Finite(x) in s;
    Between(s, mode, x);
    var (lo, hi) := Limits(s).value;
    ErrorBound(s, mode, i);
    hide Limits, Refused, Scale, Offset, Level, Rounded, Image, Mode.Forward, Mode.Back;
    BackMonotone(mode, mode.Forward(lo), Level(s, mode, i));
    BackMonotone(mode, Level(s, mode, i), mode.Forward(hi));
    BackForward(mode, lo);
    LimitsBound(s);
    Between(s, mode, hi);
    BackForward(mode, hi);
  }

  /** A decoded value sits exactly on its level, so it gets the same code again. */
  lemma CodeReproduced(a: real, k: int, scale: real)
    requires scale > 0.0 && k % 8 == 0 && a == k as real * scale
    ensures Rounded(a, scale) == a
  {
    assert a / scale == k as real;
  }

  /** Compressing and decompressing what has been decompressed changes nothing. */
  lemma Idempotent(s: seq<Double>, mode: Mode)
    requires mode.Lawful() && Canonical(s) && !Refused(s, mode)
    ensures !Refused(Image(s, mode), mode) && Canonical(Image(s, mode))
    ensures Image(Image(s, mode), mode) == Image(s, mode)
  {
    var t := Image(s, mode);
    ImageLimits(s, mode);
    forall i | 0 <= i < |s| ensures Image(t, mode)[i] == t[i] {
      IdempotentAt(s, mode, i);
    }
  }

  lemma IdempotentAt(s: seq<Double>, mode: Mode, i: nat)
    requires mode.Lawful() && Canonical(s) && !Refused(s, mode) && i < |s|
    requires Limits(Image(s, mode)) == Limits(s) && Canonical(Image(s, mode))
    ensures Image(Image(s, mode), mode)[i] == Image(s, mode)[i]
  {
    hide *;
    var t, scale := Image(s, mode), Scale(s, mode);
    SameLimits(s, t, mode);
    ImageAt(s, mode, i);
    ImageAt(t, mode, i);
    if t[i].Finite? {
      var y := Level(s, mode, i);
      FiniteNonzero(mode.Back(y));
      ForwardBack(mode, y);
      LevelReproduced(s, mode, i);
      LevelIs(t, mode, i);
    }
  }

  lemma SameLimits(s: seq<Double>, t: seq<Double>, mode: Mode)
    requires Limits(t) == Limits(s)
    ensures Scale(t, mode) == Scale(s, mode) && Offset(t, mode) == Offset(s, mode)
    ensures Refused(t, mode) == Refused(s, mode)
  {}

  lemma LevelReproduced(s: seq<Double>, mode: Mode, i: nat)
    requires mode.Lawful() && Canonical(s) && !Refused(s, mode) && i < |s| && s[i].Finite?
    ensures Rounded(Level(s, mode, i) - Offset(s, mode), Scale(s, mode)) + Offset(s, mode) == Level(s, mode, i)
  {
    CodeInRange(s, mode, i);
    assert Finite(s[i].value) in s;
    Between(s, mode, s[i].value);
    ScaleFacts(s, mode);
    hide *;
    LevelOfCode(s, mode, i);
    CodeReproduced(Level(s, mode, i) - Offset(s, mode), Code(s[i], mode, Offset(s, mode), Scale(s, mode)),
                   Scale(s, mode));
  }

  lemma LevelOfCode(s: seq<Double>, mode: Mode, i: nat)
    requires i < |s|
    ensures Level(s, mode, i) - Offset(s, mode) ==
      Code(s[i], mode, Offset(s, mode), Scale(s, mode)) as real * Scale(s, mode)
  {}

  /** A packed array is unpacked, into memory of any contents, as its image. */
  method PackAndUnpack(data: array<Double>, mode: Mode) returns (status: bool, result: array<Double>)
    requires mode.Lawful() && Canonical(data[..])
    ensures status <==> !(mode.Logarithmic? && exists x: real :: x < 0.0 && Finite(x) in data[..])
    ensures status ==> result[..] == Image(data[..], mode)
    ensures fresh(result) && data[..] == old(data[..])
  {
    result := new Double[data.Length](_ => NaN);
    var packer := new NumberCompressor(data, true);
    RefusedExactly(data[..], mode);
    status := packer.LinlogQuantizerCompress(mode);
    if status {
      var unpacker := new NumberCompressor(result, false);
      unpacker.cdata := packer.cdata;
      var _ := unpacker.LinlogQuantizerDecompress(mode);
      forall i | 0 <= i < data.Length ensures result[i] == Image(data[..], mode)[i] {
        MemoryIrrelevant(data[..], mode, i, NaN);
      }
    }
  }

  /** Every code that is written means something, so the previous contents do not show through. */
  lemma MemoryIrrelevant(s: seq<Double>, mode: Mode, i: nat, before: Double)
    requires mode.Lawful() && Canonical(s) && !Refused(s, mode) && i < |s|
    ensures var offset, scale := Offset(s, mode), Scale(s, mode);
      Decoded(Code(s[i], mode, offset, scale), mode, offset, scale, before) == Image(s, mode)[i]
  {
    hide Limits, Refused, Scale, Offset, Masked, FromReal, LevelOf, Code, Mode.Forward, Mode.Back, Mode.Lawful;
    CodeInRange(s, mode, i);
  }
}
