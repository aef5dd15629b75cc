/**
 * A double array in a typed BLOB, compressed by QLIN16 or QLOG16: what blob_unpack returns for it is
 * the quantizer's image of the array, so the quantizer's error bound holds for stored arrays.
 */
module QuantizedBlob {
  import opened Bytes
  import opened Wrappers
  import opened TypedBlob
  import Quantizer

  /**
   * How doubles and floats stand in memory. Nothing is assumed of the two directions but the sizes:
   * whether a number survives is asked for each number.
   */
  datatype Memory = Memory(
    toDouble: seq<byte> -> Quantizer.Double, fromDouble: Quantizer.Double -> seq<byte>,
    toFloat: seq<byte> -> real, fromFloat: real -> seq<byte>)
  {
    ghost predicate Valid() {
      (forall d :: |fromDouble(d)| == 8) && (forall r :: |fromFloat(r)| == 4)
    }

    predicate KeepsDouble(d: Quantizer.Double) { toDouble(fromDouble(d)) == d }

    predicate KeepsFloat(r: real) { toFloat(fromFloat(r)) == r }
  }

  /** The doubles in an array's data. */
  function DoublesIn(data: seq<byte>, m: Memory): (s: seq<Quantizer.Double>)
    ensures |s| == |data| / 8
  {
    seq(|data| / 8, i requires 0 <= i < |data| / 8 => m.toDouble(data[8 * i..8 * i + 8]))
  }

  /** The data of an array of these doubles. */
  function DataOf(s: seq<Quantizer.Double>, m: Memory): seq<byte> {
    if s == [] then [] else DataOf(s[..|s| - 1], m) + m.fromDouble(s[|s| - 1])
  }

  lemma {:induction false} DataSize(s: seq<Quantizer.Double>, m: Memory)
    requires m.Valid()
    ensures |DataOf(s, m)| == 8 * |s|
  {
    if s != [] {
      DataSize(s[..|s| - 1], m);
    }
  }

  lemma DoubleAt(data: seq<byte>, m: Memory, i: nat)
    requires 8 * i + 8 <= |data|
    ensures i < |DoublesIn(data, m)| && DoublesIn(data, m)[i] == m.toDouble(data[8 * i..8 * i + 8])
  {}

  lemma {:induction false} DataAt(s: seq<Quantizer.Double>, m: Memory, i: nat)
    requires m.Valid() && i < |s|
    ensures |DataOf(s, m)| == 8 * |s| && DataOf(s, m)[8 * i..8 * i + 8] == m.fromDouble(s[i])
    decreases |s|
  {
    var n := |s| - 1;
    DataSize(s, m);
    DataSize(s[..n], m);
    var less, all := DataOf(s[..n], m), DataOf(s, m);
    assert all == less + m.fromDouble(s[n]);
    if i < n {
      DataAt(s[..n], m, i);
      assert all[8 * i..8 * i + 8] == less[8 * i..8 * i + 8];
    } else {
      assert all[8 * n..8 * n + 8] == m.fromDouble(s[n]);
    }
  }

  /** Doubles that survive are read back. */
  lemma {:induction false} DataRoundTrip(s: seq<Quantizer.Double>, m: Memory)
    requires m.Valid() && forall d <- s :: m.KeepsDouble(d)
    ensures DoublesIn(DataOf(s, m), m) == s
  {
    hide DoublesIn, DataOf;
    DataSize(s, m);
    forall i | 0 <= i < |s| ensures DoublesIn(DataOf(s, m), m)[i] == s[i] {
      DataAt(s, m, i);
      DoubleAt(DataOf(s, m), m, i);
      assert m.KeepsDouble(s[i]);
    }
  }

  // ----- The compressor ------------------------------------------------------------------------

  /** The codes as 16-bit integers. */
  function CodeBytes(codes: seq<int>): (b: seq<byte>)
    ensures |b| == 2 * |codes|
  {
    if codes == [] then []
    else CodeBytes(codes[..|codes| - 1]) + Int16Bytes(codes[|codes| - 1] % 0x1_0000)
  }

  function Codes(s: seq<Quantizer.Double>, mode: Quantizer.Mode): (codes: seq<int>)
    ensures |codes| == |s|
  {
    var offset, scale := Quantizer.Offset(s, mode), Quantizer.Scale(s, mode);
    seq(|s|, i requires 0 <= i < |s| => Quantizer.Code(s[i], mode, offset, scale))
  }

  /** Two floats and the codes; nothing if the quantizer refuses the data. */
  function Pack(a: MxArray, mode: Quantizer.Mode, m: Memory): seq<byte> {
    var s := DoublesIn(a.data, m);
    if a.clsid != DOUBLE_CLASS || Quantizer.Refused(s, mode) then []
    else
      m.fromFloat(Quantizer.Offset(s, mode)) + m.fromFloat(Quantizer.Scale(s, mode)) + CodeBytes(Codes(s, mode))
  }

  /** One double for each code; for codes that mean nothing the memory keeps what it had. */
  function Unpacked(packed: seq<byte>, count: nat, mode: Quantizer.Mode, m: Memory): (s: seq<Quantizer.Double>)
    requires 8 + 2 * count <= |packed|
    ensures |s| == count
  {
    var offset, scale := m.toFloat(packed[..4]), m.toFloat(packed[4..8]);
    seq(count, i requires 0 <= i < count =>
      Quantizer.Decoded(UInt16At(packed, 8 + 2 * i), mode, offset, scale, Quantizer.PosZero))
  }

  function QuantizerCodec(mode: Quantizer.Mode, m: Memory): Codec {
    Codec(true,
          (a: MxArray) => Pack(a, mode, m),
          (packed: seq<byte>, size: nat, element: nat) =>
            if element == 8 && size % 8 == 0 && 8 + 2 * (size / 8) <= |packed|
            then Some(DataOf(Unpacked(packed, size / 8, mode, m), m)) else None)
  }

  lemma PackSize(a: MxArray, mode: Quantizer.Mode, m: Memory)
    requires m.Valid()
    ensures Pack(a, mode, m) != [] ==> |Pack(a, mode, m)| == QuantizedSize(|a.data| / 8)
  {}

  /** The contract blob_pack relies on. */
  lemma QuantizerLawful(mode: Quantizer.Mode, m: Memory)
    requires m.Valid()
    ensures Lawful(QuantizerCodec(mode, m))
  {
    hide Pack, Product;
    var c := QuantizerCodec(mode, m);
    forall x: MxArray | x.WellFormed() && c.pack(x) != [] ensures |c.pack(x)| >= 2 * Product(x.dims) {
      PackSize(x, mode, m);
      PackedClass(x, mode, m);
    }
  }

  lemma PackedClass(a: MxArray, mode: Quantizer.Mode, m: Memory)
    requires a.WellFormed() && Pack(a, mode, m) != []
    ensures a.clsid == DOUBLE_CLASS && |a.data| == 8 * Product(a.dims)
  {}

  // ----- What comes back -----------------------------------------------------------------------

  lemma {:induction false} CodeRead(codes: seq<int>, head: seq<byte>, i: nat)
    requires i < |codes| && 0 <= codes[i] < 0x1_0000
    ensures UInt16At(head + CodeBytes(codes), |head| + 2 * i) == codes[i]
    decreases |codes|
  {
    hide UInt16At, Int16Bytes;
    var n := |codes| - 1;
    var less, b := head + CodeBytes(codes[..n]), head + CodeBytes(codes);
    assert b == less + Int16Bytes(codes[n] % 0x1_0000);
    if i < n {
      CodeRead(codes[..n], head, i);
      SameUInt16(less, b, |head| + 2 * i);
    } else {
      assert b[|less|..|less| + 2] == Int16Bytes(codes[n] % 0x1_0000);
      ReadInt16(b, |less|, codes[n]);
    }
  }

  lemma SameUInt16(b: seq<byte>, c: seq<byte>, at: nat)
    requires at + 2 <= |b| <= |c| && b == c[..|b|]
    ensures UInt16At(b, at) == UInt16At(c, at)
  {
    assert b[at] == c[at] && b[at + 1] == c[at + 1];
  }

  /**
   * The packed bytes: offset and scale as floats, then the code of each element in two bytes. Only
   * double arrays are packed, and in logarithmic mode only without negative values.
   */
  lemma PackedLayout(a: MxArray, mode: Quantizer.Mode, m: Memory)
    requires m.Valid() && mode.Lawful() && Quantizer.Canonical(DoublesIn(a.data, m))
    ensures var s, packed := DoublesIn(a.data, m), Pack(a, mode, m);
      && (packed == [] <==>
          a.clsid != 6 || (mode.Logarithmic? && exists x: real :: x < 0.0 && Quantizer.Finite(x) in s))
      && (packed != [] ==>
          && |packed| == 8 + 2 * |s|
          && packed[..4] == m.fromFloat(Quantizer.Offset(s, mode))
          && packed[4..8] == m.fromFloat(Quantizer.Scale(s, mode))
          && forall i :: 0 <= i < |s| ==>
               UInt16At(packed, 8 + 2 * i)
               == Quantizer.Code(s[i], mode, Quantizer.Offset(s, mode), Quantizer.Scale(s, mode)))
  {
    hide DoublesIn, Quantizer.Code, Quantizer.Offset, Quantizer.Scale, Quantizer.Refused, UInt16At, CodeBytes;
    hide Quantizer.Mode.Lawful, Quantizer.Canonical;
    var s, packed := DoublesIn(a.data, m), Pack(a, mode, m);
    Quantizer.RefusedExactly(s, mode);
    if packed != [] {
      var head := m.fromFloat(Quantizer.Offset(s, mode)) + m.fromFloat(Quantizer.Scale(s, mode));
      assert packed == head + CodeBytes(Codes(s, mode));
      forall i | 0 <= i < |s|
        ensures UInt16At(packed, 8 + 2 * i)
                == Quantizer.Code(s[i], mode, Quantizer.Offset(s, mode), Quantizer.Scale(s, mode))
      {
        Quantizer.CodeInRange(s, mode, i);
        CodeRead(Codes(s, mode), head, i);
      }
    }
  }

  /** Unpacking what was packed gives the quantizer's image, if the two stored numbers survive. */
  lemma ImageUnpacked(a: MxArray, mode: Quantizer.Mode, m: Memory)
    requires m.Valid() && a.WellFormed() && a.clsid == DOUBLE_CLASS && mode.Lawful()
    requires var s := DoublesIn(a.data, m);
      && Quantizer.Canonical(s) && !Quantizer.Refused(s, mode)
      && m.KeepsFloat(Quantizer.Offset(s, mode)) && m.KeepsFloat(Quantizer.Scale(s, mode))
    ensures var s, packed := DoublesIn(a.data, m), Pack(a, mode, m);
      8 + 2 * |s| <= |packed| && Unpacked(packed, |s|, mode, m) == Quantizer.Image(s, mode)
  {
    hide Quantizer.Decoded, Quantizer.Code, Quantizer.Offset, Quantizer.Scale, Quantizer.Refused, Quantizer.Image;
    hide Quantizer.Mode.Lawful, Quantizer.Canonical, UInt16At, Product, ElementSize;
    var s, packed := DoublesIn(a.data, m), Pack(a, mode, m);
    var offset, scale := Quantizer.Offset(s, mode), Quantizer.Scale(s, mode);
    var head := m.fromFloat(offset) + m.fromFloat(scale);
    assert packed == head + CodeBytes(Codes(s, mode));
    assert packed[..4] == m.fromFloat(offset) && packed[4..8] == m.fromFloat(scale);
    forall i | 0 <= i < |s| ensures Unpacked(packed, |s|, mode, m)[i] == Quantizer.Image(s, mode)[i] {
      Quantizer.CodeInRange(s, mode, i);
      CodeRead(Codes(s, mode), head, i);
      Quantizer.MemoryIrrelevant(s, mode, i, Quantizer.PosZero);
    }
  }

  /**
   * A stored double array comes back with its class and dimensions, and its data are those of the
   * quantizer's image if they were stored compressed, and unchanged otherwise.
   */
  lemma {:induction false} StoredImage(blob: seq<byte>, a: MxArray, codecs: seq<byte> -> Codec, name: seq<byte>,
                                       globalLevel: int, streamer: Streamer, mode: Quantizer.Mode, m: Memory)
    requires m.Valid() && mode.Lawful() && codecs(name) == QuantizerCodec(mode, m)
    requires Environment(Plain(a), false, streamer, name) && a.clsid == DOUBLE_CLASS && a.data != []
    requires PackedAs(blob, Plain(a), a, codecs(name), name, globalLevel) && |blob| <= MAX_BLOB_SIZE
    requires var s := DoublesIn(a.data, m);
      && Quantizer.Canonical(s)
      && m.KeepsFloat(Quantizer.Offset(s, mode)) && m.KeepsFloat(Quantizer.Scale(s, mode))
    ensures Readable(blob)
    ensures var data := if Compresses(a, globalLevel, Pack(a, mode, m))
                        then DataOf(Quantizer.Image(DoublesIn(a.data, m), mode), m) else a.data;
      Decode(blob, codecs, streamer) == (MSG_NOERROR, Some(Plain(a.(data := data))))
  {
    assert a.WellFormed() && |name| < 12 && Flat(Plain(a), false, streamer) == Some(a);
    hide *;
    QuantizerLawful(mode, m);
    StoredDims(blob, a, codecs(name), name, globalLevel);
    if Compresses(a, globalLevel, Pack(a, mode, m)) {
      CompressedBlob(blob, a, codecs, name, globalLevel, streamer, mode, m);
      InflatedImage(a, mode, m, globalLevel);
    } else {
      ThisCodec(a, mode, m);
      RoundTrip(blob, Plain(a), a, codecs, name, globalLevel, false, streamer);
    }
  }

  lemma ThisCodec(a: MxArray, mode: Quantizer.Mode, m: Memory)
    ensures QuantizerCodec(mode, m).pack(a) == Pack(a, mode, m)
  {}

  lemma {:induction false} CompressedBlob(blob: seq<byte>, a: MxArray, codecs: seq<byte> -> Codec, name: seq<byte>,
                                          globalLevel: int, streamer: Streamer, mode: Quantizer.Mode, m: Memory)
    requires codecs(name) == QuantizerCodec(mode, m) && Environment(Plain(a), false, streamer, name)
    requires PackedAs(blob, Plain(a), a, codecs(name), name, globalLevel)
    requires Compresses(a, globalLevel, Pack(a, mode, m))
    ensures Readable(blob)
    ensures var (code, content) := Inflated(a, codecs(name));
      code == MSG_NOERROR && content.Some? ==>
        Decode(blob, codecs, streamer) == (MSG_NOERROR, Some(Plain(content.value)))
  {
    assert 0 < ElementSize(a.clsid) && 0 < a.clsid < 16;
    hide Readable, ValidMagic, DecodeArray, Reread, Product, ElementSize, Header, Inflated;
    DecodeCompressed(blob, a.clsid, a, name, codecs);
  }

  lemma {:induction false} InflatedImage(a: MxArray, mode: Quantizer.Mode, m: Memory, globalLevel: int)
    requires m.Valid() && mode.Lawful() && a.WellFormed() && a.clsid == DOUBLE_CLASS && Reread(a.dims) == a.dims
    requires Compresses(a, globalLevel, Pack(a, mode, m))
    requires var s := DoublesIn(a.data, m);
      && Quantizer.Canonical(s)
      && m.KeepsFloat(Quantizer.Offset(s, mode)) && m.KeepsFloat(Quantizer.Scale(s, mode))
    ensures Inflated(a, QuantizerCodec(mode, m)) ==
      (MSG_NOERROR, Some(a.(data := DataOf(Quantizer.Image(DoublesIn(a.data, m), mode), m))))
  {
    hide *;
    DoubleSize(a);
    NotRefused(a, mode, m, globalLevel);
    ImageUnpacked(a, mode, m);
    UnpackIs(Pack(a, mode, m), |a.data|, mode, m);
    ThisCodec(a, mode, m);
    InflatedWith(a, QuantizerCodec(mode, m), DataOf(Quantizer.Image(DoublesIn(a.data, m), mode), m));
  }

  lemma DoubleSize(a: MxArray)
    requires a.WellFormed() && a.clsid == DOUBLE_CLASS
    ensures ElementSize(a.clsid) == 8 && |a.data| % 8 == 0
  {
    hide Product;
  }

  lemma InflatedWith(a: MxArray, codec: Codec, data: seq<byte>)
    requires a.WellFormed() && Reread(a.dims) == a.dims
    requires codec.unpack(codec.pack(a), |a.data|, ElementSize(a.clsid)) == Some(data)
    ensures Inflated(a, codec) == (MSG_NOERROR, Some(a.(data := data)))
  {
    hide Reread, Product, ElementSize;
  }

  lemma UnpackIs(packed: seq<byte>, size: nat, mode: Quantizer.Mode, m: Memory)
    requires size % 8 == 0 && 8 + 2 * (size / 8) <= |packed|
    ensures QuantizerCodec(mode, m).unpack(packed, size, 8) == Some(DataOf(Unpacked(packed, size / 8, mode, m), m))
  {}

  lemma StoredDims(blob: seq<byte>, a: MxArray, codec: Codec, name: seq<byte>, globalLevel: int)
    requires a.WellFormed() && |name| < 12 && Lawful(codec) && a.data != []
    requires PackedAs(blob, Plain(a), a, codec, name, globalLevel) && |blob| <= MAX_BLOB_SIZE
    ensures Reread(a.dims) == a.dims
  {
    hide Reread, DimSurvives, Product, ElementSize, PackedAs;
    StoredDimsSurvive(blob, Plain(a), a, codec, name, globalLevel);
    DimsRoundTrip(a.dims);
  }

  /**
   * So each finite value of a stored array comes back from its quantization level, which lies less than
   * 1/8191 of the range below it, or below its logarithm.
   */
  lemma {:induction false} StoredErrorBound(blob: seq<byte>, a: MxArray, codecs: seq<byte> -> Codec, name: seq<byte>,
                                            globalLevel: int, streamer: Streamer, mode: Quantizer.Mode, m: Memory,
                                            i: nat)
    returns (back: seq<Quantizer.Double>)
    requires m.Valid() && mode.Lawful() && codecs(name) == QuantizerCodec(mode, m)
    requires Environment(Plain(a), false, streamer, name) && a.clsid == DOUBLE_CLASS && a.data != []
    requires PackedAs(blob, Plain(a), a, codecs(name), name, globalLevel) && |blob| <= MAX_BLOB_SIZE
    requires Compresses(a, globalLevel, Pack(a, mode, m))
    requires var s := DoublesIn(a.data, m);
      && Quantizer.Canonical(s)
      && m.KeepsFloat(Quantizer.Offset(s, mode)) && m.KeepsFloat(Quantizer.Scale(s, mode))
      && (forall d <- Quantizer.Image(s, mode) :: m.KeepsDouble(d))
      && i < |s| && s[i].Finite?
    ensures Readable(blob) && Decode(blob, codecs, streamer).1.Some? && Decode(blob, codecs, streamer).1.value.Plain?
    ensures back == DoublesIn(Decode(blob, codecs, streamer).1.value.value.data, m) && i < |back|
    ensures var s := DoublesIn(a.data, m);
      && Quantizer.Limits(s).Some?
      && var (lo, hi) := Quantizer.Limits(s).value;
      var level := Quantizer.Level(s, mode, i);
      && back[i] == Quantizer.FromReal(mode.Back(level))
      && 0.0 <= mode.Forward(s[i].value) - level
      && (lo < hi ==> mode.Forward(s[i].value) - level < (mode.Forward(hi) - mode.Forward(lo)) / 8191.0)
      && (lo == hi ==> mode.Forward(s[i].value) == level)
  {
    hide *;
    var s := DoublesIn(a.data, m);
    NotRefused(a, mode, m, globalLevel);
    StoredImage(blob, a, codecs, name, globalLevel, streamer, mode, m);
    back := Quantizer.Image(s, mode);
    DataRoundTrip(back, m);
    Quantizer.ImageAt(s, mode, i);
    Quantizer.ErrorBound(s, mode, i);
  }

  lemma NotRefused(a: MxArray, mode: Quantizer.Mode, m: Memory, globalLevel: int)
    requires Compresses(a, globalLevel, Pack(a, mode, m))
    ensures !Quantizer.Refused(DoublesIn(a.data, m), mode)
  {}
}
