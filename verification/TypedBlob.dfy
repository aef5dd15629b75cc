/**
 * Typed BLOBs: the packed headers of typed_blobs.hpp and blob_pack / blob_unpack of
 * sql_builtin_functions.hpp. A MATLAB array is stored behind a header that keeps its class and
 * dimensions; a second, longer header marks compressed data, and is used only when that pays.
 * Integers are little-endian; bytes of a C string field behind its terminator stay uninitialized.
 */
module TypedBlob {
  import opened Bytes
  import opened Wrappers

  // ----- Return codes (locale.hpp): success is -1, so "!code" is true for no code in use -------

  const MSG_NOERROR := -1
  const MSG_ERRMEMORY := 18
  const MSG_UNSUPPTBH := 20
  const MSG_BLOBTOOBIG := 23
  const MSG_ERRCOMPRESSION := 24

  const MAX_BLOB_SIZE := 0x7fff_ffff

  // ----- MATLAB arrays ---------------------------------------------------------------------

  const UNKNOWN_CLASS := 0
  const DOUBLE_CLASS := 6
  const UINT8_CLASS := 9

  /** mxGetElementSize of the classes that hold plain data: logical, char, double, single, the integers. */
  function ElementSize(clsid: int): nat {
    match clsid
    case 3 => 1 case 4 => 2 case 6 => 8 case 7 => 4 case 8 => 1 case 9 => 1 case 10 => 2 case 11 => 2
    case 12 => 4 case 13 => 4 case 14 => 8 case 15 => 8
    case _ => 0
  }

  function Product(dims: seq<nat>): nat {
    if dims == [] then 1 else dims[0] * Product(dims[1..])
  }

  /** A numeric, char or logical array: class, dimensions and raw data. */
  datatype MxArray = MxArray(clsid: int, dims: seq<nat>, data: seq<byte>) {
    ghost predicate WellFormed() {
      && ElementSize(clsid) > 0
      && |dims| < 0x8000_0000
      && (forall d <- dims :: d < 0x1_0000_0000_0000_0000)
      && |data| == Product(dims) * ElementSize(clsid)
    }
  }

  /** What blob_pack is given: a plain array, or a struct, cell or complex array it must serialize. */
  datatype Item = Plain(value: MxArray) | Complex(handle: int)

  /** MATLAB's getByteStreamFromArray and getArrayFromByteStream. */
  datatype Streamer = Streamer(serialize: Item -> Option<MxArray>, deserialize: MxArray -> Option<Item>)

  /**
   * What setCompressor selects by name and level. pack yields the compressed data, empty when the
   * compressor fails or reports size 0; unpack gets the data and the size it must fill. Whether
   * blob_pack compresses at all is decided by g_compression_level, below called globalLevel, and not by
   * the level it passes to setCompressor.
   */
  datatype Codec = Codec(lossy: bool, pack: MxArray -> seq<byte>, unpack: (seq<byte>, nat, nat) -> Option<seq<byte>>)

  /** The contract of a lossless compressor: inflating undoes deflating. */
  ghost predicate Lossless(c: Codec) {
    forall x: MxArray :: c.pack(x) != [] ==> c.unpack(c.pack(x), |x.data|, ElementSize(x.clsid)) == Some(x.data)
  }

  /** An inflated array has the size that was asked for: it is written into memory of that size. */
  ghost predicate Sized(c: Codec) {
    forall packed: seq<byte>, size: nat, element: nat ::
      c.unpack(packed, size, element).Some? ==> |c.unpack(packed, size, element).value| == size
  }

  /**
   * What a compressor accepts: blosc, the lossless one, takes less than 2 GiB at a time; the lossy ones
   * emit at least two bytes for each element.
   */
  ghost predicate Limited(c: Codec) {
    forall x: MxArray :: x.WellFormed() && c.pack(x) != [] ==>
      if c.lossy then |c.pack(x)| >= 2 * Product(x.dims) else |x.data| <= MAX_BLOB_SIZE
  }

  ghost predicate Lawful(c: Codec) {
    (!c.lossy ==> Lossless(c)) && Limited(c)
  }

  // ----- Header layout -----------------------------------------------------------------------

  const V1_SIZE := 36   // sizeof(TypedBLOBHeaderV1), also its version number
  const V2_SIZE := 48   // sizeof(TypedBLOBHeaderV2): 12 bytes for the compressor name in between

  /** "mkSQLite.tbh" and its terminator. */
  const MAGIC: seq<byte> := [109, 107, 83, 81, 76, 105, 116, 101, 46, 116, 98, 104, 0]

  function DataOffset(headerSize: nat, nDims: nat): nat { headerSize + 4 * nDims }

  function ToLower(b: byte): byte {
    if 65 <= b <= 90 then b + 32 else b
  }

  /** validMagic: a case-insensitive comparison that ends at the terminator. */
  predicate ValidMagic(b: seq<byte>) {
    |b| >= 13 && forall k :: 0 <= k < 13 ==> ToLower(b[k]) == ToLower(MAGIC[k])
  }

  function Version(b: seq<byte>): nat
    requires |b| >= 16
  {
    UInt16At(b, 14)
  }

  function ClassId(b: seq<byte>): int
    requires |b| >= V1_SIZE
  {
    Int32At(b, 16)
  }

  /** The conversion of a stored dimension to mwSize extends its sign to 64 bits. */
  function DimFrom(v: int): (d: nat)
    requires IsInt32(v)
  {
    if v >= 0 then v else v + 0x1_0000_0000_0000_0000
  }

  function Dims(b: seq<byte>, headerSize: nat, n: nat): (dims: seq<nat>)
    requires headerSize + 4 * n <= |b|
    ensures |dims| == n
  {
    seq(n, i requires 0 <= i < n => DimFrom(Int32At(b, headerSize + 4 * i)))
  }

  /** The bytes from position from up to the first zero. */
  function CString(b: seq<byte>, from: nat, to: nat): seq<byte>
    requires from <= to <= |b|
    decreases |b| - from
  {
    if from == to || b[from] == 0 then [] else [b[from]] + CString(b, from + 1, to)
  }

  /** The array a header describes: its dimensions, and the class with byte streams read as uint8. */
  function HeaderDims(b: seq<byte>, headerSize: nat): Option<seq<nat>>
    requires headerSize >= 4 && headerSize <= |b|
  {
    var n := Int32At(b, headerSize - 4);
    if n >= 0 && headerSize + 4 * n <= |b| then Some(Dims(b, headerSize, n)) else None
  }

  function StoredClass(b: seq<byte>): int
    requires |b| >= V1_SIZE
  {
    if ClassId(b) == UNKNOWN_CLASS then UINT8_CLASS else ClassId(b)
  }

  /**
   * Everything blob_unpack reads lies inside the blob. The code does not check this: a shorter blob
   * is read past its end.
   */
  predicate Readable(b: seq<byte>) {
    && |b| >= V1_SIZE
    && (ValidMagic(b) && Version(b) == V1_SIZE ==>
      HeaderDims(b, V1_SIZE).Some? &&
      var dims := HeaderDims(b, V1_SIZE).value;
      DataOffset(V1_SIZE, |dims|) + Product(dims) * ElementSize(StoredClass(b)) <= |b|)
    && (ValidMagic(b) && Version(b) == V2_SIZE ==> |b| >= V2_SIZE && HeaderDims(b, V2_SIZE).Some?)
  }

  // ----- What blob_unpack computes ------------------------------------------------------------

  function DecodeArray(b: seq<byte>, codecs: seq<byte> -> Codec): (r: (int, Option<MxArray>))
    requires Readable(b) && ValidMagic(b)
  {
    var clsid := StoredClass(b);
    if Version(b) == V1_SIZE then
      var dims := HeaderDims(b, V1_SIZE).value;
      var at, size := DataOffset(V1_SIZE, |dims|), Product(dims) * ElementSize(clsid);
      (MSG_NOERROR, if ElementSize(clsid) == 0 then None else Some(MxArray(clsid, dims, b[at..at + size])))
    else if Version(b) == V2_SIZE then
      var dims := HeaderDims(b, V2_SIZE).value;
      if ElementSize(clsid) == 0 then (MSG_NOERROR, None) else
      var codec := codecs(CString(b, 32, 44));
      match codec.unpack(b[DataOffset(V2_SIZE, |dims|)..], Product(dims) * ElementSize(clsid), ElementSize(clsid))
      case None => (MSG_ERRCOMPRESSION, None)
      case Some(data) => (MSG_NOERROR, Some(MxArray(clsid, dims, data)))
    else
      (MSG_UNSUPPTBH, None)
  }

  function Decode(b: seq<byte>, codecs: seq<byte> -> Codec, streamer: Streamer): (r: (int, Option<Item>))
    requires Readable(b)
  {
    if !ValidMagic(b) then (MSG_UNSUPPTBH, None) else
    var (code, content) := DecodeArray(b, codecs);
    if code != MSG_NOERROR || content.None? then (code, None) else
    if ClassId(b) != UNKNOWN_CLASS then (MSG_NOERROR, Some(Plain(content.value))) else
    match streamer.deserialize(content.value)
    case None => (MSG_ERRMEMORY, None)
    case Some(item) => (MSG_NOERROR, Some(item))
  }

  /** blob_unpack marks a byte stream as a uint8 array, in the caller's blob. */
  function AfterUnpack(b: seq<byte>): (r: seq<byte>)
    requires |b| >= V1_SIZE
    ensures |r| == |b|
  {
    if ValidMagic(b) && ClassId(b) == UNKNOWN_CLASS then b[..16] + Int32Bytes(UINT8_CLASS) + b[20..] else b
  }

  // ----- What blob_pack stores -----------------------------------------------------------------

  /** The fields both headers share, and the dimensions behind a header of the given size. */
  ghost predicate Header(b: seq<byte>, headerSize: nat, clsid: int, dims: seq<nat>)
    requires IsInt32(clsid) && |dims| < 0x8000_0000
  {
    && FieldAt(b, 0, MAGIC)
    && (headerSize == V1_SIZE || headerSize == V2_SIZE)
    && FieldAt(b, 14, Int16Bytes(headerSize))
    && FieldAt(b, 16, Int32Bytes(clsid))
    && FieldAt(b, headerSize - 4, Int32Bytes(|dims|))
    && forall i :: 0 <= i < |dims| ==> FieldAt(b, headerSize + 4 * i, Int32Bytes(Wrap32(dims[i])))
  }

  /** Where the blob was written: the platform's name and its byte order, which the reader only warns about. */
  ghost predicate Origin(b: seq<byte>, platform: seq<byte>, endian: byte) {
    FieldAt(b, 20, platform + [0]) && FieldAt(b, 31, [endian])
  }

  ghost predicate Uncompressed(b: seq<byte>, clsid: int, a: MxArray)
    requires IsInt32(clsid) && |a.dims| < 0x8000_0000
  {
    && |b| == DataOffset(V1_SIZE, |a.dims|) + |a.data|
    && Header(b, V1_SIZE, clsid, a.dims)
    && FieldAt(b, DataOffset(V1_SIZE, |a.dims|), a.data)
  }

  ghost predicate Compressed(b: seq<byte>, clsid: int, a: MxArray, name: seq<byte>, packed: seq<byte>)
    requires IsInt32(clsid) && |a.dims| < 0x8000_0000 && |name| < 12
  {
    && |b| == DataOffset(V2_SIZE, |a.dims|) + |packed|
    && Header(b, V2_SIZE, clsid, a.dims)
    && FieldAt(b, 32, Padded(name))
    && FieldAt(b, DataOffset(V2_SIZE, |a.dims|), packed)
  }

  /** strncpy to a 12-byte field. */
  function Padded(name: seq<byte>): (f: seq<byte>)
    requires |name| < 12
    ensures |f| == 12
  {
    name + seq(12 - |name|, _ => 0)
  }

  function SizeUncompressed(a: MxArray): nat { DataOffset(V1_SIZE, |a.dims|) + |a.data| }

  function SizeCompressed(a: MxArray, packed: seq<byte>): nat { DataOffset(V2_SIZE, |a.dims|) + |packed| }

  /** Compressed data is kept only if there is any and the whole blob gets smaller. */
  predicate Compresses(a: MxArray, globalLevel: int, packed: seq<byte>) {
    globalLevel != 0 && packed != [] && SizeCompressed(a, packed) < SizeUncompressed(a)
  }

  function BlobSize(a: MxArray, globalLevel: int, packed: seq<byte>): nat {
    if Compresses(a, globalLevel, packed) then SizeCompressed(a, packed) else SizeUncompressed(a)
  }

  /** The array that is stored: the item itself or its byte stream. */
  function Flat(item: Item, streamable: bool, streamer: Streamer): Option<MxArray> {
    match item
    case Plain(a) => Some(a)
    case Complex(_) => if streamable then streamer.serialize(item) else None
  }

  function StoreClass(item: Item, a: MxArray): int {
    if item.Complex? then UNKNOWN_CLASS else a.clsid
  }

  /** blob is what blob_pack produces for item, stored as the array a. */
  ghost predicate PackedAs(blob: seq<byte>, item: Item, a: MxArray, codec: Codec, name: seq<byte>, globalLevel: int)
    requires a.WellFormed() && |name| < 12
  {
    if Compresses(a, globalLevel, codec.pack(a)) then
      Compressed(blob, StoreClass(item, a), a, name, codec.pack(a))
    else
      Uncompressed(blob, StoreClass(item, a), a)
  }

  // ----- blob_pack and blob_unpack --------------------------------------------------------------

  /** TBHData::init: magic, platform, version, class, byte order, and the dimensions as int32. */
  method InitHeader(blob: array<byte>, headerSize: nat, a: MxArray, platform: seq<byte>, endian: byte)
    requires headerSize == V1_SIZE || headerSize == V2_SIZE
    requires a.WellFormed() && DataOffset(headerSize, |a.dims|) <= blob.Length && |platform| < 11
    modifies blob
    ensures Header(blob[..], headerSize, a.clsid, a.dims) && Origin(blob[..], platform, endian)
  {
    hide FieldAt, Int32Bytes, Int16Bytes, Wrap32;
    Store(blob, 0, MAGIC);
    Store(blob, 20, platform + [0]);
    Store(blob, 14, Int16Bytes(headerSize));
    Store(blob, 16, Int32Bytes(a.clsid));
    Store(blob, 31, [endian]);
    Store(blob, headerSize - 4, Int32Bytes(|a.dims|));
    for i := 0 to |a.dims|
      invariant FieldAt(blob[..], 0, MAGIC) && Origin(blob[..], platform, endian)
      invariant FieldAt(blob[..], 14, Int16Bytes(headerSize))
      invariant FieldAt(blob[..], 16, Int32Bytes(a.clsid))
      invariant FieldAt(blob[..], headerSize - 4, Int32Bytes(|a.dims|))
      invariant forall j :: 0 <= j < i ==> FieldAt(blob[..], headerSize + 4 * j, Int32Bytes(Wrap32(a.dims[j])))
    {
      Store(blob, headerSize + 4 * i, Int32Bytes(Wrap32(a.dims[i])));
    }
  }

  method PackUncompressed(a: MxArray, platform: seq<byte>, endian: byte) returns (blob: array<byte>)
    requires a.WellFormed() && |platform| < 11
    ensures fresh(blob) && Uncompressed(blob[..], a.clsid, a) && Origin(blob[..], platform, endian)
  {
    blob := new byte[SizeUncompressed(a)];
    InitHeader(blob, V1_SIZE, a, platform, endian);
    Store(blob, DataOffset(V1_SIZE, |a.dims|), a.data);
  }

  method PackCompressed(a: MxArray, packed: seq<byte>, name: seq<byte>, platform: seq<byte>, endian: byte)
    returns (blob: array<byte>)
    requires a.WellFormed() && |platform| < 11 && |name| < 12
    ensures fresh(blob) && Compressed(blob[..], a.clsid, a, name, packed) && Origin(blob[..], platform, endian)
  {
    blob := new byte[SizeCompressed(a, packed)];
    InitHeader(blob, V2_SIZE, a, platform, endian);
    Store(blob, 32, Padded(name));
    Store(blob, DataOffset(V2_SIZE, |a.dims|), packed);
  }

  /** createNumericArray without the data: the dimensions of the new array. */
  method ReadDims(blob: array<byte>, headerSize: nat) returns (dims: seq<nat>)
    requires headerSize >= 4 && headerSize <= blob.Length && HeaderDims(blob[..], headerSize).Some?
    ensures Some(dims) == HeaderDims(blob[..], headerSize)
  {
    var n := Int32At(blob[..], headerSize - 4);
    dims := [];
    for i := 0 to n
      invariant dims == Dims(blob[..], headerSize, n)[..i]
    {
      dims := dims + [DimFrom(Int32At(blob[..], headerSize + 4 * i))];
    }
    assert dims == Dims(blob[..], headerSize, n);
  }

  /** The switch over the header version: an array filled from the blob, or inflated into. */
  method ReadContent(blob: array<byte>, codecs: seq<byte> -> Codec) returns (code: int, content: Option<MxArray>)
    requires Readable(blob[..]) && ValidMagic(blob[..]) && ClassId(blob[..]) != UNKNOWN_CLASS
    ensures (code, content) == DecodeArray(blob[..], codecs)
  {
    hide Int32At, UInt16At, Product, ElementSize, CString, Dims, ValidMagic;
    var clsid := ClassId(blob[..]);
    if Version(blob[..]) == V1_SIZE {
      var dims := ReadDims(blob, V1_SIZE);
      if ElementSize(clsid) == 0 {
        return MSG_NOERROR, None;
      }
      var at, size := DataOffset(V1_SIZE, |dims|), Product(dims) * ElementSize(clsid);
      assert blob[..][at..at + size] == blob[at..at + size];
      return MSG_NOERROR, Some(MxArray(clsid, dims, blob[at..at + size]));
    } else if Version(blob[..]) == V2_SIZE {
      var dims := ReadDims(blob, V2_SIZE);
      if ElementSize(clsid) == 0 {
        return MSG_NOERROR, None;
      }
      var codec := codecs(CString(blob[..], 32, 44));
      var packed := blob[DataOffset(V2_SIZE, |dims|)..];
      assert packed == blob[..][DataOffset(V2_SIZE, |dims|)..];
      var data := codec.unpack(packed, Product(dims) * ElementSize(clsid), ElementSize(clsid));
      if data.None? {
        return MSG_ERRCOMPRESSION, None;
      }
      return MSG_NOERROR, Some(MxArray(clsid, dims, data.value));
    }
    return MSG_UNSUPPTBH, None;
  }

  method BlobUnpack(blob: array<byte>, codecs: seq<byte> -> Codec, streamer: Streamer)
    returns (code: int, item: Option<Item>)
    requires Readable(blob[..])
    modifies blob
    ensures (code, item) == Decode(old(blob[..]), codecs, streamer)
    ensures blob[..] == AfterUnpack(old(blob[..]))
  {
    hide DecodeArray, Int32Bytes, ValidMagic, Int32At, UInt16At, HeaderDims, Product, ElementSize;
    ghost var before := blob[..];
    if !ValidMagic(blob[..]) {
      return MSG_UNSUPPTBH, None;
    }
    var isByteStream := ClassId(blob[..]) == UNKNOWN_CLASS;
    if isByteStream {
      Store(blob, 16, Int32Bytes(UINT8_CLASS));
      assert blob[..] == AfterUnpack(before);
    }
    SameContent(before, codecs);
    var content;
    code, content := ReadContent(blob, codecs);
    if code != MSG_NOERROR || content.None? {
      return code, None;
    }
    if isByteStream {
      item := streamer.deserialize(content.value);
      return if item.None? then MSG_ERRMEMORY else MSG_NOERROR, item;
    }
    return MSG_NOERROR, Some(Plain(content.value));
  }

  /** b and c agree on everything the reader looks at. */
  ghost predicate SameView(b: seq<byte>, c: seq<byte>) {
    && |c| == |b| >= V1_SIZE && ValidMagic(b) && ValidMagic(c)
    && Version(c) == Version(b) && StoredClass(c) == StoredClass(b)
    && HeaderDims(c, V1_SIZE) == HeaderDims(b, V1_SIZE)
    && (|b| >= V2_SIZE ==> HeaderDims(c, V2_SIZE) == HeaderDims(b, V2_SIZE) && CString(c, 32, 44) == CString(b, 32, 44))
    && c[32..] == b[32..]
  }

  lemma {:induction false} SameReading(b: seq<byte>, c: seq<byte>, codecs: seq<byte> -> Codec)
    requires SameView(b, c) && Readable(b)
    ensures Readable(c) && DecodeArray(c, codecs) == DecodeArray(b, codecs)
  {
    hide Int32At, UInt16At, Product, ElementSize, CString, Dims, ValidMagic, HeaderDims;
    hide StoredClass, Version, DataOffset;
    if Version(b) == V1_SIZE {
      var at := DataOffset(V1_SIZE, |HeaderDims(b, V1_SIZE).value|);
      assert at >= 32 by { OffsetBehind(V1_SIZE, |HeaderDims(b, V1_SIZE).value|); }
      SameSlice(b, c, at, at + Product(HeaderDims(b, V1_SIZE).value) * ElementSize(StoredClass(b)));
    } else if Version(b) == V2_SIZE {
      var at := DataOffset(V2_SIZE, |HeaderDims(b, V2_SIZE).value|);
      assert at >= 32 by { OffsetBehind(V2_SIZE, |HeaderDims(b, V2_SIZE).value|); }
      assert at <= |b| by { DimsFit(b, V2_SIZE); }
      SameSlice(b, c, at, |b|);
      assert b[at..] == b[at..|b|] && c[at..] == c[at..|b|];
    }
  }

  lemma OffsetBehind(headerSize: nat, nDims: nat)
    ensures DataOffset(headerSize, nDims) >= headerSize
  {}

  lemma SameSlice(b: seq<byte>, c: seq<byte>, start: nat, end: nat)
    requires |c| == |b| >= 32 && c[32..] == b[32..] && 32 <= start <= end <= |b|
    ensures c[start..end] == b[start..end]
  {
    forall i | start <= i < end ensures c[i] == b[i] {
      assert c[32..][i - 32] == c[i] && b[32..][i - 32] == b[i];
    }
  }

  lemma DimsFit(b: seq<byte>, headerSize: nat)
    requires headerSize >= 4 && headerSize <= |b|
    ensures HeaderDims(b, headerSize).Some? ==> DataOffset(headerSize, |HeaderDims(b, headerSize).value|) <= |b|
  {}

  /** The class patch changes nothing that the reader looks at afterwards. */
  lemma SameContent(b: seq<byte>, codecs: seq<byte> -> Codec)
    requires Readable(b) && ValidMagic(b)
    ensures var c := AfterUnpack(b);
      && Readable(c) && ValidMagic(c) && ClassId(c) == StoredClass(b) != UNKNOWN_CLASS
      && DecodeArray(c, codecs) == DecodeArray(b, codecs)
  {
    hide Int32At, UInt16At, Product, ElementSize, CString, Dims, ValidMagic, HeaderDims;
    var c := AfterUnpack(b);
    SameFields(b, c);
    SameDims(b, c, V1_SIZE);
    if |b| >= V2_SIZE {
      SameDims(b, c, V2_SIZE);
      SameString(b, c, 32, 44);
    }
    SameReading(b, c, codecs);
  }

  lemma SameFields(b: seq<byte>, c: seq<byte>)
    requires |b| >= V1_SIZE && ValidMagic(b) && c == AfterUnpack(b)
    ensures |c| == |b| && ValidMagic(c) && Version(c) == Version(b) && ClassId(c) == StoredClass(b)
    ensures forall k :: 20 <= k < |b| ==> c[k] == b[k]
  {}

  lemma SameDims(b: seq<byte>, c: seq<byte>, headerSize: nat)
    requires |b| == |c| && V1_SIZE <= headerSize <= |b|
    requires forall k :: 20 <= k < |b| ==> c[k] == b[k]
    ensures HeaderDims(c, headerSize) == HeaderDims(b, headerSize)
  {
    forall at: nat | 20 <= at && at + 4 <= |b| ensures Int32At(c, at) == Int32At(b, at) {
    }
    var n := Int32At(b, headerSize - 4);
    if n >= 0 && headerSize + 4 * n <= |b| {
      assert Dims(c, headerSize, n) == Dims(b, headerSize, n);
    }
  }

  lemma {:induction false} SameString(b: seq<byte>, c: seq<byte>, from: nat, to: nat)
    requires |b| == |c| && 20 <= from <= to <= |b|
    requires forall k :: 20 <= k < |b| ==> c[k] == b[k]
    ensures CString(c, from, to) == CString(b, from, to)
    decreases |b| - from
  {
    if from < to && b[from] != 0 {
      SameString(b, c, from + 1, to);
    }
  }

  // ----- Round trips ---------------------------------------------------------------------------

  /** A dimension comes back from its 32-bit field: it fits, or is a sign-extended 32-bit pattern. */
  predicate DimSurvives(d: nat) {
    d < 0x8000_0000 || 0x1_0000_0000_0000_0000 - 0x8000_0000 <= d < 0x1_0000_0000_0000_0000
  }

  lemma DimRoundTrip(d: nat)
    requires d < 0x1_0000_0000_0000_0000
    ensures (DimFrom(Wrap32(d)) == d) <==> DimSurvives(d)
  {}

  /** What becomes of dimensions that are stored and read. */
  function Reread(dims: seq<nat>): (r: seq<nat>)
    ensures |r| == |dims|
  {
    seq(|dims|, i requires 0 <= i < |dims| => DimFrom(Wrap32(dims[i])))
  }

  /** They are the same exactly when each survives its 32-bit field. */
  lemma DimsRoundTrip(dims: seq<nat>)
    requires forall d <- dims :: d < 0x1_0000_0000_0000_0000
    ensures Reread(dims) == dims <==> forall d <- dims :: DimSurvives(d)
  {
    hide Wrap32, DimSurvives;
    forall i | 0 <= i < |dims| ensures (Reread(dims)[i] == dims[i]) == DimSurvives(dims[i]) {
      assert dims[i] in dims;
      DimRoundTrip(dims[i]);
    }
    if Reread(dims) == dims {
      forall d | d in dims ensures DimSurvives(d) {
        var i :| 0 <= i < |dims| && dims[i] == d;
      }
    }
  }

  /** A header is read back as written, with the dimensions as their 32-bit fields leave them. */
  lemma {:induction false} HeaderRoundTrip(b: seq<byte>, headerSize: nat, clsid: int, dims: seq<nat>)
    requires IsInt32(clsid) && |dims| < 0x8000_0000 && forall d <- dims :: d < 0x1_0000_0000_0000_0000
    requires Header(b, headerSize, clsid, dims) && DataOffset(headerSize, |dims|) <= |b|
    ensures |b| >= V1_SIZE && ValidMagic(b) && Version(b) == headerSize && ClassId(b) == clsid
    ensures HeaderDims(b, headerSize) == Some(Reread(dims))
  {
    hide Int32Bytes, Int16Bytes, Wrap32, Int32At, UInt16At;
    ReadMagic(b);
    ReadInt16(b, 14, headerSize);
    ReadInt32(b, 16, clsid);
    ReadInt32(b, headerSize - 4, |dims|);
    var read := Dims(b, headerSize, |dims|);
    forall i | 0 <= i < |dims| ensures read[i] == Reread(dims)[i] {
      ReadInt32(b, headerSize + 4 * i, Wrap32(dims[i]));
    }
    assert read == Reread(dims);
  }

  lemma ReadMagic(b: seq<byte>)
    requires FieldAt(b, 0, MAGIC)
    ensures ValidMagic(b)
  {}

  /** The name field is read up to its first zero. */
  lemma {:induction false} ReadName(b: seq<byte>, at: nat, name: seq<byte>)
    requires at <= 44 <= |b| && 44 - at > |name| && 0 !in name
    requires b[at..at + |name|] == name && b[at + |name|] == 0
    ensures CString(b, at, 44) == name
    decreases |name|
  {
    if name != [] {
      assert b[at] == b[at..at + |name|][0] == name[0];
      assert b[at + 1..at + |name|] == b[at..at + |name|][1..];
      ReadName(b, at + 1, name[1..]);
    }
  }

  /** The contract of the serialization, and what the caller has checked before. */
  ghost predicate Environment(item: Item, streamable: bool, streamer: Streamer, name: seq<byte>) {
    && |name| < 12 && 0 !in name
    && (item.Plain? ==> item.value.WellFormed())
    && (item.Complex? && streamable && streamer.serialize(item).Some? ==>
      var a := streamer.serialize(item).value;
      a.WellFormed() && a.clsid == UINT8_CLASS && streamer.deserialize(a) == Some(item))
  }

  /** A product is zero exactly when a factor is. */
  lemma {:induction false} ZeroFactor(dims: seq<nat>)
    ensures Product(dims) == 0 <==> 0 in dims
  {
    if dims != [] {
      ZeroFactor(dims[1..]);
      ZeroProduct(dims[0], Product(dims[1..]));
      assert dims == [dims[0]] + dims[1..];
    }
  }

  /** The product does not depend on the end from which it is taken. */
  lemma {:induction false} ProductOf(dims: seq<nat>, d: nat)
    ensures Product([]) == 1 && Product(dims + [d]) == Product(dims) * d
  {
    if dims == [] {
      assert [d][1..] == [] && Product([]) == 1;
      assert dims + [d] == [d];
    } else {
      ProductOf(dims[1..], d);
      assert (dims + [d])[1..] == dims[1..] + [d];
      Associative(dims[0], Product(dims[1..]), d);
    }
  }

  lemma Associative(x: nat, y: nat, z: nat)
    ensures x * (y * z) == x * y * z
  {}

  lemma ZeroProduct(x: nat, y: nat)
    ensures x * y == 0 <==> x == 0 || y == 0
  {}

  lemma ProductGrows(x: nat, y: nat)
    requires x > 0
    ensures y <= x * y && y <= y * x
  {
    assert (x - 1) * y >= 0;
  }

  lemma {:induction false} FactorBound(dims: seq<nat>, d: nat)
    requires d in dims && Product(dims) > 0
    ensures d <= Product(dims)
  {
    var rest := Product(dims[1..]);
    ZeroProduct(dims[0], rest);
    if d != dims[0] {
      FactorBound(dims[1..], d);
      ProductGrows(dims[0], rest);
    } else {
      ProductGrows(rest, dims[0]);
    }
  }

  /** An array of less than 2 GiB that is not empty has no dimension that gets lost. */
  lemma NonEmptyDimsSurvive(a: MxArray)
    requires a.WellFormed() && 0 < |a.data| <= MAX_BLOB_SIZE
    ensures forall d <- a.dims :: DimSurvives(d)
  {
    hide Product, ElementSize;
    var product := Product(a.dims);
    ZeroProduct(product, ElementSize(a.clsid));
    ProductGrows(ElementSize(a.clsid), product);
    forall d | d in a.dims ensures d <= |a.data| {
      FactorBound(a.dims, d);
    }
  }

  /** So the number of elements is never lost there: a zero among the dimensions survives. */
  lemma SameCount(a: MxArray)
    requires a.WellFormed() && |a.data| <= MAX_BLOB_SIZE
    ensures Product(Reread(a.dims)) == Product(a.dims)
  {
    hide Product, ElementSize;
    if a.data != [] {
      NonEmptyDimsSurvive(a);
      DimsRoundTrip(a.dims);
    } else {
      ZeroProduct(Product(a.dims), ElementSize(a.clsid));
      ZeroFactor(a.dims);
      ZeroFactor(Reread(a.dims));
      var i :| 0 <= i < |a.dims| && a.dims[i] == 0;
      assert Reread(a.dims)[i] == 0;
    }
  }

  /** Reading an uncompressed blob: everything comes back but the dimensions that do not survive. */
  lemma {:induction false} DecodeUncompressed(b: seq<byte>, clsid: int, a: MxArray, codecs: seq<byte> -> Codec)
    requires a.WellFormed() && (clsid == a.clsid || (clsid == UNKNOWN_CLASS && a.clsid == UINT8_CLASS))
    requires Uncompressed(b, clsid, a) && |a.data| <= MAX_BLOB_SIZE
    ensures Readable(b) && ValidMagic(b) && ClassId(b) == clsid
    ensures DecodeArray(b, codecs) == (MSG_NOERROR, Some(a.(dims := Reread(a.dims))))
  {
    assert 0 < ElementSize(a.clsid) && 0 < a.clsid < 16;
    hide *;
    UncompressedParts(b, clsid, a);
    HeaderRoundTrip(b, V1_SIZE, clsid, a.dims);
    SameCount(a);
    ReadUncompressed(b, a, codecs);
  }

  lemma UncompressedParts(b: seq<byte>, clsid: int, a: MxArray)
    requires a.WellFormed() && IsInt32(clsid) && Uncompressed(b, clsid, a)
    ensures Header(b, V1_SIZE, clsid, a.dims) && |b| == DataOffset(V1_SIZE, |a.dims|) + |a.data|
    ensures b[DataOffset(V1_SIZE, |a.dims|)..] == a.data
    ensures |a.data| == Product(a.dims) * ElementSize(a.clsid) && |a.dims| < 0x8000_0000
    ensures forall d <- a.dims :: d < 0x1_0000_0000_0000_0000
  {
    hide Header, Product, ElementSize;
    var at := DataOffset(V1_SIZE, |a.dims|);
    assert b[at..] == b[at..at + |a.data|];
  }

  /** The first case of the reader's switch, for a header that announces as many elements as there are. */
  lemma ReadUncompressed(b: seq<byte>, a: MxArray, codecs: seq<byte> -> Codec)
    requires |b| >= V1_SIZE && ValidMagic(b) && Version(b) == V1_SIZE && StoredClass(b) == a.clsid
    requires HeaderDims(b, V1_SIZE) == Some(Reread(a.dims)) && ElementSize(a.clsid) > 0
    requires |a.data| == Product(Reread(a.dims)) * ElementSize(a.clsid)
    requires |b| == DataOffset(V1_SIZE, |a.dims|) + |a.data| && b[DataOffset(V1_SIZE, |a.dims|)..] == a.data
    ensures Readable(b) && DecodeArray(b, codecs) == (MSG_NOERROR, Some(a.(dims := Reread(a.dims))))
  {
    hide ValidMagic, HeaderDims, Product, ElementSize, Reread, StoredClass, Version;
    var at := DataOffset(V1_SIZE, |a.dims|);
    assert b[at..at + |a.data|] == b[at..];
  }

  /** What the compressed form of an array is inflated to: an array with the dimensions that were read. */
  function Inflated(a: MxArray, codec: Codec): (int, Option<MxArray>) {
    var dims, size := Reread(a.dims), ElementSize(a.clsid);
    match codec.unpack(codec.pack(a), Product(dims) * size, size)
    case None => (MSG_ERRCOMPRESSION, None)
    case Some(data) => (MSG_NOERROR, Some(MxArray(a.clsid, dims, data)))
  }

  /** A lossless compressor restores every array whose dimensions survive. */
  lemma InflatedLossless(a: MxArray, codec: Codec)
    requires a.WellFormed() && codec.pack(a) != [] && Lossless(codec)
    ensures (forall d <- a.dims :: DimSurvives(d)) ==> Inflated(a, codec) == (MSG_NOERROR, Some(a))
  {
    hide Product, ElementSize, DimSurvives, Reread;
    DimsRoundTrip(a.dims);
  }

  lemma NameField(b: seq<byte>, name: seq<byte>)
    requires |name| < 12 && 0 !in name && FieldAt(b, 32, Padded(name))
    ensures |b| >= 44 && CString(b, 32, 44) == name
  {
    hide CString;
    var f := Padded(name);
    assert b[32..44] == f;
    assert f[..|name|] == name && f[|name|] == 0;
    assert b[32..32 + |name|] == b[32..44][..|name|] && b[32 + |name|] == b[32..44][|name|];
    ReadName(b, 32, name);
  }

  /** Reading a compressed blob. */
  lemma {:induction false} DecodeCompressed(b: seq<byte>, clsid: int, a: MxArray, name: seq<byte>,
                                            codecs: seq<byte> -> Codec)
    requires a.WellFormed() && (clsid == a.clsid || (clsid == UNKNOWN_CLASS && a.clsid == UINT8_CLASS))
    requires |name| < 12 && 0 !in name
    requires Compressed(b, clsid, a, name, codecs(name).pack(a))
    ensures Readable(b) && ValidMagic(b) && ClassId(b) == clsid
    ensures DecodeArray(b, codecs) == Inflated(a, codecs(name))
  {
    assert 0 < ElementSize(a.clsid) && 0 < a.clsid < 16;
    hide Int32Bytes, Int16Bytes, Wrap32, Int32At, UInt16At, ValidMagic, HeaderDims, CString;
    hide Product, ElementSize, Reread;
    HeaderRoundTrip(b, V2_SIZE, clsid, a.dims);
    NameField(b, name);
    var at, packed := DataOffset(V2_SIZE, |a.dims|), codecs(name).pack(a);
    assert b[at..] == b[at..at + |packed|] == packed;
  }

  /** An empty array is never stored compressed: the longer header does not pay. */
  lemma CompressedNotEmpty(a: MxArray, globalLevel: int, packed: seq<byte>)
    requires Compresses(a, globalLevel, packed)
    ensures a.data != []
  {}

  /** No array that is stored and not empty has a dimension that gets lost. */
  lemma {:induction false} StoredDimsSurvive(blob: seq<byte>, item: Item, a: MxArray, codec: Codec, name: seq<byte>,
                                             globalLevel: int)
    requires a.WellFormed() && |name| < 12 && Limited(codec) && a.data != []
    requires PackedAs(blob, item, a, codec, name, globalLevel) && |blob| <= MAX_BLOB_SIZE
    ensures forall d <- a.dims :: DimSurvives(d)
  {
    hide Header, FieldAt, Product, ElementSize, Padded;
    if Compresses(a, globalLevel, codec.pack(a)) && codec.lossy {
      ZeroProduct(Product(a.dims), ElementSize(a.clsid));
      forall d | d in a.dims ensures d <= Product(a.dims) {
        FactorBound(a.dims, d);
      }
    } else {
      NonEmptyDimsSurvive(a);
    }
  }

  /**
   * Whatever header blob_pack chose, blob_unpack of a fresh copy returns the item, always without
   * compression, and with it whenever the compressor is lossless: if and only if every dimension
   * survives its 32-bit field, which only an empty array can fail. (What a serialized item is restored
   * to from an empty byte stream with other dimensions is for MATLAB to say.)
   */
  lemma {:induction false} RoundTrip(blob: seq<byte>, item: Item, a: MxArray, codecs: seq<byte> -> Codec,
                                     name: seq<byte>, globalLevel: int, streamable: bool, streamer: Streamer)
    requires Environment(item, streamable, streamer, name) && Lawful(codecs(name))
    requires Flat(item, streamable, streamer) == Some(a)
    requires PackedAs(blob, item, a, codecs(name), name, globalLevel) && |blob| <= MAX_BLOB_SIZE
    requires !codecs(name).lossy || !Compresses(a, globalLevel, codecs(name).pack(a))
    ensures Readable(blob)
    ensures a.data != [] ==> forall d <- a.dims :: DimSurvives(d)
    ensures (forall d <- a.dims :: DimSurvives(d)) ==> Decode(blob, codecs, streamer) == (MSG_NOERROR, Some(item))
    ensures item.Plain? ==>
      (Decode(blob, codecs, streamer) == (MSG_NOERROR, Some(item)) <==> forall d <- a.dims :: DimSurvives(d))
  {
    assert 0 < ElementSize(a.clsid) && 0 < a.clsid < 16;
    hide DecodeArray, ElementSize, Product, DimSurvives, HeaderDims, ValidMagic, Readable, Reread, Header;
    hide Lossless, Limited;
    DimsRoundTrip(a.dims);
    if a.data != [] {
      StoredDimsSurvive(blob, item, a, codecs(name), name, globalLevel);
    }
    if Compresses(a, globalLevel, codecs(name).pack(a)) {
      DecodeCompressed(blob, StoreClass(item, a), a, name, codecs);
      InflatedLossless(a, codecs(name));
    } else {
      DecodeUncompressed(blob, StoreClass(item, a), a, codecs);
    }
  }

  /** An empty array with a dimension of 2^31: it does not come back. */
  lemma LostDimension(blob: seq<byte>, codecs: seq<byte> -> Codec, name: seq<byte>, globalLevel: int,
                      streamer: Streamer)
    requires var a := MxArray(UINT8_CLASS, [0, 0x8000_0000], []);
      Environment(Plain(a), false, streamer, name) && PackedAs(blob, Plain(a), a, codecs(name), name, globalLevel)
    ensures var a := MxArray(UINT8_CLASS, [0, 0x8000_0000], []);
      && a.WellFormed() && |blob| == 44 && Readable(blob)
      && Decode(blob, codecs, streamer) == (MSG_NOERROR, Some(Plain(a.(dims := [0, 0xffff_ffff_8000_0000]))))
  {
    var a := MxArray(UINT8_CLASS, [0, 0x8000_0000], []);
    DecodeUncompressed(blob, UINT8_CLASS, a, codecs);
    assert Reread(a.dims) == [0, 0xffff_ffff_8000_0000];
  }

  /**
   * Unpacking changes the caller's blob exactly when it holds a byte stream, and then a second
   * unpack yields the raw bytes instead of the item.
   */
  lemma {:induction false} SecondUnpack(b: seq<byte>, codecs: seq<byte> -> Codec, streamer: Streamer)
    requires Readable(b) && ValidMagic(b)
    ensures AfterUnpack(b) == b <==> ClassId(b) != UNKNOWN_CLASS
    ensures var (code, content) := DecodeArray(b, codecs);
      && Readable(AfterUnpack(b))
      && Decode(AfterUnpack(b), codecs, streamer)
         == (code, if code == MSG_NOERROR && content.Some? then Some(Plain(content.value)) else None)
  {
    hide Int32At, UInt16At, Product, ElementSize, CString, Dims, ValidMagic, HeaderDims;
    SameContent(b, codecs);
  }

  /** The emitted blob is never larger than the uncompressed one, and smaller when compressed. */
  lemma {:induction false} NeverLarger(blob: seq<byte>, item: Item, a: MxArray, codec: Codec, name: seq<byte>,
                                       globalLevel: int)
    requires a.WellFormed() && |name| < 12 && PackedAs(blob, item, a, codec, name, globalLevel)
    ensures |blob| == BlobSize(a, globalLevel, codec.pack(a)) <= SizeUncompressed(a)
    ensures ValidMagic(blob) && |blob| >= V1_SIZE
    ensures Version(blob) == V2_SIZE <==> |blob| < SizeUncompressed(a)
    ensures Version(blob) == V1_SIZE <==> |blob| == SizeUncompressed(a)
    ensures Version(blob) == 48 <==> globalLevel != 0 && codec.pack(a) != [] && |codec.pack(a)| + 12 < |a.data|
    ensures Version(blob) == 48 ==> |blob| == 48 + 4 * |a.dims| + |codec.pack(a)|
    ensures Version(blob) != 48 ==> Version(blob) == 36 && |blob| == 36 + 4 * |a.dims| + |a.data|
  {
    hide Int32Bytes, Int16Bytes, Wrap32, Int32At, UInt16At, HeaderDims;
    if Compresses(a, globalLevel, codec.pack(a)) {
      HeaderRoundTrip(blob, V2_SIZE, StoreClass(item, a), a.dims);
    } else {
      HeaderRoundTrip(blob, V1_SIZE, StoreClass(item, a), a.dims);
    }
  }

  /** The text "mkSQLite.tbh" as it stands at the start of every blob. */
  lemma MagicText(b: seq<byte>)
    requires FieldAt(b, 0, MAGIC)
    ensures b[12] == 0 && forall k :: 0 <= k < 12 ==> b[k] as int == "mkSQLite.tbh"[k] as int
  {
    var f := b[0..13];
    assert forall k :: 0 <= k < 13 ==> b[k] == f[k];
  }

  /** The fields both layouts share. */
  lemma HeaderBytes(b: seq<byte>, headerSize: nat, clsid: int, dims: seq<nat>)
    requires IsInt32(clsid) && |dims| < 0x8000_0000 && Header(b, headerSize, clsid, dims)
    requires DataOffset(headerSize, |dims|) <= |b|
    ensures b[12] == 0 && forall k :: 0 <= k < 12 ==> b[k] as int == "mkSQLite.tbh"[k] as int
    ensures UInt16At(b, 14) == headerSize && Int32At(b, 16) == clsid
    ensures Int32At(b, headerSize - 4) == |dims|
    ensures forall i :: 0 <= i < |dims| ==> Int32At(b, headerSize + 4 * i) == Wrap32(dims[i])
  {
    hide Int32Bytes, Int16Bytes, Wrap32, Int32At, UInt16At, FieldAt;
    MagicText(b);
    ReadInt16(b, 14, headerSize);
    ReadInt32(b, 16, clsid);
    ReadInt32(b, headerSize - 4, |dims|);
    forall i | 0 <= i < |dims| ensures Int32At(b, headerSize + 4 * i) == Wrap32(dims[i]) {
      ReadInt32(b, headerSize + 4 * i, Wrap32(dims[i]));
    }
  }

  /** Every byte of the blob whose meaning is defined, at its place. */
  lemma {:induction false} StoredBytes(blob: seq<byte>, item: Item, a: MxArray, codec: Codec, name: seq<byte>,
                                       globalLevel: int)
    requires a.WellFormed() && |name| < 12 && PackedAs(blob, item, a, codec, name, globalLevel)
    ensures |blob| >= 36 && forall k :: 0 <= k < 12 ==> blob[k] as int == "mkSQLite.tbh"[k] as int
    ensures blob[12] == 0 && Int32At(blob, 16) == if item.Complex? then 0 else a.clsid
    ensures UInt16At(blob, 14) == 36 || UInt16At(blob, 14) == 48
    ensures UInt16At(blob, 14) == 36 ==>
      && |blob| == 36 + 4 * |a.dims| + |a.data|
      && Int32At(blob, 32) == |a.dims|
      && (forall i :: 0 <= i < |a.dims| ==> Int32At(blob, 36 + 4 * i) == Wrap32(a.dims[i]))
      && blob[36 + 4 * |a.dims|..] == a.data
    ensures UInt16At(blob, 14) == 48 ==>
      && |blob| == 48 + 4 * |a.dims| + |codec.pack(a)|
      && blob[32..32 + |name|] == name && (forall k :: 32 + |name| <= k < 44 ==> blob[k] == 0)
      && Int32At(blob, 44) == |a.dims|
      && (forall i :: 0 <= i < |a.dims| ==> Int32At(blob, 48 + 4 * i) == Wrap32(a.dims[i]))
      && blob[48 + 4 * |a.dims|..] == codec.pack(a)
  {
    assert 0 < ElementSize(a.clsid) && 0 < a.clsid < 16;
    hide *;
    PackedParts(blob, item, a, codec, name, globalLevel);
    if Compresses(a, globalLevel, codec.pack(a)) {
      CompressedBytes(blob, StoreClass(item, a), a, name, codec.pack(a));
    } else {
      UncompressedBytes(blob, StoreClass(item, a), a);
    }
  }

  lemma PackedParts(blob: seq<byte>, item: Item, a: MxArray, codec: Codec, name: seq<byte>, globalLevel: int)
    requires a.WellFormed() && |name| < 12 && PackedAs(blob, item, a, codec, name, globalLevel)
    requires 0 < a.clsid < 16
    ensures |a.dims| < 0x8000_0000 && IsInt32(StoreClass(item, a))
    ensures StoreClass(item, a) == if item.Complex? then 0 else a.clsid
    ensures if Compresses(a, globalLevel, codec.pack(a)) then
              Compressed(blob, StoreClass(item, a), a, name, codec.pack(a))
            else Uncompressed(blob, StoreClass(item, a), a)
  {
    hide Compressed, Uncompressed, Compresses, Product, ElementSize;
  }

  lemma UncompressedBytes(b: seq<byte>, clsid: int, a: MxArray)
    requires IsInt32(clsid) && |a.dims| < 0x8000_0000 && Uncompressed(b, clsid, a)
    ensures |b| == 36 + 4 * |a.dims| + |a.data|
    ensures b[12] == 0 && forall k :: 0 <= k < 12 ==> b[k] as int == "mkSQLite.tbh"[k] as int
    ensures UInt16At(b, 14) == 36 && Int32At(b, 16) == clsid && Int32At(b, 32) == |a.dims|
    ensures forall i :: 0 <= i < |a.dims| ==> Int32At(b, 36 + 4 * i) == Wrap32(a.dims[i])
    ensures b[36 + 4 * |a.dims|..] == a.data
  {
    hide Int32Bytes, Int16Bytes, Wrap32, Int32At, UInt16At, FieldAt, Header;
    HeaderBytes(b, V1_SIZE, clsid, a.dims);
    FieldEnds(b, a.data);
  }

  lemma CompressedBytes(b: seq<byte>, clsid: int, a: MxArray, name: seq<byte>, packed: seq<byte>)
    requires IsInt32(clsid) && |a.dims| < 0x8000_0000 && |name| < 12 && Compressed(b, clsid, a, name, packed)
    ensures |b| == 48 + 4 * |a.dims| + |packed|
    ensures b[12] == 0 && forall k :: 0 <= k < 12 ==> b[k] as int == "mkSQLite.tbh"[k] as int
    ensures UInt16At(b, 14) == 48 && Int32At(b, 16) == clsid && Int32At(b, 44) == |a.dims|
    ensures b[32..32 + |name|] == name && forall k :: 32 + |name| <= k < 44 ==> b[k] == 0
    ensures forall i :: 0 <= i < |a.dims| ==> Int32At(b, 48 + 4 * i) == Wrap32(a.dims[i])
    ensures b[48 + 4 * |a.dims|..] == packed
  {
    hide Int32Bytes, Int16Bytes, Wrap32, Int32At, UInt16At, FieldAt, Header;
    HeaderBytes(b, V2_SIZE, clsid, a.dims);
    NameBytes(b, name);
    FieldEnds(b, packed);
  }

  /** A field at the end is what follows its offset. */
  lemma FieldEnds(b: seq<byte>, f: seq<byte>)
    requires |f| <= |b| && FieldAt(b, |b| - |f|, f)
    ensures b[|b| - |f|..] == f
  {
    assert b[|b| - |f|..] == b[|b| - |f|..|b| - |f| + |f|];
  }

  lemma NameBytes(b: seq<byte>, name: seq<byte>)
    requires |name| < 12 && FieldAt(b, 32, Padded(name))
    ensures b[32..32 + |name|] == name && forall k :: 32 + |name| <= k < 44 ==> b[k] == 0
  {
    var f := b[32..44];
    assert f == Padded(name);
    assert b[32..32 + |name|] == f[..|name|];
    assert forall k :: 32 <= k < 44 ==> b[k] == f[k - 32];
  }

  /** Platform and byte order stand between class and number of dimensions or compressor. */
  lemma OriginBytes(b: seq<byte>, platform: seq<byte>, endian: byte)
    requires |platform| < 11 && Origin(b, platform, endian)
    ensures |b| >= 32 && b[20..20 + |platform|] == platform && b[20 + |platform|] == 0 && b[31] == endian
  {
    var f := platform + [0];
    assert b[20..20 + |f|] == f;
    assert b[20..20 + |platform|] == f[..|platform|];
    assert b[31..32][0] == endian;
  }

  // ----- What the reader's parts mean ------------------------------------------------------------

  /** Letters are compared without regard to case, everything else as it is. */
  lemma SameLetter(x: byte, y: byte)
    ensures ToLower(x) == ToLower(y) <==>
      x == y || ('A' as int <= x as int <= 'Z' as int && y as int == x as int + 32)
             || ('A' as int <= y as int <= 'Z' as int && x as int == y as int + 32)
  {}

  /** The reader takes a blob whose first twelve characters are the magic text, in any case, and end there. */
  lemma MagicAnyCase(b: seq<byte>)
    requires |b| >= V1_SIZE
    ensures ValidMagic(b) <==>
      b[12] == 0 && forall k :: 0 <= k < 12 ==> ToLower(b[k]) as int == "mksqlite.tbh"[k] as int
  {
    assert MAGIC[12] == 0 && forall k :: 0 <= k < 12 ==> ToLower(MAGIC[k]) as int == "mksqlite.tbh"[k] as int;
    assert ToLower(b[12]) == 0 <==> b[12] == 0;
  }

  /** The numeric classes, logical and char have data; an integer class has 1, 2, 4 or 8 bytes. */
  lemma ElementSizes(clsid: int)
    ensures ElementSize(clsid) > 0 <==> clsid == 3 || clsid == 4 || 6 <= clsid <= 15
    ensures ElementSize(3) == 1 && ElementSize(4) == 2 && ElementSize(DOUBLE_CLASS) == 8 && ElementSize(7) == 4
    ensures 8 <= clsid < 14 ==> ElementSize(clsid + 2) == 2 * ElementSize(clsid)
    ensures 8 <= clsid <= 14 && clsid % 2 == 0 ==> ElementSize(clsid + 1) == ElementSize(clsid)
    ensures ElementSize(UINT8_CLASS) == 1
  {}

  /** The compressor cannot inflate the data behind the long header. */
  predicate InflatingFails(b: seq<byte>, codecs: seq<byte> -> Codec)
    requires Readable(b)
  {
    && ValidMagic(b) && Version(b) == 48 && ElementSize(StoredClass(b)) > 0
    && var dims, size := HeaderDims(b, 48).value, ElementSize(StoredClass(b));
    codecs(CString(b, 32, 44)).unpack(b[48 + 4 * |dims|..], Product(dims) * size, size).None?
  }

  /** The blob holds a byte stream that MATLAB cannot deserialize. */
  predicate RestoringFails(b: seq<byte>, codecs: seq<byte> -> Codec, streamer: Streamer)
    requires Readable(b)
  {
    && ValidMagic(b) && Int32At(b, 16) == 0
    && DecodeArray(b, codecs).1.Some? && streamer.deserialize(DecodeArray(b, codecs).1.value).None?
  }

  /** Which code the reader returns when. An array without data, of an unknown class, is no error. */
  lemma DecodeCode(b: seq<byte>, codecs: seq<byte> -> Codec, streamer: Streamer)
    requires Readable(b)
    ensures var (code, item) := Decode(b, codecs, streamer);
      && code in {-1, 18, 20, 24}
      && (code == 20 <==> !(ValidMagic(b) && Version(b) in {36, 48}))
      && (code == 24 <==> InflatingFails(b, codecs))
      && (code == 18 <==> RestoringFails(b, codecs, streamer))
      && (item.Some? ==> code == -1)
      && (code == -1 && item.None? <==> code != 20 && ElementSize(StoredClass(b)) == 0)
  {
    hide Int32At, UInt16At, Product, CString, Dims, ValidMagic, HeaderDims;
  }

  /** Only the four bytes of the class ever change, and only to the class uint8. */
  lemma PatchedBytes(b: seq<byte>, k: nat)
    requires |b| >= V1_SIZE && k < |b|
    ensures AfterUnpack(b)[k] ==
      if ValidMagic(b) && Int32At(b, 16) == 0 && 16 <= k < 20 then (if k == 16 then 9 else 0) else b[k]
  {
    assert Int32Bytes(UINT8_CLASS) == [9, 0, 0, 0];
  }

  /** What the two lossy compressors emit for n doubles: two floats and 16 bits each, or a float each. */
  function QuantizedSize(n: nat): nat { 2 * 4 + n * 2 }

  function FloatSize(n: nat): nat { n * 4 }

  /** A double array is stored lossily only from four elements on: below, the headers outweigh the gain. */
  lemma LossyNeedsFourElements(a: MxArray, globalLevel: int, packed: seq<byte>)
    requires a.WellFormed() && a.clsid == DOUBLE_CLASS && globalLevel != 0 && packed != []
    requires |packed| == QuantizedSize(Product(a.dims)) || |packed| == FloatSize(Product(a.dims))
    ensures Compresses(a, globalLevel, packed) <==> Product(a.dims) >= 4
  {}

  // ----- blob_pack -------------------------------------------------------------------------------

  /** The check after compression: inflated again, the data are the same. */
  predicate InflatesBack(a: MxArray, codec: Codec) {
    var (code, content) := Inflated(a, codec);
    content.Some? && a.data <= content.value.data
  }

  /** The check after compression runs, and fails. */
  predicate CheckFails(a: MxArray, globalLevel: int, check: bool, codec: Codec) {
    check && !codec.lossy && Compresses(a, globalLevel, codec.pack(a)) && !InflatesBack(a, codec)
  }

  /** It never fails for a lossless compressor. */
  lemma CheckSucceeds(a: MxArray, globalLevel: int, check: bool, codec: Codec)
    requires a.WellFormed() && Lawful(codec)
    ensures !CheckFails(a, globalLevel, check, codec)
  {
    hide Lossless, Inflated, Product, ElementSize;
    if !codec.lossy && Compresses(a, globalLevel, codec.pack(a)) {
      CompressedNotEmpty(a, globalLevel, codec.pack(a));
      NonEmptyDimsSurvive(a);
      InflatedLossless(a, codec);
    }
  }

  /** And it fails exactly when the array that would be read is not the one that was stored. */
  lemma CheckExact(a: MxArray, globalLevel: int, codec: Codec)
    requires a.WellFormed() && Sized(codec) && Limited(codec) && !codec.lossy
    requires Compresses(a, globalLevel, codec.pack(a))
    ensures CheckFails(a, globalLevel, true, codec) <==> Inflated(a, codec) != (MSG_NOERROR, Some(a))
  {
    hide Product, ElementSize, Reread;
    CompressedNotEmpty(a, globalLevel, codec.pack(a));
    NonEmptyDimsSurvive(a);
    DimsRoundTrip(a.dims);
    var (code, content) := Inflated(a, codec);
    if content.Some? {
      assert |content.value.data| == |a.data|;
      assert a.data <= content.value.data <==> content.value.data == a.data;
    }
  }

  /**
   * And it is what it is for: a compressed blob that passed it comes back, even if the compressor
   * does not keep its contract.
   */
  lemma {:induction false} CheckedRoundTrip(blob: seq<byte>, item: Item, a: MxArray, codecs: seq<byte> -> Codec,
                                            name: seq<byte>, globalLevel: int, streamable: bool, streamer: Streamer)
    requires Environment(item, streamable, streamer, name) && Flat(item, streamable, streamer) == Some(a)
    requires PackedAs(blob, item, a, codecs(name), name, globalLevel) && |blob| <= MAX_BLOB_SIZE
    requires !codecs(name).lossy && Sized(codecs(name)) && Limited(codecs(name))
    requires Compresses(a, globalLevel, codecs(name).pack(a)) && !CheckFails(a, globalLevel, true, codecs(name))
    ensures Readable(blob) && Decode(blob, codecs, streamer) == (MSG_NOERROR, Some(item))
  {
    assert 0 < ElementSize(a.clsid) && 0 < a.clsid < 16 && |a.data| == Product(a.dims) * ElementSize(a.clsid);
    hide DecodeArray, ElementSize, Product, DimSurvives, HeaderDims, ValidMagic, Readable, Reread, Header;
    CompressedNotEmpty(a, globalLevel, codecs(name).pack(a));
    StoredDimsSurvive(blob, item, a, codecs(name), name, globalLevel);
    DimsRoundTrip(a.dims);
    DecodeCompressed(blob, StoreClass(item, a), a, name, codecs);
    assert Inflated(a, codecs(name)).1.value.data == a.data;
  }

  /** Steps 1 to 3: serialize what is not a plain array, compress if that pays, encapsulate. */
  method BlobPack(item: Item, streamable: bool, streamer: Streamer, codecs: seq<byte> -> Codec, name: seq<byte>,
                  globalLevel: int, check: bool, platform: seq<byte>, endian: byte)
    returns (code: int, blob: array?<byte>)
    requires Environment(item, streamable, streamer, name) && |platform| < 11
    ensures code == MSG_NOERROR <==> blob != null
    ensures Flat(item, streamable, streamer).None? ==> code == MSG_ERRMEMORY
    ensures Flat(item, streamable, streamer).Some? ==>
      var a, codec := Flat(item, streamable, streamer).value, codecs(name);
      && code == (if BlobSize(a, globalLevel, codec.pack(a)) > MAX_BLOB_SIZE then MSG_BLOBTOOBIG
                  else if CheckFails(a, globalLevel, check, codec) then MSG_ERRCOMPRESSION
                  else MSG_NOERROR)
      && (code == MSG_NOERROR ==> PackedAs(blob[..], item, a, codec, name, globalLevel))
    ensures blob != null ==> fresh(blob) && Origin(blob[..], platform, endian)
    ensures code == 18 <==> item.Complex? && (!streamable || streamer.serialize(item).None?)
    ensures code != 18 ==>
      var a := if item.Plain? then item.value else streamer.serialize(item).value;
      var packed := codecs(name).pack(a);
      var size := if globalLevel != 0 && packed != [] && |packed| + 12 < |a.data| then 48 + 4 * |a.dims| + |packed|
                  else 36 + 4 * |a.dims| + |a.data|;
      code == 23 <==> size >= 0x8000_0000
  {
    hide Inflated, Origin, Header, FieldAt, ElementSize, Product, InflatesBack;
    var a;
    match item {
      case Plain(value) => a := value;
      case Complex(_) =>
        if !streamable {
          return MSG_ERRMEMORY, null;
        }
        var stream := streamer.serialize(item);
        if stream.None? {
          return MSG_ERRMEMORY, null;
        }
        a := stream.value;
    }
    blob := null;
    if globalLevel != 0 {
      var codec := codecs(name);
      var result := codec.pack(a);
      if |result| > 0 && SizeCompressed(a, result) >= SizeUncompressed(a) {
        result := [];
      }
      if |result| > 0 {
        if SizeCompressed(a, result) > MAX_BLOB_SIZE {
          return MSG_BLOBTOOBIG, null;
        }
        var tbh2 := PackCompressed(a, result, name, platform, endian);
        if check && !codec.lossy {
          var equal := InflatesEqual(tbh2, a, codecs, name, streamer);
          if !equal {
            return MSG_ERRCOMPRESSION, null;
          }
        }
        blob := tbh2;
      }
    }
    if blob == null {
      if SizeUncompressed(a) > MAX_BLOB_SIZE {
        return MSG_BLOBTOOBIG, null;
      }
      blob := PackUncompressed(a, platform, endian);
    }
    if item.Complex? {
      MarkStream(blob, a, codecs(name), name, globalLevel);
    }
    code := MSG_NOERROR;
  }

  /**
   * The optional check after compression. blob_unpack never returns 0, so the test of its return
   * value does not detect a failure; the comparison of the data does (a missing array is taken as
   * different; the code would compare with a null pointer).
   */
  method InflatesEqual(blob: array<byte>, a: MxArray, codecs: seq<byte> -> Codec, name: seq<byte>, streamer: Streamer)
    returns (equal: bool)
    requires a.WellFormed() && |name| < 12 && 0 !in name
    requires Compressed(blob[..], a.clsid, a, name, codecs(name).pack(a))
    modifies blob
    ensures blob[..] == old(blob[..])
    ensures equal == InflatesBack(a, codecs(name))
  {
    ghost var b := blob[..];
    DecodeCompressed(b, a.clsid, a, name, codecs);
    assert 0 < ElementSize(a.clsid) && 0 < a.clsid < 16;
    var code, item := BlobUnpack(blob, codecs, streamer);
    if code == 0 {
      return false;
    }
    equal := item.Some? && item.value.Plain? && a.data <= item.value.value.data;
  }

  /** The class of a serialized item is overwritten at the end. */
  method MarkStream(blob: array<byte>, a: MxArray, codec: Codec, name: seq<byte>, globalLevel: int)
    requires a.WellFormed() && |name| < 12 && PackedAs(blob[..], Plain(a), a, codec, name, globalLevel)
    modifies blob
    ensures forall handle :: PackedAs(blob[..], Complex(handle), a, codec, name, globalLevel)
    ensures forall platform, endian ::
      |platform| < 11 && Origin(old(blob[..]), platform, endian) ==> Origin(blob[..], platform, endian)
  {
    hide FieldAt, Int32Bytes, Int16Bytes, Wrap32;
    Store(blob, 16, Int32Bytes(UNKNOWN_CLASS));
  }
}
