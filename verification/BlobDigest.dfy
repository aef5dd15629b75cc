/**
 * The BLOB branch of the SQL function md5 (MD5_func in sql_builtin_functions.hpp): the digest is
 * that of the array data, whichever way the array is stored.
 */
module BlobDigest {
  import opened Bytes
  import opened TypedBlob
  import Rfc1321
  import Rfc1321Example
  import Md5Stream

  function Bits(data: seq<byte>): (b: seq<Rfc1321.Byte>)
    ensures |b| == |data|
  {
    seq(|data|, i requires 0 <= i < |data| => data[i] as Rfc1321.Byte)
  }

  /**
   * Undefined: the result string is made from a digest buffer nobody filled (the unpacking failed),
   * or from the storage of a deserialized struct or cell.
   */
  datatype SqlResult = Digest(bytes: seq<Rfc1321.Byte>) | Null | Undefined

  /** getData and "bytes - dataOffset()" of an uncompressed blob. */
  function RawData(b: seq<byte>): seq<byte>
    requires |b| >= V1_SIZE && HeaderDims(b, V1_SIZE).Some?
  {
    b[DataOffset(V1_SIZE, |HeaderDims(b, V1_SIZE).value|)..]
  }

  /** The comparison with the magic string ends within the blob. */
  predicate MagicDecided(b: seq<byte>) {
    |b| >= 13 || exists k :: 0 <= k < |b| && ToLower(b[k]) != ToLower(MAGIC[k])
  }

  /** Everything md5 reads lies inside the blob; as for blob_unpack, the code does not check it. */
  predicate Digestible(b: seq<byte>) {
    && MagicDecided(b)
    && (ValidMagic(b) ==>
      && |b| >= 16
      && (Version(b) == V1_SIZE ==> |b| >= V1_SIZE && HeaderDims(b, V1_SIZE).Some?)
      && (Version(b) == V2_SIZE ==> Readable(b)))
  }

  /** What md5 returns for the blob b. */
  function Md5OfBlob(b: seq<byte>, codecs: seq<byte> -> Codec, streamer: Streamer): SqlResult
    requires Digestible(b)
  {
    if !ValidMagic(b) then Digest(Rfc1321.Md5(Bits(b)))
    else if Version(b) == V1_SIZE then Digest(Rfc1321.Md5(Bits(RawData(b))))
    else if Version(b) == V2_SIZE then
      match Decode(b, codecs, streamer).1
      case Some(Plain(a)) => Digest(Rfc1321.Md5(Bits(a.data)))
      case _ => Undefined
    else Null
  }

  method Md5Func(blob: array<byte>, codecs: seq<byte> -> Codec, streamer: Streamer) returns (result: SqlResult)
    requires Digestible(blob[..])
    modifies blob
    ensures result == Md5OfBlob(old(blob[..]), codecs, streamer)
  {
    hide Int32At, UInt16At, Product, ElementSize, CString, Dims, ValidMagic, HeaderDims, DecodeArray, Readable;
    hide Bits, Rfc1321.Md5;
    if !ValidMagic(blob[..]) {
      result := DigestOf(blob[..]);
    } else if Version(blob[..]) == V1_SIZE {
      result := DigestOf(RawData(blob[..]));
    } else if Version(blob[..]) == V2_SIZE {
      var code, item := BlobUnpack(blob, codecs, streamer);
      // MSG_NOERROR is -1 and every error is positive: only the item tells success from failure
      if code != 0 && item.Some? && item.value.Plain? {
        result := DigestOf(item.value.value.data);
      } else {
        result := Undefined;
      }
    } else {
      result := Null;
    }
  }

  method DigestOf(data: seq<byte>) returns (result: SqlResult)
    ensures result == Digest(Rfc1321.Md5(Bits(data)))
  {
    hide Rfc1321.Md5, Bits;
    var digest := Md5Stream.Digest([Bits(data)]);
    assert Md5Stream.Flatten([Bits(data)]) == Bits(data);
    result := Digest(digest);
  }

  /** md5 of a stored array is the digest of its data, uncompressed or losslessly compressed. */
  lemma {:induction false} Md5IgnoresStorage(blob: seq<byte>, a: MxArray, codecs: seq<byte> -> Codec, name: seq<byte>,
                                             globalLevel: int, streamer: Streamer)
    requires Environment(Plain(a), false, streamer, name) && Lawful(codecs(name))
    requires PackedAs(blob, Plain(a), a, codecs(name), name, globalLevel) && |blob| <= MAX_BLOB_SIZE
    requires !codecs(name).lossy || !Compresses(a, globalLevel, codecs(name).pack(a))
    ensures Digestible(blob)
    ensures Md5OfBlob(blob, codecs, streamer) == Digest(Rfc1321.Md5(Bits(a.data)))
  {
    assert 0 < ElementSize(a.clsid) && 0 < a.clsid < 16;
    hide Int32At, UInt16At, Product, ElementSize, CString, Dims, ValidMagic, Int32Bytes, Int16Bytes, Wrap32;
    hide Bits, DecodeArray, Rfc1321.Md5, HeaderDims, Readable, Reread, Lossless, Limited;
    RoundTrip(blob, Plain(a), a, codecs, name, globalLevel, false, streamer);
    if Compresses(a, globalLevel, codecs(name).pack(a)) {
      CompressedNotEmpty(a, globalLevel, codecs(name).pack(a));
      HeaderRoundTrip(blob, V2_SIZE, a.clsid, a.dims);
    } else {
      HeaderRoundTrip(blob, V1_SIZE, a.clsid, a.dims);
      var at := DataOffset(V1_SIZE, |a.dims|);
      assert RawData(blob) == blob[at..at + |a.data|] == a.data;
    }
  }

  /** The bytes that are digested are the bytes of the data. */
  lemma BitsAre(data: seq<byte>)
    ensures forall i :: 0 <= i < |data| ==> Bits(data)[i] as int == data[i] as int
  {
    forall i | 0 <= i < |data| ensures Bits(data)[i] as int == data[i] as int {
      Rfc1321.ByteValue(data[i] as nat);
    }
  }

  /** A blob that does not start with the magic text is digested as it is, whatever its length. */
  lemma RawBlob(b: seq<byte>, k: nat, codecs: seq<byte> -> Codec, streamer: Streamer)
    requires k < 12 && k < |b| && ToLower(b[k]) as int != "mksqlite.tbh"[k] as int
    ensures Digestible(b) && Md5OfBlob(b, codecs, streamer) == Digest(Rfc1321.Md5(Bits(b)))
  {
    hide Bits, Rfc1321.Md5, ToLower;
    assert ToLower(MAGIC[k]) as int == "mksqlite.tbh"[k] as int by { MagicLetter(k); }
  }

  lemma MagicLetter(k: nat)
    requires k < 12
    ensures ToLower(MAGIC[k]) as int == "mksqlite.tbh"[k] as int
  {}

  /** For instance the blob 'abc', with the digest of RFC 1321 section A.5. */
  lemma DigestOfAbcBlob(codecs: seq<byte> -> Codec, streamer: Streamer)
    ensures Digestible([0x61, 0x62, 0x63])
    ensures Md5OfBlob([0x61, 0x62, 0x63], codecs, streamer) == Digest(Rfc1321Example.DIGEST)
  {
    hide Rfc1321.Md5;
    var b: seq<byte> := [0x61, 0x62, 0x63];
    RawBlob(b, 0, codecs, streamer);
    assert Bits(b) == Rfc1321Example.ABC;
    Rfc1321Example.DigestOfAbc();
  }

  /** What is digested of a blob with the magic text, and that any other version than the two has no digest. */
  lemma TypedBlobDigest(b: seq<byte>, codecs: seq<byte> -> Codec, streamer: Streamer)
    requires Digestible(b) && ValidMagic(b)
    ensures var r := Md5OfBlob(b, codecs, streamer);
      && (r == Null <==> UInt16At(b, 14) != 36 && UInt16At(b, 14) != 48)
      && (UInt16At(b, 14) == 36 ==> var n := Int32At(b, 32);
            0 <= n && 36 + 4 * n <= |b| && r == Digest(Rfc1321.Md5(Bits(b[36 + 4 * n..]))))
      && (UInt16At(b, 14) == 48 ==>
            (r == Undefined <==> Decode(b, codecs, streamer).1.None? || Decode(b, codecs, streamer).1.value.Complex?))
  {
    hide Bits, Rfc1321.Md5, ValidMagic, UInt16At, Int32At, Decode, Readable;
  }
}
