# A Dafny model of mksqlite

mksqlite is a MATLAB extension that talks to SQLite. Most of it is glue, but it contains a number of
algorithms and stateful protocols of its own. This project models those in Dafny and proves what they
promise, over all inputs and all runs. `dafny verify dfyconfig.toml` checks everything.

| file | what it models |
|---|---|
| Rfc1321, Rfc1321Example, Md5Body, Md5Stream | the streaming MD5 of `md5/md5.c`, against RFC 1321 sections 3.1 to 3.5 and one digest of section A.5 |
| Bytes, TypedBlob, BlobDigest | typed BLOBs: two packed headers, `blob_pack`, `blob_unpack`, SQL `md5` of a BLOB |
| Quantizer, QuantizedBlob | the lossy compressors QLIN16 and QLOG16, by themselves and inside typed BLOBs |
| FieldNames | unique MATLAB field names for the columns of a query |
| Columns, Results, Statement | binding one argument list to many runs of a statement, collecting the rows in columns, and returning the table in one of three layouts |
| Handles | custody of memory in `ValueSQL` handles |
| Registry, Aggregate | application-defined SQL functions: the name map against SQLite's registrations, and the group data of aggregates |
| Uuid, Latin1 | UUID text and blob (RFC 4122), Latin-1 and UTF-8 (RFC 3629) |

Code that works by changing things is modelled as methods and classes with the source's own fields
and loops, each proved against a specification; the properties are then lemmas about the
specification. SQLite, the MATLAB API and the lossless compressors appear as functions or answers
about which nothing is known beyond a stated contract: `TypedBlob.Lawful` (inflating undoes deflating,
or the compressor reports nothing; blosc takes less than 2 GiB at a time, the lossy compressors emit two
bytes or more for each element), `TypedBlob.Environment`, `Columns.Casts.Lawful` (the
casts between 64-bit integers and doubles), `Statement.Database.Lawful` (all rows of a statement have
the same width), `Quantizer.Mode.Lawful` (logarithm and exponential are monotone inverses).

## Where the code and what is said about it differ

The model follows the code. The lemmas that record the difference are named.

- The mask `0xFFF8u` applies to the code after its cast, so the low three bits of every code are
  cleared: there are 8192 levels, not the 65529 of the comment at number_compressor.hpp:701
  (`Quantizer.CodeInRange`, `Quantizer.ErrorBound`).
- Success is the return code -1, so the test `!blob_unpack(...)` at sql_builtin_functions.hpp:918
  never detects a failure; the comparison behind it does the work (`TypedBlob.BlobPack`,
  `TypedBlob.InflatesEqual`). Likewise the test at sql_builtin_functions.hpp:538 is always true.
- `blob_unpack` writes the class of a byte stream into the caller's blob. A second call then returns
  the raw bytes instead of the item (`TypedBlob.SecondUnpack`).
- A dimension is stored in 32 bits, so a plain array comes back exactly when every dimension survives
  that (`TypedBlob.DimRoundTrip`, `TypedBlob.RoundTrip`). Of the arrays that can be stored only empty
  ones can have a dimension that does not (`TypedBlob.StoredDimsSurvive`, `TypedBlob.LostDimension`).
- "X" is put before a name after it was truncated, so a field name can be one character longer than
  MATLAB allows. That happens if and only if some column name is at least as long as the limit and
  does not start with a letter (`FieldNames.TooLongSomewhere`, `FieldNames.TooLong`), for instance
  for a column of digits (`FieldNames.DigitsAreTooLong`).
- 98 numbered candidates are tried for a column name, not 100: 98 columns always get names, and for
  every length limit there are 99 columns that do not (`FieldNames.NinetyEightAlwaysWork`,
  `FieldNames.NinetyNineFailSomewhere`, `FieldNames.AlwaysNameable`).
- `closeDb` deletes the functors before it asks SQLite to close. If SQLite refuses, it keeps
  registrations whose objects are gone. The map and SQLite agree throughout a run exactly when no
  close is refused while there are functions (`Registry.AgreeThroughout`,
  `Registry.RefusedCloseDangles`).
- All groups of an aggregate share one data cell. A result is right if and only if the rows stepped
  through since the last final call are the rows of its own group (`Aggregate.RightIffOwnRows`), so
  contiguous groups that are each finished are computed correctly (`Aggregate.EachGroup`). A group
  that is abandoned after an error shows through in the next one (`Aggregate.AbandonedGroupLeaks`,
  `Aggregate.AbandonedSum`), and two uses of one aggregate in the same query mix
  (`Aggregate.InterleavedGroupsMix`, `Aggregate.MixedSums`). A nested final call is refused and clears
  the cell all the same (`Aggregate.MexFunctors.Wrapper`).
- An integer that rounds to 2^63 is cast back from a double outside the range of 64 bits, which is
  undefined. It is kept exactly unless that cast happens to return it (`Columns.IntegerExact`).
- `utils_utf2latin` takes two bytes wherever it finds one from 128 on. If that one is the last of the
  text, it steps over the terminator and reads on (`Latin1.InsideIffPaired`, `Latin1.LoneLeadByte`).
- UTF-8 text comes back from Latin-1 unchanged exactly when its code points end at U+00FF
  (`Latin1.UtfRoundTrip`).

## Model

| member | source | states |
|---|---|---|
| Md5Body.FRewrite | md5/md5.c:51 | the rewritten F is RFC 1321's F on all words |
| Md5Body.GRewrite | md5/md5.c:52 | the rewritten G is RFC 1321's G on all words |
| Md5Body.H2Rewrite | md5/md5.c:54 | H2, grouped to the right, is the same H |
| Rfc1321.RotlRotates | md5/md5.c:62 | shift-or is a left rotation for every shift that occurs |
| Md5Body.Step | md5/md5.c:60-63 | one STEP is one operation of RFC 1321 section 3.4: add, rotate, add |
| Rfc1321.WordIndexFormula | md5/md5.c:120-189 | the word order of the four rounds follows i, 5i+1, 3i+5 and 7i modulo 16 |
| Md5Body.Round1 | md5/md5.c:120-135 | the sixteen unrolled steps with rotating registers are operations 0 to 15 of the table-driven round |
| Md5Body.Round2 | md5/md5.c:138-153 | the same for operations 16 to 31 |
| Md5Body.Round3 | md5/md5.c:156-171 | the same for operations 32 to 47, with H and H2 alternating |
| Md5Body.Round4 | md5/md5.c:174-189 | the same for operations 48 to 63 |
| Md5Body.CompressBlock | md5/md5.c:113-196 | one turn of the loop is the compression function of RFC 1321 section 3.4 |
| Md5Body.SetBits | md5/md5.c:86-91 | or-ing shifted bytes is little-endian decoding |
| Md5Body.ReadWords | md5/md5.c:81-91 | the sixteen words of a block, low-order byte first (section 2) |
| Rfc1321.WordBytesRoundTrip | md5/md5.c:252-256 | OUT writes a word so that SET reads the same word |
| Rfc1321.FoldAppend | md5/md5.c:100-205 | compressing whole blocks in two portions is compressing them in one |
| Rfc1321.LittleEndianValue | md5/md5.c:252-256 | the four bytes of a number below 2^32 are its digits to the base 256, the lowest one first |
| Rfc1321.LengthFieldValue | md5/md5.c:275-279 | for every length, the eight bytes of the length field, read low-order first, are the number of bits modulo 2^64 |
| Rfc1321.PaddingShape | md5/md5.c:260-279 | the padded message is the message, the byte 0x80, zeros, and that length field; it fills whole blocks, with less than 64 zeros |
| Rfc1321Example.DigestOfAbc | md5/md5.c:207-289 | the reference digest of "abc" is the one RFC 1321 lists in section A.5, derived through all 64 operations |
| Md5Stream.Md5Context.Init | md5/md5.c:207-216 | establishes the streaming invariant for the empty message |
| Md5Stream.Md5Context.Body | md5/md5.c:100-205 | the chaining state becomes the fold over all blocks; the loop ends exactly at the end |
| Md5Stream.Md5Context.Count | md5/md5.c:223-226 | the 29-bit and 32-bit counters are the byte count modulo 2^61 |
| Md5Stream.CounterAdvances | md5/md5.c:223-226 | masked addition with carry is addition modulo 2^61, for every size |
| Md5Stream.FlattenInOrder | md5/md5.c:218-250 | the message is the pieces in their order |
| Md5Stream.Md5Context.Update | md5/md5.c:218-250 | keeps the invariant for any piece: state is the fold over full blocks, buffer prefix is the tail, counters are the length; the message grows by the piece |
| Md5Stream.BitCount | md5/md5.c:276-279 | shifted low counter and high counter, low-order byte first, are the length field, whose value Rfc1321.LengthFieldValue gives |
| Md5Stream.PaddingUnique | md5/md5.c:260-279 | what Final appends is the padding whose shape Rfc1321.PaddingShape gives: only one number of zeros completes a block |
| Md5Stream.Md5Context.Final | md5/md5.c:258-289 | the result is the RFC 1321 digest of the whole message, and the context is wiped |
| Md5Stream.Digest | md5/md5.c:207-289 | for every cutting of a message into pieces, empty and multi-block ones included, Init, Updates and Final give the digest of the concatenation |
| TypedBlob.InitHeader | typed_blobs.hpp:326-339 | the header has magic, platform, header size as version, class, byte order, and the dimensions cut to 32 bits |
| Bytes.LittleEndian | typed_blobs.hpp:165-173 | the integers of the packed header are stored low-order byte first, as on all little-endian machines |
| TypedBlob.StoredBytes | typed_blobs.hpp:165-320 | every defined byte of a stored blob at its place: magic text, version 36 or 48, class (0 for a serialized item), in the long layout the compressor's name, the dimensions, the data |
| TypedBlob.OriginBytes | typed_blobs.hpp:170-171 | the platform's name and the byte order stand at 20 and 31 |
| TypedBlob.SameLetter | typed_blobs.hpp:186-189 | two characters are the same for the comparison if and only if they are equal or a letter in both cases |
| TypedBlob.MagicAnyCase | typed_blobs.hpp:186-189 | a blob is taken for a typed one if and only if it starts with the magic text, in any case, and its terminator |
| TypedBlob.ElementSizes | typed_blobs.hpp:193-216 | exactly the classes that typed blobs support have data; the sizes of the elements |
| TypedBlob.ProductOf | typed_blobs.hpp:243-247 | the number of elements is the product of the dimensions, from whichever end |
| TypedBlob.HeaderRoundTrip | typed_blobs.hpp:326-443 | a written header is read back with its version, class and number of dimensions, each dimension as its 32-bit field leaves it |
| TypedBlob.DimsRoundTrip | typed_blobs.hpp:337 | the dimensions are the same if and only if each survives its 32-bit field |
| TypedBlob.DimRoundTrip | typed_blobs.hpp:337 | which dimensions survive the cast to int32 and back to mwSize, exactly |
| TypedBlob.NonEmptyDimsSurvive | sql_builtin_functions.hpp:951-957 | all dimensions of an array of less than 2 GiB of data that is not empty survive |
| TypedBlob.StoredDimsSurvive | sql_builtin_functions.hpp:851-957 | so do those of every array that is stored, in either layout, and is not empty |
| TypedBlob.SameCount | typed_blobs.hpp:421-443 | for every array of less than 2 GiB, empty ones included, the number of elements read is the number stored |
| TypedBlob.PackUncompressed | sql_builtin_functions.hpp:959-974 | the 36-byte layout: header, dimensions, raw data |
| TypedBlob.PackCompressed | sql_builtin_functions.hpp:893-908 | the 48-byte layout: the same prefix, then the compressor's name, dimensions, compressed data |
| TypedBlob.BlobPack | sql_builtin_functions.hpp:787-990 | exactly which code is returned when, with the sizes that decide it written out, and that the emitted blob is the compressed layout if that is smaller and the uncompressed one otherwise, with the class cleared for serialized items |
| TypedBlob.InflatesEqual | sql_builtin_functions.hpp:911-937 | the check after compression tells whether the array, as it would be read, has the same data, and leaves the new blob unchanged |
| TypedBlob.CheckSucceeds | sql_builtin_functions.hpp:911-937 | it never fails for a lossless compressor |
| TypedBlob.CheckExact | sql_builtin_functions.hpp:911-937 | it fails if and only if the array that would be read is not the one that was stored, whatever the compressor does |
| TypedBlob.CheckedRoundTrip | sql_builtin_functions.hpp:911-937 | a compressed blob that passed it gives back the item even if the compressor is not lossless |
| TypedBlob.MarkStream | sql_builtin_functions.hpp:977-981 | clearing the class turns the blob of a byte stream into that of the serialized item, in either layout |
| TypedBlob.ReadContent | sql_builtin_functions.hpp:1052-1110 | the switch over the version field reads the array that the specification of the reader gives, or the error code |
| TypedBlob.BlobUnpack | sql_builtin_functions.hpp:1003-1140 | code and item for every readable blob, and exactly which bytes of the caller's blob are changed |
| TypedBlob.DecodeCode | sql_builtin_functions.hpp:1039-1123 | which code is returned when: a wrong magic or version, failed inflating, failed deserializing, each exactly; an unknown class is no error and gives no array |
| TypedBlob.PatchedBytes | sql_builtin_functions.hpp:1046-1050 | only the four bytes of the class of a byte stream change, to uint8 |
| TypedBlob.DecodeUncompressed | typed_blobs.hpp:360-443 | a blob in the short layout is never taken for the long one, and gives back class and data, and the dimensions as their fields leave them |
| TypedBlob.DecodeCompressed | sql_builtin_functions.hpp:1063-1105 | a blob in the long layout is never taken for the short one, and gives back what the compressor makes of the packed data for the dimensions that were read |
| TypedBlob.RoundTrip | sql_builtin_functions.hpp:787-1140 | unpacking what was packed returns the item, whichever header was chosen, for any lossless compressor and for a lossy one whose output was not kept: always if the array is not empty, and for a plain array if and only if every dimension survives its 32-bit field |
| TypedBlob.LostDimension | typed_blobs.hpp:337 | an empty array with a dimension of 2^31 comes back with another dimension |
| TypedBlob.SecondUnpack | sql_builtin_functions.hpp:1046-1050 | unpacking leaves the blob alone if and only if it is no byte stream; what a second call then returns |
| TypedBlob.NeverLarger | sql_builtin_functions.hpp:851-880 | the blob is never larger than the uncompressed one; its version is 48 if and only if compression is on, the compressor yielded something, and that is more than 12 bytes shorter than the data, whatever the class; both sizes |
| TypedBlob.LossyNeedsFourElements | sql_builtin_functions.hpp:855-878 | a double array is stored by QLIN16, QLOG16 or FLOAT if and only if it has at least four elements (sizes from number_compressor.hpp:563 and 678) |
| BlobDigest.Md5Func | sql_builtin_functions.hpp:508-549 | the BLOB branch computes the specified digest, of raw blobs of any length included, or leaves it unset |
| BlobDigest.RawBlob | sql_builtin_functions.hpp:515-522 | a blob without the magic text is digested as it is, whatever its length |
| BlobDigest.DigestOfAbcBlob | sql_builtin_functions.hpp:515-522 | md5 of the blob 'abc' is the digest of RFC 1321 section A.5 |
| BlobDigest.BitsAre | sql_builtin_functions.hpp:519 | the bytes digested are the bytes of the blob |
| BlobDigest.TypedBlobDigest | sql_builtin_functions.hpp:524-545 | of a typed blob the bytes behind the dimensions are digested; another version than the two has no digest; when the digest is left unset |
| BlobDigest.Md5IgnoresStorage | sql_builtin_functions.hpp:508-549 | md5 of a stored array is the RFC 1321 digest of its data bytes, the same for the uncompressed and every lossless encoding |
| Quantizer.NumberCompressor.SeekLimits | number_compressor.hpp:650-667 | the scan finds the least and greatest finite nonzero value, or reports that there is none |
| Quantizer.LimitsBound | number_compressor.hpp:650-667 | the limits are values of the array and bound all its finite values |
| Quantizer.RefusedExactly | number_compressor.hpp:669-674 | data are refused if and only if the mode is logarithmic and there is a negative value |
| Quantizer.NumberCompressor.LinlogQuantizerCompress | number_compressor.hpp:629-746 | fails exactly for data that are not double, and in logarithmic mode for data with a negative value; otherwise offset, scale and one code per element |
| Quantizer.NumberCompressor.LinlogQuantizerDecompress | number_compressor.hpp:760-816 | every element is decoded in place by its code |
| Quantizer.CodeInRange | number_compressor.hpp:721-742 | codes fit 16 bits; a code is above 0xFFF8 if and only if the value is zero or not finite; other codes are multiples of eight |
| Quantizer.SpecialCodes | number_compressor.hpp:729-742 | zeros, infinities and NaN have the codes 0xFFF9 to 0xFFFD and decode to themselves; the two codes above mean nothing |
| Quantizer.OffsetAndScale | number_compressor.hpp:686-711 | the offset is the least value, and 0xFFF8 times the scale is the range, or 1 if there is none; in logarithmic mode those of the logarithms |
| Quantizer.ErrorBound | number_compressor.hpp:702-725 | a finite value decodes to at most itself, by less than 1/8191 of the range, exactly if all values are equal; in logarithmic mode the same for the logarithms |
| Quantizer.ValueErrorBound | number_compressor.hpp:702-813 | the same on the decoded value itself: at most the original, at least the least value, and less than 1/8191 of the range away, or with its logarithm |
| Quantizer.ImageAt | number_compressor.hpp:784-813 | zeros, infinities and NaN come back as themselves, with their sign |
| Quantizer.LimitsDecodeExactly | number_compressor.hpp:691-725 | the least and the greatest value decode exactly |
| Quantizer.OrderPreserved | number_compressor.hpp:718-811 | decoded finite values keep their order |
| Quantizer.ImageLimits | number_compressor.hpp:650-711 | the decoded array has the same limits, even when a middle value decodes to zero, so offset and scale are reproduced |
| Quantizer.Idempotent | number_compressor.hpp:629-816 | compressing and decompressing an array that has been through it already changes nothing |
| Quantizer.MemoryIrrelevant | number_compressor.hpp:786-796 | no code that compression writes leaves an element as it was |
| Quantizer.PackAndUnpack | number_compressor.hpp:629-816 | compression fails exactly for negative data in logarithmic mode; followed by decompression into any memory it gives the image the lemmas speak of |
| QuantizedBlob.QuantizerLawful | number_compressor.hpp:676-725 | the quantizer keeps the contract that packing relies on: at least two bytes for each element |
| QuantizedBlob.PackedLayout | number_compressor.hpp:676-742 | the packed bytes: offset and scale as floats, then two bytes for each code; when nothing is packed |
| QuantizedBlob.ImageUnpacked | number_compressor.hpp:687-813 | unpacking the bytes it packed gives the image of the data, if offset and scale are floats |
| QuantizedBlob.StoredImage | sql_builtin_functions.hpp:787-1140 | a stored double array comes back with its class and dimensions, and with the image of its data if they were stored compressed |
| QuantizedBlob.StoredErrorBound | number_compressor.hpp:702-725 | so each finite value of a stored array comes back from a level less than 1/8191 of the range below it |
| FieldNames.FindName | sql_interface.hpp:1369-1403 | the restarting loop ends with the first candidate that no earlier column has, or when all of them are taken |
| FieldNames.GetColNames | sql_interface.hpp:1345-1413 | fails if and only if some column has no free candidate; otherwise each column gets its first free one |
| FieldNames.BaseIs | sql_interface.hpp:1354-1364 | the name before any suffix, character by character: cut, letters and digits kept, '_' for everything else, "X" in front unless it starts with a letter |
| FieldNames.BaseExamples | sql_interface.hpp:1317-1330 | examples of that for names with blanks, parentheses, a leading digit or underscore, and the empty name |
| FieldNames.UsableKept | sql_interface.hpp:1354-1364 | a name that MATLAB accepts is kept |
| FieldNames.SuffixIs | sql_interface.hpp:1381-1382 | the suffix is '_' and the number in decimal notation |
| FieldNames.CandidateIs | sql_interface.hpp:1383-1386 | a numbered candidate is the start of the base and the suffix, as long as the limit allows |
| FieldNames.GoodNamesKept | sql_interface.hpp:1345-1413 | column names that are usable and distinct already are the field names |
| FieldNames.SecondGetsOne | sql_interface.hpp:1369-1403 | the second of two equal names gets the suffix _1 |
| FieldNames.NamesAreUsable | sql_interface.hpp:1354-1406 | names are pairwise distinct and made of letters, digits and underscores after a letter |
| FieldNames.TooLong | sql_interface.hpp:1354-1364 | a name is longer than the limit, by one character, exactly for the first of the columns that are cut and then prefixed to the same name |
| FieldNames.TooLongSomewhere | sql_interface.hpp:1354-1364 | there is such a name if and only if some column name has at least as many characters as the limit and does not start with a letter |
| FieldNames.DigitsAreTooLong | sql_interface.hpp:1354-1364 | for every limit one column of digits is enough |
| FieldNames.NamesDetermined | sql_interface.hpp:1367-1406 | the columns determine the names |
| FieldNames.NamedIsNotUnnameable | sql_interface.hpp:1398-1404 | getting names and MSG_ERRVARNAME exclude each other |
| FieldNames.CandidatesDiffer | sql_interface.hpp:1383-1387 | the numbered candidates of one name are pairwise distinct after truncation |
| FieldNames.ExhaustionNeedsColumns | sql_interface.hpp:1374-1396 | all candidates can be taken only by 98 earlier columns |
| FieldNames.NinetyEightAlwaysWork | sql_interface.hpp:1367-1406 | no query with at most 98 columns gets MSG_ERRVARNAME, for every length limit from 4 on |
| FieldNames.NinetyNineFailSomewhere | sql_interface.hpp:1374-1404 | for every such limit some 99 columns do get it |
| FieldNames.AlwaysNameable | sql_interface.hpp:1374-1404 | for every number n: all queries with n columns get names if and only if n is at most 98 |
| Columns.ValueSQLCol.constructor | value.hpp:1053-1056 | a new column is empty and numeric |
| Columns.ValueSQLCol.SwapToAnyType | value.hpp:1112-1129 | the switch to individual values loses nothing and empties the other vector |
| Columns.ValueSQLCol.AppendInteger | value.hpp:1144-1160 | an integer is stored as a double if the cast there and back returns it, and as itself otherwise |
| Columns.ValueSQLCol.Append | value.hpp:1191-1247 | after any appends the column holds the stored form of exactly the appended values, the inactive vector is empty, and the column is numeric if and only if all of them are doubles |
| Columns.ValueSQLCol.Destroy | value.hpp:1083-1089 | one element loses its value; nothing else changes |
| Columns.IntegerExact | value.hpp:1144-1160 | every 64-bit integer is kept exactly unless it rounds to 2^63 and the cast back happens to return it; as a double if and only if the double is exact |
| Columns.StoredAsItself | value.hpp:1191-1247 | texts, blobs and doubles are stored as themselves, integers up to 2^53 as doubles, NULL as NaN if and only if the flag is set |
| Columns.Fill | value.hpp:1090-1247 | a column filled with any sequence shows it, NULL as NaN if and only if the flag is set |
| Results.AppendRow | sql_interface.hpp:1485-1535 | a row puts one value into each column |
| Results.Fetch | sql_interface.hpp:1447-1551 | the first call names and creates the columns, and executes nothing if they cannot be named; afterwards they hold the earlier rows and then the new ones, or a failure leaves none |
| Results.RowsInOrder | sql_interface.hpp:1447-1551 | the rows of several runs come in the order of the runs |
| Results.PositionBijective | mksqlite.cpp:2219-2238 | i * rows + row is a bijection between cells and positions |
| Results.MatrixDetermined | mksqlite.cpp:2189-2252 | a matrix that shows a table contains nothing else |
| Results.ItemHolds | mksqlite.cpp:264-331 | what each value becomes: a string for a text, int64 for an integer, the bytes of a blob, NaN or an empty matrix for NULL |
| Results.ItemsDiffer | mksqlite.cpp:264-331 | results lose nothing: different values become different items, but for NULL shown as NaN |
| Results.MoveRows | mksqlite.cpp:2067-2088 | the row loop puts what each value becomes (Results.ItemHolds) at its place, reads no element it has released, and releases them all |
| Results.OneFieldEach | mksqlite.cpp:2060-2064 | after a field was added for each column, each name has exactly one |
| Results.LastColumnHeld | mksqlite.cpp:2060-2082 | and it holds the last column of that name |
| Results.AllFieldsShown | mksqlite.cpp:2060-2082 | so all columns are shown if and only if their names are distinct |
| Results.CreateArrayOfStructs | mksqlite.cpp:2047-2092 | result(row).name is the value in that row of the last column of that name; fails exactly if a name is there already and MATLAB refuses it; all column memory is released |
| Results.CreateStructOfArrays | mksqlite.cpp:2107-2176 | the same for result.name(row); the vector is numeric if and only if the column is |
| Results.CreateMatrix | mksqlite.cpp:2189-2252 | result(row, i) is that value; the matrix is numeric if and only if all columns are |
| Results.Present | mksqlite.cpp:2529-2582 | the table is presented in the layout asked for, or refused for a repeated name; every value of every row is found in its cell (Results.CellFound) |
| Results.CellFound | mksqlite.cpp:2047-2252 | a text in a row is found as that text in its cell, in every layout; likewise blobs, numbers and NULL; in a struct under the name of its column, if no later column has that name |
| Results.ResultSize | mksqlite.cpp:2047-2252 | a result has as many rows as were fetched, and a column for each column, or for each name |
| Results.DistinctPresents | mksqlite.cpp:2047-2252 | with distinct names the three layouts show the same value at every row and column |
| Statement.SelectArguments | mksqlite.cpp:2346-2396 | which cell and struct arguments are opened up and which combinations with streaming are refused, with which error |
| Statement.OpenedUp | mksqlite.cpp:2346-2396 | without streaming nothing is refused; a single cell array stands for its elements, a single struct array, also the only element of such a cell, for its fields |
| Statement.Streamed | mksqlite.cpp:2354-2388 | with streaming a single container is one value for one placeholder without wrapping, and what happens otherwise |
| Statement.ArgumentTable | mksqlite.cpp:2336-2344 | all sixteen entries of the table in front of the code |
| Statement.CountRuns | mksqlite.cpp:2403-2438 | accepted if and only if the arguments fit the placeholders: without wrapping at most as many, with it a multiple (EachArgumentOnce, RestStaysNull, StructsCount, NoPlaceholders); how many runs that makes, and the error otherwise |
| Statement.StructsCount | mksqlite.cpp:2392-2438 | the elements of a struct array count as one argument for each placeholder, with and without wrapping |
| Statement.NoPlaceholders | mksqlite.cpp:2403-2438 | without placeholders there is one run, and arguments are ignored only with wrapping |
| Statement.BindRun | mksqlite.cpp:2470-2503 | a run binds to each placeholder the argument that belongs there and leaves the rest NULL; it fails exactly when one is missing or refused |
| Statement.BindableMeans | mksqlite.cpp:2470-2503 | what can be bound, in terms of the arguments and field names; SQLite counts placeholders from 1 |
| Statement.RunAll | mksqlite.cpp:2467-2518 | runs happen in order, each with its own arguments, rows accumulate, and it stops at the first failure, whose kind tells exactly what happened |
| Statement.RowIdsAt | mksqlite.cpp:2505-2518 | each run yields what SQLite answers to its bindings after those of the runs before, and the row ids are those of the runs in order |
| Statement.HandleStatement | mksqlite.cpp:2323-2623 | succeeds if and only if arguments fit and are accepted, the columns can be named, every run completes and the layout can be made; nothing is run when arguments do not fit or columns have no names; the result shows the rows of all runs in order, and row count, field names and last row ids go with it |
| Statement.EachArgumentOnce | mksqlite.cpp:2403-2485 | with wrapping, a list is accepted if and only if it has k > 0 arguments per placeholder; then there are k runs, which bind every argument once and in order |
| Statement.FieldsByName | mksqlite.cpp:2487-2491 | run i binds to placeholder j the field of element i with its name |
| Statement.RestStaysNull | mksqlite.cpp:2428-2485 | without wrapping a list is accepted if and only if it has at most one argument for each placeholder; then there is one run, and missing arguments stay NULL |
| Handles.ValueSQL.Copy | value.hpp:92-97 | the copy of a const handle has the pointer but no custody |
| Handles.ValueSQL.Move | value.hpp:99-113 | the copy of any other handle takes over the custody |
| Handles.ValueSQL.AssignConst | value.hpp:115-127 | assignment from a const handle, self-assignment included |
| Handles.ValueSQL.AssignMove | value.hpp:129-159 | assignment from any other handle moves the custody, self-assignment changes nothing |
| Handles.ValueSQL.Detach | value.hpp:990-995 | the pointer is handed out and the custody given up |
| Handles.ValueSQL.Destroy | value.hpp:1002-1027 | what is freed, and that the handle can then be assigned or dropped |
| Handles.CopyFreesNothing | value.hpp:92-97 | a const copy sees the same value and type, and never frees anything |
| Handles.DestroyedOnce | value.hpp:1002-1027 | freed is the block of a non-const text, array or sqlite3_malloc'ed block, and only once; afterwards the handle is NULL |
| Handles.HandlesAfter | value.hpp:75-159 | each operation of the state machine: whose value which handle shows afterwards, who has custody, what is freed; no other handle changes |
| Handles.StepKeepsCustody | value.hpp:75-159 | every operation keeps the invariant: one owner per block, each block owned, handed out or freed, none freed twice |
| Handles.RunKeepsCustody | value.hpp:862-1027 | so does every run of operations that respects the assertions of the source |
| Handles.EveryRunIsSafe | value.hpp:862-1027 | after every such run each block is in exactly one place, has at most one non-const holder, and was freed at most once |
| Handles.AssertionIsNeeded | value.hpp:121 | without the asserted precondition, assignment would lose a block |
| Registry.SQLstackitem.AttachMexFunction | sql_interface.hpp:994-1069 | the new state after defining, replacing or removing a function, accepted or refused; only live objects are deleted |
| Registry.SQLstackitem.CreateFunction | mksqlite.cpp:1071-1106 | the same for the command, which lower-cases the name |
| Registry.LowerIs | utils.hpp:253-262 | only capital letters are changed |
| Registry.ValidMeans | sql_interface.hpp:326-352 | a set of handles is valid if it has a function handle and nothing else than function handles |
| Registry.DefineTakesEffect | sql_interface.hpp:994-1069 | after an accepted definition, map and SQLite have the lower-case name with a new live object and its callbacks, the object that was there was deleted once, and no other name changes |
| Registry.RemovalTakesEffect | sql_interface.hpp:994-1069 | after an accepted removal neither has the name, and no other name changes |
| Registry.RefusalChangesNothing | sql_interface.hpp:1013-1045 | a refused definition changes neither |
| Registry.SQLstackitem.CloseDb | sql_interface.hpp:488-510 | every functor in the map is deleted once and the map emptied; registrations go only if SQLite closes |
| Registry.SQLstackitem.OpenDb | sql_interface.hpp:440-485 | opening closes first, and does nothing if that is refused; if only the open call fails, the slot counts as open all the same |
| Registry.CloseTakesEffect | sql_interface.hpp:440-510 | what closing and opening leave, completed or refused; every object is deleted once |
| Registry.ApplySound | sql_interface.hpp:488-510 | every operation keeps the invariant, and which names dangle afterwards is known exactly |
| Registry.RunSound | sql_interface.hpp:994-1069 | over every run, whatever SQLite refuses: each object is alive and registered under one name, or deleted exactly once; a successful close leaves nothing |
| Registry.AgreeIffNothingDangles | sql_interface.hpp:994-1069 | map and registrations agree if and only if no registration belongs to a deleted object |
| Registry.AgreeThroughout | sql_interface.hpp:488-510 | they agree after every operation of a run if and only if no close is refused while there are functions |
| Registry.RefusedCloseDangles | sql_interface.hpp:488-508 | a concrete run in which a refused close leaves a registration of a deleted object |
| Aggregate.MexFunctors.Wrapper | sql_interface.hpp:753-988 | reply and group data after one callback, nested calls of the same function included: those are refused, and a final call clears the data even so |
| Aggregate.MexFunctors.CallAll | sql_interface.hpp:753-988 | the same for any number of callbacks |
| Aggregate.ReplyForValue | sql_interface.hpp:879-975 | what is returned to SQLite for every outcome |
| Aggregate.FunctionCall | sql_interface.hpp:753-975 | a function is applied to its arguments; the data change only if a nested final call clears them |
| Aggregate.StepEffect | sql_interface.hpp:788-897 | a step is applied to the data and its arguments; its value becomes the data if it is not empty |
| Aggregate.FinalEffect | sql_interface.hpp:898-987 | a final function is applied to the data, which are cleared whatever comes of it |
| Aggregate.NothingCalled | sql_interface.hpp:762-872 | without a handle, or with arguments that cannot be converted, nothing is called, and the data change only by a final call |
| Aggregate.DataSinceFinal | sql_interface.hpp:984-987 | after any calls the data are what the calls since the last final call made of an empty cell |
| Aggregate.FinalSees | sql_interface.hpp:753-988 | a final call is applied to exactly that |
| Aggregate.EachGroup | sql_interface.hpp:753-988 | contiguous groups: each result is final applied to the left fold of step over the group's own rows, an empty or failed step leaving the accumulator as it was |
| Aggregate.RightIffOwnRows | sql_interface.hpp:753-988 | for all calls: the result of a final call is right for every aggregate if and only if the rows stepped through since the final call before are exactly the rows of its group |
| Aggregate.AbandonedGroupLeaks | sql_interface.hpp:879-888 | a group without its final call is continued by the next one, whose result is right for every aggregate only if no row had been abandoned |
| Aggregate.AbandonedSum | sql_interface.hpp:879-888 | a sum over the row 2 becomes 3 after a row 1 was abandoned |
| Aggregate.InterleavedGroupsMix | sql_interface.hpp:289-295 | of two groups with interleaved rows, the first result is that of the rows of both and the second that of none: both are right for every aggregate if and only if the second group is empty |
| Aggregate.MixedSums | sql_interface.hpp:289-295 | sums over the row 1 and over the row 2 in one query become 3 and NULL |
| Uuid.BlobToStr | sqlite/uuid.c:91-110 | writes the lower-case 8-4-4-4-12 form of RFC 4122 section 3 and its terminator, and nothing else |
| Uuid.PrintedIsCanonical | sqlite/uuid.c:99-108 | the bit mask 0x550 puts the dashes between those groups |
| Uuid.StrToBlob | sqlite/uuid.c:117-135 | the loop accepts what the grammar accepts, and yields its bytes |
| Uuid.HexValues | sqlite/uuid.c:75-84 | the digits of either case have their usual values |
| Uuid.AcceptsExactly | sqlite/uuid.c:117-135 | accepted are exactly: an optional brace, sixteen times an optional dash and two hexadecimal digits, an optional brace; the value is that of the digits |
| Uuid.PrintThenRead | sqlite/uuid.c:91-135 | reading the printed form of any 16 bytes returns them |
| Uuid.ReadThenPrint | sqlite/uuid.c:91-135 | printing any accepted text gives the canonical text of the same UUID, which is the text itself if and only if that is canonical: 36 characters, lower-case digits, dashes between the groups |
| Uuid.BracesIgnored | sqlite/uuid.c:122-134 | a brace before, after or around a canonical text changes nothing |
| Uuid.ExampleText | sqlite/uuid.c:91-135 | the example of RFC 4122 section 3 is printed and read as given there |
| Uuid.Version4Text | sqlite/uuid.c:171-174 | uuid() shows version 4 and the variant of RFC 4122 in its text |
| Uuid.Version4Bits | sqlite/uuid.c:171-174 | the six bits of version and variant are overwritten, and no others |
| Latin1.LatinToUtf | utils.hpp:171-201 | the number of bytes is the same with and without a buffer, and is exactly what is written, terminator included |
| Latin1.InsideIffPaired | utils.hpp:138-156 | of all texts, exactly those in which every byte from 128 on has its second byte are read without going past the terminator |
| Latin1.LoneLeadByte | utils.hpp:148-149 | the text C3 is read past its terminator |
| Latin1.UtfToLatin | utils.hpp:133-162 | the loop leaves the text exactly then; otherwise the number of bytes is the same with and without a buffer, and is exactly what is written |
| Latin1.StrNewDup | utils.hpp:211-243 | the buffer of the counted size is exactly filled, unless the counting run leaves the text |
| Latin1.LatinRoundTrip | utils.hpp:133-201 | Latin-1 text survives the way to UTF-8 and back |
| Latin1.UtfRoundTrip | utils.hpp:133-201 | UTF-8 text survives the other way if and only if its code points end at U+00FF |
| Latin1.LatinCharacters | utils.hpp:178-197 | the output is well-formed UTF-8 (RFC 3629 sections 3 and 4), and its character numbers are the Latin-1 bytes |
| Latin1.Examples | utils.hpp:178-197 | the letter U+00E9, and character numbers of RFC 3629 section 7 |
| Latin1.NoNulInUtf | utils.hpp:178-197 | no terminator appears inside the text |

## Left out

- Md5Stream.Md5Context.Update: a piece has any length; the source's `unsigned long` bounds it.
- Md5Body.ReadWords: decodes bytes as the portable variant of SET does; the copy of the words in `ctx->block` and the unaligned load of little-endian machines are not modelled.
- TypedBlob.BlobUnpack: requires the header and the data it announces to lie within the blob; the source does not check this and would read past the end. BlobDigest.Md5Func requires the same of the parts it reads.
- TypedBlob.BlobPack: allocation failures, the compression ratio and timing are left out.
- TypedBlob.LossyNeedsFourElements: of FLOAT only the size is modelled, not the rounding to single precision.
- QuantizedBlob.StoredImage: the two numbers in front of the codes are required to survive as floats, and doubles to survive as bytes where that matters.
- Quantizer.ErrorBound: is about exact reals; rounding, and offset and scale being stored as `float`, are not modelled.
- FieldNames.GetColNames: requires `g_namelengthmax` to be at least 4, room for a letter and a suffix.
- Columns.ValueSQLCol.Append: the NULL flag is held constant over the life of a column, and doubles are exact reals or NaN.
- Results.AddField: what mxAddField does with a name that is there already is not documented; both answers, an error and the number of the existing field, are covered by a parameter.
- Results.Fetch: a blob is what becomes of it in MATLAB, whether typed or not; which error ends a fetch (one of SQLite, memory, an unknown type) is not told apart.
- Statement.HandleStatement: preparing the statement, and the width of `long` for row ids.
- Handles.EveryRunIsSafe: covers the memory that handles own. A text is never owned by a handle (the constructor leaves it const), so its memory is not freed by any; that is the source's behaviour and outside the theorem.
- Registry.SQLstackitem.AttachMexFunction: memory of the function handles inside a functor object, and the exception array.
- Aggregate.MexFunctors.Wrapper: how values are converted between SQLite and MATLAB, other than that the conversion of arguments and of the result can fail.
- Latin1.UtfToLatin: what is read behind the terminator is not modelled, only that it is.
- SQLite, blosc, DEELX and the MATLAB API themselves.
- Result bookkeeping of NumberCompressor::pack and unpack around the quantizer, and getting a compressor by name.
- Messages, locale, logging, timing, option commands, file modes, the interrupt handler, and the slot commands of the database stack.
- heap_check.hpp, the unused tagNativeArray and the deprecated old_version namespace.
- Other threads, and byte swapping on big-endian machines.
