# Zlib-compressed data container of npkpy, in Dafny

This project models the container of an NPK package (MikroTik's package format) that holds
the package's files. In the source it is `CntZlibDompressedData`. Its payload is a zlib
stream. The stream inflates to a blob made of `CntZlibPackedObj` entries placed back to back.
Each entry has a 30-byte header, then a name, then a payload. The header holds:

- a mode;
- six reserved bytes (`zeroes_one`), normally zero;
- three timestamps;
- four more reserved bytes (`zeroes_two`), normally zero;
- the payload length, as a 32-bit little-endian number;
- the name length, as a 16-bit little-endian number.

The model has seven modules.

- `Bytes` covers:
  - the byte and bounded integer types;
  - Python's clamped slicing;
  - the little- and big-endian encodings that `struct` reads and writes.
- `Checksum` is Adler-32 as RFC 1950 defines it, continued from a previous value as
  `zlib.adler32(data, value)` does for any value whose two halves are below 65521. Every
  checksum value is such a value.
- `ZlibStored` covers the stored blocks of RFC 1951 (section 3.2.4). It gives:
  - a reference inflater for streams built only from stored blocks;
  - a level-0 compressor;
  - the predicate `StoresSmallChunks`, which says that a compressor turns any chunk of at most
    65535 bytes into one final stored block.
- `Splice` is the stream that `set_cnt_payload_decompressed` builds, as a function on
  values. It also proves what inflating that stream gives back.
- `PackedObj` covers the entry record:
  - its fields are functions over the bytes;
  - its setters are functions whose properties are proved as lemmas;
  - the class `CntZlibPackedObj` keeps the buffer and updates it in place.
- `Scan` states what the entry scan reads: the offsets it visits and the record read at
  each one.
- `CompressedData` is the container class. It holds the compressed payload and three
  caches, and it has the splicing loop, the entry scan and the single-entry read.

`zlib.compress` and `decompressobj().decompress` are foreign code. They are parameters, of
types `Compressor` and `Inflater`. Every round-trip result holds for any compressor that
meets `StoresSmallChunks`. The level-0 model meets it, and `CompressStoredStoresSmallChunks`
proves that.

Python's `struct` raises when a field does not fit. That error is modelled as the
`StructError` case of a `Result` or of the setter's error result. The ASCII encode failure in
the name setter is `UnicodeEncodeError`. A setter that raises partway leaves the buffer as the
source leaves it at that point. `struct.pack_into` zeroes the whole field before it packs.
When a value is out of range, the values of the same call packed before it stay written, and
the rest of the field stays zero.

## Model

| member | source | states |
|---|---|---|
| CompressedData.CntZlibDompressedData.constructor | npkpy/npk/cnt_zlib_compressed_data.py:9-12 | A container starts with its payload and with the decompressor, blob and entry-list caches all empty. |
| CompressedData.CntZlibDompressedData.SetCntPayloadDecompressed | npkpy/npk/cnt_zlib_compressed_data.py:30-57 | `blocksize` defaults to 0x8000 and `level` to 0. The loop leaves exactly `SplicedStream(payload, blocksize, level, compress)` as the payload. This covers the header, each chunk's block, the running Adler-32 and the big-endian trailer. All three caches are cleared. |
| CompressedData.CntZlibDompressedData.GetCntPayloadDecompressed | npkpy/npk/cnt_zlib_compressed_data.py:18-28 | A cached non-empty blob is returned unchanged. Otherwise the payload is inflated again, cached, and a decompressor is held. The payload and the entry list are not touched. |
| CompressedData.CntZlibDompressedData.CntObjList | npkpy/npk/cnt_zlib_compressed_data.py:71-75 | A cached non-empty list is returned unchanged, and the blob cache and the decompressor flag stay as they were. Otherwise the blob parsed is the one `get_cnt_payload_decompressed` gives: the cached non-empty blob, or else the payload inflated afresh, which is then cached with a decompressor held. A successful parse is cached and agrees with the scan of that blob; a failed parse raises exactly when the scan does and leaves the list cache as it was. |
| CompressedData.GetObj | npkpy/npk/cnt_zlib_compressed_data.py:85-91 | Succeeds exactly when at least 30 bytes remain at `offset`, and otherwise fails with a struct error. On success it gives a new entry whose bytes are `RecordAt(blob, offset)`. |
| CompressedData.ParseAllObj | npkpy/npk/cnt_zlib_compressed_data.py:77-83 | The list holds one new entry per offset that `Offsets` visits, in order, each with the record read at that offset. The parse fails exactly when the scan does. |
| Splice.StreamFraming | npkpy/npk/cnt_zlib_compressed_data.py:31-52 | The spliced stream starts with 78 01, which is a valid RFC 1950 header. Then come the blocks of the chunks, then the big-endian accumulated Adler-32. When a full chunk exists, byte 2 is the non-final marker 00. |
| Splice.EmptyPayloadStream | npkpy/npk/cnt_zlib_compressed_data.py:30-57 | An empty payload gives exactly 78 01 00 00 00 01, whatever the block size. |
| Splice.ChunksShape | npkpy/npk/cnt_zlib_compressed_data.py:35-36 | The chunks are the slices at offsets 0, bs, 2·bs, …. They concatenate back to the payload, none of them is empty, and each one except the last has exactly `blocksize` bytes. |
| Splice.FinalBranchIffNotMultiple | npkpy/npk/cnt_zlib_compressed_data.py:37-46 | Every chunk takes the non-final branch exactly when the length is a multiple of `blocksize`. The last chunk is short exactly when it is not. |
| Splice.MultipleIffAllFull | npkpy/npk/cnt_zlib_compressed_data.py:35-42 | A length that is a multiple of `blocksize`, including 0, makes every chunk take the non-final branch, and only such a length does. |
| Splice.NotMultipleIffShortLast | npkpy/npk/cnt_zlib_compressed_data.py:35-46 | Any other length leaves a last chunk shorter than `blocksize`, which takes the final branch, and only such a length does. |
| Splice.LastChunk | npkpy/npk/cnt_zlib_compressed_data.py:35-37 | A non-empty payload has a non-empty last chunk of at most `blocksize` bytes after full ones. The length is a multiple of `blocksize` exactly when that last chunk is full. |
| Splice.SplicedStart | npkpy/npk/cnt_zlib_compressed_data.py:31-34 | The initial offset, output and checksum satisfy the loop invariant `SplicedUpTo`. |
| Splice.SplicedStep | npkpy/npk/cnt_zlib_compressed_data.py:36-50 | One iteration (chunk, block, checksum update, append, advance) keeps `SplicedUpTo`. |
| Splice.SplicedEnd | npkpy/npk/cnt_zlib_compressed_data.py:52 | Once the offset passes the payload, appending the big-endian checksum gives the spliced stream. |
| Splice.TrailerIsPayloadChecksum | npkpy/npk/cnt_zlib_compressed_data.py:48 | For a compressor that stores small chunks, the checksum built from the pieces `compressed[7:-4]` equals `adler32(payload)`. |
| Splice.SplicedRoundTrip | npkpy/npk/cnt_zlib_compressed_data.py:35-52 | When the length is not a multiple of `blocksize`, inflating the spliced stream gives back the payload. |
| Splice.NoFinalBlockOnExactMultiple | npkpy/npk/cnt_zlib_compressed_data.py:37-42 | When the length is a multiple of `blocksize`, including 0, no block is marked final, so the stream is incomplete. The stored-block reader reports `Truncated` when it reads the trailer as a block header. |
| Splice.OneFullChunkIsCutShort | npkpy/npk/cnt_zlib_compressed_data.py:37-42 | A concrete case: payload 41 with block size 1 splices to 78 01 00 01 00 FE FF 41 00 42 00 42. It has no final block, and the stored-block reader reports `Truncated`. |
| Splice.SplicedFixedRoundTrip | npkpy/npk/cnt_zlib_compressed_data.py:35-52 | The corrected splicer marks the last chunk final, and the empty payload gets one empty final block. Its stream inflates back to the payload for every length. |
| Splice.FixedAgreesOffMultiples | npkpy/npk/cnt_zlib_compressed_data.py:35-52 | When the length is not a multiple of `blocksize`, the corrected splicer and the source's produce the same bytes. |
| Checksum.Fold | npkpy/npk/cnt_zlib_compressed_data.py:48 | Folding bytes into reduced sums keeps both sums below 65521. |
| Checksum.Adler32Append | npkpy/npk/cnt_zlib_compressed_data.py:48 | Continuing Adler-32 over `y` from the value for `x` gives the value for `x + y`. |
| Checksum.ChecksumValues | npkpy/npk/cnt_zlib_compressed_data.py:48 | Every result is a valid checksum value, meaning both halves are below 65521. An empty update leaves such a value unchanged. |
| Checksum.EmptyIsOne | npkpy/npk/cnt_zlib_compressed_data.py:34 | `adler32(b"")` is 1. |
| Checksum.OneByte | npkpy/npk/cnt_zlib_compressed_data.py:48 | The checksum of one byte x is (1 + x)·0x10001. |
| Checksum.Wikipedia | npkpy/npk/cnt_zlib_compressed_data.py:48 | The checksum of "Wikipedia" is 0x11E60398, the published value. |
| ZlibStored.StoredSlices | npkpy/npk/cnt_zlib_compressed_data.py:42-48 | For a single stored-block stream, `[2:-4]` is the final block. A 00 byte followed by `[3:-4]` is the same block marked non-final. `[7:-4]` is the chunk itself. |
| ZlibStored.InflateCompressStored | npkpy/npk/cnt_zlib_compressed_data.py:40-44 | The level-0 compressor's output inflates back to its input. |
| ZlibStored.CompressStoredStoresSmallChunks | npkpy/npk/cnt_zlib_compressed_data.py:40-44 | The level-0 compressor turns every chunk of at most 65535 bytes into one final stored block. |
| Scan.RecordAt | npkpy/npk/cnt_zlib_compressed_data.py:85-91 | Reading an entry succeeds exactly when 30 header bytes are there, and otherwise is a struct error. A success is always a consistent entry. |
| Scan.RecordAtShape | npkpy/npk/cnt_zlib_compressed_data.py:86-91 | The entry read has the two length fields at `offset`, a length of 30 plus those two fields, and the blob's bytes from `offset`, zero-padded where the blob runs out. |
| Scan.Offsets | npkpy/npk/cnt_zlib_compressed_data.py:77-83 | Every offset visited lies at or after the start, with a full header inside the blob. |
| Scan.ScannedStart | npkpy/npk/cnt_zlib_compressed_data.py:78-79 | The empty list at offset 0 satisfies the loop invariant `ScannedUpTo`. |
| Scan.ScannedStep | npkpy/npk/cnt_zlib_compressed_data.py:80-82 | Reading the entry at the offset and moving `obj_len` bytes on keeps `ScannedUpTo`. |
| Scan.ScannedEnd | npkpy/npk/cnt_zlib_compressed_data.py:80-83 | When the offset reaches the end of the blob, the offsets read are the whole scan. |
| Scan.ScannedFail | npkpy/npk/cnt_zlib_compressed_data.py:86-88 | Fewer than 30 bytes left at the offset make the whole scan a struct error. |
| Scan.OffsetsTile | npkpy/npk/cnt_zlib_compressed_data.py:79-82 | The offsets start at the start and each one is the previous one plus the length its header gives. The last entry reaches or passes the end of the blob, and there are none exactly when the start is at or past the end. |
| Scan.ScanConcat | npkpy/npk/cnt_zlib_compressed_data.py:77-91 | Parsing a blob made of consistent entries placed back to back finds each entry at its start, and reads exactly that entry there. |
| Scan.ScanShortTail | npkpy/npk/cnt_zlib_compressed_data.py:85-88 | A trailing fragment of 1 to 29 bytes after whole entries makes the parse fail with a struct error. |
| PackedObj.Repaired | npkpy/npk/cnt_zlib_compressed_data.py:107-124 | A buffer shorter than 30 bytes is zero-padded to 30. A longer one is padded or cut to 30 plus its two length fields, keeping those fields. Every byte kept is the original byte or a padding zero. |
| PackedObj.RepairedFixesConsistent | npkpy/npk/cnt_zlib_compressed_data.py:107-124 | Repair leaves a buffer unchanged exactly when its length already matches its length fields. |
| PackedObj.RepairedIdempotent | npkpy/npk/cnt_zlib_compressed_data.py:114-124 | Repairing a buffer of at least 30 bytes twice gives the same as repairing it once. |
| PackedObj.ShortRepairIsIncomplete | npkpy/npk/cnt_zlib_compressed_data.py:109-113 | Every buffer shorter than 30 bytes whose padded header declares a non-empty name or payload is left inconsistent, and a second repair changes it again. |
| PackedObj.ShortRepairExample | npkpy/npk/cnt_zlib_compressed_data.py:109-113 | Such buffers exist: 24 zero bytes followed by 01 00 pad to a header declaring a 1-byte payload. |
| PackedObj.CntZlibPackedObj.constructor | npkpy/npk/cnt_zlib_compressed_data.py:103-105 | The new entry holds the repaired copy of `binary`, which defaults to no bytes. |
| PackedObj.CntZlibPackedObj.SetLen | npkpy/npk/cnt_zlib_compressed_data.py:107-124 | The buffer becomes its repaired form. |
| PackedObj.FieldsEncoded | npkpy/npk/cnt_zlib_compressed_data.py:126-170 | The functions `Mode`, `ZeroesOne`, `Timestamps`, `ZeroesTwo`, `PayloadLen` and `NameLen` each read the value whose little-endian encoding sits at the field's fixed offset: 0, 2/4/6, 8/12/16, 20, 24 and 28. |
| PackedObj.CntZlibPackedObj.ObjMode | npkpy/npk/cnt_zlib_compressed_data.py:126-133 | The mode read is the value whose little-endian encoding is bytes 0..1. |
| PackedObj.CntZlibPackedObj.ZeroesOneField | npkpy/npk/cnt_zlib_compressed_data.py:139-144 | The three values read are those whose encodings are bytes 2..3, 4..5 and 6..7. |
| PackedObj.CntZlibPackedObj.TimestampsField | npkpy/npk/cnt_zlib_compressed_data.py:146-148 | The three timestamps read are those whose encodings are bytes 8..11, 12..15 and 16..19. |
| PackedObj.CntZlibPackedObj.ZeroesTwoField | npkpy/npk/cnt_zlib_compressed_data.py:155-157 | The value read is the one whose encoding is bytes 20..23. |
| PackedObj.CntZlibPackedObj.PayloadLenField | npkpy/npk/cnt_zlib_compressed_data.py:159-161 | The payload length read is the value whose encoding is bytes 24..27. |
| PackedObj.CntZlibPackedObj.NameLenField | npkpy/npk/cnt_zlib_compressed_data.py:168-170 | The name length read is the value whose encoding is bytes 28..29. |
| PackedObj.CntZlibPackedObj.Name | npkpy/npk/cnt_zlib_compressed_data.py:188-190 | The name bytes are the `name_len` bytes from offset 30. When the buffer ends before them, the read is a struct error, and only then. |
| PackedObj.CntZlibPackedObj.Payload | npkpy/npk/cnt_zlib_compressed_data.py:197-199 | The payload is `payload_len` bytes, and for a consistent entry it is everything after the name. When the buffer ends before name and payload, the read is a struct error, and only then. |
| PackedObj.CntZlibPackedObj.FullLen | npkpy/npk/cnt_zlib_compressed_data.py:208-210 | The full length is at least 30 for a kept entry. For a consistent entry it is 30 plus the name and payload lengths its header gives. |
| PackedObj.CntZlibPackedObj.Binary | npkpy/npk/cnt_zlib_compressed_data.py:212-214 | The bytes handed out carry exactly the mode, timestamps, length fields, name and payload the getters read. For a consistent entry they are the 30 header bytes, then the name, then the payload. |
| PackedObj.SameHeader | npkpy/npk/cnt_zlib_compressed_data.py:126-170 | Every header field getter reads only the first 30 bytes. |
| PackedObj.ModeRoundTrip | npkpy/npk/cnt_zlib_compressed_data.py:126-137 | After writing the mode, the mode reads back as written. The length and every other byte and field are unchanged. |
| PackedObj.CntZlibPackedObj.SetObjMode | npkpy/npk/cnt_zlib_compressed_data.py:135-137 | A value in 0..65535 is written as the little-endian mode. Any other value is a struct error raised after bytes 0..1 were zeroed; no other byte changes. |
| PackedObj.ModeFailure | npkpy/npk/cnt_zlib_compressed_data.py:135-137 | After a failed mode write, the mode reads 0, and the length and every other byte are unchanged. |
| PackedObj.TimestampsRoundTrip | npkpy/npk/cnt_zlib_compressed_data.py:146-153 | After writing the timestamps, they read back as written, and only bytes 8..19 change. |
| PackedObj.CntZlibPackedObj.SetTimestamps | npkpy/npk/cnt_zlib_compressed_data.py:151-153 | The call succeeds exactly when all three values are in the 32-bit range, and then writes them at offset 8. Otherwise it is a struct error: bytes 8..19 were zeroed, and the values before the first one out of range were written. |
| PackedObj.TimestampsFailure | npkpy/npk/cnt_zlib_compressed_data.py:151-153 | After a failed timestamps write, each timestamp before the first one out of range reads back as given and the others read 0. No byte outside 8..19 changes. |
| PackedObj.PayloadLenSet | npkpy/npk/cnt_zlib_compressed_data.py:159-166 | After setting the payload length, it reads back as set and the name length is kept. The buffer is resized to exactly 30 + name + payload, and the other bytes are kept or zero-padded. |
| PackedObj.CntZlibPackedObj.SetPayloadLen | npkpy/npk/cnt_zlib_compressed_data.py:163-166 | A value in the 32-bit range is written, then the length is repaired. Any other value is a struct error raised after bytes 24..27 were zeroed and before any repair. |
| PackedObj.PayloadLenFailure | npkpy/npk/cnt_zlib_compressed_data.py:163-166 | After a failed payload-length write, the payload length reads 0, the name length and every other byte are unchanged, and a consistent entry that had a payload is left inconsistent. |
| PackedObj.Renamed | npkpy/npk/cnt_zlib_compressed_data.py:172-186 | After resizing the name field, the name length reads back as the new length, and the header is still there. |
| PackedObj.RenamedShape | npkpy/npk/cnt_zlib_compressed_data.py:172-186 | Resizing keeps bytes 0..27 and the payload length. It writes the new name length, cuts the old name or pads it with zeros to the new length, and keeps everything after the old name. The length changes by the difference. |
| PackedObj.RenamedKeepsPayload | npkpy/npk/cnt_zlib_compressed_data.py:172-186 | Resizing the name of a consistent entry keeps it consistent and keeps its payload. |
| PackedObj.CntZlibPackedObj.SetNameLen | npkpy/npk/cnt_zlib_compressed_data.py:172-186 | Setting the current name length is a no-op. Any other value in 0..65535 resizes the name field. Any value out of range is a struct error that leaves the buffer unchanged. |
| PackedObj.NameField | npkpy/npk/cnt_zlib_compressed_data.py:188-190 | Reading the name succeeds exactly when the buffer holds the whole name, and then gives `name_len` bytes. |
| PackedObj.NamedFailures | npkpy/npk/cnt_zlib_compressed_data.py:192-195 | A name longer than 65535 is a struct error that leaves the buffer unchanged. A non-ASCII name is an encode error raised after the name field was already resized. |
| PackedObj.NamedWrites | npkpy/npk/cnt_zlib_compressed_data.py:192-195 | An ASCII name first resizes the name field, then has its encoding written at offset 30. |
| PackedObj.NamedRoundTrip | npkpy/npk/cnt_zlib_compressed_data.py:188-195 | After writing an ASCII name, the name reads back as its encoding. Bytes 0..27 are kept, and a consistent entry stays consistent with the same payload. |
| PackedObj.CntZlibPackedObj.SetName | npkpy/npk/cnt_zlib_compressed_data.py:192-195 | The error and the new buffer are the ones `Named` gives. |
| PackedObj.PayloadField | npkpy/npk/cnt_zlib_compressed_data.py:197-199 | Reading the payload succeeds exactly when the buffer holds name and payload, and then gives `payload_len` bytes. |
| PackedObj.PayloadTooLong | npkpy/npk/cnt_zlib_compressed_data.py:201-206 | A payload of 2^32 bytes or more is a struct error from the `payload_len` setter. The payload length then reads 0, the length is not repaired, and every other byte is unchanged. |
| PackedObj.WithPayloadWrites | npkpy/npk/cnt_zlib_compressed_data.py:201-206 | A payload that fits first sets the payload length and repairs the length, then is written after the name. |
| PackedObj.PayloadRoundTrip | npkpy/npk/cnt_zlib_compressed_data.py:197-206 | After writing a payload that fits, the payload reads back as written. The entry is consistent and exactly 30 + name + payload long, the name length is kept, and every header and name byte except the payload length is kept. |
| PackedObj.CntZlibPackedObj.SetPayload | npkpy/npk/cnt_zlib_compressed_data.py:201-206 | The error and the new buffer are the ones `WithPayload` gives. |

## Left out

- CompressedData.CntZlibDompressedData.GetCntPayloadDecompressed: the decompressor object's state is not modelled: its `eof`, `unused_data` and `flush`, and the reuse of one decompressor across calls. Only whether one is held is kept, and every decompression is `inflate` of the whole payload. The reuse is observable in the source. When a held decompressor produced an empty blob, a second call feeds the whole payload to that same object again. For the splicer's own empty-payload stream 78 01 00 00 00 01, zlib's stored-block rules make that second call fail with "invalid stored block lengths". The model instead returns `inflate(payload)` again. This follows from zlib's stored-block rules.
- The internals of `zlib.compress` are out of scope. It is a parameter. The round-trip results are proved only for compressors that store each chunk of at most 65535 bytes as one stored block, the behaviour the splicer's slicing relies on. Other levels are not analysed.
- CompressedData.CntZlibDompressedData.SetCntPayloadDecompressed: a block size of zero or less with a non-empty payload loops forever in the source. The requires clause excludes that call.
- PackedObj.NameField: returns the name's bytes. The UTF-8 `decode()` is not modelled, so the `UnicodeDecodeError` it raises on bytes that are not valid UTF-8 is missing.
- PackedObj.CntZlibPackedObj.Binary: returns a copy of the buffer. In the source `binary` hands out the live `bytearray`, so writes through it change the entry. That aliasing is not modelled.
- Checksum.Adler32: a start value with a half of 65521 or more is reduced first. zlib does not reduce such a start value, so for these values the model and zlib differ. The splicer starts from 1 and feeds back only values `Adler32` returned, which are all below that bound (`ChecksumValues`).
- PackedObj.CntZlibPackedObj.Name: the same as `NameField`, which it reads through.
- Logging in `__set_len` and `zeroes_one` is left out, because it does not change state.
- The caches follow Python truthiness: an empty cached blob or an empty cached list counts as missing and is recomputed. A decompressor object is always truthy, so the `decompressor` property is modelled as a bool that is set when used.
- CompressedData.ParseAllObj: the entries are given as new objects whose bytes match the scan. Identity beyond freshness is not modelled.
- `output_cnt`, `output_obj` and `cnt_enumerate_obj` are left out. They are formatting and an enumerating generator over `cnt_obj_list`.
- `_regular_cnt_id` is left out, along with the `CntBasic` header and framing it feeds. `CntBasic` is not part of this model. The container payload is a plain field here.

## Findings

| source | as written | input that shows it | evidently intended | confidence | as-written member | corrected member |
|---|---|---|---|---|---|---|
| npkpy/npk/cnt_zlib_compressed_data.py:37-50 | A chunk is marked non-final whenever it has exactly `blocksize` bytes, so when the payload length is a multiple of `blocksize` no block carries BFINAL. For the empty payload, no block is emitted at all. | payload `b"A"` with `blocksize=1` (stream 78 01 00 01 00 FE FF 41 00 42 00 42), or any payload of 0x8000 bytes with the default block size | The last chunk is always marked final, and an empty payload gets one empty final block, so that the stream is complete and inflates back to the payload. As written, no block is final, so the stream is incomplete; the stored-block reader reports `Truncated`, and what a real inflater does depends on how it treats the trailer bytes | not executed | Splice.NoFinalBlockOnExactMultiple, Splice.OneFullChunkIsCutShort | Splice.SplicedFixedRoundTrip |
