/** A reference model of zlib at compression level 0, used to give the spliced stream a
    meaning: the compressor emits stored (uncompressed) DEFLATE blocks (section 3.2.4 of
    RFC 1951) inside the zlib wrapper of RFC 1950, and the inflater reads such streams back.
    Real zlib may choose other block boundaries; this model assumes one stored block per
    65535 bytes, which is what level 0 produces for the chunk sizes the splicer uses. */
module ZlibStored {
  import opened Bytes
  import opened Checksum

  /** Largest payload of one stored block: LEN is a 16-bit field. */
  const MaxStored: nat := 0xFFFF

  /** CMF = 0x78 (deflate, 32K window), FLG = 0x01 (no preset dictionary, fastest level). */
  const Header: seq<byte> := [0x78, 0x01]

  /** The header checks of section 2.2 of RFC 1950: method 8, window at most 32K, the
      16-bit header a multiple of 31, and no preset dictionary. */
  predicate ValidHeader(cmf: byte, flg: byte) {
    cmf % 16 == 8 && cmf / 16 <= 7 && (cmf as int * 256 + flg as int) % 31 == 0
    && (flg / 32) % 2 == 0
  }

  /** One byte-aligned stored block: the 3-bit header (BFINAL, BTYPE = 00) padded to a
      byte, then LEN and NLEN little-endian, then the data. */
  function StoredBlock(data: seq<byte>, final: bool): (r: seq<byte>)
    requires |data| <= MaxStored
    ensures |r| == 5 + |data| && r[5..] == data
    ensures r[0] == if final then 1 else 0
  {
    [if final then 1 else 0] + LE16(|data| as u16) + LE16((MaxStored - |data|) as u16) + data
  }

  /** `data` cut into stored blocks of at most 65535 bytes, the last one final. */
  function StoredBlocks(data: seq<byte>): seq<byte>
    decreases |data|
  {
    if |data| <= MaxStored then StoredBlock(data, true)
    else StoredBlock(data[..MaxStored], false) + StoredBlocks(data[MaxStored..])
  }

  /** `zlib.compress(data, 0)`; the level argument is accepted and ignored. */
  function CompressStored(data: seq<byte>, level: int): seq<byte>
  {
    Header + StoredBlocks(data) + BE32(Adler32(data, 1))
  }

  /** `z` is a zlib stream holding `data` as exactly one final stored block. */
  predicate OneStoredBlock(z: seq<byte>, data: seq<byte>) {
    |data| <= MaxStored && |z| == |data| + 11 && z[2..|z| - 4] == StoredBlock(data, true)
  }

  /** The assumption under which the splicer is analysed: compressing a chunk of at most
      65535 bytes gives one final stored block. */
  ghost predicate StoresSmallChunks(compress: (seq<byte>, int) -> seq<byte>) {
    forall data, level :: |data| <= MaxStored ==> OneStoredBlock(compress(data, level), data)
  }

  /** The level-0 model meets that assumption. */
  lemma CompressStoredStoresSmallChunks()
    ensures StoresSmallChunks(CompressStored)
  {
    forall data, level | |data| <= MaxStored
      ensures OneStoredBlock(CompressStored(data, level), data)
    {
      var z := CompressStored(data, level);
      assert z == Header + StoredBlock(data, true) + BE32(Adler32(data, 1));
      assert z[2..|z| - 4] == StoredBlock(data, true);
    }
  }

  /** For a chunk held in one stored block, the slices the splicer takes of the compressed
      chunk are: from offset 2 the final block, from offset 3 the block minus its header
      byte, and from offset 7 the chunk itself. */
  lemma StoredSlices(z: seq<byte>, data: seq<byte>)
    requires OneStoredBlock(z, data)
    ensures SliceDropTail4(z, 2) == StoredBlock(data, true)
    ensures [0] + SliceDropTail4(z, 3) == StoredBlock(data, false)
    ensures SliceDropTail4(z, 7) == data
  {
    var b := StoredBlock(data, true);
    assert z[3..|z| - 4] == b[1..];
    assert z[7..|z| - 4] == b[5..];
  }

  datatype InflateError = BadHeader | Truncated | UnsupportedBlockType | BadStoredLength
                        | TrailingData | ChecksumMismatch

  /** The data `r` decodes to, in front of what the rest of the stream decodes to. */
  function Prepend(data: seq<byte>, r: Result<(seq<byte>, seq<byte>), InflateError>)
    : Result<(seq<byte>, seq<byte>), InflateError>
  {
    match r
    case Ok((d, rest)) => Ok((data + d, rest))
    case Err(e) => Err(e)
  }

  /** Read byte-aligned stored blocks up to and including the first final one; return the
      data and the bytes that follow. Blocks of the other types are not decoded here. */
  function ReadBlocks(s: seq<byte>): Result<(seq<byte>, seq<byte>), InflateError>
    decreases |s|
  {
    if |s| < 5 then Err(Truncated)
    else if (s[0] / 2) % 4 != 0 then Err(UnsupportedBlockType)
    else
      var len := LE16At(s, 1) as nat;
      if LE16At(s, 3) as nat != MaxStored - len then Err(BadStoredLength)
      else if |s| < 5 + len then Err(Truncated)
      else if s[0] % 2 == 1 then Ok((s[5..5 + len], s[5 + len..]))
      else Prepend(s[5..5 + len], ReadBlocks(s[5 + len..]))
  }

  /** Decode a complete zlib stream made of stored blocks and check its Adler-32 trailer. */
  function Inflate(s: seq<byte>): Result<seq<byte>, InflateError>
  {
    if |s| < 2 || !ValidHeader(s[0], s[1]) then Err(BadHeader)
    else match ReadBlocks(s[2..])
      case Err(e) => Err(e)
      case Ok((data, rest)) =>
        if |rest| < 4 then Err(Truncated)
        else if |rest| > 4 then Err(TrailingData)
        else if BE32At(rest, 0) != Adler32(data, 1) then Err(ChecksumMismatch)
        else Ok(data)
  }

  /** A stream with the 0x78 0x01 header whose blocks read to `data` followed by exactly
      the big-endian Adler-32 of `data` inflates to `data`. */
  lemma InflateOk(s: seq<byte>, data: seq<byte>, t: seq<byte>)
    requires |s| >= 2 && s[0] == 0x78 && s[1] == 0x01
    requires ReadBlocks(s[2..]) == Ok((data, t)) && |t| == 4 && BE32At(t, 0) == Adler32(data, 1)
    ensures Inflate(s) == Ok(data)
  {
    HeaderIsValid();
  }

  lemma ReadFinal(data: seq<byte>, rest: seq<byte>)
    requires |data| <= MaxStored
    ensures ReadBlocks(StoredBlock(data, true) + rest) == Ok((data, rest))
  {
    var s := StoredBlock(data, true) + rest;
    assert s[5..5 + |data|] == data && s[5 + |data|..] == rest;
  }

  lemma ReadNonFinal(data: seq<byte>, rest: seq<byte>)
    requires |data| <= MaxStored
    ensures ReadBlocks(StoredBlock(data, false) + rest) == Prepend(data, ReadBlocks(rest))
  {
    var s := StoredBlock(data, false) + rest;
    assert s[5..5 + |data|] == data && s[5 + |data|..] == rest;
  }

  /** Fewer than five bytes can hold no stored block. */
  lemma ReadShort(s: seq<byte>)
    requires |s| < 5
    ensures ReadBlocks(s) == Err(Truncated)
  {
  }

  lemma {:induction false} ReadStoredBlocks(data: seq<byte>, rest: seq<byte>)
    ensures ReadBlocks(StoredBlocks(data) + rest) == Ok((data, rest))
    decreases |data|
  {
    if |data| <= MaxStored {
      ReadFinal(data, rest);
    } else {
      var head, tail := data[..MaxStored], data[MaxStored..];
      assert StoredBlocks(data) + rest == StoredBlock(head, false) + (StoredBlocks(tail) + rest);
      ReadNonFinal(head, StoredBlocks(tail) + rest);
      ReadStoredBlocks(tail, rest);
      assert head + tail == data;
    }
  }

  /** The level-0 compressor model and the inflater are inverse: the model is a zlib
      stream in the sense this inflater checks. */
  lemma InflateCompressStored(data: seq<byte>, level: int)
    ensures Inflate(CompressStored(data, level)) == Ok(data)
  {
    var z := CompressStored(data, level);
    var t := BE32(Adler32(data, 1));
    assert z[0] == 0x78 && z[1] == 0x01;
    HeaderIsValid();
    assert z[2..] == StoredBlocks(data) + t;
    ReadStoredBlocks(data, t);
    assert BE32At(t, 0) == Adler32(data, 1);
  }

  /** 0x7801 passes the checks of section 2.2 of RFC 1950. */
  lemma HeaderIsValid()
    ensures ValidHeader(0x78, 0x01)
  {
    assert 0x78 * 256 + 0x01 == 31 * 991;
  }
}
