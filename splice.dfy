/** The byte layout `CntZlibDompressedData.set_cnt_payload_decompressed` produces: the plain
    blob is cut into `blocksize` chunks, each chunk is compressed on its own, and the pieces
    are spliced into one zlib stream (RFC 1950) with a running Adler-32 trailer. */
module Splice {
  import opened Bytes
  import opened Checksum
  import opened ZlibStored

  /** `zlib.compress(data, level)`: a foreign function, kept abstract. */
  type Compressor = (seq<byte>, int) -> seq<byte>

  /** `p[off:off+bs]`, `p[off+bs:off+2*bs]`, ... for every offset below `len(p)`. */
  function ChunksFrom(p: seq<byte>, bs: int, off: nat): seq<seq<byte>>
    requires bs > 0 || off >= |p|
    decreases |p| - off
  {
    if off >= |p| then [] else [Slice(p, off, off + bs)] + ChunksFrom(p, bs, off + bs)
  }

  /** The chunks the splicing loop visits, in order. */
  function Chunks(p: seq<byte>, bs: int): seq<seq<byte>>
    requires bs > 0 || |p| == 0
  {
    ChunksFrom(p, bs, 0)
  }

  /** A chunk compressed on its own and re-framed for the middle of the stream: as a
      non-final block, a 0x00 byte (BFINAL = 0, BTYPE = 00) then the compressed data without
      the zlib header, the block's own first byte and the trailer (`compressed[3:-4]`); as
      the final block, without the zlib header and trailer only (`compressed[2:-4]`). */
  function Framed(chunk: seq<byte>, final: bool, level: int, compress: Compressor): seq<byte>
  {
    var z := compress(chunk, level);
    if final then SliceDropTail4(z, 2) else [0] + SliceDropTail4(z, 3)
  }

  /** What one chunk contributes: a chunk of exactly `bs` bytes is framed as non-final,
      any other chunk as final. */
  function Block(chunk: seq<byte>, bs: int, level: int, compress: Compressor): seq<byte>
  {
    Framed(chunk, |chunk| != bs, level, compress)
  }

  function Blocks(cs: seq<seq<byte>>, bs: int, level: int, compress: Compressor): seq<byte>
    decreases |cs|
  {
    if cs == [] then [] else Block(cs[0], bs, level, compress) + Blocks(cs[1..], bs, level, compress)
  }

  /** The running trailer value: updated once per chunk, in chunk order, with bytes 7 to
      len - 4 of that chunk's own compressed form. */
  function Accumulate(cs: seq<seq<byte>>, level: int, compress: Compressor, acc: u32): u32
    decreases |cs|
  {
    if cs == [] then acc
    else Accumulate(cs[1..], level, compress, Adler32(SliceDropTail4(compress(cs[0], level), 7), acc))
  }

  /** The stream written to `cnt_payload`. */
  function SplicedStream(p: seq<byte>, bs: int, level: int, compress: Compressor): seq<byte>
    requires bs > 0 || |p| == 0
  {
    Header + Blocks(Chunks(p, bs), bs, level, compress)
    + BE32(Accumulate(Chunks(p, bs), level, compress, Adler32([], 1)))
  }

  // ---------------------------------------------------------------------------------------
  // Chunking

  /** Chunk k starts at `off + k * bs`, below the end of the payload. */
  lemma {:induction false} ChunkAt(p: seq<byte>, bs: int, off: nat, k: nat)
    requires bs > 0 && k < |ChunksFrom(p, bs, off)|
    ensures off + k * bs < |p|
    ensures ChunksFrom(p, bs, off)[k] == Slice(p, off + k * bs, off + k * bs + bs)
    decreases k
  {
    if k > 0 {
      var tail := ChunksFrom(p, bs, off + bs);
      assert ChunksFrom(p, bs, off) == [Slice(p, off, off + bs)] + tail;
      ChunkAt(p, bs, off + bs, k - 1);
      NextOffset(off, k, bs);
    }
  }

  lemma NextOffset(off: int, k: int, bs: int)
    ensures off + bs + (k - 1) * bs == off + k * bs
  {
  }

  lemma ChunksFromAt(p: seq<byte>, bs: int, off: nat)
    requires bs > 0
    ensures var cs := ChunksFrom(p, bs, off);
      && (|cs| == 0 <==> off >= |p|)
      && forall k :: 0 <= k < |cs| ==>
           off + k * bs < |p| && cs[k] == Slice(p, off + k * bs, off + k * bs + bs)
  {
    var cs := ChunksFrom(p, bs, off);
    forall k | 0 <= k < |cs|
      ensures off + k * bs < |p| && cs[k] == Slice(p, off + k * bs, off + k * bs + bs)
    {
      ChunkAt(p, bs, off, k);
    }
  }

  lemma {:induction false} ChunksFromConcat(p: seq<byte>, bs: int, off: nat)
    requires bs > 0 && off <= |p|
    ensures Concat(ChunksFrom(p, bs, off)) == p[off..]
    decreases |p| - off
  {
    if off < |p| {
      var cs := ChunksFrom(p, bs, off);
      if off + bs >= |p| {
        assert ChunksFrom(p, bs, off + bs) == [];
        assert Slice(p, off, off + bs) == p[off..];
        assert cs == [p[off..]];
      } else {
        ChunksFromConcat(p, bs, off + bs);
        assert cs == [p[off..off + bs]] + ChunksFrom(p, bs, off + bs);
        assert p[off..] == p[off..off + bs] + p[off + bs..];
      }
    }
  }

  /** No chunk is empty or longer than `bs`, and all but the last have exactly `bs` bytes. */
  lemma ChunksFromLengths(p: seq<byte>, bs: int, off: nat)
    requires bs > 0
    ensures var cs := ChunksFrom(p, bs, off);
      && (forall k :: 0 <= k < |cs| ==> 0 < |cs[k]| <= bs)
      && (forall k :: 0 <= k < |cs| - 1 ==> |cs[k]| == bs)
  {
    var cs := ChunksFrom(p, bs, off);
    ChunksFromAt(p, bs, off);
    forall k | 0 <= k < |cs| - 1
      ensures |cs[k]| == bs
    {
      assert off + (k + 1) * bs < |p|;
      assert (k + 1) * bs == k * bs + bs;
    }
  }

  /** The payload length in terms of the number of chunks and the last chunk's length. */
  lemma {:induction false} ChunksFromCount(p: seq<byte>, bs: int, off: nat)
    requires bs > 0 && off < |p|
    ensures var cs := ChunksFrom(p, bs, off);
      |cs| > 0 && |p| - off == (|cs| - 1) * bs + |cs[|cs| - 1]|
    decreases |p| - off
  {
    var cs := ChunksFrom(p, bs, off);
    if off + bs < |p| {
      var tail := ChunksFrom(p, bs, off + bs);
      ChunksFromCount(p, bs, off + bs);
      assert cs == [Slice(p, off, off + bs)] + tail;
      assert cs[|cs| - 1] == tail[|tail| - 1];
      assert bs + (|tail| - 1) * bs == (|cs| - 1) * bs;
    } else {
      assert ChunksFrom(p, bs, off + bs) == [];
      assert cs == [Slice(p, off, off + bs)] + [];
    }
  }

  /** The state of the splicing loop at offset `off`: the output so far followed by the
      blocks of the chunks still to come is the header and all the blocks, and continuing
      the checksum `acc` over the chunks still to come gives the final trailer value. */
  ghost predicate SplicedUpTo(p: seq<byte>, bs: int, level: int, compress: Compressor,
                              off: nat, out: seq<byte>, acc: u32)
    requires bs > 0 || |p| == 0
  {
    && Header + Blocks(Chunks(p, bs), bs, level, compress)
       == out + Blocks(ChunksFrom(p, bs, off), bs, level, compress)
    && Accumulate(Chunks(p, bs), level, compress, Adler32([], 1))
       == Accumulate(ChunksFrom(p, bs, off), level, compress, acc)
  }

  /** Before the first turn: the header only, and the checksum of nothing. */
  lemma SplicedStart(p: seq<byte>, bs: int, level: int, compress: Compressor)
    requires bs > 0 || |p| == 0
    ensures SplicedUpTo(p, bs, level, compress, 0, [0x78, 0x01], Adler32([], 1))
  {
  }

  /** One turn of the splicing loop: the chunk `c` at `off` appends its block to the
      output and updates the checksum, and the loop goes on at `next`, `bs` bytes on. */
  lemma SplicedStep(p: seq<byte>, bs: int, level: int, compress: Compressor,
                    off: nat, next: nat, c: seq<byte>, out: seq<byte>, acc: u32)
    requires bs > 0 && off < |p| && next == off + bs && c == Slice(p, off, off + bs)
    requires SplicedUpTo(p, bs, level, compress, off, out, acc)
    ensures SplicedUpTo(p, bs, level, compress, next, out + Block(c, bs, level, compress),
                        Adler32(SliceDropTail4(compress(c, level), 7), acc))
  {
    var cs, rest := ChunksFrom(p, bs, off), ChunksFrom(p, bs, next);
    assert cs == [c] + rest && cs[0] == c && cs[1..] == rest;
    var b, bs' := Block(c, bs, level, compress), Blocks(rest, bs, level, compress);
    assert Blocks(cs, bs, level, compress) == b + bs';
    assert out + (b + bs') == (out + b) + bs';
  }

  /** After the last turn the output, with the trailer appended, is the spliced stream. */
  lemma SplicedEnd(p: seq<byte>, bs: int, level: int, compress: Compressor,
                   off: nat, out: seq<byte>, acc: u32)
    requires (bs > 0 || |p| == 0) && off >= |p|
    requires SplicedUpTo(p, bs, level, compress, off, out, acc)
    ensures out + BE32(acc) == SplicedStream(p, bs, level, compress)
  {
    assert ChunksFrom(p, bs, off) == [];
    assert out + [] == out;
  }

  /** Chunks are `payload[k*bs:(k+1)*bs]` in order: they concatenate back to the payload,
      none is empty, and all but the last have exactly `bs` bytes. */
  lemma ChunksShape(p: seq<byte>, bs: int)
    requires bs > 0
    ensures var cs := Chunks(p, bs);
      && Concat(cs) == p
      && (cs == [] <==> p == [])
      && (forall k :: 0 <= k < |cs| ==> cs[k] == Slice(p, k * bs, k * bs + bs))
      && (forall k :: 0 <= k < |cs| ==> 0 < |cs[k]| <= bs)
      && (forall k :: 0 <= k < |cs| - 1 ==> |cs[k]| == bs)
  {
    ChunksFromAt(p, bs, 0);
    ChunksFromConcat(p, bs, 0);
    ChunksFromLengths(p, bs, 0);
  }

  /** A length made of `n - 1` full chunks and a last one of `last` bytes is a multiple of
      the block size exactly when the last chunk is full too. */
  lemma MultipleIffLastFull(len: int, bs: int, n: int, last: int)
    requires bs > 0 && n >= 1 && 0 < last <= bs && len == (n - 1) * bs + last
    ensures len % bs == 0 <==> last == bs
  {
    if last == bs {
      assert len == n * bs + 0;
      DivModUnique(len, bs, n, 0);
    } else {
      DivModUnique(len, bs, n - 1, last);
    }
  }

  /** For a non-empty payload: there is a last chunk, all chunks before it are full, and the
      length is a multiple of the block size exactly when the last chunk is full. */
  lemma LastChunk(p: seq<byte>, bs: int)
    requires bs > 0 && |p| > 0
    ensures var cs := Chunks(p, bs);
      && |cs| > 0 && 0 < |cs[|cs| - 1]| <= bs
      && (forall k :: 0 <= k < |cs| - 1 ==> |cs[k]| == bs)
      && (|p| % bs == 0 <==> |cs[|cs| - 1]| == bs)
  {
    var cs := Chunks(p, bs);
    ChunksFromCount(p, bs, 0);
    ChunksFromLengths(p, bs, 0);
    MultipleIffLastFull(|p|, bs, |cs|, |cs[|cs| - 1]|);
  }

  /** A payload length that is a multiple of the block size (the empty payload included)
      makes every chunk full, and only such a length does. */
  lemma MultipleIffAllFull(p: seq<byte>, bs: int)
    requires bs > 0
    ensures var cs := Chunks(p, bs);
      |p| % bs == 0 <==> forall k :: 0 <= k < |cs| ==> |cs[k]| == bs
  {
    if |p| == 0 {
      ChunksFromAt(p, bs, 0);
    } else {
      LastChunk(p, bs);
    }
  }

  /** Any other length leaves a last chunk shorter than the block size, and only such a
      length does. */
  lemma NotMultipleIffShortLast(p: seq<byte>, bs: int)
    requires bs > 0
    ensures var cs := Chunks(p, bs);
      |p| % bs != 0 <==> |cs| > 0 && |cs[|cs| - 1]| < bs
  {
    if |p| == 0 {
      ChunksFromAt(p, bs, 0);
    } else {
      LastChunk(p, bs);
    }
  }

  /** The final-block branch is taken exactly when the payload length is not a multiple of
      the block size: a multiple (the empty payload included) makes every chunk full. */
  lemma FinalBranchIffNotMultiple(p: seq<byte>, bs: int)
    requires bs > 0
    ensures var cs := Chunks(p, bs);
      && (|p| % bs == 0 <==> forall k :: 0 <= k < |cs| ==> |cs[k]| == bs)
      && (|p| % bs != 0 <==> |cs| > 0 && |cs[|cs| - 1]| < bs)
  {
    MultipleIffAllFull(p, bs);
    NotMultipleIffShortLast(p, bs);
  }

  // ---------------------------------------------------------------------------------------
  // Framing, for any compressor

  /** Every output starts with the RFC 1950 header 0x78 0x01 and ends with the four
      big-endian bytes of the accumulator; a payload of at least one full chunk puts the
      non-final marker 0x00 at offset 2. */
  lemma StreamFraming(p: seq<byte>, bs: int, level: int, compress: Compressor)
    requires bs > 0 || |p| == 0
    ensures var s := SplicedStream(p, bs, level, compress);
      && |s| >= 6 && s[..2] == [0x78, 0x01] && ValidHeader(s[0], s[1])
      && BE32At(s, |s| - 4) == Accumulate(Chunks(p, bs), level, compress, 1)
      && s[2..|s| - 4] == Blocks(Chunks(p, bs), bs, level, compress)
      && (bs > 0 && |p| >= bs ==> s[2] == 0)
  {
    var s := SplicedStream(p, bs, level, compress);
    var body := Blocks(Chunks(p, bs), bs, level, compress);
    var t := BE32(Accumulate(Chunks(p, bs), level, compress, Adler32([], 1)));
    EmptyIsOne();
    HeaderIsValid();
    assert s == Header + body + t;
    assert s[|s| - 4..] == t;
    if bs > 0 && |p| >= bs {
      var c0 := Slice(p, 0, bs);
      assert Chunks(p, bs)[0] == c0 && |c0| == bs;
      assert body[0] == 0;
    }
  }

  /** An empty payload becomes exactly `78 01 00 00 00 01`: header, no blocks, trailer 1. */
  lemma EmptyPayloadStream(bs: int, level: int, compress: Compressor)
    ensures SplicedStream([], bs, level, compress) == [0x78, 0x01, 0x00, 0x00, 0x00, 0x01]
  {
    EmptyIsOne();
  }

  // ---------------------------------------------------------------------------------------
  // Meaning at compression level 0

  lemma PrependNothing(r: Result<(seq<byte>, seq<byte>), InflateError>)
    ensures Prepend([], r) == r
  {
    match r
    case Ok((d, rest)) => assert [] + d == d;
    case Err(e) =>
  }

  lemma PrependTwice(a: seq<byte>, b: seq<byte>, r: Result<(seq<byte>, seq<byte>), InflateError>)
    ensures Prepend(a, Prepend(b, r)) == Prepend(a + b, r)
  {
    match r
    case Ok((d, rest)) => assert a + (b + d) == (a + b) + d;
    case Err(e) =>
  }

  /** A chunk of at most 65535 bytes that compresses to one stored block is framed as
      exactly that stored block, with the final bit the splicer chose. */
  lemma StoredFramed(c: seq<byte>, final: bool, level: int, compress: Compressor)
    requires StoresSmallChunks(compress) && |c| <= MaxStored
    ensures Framed(c, final, level, compress) == StoredBlock(c, final)
  {
    StoredSlices(compress(c, level), c);
  }

  /** Then the trailer is the Adler-32 of the concatenated chunks. */
  lemma {:induction false} AccumulateStored(cs: seq<seq<byte>>, level: int, compress: Compressor, acc: u32)
    requires StoresSmallChunks(compress) && IsChecksum(acc)
    requires forall k :: 0 <= k < |cs| ==> |cs[k]| <= MaxStored
    ensures Accumulate(cs, level, compress, acc) == Adler32(Concat(cs), acc)
    decreases |cs|
  {
    if cs == [] {
      ChecksumValues([], acc);
    } else {
      StoredSlices(compress(cs[0], level), cs[0]);
      ChecksumValues(cs[0], acc);
      AccumulateStored(cs[1..], level, compress, Adler32(cs[0], acc));
      Adler32Append(cs[0], Concat(cs[1..]), acc);
    }
  }

  lemma BlocksCons(cs: seq<seq<byte>>, bs: int, level: int, compress: Compressor, rest: seq<byte>)
    requires StoresSmallChunks(compress) && |cs| > 0 && |cs[0]| <= MaxStored
    ensures Blocks(cs, bs, level, compress) + rest
         == StoredBlock(cs[0], |cs[0]| != bs) + (Blocks(cs[1..], bs, level, compress) + rest)
  {
    var head := Block(cs[0], bs, level, compress);
    var tail := Blocks(cs[1..], bs, level, compress);
    StoredFramed(cs[0], |cs[0]| != bs, level, compress);
    assert Blocks(cs, bs, level, compress) == head + tail;
    assert (head + tail) + rest == head + (tail + rest);
  }

  /** Reading back the blocks of chunks that are all full: every block is non-final, so
      the reader runs on into whatever follows them. */
  lemma {:induction false} ReadAllFull(cs: seq<seq<byte>>, bs: int, level: int, compress: Compressor,
                                       rest: seq<byte>)
    requires StoresSmallChunks(compress) && 0 < bs <= MaxStored
    requires forall k :: 0 <= k < |cs| ==> |cs[k]| == bs
    ensures ReadBlocks(Blocks(cs, bs, level, compress) + rest) == Prepend(Concat(cs), ReadBlocks(rest))
    decreases |cs|
  {
    if cs == [] {
      assert Blocks(cs, bs, level, compress) + rest == rest;
      PrependNothing(ReadBlocks(rest));
    } else {
      var tail := Blocks(cs[1..], bs, level, compress) + rest;
      BlocksCons(cs, bs, level, compress, rest);
      ReadNonFinal(cs[0], tail);
      ReadAllFull(cs[1..], bs, level, compress, rest);
      PrependTwice(cs[0], Concat(cs[1..]), ReadBlocks(rest));
    }
  }

  /** Dropping the first of several chunks keeps "all full but a short last one". */
  lemma DropFirstKeepsShape(cs: seq<seq<byte>>, bs: int)
    requires |cs| > 1 && |cs[|cs| - 1]| < bs
    requires forall k :: 0 <= k < |cs| - 1 ==> |cs[k]| == bs
    ensures var more := cs[1..];
      && |more| > 0 && |more[|more| - 1]| < bs
      && forall k :: 0 <= k < |more| - 1 ==> |more[k]| == bs
  {
    var more := cs[1..];
    assert more[|more| - 1] == cs[|cs| - 1];
    assert forall k :: 0 <= k < |more| - 1 ==> more[k] == cs[k + 1];
  }

  /** Reading back the blocks of chunks whose last one is short: the reader stops exactly
      after the last block, having produced every chunk in order. */
  lemma {:induction false} ReadLastShort(cs: seq<seq<byte>>, bs: int, level: int, compress: Compressor,
                                         rest: seq<byte>)
    requires StoresSmallChunks(compress) && 0 < bs <= MaxStored && |cs| > 0
    requires forall k :: 0 <= k < |cs| - 1 ==> |cs[k]| == bs
    requires |cs[|cs| - 1]| < bs
    ensures ReadBlocks(Blocks(cs, bs, level, compress) + rest) == Ok((Concat(cs), rest))
    decreases |cs|
  {
    var more := cs[1..];
    var tail := Blocks(more, bs, level, compress) + rest;
    BlocksCons(cs, bs, level, compress, rest);
    if |cs| == 1 {
      assert more == [] && tail == rest && |cs[0]| != bs;
      ReadFinal(cs[0], rest);
      assert Concat(cs) == cs[0] + [] == cs[0];
    } else {
      ReadNonFinal(cs[0], tail);
      DropFirstKeepsShape(cs, bs);
      ReadLastShort(more, bs, level, compress, rest);
      assert Concat(cs) == cs[0] + Concat(more);
    }
  }

  lemma HeaderSplit(body: seq<byte>, t: seq<byte>)
    ensures var s := Header + body + t;
      |s| >= 2 && s[0] == 0x78 && s[1] == 0x01 && s[2..] == body + t
  {
  }

  /** When each chunk compresses to one stored block (as zlib does at level 0), the
      trailer the splicer computes over `compressed[7:-4]` of each chunk is the ordinary
      Adler-32 of the whole plain payload. */
  lemma TrailerIsPayloadChecksum(p: seq<byte>, bs: int, level: int, compress: Compressor)
    requires StoresSmallChunks(compress) && 0 < bs <= MaxStored
    ensures Accumulate(Chunks(p, bs), level, compress, Adler32([], 1)) == Adler32(p, 1)
  {
    ChunksShape(p, bs);
    EmptyIsOne();
    AccumulateStored(Chunks(p, bs), level, compress, 1);
  }

  /** The stream as written, when each chunk compresses to one stored block, for a payload
      whose length is not a multiple of the block size: a standard reader of stored blocks
      gets the payload back and the trailer checks. */
  lemma SplicedRoundTrip(p: seq<byte>, bs: int, level: int, compress: Compressor)
    requires StoresSmallChunks(compress) && 0 < bs <= MaxStored && |p| % bs != 0
    ensures Inflate(SplicedStream(p, bs, level, compress)) == Ok(p)
  {
    var cs := Chunks(p, bs);
    var t := BE32(Accumulate(cs, level, compress, Adler32([], 1)));
    var body := Blocks(cs, bs, level, compress);
    FinalBranchIffNotMultiple(p, bs);
    ChunksFromLengths(p, bs, 0);
    ChunksFromConcat(p, bs, 0);
    TrailerIsPayloadChecksum(p, bs, level, compress);
    ReadLastShort(cs, bs, level, compress, t);
    HeaderSplit(body, t);
    InflateOk(Header + body + t, p, t);
  }

  /** The stream as written, when each chunk compresses to one stored block, for a payload
      whose length IS a multiple of the block size (the empty payload included): no block
      carries the final bit, the reader takes the 4-byte trailer for the start of another
      block, and the stream is cut short. */
  lemma NoFinalBlockOnExactMultiple(p: seq<byte>, bs: int, level: int, compress: Compressor)
    requires StoresSmallChunks(compress) && 0 < bs <= MaxStored && |p| % bs == 0
    ensures Inflate(SplicedStream(p, bs, level, compress)) == Err(Truncated)
  {
    var cs := Chunks(p, bs);
    var t := BE32(Accumulate(cs, level, compress, Adler32([], 1)));
    var body := Blocks(cs, bs, level, compress);
    FinalBranchIffNotMultiple(p, bs);
    HeaderIsValid();
    HeaderSplit(body, t);
    ReadAllFull(cs, bs, level, compress, t);
    ReadShort(t);
  }

  /** The block size of one makes the byte 0x41 a single full chunk, framed as the
      non-final stored block `00 01 00 FE FF 41`. */
  lemma OneFullChunkBlocks(compress: Compressor)
    requires StoresSmallChunks(compress)
    ensures Chunks([0x41], 1) == [[0x41]]
    ensures Blocks([[0x41]], 1, 0, compress) == [0x00, 0x01, 0x00, 0xFE, 0xFF, 0x41]
  {
    var p: seq<byte> := [0x41];
    assert Slice(p, 0, 1) == p;
    assert ChunksFrom(p, 1, 1) == [];
    StoredFramed(p, false, 0, compress);
    assert [p][1..] == [] && [p][0] == p;
    assert Blocks([p], 1, 0, compress) == Framed(p, false, 0, compress) + [];
    assert LE16(1) == [1, 0] && LE16(0xFFFE) == [0xFE, 0xFF];
  }

  /** A concrete instance at level 0: one 0x41 byte with a block size of one gives
      `78 01 | 00 01 00 FE FF 41 | 00 42 00 42`, which ends inside the block header the
      reader expects after the non-final block. */
  lemma OneFullChunkStream(compress: Compressor)
    requires StoresSmallChunks(compress)
    ensures SplicedStream([0x41], 1, 0, compress)
         == [0x78, 0x01, 0x00, 0x01, 0x00, 0xFE, 0xFF, 0x41, 0x00, 0x42, 0x00, 0x42]
  {
    var p: seq<byte> := [0x41];
    OneFullChunkBlocks(compress);
    TrailerIsPayloadChecksum(p, 1, 0, compress);
    OneByte(0x41);
    TrailerOf41();
  }

  /** The big-endian bytes of the checksum of the single byte 0x41. */
  lemma TrailerOf41()
    ensures BE32(0x420042) == [0x00, 0x42, 0x00, 0x42]
  {
    var x: int := 0x420042;
    assert x / 0x100 == 0x4200 && 0x4200 / 0x100 == 0x42 && 0x42 / 0x100 == 0;
    assert x % 0x100 == 0x42 && 0x4200 % 0x100 == 0 && 0x42 % 0x100 == 0x42;
  }

  /** The one-byte payload 0x41 with a block size of 1: the spliced stream's only block is
      not final, so an inflater runs out of input. */
  lemma OneFullChunkIsCutShort(compress: Compressor)
    requires StoresSmallChunks(compress)
    ensures Inflate(SplicedStream([0x41], 1, 0, compress)) == Err(Truncated)
    ensures Inflate([0x78, 0x01, 0x00, 0x01, 0x00, 0xFE, 0xFF, 0x41, 0x00, 0x42, 0x00, 0x42])
         == Err(Truncated)
  {
    OneFullChunkStream(compress);
    NoFinalBlockOnExactMultiple([0x41], 1, 0, compress);
  }

  // ---------------------------------------------------------------------------------------
  // The corrected splicer

  /** The chunks of the corrected splicer: an empty payload still gets one empty chunk, so
      that the stream always has a final block. */
  function FixedChunks(p: seq<byte>, bs: int): seq<seq<byte>>
    requires bs > 0 || |p| == 0
  {
    if |p| == 0 then [[]] else Chunks(p, bs)
  }

  /** Every chunk but the last is framed as a non-final block; the last keeps its final bit
      whatever its length. */
  function FixedBlocks(cs: seq<seq<byte>>, level: int, compress: Compressor): seq<byte>
    decreases |cs|
  {
    if cs == [] then [] else Framed(cs[0], |cs| == 1, level, compress) + FixedBlocks(cs[1..], level, compress)
  }

  function SplicedStreamFixed(p: seq<byte>, bs: int, level: int, compress: Compressor): seq<byte>
    requires bs > 0 || |p| == 0
  {
    Header + FixedBlocks(FixedChunks(p, bs), level, compress)
    + BE32(Accumulate(FixedChunks(p, bs), level, compress, Adler32([], 1)))
  }

  lemma FixedBlocksCons(cs: seq<seq<byte>>, level: int, compress: Compressor, rest: seq<byte>)
    requires StoresSmallChunks(compress) && |cs| > 0 && |cs[0]| <= MaxStored
    ensures FixedBlocks(cs, level, compress) + rest
         == StoredBlock(cs[0], |cs| == 1) + (FixedBlocks(cs[1..], level, compress) + rest)
  {
    var head := Framed(cs[0], |cs| == 1, level, compress);
    var tail := FixedBlocks(cs[1..], level, compress);
    StoredFramed(cs[0], |cs| == 1, level, compress);
    assert FixedBlocks(cs, level, compress) == head + tail;
    assert (head + tail) + rest == head + (tail + rest);
  }

  lemma {:induction false} ReadFixed(cs: seq<seq<byte>>, level: int, compress: Compressor, rest: seq<byte>)
    requires StoresSmallChunks(compress)
    requires |cs| > 0 && forall k :: 0 <= k < |cs| ==> |cs[k]| <= MaxStored
    ensures ReadBlocks(FixedBlocks(cs, level, compress) + rest) == Ok((Concat(cs), rest))
    decreases |cs|
  {
    var more := cs[1..];
    var tail := FixedBlocks(more, level, compress) + rest;
    FixedBlocksCons(cs, level, compress, rest);
    if |cs| == 1 {
      assert more == [] && tail == rest;
      ReadFinal(cs[0], rest);
      assert Concat(cs) == cs[0] + [] == cs[0];
    } else {
      ReadNonFinal(cs[0], tail);
      assert forall k :: 0 <= k < |more| ==> more[k] == cs[k + 1];
      ReadFixed(more, level, compress, rest);
      assert Concat(cs) == cs[0] + Concat(more);
    }
  }

  /** The corrected chunks: at least one, none longer than `bs`, concatenating to `p`. */
  lemma FixedChunksShape(p: seq<byte>, bs: int)
    requires bs > 0
    ensures var cs := FixedChunks(p, bs);
      |cs| > 0 && Concat(cs) == p && forall k :: 0 <= k < |cs| ==> |cs[k]| <= bs
  {
    ChunksShape(p, bs);
    if |p| == 0 {
      assert Concat([[]]) == [] + Concat([]);
    }
  }

  lemma FixedTrailer(p: seq<byte>, bs: int, level: int, compress: Compressor)
    requires StoresSmallChunks(compress) && 0 < bs <= MaxStored
    ensures Accumulate(FixedChunks(p, bs), level, compress, Adler32([], 1)) == Adler32(p, 1)
  {
    FixedChunksShape(p, bs);
    EmptyIsOne();
    AccumulateStored(FixedChunks(p, bs), level, compress, 1);
  }

  /** The corrected splicer round-trips every payload when each chunk compresses to one
      stored block. */
  lemma SplicedFixedRoundTrip(p: seq<byte>, bs: int, level: int, compress: Compressor)
    requires StoresSmallChunks(compress) && 0 < bs <= MaxStored
    ensures Inflate(SplicedStreamFixed(p, bs, level, compress)) == Ok(p)
  {
    var cs := FixedChunks(p, bs);
    var t := BE32(Accumulate(cs, level, compress, Adler32([], 1)));
    var body := FixedBlocks(cs, level, compress);
    FixedChunksShape(p, bs);
    FixedTrailer(p, bs, level, compress);
    ReadFixed(cs, level, compress, t);
    HeaderSplit(body, t);
    InflateOk(Header + body + t, p, t);
  }

  lemma {:induction false} FixedBlocksAgree(cs: seq<seq<byte>>, bs: int, level: int, compress: Compressor)
    requires |cs| > 0
    requires forall k :: 0 <= k < |cs| - 1 ==> |cs[k]| == bs
    requires |cs[|cs| - 1]| != bs
    ensures FixedBlocks(cs, level, compress) == Blocks(cs, bs, level, compress)
    decreases |cs|
  {
    if |cs| > 1 {
      FixedBlocksAgree(cs[1..], bs, level, compress);
    }
  }

  /** The correction only touches the broken case: for a payload whose length is not a
      multiple of the block size both splicers write the same bytes, whatever the
      compressor. */
  lemma FixedAgreesOffMultiples(p: seq<byte>, bs: int, level: int, compress: Compressor)
    requires bs > 0 && |p| % bs != 0
    ensures SplicedStreamFixed(p, bs, level, compress) == SplicedStream(p, bs, level, compress)
  {
    FinalBranchIffNotMultiple(p, bs);
    ChunksShape(p, bs);
    FixedBlocksAgree(Chunks(p, bs), bs, level, compress);
  }
}
