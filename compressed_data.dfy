/** `CntZlibDompressedData`, the NPK container whose payload is a zlib stream holding the
    package's files as back-to-back `CntZlibPackedObj` entries. The container keeps the
    compressed stream and three caches: whether a decompressor is held, the decompressed
    blob and the list of entries parsed from it. */
module CompressedData {
  import opened Bytes
  import opened Checksum
  import opened Splice
  import opened PackedObj
  import opened Scan

  /** `decompressor.decompress(data)`: a foreign function, kept abstract. */
  type Inflater = seq<byte> -> seq<byte>

  class CntZlibDompressedData {
    var cntPayload: seq<byte>
    /** `__decompressor`: only whether one is held is modelled. */
    var decompressorHeld: bool
    /** `__decompressed` */
    var decompressed: Option<seq<byte>>
    /** `__obj_list` */
    var objList: Option<seq<CntZlibPackedObj>>

    /** A container read with the given payload; every cache starts empty. */
    constructor(payload: seq<byte>)
      ensures cntPayload == payload
      ensures !decompressorHeld && decompressed == None && objList == None
    {
      cntPayload := payload;
      decompressorHeld := false;
      decompressed := None;
      objList := None;
    }

    /** `set_cnt_payload_decompressed`: splice the payload into a zlib stream one
        `blocksize` chunk at a time, store it, and drop every cache. `compress` stands for
        `zlib.compress` and comes before the two defaulted arguments. A block size of zero
        or less loops forever on a non-empty payload, so that call is excluded. */
    method SetCntPayloadDecompressed(payload: seq<byte>, compress: Compressor,
                                     blocksize: int := 0x8000, level: int := 0)
      requires blocksize > 0 || |payload| == 0
      modifies this
      ensures cntPayload == SplicedStream(payload, blocksize, level, compress)
      ensures !decompressorHeld && decompressed == None && objList == None
    {
      var offset: nat := 0;
      var bufferOut: seq<byte> := [0x78, 0x01];
      var adler32 := Adler32([], 1);
      SplicedStart(payload, blocksize, level, compress);
      while offset < |payload|
        invariant SplicedUpTo(payload, blocksize, level, compress, offset, bufferOut, adler32)
        decreases |payload| - offset
      {
        var bufferIn := Slice(payload, offset, offset + blocksize);
        var block: seq<byte>;
        var compressed: seq<byte>;
        if |bufferIn| == blocksize {
          block := [0x00];
          compressed := compress(bufferIn, level);
          block := block + SliceDropTail4(compressed, 3);
        } else {
          compressed := compress(bufferIn, level);
          block := SliceDropTail4(compressed, 2);
        }
        assert block == Block(bufferIn, blocksize, level, compress);
        ghost var (off0, out0, acc0) := (offset, bufferOut, adler32);
        adler32 := Adler32(SliceDropTail4(compressed, 7), adler32);
        bufferOut := bufferOut + block;
        offset := offset + blocksize;
        SplicedStep(payload, blocksize, level, compress, off0, offset, bufferIn, out0, acc0);
      }
      SplicedEnd(payload, blocksize, level, compress, offset, bufferOut, adler32);
      bufferOut := bufferOut + BE32(adler32);
      cntPayload := bufferOut;
      decompressorHeld := false;
      decompressed := None;
      objList := None;
    }

    /** `get_cnt_payload_decompressed`: a cached non-empty blob is returned as it is;
        otherwise the stream is decompressed again and cached. */
    method GetCntPayloadDecompressed(inflate: Inflater) returns (blob: seq<byte>)
      modifies this
      ensures cntPayload == old(cntPayload) && objList == old(objList)
      ensures old(decompressed).Some? && old(decompressed).value != [] ==>
        blob == old(decompressed).value && decompressed == old(decompressed)
          && decompressorHeld == old(decompressorHeld)
      ensures !(old(decompressed).Some? && old(decompressed).value != []) ==>
        blob == inflate(cntPayload) && decompressed == Some(blob) && decompressorHeld
    {
      if decompressed.None? || decompressed.value == [] {
        decompressorHeld := true;
        decompressed := Some(inflate(cntPayload));
      }
      blob := decompressed.value;
    }

    /** `cnt_obj_list`: a cached non-empty list is returned as it is, and nothing else
        changes; otherwise the blob `get_cnt_payload_decompressed` gives (the cached
        non-empty blob, or the payload inflated afresh) is scanned and the list cached,
        unless the scan raises. */
    method CntObjList(inflate: Inflater) returns (r: Result<seq<CntZlibPackedObj>, ObjError>)
      modifies this
      ensures cntPayload == old(cntPayload)
      ensures old(objList).Some? && old(objList).value != [] ==>
        r == Ok(old(objList).value) && objList == old(objList)
          && decompressed == old(decompressed) && decompressorHeld == old(decompressorHeld)
      ensures !(old(objList).Some? && old(objList).value != []) ==>
        && decompressed == (if old(decompressed).Some? && old(decompressed).value != []
                            then old(decompressed) else Some(inflate(old(cntPayload))))
        && decompressorHeld == (old(decompressorHeld) || !(old(decompressed).Some? && old(decompressed).value != []))
        && ScanResult(r, decompressed.value)
        && (r.Ok? ==> objList == Some(r.value))
        && (r.Err? ==> objList == old(objList))
    {
      if objList.Some? && objList.value != [] {
        return Ok(objList.value);
      }
      var blob := GetCntPayloadDecompressed(inflate);
      r := ParseAllObj(blob);
      if r.Ok? {
        objList := Some(r.value);
      }
    }
  }

  /** The parse of `blob` either holds, in order, the entries read at the offsets the scan
      visits, or raised exactly when the scan does. */
  ghost predicate ScanResult(r: Result<seq<CntZlibPackedObj>, ObjError>, blob: seq<byte>)
    reads if r.Ok? then set k | 0 <= k < |r.value| :: r.value[k] else {}
  {
    && (r.Ok? <==> Offsets(blob, 0).Ok?)
    && (r.Err? ==> r.error == StructError)
    && (r.Ok? ==> var os := Offsets(blob, 0).value;
         |r.value| == |os| && forall k :: 0 <= k < |os| ==> r.value[k].data == RecordAt(blob, os[k]).value)
  }

  /** `__get_obj(offset)`: read the two length fields at `offset`, cut out the entry and
      repair its length. Fewer than 28 bytes left fail the payload length read, fewer than
      30 the name length read. */
  method GetObj(blob: seq<byte>, offset: nat) returns (r: Result<CntZlibPackedObj, ObjError>)
    ensures r.Ok? <==> RecordAt(blob, offset).Ok?
    ensures r.Err? ==> r.error == StructError
    ensures r.Ok? ==> fresh(r.value) && r.value.Valid() && r.value.data == RecordAt(blob, offset).value
  {
    var data := Slice(blob, offset, |blob|);
    if |data| < 28 {
      return Err(StructError);
    }
    var payloadLen := LE32At(data, 24);
    if |data| < 30 {
      return Err(StructError);
    }
    var nameLen := LE16At(data, 28);
    var objLen := 30 + payloadLen as int + nameLen as int;
    assert objLen == ObjLenAt(blob, offset);
    data := Slice(data, 0, objLen);
    assert data == Slice(blob, offset, offset + objLen);
    var obj := new CntZlibPackedObj(data);
    return Ok(obj);
  }

  /** `__parse_all_obj`: read an entry at offset 0 and at each next offset `full_len`
      bytes on, until the offset reaches the end of the blob. A read that raises ends the
      parse with its error. */
  method ParseAllObj(blob: seq<byte>) returns (r: Result<seq<CntZlibPackedObj>, ObjError>)
    ensures ScanResult(r, blob)
    ensures r.Ok? ==> forall k :: 0 <= k < |r.value| ==> fresh(r.value[k]) && r.value[k].Valid()
  {
    var lst: seq<CntZlibPackedObj> := [];
    var offset: nat := 0;
    ghost var done: seq<nat> := [];
    ghost var recs: seq<seq<byte>> := [];
    ScannedStart(blob);
    while offset < |blob|
      invariant ScannedUpTo(blob, offset, done, recs)
      invariant |lst| == |recs|
      invariant forall k :: 0 <= k < |lst| ==> fresh(lst[k]) && lst[k].Valid() && lst[k].data == recs[k]
      decreases |blob| - offset
    {
      var obj := GetObj(blob, offset);
      if obj.Err? {
        ScannedFail(blob, offset, done, recs);
        return Err(obj.error);
      }
      RecordAtShape(blob, offset);
      ghost var (off0, done0, recs0) := (offset, done, recs);
      lst := lst + [obj.value];
      done := done + [offset];
      recs := recs + [obj.value.data];
      offset := offset + obj.value.FullLen();
      ScannedStep(blob, off0, offset, obj.value.data, done0, recs0);
    }
    ScannedEnd(blob, offset, done, recs);
    return Ok(lst);
  }
}
