/** The record scan over a decompressed container blob (`__get_obj` and `__parse_all_obj`):
    at each offset read the two length fields, cut out header, name and payload, and
    advance by the length of the entry built from them. */
module Scan {
  import opened Bytes
  import opened PackedObj

  /** `obj_len` in `__get_obj`: 30 plus the payload length read at 24 and the name length
      read at 28 of the blob from `off` on. */
  function ObjLenAt(blob: seq<byte>, off: nat): nat
    requires off + MinLength <= |blob|
  {
    MinLength + LE32At(blob, off + 24) as int + LE16At(blob, off + 28) as int
  }

  /** `__get_obj(offset)`: fewer than 30 bytes from `off` on make the length reads fail;
      otherwise the entry is the next `obj_len` bytes, cut short where the blob ends and
      then zero-padded by the entry's length repair. */
  function RecordAt(blob: seq<byte>, off: nat): (r: Result<seq<byte>, ObjError>)
    ensures r.Ok? <==> off + MinLength <= |blob|
    ensures r.Err? ==> r.error == StructError
    ensures r.Ok? ==> Consistent(r.value)
  {
    if off + MinLength > |blob| then Err(StructError)
    else Ok(Repaired(Slice(blob, off, off + ObjLenAt(blob, off))))
  }

  /** The entry read at `off` has the length fields found there, so its `full_len` is the
      `obj_len` read there, and it holds the blob's bytes from `off` on, zero-padded past
      the blob's end. */
  lemma RecordAtShape(blob: seq<byte>, off: nat)
    requires off + MinLength <= |blob|
    ensures var rec := RecordAt(blob, off).value;
      && PayloadLen(rec) == LE32At(blob, off + 24) && NameLen(rec) == LE16At(blob, off + 28)
      && |rec| == ObjLenAt(blob, off)
      && forall i :: 0 <= i < |rec| ==> rec[i] == if off + i < |blob| then blob[off + i] else 0
  {
    var cut := Slice(blob, off, off + ObjLenAt(blob, off));
    assert |cut| >= MinLength;
    assert PayloadLen(cut) == LE32At(blob, off + 24) && NameLen(cut) == LE16At(blob, off + 28);
  }

  /** The bytes `rec` stand at `off` in the blob. */
  predicate PlacedAt(blob: seq<byte>, off: nat, rec: seq<byte>) {
    off + |rec| <= |blob| && forall i :: 0 <= i < |rec| ==> blob[off + i] == rec[i]
  }

  /** The `obj_len` read at the start of a consistent entry is its length. */
  lemma ObjLenPlaced(blob: seq<byte>, off: nat, rec: seq<byte>)
    requires Consistent(rec) && PlacedAt(blob, off, rec)
    ensures ObjLenAt(blob, off) == |rec|
  {
    assert forall i :: 24 <= i < MinLength ==> blob[off + i] == rec[i];
  }

  /** A consistent entry in the blob is read back as exactly itself. */
  lemma RecordAtPlaced(blob: seq<byte>, off: nat, rec: seq<byte>)
    requires Consistent(rec) && PlacedAt(blob, off, rec)
    ensures RecordAt(blob, off) == Ok(rec)
  {
    ObjLenPlaced(blob, off, rec);
    RecordAtShape(blob, off);
    var r := RecordAt(blob, off).value;
    assert forall i :: 0 <= i < |r| ==> r[i] == rec[i];
    assert r == rec;
  }

  /** Offset `off` in front of the offsets the rest of the scan visits. */
  function ConsAt(off: nat, r: Result<seq<nat>, ObjError>): Result<seq<nat>, ObjError>
  {
    match r
    case Ok(os) => Ok([off] + os)
    case Err(e) => Err(e)
  }

  /** `__parse_all_obj` from offset `off`: the offsets it reads entries at, one per step
      until the offset reaches the end of the blob, each next offset `obj_len` bytes
      further on; a step with fewer than 30 bytes left fails the whole scan with the
      error of the length read. The entries themselves are `RecordAt` of these offsets.
      Every `obj_len` is at least 30, so the scan ends. */
  function Offsets(blob: seq<byte>, off: nat): (r: Result<seq<nat>, ObjError>)
    ensures r.Err? ==> r.error == StructError
    ensures r.Ok? ==> forall i :: 0 <= i < |r.value| ==>
      off <= r.value[i] && r.value[i] + MinLength <= |blob|
    decreases |blob| - off
  {
    if off >= |blob| then Ok([])
    else if off + MinLength > |blob| then Err(StructError)
    else ConsAt(off, Offsets(blob, off + ObjLenAt(blob, off)))
  }

  /** The offsets already visited, in front of the rest of the scan. */
  function Prefixed(done: seq<nat>, r: Result<seq<nat>, ObjError>): Result<seq<nat>, ObjError>
  {
    match r
    case Ok(os) => Ok(done + os)
    case Err(e) => Err(e)
  }

  lemma PrefixedNothing(r: Result<seq<nat>, ObjError>)
    ensures Prefixed([], r) == r
  {
    if r.Ok? {
      assert [] + r.value == r.value;
    }
  }

  lemma PrefixedStep(done: seq<nat>, off: nat, r: Result<seq<nat>, ObjError>)
    ensures Prefixed(done, ConsAt(off, r)) == Prefixed(done + [off], r)
  {
    if r.Ok? {
      assert done + ([off] + r.value) == (done + [off]) + r.value;
    }
  }

  /** The state of `__parse_all_obj` at offset `off`: the offsets `done` already read,
      followed by the scan from `off`, are the scan from the start, and `recs` are the
      entries read at them. */
  ghost predicate ScannedUpTo(blob: seq<byte>, off: nat, done: seq<nat>, recs: seq<seq<byte>>)
  {
    && Offsets(blob, 0) == Prefixed(done, Offsets(blob, off))
    && |recs| == |done|
    && forall k :: 0 <= k < |done| ==> RecordAt(blob, done[k]) == Ok(recs[k])
  }

  lemma ScannedStart(blob: seq<byte>)
    ensures ScannedUpTo(blob, 0, [], [])
  {
    PrefixedNothing(Offsets(blob, 0));
  }

  /** Reading the entry `rec` at `off` and moving `obj_len` bytes on keeps the state. */
  lemma ScannedStep(blob: seq<byte>, off: nat, next: nat, rec: seq<byte>,
                    done: seq<nat>, recs: seq<seq<byte>>)
    requires off < |blob| && off + MinLength <= |blob| && next == off + ObjLenAt(blob, off)
    requires RecordAt(blob, off) == Ok(rec)
    requires ScannedUpTo(blob, off, done, recs)
    ensures ScannedUpTo(blob, next, done + [off], recs + [rec])
  {
    PrefixedStep(done, off, Offsets(blob, next));
    var done', recs' := done + [off], recs + [rec];
    assert forall k :: 0 <= k < |done| ==> done'[k] == done[k] && recs'[k] == recs[k];
  }

  /** At the end of the blob the offsets read are the whole scan. */
  lemma ScannedEnd(blob: seq<byte>, off: nat, done: seq<nat>, recs: seq<seq<byte>>)
    requires off >= |blob| && ScannedUpTo(blob, off, done, recs)
    ensures Offsets(blob, 0) == Ok(done)
  {
    assert done + [] == done;
  }

  /** Fewer than 30 bytes left before the end fail the whole scan. */
  lemma ScannedFail(blob: seq<byte>, off: nat, done: seq<nat>, recs: seq<seq<byte>>)
    requires off < |blob| < off + MinLength && ScannedUpTo(blob, off, done, recs)
    ensures Offsets(blob, 0) == Err(StructError)
  {
  }

  /** The scan's offsets tile the blob: the first is where the scan starts, each next one
      is the previous one plus the `full_len` of the entry read there and still inside the
      blob, and the last entry reaches the end of the blob (or past it, zero-padded). */
  lemma {:induction false} OffsetsTile(blob: seq<byte>, off: nat)
    requires Offsets(blob, off).Ok?
    ensures var os := Offsets(blob, off).value;
      && (os == [] <==> off >= |blob|)
      && (os != [] ==> os[0] == off && os[|os| - 1] + ObjLenAt(blob, os[|os| - 1]) >= |blob|)
      && forall k :: 0 <= k < |os| - 1 ==>
        os[1..][k] == os[k] + ObjLenAt(blob, os[k]) && os[1..][k] < |blob|
    decreases |blob| - off
  {
    if off < |blob| {
      var next := off + ObjLenAt(blob, off);
      var rest := Offsets(blob, next).value;
      var os := [off] + rest;
      assert Offsets(blob, off).value == os;
      OffsetsTile(blob, next);
      assert os[1..] == rest;
    }
  }

  /** Every offset moved `n` bytes on. */
  function ShiftBy(n: nat, os: seq<nat>): (r: seq<nat>)
    ensures |r| == |os| && forall i :: 0 <= i < |os| ==> r[i] == n + os[i]
  {
    seq(|os|, i requires 0 <= i < |os| => n + os[i])
  }

  function ShiftResult(n: nat, r: Result<seq<nat>, ObjError>): Result<seq<nat>, ObjError>
  {
    match r
    case Ok(os) => Ok(ShiftBy(n, os))
    case Err(e) => Err(e)
  }

  lemma ShiftConsAt(n: nat, o: nat, r: Result<seq<nat>, ObjError>)
    ensures ShiftResult(n, ConsAt(o, r)) == ConsAt(n + o, ShiftResult(n, r))
  {
    if r.Ok? {
      assert ShiftBy(n, [o] + r.value) == [n + o] + ShiftBy(n, r.value);
    }
  }

  lemma ObjLenShift(a: seq<byte>, b: seq<byte>, o: nat)
    requires o + MinLength <= |b|
    ensures ObjLenAt(a + b, |a| + o) == ObjLenAt(b, o)
  {
    var c := a + b;
    assert c[|a| + o + 24] == b[o + 24] && c[|a| + o + 25] == b[o + 25];
    assert c[|a| + o + 26] == b[o + 26] && c[|a| + o + 27] == b[o + 27];
    assert c[|a| + o + 28] == b[o + 28] && c[|a| + o + 29] == b[o + 29];
  }

  /** Scanning `b` behind a prefix `a` visits the offsets of scanning `b` alone, moved
      `|a|` bytes on: the scan depends on nothing before its start. */
  lemma {:induction false} OffsetsShift(a: seq<byte>, b: seq<byte>, o: nat)
    ensures Offsets(a + b, |a| + o) == ShiftResult(|a|, Offsets(b, o))
    decreases |b| - o
  {
    if o < |b| && o + MinLength <= |b| {
      ObjLenShift(a, b, o);
      var next := o + ObjLenAt(b, o);
      assert Offsets(a + b, |a| + o) == ConsAt(|a| + o, Offsets(a + b, |a| + next));
      assert Offsets(b, o) == ConsAt(o, Offsets(b, next));
      OffsetsShift(a, b, next);
      ShiftConsAt(|a|, o, Offsets(b, next));
    }
  }

  /** Where consistent entries laid end to end start. */
  function Starts(recs: seq<seq<byte>>): (r: seq<nat>)
    ensures |r| == |recs|
  {
    if recs == [] then [] else [0] + ShiftBy(|recs[0]|, Starts(recs[1..]))
  }

  /** All but the first of consistent entries are consistent. */
  lemma RestConsistent(recs: seq<seq<byte>>)
    requires recs != [] && forall k :: 0 <= k < |recs| ==> Consistent(recs[k])
    ensures Consistent(recs[0]) && forall k :: 0 <= k < |recs[1..]| ==> Consistent(recs[1..][k])
  {
    assert forall k :: 0 <= k < |recs[1..]| ==> recs[1..][k] == recs[k + 1];
  }

  /** The first entry of a blob made of entries stands at its start. */
  lemma FirstPlaced(rec: seq<byte>, rest: seq<byte>)
    ensures PlacedAt(rec + rest, 0, rec)
  {
  }

  /** An entry placed in `b` stays placed in `c == a + b`, at `at == |a| + off`. */
  lemma PlacedShift(a: seq<byte>, b: seq<byte>, c: seq<byte>, off: nat, at: nat, rec: seq<byte>)
    requires c == a + b && at == |a| + off && PlacedAt(b, off, rec)
    ensures PlacedAt(c, at, rec)
  {
    assert forall j :: |a| <= j < |c| ==> c[j] == b[j - |a|];
  }

  /** The `k`-th of entries laid end to end stands at the `k`-th start. */
  lemma {:induction false} ConcatPlaced(recs: seq<seq<byte>>, k: nat)
    requires k < |recs|
    ensures PlacedAt(Concat(recs), Starts(recs)[k], recs[k])
    decreases k
  {
    var rec, more := recs[0], recs[1..];
    assert Concat(recs) == rec + Concat(more);
    if k == 0 {
      FirstPlaced(rec, Concat(more));
    } else {
      ConcatPlaced(more, k - 1);
      assert more[k - 1] == recs[k];
      assert Starts(recs)[k] == |rec| + Starts(more)[k - 1];
      PlacedShift(rec, Concat(more), Concat(recs), Starts(more)[k - 1], Starts(recs)[k], recs[k]);
    }
  }

  /** The scan of consistent entries laid end to end visits exactly their starts. */
  lemma {:induction false} OffsetsConcat(recs: seq<seq<byte>>)
    requires forall k :: 0 <= k < |recs| ==> Consistent(recs[k])
    ensures Offsets(Concat(recs), 0) == Ok(Starts(recs))
  {
    if recs != [] {
      var rec, more := recs[0], recs[1..];
      RestConsistent(recs);
      var c := Concat(recs);
      assert c == rec + Concat(more);
      FirstPlaced(rec, Concat(more));
      ObjLenPlaced(c, 0, rec);
      OffsetsConcat(more);
      OffsetsShift(rec, Concat(more), 0);
    }
  }

  /** A blob made of consistent entries scans to exactly those entries, in order: the
      scan visits their starts and reads each of them back as itself. */
  lemma ScanConcat(recs: seq<seq<byte>>)
    requires forall k :: 0 <= k < |recs| ==> Consistent(recs[k])
    ensures Offsets(Concat(recs), 0) == Ok(Starts(recs))
    ensures forall k :: 0 <= k < |recs| ==> RecordAt(Concat(recs), Starts(recs)[k]) == Ok(recs[k])
  {
    OffsetsConcat(recs);
    forall k | 0 <= k < |recs|
      ensures RecordAt(Concat(recs), Starts(recs)[k]) == Ok(recs[k])
    {
      ConcatPlaced(recs, k);
      RecordAtPlaced(Concat(recs), Starts(recs)[k], recs[k]);
    }
  }

  /** A tail of 1 to 29 bytes after consistent entries makes the scan fail. */
  lemma {:induction false} ScanShortTail(recs: seq<seq<byte>>, tail: seq<byte>)
    requires forall k :: 0 <= k < |recs| ==> Consistent(recs[k])
    requires 0 < |tail| < MinLength
    ensures Offsets(Concat(recs) + tail, 0) == Err(StructError)
  {
    if recs != [] {
      var rec, more := recs[0], recs[1..];
      RestConsistent(recs);
      var c := Concat(recs) + tail;
      assert c == rec + (Concat(more) + tail);
      FirstPlaced(rec, Concat(more) + tail);
      ObjLenPlaced(c, 0, rec);
      ScanShortTail(more, tail);
      OffsetsShift(rec, Concat(more) + tail, 0);
    }
  }
}
