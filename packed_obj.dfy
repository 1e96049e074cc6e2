/** One file entry inside a zlib-compressed NPK container, `CntZlibPackedObj`: a 30-byte
    little-endian header followed by the entry's name and payload.

      offset  0  u16      mode (file type and permission bits)
      offset  2  u16 x 3  reserved, normally zero
      offset  8  u32 x 3  timestamps
      offset 20  u32      reserved, normally zero
      offset 24  u32      payload length
      offset 28  u16      name length
      offset 30           name, then payload

    The functions below give the meaning of each operation on the buffer contents; the
    class at the end keeps the buffer and updates it the way the source does. */
module PackedObj {
  import opened Bytes

  /** The name starts here; no buffer is kept shorter than this. */
  const MinLength: nat := 0x1e

  /** The exceptions the getters and setters can raise. */
  datatype ObjError = StructError | UnicodeEncodeError

  /** A setter's outcome: the exception it raised, if any, and the buffer it left behind. */
  datatype Applied = Applied(err: Option<ObjError>, data: seq<byte>)

  /** `obj_mode` */
  function Mode(d: seq<byte>): u16
    requires |d| >= 2
  {
    LE16At(d, 0)
  }

  /** `zeroes_one` */
  function ZeroesOne(d: seq<byte>): (u16, u16, u16)
    requires |d| >= 8
  {
    (LE16At(d, 2), LE16At(d, 4), LE16At(d, 6))
  }

  /** `timestamps` */
  function Timestamps(d: seq<byte>): (u32, u32, u32)
    requires |d| >= 20
  {
    (LE32At(d, 8), LE32At(d, 12), LE32At(d, 16))
  }

  /** `zeroes_two` */
  function ZeroesTwo(d: seq<byte>): u32
    requires |d| >= 24
  {
    LE32At(d, 20)
  }

  /** `payload_len` */
  function PayloadLen(d: seq<byte>): u32
    requires |d| >= 28
  {
    LE32At(d, 24)
  }

  /** `name_len` */
  function NameLen(d: seq<byte>): u16
    requires |d| >= MinLength
  {
    LE16At(d, 28)
  }

  /** Each header field reads the value whose little-endian encoding is at its fixed
      offset: the mode at 0, the three `zeroes_one` halves at 2, 4 and 6, the three
      timestamps at 8, 12 and 16, `zeroes_two` at 20, the payload length at 24 and the name
      length at 28. */
  lemma FieldsEncoded(d: seq<byte>)
    requires |d| >= MinLength
    ensures LE16(Mode(d)) == d[0..2]
    ensures var z := ZeroesOne(d); LE16(z.0) == d[2..4] && LE16(z.1) == d[4..6] && LE16(z.2) == d[6..8]
    ensures var t := Timestamps(d);
      LE32(t.0) == d[8..12] && LE32(t.1) == d[12..16] && LE32(t.2) == d[16..20]
    ensures LE32(ZeroesTwo(d)) == d[20..24]
    ensures LE32(PayloadLen(d)) == d[24..28] && LE16(NameLen(d)) == d[28..30]
  {
    LE16Bytes(d, 0);
    LE16Bytes(d, 2);
    LE16Bytes(d, 4);
    LE16Bytes(d, 6);
    LE32Bytes(d, 8);
    LE32Bytes(d, 12);
    LE32Bytes(d, 16);
    LE32Bytes(d, 20);
    LE32Bytes(d, 24);
    LE16Bytes(d, 28);
  }

  /** The buffer holds the header, the name and the payload and nothing more. */
  predicate Consistent(d: seq<byte>) {
    |d| >= MinLength && |d| == MinLength + PayloadLen(d) as int + NameLen(d) as int
  }

  /** `__set_len`: a buffer shorter than the header is zero-padded to the header's length
      and nothing else; a longer one is zero-padded or cut at the end to exactly the length
      its two length fields give. */
  function Repaired(d: seq<byte>): (r: seq<byte>)
    ensures |r| >= MinLength
    ensures |d| < MinLength ==> |r| == MinLength
    ensures |d| >= MinLength ==>
      Consistent(r) && PayloadLen(r) == PayloadLen(d) && NameLen(r) == NameLen(d)
    ensures forall i :: 0 <= i < |r| ==> r[i] == if i < |d| then d[i] else 0
  {
    if |d| < MinLength then d + Zeros(MinLength - |d|)
    else
      var needed := MinLength + PayloadLen(d) as int + NameLen(d) as int;
      var r := if needed == |d| then d else if needed > |d| then d + Zeros(needed - |d|) else d[..needed];
      assert r[..MinLength] == d[..MinLength];
      r
  }

  /** The header fields live in the first 30 bytes: two buffers that agree there agree on
      every field. */
  lemma SameHeader(d: seq<byte>, e: seq<byte>)
    requires |d| >= MinLength && |e| >= MinLength && d[..MinLength] == e[..MinLength]
    ensures Mode(d) == Mode(e) && ZeroesOne(d) == ZeroesOne(e) && Timestamps(d) == Timestamps(e)
    ensures ZeroesTwo(d) == ZeroesTwo(e) && PayloadLen(d) == PayloadLen(e) && NameLen(d) == NameLen(e)
  {
    assert forall i :: 0 <= i < MinLength ==> d[i] == d[..MinLength][i] == e[i];
  }

  /** Repair leaves a buffer alone exactly when it is already consistent. */
  lemma RepairedFixesConsistent(d: seq<byte>)
    ensures Repaired(d) == d <==> Consistent(d)
  {
  }

  /** Repairing a buffer of at least 30 bytes twice is the same as repairing it once. */
  lemma RepairedIdempotent(d: seq<byte>)
    requires |d| >= MinLength
    ensures Repaired(Repaired(d)) == Repaired(d)
  {
    RepairedFixesConsistent(Repaired(d));
  }

  /** A short buffer is only padded to 30 bytes: when the padded header declares a name or
      a payload, the result is shorter than its own length fields say, and a second repair
      changes it again. */
  lemma ShortRepairIsIncomplete(d: seq<byte>)
    requires |d| < MinLength && PayloadLen(Repaired(d)) as int + NameLen(Repaired(d)) as int > 0
    ensures !Consistent(Repaired(d)) && Repaired(Repaired(d)) != Repaired(d)
  {
    var r := Repaired(d);
    assert |r| == MinLength;
    assert |Repaired(r)| == MinLength + PayloadLen(r) as int + NameLen(r) as int;
  }

  /** Such buffers exist: 26 bytes whose payload length bytes already read 1. */
  lemma ShortRepairExample()
    ensures var d := Zeros(24) + [1, 0];
      |d| < MinLength && PayloadLen(Repaired(d)) == 1 && NameLen(Repaired(d)) == 0
  {
    var d := Zeros(24) + [1, 0];
    var r := Repaired(d);
    assert r == d + Zeros(4);
    assert r[24] == 1 && r[25] == 0 && r[26] == 0 && r[27] == 0 && r[28] == 0 && r[29] == 0;
  }

  /** The `obj_mode` setter. */
  function WithMode(d: seq<byte>, m: u16): seq<byte>
    requires |d| >= 2
  {
    Overwrite(d, 0, LE16(m))
  }

  /** The `timestamps` setter. */
  function WithTimestamps(d: seq<byte>, t: (u32, u32, u32)): seq<byte>
    requires |d| >= 20
  {
    Overwrite(d, 8, LE32(t.0) + LE32(t.1) + LE32(t.2))
  }

  /** What `struct.pack_into("<LLL", d, 8, *t)` leaves at offset 8. `pack_into` zeroes the
      whole field first and then packs the values in order, so when one is out of range the
      values before it are already written and the rest of the field stays zero. */
  function PackedTimestamps(t: (int, int, int)): (v: seq<byte>)
    ensures |v| == 12
  {
    if !InU32(t.0) then Zeros(12)
    else if !InU32(t.1) then LE32(t.0 as u32) + Zeros(8)
    else if !InU32(t.2) then LE32(t.0 as u32) + LE32(t.1 as u32) + Zeros(4)
    else LE32(t.0 as u32) + LE32(t.1 as u32) + LE32(t.2 as u32)
  }

  /** An out-of-range mode raises after `pack_into` has zeroed bytes 0..1: the mode then
      reads 0 and no other byte changes. */
  lemma ModeFailure(d: seq<byte>)
    requires |d| >= MinLength
    ensures var r := Overwrite(d, 0, Zeros(2));
      && r == WithMode(d, 0) && Mode(r) == 0 && |r| == |d|
      && (forall i :: 2 <= i < |d| ==> r[i] == d[i])
  {
    assert LE16(0) == Zeros(2);
    ModeRoundTrip(d, 0);
  }

  /** An out-of-range timestamp raises partway: the timestamps before it read back as
      written, the others read 0, and no byte outside 8..19 changes. */
  lemma TimestampsFailure(d: seq<byte>, t: (int, int, int))
    requires |d| >= MinLength && !(InU32(t.0) && InU32(t.1) && InU32(t.2))
    ensures var r := Overwrite(d, 8, PackedTimestamps(t));
      && |r| == |d| && (forall i :: 0 <= i < |d| && !(8 <= i < 20) ==> r[i] == d[i])
      && Timestamps(r).0 as int == (if InU32(t.0) then t.0 else 0)
      && Timestamps(r).1 as int == (if InU32(t.0) && InU32(t.1) then t.1 else 0)
      && Timestamps(r).2 == 0
  {
    var v := PackedTimestamps(t);
    var r := Overwrite(d, 8, v);
    assert r[8..12] == v[0..4] && r[12..16] == v[4..8] && r[16..20] == v[8..12];
    assert LE32At(r, 8) == LE32At(v[0..4], 0);
    assert LE32At(r, 12) == LE32At(v[4..8], 0);
    assert LE32At(r, 16) == LE32At(v[8..12], 0);
    if !InU32(t.0) {
      assert v[0..4] == Zeros(4) && v[4..8] == Zeros(4) && v[8..12] == Zeros(4);
    } else if !InU32(t.1) {
      assert v[0..4] == LE32(t.0 as u32) && v[4..8] == Zeros(4) && v[8..12] == Zeros(4);
    } else {
      assert v[0..4] == LE32(t.0 as u32) && v[4..8] == LE32(t.1 as u32) && v[8..12] == Zeros(4);
    }
  }

  /** Reading the mode back gives the value written; no other byte changes. */
  lemma ModeRoundTrip(d: seq<byte>, m: u16)
    requires |d| >= MinLength
    ensures var r := WithMode(d, m);
      && Mode(r) == m && |r| == |d|
      && (forall i :: 2 <= i < |d| ==> r[i] == d[i])
      && ZeroesOne(r) == ZeroesOne(d) && Timestamps(r) == Timestamps(d)
      && ZeroesTwo(r) == ZeroesTwo(d) && PayloadLen(r) == PayloadLen(d) && NameLen(r) == NameLen(d)
  {
    var r := WithMode(d, m);
    assert r[0..2] == LE16(m);
    assert r[0] == LE16(m)[0] && r[1] == LE16(m)[1];
  }

  /** Reading the timestamps back gives the values written; no other byte changes. */
  lemma TimestampsRoundTrip(d: seq<byte>, t: (u32, u32, u32))
    requires |d| >= MinLength
    ensures var r := WithTimestamps(d, t);
      && Timestamps(r) == t && |r| == |d|
      && (forall i :: 0 <= i < |d| && !(8 <= i < 20) ==> r[i] == d[i])
      && Mode(r) == Mode(d) && ZeroesOne(r) == ZeroesOne(d)
      && ZeroesTwo(r) == ZeroesTwo(d) && PayloadLen(r) == PayloadLen(d) && NameLen(r) == NameLen(d)
  {
    var r := WithTimestamps(d, t);
    var v := LE32(t.0) + LE32(t.1) + LE32(t.2);
    assert r[8..20] == v;
    assert r[8..12] == LE32(t.0) && r[12..16] == LE32(t.1) && r[16..20] == LE32(t.2);
    assert LE32At(r, 8) == LE32At(r[8..12], 0);
    assert LE32At(r, 12) == LE32At(r[12..16], 0);
    assert LE32At(r, 16) == LE32At(r[16..20], 0);
  }

  /** The `payload_len` setter: write the field, then repair the length. */
  function WithPayloadLen(d: seq<byte>, n: u32): seq<byte>
    requires |d| >= MinLength
  {
    Repaired(Overwrite(d, 24, LE32(n)))
  }

  /** After setting the payload length the buffer is consistent with it: the name length is
      kept, and the buffer is cut or zero-padded at the end. */
  lemma PayloadLenSet(d: seq<byte>, n: u32)
    requires |d| >= MinLength
    ensures var r := WithPayloadLen(d, n);
      && PayloadLen(r) == n && NameLen(r) == NameLen(d) && Consistent(r)
      && |r| == MinLength + NameLen(d) as int + n as int
      && (forall i :: 0 <= i < |r| && !(24 <= i < 28) ==> r[i] == if i < |d| then d[i] else 0)
  {
    var w := Overwrite(d, 24, LE32(n));
    assert w[24..28] == LE32(n);
    assert LE32At(w, 24) == LE32At(w[24..28], 0);
    assert w[28] == d[28] && w[29] == d[29];
  }

  /** An out-of-range payload length raises after `pack_into` has zeroed bytes 24..27 and
      before the repair: the field reads 0, no other byte changes, and an entry that had a
      payload is left inconsistent. */
  lemma PayloadLenFailure(d: seq<byte>)
    requires |d| >= MinLength
    ensures var r := Overwrite(d, 24, Zeros(4));
      && |r| == |d| && PayloadLen(r) == 0 && NameLen(r) == NameLen(d)
      && (forall i :: 0 <= i < |d| && !(24 <= i < 28) ==> r[i] == d[i])
      && (Consistent(d) && PayloadLen(d) > 0 ==> !Consistent(r))
  {
    var r := Overwrite(d, 24, Zeros(4));
    assert r[24] == 0 && r[25] == 0 && r[26] == 0 && r[27] == 0;
    assert r[28] == d[28] && r[29] == d[29];
  }

  /** The name region once `name_len` changes from `was` to `n`: cut to `n` bytes, or
      zero-extended to them. */
  function ResizedName(d: seq<byte>, was: nat, n: nat): (k: seq<byte>)
    ensures |d| >= 30 + was ==> |k| == n
    ensures |d| >= 30 + was ==> forall i :: 0 <= i < n ==> k[i] == if i < was then d[30 + i] else 0
  {
    if n < was then Slice(d, 30, 30 + n) else Slice(d, 30, 30 + was) + Zeros(n - was)
  }

  /** The `name_len` setter: the header up to the field is kept, the new length written,
      the name region shortened or zero-extended at its end, and everything after the old
      name region appended unchanged. */
  function Renamed(d: seq<byte>, n: u16): (r: seq<byte>)
    requires |d| >= MinLength
    ensures |r| >= MinLength && NameLen(r) == n
  {
    var was := NameLen(d) as nat;
    if n as nat == was then d
    else
      var r := d[..28] + LE16(n) + ResizedName(d, was, n as nat) + Slice(d, 30 + was, |d|);
      assert r[28..30] == LE16(n);
      assert LE16At(r, 28) == LE16At(r[28..30], 0);
      r
  }

  /** When the old name is all there, renaming moves the rest of the buffer by the length
      difference and changes nothing else. */
  lemma RenamedShape(d: seq<byte>, n: u16)
    requires |d| >= MinLength && |d| >= MinLength + NameLen(d) as int
    ensures var was, r := NameLen(d) as int, Renamed(d, n);
      && |r| == |d| + n as int - was
      && r[..28] == d[..28] && NameLen(r) == n && PayloadLen(r) == PayloadLen(d)
      && (forall i :: 30 <= i < 30 + n as int ==> r[i] == if i < 30 + was then d[i] else 0)
      && r[30 + n as int..] == d[30 + was..]
  {
    var was := NameLen(d) as int;
    var r := Renamed(d, n);
    if n as int != was {
      var head := d[..28] + LE16(n);
      var kept := ResizedName(d, was, n as nat);
      assert r == head + kept + d[30 + was..];
      assert r[..28] == d[..28];
      assert r[30 + n as int..] == d[30 + was..];
      assert forall i :: 30 <= i < 30 + n as int ==> r[i] == kept[i - 30];
      assert PayloadLen(r) == PayloadLen(d) by {
        assert forall i :: 24 <= i < 28 ==> r[i] == d[..28][i] == d[i];
      }
    }
  }

  /** A buffer with the same payload length as a consistent record, and whose bytes after
      its name are the bytes after the record's name, is consistent and has its payload. */
  lemma SameTailSamePayload(d: seq<byte>, r: seq<byte>)
    requires Consistent(d) && |r| >= MinLength && PayloadLen(r) == PayloadLen(d)
    requires |r| - NameLen(r) as int == |d| - NameLen(d) as int
    requires r[MinLength + NameLen(r) as int..] == d[MinLength + NameLen(d) as int..]
    ensures Consistent(r) && PayloadField(r) == PayloadField(d)
  {
    var pl := PayloadLen(d) as int;
    var rs, ds := MinLength + NameLen(r) as int, MinLength + NameLen(d) as int;
    calc {
      r[rs..rs + pl];
      r[rs..][..pl];
      d[ds..][..pl];
      d[ds..ds + pl];
    }
  }

  /** A consistent record stays consistent when renamed, and keeps its payload. */
  lemma RenamedKeepsPayload(d: seq<byte>, n: u16)
    requires Consistent(d)
    ensures Consistent(Renamed(d, n)) && PayloadField(Renamed(d, n)) == PayloadField(d)
  {
    RenamedShape(d, n);
    SameTailSamePayload(d, Renamed(d, n));
  }

  /** The `name` getter, as bytes: the UTF-8 decoding of the result is not modelled. */
  function NameField(d: seq<byte>): (r: Result<seq<byte>, ObjError>)
    requires |d| >= MinLength
    ensures r.Ok? <==> |d| >= MinLength + NameLen(d) as int
    ensures r.Ok? ==> |r.value| == NameLen(d) as int
  {
    var n := NameLen(d) as int;
    if |d| < MinLength + n then Err(StructError) else Ok(d[30..30 + n])
  }

  /** The `payload` getter: the bytes right after the name. */
  function PayloadField(d: seq<byte>): (r: Result<seq<byte>, ObjError>)
    requires |d| >= MinLength
    ensures r.Ok? <==> |d| >= MinLength + NameLen(d) as int + PayloadLen(d) as int
    ensures r.Ok? ==> |r.value| == PayloadLen(d) as int
  {
    var start := MinLength + NameLen(d) as int;
    var end := start + PayloadLen(d) as int;
    if |d| < end then Err(StructError) else Ok(d[start..end])
  }

  predicate IsAscii(s: string) {
    forall i :: 0 <= i < |s| ==> s[i] as int < 0x80
  }

  /** `s.encode(encoding="ascii")` for an ASCII string. */
  function Ascii(s: string): (r: seq<byte>)
    requires IsAscii(s)
    ensures |r| == |s| && forall i :: 0 <= i < |s| ==> r[i] as int == s[i] as int
  {
    seq(|s|, i requires 0 <= i < |s| => s[i] as int as byte)
  }

  /** The `name` setter: set the name length first (which fails for names longer than
      65535 characters), then encode the name as ASCII (which fails after the length has
      been changed), then write it at offset 30 (which fails if the buffer is too short). */
  function Named(d: seq<byte>, s: string): (r: Applied)
    requires |d| >= MinLength
  {
    if |s| > 0xFFFF then Applied(Some(StructError), d)
    else
      var d1 := Renamed(d, |s| as u16);
      if !IsAscii(s) then Applied(Some(UnicodeEncodeError), d1)
      else if |d1| < MinLength + |s| then Applied(Some(StructError), d1)
      else Applied(None, Overwrite(d1, 30, Ascii(s)))
  }

  /** Writing `v` over the name region keeps the header and everything after the name,
      and the name then reads `v`. */
  lemma WriteName(d: seq<byte>, v: seq<byte>)
    requires |d| >= MinLength && NameLen(d) as int == |v| && |d| >= MinLength + |v|
    ensures var r := Overwrite(d, 30, v);
      && |r| == |d| && r[..MinLength] == d[..MinLength] && r[MinLength + |v|..] == d[MinLength + |v|..]
      && NameLen(r) == NameLen(d) && PayloadLen(r) == PayloadLen(d) && NameField(r) == Ok(v)
  {
    var r := Overwrite(d, 30, v);
    assert r[..MinLength] == d[..MinLength];
    SameHeader(r, d);
  }

  /** A name longer than 65535 characters changes nothing; a non-ASCII name fails after
      the name length has already been changed. */
  lemma NamedFailures(d: seq<byte>, s: string)
    requires |d| >= MinLength
    ensures |s| > 0xFFFF ==> Named(d, s) == Applied(Some(StructError), d)
    ensures |s| <= 0xFFFF && !IsAscii(s) ==>
      Named(d, s) == Applied(Some(UnicodeEncodeError), Renamed(d, |s| as u16))
  {
  }

  /** An ASCII name on a buffer whose old name is all there is written without error. */
  lemma NamedWrites(d: seq<byte>, s: string)
    requires |d| >= MinLength && |d| >= MinLength + NameLen(d) as int
    requires |s| <= 0xFFFF && IsAscii(s)
    ensures var d1 := Renamed(d, |s| as u16);
      |d1| >= MinLength + |s| && Named(d, s) == Applied(None, Overwrite(d1, 30, Ascii(s)))
  {
    RenamedShape(d, |s| as u16);
  }

  /** Writing the name of a consistent record keeps it consistent and keeps its payload. */
  lemma WriteNameKeepsPayload(d: seq<byte>, v: seq<byte>)
    requires Consistent(d) && NameLen(d) as int == |v|
    ensures var r := Overwrite(d, 30, v); Consistent(r) && PayloadField(r) == PayloadField(d)
  {
    WriteName(d, v);
    var r := Overwrite(d, 30, v);
    var start := MinLength + |v|;
    var pl := PayloadLen(d) as int;
    assert r[start..start + pl] == r[start..][..pl] == d[start..][..pl] == d[start..start + pl];
  }

  /** Setting an ASCII name on a buffer whose old name is all there: reading the name back
      gives its bytes, and the header before the name length and the payload are kept. */
  lemma NamedRoundTrip(d: seq<byte>, s: string)
    requires |d| >= MinLength && |d| >= MinLength + NameLen(d) as int
    requires |s| <= 0xFFFF && IsAscii(s)
    ensures var r := Named(d, s).data;
      && Named(d, s).err == None && |r| >= MinLength
      && NameLen(r) as int == |s| && NameField(r) == Ok(Ascii(s))
      && r[..28] == d[..28]
      && (Consistent(d) ==> Consistent(r) && PayloadField(r) == PayloadField(d))
  {
    var n := |s| as u16;
    var d1 := Renamed(d, n);
    NamedWrites(d, s);
    var r := Overwrite(d1, 30, Ascii(s));
    RenamedShape(d, n);
    WriteName(d1, Ascii(s));
    assert r[..28] == d1[..MinLength][..28];
    if Consistent(d) {
      RenamedKeepsPayload(d, n);
      WriteNameKeepsPayload(d1, Ascii(s));
    }
  }

  /** The `payload` setter: set the payload length (which fails for 2^32 bytes or more, after
      zeroing the field), repair the length again, then write the payload after the name. */
  function WithPayload(d: seq<byte>, p: seq<byte>): (r: Applied)
    requires |d| >= MinLength
  {
    if |p| >= 0x1_0000_0000 then Applied(Some(StructError), Overwrite(d, 24, Zeros(4)))
    else
      var d1 := Repaired(WithPayloadLen(d, |p| as u32));
      Applied(None, Overwrite(d1, MinLength + NameLen(d1) as int, p))
  }

  /** Writing `p` over the payload region of a consistent record whose payload length is
      `|p|` keeps everything before the payload, and the payload then reads `p`. */
  lemma WritePayload(d: seq<byte>, p: seq<byte>)
    requires Consistent(d) && PayloadLen(d) as int == |p|
    ensures var start := MinLength + NameLen(d) as int; var r := Overwrite(d, start, p);
      && |r| == |d| && r[..start] == d[..start] && Consistent(r)
      && NameLen(r) == NameLen(d) && PayloadLen(r) == PayloadLen(d) && PayloadField(r) == Ok(p)
  {
    var start := MinLength + NameLen(d) as int;
    var r := Overwrite(d, start, p);
    assert r[..MinLength] == d[..MinLength];
    SameHeader(r, d);
  }

  /** A payload of 2^32 bytes or more raises in the `payload_len` setter: the payload length
      reads 0, no other byte changes and the length is not repaired. */
  lemma PayloadTooLong(d: seq<byte>, p: seq<byte>)
    requires |d| >= MinLength && |p| >= 0x1_0000_0000
    ensures var r := WithPayload(d, p);
      && r.err == Some(StructError) && |r.data| == |d| && PayloadLen(r.data) == 0
      && NameLen(r.data) == NameLen(d)
      && (forall i :: 0 <= i < |d| && !(24 <= i < 28) ==> r.data[i] == d[i])
  {
    PayloadLenFailure(d);
  }

  /** The second repair in the `payload` setter finds the buffer already consistent. */
  lemma WithPayloadWrites(d: seq<byte>, p: seq<byte>)
    requires |d| >= MinLength && |p| < 0x1_0000_0000
    ensures var d0 := WithPayloadLen(d, |p| as u32);
      Consistent(d0) && PayloadLen(d0) as int == |p| && NameLen(d0) == NameLen(d)
      && WithPayload(d, p) == Applied(None, Overwrite(d0, MinLength + NameLen(d) as int, p))
  {
    var d0 := WithPayloadLen(d, |p| as u32);
    PayloadLenSet(d, |p| as u32);
    RepairedFixesConsistent(d0);
  }

  /** After setting the payload, reading it back gives it, the length fields agree with the
      buffer, and the header and name are kept. */
  lemma PayloadRoundTrip(d: seq<byte>, p: seq<byte>)
    requires |d| >= MinLength && |p| < 0x1_0000_0000
    ensures var r := WithPayload(d, p).data;
      && WithPayload(d, p).err == None
      && PayloadField(r) == Ok(p) && PayloadLen(r) as int == |p| && NameLen(r) == NameLen(d)
      && |r| == MinLength + NameLen(d) as int + |p| && Consistent(r)
      && (forall i :: 0 <= i < MinLength + NameLen(d) as int && i < |d| && !(24 <= i < 28) ==> r[i] == d[i])
  {
    var n := |p| as u32;
    var d0 := WithPayloadLen(d, n);
    PayloadLenSet(d, n);
    WithPayloadWrites(d, p);
    WritePayload(d0, p);
    var start := MinLength + NameLen(d) as int;
    var r := Overwrite(d0, start, p);
    assert forall i :: 0 <= i < start ==> r[i] == r[..start][i] == d0[i];
  }

  /** `CntZlibPackedObj`: the entry's bytes, kept at least 30 long. */
  class CntZlibPackedObj {
    var data: seq<byte>

    predicate Valid()
      reads this
    {
      |data| >= MinLength
    }

    /** `CntZlibPackedObj(binary)`: copy the bytes and repair the length. */
    constructor(binary: seq<byte> := [])
      ensures Valid() && data == Repaired(binary)
    {
      data := binary;
      new;
      SetLen();
    }

    /** `__set_len` */
    method SetLen()
      modifies this
      ensures Valid() && data == Repaired(old(data))
    {
      var lenData := |data|;
      var lenRequiredDiff := MinLength - lenData;
      if lenRequiredDiff > 0 {
        data := data + Zeros(lenRequiredDiff);
      } else {
        var lenNeeded := MinLength + PayloadLen(data) as int + NameLen(data) as int;
        var lenDiff := lenNeeded - lenData;
        if lenDiff == 0 {
          return;
        }
        if lenDiff > 0 {
          data := data + Zeros(lenDiff);
        } else {
          data := data[..lenNeeded];
        }
      }
    }

    /** The `obj_mode` getter. */
    function ObjMode(): (m: u16)
      reads this
      requires Valid()
      ensures LE16(m) == data[0..2]
    {
      FieldsEncoded(data);
      Mode(data)
    }

    /** The `obj_mode` setter. `pack_into` zeroes the field before it packs, so a value
        outside 0..65535 raises with bytes 0..1 already zero. */
    method SetObjMode(m: int) returns (err: Option<ObjError>)
      requires Valid()
      modifies this
      ensures Valid()
      ensures 0 <= m < 0x1_0000 ==> err == None && data == WithMode(old(data), m as u16)
      ensures !(0 <= m < 0x1_0000) ==>
        err == Some(StructError) && data == Overwrite(old(data), 0, Zeros(2))
    {
      data := Overwrite(data, 0, Zeros(2));
      if !(0 <= m < 0x1_0000) {
        return Some(StructError);
      }
      data := Overwrite(data, 0, LE16(m as u16));
      err := None;
    }

    /** The `zeroes_one` getter. */
    function ZeroesOneField(): (z: (u16, u16, u16))
      reads this
      requires Valid()
      ensures LE16(z.0) == data[2..4] && LE16(z.1) == data[4..6] && LE16(z.2) == data[6..8]
    {
      FieldsEncoded(data);
      ZeroesOne(data)
    }

    /** The `timestamps` getter. */
    function TimestampsField(): (t: (u32, u32, u32))
      reads this
      requires Valid()
      ensures LE32(t.0) == data[8..12] && LE32(t.1) == data[12..16] && LE32(t.2) == data[16..20]
    {
      FieldsEncoded(data);
      Timestamps(data)
    }

    /** The `timestamps` setter. `pack_into` zeroes bytes 8..19, then packs the three values
        in order and raises at the first one outside 0..2^32-1. */
    method SetTimestamps(t: (int, int, int)) returns (err: Option<ObjError>)
      requires Valid()
      modifies this
      ensures Valid()
      ensures data == Overwrite(old(data), 8, PackedTimestamps(t))
      ensures err == None <==> InU32(t.0) && InU32(t.1) && InU32(t.2)
      ensures err != None ==> err == Some(StructError)
      ensures InU32(t.0) && InU32(t.1) && InU32(t.2) ==>
        data == WithTimestamps(old(data), (t.0 as u32, t.1 as u32, t.2 as u32))
    {
      ghost var d := data;
      data := Overwrite(data, 8, Zeros(12));
      if !InU32(t.0) {
        return Some(StructError);
      }
      data := Overwrite(data, 8, LE32(t.0 as u32));
      if !InU32(t.1) {
        assert data == Overwrite(d, 8, LE32(t.0 as u32) + Zeros(8));
        return Some(StructError);
      }
      data := Overwrite(data, 12, LE32(t.1 as u32));
      if !InU32(t.2) {
        assert data == Overwrite(d, 8, LE32(t.0 as u32) + LE32(t.1 as u32) + Zeros(4));
        return Some(StructError);
      }
      data := Overwrite(data, 16, LE32(t.2 as u32));
      assert data == Overwrite(d, 8, LE32(t.0 as u32) + LE32(t.1 as u32) + LE32(t.2 as u32));
      err := None;
    }

    /** The `zeroes_two` getter. */
    function ZeroesTwoField(): (z: u32)
      reads this
      requires Valid()
      ensures LE32(z) == data[20..24]
    {
      FieldsEncoded(data);
      ZeroesTwo(data)
    }

    /** The `payload_len` getter. */
    function PayloadLenField(): (n: u32)
      reads this
      requires Valid()
      ensures LE32(n) == data[24..28]
    {
      FieldsEncoded(data);
      PayloadLen(data)
    }

    /** The `payload_len` setter: write the field, then repair the length. A value outside
        0..2^32-1 raises after `pack_into` has zeroed the field, before the repair. */
    method SetPayloadLen(n: int) returns (err: Option<ObjError>)
      requires Valid()
      modifies this
      ensures Valid()
      ensures InU32(n) ==> err == None && data == WithPayloadLen(old(data), n as u32)
      ensures !InU32(n) ==> err == Some(StructError) && data == Overwrite(old(data), 24, Zeros(4))
    {
      data := Overwrite(data, 24, Zeros(4));
      if !InU32(n) {
        return Some(StructError);
      }
      data := Overwrite(data, 24, LE32(n as u32));
      SetLen();
      err := None;
    }

    /** The `name_len` getter. */
    function NameLenField(): (n: u16)
      reads this
      requires Valid()
      ensures LE16(n) == data[28..30]
    {
      FieldsEncoded(data);
      NameLen(data)
    }

    /** The `name_len` setter: the same value changes nothing; otherwise the buffer is
        rebuilt around the new name region. */
    method SetNameLen(n: int) returns (err: Option<ObjError>)
      requires Valid()
      modifies this
      ensures Valid()
      ensures n == old(NameLen(data)) as int ==> err == None && data == old(data)
      ensures 0 <= n < 0x1_0000 ==> err == None && data == Renamed(old(data), n as u16)
      ensures !(0 <= n < 0x1_0000) ==> err == Some(StructError) && data == old(data)
    {
      var oldNameLen := NameLen(data) as int;
      if n == oldNameLen {
        return None;
      }
      if !(0 <= n < 0x1_0000) {
        return Some(StructError);
      }
      var packedLen := LE16(n as u16);
      var tmp := data[0..28];
      tmp := tmp + packedLen;
      if n < oldNameLen {
        tmp := tmp + Slice(data, 30, 30 + n);
      } else {
        tmp := tmp + Slice(data, 30, 30 + oldNameLen);
        tmp := tmp + Zeros(n - oldNameLen);
      }
      tmp := tmp + Slice(data, 30 + oldNameLen, |data|);
      data := tmp;
      err := None;
    }

    /** The `name` getter, as bytes: the `name_len` bytes at offset 30, or a struct error
        when the buffer ends before them. */
    function Name(): (r: Result<seq<byte>, ObjError>)
      reads this
      requires Valid()
      ensures r.Err? <==> |data| < MinLength + NameLenField() as int
      ensures r.Err? ==> r.error == StructError
      ensures r.Ok? ==> r.value == data[MinLength..MinLength + NameLenField() as int]
    {
      NameField(data)
    }

    /** The `name` setter. */
    method SetName(s: string) returns (err: Option<ObjError>)
      requires Valid()
      modifies this
      ensures Valid()
      ensures Applied(err, data) == Named(old(data), s)
    {
      err := SetNameLen(|s|);
      if err.Some? {
        return;
      }
      if !IsAscii(s) {
        return Some(UnicodeEncodeError);
      }
      var n := NameLen(data) as int;
      if |data| < MinLength + n {
        return Some(StructError);
      }
      data := Overwrite(data, 30, Ascii(s));
    }

    /** The `payload` getter: the `payload_len` bytes after the name, or a struct error
        when the buffer ends before them. For a consistent entry, everything after the name. */
    function Payload(): (r: Result<seq<byte>, ObjError>)
      reads this
      requires Valid()
      ensures r.Err? <==> |data| < MinLength + NameLenField() as int + PayloadLenField() as int
      ensures r.Err? ==> r.error == StructError
      ensures r.Ok? ==> |r.value| == PayloadLenField() as int
      ensures Consistent(data) ==> r == Ok(data[MinLength + NameLenField() as int..])
    {
      var start := MinLength + NameLen(data) as int;
      assert Consistent(data) ==> data[start..] == data[start..|data|];
      PayloadField(data)
    }

    /** The `payload` setter. */
    method SetPayload(p: seq<byte>) returns (err: Option<ObjError>)
      requires Valid()
      modifies this
      ensures Valid()
      ensures Applied(err, data) == WithPayload(old(data), p)
    {
      err := SetPayloadLen(|p|);
      if err.Some? {
        return;
      }
      SetLen();
      data := Overwrite(data, MinLength + NameLen(data) as int, p);
    }

    /** `full_len`: the length of the buffer, which a consistent entry gives by its header. */
    function FullLen(): (n: nat)
      reads this
      ensures Valid() ==> n >= MinLength
      ensures Consistent(data) ==> n == MinLength + NameLen(data) as int + PayloadLen(data) as int
    {
      |data|
    }

    /** `binary`: the buffer's contents, so the getters read their fields from it. */
    function Binary(): (b: seq<byte>)
      reads this
      ensures Valid() ==>
        |b| >= MinLength && Mode(b) == ObjMode() && Timestamps(b) == TimestampsField()
        && PayloadLen(b) == PayloadLenField() && NameLen(b) == NameLenField()
      ensures Valid() ==> NameField(b) == Name() && PayloadField(b) == Payload()
      ensures Consistent(data) ==> b == data[..MinLength] + Name().value + Payload().value
    {
      data
    }
  }

  predicate InU32(x: int) {
    0 <= x < 0x1_0000_0000
  }
}
