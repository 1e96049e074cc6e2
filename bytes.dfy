/** Byte-level vocabulary shared by the stream splicer and the archive-entry record:
    bounded integer types, Python-style clamped slicing, and the little- and
    big-endian integer encodings that `struct` packs and unpacks. */
module Bytes {

  newtype byte = x: int | 0 <= x < 0x100
  newtype u16 = x: int | 0 <= x < 0x1_0000
  newtype u32 = x: int | 0 <= x < 0x1_0000_0000

  /** Failure-compatible result, used for the exceptions the source raises. */
  datatype Result<+T, +E> = Ok(value: T) | Err(error: E)

  datatype Option<+T> = None | Some(value: T)

  /** `b"\x00" * n` */
  function Zeros(n: nat): (r: seq<byte>)
    ensures |r| == n
    ensures forall i :: 0 <= i < n ==> r[i] == 0
  {
    seq(n, _ => 0)
  }

  /** Python's `s[lo:hi]` for non-negative bounds: both ends are clamped to the length. */
  function Slice(s: seq<byte>, lo: nat, hi: nat): (r: seq<byte>)
    ensures |r| == if lo <= hi && lo <= |s| then (if hi <= |s| then hi else |s|) - lo else 0
    ensures forall i :: 0 <= i < |r| ==> r[i] == s[lo + i]
  {
    var h := if hi <= |s| then hi else |s|;
    if lo <= h then s[lo..h] else []
  }

  /** Python's `s[lo:-4]` for a non-negative `lo`. */
  function SliceDropTail4(s: seq<byte>, lo: nat): (r: seq<byte>)
    ensures |s| >= lo + 4 ==> r == s[lo..|s| - 4]
    ensures |s| < lo + 4 ==> r == []
  {
    if |s| >= lo + 4 then s[lo..|s| - 4] else []
  }

  lemma MulAtLeast(k: int, bs: int)
    requires k >= 1 && bs > 0
    ensures k * bs >= bs
  {
    if k > 1 {
      MulAtLeast(k - 1, bs);
      assert k * bs == (k - 1) * bs + bs;
    }
  }

  /** Euclidean division has one quotient and one remainder. */
  lemma DivModUnique(a: int, bs: int, q: int, r: int)
    requires bs > 0 && a == q * bs + r && 0 <= r < bs
    ensures a % bs == r && a / bs == q
  {
    var q', r' := a / bs, a % bs;
    assert a == q' * bs + r';
    assert (q - q') * bs == r' - r;
    if q > q' {
      MulAtLeast(q - q', bs);
    } else if q < q' {
      assert (q' - q) * bs == r - r';
      MulAtLeast(q' - q, bs);
    }
  }

  /** `struct.unpack_from("<H", s, off)` */
  function LE16At(s: seq<byte>, off: nat): u16
    requires off + 2 <= |s|
  {
    (s[off] as int + 0x100 * s[off + 1] as int) as u16
  }

  /** `struct.unpack_from("<L", s, off)` */
  function LE32At(s: seq<byte>, off: nat): u32
    requires off + 4 <= |s|
  {
    (s[off] as int + 0x100 * s[off + 1] as int + 0x1_0000 * s[off + 2] as int
     + 0x100_0000 * s[off + 3] as int) as u32
  }

  /** `struct.pack("<H", x)` */
  function LE16(x: u16): (r: seq<byte>)
    ensures |r| == 2 && LE16At(r, 0) == x
  {
    [(x % 0x100) as byte, (x / 0x100) as byte]
  }

  /** `struct.pack("<L", x)` */
  function LE32(x: u32): (r: seq<byte>)
    ensures |r| == 4 && LE32At(r, 0) == x
  {
    var q1 := x as int / 0x100;
    var q2 := q1 / 0x100;
    var r := [(x as int % 0x100) as byte, (q1 % 0x100) as byte, (q2 % 0x100) as byte,
              (q2 / 0x100) as byte];
    assert x as int == r[0] as int + 0x100 * q1 && q1 == r[1] as int + 0x100 * q2
      && q2 == r[2] as int + 0x100 * r[3] as int;
    r
  }

  /** The two bytes read as a little-endian u16 are that value's encoding. */
  lemma LE16Bytes(s: seq<byte>, off: nat)
    requires off + 2 <= |s|
    ensures LE16(LE16At(s, off)) == s[off..off + 2]
  {
    var b0, b1 := s[off] as int, s[off + 1] as int;
    var v := LE16At(s, off) as int;
    assert v == b1 * 0x100 + b0;
    DivModUnique(v, 0x100, b1, b0);
  }

  /** The four bytes read as a little-endian u32 are that value's encoding. */
  lemma LE32Bytes(s: seq<byte>, off: nat)
    requires off + 4 <= |s|
    ensures LE32(LE32At(s, off)) == s[off..off + 4]
  {
    var b0, b1, b2, b3 := s[off] as int, s[off + 1] as int, s[off + 2] as int, s[off + 3] as int;
    var v := LE32At(s, off) as int;
    var q2 := b2 + 0x100 * b3;
    var q1 := b1 + 0x100 * q2;
    assert v == q1 * 0x100 + b0;
    DivModUnique(v, 0x100, q1, b0);
    DivModUnique(q1, 0x100, q2, b1);
    DivModUnique(q2, 0x100, b3, b2);
  }

  /** `struct.pack(">L", x)` */
  function BE32(x: u32): (r: seq<byte>)
    ensures |r| == 4 && BE32At(r, 0) == x
  {
    var q1 := x as int / 0x100;
    var q2 := q1 / 0x100;
    var r := [(q2 / 0x100) as byte, (q2 % 0x100) as byte, (q1 % 0x100) as byte,
              (x as int % 0x100) as byte];
    assert x as int == r[3] as int + 0x100 * q1 && q1 == r[2] as int + 0x100 * q2
      && q2 == r[1] as int + 0x100 * r[0] as int;
    r
  }

  /** `struct.unpack_from(">L", s, off)` */
  function BE32At(s: seq<byte>, off: nat): u32
    requires off + 4 <= |s|
  {
    (0x100_0000 * s[off] as int + 0x1_0000 * s[off + 1] as int + 0x100 * s[off + 2] as int
     + s[off + 3] as int) as u32
  }

  /** `struct.pack_into(fmt, s, off, ...)` of the already packed bytes `v`: overwrite in place. */
  function Overwrite(s: seq<byte>, off: nat, v: seq<byte>): (r: seq<byte>)
    requires off + |v| <= |s|
    ensures |r| == |s|
    ensures r[off..off + |v|] == v
    ensures forall i :: 0 <= i < |s| && !(off <= i < off + |v|) ==> r[i] == s[i]
  {
    s[..off] + v + s[off + |v|..]
  }

  /** Concatenation of a sequence of byte strings, `b"".join(parts)`. */
  function Concat(parts: seq<seq<byte>>): (r: seq<byte>)
  {
    if parts == [] then [] else parts[0] + Concat(parts[1..])
  }

  lemma {:induction false} ConcatAppend(a: seq<seq<byte>>, b: seq<seq<byte>>)
    ensures Concat(a + b) == Concat(a) + Concat(b)
  {
    if a == [] {
      assert a + b == b;
    } else {
      assert (a + b)[1..] == a[1..] + b;
      ConcatAppend(a[1..], b);
    }
  }
}
