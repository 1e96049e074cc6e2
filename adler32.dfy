/** The Adler-32 checksum of RFC 1950 (sections 2.2 and 8.2), as `zlib.adler32(data, value)`
    computes it for a start value whose halves are both below 65521, as every checksum is:
    two sums modulo 65521, the running value packed as `s2 * 65536 + s1`. */
module Checksum {
  import opened Bytes

  const Base: int := 65521

  /** The pair of running sums: s1 (sum of the bytes plus one) and s2 (sum of the s1 values). */
  datatype Sums = Sums(s1: int, s2: int)

  predicate Reduced(s: Sums) {
    0 <= s.s1 < Base && 0 <= s.s2 < Base
  }

  /** Add one byte to both sums. */
  function Step(s: Sums, x: byte): (r: Sums)
    ensures Reduced(r)
  {
    var s1 := (s.s1 + x as int) % Base;
    Sums(s1, (s.s2 + s1) % Base)
  }

  /** Add the bytes of `data` in order; reduced sums stay reduced. */
  function Fold(s: Sums, data: seq<byte>): (r: Sums)
    ensures Reduced(s) ==> Reduced(r)
    decreases |data|
  {
    if data == [] then s else Fold(Step(s, data[0]), data[1..])
  }

  /** The 32-bit checksum value: s2 in the high half, s1 in the low half. */
  function Pack(s: Sums): u32
    requires Reduced(s)
  {
    (s.s2 * 0x1_0000 + s.s1) as u32
  }

  /** The sums a running checksum value stands for. A checksum value's halves are already
      below 65521; other values are reduced here, which zlib does not do. */
  function Unpack(v: u32): (s: Sums)
    ensures Reduced(s)
  {
    Sums((v as int % 0x1_0000) % Base, (v as int / 0x1_0000) % Base)
  }

  /** `zlib.adler32(data, value)`: continue the checksum `value` over `data`. */
  function Adler32(data: seq<byte>, value: u32): u32
  {
    Pack(Fold(Unpack(value), data))
  }

  /** Folding a concatenation is folding the parts in turn. */
  lemma {:induction false} FoldAppend(s: Sums, x: seq<byte>, y: seq<byte>)
    ensures Fold(s, x + y) == Fold(Fold(s, x), y)
    decreases |x|
  {
    if x == [] {
      assert x + y == y;
    } else {
      assert (x + y)[0] == x[0] && (x + y)[1..] == x[1..] + y;
      FoldAppend(Step(s, x[0]), x[1..], y);
    }
  }

  /** A checksum value built from reduced sums unpacks to those sums. */
  lemma UnpackPack(s: Sums)
    requires Reduced(s)
    ensures Unpack(Pack(s)) == s
  {
    var v := s.s2 * 0x1_0000 + s.s1;
    assert v % 0x1_0000 == s.s1 && v / 0x1_0000 == s.s2;
  }

  /** A 32-bit value whose halves are both reduced sums, as every checksum is. */
  predicate IsChecksum(v: u32) {
    v as int % 0x1_0000 < Base && v as int / 0x1_0000 < Base
  }

  /** Packed sums are a checksum value. */
  lemma PackIsChecksum(s: Sums)
    requires Reduced(s)
    ensures IsChecksum(Pack(s))
  {
    var v := s.s2 * 0x1_0000 + s.s1;
    assert v % 0x1_0000 == s.s1 && v / 0x1_0000 == s.s2;
  }

  /** A checksum value's halves are the sums it packs. */
  lemma UnpackChecksum(v: u32)
    requires IsChecksum(v)
    ensures Unpack(v) == Sums(v as int % 0x1_0000, v as int / 0x1_0000)
    ensures Pack(Unpack(v)) == v
  {
    var lo, hi := v as int % 0x1_0000, v as int / 0x1_0000;
    assert lo % Base == lo && hi % Base == hi;
    assert v as int == hi * 0x1_0000 + lo;
  }

  /** Every result is a checksum value, and an empty update leaves a checksum value as it
      is. */
  lemma ChecksumValues(data: seq<byte>, v: u32)
    ensures IsChecksum(Adler32(data, v))
    ensures IsChecksum(v) ==> Adler32([], v) == v
  {
    var r := Fold(Unpack(v), data);
    PackIsChecksum(r);
    assert Adler32(data, v) == Pack(r);
    if IsChecksum(v) {
      UnpackChecksum(v);
    }
  }

  /** The value zlib starts from, `zlib.adler32(b"")`, is 1, and an empty update changes
      nothing. */
  lemma EmptyIsOne()
    ensures Adler32([], 1) == 1
    ensures forall s :: Reduced(s) ==> Adler32([], Pack(s)) == Pack(s)
  {
    assert Unpack(1) == Sums(1, 0);
    forall s | Reduced(s) ensures Adler32([], Pack(s)) == Pack(s) {
      UnpackPack(s);
    }
  }

  /** Continuing a checksum over `y` after `x` gives the checksum of `x + y`: the running
      accumulator used by the stream splicer composes like one pass over the whole input. */
  lemma Adler32Append(x: seq<byte>, y: seq<byte>, value: u32)
    ensures Adler32(y, Adler32(x, value)) == Adler32(x + y, value)
  {
    var s := Fold(Unpack(value), x);
    UnpackPack(s);
    FoldAppend(Unpack(value), x, y);
  }

  /** The checksum of one byte `x` has both sums equal to `1 + x`. */
  lemma OneByte(x: byte)
    ensures Adler32([x], 1) == ((1 + x as int) * 0x1_0001) as u32
  {
    var n := 1 + x as int;
    assert Unpack(1) == Sums(1, 0);
    assert Step(Sums(1, 0), x) == Sums(n, n);
    FoldFirst(Sums(1, 0), [x], Sums(n, n));
    assert [x][1..] == [];
    assert Fold(Sums(1, 0), [x]) == Sums(n, n);
    assert n * 0x1_0001 == n * 0x1_0000 + n;
  }

  /** One byte folded in. */
  lemma FoldFirst(s: Sums, d: seq<byte>, t: Sums)
    requires |d| > 0 && Step(s, d[0]) == t
    ensures Fold(s, d) == Fold(t, d[1..])
  {
  }

  /** The checksum of the ASCII text "Wikipedia" is 0x11E60398. */
  lemma Wikipedia(d: seq<byte>)
    requires d == [0x57, 0x69, 0x6b, 0x69, 0x70, 0x65, 0x64, 0x69, 0x61]
    ensures Adler32(d, 1) == 0x11E60398
  {
    assert Unpack(1) == Sums(1, 0);
    FoldFirst(Sums(1, 0), d, Sums(88, 88));
    FoldFirst(Sums(88, 88), d[1..], Sums(193, 281));
    FoldFirst(Sums(193, 281), d[2..], Sums(300, 581));
    FoldFirst(Sums(300, 581), d[3..], Sums(405, 986));
    FoldFirst(Sums(405, 986), d[4..], Sums(517, 1503));
    FoldFirst(Sums(517, 1503), d[5..], Sums(618, 2121));
    FoldFirst(Sums(618, 2121), d[6..], Sums(718, 2839));
    FoldFirst(Sums(718, 2839), d[7..], Sums(823, 3662));
    FoldFirst(Sums(823, 3662), d[8..], Sums(920, 4582));
    assert d[8..][1..] == [];
  }
}
