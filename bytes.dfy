/** The byte-level helpers of HBase's `Bytes` class that the index relies on:
    `Bytes.toBytes(long)` / `Bytes.toLong`, prefix tests (`BinaryPrefixComparator`),
    the unsigned lexicographic order of `Bytes.compareTo` (`BinaryComparator`),
    and Java's fixed-width integer arithmetic. */
module Bytes {

  /** A byte, as the unsigned value of its bit pattern. */
  type byte = x: int | 0 <= x < 256

  /** Java `long` and `int`. */
  type long = x: int | -0x8000_0000_0000_0000 <= x < 0x8000_0000_0000_0000
  type int32 = x: int | -0x8000_0000 <= x < 0x8000_0000

  /** A column qualifier of the index table: every qualifier is written by
      `Bytes.toBytes(long)`, so it is always eight bytes long. */
  type Qualifier = q: seq<byte> | |q| == 8 witness [0, 0, 0, 0, 0, 0, 0, 0]

  const TwoTo63: int := 0x8000_0000_0000_0000
  const TwoTo64: int := 0x1_0000_0000_0000_0000

  /** Java `long` addition and subtraction: the exact result reduced modulo 2^64. */
  function Wrap64(x: int): (r: long)
    ensures (r - x) % TwoTo64 == 0
    ensures -TwoTo63 <= x < TwoTo63 ==> r == x
  {
    (x + TwoTo63) % TwoTo64 - TwoTo63
  }

  /** Java `int` arithmetic and the narrowing cast `(int)` of a `long`. */
  function Wrap32(x: int): (r: int32)
    ensures (r - x) % 0x1_0000_0000 == 0
    ensures -0x8000_0000 <= x < 0x8000_0000 ==> r == x
  {
    (x + 0x8000_0000) % 0x1_0000_0000 - 0x8000_0000
  }

  function Pow256(n: nat): (r: nat)
    ensures r > 0
  {
    if n == 0 then 1 else 256 * Pow256(n - 1)
  }

  /** The `width` low-order bytes of `n`, most significant first. */
  function BigEndian(n: nat, width: nat): (r: seq<byte>)
    ensures |r| == width
  {
    if width == 0 then [] else BigEndian(n / 256, width - 1) + [n % 256]
  }

  /** The unsigned value of a big-endian byte string. */
  function BigEndianValue(s: seq<byte>): nat
  {
    if s == [] then 0 else BigEndianValue(s[..|s| - 1]) * 256 + s[|s| - 1]
  }

  lemma {:induction false} BigEndianValueBound(s: seq<byte>)
    ensures BigEndianValue(s) < Pow256(|s|)
  {
    if s != [] {
      BigEndianValueBound(s[..|s| - 1]);
    }
  }

  lemma {:induction false} BigEndianRoundTrip(n: nat, width: nat)
    requires n < Pow256(width)
    ensures BigEndianValue(BigEndian(n, width)) == n
  {
    if width > 0 {
      var r := BigEndian(n, width);
      assert r[..width - 1] == BigEndian(n / 256, width - 1);
      BigEndianRoundTrip(n / 256, width - 1);
    }
  }

  lemma {:induction false} BigEndianInverse(s: seq<byte>)
    ensures BigEndian(BigEndianValue(s), |s|) == s
  {
    if s != [] {
      var init := s[..|s| - 1];
      BigEndianInverse(init);
      assert s == init + [s[|s| - 1]];
    }
  }

  /** A big-endian value is its first byte scaled past the others, plus
      the value of the others. */
  lemma {:induction false} BigEndianValueFirst(s: seq<byte>)
    requires |s| > 0
    ensures BigEndianValue(s) == s[0] as int * Pow256(|s| - 1) + BigEndianValue(s[1..])
  {
    if |s| > 1 {
      var init := s[..|s| - 1];
      BigEndianValueFirst(init);
      assert init[1..] == s[1..][..|s| - 2];
      assert Pow256(|s| - 1) == 256 * Pow256(|s| - 2);
    }
  }

  /** The high bit of the first byte of a qualifier is the sign bit. */
  lemma SignByte(q: Qualifier)
    ensures BigEndianValue(q) >= TwoTo63 <==> q[0] >= 0x80
  {
    BigEndianValueFirst(q);
    BigEndianValueBound(q[1..]);
    assert Pow256(7) == 0x100_0000_0000_0000;
  }

  /** `Bytes.toBytes(long)`: the two's-complement bit pattern, big-endian,
      so the first byte has its high bit set exactly for a negative value. */
  function LongToBytes(x: long): (r: Qualifier)
    ensures x < 0 <==> r[0] >= 0x80
  {
    var n := if x < 0 then x + TwoTo64 else x;
    assert Pow256(8) == TwoTo64;
    BigEndianRoundTrip(n, 8);
    SignByte(BigEndian(n, 8));
    BigEndian(n, 8)
  }

  /** `Bytes.toLong(byte[])` on an eight-byte array: negative exactly when
      the high bit of the first byte is set. */
  function BytesToLong(q: Qualifier): (r: long)
    ensures r < 0 <==> q[0] >= 0x80
  {
    BigEndianValueBound(q);
    SignByte(q);
    assert Pow256(8) == TwoTo64;
    var u := BigEndianValue(q);
    if u >= TwoTo63 then u - TwoTo64 else u
  }

  /** Decoding a qualifier written for uid `x` yields `x`. */
  lemma LongRoundTrip(x: long)
    ensures BytesToLong(LongToBytes(x)) == x
  {
    assert Pow256(8) == TwoTo64;
    BigEndianRoundTrip(if x < 0 then x + TwoTo64 else x, 8);
  }

  /** Every qualifier is the encoding of the uid it decodes to, so distinct
      qualifiers denote distinct uids. */
  lemma QualifierRoundTrip(q: Qualifier)
    ensures LongToBytes(BytesToLong(q)) == q
  {
    assert Pow256(8) == TwoTo64;
    BigEndianValueBound(q);
    BigEndianInverse(q);
  }

  lemma LongToBytesInjective(x: long, y: long)
    ensures LongToBytes(x) == LongToBytes(y) <==> x == y
  {
    if LongToBytes(x) == LongToBytes(y) {
      LongRoundTrip(x);
      LongRoundTrip(y);
    }
  }

  /** `Bytes.compareTo(a, b) <= 0`: unsigned lexicographic order in which a
      proper prefix sorts first. */
  predicate LexLeq(a: seq<byte>, b: seq<byte>)
  {
    if a == [] then true
    else if b == [] then false
    else if a[0] != b[0] then a[0] < b[0]
    else LexLeq(a[1..], b[1..])
  }

  /** Keys that share a fixed-width prefix sort by that prefix first: when
      `p1` sorts strictly before `p2` (same width), every key under `p1`
      sorts before every key under `p2`. */
  lemma {:induction false} PrefixOrderDominates(p1: seq<byte>, p2: seq<byte>, s1: seq<byte>, s2: seq<byte>)
    requires |p1| == |p2| && p1 != p2 && LexLeq(p1, p2)
    ensures LexLeq(p1 + s1, p2 + s2) && !LexLeq(p2 + s2, p1 + s1)
  {
    assert p1 != [];
    if p1[0] == p2[0] {
      assert (p1 + s1)[1..] == p1[1..] + s1;
      assert (p2 + s2)[1..] == p2[1..] + s2;
      PrefixOrderDominates(p1[1..], p2[1..], s1, s2);
    }
  }
}
