/** UTF-8, as used by HBase's `Bytes.toBytes(String)` (encoding) and
    `Bytes.toString(byte[])` (decoding). Decoding is total: here a byte that
    does not start a well-formed sequence decodes to U+FFFD and decoding
    resumes at the next byte, which is simpler than the JDK's rule of one
    U+FFFD per maximal malformed run. */
module Utf8 {
  import opened Bytes

  predicate IsContinuation(b: byte) { 0x80 <= b < 0xC0 }

  /** The UTF-8 encoding of one Unicode scalar value. */
  function EncodeChar(c: char): (r: seq<byte>)
    ensures 1 <= |r| <= 4
    ensures |r| == 1 <==> c as int < 0x80
    ensures c as int < 0x80 ==> r == [c as int as byte]
  {
    var n := c as int;
    if n < 0x80 then [n]
    else if n < 0x800 then [0xC0 + n / 64, 0x80 + n % 64]
    else if n < 0x1_0000 then [0xE0 + n / 4096, 0x80 + (n / 64) % 64, 0x80 + n % 64]
    else [0xF0 + n / 0x4_0000, 0x80 + (n / 4096) % 64, 0x80 + (n / 64) % 64, 0x80 + n % 64]
  }

  /** `Bytes.toBytes(String)`: one to four bytes per character. */
  function Encode(s: string): (r: seq<byte>)
    ensures |s| <= |r| <= 4 * |s|
  {
    if s == [] then [] else EncodeChar(s[0]) + Encode(s[1..])
  }

  /** The first character of a non-empty byte string and the number of bytes
      it occupies. */
  function DecodeOne(s: seq<byte>): (r: (char, nat))
    requires |s| > 0
    ensures 1 <= r.1 <= |s|
  {
    var b0: int := s[0];
    if b0 < 0x80 then
      (b0 as char, 1)
    else if 0xC2 <= b0 < 0xE0 && |s| >= 2 && IsContinuation(s[1]) then
      (((b0 - 0xC0) * 64 + (s[1] as int - 0x80)) as char, 2)
    else if 0xE0 <= b0 < 0xF0 && |s| >= 3 && IsContinuation(s[1]) && IsContinuation(s[2]) then
      var n := (b0 - 0xE0) * 4096 + (s[1] as int - 0x80) * 64 + (s[2] as int - 0x80);
      if 0x800 <= n && !(0xD800 <= n < 0xE000) then (n as char, 3) else ('\U{FFFD}', 1)
    else if 0xF0 <= b0 < 0xF5 && |s| >= 4 && IsContinuation(s[1]) && IsContinuation(s[2]) && IsContinuation(s[3]) then
      var n := (b0 - 0xF0) * 0x4_0000 + (s[1] as int - 0x80) * 4096 + (s[2] as int - 0x80) * 64 + (s[3] as int - 0x80);
      if 0x1_0000 <= n <= 0x10_FFFF then (n as char, 4) else ('\U{FFFD}', 1)
    else
      ('\U{FFFD}', 1)
  }

  /** `Bytes.toString(byte[])`: at most one character per byte, and at
      least one for a non-empty array. */
  function Decode(s: seq<byte>): (r: string)
    ensures |r| <= |s|
    ensures |s| > 0 ==> |r| > 0
    decreases |s|
  {
    if s == [] then [] else
      var (c, len) := DecodeOne(s);
      [c] + Decode(s[len..])
  }

  lemma DecodeTwo(n: int, s: seq<byte>)
    requires 0x80 <= n < 0x800
    requires |s| >= 2 && s[0] == 0xC0 + n / 64 && s[1] == 0x80 + n % 64
    ensures DecodeOne(s).1 == 2 && DecodeOne(s).0 as int == n
  {
  }

  lemma DecodeThree(n: int, s: seq<byte>)
    requires 0x800 <= n < 0x1_0000 && !(0xD800 <= n < 0xE000)
    requires |s| >= 3 && s[0] == 0xE0 + n / 4096 && s[1] == 0x80 + (n / 64) % 64 && s[2] == 0x80 + n % 64
    ensures DecodeOne(s).1 == 3 && DecodeOne(s).0 as int == n
  {
    assert (n / 4096) * 64 + (n / 64) % 64 == n / 64;
  }

  lemma DecodeFour(n: int, s: seq<byte>)
    requires 0x1_0000 <= n <= 0x10_FFFF
    requires |s| >= 4 && s[0] == 0xF0 + n / 0x4_0000 && s[1] == 0x80 + (n / 4096) % 64
    requires s[2] == 0x80 + (n / 64) % 64 && s[3] == 0x80 + n % 64
    ensures DecodeOne(s).1 == 4 && DecodeOne(s).0 as int == n
  {
    assert (n / 0x4_0000) * 64 + (n / 4096) % 64 == n / 4096;
    assert (n / 4096) * 64 + (n / 64) % 64 == n / 64;
  }

  lemma DecodeOneEncodeChar(c: char, rest: seq<byte>)
    ensures DecodeOne(EncodeChar(c) + rest) == (c, |EncodeChar(c)|)
  {
    var n := c as int;
    var s := EncodeChar(c) + rest;
    if n < 0x80 {
    } else if n < 0x800 {
      DecodeTwo(n, s);
    } else if n < 0x1_0000 {
      DecodeThree(n, s);
    } else {
      DecodeFour(n, s);
    }
  }

  /** Decoding the encoding of a string gives the string back: every term
      written into a row key is recovered by `Bytes.toString`. */
  lemma {:induction false} DecodeEncode(s: string)
    ensures Decode(Encode(s)) == s
  {
    if s != [] {
      var e := EncodeChar(s[0]);
      DecodeOneEncodeChar(s[0], Encode(s[1..]));
      assert (e + Encode(s[1..]))[|e|..] == Encode(s[1..]);
      DecodeEncode(s[1..]);
    }
  }

  lemma {:induction false} EncodeAppend(a: string, b: string)
    ensures Encode(a + b) == Encode(a) + Encode(b)
  {
    if a != [] {
      assert (a + b)[1..] == a[1..] + b;
      EncodeAppend(a[1..], b);
    } else {
      assert a + b == b;
    }
  }

  /** Encoding is injective, so distinct terms give distinct row keys. */
  lemma EncodeInjective(s: string, t: string)
    ensures Encode(s) == Encode(t) <==> s == t
  {
    if Encode(s) == Encode(t) {
      DecodeEncode(s);
      DecodeEncode(t);
    }
  }

  /** ASCII text encodes byte for byte. */
  lemma {:induction false} EncodeAscii(s: string)
    requires forall i :: 0 <= i < |s| ==> s[i] as int < 0x80
    ensures |Encode(s)| == |s|
    ensures forall i :: 0 <= i < |s| ==> Encode(s)[i] == s[i] as int
  {
    if s != [] {
      EncodeAscii(s[1..]);
    }
  }

  /** Only ASCII text encodes in one byte per character; with `EncodeAscii`
      this is an if-and-only-if. */
  lemma {:induction false} EncodeOneBytePerChar(s: string)
    requires |Encode(s)| == |s|
    ensures forall i :: 0 <= i < |s| ==> s[i] as int < 0x80
  {
    if s != [] {
      EncodeOneBytePerChar(s[1..]);
      assert forall i :: 1 <= i < |s| ==> s[i] == s[1..][i - 1];
    }
  }

  /** ASCII bytes decode byte for byte. */
  lemma {:induction false} DecodeAscii(s: seq<byte>)
    requires forall i :: 0 <= i < |s| ==> s[i] < 0x80
    ensures |Decode(s)| == |s|
    ensures forall i :: 0 <= i < |s| ==> Decode(s)[i] as int == s[i] as int
  {
    if s != [] {
      DecodeAscii(s[1..]);
    }
  }
}
