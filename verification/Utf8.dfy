/** Text as the UTF-8 bytes that are hashed, compared and stored (section 3 of RFC 3629). */
module Utf8 {
  import opened ByteOrder

  function EncodeChar(c: char): (r: Bytes)
    ensures 1 <= |r| <= 4
  {
    var n := c as int;
    if n < 0x80 then [n]
    else if n < 0x800 then [192 + n / 64, 128 + n % 64]
    else if n < 0x10000 then [224 + n / 4096, 128 + n / 64 % 64, 128 + n % 64]
    else [240 + n / 262144, 128 + n / 4096 % 64, 128 + n / 64 % 64, 128 + n % 64]
  }

  function Encode(s: string): Bytes {
    if s == [] then [] else EncodeChar(s[0]) + Encode(s[1..])
  }

  lemma {:induction false} EncodeConcat(a: string, b: string)
    ensures Encode(a + b) == Encode(a) + Encode(b)
  {
    if a == [] {
      assert a + b == b;
    } else {
      assert (a + b)[1..] == a[1..] + b;
      EncodeConcat(a[1..], b);
      assert EncodeChar(a[0]) + (Encode(a[1..]) + Encode(b)) == EncodeChar(a[0]) + Encode(a[1..]) + Encode(b);
    }
  }

  /** The number a character was encoded from. */
  function Scalar(r: seq<int>): int
    requires 1 <= |r| <= 4
  {
    if |r| == 1 then r[0]
    else if |r| == 2 then (r[0] - 192) * 64 + (r[1] - 128)
    else if |r| == 3 then (r[0] - 224) * 4096 + (r[1] - 128) * 64 + (r[2] - 128)
    else (r[0] - 240) * 262144 + (r[1] - 128) * 4096 + (r[2] - 128) * 64 + (r[3] - 128)
  }

  lemma Sextets(n: nat)
    ensures n == n / 64 * 64 + n % 64
    ensures n == n / 4096 * 4096 + n / 64 % 64 * 64 + n % 64
    ensures n == n / 262144 * 262144 + n / 4096 % 64 * 4096 + n / 64 % 64 * 64 + n % 64
  {
    var m := n / 64;
    assert n / 4096 == m / 64;
    assert m == m / 64 * 64 + m % 64;
    var k := m / 64;
    assert n / 262144 == k / 64;
    assert k == k / 64 * 64 + k % 64;
  }

  lemma ScalarOfChar(c: char)
    ensures Scalar(EncodeChar(c)) == c as int
  {
    Sextets(c as int);
  }

  /** The first byte tells how many bytes the character has. */
  function Width(first: Byte): nat {
    if first < 0x80 then 1 else if first < 224 then 2 else if first < 240 then 3 else 4
  }

  lemma FirstCharDetermined(c: char, x: Bytes, d: char, y: Bytes)
    requires EncodeChar(c) + x == EncodeChar(d) + y
    ensures c == d && x == y
  {
    var (p, q) := (EncodeChar(c), EncodeChar(d));
    assert (p + x)[0] == p[0] && (q + y)[0] == q[0];
    assert p == (p + x)[..|p|] == (q + y)[..|q|] == q;
    assert x == (p + x)[|p|..] && y == (q + y)[|q|..];
    ScalarOfChar(c);
    ScalarOfChar(d);
  }

  /** Different texts have different bytes. */
  lemma {:induction false} EncodeInjective(a: string, b: string)
    requires Encode(a) == Encode(b)
    ensures a == b
  {
    if a == [] || b == [] {
      assert a == [] && b == [];
    } else {
      FirstCharDetermined(a[0], Encode(a[1..]), b[0], Encode(b[1..]));
      EncodeInjective(a[1..], b[1..]);
      assert a == [a[0]] + a[1..] && b == [b[0]] + b[1..];
    }
  }

  /** Bytes below 128 are characters themselves. */
  function AsText(b: Bytes): (s: string)
    ensures |s| == |b|
  {
    seq(|b|, i requires 0 <= i < |b| => b[i] as char)
  }

  lemma {:induction false} AsciiEncodesItself(b: Bytes)
    requires forall i :: 0 <= i < |b| ==> b[i] < 128
    ensures Encode(AsText(b)) == b
  {
    if b == [] {
    } else {
      AsciiEncodesItself(b[1..]);
      assert AsText(b)[1..] == AsText(b[1..]);
    }
  }

  /** One to four bytes by the ranges of section 3 of RFC 3629: a leading byte that tells how many, then bytes
      from 128 to 191. */
  lemma CharShape(c: char)
    ensures var (n, r) := (c as int, EncodeChar(c));
      && |r| == (if n <= 0x7F then 1 else if n <= 0x7FF then 2 else if n <= 0xFFFF then 3 else 4)
      && (|r| == 1 ==> r[0] <= 0x7F) && (|r| == 2 ==> 0xC2 <= r[0] <= 0xDF)
      && (|r| == 3 ==> 0xE0 <= r[0] <= 0xEF) && (|r| == 4 ==> 0xF0 <= r[0] <= 0xF4)
      && forall i :: 1 <= i < |r| ==> 128 <= r[i] <= 191
  {
  }

  /** The characters of section 7 of RFC 3629. */
  lemma KnownBytes()
    ensures EncodeChar('A') == [0x41]
    ensures EncodeChar('\U{391}') == [0xCE, 0x91]
    ensures EncodeChar('\U{2262}') == [0xE2, 0x89, 0xA2]
    ensures EncodeChar('\U{233B4}') == [0xF0, 0xA3, 0x8E, 0xB4]
  {
  }
}
