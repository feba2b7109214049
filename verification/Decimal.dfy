/**
 Decimal formatting as `to_string`, `{:08}` and `{:020}` perform it, and the fact that
 zero-padded decimals of one width compare byte-wise as the numbers they denote.
 */
module Decimal {
  import opened ByteOrder
  import Utf8

  const ZERO: Byte := 48
  const MINUS: Byte := 45

  predicate IsDigit(b: Byte) { ZERO <= b <= 57 }

  predicate AllDigits(s: Bytes) { forall i :: 0 <= i < |s| ==> IsDigit(s[i]) }

  function Pow10(w: nat): (p: nat)
    ensures p >= 1
  {
    if w == 0 then 1 else 10 * Pow10(w - 1)
  }

  /** The decimal digits of `n`, most significant first, without padding. */
  function Digits(n: nat): (s: Bytes)
    ensures s != [] && AllDigits(s)
  {
    if n < 10 then [ZERO + n] else Digits(n / 10) + [ZERO + n % 10]
  }

  /** The digits as text. */
  function Text(n: nat): string {
    Utf8.AsText(Digits(n))
  }

  /** The number a digit string denotes: the reader that `Digits` and `Format` are inverted by. */
  function Value(s: Bytes): nat
    requires AllDigits(s)
  {
    if s == [] then 0 else 10 * Value(s[..|s| - 1]) + (s[|s| - 1] - ZERO)
  }

  function Zeros(k: nat): (s: Bytes)
    ensures |s| == k && AllDigits(s)
  {
    seq(k, _ => ZERO)
  }

  /** `{:0w}` of a non-negative number: at least `w` characters, never truncated. */
  function Format(w: nat, n: nat): (s: Bytes)
    ensures |s| >= w && AllDigits(s)
  {
    var d := Digits(n);
    if |d| < w then Zeros(w - |d|) + d else d
  }

  /** `to_string` of a signed number. */
  function Signed(x: int): Bytes {
    if x < 0 then [MINUS] + Digits(-x) else Digits(x)
  }

  /** `{:0w}` of a signed number: the sign counts towards the width. */
  function FormatSigned(w: nat, x: int): Bytes
    requires w > 0
  {
    if x < 0 then [MINUS] + Format(w - 1, -x) else Format(w, x)
  }

  lemma {:induction false} DigitsValue(n: nat)
    ensures Value(Digits(n)) == n
  {
    if n >= 10 {
      DigitsValue(n / 10);
      assert Digits(n)[..|Digits(n)| - 1] == Digits(n / 10);
    } else {
      assert Digits(n)[..0] == [];
    }
  }

  lemma {:induction false} ValueSkipsZeros(k: nat, s: Bytes)
    requires AllDigits(s)
    ensures Value(Zeros(k) + s) == Value(s)
  {
    var z := Zeros(k) + s;
    if s == [] {
      if k > 0 {
        assert z[..|z| - 1] == Zeros(k - 1) + [];
        ValueSkipsZeros(k - 1, []);
      }
    } else {
      assert z[..|z| - 1] == Zeros(k) + s[..|s| - 1];
      ValueSkipsZeros(k, s[..|s| - 1]);
    }
  }

  /** Formatting loses nothing: the number can be read back whatever the width. */
  lemma FormatValue(w: nat, n: nat)
    ensures Value(Format(w, n)) == n
  {
    DigitsValue(n);
    if |Digits(n)| < w {
      ValueSkipsZeros(w - |Digits(n)|, Digits(n));
    }
  }

  lemma {:induction false} DigitsLength(w: nat, n: nat)
    requires w > 0 && n < Pow10(w)
    ensures |Digits(n)| <= w
  {
    if n >= 10 {
      assert Pow10(1) == 10;
      DigitsLength(w - 1, n / 10);
    }
  }

  lemma FormatLength(w: nat, n: nat)
    requires w > 0 && n < Pow10(w)
    ensures |Format(w, n)| == w
  {
    DigitsLength(w, n);
  }

  /** Digit strings of one length are ordered as the numbers they denote. */
  lemma {:induction false} LessIsNumeric(a: Bytes, b: Bytes)
    requires |a| == |b| && AllDigits(a) && AllDigits(b)
    ensures Less(a, b) <==> Value(a) < Value(b)
    ensures a == b <==> Value(a) == Value(b)
  {
    if a == [] {
    } else {
      var n := |a| - 1;
      var (a', x, b', y) := (a[..n], a[n..], b[..n], b[n..]);
      assert a == a' + x && b == b' + y && x == [a[n]] && y == [b[n]];
      LessIsNumeric(a', b');
      LessConcat(a', x, b', y);
      assert Less(x, y) <==> a[n] < b[n];
    }
  }

  /** Zero-padded decimals that fit their width compare as numbers. */
  lemma FormatOrder(w: nat, m: nat, n: nat)
    requires w > 0 && m < Pow10(w) && n < Pow10(w)
    ensures Less(Format(w, m), Format(w, n)) <==> m < n
    ensures Format(w, m) == Format(w, n) <==> m == n
  {
    FormatLength(w, m);
    FormatLength(w, n);
    FormatValue(w, m);
    FormatValue(w, n);
    LessIsNumeric(Format(w, m), Format(w, n));
  }

  /** A signed number reads back from its digits and its sign, padded or not; the sign counts towards the width. */
  lemma {:induction false} SignedReads(w: nat, x: int)
    requires w > 0
    ensures |FormatSigned(w, x)| >= w
    ensures x >= 0 ==>
      && AllDigits(Signed(x)) && Value(Signed(x)) == x
      && AllDigits(FormatSigned(w, x)) && Value(FormatSigned(w, x)) == x
    ensures x < 0 ==>
      && Signed(x)[0] == FormatSigned(w, x)[0] == 45
      && AllDigits(Signed(x)[1..]) && Value(Signed(x)[1..]) == -x
      && AllDigits(FormatSigned(w, x)[1..]) && Value(FormatSigned(w, x)[1..]) == -x
  {
    var n: nat := if x < 0 then -x else x;
    DigitsValue(n);
    FormatValue(w, n);
    FormatValue(w - 1, n);
    assert x < 0 ==> Signed(x)[1..] == Digits(n) && FormatSigned(w, x)[1..] == Format(w - 1, n);
  }
}
