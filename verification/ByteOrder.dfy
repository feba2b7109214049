/**
 Byte strings and their lexicographic order: the order in which the embedded key/value
 store iterates its keys, and in which string slices are sorted.
 */
module ByteOrder {

  type Byte = b: int | 0 <= b < 256

  type Bytes = seq<Byte>

  /** `a` comes strictly before `b` in byte-wise lexicographic order. */
  predicate Less(a: Bytes, b: Bytes) {
    b != [] && (a == [] || a[0] < b[0] || (a[0] == b[0] && Less(a[1..], b[1..])))
  }

  lemma {:induction false} LessIrreflexive(a: Bytes)
    ensures !Less(a, a)
  {
    if a == [] {
    } else {
      LessIrreflexive(a[1..]);
    }
  }

  lemma {:induction false} LessTransitive(a: Bytes, b: Bytes, c: Bytes)
    requires Less(a, b) && Less(b, c)
    ensures Less(a, c)
  {
    if a != [] && a[0] == b[0] == c[0] {
      LessTransitive(a[1..], b[1..], c[1..]);
    }
  }

  lemma {:induction false} LessTotal(a: Bytes, b: Bytes)
    ensures Less(a, b) || a == b || Less(b, a)
  {
    if a != [] && b != [] && a[0] == b[0] {
      LessTotal(a[1..], b[1..]);
      if a[1..] == b[1..] {
        assert a == [a[0]] + a[1..] == b;
      }
    }
  }

  lemma LessAsymmetric(a: Bytes, b: Bytes)
    requires Less(a, b)
    ensures !Less(b, a) && a != b
  {
    LessIrreflexive(a);
    if Less(b, a) {
      LessTransitive(a, b, a);
    }
  }

  /** Comparing two concatenations whose first parts have the same length. */
  lemma {:induction false} LessConcat(a: Bytes, x: Bytes, b: Bytes, y: Bytes)
    requires |a| == |b|
    ensures Less(a + x, b + y) <==> Less(a, b) || (a == b && Less(x, y))
  {
    if a == [] {
      assert a + x == x && b + y == y;
    } else {
      assert (a + x)[1..] == a[1..] + x && (b + y)[1..] == b[1..] + y;
      LessConcat(a[1..], x, b[1..], y);
      assert a == [a[0]] + a[1..] && b == [b[0]] + b[1..];
    }
  }

  lemma LessSeparated(a: Bytes, x: Bytes, b: Bytes, y: Bytes, separator: Byte)
    requires |a| == |b|
    ensures Less(a + [separator] + x, b + [separator] + y) <==> Less(a, b) || (a == b && Less(x, y))
  {
    assert a + [separator] + x == a + ([separator] + x) && b + [separator] + y == b + ([separator] + y);
    LessConcat(a, [separator] + x, b, [separator] + y);
    LessConcat([separator], x, [separator], y);
    LessIrreflexive([separator]);
  }
}
