/** Splitting text into lines as `str::lines` does, and putting lines together, for any kind of character. */
module TextLines {

  /** The position of the first `x`, or the length. */
  function IndexOf<T(==)>(s: seq<T>, x: T): (k: nat)
    ensures k <= |s|
    ensures forall i :: 0 <= i < k ==> s[i] != x
    ensures k < |s| ==> s[k] == x
  {
    if s == [] || s[0] == x then 0 else 1 + IndexOf(s[1..], x)
  }

  /** A line without its trailing carriage return. */
  function Chomp<T(==)>(s: seq<T>, cr: T): seq<T> {
    if s != [] && s[|s| - 1] == cr then s[..|s| - 1] else s
  }

  /** Terminated lines lose "\n" or "\r\n"; an unterminated last line is kept as it is. */
  function Lines<T(==)>(s: seq<T>, nl: T, cr: T): seq<seq<T>> {
    if s == [] then []
    else
      var k := IndexOf(s, nl);
      if k == |s| then [s] else [Chomp(s[..k], cr)] + Lines(s[k + 1..], nl, cr)
  }

  lemma {:induction false} IndexOfSplit<T>(a: seq<T>, x: T, b: seq<T>)
    requires x !in a
    ensures IndexOf(a + [x] + b, x) == |a|
  {
    if a == [] {
      assert a + [x] + b == [x] + b;
    } else {
      assert (a + [x] + b)[1..] == a[1..] + [x] + b;
      IndexOfSplit(a[1..], x, b);
    }
  }

  /** The first line ends at the first newline. */
  lemma FirstLine<T>(a: seq<T>, nl: T, cr: T, rest: seq<T>)
    requires nl !in a
    ensures Lines(a + [nl] + rest, nl, cr) == [Chomp(a, cr)] + Lines(rest, nl, cr)
  {
    var s := a + [nl] + rest;
    IndexOfSplit(a, nl, rest);
    assert s[..|a|] == a && s[|a| + 1..] == rest;
  }

  /** No line contains a newline. */
  lemma {:induction false} LinesNewlineFree<T>(s: seq<T>, nl: T, cr: T)
    ensures forall i :: 0 <= i < |Lines(s, nl, cr)| ==> nl !in Lines(s, nl, cr)[i]
    decreases |s|
  {
    if s == [] {
    } else {
      var k := IndexOf(s, nl);
      if k < |s| {
        LinesNewlineFree(s[k + 1..], nl, cr);
      }
    }
  }

  /** Every line terminated. */
  function Unlines<T>(lines: seq<seq<T>>, nl: T): seq<T> {
    if lines == [] then [] else lines[0] + [nl] + Unlines(lines[1..], nl)
  }

  function Chomped<T(==)>(lines: seq<seq<T>>, cr: T): seq<seq<T>> {
    seq(|lines|, i requires 0 <= i < |lines| => Chomp(lines[i], cr))
  }

  lemma ChompedConcat<T>(a: seq<seq<T>>, b: seq<seq<T>>, cr: T)
    ensures Chomped(a + b, cr) == Chomped(a, cr) + Chomped(b, cr)
  {
  }

  lemma {:induction false} UnlinesConcat<T>(a: seq<seq<T>>, b: seq<seq<T>>, nl: T)
    ensures Unlines(a + b, nl) == Unlines(a, nl) + Unlines(b, nl)
  {
    if a == [] {
      assert a + b == b;
    } else {
      assert (a + b)[1..] == a[1..] + b;
      UnlinesConcat(a[1..], b, nl);
      assert a[0] + [nl] + (Unlines(a[1..], nl) + Unlines(b, nl)) == a[0] + [nl] + Unlines(a[1..], nl) + Unlines(b, nl);
    }
  }

  /** Terminated lines are split where they were put together. */
  lemma {:induction false} LinesOfUnlines<T>(lines: seq<seq<T>>, nl: T, cr: T)
    requires forall i :: 0 <= i < |lines| ==> nl !in lines[i]
    ensures Lines(Unlines(lines, nl), nl, cr) == Chomped(lines, cr)
  {
    if lines == [] {
    } else {
      LinesOfUnlines(lines[1..], nl, cr);
      FirstLine(lines[0], nl, cr, Unlines(lines[1..], nl));
      assert Chomped(lines, cr) == [Chomp(lines[0], cr)] + Chomped(lines[1..], cr);
    }
  }

  lemma LineBefore<T>(first: seq<T>, rest: seq<T>, last: seq<T>, lines: seq<seq<T>>, nl: T, cr: T)
    requires nl !in first && Lines(rest + last, nl, cr) == lines + [last]
    ensures Lines(first + [nl] + rest + last, nl, cr) == [Chomp(first, cr)] + lines + [last]
  {
    FirstLine(first, nl, cr, rest + last);
    assert first + [nl] + rest + last == first + [nl] + (rest + last);
    assert [Chomp(first, cr)] + (lines + [last]) == [Chomp(first, cr)] + lines + [last];
  }

  /** An unterminated last line is a line like the others, and keeps a carriage return. */
  lemma {:induction false} LastLine<T>(lines: seq<seq<T>>, last: seq<T>, nl: T, cr: T)
    requires (forall i :: 0 <= i < |lines| ==> nl !in lines[i]) && nl !in last && last != []
    ensures Lines(Unlines(lines, nl) + last, nl, cr) == Chomped(lines, cr) + [last]
  {
    if lines == [] {
      assert Unlines(lines, nl) + last == last;
    } else {
      LastLine(lines[1..], last, nl, cr);
      LineBefore(lines[0], Unlines(lines[1..], nl), last, Chomped(lines[1..], cr), nl, cr);
      assert Chomped(lines, cr) == [Chomp(lines[0], cr)] + Chomped(lines[1..], cr);
    }
  }

  /** A line loses one carriage return at its end, and nothing else. */
  lemma ChompsOne<T>(s: seq<T>, cr: T)
    ensures Chomp(s + [cr], cr) == s
    ensures s != [] && s[|s| - 1] != cr ==> Chomp(s, cr) == s
  {
    assert (s + [cr])[..|s|] == s;
  }
}
