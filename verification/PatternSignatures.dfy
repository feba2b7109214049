/**
 Signature texts with their url part, for any two url arguments. Two requests get the same
 text if they have the same words and the same domain, or if the one without (or with the
 shorter) domain part spells the rest of the other's out in its own text (`SameSignatureIff`).
 */
module PatternSignatures {
  import opened Characters
  import opened Pattern
  import opened TextLines
  import opened Wrappers

  lemma {:induction false} JoinOfTwo(a: seq<string>, c: seq<string>)
    requires a != [] && c != []
    ensures Join(a + c) == Join(a) + " " + Join(c)
  {
    assert (a + c)[1..] == a[1..] + c;
    if |a| == 1 {
      assert a[1..] + c == c;
    } else {
      JoinOfTwo(a[1..], c);
      var (first, rest) := (a[0], Join(a[1..]));
      assert first + " " + (rest + " " + Join(c)) == first + " " + rest + " " + Join(c);
    }
  }

  lemma WordThenText(w: string, text: string)
    requires w != [] && Spaceless(w)
    ensures Words(w + " " + text) == [w] + Words(text)
  {
    var tail := " " + text;
    assert w + " " + text == w + tail;
    WordsOf(w, tail);
    assert tail[1..] == text;
  }

  lemma ConsConcat(a: seq<string>, b: seq<string>)
    requires a != []
    ensures [a[0]] + (a[1..] + b) == a + b
  {
  }

  lemma JoinRest(a: seq<string>, rest: string)
    requires |a| > 1
    ensures Join(a) + rest == a[0] + " " + (Join(a[1..]) + rest)
  {
  }

  /** Words followed by text that begins with a space. */
  lemma {:induction false} WordsOfJoinAnd(a: seq<string>, rest: string)
    requires ProperWords(a) && Breaks(rest)
    ensures Words(Join(a) + rest) == a + Words(rest)
  {
    if a == [] {
      assert "" + rest == rest;
    } else if |a| == 1 {
      WordsOf(a[0], rest);
      assert a == [a[0]];
    } else {
      WordsOfJoinAnd(a[1..], rest);
      JoinRest(a, rest);
      WordThenText(a[0], Join(a[1..]) + rest);
      ConsConcat(a, Words(rest));
    }
  }

  /** `extra` is a space and then words with single spaces between them. */
  predicate SpacedWords(extra: string) {
    Words(extra) != [] && extra == " " + Join(Words(extra))
  }

  /** Joined words continue other joined words by `extra` exactly when they are those and the words of `extra`. */
  lemma {:induction false} JoinContinues(a: seq<string>, b: seq<string>, extra: string)
    requires ProperWords(a) && ProperWords(b) && extra != [] && extra[0] == ' '
    ensures Join(b) == Join(a) + extra <==> a != [] && SpacedWords(extra) && b == a + Words(extra)
  {
    if Join(b) == Join(a) + extra {
      JoinForces(a, b, extra);
    }
    if a != [] && SpacedWords(extra) && b == a + Words(extra) {
      JoinOfTwo(a, Words(extra));
      assert Join(a) + (" " + Join(Words(extra))) == Join(a) + " " + Join(Words(extra));
    }
  }

  lemma CancelHead(x: string, y: string, z: string)
    requires x + y == x + z
    ensures y == z
  {
    assert y == (x + y)[|x|..] && z == (x + z)[|x|..];
  }

  lemma JoinForcesWords(a: seq<string>, b: seq<string>, extra: string)
    requires ProperWords(a) && ProperWords(b) && Breaks(extra) && Join(b) == Join(a) + extra
    ensures b == a + Words(extra)
  {
    WordsOfJoin(b);
    WordsOfJoinAnd(a, extra);
  }

  lemma JoinForcesSome(a: seq<string>, b: seq<string>, extra: string)
    requires ProperWords(b) && extra != [] && extra[0] == ' ' && Join(b) == Join(a) + extra
    ensures a != [] && b != a
  {
    assert |Join(b)| == |Join(a)| + |extra|;
    assert b != [];
    assert a == [] ==> Join(a) + extra == extra;
  }

  lemma JoinForcesSpacing(a: seq<string>, c: seq<string>, extra: string)
    requires a != [] && c != [] && Join(a + c) == Join(a) + extra
    ensures extra == " " + Join(c)
  {
    JoinOfTwo(a, c);
    assert Join(a) + " " + Join(c) == Join(a) + (" " + Join(c));
    CancelHead(Join(a), extra, " " + Join(c));
  }

  lemma {:induction false} JoinForces(a: seq<string>, b: seq<string>, extra: string)
    requires ProperWords(a) && ProperWords(b) && extra != [] && extra[0] == ' '
    requires Join(b) == Join(a) + extra
    ensures a != [] && SpacedWords(extra) && b == a + Words(extra)
  {
    JoinForcesWords(a, b, extra);
    JoinForcesSome(a, b, extra);
    assert a + [] == a;
    JoinForcesSpacing(a, Words(extra), extra);
  }

  /** The part of the url suffix of `u` that comes before that of `v`. */
  function Surplus(u: Option<string>, v: Option<string>): string
    requires |Suffix(u)| >= |Suffix(v)|
  {
    Suffix(u)[..|Suffix(u)| - |Suffix(v)|]
  }

  /** The url part of `u` ends in that of `v`, and `b` has the words of `a` and then those of the surplus. */
  ghost predicate SpellsOut(a: string, u: Option<string>, b: string, v: Option<string>) {
    && |Suffix(u)| > |Suffix(v)| && Suffix(u) == Surplus(u, v) + Suffix(v)
    && Words(a) != [] && SpacedWords(Surplus(u, v))
    && Shapes(Words(b)) == Shapes(Words(a)) + Words(Surplus(u, v))
  }

  lemma SplitEqual(x: string, p: string, y: string, q: string)
    requires |p| >= |q|
    ensures x + p == y + q <==> p[|p| - |q|..] == q && y == x + p[..|p| - |q|]
  {
    var k := |p| - |q|;
    assert p == p[..k] + p[k..];
    assert x + p == x + p[..k] + p[k..];
    if x + p == y + q {
      assert |y| == |x| + k;
      assert (y + q)[..|y|] == y && (x + p[..k] + p[k..])[..|y|] == x + p[..k];
      assert (y + q)[|y|..] == q && (x + p[..k] + p[k..])[|y|..] == p[k..];
    }
  }

  lemma LongerSuffixIff(a: string, u: Option<string>, b: string, v: Option<string>)
    requires |Suffix(u)| > |Suffix(v)|
    ensures Canonicalize(a, u) == Canonicalize(b, v) <==> SpellsOut(a, u, b, v)
  {
    var extra := Surplus(u, v);
    CanonicalIsJoinedShapes(a);
    CanonicalIsJoinedShapes(b);
    SplitEqual(Canonical(a), Suffix(u), Canonical(b), Suffix(v));
    assert Suffix(u) == extra + Suffix(u)[|extra|..];
    JoinContinues(Shapes(Words(a)), Shapes(Words(b)), extra);
  }

  /**
   For every two texts and url arguments: the signature texts agree if and only if the texts
   have the same words up to digits and tails of "http" and the url parts agree, or one text
   spells out what the other has in its url part.
   */
  lemma {:induction false} SameSignatureIff(a: string, u: Option<string>, b: string, v: Option<string>)
    requires NoCapitals(a) && NoCapitals(b)
    ensures Canonicalize(a, u) == Canonicalize(b, v) <==>
            || (Suffix(u) == Suffix(v) && SameWords(Words(a), Words(b)))
            || SpellsOut(a, u, b, v)
            || SpellsOut(b, v, a, u)
  {
    if |Suffix(u)| > |Suffix(v)| {
      LongerSuffixIff(a, u, b, v);
    } else if |Suffix(v)| > |Suffix(u)| {
      LongerSuffixIff(b, v, a, u);
    } else {
      SplitEqual(Canonical(a), Suffix(u), Canonical(b), Suffix(v));
      SameCanonicalIff(a, b);
      assert Suffix(u)[0..] == Suffix(u) && Canonical(a) + Suffix(u)[..0] == Canonical(a);
    }
  }

  lemma DomainOfExample()
    ensures Domain("s://d") == "d"
  {
    assert "s://d"[1..] == "://d" && "://d"[..3] == "://";
    assert "s://d"[..3][0] == 's';
    assert SchemeEnd("://d") == 0 && SchemeEnd("s://d") == 1;
    assert "s://d"[4..] == "d" && SchemeEnd("d") == 1 && "d"[..1] == "d";
    assert IndexOf("d", '/') == 1;
  }

  lemma JoinsOfExample()
    ensures Join(["x"]) == "x" && Join(["x", "@", "d"]) == "x @ d"
  {
    assert ["x", "@", "d"][1..] == ["@", "d"] && ["@", "d"][1..] == ["d"];
    assert Join(["@", "d"]) == "@ d";
  }

  lemma {:induction false} CanonicalOfExample()
    ensures Canonical("x") == "x" && Canonical("x @ d") == "x @ d"
  {
    JoinsOfExample();
    PlainIsCanonical(["x"]);
    PlainIsCanonical(["x", "@", "d"]);
  }

  lemma SuffixOfExample()
    ensures Suffix(Some("s://d")) == " @ d"
  {
    DomainOfExample();
  }

  /** The exceptional case is real: "x @ d" without a url, and "x" with a url of domain d. */
  lemma {:induction false} UrlSpelledOut()
    ensures Canonicalize("x @ d", None) == Canonicalize("x", Some("s://d"))
  {
    CanonicalOfExample();
    SuffixOfExample();
  }

  lemma ShapeOfLetter(c: char)
    requires !IsDigit(c)
    ensures Shape([c]) == [c]
  {
    assert Collapse([c]) == [c] + Collapse([c][1..]);
  }

  /** One-letter words without digits are their own shapes. */
  lemma PlainIsCanonical(words: seq<string>)
    requires forall i :: 0 <= i < |words| ==> |words[i]| == 1 && !IsDigit(words[i][0]) && !IsWhitespace(words[i][0])
    ensures Canonical(Join(words)) == Join(words)
  {
    CanonicalIsJoinedShapes(Join(words));
    WordsOfJoin(words);
    ShapesOfLetters(words);
  }

  lemma ShapesOfLetters(words: seq<string>)
    requires forall i :: 0 <= i < |words| ==> |words[i]| == 1 && !IsDigit(words[i][0])
    ensures Shapes(words) == words
  {
    forall i | 0 <= i < |words|
      ensures Shape(words[i]) == words[i]
    {
      ShapeOfLetter(words[i][0]);
      assert words[i] == [words[i][0]];
    }
  }
}
