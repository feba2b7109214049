/**
 Canonicalisation of task texts, after lower-casing.

 Main result (`SameCanonicalIff`): two texts get the same canonical form exactly when they
 consist of the same words up to the values of digits and up to whatever follows "http"
 inside a word. Lower-casing itself is a parameter of the source's library; all that is
 used of it is that its result has no ASCII capital.
 */
module Pattern {
  import opened Characters
  import opened TextLines
  import opened Wrappers

  predicate StartsHttp(s: string) {
    |s| >= 4 && s[0] == 'h' && s[1] == 't' && s[2] == 't' && s[3] == 'p'
  }

  const URL: string := "<URL>"

  /** The leading run of non-space characters. */
  function Word(s: string): string {
    if s == [] || IsWhitespace(s[0]) then [] else [s[0]] + Word(s[1..])
  }

  /** What follows the leading run of non-space characters. */
  function AfterWord(s: string): (r: string)
    ensures |r| <= |s|
    ensures r == [] || IsWhitespace(r[0])
  {
    if s == [] || IsWhitespace(s[0]) then s else AfterWord(s[1..])
  }

  /** "http" and everything up to the next space become the URL marker. */
  function Collapse(s: string): string
    decreases |s|
  {
    if s == [] then []
    else if StartsHttp(s) then URL + Collapse(AfterWord(s[1..]))
    else [s[0]] + Collapse(s[1..])
  }

  function MaskChar(c: char): char {
    if IsDigit(c) then 'N' else c
  }

  function Mask(s: string): (r: string)
    ensures |r| == |s|
  {
    seq(|s|, i requires 0 <= i < |s| => MaskChar(s[i]))
  }

  /** `split_whitespace` */
  function Words(s: string): seq<string>
    decreases |s|
  {
    if s == [] then []
    else if IsWhitespace(s[0]) then Words(s[1..])
    else [Word(s)] + Words(AfterWord(s[1..]))
  }

  function Join(words: seq<string>): string {
    if words == [] then ""
    else if |words| == 1 then words[0]
    else words[0] + " " + Join(words[1..])
  }

  /** The canonical form of a lower-cased text. */
  function Canonical(lowered: string): string {
    Join(Words(Mask(Collapse(lowered))))
  }

  /** The position of the first "://", or the length. */
  function SchemeEnd(s: string): (k: nat)
    ensures k == |s| || k + 3 <= |s|
  {
    if |s| < 3 then |s|
    else if s[..3] == "://" then 0
    else 1 + SchemeEnd(s[1..])
  }

  /** The part between "://" and the next "/" (or the next "://"), empty without a scheme. */
  function Domain(url: string): string {
    var k := SchemeEnd(url);
    if k == |url| then ""
    else
      var rest := url[k + 3..];
      var segment := rest[..SchemeEnd(rest)];
      segment[..IndexOf(segment, '/')]
  }

  function Suffix(url: Option<string>): string {
    match url
    case None => ""
    case Some(u) => " @ " + Domain(u)
  }

  function Canonicalize(lowered: string, url: Option<string>): string {
    Canonical(lowered) + Suffix(url)
  }

  // --------------------------------------------------------------------------------- the loop

  /** The loop has consumed `text[..i]`. */
  ghost predicate CollapsedUpTo(text: string, i: nat, out: string) {
    i <= |text| && out + Collapse(text[i..]) == Collapse(text)
  }

  lemma CollapseStep(text: string, i: nat, out: string)
    requires i < |text| && CollapsedUpTo(text, i, out)
    ensures StartsHttp(text[i..]) ==> out + URL + Collapse(AfterWord(text[i + 1..])) == Collapse(text)
    ensures !StartsHttp(text[i..]) ==> CollapsedUpTo(text, i + 1, out + [text[i]])
  {
    assert text[i..][1..] == text[i + 1..];
    var rest := Collapse(text[i + 1..]);
    assert out + ([text[i]] + rest) == out + [text[i]] + rest;
    var after := Collapse(AfterWord(text[i + 1..]));
    assert out + (URL + after) == out + URL + after;
  }

  method CollapseUrls(text: string) returns (out: string)
    ensures out == Collapse(text)
  {
    out := "";
    var i: nat := 0;
    assert text[0..] == text;
    while i < |text|
      invariant i <= |text| && CollapsedUpTo(text, i, out)
    {
      CollapseStep(text, i, out);
      var c := text[i];
      if c == 'h' && i + 1 < |text| && text[i + 1] == 't' {
        var rest := if i + 7 <= |text| then text[i + 1..i + 7] else text[i + 1..];
        if |rest| >= 3 && rest[0] == 't' && rest[1] == 't' && rest[2] == 'p' {
          out := out + URL;
          i := SkipWord(text, i + 1);
          continue;
        }
      }
      out := out + [c];
      i := i + 1;
    }
    assert text[i..] == [] && out + [] == out;
  }

  method SkipWord(text: string, start: nat) returns (i: nat)
    requires start <= |text|
    ensures start <= i <= |text| && text[i..] == AfterWord(text[start..])
  {
    i := start;
    while i < |text| && !IsWhitespace(text[i])
      invariant start <= i <= |text|
      invariant AfterWord(text[i..]) == AfterWord(text[start..])
    {
      assert text[i..][1..] == text[i + 1..];
      i := i + 1;
    }
  }

  // ------------------------------------------------------------------------------- no "http"

  ghost predicate NoHttp(s: string) {
    s == [] || (!StartsHttp(s) && NoHttp(s[1..]))
  }

  /** A 't' or 'p' at the front of a collapsed text was there before. */
  lemma CollapseFirst(s: string)
    requires Collapse(s) != [] && (Collapse(s)[0] == 't' || Collapse(s)[0] == 'p')
    ensures s != [] && s[0] == Collapse(s)[0] && Collapse(s)[1..] == Collapse(s[1..])
  {
  }

  lemma {:induction false} NoHttpAfterUrl(s: string)
    requires NoHttp(s)
    ensures NoHttp(URL + s)
  {
    var t := URL + s;
    assert t[1..][1..][1..][1..][1..] == s;
    assert NoHttp(t[1..][1..][1..][1..]);
    assert NoHttp(t[1..][1..]);
  }

  lemma {:induction false} CollapseRemovesHttp(s: string)
    ensures NoHttp(Collapse(s))
    decreases |s|
  {
    if s == [] {
    } else {
      if StartsHttp(s) {
        CollapseRemovesHttp(AfterWord(s[1..]));
        NoHttpAfterUrl(Collapse(AfterWord(s[1..])));
      } else {
        CollapseRemovesHttp(s[1..]);
        var rest := Collapse(s[1..]);
        assert ([s[0]] + rest)[1..] == rest;
        if StartsHttp([s[0]] + rest) {
          CollapseFirst(s[1..]);
          CollapseFirst(s[2..]);
          CollapseFirst(s[3..]);
        }
      }
    }
  }

  lemma {:induction false} CollapseKeepsHttpless(s: string)
    requires NoHttp(s)
    ensures Collapse(s) == s
  {
    if s == [] {
    } else {
      CollapseKeepsHttpless(s[1..]);
    }
  }

  /** Collapsing a second time changes nothing. */
  lemma CollapseIdempotent(s: string)
    ensures Collapse(Collapse(s)) == Collapse(s)
  {
    CollapseRemovesHttp(s);
    CollapseKeepsHttpless(Collapse(s));
  }

  // ------------------------------------------------------------------------------ word by word

  /** Empty, or beginning with a space. */
  ghost predicate Breaks(s: string) {
    s == [] || IsWhitespace(s[0])
  }

  lemma {:induction false} WordSplit(s: string)
    ensures s == Word(s) + AfterWord(s) && Spaceless(Word(s))
  {
    if s != [] && !IsWhitespace(s[0]) {
      WordSplit(s[1..]);
    }
  }

  lemma {:induction false} WordOf(w: string, rest: string)
    requires Spaceless(w) && Breaks(rest)
    ensures Word(w + rest) == w && AfterWord(w + rest) == rest
  {
    if w == [] {
      assert w + rest == rest;
    } else {
      assert (w + rest)[1..] == w[1..] + rest;
      WordOf(w[1..], rest);
    }
  }

  lemma WordsOf(w: string, rest: string)
    requires w != [] && Spaceless(w) && Breaks(rest)
    ensures Words(w + rest) == [w] + Words(rest)
  {
    WordOf(w, rest);
    assert (w + rest)[1..] == w[1..] + rest;
    WordOf(w[1..], rest);
  }

  /** Collapsing works inside each word. */
  lemma {:induction false} CollapseConcat(w: string, rest: string)
    requires Spaceless(w) && Breaks(rest)
    ensures Collapse(w + rest) == Collapse(w) + Collapse(rest)
    decreases |w|
  {
    if w == [] {
      assert w + rest == rest;
    } else {
      assert (w + rest)[1..] == w[1..] + rest;
      if StartsHttp(w) {
        WordOf(w[1..], rest);
        assert Collapse(w + rest) == URL + Collapse(rest);
        WordOf(w[1..], []);
        assert w[1..] + [] == w[1..];
        assert Collapse(w) == URL + [] == URL;
      } else {
        CollapseConcat(w[1..], rest);
        var tail := Collapse(w[1..]);
        assert [w[0]] + (tail + Collapse(rest)) == [w[0]] + tail + Collapse(rest);
      }
    }
  }

  lemma {:induction false} CollapsedWord(w: string)
    requires Spaceless(w)
    ensures Spaceless(Collapse(w)) && (Collapse(w) == [] <==> w == [])
    decreases |w|
  {
    if w == [] {
    } else {
      if StartsHttp(w) {
        WordOf(w[1..], []);
        assert w[1..] + [] == w[1..];
      } else {
        CollapsedWord(w[1..]);
      }
    }
  }

  /** The canonical word of a word. */
  function Shape(w: string): string {
    Mask(Collapse(w))
  }

  function Shapes(words: seq<string>): seq<string> {
    seq(|words|, i requires 0 <= i < |words| => Shape(words[i]))
  }

  lemma MaskConcat(a: string, b: string)
    ensures Mask(a + b) == Mask(a) + Mask(b)
  {
  }

  /** The words of the masked, collapsed text are the shapes of the words of the text. */
  lemma {:induction false} WordsAreShapes(s: string)
    ensures Words(Mask(Collapse(s))) == Shapes(Words(s))
    decreases |s|
  {
    if s == [] {
    } else {
      if IsWhitespace(s[0]) {
        WordsAreShapes(s[1..]);
        var m := Mask(Collapse(s));
        assert m[1..] == Mask(Collapse(s[1..]));
      } else {
        WordSplit(s);
        ShapeOfWord(Word(s), AfterWord(s));
        WordsAreShapes(AfterWord(s));
        WordsOf(Word(s), AfterWord(s));
        assert Shapes([Word(s)] + Words(AfterWord(s))) == [Shape(Word(s))] + Shapes(Words(AfterWord(s)));
      }
    }
  }

  lemma ShapeOfWord(w: string, rest: string)
    requires w != [] && Spaceless(w) && Breaks(rest)
    ensures Words(Mask(Collapse(w + rest))) == [Shape(w)] + Words(Mask(Collapse(rest)))
  {
    CollapseConcat(w, rest);
    CollapsedWord(w);
    MaskConcat(Collapse(w), Collapse(rest));
    WordsOf(Shape(w), Mask(Collapse(rest)));
  }

  ghost predicate ProperWords(words: seq<string>) {
    forall i :: 0 <= i < |words| ==> words[i] != [] && Spaceless(words[i])
  }

  lemma {:induction false} WordsProper(s: string)
    ensures ProperWords(Words(s))
    decreases |s|
  {
    if s == [] {
    } else {
      if IsWhitespace(s[0]) {
        WordsProper(s[1..]);
      } else {
        WordSplit(s);
        WordsProper(AfterWord(s[1..]));
      }
    }
  }

  /** Splitting undoes joining: a canonical form has single spaces, and only between its words. */
  lemma {:induction false} WordsOfJoin(words: seq<string>)
    requires ProperWords(words)
    ensures Words(Join(words)) == words
  {
    if |words| == 1 {
      WordsOf(words[0], []);
      assert words[0] + [] == words[0] && Words([]) == [];
      assert words == [words[0]];
    } else if |words| > 1 {
      var rest := " " + Join(words[1..]);
      assert words[0] + " " + Join(words[1..]) == words[0] + rest;
      WordsOf(words[0], rest);
      assert rest[1..] == Join(words[1..]);
      WordsOfJoin(words[1..]);
      assert words == [words[0]] + words[1..];
    }
  }

  // ------------------------------------------------------------------- what a shape remembers

  /** No ASCII capital: what lower-casing guarantees. */
  ghost predicate NoCapitals(s: string) {
    forall i :: 0 <= i < |s| ==> !('A' <= s[i] <= 'Z')
  }

  /** Where "http" first occurs, or the length. */
  function HttpIndex(w: string): (p: nat)
    ensures p <= |w|
  {
    if w == [] || StartsHttp(w) then 0 else 1 + HttpIndex(w[1..])
  }

  predicate HasHttp(w: string) {
    HttpIndex(w) < |w|
  }

  /** Equal but for the values of digits. */
  ghost predicate SameUpToDigits(a: string, b: string) {
    |a| == |b| && forall i :: 0 <= i < |a| ==> a[i] == b[i] || (IsDigit(a[i]) && IsDigit(b[i]))
  }

  /** Both or neither word contains "http", and they agree up to digits before it. */
  ghost predicate SameWord(a: string, b: string) {
    (HasHttp(a) <==> HasHttp(b)) && SameUpToDigits(a[..HttpIndex(a)], b[..HttpIndex(b)])
  }

  ghost predicate SameWords(a: seq<string>, b: seq<string>) {
    |a| == |b| && forall i :: 0 <= i < |a| ==> SameWord(a[i], b[i])
  }

  lemma {:induction false} CollapseWord(w: string)
    requires Spaceless(w)
    ensures Collapse(w) == w[..HttpIndex(w)] + (if HasHttp(w) then URL else "")
    decreases |w|
  {
    if w == [] {
    } else {
      if StartsHttp(w) {
        WordOf(w[1..], []);
        assert w[1..] + [] == w[1..];
      } else {
        CollapseWord(w[1..]);
        assert w[..HttpIndex(w)] == [w[0]] + w[1..][..HttpIndex(w[1..])];
      }
    }
  }

  lemma MaskEqualIff(a: string, b: string)
    requires NoCapitals(a) && NoCapitals(b)
    ensures Mask(a) == Mask(b) <==> SameUpToDigits(a, b)
  {
    if Mask(a) == Mask(b) {
      assert |a| == |Mask(a)| == |b|;
      forall i | 0 <= i < |a|
        ensures a[i] == b[i] || (IsDigit(a[i]) && IsDigit(b[i]))
      {
        assert Mask(a)[i] == Mask(b)[i];
      }
    }
  }

  /** A shape is the masked part before "http", with the marker exactly when there was one. */
  lemma ShapeForm(w: string)
    requires Spaceless(w) && NoCapitals(w)
    ensures Shape(w) == Mask(w[..HttpIndex(w)]) + (if HasHttp(w) then URL else "")
    ensures HasHttp(w) <==> exists i :: 0 <= i < |Shape(w)| && Shape(w)[i] == 'U'
  {
    CollapseWord(w);
    MaskConcat(w[..HttpIndex(w)], if HasHttp(w) then URL else "");
    assert Mask(URL) == URL;
    if HasHttp(w) {
      assert Shape(w)[HttpIndex(w) + 1] == 'U';
    }
  }

  lemma SameShapeIff(a: string, b: string)
    requires Spaceless(a) && NoCapitals(a) && Spaceless(b) && NoCapitals(b)
    ensures Shape(a) == Shape(b) <==> SameWord(a, b)
  {
    ShapeForm(a);
    ShapeForm(b);
    var (pa, pb) := (a[..HttpIndex(a)], b[..HttpIndex(b)]);
    MaskEqualIff(pa, pb);
    if HasHttp(a) <==> HasHttp(b) {
      var u := if HasHttp(a) then URL else "";
      if Mask(pa) + u == Mask(pb) + u {
        assert |pa| == |pb|;
        assert (Mask(pa) + u)[..|pa|] == Mask(pa) && (Mask(pb) + u)[..|pa|] == Mask(pb);
      }
    }
  }

  lemma {:induction false} WordsNoCapitals(s: string)
    requires NoCapitals(s)
    ensures forall i :: 0 <= i < |Words(s)| ==> NoCapitals(Words(s)[i])
    decreases |s|
  {
    if s == [] {
    } else {
      if IsWhitespace(s[0]) {
        WordsNoCapitals(s[1..]);
      } else {
        WordSplit(s);
        var (w, rest) := (Word(s), AfterWord(s));
        assert forall i :: 0 <= i < |w| ==> w[i] == s[i];
        assert forall i :: 0 <= i < |rest| ==> rest[i] == s[|w| + i];
        WordsNoCapitals(rest);
      }
    }
  }

  lemma ShapesProper(s: string)
    ensures ProperWords(Shapes(Words(s)))
  {
    WordsProper(s);
    forall i | 0 <= i < |Words(s)|
      ensures Shape(Words(s)[i]) != [] && Spaceless(Shape(Words(s)[i]))
    {
      CollapsedWord(Words(s)[i]);
    }
  }

  lemma {:induction false} CanonicalIsJoinedShapes(s: string)
    ensures Canonical(s) == Join(Shapes(Words(s))) && ProperWords(Shapes(Words(s)))
  {
    WordsAreShapes(s);
    ShapesProper(s);
  }

  /** The canonical form determines, and is determined by, the words up to digits and tails of "http". */
  lemma {:induction false} SameCanonicalIff(a: string, b: string)
    requires NoCapitals(a) && NoCapitals(b)
    ensures Canonical(a) == Canonical(b) <==> SameWords(Words(a), Words(b))
  {
    CanonicalIsJoinedShapes(a);
    CanonicalIsJoinedShapes(b);
    WordsOfJoin(Shapes(Words(a)));
    WordsOfJoin(Shapes(Words(b)));
    assert Canonical(a) == Canonical(b) <==> Shapes(Words(a)) == Shapes(Words(b));
    ShapesEqualIff(a, b);
  }

  lemma ShapesEqualIff(a: string, b: string)
    requires NoCapitals(a) && NoCapitals(b)
    ensures Shapes(Words(a)) == Shapes(Words(b)) <==> SameWords(Words(a), Words(b))
  {
    var (u, v) := (Words(a), Words(b));
    WordsProper(a);
    WordsProper(b);
    WordsNoCapitals(a);
    WordsNoCapitals(b);
    if |u| == |v| {
      forall i | 0 <= i < |u|
        ensures Shape(u[i]) == Shape(v[i]) <==> SameWord(u[i], v[i])
      {
        SameShapeIff(u[i], v[i]);
      }
      if Shapes(u) == Shapes(v) {
        forall i | 0 <= i < |u|
          ensures SameWord(u[i], v[i])
        {
          assert Shapes(u)[i] == Shapes(v)[i];
        }
      }
    } else {
      assert |Shapes(u)| != |Shapes(v)|;
    }
  }

  // --------------------------------------------------------------------- the form of the result

  lemma {:induction false} NoHttpMask(s: string)
    requires NoHttp(s)
    ensures NoHttp(Mask(s))
  {
    if s == [] {
    } else {
      NoHttpMask(s[1..]);
      assert Mask(s)[1..] == Mask(s[1..]);
    }
  }

  lemma {:induction false} NoHttpConcat(a: string, b: string)
    requires NoHttp(a) && NoHttp(b) && Breaks(b)
    ensures NoHttp(a + b)
  {
    if a == [] {
      assert a + b == b;
    } else {
      assert (a + b)[1..] == a[1..] + b;
      NoHttpConcat(a[1..], b);
      assert b != [] ==> (a + b)[|a|] == b[0];
    }
  }

  lemma {:induction false} NoHttpJoin(words: seq<string>)
    requires forall i :: 0 <= i < |words| ==> NoHttp(words[i])
    ensures NoHttp(Join(words))
  {
    if |words| > 1 {
      NoHttpJoin(words[1..]);
      var rest := " " + Join(words[1..]);
      assert rest[1..] == Join(words[1..]);
      assert words[0] + " " + Join(words[1..]) == words[0] + rest;
      NoHttpConcat(words[0], rest);
    }
  }

  lemma {:induction false} JoinMembers(words: seq<string>, c: char)
    requires forall i :: 0 <= i < |words| ==> c !in words[i]
    requires c != ' '
    ensures c !in Join(words)
  {
    if |words| > 1 {
      JoinMembers(words[1..], c);
    }
  }

  /** A canonical form has no "http", no digit, and single spaces between its words and nowhere else. */
  lemma CanonicalForm(s: string)
    ensures NoHttp(Canonical(s))
    ensures forall c :: c in Canonical(s) ==> !IsDigit(c)
    ensures Join(Words(Canonical(s))) == Canonical(s)
  {
    var words := Shapes(Words(s));
    WordsAreShapes(s);
    ShapesProper(s);
    WordsOfJoin(words);
    forall i | 0 <= i < |words|
      ensures NoHttp(words[i])
      ensures forall c :: c in words[i] ==> !IsDigit(c)
    {
      CollapseRemovesHttp(Words(s)[i]);
      NoHttpMask(Collapse(Words(s)[i]));
    }
    NoHttpJoin(words);
    forall c | IsDigit(c)
      ensures c !in Canonical(s)
    {
      JoinMembers(words, c);
    }
  }
}
