/** Character classes and trimming, as the standard library of the source defines them. */
module Characters {

  /** Unicode White_Space. */
  predicate IsWhitespace(c: char) {
    var n := c as int;
    || 9 <= n <= 13 || n == 32 || n == 0x85 || n == 0xA0 || n == 0x1680 || 0x2000 <= n <= 0x200A
    || n == 0x2028 || n == 0x2029 || n == 0x202F || n == 0x205F || n == 0x3000
  }

  predicate IsDigit(c: char) { '0' <= c <= '9' }

  ghost predicate Spaceless(s: string) {
    forall i :: 0 <= i < |s| ==> !IsWhitespace(s[i])
  }

  ghost predicate Blank(s: string) {
    forall i :: 0 <= i < |s| ==> IsWhitespace(s[i])
  }

  function TrimStart(s: string): string {
    if s != [] && IsWhitespace(s[0]) then TrimStart(s[1..]) else s
  }

  function TrimEnd(s: string): string {
    if s != [] && IsWhitespace(s[|s| - 1]) then TrimEnd(s[..|s| - 1]) else s
  }

  function Trim(s: string): string {
    TrimEnd(TrimStart(s))
  }

  lemma {:induction false} TrimStartBlank(s: string)
    ensures TrimStart(s) == [] <==> Blank(s)
    ensures TrimStart(s) != [] ==> !IsWhitespace(TrimStart(s)[0])
  {
    if s == [] || !IsWhitespace(s[0]) {
    } else {
      TrimStartBlank(s[1..]);
      assert s == [s[0]] + s[1..];
    }
  }

  lemma {:induction false} TrimEndKeepsFirst(s: string)
    requires s != [] && !IsWhitespace(s[0])
    ensures TrimEnd(s) != []
  {
    if !IsWhitespace(s[|s| - 1]) {
    } else {
      TrimEndKeepsFirst(s[..|s| - 1]);
    }
  }

  /** Trimming leaves nothing of blank text, and something of any other. */
  lemma TrimmedAwayIffBlank(s: string)
    ensures Trim(s) == [] <==> Blank(s)
  {
    TrimStartBlank(s);
    if !Blank(s) {
      TrimEndKeepsFirst(TrimStart(s));
    }
  }

  /** `t` is `s` without the white space around it. */
  ghost predicate Strips(s: string, before: string, t: string, after: string) {
    && s == before + t + after && Blank(before) && Blank(after)
    && (t != [] ==> !IsWhitespace(t[0]) && !IsWhitespace(t[|t| - 1]))
  }

  lemma {:induction false} TrimStartSplits(s: string) returns (before: string)
    ensures s == before + TrimStart(s) && Blank(before)
  {
    if s == [] || !IsWhitespace(s[0]) {
      before := [];
    } else {
      var rest := TrimStartSplits(s[1..]);
      before := [s[0]] + rest;
      assert s == [s[0]] + s[1..];
    }
  }

  lemma {:induction false} TrimEndSplits(s: string) returns (after: string)
    ensures s == TrimEnd(s) + after && Blank(after)
    ensures TrimEnd(s) != [] ==> !IsWhitespace(TrimEnd(s)[|TrimEnd(s)| - 1])
  {
    if s == [] || !IsWhitespace(s[|s| - 1]) {
      after := [];
    } else {
      var rest := TrimEndSplits(s[..|s| - 1]);
      after := rest + [s[|s| - 1]];
      assert s == s[..|s| - 1] + [s[|s| - 1]];
    }
  }

  /** Trimming removes white space at both ends and nothing else. */
  lemma TrimStrips(s: string) returns (before: string, after: string)
    ensures Strips(s, before, Trim(s), after)
  {
    before := TrimStartSplits(s);
    after := TrimEndSplits(TrimStart(s));
    TrimStartBlank(s);
    assert before + TrimStart(s) == before + Trim(s) + after;
  }

  lemma {:induction false} TrimStartOf(before: string, s: string)
    requires Blank(before) && s != [] && !IsWhitespace(s[0])
    ensures TrimStart(before + s) == s
  {
    if before == [] {
      assert before + s == s;
    } else {
      assert (before + s)[1..] == before[1..] + s;
      TrimStartOf(before[1..], s);
    }
  }

  lemma {:induction false} TrimEndOf(s: string, after: string)
    requires Blank(after) && s != [] && !IsWhitespace(s[|s| - 1])
    ensures TrimEnd(s + after) == s
  {
    if after == [] {
      assert s + after == s;
    } else {
      var n := |after| - 1;
      assert (s + after)[..|s| + n] == s + after[..n];
      TrimEndOf(s, after[..n]);
    }
  }

  /** Nothing else is left of text with white space around it. */
  lemma TrimOf(before: string, t: string, after: string)
    requires t != [] && Strips(before + t + after, before, t, after)
    ensures Trim(before + t + after) == t
  {
    assert before + t + after == before + (t + after);
    TrimStartOf(before, t + after);
    TrimEndOf(t, after);
  }
}
