/**
 Bold tags in the converted text itself. The converter does not escape its input, so tags
 written literally reach the output as they are (`PlainTextUnchanged`); on every input whose
 text has no '<' the tags of the output balance at every character (`TextBalances`).
 */
module AnsiTags {
  import opened Ansi
  import opened TextLines

  const OPEN: string := "<b>"
  const CLOSE: string := "</b>"

  /** At how many positions `tag` occurs. */
  function Occurrences(s: string, tag: string): nat {
    if s == [] then 0 else (if tag <= s then 1 else 0) + Occurrences(s[1..], tag)
  }

  /** The text the converter returns. */
  function Converted(input: string): string {
    Spell(Render(Items(input), 0))
  }

  lemma {:induction false} PlainTextSkipped(p: string, s: string, tag: string)
    requires '<' !in p && tag != [] && tag[0] == '<'
    ensures Occurrences(p + s, tag) == Occurrences(s, tag)
  {
    if p == [] {
      assert p + s == s;
    } else {
      assert (p + s)[0] == p[0] && (p + s)[1..] == p[1..] + s;
      PlainTextSkipped(p[1..], s, tag);
    }
  }

  lemma PlainTextHasNone(p: string, tag: string)
    requires '<' !in p && tag != [] && tag[0] == '<'
    ensures Occurrences(p, tag) == 0
  {
    PlainTextSkipped(p, "", tag);
    assert p + "" == p;
  }

  lemma OpenCounts(s: string)
    ensures Occurrences(OPEN + s, OPEN) == 1 + Occurrences(s, OPEN)
    ensures Occurrences(OPEN + s, CLOSE) == Occurrences(s, CLOSE)
  {
    assert (OPEN + s)[1..] == "b>" + s && (OPEN + s)[1] == 'b';
    PlainTextSkipped("b>", s, OPEN);
    PlainTextSkipped("b>", s, CLOSE);
  }

  lemma CloseCounts(s: string)
    ensures Occurrences(CLOSE + s, OPEN) == Occurrences(s, OPEN)
    ensures Occurrences(CLOSE + s, CLOSE) == 1 + Occurrences(s, CLOSE)
  {
    assert (CLOSE + s)[1..] == "/b>" + s && (CLOSE + s)[1] == '/';
    PlainTextSkipped("/b>", s, OPEN);
    PlainTextSkipped("/b>", s, CLOSE);
  }

  lemma ColourIsPlain(n: int)
    ensures '<' !in ColourText(n)
  {
  }

  ghost predicate PlainLiterals(tokens: seq<Token>) {
    forall i :: 0 <= i < |tokens| && tokens[i].Literal? ==> tokens[i].c != '<'
  }

  /** One whole token before `s`. */
  lemma TokenCounts(t: Token, s: string)
    requires t.Literal? ==> t.c != '<'
    ensures Occurrences(Spell([t]) + s, OPEN) == (if t == BoldOpen then 1 else 0) + Occurrences(s, OPEN)
    ensures Occurrences(Spell([t]) + s, CLOSE) == (if t == BoldClose then 1 else 0) + Occurrences(s, CLOSE)
  {
    SpellOne(t);
    match t
    case BoldOpen => OpenCounts(s);
    case BoldClose => CloseCounts(s);
    case Literal(c) =>
      PlainTextSkipped([c], s, OPEN);
      PlainTextSkipped([c], s, CLOSE);
    case Colour(n) =>
      ColourIsPlain(n);
      PlainTextSkipped(ColourText(n), s, OPEN);
      PlainTextSkipped(ColourText(n), s, CLOSE);
  }

  /** Part of a token contains no tag. */
  lemma PartCounts(t: Token, k: nat)
    requires (t.Literal? ==> t.c != '<') && k < |Spell([t])|
    ensures Occurrences(Spell([t])[..k], OPEN) == 0 && Occurrences(Spell([t])[..k], CLOSE) == 0
  {
    SpellOne(t);
    var part := Spell([t])[..k];
    if t == BoldOpen || t == BoldClose {
      if k > 0 {
        assert '<' !in part[1..];
        PlainTextHasNone(part[1..], OPEN);
        PlainTextHasNone(part[1..], CLOSE);
        assert !(OPEN <= part) && !(CLOSE <= part) by {
          assert |part| < |Spell([t])| && part[0] == '<';
          assert t == BoldClose && k > 1 ==> part[1] == '/';
        }
      }
    } else {
      if t.Colour? {
        ColourIsPlain(t.code);
      }
      assert '<' !in part;
      PlainTextHasNone(part, OPEN);
      PlainTextHasNone(part, CLOSE);
    }
  }

  /** What the first `m` tokens count for. */
  ghost predicate CountsAs(text: string, tokens: seq<Token>, m: nat) {
    && m <= |tokens|
    && Occurrences(text, OPEN) == Count(tokens[..m], BoldOpen)
    && Occurrences(text, CLOSE) == Count(tokens[..m], BoldClose)
  }

  lemma CountsAsCons(t: Token, rest: seq<Token>, m: nat, text: string)
    requires (t.Literal? ==> t.c != '<') && CountsAs(text, rest, m)
    ensures CountsAs(Spell([t]) + text, [t] + rest, m + 1)
  {
    TokenCounts(t, text);
    assert ([t] + rest)[..m + 1][1..] == rest[..m];
  }

  /** Every prefix of the text shows exactly the tags of a prefix of the tokens. */
  lemma {:induction false} PrefixTokens(tokens: seq<Token>, k: nat) returns (m: nat)
    requires PlainLiterals(tokens) && k <= |Spell(tokens)|
    ensures CountsAs(Spell(tokens)[..k], tokens, m)
    ensures k == |Spell(tokens)| ==> m == |tokens|
  {
    if tokens == [] {
      m := 0;
    } else {
      var (t, rest) := (tokens[0], tokens[1..]);
      assert tokens == [t] + rest;
      SpellConcat([t], rest);
      var w := Spell([t]);
      if k < |w| {
        m := 0;
        assert Spell(tokens)[..k] == w[..k];
        PartCounts(t, k);
      } else {
        m := PrefixTokens(rest, k - |w|);
        assert Spell(tokens)[..k] == w + Spell(rest)[..k - |w|];
        CountsAsCons(t, rest, m, Spell(rest)[..k - |w|]);
        m := m + 1;
      }
    }
  }

  lemma {:induction false} LiteralsErase(tokens: seq<Token>, i: nat)
    requires i < |tokens| && tokens[i].Literal?
    ensures tokens[i].c in Erase(tokens)
  {
    if i == 0 {
    } else {
      LiteralsErase(tokens[1..], i - 1);
    }
  }

  /** When the text has no '<', no prefix of the output has more closing than opening tags, and the
      whole equally many. */
  lemma {:induction false} TextBalances(input: string, k: nat)
    requires '<' !in Stripped(input) && k <= |Converted(input)|
    ensures Occurrences(Converted(input)[..k], CLOSE) <= Occurrences(Converted(input)[..k], OPEN)
    ensures Occurrences(Converted(input), CLOSE) == Occurrences(Converted(input), OPEN)
  {
    var tokens := Render(Items(input), 0);
    ErasureIsStripping(input);
    forall i: nat | i < |tokens| && tokens[i].Literal?
      ensures tokens[i].c != '<'
    {
      LiteralsErase(tokens, i);
    }
    var m := PrefixTokens(tokens, k);
    TagsBalance(input, m);
    var all := PrefixTokens(tokens, |Converted(input)|);
    assert Converted(input)[..|Converted(input)|] == Converted(input) && tokens[..|tokens|] == tokens;
  }

  lemma LiteralFirst(c: char, rest: seq<Item>, depth: nat)
    ensures Spell(Render([Lit(c)] + rest, depth)) == [c] + Spell(Render(rest, depth))
  {
    RenderCons(Lit(c), rest, depth);
    SpellConcat([Literal(c)], Render(rest, depth));
    SpellOne(Literal(c));
  }

  lemma PlainItem(text: string)
    requires text != [] && text[0] != ESC
    ensures Items(text) == [Lit(text[0])] + Items(text[1..])
  {
  }

  lemma TextBefore(text: string, rest: string, shown: string, closes: string)
    requires text != [] && shown == [text[0]] + rest && rest == text[1..] + closes
    ensures shown == text + closes
  {
  }

  /** Text without escape sequences keeps its place before the tags that close what is open. */
  lemma {:induction false} PlainTextInside(text: string, depth: nat)
    requires ESC !in text
    ensures Spell(Render(Items(text), depth)) == text + Spell(Closes(depth))
  {
    if text == [] {
    } else {
      var rest := Items(text[1..]);
      PlainTextInside(text[1..], depth);
      PlainItem(text);
      LiteralFirst(text[0], rest, depth);
      TextBefore(text, Spell(Render(rest, depth)), Spell(Render(Items(text), depth)), Spell(Closes(depth)));
    }
  }

  /** Text without escape sequences is passed on unescaped. */
  lemma PlainTextUnchanged(input: string)
    requires ESC !in input
    ensures Converted(input) == input
  {
    PlainTextInside(input, 0);
  }
}
