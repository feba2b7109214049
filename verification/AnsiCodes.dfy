/**
 Escape sequences written out: any list of codes reads back as those codes (`SequenceReads`), and
 what a colour or a bold sequence makes of the text after it.
 */
module AnsiCodes {
  import opened Ansi
  import opened AnsiTags
  import opened Characters
  import Decimal
  import opened TextLines
  import Utf8
  import opened Wrappers

  // ------------------------------------------------------------------------------- numbers

  lemma {:induction false} TextReads(n: nat)
    ensures DigitsValue(Decimal.Text(n)) == Some(n)
    ensures forall i :: 0 <= i < |Decimal.Text(n)| ==> IsDigit(Decimal.Text(n)[i])
    ensures Decimal.Text(n) != []
  {
    var s := Decimal.Text(n);
    if n < 10 {
      assert s == [(48 + n) as char] && s[..0] == [];
    } else {
      TextReads(n / 10);
      assert s == Decimal.Text(n / 10) + [(48 + n % 10) as char];
      assert s[..|s| - 1] == Decimal.Text(n / 10);
    }
  }

  lemma {:induction false} OnlyDigitsRead(s: string)
    ensures DigitsValue(s).Some? <==> forall i :: 0 <= i < |s| ==> IsDigit(s[i])
  {
    if s == [] {
    } else {
      OnlyDigitsRead(s[..|s| - 1]);
      assert s == s[..|s| - 1] + [s[|s| - 1]];
    }
  }

  /** A code as it is written. */
  function CodeText(n: int): string {
    if n < 0 then "-" + Decimal.Text(-n) else Decimal.Text(n)
  }

  predicate IsI32(n: int) { -0x8000_0000 <= n <= 0x7FFF_FFFF }

  /** A number reads as itself, with or without a plus sign, exactly when it fits in 32 bits. */
  lemma NumberReads(n: int)
    ensures ParseI32(CodeText(n)) == if IsI32(n) then Some(n) else None
    ensures n >= 0 ==> ParseI32("+" + CodeText(n)) == if IsI32(n) then Some(n) else None
  {
    var digits := Decimal.Text(if n < 0 then -n else n);
    TextReads(if n < 0 then -n else n);
    assert digits[0] != '-' && digits[0] != '+' by {
      assert IsDigit(digits[0]);
    }
    assert ("+" + digits)[1..] == digits && ("-" + digits)[1..] == digits;
  }

  /** Nothing else reads as a number: a sign at most, then digits only, and at least one. */
  lemma OnlyNumbersRead(s: string)
    requires ParseI32(s).Some?
    ensures var digits := if s != [] && (s[0] == '-' || s[0] == '+') then s[1..] else s;
      digits != [] && forall i :: 0 <= i < |digits| ==> IsDigit(digits[i])
  {
    OnlyDigitsRead(if s != [] && (s[0] == '-' || s[0] == '+') then s[1..] else s);
  }

  // ----------------------------------------------------------------------------- sequences

  /** The parameters of a sequence. */
  function Params(codes: seq<int>): string {
    if codes == [] then ""
    else if |codes| == 1 then CodeText(codes[0])
    else CodeText(codes[0]) + ";" + Params(codes[1..])
  }

  function Sequence(codes: seq<int>): string {
    [ESC] + "[" + Params(codes) + "m"
  }

  function AsItems(codes: seq<int>): seq<Item> {
    seq(|codes|, i requires 0 <= i < |codes| => Code(codes[i]))
  }

  lemma CodeTextPlain(n: int)
    ensures ';' !in CodeText(n) && 'm' !in CodeText(n)
  {
    TextReads(if n < 0 then -n else n);
  }

  lemma {:induction false} ParamsPlain(codes: seq<int>)
    ensures 'm' !in Params(codes)
  {
    if codes == [] {
    } else {
      CodeTextPlain(codes[0]);
      ParamsPlain(codes[1..]);
    }
  }

  lemma SplitFirst(a: string, b: string)
    requires ';' !in a
    ensures Split(a + ";" + b, ';') == [a] + Split(b, ';')
    ensures Split(a, ';') == [a]
  {
    var s := a + ";" + b;
    IndexOfSplit(a, ';', b);
    assert s[..|a|] == a && s[|a| + 1..] == b;
    assert IndexOf(a, ';') == |a|;
  }

  lemma CodesFirst(n: int, parts: seq<string>)
    requires IsI32(n)
    ensures Codes([CodeText(n)] + parts) == [Code(n)] + Codes(parts)
  {
    NumberReads(n);
    assert ([CodeText(n)] + parts)[1..] == parts;
  }

  lemma {:induction false} FirstParamReads(n: int, rest: string)
    requires IsI32(n)
    ensures Codes(Split(CodeText(n) + ";" + rest, ';')) == [Code(n)] + Codes(Split(rest, ';'))
    ensures Codes(Split(CodeText(n), ';')) == [Code(n)]
  {
    CodeTextPlain(n);
    SplitFirst(CodeText(n), rest);
    CodesFirst(n, Split(rest, ';'));
    CodesFirst(n, []);
    assert [CodeText(n)] + [] == [CodeText(n)] && [Code(n)] + [] == [Code(n)];
  }

  lemma {:induction false} ParamsRead(codes: seq<int>)
    requires forall i :: 0 <= i < |codes| ==> IsI32(codes[i])
    ensures Codes(Split(Params(codes), ';')) == AsItems(codes)
  {
    if codes == [] {
      assert Split("", ';') == [""] && [""][1..] == [];
    } else {
      FirstParamReads(codes[0], Params(codes[1..]));
      assert AsItems(codes) == [Code(codes[0])] + AsItems(codes[1..]);
      if |codes| > 1 {
        ParamsRead(codes[1..]);
      }
    }
  }

  /** A sequence of any codes, whatever follows it, reads as those codes. */
  lemma {:induction false} SequenceReads(codes: seq<int>, rest: string)
    requires forall i :: 0 <= i < |codes| ==> IsI32(codes[i])
    ensures Items(Sequence(codes) + rest) == AsItems(codes) + Items(rest)
  {
    var (params, s) := (Params(codes), Sequence(codes) + rest);
    ParamsPlain(codes);
    ParamsRead(codes);
    IndexOfSplit(params, 'm', rest);
    assert s[2..] == params + ['m'] + rest;
    assert s[2..2 + |params|] == params;
    assert Drop(s, |params| + 3) == rest;
  }

  // ---------------------------------------------------------------------------------- text

  const BASIC: string := "\U{26AB}\U{1F534}\U{1F7E2}\U{1F7E1}\U{1F535}\U{1F7E3}\U{1FA75}\U{26AA}"

  /** The bright markers; that of 91 is followed by a variation selector. */
  const BRIGHT: string := "\U{2B1B}\U{2764}\U{1F49A}\U{1F49B}\U{1F499}\U{1F49C}\U{1FA75}\U{1F90D}"

  /** The sixteen foreground colours. */
  predicate IsForeground(n: int) { n in [30, 31, 32, 33, 34, 35, 36, 37, 90, 91, 92, 93, 94, 95, 96, 97] }

  function Marker(n: int): string
    requires IsForeground(n)
  {
    if n < 40 then [BASIC[n - 30]] + " "
    else [BRIGHT[n - 90]] + (if n == 91 then "\U{FE0F} " else " ")
  }

  lemma MarkerIsColourText(n: int)
    requires IsForeground(n)
    ensures IsColour(n) && ColourText(n) == Marker(n)
  {
  }

  lemma {:induction false} SequenceShows(n: int, rest: string)
    requires IsI32(n)
    ensures Converted(Sequence([n]) + rest) ==
            Spell(Emit(Code(n), 0)) + Spell(Render(Items(rest), NextDepth(Code(n), 0)))
  {
    SequenceReads([n], rest);
    assert AsItems([n]) == [Code(n)];
    RenderCons(Code(n), Items(rest), 0);
    SpellConcat(Emit(Code(n), 0), Render(Items(rest), NextDepth(Code(n), 0)));
  }

  /** A colour sequence puts the marker of its colour before the text that follows. */
  lemma {:induction false} ColourMarksText(n: int, text: string)
    requires IsForeground(n) && ESC !in text
    ensures Converted(Sequence([n]) + text) == Marker(n) + text
  {
    SequenceShows(n, text);
    MarkerIsColourText(n);
    SpellOne(Colour(n));
    PlainTextUnchanged(text);
  }

  /** Codes that are neither a colour nor bold show nothing; outside bold text, neither does a reset. */
  lemma {:induction false} OtherCodesShowNothing(n: int, text: string)
    requires IsI32(n) && !IsForeground(n) && n != 1 && ESC !in text
    ensures Converted(Sequence([n]) + text) == text
  {
    ShowsNothing(n);
    SequenceShows(n, text);
    PlainTextUnchanged(text);
    assert "" + text == text;
  }

  lemma ShowsNothing(n: int)
    requires !IsForeground(n) && n != 1
    ensures Spell(Emit(Code(n), 0)) == "" && NextDepth(Code(n), 0) == 0
  {
    assert !IsColour(n);
    assert Closes(0) == [];
  }

  /** Two colours look alike only if they are the same, or cyan and bright cyan. */
  lemma {:induction false} SameMarkerIff(m: int, n: int)
    requires IsForeground(m) && IsForeground(n)
    ensures ColourText(m) == ColourText(n) <==> m == n || (m == 36 && n == 96) || (m == 96 && n == 36)
  {
    MarkerIsColourText(m);
    MarkerIsColourText(n);
    assert ColourText(m)[0] == if m < 40 then BASIC[m - 30] else BRIGHT[m - 90];
    assert ColourText(n)[0] == if n < 40 then BASIC[n - 30] else BRIGHT[n - 90];
  }

  /** A bold sequence encloses the text that follows in one pair of tags. */
  lemma BoldEnclosesText(text: string)
    requires ESC !in text
    ensures Converted(Sequence([1]) + text) == "<b>" + text + "</b>"
  {
    SequenceShows(1, text);
    SpellOne(BoldOpen);
    PlainTextInside(text, 1);
    assert Closes(1) == [BoldClose];
    SpellOne(BoldClose);
  }

  /** A sequence that is not terminated takes the rest of the input with it. */
  lemma {:induction false} UnterminatedSwallows(params: string)
    requires 'm' !in params
    ensures Items([ESC] + "[" + params) == Codes(Split(params, ';'))
    ensures Stripped([ESC] + "[" + params) == ""
  {
    var s := [ESC] + "[" + params;
    assert s[2..] == params && s[2..2 + |params|] == params;
    assert IndexOf(s[2..], 'm') == |params|;
    assert Codes(Split(params, ';')) + [] == Codes(Split(params, ';'));
  }
}
