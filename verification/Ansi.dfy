/**
 ANSI escape sequences to Telegram markup, and stripping them.

 The converter is proved equal to rendering an independent reading of the input (literals
 and numeric codes), and that rendering to be well nested, to show at every point exactly
 the bold level and colours the codes ask for, and to carry exactly the text that the
 stripper leaves.
 */
module Ansi {
  import opened Characters
  import opened TextLines
  import opened Wrappers

  const ESC: char := '\U{1B}'

  /** Output of the converter, before it is spelled out: input characters and markup kept apart. */
  datatype Token = Literal(c: char) | BoldOpen | BoldClose | Colour(code: int)

  /** The input as a terminal reads it. */
  datatype Item = Lit(c: char) | Code(n: int)

  // --------------------------------------------------------------------------- reading input

  function DigitsValue(s: string): Option<nat> {
    if s == [] then Some(0)
    else if !IsDigit(s[|s| - 1]) then None
    else match DigitsValue(s[..|s| - 1])
      case None => None
      case Some(v) => Some(10 * v + (s[|s| - 1] as int - '0' as int))
  }

  /** `str::parse::<i32>`: an optional sign, at least one digit, and a value in range. */
  function ParseI32(s: string): Option<int> {
    var negative := s != [] && s[0] == '-';
    var digits := if s != [] && (s[0] == '-' || s[0] == '+') then s[1..] else s;
    if digits == [] then None
    else match DigitsValue(digits)
      case None => None
      case Some(v) =>
        var x: int := if negative then -(v as int) else v;
        if -0x8000_0000 <= x < 0x8000_0000 then Some(x) else None
  }

  function Split(s: string, separator: char): seq<string>
    decreases |s|
  {
    var k := IndexOf(s, separator);
    if k == |s| then [s] else [s[..k]] + Split(s[k + 1..], separator)
  }

  /** The parameters that parse, in order. */
  function Codes(parts: seq<string>): seq<Item> {
    if parts == [] then []
    else
      (match ParseI32(parts[0]) case None => [] case Some(n) => [Code(n)]) + Codes(parts[1..])
  }

  function Drop(s: string, n: nat): string {
    if n >= |s| then [] else s[n..]
  }

  predicate StartsSequence(s: string) {
    |s| > 1 && s[0] == ESC && s[1] == '['
  }

  /** A sequence runs to its 'm', or to the end of the input. */
  function Items(s: string): seq<Item>
    decreases |s|
  {
    if s == [] then []
    else if StartsSequence(s) then
      var k := IndexOf(s[2..], 'm');
      Codes(Split(s[2..2 + k], ';')) + Items(Drop(s, k + 3))
    else [Lit(s[0])] + Items(s[1..])
  }

  // ------------------------------------------------------------------------------- rendering

  predicate IsColour(n: int) { 30 <= n <= 37 || 90 <= n <= 97 }

  function Closes(depth: nat): (r: seq<Token>)
    ensures |r| == depth
  {
    seq(depth, _ => BoldClose)
  }

  /** What one item adds to the output inside `depth` open tags. */
  function Emit(item: Item, depth: nat): seq<Token> {
    match item
    case Lit(c) => [Literal(c)]
    case Code(n) =>
      if n == 0 then Closes(depth)
      else if n == 1 then [BoldOpen]
      else if IsColour(n) then [Colour(n)]
      else []
  }

  function NextDepth(item: Item, depth: nat): nat {
    if item == Code(0) then 0 else if item == Code(1) then depth + 1 else depth
  }

  /** The output for `items` inside `depth` open tags, closing what is open at the end. */
  function Render(items: seq<Item>, depth: nat): seq<Token> {
    if items == [] then Closes(depth)
    else Emit(items[0], depth) + Render(items[1..], NextDepth(items[0], depth))
  }

  /** The markers of the sixteen colours, each followed by a space. */
  function ColourText(n: int): string {
    match n
    case 30 => "\U{26AB} "
    case 31 => "\U{1F534} "
    case 32 => "\U{1F7E2} "
    case 33 => "\U{1F7E1} "
    case 34 => "\U{1F535} "
    case 35 => "\U{1F7E3} "
    case 36 => "\U{1FA75} "
    case 37 => "\U{26AA} "
    case 90 => "\U{2B1B} "
    case 91 => "\U{2764}\U{FE0F} "
    case 92 => "\U{1F49A} "
    case 93 => "\U{1F49B} "
    case 94 => "\U{1F499} "
    case 95 => "\U{1F49C} "
    case 96 => "\U{1FA75} "
    case 97 => "\U{1F90D} "
    case _ => ""
  }

  /** The output string. */
  function Spell(tokens: seq<Token>): string {
    if tokens == [] then ""
    else
      (match tokens[0]
       case Literal(c) => [c]
       case BoldOpen => "<b>"
       case BoldClose => "</b>"
       case Colour(n) => ColourText(n)) + Spell(tokens[1..])
  }

  // -------------------------------------------------------------------------------- the loops

  lemma RenderCons(item: Item, rest: seq<Item>, depth: nat)
    ensures Render([item] + rest, depth) == Emit(item, depth) + Render(rest, NextDepth(item, depth))
  {
    assert ([item] + rest)[1..] == rest;
  }

  lemma {:induction false} SpellConcat(a: seq<Token>, b: seq<Token>)
    ensures Spell(a + b) == Spell(a) + Spell(b)
  {
    if a == [] {
      assert a + b == b;
    } else {
      assert (a + b)[1..] == a[1..] + b;
      SpellConcat(a[1..], b);
    }
  }

  /** With `todo` still to come inside `depth` open tags, `output` is on its way to `goal`. */
  ghost predicate OnCourse(output: string, depth: nat, todo: seq<Item>, goal: string) {
    output + Spell(Render(todo, depth)) == goal
  }

  lemma EmitKeepsCourse(output: string, depth: nat, item: Item, rest: seq<Item>, goal: string)
    requires OnCourse(output, depth, [item] + rest, goal)
    ensures OnCourse(output + Spell(Emit(item, depth)), NextDepth(item, depth), rest, goal)
  {
    RenderCons(item, rest, depth);
    var (now, later) := (Emit(item, depth), Render(rest, NextDepth(item, depth)));
    SpellConcat(now, later);
    assert output + Spell(now) + Spell(later) == output + (Spell(now) + Spell(later));
  }

  lemma SpellOne(t: Token)
    ensures Spell([t]) == match t
            case Literal(c) => [c]
            case BoldOpen => "<b>"
            case BoldClose => "</b>"
            case Colour(n) => ColourText(n)
  {
    assert [t][1..] == [];
  }

  lemma {:induction false} CodeKeepsCourse(output: string, depth: nat, n: int, rest: seq<Item>, goal: string)
    requires OnCourse(output, depth, [Code(n)] + rest, goal)
    ensures n == 0 ==> OnCourse(output + Spell(Closes(depth)), 0, rest, goal)
    ensures n == 1 ==> OnCourse(output + "<b>", depth + 1, rest, goal)
    ensures IsColour(n) ==> OnCourse(output + ColourText(n), depth, rest, goal)
    ensures n != 0 && n != 1 && !IsColour(n) ==> OnCourse(output, depth, rest, goal)
  {
    EmitKeepsCourse(output, depth, Code(n), rest, goal);
    SpellOne(BoldOpen);
    SpellOne(Colour(n));
    assert output + "" == output;
  }

  /** The loop that closes every open tag. */
  method CloseTags(output: string, depth: nat) returns (output': string)
    ensures output' == output + Spell(Closes(depth))
  {
    output' := output;
    for k := 0 to depth
      invariant output' == output + Spell(Closes(k))
    {
      assert Closes(k + 1) == Closes(k) + [BoldClose];
      SpellConcat(Closes(k), [BoldClose]);
      SpellOne(BoldClose);
      output' := output' + "</b>";
    }
  }

  /** The position after a sequence whose parameters begin at `start`. */
  function AfterParams(input: string, start: nat): (next: nat)
    requires start <= |input|
    ensures start <= next <= |input|
  {
    var k := start + IndexOf(input[start..], 'm');
    if k < |input| then k + 1 else k
  }

  function ParamsAt(input: string, start: nat): string
    requires start <= |input|
  {
    input[start..start + IndexOf(input[start..], 'm')]
  }

  predicate SequenceAt(input: string, i: nat)
    requires i < |input|
  {
    input[i] == ESC && i + 1 < |input| && input[i + 1] == '['
  }

  lemma {:induction false} AtSequence(input: string, i: nat)
    requires i < |input| && SequenceAt(input, i)
    ensures Items(input[i..]) == Codes(Split(ParamsAt(input, i + 2), ';')) + Items(input[AfterParams(input, i + 2)..])
    ensures Stripped(input[i..]) == Stripped(input[AfterParams(input, i + 2)..])
  {
    var s := input[i..];
    var k := IndexOf(input[i + 2..], 'm');
    assert s[2..] == input[i + 2..] && s[2..2 + k] == input[i + 2..i + 2 + k];
    assert Drop(s, k + 3) == input[AfterParams(input, i + 2)..];
  }

  lemma AtLiteral(input: string, i: nat)
    requires i < |input| && !SequenceAt(input, i)
    ensures Items(input[i..]) == [Lit(input[i])] + Items(input[i + 1..])
    ensures Stripped(input[i..]) == [input[i]] + Stripped(input[i + 1..])
  {
    assert input[i..][1..] == input[i + 1..];
  }

  /** The converter has read `input[..i]`. */
  ghost predicate ReadUpTo(input: string, i: nat, output: string, depth: nat) {
    i <= |input| && OnCourse(output, depth, Items(input[i..]), Spell(Render(Items(input), 0)))
  }

  lemma ReadLiteral(input: string, i: nat, output: string, depth: nat)
    requires i < |input| && !SequenceAt(input, i) && ReadUpTo(input, i, output, depth)
    ensures ReadUpTo(input, i + 1, output + [input[i]], depth)
  {
    AtLiteral(input, i);
    EmitKeepsCourse(output, depth, Lit(input[i]), Items(input[i + 1..]), Spell(Render(Items(input), 0)));
    SpellOne(Literal(input[i]));
  }

  lemma ReadAll(input: string, output: string, depth: nat)
    requires ReadUpTo(input, |input|, output, depth)
    ensures output + Spell(Closes(depth)) == Spell(Render(Items(input), 0))
  {
    assert input[|input|..] == [];
  }

  lemma ReadNothing(input: string)
    ensures ReadUpTo(input, 0, "", 0)
  {
    assert input[0..] == input;
  }

  method AnsiToTelegram(input: string) returns (output: string)
    ensures output == Spell(Render(Items(input), 0))
  {
    output := "";
    var boldDepth: nat := 0;
    var i: nat := 0;
    ReadNothing(input);
    while i < |input|
      invariant i <= |input| && ReadUpTo(input, i, output, boldDepth)
    {
      if input[i] == ESC && i + 1 < |input| && input[i + 1] == '[' {
        output, boldDepth, i := ConvertSequence(input, i, output, boldDepth);
      } else {
        ReadLiteral(input, i, output, boldDepth);
        output := output + [input[i]];
        i := i + 1;
      }
    }
    ReadAll(input, output, boldDepth);
    output := CloseTags(output, boldDepth);
  }

  /** One escape sequence: read its parameters, then apply them. */
  method ConvertSequence(input: string, i: nat, output: string, boldDepth: nat)
    returns (output': string, boldDepth': nat, next: nat)
    requires i < |input| && SequenceAt(input, i) && ReadUpTo(input, i, output, boldDepth)
    ensures i < next <= |input| && ReadUpTo(input, next, output', boldDepth')
  {
    AtSequence(input, i);
    var params;
    params, next := ReadParams(input, i + 2);
    output', boldDepth' :=
      ApplyParams(Split(params, ';'), output, boldDepth, Items(input[next..]), Spell(Render(Items(input), 0)));
  }

  /** The inner scan: everything up to the next 'm', and the position after it. */
  method ReadParams(input: string, start: nat) returns (params: string, next: nat)
    requires start <= |input|
    ensures params == ParamsAt(input, start)
    ensures next == AfterParams(input, start)
  {
    var i := start;
    params := "";
    while i < |input| && input[i] != 'm'
      invariant start <= i <= |input|
      invariant params == input[start..i]
      invariant IndexOf(input[start..], 'm') >= i - start
    {
      params := params + [input[i]];
      i := i + 1;
    }
    next := if i < |input| then i + 1 else i;
  }

  /** The parameter loop; `after` is whatever the rest of the input reads as. */
  method ApplyParams(parts: seq<string>, output: string, boldDepth: nat, ghost after: seq<Item>, ghost goal: string)
    returns (output': string, boldDepth': nat)
    requires OnCourse(output, boldDepth, Codes(parts) + after, goal)
    ensures OnCourse(output', boldDepth', after, goal)
  {
    output', boldDepth' := output, boldDepth;
    assert parts[0..] == parts;
    for k := 0 to |parts|
      invariant OnCourse(output', boldDepth', Codes(parts[k..]) + after, goal)
    {
      var code := ParseI32(parts[k]);
      CodesStep(parts, k, after);
      if code.Some? {
        var n := code.value;
        CodeKeepsCourse(output', boldDepth', n, Codes(parts[k + 1..]) + after, goal);
        if n == 0 {
          output' := CloseTags(output', boldDepth');
          boldDepth' := 0;
        } else if n == 1 {
          output' := output' + "<b>";
          boldDepth' := boldDepth' + 1;
        } else if IsColour(n) {
          output' := output' + ColourText(n);
        }
      }
    }
    assert Codes(parts[|parts|..]) + after == after;
  }

  lemma CodesStep(parts: seq<string>, k: nat, after: seq<Item>)
    requires k < |parts|
    ensures Codes(parts[k..]) + after ==
            match ParseI32(parts[k])
            case None => Codes(parts[k + 1..]) + after
            case Some(n) => [Code(n)] + (Codes(parts[k + 1..]) + after)
  {
    assert parts[k..][1..] == parts[k + 1..];
  }

  /** What is left of the input without its sequences. */
  function Stripped(s: string): string
    decreases |s|
  {
    if s == [] then []
    else if StartsSequence(s) then Stripped(Drop(s, IndexOf(s[2..], 'm') + 3))
    else [s[0]] + Stripped(s[1..])
  }

  /** The stripper has read `input[..i]`. */
  ghost predicate StrippedUpTo(input: string, i: nat, output: string) {
    i <= |input| && output + Stripped(input[i..]) == Stripped(input)
  }

  lemma {:induction false} StripStep(input: string, i: nat, output: string)
    requires i < |input| && StrippedUpTo(input, i, output)
    ensures SequenceAt(input, i) ==> StrippedUpTo(input, AfterParams(input, i + 2), output)
    ensures !SequenceAt(input, i) ==> StrippedUpTo(input, i + 1, output + [input[i]])
  {
    if SequenceAt(input, i) {
      AtSequence(input, i);
    } else {
      AtLiteral(input, i);
      var rest := Stripped(input[i + 1..]);
      assert output + ([input[i]] + rest) == output + [input[i]] + rest;
    }
  }

  method StripAnsi(input: string) returns (output: string)
    ensures output == Stripped(input)
  {
    output := "";
    var i: nat := 0;
    assert input[0..] == input;
    while i < |input|
      invariant i <= |input| && StrippedUpTo(input, i, output)
    {
      StripStep(input, i, output);
      if input[i] == ESC && i + 1 < |input| && input[i + 1] == '[' {
        i := SkipParams(input, i + 2);
      } else {
        output := output + [input[i]];
        i := i + 1;
      }
    }
    assert input[i..] == [] && output + [] == output;
  }

  method SkipParams(input: string, start: nat) returns (i: nat)
    requires start <= |input|
    ensures i == AfterParams(input, start)
  {
    i := start;
    while i < |input| && input[i] != 'm'
      invariant start <= i <= |input|
      invariant IndexOf(input[start..], 'm') >= i - start
    {
      i := i + 1;
    }
    if i < |input| {
      i := i + 1;
    }
  }

  // --------------------------------------------------------------------------- same text

  /** The input characters of the output, markup erased. */
  function Erase(tokens: seq<Token>): string {
    if tokens == [] then ""
    else (if tokens[0].Literal? then [tokens[0].c] else "") + Erase(tokens[1..])
  }

  function Literals(items: seq<Item>): string {
    if items == [] then ""
    else (if items[0].Lit? then [items[0].c] else "") + Literals(items[1..])
  }

  lemma {:induction false} EraseConcat(a: seq<Token>, b: seq<Token>)
    ensures Erase(a + b) == Erase(a) + Erase(b)
  {
    if a == [] {
      assert a + b == b;
    } else {
      assert (a + b)[0] == a[0] && (a + b)[1..] == a[1..] + b;
      EraseConcat(a[1..], b);
      var first := if a[0].Literal? then [a[0].c] else "";
      assert first + (Erase(a[1..]) + Erase(b)) == first + Erase(a[1..]) + Erase(b);
    }
  }

  lemma {:induction false} EraseCloses(depth: nat)
    ensures Erase(Closes(depth)) == ""
  {
    if depth == 0 {
    } else {
      assert Closes(depth)[1..] == Closes(depth - 1);
      EraseCloses(depth - 1);
    }
  }

  lemma {:induction false} RenderKeepsLiterals(items: seq<Item>, depth: nat)
    ensures Erase(Render(items, depth)) == Literals(items)
    decreases items
  {
    EraseCloses(depth);
    if items == [] {
    } else {
      var next := NextDepth(items[0], depth);
      RenderKeepsLiterals(items[1..], next);
      EraseConcat(Emit(items[0], depth), Render(items[1..], next));
    }
  }

  lemma {:induction false} CodesAreNoText(parts: seq<string>, after: seq<Item>)
    ensures Literals(Codes(parts) + after) == Literals(after)
  {
    if parts == [] {
      assert Codes(parts) + after == after;
    } else {
      CodesAreNoText(parts[1..], after);
      var todo := Codes(parts[1..]) + after;
      match ParseI32(parts[0])
      case None => assert Codes(parts) + after == todo;
      case Some(n) => assert Codes(parts) + after == [Code(n)] + todo;
    }
  }

  lemma {:induction false} StrippedIsLiterals(s: string)
    ensures Literals(Items(s)) == Stripped(s)
    decreases |s|
  {
    if s == [] {
    } else {
      if StartsSequence(s) {
        var k := IndexOf(s[2..], 'm');
        CodesAreNoText(Split(s[2..2 + k], ';'), Items(Drop(s, k + 3)));
        StrippedIsLiterals(Drop(s, k + 3));
      } else {
        StrippedIsLiterals(s[1..]);
        assert ([Lit(s[0])] + Items(s[1..]))[1..] == Items(s[1..]);
      }
    }
  }

  /** On every input, erasing the markup of the conversion gives what the stripper gives. */
  lemma {:induction false} ErasureIsStripping(input: string)
    ensures Erase(Render(Items(input), 0)) == Stripped(input)
  {
    RenderKeepsLiterals(Items(input), 0);
    StrippedIsLiterals(input);
  }

  // ------------------------------------------------------------------------ nesting and level

  function Count(tokens: seq<Token>, t: Token): nat {
    if tokens == [] then 0 else (if tokens[0] == t then 1 else 0) + Count(tokens[1..], t)
  }

  /** Starting inside `depth` open tags, no close lacks its open and all are closed at the end. */
  ghost predicate Nested(tokens: seq<Token>, depth: nat) {
    if tokens == [] then depth == 0
    else match tokens[0]
      case BoldOpen => Nested(tokens[1..], depth + 1)
      case BoldClose => depth > 0 && Nested(tokens[1..], depth - 1)
      case _ => Nested(tokens[1..], depth)
  }

  lemma {:induction false} NestedAfterCloses(k: nat, depth: nat, rest: seq<Token>)
    requires Nested(rest, depth)
    ensures Nested(Closes(k) + rest, depth + k)
  {
    if k == 0 {
      assert Closes(0) + rest == rest;
    } else {
      assert (Closes(k) + rest)[1..] == Closes(k - 1) + rest;
      NestedAfterCloses(k - 1, depth, rest);
    }
  }

  lemma {:induction false} RenderNested(items: seq<Item>, depth: nat)
    ensures Nested(Render(items, depth), depth)
    decreases items
  {
    if items == [] {
      NestedAfterCloses(depth, 0, []);
      assert Closes(depth) + [] == Closes(depth);
    } else {
      var item := items[0];
      var rest := Render(items[1..], NextDepth(item, depth));
      RenderNested(items[1..], NextDepth(item, depth));
      if item == Code(0) {
        NestedAfterCloses(depth, 0, rest);
      } else if Emit(item, depth) == [] {
        assert Emit(item, depth) + rest == rest;
      } else {
        assert (Emit(item, depth) + rest)[1..] == rest;
      }
    }
  }

  lemma {:induction false} NestedCounts(tokens: seq<Token>, depth: nat, k: nat)
    requires Nested(tokens, depth) && k <= |tokens|
    ensures Count(tokens[..k], BoldClose) <= depth + Count(tokens[..k], BoldOpen)
    ensures k == |tokens| ==> Count(tokens[..k], BoldClose) == depth + Count(tokens[..k], BoldOpen)
    decreases k
  {
    if k == 0 {
    } else {
      assert tokens[..k][1..] == tokens[1..][..k - 1];
      var depth' := match tokens[0] case BoldOpen => depth + 1 case BoldClose => depth - 1 case _ => depth;
      NestedCounts(tokens[1..], depth', k - 1);
    }
  }

  /** On every input the bold tags are properly nested: never more closes than opens, and equally many at the end. */
  lemma {:induction false} TagsBalance(input: string, k: nat)
    requires k <= |Render(Items(input), 0)|
    ensures var tokens := Render(Items(input), 0);
      && Count(tokens[..k], BoldClose) <= Count(tokens[..k], BoldOpen)
      && Count(tokens, BoldClose) == Count(tokens, BoldOpen)
  {
    var tokens := Render(Items(input), 0);
    RenderNested(Items(input), 0);
    NestedCounts(tokens, 0, k);
    NestedCounts(tokens, 0, |tokens|);
    assert tokens[..|tokens|] == tokens;
  }

  /** The bold level the codes ask for: opens since the last reset. */
  function BoldLevel(items: seq<Item>): nat {
    if items == [] then 0
    else match items[|items| - 1]
      case Lit(_) => BoldLevel(items[..|items| - 1])
      case Code(n) =>
        if n == 0 then 0
        else if n == 1 then BoldLevel(items[..|items| - 1]) + 1
        else BoldLevel(items[..|items| - 1])
  }

  /** The tokens a run of items has produced, without the closing of what is still open. */
  function Shown(items: seq<Item>): seq<Token> {
    if items == [] then []
    else Shown(items[..|items| - 1]) + Emit(items[|items| - 1], BoldLevel(items[..|items| - 1]))
  }

  /** `shown`, followed by what `todo` renders to inside `depth` open tags, is `whole`. */
  ghost predicate Completes(shown: seq<Token>, depth: nat, todo: seq<Item>, whole: seq<Token>) {
    shown + Render(todo, depth) == whole
  }

  lemma EmitCompletes(shown: seq<Token>, depth: nat, item: Item, rest: seq<Item>, whole: seq<Token>)
    requires Completes(shown, depth, [item] + rest, whole)
    ensures Completes(shown + Emit(item, depth), NextDepth(item, depth), rest, whole)
  {
    RenderCons(item, rest, depth);
    var tail := Render(rest, NextDepth(item, depth));
    assert shown + (Emit(item, depth) + tail) == shown + Emit(item, depth) + tail;
  }

  /** Rendering splits at any point: what is shown so far, then the rest at the bold level reached. */
  lemma {:induction false} RenderSplits(items: seq<Item>, k: nat)
    requires k <= |items|
    ensures Completes(Shown(items[..k]), BoldLevel(items[..k]), items[k..], Render(items, 0))
    decreases k
  {
    if k == 0 {
      assert items[0..] == items;
    } else {
      RenderSplits(items, k - 1);
      assert items[..k][..k - 1] == items[..k - 1];
      assert items[k - 1..] == [items[k - 1]] + items[k..];
      EmitCompletes(Shown(items[..k - 1]), BoldLevel(items[..k - 1]), items[k - 1], items[k..], Render(items, 0));
    }
  }

  lemma {:induction false} CountConcat(a: seq<Token>, b: seq<Token>, t: Token)
    ensures Count(a + b, t) == Count(a, t) + Count(b, t)
  {
    if a == [] {
      assert a + b == b;
    } else {
      assert (a + b)[1..] == a[1..] + b;
      CountConcat(a[1..], b, t);
    }
  }

  lemma {:induction false} CountCloses(k: nat, t: Token)
    ensures Count(Closes(k), t) == if t == BoldClose then k else 0
  {
    if k == 0 {
    } else {
      assert Closes(k)[1..] == Closes(k - 1);
      CountCloses(k - 1, t);
    }
  }

  /** Wherever the output stands, the tags open at that point are exactly the bold level asked for. */
  lemma {:induction false} OpenTagsAreBoldLevel(items: seq<Item>)
    ensures Count(Shown(items), BoldOpen) == Count(Shown(items), BoldClose) + BoldLevel(items)
  {
    if items == [] {
    } else {
      var front := items[..|items| - 1];
      var added := Emit(items[|items| - 1], BoldLevel(front));
      OpenTagsAreBoldLevel(front);
      CountConcat(Shown(front), added, BoldOpen);
      CountConcat(Shown(front), added, BoldClose);
      CountCloses(BoldLevel(front), BoldOpen);
      CountCloses(BoldLevel(front), BoldClose);
    }
  }
}
