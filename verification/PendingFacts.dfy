/**
 The pending-facts file: three writers and one reader.

 Main results: whatever newline-free facts are written, by whichever writer, reading
 returns exactly the first nine of them, each without one trailing carriage return
 (`ReadAfterWrite`); so a list survives exactly when it has at most nine facts and every
 text is a clean line (`SurvivesIffNineCleanLines`); and accepting a fact of any readable
 file sets its flag and leaves the other kept facts alone but for a trailing carriage return
 (`AcceptThenRead`), so nothing else changes exactly when no kept text ends in one
 (`AcceptChangesOnlyFlagIff`). Applying adds exactly the checked facts, in order
 (`AcceptedAreChecked`, `AppliedLines`, `AcceptAllThenApply`).
 */
module PendingFacts {
  import opened Characters
  import Decimal
  import opened Sequences
  import opened TextLines
  import opened Wrappers

  datatype Fact = Fact(text: string, accepted: bool)

  const NL: char := '\n'
  const CR: char := '\r'

  // ---------------------------------------------------------------------------------- reading

  predicate StartsWith(s: string, prefix: string) {
    |s| >= |prefix| && s[..|prefix|] == prefix
  }

  const UNCHECKED: string := ". [ ] "
  const CHECKED: string := ". [x] "

  /** One leading digit, then an unchecked or a checked box, then the text. */
  function ParseLine(line: string): seq<Fact> {
    if line == [] || !IsDigit(line[0]) then []
    else
      var s := line[1..];
      if StartsWith(s, UNCHECKED) then [Fact(s[6..], false)]
      else if StartsWith(s, CHECKED) then [Fact(s[6..], true)]
      else []
  }

  function ParseLines(lines: seq<string>): seq<Fact> {
    if lines == [] then [] else ParseLine(lines[0]) + ParseLines(lines[1..])
  }

  function Parse(content: string): seq<Fact> {
    ParseLines(Lines(content, NL, CR))
  }

  /** A missing file holds no facts. */
  function Pending(file: Option<string>): seq<Fact> {
    match file
    case None => []
    case Some(content) => Parse(content)
  }

  /** A line holds a fact if and only if it is one digit, a box and the text. */
  lemma FactIff(line: string, fact: Fact)
    ensures ParseLine(line) == [fact] <==>
            line != [] && IsDigit(line[0]) && line[1..] == (if fact.accepted then ". [x] " else ". [ ] ") + fact.text
    ensures |ParseLine(line)| <= 1
  {
    if line != [] && IsDigit(line[0]) {
      var s := line[1..];
      var box := if fact.accepted then ". [x] " else ". [ ] ";
      assert s == box + fact.text ==> s[..6] == box && s[6..] == fact.text;
      assert |s| >= 6 ==> s == s[..6] + s[6..];
      assert UNCHECKED[3] == ' ' && CHECKED[3] == 'x' && box[3] == if fact.accepted then 'x' else ' ';
    }
  }

  // ---------------------------------------------------------------------------------- writing

  function Number(n: nat): (s: string)
    ensures s != [] && forall i :: 0 <= i < |s| ==> IsDigit(s[i])
    ensures |s| == 1 <==> n < 10
  {
    Decimal.Text(n)
  }

  function FactLine(number: nat, fact: Fact): string {
    Number(number) + (if fact.accepted then CHECKED else UNCHECKED) + fact.text
  }

  function Numbered(facts: seq<Fact>, number: nat): seq<string> {
    if facts == [] then [] else [FactLine(number, facts[0])] + Numbered(facts[1..], number + 1)
  }

  /** Header lines, the numbered facts, footer lines. */
  function Print(header: seq<string>, facts: seq<Fact>, footer: seq<string>): string {
    Unlines(header + Numbered(facts, 1) + footer, NL)
  }

  const TITLE: string := "# Faits en attente " + "de validation"
  const DETECTED: string := "Les faits suivants " + "ont été détectés " + "comme potentiellement " + "importants."
  const VALIDATE: string := "Valide-les avec " + "`!accept all` ou " + "individuellement."
  const GENERATED: string := "*Généré automatiquement " + "par ContinuousSummarizer*"
  const ACCEPT_HELP: string := "Valide avec `!memory " + "accept <index>` ou " + "`!memory accept all`."
  const ALL_ACCEPTED: string := "Tous les faits ci-dessous " + "ont été acceptés."
  const APPLY_HELP: string := "Exécute `!memory apply` " + "pour les intégrer " + "dans MEMORY.md."

  const SUMMARY_HEADER: seq<string> := [TITLE, "", DETECTED, VALIDATE, ""]
  const SUMMARY_FOOTER: seq<string> := ["", "---", GENERATED]
  const ACCEPT_HEADER: seq<string> := [TITLE, "", ACCEPT_HELP, ""]
  const ACCEPT_ALL_HEADER: seq<string> := [TITLE, "", ALL_ACCEPTED, APPLY_HELP, ""]

  function Accepting(facts: seq<Fact>, index: nat): seq<Fact> {
    seq(|facts|, i requires 0 <= i < |facts| => Fact(facts[i].text, i == index || facts[i].accepted))
  }

  function AcceptingAll(facts: seq<Fact>): seq<Fact> {
    seq(|facts|, i requires 0 <= i < |facts| => Fact(facts[i].text, true))
  }

  function Proposed(texts: seq<string>): seq<Fact> {
    seq(|texts|, i requires 0 <= i < |texts| => Fact(texts[i], false))
  }

  function Accepted(facts: seq<Fact>): seq<Fact> {
    if facts == [] then []
    else Accepted(facts[..|facts| - 1]) + (if facts[|facts| - 1].accepted then [facts[|facts| - 1]] else [])
  }

  function MemoryLines(facts: seq<Fact>): string {
    if facts == [] then "" else MemoryLines(facts[..|facts| - 1]) + "- [ ] " + facts[|facts| - 1].text + [NL]
  }

  lemma NumberedStep(facts: seq<Fact>, i: nat, content: string)
    requires i < |facts|
    ensures content + Unlines(Numbered(facts[i..], i + 1), NL) ==
            content + FactLine(i + 1, facts[i]) + [NL] + Unlines(Numbered(facts[i + 1..], i + 2), NL)
  {
    var (line, rest) := (FactLine(i + 1, facts[i]), Numbered(facts[i + 1..], i + 2));
    assert facts[i..][1..] == facts[i + 1..];
    assert Numbered(facts[i..], i + 1) == [line] + rest;
    assert ([line] + rest)[1..] == rest;
    assert content + (line + [NL] + Unlines(rest, NL)) == content + line + [NL] + Unlines(rest, NL);
  }

  /** The printing loop shared by the writers. */
  method PrintFile(header: seq<string>, facts: seq<Fact>, footer: seq<string>) returns (content: string)
    ensures content == Print(header, facts, footer)
  {
    content := Unlines(header, NL);
    assert facts[0..] == facts;
    for i := 0 to |facts|
      invariant content + Unlines(Numbered(facts[i..], i + 1), NL) ==
                Unlines(header, NL) + Unlines(Numbered(facts, 1), NL)
    {
      NumberedStep(facts, i, content);
      content := content + FactLine(i + 1, facts[i]) + [NL];
    }
    assert Unlines(Numbered(facts[|facts|..], |facts| + 1), NL) == "";
    UnlinesConcat(header, Numbered(facts, 1), NL);
    UnlinesConcat(header + Numbered(facts, 1), footer, NL);
    content := content + Unlines(footer, NL);
  }

  /** The loop that lists the accepted facts. */
  method PrintAccepted(accepted: seq<Fact>) returns (added: string)
    ensures added == MemoryLines(accepted)
  {
    added := "";
    for i := 0 to |accepted|
      invariant added == MemoryLines(accepted[..i])
    {
      assert accepted[..i + 1][..i] == accepted[..i];
      added := added + "- [ ] " + accepted[i].text + [NL];
    }
    assert accepted[..|accepted|] == accepted;
  }

  /** The two files of the memory workflow. */
  class MemoryFiles {
    var pending: Option<string>
    var memory: Option<string>

    constructor (pending: Option<string>, memory: Option<string>)
      ensures this.pending == pending && this.memory == memory
    {
      this.pending, this.memory := pending, memory;
    }

    method ReadPendingFacts() returns (facts: seq<Fact>)
      ensures facts == Pending(pending)
    {
      facts := [];
      if pending.Some? {
        var lines := Lines(pending.value, NL, CR);
        assert lines[0..] == lines;
        for i := 0 to |lines|
          invariant facts + ParseLines(lines[i..]) == ParseLines(lines)
        {
          assert lines[i..][1..] == lines[i + 1..];
          facts := facts + ParseLine(lines[i]);
        }
        assert lines[|lines|..] == [] && facts + [] == facts;
      }
    }

    /** The summariser's writer; with nothing to propose it leaves the file alone. */
    method WritePendingFacts(texts: seq<string>)
      modifies this`pending
      ensures pending ==
        if texts == [] then old(pending) else Some(Print(SUMMARY_HEADER, Proposed(texts), SUMMARY_FOOTER))
    {
      if texts != [] {
        var content := PrintFile(SUMMARY_HEADER, Proposed(texts), SUMMARY_FOOTER);
        pending := Some(content);
      }
    }

    method AcceptFact(index: nat) returns (accepted: bool)
      modifies this`pending
      ensures accepted <==> index < |Pending(old(pending))|
      ensures pending ==
        if accepted then Some(Print(ACCEPT_HEADER, Accepting(Pending(old(pending)), index), [])) else old(pending)
    {
      var facts := ReadPendingFacts();
      if index >= |facts| {
        return false;
      }
      var content := PrintFile(ACCEPT_HEADER, Accepting(facts, index), []);
      pending := Some(content);
      return true;
    }

    method AcceptAll() returns (count: nat)
      modifies this`pending
      ensures count == |Pending(old(pending))|
      ensures pending ==
        if count == 0 then old(pending) else Some(Print(ACCEPT_ALL_HEADER, AcceptingAll(Pending(old(pending))), []))
    {
      var facts := ReadPendingFacts();
      if facts == [] {
        return 0;
      }
      var content := PrintFile(ACCEPT_ALL_HEADER, AcceptingAll(facts), []);
      pending := Some(content);
      return |facts|;
    }

    /** Appends the accepted facts to `memory`, trimmed at its end, and empties the pending file. */
    method ApplyAccepted(today: string) returns (count: nat)
      modifies this
      ensures count == |Accepted(Pending(old(pending)))|
      ensures count == 0 ==> pending == old(pending) && memory == old(memory)
      ensures count > 0 ==>
        && Pending(pending) == []
        && memory == Some(
             TrimEnd(if old(memory).Some? then old(memory).value else "# MEMORY.md\n\n")
             + "\n\n## 🧠 Faits récents (auto-suggestions)\n\n_Ajouté le " + today + "_\n\n"
             + MemoryLines(Accepted(Pending(old(pending)))) + "\n")
    {
      var facts := ReadPendingFacts();
      var accepted := Accepted(facts);
      if accepted == [] {
        return 0;
      }
      var base := if memory.Some? then memory.value else "# MEMORY.md\n\n";
      var added := PrintAccepted(accepted);
      memory := Some(TrimEnd(base) + "\n\n## 🧠 Faits récents (auto-suggestions)\n\n_Ajouté le " + today + "_\n\n"
                     + added + "\n");
      pending := Some("");
      return |accepted|;
    }
  }

  // ------------------------------------------------------------------------- reading what was written

  /** A line that no reader takes for a fact. */
  ghost predicate Inert(line: string) {
    NL !in line && (line == [] || !IsDigit(line[0]))
  }

  ghost predicate AllInert(lines: seq<string>) {
    forall i :: 0 <= i < |lines| ==> Inert(lines[i])
  }

  lemma SummaryLinesInert()
    ensures Inert(DETECTED) && Inert(VALIDATE)
  {
    assert NL !in "Les faits suivants " && NL !in "ont été détectés ";
    assert NL !in "comme potentiellement " && NL !in "importants.";
    assert NL !in "Valide-les avec " && NL !in "`!accept all` ou " && NL !in "individuellement.";
  }

  lemma FooterInert()
    ensures Inert(GENERATED) && Inert(TITLE)
  {
    assert NL !in "*Généré automatiquement " && NL !in "par ContinuousSummarizer*";
    assert NL !in "# Faits en attente " && NL !in "de validation";
  }

  lemma AcceptHelpInert()
    ensures Inert(ACCEPT_HELP)
  {
    assert NL !in "Valide avec `!memory " && NL !in "accept <index>` ou " && NL !in "`!memory accept all`.";
  }

  lemma AcceptAllLinesInert()
    ensures Inert(ALL_ACCEPTED) && Inert(APPLY_HELP)
  {
    assert NL !in "Tous les faits ci-dessous " && NL !in "ont été acceptés.";
    assert NL !in "Exécute `!memory apply` " && NL !in "pour les intégrer " && NL !in "dans MEMORY.md.";
  }

  /** No line the writers put around the facts can be taken for a fact. */
  lemma {:induction false} HeadersInert()
    ensures AllInert(SUMMARY_HEADER) && AllInert(SUMMARY_FOOTER)
    ensures AllInert(ACCEPT_HEADER) && AllInert(ACCEPT_ALL_HEADER)
  {
    SummaryLinesInert();
    FooterInert();
    AcceptHelpInert();
    AcceptAllLinesInert();
  }

  lemma {:induction false} ParseUnlines(lines: seq<string>)
    requires forall i :: 0 <= i < |lines| ==> NL !in lines[i]
    ensures Parse(Unlines(lines, NL)) == ParseLines(Chomped(lines, CR))
  {
    LinesOfUnlines(lines, NL, CR);
  }

  lemma {:induction false} ParseLinesConcat(a: seq<string>, b: seq<string>)
    ensures ParseLines(a + b) == ParseLines(a) + ParseLines(b)
  {
    if a == [] {
      assert a + b == b;
    } else {
      assert (a + b)[1..] == a[1..] + b;
      ParseLinesConcat(a[1..], b);
    }
  }

  lemma {:induction false} InertLines(lines: seq<string>)
    requires AllInert(lines)
    ensures ParseLines(Chomped(lines, CR)) == []
  {
    if lines == [] {
    } else {
      assert Chomped(lines, CR)[1..] == Chomped(lines[1..], CR);
      assert Inert(lines[0]);
      InertLines(lines[1..]);
    }
  }

  function Trimmed(facts: seq<Fact>): seq<Fact> {
    seq(|facts|, i requires 0 <= i < |facts| => Fact(Chomp(facts[i].text, CR), facts[i].accepted))
  }

  /** The facts whose number still has one digit. */
  function OneDigit(facts: seq<Fact>, number: nat): seq<Fact> {
    if number >= 10 then [] else if |facts| <= 10 - number then facts else facts[..10 - number]
  }

  lemma ChompFactLine(number: nat, fact: Fact)
    ensures Chomp(FactLine(number, fact), CR) == FactLine(number, Fact(Chomp(fact.text, CR), fact.accepted))
  {
    var head := Number(number) + (if fact.accepted then CHECKED else UNCHECKED);
    assert FactLine(number, fact) == head + fact.text;
    assert head[|head| - 1] == ' ';
  }

  lemma ParseFactLine(number: nat, fact: Fact)
    ensures ParseLine(FactLine(number, fact)) == if number < 10 then [fact] else []
  {
    var line := FactLine(number, fact);
    var digits := Number(number);
    var box := if fact.accepted then CHECKED else UNCHECKED;
    assert line[0] == digits[0];
    if number < 10 {
      var s := line[1..];
      assert s == box + fact.text;
      assert s[..6] == box && s[6..] == fact.text;
      assert box[3] == if fact.accepted then 'x' else ' ';
      assert s[..6][3] == box[3];
    } else {
      assert line[1..][0] == digits[1];
    }
  }

  lemma {:induction false} ParseNumbered(facts: seq<Fact>, number: nat)
    ensures ParseLines(Chomped(Numbered(facts, number), CR)) == Trimmed(OneDigit(facts, number))
    decreases |facts|
  {
    if facts == [] {
    } else {
      var lines := Numbered(facts, number);
      var fact := Fact(Chomp(facts[0].text, CR), facts[0].accepted);
      assert Chomped(lines, CR)[1..] == Chomped(Numbered(facts[1..], number + 1), CR);
      ChompFactLine(number, facts[0]);
      ParseFactLine(number, fact);
      ParseNumbered(facts[1..], number + 1);
      OneDigitStep(facts, number);
    }
  }

  lemma OneDigitStep(facts: seq<Fact>, number: nat)
    requires facts != []
    ensures Trimmed(OneDigit(facts, number)) ==
            (if number < 10 then [Fact(Chomp(facts[0].text, CR), facts[0].accepted)] else [])
            + Trimmed(OneDigit(facts[1..], number + 1))
  {
  }

  ghost predicate NewlineFree(facts: seq<Fact>) {
    forall i :: 0 <= i < |facts| ==> NL !in facts[i].text
  }

  lemma {:induction false} NumberedNewlineFree(facts: seq<Fact>, number: nat)
    requires NewlineFree(facts)
    ensures forall i :: 0 <= i < |Numbered(facts, number)| ==> NL !in Numbered(facts, number)[i]
    decreases |facts|
  {
    if facts == [] {
    } else {
      NumberedNewlineFree(facts[1..], number + 1);
      assert NL !in FactLine(number, facts[0]);
    }
  }

  /** Reading what any writer printed returns the first nine facts, each without one trailing carriage return. */
  lemma ReadAfterWrite(header: seq<string>, facts: seq<Fact>, footer: seq<string>)
    requires AllInert(header) && AllInert(footer) && NewlineFree(facts)
    ensures Parse(Print(header, facts, footer)) == Trimmed(OneDigit(facts, 1))
  {
    var lines := Numbered(facts, 1);
    var all := header + lines + footer;
    NumberedNewlineFree(facts, 1);
    ParseUnlines(all);
    ParseMiddle(header, lines, footer);
    ParseNumbered(facts, 1);
  }

  lemma ParseMiddle(header: seq<string>, lines: seq<string>, footer: seq<string>)
    requires AllInert(header) && AllInert(footer)
    ensures ParseLines(Chomped(header + lines + footer, CR)) == ParseLines(Chomped(lines, CR))
  {
    var (h, l, f) := (Chomped(header, CR), Chomped(lines, CR), Chomped(footer, CR));
    ChompedConcat(header + lines, footer, CR);
    ChompedConcat(header, lines, CR);
    InertLines(header);
    InertLines(footer);
    ParseLinesConcat(h + l, f);
    ParseLinesConcat(h, l);
  }

  // ----------------------------------------------------------------------------- exactly when it survives

  lemma {:induction false} ParsedNewlineFree(lines: seq<string>)
    requires forall i :: 0 <= i < |lines| ==> NL !in lines[i]
    ensures NewlineFree(ParseLines(lines))
  {
    if lines == [] {
    } else {
      ParsedNewlineFree(lines[1..]);
    }
  }

  /** What is read from any file is newline-free. */
  lemma ReadNewlineFree(content: string)
    ensures NewlineFree(Parse(content))
  {
    LinesNewlineFree(content, NL, CR);
    ParsedNewlineFree(Lines(content, NL, CR));
  }

  /** No newline inside and no carriage return at the end. */
  ghost predicate CleanLine(text: string) {
    NL !in text && (text == [] || text[|text| - 1] != CR)
  }

  /** A list of facts survives writing and reading exactly when it has at most nine, all clean lines. */
  lemma SurvivesIffNineCleanLines(header: seq<string>, facts: seq<Fact>, footer: seq<string>)
    requires AllInert(header) && AllInert(footer)
    ensures Parse(Print(header, facts, footer)) == facts <==>
            |facts| <= 9 && forall i :: 0 <= i < |facts| ==> CleanLine(facts[i].text)
  {
    var read := Parse(Print(header, facts, footer));
    if NewlineFree(facts) {
      ReadAfterWrite(header, facts, footer);
      if read == facts {
        forall i | 0 <= i < |facts|
          ensures CleanLine(facts[i].text)
        {
          assert facts[i].text == Chomp(facts[i].text, CR);
        }
      }
    } else {
      ReadNewlineFree(Print(header, facts, footer));
    }
  }

  /** What the summariser proposes is pending afterwards: the first nine texts, none accepted. */
  lemma {:induction false} ProposedThenRead(texts: seq<string>, i: nat)
    requires (forall k :: 0 <= k < |texts| ==> NL !in texts[k]) && i < |texts| && i < 9
    ensures var after := Parse(Print(SUMMARY_HEADER, Proposed(texts), SUMMARY_FOOTER));
      && |after| == (if |texts| < 9 then |texts| else 9)
      && after[i] == Fact(Chomp(texts[i], CR), false)
  {
    HeadersInert();
    assert NewlineFree(Proposed(texts));
    ReadAfterWrite(SUMMARY_HEADER, Proposed(texts), SUMMARY_FOOTER);
  }

  /** Accepting fact `index` of any file keeps the first nine facts, sets its flag, and drops a trailing
      carriage return from each. */
  lemma {:induction false} AcceptThenRead(file: Option<string>, index: nat, i: nat)
    requires index < |Pending(file)| && i < |Pending(file)| && i < 9
    ensures var after := Parse(Print(ACCEPT_HEADER, Accepting(Pending(file), index), []));
      && |after| == (if |Pending(file)| < 9 then |Pending(file)| else 9)
      && after[i] == Fact(Chomp(Pending(file)[i].text, CR), i == index || Pending(file)[i].accepted)
  {
    var facts := Pending(file);
    if file.Some? {
      ReadNewlineFree(file.value);
    }
    HeadersInert();
    assert NewlineFree(Accepting(facts, index));
    ReadAfterWrite(ACCEPT_HEADER, Accepting(facts, index), []);
  }

  lemma AcceptedRead(file: Option<string>, index: nat)
    requires index < |Pending(file)|
    ensures Parse(Print(ACCEPT_HEADER, Accepting(Pending(file), index), [])) ==
            Trimmed(OneDigit(Accepting(Pending(file), index), 1))
  {
    if file.Some? {
      ReadNewlineFree(file.value);
    }
    HeadersInert();
    assert NewlineFree(Accepting(Pending(file), index));
    ReadAfterWrite(ACCEPT_HEADER, Accepting(Pending(file), index), []);
  }

  /** Among the first nine facts nothing but the flag changes if and only if none of their texts ends in a
      carriage return. */
  lemma {:induction false} AcceptChangesOnlyFlagIff(file: Option<string>, index: nat)
    requires index < |Pending(file)|
    ensures Parse(Print(ACCEPT_HEADER, Accepting(Pending(file), index), [])) ==
            OneDigit(Accepting(Pending(file), index), 1)
       <==> forall i :: 0 <= i < |Pending(file)| && i < 9 ==> Chomp(Pending(file)[i].text, CR) == Pending(file)[i].text
  {
    var facts := Pending(file);
    var kept := OneDigit(Accepting(facts, index), 1);
    AcceptedRead(file, index);
    assert forall i :: 0 <= i < |kept| ==> kept[i].text == facts[i].text;
    forall i | 0 <= i < |facts| && i < 9
      ensures i < |kept| && kept[i].text == facts[i].text
    {
    }
  }

  // -------------------------------------------------------------------------------------- applying

  /** The positions of the facts whose box is checked. */
  ghost function Checked(facts: seq<Fact>): set<nat> {
    set i: nat | i < |facts| && facts[i].accepted
  }

  /** Applying takes exactly the facts whose box is checked, in order. */
  lemma {:induction false} AcceptedAreChecked(facts: seq<Fact>)
    ensures Selects(facts, Checked(facts), Accepted(facts))
  {
    if facts == [] {
      SelectsNothing(facts);
      assert Checked(facts) == {};
    } else {
      var (front, last) := (facts[..|facts| - 1], facts[|facts| - 1]);
      AcceptedAreChecked(front);
      assert front + [last] == facts;
      if last.accepted {
        assert Checked(facts) == Checked(front) + {|front|};
        SelectsTaking(front, Checked(front), Accepted(front), last, Checked(facts), Accepted(facts));
      } else {
        assert Checked(facts) == Checked(front);
        SelectsSkipping(front, Checked(front), Accepted(front), last, Checked(facts));
      }
    }
  }

  function Bullets(texts: seq<string>): seq<string> {
    seq(|texts|, i requires 0 <= i < |texts| => "- [ ] " + texts[i])
  }

  function Texts(facts: seq<Fact>): seq<string> {
    seq(|facts|, i requires 0 <= i < |facts| => facts[i].text)
  }

  /** What is added to the memory file is one unchecked box per fact, with its text. */
  lemma {:induction false} MemoryLinesAreBullets(facts: seq<Fact>)
    ensures MemoryLines(facts) == Unlines(Bullets(Texts(facts)), NL)
  {
    if facts == [] {
    } else {
      var n := |facts| - 1;
      var line := "- [ ] " + facts[n].text;
      MemoryLinesAreBullets(facts[..n]);
      assert Bullets(Texts(facts)) == Bullets(Texts(facts[..n])) + [line];
      UnlinesConcat(Bullets(Texts(facts[..n])), [line], NL);
      assert Unlines([line], NL) == line + [NL];
      assert MemoryLines(facts[..n]) + (line + [NL]) == MemoryLines(facts[..n]) + "- [ ] " + facts[n].text + [NL];
    }
  }

  lemma PendingNewlineFree(file: Option<string>)
    ensures NewlineFree(Pending(file))
  {
    if file.Some? {
      ReadNewlineFree(file.value);
    }
  }

  lemma {:induction false} AcceptedNewlineFree(facts: seq<Fact>)
    requires NewlineFree(facts)
    ensures NewlineFree(Accepted(facts))
  {
    if facts == [] {
    } else {
      AcceptedNewlineFree(facts[..|facts| - 1]);
    }
  }

  /** The lines that applying any pending file adds are the checked texts, each behind an unchecked box. */
  lemma {:induction false} AppliedLines(file: Option<string>)
    ensures Lines(MemoryLines(Accepted(Pending(file))), NL, CR) == Chomped(Bullets(Texts(Accepted(Pending(file)))), CR)
  {
    var accepted := Accepted(Pending(file));
    PendingNewlineFree(file);
    AcceptedNewlineFree(Pending(file));
    MemoryLinesAreBullets(accepted);
    LinesOfUnlines(Bullets(Texts(accepted)), NL, CR);
  }

  /** If every box is checked, everything is taken. */
  lemma {:induction false} AllAccepted(facts: seq<Fact>)
    requires forall i :: 0 <= i < |facts| ==> facts[i].accepted
    ensures Accepted(facts) == facts
  {
    if facts == [] {
    } else {
      AllAccepted(facts[..|facts| - 1]);
      assert facts == facts[..|facts| - 1] + [facts[|facts| - 1]];
    }
  }

  /** The texts of the first nine facts, each less one trailing carriage return. */
  function NineTexts(facts: seq<Fact>): seq<string> {
    seq(if |facts| < 9 then |facts| else 9, i requires 0 <= i < |facts| => Chomp(facts[i].text, CR))
  }

  /** Accepting all facts of any file and applying adds the texts of the first nine, in order. */
  lemma {:induction false} AcceptAllThenApply(file: Option<string>)
    ensures var after := Some(Print(ACCEPT_ALL_HEADER, AcceptingAll(Pending(file)), []));
      && Texts(Accepted(Pending(after))) == NineTexts(Pending(file))
      && MemoryLines(Accepted(Pending(after))) == Unlines(Bullets(NineTexts(Pending(file))), NL)
  {
    var facts := Pending(file);
    var read := Parse(Print(ACCEPT_ALL_HEADER, AcceptingAll(facts), []));
    PendingNewlineFree(file);
    HeadersInert();
    assert NewlineFree(AcceptingAll(facts));
    ReadAfterWrite(ACCEPT_ALL_HEADER, AcceptingAll(facts), []);
    AllAccepted(read);
    MemoryLinesAreBullets(read);
    assert Texts(read) == NineTexts(facts);
  }
}
