/**
 What the anti-clone corpus makes of a submission before hashing it: all lines of all files,
 sorted byte-wise, one after the other.

 The same lines give the same text, however they are spread over files and ordered
 (`SameLinesSamePreimage`). The text determines the non-blank lines exactly when it cannot be
 cut in two pieces that are in order (`TextDeterminesLinesIff`).
 */
module SubmissionText {
  import opened ByteOrder
  import opened TextLines
  import opened Utf8

  const NL: char := '\n'
  const CR: char := '\r'

  /** The files in the order in which the hash map yields them. */
  datatype Submission = Submission(files: seq<string>, entrypoint: string)

  // --------------------------------------------------------------------------- order of lines

  /** String slices are compared by their bytes. */
  predicate Before(a: string, b: string) {
    Less(Encode(a), Encode(b))
  }

  lemma BeforeIrreflexive(a: string)
    ensures !Before(a, a)
  {
    LessIrreflexive(Encode(a));
  }

  lemma BeforeTransitive(a: string, b: string, c: string)
    requires Before(a, b) && Before(b, c)
    ensures Before(a, c)
  {
    LessTransitive(Encode(a), Encode(b), Encode(c));
  }

  lemma BeforeAsymmetric(a: string, b: string)
    requires Before(a, b)
    ensures !Before(b, a)
  {
    LessAsymmetric(Encode(a), Encode(b));
  }

  lemma BeforeTotal(a: string, b: string)
    ensures Before(a, b) || a == b || Before(b, a)
  {
    LessTotal(Encode(a), Encode(b));
    if Encode(a) == Encode(b) {
      EncodeInjective(a, b);
    }
  }

  // ------------------------------------------------------------------------------ sorted lines

  function AllLines(files: seq<string>): seq<string> {
    if files == [] then [] else Lines(files[0], NL, CR) + AllLines(files[1..])
  }

  ghost predicate Sorted(lines: seq<string>) {
    forall i, j :: 0 <= i < j < |lines| ==> !Before(lines[j], lines[i])
  }

  function InsertLine(line: string, lines: seq<string>): seq<string> {
    if lines == [] then [line]
    else if Before(lines[0], line) then [lines[0]] + InsertLine(line, lines[1..])
    else [line] + lines
  }

  function Sort(lines: seq<string>): seq<string> {
    if lines == [] then [] else InsertLine(lines[0], Sort(lines[1..]))
  }

  function Joined(lines: seq<string>): string {
    if lines == [] then [] else lines[0] + Joined(lines[1..])
  }

  /** The text fed to the hash: the sorted lines, one after the other, nothing in between. */
  function Preimage(s: Submission): string {
    Joined(Sort(AllLines(s.files)))
  }

  ghost predicate SameLines(s: Submission, t: Submission) {
    multiset(AllLines(s.files)) == multiset(AllLines(t.files))
  }

  lemma {:induction false} InsertKeeps(line: string, lines: seq<string>)
    ensures multiset(InsertLine(line, lines)) == multiset(lines) + multiset{line}
  {
    if lines == [] {
    } else {
      assert lines == [lines[0]] + lines[1..];
      InsertKeeps(line, lines[1..]);
    }
  }

  lemma InsertedFrom(line: string, lines: seq<string>, k: nat)
    requires k < |InsertLine(line, lines)|
    ensures InsertLine(line, lines)[k] == line || InsertLine(line, lines)[k] in lines
  {
    InsertKeeps(line, lines);
    assert InsertLine(line, lines)[k] in multiset(InsertLine(line, lines));
  }

  /** What is not below the head of a sorted list is below none of it. */
  lemma NoneBelow(line: string, lines: seq<string>, k: nat)
    requires Sorted(lines) && k < |lines| && !Before(lines[0], line)
    ensures !Before(lines[k], line)
  {
    if Before(lines[k], line) {
      BeforeTotal(lines[k], lines[0]);
      if Before(lines[0], lines[k]) {
        BeforeTransitive(lines[0], lines[k], line);
      }
    }
  }

  lemma {:induction false} InsertSorts(line: string, lines: seq<string>)
    requires Sorted(lines)
    ensures Sorted(InsertLine(line, lines))
  {
    if lines == [] {
    } else {
      if Before(lines[0], line) {
        InsertSorts(line, lines[1..]);
        BeforeAsymmetric(lines[0], line);
        var t := InsertLine(line, lines[1..]);
        forall j | 0 <= j < |t|
          ensures !Before(t[j], lines[0])
        {
          InsertedFrom(line, lines[1..], j);
        }
      } else {
        forall j | 0 <= j < |lines|
          ensures !Before(lines[j], line)
        {
          NoneBelow(line, lines, j);
        }
      }
    }
  }

  lemma {:induction false} SortSorts(lines: seq<string>)
    ensures multiset(Sort(lines)) == multiset(lines)
    ensures Sorted(Sort(lines))
  {
    if lines == [] {
    } else {
      SortSorts(lines[1..]);
      InsertSorts(lines[0], Sort(lines[1..]));
      InsertKeeps(lines[0], Sort(lines[1..]));
      assert lines == [lines[0]] + lines[1..];
    }
  }

  lemma SmallestFirst(a: seq<string>, b: seq<string>)
    requires Sorted(a) && multiset(a) == multiset(b) && a != [] && b != []
    ensures !Before(b[0], a[0])
  {
    assert b[0] in multiset(a);
    var k :| 0 <= k < |a| && a[k] == b[0];
    BeforeIrreflexive(a[0]);
  }

  lemma TailLines(a: seq<string>)
    requires a != []
    ensures a == [a[0]] + a[1..] && multiset(a[1..]) == multiset(a) - multiset{a[0]}
    ensures Sorted(a) ==> Sorted(a[1..])
  {
    assert a == [a[0]] + a[1..];
  }

  /** The order is total, so the sorted arrangement of given lines is unique. */
  lemma {:induction false} SortedUnique(a: seq<string>, b: seq<string>)
    requires Sorted(a) && Sorted(b) && multiset(a) == multiset(b)
    ensures a == b
  {
    assert |a| == |multiset(a)| == |multiset(b)| == |b|;
    if a == [] {
    } else {
      SmallestFirst(a, b);
      SmallestFirst(b, a);
      BeforeTotal(a[0], b[0]);
      TailLines(a);
      TailLines(b);
      SortedUnique(a[1..], b[1..]);
    }
  }

  /** However the lines are spread over files and ordered, the hashed bytes are the same. */
  lemma {:induction false} SameLinesSamePreimage(s: Submission, t: Submission)
    requires SameLines(s, t)
    ensures Preimage(s) == Preimage(t)
  {
    SortSorts(AllLines(s.files));
    SortSorts(AllLines(t.files));
    SortedUnique(Sort(AllLines(s.files)), Sort(AllLines(t.files)));
  }

  lemma OneLineFile(x: string)
    requires x != [] && NL !in x
    ensures AllLines([x]) == [x]
  {
    assert Lines(x, NL, CR) == [x];
    assert AllLines([x][1..]) == [];
  }

  lemma SortedPairJoins(a: string, b: string)
    requires !Before(b, a)
    ensures Joined(Sort([a, b])) == a + b && Joined(Sort([a + b])) == a + b
  {
    assert [a, b][1..] == [b] && [b][1..] == [];
    assert Sort([b]) == InsertLine(b, []) == [b];
    assert Sort([a, b]) == InsertLine(a, [b]) == [a] + [b] == [a, b];
    assert Joined([b]) == b + [] == b;
    assert [a + b][1..] == [];
    assert Joined([a + b]) == (a + b) + [] == a + b;
  }

  lemma CutLines(a: string, b: string)
    requires a != [] && b != [] && NL !in a + b
    ensures AllLines([a + b]) == [a + b] && AllLines([a, b]) == [a, b]
  {
    assert NL !in a by {
      assert forall x :: x in a ==> x in a + b;
    }
    assert NL !in b by {
      assert forall x :: x in b ==> x in a + b;
    }
    OneLineFile(a + b);
    OneLineFile(b);
    assert Lines(a, NL, CR) == [a];
    assert [a, b][1..] == [b];
  }

  /** The converse fails: nothing separates the lines, so cutting a line in two is not noticed
      whenever the two pieces are in order. */
  lemma {:induction false} CutLineCoincides(a: string, b: string, entrypoint: string)
    requires a != [] && b != [] && NL !in a + b && !Before(b, a)
    ensures Preimage(Submission([a + b], entrypoint)) == Preimage(Submission([a, b], entrypoint))
    ensures !SameLines(Submission([a + b], entrypoint), Submission([a, b], entrypoint))
  {
    CutLines(a, b);
    SortedPairJoins(a, b);
    assert |multiset([a + b])| == 1 && |multiset([a, b])| == 2;
  }

  // ------------------------------------------------------- what the text says about the lines

  function NonBlank(lines: seq<string>): seq<string> {
    if lines == [] then []
    else (if lines[0] != [] then [lines[0]] else []) + NonBlank(lines[1..])
  }

  ghost predicate SameNonBlankLines(s: Submission, t: Submission) {
    multiset(NonBlank(AllLines(s.files))) == multiset(NonBlank(AllLines(t.files)))
  }

  /** Blank lines leave no trace in the text. */
  lemma {:induction false} BlankLinesVanish(lines: seq<string>)
    ensures Joined(NonBlank(lines)) == Joined(lines)
  {
    if lines == [] {
    } else {
      BlankLinesVanish(lines[1..]);
      var rest := NonBlank(lines[1..]);
      assert ([lines[0]] + rest)[1..] == rest && [] + rest == rest;
      assert [] + Joined(lines[1..]) == Joined(lines[1..]);
    }
  }

  lemma {:induction false} NonBlankCounts(lines: seq<string>, x: string)
    ensures multiset(NonBlank(lines))[x] == if x == [] then 0 else multiset(lines)[x]
  {
    if lines == [] {
    } else {
      NonBlankCounts(lines[1..], x);
      assert lines == [lines[0]] + lines[1..];
    }
  }

  /** Which lines are blank does not depend on their order. */
  lemma NonBlankOfSame(a: seq<string>, b: seq<string>)
    requires multiset(a) == multiset(b)
    ensures multiset(NonBlank(a)) == multiset(NonBlank(b))
  {
    forall x: string
      ensures multiset(NonBlank(a))[x] == multiset(NonBlank(b))[x]
    {
      NonBlankCounts(a, x);
      NonBlankCounts(b, x);
    }
  }

  lemma {:induction false} NonBlankMembers(lines: seq<string>, k: nat)
    requires k < |NonBlank(lines)|
    ensures NonBlank(lines)[k] in lines && NonBlank(lines)[k] != []
    decreases |lines|
  {
    var first := if lines[0] != [] then 1 else 0;
    if k < first {
    } else {
      NonBlankMembers(lines[1..], k - first);
    }
  }

  lemma {:induction false} NonBlankSorted(lines: seq<string>)
    requires Sorted(lines)
    ensures Sorted(NonBlank(lines))
  {
    if lines == [] {
    } else {
      NonBlankSorted(lines[1..]);
      var rest := NonBlank(lines[1..]);
      forall j | 0 <= j < |rest|
        ensures !Before(rest[j], lines[0])
      {
        NonBlankMembers(lines[1..], j);
      }
    }
  }

  /** The sorted pieces the text of a submission is made of. */
  function Pieces(s: Submission): seq<string> {
    NonBlank(Sort(AllLines(s.files)))
  }

  lemma {:induction false} PiecesMakeText(s: Submission)
    ensures Joined(Pieces(s)) == Preimage(s) && Sorted(Pieces(s))
    ensures multiset(Pieces(s)) == multiset(NonBlank(AllLines(s.files)))
    ensures forall k :: 0 <= k < |Pieces(s)| ==> Pieces(s)[k] != []
  {
    var sorted := Sort(AllLines(s.files));
    SortSorts(AllLines(s.files));
    BlankLinesVanish(sorted);
    NonBlankSorted(sorted);
    NonBlankOfSame(sorted, AllLines(s.files));
    forall k | 0 <= k < |Pieces(s)|
      ensures Pieces(s)[k] != []
    {
      NonBlankMembers(sorted, k);
    }
  }

  /** What is not before `a` stays so when it is continued. */
  lemma {:induction false} NotLessContinued(b: Bytes, c: Bytes, a: Bytes)
    requires !Less(b, a)
    ensures !Less(b + c, a)
  {
    if a == [] || b == [] {
    } else if a[0] == b[0] {
      NotLessContinued(b[1..], c, a[1..]);
      assert (b + c)[1..] == b[1..] + c;
    }
  }

  lemma NotBeforeContinued(b: string, c: string, a: string)
    requires !Before(b, a)
    ensures !Before(b + c, a)
  {
    EncodeConcat(b, c);
    NotLessContinued(Encode(b), Encode(c), Encode(a));
  }

  /** The text can be cut at `k` into two non-empty pieces that are in order. */
  predicate CutAt(text: string, k: int) {
    0 < k < |text| && !Before(text[k..], text[..k])
  }

  ghost predicate Cuttable(text: string) {
    exists k :: CutAt(text, k)
  }

  /** Two or more sorted pieces give a cut, after the first. */
  lemma PiecesCut(pieces: seq<string>)
    requires Sorted(pieces) && |pieces| >= 2 && forall k :: 0 <= k < |pieces| ==> pieces[k] != []
    ensures CutAt(Joined(pieces), |pieces[0]|)
  {
    var (first, second, rest) := (pieces[0], pieces[1], pieces[1..][1..]);
    var text := Joined(pieces);
    assert pieces[1..][0] == second;
    assert text == first + (second + Joined(rest));
    assert text[..|first|] == first && text[|first|..] == second + Joined(rest);
    NotBeforeContinued(second, Joined(rest), first);
  }

  /** Text that cannot be cut is a single line, if it is not empty. */
  lemma UncutIsOnePiece(s: Submission)
    requires !Cuttable(Preimage(s))
    ensures Pieces(s) == if Preimage(s) == [] then [] else [Preimage(s)]
  {
    PiecesMakeText(s);
    var p := Pieces(s);
    if |p| >= 2 {
      PiecesCut(p);
    } else if |p| == 1 {
      assert p == [p[0]] && Joined(p) == p[0] + [] == p[0];
    }
  }

  lemma {:induction false} AllLinesNewlineFree(files: seq<string>, x: string)
    requires x in AllLines(files)
    ensures NL !in x
  {
    if x in Lines(files[0], NL, CR) {
      LinesNewlineFree(files[0], NL, CR);
    } else {
      AllLinesNewlineFree(files[1..], x);
    }
  }

  lemma {:induction false} JoinedNewlineFree(lines: seq<string>)
    requires forall x :: x in lines ==> NL !in x
    ensures NL !in Joined(lines)
  {
    if lines == [] {
    } else {
      assert lines[0] in lines;
      JoinedNewlineFree(lines[1..]);
    }
  }

  lemma TextNewlineFree(s: Submission)
    ensures NL !in Preimage(s)
  {
    var lines := AllLines(s.files);
    SortSorts(lines);
    forall x | x in Sort(lines)
      ensures NL !in x
    {
      assert x in multiset(Sort(lines));
      AllLinesNewlineFree(s.files, x);
    }
    JoinedNewlineFree(Sort(lines));
  }

  lemma NonBlankOfOneTwo(a: string, b: string)
    requires a != [] && b != []
    ensures NonBlank([a]) == [a] && NonBlank([a, b]) == [a, b]
  {
    assert [a][1..] == [] && [b][1..] == [] && [a, b][1..] == [b];
    assert NonBlank([b]) == [b] + NonBlank([]);
  }

  /** Text that can be cut belongs to two submissions with different non-blank lines. */
  lemma CutTextIsAmbiguous(text: string, k: int) returns (one: Submission, two: Submission)
    requires NL !in text && CutAt(text, k)
    ensures Preimage(one) == text && Preimage(two) == text && !SameNonBlankLines(one, two)
  {
    var (a, b) := (text[..k], text[k..]);
    assert a + b == text;
    one, two := Submission([a + b], ""), Submission([a, b], "");
    CutLineCoincides(a, b, "");
    CutLines(a, b);
    SortedPairJoins(a, b);
    NonBlankOfOneTwo(a, b);
    NonBlankOfOneTwo(a + b, b);
    assert |multiset([a + b])| == 1 && |multiset([a, b])| == 2;
  }

  /** The hashed text determines the non-blank lines of a submission. */
  ghost predicate TextDeterminesLines(s: Submission) {
    forall t: Submission :: Preimage(t) == Preimage(s) ==> SameNonBlankLines(s, t)
  }

  /**
   For every submission: every other one with the same hashed text has the same non-blank
   lines if and only if the text cannot be cut into two pieces that are in order.
   */
  lemma {:induction false} TextDeterminesLinesIff(s: Submission)
    ensures TextDeterminesLines(s) <==> !Cuttable(Preimage(s))
  {
    if !Cuttable(Preimage(s)) {
      forall t: Submission | Preimage(t) == Preimage(s)
        ensures SameNonBlankLines(s, t)
      {
        UncutIsOnePiece(s);
        UncutIsOnePiece(t);
        PiecesMakeText(s);
        PiecesMakeText(t);
      }
    } else {
      TextNewlineFree(s);
      var k :| CutAt(Preimage(s), k);
      var one, two := CutTextIsAmbiguous(Preimage(s), k);
      assert !SameNonBlankLines(s, one) || !SameNonBlankLines(s, two);
    }
  }

  // ----------------------------------------------------------------------------------- the loops

  method CollectLines(files: seq<string>) returns (lines: seq<string>)
    ensures lines == AllLines(files)
  {
    lines := [];
    for i := 0 to |files|
      invariant AllLines(files) == lines + AllLines(files[i..])
    {
      lines := lines + Lines(files[i], NL, CR);
    }
  }

  lemma FeedStep(lines: seq<string>, k: nat, fed: Bytes)
    requires k < |lines|
    ensures fed + Encode(Joined(lines[k..])) == fed + Encode(lines[k]) + Encode(Joined(lines[k + 1..]))
  {
    assert lines[k..][1..] == lines[k + 1..];
    EncodeConcat(lines[k], Joined(lines[k + 1..]));
  }

  /** The lines are fed to the hash one by one, as bytes. */
  method Feed(lines: seq<string>) returns (fed: Bytes)
    ensures fed == Encode(Joined(lines))
  {
    fed := [];
    for k := 0 to |lines|
      invariant Encode(Joined(lines)) == fed + Encode(Joined(lines[k..]))
    {
      FeedStep(lines, k, fed);
      fed := fed + Encode(lines[k]);
    }
  }
}
