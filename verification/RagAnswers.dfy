/**
 What a search that misses the cache answers, position by position: which of the hub's answers
 are gathered, how they are ranked, and what the prompt says of them.
 */
module RagAnswers {
  import Decimal
  import opened Rag
  import opened Sequences
  import opened TextLines
  import opened Wrappers

  // ------------------------------------------------------------------------------ gathering

  /** The positions of the answers that reach the threshold. */
  ghost function Reaching(results: seq<Hit>, threshold: real): set<nat> {
    set i: nat | i < |results| && results[i].score >= threshold
  }

  lemma {:induction false} StrongSelects(results: seq<Hit>, minScore: real)
    ensures Selects(results, Reaching(results, minScore), Strong(results, minScore))
  {
    if results == [] {
      SelectsNothing(results);
      assert Reaching(results, minScore) == {};
    } else {
      var (front, r) := (results[..|results| - 1], results[|results| - 1]);
      StrongSelects(front, minScore);
      assert front + [r] == results;
      var (before, after) := (Reaching(front, minScore), Reaching(results, minScore));
      if r.score >= minScore {
        assert after == before + {|front|};
        SelectsTaking(front, before, Strong(front, minScore), r, after, Strong(results, minScore));
      } else {
        assert after == before;
        SelectsSkipping(front, before, Strong(front, minScore), r, after);
      }
    }
  }

  /** The answer at `i` is the first to reach the threshold with its text, and the text is new. */
  ghost predicate FirstWithText(all: seq<Hit>, results: seq<Hit>, threshold: real, i: nat)
    requires i < |results|
  {
    && results[i].score >= threshold && !HasText(all, results[i].text)
    && forall j :: 0 <= j < i && results[j].score >= threshold ==> results[j].text != results[i].text
  }

  ghost function FirstWithTexts(all: seq<Hit>, results: seq<Hit>, threshold: real): set<nat> {
    set i: nat | i < |results| && FirstWithText(all, results, threshold, i)
  }

  /** A text is there after broadening if it was before or an answer that reaches 85% has it. */
  lemma BroadTexts(all: seq<Hit>, results: seq<Hit>, minScore: real, wide: seq<Hit>, text: string)
    requires Broadens(all, results, minScore, wide)
    ensures HasText(wide, text) <==>
      || HasText(all, text)
      || exists j :: 0 <= j < |results| && results[j].score >= minScore * 0.85 && results[j].text == text
  {
    if HasText(wide, text) {
      var k :| 0 <= k < |wide| && wide[k].text == text;
      if k < |all| {
        assert all[k].text == text;
      } else {
        var j :| 0 <= j < |results| && results[j] == wide[k];
      }
    }
    if HasText(all, text) {
      var k :| 0 <= k < |all| && all[k].text == text;
      assert wide[k].text == text;
    }
  }

  /** One more answer: it is added exactly when it is the first with a new text. */
  lemma AddedIffFirst(all: seq<Hit>, front: seq<Hit>, minScore: real, r: Hit)
    ensures r.score >= minScore * 0.85 && !HasText(Broaden(all, front, minScore), r.text)
       <==> FirstWithText(all, front + [r], minScore * 0.85, |front|)
  {
    BroadenCovers(all, front, minScore);
    BroadTexts(all, front, minScore, Broaden(all, front, minScore), r.text);
    assert forall j :: 0 <= j < |front| ==> (front + [r])[j] == front[j];
  }

  /** `wide` is `all`, then the answers that are first with a new text, in order. */
  ghost predicate Extends(all: seq<Hit>, results: seq<Hit>, minScore: real, wide: seq<Hit>) {
    all <= wide && Selects(results, FirstWithTexts(all, results, minScore * 0.85), wide[|all|..])
  }

  lemma ExtendsMore(all: seq<Hit>, front: seq<Hit>, minScore: real, wide: seq<Hit>, r: Hit)
    requires Extends(all, front, minScore, wide) && FirstWithText(all, front + [r], minScore * 0.85, |front|)
    ensures Extends(all, front + [r], minScore, wide + [r])
  {
    var threshold := minScore * 0.85;
    FirstWithTextsStep(all, front, threshold, r);
    SelectsTaking(front, FirstWithTexts(all, front, threshold), wide[|all|..], r,
                  FirstWithTexts(all, front + [r], threshold), (wide + [r])[|all|..]);
  }

  lemma ExtendsNoMore(all: seq<Hit>, front: seq<Hit>, minScore: real, wide: seq<Hit>, r: Hit)
    requires Extends(all, front, minScore, wide) && !FirstWithText(all, front + [r], minScore * 0.85, |front|)
    ensures Extends(all, front + [r], minScore, wide)
  {
    var threshold := minScore * 0.85;
    FirstWithTextsStep(all, front, threshold, r);
    SelectsSkipping(front, FirstWithTexts(all, front, threshold), wide[|all|..], r,
                    FirstWithTexts(all, front + [r], threshold));
  }

  lemma ExtendsByNothing(all: seq<Hit>, minScore: real)
    ensures Extends(all, [], minScore, all)
  {
    SelectsNothing<Hit>([]);
    assert FirstWithTexts(all, [], minScore * 0.85) == {} && all[|all|..] == [];
  }

  /** Broadening adds the answers that are first with a new text, in order. */
  lemma {:induction false} BroadenExtends(all: seq<Hit>, results: seq<Hit>, minScore: real)
    ensures Extends(all, results, minScore, Broaden(all, results, minScore))
  {
    if results == [] {
      ExtendsByNothing(all, minScore);
    } else {
      var (front, r) := (results[..|results| - 1], results[|results| - 1]);
      assert front + [r] == results;
      BroadenExtends(all, front, minScore);
      AddedIffFirst(all, front, minScore, r);
      if FirstWithText(all, results, minScore * 0.85, |front|) {
        ExtendsMore(all, front, minScore, Broaden(all, front, minScore), r);
      } else {
        ExtendsNoMore(all, front, minScore, Broaden(all, front, minScore), r);
      }
    }
  }

  lemma FirstWithTextsStep(all: seq<Hit>, front: seq<Hit>, threshold: real, r: Hit)
    ensures FirstWithText(all, front + [r], threshold, |front|) ==>
      FirstWithTexts(all, front + [r], threshold) == FirstWithTexts(all, front, threshold) + {|front|}
    ensures !FirstWithText(all, front + [r], threshold, |front|) ==>
      FirstWithTexts(all, front + [r], threshold) == FirstWithTexts(all, front, threshold)
  {
    forall i: nat | i < |front|
      ensures FirstWithText(all, front + [r], threshold, i) <==> FirstWithText(all, front, threshold, i)
    {
      assert forall j :: 0 <= j <= i ==> (front + [r])[j] == front[j];
    }
  }

  /**
   What is gathered: the answers of the first query that reach the threshold, in order; and when
   they are fewer than `topK`, after them the answers of a second query of twice the width that
   reach 85% of it, in order, one for each new text.
   */
  lemma {:induction false} GatheredInTwoPasses(config: Config, hub: Hub, query: string) returns (strong: seq<Hit>)
    ensures var first := hub(query, config.topK); Selects(first, Reaching(first, config.minScore), strong)
    ensures |strong| >= config.topK ==> Gather(config, hub, query) == strong
    ensures |strong| < config.topK ==>
      var second := hub(query, 2 * config.topK);
      && Broadens(strong, second, config.minScore, Gather(config, hub, query))
      && Extends(strong, second, config.minScore, Gather(config, hub, query))
  {
    strong := Strong(hub(query, config.topK), config.minScore);
    StrongSelects(hub(query, config.topK), config.minScore);
    if |strong| < config.topK {
      BroadenCovers(strong, hub(query, 2 * config.topK), config.minScore);
      BroadenExtends(strong, hub(query, 2 * config.topK), config.minScore);
    }
  }

  // -------------------------------------------------------------------------------- ranking

  /** The answer at `p` ranks before the one at `q`: by score, and equal scores as they stand. */
  ghost predicate Precedes(all: seq<Hit>, p: nat, q: nat)
    requires p < |all| && q < |all|
  {
    all[p].score > all[q].score || (all[p].score == all[q].score && p < q)
  }

  /** `order` lists the positions of `all` by decreasing score, equal scores as they stand. */
  ghost predicate RanksStably(all: seq<Hit>, order: seq<nat>) {
    && |order| == |all|
    && (forall k :: 0 <= k < |order| ==> order[k] < |all|)
    && forall i, j :: 0 <= i < j < |order| ==> Precedes(all, order[i], order[j])
  }

  /** Where `h` goes. */
  lemma {:induction false} InsertionPoint(h: Hit, sorted: seq<Hit>) returns (k: nat)
    requires Descending(sorted)
    ensures k <= |sorted| && InsertByScore(h, sorted) == sorted[..k] + [h] + sorted[k..]
    ensures forall i :: 0 <= i < k ==> sorted[i].score > h.score
    ensures forall i :: k <= i < |sorted| ==> sorted[i].score <= h.score
  {
    if sorted == [] || h.score >= sorted[0].score {
      k := 0;
      assert sorted[..0] + [h] + sorted[0..] == [h] + sorted;
    } else {
      var j := InsertionPoint(h, sorted[1..]);
      k := j + 1;
      assert [sorted[0]] + (sorted[1..][..j] + [h] + sorted[1..][j..]) == sorted[..k] + [h] + sorted[k..];
      assert forall i :: 1 <= i < |sorted| ==> sorted[1..][i - 1] == sorted[i];
    }
  }

  function Shifted(order: seq<nat>): seq<nat> {
    seq(|order|, k requires 0 <= k < |order| => order[k] + 1)
  }

  /** The positions of a ranking with position 0 put in at `k`. */
  function Inserted(order: seq<nat>, k: nat): (r: seq<nat>)
    requires k <= |order|
    ensures |r| == |order| + 1 && r[k] == 0
    ensures forall i :: 0 <= i < k ==> r[i] == order[i] + 1
    ensures forall i :: k < i < |r| ==> r[i] == order[i - 1] + 1
  {
    Shifted(order)[..k] + [0] + Shifted(order)[k..]
  }

  lemma InsertedPicks(all: seq<Hit>, order: seq<nat>, sorted: seq<Hit>, k: nat)
    requires all != [] && Picks(all[1..], order, sorted) && k <= |sorted|
    ensures Picks(all, Inserted(order, k), sorted[..k] + [all[0]] + sorted[k..])
  {
    assert forall i :: 0 <= i < |order| ==> all[order[i] + 1] == sorted[i];
  }

  lemma {:induction false} InsertedRanks(all: seq<Hit>, order: seq<nat>, k: nat)
    requires all != [] && RanksStably(all[1..], order) && k <= |order|
    requires forall i :: 0 <= i < k ==> all[1..][order[i]].score > all[0].score
    requires forall i :: k <= i < |order| ==> all[1..][order[i]].score <= all[0].score
    ensures RanksStably(all, Inserted(order, k))
  {
    forall i: nat, j: nat | i < j < |Inserted(order, k)|
      ensures Precedes(all, Inserted(order, k)[i], Inserted(order, k)[j])
    {
      InsertedPrecedes(all, order, k, i, j);
    }
  }

  lemma InsertedPrecedes(all: seq<Hit>, order: seq<nat>, k: nat, i: nat, j: nat)
    requires all != [] && RanksStably(all[1..], order) && k <= |order| && i < j <= |order|
    requires forall i :: 0 <= i < k ==> all[1..][order[i]].score > all[0].score
    requires forall i :: k <= i < |order| ==> all[1..][order[i]].score <= all[0].score
    ensures Inserted(order, k)[i] < |all| && Inserted(order, k)[j] < |all|
    ensures Precedes(all, Inserted(order, k)[i], Inserted(order, k)[j])
  {
    var inserted := Inserted(order, k);
    if i == k {
      assert all[1..][order[j - 1]] == all[inserted[j]];
    } else if j == k {
      assert all[1..][order[i]] == all[inserted[i]];
    } else {
      var (p, q) := (if i < k then order[i] else order[i - 1], if j < k then order[j] else order[j - 1]);
      assert Precedes(all[1..], p, q);
    }
  }

  /** The ranking is the stable sort by decreasing score. */
  lemma {:induction false} SortIsStable(all: seq<Hit>) returns (order: seq<nat>)
    ensures RanksStably(all, order) && Picks(all, order, SortByScore(all))
  {
    if all == [] {
      order := [];
    } else {
      var rest := SortIsStable(all[1..]);
      SortSorts(all[1..]);
      var k := InsertionPoint(all[0], SortByScore(all[1..]));
      InsertedPicks(all, rest, SortByScore(all[1..]), k);
      InsertedRanks(all, rest, k);
      order := Inserted(rest, k);
    }
  }

  /** The answer is the best `topK` of what was gathered, or all of it, in that ranking. */
  lemma RankedAreBest(config: Config, hub: Hub, query: string) returns (order: seq<nat>)
    ensures var all := Gather(config, hub, query);
      && RanksStably(all, order)
      && |Ranked(config, hub, query)| == (if |all| < config.topK then |all| else config.topK)
      && Picks(all, order[..|Ranked(config, hub, query)|], Ranked(config, hub, query))
  {
    var all := Gather(config, hub, query);
    order := SortIsStable(all);
    SortLength(all);
  }

  // ---------------------------------------------------------------------------- the answer

  lemma {:induction false} SumConcat(a: seq<Hit>, b: seq<Hit>)
    ensures SumOfScores(a + b) == SumOfScores(a) + SumOfScores(b)
  {
    if b == [] {
      assert a + b == a;
    } else {
      var n := |b| - 1;
      SumConcat(a, b[..n]);
      assert (a + b)[..|a| + n] == a + b[..n];
    }
  }

  lemma AverageTimesLength(s: seq<Hit>)
    requires s != []
    ensures Average(s).Some? && Average(s).value * |s| as real == SumOfScores(s)
  {
  }

  /** The average is the mean: of one answer its score, of two lists the mean weighted by their lengths. */
  lemma AverageIsMean(h: Hit, a: seq<Hit>, b: seq<Hit>)
    requires a != [] && b != []
    ensures Average([h]) == Some(h.score) && Average([]) == None
    ensures Average(a).Some? && Average(b).Some? && Average(a + b).Some?
    ensures Average(a + b).value * (|a| + |b|) as real ==
            Average(a).value * |a| as real + Average(b).value * |b| as real
  {
    AverageTimesLength([h]);
    AverageTimesLength(a);
    AverageTimesLength(b);
    AverageTimesLength(a + b);
    SumConcat(a, b);
  }

  const NL: char := '\n'
  const CR: char := '\r'

  /** The line of the answer ranked `i`. */
  function Entry(show: real -> string, i: nat, h: Hit): string {
    "[" + Decimal.Text(i) + "] (score: " + show(h.score) + ") " + h.text
  }

  function Entries(show: real -> string, ranked: seq<Hit>): seq<string> {
    seq(|ranked|, i requires 0 <= i < |ranked| => Entry(show, i, ranked[i]))
  }

  lemma EntryIsLine(show: real -> string, i: nat, h: Hit)
    ensures HitLine(show, i, h) == Entry(show, i, h) + [NL]
    ensures NL !in h.text && NL !in show(h.score) ==> NL !in Entry(show, i, h)
  {
  }

  lemma {:induction false} HitLinesAreEntries(show: real -> string, ranked: seq<Hit>)
    ensures HitLines(show, ranked) == Unlines(Entries(show, ranked), NL)
  {
    if ranked == [] {
    } else {
      var n := |ranked| - 1;
      var (front, last) := (Entries(show, ranked[..n]), Entry(show, n, ranked[n]));
      HitLinesAreEntries(show, ranked[..n]);
      EntryIsLine(show, n, ranked[n]);
      assert Entries(show, ranked) == front + [last];
      UnlinesConcat(front, [last], NL);
      assert Unlines([last], NL) == last + [NL];
    }
  }

  /** In the prompt the answers are one line each, numbered from zero as they rank, with score and text. */
  lemma {:induction false} PromptLines(show: real -> string, ranked: seq<Hit>)
    requires forall k :: 0 <= k < |ranked| ==> NL !in ranked[k].text && NL !in show(ranked[k].score)
    ensures Lines(HitLines(show, ranked), NL, CR) == Chomped(Entries(show, ranked), CR)
  {
    HitLinesAreEntries(show, ranked);
    forall i | 0 <= i < |ranked|
      ensures NL !in Entries(show, ranked)[i]
    {
      EntryIsLine(show, i, ranked[i]);
    }
    LinesOfUnlines(Entries(show, ranked), NL, CR);
  }
}
