/**
 The anti-clone corpus: a submission is reduced to the hash of its sorted lines, and a check
 compares that hash with those of the same tenant's earlier submissions.

 The hash function is a parameter. Similarity is a real number; label, clock and connection
 errors are left to the caller.
 */
module Corpus {
  import opened Wrappers
  import opened ByteOrder
  import opened Utf8
  import opened SubmissionText

  datatype Fingerprint = Fingerprint(astHash: string, fileCount: nat, totalLines: nat, entrypoint: string)

  /** A table row; the fingerprint is absent when its JSON does not parse. */
  datatype Row = Row(id: nat, tenant: int, fingerprint: Option<Fingerprint>)

  datatype Verdict = Clone | Original

  datatype Report = Report(score: real, verdict: Verdict, closest: Option<nat>)

  // --------------------------------------------------------------------------------- fingerprint

  function Digest(hash: Bytes -> string, s: Submission): string {
    hash(Encode(Preimage(s)))
  }

  method FingerprintSubmission(hash: Bytes -> string, s: Submission) returns (fp: Fingerprint)
    ensures fp == Fingerprint(Digest(hash, s), |s.files|, |AllLines(s.files)|, s.entrypoint)
  {
    var lines := CollectLines(s.files);
    var fed := Feed(Sort(lines));
    fp := Fingerprint(hash(fed), |s.files|, |lines|, s.entrypoint);
  }

  /** Two submissions have one digest under every hash function exactly when their sorted text is the same. */
  lemma DigestsAgreeIff(s: Submission, t: Submission)
    ensures (forall hash: Bytes -> string :: Digest(hash, s) == Digest(hash, t)) <==> Preimage(s) == Preimage(t)
  {
    if Preimage(s) != Preimage(t) {
      var separating: Bytes -> string := b => if b == Encode(Preimage(s)) then "s" else "";
      if Encode(Preimage(s)) == Encode(Preimage(t)) {
        EncodeInjective(Preimage(s), Preimage(t));
      }
      assert Digest(separating, s) != Digest(separating, t);
    }
  }

  // ---------------------------------------------------------------------------------- similarity

  /** How many of the first `n` positions agree. */
  function Matches(a: string, b: string, n: nat): (m: nat)
    requires n <= |a| && n <= |b|
    ensures m <= n
    ensures m == n <==> a[..n] == b[..n]
  {
    if n == 0 then 0
    else
      assert a[..n] == a[..n - 1] + [a[n - 1]] && b[..n] == b[..n - 1] + [b[n - 1]];
      Matches(a, b, n - 1) + if a[n - 1] == b[n - 1] then 1 else 0
  }

  function Shorter(a: string, b: string): nat {
    if |a| < |b| then |a| else |b|
  }

  function Longer(a: string, b: string): nat {
    if |a| < |b| then |b| else |a|
  }

  /** The fraction of agreeing positions; it is one only for equal hashes. */
  function Similarity(a: string, b: string): (s: real)
    ensures 0.0 <= s <= 1.0
    ensures s == 1.0 <==> a == b
  {
    if a == b then 1.0
    else
      var (m, n) := (Matches(a, b, Shorter(a, b)), Longer(a, b));
      assert m < n by {
        assert a[..|a|] == a && b[..|b|] == b;
      }
      FractionBelowOne(m, n);
      m as real / n as real
  }

  lemma FractionBelowOne(m: nat, n: nat)
    requires m < n
    ensures 0.0 <= m as real / n as real < 1.0
  {
  }

  /** The positions at which two hashes agree. */
  ghost function Agreeing(a: string, b: string): set<nat> {
    set i: nat | i < |a| && i < |b| && a[i] == b[i]
  }

  /** `score` is `count` out of `n`. */
  ghost predicate IsShare(score: real, count: nat, n: nat) {
    score * n as real == count as real
  }

  lemma {:induction false} MatchesCounts(a: string, b: string, n: nat)
    requires n <= |a| && n <= |b|
    ensures Matches(a, b, n) == |set i: nat | i < n && a[i] == b[i]|
  {
    var agreeing := set i: nat | i < n && a[i] == b[i];
    if n == 0 {
      assert agreeing == {};
    } else {
      MatchesCounts(a, b, n - 1);
      var before := set i: nat | i < n - 1 && a[i] == b[i];
      assert agreeing == if a[n - 1] == b[n - 1] then before + {n - 1} else before;
    }
  }

  lemma AgreeingCounted(a: string, b: string)
    ensures Matches(a, b, Shorter(a, b)) == |Agreeing(a, b)|
  {
    MatchesCounts(a, b, Shorter(a, b));
    assert Agreeing(a, b) == set i: nat | i < Shorter(a, b) && a[i] == b[i];
  }

  /** The similarity is the number of agreeing positions over the longer length. */
  lemma SimilarityIsAgreement(a: string, b: string)
    requires a != [] || b != []
    ensures IsShare(Similarity(a, b), |Agreeing(a, b)|, Longer(a, b))
  {
    AgreeingCounted(a, b);
    if a == b {
      assert Matches(a, b, |a|) == |a|;
    } else {
      QuotientIsShare(|Agreeing(a, b)|, Longer(a, b));
    }
  }

  lemma QuotientIsShare(m: nat, n: nat)
    requires n > 0
    ensures IsShare(m as real / n as real, m, n)
  {
  }

  method CompareHashes(a: string, b: string) returns (s: real)
    ensures s == Similarity(a, b)
    ensures a != [] || b != [] ==> IsShare(s, |Agreeing(a, b)|, Longer(a, b))
  {
    if a != [] || b != [] {
      SimilarityIsAgreement(a, b);
    }
    if a == b {
      return 1.0;
    }
    var matches, i := 0, 0;
    while i < Shorter(a, b)
      invariant i <= Shorter(a, b)
      invariant matches == Matches(a, b, i)
    {
      if a[i] == b[i] {
        matches := matches + 1;
      }
      i := i + 1;
    }
    s := matches as real / Longer(a, b) as real;
  }

  // --------------------------------------------------------------------------------------- check

  predicate Readable(rows: seq<Row>, tenant: int) {
    forall k :: 0 <= k < |rows| && rows[k].tenant == tenant ==> rows[k].fingerprint.Some?
  }

  /** The score of a row of the tenant; other rows count as no match. */
  function ScoreOf(row: Row, tenant: int, hash: string): (s: real)
    ensures 0.0 <= s <= 1.0
  {
    if row.tenant == tenant && row.fingerprint.Some? then Similarity(hash, row.fingerprint.value.astHash) else 0.0
  }

  ghost predicate FirstAt(rows: seq<Row>, tenant: int, hash: string, score: real, k: int) {
    && 0 <= k < |rows|
    && ScoreOf(rows[k], tenant, hash) == score
    && forall j :: 0 <= j < k ==> ScoreOf(rows[j], tenant, hash) < score
  }

  /** The score is the maximum, zero when nothing matches; the closest row is the earliest to reach it. */
  ghost predicate Maximal(rows: seq<Row>, tenant: int, hash: string, score: real, closest: Option<nat>) {
    && 0.0 <= score
    && (forall k :: 0 <= k < |rows| ==> ScoreOf(rows[k], tenant, hash) <= score)
    && (closest.None? ==> score == 0.0)
    && (closest.Some? ==>
          && 0.0 < score
          && exists k :: FirstAt(rows, tenant, hash, score, k) && rows[k].id == closest.value)
  }

  ghost predicate Reports(rows: seq<Row>, tenant: int, hash: string, threshold: real, r: Report) {
    && Maximal(rows, tenant, hash, r.score, r.closest)
    && (r.verdict == Clone <==> r.score > threshold)
  }

  /** One more row: the running maximum moves only on a strictly better score. */
  lemma {:induction false} MaximalStep(rows: seq<Row>, row: Row, tenant: int, hash: string,
                                       score: real, closest: Option<nat>)
    requires Maximal(rows, tenant, hash, score, closest)
    ensures var s := ScoreOf(row, tenant, hash);
            if s > score then Maximal(rows + [row], tenant, hash, s, Some(row.id))
            else Maximal(rows + [row], tenant, hash, score, closest)
  {
    var s := ScoreOf(row, tenant, hash);
    var more := rows + [row];
    if s > score {
      assert FirstAt(more, tenant, hash, s, |rows|);
    } else if closest.Some? {
      var k :| FirstAt(rows, tenant, hash, score, k) && rows[k].id == closest.value;
      assert FirstAt(more, tenant, hash, score, k) && more[k].id == closest.value;
    }
  }

  /** The report is determined by the table. */
  lemma {:induction false} ReportUnique(rows: seq<Row>, tenant: int, hash: string, threshold: real,
                                        r: Report, q: Report)
    requires Reports(rows, tenant, hash, threshold, r) && Reports(rows, tenant, hash, threshold, q)
    ensures r == q
  {
    assert r.score == q.score by {
      ScoreReached(rows, tenant, hash, threshold, r, q);
      ScoreReached(rows, tenant, hash, threshold, q, r);
    }
    if r.closest.Some? {
      var j :| FirstAt(rows, tenant, hash, r.score, j) && rows[j].id == r.closest.value;
      var k :| FirstAt(rows, tenant, hash, q.score, k) && rows[k].id == q.closest.value;
    }
  }

  lemma ScoreReached(rows: seq<Row>, tenant: int, hash: string, threshold: real, r: Report, q: Report)
    requires Reports(rows, tenant, hash, threshold, r) && Reports(rows, tenant, hash, threshold, q)
    ensures r.score <= q.score
  {
    if r.closest.Some? {
      var k :| FirstAt(rows, tenant, hash, r.score, k) && rows[k].id == r.closest.value;
    }
  }

  ghost predicate Scanned(rows: seq<Row>, i: nat, tenant: int, hash: string, score: real, closest: Option<nat>) {
    && i <= |rows|
    && Readable(rows[..i], tenant)
    && Maximal(rows[..i], tenant, hash, score, closest)
  }

  lemma {:induction false} ScanStep(rows: seq<Row>, i: nat, tenant: int, hash: string,
                                    score: real, closest: Option<nat>)
    requires Scanned(rows, i, tenant, hash, score, closest) && i < |rows|
    requires rows[i].tenant == tenant ==> rows[i].fingerprint.Some?
    ensures var s := ScoreOf(rows[i], tenant, hash);
            if s > score then Scanned(rows, i + 1, tenant, hash, s, Some(rows[i].id))
            else Scanned(rows, i + 1, tenant, hash, score, closest)
  {
    assert rows[..i + 1] == rows[..i] + [rows[i]];
    MaximalStep(rows[..i], rows[i], tenant, hash, score, closest);
  }

  lemma {:induction false} ScanEnds(rows: seq<Row>, tenant: int, hash: string, score: real, closest: Option<nat>)
    requires Scanned(rows, |rows|, tenant, hash, score, closest)
    ensures Readable(rows, tenant) && Maximal(rows, tenant, hash, score, closest)
  {
    assert rows[..|rows|] == rows;
  }

  /** How many characters of the hash of a row of the tenant agree with `hash`. */
  ghost function Agreement(row: Row, tenant: int, hash: string): nat {
    if row.tenant == tenant && row.fingerprint.Some? then |Agreeing(hash, row.fingerprint.value.astHash)| else 0
  }

  /** Every hash of the tenant has the length of `hash`. */
  ghost predicate SameLength(rows: seq<Row>, tenant: int, hash: string) {
    hash != [] &&
    forall k :: 0 <= k < |rows| && rows[k].tenant == tenant && rows[k].fingerprint.Some? ==>
                  |rows[k].fingerprint.value.astHash| == |hash|
  }

  lemma ScoreCounts(rows: seq<Row>, tenant: int, hash: string, k: nat)
    requires SameLength(rows, tenant, hash) && k < |rows|
    ensures IsShare(ScoreOf(rows[k], tenant, hash), Agreement(rows[k], tenant, hash), |hash|)
  {
    if rows[k].tenant == tenant && rows[k].fingerprint.Some? {
      SimilarityIsAgreement(hash, rows[k].fingerprint.value.astHash);
    }
  }

  lemma SharesCompare(x: real, p: nat, y: real, q: nat, n: nat)
    requires IsShare(x, p, n) && IsShare(y, q, n) && n > 0
    ensures x < y <==> p < q
    ensures y > 0.0 <==> q > 0
  {
    Scaled(x, y, n as real);
    Scaled(0.0, y, n as real);
  }

  lemma Scaled(x: real, y: real, n: real)
    requires n > 0.0
    ensures x < y <==> x * n < y * n
  {
  }

  /** Scores compare as the numbers of agreeing characters. */
  lemma {:induction false} ScoresCompare(rows: seq<Row>, tenant: int, hash: string, j: nat, k: nat)
    requires SameLength(rows, tenant, hash) && j < |rows| && k < |rows|
    ensures ScoreOf(rows[j], tenant, hash) < ScoreOf(rows[k], tenant, hash)
       <==> Agreement(rows[j], tenant, hash) < Agreement(rows[k], tenant, hash)
    ensures ScoreOf(rows[k], tenant, hash) > 0.0 <==> Agreement(rows[k], tenant, hash) > 0
  {
    ScoreCounts(rows, tenant, hash, j);
    ScoreCounts(rows, tenant, hash, k);
    SharesCompare(ScoreOf(rows[j], tenant, hash), Agreement(rows[j], tenant, hash),
                  ScoreOf(rows[k], tenant, hash), Agreement(rows[k], tenant, hash), |hash|);
  }

  /** The first row whose hash agrees with `hash` in the most characters. */
  ghost predicate AgreesMost(rows: seq<Row>, tenant: int, hash: string, k: nat) {
    && k < |rows|
    && (forall j :: 0 <= j < |rows| ==> Agreement(rows[j], tenant, hash) <= Agreement(rows[k], tenant, hash))
    && (forall j :: 0 <= j < k ==> Agreement(rows[j], tenant, hash) < Agreement(rows[k], tenant, hash))
  }

  /**
   Where all hashes have one length, the closest row is the first of those that agree with the
   candidate in the most characters, and the score is the share of these; there is none exactly
   when no row of the tenant agrees anywhere.
   */
  lemma {:induction false} ClosestAgreesMost(rows: seq<Row>, tenant: int, hash: string, threshold: real, r: Report)
    requires Reports(rows, tenant, hash, threshold, r) && SameLength(rows, tenant, hash)
    ensures r.closest.None? <==> forall j :: 0 <= j < |rows| ==> Agreement(rows[j], tenant, hash) == 0
    ensures r.closest.Some? ==>
      exists k: nat ::
        && AgreesMost(rows, tenant, hash, k) && r.closest == Some(rows[k].id)
        && IsShare(r.score, Agreement(rows[k], tenant, hash), |hash|)
  {
    if r.closest.Some? {
      var k: nat :| FirstAt(rows, tenant, hash, r.score, k) && rows[k].id == r.closest.value;
      forall j | 0 <= j < |rows|
        ensures Agreement(rows[j], tenant, hash) <= Agreement(rows[k], tenant, hash)
        ensures j < k ==> Agreement(rows[j], tenant, hash) < Agreement(rows[k], tenant, hash)
      {
        ScoresCompare(rows, tenant, hash, j, k);
        ScoresCompare(rows, tenant, hash, k, j);
      }
      ScoresCompare(rows, tenant, hash, k, k);
      ScoreCounts(rows, tenant, hash, k);
      assert AgreesMost(rows, tenant, hash, k);
    } else {
      forall j | 0 <= j < |rows|
        ensures Agreement(rows[j], tenant, hash) == 0
      {
        ScoresCompare(rows, tenant, hash, j, j);
      }
    }
  }

  /** The submissions table: rows in insertion order, ids never reused. */
  class SubmissionTable {
    const hash: Bytes -> string
    var rows: seq<Row>
    var nextId: nat
    /** The submissions made through this object. */
    ghost var run: seq<Event>

    /** The table is what the submissions made through this object leave in an empty one. */
    ghost predicate Tracks()
      reads this
    {
      rows == After(hash, run) && nextId == |run| + 1
    }

    constructor (hash: Bytes -> string)
      ensures this.hash == hash && run == [] && Tracks()
    {
      this.hash := hash;
      rows, nextId, run := [], 1, [];
    }

    method Submit(tenant: int, s: Submission) returns (id: nat)
      modifies this
      ensures id == old(nextId) && nextId == old(nextId) + 1
      ensures rows == old(rows) + [Stored(hash, id, tenant, s)]
      ensures run == old(run) + [Submitting(tenant, s)] && (old(Tracks()) ==> Tracks())
    {
      AfterSubmit(hash, run, tenant, s);
      run := run + [Submitting(tenant, s)];
      var fp := FingerprintSubmission(hash, s);
      id := nextId;
      rows := rows + [Row(id, tenant, Some(fp))];
      nextId := nextId + 1;
    }

    /** `None` is the parse error, raised by the tenant's own unreadable rows and no others. */
    method Check(tenant: int, s: Submission, threshold: real) returns (r: Option<Report>)
      ensures r.Some? <==> Readable(rows, tenant)
      ensures r.Some? ==> Reports(rows, tenant, Digest(hash, s), threshold, r.value)
    {
      var candidate := FingerprintSubmission(hash, s);
      var score, closest: Option<nat>, i := 0.0, None, 0;
      while i < |rows|
        invariant Scanned(rows, i, tenant, candidate.astHash, score, closest)
      {
        if rows[i].tenant == tenant && rows[i].fingerprint.None? {
          return None;
        }
        ScanStep(rows, i, tenant, candidate.astHash, score, closest);
        if rows[i].tenant == tenant {
          var similarity := CompareHashes(candidate.astHash, rows[i].fingerprint.value.astHash);
          if similarity > score {
            score, closest := similarity, Some(rows[i].id);
          }
        }
        i := i + 1;
      }
      ScanEnds(rows, tenant, candidate.astHash, score, closest);
      r := Some(Report(score, if score > threshold then Clone else Original, closest));
    }
  }

  function Stored(hash: Bytes -> string, id: nat, tenant: int, s: Submission): Row {
    Row(id, tenant, Some(Fingerprint(Digest(hash, s), |s.files|, |AllLines(s.files)|, s.entrypoint)))
  }

  // ---------------------------------------------------------------------------------------- runs

  datatype Event = Submitting(tenant: int, submission: Submission)

  /** The table after a run of submissions by any tenants. */
  function After(hash: Bytes -> string, run: seq<Event>): seq<Row> {
    seq(|run|, k requires 0 <= k < |run| => Stored(hash, k + 1, run[k].tenant, run[k].submission))
  }

  /** One call of `Submit` is one more event of the run. */
  lemma AfterSubmit(hash: Bytes -> string, run: seq<Event>, tenant: int, s: Submission)
    ensures After(hash, run + [Submitting(tenant, s)]) == After(hash, run) + [Stored(hash, |run| + 1, tenant, s)]
  {
  }

  ghost predicate Submitted(run: seq<Event>, tenant: int, s: Submission) {
    Submitting(tenant, s) in run
  }

  /** The bytes hashed for the candidate do not collide with different bytes hashed in the run. */
  ghost predicate NoCollision(hash: Bytes -> string, run: seq<Event>, candidate: Submission) {
    forall k :: 0 <= k < |run| && Digest(hash, run[k].submission) == Digest(hash, candidate) ==>
                  Encode(Preimage(run[k].submission)) == Encode(Preimage(candidate))
  }

  ghost predicate Resubmitted(run: seq<Event>, tenant: int, candidate: Submission) {
    exists k :: 0 <= k < |run| && run[k].tenant == tenant && Preimage(run[k].submission) == Preimage(candidate)
  }

  lemma FullScore(hash: Bytes -> string, run: seq<Event>, tenant: int, candidate: Submission, k: int)
    requires NoCollision(hash, run, candidate) && 0 <= k < |run|
    ensures ScoreOf(After(hash, run)[k], tenant, Digest(hash, candidate)) == 1.0
       <==> run[k].tenant == tenant && Preimage(run[k].submission) == Preimage(candidate)
  {
    if Digest(hash, run[k].submission) == Digest(hash, candidate) {
      EncodeInjective(Preimage(run[k].submission), Preimage(candidate));
    }
  }

  /**
   After every run of submissions by any tenants, the check scores one exactly when the tenant
   has submitted something with the same sorted text before; the score never leaves [0, 1], and
   every row of the tenant is readable.
   */
  lemma FullScoreIffResubmitted(hash: Bytes -> string, run: seq<Event>, tenant: int, candidate: Submission,
                                threshold: real, r: Report)
    requires NoCollision(hash, run, candidate)
    requires Reports(After(hash, run), tenant, Digest(hash, candidate), threshold, r)
    ensures Readable(After(hash, run), tenant)
    ensures 0.0 <= r.score <= 1.0
    ensures r.score == 1.0 <==> Resubmitted(run, tenant, candidate)
  {
    var (rows, h) := (After(hash, run), Digest(hash, candidate));
    if r.closest.Some? {
      var k :| FirstAt(rows, tenant, h, r.score, k) && rows[k].id == r.closest.value;
      FullScore(hash, run, tenant, candidate, k);
    }
    if Resubmitted(run, tenant, candidate) {
      var k :| 0 <= k < |run| && run[k].tenant == tenant && Preimage(run[k].submission) == Preimage(candidate);
      FullScore(hash, run, tenant, candidate, k);
      assert ScoreOf(rows[k], tenant, h) <= r.score;
    }
  }

  /** Rearranging the lines of an earlier submission is a clone for every threshold below one. */
  lemma RearrangedIsClone(hash: Bytes -> string, run: seq<Event>, tenant: int, earlier: Submission,
                          candidate: Submission, threshold: real, r: Report)
    requires Submitted(run, tenant, earlier) && SameLines(earlier, candidate)
    requires Reports(After(hash, run), tenant, Digest(hash, candidate), threshold, r)
    ensures r.score == 1.0
    ensures r.verdict == Clone <==> threshold < 1.0
  {
    SameLinesSamePreimage(earlier, candidate);
    var (rows, h) := (After(hash, run), Digest(hash, candidate));
    var k :| 0 <= k < |run| && run[k] == Submitting(tenant, earlier);
    assert ScoreOf(rows[k], tenant, h) == 1.0;
    if r.closest.Some? {
      var j :| FirstAt(rows, tenant, h, r.score, j) && rows[j].id == r.closest.value;
    }
  }

  /** No run of other tenants' submissions changes the report, in any part. */
  lemma {:induction false} OthersChangeNothing(hash: Bytes -> string, run: seq<Event>, others: seq<Event>,
                                               tenant: int, h: string, threshold: real, r: Report)
    requires forall e :: e in others ==> e.tenant != tenant
    ensures Reports(After(hash, run + others), tenant, h, threshold, r)
       <==> Reports(After(hash, run), tenant, h, threshold, r)
  {
    var (few, more) := (After(hash, run), After(hash, run + others));
    forall k | 0 <= k < |more|
      ensures k < |run| ==> more[k] == few[k]
      ensures k >= |run| ==> ScoreOf(more[k], tenant, h) == 0.0
    {
      assert k >= |run| ==> (run + others)[k] in others;
    }
    forall k
      ensures r.score > 0.0 ==> (FirstAt(few, tenant, h, r.score, k) <==> FirstAt(more, tenant, h, r.score, k))
    {
    }
  }

  /** What the row of a submission scores. */
  lemma RowScore(hash: Bytes -> string, run: seq<Event>, k: nat, tenant: int, h: string)
    requires k < |run|
    ensures ScoreOf(After(hash, run)[k], tenant, h) ==
            if run[k].tenant == tenant then Similarity(h, Digest(hash, run[k].submission)) else 0.0
  {
  }

  /** A submission of the tenant scores at most what the report says. */
  lemma OwnScoreReported(hash: Bytes -> string, run: seq<Event>, tenant: int, h: string, threshold: real, r: Report,
                         s: Submission)
    requires Reports(After(hash, run), tenant, h, threshold, r) && Submitted(run, tenant, s)
    ensures Similarity(h, Digest(hash, s)) <= r.score
  {
    var k: nat :| k < |run| && run[k] == Submitting(tenant, s);
    RowScore(hash, run, k, tenant, h);
    assert ScoreOf(After(hash, run)[k], tenant, h) <= r.score;
  }

  /** The score grows with the set of the tenant's own submissions and depends on nothing else:
      not on their order or repetition, and not on where other tenants' submissions fall. */
  lemma ScoreFromOwnSubmissions(hash: Bytes -> string, run: seq<Event>, other: seq<Event>, tenant: int, h: string,
                                threshold: real, r: Report, q: Report)
    requires forall s :: Submitted(run, tenant, s) ==> Submitted(other, tenant, s)
    requires Reports(After(hash, run), tenant, h, threshold, r)
    requires Reports(After(hash, other), tenant, h, threshold, q)
    ensures r.score <= q.score
    ensures r.verdict == Clone ==> q.verdict == Clone
  {
    if r.closest.Some? {
      var rows := After(hash, run);
      var k :| FirstAt(rows, tenant, h, r.score, k) && rows[k].id == r.closest.value;
      RowScore(hash, run, k, tenant, h);
      assert Submitted(run, tenant, run[k].submission);
      OwnScoreReported(hash, other, tenant, h, threshold, q, run[k].submission);
    }
  }
}
