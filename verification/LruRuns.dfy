/**
 The cache over whole traces of searches and clears against a fixed hub.

 Main results:
 - `CacheIsRecency`: at capacity c the cache holds exactly the last c queries of the
   recency list, in that order, each with what a fresh search would rank first;
 - `RecencyByLastUse`: the recency list is the answerable queries since the last clear,
   each once, in the order of their last use;
 - `StackInclusion`: a smaller cache always holds a suffix of a larger one;
 - `HitIffRecent`: when a search is answered from the cache.
 */
module LruRuns {
  import opened Rag
  import opened Sequences
  import opened Wrappers

  datatype Op = Ask(query: string) | Reset

  type Oracle = string -> Option<Hit>

  function Contents(capacity: nat, best: Oracle, ops: seq<Op>): seq<CacheEntry>
    requires capacity > 0
  {
    if ops == [] then []
    else
      var before := Contents(capacity, best, ops[..|ops| - 1]);
      match ops[|ops| - 1]
      case Ask(query) => AfterSearch(capacity, best(query), before, query)
      case Reset => []
  }

  // -------------------------------------------------------------------------- specification

  /** `qs` without its (only) occurrence of `q`. */
  function Without(qs: seq<string>, q: string): seq<string> {
    if qs == [] then []
    else if qs[0] == q then qs[1..]
    else [qs[0]] + Without(qs[1..], q)
  }

  /** The answerable queries since the last reset, least recently used first. */
  function Recency(best: Oracle, ops: seq<Op>): seq<string> {
    if ops == [] then []
    else
      var before := Recency(best, ops[..|ops| - 1]);
      match ops[|ops| - 1]
      case Ask(query) => if best(query).None? then before else Without(before, query) + [query]
      case Reset => []
  }

  /** `k` is the last time `q` was asked, and there was no reset since. */
  ghost predicate LastUse(ops: seq<Op>, q: string, k: nat) {
    && k < |ops| && ops[k] == Ask(q)
    && forall i :: k < i < |ops| ==> ops[i] != Ask(q) && ops[i] != Reset
  }

  /** The last `n` elements, or all of them. */
  function Last<T>(n: nat, s: seq<T>): seq<T> {
    if |s| <= n then s else s[|s| - n..]
  }

  /** The cache entry for an answerable query. */
  function EntryFor(best: Oracle, q: string): CacheEntry {
    CacheEntry(q, if best(q).Some? then best(q).value else Hit("", 0.0))
  }

  function Entries(best: Oracle, qs: seq<string>): seq<CacheEntry> {
    seq(|qs|, i requires 0 <= i < |qs| => EntryFor(best, qs[i]))
  }

  // --------------------------------------------------------------------------- recency list

  lemma {:induction false} WithoutAt(qs: seq<string>, q: string, i: nat)
    requires Distinct(qs) && i < |qs| && qs[i] == q
    ensures Without(qs, q) == qs[..i] + qs[i + 1..]
  {
    if i == 0 {
    } else {
      assert qs[1..][i - 1] == q;
      WithoutAt(qs[1..], q, i - 1);
    }
  }

  lemma {:induction false} WithoutAbsent(qs: seq<string>, q: string)
    requires q !in qs
    ensures Without(qs, q) == qs
  {
    if qs == [] {
    } else {
      WithoutAbsent(qs[1..], q);
    }
  }

  lemma WithoutKeeps(qs: seq<string>, q: string)
    requires Distinct(qs)
    ensures Distinct(Without(qs, q)) && q !in Without(qs, q)
    ensures forall x :: x != q ==> (x in Without(qs, q) <==> x in qs)
  {
    if q in qs {
      var i: nat :| i < |qs| && qs[i] == q;
      WithoutAt(qs, q, i);
    } else {
      WithoutAbsent(qs, q);
    }
  }

  lemma {:induction false} RecencyDistinct(best: Oracle, ops: seq<Op>)
    ensures Distinct(Recency(best, ops))
    ensures forall q :: q in Recency(best, ops) ==> best(q).Some?
  {
    if ops == [] {
    } else {
      RecencyDistinct(best, ops[..|ops| - 1]);
      if ops[|ops| - 1].Ask? {
        WithoutKeeps(Recency(best, ops[..|ops| - 1]), ops[|ops| - 1].query);
      }
    }
  }

  lemma {:induction false} RecencyMembers(best: Oracle, ops: seq<Op>, q: string)
    ensures q in Recency(best, ops) <==> best(q).Some? && exists k: nat :: LastUse(ops, q, k)
  {
    if ops == [] {
    } else {
      var n := |ops| - 1;
      var front := ops[..n];
      RecencyMembers(best, front, q);
      RecencyDistinct(best, front);
      LastUseSnoc(front, ops[n], q);
      assert ops == front + [ops[n]];
      if ops[n].Ask? {
        WithoutKeeps(Recency(best, front), ops[n].query);
      }
    }
  }

  lemma LastUseSnoc(ops: seq<Op>, op: Op, q: string)
    ensures (exists k: nat :: LastUse(ops + [op], q, k)) <==>
            op == Ask(q) || (op != Reset && exists k: nat :: LastUse(ops, q, k))
  {
    if op == Ask(q) {
      assert LastUse(ops + [op], q, |ops|);
    } else if op != Reset && exists k: nat :: LastUse(ops, q, k) {
      var k: nat :| LastUse(ops, q, k);
      assert LastUse(ops + [op], q, k);
    } else if exists k: nat :: LastUse(ops + [op], q, k) {
      var k: nat :| LastUse(ops + [op], q, k);
      assert (ops + [op])[|ops|] == op;
      assert LastUse(ops, q, k) by {
        assert forall i :: 0 <= i < |ops| ==> (ops + [op])[i] == ops[i];
      }
    }
  }

  /** The recency list is ordered by last use. */
  lemma {:induction false} RecencyByLastUse(best: Oracle, ops: seq<Op>, i: nat, j: nat, a: nat, b: nat)
    requires i < j < |Recency(best, ops)|
    requires LastUse(ops, Recency(best, ops)[i], a) && LastUse(ops, Recency(best, ops)[j], b)
    ensures a < b
  {
    var n := |ops| - 1;
    var (front, r) := (ops[..n], Recency(best, ops));
    var before := Recency(best, front);
    assert ops[n] != Reset;
    RecencyDistinct(best, front);
    RecencyDistinct(best, ops);
    var q := ops[n].query;
    if best(q).None? {
      RecencyByLastUse(best, front, i, j, a, b);
    } else if j < |r| - 1 {
      WithoutKeeps(before, q);
      assert r[i] == Without(before, q)[i] && r[j] == Without(before, q)[j];
      var i', j' := WithoutOrder(before, q, i, j);
      RecencyByLastUse(best, front, i', j', a, b);
    } else {
      assert r[j] == q;
      assert b == n;
      assert r[i] != q;
    }
  }

  lemma WithoutOrder(qs: seq<string>, q: string, i: nat, j: nat) returns (i': nat, j': nat)
    requires Distinct(qs) && i < j < |Without(qs, q)|
    ensures i' < j' < |qs| && qs[i'] == Without(qs, q)[i] && qs[j'] == Without(qs, q)[j]
  {
    if q in qs {
      var k: nat :| k < |qs| && qs[k] == q;
      WithoutAt(qs, q, k);
      i' := if i < k then i else i + 1;
      j' := if j < k then j else j + 1;
    } else {
      WithoutAbsent(qs, q);
      i', j' := i, j;
    }
  }

  // ---------------------------------------------------------------------- cache = recency

  lemma FindInEntries(best: Oracle, qs: seq<string>, q: string)
    ensures Cached(Entries(best, qs), q) <==> q in qs
    ensures Cached(Entries(best, qs), q) ==> qs[Find(Entries(best, qs), q)] == q
  {
    var entries := Entries(best, qs);
    if q in qs {
      var i: nat :| i < |qs| && qs[i] == q;
      assert entries[i].query == q;
    }
    if Cached(entries, q) {
      assert entries[Find(entries, q)].query == q;
    }
  }

  /** Where the last `c` elements start. */
  lemma LastSplit<T>(c: nat, s: seq<T>) returns (a: seq<T>)
    ensures s == a + Last(c, s) && |Last(c, s)| <= c
    ensures a == [] || |Last(c, s)| == c
  {
    a := s[..|s| - |Last(c, s)|];
  }

  lemma WithoutInTail(a: seq<string>, l: seq<string>, q: string, i: nat)
    requires Distinct(a + l) && i < |l| && l[i] == q
    ensures Without(a + l, q) == a + (l[..i] + l[i + 1..])
  {
    assert (a + l)[|a| + i] == q;
    WithoutAt(a + l, q, |a| + i);
    assert (a + l)[..|a| + i] == a + l[..i];
    assert (a + l)[|a| + i + 1..] == l[i + 1..];
  }

  lemma {:induction false} WithoutInHead(a: seq<string>, l: seq<string>, q: string)
    requires q !in l
    ensures Without(a + l, q) == Without(a, q) + l
  {
    if a == [] {
      assert a + l == l;
      WithoutAbsent(l, q);
    } else {
      assert (a + l)[1..] == a[1..] + l;
      WithoutInHead(a[1..], l, q);
    }
  }

  /** Asking for a query that is among the last `c` moves it to the end of them. */
  lemma {:induction false} LastAfterHit(c: nat, qs: seq<string>, q: string, i: nat)
    requires c > 0 && Distinct(qs) && i < |Last(c, qs)| && Last(c, qs)[i] == q
    ensures Last(c, Without(qs, q) + [q]) == Last(c, qs)[..i] + Last(c, qs)[i + 1..] + [q]
  {
    var l := Last(c, qs);
    var a := LastSplit(c, qs);
    var m := l[..i] + l[i + 1..];
    WithoutInTail(a, l, q, i);
    assert a + m + [q] == a + (m + [q]);
  }

  lemma LastAfterEviction(c: nat, w: seq<string>, l: seq<string>, q: string)
    requires |l| == c > 0
    ensures Last(c, w + l + [q]) == l[1..] + [q]
  {
    assert w + l + [q] == (w + [l[0]]) + (l[1..] + [q]);
  }

  /** The last `c` with `q` added, the oldest dropped if there were `c` already. */
  function Shifted(c: nat, l: seq<string>, q: string): seq<string> {
    (if |l| >= c && l != [] then l[1..] else l) + [q]
  }

  /** Asking for any other query drops the oldest of the last `c`, if there are that many, and adds it. */
  lemma {:induction false} LastAfterMiss(c: nat, qs: seq<string>, q: string)
    requires c > 0 && q !in Last(c, qs)
    ensures Last(c, Without(qs, q) + [q]) == Shifted(c, Last(c, qs), q)
  {
    var l := Last(c, qs);
    var a := LastSplit(c, qs);
    WithoutInHead(a, l, q);
    if |l| == c {
      LastAfterEviction(c, Without(a, q), l, q);
    } else {
      assert Without(qs, q) + [q] == [] + (l + [q]);
    }
  }

  lemma EntriesMove(best: Oracle, l: seq<string>, i: nat)
    requires i < |l|
    ensures MoveToEnd(Entries(best, l), i) == Entries(best, l[..i] + l[i + 1..] + [l[i]])
  {
  }

  /** One search for an answerable query keeps cache and recency list in step. */
  lemma {:induction false} SearchKeeps(c: nat, best: Oracle, qs: seq<string>, q: string)
    requires c > 0 && Distinct(qs) && best(q).Some?
    ensures AfterSearch(c, best(q), Entries(best, Last(c, qs)), q) == Entries(best, Last(c, Without(qs, q) + [q]))
  {
    var l := Last(c, qs);
    FindInEntries(best, l, q);
    if q in l {
      var i := Find(Entries(best, l), q);
      LastAfterHit(c, qs, q, i);
      EntriesMove(best, l, i);
    } else {
      LastAfterMiss(c, qs, q);
    }
  }

  lemma {:induction false} LastAnswerable(best: Oracle, ops: seq<Op>, c: nat, q: string)
    requires q in Last(c, Recency(best, ops))
    ensures best(q).Some?
  {
    RecencyDistinct(best, ops);
    var a := LastSplit(c, Recency(best, ops));
    assert q in Recency(best, ops);
  }

  /**
   For every trace and every capacity of at least one, the cache holds exactly the last
   `c` queries of the recency list, in order, each with the answer a fresh search ranks first.
   */
  lemma {:induction false} CacheIsRecency(c: nat, best: Oracle, ops: seq<Op>)
    requires c > 0
    ensures forall q :: q in Last(c, Recency(best, ops)) ==> best(q).Some?
    ensures Contents(c, best, ops) == Entries(best, Last(c, Recency(best, ops)))
  {
    forall q | q in Last(c, Recency(best, ops))
      ensures best(q).Some?
    {
      LastAnswerable(best, ops, c, q);
    }
    if ops == [] {
    } else {
      var n := |ops| - 1;
      var qs := Recency(best, ops[..n]);
      CacheIsRecency(c, best, ops[..n]);
      RecencyDistinct(best, ops[..n]);
      if ops[n].Ask? {
        var q := ops[n].query;
        if best(q).Some? {
          SearchKeeps(c, best, qs, q);
        } else {
          FindInEntries(best, Last(c, qs), q);
        }
      }
    }
  }

  lemma LastOfEntries(c: nat, best: Oracle, qs: seq<string>)
    ensures Last(c, Entries(best, qs)) == Entries(best, Last(c, qs))
  {
  }

  lemma LastOfLast<T>(c: nat, d: nat, s: seq<T>)
    requires c <= d
    ensures Last(c, Last(d, s)) == Last(c, s)
  {
  }

  /** Stack inclusion: a smaller cache holds the end of what a larger one holds after the same trace. */
  lemma {:induction false} StackInclusion(c: nat, d: nat, best: Oracle, ops: seq<Op>)
    requires 0 < c <= d
    ensures Contents(c, best, ops) == Last(c, Contents(d, best, ops))
  {
    CacheIsRecency(c, best, ops);
    CacheIsRecency(d, best, ops);
    LastOfLast(c, d, Recency(best, ops));
    LastOfEntries(c, best, Last(d, Recency(best, ops)));
  }

  lemma InLastIff(c: nat, qs: seq<string>, q: string)
    ensures q in Last(c, qs) <==> exists p: nat :: p < |qs| && qs[p] == q && |qs| - p <= c
  {
    var a := LastSplit(c, qs);
    var l := Last(c, qs);
    if q in l {
      var i: nat :| i < |l| && l[i] == q;
      assert qs[|a| + i] == q;
    }
    if p: nat :| p < |qs| && qs[p] == q && |qs| - p <= c {
      assert l[p - |a|] == q;
    }
  }

  /**
   The next search for `q` is answered from the cache exactly when `q` stands among the
   last `c` of the recency list; the answer is then what a fresh search would rank first.
   */
  lemma {:induction false} HitIffRecent(c: nat, best: Oracle, ops: seq<Op>, q: string)
    requires c > 0
    ensures Cached(Contents(c, best, ops), q) <==>
            exists p: nat :: p < |Recency(best, ops)| && Recency(best, ops)[p] == q && |Recency(best, ops)| - p <= c
    ensures Cached(Contents(c, best, ops), q) ==>
            Some(Contents(c, best, ops)[Find(Contents(c, best, ops), q)].hit) == best(q)
  {
    CacheIsRecency(c, best, ops);
    FindInEntries(best, Last(c, Recency(best, ops)), q);
    InLastIff(c, Recency(best, ops), q);
  }
}
