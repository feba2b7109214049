/**
 The retrieval middleware: a vector-based LRU cache in front of the memory hub, and the
 search that consults it, gathers and ranks the hub's answers, and caches the best one.
 Scores are real numbers; the hub and the formatting of a score are parameters.
 */
module Rag {
  import Decimal
  import opened Wrappers

  datatype Hit = Hit(text: string, score: real)

  datatype CacheEntry = CacheEntry(query: string, hit: Hit)

  datatype Source = FromCache | FromNothing | FromHub

  /** The answer of a search; an average of nothing is not a number. */
  datatype RagContext = RagContext(prefix: string, chunksFound: nat, avgScore: Option<real>, source: Source)

  datatype Config = Config(topK: nat, minScore: real)

  type Hub = (string, nat) -> seq<Hit>

  // ---------------------------------------------------------------------------- the cache

  /** The position of the first entry for `query`, or the number of entries. */
  function Find(entries: seq<CacheEntry>, query: string): (i: nat)
    ensures i <= |entries|
    ensures forall j :: 0 <= j < i ==> entries[j].query != query
    ensures i < |entries| ==> entries[i].query == query
  {
    if entries == [] || entries[0].query == query then 0 else 1 + Find(entries[1..], query)
  }

  predicate Cached(entries: seq<CacheEntry>, query: string) {
    Find(entries, query) < |entries|
  }

  /** The entries with the one at `i` moved to the most recently used end. */
  function MoveToEnd(entries: seq<CacheEntry>, i: nat): seq<CacheEntry>
    requires i < |entries|
  {
    entries[..i] + entries[i + 1..] + [entries[i]]
  }

  function Push(capacity: nat, entries: seq<CacheEntry>, entry: CacheEntry): seq<CacheEntry>
    requires capacity > 0 || entries != []
  {
    (if |entries| >= capacity then entries[1..] else entries) + [entry]
  }

  class LruCache {
    const capacity: nat
    var entries: seq<CacheEntry>

    constructor (capacity: nat)
      ensures this.capacity == capacity && entries == []
    {
      this.capacity := capacity;
      entries := [];
    }

    method Get(query: string) returns (found: Option<Hit>)
      modifies this`entries
      ensures found.Some? <==> Cached(old(entries), query)
      ensures found.None? ==> entries == old(entries)
      ensures found.Some? ==>
        && entries == MoveToEnd(old(entries), Find(old(entries), query))
        && entries[|entries| - 1] == CacheEntry(query, found.value)
    {
      var i := 0;
      while i < |entries| && entries[i].query != query
        invariant 0 <= i <= |entries|
        invariant Find(entries, query) >= i
      {
        i := i + 1;
      }
      if i == |entries| {
        return None;
      }
      var entry := entries[i];
      entries := entries[..i] + entries[i + 1..];
      entries := entries + [entry];
      return Some(entry.hit);
    }

    /** Returns false for the panic of evicting from an empty vector, which takes a capacity of zero. */
    method Put(query: string, hit: Hit) returns (ok: bool)
      modifies this`entries
      ensures ok <==> capacity > 0 || old(entries) != []
      ensures entries == if ok then Push(capacity, old(entries), CacheEntry(query, hit)) else old(entries)
    {
      if |entries| >= capacity {
        if entries == [] {
          return false;
        }
        entries := entries[1..];
      }
      entries := entries + [CacheEntry(query, hit)];
      return true;
    }

    method Clear()
      modifies this`entries
      ensures entries == []
    {
      entries := [];
    }
  }

  // --------------------------------------------------------------------- gathering answers

  /** The answers reaching the threshold, in order. */
  function Strong(results: seq<Hit>, minScore: real): seq<Hit> {
    if results == [] then []
    else
      var rest := Strong(results[..|results| - 1], minScore);
      var r := results[|results| - 1];
      if r.score >= minScore then rest + [r] else rest
  }

  predicate HasText(all: seq<Hit>, text: string) {
    exists i :: 0 <= i < |all| && all[i].text == text
  }

  /** `all` extended by the answers that reach 85% of the threshold and whose text is not there yet. */
  function Broaden(all: seq<Hit>, results: seq<Hit>, minScore: real): seq<Hit> {
    if results == [] then all
    else
      var rest := Broaden(all, results[..|results| - 1], minScore);
      var r := results[|results| - 1];
      if r.score >= minScore * 0.85 && !HasText(rest, r.text) then rest + [r] else rest
  }

  function Gather(config: Config, hub: Hub, query: string): seq<Hit> {
    var all := Strong(hub(query, config.topK), config.minScore);
    if |all| < config.topK then Broaden(all, hub(query, config.topK * 2), config.minScore) else all
  }

  lemma {:induction false} StrongMembers(results: seq<Hit>, minScore: real, h: Hit)
    ensures h in Strong(results, minScore) <==> h in results && h.score >= minScore
  {
    if results == [] {
    } else {
      var n := |results| - 1;
      StrongMembers(results[..n], minScore, h);
      assert results == results[..n] + [results[n]];
    }
  }

  /** What broadening makes of `all`: an extension by qualifying answers, each text new. */
  ghost predicate Broadens(all: seq<Hit>, results: seq<Hit>, minScore: real, wide: seq<Hit>) {
    && all <= wide
    && (forall k :: |all| <= k < |wide| ==> wide[k] in results && wide[k].score >= minScore * 0.85)
    && (forall i, k :: 0 <= i < k < |wide| && |all| <= k ==> wide[i].text != wide[k].text)
    && (forall k :: 0 <= k < |results| && results[k].score >= minScore * 0.85 ==> HasText(wide, results[k].text))
  }

  lemma HasTextKept(wide: seq<Hit>, h: Hit, text: string)
    ensures HasText(wide + [h], text) <==> HasText(wide, text) || h.text == text
  {
    if HasText(wide, text) {
      var i :| 0 <= i < |wide| && wide[i].text == text;
      assert (wide + [h])[i].text == text;
    }
    assert (wide + [h])[|wide|] == h;
  }

  /** Broadening adds qualifying answers only, repeats no text, and leaves no qualifying text out. */
  lemma {:induction false} BroadenCovers(all: seq<Hit>, results: seq<Hit>, minScore: real)
    ensures Broadens(all, results, minScore, Broaden(all, results, minScore))
  {
    if results == [] {
    } else {
      var (front, r) := (results[..|results| - 1], results[|results| - 1]);
      BroadenCovers(all, front, minScore);
      BroadenStep(all, front, minScore, Broaden(all, front, minScore), r);
      assert results == front + [r];
    }
  }

  lemma BroadenStep(all: seq<Hit>, results: seq<Hit>, minScore: real, wide: seq<Hit>, r: Hit)
    requires Broadens(all, results, minScore, wide)
    ensures Broadens(all, results + [r], minScore,
                     if r.score >= minScore * 0.85 && !HasText(wide, r.text) then wide + [r] else wide)
  {
    forall k | 0 <= k < |results|
      ensures HasText(wide + [r], results[k].text) <==> HasText(wide, results[k].text) || r.text == results[k].text
    {
      HasTextKept(wide, r, results[k].text);
    }
    HasTextKept(wide, r, r.text);
    forall i | 0 <= i < |wide|
      ensures !HasText(wide, r.text) ==> wide[i].text != r.text
    {
    }
  }

  /** No answer reaches the threshold, and none of the wider search, if there is one, reaches 85% of it. */
  ghost predicate NothingReaches(config: Config, hub: Hub, query: string) {
    && (forall h :: h in hub(query, config.topK) ==> h.score < config.minScore)
    && (config.topK == 0 || forall h :: h in hub(query, config.topK * 2) ==> h.score < config.minScore * 0.85)
  }

  lemma {:induction false} NothingGatheredIff(config: Config, hub: Hub, query: string)
    ensures Gather(config, hub, query) == [] <==> NothingReaches(config, hub, query)
  {
    var (first, second) := (hub(query, config.topK), hub(query, config.topK * 2));
    var strong := Strong(first, config.minScore);
    forall h
      ensures h in strong <==> h in first && h.score >= config.minScore
    {
      StrongMembers(first, config.minScore, h);
    }
    assert strong == [] <==> forall h :: h in first ==> h.score < config.minScore by {
      assert strong != [] ==> strong[0] in first;
    }
    BroadenCovers(strong, second, config.minScore);
    BroadenedNothing(strong, second, config.minScore, Broaden(strong, second, config.minScore));
  }

  lemma BroadenedNothing(all: seq<Hit>, results: seq<Hit>, minScore: real, wide: seq<Hit>)
    requires Broadens(all, results, minScore, wide)
    ensures wide == [] <==> all == [] && forall h :: h in results ==> h.score < minScore * 0.85
  {
    if wide == [] {
      assert forall k :: 0 <= k < |results| && results[k].score >= minScore * 0.85 ==> HasText(wide, results[k].text);
    } else if all == [] {
      assert wide[0] in results;
    }
  }

  /** Stable insertion by decreasing score: `h` comes before what follows it in the input and scores no more. */
  function InsertByScore(h: Hit, sorted: seq<Hit>): seq<Hit> {
    if sorted == [] || h.score >= sorted[0].score then [h] + sorted
    else [sorted[0]] + InsertByScore(h, sorted[1..])
  }

  /** The stable sort by decreasing score that the search applies. */
  function SortByScore(all: seq<Hit>): seq<Hit> {
    if all == [] then [] else InsertByScore(all[0], SortByScore(all[1..]))
  }

  function Take(n: nat, s: seq<Hit>): seq<Hit> {
    if |s| <= n then s else s[..n]
  }

  /** What a search that misses the cache returns, best first. */
  function Ranked(config: Config, hub: Hub, query: string): seq<Hit> {
    Take(config.topK, SortByScore(Gather(config, hub, query)))
  }

  /** What a search that misses the cache would put there. */
  function Best(config: Config, hub: Hub, query: string): Option<Hit> {
    var ranked := Ranked(config, hub, query);
    if ranked == [] then None else Some(ranked[0])
  }

  /** The mean score; for an empty list the source divides zero by zero. */
  function Average(s: seq<Hit>): Option<real> {
    if s == [] then None else Some(SumOfScores(s) / (|s| as real))
  }

  function SumOfScores(s: seq<Hit>): real {
    if s == [] then 0.0 else SumOfScores(s[..|s| - 1]) + s[|s| - 1].score
  }

  /** `k` is the earliest position of a maximal score. */
  ghost predicate EarliestMaximum(all: seq<Hit>, k: nat) {
    && k < |all|
    && (forall i :: 0 <= i < |all| ==> all[i].score <= all[k].score)
    && (forall i :: 0 <= i < k ==> all[i].score < all[k].score)
  }

  /** The head of the stable sort is the earliest answer of maximal score. */
  lemma {:induction false} SortHead(all: seq<Hit>) returns (k: nat)
    requires all != []
    ensures EarliestMaximum(all, k)
    ensures |SortByScore(all)| == |all| && SortByScore(all)[0] == all[k]
  {
    InsertLength(all[0], SortByScore(all[1..]));
    if |all| == 1 {
      k := 0;
      assert SortByScore(all[1..]) == [];
    } else {
      var k' := SortHead(all[1..]);
      assert forall i :: 0 <= i < |all[1..]| ==> all[1..][i] == all[i + 1];
      k := if all[0].score >= all[k' + 1].score then 0 else k' + 1;
      forall i | 0 <= i < |all|
        ensures all[i].score <= all[k].score && (i < k ==> all[i].score < all[k].score)
      {
        if i > 0 {
          assert all[1..][i - 1] == all[i];
        }
      }
    }
  }

  lemma {:induction false} InsertLength(h: Hit, sorted: seq<Hit>)
    ensures |InsertByScore(h, sorted)| == |sorted| + 1
  {
    if sorted != [] && h.score < sorted[0].score {
      InsertLength(h, sorted[1..]);
    }
  }

  lemma {:induction false} SortLength(all: seq<Hit>)
    ensures |SortByScore(all)| == |all|
  {
    if all == [] {
    } else {
      SortLength(all[1..]);
      InsertLength(all[0], SortByScore(all[1..]));
    }
  }

  ghost predicate Descending(s: seq<Hit>) {
    forall i, j :: 0 <= i < j < |s| ==> s[i].score >= s[j].score
  }

  lemma {:induction false} InsertMultiset(h: Hit, sorted: seq<Hit>)
    ensures multiset(InsertByScore(h, sorted)) == multiset{h} + multiset(sorted)
  {
    if sorted != [] && h.score < sorted[0].score {
      InsertMultiset(h, sorted[1..]);
      assert sorted == [sorted[0]] + sorted[1..];
    }
  }

  lemma {:induction false} InsertBelow(h: Hit, sorted: seq<Hit>, bound: real)
    requires h.score <= bound && forall i :: 0 <= i < |sorted| ==> sorted[i].score <= bound
    ensures forall i :: 0 <= i < |InsertByScore(h, sorted)| ==> InsertByScore(h, sorted)[i].score <= bound
  {
    if sorted != [] && h.score < sorted[0].score {
      InsertBelow(h, sorted[1..], bound);
    }
  }

  lemma {:induction false} InsertDescends(h: Hit, sorted: seq<Hit>)
    requires Descending(sorted)
    ensures Descending(InsertByScore(h, sorted))
  {
    if sorted != [] && h.score < sorted[0].score {
      InsertDescends(h, sorted[1..]);
      InsertBelow(h, sorted[1..], sorted[0].score);
    }
  }

  /** The ranking reorders the gathered answers by decreasing score and loses none. */
  lemma {:induction false} SortSorts(all: seq<Hit>)
    ensures Descending(SortByScore(all)) && multiset(SortByScore(all)) == multiset(all)
  {
    if all == [] {
    } else {
      SortSorts(all[1..]);
      InsertDescends(all[0], SortByScore(all[1..]));
      InsertMultiset(all[0], SortByScore(all[1..]));
      assert all == [all[0]] + all[1..];
    }
  }

  /** The cached value is the earliest gathered answer of maximal score; nothing is cached exactly
      when nothing was gathered or `topK` is zero. */
  lemma {:induction false} BestIsEarliestMaximum(config: Config, hub: Hub, query: string)
    ensures Best(config, hub, query).None? <==> Gather(config, hub, query) == [] || config.topK == 0
    ensures Best(config, hub, query).Some? ==>
      exists k: nat :: EarliestMaximum(Gather(config, hub, query), k)
        && Best(config, hub, query).value == Gather(config, hub, query)[k]
  {
    var all := Gather(config, hub, query);
    SortLength(all);
    if all != [] && config.topK > 0 {
      var k := SortHead(all);
      assert EarliestMaximum(all, k) && Best(config, hub, query).value == all[k];
    }
  }

  // ----------------------------------------------------------------------------- the search

  /** A search panics when it has to cache an answer in a cache of capacity zero. */
  predicate Panics(capacity: nat, best: Option<Hit>, entries: seq<CacheEntry>, query: string) {
    capacity == 0 && entries == [] && best.Some? && !Cached(entries, query)
  }

  /** What one search does to the cache when `best` is what a fresh search would rank first. */
  function AfterSearch(capacity: nat, best: Option<Hit>, entries: seq<CacheEntry>, query: string): seq<CacheEntry>
    requires !Panics(capacity, best, entries, query)
  {
    if Cached(entries, query) then MoveToEnd(entries, Find(entries, query))
    else match best
      case None => entries
      case Some(hit) => Push(capacity, entries, CacheEntry(query, hit))
  }

  method KeepStrong(results: seq<Hit>, minScore: real) returns (all: seq<Hit>)
    ensures all == Strong(results, minScore)
  {
    all := [];
    for i := 0 to |results|
      invariant all == Strong(results[..i], minScore)
    {
      assert results[..i + 1][..i] == results[..i];
      if results[i].score >= minScore {
        all := all + [results[i]];
      }
    }
    assert results[..|results|] == results;
  }

  method KeepBroad(first: seq<Hit>, results: seq<Hit>, minScore: real) returns (all: seq<Hit>)
    ensures all == Broaden(first, results, minScore)
  {
    all := first;
    for i := 0 to |results|
      invariant all == Broaden(first, results[..i], minScore)
    {
      assert results[..i + 1][..i] == results[..i];
      if results[i].score >= minScore * 0.85 && !HasText(all, results[i].text) {
        all := all + [results[i]];
      }
    }
    assert results[..|results|] == results;
  }

  const CACHE_TITLE: string := "📚 Mémoire pertinente " + "(cache):\n"
  const HUB_TITLE: string := "📚 Contexte mémoire " + "pertinent:\n"

  function HitLine(show: real -> string, i: nat, h: Hit): string {
    "[" + Decimal.Text(i) + "] (score: " + show(h.score) + ") " + h.text + "\n"
  }

  /** The ranked answers, one numbered line each. */
  function HitLines(show: real -> string, ranked: seq<Hit>): string {
    if ranked == [] then ""
    else
      var n := |ranked| - 1;
      HitLines(show, ranked[..n]) + HitLine(show, n, ranked[n])
  }

  method FormatHits(show: real -> string, ranked: seq<Hit>) returns (prefix: string)
    ensures prefix == HUB_TITLE + HitLines(show, ranked) + "---\n"
  {
    prefix := HUB_TITLE;
    for i := 0 to |ranked|
      invariant prefix == HUB_TITLE + HitLines(show, ranked[..i])
    {
      assert ranked[..i + 1][..i] == ranked[..i];
      prefix := prefix + HitLine(show, i, ranked[i]);
    }
    assert ranked[..|ranked|] == ranked;
    prefix := prefix + "---\n";
  }

  class RagMiddleware {
    const config: Config
    const cache: LruCache
    /** Two decimals of a score. */
    const show: real -> string

    constructor (config: Config, capacity: nat, show: real -> string)
      ensures this.config == config && cache.capacity == capacity && cache.entries == [] && this.show == show
      ensures fresh(cache)
    {
      this.config := config;
      this.show := show;
      cache := new LruCache(capacity);
    }

    /** `None` is the panic of caching an answer without capacity. */
    method Search(query: string, hub: Hub) returns (result: Option<RagContext>)
      modifies cache`entries
      ensures result.None? <==> Panics(cache.capacity, Best(config, hub, query), old(cache.entries), query)
      ensures cache.entries ==
        if result.None? then old(cache.entries)
        else AfterSearch(cache.capacity, Best(config, hub, query), old(cache.entries), query)
      ensures Cached(old(cache.entries), query) ==>
        var hit := old(cache.entries)[Find(old(cache.entries), query)].hit;
        result == Some(RagContext(CACHE_TITLE + hit.text + "\n", 1, Some(hit.score), FromCache))
      ensures !Cached(old(cache.entries), query) && Gather(config, hub, query) == [] ==>
        result == Some(RagContext("", 0, Some(0.0), FromNothing))
      ensures !Cached(old(cache.entries), query) && result.Some? ==>
        (result.value.source == FromNothing <==> NothingReaches(config, hub, query))
      ensures !Cached(old(cache.entries), query) && Gather(config, hub, query) != [] && result.Some? ==>
        var ranked := Ranked(config, hub, query);
        result.value == RagContext(HUB_TITLE + HitLines(show, ranked) + "---\n", |ranked|, Average(ranked), FromHub)
    {
      var cached := cache.Get(query);
      if cached.Some? {
        return Some(RagContext(CACHE_TITLE + cached.value.text + "\n", 1, Some(cached.value.score), FromCache));
      }
      NothingGatheredIff(config, hub, query);
      var all := KeepStrong(hub(query, config.topK), config.minScore);
      if |all| < config.topK {
        all := KeepBroad(all, hub(query, config.topK * 2), config.minScore);
      }
      if all == [] {
        BestIsEarliestMaximum(config, hub, query);
        return Some(RagContext("", 0, Some(0.0), FromNothing));
      }
      SortLength(all);
      all := Take(config.topK, SortByScore(all));
      var avg := Average(all);
      var prefix := FormatHits(show, all);
      if all != [] {
        var ok := cache.Put(query, all[0]);
        if !ok {
          return None;
        }
      }
      return Some(RagContext(prefix, |all|, avg, FromHub));
    }
  }
}
