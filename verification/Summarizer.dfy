/**
 The two-lock "push, then trim" of the session summariser. A call pushes its item under one
 acquisition of the lock and removes at most one item from the front under a second one;
 any number of other calls can run in between. The limit is 15 for errors and their fixes and
 50 for events; everything here holds for every limit.
 */
module Summarizer {

  /** `pending` holds the calls that have pushed and not yet trimmed; `log` everything ever pushed. */
  datatype Shared<T> = Shared(items: seq<T>, log: seq<T>, pending: set<nat>, nextCall: nat)

  datatype Event<T> = Push(item: T) | Trim(call: nat)

  function Step<T>(limit: nat, s: Shared<T>, e: Event<T>): Shared<T> {
    match e
    case Push(item) => Shared(s.items + [item], s.log + [item], s.pending + {s.nextCall}, s.nextCall + 1)
    case Trim(call) =>
      if call !in s.pending then s
      else s.(items := if |s.items| > limit then s.items[1..] else s.items, pending := s.pending - {call})
  }

  function Run<T>(limit: nat, events: seq<Event<T>>): Shared<T> {
    if events == [] then Shared([], [], {}, 0)
    else Step(limit, Run(limit, events[..|events| - 1]), events[|events| - 1])
  }

  /** The part of the summary behind the lock; each method is one critical section. */
  class LockedList<T> {
    const limit: nat
    var items: seq<T>
    ghost var log: seq<T>
    ghost var pending: set<nat>
    ghost var nextCall: nat

    ghost function State(): Shared<T>
      reads this
    {
      Shared(items, log, pending, nextCall)
    }

    constructor (limit: nat)
      ensures this.limit == limit && State() == Run<T>(limit, [])
    {
      this.limit := limit;
      items, log, pending, nextCall := [], [], {}, 0;
    }

    /** First acquisition: the item goes to the end. */
    method PushItem(item: T) returns (ghost call: nat)
      modifies this
      ensures State() == Step(limit, old(State()), Push(item)) && call == old(nextCall)
    {
      call := nextCall;
      items := items + [item];
      log, pending, nextCall := log + [item], pending + {nextCall}, nextCall + 1;
    }

    /** Second acquisition: at most one item leaves the front. */
    method TrimOne(ghost call: nat)
      requires call in pending
      modifies this
      ensures State() == Step(limit, old(State()), Trim(call))
    {
      if |items| > limit {
        items := items[1..];
      }
      pending := pending - {call};
    }
  }

  function Min(a: nat, b: nat): nat {
    if a < b then a else b
  }

  ghost predicate SuffixOf<T>(s: seq<T>, log: seq<T>) {
    |s| <= |log| && s == log[|log| - |s|..]
  }

  ghost predicate Inv<T>(limit: nat, s: Shared<T>) {
    && SuffixOf(s.items, s.log)
    && Min(limit, |s.log|) <= |s.items| <= limit + |s.pending|
    && forall c :: c in s.pending ==> c < s.nextCall
  }

  lemma {:induction false} StepKeeps<T>(limit: nat, s: Shared<T>, e: Event<T>)
    requires Inv(limit, s)
    ensures Inv(limit, Step(limit, s, e))
  {
    var s' := Step(limit, s, e);
    match e
    case Push(item) =>
      assert s.nextCall !in s.pending;
      assert |s'.pending| == |s.pending| + 1;
    case Trim(call) =>
      if call in s.pending {
        assert |s'.pending| == |s.pending| - 1;
      }
  }

  /** In every interleaving the list is a contiguous suffix of what was pushed, never shorter than
      the limit allows, and longer by at most the calls between push and trim. */
  lemma {:induction false} AlwaysRecentSuffix<T>(limit: nat, events: seq<Event<T>>)
    ensures Inv(limit, Run(limit, events))
  {
    if events == [] {
    } else {
      AlwaysRecentSuffix(limit, events[..|events| - 1]);
      StepKeeps(limit, Run(limit, events[..|events| - 1]), events[|events| - 1]);
    }
  }

  /** With no call between its push and its trim, the list is exactly the last `limit` pushes. */
  lemma {:induction false} QuiescentIsLast<T>(limit: nat, events: seq<Event<T>>)
    requires Run(limit, events).pending == {}
    ensures var s := Run(limit, events);
      SuffixOf(s.items, s.log) && |s.items| == Min(limit, |s.log|)
  {
    AlwaysRecentSuffix(limit, events);
  }

  // ----------------------------------------------------------------------------- the exact length

  /** At moment `m` of the run the list has been filled. */
  ghost predicate FilledAt<T>(limit: nat, events: seq<Event<T>>, m: nat) {
    m <= |events| && |Run(limit, events[..m]).log| >= limit
  }

  /** The calls between push and trim at moment `m`. */
  ghost function InBetweenAt<T>(limit: nat, events: seq<Event<T>>, m: nat): nat
    requires m <= |events|
  {
    |Run(limit, events[..m]).pending|
  }

  /** The fewest calls in between at any moment since the list first filled. */
  function Fewest<T>(limit: nat, events: seq<Event<T>>): nat {
    var now := |Run(limit, events).pending|;
    if events == [] || |Run(limit, events[..|events| - 1]).log| < limit then now
    else Min(Fewest(limit, events[..|events| - 1]), now)
  }

  /** Every push lengthens the list, and a trim shortens it unless it meets the limit. */
  ghost predicate ExactLength<T>(limit: nat, s: Shared<T>, fewest: nat) {
    && fewest <= |s.pending|
    && |s.items| == if |s.log| < limit then |s.log| else limit + |s.pending| - fewest
  }

  lemma {:induction false} LengthIsExact<T>(limit: nat, events: seq<Event<T>>)
    ensures ExactLength(limit, Run(limit, events), Fewest(limit, events))
  {
    if events == [] {
    } else {
      var front := events[..|events| - 1];
      LengthIsExact(limit, front);
      AlwaysRecentSuffix(limit, front);
    }
  }

  lemma {:induction false} FewestBounds<T>(limit: nat, events: seq<Event<T>>, m: nat)
    requires FilledAt(limit, events, m)
    ensures Fewest(limit, events) <= InBetweenAt(limit, events, m)
    decreases |events|
  {
    if m == |events| {
      assert events[..m] == events;
    } else {
      var front := events[..|events| - 1];
      assert front[..m] == events[..m];
      LogGrows(limit, front, m);
      FewestBounds(limit, front, m);
    }
  }

  lemma {:induction false} LogGrows<T>(limit: nat, events: seq<Event<T>>, m: nat)
    requires m <= |events|
    ensures |Run(limit, events[..m]).log| <= |Run(limit, events).log|
    decreases |events|
  {
    if m == |events| {
      assert events[..m] == events;
    } else {
      var front := events[..|events| - 1];
      assert front[..m] == events[..m];
      LogGrows(limit, front, m);
    }
  }

  lemma {:induction false} FewestIsReached<T>(limit: nat, events: seq<Event<T>>) returns (m: nat)
    requires |Run(limit, events).log| >= limit
    ensures FilledAt(limit, events, m) && InBetweenAt(limit, events, m) == Fewest(limit, events)
    decreases |events|
  {
    m := |events|;
    assert events[..m] == events;
    if events == [] {
    } else {
      var front := events[..|events| - 1];
      if |Run(limit, front).log| >= limit && Fewest(limit, front) <= |Run(limit, events).pending| {
        m := FewestIsReached(limit, front);
        assert front[..m] == events[..m];
      }
    }
  }

  /**
   The list is over its limit if and only if at some moment since it filled fewer calls stood
   between their push and their trim than do now; otherwise it is exactly the last pushes.
   */
  lemma OverLimitIff<T>(limit: nat, events: seq<Event<T>>)
    ensures |Run(limit, events).items| > limit <==>
            exists m: nat :: FilledAt(limit, events, m) && InBetweenAt(limit, events, m) < |Run(limit, events).pending|
    ensures |Run(limit, events).items| <= limit ==> |Run(limit, events).items| == Min(limit, |Run(limit, events).log|)
  {
    LengthIsExact(limit, events);
    if |Run(limit, events).items| > limit {
      var m := FewestIsReached(limit, events);
      assert FilledAt(limit, events, m) && InBetweenAt(limit, events, m) < |Run(limit, events).pending|;
    }
    if m: nat :| FilledAt(limit, events, m) && InBetweenAt(limit, events, m) < |Run(limit, events).pending| {
      FewestBounds(limit, events, m);
      LogGrows(limit, events, m);
    }
  }

  // ------------------------------------------------------------------------- the bound is reached

  /** `n` calls, each trimming before the next one pushes. */
  function Served<T>(item: T, n: nat): seq<Event<T>> {
    if n == 0 then [] else Served(item, n - 1) + [Push(item)] + [Trim(n - 1)]
  }

  lemma RunSnoc<T>(limit: nat, events: seq<Event<T>>, e: Event<T>)
    ensures Run(limit, events + [e]) == Step(limit, Run(limit, events), e)
  {
    assert (events + [e])[..|events|] == events;
  }

  lemma {:induction false} ServedFills<T>(limit: nat, item: T, n: nat)
    requires n <= limit
    ensures var s := Run(limit, Served(item, n));
      |s.items| == n && s.pending == {} && s.nextCall == n
  {
    if n == 0 {
    } else {
      ServedFills(limit, item, n - 1);
      var before := Served(item, n - 1);
      RunSnoc(limit, before, Push(item));
      RunSnoc(limit, before + [Push(item)], Trim(n - 1));
    }
  }

  lemma {:induction false} PushesPileUp<T>(limit: nat, item: T, k: nat) returns (events: seq<Event<T>>)
    ensures var s := Run(limit, events);
      |s.items| == limit + k && |s.pending| == k && forall c :: c in s.pending ==> c < s.nextCall
  {
    if k == 0 {
      events := Served(item, limit);
      ServedFills(limit, item, limit);
    } else {
      events := PushesPileUp(limit, item, k - 1);
      RunSnoc(limit, events, Push(item));
      events := events + [Push(item)];
    }
  }

  /** Whatever the limit, `k` calls between push and trim can leave `k` items too many. */
  lemma SlackIsReached<T>(limit: nat, item: T, k: nat)
    ensures exists events: seq<Event<T>> ::
      |Run(limit, events).items| == limit + k && |Run(limit, events).pending| == k
  {
    var events := PushesPileUp(limit, item, k);
  }
}
