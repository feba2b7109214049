/**
 What the clock has to do for the audit journal to verify (`VerifiedIffClockAdvances`) and
 for exactly its prefixes to verify (`PrefixesVerifyIffClockAdvances`), and what happens when
 it does not.
 */
module AuditClock {
  import opened ByteOrder
  import opened Decimal
  import opened OrderedStore
  import opened Audit
  import opened AuditRuns
  import opened AuditIntegrity

  /** Counters below this fit the eight digits of their field. */
  const COUNTER_LIMIT: nat := 100_000_000

  lemma StampOrder(t: I64, u: I64)
    requires 0 <= t && 0 <= u
    ensures |FormatSigned(20, t)| == |FormatSigned(20, u)| == 20
    ensures Less(FormatSigned(20, t), FormatSigned(20, u)) <==> t < u
    ensures FormatSigned(20, t) == FormatSigned(20, u) <==> t == u
  {
    assert Pow10(10) == 10_000_000_000;
    assert Pow10(15) == 1_000_000_000_000_000;
    assert Pow10(20) == 100_000_000_000_000_000_000;
    FormatOrder(20, t, u);
    FormatLength(20, t);
    FormatLength(20, u);
  }

  lemma CounterOrder(c: nat, d: nat)
    requires c < COUNTER_LIMIT && d < COUNTER_LIMIT
    ensures Less(Format(8, c), Format(8, d)) <==> c < d
  {
    assert Pow10(8) == 100_000_000;
    FormatOrder(8, c, d);
  }

  /** Keys of non-negative timestamps and counters below 10^8 are ordered by timestamp, then counter. */
  lemma KeyOrder(t: I64, c: nat, u: I64, d: nat)
    requires 0 <= t && 0 <= u && c < COUNTER_LIMIT && d < COUNTER_LIMIT
    ensures Less(Key(t, c), Key(u, d)) <==> t < u || (t == u && c < d)
  {
    StampOrder(t, u);
    CounterOrder(c, d);
    LessSeparated(FormatSigned(20, t), Format(8, c), FormatSigned(20, u), Format(8, d), UNDERSCORE);
  }

  /** How many appends the current session has made. */
  function SessionLength(events: seq<Event>): nat {
    if events == [] || events[|events| - 1].Reopen? then 0
    else 1 + SessionLength(events[..|events| - 1])
  }

  /** Timestamps are not before the epoch and no session makes 10^8 appends. */
  predicate InRange(events: seq<Event>) {
    events == [] ||
    var (front, event) := (events[..|events| - 1], events[|events| - 1]);
    InRange(front) && (event.Log? ==> event.timestamp >= 0 && SessionLength(front) + 1 < COUNTER_LIMIT)
  }

  /** `t` is not before the last append of `events`, and strictly after it once the log was reopened. */
  predicate After(events: seq<Event>, t: int, reopened: bool) {
    events == [] ||
    match events[|events| - 1]
    case Reopen => After(events[..|events| - 1], t, true)
    case Log(u, _, _, _) => if reopened then u < t else u <= t
  }

  /** The clock never steps back inside a session and has moved on when a new session first appends. */
  predicate ClockAdvances(events: seq<Event>) {
    events == [] ||
    var (front, event) := (events[..|events| - 1], events[|events| - 1]);
    ClockAdvances(front) && (event.Log? ==> After(front, event.timestamp, false))
  }

  ghost predicate RecordInRange(r: Record) {
    r.entry.timestamp >= 0 && 0 < r.counter < COUNTER_LIMIT && r.key == Key(r.entry.timestamp, r.counter)
  }

  /** `t` is past the last append of `h`; `strict` when a session boundary lies between. */
  ghost predicate PastLast(h: History, t: int, strict: bool) {
    h == [] || (var u := h[|h| - 1].entry.timestamp; if strict then u < t else u <= t)
  }

  /** What a run in range leaves behind, in terms of the events. */
  lemma {:induction false} RunInRange(sha: Bytes -> Bytes, events: seq<Event>)
    requires HexDigests(sha) && InRange(events)
    ensures Run(sha, events).session.counter == SessionLength(events)
    ensures var (h, n) := (Run(sha, events).history, |Run(sha, events).history|);
      && (h != [] ==> RecordInRange(h[n - 1]))
      && (SessionLength(events) > 0 ==> h != [] && h[n - 1].counter == SessionLength(events))
  {
    if events == [] {
    } else {
      RunInRange(sha, events[..|events| - 1]);
    }
  }

  /** The last append of a run, as the events and as the history show it. */
  lemma {:induction false} AfterLastRecord(sha: Bytes -> Bytes, events: seq<Event>, t: int, reopened: bool)
    requires HexDigests(sha)
    ensures After(events, t, reopened) <==>
            PastLast(Run(sha, events).history, t, reopened || SessionLength(events) == 0)
  {
    if events != [] && events[|events| - 1].Reopen? {
      AfterLastRecord(sha, events[..|events| - 1], t, true);
    }
  }

  lemma AscendingSnoc(h: History, r: Record)
    ensures Ascending(h + [r]) <==> Ascending(h) && (h == [] || Less(h[|h| - 1].key, r.key))
  {
    if Ascending(h + [r]) {
      AscendingFront(h, r);
    }
    if Ascending(h) && (h == [] || Less(h[|h| - 1].key, r.key)) {
      forall i: nat, j: nat | i < j < |h| + 1
        ensures Less((h + [r])[i].key, (h + [r])[j].key)
      {
        if j == |h| && i < j - 1 {
          LessTransitive(h[i].key, h[j - 1].key, r.key);
        }
      }
    }
  }

  /** The key after one with counter `c`, `n` appends into a session that last wrote counter `n`. */
  lemma KeyStep(t: I64, c: nat, u: I64, n: nat)
    requires 0 <= t && 0 <= u && 0 < c < COUNTER_LIMIT && n + 1 < COUNTER_LIMIT && (n > 0 ==> c == n)
    ensures Less(Key(t, c), Key(u, n + 1)) <==> if n == 0 then t < u else t <= u
  {
    KeyOrder(t, c, u, n + 1);
  }

  /** One append: its key is past the last one exactly when the clock has behaved. */
  lemma {:induction false} LogAscends(h: History, r: Record, n: nat)
    requires RecordInRange(r) && r.counter == n + 1
    requires h != [] ==> RecordInRange(h[|h| - 1])
    requires n > 0 ==> h != [] && h[|h| - 1].counter == n
    ensures Ascending(h + [r]) <==> Ascending(h) && PastLast(h, r.entry.timestamp, n == 0)
  {
    if h != [] {
      var last := h[|h| - 1];
      KeyStep(last.entry.timestamp, last.counter, r.entry.timestamp, n);
    }
    AscendingSnoc(h, r);
  }

  lemma {:induction false} AscendingIffClockAdvances(sha: Bytes -> Bytes, events: seq<Event>)
    requires HexDigests(sha) && InRange(events)
    ensures Ascending(Run(sha, events).history) <==> ClockAdvances(events)
  {
    if events == [] {
    } else {
      var (front, event) := (events[..|events| - 1], events[|events| - 1]);
      AscendingIffClockAdvances(sha, front);
      if event.Log? {
        LogCase(sha, front, event);
      }
    }
  }

  lemma {:induction false} LogCase(sha: Bytes -> Bytes, front: seq<Event>, event: Event)
    requires HexDigests(sha) && InRange(front) && event.Log?
    requires event.timestamp >= 0 && SessionLength(front) + 1 < COUNTER_LIMIT
    ensures Ascending(Step(sha, Run(sha, front), event).history) <==>
            Ascending(Run(sha, front).history) && After(front, event.timestamp, false)
  {
    var w := Run(sha, front);
    var r := NextRecord(sha, w, event);
    RunInRange(sha, front);
    AfterLastRecord(sha, front, event.timestamp, false);
    LogAscends(w.history, r, SessionLength(front));
  }

  /**
   For every run in range whose hashed bytes do not collide, `verify_integrity` accepts the
   store exactly when the clock advanced.
   */
  lemma {:induction false} VerifiedIffClockAdvances(sha: Bytes -> Bytes, events: seq<Event>)
    requires HexDigests(sha) && InRange(events) && NoCollision(Run(sha, events).history)
    ensures Linked(Run(sha, events).session.db) <==> ClockAdvances(events)
    ensures ClockAdvances(events) ==> Run(sha, events).session.db == RowsOf(Run(sha, events).history)
  {
    AscendingIffClockAdvances(sha, events);
    VerifiedIffAscending(sha, events);
    if ClockAdvances(events) {
      StoreIsHistory(sha, events);
    }
  }

  /** Increasing positions in the store: what is left of it when rows are removed. */
  ghost predicate Positions(db: Db, picks: seq<nat>) {
    && (forall i :: 0 <= i < |picks| ==> picks[i] < |db|)
    && (forall i, j :: 0 <= i < j < |picks| ==> picks[i] < picks[j])
  }

  /** Removing rows goes unnoticed exactly when it is the latest ones that are removed. */
  ghost predicate AcceptsExactlyPrefixes(db: Db) {
    forall picks :: Positions(db, picks) ==> (Linked(Pick(db, picks)) <==> Pick(db, picks) <= db)
  }

  lemma PickAll(db: Db)
    ensures var all := seq(|db|, i => i); Positions(db, all) && Pick(db, all) == db
  {
  }

  /** The verifier accepts exactly the prefixes of the store exactly when the clock advanced. */
  lemma {:induction false} PrefixesVerifyIffClockAdvances(sha: Bytes -> Bytes, events: seq<Event>)
    requires HexDigests(sha) && InRange(events) && NoCollision(Run(sha, events).history)
    ensures AcceptsExactlyPrefixes(Run(sha, events).session.db) <==> ClockAdvances(events)
  {
    var db := Run(sha, events).session.db;
    VerifiedIffClockAdvances(sha, events);
    PickAll(db);
    if Linked(db) {
      forall picks | Positions(db, picks)
        ensures Linked(Pick(db, picks)) <==> Pick(db, picks) <= db
      {
        SubcollectionVerifiesIffPrefix(sha, events, picks);
      }
    } else {
      assert !Linked(Pick(db, seq(|db|, i => i)));
    }
  }

  // ---------------------------------------------------------------------- two failing runs

  lemma RunSnoc(sha: Bytes -> Bytes, events: seq<Event>, event: Event)
    requires HexDigests(sha)
    ensures Run(sha, events + [event]) == Step(sha, Run(sha, events), event)
  {
    assert (events + [event])[..|events|] == events;
  }

  lemma FirstLog(sha: Bytes -> Bytes, first: Event)
    requires HexDigests(sha) && first.Log?
    ensures var w := Run(sha, [first]);
      && |w.history| == 1 && w.history[0].key == Key(first.timestamp, 1)
      && w.session.db == [w.history[0].StoreRow()] && IsDigest(w.history[0].entry.hash)
  {
    RunSnoc(sha, [], first);
    assert [] + [first] == [first];
  }

  lemma ReplaceOnly(row: Row<Stored>, value: Stored)
    ensures Insert([row], row.key, value) == [Row(row.key, value)]
  {
    LessIrreflexive(row.key);
  }

  lemma InsertBefore(row: Row<Stored>, key: Bytes, value: Stored)
    requires Less(key, row.key)
    ensures Insert([row], key, value) == [Row(key, value), row]
  {
    LessAsymmetric(key, row.key);
  }

  /** After a session of one append, reopening within its second overwrites it and breaks the chain,
      whatever the hash function. */
  lemma {:induction false} ReopenWithinSecondBreaks(sha: Bytes -> Bytes, first: Event, second: Event)
    requires HexDigests(sha) && first.Log? && second.Log? && first.timestamp == second.timestamp
    ensures var w := Run(sha, [first] + [Reopen] + [second]);
      |w.history| == 2 && w.session.db == [w.history[1].StoreRow()] && !Linked(w.session.db)
  {
    FirstLog(sha, first);
    RunSnoc(sha, [first], Reopen);
    RunSnoc(sha, [first] + [Reopen], second);
    var (w1, w2) := (Run(sha, [first]), Run(sha, [first] + [Reopen]));
    ReplaceOnly(w1.session.db[0], Json(NextRecord(sha, w2, second).entry));
    assert !LinkedAt(Run(sha, [first] + [Reopen] + [second]).session.db, 0);
  }

  /**
   Distinct hashes need an intact journal: when the clock steps back across two reopenings,
   equal requests give equal entries, with no collision involved.
   */
  lemma {:induction false} SteppingBackRepeatsHash(sha: Bytes -> Bytes, late: Event, early: Event)
    requires HexDigests(sha) && late.Log? && early.Log? && 0 <= early.timestamp < late.timestamp
    ensures var h := Run(sha, [late] + [Reopen] + [early] + [Reopen] + [early]).history;
      |h| == 3 && h[1].entry == h[2].entry
  {
    KeyOrder(early.timestamp, 1, late.timestamp, 1);
    FirstLog(sha, late);
    RunSnoc(sha, [late], Reopen);
    RunSnoc(sha, [late] + [Reopen], early);
    var (w1, w2) := (Run(sha, [late]), Run(sha, [late] + [Reopen]));
    InsertBefore(w1.session.db[0], Key(early.timestamp, 1), Json(NextRecord(sha, w2, early).entry));
    RunSnoc(sha, [late] + [Reopen] + [early], Reopen);
    RunSnoc(sha, [late] + [Reopen] + [early] + [Reopen], early);
  }
}
