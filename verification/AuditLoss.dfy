/**
 When an append overwrites an entry. For every run the store holds one row per key ever
 used, so nothing is lost exactly when all keys differ (`NothingLostIff`); in range that is
 when no two appends share timestamp and position in their session
 (`NothingLostIffSlotsDiffer`). Reopening within a second always breaks the chain, and
 loses an entry exactly when a session has already made its first append in that second
 (`ReopenSameSecond`).
 */
module AuditLoss {
  import opened ByteOrder
  import opened OrderedStore
  import opened Audit
  import opened AuditRuns
  import opened AuditIntegrity
  import opened AuditClock

  ghost function KeysOf(h: History): set<Bytes> {
    set j | 0 <= j < |h| :: h[j].key
  }

  ghost predicate KeysDistinct(h: History) {
    forall i: nat, j: nat :: i < j < |h| ==> h[i].key != h[j].key
  }

  /** Inserting replaces the row of an equal key and adds one otherwise. */
  lemma InsertCounts(db: Db, key: Bytes, value: Stored)
    requires Sorted(db)
    ensures |Insert(db, key, value)| == |db| + if HasKey(db, key) then 0 else 1
  {
    var p := Position(db, key);
    if HasKey(db, key) {
      var q := FindKey(db, key);
      LessIrreflexive(key);
      assert q >= p;
      AfterPosition(db, key, q);
    }
  }

  lemma StoredKeys(db: Db, h: History, key: Bytes)
    requires StoreInv(db, h)
    ensures HasKey(db, key) <==> key in KeysOf(h)
  {
    if HasKey(db, key) {
      var p := FindKey(db, key);
      var j := FindWriter(h, db[p]);
    }
    if key in KeysOf(h) {
      var j: nat :| j < |h| && h[j].key == key;
      assert HasKey(db, h[j].key);
    }
  }

  lemma KeysOfSnoc(h: History, r: Record)
    ensures KeysOf(h + [r]) == KeysOf(h) + {r.key}
  {
    var h' := h + [r];
    assert h'[|h|] == r && forall j :: 0 <= j < |h| ==> h'[j] == h[j];
  }

  /** In every reachable store there is one row for every key ever used. */
  lemma {:induction false} OneRowPerKey(sha: Bytes -> Bytes, events: seq<Event>)
    requires HexDigests(sha)
    ensures |Run(sha, events).session.db| == |KeysOf(Run(sha, events).history)|
  {
    if events == [] {
    } else {
      var (front, event) := (events[..|events| - 1], events[|events| - 1]);
      var w := Run(sha, front);
      OneRowPerKey(sha, front);
      RunInv(sha, front);
      if event.Log? {
        AppendAddsKey(sha, w, event);
      }
    }
  }

  lemma {:induction false} AppendAddsKey(sha: Bytes -> Bytes, w: World, event: Event)
    requires HexDigests(sha) && event.Log? && StoreInv(w.session.db, w.history)
    requires |w.session.db| == |KeysOf(w.history)|
    ensures |Step(sha, w, event).session.db| == |KeysOf(Step(sha, w, event).history)|
  {
    var r := NextRecord(sha, w, event);
    InsertCounts(w.session.db, r.key, Json(r.entry));
    StoredKeys(w.session.db, w.history, r.key);
    KeysOfSnoc(w.history, r);
  }

  lemma {:induction false} CountOfKeys(h: History)
    ensures |KeysOf(h)| <= |h|
    ensures |KeysOf(h)| == |h| <==> KeysDistinct(h)
  {
    if h == [] {
      assert KeysOf(h) == {};
    } else {
      var (front, r) := (h[..|h| - 1], h[|h| - 1]);
      assert h == front + [r];
      CountOfKeys(front);
      KeysOfSnoc(front, r);
      DistinctSnoc(front, r);
    }
  }

  lemma DistinctSnoc(h: History, r: Record)
    ensures KeysDistinct(h + [r]) <==> KeysDistinct(h) && r.key !in KeysOf(h)
  {
    var h' := h + [r];
    assert h'[|h|] == r && forall j :: 0 <= j < |h| ==> h'[j] == h[j];
  }

  /** The store never has more rows than were appended, and as many if and only if no key was used twice. */
  lemma {:induction false} NothingLostIff(sha: Bytes -> Bytes, events: seq<Event>)
    requires HexDigests(sha)
    ensures |Run(sha, events).session.db| <= |Run(sha, events).history|
    ensures |Run(sha, events).session.db| == |Run(sha, events).history| <==> KeysDistinct(Run(sha, events).history)
  {
    OneRowPerKey(sha, events);
    CountOfKeys(Run(sha, events).history);
  }

  /** An append overwrites an entry if and only if its key was used before. */
  lemma {:induction false} AppendOverwritesIff(sha: Bytes -> Bytes, events: seq<Event>, event: Event)
    requires HexDigests(sha) && event.Log?
    ensures var (w, w') := (Run(sha, events), Run(sha, events + [event]));
      |w'.session.db| == |w.session.db| + if NextRecord(sha, w, event).key in KeysOf(w.history) then 0 else 1
  {
    var w := Run(sha, events);
    RunInv(sha, events);
    RunSnoc(sha, events, event);
    var r := NextRecord(sha, w, event);
    InsertCounts(w.session.db, r.key, Json(r.entry));
    StoredKeys(w.session.db, w.history, r.key);
  }

  // ----------------------------------------------------------------------------- in range

  ghost predicate AllInRange(h: History) {
    forall j: nat :: j < |h| ==> RecordInRange(h[j])
  }

  lemma {:induction false} RunAllInRange(sha: Bytes -> Bytes, events: seq<Event>)
    requires HexDigests(sha) && InRange(events)
    ensures AllInRange(Run(sha, events).history)
  {
    if events == [] {
    } else {
      RunAllInRange(sha, events[..|events| - 1]);
      RunInRange(sha, events);
    }
  }

  /** Same timestamp and same position in their sessions. */
  ghost predicate SameSlot(r: Record, r': Record) {
    r.entry.timestamp == r'.entry.timestamp && r.counter == r'.counter
  }

  ghost predicate SlotsDiffer(h: History) {
    forall i: nat, j: nat :: i < j < |h| ==> !SameSlot(h[i], h[j])
  }

  lemma KeysAreSlots(r: Record, r': Record)
    requires RecordInRange(r) && RecordInRange(r')
    ensures r.key == r'.key <==> SameSlot(r, r')
  {
    KeyOrder(r.entry.timestamp, r.counter, r'.entry.timestamp, r'.counter);
    KeyOrder(r'.entry.timestamp, r'.counter, r.entry.timestamp, r.counter);
    LessIrreflexive(r.key);
  }

  /** In range, nothing is lost if and only if no two appends share timestamp and position in their session. */
  lemma {:induction false} NothingLostIffSlotsDiffer(sha: Bytes -> Bytes, events: seq<Event>)
    requires HexDigests(sha) && InRange(events)
    ensures |Run(sha, events).session.db| == |Run(sha, events).history| <==> SlotsDiffer(Run(sha, events).history)
  {
    var h := Run(sha, events).history;
    NothingLostIff(sha, events);
    RunAllInRange(sha, events);
    forall i: nat, j: nat | i < j < |h|
      ensures h[i].key == h[j].key <==> SameSlot(h[i], h[j])
    {
      KeysAreSlots(h[i], h[j]);
    }
  }

  // ------------------------------------------------------------- reopening within a second

  /** Some session made its first append at second `t`. */
  ghost predicate OpenedAt(h: History, t: int) {
    exists j: nat :: j < |h| && h[j].counter == 1 && h[j].entry.timestamp == t
  }

  /** `front`, then a new session whose first append is `event`, in the second of the last one before. */
  ghost predicate ReopensWithinSecond(sha: Bytes -> Bytes, front: seq<Event>, event: Event)
    requires HexDigests(sha)
  {
    && event.Log?
    && var h := Run(sha, front).history;
       h != [] && h[|h| - 1].entry.timestamp == event.timestamp
  }

  /** The world after `front`, a reopening, and `event`. */
  function AfterReopen(sha: Bytes -> Bytes, front: seq<Event>, event: Event): World
    requires HexDigests(sha)
  {
    Run(sha, front + [Reopen] + [event])
  }

  /**
   However long the session before was: a new session that first appends in the second of the
   last append breaks the chain, and overwrites an entry if and only if some session has
   already made its first append in that second.
   */
  lemma {:induction false} ReopenSameSecond(sha: Bytes -> Bytes, front: seq<Event>, event: Event)
    requires HexDigests(sha) && InRange(front) && ReopensWithinSecond(sha, front, event)
    requires NoCollision(AfterReopen(sha, front, event).history)
    ensures !Linked(AfterReopen(sha, front, event).session.db)
    ensures |AfterReopen(sha, front, event).session.db| == |Run(sha, front).session.db|
       <==> OpenedAt(Run(sha, front).history, event.timestamp)
  {
    ReopenBreaksChain(sha, front, event);
    ReopenOverwritesIff(sha, front, event);
  }

  lemma {:induction false} ReopenBreaksChain(sha: Bytes -> Bytes, front: seq<Event>, event: Event)
    requires HexDigests(sha) && InRange(front) && ReopensWithinSecond(sha, front, event)
    requires NoCollision(AfterReopen(sha, front, event).history)
    ensures event.timestamp >= 0 && !Linked(AfterReopen(sha, front, event).session.db)
  {
    RunInRange(sha, front);
    ReopenInRange(front, event);
    ReopenBreaksClock(sha, front, event);
    VerifiedIffClockAdvances(sha, front + [Reopen] + [event]);
  }

  lemma ReopenInRange(front: seq<Event>, event: Event)
    requires event.Log? && event.timestamp >= 0 && InRange(front)
    ensures InRange(front + [Reopen] + [event])
  {
    var middle := front + [Reopen];
    assert (middle + [event])[..|middle|] == middle && middle[..|front|] == front;
    assert SessionLength(middle) == 0;
  }

  lemma ReopenBreaksClock(sha: Bytes -> Bytes, front: seq<Event>, event: Event)
    requires HexDigests(sha) && ReopensWithinSecond(sha, front, event)
    ensures !ClockAdvances(front + [Reopen] + [event])
  {
    var middle := front + [Reopen];
    assert (middle + [event])[..|middle|] == middle && middle[..|front|] == front;
    AfterLastRecord(sha, front, event.timestamp, true);
  }

  lemma {:induction false} ReopenOverwritesIff(sha: Bytes -> Bytes, front: seq<Event>, event: Event)
    requires HexDigests(sha) && event.Log? && InRange(front) && event.timestamp >= 0
    ensures |Run(sha, front + [Reopen] + [event]).session.db| == |Run(sha, front).session.db|
       <==> OpenedAt(Run(sha, front).history, event.timestamp)
  {
    RunSnoc(sha, front, Reopen);
    AppendOverwritesIff(sha, front + [Reopen], event);
    RunAllInRange(sha, front);
    var (h, r) := (Run(sha, front).history, NextRecord(sha, Run(sha, front + [Reopen]), event));
    forall j: nat | j < |h|
      ensures h[j].key == r.key <==> h[j].counter == 1 && h[j].entry.timestamp == event.timestamp
    {
      KeysAreSlots(h[j], r);
    }
  }
}
