/**
 Whole runs of the audit journal: any number of sessions on one store, each restarting its
 counter at zero and picking up the hash of the greatest key, and what holds of every
 reachable store and history (`RunInv`).
 */
module AuditRuns {
  import opened ByteOrder
  import opened Decimal
  import opened OrderedStore
  import opened Audit

  datatype Event =
    | Reopen
    | Log(timestamp: I64, source: Bytes, action: Bytes, details: Bytes)

  /**
   An appended entry with the key it was stored under, the bytes that were hashed for it,
   its counter, and the length of the history when its session opened.
   */
  datatype Record = Record(entry: AuditEntry, key: Bytes, hashed: Bytes, counter: nat, start: nat) {
    function StoreRow(): Row<Stored> { Row(key, Json(entry)) }
  }

  type History = seq<Record>

  /** A session together with everything ever appended to its store. */
  datatype World = World(session: Session, history: History, start: nat)

  function NextRecord(sha: Bytes -> Bytes, w: World, event: Event): Record
    requires HexDigests(sha) && event.Log?
  {
    var Log(timestamp, source, action, details) := event;
    var counter := w.session.counter + 1;
    Record(
      NextEntry(sha, w.session, timestamp, source, action, details),
      Key(timestamp, counter),
      Preimage(timestamp, source, action, details, w.session.lastHash, counter),
      counter,
      w.start)
  }

  function Step(sha: Bytes -> Bytes, w: World, event: Event): World
    requires HexDigests(sha)
  {
    match event
    case Reopen => World(OpenSession(w.session.db), w.history, |w.history|)
    case Log(timestamp, source, action, details) =>
      World(
        Append(sha, w.session, timestamp, source, action, details),
        w.history + [NextRecord(sha, w, event)],
        w.start)
  }

  /** The world after `events`, starting from a fresh store. */
  function Run(sha: Bytes -> Bytes, events: seq<Event>): World
    requires HexDigests(sha)
  {
    if events == [] then World(OpenSession([]), [], 0)
    else Step(sha, Run(sha, events[..|events| - 1]), events[|events| - 1])
  }

  // ---------------------------------------------------------------- invariant of runs

  /** Record `q` has the greatest key among the first `n`. */
  ghost predicate Greatest(h: History, n: nat, q: nat)
    requires n <= |h|
  {
    q < n && forall i: nat :: i < n ==> !Less(h[q].key, h[i].key)
  }

  /** `hash` is what a session opening after the first `n` appends starts its chain from. */
  ghost predicate OpensWith(h: History, n: nat, hash: Bytes)
    requires n <= |h|
  {
    (n == 0 && hash == GENESIS) || exists q: nat :: Greatest(h, n, q) && hash == h[q].entry.hash
  }

  /** The chain as sessions build it: the previous append of the session, or the store's last row at opening time. */
  ghost predicate RecordInv(sha: Bytes -> Bytes, h: History, j: nat)
    requires j < |h|
  {
    && h[j].start <= j
    && h[j].counter == j - h[j].start + 1
    && h[j].entry.hash == sha(h[j].hashed)
    && Covers(h[j])
    && (j > h[j].start ==> h[j - 1].start == h[j].start && h[j].entry.previousHash == h[j - 1].entry.hash)
    && (j == h[j].start ==> OpensWith(h, j, h[j].entry.previousHash))
  }

  /** What an entry says, before the chain is added. */
  function Message(e: AuditEntry): Bytes {
    Signed(e.timestamp) + e.source + e.action + e.details
  }

  /** The hashed bytes are the message, the previous hash and eight counter bytes. */
  ghost predicate Covers(r: Record) {
    r.hashed == Message(r.entry) + r.entry.previousHash + LittleEndian(8, r.counter)
  }

  ghost predicate ChainInv(sha: Bytes -> Bytes, h: History) {
    forall j: nat :: j < |h| ==> RecordInv(sha, h, j)
  }

  /** Row `row` was written by append `j`, and no later append used its key. */
  ghost predicate LastWriter(h: History, j: nat, row: Row<Stored>) {
    && j < |h| && row == h[j].StoreRow()
    && forall i: nat :: j < i < |h| ==> h[i].key != row.key
  }

  ghost predicate Written(h: History, row: Row<Stored>) {
    exists j: nat :: LastWriter(h, j, row)
  }

  ghost predicate HasKey(db: Db, key: Bytes) {
    exists p: nat :: p < |db| && db[p].key == key
  }

  /** The store holds, for every key ever used, what was last written under it. */
  ghost predicate StoreInv(db: Db, h: History) {
    && Sorted(db)
    && (forall p: nat :: p < |db| ==> Written(h, db[p]))
    && (forall j: nat :: j < |h| ==> HasKey(db, h[j].key))
  }

  ghost predicate SessionInv(s: Session, h: History, start: nat) {
    && start <= |h| && s.counter == |h| - start
    && (|h| > start ==> h[|h| - 1].start == start && s.lastHash == h[|h| - 1].entry.hash)
    && (|h| == start ==> OpensWith(h, start, s.lastHash))
  }

  ghost predicate WorldInv(sha: Bytes -> Bytes, w: World) {
    && ChainInv(sha, w.history)
    && StoreInv(w.session.db, w.history)
    && SessionInv(w.session, w.history, w.start)
  }

  lemma OpensWithExtends(h: History, n: nat, hash: Bytes, r: Record)
    requires n <= |h| && OpensWith(h, n, hash)
    ensures OpensWith(h + [r], n, hash)
  {
    if !(n == 0 && hash == GENESIS) {
      var q: nat :| Greatest(h, n, q) && hash == h[q].entry.hash;
      assert Greatest(h + [r], n, q);
    }
  }

  lemma FindKey(db: Db, key: Bytes) returns (p: nat)
    requires HasKey(db, key)
    ensures p < |db| && db[p].key == key
  {
    p :| p < |db| && db[p].key == key;
  }

  lemma FindWriter(h: History, row: Row<Stored>) returns (j: nat)
    requires Written(h, row)
    ensures LastWriter(h, j, row)
  {
    j :| LastWriter(h, j, row);
  }

  lemma LastKeyIsGreatest(db: Db, p: nat)
    requires Sorted(db) && p < |db|
    ensures !Less(db[|db| - 1].key, db[p].key)
  {
    if p < |db| - 1 {
      LessAsymmetric(db[p].key, db[|db| - 1].key);
    } else {
      LessIrreflexive(db[p].key);
    }
  }

  /** The last row of a sorted store is the greatest key, so it is what a reopened session continues from. */
  lemma {:induction false} ReopenLink(db: Db, h: History)
    requires StoreInv(db, h)
    ensures OpensWith(h, |h|, OpenSession(db).lastHash)
  {
    assert h != [] ==> HasKey(db, h[0].key);
    if db != [] {
      var q := FindWriter(h, db[|db| - 1]);
      forall i: nat | i < |h|
        ensures !Less(h[q].key, h[i].key)
      {
        var p := FindKey(db, h[i].key);
        LastKeyIsGreatest(db, p);
      }
      assert Greatest(h, |h|, q);
    }
  }

  lemma ChainExtends(sha: Bytes -> Bytes, h: History, r: Record, s: Session)
    requires ChainInv(sha, h) && SessionInv(s, h, r.start)
    requires r.counter == s.counter + 1 && r.entry.hash == sha(r.hashed)
    requires Covers(r) && r.entry.previousHash == s.lastHash
    ensures ChainInv(sha, h + [r])
  {
    var (n, h') := (|h|, h + [r]);
    forall j: nat | j < |h'|
      ensures RecordInv(sha, h', j)
    {
      if j < n {
        assert RecordInv(sha, h, j);
        if j == h[j].start {
          OpensWithExtends(h, j, h[j].entry.previousHash, r);
        }
      } else if n == r.start {
        OpensWithExtends(h, n, s.lastHash, r);
      }
    }
  }

  lemma {:induction false} StoreExtends(db: Db, h: History, r: Record)
    requires StoreInv(db, h)
    ensures StoreInv(Insert(db, r.key, Json(r.entry)), h + [r])
  {
    var (db', h') := (Insert(db, r.key, Json(r.entry)), h + [r]);
    InsertSorted(db, r.key, Json(r.entry));
    forall p: nat | p < |db'|
      ensures Written(h', db'[p])
    {
      InsertRows(db, r.key, Json(r.entry), db'[p]);
      if db'[p] == r.StoreRow() {
        assert LastWriter(h', |h|, db'[p]);
      } else {
        var p0: nat :| p0 < |db| && db[p0] == db'[p];
        var j := FindWriter(h, db[p0]);
        assert LastWriter(h', j, db'[p]);
      }
    }
    forall j: nat | j < |h'|
      ensures HasKey(db', h'[j].key)
    {
      if j < |h| {
        assert HasKey(db, h[j].key);
      }
      KeyStays(db, r, h'[j].key);
    }
  }

  lemma KeyStays(db: Db, r: Record, key: Bytes)
    requires Sorted(db)
    requires key == r.key || HasKey(db, key)
    ensures HasKey(Insert(db, r.key, Json(r.entry)), key)
  {
    var row := r.StoreRow();
    if key != r.key {
      var p := FindKey(db, key);
      row := db[p];
    }
    InsertRows(db, r.key, Json(r.entry), row);
    var p: nat :| p < |Insert(db, r.key, Json(r.entry))| && Insert(db, r.key, Json(r.entry))[p] == row;
  }

  lemma NextRecordCovers(sha: Bytes -> Bytes, w: World, event: Event)
    requires HexDigests(sha) && event.Log?
    ensures Covers(NextRecord(sha, w, event))
  {
  }

  lemma {:induction false} LogKeeps(sha: Bytes -> Bytes, w: World, event: Event)
    requires HexDigests(sha) && WorldInv(sha, w) && event.Log?
    ensures WorldInv(sha, Step(sha, w, event))
  {
    var r := NextRecord(sha, w, event);
    var w' := Step(sha, w, event);
    assert w'.history == w.history + [r];
    assert w'.session.db == Insert(w.session.db, r.key, Json(r.entry));
    NextRecordCovers(sha, w, event);
    ChainExtends(sha, w.history, r, w.session);
    StoreExtends(w.session.db, w.history, r);
  }

  /** What holds of every reachable world. */
  lemma {:induction false} RunInv(sha: Bytes -> Bytes, events: seq<Event>)
    requires HexDigests(sha)
    ensures WorldInv(sha, Run(sha, events))
  {
    if events == [] {
    } else {
      RunInv(sha, events[..|events| - 1]);
      var (w, event) := (Run(sha, events[..|events| - 1]), events[|events| - 1]);
      if event.Log? {
        LogKeeps(sha, w, event);
      } else {
        ReopenLink(w.session.db, w.history);
      }
    }
  }

  // ------------------------------------------------------------------------ what is recorded

  /** The appends a run asks for. */
  ghost function Requests(events: seq<Event>): seq<Event> {
    if events == [] then []
    else Requests(events[..|events| - 1]) + if events[|events| - 1].Log? then [events[|events| - 1]] else []
  }

  /** The record has what was asked for, "sig_" and eight digits of its own hash, and its own key. */
  ghost predicate AsRequested(r: Record, e: Event) {
    && e == Log(r.entry.timestamp, r.entry.source, r.entry.action, r.entry.details)
    && |r.entry.hash| >= 8 && r.entry.signature == [115, 105, 103, 95] + r.entry.hash[..8]
    && r.key == FormatSigned(20, r.entry.timestamp) + [95] + Format(8, r.counter)
  }

  lemma NextAsRequested(sha: Bytes -> Bytes, w: World, e: Event)
    requires HexDigests(sha) && e.Log?
    ensures AsRequested(NextRecord(sha, w, e), e)
  {
  }

  /** In every run the appended entries are, in order, what was asked for, each signed with its own hash. */
  lemma {:induction false} HistoryIsRequests(sha: Bytes -> Bytes, events: seq<Event>)
    requires HexDigests(sha)
    ensures |Run(sha, events).history| == |Requests(events)|
    ensures forall k :: 0 <= k < |Requests(events)| ==> AsRequested(Run(sha, events).history[k], Requests(events)[k])
  {
    if events == [] {
    } else {
      var (front, e) := (events[..|events| - 1], events[|events| - 1]);
      HistoryIsRequests(sha, front);
      if e.Log? {
        NextAsRequested(sha, Run(sha, front), e);
      }
    }
  }

  /** So does every row of every reachable store. */
  lemma {:induction false} RowsSigned(sha: Bytes -> Bytes, events: seq<Event>, p: nat)
    requires HexDigests(sha) && p < |Run(sha, events).session.db|
    ensures var row := Run(sha, events).session.db[p];
      && row.value.Json? && |row.value.entry.hash| >= 8
      && row.value.entry.signature == [115, 105, 103, 95] + row.value.entry.hash[..8]
  {
    RunInv(sha, events);
    HistoryIsRequests(sha, events);
    var (row, h) := (Run(sha, events).session.db[p], Run(sha, events).history);
    assert Written(h, row);
    var j: nat :| LastWriter(h, j, row);
    assert AsRequested(h[j], Requests(events)[j]);
  }
}
