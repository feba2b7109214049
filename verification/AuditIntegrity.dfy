/**
 When the verifier accepts. For every run whose hashed bytes do not collide, the journal
 verifies exactly when every append used a key after all earlier ones
 (`VerifiedIffAscending`), and of a journal that verifies exactly the prefixes do
 (`SubcollectionVerifiesIffPrefix`).
 */
module AuditIntegrity {
  import opened ByteOrder
  import opened OrderedStore
  import opened Audit
  import opened AuditRuns

  /** No two different byte strings hashed in this history have the same digest. */
  ghost predicate NoCollision(h: History) {
    forall i: nat, j: nat :: i < |h| && j < |h| && h[i].entry.hash == h[j].entry.hash ==> h[i].hashed == h[j].hashed
  }

  /** The first `t` appends used strictly increasing keys. */
  ghost predicate AscendingUpTo(h: History, t: nat) {
    t <= |h| && forall i: nat, j: nat :: i < j < t ==> Less(h[i].key, h[j].key)
  }

  ghost predicate Ascending(h: History) {
    AscendingUpTo(h, |h|)
  }

  // ------------------------------------------------------------------ who follows whom

  /**
   The append whose hash `j` names. Below `t`, where keys ascend, it is the append before;
   from `t` on it is never one of the first `t - 1`, because key `t - 1` stays in the store.
   */
  lemma Parent(sha: Bytes -> Bytes, h: History, t: nat, j: nat) returns (a: nat)
    requires ChainInv(sha, h) && AscendingUpTo(h, t) && 0 < j < |h| && 0 < t
    ensures a < j && h[j].entry.previousHash == h[a].entry.hash
    ensures j < t ==> a == j - 1
    ensures j >= t ==> a >= t - 1
  {
    assert RecordInv(sha, h, j);
    if j > h[j].start {
      a := j - 1;
    } else {
      a :| Greatest(h, j, a) && h[j].entry.previousHash == h[a].entry.hash;
      if j < t {
        assert !Less(h[a].key, h[j - 1].key);
      } else {
        assert !Less(h[a].key, h[t - 1].key);
      }
    }
  }

  lemma FirstNamesGenesis(sha: Bytes -> Bytes, h: History)
    requires ChainInv(sha, h) && h != []
    ensures h[0].entry.previousHash == GENESIS
  {
    assert RecordInv(sha, h, 0);
  }

  /** Hashed bytes ending in the genesis marker and in a digest differ where 's' meets a hex digit. */
  lemma GenesisIsNoDigest(r: Record, r': Record)
    requires Covers(r) && Covers(r')
    requires r.entry.previousHash == GENESIS && IsDigest(r'.entry.previousHash)
    ensures r.hashed != r'.hashed
  {
    var n := |r.hashed| - 9;
    assert r.hashed[n] == 115;
    if |r'.hashed| == |r.hashed| {
      assert r'.hashed[n] == r'.entry.previousHash[63];
    }
  }

  /** Equal hashed bytes with previous hashes of one length have equal parts. */
  lemma SameHashedSameParts(r: Record, r': Record)
    requires Covers(r) && Covers(r') && r.hashed == r'.hashed
    requires |r.entry.previousHash| == |r'.entry.previousHash|
    ensures Message(r.entry) == Message(r'.entry) && r.entry.previousHash == r'.entry.previousHash
    ensures LittleEndian(8, r.counter) == LittleEndian(8, r'.counter)
  {
    var (n, m) := (|Message(r.entry)|, |r.entry.previousHash|);
    assert |Message(r'.entry)| == n;
    assert r.hashed[..n] == Message(r.entry) && r'.hashed[..n] == Message(r'.entry);
    assert r.hashed[n..n + m] == r.entry.previousHash && r'.hashed[n..n + m] == r'.entry.previousHash;
    assert r.hashed[n + m..] == LittleEndian(8, r.counter) && r'.hashed[n + m..] == LittleEndian(8, r'.counter);
  }

  /** Down the chain: an append in the ascending part shares its hash with no later append at all. */
  lemma {:induction false} HashesSeparate(sha: Bytes -> Bytes, h: History, t: nat, i: nat, a: nat)
    requires HexDigests(sha) && ChainInv(sha, h) && NoCollision(h) && AscendingUpTo(h, t)
    requires i < t && i < a < |h|
    ensures h[i].entry.hash != h[a].entry.hash
    decreases i
  {
    if h[i].entry.hash == h[a].entry.hash {
      assert h[i].hashed == h[a].hashed;
      assert RecordInv(sha, h, i) && RecordInv(sha, h, a);
      var a' := Parent(sha, h, t, a);
      assert RecordInv(sha, h, a');
      assert IsDigest(h[a].entry.previousHash);
      if i == 0 {
        FirstNamesGenesis(sha, h);
        GenesisIsNoDigest(h[i], h[a]);
      } else {
        var i' := Parent(sha, h, t, i);
        assert RecordInv(sha, h, i');
        assert IsDigest(h[i].entry.previousHash);
        SameHashedSameParts(h[i], h[a]);
        HashesSeparate(sha, h, t, i', a');
      }
    }
  }

  // ------------------------------------------------------- ascending keys give a verified store

  function RowsOf(h: History): Db {
    seq(|h|, i requires 0 <= i < |h| => h[i].StoreRow())
  }

  /** In an ascending run byte order of the keys is append order and no insertion replaces a row. */
  lemma {:induction false} StoreIsHistory(sha: Bytes -> Bytes, events: seq<Event>)
    requires HexDigests(sha) && Ascending(Run(sha, events).history)
    ensures Run(sha, events).session.db == RowsOf(Run(sha, events).history)
  {
    if events == [] {
    } else {
      var (front, event) := (events[..|events| - 1], events[|events| - 1]);
      var (w, w') := (Run(sha, front), Run(sha, events));
      if event.Log? {
        var r := NextRecord(sha, w, event);
        assert w'.history == w.history + [r];
        AscendingFront(w.history, r);
        StoreIsHistory(sha, front);
        AppendAtEnd(w.session.db, w.history, r);
      } else {
        StoreIsHistory(sha, front);
      }
    }
  }

  lemma AscendingFront(h: History, r: Record)
    requires Ascending(h + [r])
    ensures Ascending(h)
    ensures forall i: nat :: i < |h| ==> Less(h[i].key, r.key)
  {
    forall i: nat, j: nat | i < j <= |h|
      ensures Less(h[i].key, (h + [r])[j].key)
    {
      assert Less((h + [r])[i].key, (h + [r])[j].key);
    }
    forall i: nat, j: nat | i < j < |h|
      ensures Less(h[i].key, h[j].key)
    {
      assert (h + [r])[j] == h[j];
    }
    forall i: nat | i < |h|
      ensures Less(h[i].key, r.key)
    {
      assert (h + [r])[|h|] == r;
    }
  }

  lemma AppendAtEnd(db: Db, h: History, r: Record)
    requires db == RowsOf(h)
    requires forall i: nat :: i < |h| ==> Less(h[i].key, r.key)
    ensures Insert(db, r.key, Json(r.entry)) == RowsOf(h + [r])
  {
    PositionAtEnd(db, r.key);
  }

  lemma PositionAtEnd(db: Db, key: Bytes)
    requires forall i :: 0 <= i < |db| ==> Less(db[i].key, key)
    ensures Position(db, key) == |db|
  {
  }

  /** In an intact journal every entry names the one appended before it. */
  lemma AscendingChain(sha: Bytes -> Bytes, h: History, t: nat, j: nat)
    requires ChainInv(sha, h) && AscendingUpTo(h, t) && j < t
    ensures h[j].entry.previousHash == if j == 0 then GENESIS else h[j - 1].entry.hash
  {
    if j == 0 {
      FirstNamesGenesis(sha, h);
    } else {
      var _ := Parent(sha, h, t, j);
    }
  }

  // --------------------------------------------------- a verified store forces ascending keys

  lemma {:induction false} FirstDescent(h: History, n: nat) returns (t: nat)
    requires n <= |h| && !AscendingUpTo(h, n)
    ensures 0 < t < n && AscendingUpTo(h, t) && !Less(h[t - 1].key, h[t].key)
  {
    if AscendingUpTo(h, n - 1) {
      t := n - 1;
      var i: nat :| i < t && !Less(h[i].key, h[t].key);
      if i < t - 1 && Less(h[t - 1].key, h[t].key) {
        LessTransitive(h[i].key, h[t - 1].key, h[t].key);
      }
    } else {
      t := FirstDescent(h, n - 1);
    }
  }

  /** If the store verifies, its first `t` rows can only be the first `t` appends. */
  lemma {:induction false} PrefixForced(sha: Bytes -> Bytes, db: Db, h: History, t: nat, k: nat)
    requires HexDigests(sha) && ChainInv(sha, h) && StoreInv(db, h) && NoCollision(h)
    requires AscendingUpTo(h, t) && Linked(db) && k < t
    ensures k < |db| && db[k] == h[k].StoreRow()
    decreases k
  {
    var p := FindKey(db, h[k].key);
    if k == 0 {
    } else {
      PrefixForced(sha, db, h, t, k - 1);
      KeyAfter(db, k - 1, p);
    }
    var j := FindWriter(h, db[k]);
    assert LinkedAt(db, k);
    WriterIsNext(sha, h, t, k, j);
  }

  lemma KeyAfter(db: Db, i: nat, p: nat)
    requires Sorted(db) && i < |db| && p < |db| && Less(db[i].key, db[p].key)
    ensures i < p
  {
    if p < i {
      LessAsymmetric(db[p].key, db[i].key);
    } else if p == i {
      LessIrreflexive(db[p].key);
    }
  }

  /** Only append `k` names the hash of append `k - 1` (the genesis marker when `k` is 0). */
  lemma WriterIsNext(sha: Bytes -> Bytes, h: History, t: nat, k: nat, j: nat)
    requires HexDigests(sha) && ChainInv(sha, h) && NoCollision(h) && AscendingUpTo(h, t)
    requires k < t && j < |h|
    requires h[j].entry.previousHash == if k == 0 then GENESIS else h[k - 1].entry.hash
    ensures j == k
  {
    assert k > 0 ==> RecordInv(sha, h, k - 1);
    if j == 0 {
      FirstNamesGenesis(sha, h);
    } else {
      var a := Parent(sha, h, t, j);
      assert RecordInv(sha, h, a);
      assert IsDigest(h[a].entry.hash);
      if a > k - 1 >= 0 {
        HashesSeparate(sha, h, t, k - 1, a);
      } else if a < k - 1 {
        HashesSeparate(sha, h, t, a, k - 1);
      }
    }
  }

  lemma DescentBreaks(sha: Bytes -> Bytes, db: Db, h: History, t: nat)
    requires HexDigests(sha) && ChainInv(sha, h) && StoreInv(db, h) && NoCollision(h)
    requires 0 < t < |h| && AscendingUpTo(h, t) && !Less(h[t - 1].key, h[t].key)
    ensures !Linked(db)
  {
    if Linked(db) {
      var m := FindKey(db, h[t].key);
      PrefixForced(sha, db, h, t, t - 1);
      assert m <= t - 1;
      PrefixForced(sha, db, h, t, m);
      var j := FindWriter(h, db[m]);
      assert j >= t;
      HashesSeparate(sha, h, t, m, j);
    }
  }

  // ------------------------------------------------------------------------ main theorems

  lemma LinkedIffAscending(sha: Bytes -> Bytes, db: Db, h: History)
    requires HexDigests(sha) && ChainInv(sha, h) && StoreInv(db, h) && NoCollision(h)
    requires Ascending(h) ==> db == RowsOf(h)
    ensures Linked(db) <==> Ascending(h)
  {
    if Ascending(h) {
      forall i: nat | i < |db|
        ensures LinkedAt(db, i)
      {
        AscendingChain(sha, h, |h|, i);
      }
    } else {
      var t := FirstDescent(h, |h|);
      DescentBreaks(sha, db, h, t);
    }
  }

  /** The journal verifies exactly when every append used a key after all earlier ones. */
  lemma {:induction false} VerifiedIffAscending(sha: Bytes -> Bytes, events: seq<Event>)
    requires HexDigests(sha) && NoCollision(Run(sha, events).history)
    ensures Linked(Run(sha, events).session.db) <==> Ascending(Run(sha, events).history)
  {
    var w := Run(sha, events);
    RunInv(sha, events);
    if Ascending(w.history) {
      StoreIsHistory(sha, events);
    }
    LinkedIffAscending(sha, w.session.db, w.history);
  }

  /** In an intact journal no two entries share a hash and none has the genesis marker for one. */
  lemma {:induction false} IntactHashesDistinct(sha: Bytes -> Bytes, events: seq<Event>, i: nat, j: nat)
    requires HexDigests(sha) && NoCollision(Run(sha, events).history)
    requires Linked(Run(sha, events).session.db)
    requires i <= j < |Run(sha, events).history|
    ensures i < j ==> Run(sha, events).history[i].entry.hash != Run(sha, events).history[j].entry.hash
    ensures Run(sha, events).history[i].entry.hash != GENESIS
  {
    var h := Run(sha, events).history;
    VerifiedIffAscending(sha, events);
    RunInv(sha, events);
    assert RecordInv(sha, h, i);
    if i < j {
      HashesSeparate(sha, h, |h|, i, j);
    }
  }

  /** The rows of `db` at the positions `picks`. */
  function Pick(db: Db, picks: seq<nat>): Db
    requires forall i :: 0 <= i < |picks| ==> picks[i] < |db|
  {
    seq(|picks|, i requires 0 <= i < |picks| => db[picks[i]])
  }

  /** Of an intact journal, whatever rows are removed, exactly the prefixes still verify. */
  lemma {:induction false} SubcollectionVerifiesIffPrefix(sha: Bytes -> Bytes, events: seq<Event>, picks: seq<nat>)
    requires HexDigests(sha) && NoCollision(Run(sha, events).history)
    requires Linked(Run(sha, events).session.db)
    requires forall i :: 0 <= i < |picks| ==> picks[i] < |Run(sha, events).session.db|
    requires forall i, j :: 0 <= i < j < |picks| ==> picks[i] < picks[j]
    ensures Linked(Pick(Run(sha, events).session.db, picks)) <==>
            Pick(Run(sha, events).session.db, picks) <= Run(sha, events).session.db
  {
    VerifiedIffAscending(sha, events);
    RunInv(sha, events);
    StoreIsHistory(sha, events);
    PickedVerifies(sha, Run(sha, events).session.db, Run(sha, events).history, picks);
  }

  lemma {:induction false} PickedVerifies(sha: Bytes -> Bytes, db: Db, h: History, picks: seq<nat>)
    requires HexDigests(sha) && ChainInv(sha, h) && NoCollision(h) && Ascending(h)
    requires db == RowsOf(h) && Linked(db)
    requires forall i :: 0 <= i < |picks| ==> picks[i] < |db|
    requires forall i, j :: 0 <= i < j < |picks| ==> picks[i] < picks[j]
    ensures Linked(Pick(db, picks)) <==> Pick(db, picks) <= db
  {
    var sub := Pick(db, picks);
    if sub <= db {
      forall i: nat | i < |sub|
        ensures LinkedAt(sub, i)
      {
        assert LinkedAt(db, i);
        assert sub[i] == db[i];
        assert i > 0 ==> sub[i - 1] == db[i - 1];
      }
    }
    if Linked(sub) {
      PicksBounded(picks, |db|);
      forall i: nat | i < |sub|
        ensures sub[i] == db[i]
      {
        PickedInPlace(sha, db, h, picks, i);
      }
      assert sub == db[..|sub|];
    }
  }

  lemma {:induction false} PickedInPlace(sha: Bytes -> Bytes, db: Db, h: History, picks: seq<nat>, i: nat)
    requires HexDigests(sha) && ChainInv(sha, h) && NoCollision(h) && Ascending(h) && db == RowsOf(h)
    requires forall i :: 0 <= i < |picks| ==> picks[i] < |db|
    requires forall i, j :: 0 <= i < j < |picks| ==> picks[i] < picks[j]
    requires Linked(Pick(db, picks)) && i < |picks|
    ensures picks[i] == i
    decreases i
  {
    assert LinkedAt(Pick(db, picks), i);
    if i == 0 {
    } else {
      PickedInPlace(sha, db, h, picks, i - 1);
    }
    WriterIsNext(sha, h, |h|, i, picks[i]);
  }

  lemma {:induction false} PicksBounded(picks: seq<nat>, n: nat)
    requires forall i :: 0 <= i < |picks| ==> picks[i] < n
    requires forall i, j :: 0 <= i < j < |picks| ==> picks[i] < picks[j]
    ensures |picks| <= n
  {
    if picks == [] {
    } else {
      PicksBounded(picks[..|picks| - 1], picks[|picks| - 1]);
    }
  }
}
