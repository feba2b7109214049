/**
 When the entries of a journal have distinct hashes. For every run whose hashed bytes do
 not collide they do, except when two sessions opened on the same last entry log the same
 first message: timestamp, module, action and details run together (`HashesDistinctIff`).
 */
module AuditHashes {
  import opened ByteOrder
  import opened Audit
  import opened AuditRuns
  import opened AuditIntegrity

  function Pow256(k: nat): nat {
    if k == 0 then 1 else 256 * Pow256(k - 1)
  }

  lemma {:induction false} LittleEndianInjective(k: nat, c: nat, d: nat)
    requires c < Pow256(k) && d < Pow256(k) && LittleEndian(k, c) == LittleEndian(k, d)
    ensures c == d
  {
    if k == 0 {
    } else {
      var (s, t) := (LittleEndian(k, c), LittleEndian(k, d));
      assert s[0] == c % 256 && t[0] == d % 256;
      assert s[1..] == LittleEndian(k - 1, c / 256) && t[1..] == LittleEndian(k - 1, d / 256);
      LittleEndianInjective(k - 1, c / 256, d / 256);
    }
  }

  /** No session has overflowed its 64-bit counter. */
  ghost predicate CountersFit(h: History) {
    forall j: nat :: j < |h| ==> h[j].counter < 0x1_0000_0000_0000_0000
  }

  ghost predicate HashesDistinct(h: History) {
    forall i: nat, j: nat :: i < j < |h| ==> h[i].entry.hash != h[j].entry.hash
  }

  /** Append `q` is the last row of the store when `i` is appended, and `i` continues it. */
  ghost predicate Continues(h: History, i: nat, q: nat) {
    i < |h| && Greatest(h, i, q) && h[i].entry.previousHash == h[q].entry.hash
  }

  /** Appends `i` and `j` are the first of their sessions, continue one and the same append and say the same. */
  ghost predicate SameOpening(h: History, i: nat, j: nat) {
    && i < j < |h| && h[i].counter == 1 && h[j].counter == 1
    && Message(h[i].entry) == Message(h[j].entry)
    && exists q: nat :: Continues(h, i, q) && Continues(h, j, q)
  }

  ghost predicate OpeningRepeats(h: History) {
    exists i: nat, j: nat :: SameOpening(h, i, j)
  }

  lemma PreviousKind(sha: Bytes -> Bytes, h: History, j: nat)
    requires HexDigests(sha) && ChainInv(sha, h) && j < |h|
    ensures h[j].entry.previousHash == GENESIS || IsDigest(h[j].entry.previousHash)
  {
    assert RecordInv(sha, h, j);
    if j > h[j].start {
      assert RecordInv(sha, h, j - 1);
    } else if h[j].entry.previousHash != GENESIS {
      var q: nat :| Greatest(h, j, q) && h[j].entry.previousHash == h[q].entry.hash;
      assert RecordInv(sha, h, q);
    }
  }

  /** Two appends with one hash agree in everything that was hashed. */
  lemma SameHashSameParts(sha: Bytes -> Bytes, h: History, i: nat, j: nat)
    requires HexDigests(sha) && ChainInv(sha, h) && NoCollision(h) && CountersFit(h)
    requires i < |h| && j < |h| && h[i].entry.hash == h[j].entry.hash
    ensures h[i].counter == h[j].counter && h[i].entry.previousHash == h[j].entry.previousHash
    ensures Message(h[i].entry) == Message(h[j].entry)
  {
    assert RecordInv(sha, h, i) && RecordInv(sha, h, j);
    assert h[i].hashed == h[j].hashed;
    PreviousKind(sha, h, i);
    PreviousKind(sha, h, j);
    if h[i].entry.previousHash == GENESIS && h[j].entry.previousHash != GENESIS {
      GenesisIsNoDigest(h[i], h[j]);
    } else if h[i].entry.previousHash != GENESIS && h[j].entry.previousHash == GENESIS {
      GenesisIsNoDigest(h[j], h[i]);
    }
    SameHashedSameParts(h[i], h[j]);
    assert Pow256(8) == 0x1_0000_0000_0000_0000;
    LittleEndianInjective(8, h[i].counter, h[j].counter);
  }

  /** The first append of a session on a non-empty journal continues an earlier append. */
  lemma OpeningContinues(sha: Bytes -> Bytes, h: History, i: nat) returns (q: nat)
    requires ChainInv(sha, h) && i < |h| && h[i].counter == 1
    requires i > 0 || h[i].entry.previousHash != GENESIS
    ensures Continues(h, i, q)
  {
    assert RecordInv(sha, h, i);
    assert OpensWith(h, i, h[i].entry.previousHash);
    q :| Greatest(h, i, q) && h[i].entry.previousHash == h[q].entry.hash;
  }

  lemma OpeningsContinue(sha: Bytes -> Bytes, h: History, i: nat, j: nat) returns (p: nat, q: nat)
    requires HexDigests(sha) && ChainInv(sha, h) && i < j < |h| && h[i].counter == 1 && h[j].counter == 1
    requires h[i].entry.previousHash == h[j].entry.previousHash
    ensures Continues(h, i, p) && Continues(h, j, q)
  {
    q := OpeningContinues(sha, h, j);
    assert RecordInv(sha, h, q);
    p := OpeningContinues(sha, h, i);
  }

  /** Down both sessions at once to their first appends, and on from what those continue until it is one append. */
  lemma {:induction false} SharedHashDescends(sha: Bytes -> Bytes, h: History, i: nat, j: nat)
    requires HexDigests(sha) && ChainInv(sha, h) && NoCollision(h) && CountersFit(h)
    requires i < j < |h| && h[i].entry.hash == h[j].entry.hash
    ensures OpeningRepeats(h)
    decreases i + j
  {
    SameHashSameParts(sha, h, i, j);
    assert RecordInv(sha, h, i) && RecordInv(sha, h, j);
    if h[i].counter > 1 {
      SharedHashDescends(sha, h, i - 1, j - 1);
    } else {
      var p, q := OpeningsContinue(sha, h, i, j);
      if p == q {
        assert SameOpening(h, i, j);
      } else if p < q {
        SharedHashDescends(sha, h, p, q);
      } else {
        SharedHashDescends(sha, h, q, p);
      }
    }
  }

  /** Equal openings are hashed from equal bytes. */
  lemma SameOpeningSameHash(sha: Bytes -> Bytes, h: History, i: nat, j: nat)
    requires ChainInv(sha, h) && SameOpening(h, i, j)
    ensures h[i].entry.hash == h[j].entry.hash
  {
    assert RecordInv(sha, h, i) && RecordInv(sha, h, j);
  }

  lemma DistinctIffNoRepeat(sha: Bytes -> Bytes, h: History)
    requires HexDigests(sha) && ChainInv(sha, h) && NoCollision(h) && CountersFit(h)
    ensures HashesDistinct(h) <==> !OpeningRepeats(h)
  {
    if !HashesDistinct(h) {
      var i: nat, j: nat :| i < j < |h| && h[i].entry.hash == h[j].entry.hash;
      SharedHashDescends(sha, h, i, j);
    }
    if OpeningRepeats(h) {
      var i: nat, j: nat :| SameOpening(h, i, j);
      SameOpeningSameHash(sha, h, i, j);
    }
  }

  ghost predicate NoneIsGenesis(h: History) {
    forall j: nat :: j < |h| ==> h[j].entry.hash != GENESIS
  }

  lemma DigestsAreNoGenesis(sha: Bytes -> Bytes, h: History)
    requires HexDigests(sha) && ChainInv(sha, h)
    ensures NoneIsGenesis(h)
  {
    forall j: nat | j < |h|
      ensures h[j].entry.hash != GENESIS
    {
      assert RecordInv(sha, h, j);
    }
  }

  /**
   For every run: all hashes differ if and only if no two sessions opened on the same last
   entry log the same first message. No hash is ever the genesis marker.
   */
  lemma {:induction false} HashesDistinctIff(sha: Bytes -> Bytes, events: seq<Event>)
    requires HexDigests(sha) && NoCollision(Run(sha, events).history) && CountersFit(Run(sha, events).history)
    ensures HashesDistinct(Run(sha, events).history) <==> !OpeningRepeats(Run(sha, events).history)
    ensures NoneIsGenesis(Run(sha, events).history)
  {
    RunInv(sha, events);
    DistinctIffNoRepeat(sha, Run(sha, events).history);
    DigestsAreNoGenesis(sha, Run(sha, events).history);
  }
}
