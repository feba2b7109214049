/**
 The hash-chained audit journal: opening a store, appending an entry, verifying the chain.
 SHA-256 followed by hexadecimal formatting is the parameter `sha`; the clock is the
 `timestamp` argument.
 */
module Audit {
  import opened ByteOrder
  import opened Decimal
  import opened OrderedStore

  type I64 = x: int | -0x8000_0000_0000_0000 <= x < 0x8000_0000_0000_0000

  datatype AuditEntry = AuditEntry(
    timestamp: I64, source: Bytes, action: Bytes, details: Bytes,
    previousHash: Bytes, signature: Bytes, hash: Bytes)

  /** A stored value either parses as an entry or does not. */
  datatype Stored = Json(entry: AuditEntry) | Malformed

  type Db = seq<Row<Stored>>

  datatype Verdict = Ok(intact: bool) | ParseError

  /** The mutable part of an open log. */
  datatype Session = Session(db: Db, lastHash: Bytes, counter: nat)

  // "genesis"
  const GENESIS: Bytes := [103, 101, 110, 101, 115, 105, 115]
  // "sig_"
  const SIGNATURE_PREFIX: Bytes := [115, 105, 103, 95]
  // "_"
  const UNDERSCORE: Byte := 95

  predicate IsHex(b: Byte) { 48 <= b <= 57 || 97 <= b <= 102 }

  lemma HexCharacters(b: Byte)
    ensures IsHex(b) <==> b as char in "0123456789abcdef"
  {
    var digits := "0123456789abcdef";
    assert 48 <= b <= 57 ==> digits[b - 48] == b as char;
    assert 97 <= b <= 102 ==> digits[b - 87] == b as char;
  }

  predicate IsDigest(s: Bytes) { |s| == 64 && forall i :: 0 <= i < 64 ==> IsHex(s[i]) }

  /** Every digest is 64 lower-case hexadecimal characters. */
  ghost predicate HexDigests(sha: Bytes -> Bytes) {
    forall x {:trigger sha(x)} :: IsDigest(sha(x))
  }

  /** The `k` low-order bytes of `c`, least significant first. */
  function LittleEndian(k: nat, c: nat): (s: Bytes)
    ensures |s| == k
  {
    if k == 0 then [] else [c % 256] + LittleEndian(k - 1, c / 256)
  }

  /** The number the bytes denote, least significant first. */
  function LittleEndianValue(s: Bytes): nat {
    if s == [] then 0 else s[0] + 256 * LittleEndianValue(s[1..])
  }

  function Pow256(k: nat): nat {
    if k == 0 then 1 else 256 * Pow256(k - 1)
  }

  /** Eight bytes hold every 64-bit counter: the low-order bytes read back as the number, if it fits. */
  lemma {:induction false} LittleEndianReads(k: nat, c: nat)
    ensures c < Pow256(k) ==> LittleEndianValue(LittleEndian(k, c)) == c
  {
    if k == 0 {
    } else {
      LittleEndianReads(k - 1, c / 256);
      assert LittleEndian(k, c)[1..] == LittleEndian(k - 1, c / 256);
    }
  }

  function Preimage(timestamp: I64, source: Bytes, action: Bytes, details: Bytes,
                    previous: Bytes, counter: nat): Bytes
  {
    Signed(timestamp) + source + action + details + previous + LittleEndian(8, counter)
  }

  function Key(timestamp: I64, counter: nat): Bytes {
    FormatSigned(20, timestamp) + [UNDERSCORE] + Format(8, counter)
  }

  function OpenSession(db: Db): Session {
    var lastHash :=
      if db == [] then GENESIS
      else match db[|db| - 1].value
        case Json(entry) => entry.hash
        case Malformed => GENESIS;
    Session(db, lastHash, 0)
  }

  function NextEntry(sha: Bytes -> Bytes, s: Session,
                     timestamp: I64, source: Bytes, action: Bytes, details: Bytes): AuditEntry
    requires HexDigests(sha)
  {
    var hash := sha(Preimage(timestamp, source, action, details, s.lastHash, s.counter + 1));
    AuditEntry(timestamp, source, action, details, s.lastHash, SIGNATURE_PREFIX + hash[..8], hash)
  }

  /**
   The first entry of a session continues the row with the greatest key: its hash, or "genesis" if
   that row does not parse or there is none.
   */
  lemma ContinuesGreatest(sha: Bytes -> Bytes, db: Db, p: nat, timestamp: I64, source: Bytes, action: Bytes,
                          details: Bytes)
    requires HexDigests(sha) && Sorted(db) && p < |db| && forall i :: 0 <= i < |db| ==> !Less(db[p].key, db[i].key)
    ensures NextEntry(sha, OpenSession(db), timestamp, source, action, details).previousHash ==
            match db[p].value case Json(entry) => entry.hash case Malformed => [103, 101, 110, 101, 115, 105, 115]
    ensures NextEntry(sha, OpenSession([]), timestamp, source, action, details).previousHash ==
            [103, 101, 110, 101, 115, 105, 115]
  {
    assert !Less(db[p].key, db[|db| - 1].key);
  }

  function Append(sha: Bytes -> Bytes, s: Session,
                  timestamp: I64, source: Bytes, action: Bytes, details: Bytes): Session
    requires HexDigests(sha)
  {
    var entry := NextEntry(sha, s, timestamp, source, action, details);
    Session(Insert(s.db, Key(timestamp, s.counter + 1), Json(entry)), entry.hash, s.counter + 1)
  }

  /** Row `i` names the hash of the row before it, the first row the genesis marker. */
  ghost predicate LinkedAt(db: Db, i: nat)
    requires i < |db|
  {
    && db[i].value.Json?
    && (i == 0 ==> db[i].value.entry.previousHash == GENESIS)
    && (i > 0 ==> db[i - 1].value.Json? && db[i].value.entry.previousHash == db[i - 1].value.entry.hash)
  }

  ghost predicate Linked(db: Db) {
    forall i: nat :: i < |db| ==> LinkedAt(db, i)
  }

  class AuditLog {
    const sha: Bytes -> Bytes
    var db: Db
    var lastHash: Bytes
    var counter: nat

    ghost predicate Valid()
      reads this
    {
      HexDigests(sha) && Sorted(db)
    }

    function State(): Session
      reads this
    {
      Session(db, lastHash, counter)
    }

    constructor Open(sha: Bytes -> Bytes, db: Db)
      requires HexDigests(sha) && Sorted(db)
      ensures Valid() && this.sha == sha
      ensures State() == OpenSession(db)
    {
      this.sha := sha;
      this.db := db;
      counter := 0;
      if db == [] {
        lastHash := GENESIS;
      } else {
        match db[|db| - 1].value
        case Json(entry) => lastHash := entry.hash;
        case Malformed => lastHash := GENESIS;
      }
    }

    method Log(timestamp: I64, source: Bytes, action: Bytes, details: Bytes) returns (entry: AuditEntry)
      requires Valid()
      modifies this
      ensures Valid()
      ensures State() == Append(sha, old(State()), timestamp, source, action, details)
      ensures entry == NextEntry(sha, old(State()), timestamp, source, action, details)
    {
      counter := counter + 1;
      var hash := sha(Preimage(timestamp, source, action, details, lastHash, counter));
      entry := AuditEntry(timestamp, source, action, details, lastHash, SIGNATURE_PREFIX + hash[..8], hash);
      var key := Key(timestamp, counter);
      InsertSorted(db, key, Json(entry));
      db := Insert(db, key, Json(entry));
      lastHash := hash;
    }

    /**
     The verdict is `true` exactly when every row parses and names its predecessor's hash.
     Otherwise the first faulty row decides: an unparsable one is an error, a wrong link is
     `false`.
     */
    method VerifyIntegrity() returns (verdict: Verdict)
      ensures verdict == Ok(true) <==> Linked(db)
      ensures verdict != Ok(true) ==>
        exists i: nat :: i < |db| && (forall j: nat :: j < i ==> LinkedAt(db, j))
          && !LinkedAt(db, i) && (verdict == ParseError <==> db[i].value.Malformed?)
    {
      var previous := GENESIS;
      for i := 0 to |db|
        invariant forall j: nat :: j < i ==> LinkedAt(db, j)
        invariant i == 0 ==> previous == GENESIS
        invariant i > 0 ==> db[i - 1].value.Json? && previous == db[i - 1].value.entry.hash
      {
        match db[i].value {
          case Malformed =>
            assert !LinkedAt(db, i);
            return ParseError;
          case Json(entry) =>
            if entry.previousHash != previous {
              assert !LinkedAt(db, i);
              return Ok(false);
            }
            previous := entry.hash;
        }
      }
      return Ok(true);
    }
  }
}
