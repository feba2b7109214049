/**
 The embedded key/value store as far as the audit log can see it: rows in strictly
 increasing byte order of their keys, one row per key, insertion replacing the row of an
 equal key.
 */
module OrderedStore {
  import opened ByteOrder

  datatype Row<V> = Row(key: Bytes, value: V)

  ghost predicate Sorted<V>(rows: seq<Row<V>>) {
    forall i, j :: 0 <= i < j < |rows| ==> Less(rows[i].key, rows[j].key)
  }

  /** How many leading rows have a key before `key`. */
  function Position<V>(rows: seq<Row<V>>, key: Bytes): (p: nat)
    ensures p <= |rows|
    ensures forall i :: 0 <= i < p ==> Less(rows[i].key, key)
    ensures p < |rows| ==> !Less(rows[p].key, key)
  {
    if rows == [] || !Less(rows[0].key, key) then 0 else 1 + Position(rows[1..], key)
  }

  predicate Replaces<V>(rows: seq<Row<V>>, key: Bytes) {
    var p := Position(rows, key);
    p < |rows| && rows[p].key == key
  }

  function Insert<V>(rows: seq<Row<V>>, key: Bytes, value: V): seq<Row<V>> {
    var p := Position(rows, key);
    rows[..p] + [Row(key, value)] + (if Replaces(rows, key) then rows[p + 1..] else rows[p..])
  }

  /** Rows from the insertion point on are after `key`, or hold it. */
  lemma {:induction false} AfterPosition<V>(rows: seq<Row<V>>, key: Bytes, i: nat)
    requires Sorted(rows) && Position(rows, key) <= i < |rows|
    ensures rows[i].key == key <==> i == Position(rows, key) && Replaces(rows, key)
    ensures rows[i].key != key ==> Less(key, rows[i].key)
  {
    var p := Position(rows, key);
    LessTotal(rows[p].key, key);
    if p < i {
      if rows[p].key != key {
        LessTransitive(key, rows[p].key, rows[i].key);
      }
      LessAsymmetric(key, rows[i].key);
    }
  }

  lemma InsertSorted<V>(rows: seq<Row<V>>, key: Bytes, value: V)
    requires Sorted(rows)
    ensures Sorted(Insert(rows, key, value))
  {
    var p := Position(rows, key);
    forall i | p <= i < |rows|
      ensures rows[i].key == key <==> i == p && Replaces(rows, key)
      ensures rows[i].key != key ==> Less(key, rows[i].key)
    {
      AfterPosition(rows, key, i);
    }
  }

  lemma OtherRowsOld<V>(rows: seq<Row<V>>, key: Bytes, value: V, i: nat)
    requires Sorted(rows) && i < |Insert(rows, key, value)| && i != Position(rows, key)
    ensures Insert(rows, key, value)[i] in rows && Insert(rows, key, value)[i].key != key
  {
    var p := Position(rows, key);
    if i < p {
      LessAsymmetric(rows[i].key, key);
    } else {
      AfterPosition(rows, key, if Replaces(rows, key) then i else i - 1);
    }
  }

  /** Insertion is map update: the new row is there, every row of another key is untouched, and nothing else is. */
  lemma InsertRows<V>(rows: seq<Row<V>>, key: Bytes, value: V, row: Row<V>)
    requires Sorted(rows)
    ensures row in Insert(rows, key, value) <==> row == Row(key, value) || (row in rows && row.key != key)
  {
    var p := Position(rows, key);
    var after := Insert(rows, key, value);
    assert after[p] == Row(key, value);
    if row in after {
      var i: nat :| i < |after| && after[i] == row;
      if i != p {
        OtherRowsOld(rows, key, value, i);
      }
    }
    if row in rows && row.key != key {
      var i: nat :| i < |rows| && rows[i] == row;
    }
  }
}
