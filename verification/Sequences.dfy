/** Predicates on sequences that several components share. */
module Sequences {

  ghost predicate Distinct<T>(s: seq<T>) {
    forall i, j :: 0 <= i < j < |s| ==> s[i] != s[j]
  }

  /** `positions` lists `chosen` in increasing order. */
  ghost predicate Enumerates(positions: seq<nat>, chosen: set<nat>) {
    && (forall i, j :: 0 <= i < j < |positions| ==> positions[i] < positions[j])
    && (forall k :: k in positions <==> k in chosen)
  }

  /** `r` is the elements of `s` at `positions`, in order. */
  ghost predicate Picks<T>(s: seq<T>, positions: seq<nat>, r: seq<T>) {
    && |r| == |positions|
    && forall j :: 0 <= j < |r| ==> positions[j] < |s| && r[j] == s[positions[j]]
  }

  /** `r` is the elements of `s` at exactly the positions in `chosen`, in order. */
  ghost predicate Selects<T>(s: seq<T>, chosen: set<nat>, r: seq<T>) {
    exists positions: seq<nat> :: Enumerates(positions, chosen) && Picks(s, positions, r)
  }

  lemma SelectsNothing<T>(s: seq<T>)
    ensures Selects(s, {}, [])
  {
    assert Enumerates([], {}) && Picks(s, [], []);
  }

  /** One more element, not chosen. */
  lemma SelectsSkipping<T>(s: seq<T>, chosen: set<nat>, r: seq<T>, x: T, chosen': set<nat>)
    requires Selects(s, chosen, r) && chosen' == chosen
    ensures Selects(s + [x], chosen', r)
  {
    var positions: seq<nat> :| Enumerates(positions, chosen) && Picks(s, positions, r);
    assert Picks(s + [x], positions, r);
  }

  /** One more element, chosen. */
  lemma SelectsTaking<T>(s: seq<T>, chosen: set<nat>, r: seq<T>, x: T, chosen': set<nat>, r': seq<T>)
    requires Selects(s, chosen, r) && chosen' == chosen + {|s|} && r' == r + [x]
    ensures Selects(s + [x], chosen', r')
  {
    var positions: seq<nat> :| Enumerates(positions, chosen) && Picks(s, positions, r);
    assert Picks(s + [x], positions + [|s|], r');
    assert Enumerates(positions + [|s|], chosen');
  }

  /** What is selected is determined. */
  lemma SelectionUnique<T>(s: seq<T>, chosen: set<nat>, q: seq<T>, r: seq<T>)
    requires Selects(s, chosen, q) && Selects(s, chosen, r)
    ensures q == r
  {
    var i: seq<nat> :| Enumerates(i, chosen) && Picks(s, i, q);
    var j: seq<nat> :| Enumerates(j, chosen) && Picks(s, j, r);
    EnumerationUnique(i, j, chosen);
  }

  lemma {:induction false} EnumerationUnique(i: seq<nat>, j: seq<nat>, chosen: set<nat>)
    requires Enumerates(i, chosen) && Enumerates(j, chosen)
    ensures i == j
    decreases |i|
  {
    assert i != [] ==> i[0] in j;
    assert j != [] ==> j[0] in i;
    if i == [] {
    } else {
      var (m, n) := (|i| - 1, |j| - 1);
      assert i[m] in j;
      assert j[n] in i;
      assert i[m] == j[n];
      assert Enumerates(i[..m], chosen - {i[m]}) by {
        assert i == i[..m] + [i[m]];
      }
      assert Enumerates(j[..n], chosen - {i[m]}) by {
        assert j == j[..n] + [j[n]];
      }
      EnumerationUnique(i[..m], j[..n], chosen - {i[m]});
      assert i == i[..m] + [i[m]] && j == j[..n] + [j[n]];
    }
  }
}
