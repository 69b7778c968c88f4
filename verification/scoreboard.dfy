/** The dictionary `evaluation` in connectfour/tools.py builds: the two
    nested loops over the players visit every ordered pair (i, j) in
    lexicographic order and write the pair's score under the key
    `(name of player i, name of player j)`. A later write under the same key
    overwrites an earlier one, so with repeated names the dictionary keeps
    the score of the last pair that used the key. This module knows nothing
    of games: names and scores are type parameters, and the score of pair
    (i, j) is `score(i, j)`. */
module Scoreboard {

  /** The pair (a, b) is visited before the loops reach (i, j). */
  predicate Earlier(a: int, b: int, i: int, j: int) {
    a < i || (a == i && b < j)
  }

  /** A point the loops reach: row `i` with `j` columns done, or the end. */
  predicate Point(n: nat, i: nat, j: nat) {
    i <= n && j <= n && (i == n ==> j == 0)
  }

  /** The dictionary once the loops reach (i, j): every pair visited before
      written in turn. Reaching row `i` with no column done is finishing row
      `i - 1`. */
  function Done<N(==), V>(names: seq<N>, score: (nat, nat) -> V, i: nat, j: nat): map<(N, N), V>
    requires Point(|names|, i, j)
    decreases i, j
  {
    if j > 0 then Done(names, score, i, j - 1)[(names[i], names[j - 1]) := score(i, j - 1)]
    else if i > 0 then Done(names, score, i - 1, |names|)
    else map[]
  }

  /** The keys once the loops reach (i, j) are exactly the name pairs of the
      pairs visited before. */
  lemma {:induction false} DoneKeys<N, V>(names: seq<N>, score: (nat, nat) -> V, i: nat, j: nat)
    requires Point(|names|, i, j)
    ensures forall key :: key in Done(names, score, i, j) <==>
      exists a, b :: 0 <= a < |names| && 0 <= b < |names| && Earlier(a, b, i, j) && (names[a], names[b]) == key
    decreases i, j
  {
    var n := |names|;
    if j > 0 {
      DoneKeys(names, score, i, j - 1);
      assert Earlier(i, j - 1, i, j);
      forall a, b | 0 <= a < n && 0 <= b < n && Earlier(a, b, i, j)
        ensures Earlier(a, b, i, j - 1) || (a, b) == (i, j - 1)
      {
      }
    } else if i > 0 {
      DoneKeys(names, score, i - 1, n);
      forall a, b | 0 <= a < n && 0 <= b < n
        ensures Earlier(a, b, i, 0) <==> Earlier(a, b, i - 1, n)
      {
      }
    }
  }

  /** Every value held is the score of a pair visited before. */
  lemma {:induction false} DoneValues<N, V>(names: seq<N>, score: (nat, nat) -> V, i: nat, j: nat)
    requires Point(|names|, i, j)
    ensures forall key :: key in Done(names, score, i, j) ==>
      exists a: nat, b: nat :: a < |names| && b < |names| && Done(names, score, i, j)[key] == score(a, b)
    decreases i, j
  {
    if j > 0 {
      DoneValues(names, score, i, j - 1);
      var m := Done(names, score, i, j);
      forall key | key in m
        ensures exists a: nat, b: nat :: a < |names| && b < |names| && m[key] == score(a, b)
      {
        if key == (names[i], names[j - 1]) {
          assert m[key] == score(i, j - 1);
        } else {
          assert m[key] == Done(names, score, i, j - 1)[key];
        }
      }
    } else if i > 0 {
      DoneValues(names, score, i - 1, |names|);
    }
  }

  /** No pair visited after (a, b) and before the loops reach (i, j) writes
      the key of (a, b). */
  predicate LastWrite<N(==)>(names: seq<N>, a: int, b: int, i: int, j: int)
    requires 0 <= a < |names| && 0 <= b < |names|
  {
    forall a2, b2 :: 0 <= a2 < |names| && 0 <= b2 < |names| && Earlier(a, b, a2, b2) && Earlier(a2, b2, i, j) ==>
      (names[a2], names[b2]) != (names[a], names[b])
  }

  /** A key holds the score of the last pair that wrote it. */
  lemma {:induction false} DoneLast<N, V>(names: seq<N>, score: (nat, nat) -> V, i: nat, j: nat, a: nat, b: nat)
    requires Point(|names|, i, j)
    requires a < |names| && b < |names| && Earlier(a, b, i, j) && LastWrite(names, a, b, i, j)
    ensures (names[a], names[b]) in Done(names, score, i, j)
    ensures Done(names, score, i, j)[(names[a], names[b])] == score(a, b)
    decreases i, j
  {
    var n := |names|;
    if j > 0 {
      if (a, b) != (i, j - 1) {
        assert Earlier(a, b, i, j - 1) && Earlier(i, j - 1, i, j);
        assert (names[i], names[j - 1]) != (names[a], names[b]);
        DoneLast(names, score, i, j - 1, a, b);
      }
    } else {
      assert i > 0 && Earlier(a, b, i - 1, n);
      DoneLast(names, score, i - 1, n, a, b);
    }
  }

  /** The names are pairwise different. */
  predicate Distinct<N(==)>(names: seq<N>) {
    forall a, b :: 0 <= a < b < |names| ==> names[a] != names[b]
  }

  /** With pairwise different names no key is written twice, so at the end
      every ordered pair's score sits under its own key. */
  lemma DoneDistinct<N, V>(names: seq<N>, score: (nat, nat) -> V, a: nat, b: nat)
    requires Distinct(names) && a < |names| && b < |names|
    ensures (names[a], names[b]) in Done(names, score, |names|, 0)
    ensures Done(names, score, |names|, 0)[(names[a], names[b])] == score(a, b)
  {
    var n := |names|;
    forall a2, b2 | 0 <= a2 < n && 0 <= b2 < n && Earlier(a, b, a2, b2)
      ensures (names[a2], names[b2]) != (names[a], names[b])
    {
      if a2 != a {
        assert names[a2] != names[a];
      } else {
        assert names[b2] != names[b];
      }
    }
    DoneLast(names, score, n, 0, a, b);
  }

  /** The inner loop for player `i`: against every player in turn, each
      score written under the pair's names. */
  method FillRow<N(==), V>(names: seq<N>, score: (nat, nat) -> V, i: nat, m0: map<(N, N), V>)
    returns (m: map<(N, N), V>)
    requires i < |names| && m0 == Done(names, score, i, 0)
    ensures m == Done(names, score, i + 1, 0)
  {
    m := m0;
    var j := 0;
    while j < |names|
      invariant j <= |names| && m == Done(names, score, i, j)
    {
      m := m[(names[i], names[j]) := score(i, j)];
      j := j + 1;
    }
  }

  /** The two loops of `evaluation`, pair after pair. */
  method Loops<N(==), V>(names: seq<N>, score: (nat, nat) -> V) returns (m: map<(N, N), V>)
    ensures m == Done(names, score, |names|, 0)
  {
    m := map[];
    var i := 0;
    while i < |names|
      invariant i <= |names| && m == Done(names, score, i, 0)
    {
      m := FillRow(names, score, i, m);
      i := i + 1;
    }
  }

  /** The keys of `m` are exactly the ordered pairs of names, a name paired
      with itself included. */
  ghost predicate KeyedByPairs<N(!new), V>(names: seq<N>, m: map<(N, N), V>) {
    forall key :: key in m <==>
      exists a, b :: 0 <= a < |names| && 0 <= b < |names| && (names[a], names[b]) == key
  }

  /** The two loops of `evaluation`: afterwards the dictionary is the one
      the writes build in turn, its keys are exactly the ordered pairs of
      names, and every value is the score of some pair. */
  method Fill<N(==,!new), V>(names: seq<N>, score: (nat, nat) -> V) returns (m: map<(N, N), V>)
    ensures m == Done(names, score, |names|, 0)
    ensures KeyedByPairs(names, m)
    ensures forall key :: key in m ==>
      exists a: nat, b: nat :: a < |names| && b < |names| && m[key] == score(a, b)
  {
    m := Loops(names, score);
    EndKeys(names, score, m);
    EndValues(names, score, m);
  }

  /** At the end, the keys are exactly the ordered pairs of names. */
  lemma EndKeys<N(!new), V>(names: seq<N>, score: (nat, nat) -> V, m: map<(N, N), V>)
    requires m == Done(names, score, |names|, 0)
    ensures KeyedByPairs(names, m)
  {
    DoneKeys(names, score, |names|, 0);
    forall key
      ensures key in m <==> exists a, b :: 0 <= a < |names| && 0 <= b < |names| && (names[a], names[b]) == key
    {
      if exists a, b :: 0 <= a < |names| && 0 <= b < |names| && (names[a], names[b]) == key {
        var a, b :| 0 <= a < |names| && 0 <= b < |names| && (names[a], names[b]) == key;
        assert Earlier(a, b, |names|, 0);
      }
    }
  }

  /** At the end, every value is the score of some pair. */
  lemma EndValues<N, V>(names: seq<N>, score: (nat, nat) -> V, m: map<(N, N), V>)
    requires m == Done(names, score, |names|, 0)
    ensures forall key :: key in m ==>
      exists a: nat, b: nat :: a < |names| && b < |names| && m[key] == score(a, b)
  {
    DoneValues(names, score, |names|, 0);
  }

  /** At the end, a key holds the score of the last pair written under it. */
  lemma EndLast<N, V>(names: seq<N>, score: (nat, nat) -> V, m: map<(N, N), V>)
    requires m == Done(names, score, |names|, 0)
    ensures forall a: nat, b: nat :: a < |names| && b < |names| && LastWrite(names, a, b, |names|, 0) ==>
      (names[a], names[b]) in m && m[(names[a], names[b])] == score(a, b)
  {
    forall a: nat, b: nat | a < |names| && b < |names| && LastWrite(names, a, b, |names|, 0)
      ensures (names[a], names[b]) in m && m[(names[a], names[b])] == score(a, b)
    {
      DoneLast(names, score, |names|, 0, a, b);
    }
  }

  /** At the end, with pairwise different names, every pair's score sits
      under its own key. */
  lemma EndDistinct<N, V>(names: seq<N>, score: (nat, nat) -> V, m: map<(N, N), V>)
    requires m == Done(names, score, |names|, 0)
    ensures Distinct(names) ==> forall a: nat, b: nat :: a < |names| && b < |names| ==>
      (names[a], names[b]) in m && m[(names[a], names[b])] == score(a, b)
  {
    if Distinct(names) {
      forall a: nat, b: nat | a < |names| && b < |names|
        ensures (names[a], names[b]) in m && m[(names[a], names[b])] == score(a, b)
      {
        DoneDistinct(names, score, a, b);
      }
    }
  }
}
