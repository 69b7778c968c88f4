/** Vocabulary shared by both board engines and every search over them:
    the winner of a game, the extended search values with their infinities,
    and the small scans over a row of cells that both engines use. */
module Common {

  datatype Option<T> = None | Some(value: T)

  /** The `winner` field of both engines: 'x' (player 1), 'o' (player -1) or None. */
  datatype Winner = X | O | Nobody

  /** A cell holds 1 (player x), -1 (player o) or 0 (empty). */
  predicate IsMark(v: int) {
    v == 1 || v == -1 || v == 0
  }

  predicate IsPlayer(p: int) {
    p == 1 || p == -1
  }

  /** The winner recorded for a mover that completes a line: 'x' for 1, 'o' otherwise. */
  function WinnerOf(p: int): (w: Winner)
    ensures w != Nobody
    ensures w == X <==> p == 1
  {
    if p == 1 then X else O
  }

  /** The terminal value the searches assign: 1 for 'x', -1 for 'o', 0 for a draw. */
  function Outcome(w: Winner): (v: int)
    ensures v == 1 || v == -1 || v == 0
    ensures v == 0 <==> w == Nobody
  {
    match w
    case X => 1
    case O => -1
    case Nobody => 0
  }

  /** Search values: a finite integer or one of the two infinities the source
      uses as initial accumulators and as the initial alpha-beta window. */
  datatype Ext = NegInf | Fin(n: int) | PosInf

  /** The usual order on the extended integers. */
  predicate Le(x: Ext, y: Ext) {
    x == NegInf || y == PosInf || (x.Fin? && y.Fin? && x.n <= y.n)
  }

  predicate Lt(x: Ext, y: Ext) {
    !Le(y, x)
  }

  function Max(x: Ext, y: Ext): (r: Ext)
    ensures Le(x, r) && Le(y, r)
    ensures r == x || r == y
  {
    if Le(x, y) then y else x
  }

  function Min(x: Ext, y: Ext): (r: Ext)
    ensures Le(r, x) && Le(r, y)
    ensures r == x || r == y
  {
    if Le(x, y) then x else y
  }

  /** `max` for the maximising player, `min` for the minimising one. */
  function Pick(maximizing: bool, x: Ext, y: Ext): Ext {
    if maximizing then Max(x, y) else Min(x, y)
  }

  /** The neutral start of the accumulator: -inf for max, +inf for min. */
  function Worst(maximizing: bool): Ext {
    if maximizing then NegInf else PosInf
  }

  lemma PickAssoc(m: bool, x: Ext, y: Ext, z: Ext)
    ensures Pick(m, Pick(m, x, y), z) == Pick(m, x, Pick(m, y, z))
  {
  }

  /** Number of non-empty cells of a row. */
  function Occupied(s: seq<int>): (n: nat)
    ensures n <= |s|
  {
    if s == [] then 0 else (if s[0] != 0 then 1 else 0) + Occupied(s[1..])
  }

  /** The indices `i >= from` with `s[i] == 0`, ascending: the comprehension
      `[i for i in range(from, len(s)) if s[i] == 0]`. */
  function ZerosFrom(s: seq<int>, from: nat): (r: seq<int>)
    requires from <= |s|
    ensures forall k :: 0 <= k < |r| ==> from <= r[k] < |s| && s[r[k]] == 0
    decreases |s| - from
  {
    if from == |s| then []
    else if s[from] == 0 then [from] + ZerosFrom(s, from + 1)
    else ZerosFrom(s, from + 1)
  }

  /** `ZerosFrom` misses no empty cell and lists the cells in ascending order. */
  lemma ZerosFromComplete(s: seq<int>, from: nat)
    requires from <= |s|
    ensures forall i :: from <= i < |s| && s[i] == 0 ==> i in ZerosFrom(s, from)
    ensures forall j, k :: 0 <= j < k < |ZerosFrom(s, from)| ==> ZerosFrom(s, from)[j] < ZerosFrom(s, from)[k]
  {
    ZerosFromMissesNone(s, from);
    ZerosFromAscending(s, from);
  }

  lemma {:induction false} ZerosFromMissesNone(s: seq<int>, from: nat)
    requires from <= |s|
    ensures forall i :: from <= i < |s| && s[i] == 0 ==> i in ZerosFrom(s, from)
    decreases |s| - from
  {
    if from < |s| {
      ZerosFromMissesNone(s, from + 1);
    }
  }

  lemma {:induction false} ZerosFromAscending(s: seq<int>, from: nat)
    requires from <= |s|
    ensures forall j, k :: 0 <= j < k < |ZerosFrom(s, from)| ==> ZerosFrom(s, from)[j] < ZerosFrom(s, from)[k]
    decreases |s| - from
  {
    if from < |s| {
      ZerosFromAscending(s, from + 1);
    }
  }

  /** The empty cells of a row are exactly the cells `Occupied` does not count. */
  lemma {:induction false} ZerosCount(s: seq<int>, from: nat)
    requires from <= |s|
    ensures |ZerosFrom(s, from)| + Occupied(s[from..]) == |s| - from
    decreases |s| - from
  {
    if from < |s| {
      ZerosCount(s, from + 1);
      assert s[from..][1..] == s[from + 1..];
    }
  }

  /** Filling one empty cell raises `Occupied` by exactly one. */
  lemma {:induction false} OccupiedFill(s: seq<int>, i: nat, v: int)
    requires i < |s| && s[i] == 0 && v != 0
    ensures Occupied(s[i := v]) == Occupied(s) + 1
  {
    if i > 0 {
      assert s[i := v][1..] == s[1..][i - 1 := v];
      OccupiedFill(s[1..], i - 1, v);
    }
  }

  /** A row of empty cells counts nothing. */
  lemma {:induction false} EmptyOccupied(s: seq<int>)
    requires forall i :: 0 <= i < |s| ==> s[i] == 0
    ensures Occupied(s) == 0
  {
    if s != [] {
      EmptyOccupied(s[1..]);
    }
  }

  /** A row with no empty cell is fully counted. */
  lemma {:induction false} OccupiedFull(s: seq<int>)
    requires forall i :: 0 <= i < |s| ==> s[i] != 0
    ensures Occupied(s) == |s|
  {
    if s != [] {
      OccupiedFull(s[1..]);
    }
  }

  /** A row that is not fully counted has an empty cell. */
  lemma OccupiedNotFull(s: seq<int>) returns (i: nat)
    requires Occupied(s) < |s|
    ensures i < |s| && s[i] == 0
  {
    if forall k :: 0 <= k < |s| ==> s[k] != 0 {
      OccupiedFull(s);
      assert false;
    }
    i :| 0 <= i < |s| && s[i] == 0;
  }

  /** `order` is a rearrangement of `xs`: what `random.shuffle` may produce. */
  predicate Permutes(order: seq<int>, xs: seq<int>) {
    multiset(order) == multiset(xs)
  }

  lemma PermutesMembers(order: seq<int>, xs: seq<int>)
    requires Permutes(order, xs)
    ensures forall x :: x in order <==> x in xs
  {
    forall x
      ensures x in order <==> x in xs
    {
      assert x in order <==> x in multiset(order);
      assert x in xs <==> x in multiset(xs);
    }
  }
}
