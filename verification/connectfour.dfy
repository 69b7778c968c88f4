/** The gravity-drop engine `ConnectFour` of connectfour/game.py: a grid of
    `rows` x `cols` cells stored row by row with row 0 at the top, the mover
    `player` (1 or -1), the ply counter `time`, `terminated` and `winner`. An
    action is a column; the disc falls to the lowest empty cell of it.
    `Execute` and `Undo` are pure transitions on the state. */
module ConnectFour {
  import opened Common

  /** `board[i][j]` is the cell in row `i` (0 at the top) and column `j`. */
  type Grid = seq<seq<int>>

  datatype Game = Game(rows: int, cols: int, board: Grid, player: int, time: int,
                       terminated: bool, winner: Winner)

  /** Every row of the grid has `cols` cells. */
  predicate Shaped(b: Grid, cols: int) {
    forall i :: 0 <= i < |b| ==> |b[i]| == cols
  }

  /** The grid of the given shape with every cell empty. */
  function EmptyGrid(rows: nat, cols: nat): (b: Grid)
    ensures |b| == rows && Shaped(b, cols)
    ensures forall i, j :: 0 <= i < rows && 0 <= j < cols ==> b[i][j] == 0
  {
    seq(rows, _ => seq(cols, _ => 0))
  }

  /** The state built by the constructor (`max_time` is `rows * cols`). */
  function New(rows: nat, cols: nat): (g: Game)
    ensures g.rows == rows && g.cols == cols && g.player == 1 && g.time == 0
    ensures !g.terminated && g.winner == Nobody
    ensures |g.board| == rows && Shaped(g.board, cols)
    ensures forall i, j :: 0 <= i < rows && 0 <= j < cols ==> g.board[i][j] == 0
  {
    Game(rows, cols, EmptyGrid(rows, cols), 1, 0, false, Nobody)
  }

  /** `reset` puts back exactly the constructor's state, keeping the shape. */
  function Reset(g: Game): (r: Game)
    requires g.rows >= 0 && g.cols >= 0
    ensures r == New(g.rows, g.cols)
  {
    Game(g.rows, g.cols, EmptyGrid(g.rows, g.cols), 1, 0, false, Nobody)
  }

  /** A fresh game of positive shape is reachable, and every column is a legal move. */
  lemma NewValid(rows: nat, cols: nat)
    requires 1 <= rows && 1 <= cols
    ensures Valid(New(rows, cols))
    ensures LegalActions(New(rows, cols)) == seq(cols, j => j)
  {
    var g := New(rows, cols);
    EmptyDiscs(g.board, cols);
    assert forall j :: 0 <= j < cols ==> g.board[0][j] == 0;
    ZerosFromAll(g.board[0], 0);
  }

  /** A row without marks lists every index from `from` on. */
  lemma {:induction false} ZerosFromAll(s: seq<int>, from: nat)
    requires from <= |s|
    requires forall j :: 0 <= j < |s| ==> s[j] == 0
    ensures ZerosFrom(s, from) == seq(|s| - from, j => from + j)
    decreases |s| - from
  {
    if from < |s| {
      ZerosFromAll(s, from + 1);
      assert seq(|s| - from, j => from + j) == [from] + seq(|s| - (from + 1), j => from + 1 + j);
    }
  }

  lemma {:induction false} EmptyDiscs(b: Grid, cols: int)
    requires Shaped(b, cols)
    requires forall i, j :: 0 <= i < |b| && 0 <= j < cols ==> b[i][j] == 0
    ensures Discs(b) == 0
  {
    if b != [] {
      EmptyOccupied(b[0]);
      EmptyDiscs(b[1..], cols);
    }
  }

  /** The number of discs on the grid. */
  function Discs(b: Grid): (n: nat)
  {
    if b == [] then 0 else Occupied(b[0]) + Discs(b[1..])
  }

  /** No disc floats: a disc in row `i` of column `c` rests on a disc in row `i + 1`. */
  predicate Settled(b: Grid, c: int)
    requires |b| >= 1 && Shaped(b, |b[0]|) && 0 <= c < |b[0]|
  {
    forall i :: 0 <= i < |b| - 1 && b[i][c] != 0 ==> b[i + 1][c] != 0
  }

  predicate Gravity(b: Grid, cols: int)
    requires |b| >= 1 && |b[0]| == cols && Shaped(b, cols)
  {
    forall c :: 0 <= c < cols ==> Settled(b, c)
  }

  /** The grid read row by row, as one list of cells. */
  function Flat(b: Grid): seq<int> {
    if b == [] then [] else b[0] + Flat(b[1..])
  }

  lemma {:induction false} FlatLength(b: Grid, cols: int)
    requires cols >= 0 && Shaped(b, cols)
    ensures |Flat(b)| == |b| * cols
  {
    if b != [] {
      FlatLength(b[1..], cols);
      assert |b| * cols == cols + (|b| - 1) * cols;
    }
  }

  /** Cell (i, j) of a grid with `cols` columns sits at `i * cols + j` of the
      row-by-row reading. */
  lemma {:induction false} FlatCell(b: Grid, cols: int, i: int, j: int)
    requires cols >= 0 && Shaped(b, cols) && 0 <= i < |b| && 0 <= j < cols
    ensures 0 <= i * cols + j < |Flat(b)| && Flat(b)[i * cols + j] == b[i][j]
  {
    var f := Flat(b);
    assert f == b[0] + Flat(b[1..]);
    if i > 0 {
      FlatCell(b[1..], cols, i - 1, j);
      assert i * cols == cols + (i - 1) * cols;
    }
  }

  /** What every state a search walks through satisfies, reachable or not:
      the grid has its shape, the clock has not passed `max_time`, and a
      clock at `max_time` belongs to an ended game. */
  predicate Sane(g: Game) {
    && 1 <= g.rows && 1 <= g.cols
    && |g.board| == g.rows && Shaped(g.board, g.cols)
    && g.time <= g.rows * g.cols
    && (g.time == g.rows * g.cols ==> g.terminated)
  }

  /** What undoing a legal move needs to restore the game exactly: a sane
      state without a winner while it runs, a mover who puts a disc, and no
      floating disc. */
  predicate Calm(g: Game) {
    && Sane(g)
    && (!g.terminated ==> g.winner == Nobody)
    && IsPlayer(g.player)
    && Gravity(g.board, g.cols)
  }

  /** The reachable-state invariant: a calm state whose cells hold 1, -1 or
      0, whose `time` counts the discs, and whose `terminated` is set
      exactly when the grid is full or somebody won. */
  predicate Valid(g: Game) {
    && Calm(g)
    && (forall i, j :: 0 <= i < g.rows && 0 <= j < g.cols ==> IsMark(g.board[i][j]))
    && g.time == Discs(g.board)
    && (g.terminated <==> (g.time == g.rows * g.cols || g.winner != Nobody))
  }

  /** The number of plies left before `max_time`. */
  function Room(g: Game): int {
    g.rows * g.cols - g.time
  }

  /** Every entry of `acts` names a column. */
  predicate Columns(acts: seq<int>, cols: int) {
    forall k :: 0 <= k < |acts| ==> 0 <= acts[k] < cols
  }

  /** `legal_actions`: the columns whose top cell is empty, in ascending order. */
  function LegalActions(g: Game): (r: seq<int>)
    requires |g.board| >= 1
    ensures forall k :: 0 <= k < |r| ==> 0 <= r[k] < |g.board[0]| && g.board[0][r[k]] == 0
  {
    ZerosFrom(g.board[0], 0)
  }

  predicate IsLegal(g: Game, c: int)
    requires |g.board| >= 1
  {
    0 <= c < |g.board[0]| && g.board[0][c] == 0
  }

  predicate AllLegal(g: Game, acts: seq<int>)
    requires |g.board| >= 1
  {
    forall k :: 0 <= k < |acts| ==> IsLegal(g, acts[k])
  }

  /** The legal actions are exactly the columns with an empty top cell, ascending. */
  lemma LegalActionsLegal(g: Game)
    requires |g.board| >= 1
    ensures AllLegal(g, LegalActions(g))
    ensures forall c :: c in LegalActions(g) <==> IsLegal(g, c)
    ensures forall j, k :: 0 <= j < k < |LegalActions(g)| ==> LegalActions(g)[j] < LegalActions(g)[k]
  {
    ZerosFromComplete(g.board[0], 0);
  }

  /** The scan of `execute` from the bottom row up: the lowest empty cell of
      column `c` in rows `0..i`, or -1 when that part of the column is full. */
  function LowestEmpty(b: Grid, c: int, i: int): (r: int)
    requires -1 <= i < |b| && |b| >= 1 && Shaped(b, |b[0]|) && 0 <= c < |b[0]|
    ensures -1 <= r <= i
    decreases i + 1
  {
    if i < 0 then -1
    else if b[i][c] == 0 then i
    else LowestEmpty(b, c, i - 1)
  }

  /** The scan of `is_winner` and `undo` from the top row down: the first
      row at or below `i` holding a disc in column `c`, or `|b|` if none. */
  function TopDisc(b: Grid, c: int, i: int): (r: int)
    requires 0 <= i <= |b| && |b| >= 1 && Shaped(b, |b[0]|) && 0 <= c < |b[0]|
    ensures i <= r <= |b|
    decreases |b| - i
  {
    if i == |b| then |b|
    else if b[i][c] != 0 then i
    else TopDisc(b, c, i + 1)
  }

  lemma {:induction false} LowestEmptySpec(b: Grid, c: int, i: int)
    requires -1 <= i < |b| && |b| >= 1 && Shaped(b, |b[0]|) && 0 <= c < |b[0]|
    ensures var r := LowestEmpty(b, c, i);
      && (r >= 0 ==> b[r][c] == 0)
      && (forall k :: r < k <= i ==> b[k][c] != 0)
    decreases i + 1
  {
    if i >= 0 && b[i][c] != 0 {
      LowestEmptySpec(b, c, i - 1);
    }
  }

  lemma {:induction false} TopDiscSpec(b: Grid, c: int, i: int)
    requires 0 <= i <= |b| && |b| >= 1 && Shaped(b, |b[0]|) && 0 <= c < |b[0]|
    ensures var r := TopDisc(b, c, i);
      && (r < |b| ==> b[r][c] != 0)
      && (forall k :: i <= k < r ==> b[k][c] == 0)
    decreases |b| - i
  {
    if i < |b| && b[i][c] == 0 {
      TopDiscSpec(b, c, i + 1);
    }
  }

  /** The grid with cell (i, c) set to `v`. */
  function Put(b: Grid, i: int, c: int, v: int): (r: Grid)
    requires 0 <= i < |b| && 0 <= c < |b[i]|
    ensures |r| == |b| && (Shaped(b, |b[i]|) ==> Shaped(r, |b[i]|))
  {
    b[i := b[i][c := v]]
  }

  lemma PutCells(b: Grid, i: int, c: int, v: int)
    requires 0 <= i < |b| && 0 <= c < |b[i]|
    ensures forall k, j :: 0 <= k < |b| && 0 <= j < |b[k]| ==>
      Put(b, i, c, v)[k][j] == if k == i && j == c then v else b[k][j]
  {
  }

  /** Whether the steps `dr` (rows) and `dc` (columns) stay one cell away. */
  predicate Direction(dr: int, dc: int) {
    -1 <= dr <= 1 && -1 <= dc <= 1
  }

  /** The offset after `k` steps of length `d`, with `d` in {-1, 0, 1}. */
  function Far(k: int, d: int): int {
    if d == 0 then 0 else if d > 0 then k else -k
  }

  /** The `n` cells from (r, c) on in direction (dr, dc) all lie on the grid. */
  predicate Within(b: Grid, r: int, c: int, dr: int, dc: int, n: int)
    requires |b| >= 1
  {
    n <= 0 || (
      && 0 <= r < |b| && 0 <= c < |b[0]|
      && 0 <= r + Far(n - 1, dr) < |b| && 0 <= c + Far(n - 1, dc) < |b[0]|)
  }

  /** One `for k in range(1, bound)` loop of `counter`: walk at most `n`
      cells from (r, c) in direction (dr, dc) and count the player's discs
      met before the first other cell. */
  function Run(b: Grid, p: int, r: int, c: int, dr: int, dc: int, n: int): (k: int)
    requires |b| >= 1 && Shaped(b, |b[0]|) && Direction(dr, dc) && Within(b, r, c, dr, dc, n)
    ensures 0 <= k && (n >= 0 ==> k <= n)
    decreases n
  {
    if n <= 0 then 0
    else if b[r][c] != p then 0
    else 1 + Run(b, p, r + dr, c + dc, dr, dc, n - 1)
  }

  /** What `Run` counts: the first `k` cells along the walk hold `p`, and if
      the walk stopped early, the next one does not. */
  lemma {:induction false} RunSpec(b: Grid, p: int, r: int, c: int, dr: int, dc: int, n: int)
    requires |b| >= 1 && Shaped(b, |b[0]|) && Direction(dr, dc) && Within(b, r, c, dr, dc, n)
    ensures var k := Run(b, p, r, c, dr, dc, n);
      && (forall j :: 0 <= j < k ==> b[r + Far(j, dr)][c + Far(j, dc)] == p)
      && (k < n ==> b[r + Far(k, dr)][c + Far(k, dc)] != p)
    decreases n
  {
    if n > 0 && b[r][c] == p {
      RunSpec(b, p, r + dr, c + dc, dr, dc, n - 1);
      var k := Run(b, p, r, c, dr, dc, n);
      forall j | 0 <= j < k
        ensures b[r + Far(j, dr)][c + Far(j, dc)] == p
      {
        if j > 0 {
          assert r + Far(j, dr) == r + dr + Far(j - 1, dr);
          assert c + Far(j, dc) == c + dc + Far(j - 1, dc);
        }
      }
      if k < n {
        assert r + Far(k, dr) == r + dr + Far(k - 1, dr);
        assert c + Far(k, dc) == c + dc + Far(k - 1, dc);
      }
    }
  }

  function Min2(x: int, y: int): int {
    if x <= y then x else y
  }

  /** `counter(player, row, column, line)`: 1 for the cell itself plus the
      player's discs met walking away from it along the line, at most three
      cells each way and never off the grid. Line 1 is the diagonal from top
      left to bottom right, line 2 the row, line 3 the anti-diagonal, and
      line 4 looks downward only; any other line counts 1. */
  function Counter(b: Grid, p: int, row: int, col: int, line: int): (count: int)
    requires |b| >= 1 && Shaped(b, |b[0]|) && 0 <= row < |b| && 0 <= col < |b[0]|
  {
    var R := |b|;
    var C := |b[0]|;
    if line == 1 then
      1 + Run(b, p, row - 1, col - 1, -1, -1, Min2(Min2(row + 1, col + 1), 4) - 1)
        + Run(b, p, row + 1, col + 1, 1, 1, Min2(Min2(R - row, C - col), 4) - 1)
    else if line == 2 then
      1 + Run(b, p, row, col - 1, 0, -1, Min2(col + 1, 4) - 1)
        + Run(b, p, row, col + 1, 0, 1, Min2(C - col, 4) - 1)
    else if line == 3 then
      1 + Run(b, p, row + 1, col - 1, 1, -1, Min2(Min2(col + 1, R - row), 4) - 1)
        + Run(b, p, row - 1, col + 1, -1, 1, Min2(Min2(C - col, row + 1), 4) - 1)
    else if line == 4 then
      1 + Run(b, p, row + 1, col, 1, 0, Min2(R - row, 4) - 1)
    else 1
  }

  /** The bounds of `counter`: never below 1, at most 7 on a two-way line and
      at most 4 on the downward line 4. */
  lemma CounterBounds(b: Grid, p: int, row: int, col: int, line: int)
    requires |b| >= 1 && Shaped(b, |b[0]|) && 0 <= row < |b| && 0 <= col < |b[0]|
    ensures 1 <= Counter(b, p, row, col, line) <= 7
    ensures line == 4 ==> Counter(b, p, row, col, line) <= 4
    ensures !(1 <= line <= 4) ==> Counter(b, p, row, col, line) == 1
  {
  }

  /** Line 4 reaches four exactly when the three cells under (row, col) exist
      and hold the player's discs. */
  lemma CounterDown(b: Grid, p: int, row: int, col: int)
    requires |b| >= 1 && Shaped(b, |b[0]|) && 0 <= row < |b| && 0 <= col < |b[0]|
    ensures Counter(b, p, row, col, 4) >= 4 <==>
      row + 3 < |b| && b[row + 1][col] == p && b[row + 2][col] == p && b[row + 3][col] == p
  {
    var n := Min2(|b| - row, 4) - 1;
    RunSpec(b, p, row + 1, col, 1, 0, n);
    var k := Run(b, p, row + 1, col, 1, 0, n);
    if k >= 3 {
      assert b[row + 1 + Far(0, 1)][col + Far(0, 0)] == p;
      assert b[row + 1 + Far(1, 1)][col + Far(1, 0)] == p;
      assert b[row + 1 + Far(2, 1)][col + Far(2, 0)] == p;
    } else if row + 3 < |b| {
      assert b[row + 1 + Far(k, 1)][col + Far(k, 0)] != p;
    }
  }

  /** `is_winner(action)`: at the topmost disc of column `c`, one of the four
      lines counts at least four for the mover `p`. A column without a disc
      never reaches the count (after `execute` the column always has one). */
  predicate IsWinner(b: Grid, c: int, p: int)
    requires |b| >= 1 && Shaped(b, |b[0]|) && 0 <= c < |b[0]|
  {
    var row := TopDisc(b, c, 0);
    row < |b| && (
      || Counter(b, p, row, c, 1) >= 4
      || Counter(b, p, row, c, 2) >= 4
      || Counter(b, p, row, c, 3) >= 4
      || Counter(b, p, row, c, 4) >= 4)
  }

  /** `execute(action)`: the mover's disc goes to the lowest empty cell of
      the column (nowhere if the column is full: no legality check is made);
      a line of four through the column's top disc records the mover as
      winner and ends the game; reaching `max_time` ends the game; the turn
      passes. */
  function Execute(g: Game, c: int): (r: Game)
    requires 1 <= g.rows && |g.board| == g.rows && Shaped(g.board, g.cols) && 0 <= c < g.cols
    ensures r.rows == g.rows && r.cols == g.cols && |r.board| == g.rows && Shaped(r.board, g.cols)
    ensures r.time == g.time + 1 && r.player == -g.player
    ensures r.time == g.rows * g.cols ==> r.terminated
  {
    var i := LowestEmpty(g.board, c, g.rows - 1);
    var b := if i >= 0 then Put(g.board, i, c, g.player) else g.board;
    var won := IsWinner(b, c, g.player);
    var winner := if won then WinnerOf(g.player) else g.winner;
    var terminated := g.terminated || won || g.time + 1 == g.rows * g.cols;
    Game(g.rows, g.cols, b, g.player * (-1), g.time + 1, terminated, winner)
  }

  /** `undo(action)`: the turn passes back, `time` drops, the end flags are
      cleared and the topmost disc of the column (if any) is removed. */
  function Undo(g: Game, c: int): (r: Game)
    requires 1 <= g.rows && |g.board| == g.rows && Shaped(g.board, g.cols) && 0 <= c < g.cols
    ensures r.rows == g.rows && r.cols == g.cols && |r.board| == g.rows && Shaped(r.board, g.cols)
    ensures r.time == g.time - 1 && r.player == -g.player
    ensures !r.terminated && r.winner == Nobody
  {
    var i := TopDisc(g.board, c, 0);
    var b := if i < g.rows then Put(g.board, i, c, 0) else g.board;
    Game(g.rows, g.cols, b, g.player * (-1), g.time - 1, false, Nobody)
  }

  /** Under a settled column, an empty cell has only empty cells above it. */
  lemma {:induction false} EmptyAbove(b: Grid, c: int, i: int)
    requires |b| >= 1 && Shaped(b, |b[0]|) && 0 <= c < |b[0]| && Settled(b, c)
    requires 0 <= i < |b| && b[i][c] == 0
    ensures forall k :: 0 <= k <= i ==> b[k][c] == 0
    decreases i
  {
    if i > 0 {
      assert b[i - 1][c] == 0;
      EmptyAbove(b, c, i - 1);
    }
  }

  /** Under a settled column, a disc has only discs below it. */
  lemma {:induction false} DiscsBelow(b: Grid, c: int, i: int)
    requires |b| >= 1 && Shaped(b, |b[0]|) && 0 <= c < |b[0]| && Settled(b, c)
    requires 0 <= i < |b| && b[i][c] != 0
    ensures forall k :: i <= k < |b| ==> b[k][c] != 0
    decreases |b| - i
  {
    if i < |b| - 1 {
      DiscsBelow(b, c, i + 1);
    }
  }

  /** Where `execute` puts the disc of a legal move on a settled column: the
      lowest empty cell `i` of the column, which afterwards is the column's
      topmost disc (the cell `is_winner` inspects); no other cell changes. */
  lemma ExecuteDrops(g: Game, c: int) returns (i: int)
    requires 1 <= g.rows && |g.board| == g.rows && Shaped(g.board, g.cols)
    requires IsLegal(g, c) && Settled(g.board, c) && g.player != 0
    ensures 0 <= i < g.rows && g.board[i][c] == 0
    ensures forall k :: i < k < g.rows ==> g.board[k][c] != 0
    ensures forall k :: 0 <= k < i ==> g.board[k][c] == 0
    ensures Execute(g, c).board == Put(g.board, i, c, g.player)
    ensures forall k, j :: 0 <= k < g.rows && 0 <= j < g.cols ==>
      Execute(g, c).board[k][j] == if k == i && j == c then g.player else g.board[k][j]
    ensures TopDisc(Execute(g, c).board, c, 0) == i
  {
    var b := g.board;
    i := LowestEmpty(b, c, g.rows - 1);
    LowestEmptySpec(b, c, g.rows - 1);
    EmptyAbove(b, c, i);
    var b' := Put(b, i, c, g.player);
    PutCells(b, i, c, g.player);
    TopDiscSpec(b', c, 0);
  }

  /** As written, `execute` on a full column puts no disc, yet the clock
      advances and the turn passes. */
  lemma ExecuteFullColumn(g: Game, c: int)
    requires 1 <= g.rows && |g.board| == g.rows && Shaped(g.board, g.cols) && 0 <= c < g.cols
    requires forall k :: 0 <= k < g.rows ==> g.board[k][c] != 0
    ensures Execute(g, c).board == g.board
    ensures Execute(g, c).time == g.time + 1 && Execute(g, c).player == -g.player
  {
    LowestEmptySpec(g.board, c, g.rows - 1);
  }

  /** The load-bearing round trip: undoing a legal move from a running game
      without a winner restores every field exactly. */
  lemma UndoExecute(g: Game, c: int)
    requires 1 <= g.rows && |g.board| == g.rows && Shaped(g.board, g.cols)
    requires IsLegal(g, c) && Settled(g.board, c) && g.player != 0
    requires !g.terminated && g.winner == Nobody
    ensures Undo(Execute(g, c), c) == g
  {
    var i := ExecuteDrops(g, c);
    var b' := Execute(g, c).board;
    PutCells(b', i, c, 0);
    assert Put(b', i, c, 0) == g.board by {
      forall k | 0 <= k < g.rows
        ensures Put(b', i, c, 0)[k] == g.board[k]
      {
        assert |Put(b', i, c, 0)[k]| == |g.board[k]|;
      }
    }
  }

  /** Filling one empty cell adds one disc. */
  lemma {:induction false} DiscsFill(b: Grid, i: int, c: int, v: int)
    requires 0 <= i < |b| && 0 <= c < |b[i]| && b[i][c] == 0 && v != 0
    ensures Discs(Put(b, i, c, v)) == Discs(b) + 1
  {
    var b' := Put(b, i, c, v);
    if i == 0 {
      assert b'[1..] == b[1..];
      OccupiedFill(b[0], c, v);
    } else {
      assert b'[0] == b[0];
      assert b'[1..] == Put(b[1..], i - 1, c, v);
      DiscsFill(b[1..], i - 1, c, v);
    }
  }

  /** A grid without an empty cell holds `rows * cols` discs. */
  lemma {:induction false} FullDiscs(b: Grid, cols: int)
    requires Shaped(b, cols)
    requires forall i, j :: 0 <= i < |b| && 0 <= j < cols ==> b[i][j] != 0
    ensures Discs(b) == |b| * cols
  {
    if b != [] {
      OccupiedFull(b[0]);
      FullDiscs(b[1..], cols);
      assert |b| * cols == (|b| - 1) * cols + cols;
    }
  }

  /** Putting the mover's disc on the lowest empty cell keeps every column settled. */
  lemma ExecuteGravity(g: Game, c: int)
    requires 1 <= g.rows && |g.board| == g.rows && Shaped(g.board, g.cols) && 1 <= g.cols
    requires IsLegal(g, c) && Gravity(g.board, g.cols) && g.player != 0
    ensures Gravity(Execute(g, c).board, g.cols)
  {
    var i := ExecuteDrops(g, c);
    var b := g.board;
    var b' := Execute(g, c).board;
    forall j | 0 <= j < g.cols
      ensures Settled(b', j)
    {
      assert Settled(b, j);
    }
  }

  /** A legal move from a running reachable state reaches a reachable state. */
  lemma ExecuteValid(g: Game, c: int)
    requires Valid(g) && !g.terminated && IsLegal(g, c)
    ensures Valid(Execute(g, c))
  {
    var i := ExecuteDrops(g, c);
    ExecuteGravity(g, c);
    DiscsFill(g.board, i, c, g.player);
  }

  /** A legal move from a running calm state reaches a calm state. */
  lemma ExecuteCalm(g: Game, c: int)
    requires Calm(g) && !g.terminated && IsLegal(g, c)
    ensures Calm(Execute(g, c))
  {
    ExecuteGravity(g, c);
  }

  /** Undoing a move on a column that holds a disc keeps the invariant: the
      topmost disc goes, so no disc floats and one disc fewer is counted. */
  lemma UndoValid(g: Game, c: int)
    requires Valid(g) && 0 <= c < g.cols && g.board[g.rows - 1][c] != 0
    ensures Valid(Undo(g, c))
  {
    var b := g.board;
    TopDiscSpec(b, c, 0);
    var i := TopDisc(b, c, 0);
    var b' := Put(b, i, c, 0);
    PutCells(b, i, c, 0);
    assert b'[i := b'[i][c := b[i][c]]] == b by {
      forall k | 0 <= k < g.rows
        ensures b'[i := b'[i][c := b[i][c]]][k] == b[k]
      {
        assert |b'[i := b'[i][c := b[i][c]]][k]| == |b[k]|;
      }
    }
    DiscsFill(b', i, c, b[i][c]);
    forall j | 0 <= j < g.cols
      ensures Settled(b', j)
    {
      assert Settled(b, j);
    }
  }

  /** A running reachable game always has a legal move: a full top row would
      mean a full grid, and a full grid ends the game. */
  lemma RunningHasMove(g: Game)
    requires Valid(g) && !g.terminated
    ensures |LegalActions(g)| > 0
  {
    LegalActionsLegal(g);
    if |LegalActions(g)| == 0 {
      forall i, j | 0 <= i < g.rows && 0 <= j < g.cols
        ensures g.board[i][j] != 0
      {
        assert !IsLegal(g, j);
        DiscsBelow(g.board, j, 0);
      }
      FullDiscs(g.board, g.cols);
      assert false;
    }
  }
}
