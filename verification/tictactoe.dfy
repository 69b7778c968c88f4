/** The 3x3 engine `TicTacToe` (tictactoe/game.py, and game.py, whose code
    is the same): a board of nine cells indexed 0..8 row by row, the mover
    `player` (1 or -1), the ply counter `time`, and the `terminated` and
    `winner` fields. `Execute` and `Undo` are pure transitions on the state. */
module TicTacToe {
  import opened Common

  datatype Game = Game(board: seq<int>, time: int, player: int, terminated: bool, winner: Winner)

  /** The state built by the constructor. */
  function New(): (g: Game)
    ensures Valid(g) && !g.terminated && g.player == 1 && g.time == 0
    ensures forall i :: 0 <= i < 9 ==> g.board[i] == 0
  {
    EmptyBoard(seq(9, _ => 0));
    Game(seq(9, _ => 0), 0, 1, false, Nobody)
  }

  /** Every cell of the new board is a legal move, in order. */
  lemma NewLegal()
    ensures LegalActions(New()) == [0, 1, 2, 3, 4, 5, 6, 7, 8]
  {
    EmptyBoard(New().board);
  }

  /** The empty board has no marks, and every cell is a legal move. */
  lemma EmptyBoard(b: seq<int>)
    requires |b| == 9 && forall i :: 0 <= i < 9 ==> b[i] == 0
    ensures Occupied(b) == 0 && !IsWinner(b, 1) && !IsWinner(b, -1)
    ensures ZerosFrom(b, 0) == [0, 1, 2, 3, 4, 5, 6, 7, 8]
  {
    EmptyOccupied(b);
    WinnerTriples(b, 1);
    WinnerTriples(b, -1);
    var l := ZerosFrom(b, 0);
    ZerosCount(b, 0);
    ZerosFromComplete(b, 0);
    assert b[0..] == b;
    LegalIsRange(l);
  }

  /** An ascending list of nine indices below nine is 0..8. */
  lemma LegalIsRange(l: seq<int>)
    requires |l| == 9
    requires forall k :: 0 <= k < |l| ==> 0 <= l[k] < 9
    requires forall j, k :: 0 <= j < k < |l| ==> l[j] < l[k]
    ensures l == [0, 1, 2, 3, 4, 5, 6, 7, 8]
  {
    assert l[0] >= 0 && l[8] <= 8;
    assert l[0] < l[1] < l[2] < l[3] < l[4] < l[5] < l[6] < l[7] < l[8];
  }

  /** `reset` puts back exactly the constructor's state, whatever came before. */
  function Reset(g: Game): (r: Game)
    ensures r == New()
  {
    Game(seq(9, _ => 0), 0, 1, false, Nobody)
  }

  /** The reachable-state invariant: nine marks, a mover in {1, -1}, `time`
      counting the marks on the board, `terminated` set exactly when the board
      is full or somebody won, and a recorded winner owning a full line. */
  predicate Valid(g: Game) {
    && |g.board| == 9
    && (forall i :: 0 <= i < 9 ==> IsMark(g.board[i]))
    && IsPlayer(g.player)
    && g.time == Occupied(g.board)
    && (g.terminated <==> (g.time == 9 || g.winner != Nobody))
    && (g.winner == X ==> IsWinner(g.board, 1))
    && (g.winner == O ==> IsWinner(g.board, -1))
  }

  /** `legal_actions`: the empty cells, in ascending order. */
  function LegalActions(g: Game): (r: seq<int>)
    requires |g.board| == 9
    ensures forall k :: 0 <= k < |r| ==> 0 <= r[k] < 9 && g.board[r[k]] == 0
  {
    ZerosFrom(g.board, 0)
  }

  predicate IsLegal(g: Game, a: int)
    requires |g.board| == 9
  {
    0 <= a < 9 && g.board[a] == 0
  }

  /** Every listed action is legal. */
  predicate AllLegal(g: Game, acts: seq<int>)
    requires |g.board| == 9
  {
    forall k :: 0 <= k < |acts| ==> IsLegal(g, acts[k])
  }

  lemma LegalActionsLegal(g: Game)
    requires |g.board| == 9
    ensures AllLegal(g, LegalActions(g))
    ensures forall a :: a in LegalActions(g) <==> IsLegal(g, a)
  {
    ZerosFromComplete(g.board, 0);
  }

  /** There are as many legal actions as plies left. */
  lemma LegalCount(g: Game)
    requires Valid(g)
    ensures |LegalActions(g)| == 9 - g.time
  {
    ZerosCount(g.board, 0);
    assert g.board[0..] == g.board;
  }

  /** Three cells all equal to the player's mark. */
  predicate Triple(b: seq<int>, i: int, j: int, k: int, p: int)
    requires |b| == 9 && 0 <= i < 9 && 0 <= j < 9 && 0 <= k < 9
  {
    b[i] == p && b[j] == p && b[k] == p
  }

  /** A cell index of the 3x3 board. */
  type Cell = i: int | 0 <= i < 9

  /** The eight triples `a1` .. `a8` checked by `is_winner`, in source order:
      the three rows, the three columns, the diagonal and the anti-diagonal. */
  const Lines: seq<(Cell, Cell, Cell)> :=
    [(0, 1, 2), (3, 4, 5), (6, 7, 8), (0, 3, 6), (1, 4, 7), (2, 5, 8), (0, 4, 8), (6, 4, 2)]

  /** `is_winner`: one of the eight triples holds only the player's mark. */
  predicate IsWinner(b: seq<int>, p: int)
    requires |b| == 9
  {
    exists k :: 0 <= k < |Lines| && Triple(b, Lines[k].0, Lines[k].1, Lines[k].2, p)
  }

  /** The eight triples spelled out. */
  lemma WinnerTriples(b: seq<int>, p: int)
    requires |b| == 9
    ensures IsWinner(b, p) <==>
      || Triple(b, 0, 1, 2, p) || Triple(b, 3, 4, 5, p) || Triple(b, 6, 7, 8, p)
      || Triple(b, 0, 3, 6, p) || Triple(b, 1, 4, 7, p) || Triple(b, 2, 5, 8, p)
      || Triple(b, 0, 4, 8, p) || Triple(b, 6, 4, 2, p)
  {
    if IsWinner(b, p) {
      var k :| 0 <= k < |Lines| && Triple(b, Lines[k].0, Lines[k].1, Lines[k].2, p);
      assert k in {0, 1, 2, 3, 4, 5, 6, 7};
    }
    assert Lines[0] == (0, 1, 2) && Lines[1] == (3, 4, 5) && Lines[2] == (6, 7, 8) && Lines[3] == (0, 3, 6);
    assert Lines[4] == (1, 4, 7) && Lines[5] == (2, 5, 8) && Lines[6] == (0, 4, 8) && Lines[7] == (6, 4, 2);
  }

  /** The cell in row `r` and column `c` of the 3x3 grid. */
  function At(b: seq<int>, r: int, c: int): int
    requires |b| == 9 && 0 <= r < 3 && 0 <= c < 3
  {
    b[3 * r + c]
  }

  /** The cell of the anti-diagonal in row `k`. */
  function Anti(b: seq<int>, k: int): int
    requires |b| == 9 && 0 <= k < 3
  {
    At(b, k, 2 - k)
  }

  predicate FullRow(b: seq<int>, r: int, p: int)
    requires |b| == 9 && 0 <= r < 3
  {
    forall c :: 0 <= c < 3 ==> At(b, r, c) == p
  }

  predicate FullColumn(b: seq<int>, c: int, p: int)
    requires |b| == 9 && 0 <= c < 3
  {
    forall r :: 0 <= r < 3 ==> At(b, r, c) == p
  }

  /** Three in a row in the geometric sense: some row, some column, the main
      diagonal or the anti-diagonal of the grid holds only `p`. */
  predicate HasLine(b: seq<int>, p: int)
    requires |b| == 9
  {
    || (exists r :: 0 <= r < 3 && FullRow(b, r, p))
    || (exists c :: 0 <= c < 3 && FullColumn(b, c, p))
    || (forall k :: 0 <= k < 3 ==> At(b, k, k) == p)
    || (forall k :: 0 <= k < 3 ==> Anti(b, k) == p)
  }

  /** The eight hard-coded triples are exactly the rows, columns and diagonals. */
  lemma WinnerIffLine(b: seq<int>, p: int)
    requires |b| == 9
    ensures IsWinner(b, p) <==> HasLine(b, p)
  {
    WinnerTriples(b, p);
    if IsWinner(b, p) {
      if Triple(b, 0, 1, 2, p) { assert FullRow(b, 0, p); }
      else if Triple(b, 3, 4, 5, p) { assert FullRow(b, 1, p); }
      else if Triple(b, 6, 7, 8, p) { assert FullRow(b, 2, p); }
      else if Triple(b, 0, 3, 6, p) { assert FullColumn(b, 0, p); }
      else if Triple(b, 1, 4, 7, p) { assert FullColumn(b, 1, p); }
      else if Triple(b, 2, 5, 8, p) { assert FullColumn(b, 2, p); }
      else if Triple(b, 0, 4, 8, p) {
        assert forall k :: 0 <= k < 3 ==> At(b, k, k) == p by {
          assert At(b, 0, 0) == b[0] && At(b, 1, 1) == b[4] && At(b, 2, 2) == b[8];
        }
      } else {
        assert forall k :: 0 <= k < 3 ==> Anti(b, k) == p by {
          assert Anti(b, 0) == b[2] && Anti(b, 1) == b[4] && Anti(b, 2) == b[6];
        }
      }
    }
    if HasLine(b, p) {
      if exists r :: 0 <= r < 3 && FullRow(b, r, p) {
        var r :| 0 <= r < 3 && FullRow(b, r, p);
        assert At(b, r, 0) == p && At(b, r, 1) == p && At(b, r, 2) == p;
      } else if exists c :: 0 <= c < 3 && FullColumn(b, c, p) {
        var c :| 0 <= c < 3 && FullColumn(b, c, p);
        assert At(b, 0, c) == p && At(b, 1, c) == p && At(b, 2, c) == p;
      } else if forall k :: 0 <= k < 3 ==> At(b, k, k) == p {
        assert At(b, 0, 0) == p && At(b, 1, 1) == p && At(b, 2, 2) == p;
      } else {
        assert Anti(b, 0) == p && Anti(b, 1) == p && Anti(b, 2) == p;
      }
    }
  }

  /** `execute(action)`: the mover's mark goes to `action`; if that completes
      a line the mover is recorded as winner and the game ends; the ninth ply
      ends the game; the turn passes. No legality check is made. */
  function Execute(g: Game, a: int): (r: Game)
    requires |g.board| == 9 && 0 <= a < 9
    ensures |r.board| == 9 && r.board[a] == g.player
    ensures r.time == g.time + 1 && r.player == -g.player
    ensures r.time == 9 ==> r.terminated
  {
    var b := g.board[a := g.player];
    var won := IsWinner(b, g.player);
    var winner := if won then WinnerOf(g.player) else g.winner;
    var terminated := g.terminated || won || g.time + 1 == 9;
    Game(b, g.time + 1, g.player * (-1), terminated, winner)
  }

  /** `undo(action)`: turn passes back, `time` drops, the end flags are cleared
      and the cell `action` is emptied. */
  function Undo(g: Game, a: int): (r: Game)
    requires |g.board| == 9 && 0 <= a < 9
    ensures |r.board| == 9 && r.board[a] == 0
    ensures r.time == g.time - 1 && r.player == -g.player
    ensures !r.terminated && r.winner == Nobody
  {
    Game(g.board[a := 0], g.time - 1, g.player * (-1), false, Nobody)
  }

  /** `execute` and `undo` touch only the cell `action`. */
  lemma ExecuteUndoFrame(g: Game, a: int)
    requires |g.board| == 9 && 0 <= a < 9
    ensures forall i :: 0 <= i < 9 && i != a ==> Execute(g, a).board[i] == g.board[i]
    ensures forall i :: 0 <= i < 9 && i != a ==> Undo(g, a).board[i] == g.board[i]
  {
  }

  /** The load-bearing round trip: undoing a legal move from a running game
      restores every field exactly. */
  lemma UndoExecute(g: Game, a: int)
    requires |g.board| == 9 && IsLegal(g, a)
    requires !g.terminated && g.winner == Nobody
    ensures Undo(Execute(g, a), a) == g
  {
    assert Undo(Execute(g, a), a).board == g.board;
  }

  /** A legal move from a running reachable state reaches a reachable state. */
  lemma ExecuteValid(g: Game, a: int)
    requires Valid(g) && !g.terminated && IsLegal(g, a)
    ensures Valid(Execute(g, a))
  {
    var r := Execute(g, a);
    OccupiedFill(g.board, a, g.player);
    assert r.board == g.board[a := g.player];
  }

  /** Undoing the move that filled cell `a` keeps the invariant, and the board
      loses exactly that mark. */
  lemma UndoValid(g: Game, a: int)
    requires Valid(g) && 0 <= a < 9 && g.board[a] != 0
    ensures Valid(Undo(g, a))
  {
    var r := Undo(g, a);
    assert r.board[a := g.board[a]] == g.board;
    OccupiedFill(r.board, a, g.board[a]);
  }

  /** Who wins a move: the mover is recorded as winner exactly when the new
      board has a row, column or diagonal of the mover's marks; the ninth ply
      always ends the game, and a full board without such a line is a draw. */
  lemma ExecuteOutcome(g: Game, a: int)
    requires Valid(g) && !g.terminated && IsLegal(g, a)
    ensures var r := Execute(g, a);
      && (r.winner == WinnerOf(g.player) <==> HasLine(r.board, g.player))
      && (r.winner != Nobody ==> r.winner == WinnerOf(g.player))
      && (r.terminated <==> (HasLine(r.board, g.player) || r.time == 9))
      && (r.time == 9 && !HasLine(r.board, g.player) ==> r.winner == Nobody)
  {
    WinnerIffLine(Execute(g, a).board, g.player);
  }

  /** A running reachable game always has a legal move. */
  lemma RunningHasMove(g: Game)
    requires Valid(g) && !g.terminated
    ensures |LegalActions(g)| > 0
  {
    LegalCount(g);
  }

  /** What every state a search walks through satisfies, reachable or not:
      nine cells, at most nine plies, and the ninth ply only on an ended game.
      `Execute` from a running such state and `Undo` keep it. */
  predicate Sane(g: Game) {
    |g.board| == 9 && g.time <= 9 && (g.time == 9 ==> g.terminated)
  }

  /** A running game has no winner yet. With `Sane`, this is all that undoing
      a legal move needs to restore the game exactly. */
  predicate Calm(g: Game) {
    Sane(g) && (!g.terminated ==> g.winner == Nobody)
  }

  /** Every entry of `acts` names a cell. */
  predicate Cells(acts: seq<int>) {
    forall k :: 0 <= k < |acts| ==> 0 <= acts[k] < 9
  }

  /** The number of plies left before the board is full. */
  function Room(g: Game): int {
    9 - g.time
  }
}
