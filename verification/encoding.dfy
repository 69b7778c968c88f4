/** The network input of `DeepPlayer.preprocess`, in tictactoe/players.py and
    connectfour/players.py: three entries per cell, one-hot over (player 1,
    player -1, empty), followed by two entries one-hot over the player to
    move. Entries are the integers 0 and 1 (the source stores them as
    float32 tensors). */
module Encoding {
  import opened Common
  import ConnectFour

  /** One cell: [1,0,0] for player 1, [0,1,0] for player -1, [0,0,1] for any
      other value (in reachable states, the empty cell). */
  function CellBits(v: int): (r: seq<int>)
    ensures |r| == 3 && r[0] + r[1] + r[2] == 1
    ensures forall k :: 0 <= k < 3 ==> r[k] == 0 || r[k] == 1
    ensures r[0] == 1 <==> v == 1
    ensures r[1] == 1 <==> v == -1
    ensures r[2] == 1 <==> v != 1 && v != -1
  {
    if v == 1 then [1, 0, 0] else if v == -1 then [0, 1, 0] else [0, 0, 1]
  }

  /** The player to move: [1,0] for player 1, [0,1] otherwise. */
  function PlayerBits(p: int): (r: seq<int>)
    ensures |r| == 2 && r[0] + r[1] == 1
    ensures r[0] == 1 <==> p == 1
    ensures r[1] == 1 <==> p != 1
  {
    if p == 1 then [1, 0] else [0, 1]
  }

  /** The cells in order, three entries each. */
  function EncodeCells(cells: seq<int>): (r: seq<int>)
    ensures |r| == 3 * |cells|
  {
    if cells == [] then [] else CellBits(cells[0]) + EncodeCells(cells[1..])
  }

  /** The whole input: the encoded cells, then the encoded player. */
  function Preprocess(cells: seq<int>, player: int): (r: seq<int>)
    ensures |r| == 3 * |cells| + 2
    ensures r[3 * |cells|..] == PlayerBits(player)
  {
    EncodeCells(cells) + PlayerBits(player)
  }

  /** Entries `3i`, `3i+1`, `3i+2` are the encoding of cell `i`. */
  lemma {:induction false} EncodeCellsAt(cells: seq<int>, i: int)
    requires 0 <= i < |cells|
    ensures EncodeCells(cells)[3 * i..3 * i + 3] == CellBits(cells[i])
  {
    if i > 0 {
      EncodeCellsAt(cells[1..], i - 1);
      SliceRight(CellBits(cells[0]), EncodeCells(cells[1..]), 3 * i, 3 * i + 3);
    }
  }

  /** A slice lying wholly in the right part of a concatenation. */
  lemma SliceRight(x: seq<int>, y: seq<int>, lo: int, hi: int)
    requires |x| <= lo <= hi <= |x| + |y|
    ensures (x + y)[lo..hi] == y[lo - |x|..hi - |x|]
  {
    assert forall k :: 0 <= k < hi - lo ==> (x + y)[lo..hi][k] == y[lo - |x|..hi - |x|][k];
  }

  /** Reading a cell back from its three entries. */
  function DecodeCell(bits: seq<int>): int
    requires |bits| == 3
  {
    if bits[0] == 1 then 1 else if bits[1] == 1 then -1 else 0
  }

  function DecodeCells(r: seq<int>): (cells: seq<int>)
    requires |r| % 3 == 0
    ensures 3 * |cells| == |r|
  {
    if r == [] then [] else [DecodeCell(r[..3])] + DecodeCells(r[3..])
  }

  /** Reading a whole input back as (cells, player). */
  function Decode(r: seq<int>): (seq<int>, int)
    requires |r| >= 2 && (|r| - 2) % 3 == 0
  {
    (DecodeCells(r[..|r| - 2]), if r[|r| - 2] == 1 then 1 else -1)
  }

  lemma {:induction false} DecodeEncodeCells(cells: seq<int>)
    requires forall k :: 0 <= k < |cells| ==> IsMark(cells[k])
    ensures DecodeCells(EncodeCells(cells)) == cells
  {
    if cells != [] {
      var r := EncodeCells(cells);
      assert r[..3] == CellBits(cells[0]);
      assert r[3..] == EncodeCells(cells[1..]);
      DecodeEncodeCells(cells[1..]);
    }
  }

  /** The encoding loses nothing on reachable states: cells holding 1, -1 or
      0 and a player in {1, -1} are read back exactly, so two different
      states never get the same input. */
  lemma DecodePreprocess(cells: seq<int>, player: int)
    requires forall k :: 0 <= k < |cells| ==> IsMark(cells[k])
    requires IsPlayer(player)
    ensures Decode(Preprocess(cells, player)) == (cells, player)
  {
    var r := Preprocess(cells, player);
    assert r[..|r| - 2] == EncodeCells(cells);
    DecodeEncodeCells(cells);
  }

  lemma PreprocessInjective(c1: seq<int>, p1: int, c2: seq<int>, p2: int)
    requires forall k :: 0 <= k < |c1| ==> IsMark(c1[k])
    requires forall k :: 0 <= k < |c2| ==> IsMark(c2[k])
    requires IsPlayer(p1) && IsPlayer(p2)
    ensures Preprocess(c1, p1) == Preprocess(c2, p2) <==> c1 == c2 && p1 == p2
  {
    DecodePreprocess(c1, p1);
    DecodePreprocess(c2, p2);
  }

  /** The tic-tac-toe `preprocess`: the nine cells `board[0..9]` (`range(9)`)
      and the player, 9 * 3 + 2 = 29 entries. */
  function TicTacToeInput(board: seq<int>, player: int): (r: seq<int>)
    requires |board| >= 9
    ensures |r| == 29
  {
    Preprocess(board[..9], player)
  }

  /** Each of the nine cells and the player is one-hot encoded in place. */
  lemma TicTacToeInputAt(board: seq<int>, player: int, i: int)
    requires |board| >= 9 && 0 <= i < 9
    ensures TicTacToeInput(board, player)[3 * i..3 * i + 3] == CellBits(board[i])
    ensures TicTacToeInput(board, player)[27..] == PlayerBits(player)
  {
    EncodeCellsAt(board[..9], i);
    var r := TicTacToeInput(board, player);
    assert r[3 * i..3 * i + 3] == EncodeCells(board[..9])[3 * i..3 * i + 3];
  }

  /** The connect-four `preprocess`: the grid row by row, then the player,
      `rows * cols * 3 + 2` entries. */
  function ConnectFourInput(b: ConnectFour.Grid, player: int): (r: seq<int>)
    requires |b| >= 1 && ConnectFour.Shaped(b, |b[0]|)
  {
    Preprocess(ConnectFour.Flat(b), player)
  }

  /** Cell (i, j) sits at entries `3 * (i * cols + j)` to `+ 3`, and the
      player fills the last two. */
  lemma ConnectFourInputAt(b: ConnectFour.Grid, player: int, i: int, j: int)
    requires |b| >= 1 && ConnectFour.Shaped(b, |b[0]|)
    requires 0 <= i < |b| && 0 <= j < |b[0]|
    ensures |ConnectFourInput(b, player)| == |b| * |b[0]| * 3 + 2
    ensures var k := 3 * (i * |b[0]| + j);
      0 <= k && k + 3 <= |b| * |b[0]| * 3 && ConnectFourInput(b, player)[k..k + 3] == CellBits(b[i][j])
    ensures ConnectFourInput(b, player)[|b| * |b[0]| * 3..] == PlayerBits(player)
  {
    var cols := |b[0]|;
    var f := ConnectFour.Flat(b);
    ConnectFour.FlatLength(b, cols);
    ConnectFour.FlatCell(b, cols, i, j);
    EncodeCellsAt(f, i * cols + j);
    var r := ConnectFourInput(b, player);
    var k := 3 * (i * cols + j);
    assert r[k..k + 3] == EncodeCells(f)[k..k + 3];
    assert |b| * cols * 3 == 3 * |f|;
  }
}
