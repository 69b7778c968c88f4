/** `ChainPlayer` of connectfour/players.py: for each legal column (in
    shuffled order) find the row a disc would land in, count the chain it
    would join along each of the four lines (in shuffled order), and keep the
    first column that beats the longest chain so far. The offensive player
    counts its own discs, the defensive one the opponent's. */
module ConnectFourChain {
  import opened Common
  import opened ConnectFour

  function Max2(x: int, y: int): (z: int)
    ensures z >= x && z >= y && (z == x || z == y)
  {
    if x >= y then x else y
  }

  /** The row a disc dropped in column `c` lands in: the lowest empty cell,
      scanning from the bottom row up. */
  function Landing(g: Game, c: int): (row: int)
    requires Sane(g) && IsLegal(g, c)
    ensures 0 <= row < g.rows && g.board[row][c] == 0
  {
    LowestEmptySpec(g.board, c, g.rows - 1);
    LowestEmpty(g.board, c, g.rows - 1)
  }

  /** The disc lands on the lowest empty cell: every cell below it is taken. */
  lemma LandingSpec(g: Game, c: int)
    requires Sane(g) && IsLegal(g, c)
    ensures forall k :: Landing(g, c) < k < g.rows ==> g.board[k][c] != 0
  {
    LowestEmptySpec(g.board, c, g.rows - 1);
  }

  /** The scan of `choice` for the landing row, from the bottom row up. */
  method LandingRow(g: Game, c: int) returns (row: int)
    requires Sane(g) && IsLegal(g, c)
    ensures 0 <= row < g.rows && g.board[row][c] == 0
    ensures forall k :: row < k < g.rows ==> g.board[k][c] != 0
  {
    row := g.rows - 1;
    while row >= 0 && g.board[row][c] != 0
      invariant -1 <= row < g.rows
      invariant forall k :: row < k < g.rows ==> g.board[k][c] != 0
      decreases row
    {
      row := row - 1;
    }
  }

  /** Whose discs the player counts: `game.player * sign`. */
  function Counted(g: Game, offensive: bool): (p: int)
    ensures offensive ==> p == g.player
    ensures !offensive ==> p == -g.player
  {
    g.player * (if offensive then 1 else -1)
  }

  /** The longest count over the given lines at (row, col), 0 for no line;
      the lines are taken from the first on, as the inner loop takes them. */
  function Most(b: Grid, p: int, row: int, col: int, lines: seq<int>): int
    requires |b| >= 1 && Shaped(b, |b[0]|) && 0 <= row < |b| && 0 <= col < |b[0]|
    decreases |lines|
  {
    if lines == [] then 0
    else Max2(Most(b, p, row, col, lines[..|lines| - 1]), Counter(b, p, row, col, lines[|lines| - 1]))
  }

  /** `Most` is the maximum of the counts: it bounds each of them and, for a
      non-empty list, is one of them. */
  lemma {:induction false} MostSpec(b: Grid, p: int, row: int, col: int, lines: seq<int>)
    requires |b| >= 1 && Shaped(b, |b[0]|) && 0 <= row < |b| && 0 <= col < |b[0]|
    ensures forall l :: l in lines ==> Counter(b, p, row, col, l) <= Most(b, p, row, col, lines)
    ensures lines == [] ==> Most(b, p, row, col, lines) == 0
    ensures lines != [] ==> exists l :: l in lines && Counter(b, p, row, col, l) == Most(b, p, row, col, lines)
    decreases |lines|
  {
    if lines != [] {
      var front := lines[..|lines| - 1];
      MostSpec(b, p, row, col, front);
      assert lines == front + [lines[|lines| - 1]];
    }
  }

  /** The maximum does not depend on the order of the lines, so the shuffle
      of `[1, 2, 3, 4]` does not change it. */
  lemma MostShuffled(b: Grid, p: int, row: int, col: int, lines: seq<int>, others: seq<int>)
    requires |b| >= 1 && Shaped(b, |b[0]|) && 0 <= row < |b| && 0 <= col < |b[0]|
    requires Permutes(lines, others)
    ensures Most(b, p, row, col, lines) == Most(b, p, row, col, others)
  {
    PermutesMembers(lines, others);
    MostSpec(b, p, row, col, lines);
    MostSpec(b, p, row, col, others);
    assert |multiset(lines)| == |multiset(others)|;
    if lines != [] {
      var l :| l in lines && Counter(b, p, row, col, l) == Most(b, p, row, col, lines);
      var o :| o in others && Counter(b, p, row, col, o) == Most(b, p, row, col, others);
    }
  }

  /** The four lines of `counter`, in the order `choice` writes them. */
  const Lines: seq<int> := [1, 2, 3, 4]

  /** The longest chain a disc of `p` dropped in the legal column `c` would
      join, over the four lines. */
  function Chain(g: Game, p: int, c: int): int
    requires Sane(g) && IsLegal(g, c)
  {
    Most(g.board, p, Landing(g, c), c, Lines)
  }

  /** The disc counts itself, so every legal column scores between 1 and 7,
      and one of the four lines attains the score. */
  lemma ChainBounds(g: Game, p: int, c: int)
    requires Sane(g) && IsLegal(g, c)
    ensures 1 <= Chain(g, p, c) <= 7
    ensures exists line :: 1 <= line <= 4 && Chain(g, p, c) == Counter(g.board, p, Landing(g, c), c, line)
  {
    var row := Landing(g, c);
    MostSpec(g.board, p, row, c, [1, 2, 3, 4]);
    assert 1 in [1, 2, 3, 4];
    CounterBounds(g.board, p, row, c, 1);
    var l :| l in [1, 2, 3, 4] && Counter(g.board, p, row, c, l) == Chain(g, p, c);
    CounterBounds(g.board, p, row, c, l);
  }

  /** The inner loop of `choice` over the shuffled lines at the landing
      cell of `column`: the running maximum `maxCount` grows to the longest
      count among `lines`, and `column` becomes the answer exactly when it
      beat the maximum it started from. */
  method ScanLines(b: Grid, p: int, row: int, column: int, lines: seq<int>, maxCount0: int, action0: Option<int>)
    returns (maxCount: int, action: Option<int>)
    requires |b| >= 1 && Shaped(b, |b[0]|) && 0 <= row < |b| && 0 <= column < |b[0]|
    requires maxCount0 >= 0
    ensures maxCount == Max2(maxCount0, Most(b, p, row, column, lines))
    ensures maxCount > maxCount0 ==> action == Some(column)
    ensures maxCount == maxCount0 ==> action == action0
  {
    maxCount, action := maxCount0, action0;
    var k := 0;
    while k < |lines|
      invariant 0 <= k <= |lines|
      invariant maxCount == Max2(maxCount0, Most(b, p, row, column, lines[..k]))
      invariant maxCount > maxCount0 ==> action == Some(column)
      invariant maxCount == maxCount0 ==> action == action0
    {
      var c := Counter(b, p, row, column, lines[k]);
      if c > maxCount {
        maxCount := c;
        action := Some(column);
      }
      assert lines[..k + 1][..k] == lines[..k];
      k := k + 1;
    }
    assert lines[..k] == lines;
  }

  /** One turn of the outer loop of `choice`: find the landing row of
      `column`, then scan its shuffled lines. The running maximum grows to
      the column's chain, which is at least 1, and the column becomes the
      answer exactly when its chain beats the maximum so far. */
  method TryColumn(g: Game, p: int, column: int, lines: seq<int>, maxCount0: int, action0: Option<int>)
    returns (maxCount: int, action: Option<int>)
    requires Sane(g) && IsLegal(g, column) && Permutes(lines, [1, 2, 3, 4]) && maxCount0 >= 0
    ensures Chain(g, p, column) >= 1
    ensures maxCount == Max2(maxCount0, Chain(g, p, column))
    ensures maxCount > maxCount0 ==> action == Some(column)
    ensures maxCount == maxCount0 ==> action == action0
  {
    var row := LandingRow(g, column);
    LandingSpec(g, column);
    assert row == Landing(g, column);
    maxCount, action := ScanLines(g.board, p, row, column, lines, maxCount0, action0);
    MostShuffled(g.board, p, row, column, lines, [1, 2, 3, 4]);
    ChainBounds(g, p, column);
  }

  /** The outer loop of `choice` over the columns of `order`, all legal:
      afterwards `maxCount` is the longest chain among them (0 for none), and
      the answer is the first column in `order` that reached it. */
  method ScanColumns(g: Game, p: int, order: seq<int>, lineOrders: seq<seq<int>>)
    returns (action: Option<int>, maxCount: int, ghost at: int)
    requires Sane(g) && AllLegal(g, order) && |lineOrders| == |order|
    requires forall k :: 0 <= k < |order| ==> Permutes(lineOrders[k], [1, 2, 3, 4])
    ensures order == [] ==> action == None && maxCount == 0
    ensures order != [] ==> 0 <= at < |order| && action == Some(order[at]) && maxCount == Chain(g, p, order[at])
    ensures order != [] ==> forall j :: 0 <= j < at ==> Chain(g, p, order[j]) < maxCount
    ensures forall j :: 0 <= j < |order| ==> Chain(g, p, order[j]) <= maxCount
  {
    action := None;
    maxCount := 0;
    at := 0;
    var i := 0;
    while i < |order|
      invariant 0 <= i <= |order|
      invariant i == 0 ==> action == None && maxCount == 0
      invariant i > 0 ==> 0 <= at < i && action == Some(order[at]) && maxCount == Chain(g, p, order[at])
      invariant i > 0 ==> forall j :: 0 <= j < at ==> Chain(g, p, order[j]) < maxCount
      invariant forall j :: 0 <= j < i ==> Chain(g, p, order[j]) <= maxCount
    {
      ghost var before := maxCount;
      maxCount, action := TryColumn(g, p, order[i], lineOrders[i], maxCount, action);
      if maxCount > before {
        at := i;
      }
      i := i + 1;
    }
  }

  /** `ChainPlayer.choice` with the shuffled column list `order` and, for the
      `k`-th column tried, the shuffled line list `lineOrders[k]`. The answer
      is a legal column exactly when there is one; its chain is the longest
      of all legal columns, and every column tried before it in shuffled
      order has a strictly shorter chain (a tie keeps the earlier column). */
  method Choice(g: Game, offensive: bool, order: seq<int>, lineOrders: seq<seq<int>>) returns (action: Option<int>)
    requires Sane(g)
    requires Permutes(order, LegalActions(g))
    requires |lineOrders| == |order|
    requires forall k :: 0 <= k < |order| ==> Permutes(lineOrders[k], [1, 2, 3, 4])
    ensures action.Some? <==> |LegalActions(g)| > 0
    ensures action.Some? ==> IsLegal(g, action.value)
    ensures action.Some? ==> forall c :: IsLegal(g, c) ==>
      Chain(g, Counted(g, offensive), c) <= Chain(g, Counted(g, offensive), action.value)
    ensures action.Some? ==> exists at :: (0 <= at < |order| && order[at] == action.value
      && forall j :: 0 <= j < at ==>
           IsLegal(g, order[j]) && Chain(g, Counted(g, offensive), order[j]) < Chain(g, Counted(g, offensive), action.value))
  {
    var p := Counted(g, offensive);
    PermutesMembers(order, LegalActions(g));
    LegalActionsLegal(g);
    assert |multiset(order)| == |multiset(LegalActions(g))|;
    assert AllLegal(g, order);
    var maxCount;
    ghost var at;
    action, maxCount, at := ScanColumns(g, p, order, lineOrders);
    if action.Some? {
      forall c | IsLegal(g, c)
        ensures Chain(g, p, c) <= maxCount
      {
        var j :| 0 <= j < |order| && order[j] == c;
      }
    }
  }
}
