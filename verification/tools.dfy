/** `play` and `evaluation` of connectfour/tools.py. A player's `choice` is
    an oracle from states to columns that answers every running reachable
    state with a legal column; the random first move of `play` is an index
    into the legal actions of the fresh game, supplied from outside; the
    rendering is left out. */
module Tools {
  import opened Common
  import opened ConnectFour
  import Scoreboard

  /** A player's `choice`. */
  type Chooser = Game -> int

  /** The oracle answers every running reachable state with a legal column. */
  ghost predicate LegalOracle(choose: Chooser) {
    forall g :: Valid(g) && !g.terminated ==> IsLegal(g, choose(g))
  }

  /** Who is asked in a loop step of `play`: `player_x` when `player == 1`,
      `player_o` otherwise. */
  function Asked(g: Game, x: Chooser, o: Chooser): int {
    if g.player == 1 then x(g) else o(g)
  }

  /** The loop of `play` from state `g`: while the game runs, the side to
      move picks a column and it is executed. The state it stops in is
      reachable and ended, with the shape of `g`. */
  function Finish(g: Game, x: Chooser, o: Chooser): (r: Game)
    requires Valid(g) && LegalOracle(x) && LegalOracle(o)
    ensures Valid(r) && r.terminated && r.rows == g.rows && r.cols == g.cols
    ensures g.time <= r.time <= g.rows * g.cols
    decreases Room(g)
  {
    if g.terminated then g
    else
      var c := Asked(g, x, o);
      ExecuteValid(g, c);
      Finish(Execute(g, c), x, o)
  }

  /** Every state the loop of `play` passes through, from `g` to the state
      it stops in. */
  function Transcript(g: Game, x: Chooser, o: Chooser): (t: seq<Game>)
    requires Valid(g) && LegalOracle(x) && LegalOracle(o)
    ensures |t| >= 1 && t[0] == g && t[|t| - 1] == Finish(g, x, o)
    decreases Room(g)
  {
    if g.terminated then [g]
    else
      var c := Asked(g, x, o);
      ExecuteValid(g, c);
      [g] + Transcript(Execute(g, c), x, o)
  }

  /** Each step of `t` is a move of the loop of `play`: from a running
      reachable state, the side to move (`player_x` exactly when player 1 is
      to move) picks a legal column and it is executed. */
  ghost predicate Moves(t: seq<Game>, x: Chooser, o: Chooser) {
    forall k :: 0 <= k < |t| - 1 ==>
      && Valid(t[k]) && !t[k].terminated && IsLegal(t[k], Asked(t[k], x, o))
      && t[k + 1] == Execute(t[k], Asked(t[k], x, o))
  }

  lemma MovesCons(g: Game, t: seq<Game>, x: Chooser, o: Chooser)
    requires Valid(g) && !g.terminated && IsLegal(g, Asked(g, x, o))
    requires |t| >= 1 && t[0] == Execute(g, Asked(g, x, o)) && Moves(t, x, o)
    ensures Moves([g] + t, x, o)
  {
    var u := [g] + t;
    forall k | 1 <= k < |u| - 1
      ensures u[k] == t[k - 1] && u[k + 1] == t[k]
    {
    }
  }

  /** With legal players the loop of `play` terminates: every step of the
      transcript is a legal move of the side to move, and each advances the
      clock by one, so there are exactly as many steps as plies played, at
      most `max_time`. */
  lemma {:induction false} TranscriptMoves(g: Game, x: Chooser, o: Chooser)
    requires Valid(g) && LegalOracle(x) && LegalOracle(o)
    ensures Moves(Transcript(g, x, o), x, o)
    ensures |Transcript(g, x, o)| == Finish(g, x, o).time - g.time + 1
    decreases Room(g)
  {
    if !g.terminated {
      var c := Asked(g, x, o);
      ExecuteValid(g, c);
      var n := Execute(g, c);
      TranscriptMoves(n, x, o);
      MovesCons(g, Transcript(n, x, o), x, o);
    }
  }

  /** The column of the random first move: entry `pick` (taken modulo the
      number of legal actions) of the legal actions of the fresh game. */
  function FirstColumn(g: Game, pick: nat): (c: int)
    requires 1 <= g.rows && 1 <= g.cols
    ensures 0 <= c < g.cols && c == pick % g.cols
  {
    NewValid(g.rows, g.cols);
    var acts := LegalActions(Reset(g));
    acts[pick % |acts|]
  }

  /** The first disc dropped into a fresh grid lands on the bottom row and
      is the only disc. */
  lemma FirstDisc(rows: nat, cols: nat, c: int)
    requires 1 <= rows && 1 <= cols && 0 <= c < cols
    ensures Valid(Execute(New(rows, cols), c))
    ensures forall i, j :: 0 <= i < rows && 0 <= j < cols ==>
      Execute(New(rows, cols), c).board[i][j] == if (i, j) == (rows - 1, c) then 1 else 0
  {
    var g0 := New(rows, cols);
    NewValid(rows, cols);
    ExecuteValid(g0, c);
    var i := ExecuteDrops(g0, c);
  }

  /** The state `play` enters its loop in: the reset state, after one
      legal random move when `first` carries a pick. */
  function Start(g: Game, first: Option<nat>): (r: Game)
    requires 1 <= g.rows && 1 <= g.cols
    ensures Valid(r) && r.rows == g.rows && r.cols == g.cols
    ensures first.None? ==> r == New(g.rows, g.cols)
    ensures first.Some? ==> r.time == 1 && r.player == -1
    ensures first.Some? ==> forall i, j :: 0 <= i < g.rows && 0 <= j < g.cols ==>
      r.board[i][j] == if (i, j) == (g.rows - 1, FirstColumn(g, first.value)) then 1 else 0
  {
    NewValid(g.rows, g.cols);
    if first.None? then Reset(g)
    else
      var c := FirstColumn(g, first.value);
      FirstDisc(g.rows, g.cols, c);
      Execute(Reset(g), c)
  }

  /** The final state of `play(game, player_x, player_o, ...)`. */
  function PlayOut(g: Game, x: Chooser, o: Chooser, first: Option<nat>): (r: Game)
    requires 1 <= g.rows && 1 <= g.cols && LegalOracle(x) && LegalOracle(o)
    ensures Valid(r) && r.terminated && r.rows == g.rows && r.cols == g.cols
  {
    Finish(Start(g, first), x, o)
  }

  /** `play`: reset, make the random first move if asked, then let the
      sides move until the game ends. Whatever state the game was in, the
      result depends only on its shape, and it is the last state of the
      transcript from the start state. */
  method Play(g: Game, x: Chooser, o: Chooser, first: Option<nat>) returns (r: Game)
    requires 1 <= g.rows && 1 <= g.cols && LegalOracle(x) && LegalOracle(o)
    ensures r == Finish(Start(g, first), x, o)
    ensures Valid(r) && r.terminated && r.rows == g.rows && r.cols == g.cols
  {
    var game := Reset(g);
    NewValid(g.rows, g.cols);
    if first.Some? {
      var acts := LegalActions(game);
      var action := acts[first.value % |acts|];
      ExecuteValid(game, action);
      game := Execute(game, action);
    }
    ghost var start := game;
    while !game.terminated
      invariant Valid(game) && Finish(game, x, o) == Finish(start, x, o)
      decreases Room(game)
    {
      var action := if game.player == 1 then x(game) else o(game);
      ExecuteValid(game, action);
      game := Execute(game, action);
    }
    r := game;
  }

  /** An entry of `players`: its `name` and its `choice`. The choices of a
      player draw on a random state (the shuffles of `PrunPlayer` and
      `ChainPlayer`, the picks of `RandomPlayer`) that moves on from game to
      game, so `choose(i, j, k)` is the player's oracle in game `k` of
      `players[i]` (as x) against `players[j]` (as o), and repeated games of
      a pair may go differently. */
  datatype Contestant = Contestant(name: string, choose: (nat, nat, nat) -> Chooser)

  /** `score`: the wins of 'x', the wins of 'o' and the draws. */
  datatype Tally = Tally(x: nat, o: nat, draw: nat)

  function Total(t: Tally): nat {
    t.x + t.o + t.draw
  }

  /** `score[game.winner] += 1`: one more game, counted under its winner. */
  function Record(t: Tally, w: Winner): (r: Tally)
    ensures Total(r) == Total(t) + 1
    ensures r.x == t.x + (if w == X then 1 else 0)
    ensures r.o == t.o + (if w == O then 1 else 0)
    ensures r.draw == t.draw + (if w == Nobody then 1 else 0)
  {
    match w
    case X => t.(x := t.x + 1)
    case O => t.(o := t.o + 1)
    case Nobody => t.(draw := t.draw + 1)
  }

  /** The arguments of `evaluation`; `pick(i, j, k)` stands for the random
      first move of game `k` between `players[i]` (as x) and `players[j]`
      (as o). */
  datatype Setup = Setup(game: Game, players: seq<Contestant>, gamesPerPair: nat,
                         firstRandom: bool, pick: (nat, nat, nat) -> nat)

  /** The oracle of player `c` in game `k` of `players[i]` against `players[j]`. */
  function Strategy(c: Contestant, i: nat, j: nat, k: nat): Chooser {
    c.choose(i, j, k)
  }

  /** In every game the player answers legally. */
  ghost predicate Legal(c: Contestant) {
    forall i, j, k :: LegalOracle(Strategy(c, i, j, k))
  }

  /** A grid of positive shape and players that always answer legally. */
  ghost predicate Ready(s: Setup) {
    && 1 <= s.game.rows && 1 <= s.game.cols
    && forall i :: 0 <= i < |s.players| ==> Legal(s.players[i])
  }

  function FirstOf(s: Setup, i: nat, j: nat, k: nat): Option<nat> {
    if s.firstRandom then Some(s.pick(i, j, k)) else None
  }

  /** The score of a list of results: each game counted under its winner,
      so the three counts are the multiplicities of 'x', 'o' and a draw. */
  function Tallied(ws: seq<Winner>): (t: Tally)
    ensures Total(t) == |ws|
    ensures t.x == multiset(ws)[X] && t.o == multiset(ws)[O] && t.draw == multiset(ws)[Nobody]
    decreases |ws|
  {
    if ws == [] then Tally(0, 0, 0)
    else
      var front := ws[..|ws| - 1];
      assert ws == front + [ws[|ws| - 1]];
      Record(Tallied(front), ws[|ws| - 1])
  }

  lemma TalliedAppend(ws: seq<Winner>, w: Winner)
    ensures Tallied(ws + [w]) == Record(Tallied(ws), w)
  {
    assert (ws + [w])[..|ws|] == ws;
  }

  /** The winner of game `k` of `players[i]` (as x) against `players[j]`
      (as o). */
  function Result(s: Setup, i: nat, j: nat, k: nat): Winner
    requires Ready(s) && i < |s.players| && j < |s.players|
  {
    PlayOut(s.game, Strategy(s.players[i], i, j, k), Strategy(s.players[j], i, j, k), FirstOf(s, i, j, k)).winner
  }

  /** The winners of the first `n` games of the pair, in order. */
  function Results(s: Setup, i: nat, j: nat, n: nat): (ws: seq<Winner>)
    requires Ready(s) && i < |s.players| && j < |s.players|
    ensures |ws| == n
    decreases n
  {
    if n == 0 then [] else Results(s, i, j, n - 1) + [Result(s, i, j, n - 1)]
  }

  /** The score of `games_per_pair` games of `players[i]` against `players[j]`. */
  function Games(s: Setup, i: nat, j: nat): (t: Tally)
    requires Ready(s) && i < |s.players| && j < |s.players|
    ensures Total(t) == s.gamesPerPair
  {
    Tallied(Results(s, i, j, s.gamesPerPair))
  }

  /** The innermost loop of `evaluation`: `games_per_pair` plays between
      `players[i]` and `players[j]`, each counted under its winner. */
  method PlayPair(s: Setup, i: nat, j: nat) returns (t: Tally)
    requires Ready(s) && i < |s.players| && j < |s.players|
    ensures t == Games(s, i, j)
  {
    t := Tally(0, 0, 0);
    var k := 0;
    while k < s.gamesPerPair
      invariant 0 <= k <= s.gamesPerPair && t == Tallied(Results(s, i, j, k))
    {
      var last := Play(s.game, Strategy(s.players[i], i, j, k), Strategy(s.players[j], i, j, k), FirstOf(s, i, j, k));
      TalliedAppend(Results(s, i, j, k), last.winner);
      t := Record(t, last.winner);
      k := k + 1;
    }
  }

  /** The names of the players, in order. */
  function Names(s: Setup): (names: seq<string>)
    ensures |names| == |s.players|
    ensures forall a :: 0 <= a < |names| ==> names[a] == s.players[a].name
  {
    seq(|s.players|, a requires 0 <= a < |s.players| => s.players[a].name)
  }

  /** The tally of every pair of players, as one function; pairs out of
      range get an empty tally and are never asked for. */
  function Scorer(s: Setup): (score: (nat, nat) -> Tally)
    requires Ready(s)
    ensures forall a: nat, b: nat :: a < |s.players| && b < |s.players| ==> Total(score(a, b)) == s.gamesPerPair
  {
    (a: nat, b: nat) => if a < |s.players| && b < |s.players| then Games(s, a, b) else Tally(0, 0, 0)
  }

  /** The tally `Scorer` gives a pair is the tally of its games. */
  lemma ScorerGames(s: Setup, a: nat, b: nat)
    requires Ready(s) && a < |s.players| && b < |s.players|
    ensures Scorer(s)(a, b) == Games(s, a, b)
  {
  }

  /** `evaluation`: for every ordered pair of players, a player against
      itself included, `games_per_pair` games are tallied (`PlayPair`
      computes that tally, `Games`), and the tally is stored under
      `(player_x.name, player_o.name)`, pair after pair in the order of the
      loops. The keys are exactly the ordered pairs of names, and every
      stored tally counts `games_per_pair` games. */
  method Evaluation(s: Setup) returns (scores: map<(string, string), Tally>)
    requires Ready(s)
    ensures scores == Scoreboard.Done(Names(s), Scorer(s), |Names(s)|, 0)
    ensures Scoreboard.KeyedByPairs(Names(s), scores)
    ensures forall key :: key in scores ==> Total(scores[key]) == s.gamesPerPair
  {
    scores := Scoreboard.Fill(Names(s), Scorer(s));
    ScoresTotals(s, scores);
  }

  /** Every tally `Scorer` hands out counts `games_per_pair` games. */
  lemma ScoresTotals(s: Setup, m: map<(string, string), Tally>)
    requires Ready(s)
    requires forall key :: key in m ==>
      exists a: nat, b: nat :: a < |Names(s)| && b < |Names(s)| && m[key] == Scorer(s)(a, b)
    ensures forall key :: key in m ==> Total(m[key]) == s.gamesPerPair
  {
    forall key | key in m
      ensures Total(m[key]) == s.gamesPerPair
    {
      var a: nat, b: nat :| a < |Names(s)| && b < |Names(s)| && m[key] == Scorer(s)(a, b);
    }
  }

  /** A pair whose key no later pair of the loops writes again finds the
      tally of its own games under its key. */
  lemma EvaluationLast(s: Setup, a: nat, b: nat)
    requires Ready(s) && a < |s.players| && b < |s.players|
    requires Scoreboard.LastWrite(Names(s), a, b, |Names(s)|, 0)
    ensures (s.players[a].name, s.players[b].name) in Scoreboard.Done(Names(s), Scorer(s), |Names(s)|, 0)
    ensures Scoreboard.Done(Names(s), Scorer(s), |Names(s)|, 0)[(s.players[a].name, s.players[b].name)] == Games(s, a, b)
  {
    Scoreboard.DoneLast(Names(s), Scorer(s), |Names(s)|, 0, a, b);
    ScorerGames(s, a, b);
  }

  /** With pairwise different names, every pair finds the tally of its own
      games under its key. */
  lemma EvaluationDistinct(s: Setup, a: nat, b: nat)
    requires Ready(s) && a < |s.players| && b < |s.players| && Scoreboard.Distinct(Names(s))
    ensures (s.players[a].name, s.players[b].name) in Scoreboard.Done(Names(s), Scorer(s), |Names(s)|, 0)
    ensures Scoreboard.Done(Names(s), Scorer(s), |Names(s)|, 0)[(s.players[a].name, s.players[b].name)] == Games(s, a, b)
  {
    Scoreboard.DoneDistinct(Names(s), Scorer(s), a, b);
    ScorerGames(s, a, b);
  }
}
