/** The bookkeeping of `DeepPlayer.train_single_game` and `DeepPlayer.update`
    in tictactoe/players.py: play one game from the reset state, recording a
    snapshot (board, player, time) before the first move and after every
    move; then, with `T` the final time and the reward 1 / -1 / 0 for 'x' /
    'o' / a draw, fit the network input of every snapshot to the target
    `0.5 * gamma^(T - t) * reward + 0.5`. The move choice (epsilon-greedy over
    the network) is an oracle returning a legal move; the gradient step is
    not modelled, so a training pass is the list of (input, target) pairs it
    feeds to the optimiser, in order. */
module DeepTraining {
  import opened Common
  import opened TicTacToe
  import Encoding

  datatype Snapshot = Snapshot(board: seq<int>, player: int, time: int)

  function Snap(g: Game): Snapshot {
    Snapshot(g.board, g.player, g.time)
  }

  /** The oracle answers every running reachable game with a legal move. */
  ghost predicate LegalOracle(choose: Game -> int) {
    forall g :: Valid(g) && !g.terminated ==> IsLegal(g, choose(g))
  }

  /** `gamma` to the power `n`. */
  function Pow(gamma: real, n: nat): real
    decreases n
  {
    if n == 0 then 1.0 else gamma * Pow(gamma, n - 1)
  }

  lemma {:induction false} PowRange(gamma: real, n: nat)
    requires 0.0 <= gamma <= 1.0
    ensures 0.0 <= Pow(gamma, n) <= 1.0
    decreases n
  {
    if n > 0 {
      PowRange(gamma, n - 1);
      var p := Pow(gamma, n - 1);
      assert 0.0 <= gamma * p by {
        NonnegProduct(gamma, p);
      }
      assert p - gamma * p == (1.0 - gamma) * p;
      NonnegProduct(1.0 - gamma, p);
    }
  }

  lemma NonnegProduct(x: real, y: real)
    requires 0.0 <= x && 0.0 <= y
    ensures 0.0 <= x * y
  {
  }

  /** The regression target of `update` for the snapshot at time `t` of a
      game that ended at time `T` with reward `reward`. */
  function Target(gamma: real, T: int, t: int, reward: int): real
    requires t <= T
  {
    0.5 * Pow(gamma, T - t) * (reward as real) + 0.5
  }

  /** For a discount in [0, 1] and a reward in {1, -1, 0} the target is a
      probability-like value in [0, 1]: exactly 0.5 for a draw, at least 0.5
      for a win of 'x', at most 0.5 for a win of 'o', and the plain outcome
      (1, 0.5 or 0) for the final position. */
  lemma TargetRange(gamma: real, T: int, t: int, reward: int)
    requires t <= T && 0.0 <= gamma <= 1.0 && -1 <= reward <= 1
    ensures 0.0 <= Target(gamma, T, t, reward) <= 1.0
    ensures reward == 0 ==> Target(gamma, T, t, reward) == 0.5
    ensures reward == 1 ==> Target(gamma, T, t, reward) >= 0.5
    ensures reward == -1 ==> Target(gamma, T, t, reward) <= 0.5
    ensures t == T ==> Target(gamma, T, t, reward) == 0.5 * (reward as real) + 0.5
  {
    var p := Pow(gamma, T - t);
    PowRange(gamma, T - t);
    if reward == 1 {
      assert Target(gamma, T, t, reward) == 0.5 * p + 0.5;
    } else if reward == -1 {
      assert Target(gamma, T, t, reward) == 0.5 - 0.5 * p;
    } else {
      assert Target(gamma, T, t, reward) == 0.5;
    }
    if t == T {
      assert p == 1.0;
    }
  }

  /** Player 1 moves at even times, player -1 at odd ones. */
  function Mover(t: int): int {
    if t % 2 == 0 then 1 else -1
  }

  lemma MoverFlips(t: int)
    ensures Mover(t + 1) == -Mover(t)
  {
  }

  /** The snapshots carry the times 0, 1, ... in order, each with a
      nine-cell board, and the mover alternates starting with player 1. */
  predicate Stamped(episode: seq<Snapshot>) {
    forall k :: 0 <= k < |episode| ==>
      episode[k].time == k && |episode[k].board| == 9 && episode[k].player == Mover(k)
  }

  lemma StampedExtend(episode: seq<Snapshot>, s: Snapshot)
    requires Stamped(episode)
    requires s.time == |episode| && |s.board| == 9 && s.player == Mover(|episode|)
    ensures Stamped(episode + [s])
  {
  }

  /** Each state of `games` after the first is the one before after the
      oracle's move, which is legal there, from a running reachable state. */
  ghost predicate Steps(games: seq<Game>, choose: Game -> int) {
    forall k :: 0 <= k < |games| - 1 ==>
      && Valid(games[k]) && !games[k].terminated && IsLegal(games[k], choose(games[k]))
      && games[k + 1] == Execute(games[k], choose(games[k]))
  }

  /** `games` is the game loop of `train_single_game` driven by `choose`: it
      starts from the reset state, moves by the oracle, and stops at the
      first state that has ended. */
  ghost predicate Played(games: seq<Game>, choose: Game -> int) {
    |games| >= 1 && games[0] == New() && games[|games| - 1].terminated && Steps(games, choose)
  }

  lemma StepsExtend(games: seq<Game>, choose: Game -> int, next: Game)
    requires |games| >= 1 && Steps(games, choose)
    requires var g := games[|games| - 1];
      Valid(g) && !g.terminated && IsLegal(g, choose(g)) && next == Execute(g, choose(g))
    ensures Steps(games + [next], choose)
  {
    var u := games + [next];
    forall k | 0 <= k < |u| - 1
      ensures Valid(u[k]) && !u[k].terminated && IsLegal(u[k], choose(u[k]))
      ensures u[k + 1] == Execute(u[k], choose(u[k]))
    {
      assert u[k] == games[k];
    }
  }

  /** The snapshots of `games`, in order. */
  predicate Snapped(episode: seq<Snapshot>, games: seq<Game>) {
    |episode| == |games| && forall k :: 0 <= k < |episode| ==> episode[k] == Snap(games[k])
  }

  lemma SnappedExtend(episode: seq<Snapshot>, games: seq<Game>, g: Game)
    requires Snapped(episode, games)
    ensures Snapped(episode + [Snap(g)], games + [g])
  {
  }

  /** The oracle fixes the game: two runs of the loop with the same oracle
      pass through the same states. */
  lemma PlayedUnique(a: seq<Game>, b: seq<Game>, choose: Game -> int)
    requires Played(a, choose) && Played(b, choose)
    ensures a == b
  {
    var n := if |a| <= |b| then |a| else |b|;
    var k := 0;
    while k < n - 1
      invariant 0 <= k < n && forall i :: 0 <= i <= k ==> a[i] == b[i]
    {
      assert a[k + 1] == Execute(a[k], choose(a[k]));
      assert b[k + 1] == Execute(b[k], choose(b[k]));
      k := k + 1;
    }
    assert a[n - 1] == b[n - 1];
  }

  /** The game loop of `train_single_game`: from the reset state, record a
      snapshot, and while the game runs let the oracle move and record again.
      The snapshots are those of the states the oracle drives the game
      through (`games`), from the reset state to the final one; they carry
      the times 0, 1, ..., T in order (so every exponent `T - t` is a natural
      number), and the mover alternates starting with player 1. */
  method Episode(choose: Game -> int) returns (episode: seq<Snapshot>, last: Game, ghost games: seq<Game>)
    requires LegalOracle(choose)
    ensures Played(games, choose) && last == games[|games| - 1] && Snapped(episode, games)
    ensures Valid(last) && last.terminated && last.time <= 9
    ensures |episode| == last.time + 1 && Stamped(episode)
  {
    var game := New();
    episode := [Snap(game)];
    games := [game];
    while !game.terminated
      invariant Valid(game) && game.time <= 9 && |game.board| == 9
      invariant game.player == Mover(game.time)
      invariant |episode| == game.time + 1 && Stamped(episode)
      invariant Snapped(episode, games) && Steps(games, choose)
      invariant games[0] == New() && games[|games| - 1] == game
      decreases 9 - game.time
    {
      MoverFlips(game.time);
      var next := Move(game, choose);
      StampedExtend(episode, Snap(next));
      SnappedExtend(episode, games, next);
      StepsExtend(games, choose, next);
      episode := episode + [Snap(next)];
      games := games + [next];
      game := next;
    }
    last := game;
  }

  /** One move of the game loop: `game.execute(self.choice(game))`. The
      oracle's cell was free and now holds the mover's mark, the clock
      advances and the turn passes. */
  method Move(game: Game, choose: Game -> int) returns (next: Game)
    requires LegalOracle(choose) && Valid(game) && !game.terminated
    ensures IsLegal(game, choose(game)) && next == Execute(game, choose(game))
    ensures |next.board| == 9 && next.board[choose(game)] == game.player
    ensures Valid(next) && next.time == game.time + 1 && next.player == -game.player
  {
    var action := choose(game);
    ExecuteValid(game, action);
    next := Execute(game, action);
  }

  /** The reward of the final state: 1 for 'x', -1 for 'o', 0 for a draw. */
  function Reward(w: Winner): (r: int)
    ensures -1 <= r <= 1
    ensures r == 1 <==> w == X
    ensures r == -1 <==> w == O
  {
    Outcome(w)
  }

  /** The loop `for board, player, t in episode: self.update(board, player,
      T, t, reward)` without the gradient steps: the (input, target) pair
      each call fits, in order. The snapshot times run 0..T, so T is the
      last index, and every target lies in [0, 1]. */
  method Updates(episode: seq<Snapshot>, reward: int, gamma: real) returns (pairs: seq<(seq<int>, real)>)
    requires |episode| >= 1 && Stamped(episode)
    requires 0.0 <= gamma <= 1.0 && -1 <= reward <= 1
    ensures |pairs| == |episode|
    ensures forall k :: 0 <= k < |pairs| ==>
      pairs[k].0 == Encoding.TicTacToeInput(episode[k].board, episode[k].player)
      && pairs[k].1 == Target(gamma, |episode| - 1, k, reward)
    ensures forall k :: 0 <= k < |pairs| ==> 0.0 <= pairs[k].1 <= 1.0
    ensures pairs[|pairs| - 1].1 == 0.5 * (reward as real) + 0.5
  {
    var T := |episode| - 1;
    TargetsRange(gamma, T, reward);
    TargetRange(gamma, T, T, reward);
    pairs := seq(|episode|, k requires 0 <= k < |episode| =>
      (Encoding.TicTacToeInput(episode[k].board, episode[k].player), Target(gamma, T, episode[k].time, reward)));
  }

  lemma TargetsRange(gamma: real, T: int, reward: int)
    requires 0.0 <= gamma <= 1.0 && -1 <= reward <= 1
    ensures forall t :: t <= T ==> 0.0 <= Target(gamma, T, t, reward) <= 1.0
  {
    forall t | t <= T
      ensures 0.0 <= Target(gamma, T, t, reward) <= 1.0
    {
      TargetRange(gamma, T, t, reward);
    }
  }

  /** `train_single_game` without the gradient steps: play an episode, then
      fit the snapshot of every state the oracle drove the game through,
      from the reset state to the final one, to its discounted target. */
  method TrainSingleGame(choose: Game -> int, gamma: real)
    returns (pairs: seq<(seq<int>, real)>, last: Game, ghost games: seq<Game>)
    requires LegalOracle(choose)
    requires 0.0 <= gamma <= 1.0
    ensures Played(games, choose) && last == games[|games| - 1] && |pairs| == |games|
    ensures Valid(last) && last.terminated && 0 <= last.time <= 9 && |pairs| == last.time + 1
    ensures forall k :: 0 <= k < |pairs| ==>
      pairs[k].0 == Encoding.TicTacToeInput(games[k].board, games[k].player)
    ensures forall k :: 0 <= k < |pairs| ==> pairs[k].1 == Target(gamma, last.time, k, Reward(last.winner))
    ensures forall k :: 0 <= k < |pairs| ==> 0.0 <= pairs[k].1 <= 1.0
    ensures pairs[|pairs| - 1].1 == 0.5 * (Reward(last.winner) as real) + 0.5
  {
    var episode;
    episode, last, games := Episode(choose);
    var reward := Reward(last.winner);
    assert |episode| - 1 == last.time;
    pairs := Updates(episode, reward, gamma);
  }
}
