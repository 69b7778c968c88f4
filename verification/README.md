# Tic-tac-toe and connect-four engines, searches and drivers in Dafny

This project models the deterministic core of a small reinforcement-learning
repository for tic-tac-toe and connect-four:

- **Board engines.** The tic-tac-toe engine (`TicTacToe` in
  tictactoe/game.py, and its twin in game.py, which has the same code and is modelled by the same definitions) and
  the connect-four engine (`ConnectFour` in connectfour/game.py). Each is a
  state machine with the fields board, player (1 or -1), time, terminated
  and winner. Its operations are `reset`, `legal_actions`, `is_winner`,
  `execute` and `undo`, plus `counter` for connect-four.
- **Adversarial searches.** Exact minimax (`MinimaxPlayer.Phi`) and
  fail-hard alpha-beta (`PrunPlayer.Phi` and `choice`) on the 3x3 board.
  The depth-limited alpha-beta of the connect-four `PrunPlayer`, with its
  +-0.5 guess when the depth runs out. The instrumented walker `Phi` of
  tictactoe/game_tree_info.py, which counts nodes and leaves and records a
  value per visited board.
- **Small helpers.** `ChainPlayer.choice`, the one-hot `DeepPlayer.preprocess`
  of both games, the episode and target bookkeeping of the tic-tac-toe
  `DeepPlayer.train_single_game` / `update`, and the `play` / `evaluation`
  drivers of connectfour/tools.py.

The engines are immutable datatypes. `execute` and `undo` are pure functions
that are proved inverse. Each search is a recursive function that threads
the game state through `execute` / search / `undo`, exactly as the source
mutates and restores it. Each search is also proved equal to one generic
tree traversal (module `GameTree`), and that traversal is proved against
textbook minimax.

- **Values.** They are extended integers (`NegInf`, `Fin(n)`, `PosInf`).
  The connect-four search doubles its values so that +-0.5 stays an
  integer: 2 / -2 / 0 at an end, 1 / -1 as the guess.
- **Randomness.** `random.shuffle` becomes an arbitrary permutation
  parameter. `random.choice` of the first move becomes a supplied index.
  In `evaluation` a player's random state moves on from game to game, so
  each player has one oracle per game of each pair.
- **Players.** A player's `choice` inside `play` and `evaluation`, and the
  move choice inside `train_single_game`, become oracles. An oracle is any
  function that answers every running reachable state with a legal move.

Modules:

- `Common`: the winner, extended values, and scans over a row of cells.
- `TicTacToe`, `ConnectFour`: the two engines.
- `GameTree`: the game tree and the one search loop all players share.
- `TicTacToeSearch`, `ConnectFourSearch`, `GameTreeInfo`: the searches.
- `ConnectFourChain`: `ChainPlayer`.
- `Encoding`: `preprocess`.
- `DeepTraining`: `train_single_game` without the gradient step.
- `Scoreboard`, `Tools`: `play` and `evaluation`.

## Model

| member | source | states |
|---|---|---|
| TicTacToe.New | tictactoe/game.py:19-25 | The new game is reachable and running, with player 1 to move at time 0 and every cell empty |
| TicTacToe.Reset | tictactoe/game.py:27-32 | `reset` yields exactly the state the constructor builds |
| TicTacToe.NewLegal | game.py:45-46 | On the fresh board the legal actions are 0..8 in order |
| TicTacToe.LegalActions | tictactoe/game.py:49-50 | Every listed action is an empty cell of the board |
| TicTacToe.LegalActionsLegal | tictactoe/game.py:49-50 | An action is listed exactly when it is an empty cell |
| Common.ZerosFromComplete | tictactoe/game.py:49-50 | Every empty cell is listed, and the list is strictly ascending |
| TicTacToe.LegalCount | tictactoe/game.py:49-50 | On a reachable state there are exactly 9 - time legal actions |
| TicTacToe.WinnerTriples | tictactoe/game.py:52-64 | `is_winner` holds exactly when one of the eight fixed triples is all the player's |
| TicTacToe.WinnerIffLine | tictactoe/game.py:52-64 | The eight triples are exactly the three rows, three columns and two diagonals of the 3x3 grid |
| TicTacToe.Execute | tictactoe/game.py:66-77 | The mover's mark lands on the action's cell, time rises by one, the player flips, and time 9 ends the game |
| TicTacToe.ExecuteUndoFrame | tictactoe/game.py:66-86 | `execute` and `undo` change no cell other than the action's |
| TicTacToe.ExecuteOutcome | tictactoe/game.py:66-77 | After a legal move from a running game, the winner is the mover exactly when the mover has a line. The game ends exactly on a line or at time 9. A full board without a line is a draw |
| TicTacToe.Undo | tictactoe/game.py:79-86 | `undo` empties the cell, lowers time by one, flips the player and clears terminated and winner |
| TicTacToe.UndoExecute | tictactoe/game.py:79-86 | Undoing a legal move from a running game restores every field exactly |
| TicTacToe.ExecuteValid | tictactoe/game.py:66-77 | A legal move from a running reachable state keeps the invariant: marks in {1, -1, 0}, player in {1, -1}, time equal to the number of marks, and terminated exactly at time 9 or when there is a winner |
| TicTacToe.UndoValid | game.py:75-82 | Undoing a mark keeps that invariant |
| TicTacToe.RunningHasMove | game.py:45-46 | A running reachable game has a legal action |
| ConnectFour.EmptyGrid | connectfour/game.py:23 | The grid has the given shape and every cell is empty |
| ConnectFour.New | connectfour/game.py:19-28 | The constructor: an empty rows x cols grid, player 1, time 0, running, no winner |
| ConnectFour.Reset | connectfour/game.py:30-35 | `reset` yields the constructor state of the same shape |
| ConnectFour.NewValid | connectfour/game.py:19-28 | The new game is reachable and every column is legal, in order |
| ConnectFour.LegalActions | connectfour/game.py:59-60 | Every listed column has an empty top cell |
| ConnectFour.LegalActionsLegal | connectfour/game.py:59-60 | A column is listed exactly when its top cell is empty, and the list is strictly ascending |
| ConnectFour.LowestEmptySpec | connectfour/game.py:133-136 | The scan from the bottom stops at an empty cell, and every cell it passed holds a disc |
| ConnectFour.TopDiscSpec | connectfour/game.py:154-157 | The scan from the top stops at a disc, and every cell it passed is empty |
| ConnectFour.RunSpec | connectfour/game.py:72-119 | One arm of `counter`: the walk counts the player's discs in a row from the start cell and stops at the first other cell |
| ConnectFour.CounterBounds | connectfour/game.py:62-119 | `counter` is at least 1 (the cell itself) and at most 7. The downward line 4 counts at most 4. Any other line number counts 1 |
| ConnectFour.CounterDown | connectfour/game.py:112-118 | Line 4 reaches four exactly when the three cells below the start hold the player's discs |
| ConnectFour.FlatCell | connectfour/players.py:179-180 | The row-by-row flattening puts cell (i, j) at position i * cols + j |
| ConnectFour.Execute | connectfour/game.py:132-146 | The shape is kept, time rises by one, the player flips, and reaching max_time ends the game |
| ConnectFour.ExecuteDrops | connectfour/game.py:132-136 | The disc lands in the lowest empty row of the column, with discs below it and empty cells above. No other cell changes, and it becomes the column's top disc, where `is_winner` looks |
| ConnectFour.ExecuteFullColumn | connectfour/game.py:133-136 | On a full column `execute` places nothing but still advances time and flips the player |
| ConnectFour.Undo | connectfour/game.py:148-157 | `undo` flips the player back, lowers time and clears terminated and winner |
| ConnectFour.UndoExecute | connectfour/game.py:148-157 | Undoing a legal move from a running game removes exactly the disc it dropped and restores every field |
| ConnectFour.DiscsFill | connectfour/game.py:135 | Filling an empty cell adds one disc to the count |
| ConnectFour.ExecuteGravity | connectfour/game.py:133-136 | The gravity invariant (the discs of each column form a run down to the bottom row) survives `execute` |
| ConnectFour.ExecuteValid | connectfour/game.py:132-146 | A legal move from a running reachable state keeps the invariant: gravity, marks in {1, -1, 0}, time equal to the number of discs, and terminated exactly at max_time or when there is a winner |
| ConnectFour.ExecuteCalm | connectfour/game.py:132-146 | A legal move keeps gravity and the "no winner while running" condition |
| ConnectFour.UndoValid | connectfour/game.py:148-157 | Undoing a column that holds a disc keeps the whole invariant, gravity included |
| ConnectFour.RunningHasMove | connectfour/game.py:59-60 | A running reachable game has a legal column |
| GameTree.Unpruned | tictactoe/game_tree_info.py:22-70 | Without pruning the traversal returns exact minimax, visits every node and leaf once, and records every board of the tree |
| GameTree.Recorded | tictactoe/game_tree_info.py:22-70 | Whatever the window, the root board is recorded with the returned value, the node and leaf counts are bounded by the tree's, and an inner node counts more nodes than leaves |
| GameTree.TableBlind | tictactoe/game_tree_info.py:22-70 | The value and the counts do not depend on the table handed in, which is only written |
| GameTree.Visited | tictactoe/game_tree_info.py:23-69 | The table gains exactly the boards of the visited states: the root, then the children in order up to the one after which the window closes. No board of a subtree cut off by the `break` is written |
| GameTree.ReachedBounds | tictactoe/game_tree_info.py:39-52 | The visited boards are boards of the tree and number at most the visited nodes. Without pruning every board of the tree is visited |
| GameTree.PrunedSkips | tictactoe/game_tree_info.py:45-49 | A cut can leave a board of the tree out of the table: a maximising root with beta = 1 whose first leaf scores 1 never enters its second leaf |
| GameTree.Window | tictactoe/players.py:116-148 | Fail-hard alpha-beta: inside the window the result is minimax; at or below alpha it is at most alpha; at or above beta it is at least beta |
| GameTree.FullWindow | tictactoe/players.py:116-148 | From the infinite window pruned search returns exact minimax |
| GameTree.PrunedVersusFull | tictactoe/game_tree_info.py:45-49 | From the infinite window pruned and unpruned traversals agree on the value, and the pruned one visits no more nodes and no more leaves |
| GameTree.SearchAmong | tictactoe/players.py:59-81 | When every leaf score lies in a set, every traversal and minimax return a value from that set |
| GameTree.BestBounds | tictactoe/players.py:68-81 | A node's value bounds every child's value and is attained by one child |
| GameTree.BestUpdate | tictactoe/players.py:157-167 | One turn of a `choice` loop keeps the running best the best value so far, and an improving value is the move's true value |
| TicTacToeSearch.MinimaxPhiRestores | tictactoe/players.py:70-80 | `MinimaxPlayer.Phi` hands back the game it was given |
| TicTacToeSearch.MinimaxPhiValue | tictactoe/players.py:59-81 | `MinimaxPlayer.Phi` is exact minimax over the game tree, and its value is 1, -1 or 0 |
| TicTacToeSearch.MinimaxPhiIsSearch | tictactoe/players.py:59-81 | `MinimaxPlayer.Phi` is the unpruned traversal of the tree |
| TicTacToeSearch.PrunPhiRestores | tictactoe/players.py:127-147 | `PrunPlayer.Phi` hands back the game it was given, on the `break` path as on the normal one |
| TicTacToeSearch.PrunPhiIsSearch | tictactoe/players.py:116-148 | `PrunPlayer.Phi` is the pruned traversal of the tree |
| TicTacToeSearch.PrunPhiWindow | tictactoe/players.py:116-148 | The fail-hard window property of `PrunPlayer.Phi` against the value of `MinimaxPlayer.Phi` |
| TicTacToeSearch.PrunPhiExact | tictactoe/players.py:116-148 | From the infinite window `PrunPlayer.Phi` equals `MinimaxPlayer.Phi` |
| TicTacToeSearch.PhiIsBestChild | tictactoe/players.py:68-81 | A running game's value is the best child value for the mover, and some legal move attains it |
| TicTacToeSearch.ChoiceIsValue | tictactoe/players.py:68-81 | An action that no legal action beats carries the game's value |
| TicTacToeSearch.PrunTurn | tictactoe/players.py:158-167 | One turn of `PrunPlayer.choice` returns a value that stands for the move's minimax value in the window, and gives the game back unchanged |
| TicTacToeSearch.PrunChoice | tictactoe/players.py:150-185 | `PrunPlayer.choice` returns a legal action, no legal action is better for the mover, its value is the game's minimax value, and the game is left unchanged |
| TicTacToeSearch.MinimaxTurn | tictactoe/players.py:90-95 | One turn of `MinimaxPlayer.choice` returns the move's minimax value and gives the game back unchanged |
| TicTacToeSearch.MinimaxChoice | tictactoe/players.py:83-109 | `MinimaxPlayer.choice` as written returns None on every running game and leaves the game unchanged |
| TicTacToeSearch.MinimaxChoiceIntended | tictactoe/players.py:83-109 | The intended `MinimaxPlayer.choice` returns a legal optimal action whose value is the game's value |
| GameTreeInfo.PhiRestores | tictactoe/game_tree_info.py:39-50 | The walker hands back the game it was given, on the `break` path as on the normal one |
| GameTreeInfo.PhiIsSearch | tictactoe/game_tree_info.py:22-70 | The walker computes the traversal `Search`: the same value, counts and table |
| GameTreeInfo.PhiTerminal | tictactoe/game_tree_info.py:24-33 | At an ended game the walker returns (1, 1, 1), (-1, 1, 1) or (0, 1, 1) per winner and records that value for the board |
| GameTreeInfo.PhiCounts | tictactoe/game_tree_info.py:35-70 | Leaves never outnumber nodes, a running game has strictly more nodes than leaves, and the counts are bounded by the tree's |
| GameTreeInfo.PhiRecords | tictactoe/game_tree_info.py:23-69 | The table gains exactly the boards of the states the walk visits, so none from a subtree cut off by the `break`. These are boards of the tree below the game, no more of them than visited nodes, and the root's board holds the returned value |
| GameTreeInfo.PhiUnpruned | tictactoe/game_tree_info.py:35-70 | Without pruning the walker returns the value of `MinimaxPlayer.Phi`, visits the whole tree and records every board |
| GameTreeInfo.PrunedVersusUnpruned | tictactoe/game_tree_info.py:45-49 | From the infinite window pruning keeps the root value and visits no more nodes or leaves |
| GameTreeInfo.PhiPrunedIsPrunPhi | tictactoe/game_tree_info.py:45-67 | The pruned walker's value is that of `PrunPlayer.Phi` |
| ConnectFourSearch.Score | connectfour/players.py:61-67 | The end score is the doubled outcome |
| ConnectFourSearch.Guess | connectfour/players.py:68-72 | The doubled depth-0 guess is 1 exactly for player 1 to move, else -1 |
| ConnectFourSearch.PhiRestores | connectfour/players.py:74-97 | The depth-limited `Phi` hands back the game it was given, on the `break` paths too |
| ConnectFourSearch.PhiIsSearch | connectfour/players.py:60-97 | `Phi` is the pruned traversal of the depth-limited tree, whose children have depth one less |
| ConnectFourSearch.PhiLeaf | connectfour/players.py:61-72 | At an end `Phi` returns the doubled outcome; when the depth runs out it returns the doubled +-0.5 guess for the mover |
| ConnectFourSearch.PhiWindow | connectfour/players.py:60-97 | The fail-hard window property against depth-limited minimax, with every value in {-1, -0.5, 0, 0.5, 1} (doubled) |
| ConnectFourSearch.PhiExact | connectfour/players.py:60-97 | From the infinite window `Phi` is plain depth-limited minimax |
| ConnectFourSearch.ValueIsBestChild | connectfour/players.py:74-97 | A running game's depth-d value is the best child value, attained by a legal column |
| ConnectFourSearch.ChoiceIsValue | connectfour/players.py:74-97 | A column that no legal column beats carries the game's depth-d value |
| ConnectFourSearch.ChoiceTurn | connectfour/players.py:107-116 | One turn of `choice` returns a value that stands for the column's value and gives the game back unchanged |
| ConnectFourSearch.Choice | connectfour/players.py:99-134 | `choice` returns a legal column that no legal column beats at the search depth, and leaves the game unchanged |
| ConnectFourChain.LandingRow | connectfour/players.py:148-151 | The landing row is the lowest empty cell of the column: it is empty and everything below holds a disc |
| ConnectFourChain.Counted | connectfour/players.py:140 | The offensive player counts its own discs, the defensive one the opponent's |
| ConnectFourChain.MostShuffled | connectfour/players.py:152-153 | The longest count does not depend on the shuffled order of the lines |
| ConnectFourChain.ChainBounds | connectfour/players.py:154-158 | Every legal column's chain lies between 1 and 7 and is attained by one of the four lines |
| ConnectFourChain.ScanLines | connectfour/players.py:154-158 | The inner loop raises the running maximum to the longest count, and takes the column exactly when it beat the maximum |
| ConnectFourChain.Choice | connectfour/players.py:142-159 | `choice` returns a column exactly when a legal one exists. The column is legal, its chain is the longest, and every column tried before it in shuffled order has a shorter chain |
| Encoding.CellBits | tictactoe/players.py:413-418 | A cell becomes exactly one of [1,0,0] for 1, [0,1,0] for -1 and [0,0,1] otherwise |
| Encoding.PlayerBits | tictactoe/players.py:419-422 | The player becomes [1,0] for 1 and [0,1] otherwise |
| Encoding.DecodePreprocess | tictactoe/players.py:410-423 | On cells in {1, -1, 0} and a player in {1, -1} the encoding can be read back exactly |
| Encoding.PreprocessInjective | tictactoe/players.py:410-423 | Two reachable (board, player) pairs get the same input exactly when they are equal |
| Encoding.TicTacToeInputAt | tictactoe/players.py:410-423 | The tic-tac-toe input has 29 entries: cell i at 3i..3i+2, the player in the last two |
| Encoding.ConnectFourInputAt | connectfour/players.py:175-192 | The connect-four input has rows * cols * 3 + 2 entries: cell (i, j) at 3(i * cols + j), the player in the last two |
| DeepTraining.TargetRange | tictactoe/players.py:456 | For gamma in [0, 1] and reward in {1, -1, 0} the target lies in [0, 1]. It is 0.5 for a draw, at least 0.5 for a win of x, at most 0.5 for a win of o, and the plain outcome at t = T |
| DeepTraining.Reward | tictactoe/players.py:482-487 | The reward is 1 exactly for x, -1 exactly for o, and 0 otherwise |
| DeepTraining.Move | tictactoe/players.py:476-477 | A move of the loop executes the oracle's legal action: the mover's mark on a free cell, the invariant kept, time advanced and the player flipped |
| DeepTraining.PlayedUnique | tictactoe/players.py:470-478 | The oracle determines the game: two runs of the loop with the same oracle pass through the same states |
| DeepTraining.Episode | tictactoe/players.py:470-478 | The snapshots are those of the states the oracle drives the game through, from the reset state to the first ended state. They carry times 0..T in order, with the mover alternating from player 1 |
| DeepTraining.Updates | tictactoe/players.py:489-491 | Snapshot k is fitted, in order, to its encoded input and the target with exponent T - k, and every target lies in [0, 1] |
| DeepTraining.TrainSingleGame | tictactoe/players.py:467-493 | A training pass yields one pair per state the oracle drives the game through, from the reset state to the final one. Pair k holds the encoding of state k and the discounted reward of the final winner, which lies in [0, 1]; the last target is the plain outcome |
| Tools.Finish | connectfour/tools.py:25-30 | With legal players the loop ends in a reachable ended state of the same shape, within max_time |
| Tools.TranscriptMoves | connectfour/tools.py:25-30 | Each loop step asks player_x exactly when player 1 is to move, plays a legal column, and advances time by one. So the loop ends after as many steps as plies |
| Tools.FirstColumn | connectfour/tools.py:20-21 | The random first move picks a legal column of the fresh game |
| Tools.FirstDisc | connectfour/tools.py:20-22 | The first disc lands on the bottom row and is the only disc |
| Tools.Start | connectfour/tools.py:17-22 | The loop starts from the reset state, or from exactly one legal move after it |
| Tools.Play | connectfour/tools.py:16-32 | `play` ends in the final state of the loop run from the start state, which is reachable and ended whatever state the game was in before |
| Tools.Record | connectfour/tools.py:42 | Recording a game adds one to the count of its winner and leaves the others |
| Tools.Tallied | connectfour/tools.py:39-42 | A score counts each winner as often as it occurs among the results |
| Tools.Games | connectfour/tools.py:39-42 | A pair's score totals games_per_pair games |
| Tools.PlayPair | connectfour/tools.py:39-42 | The innermost loop computes the score of the pair's games, game k played with the players' oracles for game k, so repeated games of a pair may go differently |
| Scoreboard.DoneKeys | connectfour/tools.py:37-43 | After the writes up to a point, the keys are the name pairs of the pairs written so far |
| Scoreboard.DoneLast | connectfour/tools.py:43 | A pair whose key no later pair writes again keeps its own score under that key |
| Scoreboard.Fill | connectfour/tools.py:36-44 | The two loops build the write-by-write dictionary. Its keys are exactly the ordered name pairs, and every value is the score of some pair |
| Scoreboard.EndLast | connectfour/tools.py:43 | At the end, a pair that is the last to write its key finds its score there |
| Scoreboard.EndDistinct | connectfour/tools.py:43 | With pairwise different names every ordered pair, self-pairs included, finds its own score |
| Tools.Evaluation | connectfour/tools.py:35-44 | `evaluation` returns the write-by-write dictionary. Its keys are exactly the ordered pairs of player names, and every entry counts games_per_pair games |
| Tools.EvaluationLast | connectfour/tools.py:43 | A pair not overwritten by a later pair of equal names finds the score of its own games |
| Tools.EvaluationDistinct | connectfour/tools.py:37-43 | With distinct names every ordered pair finds the score of its own games |

## Left out

- Output and input: `render`, `HumanPlayer`, the console output of the training loops and `visualize_scores` / `visualize_loss`.
- Whole players and scripts:
  - `RandomPlayer` is a single `random.choice`.
  - `QPlayer` and `TDPlayer` are float updates seeded by random initial values.
  - The `train` loops are float decay schedules.
  - The training, evaluation and demo scripts do pickling, timing and interactive input.
- The neural network:
  - The network, the loss and the gradient step of `DeepPlayer.update` are floating point over an external library.
  - So `DeepTraining` returns the (input, target) pairs a training pass fits, in order.
  - The network-driven move of `DeepPlayer.choice` is the move oracle of `train_single_game`.
- Number types:
  - `preprocess` entries are the integers 0 and 1 rather than float32.
  - The target is exact real arithmetic rather than float32.
  - Search values are exact, and the connect-four values are doubled.
- Randomness:
  - Shuffles are arbitrary permutations supplied by the caller.
  - The random first move of `play` is a supplied index, taken modulo the number of legal columns.
  - Epsilon-greedy choices are arbitrary legal choices.
- TicTacToeSearch.PrunChoice: states that the kept action is optimal, not which of several equally good actions is kept. The same holds for `TicTacToeSearch.MinimaxChoiceIntended` and `ConnectFourSearch.Choice`. The source keeps the first in shuffled order.
- ConnectFourSearch.Choice: the game's depth-limited value is attached to the kept column by `ConnectFourSearch.ChoiceIsValue`, not in the method's own contract.
- TicTacToeSearch.PrunChoice: the `choice` methods are modelled on running games only, the only states `play` and `train_single_game` ask them about. `TicTacToeSearch.MinimaxChoice` and `ConnectFourSearch.Choice` are modelled the same way.
- ConnectFour.IsWinner: a column without any disc counts as no win. The source would fail there with an unbound `row`, but `execute` always leaves a disc in the column it checks.
- Grid shape: connect-four grids are modelled with at least one row and one column. The source reads `board[0]` and would fail on an empty grid.
- Tools.Evaluation: the score stored for a pair is stated through the function `Tools.Games`. `Tools.PlayPair` proves that the counting loop computes `Games`. That a pair finds its own score under its key needs an extra hypothesis: no later pair of equal names overwrote it, or the names are pairwise different. So this fact is stated by the lemmas `Tools.EvaluationLast` and `Tools.EvaluationDistinct`, not in the method's contract.
- Aliasing: in the source, `evaluation` and `play` share one mutable game object. Here each game is a value, and `play` depends only on the game's shape.

## Findings

| source | as written | input that shows it | evidently intended | confidence | as-written member | corrected member |
|---|---|---|---|---|---|---|
| tictactoe/players.py:92 | `r = self.Phi(game)` then `if r > r:` compares the fresh value with itself, so `best_action` stays None | any running game with player 1 to move, e.g. the empty board | keep the fresh value `e` when `e > r`, as `PrunPlayer.choice` does | high; not executed | TicTacToeSearch.MinimaxChoice | TicTacToeSearch.MinimaxChoiceIntended |
| tictactoe/players.py:105 | `if r < r:` for player -1, the same self-comparison | any running game with player -1 to move, e.g. after one move on the empty board | keep `e` when `e < r` | high; not executed | TicTacToeSearch.MinimaxChoice | TicTacToeSearch.MinimaxChoiceIntended |
