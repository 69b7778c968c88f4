/** The instrumented walker `Phi(game, V, alpha, beta, prun)` of
    tictactoe/game_tree_info.py, over the engine of game.py. It returns the
    value of the position with the number of visited nodes and leaves, writes
    the value of every visited board into the table `V`, and with `prun` set
    cuts the loop the way `PrunPlayer.Phi` does. The table and the game are
    mutated in place by the source; here both are threaded through and handed
    back. */
module GameTreeInfo {
  import opened Common
  import opened TicTacToe
  import opened GameTree
  import opened TicTacToeSearch

  /** What `Phi` returns (value, node count, leaf count), together with the
      table `V` and the game as they stand after the call. */
  datatype Walk = Walk(value: Ext, nodes: int, leaves: int, seen: map<seq<int>, Ext>, game: Game)

  /** The part of a walk the tree-level traversal also computes. */
  function Counts(w: Walk): Visit {
    Visit(w.value, w.nodes, w.leaves, w.seen)
  }

  function Phi(g: Game, V: map<seq<int>, Ext>, alpha: Ext, beta: Ext, prun: bool): (w: Walk)
    requires Sane(g)
    ensures |w.game.board| == 9 && w.game.time == g.time
    decreases Room(g), 1
  {
    if g.terminated then
      var v := Fin(Outcome(g.winner));
      Walk(v, 1, 1, V[g.board := v], g)
    else
      var m := g.player == 1;
      var w := PhiLoop(g, LegalActions(g), m, prun, Worst(m), alpha, beta, 0, 0, V);
      Walk(w.value, w.nodes + 1, w.leaves, w.seen[g.board := w.value], w.game)
  }

  /** The `for action in game.legal_actions()` loop, with the running value
      `v`, the counters `count1`, `count2` and the table. */
  function PhiLoop(g: Game, acts: seq<int>, m: bool, prun: bool, v: Ext, alpha: Ext, beta: Ext,
                   count1: int, count2: int, V: map<seq<int>, Ext>): (w: Walk)
    requires Sane(g) && !g.terminated && Cells(acts)
    ensures |w.game.board| == 9 && w.game.time == g.time
    decreases Room(g), 0, |acts|
  {
    if acts == [] then Walk(v, count1, count2, V, g)
    else
      var child := PhiTry(g, acts[0], V, alpha, beta, prun);
      var e := child.value;
      var v' := Pick(m, v, e);
      var c1 := count1 + child.nodes;
      var c2 := count2 + child.leaves;
      var alpha' := if prun && m then Max(alpha, e) else alpha;
      var beta' := if prun && !m then Min(beta, e) else beta;
      if prun && Le(beta', alpha') then Walk(v', c1, c2, child.seen, child.game)
      else PhiLoop(child.game, acts[1..], m, prun, v', alpha', beta', c1, c2, child.seen)
  }

  /** The body of that loop for one action: `execute`, walk, `undo`. */
  function PhiTry(g: Game, a: int, V: map<seq<int>, Ext>, alpha: Ext, beta: Ext, prun: bool): (w: Walk)
    requires Sane(g) && !g.terminated && 0 <= a < 9
    ensures |w.game.board| == 9 && w.game.time == g.time
    decreases Room(g), 0, 0
  {
    var w := Phi(Execute(g, a), V, alpha, beta, prun);
    w.(game := Undo(w.game, a))
  }

  /** The walker hands back the game it was given, on the `break` path of
      its loop as on the normal one. */
  lemma {:induction false} PhiRestores(g: Game, V: map<seq<int>, Ext>, alpha: Ext, beta: Ext, prun: bool)
    requires Calm(g)
    ensures Phi(g, V, alpha, beta, prun).game == g
    decreases Room(g), 1
  {
    if !g.terminated {
      var m := g.player == 1;
      LegalActionsLegal(g);
      PhiLoopRestores(g, LegalActions(g), m, prun, Worst(m), alpha, beta, 0, 0, V);
    }
  }

  lemma {:induction false} PhiLoopRestores(g: Game, acts: seq<int>, m: bool, prun: bool, v: Ext,
                                           alpha: Ext, beta: Ext, count1: int, count2: int,
                                           V: map<seq<int>, Ext>)
    requires Calm(g) && !g.terminated && AllLegal(g, acts)
    ensures PhiLoop(g, acts, m, prun, v, alpha, beta, count1, count2, V).game == g
    decreases Room(g), 0, |acts|
  {
    if acts != [] {
      var child := PhiTry(g, acts[0], V, alpha, beta, prun);
      assert child.game == g by {
        PhiTryRestores(g, acts[0], V, alpha, beta, prun);
      }
      if !(prun && Cuts(m, alpha, beta, child.value)) {
        var e := child.value;
        var alpha' := if prun && m then Max(alpha, e) else alpha;
        var beta' := if prun && !m then Min(beta, e) else beta;
        PhiLoopRestores(g, acts[1..], m, prun, Pick(m, v, e), alpha', beta',
                        count1 + child.nodes, count2 + child.leaves, child.seen);
      }
    }
  }

  /** A turn of the loop walks the child and comes back to `g`. */
  lemma PhiTryRestores(g: Game, a: int, V: map<seq<int>, Ext>, alpha: Ext, beta: Ext, prun: bool)
    requires Calm(g) && !g.terminated && IsLegal(g, a)
    ensures PhiTry(g, a, V, alpha, beta, prun) == Phi(Execute(g, a), V, alpha, beta, prun).(game := g)
    decreases Room(g), 0, 0
  {
    PhiRestores(Execute(g, a), V, alpha, beta, prun);
    UndoExecute(g, a);
  }

  /** One turn of the loop: walk the first action's child `g1`, undo it, and
      either stop (a cut, only with `prun`) or go on from the same game. */
  lemma PhiLoopStep(g: Game, acts: seq<int>, m: bool, prun: bool, v: Ext, alpha: Ext, beta: Ext,
                    count1: int, count2: int, V: map<seq<int>, Ext>) returns (g1: Game)
    requires Valid(g) && !g.terminated
    requires AllLegal(g, acts) && |acts| > 0
    ensures Valid(g1) && Room(g1) < Room(g) && AllLegal(g, acts[1..])
    ensures KidsOf(g, acts)[0] == TreeOf(g1) && KidsOf(g, acts)[1..] == KidsOf(g, acts[1..])
    ensures var child := Phi(g1, V, alpha, beta, prun);
      var e := child.value;
      var v' := Pick(m, v, e);
      var c1 := count1 + child.nodes;
      var c2 := count2 + child.leaves;
      var alpha' := if prun && m then Max(alpha, e) else alpha;
      var beta' := if prun && !m then Min(beta, e) else beta;
      PhiLoop(g, acts, m, prun, v, alpha, beta, count1, count2, V)
        == if prun && Le(beta', alpha') then Walk(v', c1, c2, child.seen, g)
           else PhiLoop(g, acts[1..], m, prun, v', alpha', beta', c1, c2, child.seen)
  {
    g1 := KidsHead(g, acts);
    PhiTryRestores(g, acts[0], V, alpha, beta, prun);
  }

  /** The walker is the traversal `Search` of the game tree: same value, same
      counts, same table. */
  lemma {:induction false} PhiIsSearch(g: Game, V: map<seq<int>, Ext>, alpha: Ext, beta: Ext, prun: bool)
    requires Valid(g)
    ensures Counts(Phi(g, V, alpha, beta, prun)) == Search(TreeOf(g), prun, alpha, beta, V)
    decreases Room(g), 1
  {
    if !g.terminated {
      var m := g.player == 1;
      LegalActionsLegal(g);
      PhiLoopIsSearch(g, LegalActions(g), m, prun, Worst(m), alpha, beta, 0, 0, V);
    }
  }

  lemma {:induction false} PhiLoopIsSearch(g: Game, acts: seq<int>, m: bool, prun: bool, v: Ext,
                                           alpha: Ext, beta: Ext, count1: int, count2: int,
                                           V: map<seq<int>, Ext>)
    requires Valid(g) && !g.terminated
    requires AllLegal(g, acts)
    ensures Counts(PhiLoop(g, acts, m, prun, v, alpha, beta, count1, count2, V))
         == SearchKids(KidsOf(g, acts), m, prun, v, alpha, beta, count1, count2, V)
    decreases Room(g), 0, |acts|, 1
  {
    if acts != [] {
      var e := Search(KidsOf(g, acts)[0], prun, alpha, beta, V).value;
      if prun && Cuts(m, alpha, beta, e) {
        PhiLoopCutIsSearch(g, acts, m, prun, v, alpha, beta, count1, count2, V);
      } else {
        PhiLoopOnIsSearch(g, acts, m, prun, v, alpha, beta, count1, count2, V);
      }
    }
  }

  /** The turn that ends the loop with a `break`. */
  lemma PhiLoopCutIsSearch(g: Game, acts: seq<int>, m: bool, prun: bool, v: Ext,
                           alpha: Ext, beta: Ext, count1: int, count2: int,
                           V: map<seq<int>, Ext>)
    requires Valid(g) && !g.terminated
    requires AllLegal(g, acts) && |acts| > 0
    requires prun && Cuts(m, alpha, beta, Search(KidsOf(g, acts)[0], prun, alpha, beta, V).value)
    ensures Counts(PhiLoop(g, acts, m, prun, v, alpha, beta, count1, count2, V))
         == SearchKids(KidsOf(g, acts), m, prun, v, alpha, beta, count1, count2, V)
    decreases Room(g), 0, |acts|, 0
  {
    var g1 := PhiLoopStep(g, acts, m, prun, v, alpha, beta, count1, count2, V);
    var ks := KidsOf(g, acts);
    var e := Search(ks[0], prun, alpha, beta, V);
    assert Counts(Phi(g1, V, alpha, beta, prun)) == e by {
      PhiIsSearch(g1, V, alpha, beta, prun);
    }
    SearchKidsStep(ks, m, prun, v, alpha, beta, count1, count2, V, e);
  }

  /** A turn after which the loop goes on with the next action. */
  lemma {:induction false} PhiLoopOnIsSearch(g: Game, acts: seq<int>, m: bool, prun: bool, v: Ext,
                                             alpha: Ext, beta: Ext, count1: int, count2: int,
                                             V: map<seq<int>, Ext>)
    requires Valid(g) && !g.terminated
    requires AllLegal(g, acts) && |acts| > 0
    requires !(prun && Cuts(m, alpha, beta, Search(KidsOf(g, acts)[0], prun, alpha, beta, V).value))
    ensures Counts(PhiLoop(g, acts, m, prun, v, alpha, beta, count1, count2, V))
         == SearchKids(KidsOf(g, acts), m, prun, v, alpha, beta, count1, count2, V)
    decreases Room(g), 0, |acts|, 0
  {
    var g1 := PhiLoopStep(g, acts, m, prun, v, alpha, beta, count1, count2, V);
    var ks := KidsOf(g, acts);
    var e := Search(ks[0], prun, alpha, beta, V);
    assert Counts(Phi(g1, V, alpha, beta, prun)) == e by {
      PhiIsSearch(g1, V, alpha, beta, prun);
    }
    SearchKidsStep(ks, m, prun, v, alpha, beta, count1, count2, V, e);
    var v' := Pick(m, v, e.value);
    var alpha' := if prun && m then Max(alpha, e.value) else alpha;
    var beta' := if prun && !m then Min(beta, e.value) else beta;
    assert !(prun && Le(beta', alpha'));
    assert PhiLoop(g, acts, m, prun, v, alpha, beta, count1, count2, V)
        == PhiLoop(g, acts[1..], m, prun, v', alpha', beta', count1 + e.nodes, count2 + e.leaves, e.seen);
    assert SearchKids(ks, m, prun, v, alpha, beta, count1, count2, V)
        == SearchKids(ks[1..], m, prun, v', alpha', beta', count1 + e.nodes, count2 + e.leaves, e.seen);
    PhiLoopIsSearch(g, acts[1..], m, prun, v', alpha', beta', count1 + e.nodes, count2 + e.leaves, e.seen);
  }

  /** At an ended game the walker returns (1, 1, 1) for 'x', (-1, 1, 1) for
      'o' and (0, 1, 1) for a draw, and records that value for the board. */
  lemma PhiTerminal(g: Game, V: map<seq<int>, Ext>, alpha: Ext, beta: Ext, prun: bool)
    requires Valid(g) && g.terminated
    ensures var w := Phi(g, V, alpha, beta, prun);
      && w.nodes == 1 && w.leaves == 1
      && (w.value == Fin(1) <==> g.winner == X)
      && (w.value == Fin(-1) <==> g.winner == O)
      && (w.value == Fin(0) <==> g.winner == Nobody)
      && w.seen == V[g.board := w.value]
  {
  }

  /** Counting: a running game's walk visits more nodes than leaves (it counts
      itself as a node but not as a leaf), no walk visits more than the tree
      holds, and every walk ends with the game it started from. */
  lemma PhiCounts(g: Game, V: map<seq<int>, Ext>, alpha: Ext, beta: Ext, prun: bool)
    requires Valid(g)
    ensures var w := Phi(g, V, alpha, beta, prun);
      && w.leaves <= w.nodes
      && (!g.terminated ==> w.leaves < w.nodes)
      && w.nodes <= Size(TreeOf(g)) && w.leaves <= LeafCount(TreeOf(g))
      && w.game == g
  {
    PhiIsSearch(g, V, alpha, beta, prun);
    Recorded(TreeOf(g), prun, alpha, beta, V);
    PhiRestores(g, V, alpha, beta, prun);
  }

  /** The table gains exactly the boards of the states the walk visits (a
      subtree cut off by the `break` is never entered, so none of its boards
      is written); these are boards of the tree below `g`, no more of them
      than visited nodes, and the root board is recorded with the returned
      value. */
  lemma PhiRecords(g: Game, V: map<seq<int>, Ext>, alpha: Ext, beta: Ext, prun: bool)
    requires Valid(g)
    ensures var w := Phi(g, V, alpha, beta, prun);
      && w.seen.Keys == V.Keys + Reached(TreeOf(g), prun, alpha, beta)
      && Reached(TreeOf(g), prun, alpha, beta) <= Labels(TreeOf(g))
      && |Reached(TreeOf(g), prun, alpha, beta)| <= w.nodes
      && g.board in w.seen && w.seen[g.board] == w.value
  {
    PhiIsSearch(g, V, alpha, beta, prun);
    Recorded(TreeOf(g), prun, alpha, beta, V);
    Visited(TreeOf(g), prun, alpha, beta, V);
    ReachedBounds(TreeOf(g), prun, alpha, beta);
    TableBlind(TreeOf(g), prun, alpha, beta, V, map[]);
  }

  /** Without pruning the walker returns the value of `MinimaxPlayer.Phi`,
      visits the whole tree and records every one of its boards. */
  lemma PhiUnpruned(g: Game, V: map<seq<int>, Ext>, alpha: Ext, beta: Ext)
    requires Valid(g)
    ensures var w := Phi(g, V, alpha, beta, false);
      && w.value == MinimaxPhi(g).0
      && w.nodes == Size(TreeOf(g)) && w.leaves == LeafCount(TreeOf(g))
      && w.seen.Keys == V.Keys + Labels(TreeOf(g))
  {
    PhiIsSearch(g, V, alpha, beta, false);
    Unpruned(TreeOf(g), alpha, beta, V);
    MinimaxPhiValue(g);
  }

  /** From the infinite window the pruned walk finds the same root value as
      the unpruned one, with no more nodes and no more leaves. */
  lemma PrunedVersusUnpruned(g: Game, V: map<seq<int>, Ext>)
    requires Valid(g)
    ensures var p := Phi(g, V, NegInf, PosInf, true);
      var f := Phi(g, V, NegInf, PosInf, false);
      && p.value == f.value
      && p.nodes <= f.nodes && p.leaves <= f.leaves
  {
    PhiIsSearch(g, V, NegInf, PosInf, true);
    PhiIsSearch(g, V, NegInf, PosInf, false);
    PrunedVersusFull(TreeOf(g), V);
  }

  /** The pruned walker agrees with `PrunPlayer.Phi` on the value. */
  lemma PhiPrunedIsPrunPhi(g: Game, V: map<seq<int>, Ext>, alpha: Ext, beta: Ext)
    requires Valid(g)
    ensures Phi(g, V, alpha, beta, true).value == PrunPhi(g, alpha, beta).0
  {
    PhiIsSearch(g, V, alpha, beta, true);
    PrunPhiIsSearch(g, alpha, beta, V);
  }
}
