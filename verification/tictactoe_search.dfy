/** The adversarial players of tictactoe/players.py: `MinimaxPlayer` and
    `PrunPlayer`. Each `Phi` is modelled the way the source runs it: one game
    state threaded through the loop, every `execute` followed by an `undo`,
    the state handed back to the caller. Values are the source's own: 1 for
    'x', -1 for 'o', 0 for a draw. */
module TicTacToeSearch {
  import opened Common
  import opened TicTacToe
  import opened GameTree

  /** The game tree below a reachable state: a leaf with the terminal value at
      an ended game, otherwise a node (maximising iff player 1 moves) whose
      children follow `legal_actions` order. */
  function TreeOf(g: Game): Tree
    requires Sane(g)
    decreases Room(g), 1
  {
    if g.terminated then Leaf(g.board, Outcome(g.winner))
    else Node(g.board, g.player == 1, KidsOf(g, LegalActions(g)))
  }

  function KidsOf(g: Game, acts: seq<int>): (ts: seq<Tree>)
    requires Sane(g) && !g.terminated && Cells(acts)
    ensures |ts| == |acts|
    decreases Room(g), 0, |acts|
  {
    if acts == [] then []
    else [KidOf(g, acts[0])] + KidsOf(g, acts[1..])
  }

  /** The subtree after the move `a`. */
  function KidOf(g: Game, a: int): Tree
    requires Sane(g) && !g.terminated && 0 <= a < 9
    decreases Room(g), 0, 0
  {
    TreeOf(Execute(g, a))
  }

  lemma {:induction false} KidAt(g: Game, acts: seq<int>, i: int)
    requires Valid(g) && !g.terminated
    requires AllLegal(g, acts)
    requires 0 <= i < |acts|
    ensures Valid(Execute(g, acts[i]))
    ensures KidsOf(g, acts)[i] == TreeOf(Execute(g, acts[i]))
    decreases |acts|
  {
    ExecuteValid(g, acts[i]);
    if i > 0 {
      KidAt(g, acts[1..], i - 1);
    }
  }

  /** The first child of a node's loop over `acts` is the tree after `acts[0]`. */
  lemma KidsHead(g: Game, acts: seq<int>) returns (g1: Game)
    requires Valid(g) && !g.terminated
    requires AllLegal(g, acts) && |acts| > 0
    ensures g1 == Execute(g, acts[0]) && Valid(g1) && Room(g1) < Room(g) && AllLegal(g, acts[1..])
    ensures KidsOf(g, acts)[0] == TreeOf(g1) && KidsOf(g, acts)[1..] == KidsOf(g, acts[1..])
  {
    ExecuteValid(g, acts[0]);
    g1 := Execute(g, acts[0]);
  }

  /** The minimax value of the position a legal move leads to. */
  function ChildValue(g: Game, a: int): Ext
    requires Valid(g) && !g.terminated && IsLegal(g, a)
  {
    Minimax(TreeOf(Execute(g, a)))
  }

  /** Every leaf of the tree scores 1, -1 or 0 and no running game is childless. */
  lemma {:induction false} TreeScored(g: Game)
    requires Valid(g)
    ensures Scored(TreeOf(g), {-1, 0, 1})
    decreases Room(g)
  {
    if !g.terminated {
      var acts := LegalActions(g);
      var ts := KidsOf(g, acts);
      RunningHasMove(g);
      forall k | k in ts
        ensures Scored(k, {-1, 0, 1})
      {
        var i :| 0 <= i < |ts| && ts[i] == k;
        KidAt(g, acts, i);
        TreeScored(Execute(g, acts[i]));
      }
    }
  }

  /** `MinimaxPlayer.Phi`: returns the value and the game as it stands after
      the call (which `MinimaxPhiRestores` shows is the game it was given). */
  function MinimaxPhi(g: Game): (r: (Ext, Game))
    requires Sane(g)
    ensures |r.1.board| == 9 && r.1.time == g.time
    decreases Room(g), 1
  {
    if g.terminated then (Fin(Outcome(g.winner)), g)
    else MinimaxLoop(g, LegalActions(g), g.player == 1, Worst(g.player == 1))
  }

  /** The `for action in game.legal_actions()` loop of `MinimaxPlayer.Phi`. */
  function MinimaxLoop(g: Game, acts: seq<int>, m: bool, r: Ext): (res: (Ext, Game))
    requires Sane(g) && !g.terminated && Cells(acts)
    ensures |res.1.board| == 9 && res.1.time == g.time
    decreases Room(g), 0, |acts|
  {
    if acts == [] then (r, g)
    else
      var child := MinimaxTry(g, acts[0]);
      MinimaxLoop(child.1, acts[1..], m, Pick(m, r, child.0))
  }

  /** The body of that loop for one action: `execute`, search, `undo`. */
  function MinimaxTry(g: Game, a: int): (res: (Ext, Game))
    requires Sane(g) && !g.terminated && 0 <= a < 9
    ensures |res.1.board| == 9 && res.1.time == g.time
    decreases Room(g), 0, 0
  {
    var child := MinimaxPhi(Execute(g, a));
    (child.0, Undo(child.1, a))
  }

  /** `MinimaxPlayer.Phi` hands back the game it was given: each `execute`
      of its loop is matched by an `undo` of the same action. */
  lemma {:induction false} MinimaxPhiRestores(g: Game)
    requires Valid(g)
    ensures MinimaxPhi(g).1 == g
    decreases Room(g), 1
  {
    if !g.terminated {
      LegalActionsLegal(g);
      MinimaxLoopRestores(g, LegalActions(g), g.player == 1, Worst(g.player == 1));
    }
  }

  lemma {:induction false} MinimaxLoopRestores(g: Game, acts: seq<int>, m: bool, r: Ext)
    requires Valid(g) && !g.terminated && AllLegal(g, acts)
    ensures MinimaxLoop(g, acts, m, r).1 == g
    decreases Room(g), 0, |acts|
  {
    if acts != [] {
      MinimaxTryRestores(g, acts[0]);
      MinimaxLoopRestores(g, acts[1..], m, Pick(m, r, MinimaxTry(g, acts[0]).0));
    }
  }

  /** A turn of the loop searches the child and comes back to `g`. */
  lemma MinimaxTryRestores(g: Game, a: int)
    requires Valid(g) && !g.terminated && IsLegal(g, a)
    ensures Valid(Execute(g, a))
    ensures MinimaxTry(g, a) == (MinimaxPhi(Execute(g, a)).0, g)
    decreases Room(g), 0, 0
  {
    ExecuteValid(g, a);
    MinimaxPhiRestores(Execute(g, a));
    UndoExecute(g, a);
  }

  /** `MinimaxPlayer.Phi` is exact minimax over the game tree, and its value is
      one of 1, -1, 0. */
  lemma MinimaxPhiValue(g: Game)
    requires Valid(g)
    ensures MinimaxPhi(g).0 == Minimax(TreeOf(g))
    ensures MinimaxPhi(g).0 == Fin(1) || MinimaxPhi(g).0 == Fin(-1) || MinimaxPhi(g).0 == Fin(0)
  {
    MinimaxPhiIsSearch(g, NegInf, PosInf, map[]);
    Unpruned(TreeOf(g), NegInf, PosInf, map[]);
    TreeScored(g);
    SearchAmong(TreeOf(g), {-1, 0, 1}, false, NegInf, PosInf, map[]);
  }

  lemma {:induction false} MinimaxPhiIsSearch(g: Game, alpha: Ext, beta: Ext, seen: map<seq<int>, Ext>)
    requires Valid(g)
    ensures MinimaxPhi(g).0 == Search(TreeOf(g), false, alpha, beta, seen).value
    decreases Room(g), 1
  {
    if !g.terminated {
      var m := g.player == 1;
      MinimaxLoopIsSearch(g, LegalActions(g), m, Worst(m), alpha, beta, 0, 0, seen);
    }
  }

  lemma {:induction false} MinimaxLoopIsSearch(g: Game, acts: seq<int>, m: bool, r: Ext, alpha: Ext, beta: Ext,
                                               nodes: int, leaves: int, seen: map<seq<int>, Ext>)
    requires Valid(g) && !g.terminated
    requires AllLegal(g, acts)
    ensures MinimaxLoop(g, acts, m, r).0 == SearchKids(KidsOf(g, acts), m, false, r, alpha, beta, nodes, leaves, seen).value
    decreases Room(g), 0, |acts|
  {
    if acts != [] {
      var g1 := MinimaxLoopStep(g, acts, m, r);
      var ks := KidsOf(g, acts);
      var e := Search(ks[0], false, alpha, beta, seen);
      assert MinimaxPhi(g1).0 == e.value by {
        MinimaxPhiIsSearch(g1, alpha, beta, seen);
      }
      SearchKidsStep(ks, m, false, r, alpha, beta, nodes, leaves, seen, e);
      MinimaxLoopIsSearch(g, acts[1..], m, Pick(m, r, e.value), alpha, beta, nodes + e.nodes, leaves + e.leaves, e.seen);
    }
  }

  /** One turn of the `MinimaxPlayer.Phi` loop: search the first action's
      child `g1`, undo it, and go on from the same game with the updated best. */
  lemma MinimaxLoopStep(g: Game, acts: seq<int>, m: bool, r: Ext) returns (g1: Game)
    requires Valid(g) && !g.terminated
    requires AllLegal(g, acts) && |acts| > 0
    ensures Valid(g1) && Room(g1) < Room(g) && AllLegal(g, acts[1..])
    ensures KidsOf(g, acts)[0] == TreeOf(g1) && KidsOf(g, acts)[1..] == KidsOf(g, acts[1..])
    ensures MinimaxLoop(g, acts, m, r) == MinimaxLoop(g, acts[1..], m, Pick(m, r, MinimaxPhi(g1).0))
  {
    g1 := KidsHead(g, acts);
    MinimaxTryRestores(g, acts[0]);
  }

  /** `PrunPlayer.Phi(game, alpha, beta)`: fail-hard alpha-beta, returning the
      value and the game as it stands after the call. */
  function PrunPhi(g: Game, alpha: Ext, beta: Ext): (r: (Ext, Game))
    requires Sane(g)
    ensures |r.1.board| == 9 && r.1.time == g.time
    decreases Room(g), 1
  {
    if g.terminated then (Fin(Outcome(g.winner)), g)
    else PrunLoop(g, LegalActions(g), g.player == 1, Worst(g.player == 1), alpha, beta)
  }

  function PrunLoop(g: Game, acts: seq<int>, m: bool, r: Ext, alpha: Ext, beta: Ext): (res: (Ext, Game))
    requires Sane(g) && !g.terminated && Cells(acts)
    ensures |res.1.board| == 9 && res.1.time == g.time
    decreases Room(g), 0, |acts|
  {
    if acts == [] then (r, g)
    else
      var child := PrunTry(g, acts[0], alpha, beta);
      var e := child.0;
      var r' := Pick(m, r, e);
      var alpha' := if m then Max(alpha, e) else alpha;
      var beta' := if m then beta else Min(beta, e);
      if Le(beta', alpha') then (r', child.1)
      else PrunLoop(child.1, acts[1..], m, r', alpha', beta')
  }

  /** The body of that loop for one action: `execute`, search, `undo`. */
  function PrunTry(g: Game, a: int, alpha: Ext, beta: Ext): (res: (Ext, Game))
    requires Sane(g) && !g.terminated && 0 <= a < 9
    ensures |res.1.board| == 9 && res.1.time == g.time
    decreases Room(g), 0, 0
  {
    var child := PrunPhi(Execute(g, a), alpha, beta);
    (child.0, Undo(child.1, a))
  }

  /** A turn of the loop searches the child and comes back to `g`. */
  lemma PrunTryRestores(g: Game, a: int, alpha: Ext, beta: Ext)
    requires Valid(g) && !g.terminated && IsLegal(g, a)
    ensures Valid(Execute(g, a))
    ensures PrunTry(g, a, alpha, beta) == (PrunPhi(Execute(g, a), alpha, beta).0, g)
    decreases Room(g), 0, 0
  {
    ExecuteValid(g, a);
    PrunPhiRestores(Execute(g, a), alpha, beta);
    UndoExecute(g, a);
  }

  /** `PrunPlayer.Phi` hands back the game it was given, whether its loop
      runs out or stops at a `break`. */
  lemma {:induction false} PrunPhiRestores(g: Game, alpha: Ext, beta: Ext)
    requires Valid(g)
    ensures PrunPhi(g, alpha, beta).1 == g
    decreases Room(g), 1
  {
    if !g.terminated {
      LegalActionsLegal(g);
      PrunLoopRestores(g, LegalActions(g), g.player == 1, Worst(g.player == 1), alpha, beta);
    }
  }

  lemma {:induction false} PrunLoopRestores(g: Game, acts: seq<int>, m: bool, r: Ext, alpha: Ext, beta: Ext)
    requires Valid(g) && !g.terminated && AllLegal(g, acts)
    ensures PrunLoop(g, acts, m, r, alpha, beta).1 == g
    decreases Room(g), 0, |acts|
  {
    if acts != [] {
      PrunTryRestores(g, acts[0], alpha, beta);
      var e := PrunTry(g, acts[0], alpha, beta).0;
      var alpha' := if m then Max(alpha, e) else alpha;
      var beta' := if m then beta else Min(beta, e);
      if !Le(beta', alpha') {
        PrunLoopRestores(g, acts[1..], m, Pick(m, r, e), alpha', beta');
      }
    }
  }

  lemma {:induction false} PrunPhiIsSearch(g: Game, alpha: Ext, beta: Ext, seen: map<seq<int>, Ext>)
    requires Valid(g)
    ensures PrunPhi(g, alpha, beta).0 == Search(TreeOf(g), true, alpha, beta, seen).value
    decreases Room(g), 1
  {
    if !g.terminated {
      var m := g.player == 1;
      PrunLoopIsSearch(g, LegalActions(g), m, Worst(m), alpha, beta, 0, 0, seen);
    }
  }

  lemma {:induction false} PrunLoopIsSearch(g: Game, acts: seq<int>, m: bool, r: Ext, alpha: Ext, beta: Ext,
                                            nodes: int, leaves: int, seen: map<seq<int>, Ext>)
    requires Valid(g) && !g.terminated
    requires AllLegal(g, acts)
    ensures PrunLoop(g, acts, m, r, alpha, beta).0 == SearchKids(KidsOf(g, acts), m, true, r, alpha, beta, nodes, leaves, seen).value
    decreases Room(g), 0, |acts|, 1
  {
    if acts != [] {
      var e := Search(KidsOf(g, acts)[0], true, alpha, beta, seen).value;
      if Cuts(m, alpha, beta, e) {
        PrunLoopCutIsSearch(g, acts, m, r, alpha, beta, nodes, leaves, seen);
      } else {
        PrunLoopOnIsSearch(g, acts, m, r, alpha, beta, nodes, leaves, seen);
      }
    }
  }

  /** The turn that ends the loop with a `break`. */
  lemma PrunLoopCutIsSearch(g: Game, acts: seq<int>, m: bool, r: Ext, alpha: Ext, beta: Ext,
                            nodes: int, leaves: int, seen: map<seq<int>, Ext>)
    requires Valid(g) && !g.terminated
    requires AllLegal(g, acts) && |acts| > 0
    requires Cuts(m, alpha, beta, Search(KidsOf(g, acts)[0], true, alpha, beta, seen).value)
    ensures PrunLoop(g, acts, m, r, alpha, beta).0 == SearchKids(KidsOf(g, acts), m, true, r, alpha, beta, nodes, leaves, seen).value
    decreases Room(g), 0, |acts|, 0
  {
    var g1 := PrunLoopStep(g, acts, m, r, alpha, beta);
    var ks := KidsOf(g, acts);
    var e := Search(ks[0], true, alpha, beta, seen);
    assert PrunPhi(g1, alpha, beta).0 == e.value by {
      PrunPhiIsSearch(g1, alpha, beta, seen);
    }
    SearchKidsStep(ks, m, true, r, alpha, beta, nodes, leaves, seen, e);
  }

  /** A turn after which the loop goes on with the next action. */
  lemma {:induction false} PrunLoopOnIsSearch(g: Game, acts: seq<int>, m: bool, r: Ext, alpha: Ext, beta: Ext,
                                              nodes: int, leaves: int, seen: map<seq<int>, Ext>)
    requires Valid(g) && !g.terminated
    requires AllLegal(g, acts) && |acts| > 0
    requires !Cuts(m, alpha, beta, Search(KidsOf(g, acts)[0], true, alpha, beta, seen).value)
    ensures PrunLoop(g, acts, m, r, alpha, beta).0 == SearchKids(KidsOf(g, acts), m, true, r, alpha, beta, nodes, leaves, seen).value
    decreases Room(g), 0, |acts|, 0
  {
    var g1 := PrunLoopStep(g, acts, m, r, alpha, beta);
    var ks := KidsOf(g, acts);
    var e := Search(ks[0], true, alpha, beta, seen);
    assert PrunPhi(g1, alpha, beta).0 == e.value by {
      PrunPhiIsSearch(g1, alpha, beta, seen);
    }
    SearchKidsStep(ks, m, true, r, alpha, beta, nodes, leaves, seen, e);
    var r' := Pick(m, r, e.value);
    var alpha' := if m then Max(alpha, e.value) else alpha;
    var beta' := if m then beta else Min(beta, e.value);
    assert !Le(beta', alpha');
    assert PrunLoop(g, acts, m, r, alpha, beta).0 == PrunLoop(g, acts[1..], m, r', alpha', beta').0;
    assert SearchKids(ks, m, true, r, alpha, beta, nodes, leaves, seen)
        == SearchKids(ks[1..], m, true, r', alpha', beta', nodes + e.nodes, leaves + e.leaves, e.seen);
    PrunLoopIsSearch(g, acts[1..], m, r', alpha', beta', nodes + e.nodes, leaves + e.leaves, e.seen);
  }

  /** One turn of the `PrunPlayer.Phi` loop: search the first action's child
      `g1` in the current window, undo it, move the mover's bound, and either
      break with the running best or go on from the same game. */
  lemma PrunLoopStep(g: Game, acts: seq<int>, m: bool, r: Ext, alpha: Ext, beta: Ext) returns (g1: Game)
    requires Valid(g) && !g.terminated
    requires AllLegal(g, acts) && |acts| > 0
    ensures Valid(g1) && Room(g1) < Room(g) && AllLegal(g, acts[1..])
    ensures KidsOf(g, acts)[0] == TreeOf(g1) && KidsOf(g, acts)[1..] == KidsOf(g, acts[1..])
    ensures var e := PrunPhi(g1, alpha, beta).0;
      var r' := Pick(m, r, e);
      var alpha' := if m then Max(alpha, e) else alpha;
      var beta' := if m then beta else Min(beta, e);
      PrunLoop(g, acts, m, r, alpha, beta).0
        == if Le(beta', alpha') then r' else PrunLoop(g, acts[1..], m, r', alpha', beta').0
  {
    g1 := KidsHead(g, acts);
    PrunTryRestores(g, acts[0], alpha, beta);
  }

  /** The fail-hard window property of `PrunPlayer.Phi` against exact minimax
      `v`: inside (alpha, beta) it returns `v`, at or below alpha it returns
      at most alpha, at or above beta it returns at least beta. */
  lemma PrunPhiWindow(g: Game, alpha: Ext, beta: Ext)
    requires Valid(g) && Lt(alpha, beta)
    ensures var v := MinimaxPhi(g).0;
      var r := PrunPhi(g, alpha, beta).0;
      && (Lt(alpha, v) && Lt(v, beta) ==> r == v)
      && (Le(v, alpha) ==> Le(r, alpha))
      && (Le(beta, v) ==> Le(beta, r))
  {
    PrunPhiIsSearch(g, alpha, beta, map[]);
    Window(TreeOf(g), alpha, beta, map[]);
    MinimaxPhiValue(g);
  }

  /** From the infinite window `PrunPlayer.Phi` equals `MinimaxPlayer.Phi`. */
  lemma PrunPhiExact(g: Game)
    requires Valid(g)
    ensures PrunPhi(g, NegInf, PosInf).0 == MinimaxPhi(g).0
  {
    PrunPhiWindow(g, NegInf, PosInf);
    MinimaxPhiValue(g);
  }

  /** The shuffled list holds exactly the legal actions. */
  lemma OrderLegal(g: Game, order: seq<int>)
    requires Valid(g)
    requires Permutes(order, LegalActions(g))
    ensures AllLegal(g, order)
    ensures forall b :: IsLegal(g, b) ==> b in order
    ensures |order| == |LegalActions(g)|
  {
    assert |multiset(order)| == |multiset(LegalActions(g))|;
    PermutesMembers(order, LegalActions(g));
    LegalActionsLegal(g);
  }

  /** What one turn of a `choice` loop learns about action `a`: the child is a
      reachable game, undoing the move restores `g`, the child's minimax value
      is 1, -1 or 0, and the pruned value in the window (alpha, beta) stands
      for it in the fail-hard sense. */
  lemma ChildStep(g: Game, a: int, alpha: Ext, beta: Ext)
    requires Valid(g) && !g.terminated && IsLegal(g, a) && Lt(alpha, beta)
    ensures Valid(Execute(g, a)) && Undo(Execute(g, a), a) == g
    ensures MinimaxPhi(Execute(g, a)).1 == Execute(g, a)
    ensures PrunPhi(Execute(g, a), alpha, beta).1 == Execute(g, a)
    ensures ChildValue(g, a) == MinimaxPhi(Execute(g, a)).0
    ensures Among(ChildValue(g, a), {-1, 0, 1})
    ensures Represents(PrunPhi(Execute(g, a), alpha, beta).0, ChildValue(g, a), alpha, beta)
  {
    ExecuteValid(g, a);
    UndoExecute(g, a);
    var c := Execute(g, a);
    MinimaxPhiRestores(c);
    PrunPhiRestores(c, alpha, beta);
    MinimaxPhiValue(c);
    PrunPhiWindow(c, alpha, beta);
  }

  /** The legal action `a` is the child at position `k` of the game tree. */
  lemma ChildIsKid(g: Game, a: int) returns (k: int)
    requires Valid(g) && !g.terminated && IsLegal(g, a)
    ensures 0 <= k < |LegalActions(g)| && LegalActions(g)[k] == a
    ensures ChildValue(g, a) == Minimax(KidsOf(g, LegalActions(g))[k])
  {
    LegalActionsLegal(g);
    var acts := LegalActions(g);
    k :| 0 <= k < |acts| && acts[k] == a;
    KidAt(g, acts, k);
  }

  /** The value of a running game is the best value among its legal moves:
      no legal move does better for the mover, and some legal move attains it. */
  lemma PhiIsBestChild(g: Game) returns (b: int)
    requires Valid(g) && !g.terminated
    ensures IsLegal(g, b) && ChildValue(g, b) == MinimaxPhi(g).0
    ensures forall c :: IsLegal(g, c) ==> NoBetter(g.player == 1, ChildValue(g, c), MinimaxPhi(g).0)
  {
    var m := g.player == 1;
    var acts := LegalActions(g);
    var ts := KidsOf(g, acts);
    assert MinimaxPhi(g).0 == Best(m, ts) by {
      MinimaxPhiValue(g);
    }
    RunningHasMove(g);
    BestBounds(m, ts);
    LegalActionsLegal(g);
    var j :| 0 <= j < |ts| && Minimax(ts[j]) == Best(m, ts);
    b := acts[j];
    KidAt(g, acts, j);
    forall c | IsLegal(g, c)
      ensures NoBetter(m, ChildValue(g, c), MinimaxPhi(g).0)
    {
      var k := ChildIsKid(g, c);
    }
  }

  /** An action that no legal action beats carries the game's minimax value. */
  lemma ChoiceIsValue(g: Game, a: int)
    requires Valid(g) && !g.terminated && IsLegal(g, a)
    requires forall b :: IsLegal(g, b) ==> NoBetter(g.player == 1, ChildValue(g, b), ChildValue(g, a))
    ensures ChildValue(g, a) == MinimaxPhi(g).0
  {
    var b := PhiIsBestChild(g);
    assert NoBetter(g.player == 1, ChildValue(g, b), ChildValue(g, a));
  }

  /** If no value of the shuffled list beats `x`, no legal move does. */
  lemma NoneBetter(g: Game, order: seq<int>, vals: seq<Ext>, x: Ext)
    requires Valid(g) && !g.terminated
    requires Permutes(order, LegalActions(g))
    requires AllLegal(g, order) && |vals| == |order|
    requires forall j :: 0 <= j < |order| ==> vals[j] == ChildValue(g, order[j])
    requires forall j :: 0 <= j < |order| ==> NoBetter(g.player == 1, vals[j], x)
    ensures forall b :: IsLegal(g, b) ==> NoBetter(g.player == 1, ChildValue(g, b), x)
  {
    OrderLegal(g, order);
    forall b | IsLegal(g, b)
      ensures NoBetter(g.player == 1, ChildValue(g, b), x)
    {
      var j :| 0 <= j < |order| && order[j] == b;
    }
  }

  /** The body of the `PrunPlayer.choice` loop: execute `a`, search the child
      in the window (alpha, beta), undo `a`. The value stands for the move's
      minimax value in the fail-hard sense and the game comes back as it was. */
  method PrunTurn(g: Game, a: int, alpha: Ext, beta: Ext) returns (e: Ext, after: Game)
    requires Valid(g) && !g.terminated && IsLegal(g, a) && Lt(alpha, beta)
    ensures after == g
    ensures ChildValue(g, a).Fin?
    ensures Represents(e, ChildValue(g, a), alpha, beta)
  {
    ChildStep(g, a, alpha, beta);
    var game := Execute(g, a);
    var res := PrunPhi(game, alpha, beta);
    e := res.0;
    game := res.1;
    after := Undo(game, a);
  }

  /** The body of the `MinimaxPlayer.choice` loop: execute `a`, run the full
      search on the child, undo `a`. The value is the move's minimax value. */
  method MinimaxTurn(g: Game, a: int) returns (e: Ext, after: Game)
    requires Valid(g) && !g.terminated && IsLegal(g, a)
    ensures after == g
    ensures e == ChildValue(g, a) && e.Fin?
  {
    ChildStep(g, a, NegInf, PosInf);
    var game := Execute(g, a);
    var res := MinimaxPhi(game);
    e := res.0;
    game := res.1;
    after := Undo(game, a);
  }

  /** `PrunPlayer.choice` with the shuffled action list `order`: every legal
      action is tried with the window moved by the previous ones, the first
      action (in shuffled order) with the best value is kept, and the game is
      left as it was. The kept action is optimal for the mover: its minimax
      value is the game's value and no legal action does better. At the root
      the bound that is not moved stays infinite, so the `break` never fires. */
  method PrunChoice(g: Game, order: seq<int>) returns (best: Option<int>, after: Game)
    requires Valid(g) && !g.terminated
    requires Permutes(order, LegalActions(g))
    ensures after == g
    ensures best.Some? && IsLegal(g, best.value)
    ensures forall b :: IsLegal(g, b) ==> NoBetter(g.player == 1, ChildValue(g, b), ChildValue(g, best.value))
    ensures ChildValue(g, best.value) == MinimaxPhi(g).0
  {
    var m := g.player == 1;
    OrderLegal(g, order);
    RunningHasMove(g);
    var alpha, beta := NegInf, PosInf;
    var r := Worst(m);
    best := None;
    var game := g;
    var i := 0;
    ghost var vals: seq<Ext> := [];
    while i < |order|
      invariant 0 <= i <= |order|
      invariant game == g
      invariant if m then alpha == r && beta == PosInf else beta == r && alpha == NegInf
      invariant i == 0 ==> r == Worst(m) && best == None
      invariant i > 0 ==> best.Some? && IsLegal(g, best.value) && r == ChildValue(g, best.value) && r.Fin?
      invariant |vals| == i && forall j :: 0 <= j < i ==> vals[j] == ChildValue(g, order[j])
      invariant forall j :: 0 <= j < i ==> NoBetter(m, vals[j], r)
    {
      var a := order[i];
      var e;
      e, game := PrunTurn(game, a, alpha, beta);
      ghost var v := ChildValue(g, a);
      BestUpdate(m, vals, r, e, v);
      vals := vals + [v];
      if Improves(m, e, r) {
        r := e;
        best := Some(a);
      }
      if m {
        alpha := Max(alpha, e);
      } else {
        beta := Min(beta, e);
      }
      assert !Le(beta, alpha);
      if Le(beta, alpha) {
        break;
      }
      i := i + 1;
    }
    after := game;
    NoneBetter(g, order, vals, r);
    ChoiceIsValue(g, best.value);
  }

  /** `MinimaxPlayer.choice` as written: the test `r > r` (and `r < r` for
      player -1) compares the fresh value with itself, so `best_action` is
      never assigned. Every legal action is still searched and undone. */
  method MinimaxChoice(g: Game, order: seq<int>) returns (best: Option<int>, after: Game)
    requires Valid(g) && !g.terminated
    requires Permutes(order, LegalActions(g))
    ensures best == None
    ensures after == g
  {
    OrderLegal(g, order);
    var m := g.player == 1;
    var r := Worst(m);
    best := None;
    var game := g;
    var i := 0;
    while i < |order|
      invariant 0 <= i <= |order|
      invariant game == g
      invariant best == None
    {
      var a := order[i];
      r, game := MinimaxTurn(game, a);
      if Improves(m, r, r) {
        r := r;
        best := Some(a);
      }
      i := i + 1;
    }
    after := game;
  }

  /** The evidently intended `MinimaxPlayer.choice`: compare the fresh value
      `e` with the running best `r`. It returns a legal action whose minimax
      value is the game's value, and leaves the game unchanged. */
  method MinimaxChoiceIntended(g: Game, order: seq<int>) returns (best: Option<int>, after: Game)
    requires Valid(g) && !g.terminated
    requires Permutes(order, LegalActions(g))
    ensures after == g
    ensures best.Some? && IsLegal(g, best.value)
    ensures forall b :: IsLegal(g, b) ==> NoBetter(g.player == 1, ChildValue(g, b), ChildValue(g, best.value))
    ensures ChildValue(g, best.value) == MinimaxPhi(g).0
  {
    var m := g.player == 1;
    OrderLegal(g, order);
    RunningHasMove(g);
    var r := Worst(m);
    best := None;
    var game := g;
    var i := 0;
    ghost var vals: seq<Ext> := [];
    while i < |order|
      invariant 0 <= i <= |order|
      invariant game == g
      invariant i == 0 ==> r == Worst(m) && best == None
      invariant i > 0 ==> best.Some? && IsLegal(g, best.value) && r == ChildValue(g, best.value) && r.Fin?
      invariant |vals| == i && forall j :: 0 <= j < i ==> vals[j] == ChildValue(g, order[j])
      invariant forall j :: 0 <= j < i ==> NoBetter(m, vals[j], r)
    {
      var a := order[i];
      var e;
      e, game := MinimaxTurn(game, a);
      BestUpdate(m, vals, r, e, e);
      vals := vals + [e];
      if Improves(m, e, r) {
        r := e;
        best := Some(a);
      }
      i := i + 1;
    }
    after := game;
    NoneBetter(g, order, vals, r);
    ChoiceIsValue(g, best.value);
  }
}
