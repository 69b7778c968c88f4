/** The depth-limited `PrunPlayer` of connectfour/players.py. Its `Phi`
    scores an ended game 1 / -1 / 0 and, when the depth runs out on a running
    game, guesses 0.5 for player 1 to move and -0.5 otherwise. All values
    here are doubled so that they stay integers: 2 / -2 / 0 at an end, 1 / -1
    as the guess. The game state is threaded through the loop exactly as in
    the tic-tac-toe searches: `execute`, search, `undo`. */
module ConnectFourSearch {
  import opened Common
  import opened ConnectFour
  import opened GameTree

  /** Twice the terminal value: 2 for 'x', -2 for 'o', 0 for a draw. */
  function Score(w: Winner): (v: int)
    ensures v == 2 * Outcome(w)
  {
    match w
    case X => 2
    case O => -2
    case Nobody => 0
  }

  /** Twice the depth-0 guess: 1 when player 1 is to move, -1 otherwise. */
  function Guess(player: int): (v: int)
    ensures v == 1 || v == -1
    ensures v == 1 <==> player == 1
  {
    if player == 1 then 1 else -1
  }

  /** The game tree the search of depth `d` explores below `g`: a leaf with
      the terminal score at an ended game, a leaf with the guess when the
      depth reaches 0, otherwise a node (maximising iff player 1 moves)
      whose children follow `legal_actions` order with depth `d - 1`. A
      negative depth never reaches 0, so the search then runs to the end. */
  function TreeOf(g: Game, d: int): Tree
    requires Sane(g)
    decreases Room(g), 1
  {
    if g.terminated then Leaf(Flat(g.board), Score(g.winner))
    else if d == 0 then Leaf(Flat(g.board), Guess(g.player))
    else Node(Flat(g.board), g.player == 1, KidsOf(g, d, LegalActions(g)))
  }

  function KidsOf(g: Game, d: int, acts: seq<int>): (ts: seq<Tree>)
    requires Sane(g) && !g.terminated && Columns(acts, g.cols)
    ensures |ts| == |acts|
    decreases Room(g), 0, |acts|
  {
    if acts == [] then []
    else [KidOf(g, d, acts[0])] + KidsOf(g, d, acts[1..])
  }

  /** The subtree after dropping a disc in column `c`. */
  function KidOf(g: Game, d: int, c: int): Tree
    requires Sane(g) && !g.terminated && 0 <= c < g.cols
    decreases Room(g), 0, 0
  {
    TreeOf(Execute(g, c), d - 1)
  }

  lemma {:induction false} KidAt(g: Game, d: int, acts: seq<int>, i: int)
    requires Sane(g) && !g.terminated && Columns(acts, g.cols)
    requires 0 <= i < |acts|
    ensures KidsOf(g, d, acts)[i] == TreeOf(Execute(g, acts[i]), d - 1)
    decreases |acts|
  {
    if i > 0 {
      KidAt(g, d, acts[1..], i - 1);
    }
  }

  /** The first child of a node's loop over `acts` is the tree after `acts[0]`. */
  lemma KidsHead(g: Game, d: int, acts: seq<int>) returns (g1: Game)
    requires Calm(g) && !g.terminated
    requires AllLegal(g, acts) && |acts| > 0
    ensures g1 == Execute(g, acts[0]) && Calm(g1) && Room(g1) < Room(g) && AllLegal(g, acts[1..])
    ensures KidsOf(g, d, acts)[0] == TreeOf(g1, d - 1) && KidsOf(g, d, acts)[1..] == KidsOf(g, d, acts[1..])
  {
    ExecuteCalm(g, acts[0]);
    g1 := Execute(g, acts[0]);
  }

  /** The depth-limited minimax value of the position after column `c`. */
  function ChildValue(g: Game, d: int, c: int): Ext
    requires Valid(g) && !g.terminated && IsLegal(g, c)
  {
    Minimax(KidOf(g, d, c))
  }

  /** The values the search can meet: every leaf scores -2, -1, 0, 1 or 2, and
      no running game is childless. */
  const Values: set<int> := {-2, -1, 0, 1, 2}

  lemma {:induction false} TreeScored(g: Game, d: int)
    requires Valid(g)
    ensures Scored(TreeOf(g, d), Values)
    decreases Room(g), 1
  {
    if !g.terminated && d != 0 {
      RunningHasMove(g);
      LegalActionsLegal(g);
      KidsScored(g, d, LegalActions(g));
    }
  }

  lemma {:induction false} KidsScored(g: Game, d: int, acts: seq<int>)
    requires Valid(g) && !g.terminated && AllLegal(g, acts)
    ensures forall k :: k in KidsOf(g, d, acts) ==> Scored(k, Values)
    decreases Room(g), 0, |acts|
  {
    if acts != [] {
      ExecuteValid(g, acts[0]);
      TreeScored(Execute(g, acts[0]), d - 1);
      KidsScored(g, d, acts[1..]);
    }
  }

  /** `PrunPlayer.Phi(game, alpha, beta, depth)`, returning the value and the
      game as it stands after the call. */
  function Phi(g: Game, alpha: Ext, beta: Ext, d: int): (r: (Ext, Game))
    requires Sane(g)
    ensures r.1.rows == g.rows && r.1.cols == g.cols && |r.1.board| == g.rows
    ensures Shaped(r.1.board, g.cols) && r.1.time == g.time
    decreases Room(g), 1
  {
    if g.terminated then (Fin(Score(g.winner)), g)
    else if d == 0 then (Fin(Guess(g.player)), g)
    else PhiLoop(g, LegalActions(g), g.player == 1, Worst(g.player == 1), alpha, beta, d)
  }

  /** The `for action in game.legal_actions()` loop of `Phi`: search each
      child at depth `d - 1`, keep the best, move the mover's bound, and
      `break` once `alpha >= beta`. */
  function PhiLoop(g: Game, acts: seq<int>, m: bool, r: Ext, alpha: Ext, beta: Ext, d: int): (res: (Ext, Game))
    requires Sane(g) && !g.terminated && Columns(acts, g.cols)
    ensures res.1.rows == g.rows && res.1.cols == g.cols && |res.1.board| == g.rows
    ensures Shaped(res.1.board, g.cols) && res.1.time == g.time
    decreases Room(g), 0, |acts|
  {
    if acts == [] then (r, g)
    else
      var child := PhiTry(g, acts[0], alpha, beta, d);
      var e := child.0;
      var r' := Pick(m, r, e);
      var alpha' := if m then Max(alpha, e) else alpha;
      var beta' := if m then beta else Min(beta, e);
      if Le(beta', alpha') then (r', child.1)
      else PhiLoop(child.1, acts[1..], m, r', alpha', beta', d)
  }

  /** The body of that loop for one column: `execute`, search, `undo`. */
  function PhiTry(g: Game, c: int, alpha: Ext, beta: Ext, d: int): (res: (Ext, Game))
    requires Sane(g) && !g.terminated && 0 <= c < g.cols
    ensures res.1.rows == g.rows && res.1.cols == g.cols && |res.1.board| == g.rows
    ensures Shaped(res.1.board, g.cols) && res.1.time == g.time
    decreases Room(g), 0, 0
  {
    var child := Phi(Execute(g, c), alpha, beta, d - 1);
    (child.0, Undo(child.1, c))
  }

  /** `Phi` hands back the game it was given, whether its loop runs out or
      stops at a `break`. */
  lemma {:induction false} PhiRestores(g: Game, alpha: Ext, beta: Ext, d: int)
    requires Calm(g)
    ensures Phi(g, alpha, beta, d).1 == g
    decreases Room(g), 1
  {
    if !g.terminated && d != 0 {
      LegalActionsLegal(g);
      PhiLoopRestores(g, LegalActions(g), g.player == 1, Worst(g.player == 1), alpha, beta, d);
    }
  }

  lemma {:induction false} PhiLoopRestores(g: Game, acts: seq<int>, m: bool, r: Ext, alpha: Ext, beta: Ext, d: int)
    requires Calm(g) && !g.terminated && AllLegal(g, acts)
    ensures PhiLoop(g, acts, m, r, alpha, beta, d).1 == g
    decreases Room(g), 0, |acts|
  {
    if acts != [] {
      var child := PhiTry(g, acts[0], alpha, beta, d);
      assert child.1 == g by {
        PhiTryRestores(g, acts[0], alpha, beta, d);
      }
      if !Cuts(m, alpha, beta, child.0) {
        var e := child.0;
        var alpha' := if m then Max(alpha, e) else alpha;
        var beta' := if m then beta else Min(beta, e);
        PhiLoopRestores(g, acts[1..], m, Pick(m, r, e), alpha', beta', d);
      }
    }
  }

  /** A turn of the loop searches the child and comes back to `g`. */
  lemma PhiTryRestores(g: Game, c: int, alpha: Ext, beta: Ext, d: int)
    requires Calm(g) && !g.terminated && IsLegal(g, c)
    ensures PhiTry(g, c, alpha, beta, d) == (Phi(Execute(g, c), alpha, beta, d - 1).0, g)
    decreases Room(g), 0, 0
  {
    ExecuteCalm(g, c);
    PhiRestores(Execute(g, c), alpha, beta, d - 1);
    UndoExecute(g, c);
  }

  /** One turn of the loop: search the first column's child `g1`, undo it,
      move the mover's bound, and either break with the running best or go
      on from the same game. */
  lemma PhiLoopStep(g: Game, acts: seq<int>, m: bool, r: Ext, alpha: Ext, beta: Ext, d: int) returns (g1: Game)
    requires Calm(g) && !g.terminated
    requires AllLegal(g, acts) && |acts| > 0
    ensures Calm(g1) && Room(g1) < Room(g) && AllLegal(g, acts[1..])
    ensures KidsOf(g, d, acts)[0] == TreeOf(g1, d - 1) && KidsOf(g, d, acts)[1..] == KidsOf(g, d, acts[1..])
    ensures var e := Phi(g1, alpha, beta, d - 1).0;
      var r' := Pick(m, r, e);
      var alpha' := if m then Max(alpha, e) else alpha;
      var beta' := if m then beta else Min(beta, e);
      PhiLoop(g, acts, m, r, alpha, beta, d).0
        == if Le(beta', alpha') then r' else PhiLoop(g, acts[1..], m, r', alpha', beta', d).0
  {
    g1 := KidsHead(g, d, acts);
    PhiTryRestores(g, acts[0], alpha, beta, d);
  }

  /** `Phi` is the pruned traversal `Search` of the depth-limited game tree. */
  lemma {:induction false} PhiIsSearch(g: Game, alpha: Ext, beta: Ext, d: int, seen: map<seq<int>, Ext>)
    requires Calm(g)
    ensures Phi(g, alpha, beta, d).0 == Search(TreeOf(g, d), true, alpha, beta, seen).value
    decreases Room(g), 1
  {
    if !g.terminated && d != 0 {
      var m := g.player == 1;
      LegalActionsLegal(g);
      PhiLoopIsSearch(g, LegalActions(g), m, Worst(m), alpha, beta, d, 0, 0, seen);
    }
  }

  lemma {:induction false} PhiLoopIsSearch(g: Game, acts: seq<int>, m: bool, r: Ext, alpha: Ext, beta: Ext, d: int,
                                           nodes: int, leaves: int, seen: map<seq<int>, Ext>)
    requires Calm(g) && !g.terminated
    requires AllLegal(g, acts)
    ensures PhiLoop(g, acts, m, r, alpha, beta, d).0
         == SearchKids(KidsOf(g, d, acts), m, true, r, alpha, beta, nodes, leaves, seen).value
    decreases Room(g), 0, |acts|, 1
  {
    if acts != [] {
      var e := PhiLoopHead(g, acts, m, r, alpha, beta, d, nodes, leaves, seen);
      if !Cuts(m, alpha, beta, e.value) {
        var alpha' := if m then Max(alpha, e.value) else alpha;
        var beta' := if m then beta else Min(beta, e.value);
        PhiLoopIsSearch(g, acts[1..], m, Pick(m, r, e.value), alpha', beta', d, nodes + e.nodes, leaves + e.leaves, e.seen);
      }
    }
  }

  /** The first turn of the loop and of the tree traversal agree: both search
      the first child to the same value `e` and then stop or go on alike. */
  lemma PhiLoopHead(g: Game, acts: seq<int>, m: bool, r: Ext, alpha: Ext, beta: Ext, d: int,
                    nodes: int, leaves: int, seen: map<seq<int>, Ext>) returns (e: Visit)
    requires Calm(g) && !g.terminated
    requires AllLegal(g, acts) && |acts| > 0
    ensures AllLegal(g, acts[1..])
    ensures var r' := Pick(m, r, e.value);
      var alpha' := if m then Max(alpha, e.value) else alpha;
      var beta' := if m then beta else Min(beta, e.value);
      && PhiLoop(g, acts, m, r, alpha, beta, d).0
           == (if Cuts(m, alpha, beta, e.value) then r' else PhiLoop(g, acts[1..], m, r', alpha', beta', d).0)
      && SearchKids(KidsOf(g, d, acts), m, true, r, alpha, beta, nodes, leaves, seen)
           == (if Cuts(m, alpha, beta, e.value) then Visit(r', nodes + e.nodes, leaves + e.leaves, e.seen)
               else SearchKids(KidsOf(g, d, acts[1..]), m, true, r', alpha', beta', nodes + e.nodes, leaves + e.leaves, e.seen))
    decreases Room(g), 0, |acts|, 0
  {
    var g1 := PhiLoopStep(g, acts, m, r, alpha, beta, d);
    var ks := KidsOf(g, d, acts);
    e := Search(ks[0], true, alpha, beta, seen);
    assert Phi(g1, alpha, beta, d - 1).0 == e.value by {
      PhiIsSearch(g1, alpha, beta, d - 1, seen);
    }
    SearchKidsStep(ks, m, true, r, alpha, beta, nodes, leaves, seen, e);
  }

  /** At an ended game `Phi` returns the doubled outcome, and when the depth
      runs out on a running game it returns the doubled guess +-0.5. */
  lemma PhiLeaf(g: Game, alpha: Ext, beta: Ext, d: int)
    requires Valid(g) && (g.terminated || d == 0)
    ensures g.terminated ==> Phi(g, alpha, beta, d).0 == Fin(2 * Outcome(g.winner))
    ensures !g.terminated ==> (Phi(g, alpha, beta, d).0 == Fin(1) <==> g.player == 1)
    ensures !g.terminated ==> (Phi(g, alpha, beta, d).0 == Fin(-1) <==> g.player == -1)
  {
  }

  /** The fail-hard window property against the depth-limited minimax value
      `v`, and the value range: `Phi` returns one of 1, -1, 0, 0.5, -0.5
      (doubled: 2, -2, 0, 1, -1), as does `v`. */
  lemma PhiWindow(g: Game, alpha: Ext, beta: Ext, d: int)
    requires Valid(g) && Lt(alpha, beta)
    ensures Represents(Phi(g, alpha, beta, d).0, Minimax(TreeOf(g, d)), alpha, beta)
    ensures Among(Phi(g, alpha, beta, d).0, Values) && Among(Minimax(TreeOf(g, d)), Values)
  {
    PhiIsSearch(g, alpha, beta, d, map[]);
    Window(TreeOf(g, d), alpha, beta, map[]);
    TreeScored(g, d);
    SearchAmong(TreeOf(g, d), Values, true, alpha, beta, map[]);
    Unpruned(TreeOf(g, d), alpha, beta, map[]);
    SearchAmong(TreeOf(g, d), Values, false, alpha, beta, map[]);
  }

  /** From the infinite window `Phi` is plain depth-limited minimax with the
      same end scores and guesses. */
  lemma PhiExact(g: Game, d: int)
    requires Valid(g)
    ensures Phi(g, NegInf, PosInf, d).0 == Minimax(TreeOf(g, d))
  {
    PhiWindow(g, NegInf, PosInf, d);
  }

  /** The shuffled list holds exactly the legal columns. */
  lemma OrderLegal(g: Game, order: seq<int>)
    requires Valid(g)
    requires Permutes(order, LegalActions(g))
    ensures AllLegal(g, order)
    ensures forall b :: IsLegal(g, b) ==> b in order
    ensures |order| == |LegalActions(g)|
  {
    assert |multiset(order)| == |multiset(LegalActions(g))|;
    PermutesMembers(order, LegalActions(g));
    LegalActionsLegal(g);
  }

  /** What one turn of the `choice` loop learns about column `c`: the child
      is reachable, the search of depth `d - 1` in the window (alpha, beta)
      comes back to the game and stands for the child's value. */
  lemma ChildStep(g: Game, d: int, c: int, alpha: Ext, beta: Ext)
    requires Valid(g) && !g.terminated && IsLegal(g, c) && Lt(alpha, beta)
    ensures Valid(Execute(g, c)) && Undo(Execute(g, c), c) == g
    ensures Phi(Execute(g, c), alpha, beta, d - 1).1 == Execute(g, c)
    ensures Among(ChildValue(g, d, c), Values)
    ensures Represents(Phi(Execute(g, c), alpha, beta, d - 1).0, ChildValue(g, d, c), alpha, beta)
  {
    ExecuteValid(g, c);
    UndoExecute(g, c);
    PhiRestores(Execute(g, c), alpha, beta, d - 1);
    PhiWindow(Execute(g, c), alpha, beta, d - 1);
  }

  /** The body of the `choice` loop: execute `c`, search the child at depth
      `d - 1` in the window (alpha, beta), undo `c`. */
  method ChoiceTurn(g: Game, d: int, c: int, alpha: Ext, beta: Ext) returns (e: Ext, after: Game)
    requires Valid(g) && !g.terminated && IsLegal(g, c) && Lt(alpha, beta)
    ensures after == g
    ensures ChildValue(g, d, c).Fin?
    ensures Represents(e, ChildValue(g, d, c), alpha, beta)
  {
    ChildStep(g, d, c, alpha, beta);
    var game := Execute(g, c);
    var res := Phi(game, alpha, beta, d - 1);
    e := res.0;
    game := res.1;
    after := Undo(game, c);
  }

  /** The legal column `c` is the child at position `k` of the tree of depth `d`. */
  lemma ChildIsKid(g: Game, d: int, c: int) returns (k: int)
    requires Valid(g) && !g.terminated && IsLegal(g, c) && d != 0
    ensures 0 <= k < |LegalActions(g)| && LegalActions(g)[k] == c
    ensures ChildValue(g, d, c) == Minimax(KidsOf(g, d, LegalActions(g))[k])
  {
    LegalActionsLegal(g);
    var acts := LegalActions(g);
    k :| 0 <= k < |acts| && acts[k] == c;
    KidAt(g, d, acts, k);
  }

  /** The depth-`d` value of a running game is the best child value: no legal
      column does better for the mover, and some legal column attains it. */
  lemma ValueIsBestChild(g: Game, d: int) returns (b: int)
    requires Valid(g) && !g.terminated && d != 0
    ensures IsLegal(g, b) && ChildValue(g, d, b) == Minimax(TreeOf(g, d))
    ensures forall c :: IsLegal(g, c) ==> NoBetter(g.player == 1, ChildValue(g, d, c), Minimax(TreeOf(g, d)))
  {
    var m := g.player == 1;
    var acts := LegalActions(g);
    var ts := KidsOf(g, d, acts);
    RunningHasMove(g);
    BestBounds(m, ts);
    LegalActionsLegal(g);
    var j :| 0 <= j < |ts| && Minimax(ts[j]) == Best(m, ts);
    b := acts[j];
    KidAt(g, d, acts, j);
    forall c | IsLegal(g, c)
      ensures NoBetter(m, ChildValue(g, d, c), Minimax(TreeOf(g, d)))
    {
      var k := ChildIsKid(g, d, c);
    }
  }

  /** A column no legal column beats carries the game's depth-`d` value. */
  lemma ChoiceIsValue(g: Game, d: int, c: int)
    requires Valid(g) && !g.terminated && IsLegal(g, c) && d != 0
    requires forall b :: IsLegal(g, b) ==> NoBetter(g.player == 1, ChildValue(g, d, b), ChildValue(g, d, c))
    ensures ChildValue(g, d, c) == Minimax(TreeOf(g, d))
  {
    var b := ValueIsBestChild(g, d);
    assert NoBetter(g.player == 1, ChildValue(g, d, b), ChildValue(g, d, c));
  }

  /** If no value of the shuffled list beats `x`, no legal column does. */
  lemma NoneBetter(g: Game, d: int, order: seq<int>, vals: seq<Ext>, x: Ext)
    requires Valid(g) && !g.terminated
    requires Permutes(order, LegalActions(g))
    requires AllLegal(g, order) && |vals| == |order|
    requires forall j :: 0 <= j < |order| ==> vals[j] == ChildValue(g, d, order[j])
    requires forall j :: 0 <= j < |order| ==> NoBetter(g.player == 1, vals[j], x)
    ensures forall b :: IsLegal(g, b) ==> NoBetter(g.player == 1, ChildValue(g, d, b), x)
  {
    OrderLegal(g, order);
    forall b | IsLegal(g, b)
      ensures NoBetter(g.player == 1, ChildValue(g, d, b), x)
    {
      var j :| 0 <= j < |order| && order[j] == b;
    }
  }

  /** `PrunPlayer.choice` with search depth `depth` and the shuffled column
      list `order`: every legal column is searched to depth `depth - 1` with
      the window moved by the previous ones, the first column (in shuffled
      order) with the best value is kept, and the game is left as it was.
      The kept column is legal and optimal for the mover at that depth; with
      `depth - 1 == 0` (or an ended child) the values are the guesses and end
      scores of the children. At the root the unmoved bound stays infinite,
      so the `break` never fires. By `ChoiceIsValue` the kept column carries
      the depth-`depth` value of the game. */
  method Choice(g: Game, depth: int, order: seq<int>) returns (best: Option<int>, after: Game)
    requires Valid(g) && !g.terminated
    requires Permutes(order, LegalActions(g))
    ensures after == g
    ensures best.Some? && IsLegal(g, best.value)
    ensures forall b :: IsLegal(g, b) ==>
      NoBetter(g.player == 1, ChildValue(g, depth, b), ChildValue(g, depth, best.value))
  {
    var m := g.player == 1;
    OrderLegal(g, order);
    RunningHasMove(g);
    var alpha, beta := NegInf, PosInf;
    var r := Worst(m);
    best := None;
    var game := g;
    var i := 0;
    ghost var vals: seq<Ext> := [];
    while i < |order|
      invariant 0 <= i <= |order|
      invariant game == g
      invariant if m then alpha == r && beta == PosInf else beta == r && alpha == NegInf
      invariant i == 0 ==> r == Worst(m) && best == None
      invariant i > 0 ==> best.Some? && IsLegal(g, best.value) && r == ChildValue(g, depth, best.value) && r.Fin?
      invariant |vals| == i && forall j :: 0 <= j < i ==> vals[j] == ChildValue(g, depth, order[j])
      invariant forall j :: 0 <= j < i ==> NoBetter(m, vals[j], r)
    {
      var c := order[i];
      var e;
      e, game := ChoiceTurn(game, depth, c, alpha, beta);
      ghost var v := ChildValue(g, depth, c);
      BestUpdate(m, vals, r, e, v);
      vals := vals + [v];
      if Improves(m, e, r) {
        r := e;
        best := Some(c);
      }
      if m {
        alpha := Max(alpha, e);
      } else {
        beta := Min(beta, e);
      }
      assert !Le(beta, alpha);
      if Le(beta, alpha) {
        break;
      }
      i := i + 1;
    }
    after := game;
    NoneBetter(g, depth, order, vals, r);
  }
}
