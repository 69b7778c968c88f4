/** Game trees and the one search loop every player of the repository runs
    over them. A game engine unfolds into a `Tree` (see TicTacToeSearch and
    ConnectFourSearch); `Search` is the loop of game_tree_info.Phi, which with
    `prun` off is MinimaxPlayer.Phi and with `prun` on is PrunPlayer.Phi.
    `Minimax` is the textbook reference value the searches are proved against. */
module GameTree {
  import opened Common

  /** A position: a leaf carries its score, an inner node says whether its
      mover maximises. Every node carries the board it stands for. */
  datatype Tree =
    | Leaf(board: seq<int>, score: int)
    | Node(board: seq<int>, maximizing: bool, kids: seq<Tree>)

  /** What a traversal returns: the value, the number of visited nodes and
      leaves, and the table of values recorded per visited board. */
  datatype Visit = Visit(value: Ext, nodes: int, leaves: int, seen: map<seq<int>, Ext>)

  /** Exact minimax, as a right fold over the children. A node with no
      children keeps the neutral start, as the source's loops do. */
  function Minimax(t: Tree): Ext
    decreases t
  {
    match t
    case Leaf(_, s) => Fin(s)
    case Node(_, m, kids) => Best(m, kids)
  }

  function Best(m: bool, ts: seq<Tree>): Ext
    decreases ts
  {
    if ts == [] then Worst(m) else Pick(m, Minimax(ts[0]), Best(m, ts[1..]))
  }

  function Size(t: Tree): nat
    decreases t
  {
    match t
    case Leaf(_, _) => 1
    case Node(_, _, kids) => 1 + SizeAll(kids)
  }

  function SizeAll(ts: seq<Tree>): nat
    decreases ts
  {
    if ts == [] then 0 else Size(ts[0]) + SizeAll(ts[1..])
  }

  function LeafCount(t: Tree): nat
    decreases t
  {
    match t
    case Leaf(_, _) => 1
    case Node(_, _, kids) => LeafCountAll(kids)
  }

  function LeafCountAll(ts: seq<Tree>): nat
    decreases ts
  {
    if ts == [] then 0 else LeafCount(ts[0]) + LeafCountAll(ts[1..])
  }

  /** Every board standing in the tree. */
  function Labels(t: Tree): set<seq<int>>
    decreases t
  {
    match t
    case Leaf(l, _) => {l}
    case Node(l, _, kids) => {l} + LabelsAll(kids)
  }

  function LabelsAll(ts: seq<Tree>): set<seq<int>>
    decreases ts
  {
    if ts == [] then {} else Labels(ts[0]) + LabelsAll(ts[1..])
  }

  /** The traversal: at a leaf, record and return its score with counts (1, 1);
      at a node, run the children left to right, keeping the running best and
      summing their counts; with `prun`, the mover's window bound moves to the
      child value and the loop stops as soon as `alpha >= beta`. The node's
      value is recorded after its loop, and the node adds one to the count. */
  function Search(t: Tree, prun: bool, alpha: Ext, beta: Ext, seen: map<seq<int>, Ext>): Visit
    decreases t
  {
    match t
    case Leaf(l, s) => Visit(Fin(s), 1, 1, seen[l := Fin(s)])
    case Node(l, m, kids) =>
      var r := SearchKids(kids, m, prun, Worst(m), alpha, beta, 0, 0, seen);
      Visit(r.value, r.nodes + 1, r.leaves, r.seen[l := r.value])
  }

  function SearchKids(ts: seq<Tree>, m: bool, prun: bool, v: Ext, alpha: Ext, beta: Ext,
                      nodes: int, leaves: int, seen: map<seq<int>, Ext>): Visit
    decreases ts
  {
    if ts == [] then Visit(v, nodes, leaves, seen)
    else
      var e := Search(ts[0], prun, alpha, beta, seen);
      var v' := Pick(m, v, e.value);
      if !prun then
        SearchKids(ts[1..], m, prun, v', alpha, beta, nodes + e.nodes, leaves + e.leaves, e.seen)
      else
        var alpha' := if m then Max(alpha, e.value) else alpha;
        var beta' := if m then beta else Min(beta, e.value);
        if Le(beta', alpha') then Visit(v', nodes + e.nodes, leaves + e.leaves, e.seen)
        else SearchKids(ts[1..], m, prun, v', alpha', beta', nodes + e.nodes, leaves + e.leaves, e.seen)
  }

  /** One turn of the children loop, with the first child's visit `e` named. */
  lemma SearchKidsStep(ts: seq<Tree>, m: bool, prun: bool, v: Ext, alpha: Ext, beta: Ext,
                       nodes: int, leaves: int, seen: map<seq<int>, Ext>, e: Visit)
    requires ts != [] && e == Search(ts[0], prun, alpha, beta, seen)
    ensures var v' := Pick(m, v, e.value);
      var alpha' := if m then Max(alpha, e.value) else alpha;
      var beta' := if m then beta else Min(beta, e.value);
      SearchKids(ts, m, prun, v, alpha, beta, nodes, leaves, seen)
        == if !prun then SearchKids(ts[1..], m, prun, v', alpha, beta, nodes + e.nodes, leaves + e.leaves, e.seen)
           else if Le(beta', alpha') then Visit(v', nodes + e.nodes, leaves + e.leaves, e.seen)
           else SearchKids(ts[1..], m, prun, v', alpha', beta', nodes + e.nodes, leaves + e.leaves, e.seen)
  {
  }

  /** Without pruning the traversal computes exact minimax, visits every node
      and leaf once and records a value for every board of the tree. */
  lemma {:induction false} Unpruned(t: Tree, alpha: Ext, beta: Ext, seen: map<seq<int>, Ext>)
    ensures var r := Search(t, false, alpha, beta, seen);
      && r.value == Minimax(t)
      && r.nodes == Size(t)
      && r.leaves == LeafCount(t)
      && r.seen.Keys == seen.Keys + Labels(t)
    decreases t
  {
    match t
    case Leaf(_, _) =>
    case Node(l, m, kids) =>
      UnprunedKids(kids, m, Worst(m), alpha, beta, 0, 0, seen);
  }

  lemma {:induction false} UnprunedKids(ts: seq<Tree>, m: bool, v: Ext, alpha: Ext, beta: Ext,
                                        nodes: int, leaves: int, seen: map<seq<int>, Ext>)
    ensures var r := SearchKids(ts, m, false, v, alpha, beta, nodes, leaves, seen);
      && r.value == Pick(m, v, Best(m, ts))
      && r.nodes == nodes + SizeAll(ts)
      && r.leaves == leaves + LeafCountAll(ts)
      && r.seen.Keys == seen.Keys + LabelsAll(ts)
    decreases ts
  {
    if ts != [] {
      var e := Search(ts[0], false, alpha, beta, seen);
      Unpruned(ts[0], alpha, beta, seen);
      UnprunedKids(ts[1..], m, Pick(m, v, e.value), alpha, beta, nodes + e.nodes, leaves + e.leaves, e.seen);
      PickAssoc(m, v, e.value, Best(m, ts[1..]));
    }
  }

  /** Whatever the window, every recorded board is a board of the tree, the
      root's own board is recorded last with the returned value, and the
      traversal never visits more nodes or leaves than the tree has. */
  lemma {:induction false} Recorded(t: Tree, prun: bool, alpha: Ext, beta: Ext, seen: map<seq<int>, Ext>)
    ensures var r := Search(t, prun, alpha, beta, seen);
      && r.seen.Keys <= seen.Keys + Labels(t)
      && t.board in r.seen && r.seen[t.board] == r.value
      && r.nodes <= Size(t)
      && r.leaves <= LeafCount(t)
      && r.leaves <= r.nodes
      && (t.Node? ==> r.leaves < r.nodes)
    decreases t
  {
    match t
    case Leaf(_, _) =>
    case Node(l, m, kids) =>
      RecordedKids(kids, m, prun, Worst(m), alpha, beta, 0, 0, seen);
  }

  lemma {:induction false} RecordedKids(ts: seq<Tree>, m: bool, prun: bool, v: Ext, alpha: Ext, beta: Ext,
                                        nodes: int, leaves: int, seen: map<seq<int>, Ext>)
    requires leaves <= nodes
    ensures var r := SearchKids(ts, m, prun, v, alpha, beta, nodes, leaves, seen);
      && r.seen.Keys <= seen.Keys + LabelsAll(ts)
      && r.nodes <= nodes + SizeAll(ts)
      && r.leaves <= leaves + LeafCountAll(ts)
      && r.leaves - leaves <= r.nodes - nodes
    decreases ts
  {
    if ts != [] {
      var e := Search(ts[0], prun, alpha, beta, seen);
      Recorded(ts[0], prun, alpha, beta, seen);
      var v' := Pick(m, v, e.value);
      var alpha' := if prun && m then Max(alpha, e.value) else alpha;
      var beta' := if prun && !m then Min(beta, e.value) else beta;
      if prun && Le(beta', alpha') {
      } else {
        RecordedKids(ts[1..], m, prun, v', alpha', beta', nodes + e.nodes, leaves + e.leaves, e.seen);
      }
    }
  }

  /** The traversal's value and counts do not depend on the table it is
      handed: the table is only written, never read. */
  lemma {:induction false} TableBlind(t: Tree, prun: bool, alpha: Ext, beta: Ext,
                                      seen: map<seq<int>, Ext>, seen': map<seq<int>, Ext>)
    ensures var r := Search(t, prun, alpha, beta, seen);
      var r' := Search(t, prun, alpha, beta, seen');
      r.value == r'.value && r.nodes == r'.nodes && r.leaves == r'.leaves
    decreases t
  {
    match t
    case Leaf(_, _) =>
    case Node(l, m, kids) =>
      TableBlindKids(kids, m, prun, Worst(m), alpha, beta, 0, 0, seen, seen');
  }

  lemma {:induction false} TableBlindKids(ts: seq<Tree>, m: bool, prun: bool, v: Ext, alpha: Ext, beta: Ext,
                                          nodes: int, leaves: int,
                                          seen: map<seq<int>, Ext>, seen': map<seq<int>, Ext>)
    ensures var r := SearchKids(ts, m, prun, v, alpha, beta, nodes, leaves, seen);
      var r' := SearchKids(ts, m, prun, v, alpha, beta, nodes, leaves, seen');
      r.value == r'.value && r.nodes == r'.nodes && r.leaves == r'.leaves
    decreases ts
  {
    if ts != [] {
      var e := Search(ts[0], prun, alpha, beta, seen);
      var e' := Search(ts[0], prun, alpha, beta, seen');
      TableBlind(ts[0], prun, alpha, beta, seen, seen');
      SearchKidsStep(ts, m, prun, v, alpha, beta, nodes, leaves, seen, e);
      SearchKidsStep(ts, m, prun, v, alpha, beta, nodes, leaves, seen', e');
      var v' := Pick(m, v, e.value);
      var alpha' := if prun && m then Max(alpha, e.value) else alpha;
      var beta' := if prun && !m then Min(beta, e.value) else beta;
      if !(prun && Le(beta', alpha')) {
        TableBlindKids(ts[1..], m, prun, v', alpha', beta', nodes + e.nodes, leaves + e.leaves, e.seen, e'.seen);
      }
    }
  }

  /** The boards of the states a traversal visits: the root, then the
      children left to right until, with `prun`, the window closes after
      one of them; the children after that one are never entered. */
  function Reached(t: Tree, prun: bool, alpha: Ext, beta: Ext): set<seq<int>>
    decreases t
  {
    match t
    case Leaf(l, _) => {l}
    case Node(l, m, kids) => {l} + ReachedKids(kids, m, prun, alpha, beta)
  }

  function ReachedKids(ts: seq<Tree>, m: bool, prun: bool, alpha: Ext, beta: Ext): set<seq<int>>
    decreases ts
  {
    if ts == [] then {}
    else
      var e := Search(ts[0], prun, alpha, beta, map[]).value;
      var alpha' := if prun && m then Max(alpha, e) else alpha;
      var beta' := if prun && !m then Min(beta, e) else beta;
      Reached(ts[0], prun, alpha, beta)
        + if prun && Le(beta', alpha') then {} else ReachedKids(ts[1..], m, prun, alpha', beta')
  }

  /** The table gains exactly the boards of the visited states: nothing of
      a subtree that a cut left unsearched is written. */
  lemma {:induction false} Visited(t: Tree, prun: bool, alpha: Ext, beta: Ext, seen: map<seq<int>, Ext>)
    ensures Search(t, prun, alpha, beta, seen).seen.Keys == seen.Keys + Reached(t, prun, alpha, beta)
    decreases t
  {
    match t
    case Leaf(_, _) =>
    case Node(l, m, kids) =>
      VisitedKids(kids, m, prun, Worst(m), alpha, beta, 0, 0, seen);
  }

  lemma {:induction false} VisitedKids(ts: seq<Tree>, m: bool, prun: bool, v: Ext, alpha: Ext, beta: Ext,
                                       nodes: int, leaves: int, seen: map<seq<int>, Ext>)
    ensures SearchKids(ts, m, prun, v, alpha, beta, nodes, leaves, seen).seen.Keys
         == seen.Keys + ReachedKids(ts, m, prun, alpha, beta)
    decreases ts
  {
    if ts != [] {
      var e := Search(ts[0], prun, alpha, beta, seen);
      TableBlind(ts[0], prun, alpha, beta, seen, map[]);
      Visited(ts[0], prun, alpha, beta, seen);
      SearchKidsStep(ts, m, prun, v, alpha, beta, nodes, leaves, seen, e);
      ReachedKidsStep(ts, m, prun, alpha, beta, e.value);
      var v' := Pick(m, v, e.value);
      var alpha' := if prun && m then Max(alpha, e.value) else alpha;
      var beta' := if prun && !m then Min(beta, e.value) else beta;
      if !(prun && Le(beta', alpha')) {
        VisitedKids(ts[1..], m, prun, v', alpha', beta', nodes + e.nodes, leaves + e.leaves, e.seen);
      }
    }
  }

  /** One turn of `ReachedKids`, with the first child's value `e` named. */
  lemma ReachedKidsStep(ts: seq<Tree>, m: bool, prun: bool, alpha: Ext, beta: Ext, e: Ext)
    requires ts != [] && e == Search(ts[0], prun, alpha, beta, map[]).value
    ensures var alpha' := if prun && m then Max(alpha, e) else alpha;
      var beta' := if prun && !m then Min(beta, e) else beta;
      ReachedKids(ts, m, prun, alpha, beta)
        == Reached(ts[0], prun, alpha, beta)
           + if prun && Le(beta', alpha') then {} else ReachedKids(ts[1..], m, prun, alpha', beta')
  {
  }

  /** The visited boards are boards of the tree, there are no more of them
      than visited nodes, and without pruning every board is visited. */
  lemma ReachedBounds(t: Tree, prun: bool, alpha: Ext, beta: Ext)
    ensures Reached(t, prun, alpha, beta) <= Labels(t)
    ensures |Reached(t, prun, alpha, beta)| <= Search(t, prun, alpha, beta, map[]).nodes
    ensures !prun ==> Reached(t, prun, alpha, beta) == Labels(t)
  {
    ReachedLabels(t, prun, alpha, beta);
    ReachedCount(t, prun, alpha, beta);
  }

  lemma {:induction false} ReachedLabels(t: Tree, prun: bool, alpha: Ext, beta: Ext)
    ensures Reached(t, prun, alpha, beta) <= Labels(t)
    ensures !prun ==> Reached(t, prun, alpha, beta) == Labels(t)
    decreases t
  {
    match t
    case Leaf(_, _) =>
    case Node(l, m, kids) =>
      ReachedKidsLabels(kids, m, prun, alpha, beta);
  }

  lemma {:induction false} ReachedKidsLabels(ts: seq<Tree>, m: bool, prun: bool, alpha: Ext, beta: Ext)
    ensures ReachedKids(ts, m, prun, alpha, beta) <= LabelsAll(ts)
    ensures !prun ==> ReachedKids(ts, m, prun, alpha, beta) == LabelsAll(ts)
    decreases ts
  {
    if ts != [] {
      var e := Search(ts[0], prun, alpha, beta, map[]).value;
      ReachedLabels(ts[0], prun, alpha, beta);
      ReachedKidsStep(ts, m, prun, alpha, beta, e);
      var alpha' := if prun && m then Max(alpha, e) else alpha;
      var beta' := if prun && !m then Min(beta, e) else beta;
      if !(prun && Le(beta', alpha')) {
        ReachedKidsLabels(ts[1..], m, prun, alpha', beta');
      }
    }
  }

  lemma {:induction false} ReachedCount(t: Tree, prun: bool, alpha: Ext, beta: Ext)
    ensures |Reached(t, prun, alpha, beta)| <= Search(t, prun, alpha, beta, map[]).nodes
    decreases t
  {
    match t
    case Leaf(_, _) =>
    case Node(l, m, kids) =>
      ReachedKidsCount(kids, m, prun, Worst(m), alpha, beta, 0, 0);
  }

  lemma {:induction false} ReachedKidsCount(ts: seq<Tree>, m: bool, prun: bool, v: Ext, alpha: Ext, beta: Ext,
                                            nodes: int, leaves: int)
    ensures |ReachedKids(ts, m, prun, alpha, beta)|
         <= SearchKids(ts, m, prun, v, alpha, beta, nodes, leaves, map[]).nodes - nodes
    decreases ts
  {
    if ts != [] {
      var e := Search(ts[0], prun, alpha, beta, map[]);
      ReachedCount(ts[0], prun, alpha, beta);
      SearchKidsStep(ts, m, prun, v, alpha, beta, nodes, leaves, map[], e);
      ReachedKidsStep(ts, m, prun, alpha, beta, e.value);
      var v' := Pick(m, v, e.value);
      var alpha' := if prun && m then Max(alpha, e.value) else alpha;
      var beta' := if prun && !m then Min(beta, e.value) else beta;
      if !(prun && Le(beta', alpha')) {
        var here := Reached(ts[0], prun, alpha, beta);
        var rest := ReachedKids(ts[1..], m, prun, alpha', beta');
        ReachedKidsCount(ts[1..], m, prun, v', alpha', beta', nodes + e.nodes, leaves + e.leaves);
        TableBlindKids(ts[1..], m, prun, v', alpha', beta', nodes + e.nodes, leaves + e.leaves, e.seen, map[]);
        assert |here + rest| <= |here| + |rest|;
      }
    }
  }

  /** A cut leaves a board of the tree unrecorded: at a maximising root with
      beta = 1, the first leaf scoring 1 closes the window and the second
      leaf is never entered. */
  lemma PrunedSkips()
    ensures var t := Node([0], true, [Leaf([1], 1), Leaf([2], 0)]);
      && [2] in Labels(t)
      && Reached(t, true, NegInf, Fin(1)) == {[0], [1]}
      && [2] !in Search(t, true, NegInf, Fin(1), map[]).seen
  {
  }

  /** How a fail-hard result `r` stands for the true value `v` in the window
      (alpha, beta): exact inside it, on the correct side outside it. */
  predicate Represents(r: Ext, v: Ext, alpha: Ext, beta: Ext) {
    && (Le(v, alpha) ==> Le(r, alpha))
    && (Lt(alpha, v) && Lt(v, beta) ==> r == v)
    && (Le(beta, v) ==> Le(beta, r))
  }

  /** The window lemma for pruned search: if minimax lies strictly inside the
      window the result equals it, if it is at most alpha so is the result,
      and if it is at least beta so is the result. */
  lemma {:induction false} Window(t: Tree, alpha: Ext, beta: Ext, seen: map<seq<int>, Ext>)
    requires Lt(alpha, beta)
    ensures Represents(Search(t, true, alpha, beta, seen).value, Minimax(t), alpha, beta)
    decreases t
  {
    match t
    case Leaf(_, _) =>
    case Node(l, m, kids) =>
      if m {
        WindowMax(kids, NegInf, alpha, alpha, beta, 0, 0, seen, NegInf);
      } else {
        WindowMin(kids, PosInf, beta, alpha, beta, 0, 0, seen, PosInf);
      }
  }

  lemma StepMax(v: Ext, mp: Ext, e: Ext, w: Ext, alpha: Ext, beta: Ext)
    requires Lt(alpha, beta) && Lt(Max(alpha, v), beta)
    requires Represents(v, mp, alpha, beta)
    requires Represents(e, w, Max(alpha, v), beta)
    ensures Represents(Max(v, e), Max(mp, w), alpha, beta)
  {
  }

  lemma StepMin(v: Ext, mp: Ext, e: Ext, w: Ext, alpha: Ext, beta: Ext)
    requires Lt(alpha, beta) && Lt(alpha, Min(beta, v))
    requires Represents(v, mp, alpha, beta)
    requires Represents(e, w, alpha, Min(beta, v))
    ensures Represents(Min(v, e), Min(mp, w), alpha, beta)
  {
  }

  /** A cut at a maximising node: the running result has reached beta, so
      it stands for the best value whatever the children left unsearched hold. */
  lemma CutMax(v: Ext, mp: Ext, rest: Ext, alpha: Ext, beta: Ext)
    requires Lt(alpha, beta) && Le(beta, v)
    requires Represents(v, mp, alpha, beta)
    ensures Represents(v, Max(mp, rest), alpha, beta)
  {
  }

  lemma CutMin(v: Ext, mp: Ext, rest: Ext, alpha: Ext, beta: Ext)
    requires Lt(alpha, beta) && Le(v, alpha)
    requires Represents(v, mp, alpha, beta)
    ensures Represents(v, Min(mp, rest), alpha, beta)
  {
  }

  /** The maximising loop: `v` is the running result standing for the best
      value `mp` of the children already seen, and `a` is the moved alpha. */
  lemma {:induction false} WindowMax(ts: seq<Tree>, v: Ext, a: Ext, alpha: Ext, beta: Ext,
                                     nodes: int, leaves: int, seen: map<seq<int>, Ext>, mp: Ext)
    requires Lt(alpha, beta) && a == Max(alpha, v) && Lt(a, beta)
    requires Represents(v, mp, alpha, beta)
    ensures Represents(SearchKids(ts, true, true, v, a, beta, nodes, leaves, seen).value,
                       Max(mp, Best(true, ts)), alpha, beta)
    decreases ts
  {
    if ts == [] {
      assert Max(mp, Worst(true)) == mp;
    } else {
      var e := Search(ts[0], true, a, beta, seen);
      var w := Minimax(ts[0]);
      Window(ts[0], a, beta, seen);
      StepMax(v, mp, e.value, w, alpha, beta);
      var v' := Max(v, e.value);
      var a' := Max(a, e.value);
      assert a' == Max(alpha, v') by { PickAssoc(true, alpha, v, e.value); }
      PickAssoc(true, mp, w, Best(true, ts[1..]));
      SearchKidsStep(ts, true, true, v, a, beta, nodes, leaves, seen, e);
      if Le(beta, a') {
        CutMax(v', Max(mp, w), Best(true, ts[1..]), alpha, beta);
      } else {
        WindowMax(ts[1..], v', a', alpha, beta, nodes + e.nodes, leaves + e.leaves, e.seen, Max(mp, w));
      }
    }
  }

  lemma {:induction false} WindowMin(ts: seq<Tree>, v: Ext, b: Ext, alpha: Ext, beta: Ext,
                                     nodes: int, leaves: int, seen: map<seq<int>, Ext>, mp: Ext)
    requires Lt(alpha, beta) && b == Min(beta, v) && Lt(alpha, b)
    requires Represents(v, mp, alpha, beta)
    ensures Represents(SearchKids(ts, false, true, v, alpha, b, nodes, leaves, seen).value,
                       Min(mp, Best(false, ts)), alpha, beta)
    decreases ts
  {
    if ts == [] {
      assert Min(mp, Worst(false)) == mp;
    } else {
      var e := Search(ts[0], true, alpha, b, seen);
      var w := Minimax(ts[0]);
      Window(ts[0], alpha, b, seen);
      StepMin(v, mp, e.value, w, alpha, beta);
      var v' := Min(v, e.value);
      var b' := Min(b, e.value);
      assert b' == Min(beta, v') by { PickAssoc(false, beta, v, e.value); }
      PickAssoc(false, mp, w, Best(false, ts[1..]));
      SearchKidsStep(ts, false, true, v, alpha, b, nodes, leaves, seen, e);
      if Le(b', alpha) {
        CutMin(v', Min(mp, w), Best(false, ts[1..]), alpha, beta);
      } else {
        WindowMin(ts[1..], v', b', alpha, beta, nodes + e.nodes, leaves + e.leaves, e.seen, Min(mp, w));
      }
    }
  }

  /** From the full window pruned search returns exact minimax. */
  lemma FullWindow(t: Tree, seen: map<seq<int>, Ext>)
    ensures Search(t, true, NegInf, PosInf, seen).value == Minimax(t)
  {
    Window(t, NegInf, PosInf, seen);
  }

  /** Pruned and unpruned traversals agree on the value from the full window,
      and the pruned one visits no more nodes and no more leaves. */
  lemma PrunedVersusFull(t: Tree, seen: map<seq<int>, Ext>)
    ensures var p := Search(t, true, NegInf, PosInf, seen);
      var f := Search(t, false, NegInf, PosInf, seen);
      p.value == f.value && p.nodes <= f.nodes && p.leaves <= f.leaves
  {
    FullWindow(t, seen);
    Unpruned(t, NegInf, PosInf, seen);
    Recorded(t, true, NegInf, PosInf, seen);
  }

  /** Every leaf score lies in `scores` and no inner node is childless. */
  predicate Scored(t: Tree, scores: set<int>)
    decreases t
  {
    match t
    case Leaf(_, s) => s in scores
    case Node(_, _, kids) => |kids| > 0 && forall k :: k in kids ==> Scored(k, scores)
  }

  predicate Among(v: Ext, scores: set<int>) {
    v.Fin? && v.n in scores
  }

  /** On such a tree every traversal, pruned or not, returns a finite leaf
      score, and so does minimax. */
  lemma {:induction false} SearchAmong(t: Tree, scores: set<int>, prun: bool, alpha: Ext, beta: Ext,
                                       seen: map<seq<int>, Ext>)
    requires Scored(t, scores)
    ensures Among(Search(t, prun, alpha, beta, seen).value, scores)
    ensures Among(Minimax(t), scores)
    decreases t
  {
    match t
    case Leaf(_, _) =>
    case Node(l, m, kids) =>
      SearchKidsAmong(kids, m, scores, prun, Worst(m), alpha, beta, 0, 0, seen);
  }

  lemma {:induction false} SearchKidsAmong(ts: seq<Tree>, m: bool, scores: set<int>, prun: bool, v: Ext,
                                           alpha: Ext, beta: Ext, nodes: int, leaves: int,
                                           seen: map<seq<int>, Ext>)
    requires forall k :: k in ts ==> Scored(k, scores)
    requires Among(v, scores) || (v == Worst(m) && |ts| > 0)
    ensures Among(SearchKids(ts, m, prun, v, alpha, beta, nodes, leaves, seen).value, scores)
    ensures |ts| > 0 ==> Among(Best(m, ts), scores)
    decreases ts
  {
    if ts != [] {
      var e := Search(ts[0], prun, alpha, beta, seen);
      SearchAmong(ts[0], scores, prun, alpha, beta, seen);
      var v' := Pick(m, v, e.value);
      var alpha' := if prun && m then Max(alpha, e.value) else alpha;
      var beta' := if prun && !m then Min(beta, e.value) else beta;
      if prun && Le(beta', alpha') {
      } else {
        SearchKidsAmong(ts[1..], m, scores, prun, v', alpha', beta', nodes + e.nodes, leaves + e.leaves, e.seen);
      }
      if |ts| > 1 {
        SearchKidsAmong(ts[1..], m, scores, prun, Worst(m), alpha, beta, 0, 0, seen);
      }
    }
  }

  /** Minimax of a node bounds every child's and is attained by one of them. */
  lemma {:induction false} BestBounds(m: bool, ts: seq<Tree>)
    requires |ts| > 0
    ensures forall i :: 0 <= i < |ts| ==> (if m then Le(Minimax(ts[i]), Best(m, ts)) else Le(Best(m, ts), Minimax(ts[i])))
    ensures exists i :: 0 <= i < |ts| && Minimax(ts[i]) == Best(m, ts)
    decreases ts
  {
    if |ts| > 1 {
      BestBounds(m, ts[1..]);
      var j :| 0 <= j < |ts[1..]| && Minimax(ts[1..][j]) == Best(m, ts[1..]);
      if Best(m, ts) == Minimax(ts[0]) {
      } else {
        assert Minimax(ts[j + 1]) == Best(m, ts);
      }
      forall i | 0 <= i < |ts|
        ensures if m then Le(Minimax(ts[i]), Best(m, ts)) else Le(Best(m, ts), Minimax(ts[i]))
      {
        if i > 0 {
          assert ts[i] == ts[1..][i - 1];
        }
      }
    } else {
      assert Best(m, ts) == Pick(m, Minimax(ts[0]), Worst(m));
    }
  }

  /** After the value `e`, the mover's bound has crossed the other one. */
  predicate Cuts(m: bool, alpha: Ext, beta: Ext, e: Ext) {
    if m then Le(beta, Max(alpha, e)) else Le(Min(beta, e), alpha)
  }

  /** Does `e` beat the running best `r` for this mover (`e > r` / `e < r`)? */
  predicate Improves(m: bool, e: Ext, r: Ext) {
    if m then Lt(r, e) else Lt(e, r)
  }

  /** `x` is no better than `r` for this mover. */
  predicate NoBetter(m: bool, x: Ext, r: Ext) {
    if m then Le(x, r) else Le(r, x)
  }

  /** One turn of a `choice` loop, on values alone. `vals` are the values of
      the moves already tried, none better than the running best `r`; the new
      move has value `v` and the search returned `e`, which stands for `v` in
      the window the root keeps open ((r, +inf) for player 1, (-inf, r) for
      player -1). Keeping `e` exactly when it improves on `r` keeps `r` the
      best value so far, and an improving `e` is the move's true value. */
  lemma BestUpdate(m: bool, vals: seq<Ext>, r: Ext, e: Ext, v: Ext)
    requires v.Fin?
    requires r == Worst(m) || r.Fin?
    requires forall j :: 0 <= j < |vals| ==> NoBetter(m, vals[j], r)
    requires if m then Represents(e, v, r, PosInf) else Represents(e, v, NegInf, r)
    ensures Improves(m, e, r) ==> e == v
    ensures r == Worst(m) ==> Improves(m, e, r)
    ensures var r' := if Improves(m, e, r) then e else r;
      forall j :: 0 <= j < |vals| + 1 ==> NoBetter(m, (vals + [v])[j], r')
  {
  }
}
