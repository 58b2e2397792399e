/** The game tree the engine searches, and the depth-bounded minimax value and
    move it is proved to compute. A leaf is scored by the material heuristic
    times the clear-thought noise factor, whose random draw is an oracle of
    the search: one draw per node. */
module GameTree {
  import opened Primitives
  import opened Board
  import opened ApplyRules
  import opened AIDefinitions

  /** A search node: the board, the player to move, the remaining depth, and
      the move that led here (None at the root). */
  datatype Node = Node(board: Cells, turn: Color, depth: nat, move: Option<Move>)

  /** The noise a profile scores with: its clear-thought level and, for each
      node scored by the heuristic, the draw in [0, 1) that the random number
      generator yields there. */
  datatype Noise = Noise(clearThought: real, draw: Node -> real)

  /** The score of a leaf: the material balance times the noise factor. */
  function LeafValue(n: Node, player: Color, nz: Noise): real
  {
    (Material(n.board, player) as real) * Factor(nz.clearThought, nz.draw(n))
  }

  /** The noise does not favour either side: a leaf scores for the opponent
      the negation of what it scores for `player`. */
  lemma LeafValueNegated(n: Node, player: Color, nz: Noise)
    ensures LeafValue(n, Opposite(player), nz) == -LeafValue(n, player, nz)
  {
    MaterialAntisymmetric(n.board, player);
    ScaleNegated(Material(n.board, player), Factor(nz.clearThought, nz.draw(n)));
  }

  /** The result of a search: a score and the move that achieves it. */
  datatype Outcome = Outcome(value: real, move: Option<Move>)

  /** The node reached from `n` by its legal move `m`. */
  function Child(n: Node, m: Move): (c: Node)
    requires UniqueIndices(n.board) && n.depth > 0 && m in PossibleMoves(n.board, n.turn)
    ensures UniqueIndices(c.board)
  {
    MoveApplies(n.board, n.turn, m);
    Node(ApplyMove(n.board, m).value, Opposite(n.turn), n.depth - 1, Some(m))
  }

  /** The children of a node, one per legal move of the player to move, in the
      order the moves are generated; none at depth 0. */
  function ChildNodes(n: Node): (cs: seq<Node>)
    requires UniqueIndices(n.board)
    ensures n.depth == 0 ==> cs == []
    ensures n.depth > 0 ==> |cs| == |PossibleMoves(n.board, n.turn)|
    ensures forall i :: 0 <= i < |cs| ==>
      cs[i].move == Some(PossibleMoves(n.board, n.turn)[i]) &&
      cs[i].turn == Opposite(n.turn) && cs[i].depth == n.depth - 1 &&
      UniqueIndices(cs[i].board)
  {
    if n.depth == 0 then []
    else
      var ms := PossibleMoves(n.board, n.turn);
      seq(|ms|, i requires 0 <= i < |ms| => Child(n, ms[i]))
  }

  /** Child `i` is the board after the `i`-th legal move. */
  lemma ChildNodeAt(n: Node, i: int)
    requires UniqueIndices(n.board) && 0 <= i < |ChildNodes(n)|
    ensures var m := PossibleMoves(n.board, n.turn)[i];
      |m.steps| > 0 && IsValidPosition(m.steps[|m.steps| - 1]) &&
      ApplyMove(n.board, m) == Some(ChildNodes(n)[i].board)
  {
    MoveApplies(n.board, n.turn, PossibleMoves(n.board, n.turn)[i]);
  }

  /** A node the search scores by the heuristic: no depth left or no move. */
  predicate IsLeaf(n: Node)
    requires UniqueIndices(n.board)
  {
    n.depth == 0 || |ChildNodes(n)| == 0
  }

  // ---------------------------------------------------------------------------
  // Scanning a list of scores with strict comparisons

  /** The first index holding the greatest score: the one a left-to-right scan
      that only replaces on a strictly greater score keeps. */
  function FirstMax(vs: seq<real>): (k: int)
    requires |vs| > 0
    ensures 0 <= k < |vs|
    ensures forall i :: 0 <= i < |vs| ==> vs[i] <= vs[k]
    ensures forall i :: 0 <= i < k ==> vs[i] < vs[k]
  {
    if |vs| == 1 then 0
    else
      var k := FirstMax(vs[..|vs| - 1]);
      if vs[|vs| - 1] > vs[k] then |vs| - 1 else k
  }

  /** The first index holding the least score. */
  function FirstMin(vs: seq<real>): (k: int)
    requires |vs| > 0
    ensures 0 <= k < |vs|
    ensures forall i :: 0 <= i < |vs| ==> vs[k] <= vs[i]
    ensures forall i :: 0 <= i < k ==> vs[k] < vs[i]
  {
    if |vs| == 1 then 0
    else
      var k := FirstMin(vs[..|vs| - 1]);
      if vs[|vs| - 1] < vs[k] then |vs| - 1 else k
  }

  function Negated(vs: seq<real>): (ws: seq<real>)
    ensures |ws| == |vs| && forall i :: 0 <= i < |vs| ==> ws[i] == -vs[i]
  {
    seq(|vs|, i requires 0 <= i < |vs| => -vs[i])
  }

  /** The first greatest of the negated scores sits where the first least of
      the scores does, and the other way round. */
  lemma FirstOfNegated(vs: seq<real>)
    requires |vs| > 0
    ensures FirstMax(Negated(vs)) == FirstMin(vs)
    ensures FirstMin(Negated(vs)) == FirstMax(vs)
  {
    FirstMaxUnique(Negated(vs), FirstMin(vs));
    FirstMinUnique(Negated(vs), FirstMax(vs));
  }

  // ---------------------------------------------------------------------------
  // Minimax

  /** The minimax values of the children of an inner node, for `player`. */
  function ChildValues(n: Node, player: Color, nz: Noise): (vs: seq<real>)
    requires UniqueIndices(n.board)
    ensures |vs| == |ChildNodes(n)|
    decreases n.depth, 0
  {
    var cs := ChildNodes(n);
    seq(|cs|, i requires 0 <= i < |cs| => Minimax(cs[i], player, nz))
  }

  /** The value of `n` for `player`: the noisy material balance at a leaf; otherwise
      the greatest child value when `player` is to move and the least when the
      opponent is. */
  function Minimax(n: Node, player: Color, nz: Noise): real
    requires UniqueIndices(n.board)
    decreases n.depth, 1
  {
    if IsLeaf(n) then LeafValue(n, player, nz)
    else
      var vs := ChildValues(n, player, nz);
      if n.turn == player then vs[FirstMax(vs)] else vs[FirstMin(vs)]
  }

  /** The index of the child the search picks: the first best one. */
  function BestIndex(n: Node, player: Color, nz: Noise): (k: int)
    requires UniqueIndices(n.board) && !IsLeaf(n)
    ensures 0 <= k < |ChildNodes(n)|
  {
    var vs := ChildValues(n, player, nz);
    if n.turn == player then FirstMax(vs) else FirstMin(vs)
  }

  /** The move the search returns: at a leaf, the move that led there;
      otherwise the move of the first best child. */
  function BestMove(n: Node, player: Color, nz: Noise): Option<Move>
    requires UniqueIndices(n.board)
  {
    if IsLeaf(n) then n.move else ChildNodes(n)[BestIndex(n, player, nz)].move
  }

  function Search(n: Node, player: Color, nz: Noise): Outcome
    requires UniqueIndices(n.board)
  {
    Outcome(Minimax(n, player, nz), BestMove(n, player, nz))
  }

  // ---------------------------------------------------------------------------
  // What the search promises

  /** At an inner node the chosen child achieves the node's value, no child
      is better for the side to move, and every earlier child is strictly worse. */
  lemma BestChildIsOptimal(n: Node, player: Color, nz: Noise)
    requires UniqueIndices(n.board) && !IsLeaf(n)
    ensures var cs, k := ChildNodes(n), BestIndex(n, player, nz);
      Minimax(cs[k], player, nz) == Minimax(n, player, nz) &&
      (n.turn == player ==> forall i :: 0 <= i < |cs| ==> Minimax(cs[i], player, nz) <= Minimax(n, player, nz)) &&
      (n.turn == player ==> forall i :: 0 <= i < k ==> Minimax(cs[i], player, nz) < Minimax(n, player, nz)) &&
      (n.turn != player ==> forall i :: 0 <= i < |cs| ==> Minimax(cs[i], player, nz) >= Minimax(n, player, nz)) &&
      (n.turn != player ==> forall i :: 0 <= i < k ==> Minimax(cs[i], player, nz) > Minimax(n, player, nz))
  {
    var vs := ChildValues(n, player, nz);
    assert forall i :: 0 <= i < |vs| ==> vs[i] == Minimax(ChildNodes(n)[i], player, nz);
  }

  /** At an inner node the returned move is one of the legal moves of the
      player to move. */
  lemma BestMoveIsLegal(n: Node, player: Color, nz: Noise)
    requires UniqueIndices(n.board) && !IsLeaf(n)
    ensures BestMove(n, player, nz).Some?
    ensures BestMove(n, player, nz).value in PossibleMoves(n.board, n.turn)
  {
    var k := BestIndex(n, player, nz);
    assert ChildNodes(n)[k].move == Some(PossibleMoves(n.board, n.turn)[k]);
  }

  /** From the root, whose node carries no move, the search returns no move
      exactly when there is no depth to search or no legal move, and otherwise
      a legal move of the player to move. */
  lemma RootMove(n: Node, player: Color, nz: Noise)
    requires UniqueIndices(n.board) && n.move == None
    ensures BestMove(n, player, nz).None? <==> n.depth == 0 || |PossibleMoves(n.board, n.turn)| == 0
    ensures BestMove(n, player, nz).Some? ==> BestMove(n, player, nz).value in PossibleMoves(n.board, n.turn)
  {
    if !IsLeaf(n) {
      BestMoveIsLegal(n, player, nz);
    }
  }

  /** The search is zero-sum: scored for the opponent, every value is negated. */
  lemma {:induction false} ZeroSum(n: Node, player: Color, nz: Noise)
    requires UniqueIndices(n.board)
    ensures Minimax(n, Opposite(player), nz) == -Minimax(n, player, nz)
    decreases n.depth, 1
  {
    if IsLeaf(n) {
      LeafValueNegated(n, player, nz);
    } else {
      var vs, ws := ChildValues(n, player, nz), ChildValues(n, Opposite(player), nz);
      ChildValuesNegated(n, player, nz);
      FirstOfNegated(vs);
      if n.turn == player {
        assert Minimax(n, Opposite(player), nz) == ws[FirstMin(ws)];
      } else {
        assert n.turn == Opposite(player);
        assert Minimax(n, Opposite(player), nz) == ws[FirstMax(ws)];
      }
    }
  }

  /** The children's values for the opponent are the negated values for
      `player`. */
  lemma {:induction false} ChildValuesNegated(n: Node, player: Color, nz: Noise)
    requires UniqueIndices(n.board)
    ensures ChildValues(n, Opposite(player), nz) == Negated(ChildValues(n, player, nz))
    decreases n.depth, 0
  {
    var cs := ChildNodes(n);
    var vs, ws := ChildValues(n, player, nz), ChildValues(n, Opposite(player), nz);
    forall i | 0 <= i < |cs|
      ensures ws[i] == -vs[i]
    {
      ZeroSum(cs[i], player, nz);
    }
    assert ws == Negated(vs);
  }

  /** Both players' perspectives pick the same move. */
  lemma SameMoveForBoth(n: Node, player: Color, nz: Noise)
    requires UniqueIndices(n.board)
    ensures BestMove(n, Opposite(player), nz) == BestMove(n, player, nz)
  {
    if !IsLeaf(n) {
      ChildValuesNegated(n, player, nz);
      FirstOfNegated(ChildValues(n, player, nz));
      OppositeInvolutive(player);
    }
  }

  /** With full clear thought the noise factor is 1: every leaf scores its
      material balance, and the value and the move of the search do not depend
      on the draws. */
  lemma {:induction false} ClearSearchIgnoresDraws(n: Node, player: Color, nz: Noise, nz': Noise)
    requires UniqueIndices(n.board) && nz.clearThought == 1.0 && nz'.clearThought == 1.0
    ensures IsLeaf(n) ==> Minimax(n, player, nz) == Material(n.board, player) as real
    ensures Search(n, player, nz) == Search(n, player, nz')
    decreases n.depth
  {
    if !IsLeaf(n) {
      var cs := ChildNodes(n);
      forall i | 0 <= i < |cs|
        ensures Minimax(cs[i], player, nz) == Minimax(cs[i], player, nz')
      {
        ClearSearchIgnoresDraws(cs[i], player, nz, nz');
      }
      assert ChildValues(n, player, nz) == ChildValues(n, player, nz');
    }
  }

  // ---------------------------------------------------------------------------
  // Search windows

  /** A score or one of the two infinities that open a search window. */
  datatype Ext = NegInf | Fin(n: real) | PosInf

  predicate Le(a: Ext, b: Ext)
  {
    a == NegInf || b == PosInf || (a.Fin? && b.Fin? && a.n <= b.n)
  }

  predicate Lt(a: Ext, b: Ext)
  {
    Le(a, b) && a != b
  }

  function MaxE(a: Ext, b: Ext): (r: Ext)
    ensures Le(a, r) && Le(b, r) && (r == a || r == b)
  {
    if Le(a, b) then b else a
  }

  function MinE(a: Ext, b: Ext): (r: Ext)
    ensures Le(r, a) && Le(r, b) && (r == a || r == b)
  {
    if Le(a, b) then a else b
  }

  /** What a fail-soft search with window (alpha, beta) promises about its
      score `r` of a node whose true value is `v`: exact inside the window, an
      upper bound at or below alpha, a lower bound at or above beta. */
  predicate FailSoft(r: real, v: real, alpha: Ext, beta: Ext)
  {
    (Lt(alpha, Fin(r)) && Lt(Fin(r), beta) ==> r == v) &&
    (Le(Fin(r), alpha) ==> v <= r) &&
    (Le(beta, Fin(r)) ==> r <= v)
  }

  /** With the full window a fail-soft score is the true value. */
  lemma FailSoftFullWindow(r: real, v: real)
    requires FailSoft(r, v, NegInf, PosInf)
    ensures r == v
  {
  }

  /** A fail-soft score lies on the same side of the window as the true value. */
  lemma FailSoftSides(r: real, v: real, alpha: Ext, beta: Ext)
    requires Lt(alpha, beta) && FailSoft(r, v, alpha, beta)
    ensures Le(Fin(v), alpha) <==> Le(Fin(r), alpha)
    ensures Le(beta, Fin(v)) <==> Le(beta, Fin(r))
  {
  }

  // ---------------------------------------------------------------------------
  // The loops of the pruning search, stated on the child values alone

  /** `b` is the first greatest of `vs`, so it is the index `FirstMax` picks. */
  lemma FirstMaxUnique(vs: seq<real>, b: int)
    requires 0 <= b < |vs| && forall j :: 0 <= j < |vs| ==> vs[j] <= vs[b]
    requires forall j :: 0 <= j < b ==> vs[j] < vs[b]
    ensures FirstMax(vs) == b
  {
  }

  /** `b` is the first least of `vs`, so it is the index `FirstMin` picks. */
  lemma FirstMinUnique(vs: seq<real>, b: int)
    requires 0 <= b < |vs| && forall j :: 0 <= j < |vs| ==> vs[b] <= vs[j]
    requires forall j :: 0 <= j < b ==> vs[b] < vs[j]
    ensures FirstMin(vs) == b
  {
  }

  /** The state of a maximising scan after the first `k` children, whose true
      values are `vs`: `value` is the best returned score so far (NegInf before
      the first child), `best` the child it came from. Every child seen is worth
      at most `value`, and above the original `alpha0` the value is exact and
      `best` is the first child worth it. */
  ghost predicate MaxScan(vs: seq<real>, k: int, alpha0: Ext, value: Ext, best: int)
  {
    0 <= k <= |vs| &&
    (k == 0 <==> value == NegInf) &&
    (k > 0 ==>
       value.Fin? && 0 <= best < k &&
       (forall j :: 0 <= j < k ==> vs[j] <= value.n) &&
       (Lt(alpha0, value) ==> value.n == vs[best] && forall j :: 0 <= j < best ==> vs[j] < value.n))
  }

  /** One child of a maximising scan: its score `r` is fail-soft for the window
      (max(alpha0, value), beta), and the value is replaced only when `r` is
      strictly greater. Either the scan carries on, or the new alpha reaches beta
      and the value is a fail-soft score of the node. */
  lemma MaxScanStep(vs: seq<real>, k: int, alpha0: Ext, beta: Ext, value: Ext, best: int, r: real)
    requires MaxScan(vs, k, alpha0, value, best) && k < |vs|
    requires Lt(MaxE(alpha0, value), beta) && FailSoft(r, vs[k], MaxE(alpha0, value), beta)
    ensures var value', best' := (if Lt(value, Fin(r)) then Fin(r) else value), (if Lt(value, Fin(r)) then k else best);
      MaxE(MaxE(alpha0, value), value') == MaxE(alpha0, value') &&
      (Lt(MaxE(alpha0, value'), beta) ==> MaxScan(vs, k + 1, alpha0, value', best')) &&
      (Le(beta, MaxE(alpha0, value')) ==>
        value'.Fin? && FailSoft(value'.n, vs[FirstMax(vs)], alpha0, beta) && !(alpha0 == NegInf && beta == PosInf))
  {
    var up := Lt(value, Fin(r));
    var value' := if up then Fin(r) else value;
    if Lt(MaxE(alpha0, value'), beta) {
      assert vs[k] <= value'.n;
    } else {
      assert vs[k] <= vs[FirstMax(vs)];
    }
  }

  /** A maximising scan that saw every child without reaching beta: its value
      is a fail-soft score of the node, and with the full window it is the
      node's value, found first at `best`. */
  lemma MaxScanDone(vs: seq<real>, alpha0: Ext, beta: Ext, value: Ext, best: int)
    requires |vs| > 0 && MaxScan(vs, |vs|, alpha0, value, best) && Lt(MaxE(alpha0, value), beta)
    ensures value.Fin? && FailSoft(value.n, vs[FirstMax(vs)], alpha0, beta)
    ensures alpha0 == NegInf && beta == PosInf ==> value.n == vs[FirstMax(vs)] && best == FirstMax(vs)
  {
    assert vs[FirstMax(vs)] <= value.n;
    if Lt(alpha0, value) {
      FirstMaxUnique(vs, best);
    }
  }

  /** The state of a minimising scan after the first `k` children: the mirror
      image of `MaxScan`, against the original `beta0`. */
  ghost predicate MinScan(vs: seq<real>, k: int, beta0: Ext, value: Ext, best: int)
  {
    0 <= k <= |vs| &&
    (k == 0 <==> value == PosInf) &&
    (k > 0 ==>
       value.Fin? && 0 <= best < k &&
       (forall j :: 0 <= j < k ==> value.n <= vs[j]) &&
       (Lt(value, beta0) ==> value.n == vs[best] && forall j :: 0 <= j < best ==> value.n < vs[j]))
  }

  /** One child of a minimising scan, searched with the window
      (alpha, min(beta0, value)). */
  lemma MinScanStep(vs: seq<real>, k: int, alpha: Ext, beta0: Ext, value: Ext, best: int, r: real)
    requires MinScan(vs, k, beta0, value, best) && k < |vs|
    requires Lt(alpha, MinE(beta0, value)) && FailSoft(r, vs[k], alpha, MinE(beta0, value))
    ensures var value', best' := (if Lt(Fin(r), value) then Fin(r) else value), (if Lt(Fin(r), value) then k else best);
      MinE(MinE(beta0, value), value') == MinE(beta0, value') &&
      (Lt(alpha, MinE(beta0, value')) ==> MinScan(vs, k + 1, beta0, value', best')) &&
      (Le(MinE(beta0, value'), alpha) ==>
        value'.Fin? && FailSoft(value'.n, vs[FirstMin(vs)], alpha, beta0) && !(alpha == NegInf && beta0 == PosInf))
  {
    var up := Lt(Fin(r), value);
    var value' := if up then Fin(r) else value;
    if Lt(alpha, MinE(beta0, value')) {
      assert value'.n <= vs[k];
    } else {
      assert vs[FirstMin(vs)] <= vs[k];
    }
  }

  /** A minimising scan that saw every child without reaching alpha. */
  lemma MinScanDone(vs: seq<real>, alpha: Ext, beta0: Ext, value: Ext, best: int)
    requires |vs| > 0 && MinScan(vs, |vs|, beta0, value, best) && Lt(alpha, MinE(beta0, value))
    ensures value.Fin? && FailSoft(value.n, vs[FirstMin(vs)], alpha, beta0)
    ensures alpha == NegInf && beta0 == PosInf ==> value.n == vs[FirstMin(vs)] && best == FirstMin(vs)
  {
    assert value.n <= vs[FirstMin(vs)];
    if Lt(value, beta0) {
      FirstMinUnique(vs, best);
    }
  }
}
