/** The engine: search states holding their own board object, their
    expansion, and the two searches (plain minimax and minimax with
    alpha-beta pruning), proved to compute the values and moves of `Search`. */
module Engine {
  import opened Primitives
  import opened Board
  import opened AIDefinitions
  import opened GridObject
  import opened GameTree

  /** A search state: a board object of its own, the player to move, the
      remaining depth and the move that led here (None at the root). */
  datatype State = State(grid: Grid, turn: Color, depth: nat, move: Option<Move>)

  /** The game-tree node a state stands for. */
  function NodeOf(s: State): Node
    reads s.grid, s.grid.cells
    requires s.grid.Valid()
  {
    Node(s.grid.Data(), s.turn, s.depth, s.move)
  }

  /** A state the searches accept: a well-formed board whose pieces carry
      distinct indices. */
  ghost predicate Searchable(s: State)
    reads s.grid, s.grid.cells
  {
    s.grid.Valid() && UniqueIndices(s.grid.Data())
  }

  /** Expands a state: for each legal move, in order, a copy of the board with
      the move applied, the other player to move and one level less to go.
      None at depth 0. */
  method Children(s: State) returns (cs: seq<State>)
    requires Searchable(s)
    ensures Realises(cs, ChildNodes(NodeOf(s)))
  {
    if s.depth == 0 {
      return [];
    }
    var opposite := Opposite(s.turn);
    var moves := s.grid.ComputePossibleMoves(s.turn);
    cs := ApplyEach(s, moves, opposite, NodeOf(s), ChildNodes(NodeOf(s)));
  }

  /** The state `c` stands for the node `n`, on a well-formed board. */
  ghost predicate Stands(c: State, n: Node)
    reads c.grid, c.grid.cells
  {
    c.grid.Valid() && NodeOf(c) == n
  }

  /** The states `cs` stand for the nodes `nodes`, one for one. */
  ghost predicate Realises(cs: seq<State>, nodes: seq<Node>)
    reads set j | 0 <= j < |cs| :: cs[j].grid
    reads set j | 0 <= j < |cs| :: cs[j].grid.cells
  {
    |cs| == |nodes| && forall j :: 0 <= j < |cs| ==> Stands(cs[j], nodes[j])
  }

  /** One child per move of `moves`, the legal moves of `s`, in order: the
      map over the moves. */
  method ApplyEach(s: State, moves: seq<Move>, opposite: Color, ghost n: Node, ghost nodes: seq<Node>) returns (cs: seq<State>)
    requires Searchable(s) && n == NodeOf(s) && n.depth > 0 && opposite == Opposite(n.turn)
    requires moves == PossibleMoves(n.board, n.turn) && nodes == ChildNodes(n)
    ensures Realises(cs, nodes)
  {
    cs := [];
    for i := 0 to |moves|
      invariant |cs| == i && forall j :: 0 <= j < i ==> Stands(cs[j], nodes[j])
    {
      var c := ChildState(s, moves[i], opposite, n, nodes, i);
      cs := cs + [c];
    }
  }

  /** Child `i` of a state: a copy of its board with the `i`-th legal move `m`
      applied and the other player, `opposite`, to move. */
  method ChildState(s: State, m: Move, opposite: Color, ghost n: Node, ghost nodes: seq<Node>, ghost i: int) returns (c: State)
    requires Searchable(s) && n == NodeOf(s) && n.depth > 0 && opposite == Opposite(n.turn)
    requires nodes == ChildNodes(n) && 0 <= i < |nodes| && m == PossibleMoves(n.board, n.turn)[i]
    ensures Stands(c, nodes[i])
  {
    ChildNodeAt(n, i);
    var g := s.grid.Copy();
    g.Apply(m);
    c := State(g, opposite, s.depth - 1, Some(m));
  }

  /** Each of `nodes` is a node the searches accept, shallower than `d`, and
      `vs` holds their minimax values for `player`. */
  ghost predicate Scored(nodes: seq<Node>, vs: seq<real>, player: Color, nz: Noise, d: nat)
  {
    |nodes| == |vs| &&
    forall j :: 0 <= j < |nodes| ==>
      UniqueIndices(nodes[j].board) && nodes[j].depth < d && vs[j] == Minimax(nodes[j], player, nz)
  }

  /** The children of a node are scored by the child values. */
  lemma ChildrenScored(n: Node, player: Color, nz: Noise)
    requires UniqueIndices(n.board)
    ensures Scored(ChildNodes(n), ChildValues(n, player, nz), player, nz, n.depth)
  {
  }

  /** At an inner node, the search result is the value of the first best
      child together with the move its state carries. */
  lemma InnerSearch(n: Node, player: Color, nz: Noise, children: seq<State>)
    requires UniqueIndices(n.board) && !IsLeaf(n) && Realises(children, ChildNodes(n))
    ensures var vs := ChildValues(n, player, nz);
      var k := if n.turn == player then FirstMax(vs) else FirstMin(vs);
      Search(n, player, nz) == Outcome(vs[k], children[k].move)
  {
    var k := BestIndex(n, player, nz);
    assert NodeOf(children[k]) == ChildNodes(n)[k];
  }

  /** The score of a state the search does not expand: the heuristic times
      the noise factor of the draw at its node, with the move that led there. */
  method Leaf(s: State, player: Color, nz: Noise) returns (r: Outcome)
    requires Searchable(s)
    ensures r == Outcome(LeafValue(NodeOf(s), player, nz), s.move)
  {
    var h := Heuristic(s.grid, player);
    var f := Factor(nz.clearThought, nz.draw(NodeOf(s)));
    r := Outcome((h as real) * f, s.move);
  }

  /** Plain minimax: the value of the state for `player` and the move of the
      first best child, or at a leaf the heuristic and the move that led there. */
  method MinMax(s: State, player: Color, nz: Noise) returns (r: Outcome)
    requires Searchable(s)
    ensures r == Search(NodeOf(s), player, nz)
    decreases s.depth, 4
  {
    var children := Children(s);
    if s.depth == 0 || |children| == 0 {
      r := Leaf(s, player, nz);
      return;
    }
    ghost var n := NodeOf(s);
    InnerSearch(n, player, nz, children);
    ChildrenScored(n, player, nz);
    if s.turn == player {
      r := MinMaxMax(children, player, nz, ChildNodes(n), ChildValues(n, player, nz), s.depth);
    } else {
      r := MinMaxMin(children, player, nz, ChildNodes(n), ChildValues(n, player, nz), s.depth);
    }
  }

  /** The maximising loop of plain minimax: the value and the move are replaced
      on a strictly greater child value, so the result is the first greatest
      child value and its move. */
  method MinMaxMax(children: seq<State>, player: Color, nz: Noise, ghost nodes: seq<Node>, ghost vs: seq<real>, ghost d: nat)
    returns (r: Outcome)
    requires Realises(children, nodes) && Scored(nodes, vs, player, nz, d) && |vs| > 0
    ensures r == Outcome(vs[FirstMax(vs)], children[FirstMax(vs)].move)
    decreases d, 3
  {
    ghost var best := 0;
    var value := NegInf;
    var move: Option<Move> := None;
    for k := 0 to |children|
      invariant MaxScan(vs, k, NegInf, value, best)
      invariant k > 0 ==> move == children[best].move
    {
      value, move, best := MinMaxMaxStep(children, player, nz, nodes, vs, d, k, value, move, best);
    }
    MaxScanDone(vs, NegInf, PosInf, value, best);
    r := Outcome(value.n, move);
  }

  /** The minimising loop of plain minimax: the first least child value and
      its move. */
  method MinMaxMin(children: seq<State>, player: Color, nz: Noise, ghost nodes: seq<Node>, ghost vs: seq<real>, ghost d: nat)
    returns (r: Outcome)
    requires Realises(children, nodes) && Scored(nodes, vs, player, nz, d) && |vs| > 0
    ensures r == Outcome(vs[FirstMin(vs)], children[FirstMin(vs)].move)
    decreases d, 3
  {
    ghost var best := 0;
    var value := PosInf;
    var move: Option<Move> := None;
    for k := 0 to |children|
      invariant MinScan(vs, k, PosInf, value, best)
      invariant k > 0 ==> move == children[best].move
    {
      value, move, best := MinMaxMinStep(children, player, nz, nodes, vs, d, k, value, move, best);
    }
    MinScanDone(vs, NegInf, PosInf, value, best);
    r := Outcome(value.n, move);
  }

  /** One child of the maximising loop of plain minimax: it replaces the value
      and the move when its value is strictly greater. */
  method MinMaxMaxStep(children: seq<State>, player: Color, nz: Noise, ghost nodes: seq<Node>, ghost vs: seq<real>, ghost d: nat,
                       k: int, value: Ext, move: Option<Move>, ghost best: int)
    returns (value': Ext, move': Option<Move>, ghost best': int)
    requires Realises(children, nodes) && Scored(nodes, vs, player, nz, d)
    requires 0 <= k < |vs| && MaxScan(vs, k, NegInf, value, best)
    requires k > 0 ==> move == children[best].move
    ensures 0 <= best' <= k && move' == children[best'].move
    ensures MaxScan(vs, k + 1, NegInf, value', best')
    decreases d, 2
  {
    var v := MinMaxChild(children, k, player, nz, nodes, vs, d);
    MaxScanStep(vs, k, NegInf, PosInf, value, best, v);
    value', move', best' := value, move, best;
    if Lt(value, Fin(v)) {
      value', move', best' := Fin(v), children[k].move, k;
    }
  }

  /** One child of the minimising loop of plain minimax: it replaces the value
      and the move when its value is strictly less. */
  method MinMaxMinStep(children: seq<State>, player: Color, nz: Noise, ghost nodes: seq<Node>, ghost vs: seq<real>, ghost d: nat,
                       k: int, value: Ext, move: Option<Move>, ghost best: int)
    returns (value': Ext, move': Option<Move>, ghost best': int)
    requires Realises(children, nodes) && Scored(nodes, vs, player, nz, d)
    requires 0 <= k < |vs| && MinScan(vs, k, PosInf, value, best)
    requires k > 0 ==> move == children[best].move
    ensures 0 <= best' <= k && move' == children[best'].move
    ensures MinScan(vs, k + 1, PosInf, value', best')
    decreases d, 2
  {
    var v := MinMaxChild(children, k, player, nz, nodes, vs, d);
    MinScanStep(vs, k, NegInf, PosInf, value, best, v);
    value', move', best' := value, move, best;
    if Lt(Fin(v), value) {
      value', move', best' := Fin(v), children[k].move, k;
    }
  }

  /** The plain minimax value of child `k`. */
  method MinMaxChild(children: seq<State>, k: int, player: Color, nz: Noise, ghost nodes: seq<Node>, ghost vs: seq<real>, ghost d: nat)
    returns (v: real)
    requires Realises(children, nodes) && Scored(nodes, vs, player, nz, d) && 0 <= k < |nodes|
    ensures v == vs[k]
    decreases d, 1
  {
    var r := MinMax(children[k], player, nz);
    v := r.value;
  }

  /** Minimax with alpha-beta pruning over the window (alpha, beta): the score
      is fail-soft for the window, and with the full window it is the minimax
      value and the move is the one plain minimax picks. */
  method AlphaBeta(s: State, player: Color, nz: Noise, alpha: Ext, beta: Ext) returns (r: Outcome)
    requires Searchable(s) && Lt(alpha, beta)
    ensures FailSoft(r.value, Minimax(NodeOf(s), player, nz), alpha, beta)
    ensures alpha == NegInf && beta == PosInf ==> r == Search(NodeOf(s), player, nz)
    decreases s.depth, 3
  {
    var children := Children(s);
    if s.depth == 0 || |children| == 0 {
      r := Leaf(s, player, nz);
      return;
    }
    ghost var n := NodeOf(s);
    InnerSearch(n, player, nz, children);
    ChildrenScored(n, player, nz);
    if s.turn == player {
      r := AlphaBetaMax(children, player, nz, ChildNodes(n), ChildValues(n, player, nz), s.depth, alpha, beta);
    } else {
      r := AlphaBetaMin(children, player, nz, ChildNodes(n), ChildValues(n, player, nz), s.depth, alpha, beta);
    }
  }

  /** The maximising loop of the pruning search: after each child alpha rises
      to the value, and the loop stops once alpha reaches beta. The score is
      fail-soft for the first greatest child value, and with the full window it
      is that value with its move. */
  method AlphaBetaMax(children: seq<State>, player: Color, nz: Noise, ghost nodes: seq<Node>, ghost vs: seq<real>, ghost d: nat,
                      alpha0: Ext, beta: Ext) returns (r: Outcome)
    requires Realises(children, nodes) && Scored(nodes, vs, player, nz, d) && |vs| > 0 && Lt(alpha0, beta)
    ensures FailSoft(r.value, vs[FirstMax(vs)], alpha0, beta)
    ensures alpha0 == NegInf && beta == PosInf ==> r == Outcome(vs[FirstMax(vs)], children[FirstMax(vs)].move)
    decreases d, 2
  {
    ghost var best := 0;
    var value := NegInf;
    var move: Option<Move> := None;
    var alpha := alpha0;
    for k := 0 to |children|
      invariant MaxScan(vs, k, alpha0, value, best)
      invariant k > 0 ==> move == children[best].move
      invariant alpha == MaxE(alpha0, value) && Lt(alpha, beta)
    {
      value, move, best, alpha := AlphaBetaMaxStep(children, player, nz, nodes, vs, d, alpha0, beta, k, value, move, best, alpha);
      if Le(beta, alpha) {
        return Outcome(value.n, move);
      }
    }
    MaxScanDone(vs, alpha0, beta, value, best);
    r := Outcome(value.n, move);
  }

  /** One child of the maximising loop: search it over the current window,
      keep it if it is strictly better, and raise alpha to the value. Either
      the scan goes on, or the value is a cut-off that is fail-soft for the
      first greatest child value. */
  method AlphaBetaMaxStep(children: seq<State>, player: Color, nz: Noise, ghost nodes: seq<Node>, ghost vs: seq<real>, ghost d: nat,
                          alpha0: Ext, beta: Ext, k: int, value: Ext, move: Option<Move>, ghost best: int, alpha: Ext)
    returns (value': Ext, move': Option<Move>, ghost best': int, alpha': Ext)
    requires Realises(children, nodes) && Scored(nodes, vs, player, nz, d)
    requires 0 <= k < |vs| && MaxScan(vs, k, alpha0, value, best)
    requires k > 0 ==> move == children[best].move
    requires alpha == MaxE(alpha0, value) && Lt(alpha, beta)
    ensures 0 <= best' <= k && move' == children[best'].move && alpha' == MaxE(alpha0, value')
    ensures Lt(alpha', beta) ==> MaxScan(vs, k + 1, alpha0, value', best')
    ensures Le(beta, alpha') ==> value'.Fin? && FailSoft(value'.n, vs[FirstMax(vs)], alpha0, beta)
    ensures Le(beta, alpha') ==> !(alpha0 == NegInf && beta == PosInf)
    decreases d, 1
  {
    var v := AlphaBetaChild(children, k, player, nz, nodes, vs, d, alpha, beta);
    MaxScanStep(vs, k, alpha0, beta, value, best, v);
    value', move', best' := value, move, best;
    if Lt(value, Fin(v)) {
      value', move', best' := Fin(v), children[k].move, k;
    }
    alpha' := MaxE(alpha, value');
  }

  /** The minimising loop of the pruning search: after each child beta falls
      to the value, and the loop stops once beta reaches alpha. */
  method AlphaBetaMin(children: seq<State>, player: Color, nz: Noise, ghost nodes: seq<Node>, ghost vs: seq<real>, ghost d: nat,
                      alpha: Ext, beta0: Ext) returns (r: Outcome)
    requires Realises(children, nodes) && Scored(nodes, vs, player, nz, d) && |vs| > 0 && Lt(alpha, beta0)
    ensures FailSoft(r.value, vs[FirstMin(vs)], alpha, beta0)
    ensures alpha == NegInf && beta0 == PosInf ==> r == Outcome(vs[FirstMin(vs)], children[FirstMin(vs)].move)
    decreases d, 2
  {
    ghost var best := 0;
    var value := PosInf;
    var move: Option<Move> := None;
    var beta := beta0;
    for k := 0 to |children|
      invariant MinScan(vs, k, beta0, value, best)
      invariant k > 0 ==> move == children[best].move
      invariant beta == MinE(beta0, value) && Lt(alpha, beta)
    {
      value, move, best, beta := AlphaBetaMinStep(children, player, nz, nodes, vs, d, alpha, beta0, k, value, move, best, beta);
      if Le(beta, alpha) {
        return Outcome(value.n, move);
      }
    }
    MinScanDone(vs, alpha, beta0, value, best);
    r := Outcome(value.n, move);
  }

  /** One child of the minimising loop: search it over the current window,
      keep it if it is strictly better for the opponent, and lower beta to the
      value. */
  method AlphaBetaMinStep(children: seq<State>, player: Color, nz: Noise, ghost nodes: seq<Node>, ghost vs: seq<real>, ghost d: nat,
                          alpha: Ext, beta0: Ext, k: int, value: Ext, move: Option<Move>, ghost best: int, beta: Ext)
    returns (value': Ext, move': Option<Move>, ghost best': int, beta': Ext)
    requires Realises(children, nodes) && Scored(nodes, vs, player, nz, d)
    requires 0 <= k < |vs| && MinScan(vs, k, beta0, value, best)
    requires k > 0 ==> move == children[best].move
    requires beta == MinE(beta0, value) && Lt(alpha, beta)
    ensures 0 <= best' <= k && move' == children[best'].move && beta' == MinE(beta0, value')
    ensures Lt(alpha, beta') ==> MinScan(vs, k + 1, beta0, value', best')
    ensures Le(beta', alpha) ==> value'.Fin? && FailSoft(value'.n, vs[FirstMin(vs)], alpha, beta0)
    ensures Le(beta', alpha) ==> !(alpha == NegInf && beta0 == PosInf)
    decreases d, 1
  {
    var v := AlphaBetaChild(children, k, player, nz, nodes, vs, d, alpha, beta);
    MinScanStep(vs, k, alpha, beta0, value, best, v);
    value', move', best' := value, move, best;
    if Lt(Fin(v), value) {
      value', move', best' := Fin(v), children[k].move, k;
    }
    beta' := MinE(beta, value');
  }

  /** The pruning search of child `k` over the window (alpha, beta). */
  method AlphaBetaChild(children: seq<State>, k: int, player: Color, nz: Noise, ghost nodes: seq<Node>, ghost vs: seq<real>, ghost d: nat,
                        alpha: Ext, beta: Ext) returns (v: real)
    requires Realises(children, nodes) && Scored(nodes, vs, player, nz, d) && 0 <= k < |nodes| && Lt(alpha, beta)
    ensures FailSoft(v, vs[k], alpha, beta)
    decreases d, 0
  {
    var r := AlphaBeta(children[k], player, nz, alpha, beta);
    v := r.value;
  }

  /** The move the engine plays for `player` on `grid` with the profile named
      `aiName`, when the random number generator yields `draw(n)` at each node
      `n` the search scores: the pruning search from a root state with that
      profile's depth and the full window. It is the first best move of the
      depth-bounded minimax under the profile's noise, it is one of the legal
      moves, and there is none exactly when the player cannot move. The last
      two rest on every profile searching at least one level (`ProfileTable`:
      the depths are 2 or more), since `RootMove` gives None at depth 0. */
  method Eval(grid: Grid, player: Color, aiName: string, draw: Node -> real) returns (m: Option<Move>)
    requires grid.Valid() && UniqueIndices(grid.Data())
    requires GetByName(aiName).Some?
    ensures var config := GetByName(aiName).value;
      m == BestMove(Node(grid.Data(), player, config.maxSearchDepth, None), player, Noise(config.clearThought, draw))
    ensures m.None? <==> |PossibleMoves(grid.Data(), player)| == 0
    ensures m.Some? ==> m.value in PossibleMoves(grid.Data(), player)
  {
    var config := GetByName(aiName).value;
    var nz := Noise(config.clearThought, draw);
    var initial := State(grid, player, config.maxSearchDepth, None);
    var r := AlphaBeta(initial, player, nz, NegInf, PosInf);
    RootMove(NodeOf(initial), player, nz);
    m := r.move;
  }
}
