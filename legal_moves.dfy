/** Properties of `Board.PossibleMoves`: the mandatory-capture rule, the shape
    of capture chains and simple moves, the direction rule, and completeness of
    the simple moves. */
module LegalMoves {
  import opened Primitives
  import opened Board
  import opened CaptureRules

  /** Some piece of `player` can make a first jump from its own cell. */
  ghost predicate HasCapture(b: Cells, player: Color)
  {
    exists i, t :: HasCaptureWitness(b, player, i, t)
  }

  /** The piece on cell `i` belongs to `player` and can jump to `t`. */
  predicate HasCaptureWitness(b: Cells, player: Color, i: int, t: Position)
  {
    0 <= i < 64 && b[i].Some? && b[i].value.color == player &&
    t in JumpTargets(PosOf(i), Directions(b[i].value, player)) &&
    CanCapture(b, PosOf(i), t, Opposite(player))
  }

  /** A one-step move of the piece on `st` to an empty in-board diagonal
      neighbour, forward or, for a king, also backward, capturing nothing. */
  predicate IsSimpleMove(b: Cells, st: Position, m: Move, player: Color)
  {
    |m.steps| == 1 && m.removePieces == [] &&
    var t := m.steps[0];
    IsValidPosition(t) && CellAt(b, t) == None &&
    (t.x - st.x == 1 || t.x - st.x == -1) &&
    (t.y - st.y == DirY(player) || (m.piece.king && t.y - st.y == -DirY(player)))
  }

  // ---------------------------------------------------------------------------
  // Membership in the concatenations

  lemma PieceOnBoard(b: Cells, player: Color, p: Piece) returns (i: int)
    requires p in PiecesOf(b, player)
    ensures 0 <= i < 64 && b[i] == Some(p) && p.color == player
  {
    assert Some(p) in b;
    i :| 0 <= i < 64 && b[i] == Some(p);
  }

  lemma CapturesOfMember(b: Cells, ps: seq<Piece>, player: Color, m: Move) returns (j: int)
    requires m in CapturesOf(b, ps, player)
    ensures 0 <= j < |ps| && m in PieceCaptures(b, ps[j], player)
    decreases |ps|
  {
    var front := ps[..|ps| - 1];
    if m in CapturesOf(b, front, player) {
      j := CapturesOfMember(b, front, player, m);
      assert front[j] == ps[j];
    } else {
      j := |ps| - 1;
    }
  }

  lemma CapturesOfContains(b: Cells, ps: seq<Piece>, player: Color, j: int, m: Move)
    requires 0 <= j < |ps| && m in PieceCaptures(b, ps[j], player)
    ensures m in CapturesOf(b, ps, player)
    decreases |ps|
  {
    if j < |ps| - 1 {
      var front := ps[..|ps| - 1];
      assert front[j] == ps[j];
      CapturesOfContains(b, front, player, j, m);
    }
  }

  lemma SimplesOfMember(b: Cells, ps: seq<Piece>, player: Color, m: Move) returns (j: int)
    requires m in SimplesOf(b, ps, player)
    ensures 0 <= j < |ps| && m in PieceSimples(b, ps[j], player)
    decreases |ps|
  {
    var front := ps[..|ps| - 1];
    if m in SimplesOf(b, front, player) {
      j := SimplesOfMember(b, front, player, m);
      assert front[j] == ps[j];
    } else {
      j := |ps| - 1;
    }
  }

  lemma SimplesOfContains(b: Cells, ps: seq<Piece>, player: Color, j: int, m: Move)
    requires 0 <= j < |ps| && m in PieceSimples(b, ps[j], player)
    ensures m in SimplesOf(b, ps, player)
    decreases |ps|
  {
    if j < |ps| - 1 {
      var front := ps[..|ps| - 1];
      assert front[j] == ps[j];
      SimplesOfContains(b, front, player, j, m);
    }
  }

  /** Exactly the in-board empty targets give a simple move. */
  lemma SimpleFromMembership(b: Cells, piece: Piece, ts: seq<Position>, m: Move)
    ensures m in SimpleFrom(b, piece, ts) <==>
      exists t :: t in ts && IsValidPosition(t) && CellAt(b, t) == None && m == Move(piece, [t], [])
    decreases |ts|
  {
    if ts != [] {
      var front := ts[..|ts| - 1];
      SimpleFromMembership(b, piece, front, m);
      assert ts == front + [ts[|ts| - 1]];
      assert forall t :: t in ts <==> t in front || t == ts[|ts| - 1];
    }
  }

  /** The target a one-step move of `SimpleFrom` goes to. */
  lemma SimpleFromWitness(b: Cells, piece: Piece, ts: seq<Position>, m: Move) returns (t: Position)
    requires m in SimpleFrom(b, piece, ts)
    ensures t in ts && IsValidPosition(t) && CellAt(b, t) == None && m == Move(piece, [t], [])
  {
    SimpleFromMembership(b, piece, ts, m);
    t :| t in ts && IsValidPosition(t) && CellAt(b, t) == None && m == Move(piece, [t], []);
  }

  // ---------------------------------------------------------------------------
  // The per-piece lists, for a piece found on its own cell

  /** A piece whose index is unique is looked up on its own cell, so its
      capture list is the chain search from that cell. */
  lemma PieceCapturesAt(b: Cells, player: Color, i: int)
    requires UniqueIndices(b)
    requires 0 <= i < 64 && b[i].Some?
    ensures PieceCaptures(b, b[i].value, player)
         == Chains(b, PosOf(i), Move(b[i].value, [], []), Directions(b[i].value, player), Opposite(player))
  {
    LookupsFindCell(b, i);
  }

  /** Likewise, its simple moves are those from its own cell. */
  lemma PieceSimplesAt(b: Cells, player: Color, i: int)
    requires UniqueIndices(b)
    requires 0 <= i < 64 && b[i].Some?
    ensures PieceSimples(b, b[i].value, player)
         == SimpleFrom(b, b[i].value, SimpleTargets(PosOf(i), b[i].value, player))
  {
    LookupsFindCell(b, i);
  }

  /** An in-board empty target among `ts` yields its one-step move. */
  lemma SimpleTargetGenerated(b: Cells, piece: Piece, ts: seq<Position>, t: Position)
    requires t in ts && IsValidPosition(t) && CellAt(b, t) == None
    ensures Move(piece, [t], []) in SimpleFrom(b, piece, ts)
  {
    SimpleFromMembership(b, piece, ts, Move(piece, [t], []));
  }

  /** The piece on cell `i` of `player` is one of `PiecesOf`. */
  lemma PieceListed(b: Cells, player: Color, i: int) returns (j: int)
    requires 0 <= i < 64 && b[i].Some? && b[i].value.color == player
    ensures 0 <= j < |PiecesOf(b, player)| && PiecesOf(b, player)[j] == b[i].value
  {
    var ps := PiecesOf(b, player);
    assert b[i].value in ps;
    j :| 0 <= j < |ps| && ps[j] == b[i].value;
  }

  // ---------------------------------------------------------------------------
  // The capture list and HasCapture

  lemma CapturesGiveHasCapture(b: Cells, player: Color)
    requires UniqueIndices(b)
    requires |CapturesOf(b, PiecesOf(b, player), player)| > 0
    ensures HasCapture(b, player)
  {
    var ps := PiecesOf(b, player);
    var j := CapturesOfMember(b, ps, player, CapturesOf(b, ps, player)[0]);
    var i := PieceOnBoard(b, player, ps[j]);
    PieceCapturesAt(b, player, i);
    ChainsFromStart(b, PosOf(i), ps[j], Directions(ps[j], player), Opposite(player));
    var t :| t in JumpTargets(PosOf(i), Directions(ps[j], player)) && CanCapture(b, PosOf(i), t, Opposite(player));
    assert HasCaptureWitness(b, player, i, t);
  }

  /** A first jump gives the piece a non-empty capture list. */
  lemma WitnessGivesPieceCaptures(b: Cells, player: Color, i: int, t: Position)
    requires UniqueIndices(b)
    requires HasCaptureWitness(b, player, i, t)
    ensures |PieceCaptures(b, b[i].value, player)| > 0
  {
    var piece := b[i].value;
    PieceCapturesAt(b, player, i);
    ChainsFromStart(b, PosOf(i), piece, Directions(piece, player), Opposite(player));
  }

  lemma CapturesOfNonEmpty(b: Cells, ps: seq<Piece>, player: Color, j: int)
    requires 0 <= j < |ps| && |PieceCaptures(b, ps[j], player)| > 0
    ensures |CapturesOf(b, ps, player)| > 0
  {
    CapturesOfContains(b, ps, player, j, PieceCaptures(b, ps[j], player)[0]);
  }

  lemma HasCaptureGivesCaptures(b: Cells, player: Color)
    requires UniqueIndices(b)
    requires HasCapture(b, player)
    ensures |CapturesOf(b, PiecesOf(b, player), player)| > 0
  {
    var i, t :| HasCaptureWitness(b, player, i, t);
    var j := PieceListed(b, player, i);
    WitnessGivesPieceCaptures(b, player, i, t);
    CapturesOfNonEmpty(b, PiecesOf(b, player), player, j);
  }

  /** The generator finds capture chains exactly when some piece has a first jump. */
  lemma CapturesIffHasCapture(b: Cells, player: Color)
    requires UniqueIndices(b)
    ensures |CapturesOf(b, PiecesOf(b, player), player)| > 0 <==> HasCapture(b, player)
  {
    if |CapturesOf(b, PiecesOf(b, player), player)| > 0 {
      CapturesGiveHasCapture(b, player);
    }
    if HasCapture(b, player) {
      HasCaptureGivesCaptures(b, player);
    }
  }

  // ---------------------------------------------------------------------------
  // The shape of every generated move

  lemma CaptureShape(b: Cells, player: Color, m: Move) returns (s: int)
    requires UniqueIndices(b)
    requires m in CapturesOf(b, PiecesOf(b, player), player)
    ensures 0 <= s < 64 && b[s] == Some(m.piece) && m.piece.color == player
    ensures IsCaptureChain(b, PosOf(s), m, Directions(m.piece, player), Opposite(player))
  {
    var ps := PiecesOf(b, player);
    var j := CapturesOfMember(b, ps, player, m);
    s := PieceOnBoard(b, player, ps[j]);
    PieceCapturesAt(b, player, s);
    ChainsFromStartSound(b, PosOf(s), ps[j], Directions(ps[j], player), Opposite(player), m);
  }

  lemma SimpleShape(b: Cells, player: Color, m: Move) returns (s: int)
    requires UniqueIndices(b)
    requires m in SimplesOf(b, PiecesOf(b, player), player)
    ensures 0 <= s < 64 && b[s] == Some(m.piece) && m.piece.color == player
    ensures IsSimpleMove(b, PosOf(s), m, player)
  {
    var ps := PiecesOf(b, player);
    var j := SimplesOfMember(b, ps, player, m);
    s := PieceOnBoard(b, player, ps[j]);
    PieceSimplesAt(b, player, s);
    SimpleFromIsSimpleMove(b, PosOf(s), ps[j], player, m);
  }

  /** A one-step move generated from `pos` is a simple move of its piece. */
  lemma SimpleFromIsSimpleMove(b: Cells, pos: Position, piece: Piece, player: Color, m: Move)
    requires m in SimpleFrom(b, piece, SimpleTargets(pos, piece, player))
    ensures m.piece == piece && IsSimpleMove(b, pos, m, player)
  {
    var t := SimpleFromWitness(b, piece, SimpleTargets(pos, piece, player), m);
    SimpleTargetsShape(pos, piece, player, t);
  }

  /** Every generated move moves a piece of `player` from its own cell `s`:
      a well-formed maximal capture chain when any capture exists, and
      otherwise a simple one-step move. */
  lemma MoveShape(b: Cells, player: Color, m: Move) returns (s: int)
    requires UniqueIndices(b)
    requires m in PossibleMoves(b, player)
    ensures 0 <= s < 64 && b[s] == Some(m.piece) && m.piece.color == player
    ensures HasCapture(b, player) ==>
      IsCaptureChain(b, PosOf(s), m, Directions(m.piece, player), Opposite(player))
    ensures !HasCapture(b, player) ==> IsSimpleMove(b, PosOf(s), m, player)
  {
    CapturesIffHasCapture(b, player);
    if HasCapture(b, player) {
      s := CaptureShape(b, player, m);
    } else {
      s := SimpleShape(b, player, m);
    }
  }

  /** Mandatory capture: when any capture exists, the generator returns at
      least one move and every move captures one piece per step; otherwise every
      move is a single step that captures nothing. */
  lemma MandatoryCapture(b: Cells, player: Color)
    requires UniqueIndices(b)
    ensures HasCapture(b, player) ==> |PossibleMoves(b, player)| > 0
    ensures HasCapture(b, player) ==> forall m :: m in PossibleMoves(b, player) ==>
      |m.removePieces| >= 1 && |m.steps| == |m.removePieces|
    ensures !HasCapture(b, player) ==> forall m :: m in PossibleMoves(b, player) ==>
      |m.steps| == 1 && m.removePieces == []
  {
    CapturesIffHasCapture(b, player);
    forall m | m in PossibleMoves(b, player)
      ensures HasCapture(b, player) ==> |m.removePieces| >= 1 && |m.steps| == |m.removePieces|
      ensures !HasCapture(b, player) ==> |m.steps| == 1 && m.removePieces == []
    {
      var s := MoveShape(b, player, m);
    }
  }

  /** Direction rule: every step of a man advances toward its crowning row, by
      one row for a simple move and two for a jump; a king's steps go one way or
      the other by the same amounts. */
  lemma DirectionRule(b: Cells, player: Color, m: Move, k: int) returns (s: int)
    requires UniqueIndices(b)
    requires m in PossibleMoves(b, player)
    requires 0 <= k < |m.steps|
    ensures 0 <= s < 64 && b[s] == Some(m.piece)
    ensures var dy := m.steps[k].y - From(PosOf(s), m.steps, k).y;
            var len := if m.removePieces == [] then 1 else 2;
            (dy == len * DirY(player) || (m.piece.king && dy == -len * DirY(player)))
  {
    s := MoveShape(b, player, m);
    if HasCapture(b, player) {
      assert StepOK(b, PosOf(s), m, k, Directions(m.piece, player), Opposite(player));
    }
  }

  /** Completeness of the simple moves: when no capture exists, every step of a
      piece of `player` to an empty in-board target in its directions is generated. */
  lemma SimpleMoveGenerated(b: Cells, player: Color, i: int, t: Position)
    requires UniqueIndices(b)
    requires !HasCapture(b, player)
    requires 0 <= i < 64 && b[i].Some? && b[i].value.color == player
    requires t in SimpleTargets(PosOf(i), b[i].value, player)
    requires IsValidPosition(t) && CellAt(b, t) == None
    ensures Move(b[i].value, [t], []) in PossibleMoves(b, player)
  {
    var piece := b[i].value;
    CapturesIffHasCapture(b, player);
    var j := PieceListed(b, player, i);
    PieceSimplesAt(b, player, i);
    SimpleTargetGenerated(b, piece, SimpleTargets(PosOf(i), piece, player), t);
    SimplesOfContains(b, PiecesOf(b, player), player, j, Move(piece, [t], []));
  }

  /** Completeness of the capture chains: every well-formed maximal capture
      chain of a piece of `player` from its own cell is generated. */
  lemma CaptureChainGenerated(b: Cells, player: Color, i: int, m: Move)
    requires UniqueIndices(b)
    requires 0 <= i < 64 && b[i] == Some(m.piece) && m.piece.color == player
    requires IsCaptureChain(b, PosOf(i), m, Directions(m.piece, player), Opposite(player))
    ensures m in PossibleMoves(b, player)
  {
    ChainsFromStartComplete(b, PosOf(i), m.piece, Directions(m.piece, player), Opposite(player), m);
    PieceCapturesAt(b, player, i);
    var j := PieceListed(b, player, i);
    CapturesOfContains(b, PiecesOf(b, player), player, j, m);
  }

  /** When a capture exists, the legal moves are exactly the well-formed
      maximal capture chains of the pieces of `player`, each from its own cell. */
  lemma CaptureMovesExact(b: Cells, player: Color, m: Move)
    requires UniqueIndices(b) && HasCapture(b, player)
    ensures m in PossibleMoves(b, player) <==>
      exists s :: 0 <= s < 64 && b[s] == Some(m.piece) && m.piece.color == player &&
        IsCaptureChain(b, PosOf(s), m, Directions(m.piece, player), Opposite(player))
  {
    if m in PossibleMoves(b, player) {
      var s := MoveShape(b, player, m);
    }
    if exists s :: 0 <= s < 64 && b[s] == Some(m.piece) && m.piece.color == player &&
        IsCaptureChain(b, PosOf(s), m, Directions(m.piece, player), Opposite(player)) {
      var s :| 0 <= s < 64 && b[s] == Some(m.piece) && m.piece.color == player &&
        IsCaptureChain(b, PosOf(s), m, Directions(m.piece, player), Opposite(player));
      CaptureChainGenerated(b, player, s, m);
    }
  }

  /** No legal move stops short of another legal move of the same piece: the
      landing cells of one are never a proper prefix of the other's, so a
      capture chain is always taken to its end. */
  lemma NoMoveStopsShort(b: Cells, player: Color, m: Move, m': Move)
    requires UniqueIndices(b)
    requires m in PossibleMoves(b, player) && m' in PossibleMoves(b, player) && m'.piece == m.piece
    ensures !(m'.steps < m.steps)
  {
    var s := MoveShape(b, player, m);
    var s' := MoveShape(b, player, m');
    assert SameIndex(b, s, s');
    if HasCapture(b, player) {
      NoChainExtendsAnother(b, PosOf(s), m, m', Directions(m.piece, player), Opposite(player));
    }
  }

  /** The pieces a capture chain removes stand on pairwise distinct cells. */
  lemma CapturedCellsDistinct(b: Cells, player: Color, m: Move, k1: int, k2: int) returns (s: int)
    requires UniqueIndices(b)
    requires m in PossibleMoves(b, player) && HasCapture(b, player)
    requires 0 <= k1 < k2 < |m.steps|
    ensures 0 <= s < 64 && b[s] == Some(m.piece)
    ensures MidCell(PosOf(s), m, k1) != MidCell(PosOf(s), m, k2)
  {
    s := MoveShape(b, player, m);
    CellAtPosOf(b, s);
    MidCellsDistinct(b, PosOf(s), m, Directions(m.piece, player), Opposite(player), k1, k2);
  }
}
