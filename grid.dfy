/** The board object: a 64-cell array updated in place, with methods proved
    equal to the board functions of `Board`. */
module GridObject {
  import opened Primitives
  import opened Board

  /** A lookup that found a piece among the first `n` cells finds the same one
      among more cells. */
  lemma {:induction false} PieceByIndexUpToStable(b: Cells, idx: int, n: nat, m: nat)
    requires n <= m <= 64 && PieceByIndexUpTo(b, idx, n).Some?
    ensures PieceByIndexUpTo(b, idx, m) == PieceByIndexUpTo(b, idx, n)
    decreases m
  {
    if m > n {
      PieceByIndexUpToStable(b, idx, n, m - 1);
    }
  }

  lemma {:induction false} PiecePositionUpToStable(b: Cells, idx: int, n: nat, m: nat)
    requires n <= m <= 64 && PiecePositionUpTo(b, idx, n).Some?
    ensures PiecePositionUpTo(b, idx, m) == PiecePositionUpTo(b, idx, n)
    decreases m
  {
    if m > n {
      PiecePositionUpToStable(b, idx, n, m - 1);
    }
  }

  /** Scan position `x * 8 + y` is column `x`, row `y`. */
  lemma ScanPosColumnRow(x: int, y: int)
    requires 0 <= x < 8 && 0 <= y < 8
    ensures 0 <= x * 8 + y < 64 && ScanPos(x * 8 + y) == Position(x, y)
  {
  }

  /** A listed piece is found on the board, so its position lookup succeeds. */
  lemma ListedPieceFound(b: Cells, player: Color, p: Piece)
    requires p in PiecesOf(b, player)
    ensures PiecePositionByIndex(b, p.index).Some?
  {
    assert Some(p) in b;
    var i :| 0 <= i < 64 && b[i] == Some(p);
    PiecePositionByIndexNone(b, p.index);
    assert Holds(b[i], p.index);
  }

  /** None of the first `k` candidate targets is a jump the search takes. */
  predicate NoJumpBefore(b: Cells, pos: Position, cur: Move, ts: seq<Position>, k: int, opp: Color)
    requires 0 <= k <= |ts|
  {
    forall j :: 0 <= j < k ==> !Jumpable(b, pos, cur, ts[j], opp)
  }

  /** One more candidate target scanned. */
  lemma ScanStep(b: Cells, pos: Position, cur: Move, ts: seq<Position>, k: int, dirs: seq<int>, opp: Color,
                 outMoves: seq<Move>)
    requires 0 <= k < |ts|
    ensures outMoves + BranchesOver(b, pos, cur, ts[..k + 1], dirs, opp)
         == (outMoves + BranchesOver(b, pos, cur, ts[..k], dirs, opp)) + Branch(b, pos, cur, ts[k], dirs, opp)
    ensures NoJumpBefore(b, pos, cur, ts, k + 1, opp)
        <==> NoJumpBefore(b, pos, cur, ts, k, opp) && !Jumpable(b, pos, cur, ts[k], opp)
  {
    assert ts[..k + 1][..k] == ts[..k];
  }

  /** All candidate targets scanned: the chains through them, and the chain
      itself when it ends here. */
  lemma ScanDone(b: Cells, pos: Position, cur: Move, dirs: seq<int>, opp: Color,
                 outMoves: seq<Move>, out: seq<Move>, endOfPath: bool)
    requires var ts := JumpTargets(pos, dirs);
      out == outMoves + BranchesOver(b, pos, cur, ts[..|ts|], dirs, opp) &&
      (endOfPath <==> NoJumpBefore(b, pos, cur, ts, |ts|, opp))
    ensures (if endOfPath && |cur.steps| > 0 then out + [cur] else out)
         == outMoves + Chains(b, pos, cur, dirs, opp)
  {
    var ts := JumpTargets(pos, dirs);
    assert ts[..|ts|] == ts;
    ChainsUnfold(b, pos, cur, dirs, opp);
  }

  /** A candidate target is a two-cell diagonal jump away. */
  lemma JumpShapeOfTarget(pos: Position, dirs: seq<int>, ts: seq<Position>, k: int)
    requires forall d :: d in dirs ==> d == 1 || d == -1
    requires ts == JumpTargets(pos, dirs) && 0 <= k < |ts|
    ensures IsJumpShape(pos, ts[k])
  {
    JumpTargetsShape(pos, dirs, ts[k]);
  }

  /** The loop body's test is the jump test, and a jump taken continues the
      search from the landing cell. */
  lemma BranchStep(b: Cells, pos: Position, cur: Move, p: Position, pc: Option<Piece>, target: Option<Piece>,
                   dirs: seq<int>, opp: Color)
    requires IsJumpShape(pos, p)
    requires pc == CellAt(b, Between(pos, p)) && target == CellAt(b, p)
    ensures Jumpable(b, pos, cur, p, opp) <==>
      p !in cur.steps && IsValidPosition(p) && IsValidPosition(Between(pos, p)) &&
      pc.Some? && pc.value.color == opp && target == None
    ensures !Jumpable(b, pos, cur, p, opp) ==> Branch(b, pos, cur, p, dirs, opp) == []
    ensures Jumpable(b, pos, cur, p, opp) ==>
      Branch(b, pos, cur, p, dirs, opp)
        == Chains(b, p, Move(cur.piece, cur.steps + [p], cur.removePieces + [pc.value]), dirs, opp)
  {
  }

  lemma ChainsUnfold(b: Cells, pos: Position, cur: Move, dirs: seq<int>, opp: Color)
    ensures var ts := JumpTargets(pos, dirs);
      Chains(b, pos, cur, dirs, opp) == BranchesOver(b, pos, cur, ts, dirs, opp)
        + (if NoJumpBefore(b, pos, cur, ts, |ts|, opp) && |cur.steps| > 0 then [cur] else [])
  {
  }

  class Grid {
    var cells: array<Option<Piece>>

    ghost predicate Valid()
      reads this
    {
      cells.Length == 64
    }

    /** The board value held by the array. */
    function Data(): Cells
      reads this, cells
      requires Valid()
    {
      cells[..]
    }

    /** An empty board. */
    constructor ()
      ensures Valid() && fresh(cells)
      ensures Data() == EmptyCells()
    {
      cells := new Option<Piece>[64](i => None);
    }

    method Get(p: Position) returns (r: Option<Piece>)
      requires Valid()
      ensures r == CellAt(Data(), p)
      ensures !IsValidPosition(p) ==> r == None
    {
      if IsValidPosition(p) {
        r := cells[ParsePos(p)];
      } else {
        r := None;
      }
    }

    method Set(p: Position, v: Option<Piece>)
      requires Valid() && IsValidPosition(p)
      modifies cells
      ensures Valid()
      ensures Data() == SetCell(old(Data()), p, v)
      ensures CellAt(Data(), p) == v
      ensures forall q :: q != p ==> CellAt(Data(), q) == CellAt(old(Data()), q)
    {
      cells[ParsePos(p)] := v;
      forall q
        ensures CellAt(Data(), q) == if q == p then v else CellAt(old(Data()), q)
      {
        CellAtSetCell(old(Data()), p, v, q);
      }
    }

    /** A deep copy: a new grid over a new array with the same cells. */
    method Copy() returns (g: Grid)
      requires Valid()
      ensures fresh(g) && fresh(g.cells)
      ensures g.Valid() && g.Data() == Data()
    {
      g := new Grid();
      for i := 0 to 64
        invariant g.Valid() && fresh(g.cells)
        invariant g.cells[..i] == cells[..i]
      {
        g.cells[i] := cells[i];
      }
      assert g.cells[..64] == g.cells[..] && cells[..64] == cells[..];
    }

    /** The first piece with index `idx` in cell order. */
    method GetPieceByIndex(idx: int) returns (r: Option<Piece>)
      requires Valid()
      ensures r == PieceByIndex(Data(), idx)
      ensures r.Some? ==> r.value.index == idx && r in Data()
      ensures r.None? <==> forall i :: 0 <= i < 64 ==> !Holds(Data()[i], idx)
    {
      var b := Data();
      for i := 0 to 64
        invariant PieceByIndexUpTo(b, idx, i) == None
      {
        if cells[i].Some? && cells[i].value.index == idx {
          assert PieceByIndexUpTo(b, idx, i + 1) == b[i];
          PieceByIndexUpToStable(b, idx, i + 1, 64);
          return cells[i];
        }
      }
      return None;
    }

    method GetPiecePosition(piece: Piece) returns (r: Option<Position>)
      requires Valid()
      ensures r == PiecePositionByIndex(Data(), piece.index)
      ensures r.Some? ==> IsValidPosition(r.value) && Holds(CellAt(Data(), r.value), piece.index)
    {
      r := GetPiecePositionByIndex(piece.index);
    }

    /** Column by column, each column from row 0 up, the first cell holding a
        piece with index `idx`. */
    method GetPiecePositionByIndex(idx: int) returns (r: Option<Position>)
      requires Valid()
      ensures r == PiecePositionByIndex(Data(), idx)
      ensures r.Some? ==> IsValidPosition(r.value) && Holds(CellAt(Data(), r.value), idx)
    {
      var b := Data();
      for x := 0 to 8
        invariant PiecePositionUpTo(b, idx, x * 8) == None
      {
        for y := 0 to 8
          invariant PiecePositionUpTo(b, idx, x * 8 + y) == None
        {
          var p := Get(Position(x, y));
          ScanPosColumnRow(x, y);
          if p.Some? && p.value.index == idx {
            assert PiecePositionUpTo(b, idx, x * 8 + y + 1) == Some(Position(x, y));
            PiecePositionUpToStable(b, idx, x * 8 + y + 1, 64);
            return Some(Position(x, y));
          }
        }
      }
      return None;
    }

    /** The opening position: piece `i` of White and piece `12 + i` of Black
        placed, for each `i` below 12, on their home cells. */
    static method Create() returns (r: Grid)
      ensures fresh(r) && fresh(r.cells) && r.Valid()
      ensures r.Data() == InitialBoard()
    {
      r := new Grid();
      for i := 0 to 12
        invariant r.Valid() && fresh(r.cells)
        invariant forall c :: 0 <= c < 64 ==> r.cells[c] == PlacedCell(c, i)
      {
        var flag := i / 4 == 1;
        HomeCells(i);
        r.cells[i * 2 + (if flag then 1 else 0)] := Some(Piece(i, White, false));
        r.cells[63 - i * 2 + (if flag then -1 else 0)] := Some(Piece(i + 12, Black, false));
        forall c | 0 <= c < 64
          ensures r.cells[c] == PlacedCell(c, i + 1)
        {
          PlacedCellStep(c, i);
        }
      }
      forall c | 0 <= c < 64
        ensures r.cells[c] == InitialBoard()[c]
      {
        PlacedCellAll(c);
      }
      assert r.cells[..] == InitialBoard();
    }

    /** Applies `m` in place: the piece goes to the last step, the captured
        pieces are cleared one after the other, and a man reaching its crowning
        row is replaced by a king with the same index and colour. */
    method Apply(m: Move)
      requires Valid()
      requires |m.steps| > 0 && IsValidPosition(m.steps[|m.steps| - 1])
      requires ApplyMove(Data(), m).Some?
      modifies cells
      ensures Valid()
      ensures Data() == ApplyMove(old(Data()), m).value
    {
      ghost var b0 := Data();
      var finalPos := m.steps[|m.steps| - 1];
      var piece := GetPieceByIndex(m.piece.index);
      var from := GetPiecePosition(m.piece);
      Set(from.value, None);
      Set(finalPos, piece);
      ghost var b1 := Data();
      var rs := m.removePieces;
      for i := 0 to |rs|
        invariant Valid()
        invariant RemoveAll(Data(), rs[i..]) == RemoveAll(b1, rs)
      {
        assert rs[i..][0] == rs[i] && rs[i..][1..] == rs[i + 1..];
        var pos := GetPiecePosition(rs[i]);
        Set(pos.value, None);
      }
      assert rs[|rs|..] == [];
      if !piece.value.king && KingRow(m.piece.color) == finalPos.y {
        Set(finalPos, Some(Piece(piece.value.index, piece.value.color, true)));
      }
    }

    /** The candidate landing cells of a jump from `pos`: for each direction,
        two cells diagonally ahead, left then right. */
    method JumpCandidates(pos: Position, dirs: seq<int>) returns (positions: seq<Position>)
      ensures positions == JumpTargets(pos, dirs)
    {
      positions := [];
      for j := 0 to |dirs|
        invariant positions == JumpTargets(pos, dirs[..j])
      {
        assert dirs[..j + 1][..j] == dirs[..j];
        positions := positions + [Position(pos.x - 2, pos.y + 2 * dirs[j]), Position(pos.x + 2, pos.y + 2 * dirs[j])];
      }
      assert dirs[..|dirs|] == dirs;
    }

    /** The capture chains extending `cur`, whose last landing cell is `pos`,
        appended to `outMoves` in the order of the depth-first search. */
    method FindCaptureMoves(pos: Position, cur: Move, dirs: seq<int>, opp: Color, outMoves: seq<Move>)
      returns (out: seq<Move>)
      requires Valid()
      requires forall d :: d in dirs ==> d == 1 || d == -1
      ensures out == outMoves + Chains(Data(), pos, cur, dirs, opp)
      decreases Unvisited(cur.steps), 2
    {
      ghost var b := Data();
      var positions := JumpCandidates(pos, dirs);
      var endOfPath := true;
      out := outMoves;
      assert positions[..0] == [] && outMoves + [] == outMoves;
      for k := 0 to |positions|
        invariant out == outMoves + BranchesOver(b, pos, cur, positions[..k], dirs, opp)
        invariant endOfPath <==> NoJumpBefore(b, pos, cur, positions, k, opp)
      {
        out, endOfPath := ScanRound(pos, cur, dirs, opp, positions, k, outMoves, out, endOfPath);
      }
      ScanDone(b, pos, cur, dirs, opp, outMoves, out, endOfPath);
      out := if endOfPath && |cur.steps| > 0 then out + [cur] else out;
    }

    /** One round of the target loop of `FindCaptureMoves`: the branch of the
        `k`-th target is appended, and the end-of-path flag is cleared when
        that jump is taken. */
    method ScanRound(pos: Position, cur: Move, dirs: seq<int>, opp: Color, positions: seq<Position>, k: int,
                     ghost outMoves: seq<Move>, out: seq<Move>, endOfPath: bool)
      returns (out': seq<Move>, endOfPath': bool)
      requires Valid()
      requires forall d :: d in dirs ==> d == 1 || d == -1
      requires positions == JumpTargets(pos, dirs) && 0 <= k < |positions|
      requires out == outMoves + BranchesOver(Data(), pos, cur, positions[..k], dirs, opp)
      requires endOfPath <==> NoJumpBefore(Data(), pos, cur, positions, k, opp)
      ensures out' == outMoves + BranchesOver(Data(), pos, cur, positions[..k + 1], dirs, opp)
      ensures endOfPath' <==> NoJumpBefore(Data(), pos, cur, positions, k + 1, opp)
      decreases Unvisited(cur.steps), 1
    {
      ScanStep(Data(), pos, cur, positions, k, dirs, opp, outMoves);
      JumpShapeOfTarget(pos, dirs, positions, k);
      var jumped;
      out', jumped := TryJump(pos, cur, positions[k], dirs, opp, out);
      endOfPath' := endOfPath && !jumped;
    }

    /** One candidate target `p` of the search from `pos`: unless the chain
        already landed on `p`, a jump over an opponent piece onto the empty
        in-board cell `p` continues the search from there. Returns the chains
        found through `p`, appended to `outMoves`, and whether the jump was taken. */
    method TryJump(pos: Position, cur: Move, p: Position, dirs: seq<int>, opp: Color, outMoves: seq<Move>)
      returns (out: seq<Move>, jumped: bool)
      requires Valid()
      requires forall d :: d in dirs ==> d == 1 || d == -1
      requires IsJumpShape(pos, p)
      ensures jumped == Jumpable(Data(), pos, cur, p, opp)
      ensures out == outMoves + Branch(Data(), pos, cur, p, dirs, opp)
      decreases Unvisited(cur.steps), 0
    {
      ghost var b := Data();
      out, jumped := outMoves, false;
      var bw := Between(pos, p);
      if p in cur.steps {
        BranchStep(b, pos, cur, p, CellAt(b, bw), CellAt(b, p), dirs, opp);
        return;
      }
      var pc := Get(bw);
      var target := Get(p);
      BranchStep(b, pos, cur, p, pc, target, dirs, opp);
      if IsValidPosition(p) && IsValidPosition(bw) && pc.Some? && pc.value.color == opp && target == None {
        UnvisitedShrinks(cur.steps, p);
        out := FindCaptureMoves(p, Move(cur.piece, cur.steps + [p], cur.removePieces + [pc.value]), dirs, opp, outMoves);
        jumped := true;
      }
    }

    /** All legal moves of `player`: every capture chain of every piece when
        there is one, otherwise every one-step move of every piece. */
    method ComputePossibleMoves(player: Color) returns (moves: seq<Move>)
      requires Valid()
      ensures moves == PossibleMoves(Data(), player)
    {
      ghost var b := Data();
      var pieces := PiecesOfPlayer(player);
      moves := [];
      for j := 0 to |pieces|
        invariant moves == CapturesOf(b, pieces[..j], player)
      {
        CapturesOfSnoc(b, pieces, j, player);
        ListedPieceFound(b, player, pieces[j]);
        moves := AddCaptureMoves(pieces[j], player, moves);
      }
      assert pieces[..|pieces|] == pieces;
      if |moves| == 0 {
        for j := 0 to |pieces|
          invariant moves == SimplesOf(b, pieces[..j], player)
        {
          SimplesOfSnoc(b, pieces, j, player);
          ListedPieceFound(b, player, pieces[j]);
          moves := AddSimpleMoves(pieces[j], player, moves);
        }
        assert pieces[..|pieces|] == pieces;
      }
    }

    /** The pieces of `player` in cell order. */
    method PiecesOfPlayer(player: Color) returns (pieces: seq<Piece>)
      requires Valid()
      ensures pieces == PiecesOf(Data(), player)
    {
      ghost var b := Data();
      pieces := [];
      for i := 0 to 64
        invariant pieces == PiecesOf(b[..i], player)
      {
        assert b[..i + 1][..i] == b[..i];
        if cells[i].Some? && cells[i].value.color == player {
          pieces := pieces + [cells[i].value];
        }
      }
      assert b[..64] == b;
    }

    /** The capture chains of one piece of `player` found on the board,
        appended to `moves`; a man searches forward only, a king both ways. */
    method AddCaptureMoves(piece: Piece, player: Color, moves: seq<Move>) returns (out: seq<Move>)
      requires Valid()
      requires PiecePositionByIndex(Data(), piece.index).Some?
      ensures out == moves + PieceCaptures(Data(), piece, player)
    {
      var dirY := DirY(player);
      var opposite := Opposite(player);
      var pos := GetPiecePosition(piece);
      var directions := if piece.king then [dirY, -dirY] else [dirY];
      out := FindCaptureMoves(pos.value, Move(piece, [], []), directions, opposite, moves);
    }

    /** The one-step moves of one piece of `player` found on the board,
        appended to `moves`. */
    method AddSimpleMoves(piece: Piece, player: Color, moves: seq<Move>) returns (out: seq<Move>)
      requires Valid()
      requires PiecePositionByIndex(Data(), piece.index).Some?
      ensures out == moves + PieceSimples(Data(), piece, player)
    {
      ghost var b := Data();
      var dirY := DirY(player);
      var pos := GetPiecePosition(piece);
      var p := pos.value;
      var simple := [Position(p.x - 1, p.y + dirY), Position(p.x + 1, p.y + dirY)];
      if piece.king {
        simple := simple + [Position(p.x - 1, p.y - dirY), Position(p.x + 1, p.y - dirY)];
      }
      assert simple == SimpleTargets(p, piece, player);
      out := AddSimpleFrom(piece, simple, moves);
    }

    /** The one-step moves of `piece` to the in-board empty cells among
        `simple`, appended to `moves` in order. */
    method AddSimpleFrom(piece: Piece, simple: seq<Position>, moves: seq<Move>) returns (out: seq<Move>)
      requires Valid()
      ensures out == moves + SimpleFrom(Data(), piece, simple)
    {
      ghost var b := Data();
      out := moves;
      assert simple[..0] == [] && moves + [] == moves;
      for k := 0 to |simple|
        invariant out == moves + SimpleFrom(b, piece, simple[..k])
      {
        assert simple[..k + 1][..k] == simple[..k];
        var s := simple[k];
        var c := Get(s);
        if IsValidPosition(s) && c == None {
          out := out + [Move(piece, [s], [])];
        }
      }
      assert simple[..|simple|] == simple;
    }
  }

  /** `CapturesOf` over a prefix one piece longer. */
  lemma CapturesOfSnoc(b: Cells, ps: seq<Piece>, j: int, player: Color)
    requires 0 <= j < |ps|
    ensures CapturesOf(b, ps[..j + 1], player) == CapturesOf(b, ps[..j], player) + PieceCaptures(b, ps[j], player)
  {
    assert ps[..j + 1][..j] == ps[..j];
  }

  /** `SimplesOf` over a prefix one piece longer. */
  lemma SimplesOfSnoc(b: Cells, ps: seq<Piece>, j: int, player: Color)
    requires 0 <= j < |ps|
    ensures SimplesOf(b, ps[..j + 1], player) == SimplesOf(b, ps[..j], player) + PieceSimples(b, ps[j], player)
  {
    assert ps[..j + 1][..j] == ps[..j];
  }

  // ---------------------------------------------------------------------------
  // The opening layout filled by `Create`

  /** Cell `c` once the first `n` pieces of each colour are placed. */
  function PlacedCell(c: int, n: int): Option<Piece>
    requires 0 <= c < 64
  {
    var v := InitialCell(c);
    if v.Some? && ((v.value.color == White && v.value.index < n) || (v.value.color == Black && v.value.index - 12 < n))
    then v else None
  }

  /** The home cells of piece `i` of each colour hold that piece in the opening
      position. */
  lemma HomeCells(i: int)
    requires 0 <= i < 12
    ensures 0 <= WhiteHome(i) < 64 && InitialCell(WhiteHome(i)) == Some(Piece(i, White, false))
    ensures 0 <= BlackHome(i) < 64 && InitialCell(BlackHome(i)) == Some(Piece(i + 12, Black, false))
  {
    // the home cells are y * 8 + x for the columns and rows below
    if i < 4 {
      assert WhiteHome(i) % 8 == 2 * i && WhiteHome(i) / 8 == 0;
      assert BlackHome(i) % 8 == 7 - 2 * i && BlackHome(i) / 8 == 7;
    } else if i < 8 {
      assert WhiteHome(i) % 8 == 2 * (i - 4) + 1 && WhiteHome(i) / 8 == 1;
      assert BlackHome(i) % 8 == 14 - 2 * i && BlackHome(i) / 8 == 6;
    } else {
      assert WhiteHome(i) % 8 == 2 * (i - 8) && WhiteHome(i) / 8 == 2;
      assert BlackHome(i) % 8 == 23 - 2 * i && BlackHome(i) / 8 == 5;
    }
  }

  /** Every occupied cell of the opening position is the home cell of its piece. */
  lemma HomeCellsExact(c: int)
    requires 0 <= c < 64 && InitialCell(c).Some?
    ensures var p := InitialCell(c).value;
            if p.color == White then 0 <= p.index < 12 && c == WhiteHome(p.index)
            else 12 <= p.index < 24 && c == BlackHome(p.index - 12)
  {
    if c < 24 {
      WhiteHomeExact(c);
    } else {
      BlackHomeExact(c);
    }
  }

  lemma WhiteHomeExact(c: int)
    requires 0 <= c < 24 && InitialCell(c).Some?
    ensures var p := InitialCell(c).value;
            p.color == White && 0 <= p.index < 12 && c == WhiteHome(p.index)
  {
  }

  lemma BlackHomeExact(c: int)
    requires 24 <= c < 64 && InitialCell(c).Some?
    ensures var p := InitialCell(c).value;
            p.color == Black && 12 <= p.index < 24 && c == BlackHome(p.index - 12)
  {
  }

  lemma PlacedCellStep(c: int, i: int)
    requires 0 <= c < 64 && 0 <= i < 12
    ensures PlacedCell(c, i + 1) ==
      if c == BlackHome(i) then Some(Piece(i + 12, Black, false))
      else if c == WhiteHome(i) then Some(Piece(i, White, false))
      else PlacedCell(c, i)
  {
    HomeCells(i);
    if InitialCell(c).Some? {
      HomeCellsExact(c);
    }
  }

  lemma PlacedCellAll(c: int)
    requires 0 <= c < 64
    ensures PlacedCell(c, 12) == InitialBoard()[c]
  {
    if InitialCell(c).Some? {
      HomeCellsExact(c);
    }
  }

  /** In the opening position no two pieces share an index. */
  lemma InitialBoardUnique()
    ensures UniqueIndices(InitialBoard())
  {
    var b := InitialBoard();
    forall i, j | 0 <= i < 64 && 0 <= j < 64 && SameIndex(b, i, j)
      ensures i == j
    {
      HomeCellsExact(i);
      HomeCellsExact(j);
    }
  }
}
