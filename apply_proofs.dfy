/** What applying a generated move does to the board: the piece leaves its
    cell for the last landing cell (crowned there when it is a man reaching its
    crowning row), exactly the captured pieces disappear, every other cell is
    unchanged, and no two pieces share an index afterwards. */
module ApplyRules {
  import opened Primitives
  import opened Board
  import opened CaptureRules
  import opened LegalMoves

  predicate Distinct(cells: seq<int>)
  {
    forall i, j :: 0 <= i < j < |cells| ==> cells[i] != cells[j]
  }

  /** Cell `cells[k]` of `b` holds the piece `rs[k]`, for every k. */
  predicate HoldsAll(b: Cells, cells: seq<int>, rs: seq<Piece>)
  {
    |cells| == |rs| &&
    forall k :: 0 <= k < |cells| ==> 0 <= cells[k] < 64 && b[cells[k]] == Some(rs[k])
  }

  /** `b` with the cells `cells` emptied. */
  function Cleared(b: Cells, cells: seq<int>): (r: Cells)
    ensures forall c :: 0 <= c < 64 ==> r[c] == if c in cells then None else b[c]
  {
    seq(64, c requires 0 <= c < 64 => if c in cells then None else b[c])
  }

  /** `b` after the piece on `s` moves to `f`, where it stands as `p`, and the
      pieces on `cells` are captured. */
  function Moved(b: Cells, s: int, f: int, p: Piece, cells: seq<int>): (r: Cells)
    requires 0 <= s < 64 && 0 <= f < 64
    ensures r[f] == Some(p)
    ensures forall c :: 0 <= c < 64 && c != f && (c == s || c in cells) ==> r[c] == None
    ensures forall c :: 0 <= c < 64 && c != f && c != s && c !in cells ==> r[c] == b[c]
  {
    seq(64, c requires 0 <= c < 64 => if c == f then Some(p) else if c == s || c in cells then None else b[c])
  }

  /** The piece `p` after a move of colour `color` ending on row `finY`. */
  function Crowned(p: Piece, color: Color, finY: int): (r: Piece)
    ensures r.index == p.index && r.color == p.color
    ensures r.king <==> p.king || finY == KingRow(color)
  {
    Piece(p.index, p.color, p.king || finY == KingRow(color))
  }

  /** Linear index of the cell the `k`-th jump of `m` passes over. */
  function MidIndex(st: Position, m: Move, k: int): int
    requires 0 <= k < |m.steps|
  {
    var p := MidCell(st, m, k);
    p.y * 8 + p.x
  }

  /** The linear indices of the cells the capturing steps of `m` pass over. */
  function JumpedCells(st: Position, m: Move): (cells: seq<int>)
    requires |m.removePieces| <= |m.steps|
    ensures |cells| == |m.removePieces|
    ensures forall k :: 0 <= k < |cells| ==> cells[k] == MidIndex(st, m, k)
  {
    seq(|m.removePieces|, k requires 0 <= k < |m.removePieces| => MidIndex(st, m, k))
  }

  // ---------------------------------------------------------------------------
  // The index invariant under the elementary updates

  lemma ClearKeepsUnique(b: Cells, c: int)
    requires UniqueIndices(b) && 0 <= c < 64
    ensures UniqueIndices(b[c := None])
  {
    var b1 := b[c := None];
    forall i, j | 0 <= i < 64 && 0 <= j < 64 && SameIndex(b1, i, j)
      ensures i == j
    {
      assert SameIndex(b, i, j);
    }
  }

  lemma MoveKeepsUnique(b: Cells, s: int, f: int, p: Piece)
    requires UniqueIndices(b) && 0 <= s < 64 && 0 <= f < 64
    requires b[s].Some? && b[s].value.index == p.index && b[f] == None
    ensures UniqueIndices(b[s := None][f := Some(p)])
  {
    var b1 := b[s := None][f := Some(p)];
    forall i, j | 0 <= i < 64 && 0 <= j < 64 && SameIndex(b1, i, j)
      ensures i == j
    {
      var i', j' := if i == f then s else i, if j == f then s else j;
      assert SameIndex(b, i', j');
    }
  }

  /** Emptying the cells `cells` keeps the invariant. */
  lemma ClearedKeepsUnique(b: Cells, cells: seq<int>)
    requires UniqueIndices(b)
    ensures UniqueIndices(Cleared(b, cells))
  {
    var r := Cleared(b, cells);
    forall i, j | 0 <= i < 64 && 0 <= j < 64 && SameIndex(r, i, j)
      ensures i == j
    {
      assert SameIndex(b, i, j);
    }
  }

  // ---------------------------------------------------------------------------
  // RemoveAll and ApplyMove

  /** Removing pieces that stand on distinct known cells clears exactly those cells. */
  lemma {:induction false} RemoveAllEffect(b: Cells, rs: seq<Piece>, cells: seq<int>)
    requires UniqueIndices(b) && HoldsAll(b, cells, rs) && Distinct(cells)
    ensures RemoveAll(b, rs) == Some(Cleared(b, cells))
    decreases |rs|
  {
    if rs == [] {
      assert Cleared(b, cells) == b;
    } else {
      var c := cells[0];
      LookupsFindCell(b, c);
      ParsePosOfPosOf(c);
      var b1 := SetCell(b, PosOf(c), None);
      assert b1 == b[c := None];
      ClearKeepsUnique(b, c);
      HoldsAllTail(b, cells, rs);
      RemoveAllEffect(b1, rs[1..], cells[1..]);
      ClearedTail(b, cells);
    }
  }

  /** Once the first cell is cleared, the remaining cells still hold the
      remaining pieces. */
  lemma HoldsAllTail(b: Cells, cells: seq<int>, rs: seq<Piece>)
    requires HoldsAll(b, cells, rs) && Distinct(cells) && rs != []
    ensures HoldsAll(b[cells[0] := None], cells[1..], rs[1..])
  {
    var b1 := b[cells[0] := None];
    forall k | 0 <= k < |cells[1..]|
      ensures 0 <= cells[1..][k] < 64 && b1[cells[1..][k]] == Some(rs[1..][k])
    {
      assert cells[1..][k] == cells[k + 1] && cells[k + 1] != cells[0];
    }
  }

  /** Clearing the first cell, then the rest, clears them all. */
  lemma ClearedTail(b: Cells, cells: seq<int>)
    requires cells != [] && 0 <= cells[0] < 64
    ensures Cleared(b[cells[0] := None], cells[1..]) == Cleared(b, cells)
  {
    assert forall x :: x in cells <==> x == cells[0] || x in cells[1..] by {
      assert cells == [cells[0]] + cells[1..];
    }
  }

  /** Clearing the cell `s` and filling `f`, written on linear indices. */
  lemma ShiftCells(b: Cells, s: int, fin: Position, v: Option<Piece>)
    requires 0 <= s < 64 && IsValidPosition(fin)
    ensures SetCell(SetCell(b, PosOf(s), None), fin, v) == b[s := None][ParsePos(fin) := v]
  {
    ParsePosOfPosOf(s);
  }

  /** The board before the captures: the piece on `s` moved to the last landing cell. */
  lemma ShiftEffect(b: Cells, m: Move, s: int)
    requires UniqueIndices(b) && 0 <= s < 64 && b[s].Some? && b[s].value.index == m.piece.index
    requires |m.steps| > 0 && IsValidPosition(m.steps[|m.steps| - 1])
    ensures PieceByIndex(b, m.piece.index) == b[s]
    ensures PiecePositionByIndex(b, m.piece.index) == Some(PosOf(s))
    ensures var fin := m.steps[|m.steps| - 1];
            SetCell(SetCell(b, PosOf(s), None), fin, b[s])
              == b[s := None][ParsePos(fin) := b[s]]
  {
    LookupsFindCell(b, s);
    ShiftCells(b, s, m.steps[|m.steps| - 1], b[s]);
  }

  /** `ApplyMove` on a move whose piece stands on `s`, whose last landing cell
      is empty and whose captured pieces stand on the distinct cells `cells`. */
  lemma ApplyMoveEffect(b: Cells, m: Move, s: int, cells: seq<int>)
    requires UniqueIndices(b) && 0 <= s < 64 && b[s].Some? && b[s].value.index == m.piece.index
    requires |m.steps| > 0 && IsValidPosition(m.steps[|m.steps| - 1])
    requires b[ParsePos(m.steps[|m.steps| - 1])] == None
    requires HoldsAll(b, cells, m.removePieces) && Distinct(cells) && s !in cells
    ensures var fin := m.steps[|m.steps| - 1];
            ApplyMove(b, m) == Some(Moved(b, s, ParsePos(fin), Crowned(b[s].value, m.piece.color, fin.y), cells))
  {
    var fin := m.steps[|m.steps| - 1];
    var f := ParsePos(fin);
    var p := b[s].value;
    ShiftEffect(b, m, s);
    var b1 := b[s := None][f := Some(p)];
    MoveKeepsUnique(b, s, f, p);
    assert HoldsAll(b1, cells, m.removePieces) by {
      forall k | 0 <= k < |cells|
        ensures 0 <= cells[k] < 64 && b1[cells[k]] == Some(m.removePieces[k])
      {
        assert cells[k] != f && cells[k] != s;
      }
    }
    RemoveAllEffect(b1, m.removePieces, cells);
    var b2 := Cleared(b1, cells);
    assert f !in cells;
    if !p.king && KingRow(m.piece.color) == fin.y {
      assert SetCell(b2, fin, Some(Piece(p.index, p.color, true)))
          == Moved(b, s, f, Crowned(p, m.piece.color, fin.y), cells);
    } else {
      assert Crowned(p, m.piece.color, fin.y) == p;
      assert b2 == Moved(b, s, f, p, cells);
    }
  }

  // ---------------------------------------------------------------------------
  // Generated moves

  /** The cell jumped at step `k` of a capture chain holds the opponent
      piece captured there. */
  lemma ChainCellHolds(b: Cells, st: Position, m: Move, dirs: seq<int>, opp: Color, k: int)
    requires StepOK(b, st, m, k, dirs, opp)
    ensures IsValidPosition(MidCell(st, m, k)) && MidIndex(st, m, k) == ParsePos(MidCell(st, m, k))
    ensures b[MidIndex(st, m, k)] == Some(m.removePieces[k]) && m.removePieces[k].color == opp
  {
  }

  /** No cell is jumped twice in a capture chain. */
  lemma JumpedCellsDistinct(b: Cells, st: Position, m: Move, dirs: seq<int>, opp: Color)
    requires IsCaptureChain(b, st, m, dirs, opp) && CellAt(b, st).Some?
    ensures Distinct(JumpedCells(st, m))
  {
    var cells := JumpedCells(st, m);
    forall i, j | 0 <= i < j < |cells|
      ensures cells[i] != cells[j]
    {
      assert StepOK(b, st, m, i, dirs, opp) && StepOK(b, st, m, j, dirs, opp);
      ChainCellHolds(b, st, m, dirs, opp, i);
      ChainCellHolds(b, st, m, dirs, opp, j);
      MidCellsDistinct(b, st, m, dirs, opp, i, j);
      ParsePosInjective(MidCell(st, m, i), MidCell(st, m, j));
    }
  }

  /** The jumped cells of a capture chain: distinct, each holding the piece
      captured there, none of them the start cell. */
  lemma ChainCells(b: Cells, player: Color, m: Move, s: int)
    requires 0 <= s < 64 && b[s] == Some(m.piece) && m.piece.color == player
    requires IsCaptureChain(b, PosOf(s), m, Directions(m.piece, player), Opposite(player))
    ensures HoldsAll(b, JumpedCells(PosOf(s), m), m.removePieces)
    ensures Distinct(JumpedCells(PosOf(s), m)) && s !in JumpedCells(PosOf(s), m)
  {
    var st, dirs, opp := PosOf(s), Directions(m.piece, player), Opposite(player);
    var cells := JumpedCells(st, m);
    forall k | 0 <= k < |cells|
      ensures 0 <= cells[k] < 64 && b[cells[k]] == Some(m.removePieces[k]) && cells[k] != s
    {
      assert StepOK(b, st, m, k, dirs, opp);
      ChainCellHolds(b, st, m, dirs, opp, k);
    }
    CellAtPosOf(b, s);
    JumpedCellsDistinct(b, st, m, dirs, opp);
  }

  /** A capture chain applies: its piece lands on the last cell and the
      pieces on the jumped cells disappear. */
  lemma CaptureApplies(b: Cells, player: Color, m: Move, s: int)
    requires UniqueIndices(b)
    requires 0 <= s < 64 && b[s] == Some(m.piece) && m.piece.color == player
    requires IsCaptureChain(b, PosOf(s), m, Directions(m.piece, player), Opposite(player))
    ensures |m.steps| > 0 && IsValidPosition(m.steps[|m.steps| - 1])
    ensures b[ParsePos(m.steps[|m.steps| - 1])] == None
    ensures |m.removePieces| <= |m.steps|
    ensures HoldsAll(b, JumpedCells(PosOf(s), m), m.removePieces)
    ensures var fin := m.steps[|m.steps| - 1];
            ApplyMove(b, m) == Some(Moved(b, s, ParsePos(fin), Crowned(m.piece, player, fin.y), JumpedCells(PosOf(s), m)))
  {
    ChainCells(b, player, m, s);
    assert StepOK(b, PosOf(s), m, |m.steps| - 1, Directions(m.piece, player), Opposite(player));
    ApplyMoveEffect(b, m, s, JumpedCells(PosOf(s), m));
  }

  /** A simple move applies: its piece steps to the target, nothing is captured. */
  lemma SimpleApplies(b: Cells, player: Color, m: Move, s: int)
    requires UniqueIndices(b)
    requires 0 <= s < 64 && b[s] == Some(m.piece) && m.piece.color == player
    requires IsSimpleMove(b, PosOf(s), m, player)
    ensures IsValidPosition(m.steps[0]) && b[ParsePos(m.steps[0])] == None
    ensures JumpedCells(PosOf(s), m) == []
    ensures ApplyMove(b, m) == Some(Moved(b, s, ParsePos(m.steps[0]), Crowned(m.piece, player, m.steps[0].y), []))
  {
    assert HoldsAll(b, [], m.removePieces);
    ApplyMoveEffect(b, m, s, []);
  }

  /** A move of either shape applies, keeping the index invariant. */
  lemma ShapedApplies(b: Cells, player: Color, m: Move, s: int)
    requires UniqueIndices(b)
    requires 0 <= s < 64 && b[s] == Some(m.piece) && m.piece.color == player
    requires HasCapture(b, player) ==>
      IsCaptureChain(b, PosOf(s), m, Directions(m.piece, player), Opposite(player))
    requires !HasCapture(b, player) ==> IsSimpleMove(b, PosOf(s), m, player)
    ensures |m.steps| > 0 && IsValidPosition(m.steps[|m.steps| - 1])
    ensures |m.removePieces| <= |m.steps|
    ensures HoldsAll(b, JumpedCells(PosOf(s), m), m.removePieces)
    ensures var fin := m.steps[|m.steps| - 1];
            var r := Moved(b, s, ParsePos(fin), Crowned(m.piece, player, fin.y), JumpedCells(PosOf(s), m));
            ApplyMove(b, m) == Some(r) && UniqueIndices(r)
  {
    if HasCapture(b, player) {
      CaptureApplies(b, player, m, s);
    } else {
      SimpleApplies(b, player, m, s);
    }
    var fin := m.steps[|m.steps| - 1];
    AppliedKeepsUnique(b, s, ParsePos(fin), Crowned(m.piece, player, fin.y), JumpedCells(PosOf(s), m));
  }

  /** Every generated move applies: the piece on its start cell `s` ends,
      crowned if a man reaching its crowning row, on the last landing cell, the
      captured pieces disappear from the cells jumped over, nothing else
      changes, and the index invariant still holds. */
  lemma GeneratedApplies(b: Cells, player: Color, m: Move) returns (s: int)
    requires UniqueIndices(b)
    requires m in PossibleMoves(b, player)
    ensures |m.steps| > 0 && IsValidPosition(m.steps[|m.steps| - 1])
    ensures 0 <= s < 64 && b[s] == Some(m.piece) && m.piece.color == player
    ensures |m.removePieces| <= |m.steps|
    ensures HoldsAll(b, JumpedCells(PosOf(s), m), m.removePieces)
    ensures var fin := m.steps[|m.steps| - 1];
            var r := Moved(b, s, ParsePos(fin), Crowned(m.piece, player, fin.y), JumpedCells(PosOf(s), m));
            ApplyMove(b, m) == Some(r) && UniqueIndices(r)
  {
    s := MoveShape(b, player, m);
    ShapedApplies(b, player, m, s);
  }

  lemma AppliedKeepsUnique(b: Cells, s: int, f: int, p: Piece, cells: seq<int>)
    requires UniqueIndices(b) && 0 <= s < 64 && 0 <= f < 64
    requires b[s].Some? && b[s].value.index == p.index && b[f] == None
    ensures UniqueIndices(Moved(b, s, f, p, cells))
  {
    MoveKeepsUnique(b, s, f, p);
    ClearedKeepsUnique(b[s := None][f := Some(p)], cells);
    assert f !in cells ==> Moved(b, s, f, p, cells) == Cleared(b[s := None][f := Some(p)], cells);
    if f in cells {
      var r := Moved(b, s, f, p, cells);
      var c := Cleared(b[s := None][f := Some(p)], cells);
      forall i, j | 0 <= i < 64 && 0 <= j < 64 && SameIndex(r, i, j)
        ensures i == j
      {
        var i', j' := if i == f then s else i, if j == f then s else j;
        assert SameIndex(b, i', j');
      }
    }
  }

  /** A generated move applies and keeps the index invariant (the form used
      inside expressions). */
  lemma MoveApplies(b: Cells, player: Color, m: Move)
    requires UniqueIndices(b)
    requires m in PossibleMoves(b, player)
    ensures |m.steps| > 0 && IsValidPosition(m.steps[|m.steps| - 1])
    ensures ApplyMove(b, m).Some? && UniqueIndices(ApplyMove(b, m).value)
  {
    var s := GeneratedApplies(b, player, m);
  }
}
