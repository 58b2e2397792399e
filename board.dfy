/** The rules of the game on a board value: cell access, piece lookup, legal
    move generation under the mandatory-capture rule, applying a move, and the
    opening layout. These are the specification functions that the methods of
    `GridObject.Grid` are proved against. */
module Board {
  import opened Primitives

  /** 64 cells indexed `y*8+x`, each holding at most one piece. */
  type Cells = s: seq<Option<Piece>> | |s| == 64 witness EmptyCells()

  function EmptyCells(): (s: seq<Option<Piece>>)
    ensures |s| == 64 && forall i :: 0 <= i < 64 ==> s[i] == None
  {
    seq(64, i => None)
  }

  /** Cells `i` and `j` both hold a piece, with the same index. */
  predicate SameIndex(b: seq<Option<Piece>>, i: int, j: int)
  {
    0 <= i < |b| && 0 <= j < |b| && b[i].Some? && b[j].Some? && b[i].value.index == b[j].value.index
  }

  /** The board invariant: no two occupied cells hold pieces with the same index. */
  predicate UniqueIndices(b: Cells)
  {
    forall i, j :: 0 <= i < 64 && 0 <= j < 64 && SameIndex(b, i, j) ==> i == j
  }

  // ---------------------------------------------------------------------------
  // Cell access

  /** The content of a cell; off-board positions read as empty. */
  function CellAt(b: Cells, p: Position): Option<Piece>
  {
    if IsValidPosition(p) then b[ParsePos(p)] else None
  }

  function SetCell(b: Cells, p: Position, v: Option<Piece>): Cells
    requires IsValidPosition(p)
  {
    b[ParsePos(p) := v]
  }

  lemma CellAtSetCell(b: Cells, p: Position, v: Option<Piece>, q: Position)
    requires IsValidPosition(p)
    ensures CellAt(SetCell(b, p, v), q) == if q == p then v else CellAt(b, q)
  {
    if IsValidPosition(q) {
      ParsePosInjective(p, q);
    }
  }

  lemma CellAtPosOf(b: Cells, i: int)
    requires 0 <= i < 64
    ensures CellAt(b, PosOf(i)) == b[i]
  {
    ParsePosOfPosOf(i);
  }

  // ---------------------------------------------------------------------------
  // Piece lookup

  predicate Holds(o: Option<Piece>, idx: int)
  {
    o.Some? && o.value.index == idx
  }

  /** The first piece with index `idx` among cells `0 .. n-1`, in cell order. */
  function PieceByIndexUpTo(b: Cells, idx: int, n: nat): (r: Option<Piece>)
    requires n <= 64
    ensures r.Some? ==> r.value.index == idx && exists j :: 0 <= j < n && b[j] == r
    ensures r.None? ==> forall j :: 0 <= j < n ==> !Holds(b[j], idx)
  {
    if n == 0 then None
    else match PieceByIndexUpTo(b, idx, n - 1)
      case Some(p) => Some(p)
      case None => if Holds(b[n - 1], idx) then b[n - 1] else None
  }

  /** The first piece with index `idx` in cell order, or None if there is none. */
  function PieceByIndex(b: Cells, idx: int): (r: Option<Piece>)
    ensures r.Some? ==> r.value.index == idx && Some(r.value) in b
    ensures r.None? <==> forall j :: 0 <= j < 64 ==> !Holds(b[j], idx)
  {
    PieceByIndexUpTo(b, idx, |b|)
  }

  /** Scan position `k` of the column-major search: column `k / 8`, row `k % 8`. */
  function ScanPos(k: int): (p: Position)
    requires 0 <= k < 64
    ensures IsValidPosition(p)
  {
    Position(k / 8, k % 8)
  }

  /** The first of scan positions `0 .. n-1` holding a piece with index `idx`. */
  function PiecePositionUpTo(b: Cells, idx: int, n: nat): (r: Option<Position>)
    requires n <= 64
    ensures r.Some? ==> IsValidPosition(r.value) && Holds(CellAt(b, r.value), idx)
    ensures r.None? ==> forall j :: 0 <= j < n ==> !Holds(CellAt(b, ScanPos(j)), idx)
  {
    if n == 0 then None
    else match PiecePositionUpTo(b, idx, n - 1)
      case Some(p) => Some(p)
      case None => if Holds(CellAt(b, ScanPos(n - 1)), idx) then Some(ScanPos(n - 1)) else None
  }

  /** The first position (column by column, each column bottom up) holding a piece with index `idx`. */
  function PiecePositionByIndex(b: Cells, idx: int): (r: Option<Position>)
    ensures r.Some? ==> IsValidPosition(r.value) && Holds(CellAt(b, r.value), idx)
  {
    PiecePositionUpTo(b, idx, |b|)
  }

  lemma ScanPosCovers(i: int)
    requires 0 <= i < 64
    ensures 0 <= (i % 8) * 8 + i / 8 < 64 && ScanPos((i % 8) * 8 + i / 8) == PosOf(i)
  {
  }

  /** The position lookup fails exactly when no cell holds a piece with that index. */
  lemma PiecePositionByIndexNone(b: Cells, idx: int)
    ensures PiecePositionByIndex(b, idx).None? <==> forall i :: 0 <= i < 64 ==> !Holds(b[i], idx)
  {
    if PiecePositionByIndex(b, idx).None? {
      forall i | 0 <= i < 64
        ensures !Holds(b[i], idx)
      {
        ScanPosCovers(i);
        CellAtPosOf(b, i);
      }
    } else {
      var p := PiecePositionByIndex(b, idx).value;
      assert Holds(b[ParsePos(p)], idx);
    }
  }

  /** On a board with unique indices, the lookups find the piece's own cell. */
  lemma LookupsFindCell(b: Cells, i: int)
    requires UniqueIndices(b)
    requires 0 <= i < 64 && b[i].Some?
    ensures PiecePositionByIndex(b, b[i].value.index) == Some(PosOf(i))
    ensures PieceByIndex(b, b[i].value.index) == b[i]
  {
    var idx := b[i].value.index;
    PiecePositionByIndexNone(b, idx);
    var p := PiecePositionByIndex(b, idx).value;
    assert SameIndex(b, ParsePos(p), i);
    var q := PieceByIndex(b, idx);
    var j :| 0 <= j < 64 && b[j] == q;
    assert SameIndex(b, j, i);
  }

  // ---------------------------------------------------------------------------
  // Capture chains

  /** Row directions a piece may use: forward only, or both ways for a king. */
  function Directions(piece: Piece, player: Color): (dirs: seq<int>)
    ensures DirY(player) in dirs
    ensures forall d :: d in dirs ==> d == DirY(player) || (piece.king && d == -DirY(player))
    ensures piece.king ==> -DirY(player) in dirs
  {
    if piece.king then [DirY(player), -DirY(player)] else [DirY(player)]
  }

  /** `to` is two cells away from `from` along a diagonal. */
  predicate IsJumpShape(from: Position, to: Position)
  {
    (to.x - from.x == 2 || to.x - from.x == -2) &&
    (to.y - from.y == 2 || to.y - from.y == -2)
  }

  /** The candidate landing cells of a jump, per direction first left then right. */
  function JumpTargets(pos: Position, dirs: seq<int>): (ts: seq<Position>)
    ensures |ts| == 2 * |dirs|
  {
    if dirs == [] then []
    else
      var d := dirs[|dirs| - 1];
      JumpTargets(pos, dirs[..|dirs| - 1]) + [Position(pos.x - 2, pos.y + 2 * d), Position(pos.x + 2, pos.y + 2 * d)]
  }

  /** Every candidate target is two columns away and two rows in one of the directions. */
  lemma {:induction false} JumpTargetsShape(pos: Position, dirs: seq<int>, t: Position)
    requires t in JumpTargets(pos, dirs)
    ensures t.y - pos.y == 2 * ((t.y - pos.y) / 2) && (t.y - pos.y) / 2 in dirs
    ensures t.x - pos.x == 2 || t.x - pos.x == -2
  {
    var front := dirs[..|dirs| - 1];
    if t in JumpTargets(pos, front) {
      JumpTargetsShape(pos, front, t);
      assert (t.y - pos.y) / 2 in front;
    }
  }

  /** The jump from `from` to `to` passes over an opponent piece onto an empty
      in-board cell: the test of `computePossibleMoves`, without its
      visited-cell guard. */
  predicate CanCapture(b: Cells, from: Position, to: Position, opp: Color)
  {
    IsJumpShape(from, to) &&
    IsValidPosition(to) &&
    IsValidPosition(Between(from, to)) &&
    CellAt(b, Between(from, to)).Some? &&
    CellAt(b, Between(from, to)).value.color == opp &&
    CellAt(b, to) == None
  }

  /** A jump the chain search takes: not onto a cell the chain already visited. */
  predicate Jumpable(b: Cells, pos: Position, cur: Move, t: Position, opp: Color)
  {
    t !in cur.steps && CanCapture(b, pos, t, opp)
  }

  /** `cur` followed by one more jump to `t` capturing `captured`. */
  function Extend(cur: Move, t: Position, captured: Piece): Move
  {
    Move(cur.piece, cur.steps + [t], cur.removePieces + [captured])
  }

  ghost function AllCells(): set<Position>
  {
    set x: int, y: int | 0 <= x < 8 && 0 <= y < 8 :: Position(x, y)
  }

  /** The in-board cells a chain has not landed on yet; it shrinks with every jump. */
  ghost function Unvisited(steps: seq<Position>): set<Position>
  {
    AllCells() - set s | s in steps
  }

  lemma UnvisitedShrinks(steps: seq<Position>, t: Position)
    requires IsValidPosition(t) && t !in steps
    ensures Unvisited(steps + [t]) < Unvisited(steps)
  {
    assert Position(t.x, t.y) in AllCells();
    assert t in Unvisited(steps) && t !in Unvisited(steps + [t]);
  }

  /** No further jump is possible from `pos`: the chain ends here. */
  predicate EndOfPath(b: Cells, pos: Position, cur: Move, ts: seq<Position>, opp: Color)
  {
    forall k :: 0 <= k < |ts| ==> !Jumpable(b, pos, cur, ts[k], opp)
  }

  /** All maximal capture chains that extend `cur`, whose last landing cell is
      `pos`, in the order of the depth-first search. */
  function Chains(b: Cells, pos: Position, cur: Move, dirs: seq<int>, opp: Color): seq<Move>
    decreases Unvisited(cur.steps), 2, 0
  {
    var ts := JumpTargets(pos, dirs);
    BranchesOver(b, pos, cur, ts, dirs, opp)
      + (if EndOfPath(b, pos, cur, ts, opp) && |cur.steps| > 0 then [cur] else [])
  }

  /** The chains found through each of the candidate targets `ts`, in order. */
  function BranchesOver(b: Cells, pos: Position, cur: Move, ts: seq<Position>, dirs: seq<int>, opp: Color): seq<Move>
    decreases Unvisited(cur.steps), 1, |ts|
  {
    if ts == [] then []
    else BranchesOver(b, pos, cur, ts[..|ts| - 1], dirs, opp) + Branch(b, pos, cur, ts[|ts| - 1], dirs, opp)
  }

  /** The chains found by jumping from `pos` to `t`, if that jump is taken. */
  function Branch(b: Cells, pos: Position, cur: Move, t: Position, dirs: seq<int>, opp: Color): seq<Move>
    decreases Unvisited(cur.steps), 0, 0
  {
    if Jumpable(b, pos, cur, t, opp) then
      UnvisitedShrinks(cur.steps, t);
      Chains(b, t, Extend(cur, t, CellAt(b, Between(pos, t)).value), dirs, opp)
    else []
  }

  // ---------------------------------------------------------------------------
  // Legal moves

  /** The pieces of `player`, in cell order. */
  function PiecesOf(b: seq<Option<Piece>>, player: Color): (ps: seq<Piece>)
    ensures forall p :: p in ps <==> Some(p) in b && p.color == player
  {
    if b == [] then []
    else PiecesOf(b[..|b| - 1], player)
         + (if b[|b| - 1].Some? && b[|b| - 1].value.color == player then [b[|b| - 1].value] else [])
  }

  /** The capture chains of one piece. */
  function PieceCaptures(b: Cells, piece: Piece, player: Color): seq<Move>
  {
    match PiecePositionByIndex(b, piece.index)
    case None => []
    case Some(pos) => Chains(b, pos, Move(piece, [], []), Directions(piece, player), Opposite(player))
  }

  function CapturesOf(b: Cells, ps: seq<Piece>, player: Color): seq<Move>
  {
    if ps == [] then []
    else CapturesOf(b, ps[..|ps| - 1], player) + PieceCaptures(b, ps[|ps| - 1], player)
  }

  /** The one-step targets of a piece: forward left and right, then (kings) backward. */
  function SimpleTargets(pos: Position, piece: Piece, player: Color): (ts: seq<Position>)
    ensures |ts| == if piece.king then 4 else 2
  {
    var d := DirY(player);
    [Position(pos.x - 1, pos.y + d), Position(pos.x + 1, pos.y + d)]
      + (if piece.king then [Position(pos.x - 1, pos.y - d), Position(pos.x + 1, pos.y - d)] else [])
  }

  /** Every one-step target is a diagonal neighbour, forward or, for a king,
      also backward. */
  lemma SimpleTargetsShape(pos: Position, piece: Piece, player: Color, t: Position)
    requires t in SimpleTargets(pos, piece, player)
    ensures t.x - pos.x == 1 || t.x - pos.x == -1
    ensures t.y - pos.y == DirY(player) || (piece.king && t.y - pos.y == -DirY(player))
  {
  }

  /** One-step moves of `piece` to the in-board empty cells among `ts`, in order. */
  function SimpleFrom(b: Cells, piece: Piece, ts: seq<Position>): seq<Move>
  {
    if ts == [] then []
    else SimpleFrom(b, piece, ts[..|ts| - 1])
         + (if IsValidPosition(ts[|ts| - 1]) && CellAt(b, ts[|ts| - 1]) == None
            then [Move(piece, [ts[|ts| - 1]], [])] else [])
  }

  function PieceSimples(b: Cells, piece: Piece, player: Color): seq<Move>
  {
    match PiecePositionByIndex(b, piece.index)
    case None => []
    case Some(pos) => SimpleFrom(b, piece, SimpleTargets(pos, piece, player))
  }

  function SimplesOf(b: Cells, ps: seq<Piece>, player: Color): seq<Move>
  {
    if ps == [] then []
    else SimplesOf(b, ps[..|ps| - 1], player) + PieceSimples(b, ps[|ps| - 1], player)
  }

  /** All legal moves of `player`: the capture chains of every piece if there
      is any, otherwise the one-step moves of every piece. */
  function PossibleMoves(b: Cells, player: Color): seq<Move>
  {
    var ps := PiecesOf(b, player);
    var captures := CapturesOf(b, ps, player);
    if |captures| == 0 then SimplesOf(b, ps, player) else captures
  }

  // ---------------------------------------------------------------------------
  // Applying a move

  /** Clears, one after the other, the cell where each piece of `rs` is found;
      None when one of them is not on the board, where `apply` would look up
      the cell of a null position. */
  function RemoveAll(b: Cells, rs: seq<Piece>): Option<Cells>
    decreases |rs|
  {
    if rs == [] then Some(b)
    else match PiecePositionByIndex(b, rs[0].index)
      case None => None
      case Some(p) => RemoveAll(SetCell(b, p, None), rs[1..])
  }

  /** The board after `m`: the piece leaves its cell for the last step, the
      captured pieces are cleared, and a man reaching its crowning row becomes a
      king. None when a piece to look up is not on the board. */
  function ApplyMove(b: Cells, m: Move): Option<Cells>
    requires |m.steps| > 0 && IsValidPosition(m.steps[|m.steps| - 1])
  {
    var fin := m.steps[|m.steps| - 1];
    match PieceByIndex(b, m.piece.index)
    case None => None
    case Some(piece) =>
      match PiecePositionByIndex(b, m.piece.index)
      case None => None
      case Some(from) =>
        match RemoveAll(SetCell(SetCell(b, from, None), fin, Some(piece)), m.removePieces)
        case None => None
        case Some(b2) =>
          if !piece.king && KingRow(m.piece.color) == fin.y
          then Some(SetCell(b2, fin, Some(Piece(piece.index, piece.color, true))))
          else Some(b2)
  }

  // ---------------------------------------------------------------------------
  // Opening layout

  /** The cell the opening layout gives to White piece `i` (0 <= i < 12). */
  function WhiteHome(i: int): (c: int)
    ensures 0 <= i < 12 ==> 0 <= c < 24 && (c % 8 + c / 8) % 2 == 0
  {
    i * 2 + (if i / 4 == 1 then 1 else 0)
  }

  /** The cell the opening layout gives to Black piece `12 + i` (0 <= i < 12). */
  function BlackHome(i: int): (c: int)
    ensures 0 <= i < 12 ==> 40 <= c < 64 && (c % 8 + c / 8) % 2 == 0
  {
    63 - i * 2 + (if i / 4 == 1 then -1 else 0)
  }

  /** The opening position, cell by cell: the dark squares (x + y even) of rows
      0-2 hold the White men 0-11 and those of rows 5-7 the Black men 12-23,
      each colour numbered from its own back corner. */
  function InitialCell(c: int): (r: Option<Piece>)
    requires 0 <= c < 64
    ensures r.Some? ==> !r.value.king && 0 <= r.value.index < 24
    ensures r.Some? ==> (r.value.color == White <==> r.value.index < 12)
    ensures r.Some? ==> (r.value.color == White <==> c < 24)
    ensures 24 <= c < 40 ==> r.None?
  {
    var x, y := c % 8, c / 8;
    if (x + y) % 2 != 0 then None
    else if y <= 2 then Some(Piece(y * 4 + x / 2, White, false))
    else if y >= 5 then Some(Piece(12 + (7 - y) * 4 + (7 - x) / 2, Black, false))
    else None
  }

  function InitialBoard(): Cells
  {
    seq(64, c requires 0 <= c < 64 => InitialCell(c))
  }
}
