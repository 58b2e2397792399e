/** Value types shared by the rules engine and the search: colours, pieces,
    board coordinates and moves, with the small helpers on coordinates. */
module Primitives {

  datatype Option<T> = None | Some(value: T)

  datatype Color = White | Black

  /** A piece is a plain value; its identity is `index`. */
  datatype Piece = Piece(index: int, color: Color, king: bool)

  /** A board coordinate or a waypoint of a move (not necessarily on the board). */
  datatype Position = Position(x: int, y: int)

  /** `steps` are the landing cells in order; `removePieces` the pieces captured
      along the way, in capture order. */
  datatype Move = Move(piece: Piece, steps: seq<Position>, removePieces: seq<Piece>)

  /** The other player. */
  function Opposite(c: Color): (r: Color)
    ensures r != c
  {
    if c == White then Black else White
  }

  lemma OppositeInvolutive(c: Color)
    ensures Opposite(Opposite(c)) == c
  {
  }

  /** Row direction in which a non-king piece of colour `c` advances. */
  function DirY(c: Color): (d: int)
    ensures d == 1 || d == -1
  {
    if c == White then 1 else -1
  }

  /** The row on which a piece of colour `c` is crowned. */
  function KingRow(c: Color): (row: int)
    ensures row == 0 || row == 7
  {
    if c == White then 7 else 0
  }

  /** The two colours advance in opposite directions, each toward the other's crowning row. */
  lemma ColorsAreMirrored(c: Color)
    ensures DirY(Opposite(c)) == -DirY(c)
    ensures KingRow(Opposite(c)) == 7 - KingRow(c)
    ensures KingRow(c) == 7 * (1 + DirY(c)) / 2
  {
  }

  predicate IsValidPosition(p: Position)
  {
    0 <= p.x < 8 && 0 <= p.y < 8
  }

  /** The cell halfway between two cells. Only ever asked for the two ends of
      a two-cell diagonal jump, whose coordinate sums are even, so the division
      is exact there. */
  function Between(a: Position, b: Position): Position
  {
    Position((a.x + b.x) / 2, (a.y + b.y) / 2)
  }

  /** For a two-cell diagonal jump, `Between` is the cell jumped over: one step
      from each end. */
  lemma BetweenIsMidpoint(a: Position, b: Position)
    requires b.x - a.x == 2 || b.x - a.x == -2
    requires b.y - a.y == 2 || b.y - a.y == -2
    ensures Between(a, b).x - a.x == b.x - Between(a, b).x == (b.x - a.x) / 2
    ensures Between(a, b).y - a.y == b.y - Between(a, b).y == (b.y - a.y) / 2
  {
  }

  /** Linear index `y*8+x` of an in-board cell. */
  function ParsePos(p: Position): (i: int)
    requires IsValidPosition(p)
    ensures 0 <= i < 64
    ensures PosOf(i) == p
  {
    p.y * 8 + p.x
  }

  /** The in-board cell stored at linear index `i`. */
  function PosOf(i: int): (p: Position)
    requires 0 <= i < 64
    ensures IsValidPosition(p)
  {
    Position(i % 8, i / 8)
  }

  lemma ParsePosOfPosOf(i: int)
    requires 0 <= i < 64
    ensures ParsePos(PosOf(i)) == i
  {
  }

  lemma ParsePosInjective(p: Position, q: Position)
    requires IsValidPosition(p) && IsValidPosition(q)
    ensures ParsePos(p) == ParsePos(q) <==> p == q
  {
    assert PosOf(ParsePos(p)) == p && PosOf(ParsePos(q)) == q;
  }
}
