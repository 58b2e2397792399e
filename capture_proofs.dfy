/** What the capture-chain search produces: every chain is a sequence of legal
    jumps in the piece's directions over opponent pieces onto empty cells,
    never lands twice on a cell, never jumps the same cell twice, and ends only
    where no further jump is possible. */
module CaptureRules {
  import opened Primitives
  import opened Board

  /** The cell the `k`-th jump starts from: the start cell, then each landing cell. */
  function From(st: Position, steps: seq<Position>, k: int): Position
    requires 0 <= k <= |steps|
  {
    if k == 0 then st else steps[k - 1]
  }

  /** The `k`-th step of `m` is a legal jump from the previous cell, in one of
      the directions `dirs`, capturing the piece it passes over, onto a cell
      the move has not landed on before. */
  predicate StepOK(b: Cells, st: Position, m: Move, k: int, dirs: seq<int>, opp: Color)
  {
    0 <= k < |m.steps| && k < |m.removePieces| &&
    CanCapture(b, From(st, m.steps, k), m.steps[k], opp) &&
    (m.steps[k].y - From(st, m.steps, k).y) / 2 in dirs &&
    m.removePieces[k] == CellAt(b, Between(From(st, m.steps, k), m.steps[k])).value &&
    m.steps[k] !in m.steps[..k]
  }

  /** No further jump is available from the last landing cell of `m`. */
  predicate Maximal(b: Cells, m: Move, dirs: seq<int>, opp: Color)
  {
    |m.steps| > 0 &&
    var last := m.steps[|m.steps| - 1];
    EndOfPath(b, last, m, JumpTargets(last, dirs), opp)
  }

  /** A well-formed maximal capture chain of the piece standing on `st`. */
  predicate IsCaptureChain(b: Cells, st: Position, m: Move, dirs: seq<int>, opp: Color)
  {
    |m.steps| == |m.removePieces| && |m.steps| >= 1 &&
    (forall k :: 0 <= k < |m.steps| ==> StepOK(b, st, m, k, dirs, opp)) &&
    Maximal(b, m, dirs, opp)
  }

  lemma BranchesOverMember(b: Cells, pos: Position, cur: Move, ts: seq<Position>, dirs: seq<int>, opp: Color, m: Move)
    returns (j: int)
    requires m in BranchesOver(b, pos, cur, ts, dirs, opp)
    ensures 0 <= j < |ts| && m in Branch(b, pos, cur, ts[j], dirs, opp)
    decreases |ts|
  {
    var front := ts[..|ts| - 1];
    if m in BranchesOver(b, pos, cur, front, dirs, opp) {
      j := BranchesOverMember(b, pos, cur, front, dirs, opp, m);
      assert ts[j] == front[j];
    } else {
      j := |ts| - 1;
    }
  }

  lemma BranchesOverContains(b: Cells, pos: Position, cur: Move, ts: seq<Position>, dirs: seq<int>, opp: Color, j: int, m: Move)
    requires 0 <= j < |ts| && m in Branch(b, pos, cur, ts[j], dirs, opp)
    ensures m in BranchesOver(b, pos, cur, ts, dirs, opp)
    decreases |ts|
  {
    if j < |ts| - 1 {
      var front := ts[..|ts| - 1];
      assert front[j] == ts[j];
      BranchesOverContains(b, pos, cur, front, dirs, opp, j, m);
    }
  }

  /** Every move the chain search returns from the partial chain `cur`, which
      ends at `pos`, extends `cur` by legal jumps and is maximal. */
  lemma {:induction false} ChainsSound(b: Cells, st: Position, pos: Position, cur: Move, dirs: seq<int>, opp: Color, m: Move)
    requires |cur.steps| == |cur.removePieces|
    requires pos == From(st, cur.steps, |cur.steps|)
    requires m in Chains(b, pos, cur, dirs, opp)
    ensures m.piece == cur.piece && |m.steps| == |m.removePieces| && |m.steps| > 0
    ensures cur.steps <= m.steps && cur.removePieces <= m.removePieces
    ensures forall k :: |cur.steps| <= k < |m.steps| ==> StepOK(b, st, m, k, dirs, opp)
    ensures Maximal(b, m, dirs, opp)
    decreases Unvisited(cur.steps), 1
  {
    var ts := JumpTargets(pos, dirs);
    if m in BranchesOver(b, pos, cur, ts, dirs, opp) {
      var j := BranchesOverMember(b, pos, cur, ts, dirs, opp, m);
      assert ts[j] in ts;
      JumpSound(b, st, pos, cur, dirs, opp, ts[j], m);
    } else {
      assert m == cur;
    }
  }

  /** The case of `ChainsSound` where the search jumps from `pos` to `t` first. */
  lemma {:induction false} JumpSound(b: Cells, st: Position, pos: Position, cur: Move, dirs: seq<int>, opp: Color, t: Position, m: Move)
    requires |cur.steps| == |cur.removePieces|
    requires pos == From(st, cur.steps, |cur.steps|)
    requires t in JumpTargets(pos, dirs) && Jumpable(b, pos, cur, t, opp)
    requires m in Chains(b, t, Extend(cur, t, CellAt(b, Between(pos, t)).value), dirs, opp)
    ensures m.piece == cur.piece && |m.steps| == |m.removePieces| && |m.steps| > 0
    ensures cur.steps <= m.steps && cur.removePieces <= m.removePieces
    ensures forall k :: |cur.steps| <= k < |m.steps| ==> StepOK(b, st, m, k, dirs, opp)
    ensures Maximal(b, m, dirs, opp)
    decreases Unvisited(cur.steps), 0
  {
    var captured := CellAt(b, Between(pos, t)).value;
    var next := Extend(cur, t, captured);
    UnvisitedShrinks(cur.steps, t);
    assert From(st, next.steps, |next.steps|) == t;
    ChainsSound(b, st, t, next, dirs, opp, m);
    NewStepOK(b, st, pos, cur, dirs, opp, t, m);
    StepsFrom(b, st, m, |cur.steps|, dirs, opp);
  }

  lemma StepsFrom(b: Cells, st: Position, m: Move, n: int, dirs: seq<int>, opp: Color)
    requires StepOK(b, st, m, n, dirs, opp)
    requires forall k :: n + 1 <= k < |m.steps| ==> StepOK(b, st, m, k, dirs, opp)
    ensures forall k :: n <= k < |m.steps| ==> StepOK(b, st, m, k, dirs, opp)
  {
  }

  /** The jump that extends `cur` to `t`, seen as step `|cur.steps|` of a move `m` extending both. */
  lemma NewStepOK(b: Cells, st: Position, pos: Position, cur: Move, dirs: seq<int>, opp: Color, t: Position, m: Move)
    requires |cur.steps| == |cur.removePieces|
    requires pos == From(st, cur.steps, |cur.steps|)
    requires t in JumpTargets(pos, dirs) && Jumpable(b, pos, cur, t, opp)
    requires |m.steps| > |cur.steps| && |m.removePieces| > |cur.removePieces|
    requires cur.steps + [t] <= m.steps
    requires cur.removePieces + [CellAt(b, Between(pos, t)).value] <= m.removePieces
    ensures StepOK(b, st, m, |cur.steps|, dirs, opp)
  {
    var n := |cur.steps|;
    JumpTargetsShape(pos, dirs, t);
    assert m.steps[..n + 1] == cur.steps + [t];
    assert m.steps[..n] == cur.steps by {
      assert m.steps[..n] == m.steps[..n + 1][..n];
    }
    assert m.steps[n] == t by {
      assert m.steps[n] == m.steps[..n + 1][n];
    }
    assert m.removePieces[n] == CellAt(b, Between(pos, t)).value by {
      assert m.removePieces[..n + 1] == cur.removePieces + [CellAt(b, Between(pos, t)).value];
      assert m.removePieces[n] == m.removePieces[..n + 1][n];
    }
    assert From(st, m.steps, n) == pos;
  }

  /** A partial chain with at least one jump always yields at least one move. */
  lemma {:induction false} ChainsNonEmpty(b: Cells, pos: Position, cur: Move, dirs: seq<int>, opp: Color)
    requires |cur.steps| > 0
    ensures |Chains(b, pos, cur, dirs, opp)| > 0
    decreases Unvisited(cur.steps)
  {
    var ts := JumpTargets(pos, dirs);
    if !EndOfPath(b, pos, cur, ts, opp) {
      var j :| 0 <= j < |ts| && Jumpable(b, pos, cur, ts[j], opp);
      var t := ts[j];
      var next := Extend(cur, t, CellAt(b, Between(pos, t)).value);
      UnvisitedShrinks(cur.steps, t);
      ChainsNonEmpty(b, t, next, dirs, opp);
      var m := Chains(b, t, next, dirs, opp)[0];
      BranchesOverContains(b, pos, cur, ts, dirs, opp, j, m);
    }
  }

  /** From an empty chain the search finds a move exactly when a first jump exists. */
  lemma ChainsFromStart(b: Cells, pos: Position, piece: Piece, dirs: seq<int>, opp: Color)
    ensures |Chains(b, pos, Move(piece, [], []), dirs, opp)| > 0
        <==> exists t :: t in JumpTargets(pos, dirs) && CanCapture(b, pos, t, opp)
  {
    if |Chains(b, pos, Move(piece, [], []), dirs, opp)| > 0 {
      ChainsFromStartHasJump(b, pos, piece, dirs, opp);
    }
    if exists t :: t in JumpTargets(pos, dirs) && CanCapture(b, pos, t, opp) {
      var t :| t in JumpTargets(pos, dirs) && CanCapture(b, pos, t, opp);
      JumpGivesChain(b, pos, piece, dirs, opp, t);
    }
  }

  lemma ChainsFromStartHasJump(b: Cells, pos: Position, piece: Piece, dirs: seq<int>, opp: Color)
    requires |Chains(b, pos, Move(piece, [], []), dirs, opp)| > 0
    ensures exists t :: t in JumpTargets(pos, dirs) && CanCapture(b, pos, t, opp)
  {
    var cur := Move(piece, [], []);
    var ts := JumpTargets(pos, dirs);
    var m := Chains(b, pos, cur, dirs, opp)[0];
    assert m in BranchesOver(b, pos, cur, ts, dirs, opp);
    var j := BranchesOverMember(b, pos, cur, ts, dirs, opp, m);
    assert ts[j] in ts && CanCapture(b, pos, ts[j], opp);
  }

  lemma JumpGivesChain(b: Cells, pos: Position, piece: Piece, dirs: seq<int>, opp: Color, t: Position)
    requires t in JumpTargets(pos, dirs) && CanCapture(b, pos, t, opp)
    ensures |Chains(b, pos, Move(piece, [], []), dirs, opp)| > 0
  {
    var cur := Move(piece, [], []);
    var ts := JumpTargets(pos, dirs);
    var j :| 0 <= j < |ts| && ts[j] == t;
    var next := Extend(cur, t, CellAt(b, Between(pos, t)).value);
    ChainsNonEmpty(b, t, next, dirs, opp);
    var m := Chains(b, t, next, dirs, opp)[0];
    assert m in Branch(b, pos, cur, t, dirs, opp);
    BranchesOverContains(b, pos, cur, ts, dirs, opp, j, m);
  }

  /** Every complete chain searched from the piece's own cell is a well-formed maximal chain. */
  lemma ChainsFromStartSound(b: Cells, st: Position, piece: Piece, dirs: seq<int>, opp: Color, m: Move)
    requires m in Chains(b, st, Move(piece, [], []), dirs, opp)
    ensures m.piece == piece && IsCaptureChain(b, st, m, dirs, opp)
  {
    ChainsSound(b, st, st, Move(piece, [], []), dirs, opp, m);
  }

  /** Every cell two columns away and two rows in one of the directions is a
      candidate target: the converse of `JumpTargetsShape`. */
  lemma {:induction false} JumpTargetsContain(pos: Position, dirs: seq<int>, t: Position) returns (j: int)
    requires IsJumpShape(pos, t) && (t.y - pos.y) / 2 in dirs
    ensures 0 <= j < |JumpTargets(pos, dirs)| && JumpTargets(pos, dirs)[j] == t
    decreases |dirs|
  {
    var front, d := dirs[..|dirs| - 1], dirs[|dirs| - 1];
    var ts := JumpTargets(pos, dirs);
    assert dirs == front + [d];
    if (t.y - pos.y) / 2 == d {
      j := if t.x - pos.x == -2 then |ts| - 2 else |ts| - 1;
    } else {
      assert (t.y - pos.y) / 2 in front;
      j := JumpTargetsContain(pos, front, t);
    }
  }

  /** Completeness of the search from a partial chain: a well-formed maximal
      chain `m` is among the chains the search returns from its first `n`
      jumps. */
  lemma {:induction false} ChainsComplete(b: Cells, st: Position, m: Move, n: int, dirs: seq<int>, opp: Color)
    requires IsCaptureChain(b, st, m, dirs, opp) && 0 <= n <= |m.steps|
    ensures m in Chains(b, From(st, m.steps, n), Move(m.piece, m.steps[..n], m.removePieces[..n]), dirs, opp)
    decreases |m.steps| - n
  {
    var pos := From(st, m.steps, n);
    var cur := Move(m.piece, m.steps[..n], m.removePieces[..n]);
    var ts := JumpTargets(pos, dirs);
    if n == |m.steps| {
      assert cur == m;
    } else {
      assert StepOK(b, st, m, n, dirs, opp);
      var t := m.steps[n];
      var j := JumpTargetsContain(pos, dirs, t);
      assert Jumpable(b, pos, cur, t, opp);
      assert m.steps[..n + 1] == cur.steps + [t];
      assert m.removePieces[..n + 1] == cur.removePieces + [m.removePieces[n]];
      ChainsComplete(b, st, m, n + 1, dirs, opp);
      assert m in Branch(b, pos, cur, ts[j], dirs, opp);
      BranchesOverContains(b, pos, cur, ts, dirs, opp, j, m);
    }
  }

  /** Every well-formed maximal chain of `piece` from its own cell is found by
      the search from the empty chain: with `ChainsFromStartSound`, the search
      returns exactly these chains. */
  lemma ChainsFromStartComplete(b: Cells, st: Position, piece: Piece, dirs: seq<int>, opp: Color, m: Move)
    requires m.piece == piece && IsCaptureChain(b, st, m, dirs, opp)
    ensures m in Chains(b, st, Move(piece, [], []), dirs, opp)
  {
    ChainsComplete(b, st, m, 0, dirs, opp);
    assert m.steps[..0] == [] && m.removePieces[..0] == [];
  }

  /** A chain never stops where another chain from the same cell goes on: the
      landing cells of one maximal chain are never a proper prefix of another's. */
  lemma NoChainExtendsAnother(b: Cells, st: Position, m: Move, m': Move, dirs: seq<int>, opp: Color)
    requires IsCaptureChain(b, st, m, dirs, opp) && IsCaptureChain(b, st, m', dirs, opp)
    ensures !(m'.steps < m.steps)
  {
    if m'.steps < m.steps {
      assert StepOK(b, st, m, |m'.steps|, dirs, opp);
      StepBlocksEnd(b, st, m, m', dirs, opp);
    }
  }

  /** A legal next jump after the cells of `m'` means `m'` is not maximal. */
  lemma StepBlocksEnd(b: Cells, st: Position, m: Move, m': Move, dirs: seq<int>, opp: Color)
    requires 0 < |m'.steps| < |m.steps| && m'.steps == m.steps[..|m'.steps|]
    requires StepOK(b, st, m, |m'.steps|, dirs, opp)
    ensures !Maximal(b, m', dirs, opp)
  {
    var k := |m'.steps|;
    var last, t := m'.steps[k - 1], m.steps[k];
    assert From(st, m.steps, k) == last;
    assert t !in m'.steps && CanCapture(b, last, t, opp);
    var j := JumpTargetsContain(last, dirs, t);
    assert Jumpable(b, last, m', JumpTargets(last, dirs)[j], opp);
  }

  // ---------------------------------------------------------------------------
  // Captured cells are pairwise distinct

  /** `p` is reachable from `st` by diagonal jumps of two cells. */
  predicate SameJumpClass(st: Position, p: Position)
  {
    (p.x - st.x) % 2 == 0 && (p.y - st.y) % 2 == 0 && ((p.x - st.x) + (p.y - st.y)) % 4 == 0
  }

  /** The cell the `k`-th jump of `m` passes over. */
  function MidCell(st: Position, m: Move, k: int): Position
    requires 0 <= k < |m.steps|
  {
    var f, t := From(st, m.steps, k), m.steps[k];
    Position((f.x + t.x) / 2, (f.y + t.y) / 2)
  }

  lemma {:induction false} ChainParity(b: Cells, st: Position, m: Move, dirs: seq<int>, opp: Color, k: int)
    requires IsCaptureChain(b, st, m, dirs, opp)
    requires 0 <= k <= |m.steps|
    ensures SameJumpClass(st, From(st, m.steps, k))
  {
    if k > 0 {
      ChainParity(b, st, m, dirs, opp, k - 1);
      assert StepOK(b, st, m, k - 1, dirs, opp);
      var f := From(st, m.steps, k - 1);
      var t := m.steps[k - 1];
      assert From(st, m.steps, k) == t;
      JumpKeepsClass(st, f, t);
    }
  }

  /** A two-cell diagonal jump stays in the jump class. */
  lemma JumpKeepsClass(st: Position, f: Position, t: Position)
    requires SameJumpClass(st, f) && IsJumpShape(f, t)
    ensures SameJumpClass(st, t)
  {
    var a, c := (f.x - st.x) + (f.y - st.y), (t.x - st.x) + (t.y - st.y);
    assert c - a == 4 || c == a || c - a == -4;
  }

  /** Two jumps over the same cell, between cells of one jump class, either
      land on the same cell or the second lands where the first started. */
  lemma JumpsOverSameCell(st: Position, f1: Position, t1: Position, f2: Position, t2: Position)
    requires IsJumpShape(f1, t1) && IsJumpShape(f2, t2)
    requires SameJumpClass(st, f1) && SameJumpClass(st, t1) && SameJumpClass(st, t2)
    ensures (f1.x + t1.x) / 2 == (f2.x + t2.x) / 2 && (f1.y + t1.y) / 2 == (f2.y + t2.y) / 2
            ==> t2 == t1 || t2 == f1
  {
  }

  /** No cell is jumped over twice in one chain: the two landing cells of a jump
      over a given cell are then both occupied or visited, and the other
      diagonal through it is out of reach of two-cell jumps. */
  lemma MidCellsDistinct(b: Cells, st: Position, m: Move, dirs: seq<int>, opp: Color, k1: int, k2: int)
    requires IsCaptureChain(b, st, m, dirs, opp)
    requires CellAt(b, st).Some?
    requires 0 <= k1 < k2 < |m.steps|
    ensures MidCell(st, m, k1) != MidCell(st, m, k2)
  {
    assert StepOK(b, st, m, k1, dirs, opp) && StepOK(b, st, m, k2, dirs, opp);
    var f1, t1 := From(st, m.steps, k1), m.steps[k1];
    var f2, t2 := From(st, m.steps, k2), m.steps[k2];
    ChainParity(b, st, m, dirs, opp, k1);
    ChainParity(b, st, m, dirs, opp, k2 + 1);
    ChainParity(b, st, m, dirs, opp, k1 + 1);
    assert From(st, m.steps, k1 + 1) == t1 && From(st, m.steps, k2 + 1) == t2;
    JumpsOverSameCell(st, f1, t1, f2, t2);
    LaterStepAvoids(b, st, m, dirs, opp, k1, k2);
  }

  /** A later landing cell is neither an earlier landing cell nor an earlier
      starting cell: the chain never lands twice on one cell, and the start
      cell is occupied by the moving piece. */
  lemma LaterStepAvoids(b: Cells, st: Position, m: Move, dirs: seq<int>, opp: Color, k1: int, k2: int)
    requires IsCaptureChain(b, st, m, dirs, opp)
    requires CellAt(b, st).Some?
    requires 0 <= k1 < k2 < |m.steps|
    ensures m.steps[k2] != m.steps[k1] && m.steps[k2] != From(st, m.steps, k1)
  {
    assert StepOK(b, st, m, k2, dirs, opp);
    assert m.steps[k1] in m.steps[..k2];
    if k1 > 0 {
      assert m.steps[k1 - 1] in m.steps[..k2];
    }
  }
}
