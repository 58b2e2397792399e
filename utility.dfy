/** The move predicates used by the search and by the move-selection boundary. */
module Utility {
  import opened Primitives

  /** Two moves are equal when they move the same piece (by index) along the
      same landing cells; the captured pieces are not compared. */
  predicate MoveEquals(a: Move, b: Move)
  {
    a.piece.index == b.piece.index &&
    |a.steps| == |b.steps| &&
    forall i :: 0 <= i < |a.steps| ==> a.steps[i].x == b.steps[i].x && a.steps[i].y == b.steps[i].y
  }

  /** `p` is a (possibly partial) path the move `m` follows from its start. */
  predicate MoveContainsPath(p: seq<Position>, m: Move)
  {
    |p| <= |m.steps| &&
    forall i :: 0 <= i < |p| ==> p[i].x == m.steps[i].x && p[i].y == m.steps[i].y
  }

  /** Move equality is exactly "same piece index and same step sequence". */
  lemma MoveEqualsIsSameIndexAndSteps(a: Move, b: Move)
    ensures MoveEquals(a, b) <==> a.piece.index == b.piece.index && a.steps == b.steps
  {
    if MoveEquals(a, b) {
      assert forall i :: 0 <= i < |a.steps| ==> a.steps[i] == b.steps[i];
    }
  }

  /** Path containment is the prefix relation on step sequences. */
  lemma MoveContainsPathIsPrefix(p: seq<Position>, m: Move)
    ensures MoveContainsPath(p, m) <==> p <= m.steps
  {
    if MoveContainsPath(p, m) {
      assert forall i :: 0 <= i < |p| ==> p[i] == m.steps[i];
      assert p == m.steps[..|p|];
    }
  }

  lemma MoveEqualsIsEquivalence(a: Move, b: Move, c: Move)
    ensures MoveEquals(a, a)
    ensures MoveEquals(a, b) ==> MoveEquals(b, a)
    ensures MoveEquals(a, b) && MoveEquals(b, c) ==> MoveEquals(a, c)
  {
  }

  /** An equal move's full path is contained in the other move. */
  lemma MoveEqualsContainsPath(a: Move, b: Move)
    requires MoveEquals(a, b)
    ensures MoveContainsPath(a.steps, b) && MoveContainsPath(b.steps, a)
  {
  }

  /** A path contained in a move of the same length and piece identifies that move. */
  lemma FullPathIsMoveEquality(a: Move, b: Move)
    requires a.piece.index == b.piece.index
    ensures MoveContainsPath(a.steps, b) && |a.steps| == |b.steps| <==> MoveEquals(a, b)
  {
  }

  /** Every prefix of a contained path is contained too. */
  lemma ContainsPathPrefixClosed(p: seq<Position>, k: nat, m: Move)
    requires MoveContainsPath(p, m) && k <= |p|
    ensures MoveContainsPath(p[..k], m)
  {
  }
}
