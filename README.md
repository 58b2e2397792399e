# Checkers rules and computer player

This project is a Dafny model of the game core of a browser checkers
(draughts) game. The core has four parts:

- the 8×8 board, a 64-cell grid holding pieces;
- the move generator, with mandatory captures and multi-jump chains;
- applying a move, which removes captured pieces and crowns kings;
- the computer player, a depth-limited minimax search with alpha-beta
  pruning over the move tree, scored by a material heuristic times a random
  "clear thought" factor and configured by five difficulty profiles.

White men move towards increasing `y` and are crowned on row 7. Black men
move towards decreasing `y` and are crowned on row 0. Kings also move
backwards. When any piece of the player to move can capture, only capture
moves are legal, and each capture continues for as long as a further jump is
possible.

## Files

| file | module | contents |
|---|---|---|
| `primitives.dfy` | `Primitives` | colours, pieces, positions and moves; `opposite`, `isValidPosition`, `between`, `parsePos` |
| `utility.dfy` | `Utility` | `moveEquals` and `moveContainsPath`, with what they mean |
| `board.dfy` | `Board` | the board as a 64-cell sequence and every board rule as a function: lookups, the recursive capture search, the move list, applying a move, the opening position |
| `grid.dfy` | `GridObject` | the `Grid` class over a 64-cell `array`, whose methods are proved equal to the `Board` functions |
| `capture_proofs.dfy` | `CaptureRules` | the capture search finds exactly the maximal jump chains (sound and complete), no chain stops where another goes on, and a chain never jumps the same cell twice |
| `legal_moves.dfy` | `LegalMoves` | mandatory capture, the direction rule, the legal moves as exactly the maximal capture chains or the simple steps |
| `apply_proofs.dfy` | `ApplyRules` | every generated move applies, with its exact effect, and keeps piece indices unique |
| `ai_definitions.dfy` | `AIDefinitions` | the five profiles, lookup by name, the clear-thought noise factor, and the material heuristic |
| `game_tree.dfy` | `GameTree` | the move tree, its minimax value and best move under a profile's noise, the zero-sum property, draw-independence at full clear thought, and the fail-soft window facts |
| `engine.dfy` | `Engine` | `State.children`, `minMax`, `alphaBeta` and `eval` as methods proved against the minimax specification |

Each imperative source operation is written twice:

- as a `Grid` or `Engine` method with the source's loops and array updates;
- as a pure function of the board that the method is proved to compute.

The properties of the game are then proved about the functions.

The capture search (`findCaptureMoves`) recurses on a partial move. It keeps
a guard against landing twice on the same cell. `Board.Chains` terminates on
the set of cells not yet landed on.

`CaptureRules.MidCellsDistinct` shows that no chain jumps the same cell
twice, so no piece is removed twice. It rests on three facts:

- every landing cell lies a multiple of 2 away from the start in both
  coordinates, with `(dx + dy) / 2` even;
- under that parity, two jumps over one cell must land on each other's
  squares;
- the start cell stays occupied, and no landing cell repeats.

Each profile has a clear-thought level `c` between 0.5 and 1. A leaf's
score is its material balance times `1 + (1 - c)(2r - 1)`, where `r` is a
random draw in [0, 1). The searches take the draws as a function of the
search node, so every property of the search holds for every assignment of
draws to search nodes: pruning returns the minimax value and move when each
node gets the same draw in both searches, and the search is zero-sum. At `c = 1` ("Hard" and "Very hard") the factor is
exactly 1 and the chosen move does not depend on the draws
(`GameTree.ClearSearchIgnoresDraws`).

## Model

| member | source | states |
|---|---|---|
| `Primitives.Opposite` | src/app/classes/checkers.ts:210-212 | the opposite colour differs from the colour |
| `Primitives.OppositeInvolutive` | src/app/classes/checkers.ts:210-212 | taking the opposite twice gives back the colour |
| `Primitives.IsValidPosition` | src/app/classes/checkers.ts:419 | a position is on the board when both coordinates lie in 0..7; `Primitives.ParsePos` and `Primitives.ParsePosInjective` state the cell numbering of exactly these positions |
| `Primitives.Between` | src/app/classes/checkers.ts:421-423 | the cell half-way between two cells; `Primitives.BetweenIsMidpoint` states that for a jump it is the jumped cell |
| `Primitives.ColorsAreMirrored` | src/app/classes/checkers.ts:252-253 | the two colours move in opposite `y` directions and are crowned on opposite rows, White towards row 7 |
| `Primitives.DirY` | src/app/classes/checkers.ts:252 | a man of White advances by +1 row and one of Black by -1; the result is always 1 or -1 |
| `Primitives.KingRow` | src/app/classes/checkers.ts:363 | White is crowned on row 7 and Black on row 0; the result is always one of the two edge rows |
| `Primitives.BetweenIsMidpoint` | src/app/classes/checkers.ts:421-423 | for a two-cell diagonal jump, `between` is the exact midpoint |
| `Primitives.ParsePos` | src/app/classes/checkers.ts:345-347 | every valid position maps into 0..63, and that index decodes back to the position |
| `Primitives.ParsePosOfPosOf` | src/app/classes/checkers.ts:345-347 | encoding a decoded cell index gives the index back |
| `Primitives.ParsePosInjective` | src/app/classes/checkers.ts:345-347 | two valid positions share an index if and only if they are equal |
| `Utility.MoveEquals` | src/app/classes/checkers.ts:186-196 | move equality by piece index and step coordinates; `Utility.MoveEqualsIsSameIndexAndSteps` and `Utility.MoveEqualsIsEquivalence` state its meaning |
| `Utility.MoveContainsPath` | src/app/classes/checkers.ts:198-208 | whether a path starts the move's steps; `Utility.MoveContainsPathIsPrefix` states that it is the prefix relation |
| `Utility.MoveEqualsIsSameIndexAndSteps` | src/app/classes/checkers.ts:186-196 | two moves are equal if and only if they move the same piece index along the same steps |
| `Utility.MoveContainsPathIsPrefix` | src/app/classes/checkers.ts:198-208 | a path is contained in a move if and only if it is a prefix of the move's steps |
| `Utility.MoveEqualsIsEquivalence` | src/app/classes/checkers.ts:186-196 | move equality is reflexive, symmetric and transitive |
| `Utility.MoveEqualsContainsPath` | src/app/classes/checkers.ts:186-208 | equal moves each contain the other's full path |
| `Utility.FullPathIsMoveEquality` | src/app/classes/checkers.ts:186-208 | for one piece, containing the other's full path and having as many steps is the same as move equality |
| `Utility.ContainsPathPrefixClosed` | src/app/classes/checkers.ts:198-208 | every prefix of a contained path is contained |
| `Board.EmptyCells` | src/app/classes/checkers.ts:228-232 | a new grid has 64 empty cells |
| `Board.CellAt` | src/app/classes/checkers.ts:341-347 | the cell at a position, empty off the board; `Board.CellAtSetCell` and `Board.CellAtPosOf` state how it reads the board |
| `Board.SetCell` | src/app/classes/checkers.ts:336-338 | the board with one cell replaced; `Board.CellAtSetCell` states that only that cell changes |
| `Board.CellAtSetCell` | src/app/classes/checkers.ts:336-343 | reading after setting a cell gives the new value there and the old value everywhere else |
| `Board.CellAtPosOf` | src/app/classes/checkers.ts:341-347 | reading the position of cell `i` gives cell `i` |
| `Board.PieceByIndexUpTo` | src/app/classes/checkers.ts:378-385 | the search finds a piece with the wanted index in the cells scanned, or no scanned cell holds it |
| `Board.PieceByIndex` | src/app/classes/checkers.ts:378-385 | a piece on the board with the wanted index, or none if and only if no cell holds that index |
| `Board.PiecePositionUpTo` | src/app/classes/checkers.ts:391-401 | the column-by-column scan finds a valid position holding the index, or none of the scanned positions holds it |
| `Board.PiecePositionByIndex` | src/app/classes/checkers.ts:391-401 | a valid position holding the index; `Board.PiecePositionByIndexNone` states that it fails only when no cell holds it |
| `Board.ScanPosCovers` | src/app/classes/checkers.ts:391-401 | the column-major scan visits every cell |
| `Board.PiecePositionByIndexNone` | src/app/classes/checkers.ts:391-401 | the position lookup fails if and only if no cell holds the index |
| `Board.LookupsFindCell` | src/app/classes/checkers.ts:378-401 | when indices are unique, both lookups find a piece's own cell |
| `Board.Directions` | src/app/classes/checkers.ts:295-308 | the forward direction is always allowed, the backward one only and always for a king, and none other |
| `Board.JumpTargets` | src/app/classes/checkers.ts:261-264 | two jump targets per direction |
| `Board.JumpTargetsShape` | src/app/classes/checkers.ts:261-264 | each jump target lies two columns aside and two rows along an allowed direction |
| `Board.UnvisitedShrinks` | src/app/classes/checkers.ts:272-279 | landing on a new cell shrinks the set of cells not yet landed on, which bounds the recursion |
| `Board.CanCapture` | src/app/classes/checkers.ts:272-279 | a two-cell diagonal jump over an opponent piece onto an empty in-board cell; `GridObject.BranchStep` states that it is the in-loop test |
| `Board.Jumpable` | src/app/classes/checkers.ts:272-277 | the jump the search takes: a capture onto a cell the chain has not visited; `CaptureRules.ChainsSound` and `CaptureRules.ChainsComplete` state that exactly these jumps extend a chain |
| `Board.Extend` | src/app/classes/checkers.ts:279 | the partial move with one more landing cell and one more captured piece appended; `CaptureRules.NewStepOK` states that the new jump stays legal |
| `Board.EndOfPath` | src/app/classes/checkers.ts:266-290 | no target from the current cell is jumpable; `GridObject.ScanStep` states that the loop's `endOfPath` flag equals it, and `CaptureRules.ChainsSound` that pushed chains are maximal |
| `Board.Chains` | src/app/classes/checkers.ts:256-292 | the capture search from a partial move; `CaptureRules.ChainsFromStartSound` and `CaptureRules.ChainsFromStartComplete` state that from the empty move it returns exactly the well-formed maximal chains |
| `Board.BranchesOver` | src/app/classes/checkers.ts:268-283 | the target loop of the capture search; `CaptureRules.BranchesOverMember` and `CaptureRules.BranchesOverContains` state that it collects the branches of all targets |
| `Board.Branch` | src/app/classes/checkers.ts:272-281 | one target's branch; `GridObject.BranchStep` states that it recurses exactly when the jump is possible |
| `Board.PiecesOf` | src/app/classes/checkers.ts:295-299 | a piece is listed if and only if it stands on the board with the player's colour |
| `Board.SimpleTargets` | src/app/classes/checkers.ts:312-321 | a man has two diagonal targets and a king four |
| `Board.SimpleTargetsShape` | src/app/classes/checkers.ts:316-321 | each simple target is one column aside and one row along an allowed direction |
| `Board.SimpleFrom` | src/app/classes/checkers.ts:323-327 | one-step moves to the valid, empty targets in order; `LegalMoves.SimpleFromMembership` states membership if and only if the target is valid and empty |
| `Board.PieceSimples` | src/app/classes/checkers.ts:312-330 | the simple moves of one piece from its own cell; `LegalMoves.PieceSimplesAt` and `LegalMoves.SimpleShape` state their shape |
| `Board.SimplesOf` | src/app/classes/checkers.ts:312-330 | the simple moves of the listed pieces in order; `LegalMoves.SimplesOfMember` and `LegalMoves.SimplesOfContains` state both directions of membership |
| `Board.PieceCaptures` | src/app/classes/checkers.ts:301-309 | the capture chains of one piece from its own cell and directions; `LegalMoves.PieceCapturesAt` and `LegalMoves.CaptureShape` state their shape |
| `Board.CapturesOf` | src/app/classes/checkers.ts:301-309 | the capture chains of the listed pieces in order; `LegalMoves.CapturesOfMember` and `LegalMoves.CapturesOfContains` state both directions of membership |
| `Board.PossibleMoves` | src/app/classes/checkers.ts:242-334 | the legal moves; `LegalMoves.MoveShape`, `LegalMoves.CaptureMovesExact`, `LegalMoves.MandatoryCapture` and `LegalMoves.SimpleMoveGenerated` state what they are |
| `Board.RemoveAll` | src/app/classes/checkers.ts:357-360 | the board with the captured pieces' cells cleared; `ApplyRules.RemoveAllEffect` states that exactly those cells are emptied |
| `Board.ApplyMove` | src/app/classes/checkers.ts:349-370 | the board after a move; `ApplyRules.ApplyMoveEffect` and `ApplyRules.GeneratedApplies` state its effect |
| `Board.InitialBoard` | src/app/classes/checkers.ts:403-417 | the opening position; `GridObject.HomeCells`, `GridObject.HomeCellsExact` and `GridObject.InitialBoardUnique` state its layout |
| `Board.WhiteHome` | src/app/classes/checkers.ts:408-409 | the White man `i` of the opening stands on a dark cell of rows 0-2 |
| `Board.BlackHome` | src/app/classes/checkers.ts:408-410 | the Black man `12 + i` of the opening stands on a dark cell of rows 5-7 |
| `Board.InitialCell` | src/app/classes/checkers.ts:403-417 | an opening cell holds a man, never a king, with index below 24, White exactly for indices below 12 and on the cells of rows 0-2; rows 3-4 are empty; `GridObject.HomeCells` ties it to the source's formulas |
| `CaptureRules.BranchesOverMember` | src/app/classes/checkers.ts:268-283 | every move from the target loop comes from the branch of one target |
| `CaptureRules.BranchesOverContains` | src/app/classes/checkers.ts:268-283 | every move of one target's branch is in the loop's result |
| `CaptureRules.ChainsSound` | src/app/classes/checkers.ts:256-292 | every move found extends the partial move, with one captured piece per step, each step a legal jump, and no further jump possible at its end |
| `CaptureRules.JumpSound` | src/app/classes/checkers.ts:275-281 | the same for the moves found after one jump |
| `CaptureRules.StepsFrom` | src/app/classes/checkers.ts:268-283 | legal steps from `n + 1` on plus a legal step `n` give legal steps from `n` on |
| `CaptureRules.NewStepOK` | src/app/classes/checkers.ts:275-281 | the jump just made is recorded as a legal step of every move that extends it |
| `CaptureRules.ChainsNonEmpty` | src/app/classes/checkers.ts:266-290 | a search started after at least one jump always yields a move |
| `CaptureRules.ChainsFromStart` | src/app/classes/checkers.ts:256-292 | from a piece's cell the search finds a capture if and only if a first jump is possible |
| `CaptureRules.ChainsFromStartHasJump` | src/app/classes/checkers.ts:256-292 | a capture found from the start implies a possible first jump |
| `CaptureRules.JumpGivesChain` | src/app/classes/checkers.ts:256-292 | a possible first jump implies that a capture is found |
| `CaptureRules.ChainsFromStartSound` | src/app/classes/checkers.ts:256-292 | every capture found from the start is a well-formed, maximal jump chain of that piece |
| `CaptureRules.JumpTargetsContain` | src/app/classes/checkers.ts:261-264 | every two-cell diagonal jump along an allowed direction is among the computed targets |
| `CaptureRules.ChainsComplete` | src/app/classes/checkers.ts:256-292 | every well-formed maximal chain is found by the search from each of its own prefixes |
| `CaptureRules.ChainsFromStartComplete` | src/app/classes/checkers.ts:256-292 | every well-formed maximal chain of the piece is found from the empty move |
| `CaptureRules.NoChainExtendsAnother` | src/app/classes/checkers.ts:266-290 | the landing cells of a maximal chain are never a proper prefix of another chain's from the same cell |
| `CaptureRules.StepBlocksEnd` | src/app/classes/checkers.ts:266-290 | helper of `CaptureRules.NoChainExtendsAnother`: a legal next jump from the end of a shorter chain means that chain is not maximal |
| `CaptureRules.ChainParity` | src/app/classes/checkers.ts:261-264 | every landing cell of a chain keeps the parity class of the start |
| `CaptureRules.JumpKeepsClass` | src/app/classes/checkers.ts:261-264 | one jump keeps the parity class |
| `CaptureRules.JumpsOverSameCell` | src/app/classes/checkers.ts:275 | two jumps within one parity class over the same cell land on each other's cells |
| `CaptureRules.MidCellsDistinct` | src/app/classes/checkers.ts:268-283 | no chain from an occupied cell jumps over the same cell twice |
| `CaptureRules.LaterStepAvoids` | src/app/classes/checkers.ts:272-273 | a later landing cell is neither an earlier landing cell nor an earlier origin |
| `LegalMoves.PieceOnBoard` | src/app/classes/checkers.ts:295-299 | a listed piece stands on some cell with the player's colour |
| `LegalMoves.CapturesOfMember` | src/app/classes/checkers.ts:301-309 | every collected capture belongs to one listed piece |
| `LegalMoves.CapturesOfContains` | src/app/classes/checkers.ts:301-309 | every capture of a listed piece is collected |
| `LegalMoves.SimplesOfMember` | src/app/classes/checkers.ts:312-330 | every collected simple move belongs to one listed piece |
| `LegalMoves.SimplesOfContains` | src/app/classes/checkers.ts:312-330 | every simple move of a listed piece is collected |
| `LegalMoves.SimpleFromMembership` | src/app/classes/checkers.ts:323-327 | a simple move is produced if and only if its one target is a valid, empty cell among the targets |
| `LegalMoves.SimpleFromWitness` | src/app/classes/checkers.ts:323-327 | a produced simple move names its valid, empty target |
| `LegalMoves.PieceCapturesAt` | src/app/classes/checkers.ts:301-309 | a piece's captures are searched from its own cell with its own directions |
| `LegalMoves.PieceSimplesAt` | src/app/classes/checkers.ts:312-330 | a piece's simple moves are taken from its own cell |
| `LegalMoves.SimpleTargetGenerated` | src/app/classes/checkers.ts:323-327 | every valid, empty target gives a simple move |
| `LegalMoves.PieceListed` | src/app/classes/checkers.ts:295-299 | every piece of the player on the board is listed |
| `LegalMoves.CapturesGiveHasCapture` | src/app/classes/checkers.ts:301-310 | collected captures imply that some piece has a jump |
| `LegalMoves.WitnessGivesPieceCaptures` | src/app/classes/checkers.ts:301-309 | a piece with a jump has at least one capture |
| `LegalMoves.CapturesOfNonEmpty` | src/app/classes/checkers.ts:301-309 | one piece with a capture makes the collected list non-empty |
| `LegalMoves.HasCaptureGivesCaptures` | src/app/classes/checkers.ts:301-310 | a piece with a jump makes the collected captures non-empty |
| `LegalMoves.CapturesIffHasCapture` | src/app/classes/checkers.ts:301-310 | captures are collected if and only if some piece of the player can jump |
| `LegalMoves.CaptureShape` | src/app/classes/checkers.ts:256-309 | every capture starts at the moving piece's cell and is a maximal jump chain in its directions |
| `LegalMoves.CaptureChainGenerated` | src/app/classes/checkers.ts:256-309 | every well-formed maximal capture chain of a piece of the player, from its own cell, is a legal move |
| `LegalMoves.CaptureMovesExact` | src/app/classes/checkers.ts:242-334 | when a capture exists, a move is legal if and only if it is a maximal capture chain of a piece of the player from its cell |
| `LegalMoves.NoMoveStopsShort` | src/app/classes/checkers.ts:242-334 | no legal move of a piece has steps that are a proper prefix of another legal move of the same piece |
| `LegalMoves.SimpleShape` | src/app/classes/checkers.ts:312-330 | every simple move is one diagonal step of the piece into a valid, empty cell |
| `LegalMoves.SimpleFromIsSimpleMove` | src/app/classes/checkers.ts:316-327 | the moves built from the simple targets are simple moves |
| `LegalMoves.MoveShape` | src/app/classes/checkers.ts:242-334 | every legal move belongs to a piece of the player; it is a capture chain when a capture exists and a simple step otherwise |
| `LegalMoves.MandatoryCapture` | src/app/classes/checkers.ts:301-333 | when a capture exists there are moves and every move captures once per jump; when none exists every move is one step capturing nothing |
| `LegalMoves.DirectionRule` | src/app/classes/checkers.ts:252-321 | every step of a legal move runs forward by one row (two for a jump), and runs backward only for a king |
| `LegalMoves.SimpleMoveGenerated` | src/app/classes/checkers.ts:312-330 | without captures, every step of a piece into a valid, empty target is a legal move |
| `LegalMoves.CapturedCellsDistinct` | src/app/classes/checkers.ts:256-309 | no legal capture jumps over the same cell twice |
| `ApplyRules.Cleared` | src/app/classes/checkers.ts:357-360 | cells in the list become empty, the others are kept |
| `ApplyRules.Moved` | src/app/classes/checkers.ts:349-370 | the piece is at its destination, the start and the captured cells are empty, and every other cell is unchanged |
| `ApplyRules.Crowned` | src/app/classes/checkers.ts:363-367 | the piece keeps index and colour, and is a king if and only if it was one or it ends on its colour's crowning row |
| `ApplyRules.JumpedCells` | src/app/classes/checkers.ts:357-360 | one jumped cell per captured piece, each the midpoint of its step |
| `ApplyRules.ClearKeepsUnique` | src/app/classes/checkers.ts:357-360 | clearing a cell keeps piece indices unique |
| `ApplyRules.MoveKeepsUnique` | src/app/classes/checkers.ts:352-356 | moving a piece to an empty cell keeps piece indices unique |
| `ApplyRules.ClearedKeepsUnique` | src/app/classes/checkers.ts:357-360 | clearing any cells keeps piece indices unique |
| `ApplyRules.RemoveAllEffect` | src/app/classes/checkers.ts:357-360 | removing pieces that sit on distinct known cells empties exactly those cells |
| `ApplyRules.HoldsAllTail` | src/app/classes/checkers.ts:357-360 | after the first removal the remaining pieces still sit on their cells |
| `ApplyRules.ClearedTail` | src/app/classes/checkers.ts:357-360 | clearing the first cell and then the rest is clearing them all |
| `ApplyRules.ShiftCells` | src/app/classes/checkers.ts:355-356 | setting through positions is setting through cell indices |
| `ApplyRules.ShiftEffect` | src/app/classes/checkers.ts:352-356 | the moving piece is found by index at its own cell, and the shift clears that cell and fills the destination |
| `ApplyRules.ApplyMoveEffect` | src/app/classes/checkers.ts:349-370 | a move whose captured pieces sit on distinct cells, away from its start, applies, with the `Moved` and `Crowned` effect |
| `ApplyRules.ChainCellHolds` | src/app/classes/checkers.ts:275-279 | each jumped cell is valid and holds the captured opponent piece recorded for that step |
| `ApplyRules.JumpedCellsDistinct` | src/app/classes/checkers.ts:268-283 | the jumped cells of a chain are pairwise distinct |
| `ApplyRules.ChainCells` | src/app/classes/checkers.ts:256-309 | the captured pieces of a legal chain sit on distinct jumped cells, none of them the start |
| `ApplyRules.CaptureApplies` | src/app/classes/checkers.ts:349-370 | a legal capture ends on a valid, empty cell and applies, with its exact effect |
| `ApplyRules.SimpleApplies` | src/app/classes/checkers.ts:349-370 | a legal simple move applies, with its exact effect |
| `ApplyRules.ShapedApplies` | src/app/classes/checkers.ts:349-370 | a move of either shape applies, with its exact effect, and keeps indices unique |
| `ApplyRules.GeneratedApplies` | src/app/classes/checkers.ts:242-370 | every generated move applies to its board: the piece moves, is crowned as the rule says, the jumped cells are emptied, and nothing else changes |
| `ApplyRules.AppliedKeepsUnique` | src/app/classes/checkers.ts:349-370 | applying a move keeps piece indices unique |
| `ApplyRules.MoveApplies` | src/app/classes/checkers.ts:242-370 | every generated move applies and the resulting board keeps piece indices unique |
| `GridObject.PieceByIndexUpToStable` | src/app/classes/checkers.ts:378-385 | once found, the index search result does not change with more cells |
| `GridObject.PiecePositionUpToStable` | src/app/classes/checkers.ts:391-401 | once found, the position search result does not change with more cells |
| `GridObject.ScanPosColumnRow` | src/app/classes/checkers.ts:392-397 | the nested loops visit `(x, y)` at scan step `8x + y` |
| `GridObject.ListedPieceFound` | src/app/classes/checkers.ts:295-305 | every listed piece has a position |
| `GridObject.ScanStep` | src/app/classes/checkers.ts:268-283 | each round of the target loop appends that target's branch, and the end-of-path flag tracks whether no jump was possible yet |
| `GridObject.ScanDone` | src/app/classes/checkers.ts:266-290 | after the loop, pushing the partial move at the end of a path gives the capture search's result |
| `GridObject.JumpShapeOfTarget` | src/app/classes/checkers.ts:261-264 | every computed target has the shape of a jump |
| `GridObject.BranchStep` | src/app/classes/checkers.ts:272-281 | the source's in-loop tests are exactly `Jumpable`, and the branch recurses only when they hold |
| `GridObject.ChainsUnfold` | src/app/classes/checkers.ts:256-292 | the capture search is the union of its branches, plus the partial move at the end of a path |
| `GridObject.Grid.constructor` | src/app/classes/checkers.ts:228-232 | a new grid has 64 empty cells |
| `GridObject.Grid.Get` | src/app/classes/checkers.ts:341-343 | reads the cell at the position, and nothing off the board |
| `GridObject.Grid.Set` | src/app/classes/checkers.ts:336-338 | writes that one cell and leaves all others unchanged |
| `GridObject.Grid.Copy` | src/app/classes/checkers.ts:372-376 | a fresh grid with a fresh array and the same cells |
| `GridObject.Grid.GetPieceByIndex` | src/app/classes/checkers.ts:378-385 | the piece with that index on the board, or none if and only if no cell holds it |
| `GridObject.Grid.GetPiecePosition` | src/app/classes/checkers.ts:387-389 | the position of the piece's index, a valid cell holding it |
| `GridObject.Grid.GetPiecePositionByIndex` | src/app/classes/checkers.ts:391-401 | the column-major scan result, a valid cell holding the index |
| `GridObject.Grid.Create` | src/app/classes/checkers.ts:403-417 | a fresh grid in the opening position |
| `GridObject.Grid.Apply` | src/app/classes/checkers.ts:349-370 | the grid afterwards is the board `ApplyMove` gives |
| `GridObject.Grid.JumpCandidates` | src/app/classes/checkers.ts:261-264 | the jump targets in source order |
| `GridObject.Grid.FindCaptureMoves` | src/app/classes/checkers.ts:256-292 | appends exactly `Chains` to the output list |
| `GridObject.Grid.ScanRound` | src/app/classes/checkers.ts:268-283 | one round of the target loop appends that target's branch and keeps the end-of-path flag exact |
| `GridObject.Grid.TryJump` | src/app/classes/checkers.ts:272-281 | reports whether the jump is possible and appends its branch |
| `GridObject.Grid.ComputePossibleMoves` | src/app/classes/checkers.ts:242-334 | the list of legal moves, `PossibleMoves` |
| `GridObject.Grid.PiecesOfPlayer` | src/app/classes/checkers.ts:295-299 | the player's pieces in board order |
| `GridObject.Grid.AddCaptureMoves` | src/app/classes/checkers.ts:301-309 | appends the piece's captures |
| `GridObject.Grid.AddSimpleMoves` | src/app/classes/checkers.ts:312-330 | appends the piece's simple moves |
| `GridObject.Grid.AddSimpleFrom` | src/app/classes/checkers.ts:323-327 | appends a one-step move for each valid, empty target |
| `GridObject.CapturesOfSnoc` | src/app/classes/checkers.ts:301-309 | one more piece appends its captures |
| `GridObject.SimplesOfSnoc` | src/app/classes/checkers.ts:312-330 | one more piece appends its simple moves |
| `GridObject.HomeCells` | src/app/classes/checkers.ts:403-417 | white man `i` starts on its home cell, and black man `i + 12` on its own |
| `GridObject.HomeCellsExact` | src/app/classes/checkers.ts:403-417 | every occupied opening cell is the home cell of its piece |
| `GridObject.WhiteHomeExact` | src/app/classes/checkers.ts:403-417 | the occupied opening cells of rows 0-2 are the white men's homes |
| `GridObject.BlackHomeExact` | src/app/classes/checkers.ts:403-417 | the occupied opening cells from row 3 on are the black men's homes |
| `GridObject.PlacedCellStep` | src/app/classes/checkers.ts:407-412 | one round of the opening loop places one white and one black man |
| `GridObject.PlacedCellAll` | src/app/classes/checkers.ts:404-412 | after twelve rounds the grid is the opening position |
| `GridObject.InitialBoardUnique` | src/app/classes/checkers.ts:403-417 | the opening position has unique piece indices |
| `AIDefinitions.Level` | src/app/classes/checkers.ts:82-178 | difficulty levels run from 1 to 5 |
| `AIDefinitions.Find` | src/app/classes/checkers.ts:181 | the first profile with the name, or none if and only if no profile has it |
| `AIDefinitions.GetByName` | src/app/classes/checkers.ts:180-182 | the profile named, or none if and only if no profile has that name |
| `AIDefinitions.FindOwnName` | src/app/classes/checkers.ts:180-182 | among distinct names, each profile is found under its own name |
| `AIDefinitions.ProfileTable` | src/app/classes/checkers.ts:82-178 | the five profiles and their depths 2, 2, 4, 6, 10 and clear thought 0.5, 0.8, 0.8, 1, 1 |
| `AIDefinitions.NamesDistinct` | src/app/classes/checkers.ts:72-78 | the profile names are pairwise distinct |
| `AIDefinitions.ProfilesOrdered` | src/app/classes/checkers.ts:82-178 | harder profiles look at least as deep and think at least as clearly |
| `AIDefinitions.ClearThoughtRange` | src/app/classes/checkers.ts:82-178 | every profile's clear thought lies between 0.5 and 1 |
| `AIDefinitions.Factor` | src/app/classes/checkers.ts:497 | the noise factor of a draw; `AIDefinitions.FactorBounds` states its range |
| `AIDefinitions.FactorBounds` | src/app/classes/checkers.ts:497 | for a draw in [0, 1) the factor lies in [clearThought, 2 - clearThought), strictly below the top when clear thought is below 1, and it is 1 for every draw if and only if clear thought is 1 |
| `AIDefinitions.ScaleBounds` | src/app/classes/checkers.ts:497 | helper of `AIDefinitions.FactorBounds`: an amplitude `e >= 0` times a swing in [-1, 1) stays within [-e, e), strictly below `e` when `e > 0` |
| `AIDefinitions.ScaleNegated` | src/app/classes/checkers.ts:90-98 | helper of `GameTree.LeafValueNegated`: scaling a negated balance negates the scaled value |
| `AIDefinitions.Material` | src/app/classes/checkers.ts:90-98 | the material balance; `AIDefinitions.MaterialAntisymmetric`, `AIDefinitions.MaterialIsWorthDifference` and `AIDefinitions.MaterialBounded` state its meaning |
| `AIDefinitions.CellScore` | src/app/classes/checkers.ts:93-95 | an empty cell scores 0; a piece scores positive exactly when it has the scored colour, and 2 in magnitude exactly when it is a king |
| `AIDefinitions.Heuristic` | src/app/classes/checkers.ts:90-98 | the loop's score is the material balance of the board |
| `AIDefinitions.MaterialAntisymmetric` | src/app/classes/checkers.ts:90-97 | the balance for one colour is minus the balance for the other |
| `AIDefinitions.MaterialIsWorthDifference` | src/app/classes/checkers.ts:90-97 | the balance is the own weighted piece count minus the opponent's, with kings counting 2 |
| `AIDefinitions.MaterialBounded` | src/app/classes/checkers.ts:90-97 | each cell moves the balance by at most 2 |
| `GameTree.Child` | src/app/classes/checkers.ts:445-448 | a child's board keeps piece indices unique |
| `GameTree.IsLeaf` | src/app/classes/checkers.ts:498-501 | the heuristic case: no depth left or no child; `GameTree.Minimax` scores exactly these nodes by `GameTree.LeafValue` |
| `GameTree.ChildNodes` | src/app/classes/checkers.ts:436-450 | no children at depth 0, otherwise one per legal move in order, with the other player to move and one level less |
| `GameTree.ChildNodeAt` | src/app/classes/checkers.ts:445-448 | each child's board is the parent's board with its move applied |
| `GameTree.FirstMax` | src/app/classes/checkers.ts:507-519 | the index of the first greatest value |
| `GameTree.FirstMin` | src/app/classes/checkers.ts:521-534 | the index of the first least value |
| `GameTree.FirstOfNegated` | src/app/classes/checkers.ts:507-534 | negating the values swaps the first maximum and the first minimum |
| `GameTree.LeafValue` | src/app/classes/checkers.ts:497-501 | the heuristic times the noise factor of the node's draw; `GameTree.LeafValueNegated` and `GameTree.ClearSearchIgnoresDraws` state its properties |
| `GameTree.LeafValueNegated` | src/app/classes/checkers.ts:497-501 | the noise favours neither side: a leaf scores for the opponent minus what it scores for the player |
| `GameTree.Minimax` | src/app/classes/checkers.ts:493-579 | the minimax value; `GameTree.BestChildIsOptimal` and `GameTree.ZeroSum` state its properties, `Engine.MinMax` and `Engine.AlphaBeta` that the searches compute it |
| `GameTree.BestMove` | src/app/classes/checkers.ts:507-537 | the move of the first best child; `GameTree.BestMoveIsLegal` and `GameTree.RootMove` state that it is legal |
| `GameTree.Search` | src/app/classes/checkers.ts:493-579 | value and move together; `Engine.MinMax` and `Engine.AlphaBeta` compute it |
| `GameTree.BestIndex` | src/app/classes/checkers.ts:507-534 | the chosen child is one of the children |
| `GameTree.BestChildIsOptimal` | src/app/classes/checkers.ts:507-534 | the chosen child carries the node's value, and it is the first child that is best for the player to move |
| `GameTree.BestMoveIsLegal` | src/app/classes/checkers.ts:507-537 | below an inner node the best move is one of its legal moves |
| `GameTree.RootMove` | src/app/classes/checkers.ts:479-490 | from the root, no move is returned if and only if there is no depth or no legal move, and otherwise a legal move |
| `GameTree.ZeroSum` | src/app/classes/checkers.ts:493-579 | the value of every node for one player is minus its value for the other |
| `GameTree.ChildValuesNegated` | src/app/classes/checkers.ts:493-579 | the children's values for the opponent are the negated values |
| `GameTree.SameMoveForBoth` | src/app/classes/checkers.ts:493-579 | the search picks the same move whichever player it scores for |
| `GameTree.ClearSearchIgnoresDraws` | src/app/classes/checkers.ts:497-501 | at clear thought 1 every leaf scores its material balance, and the value and move do not depend on the random draws |
| `GameTree.MaxE` | src/app/classes/checkers.ts:516 | the larger window bound |
| `GameTree.MinE` | src/app/classes/checkers.ts:530 | the smaller window bound |
| `GameTree.FailSoftFullWindow` | src/app/classes/checkers.ts:493 | with the infinite default window the fail-soft value is exact |
| `GameTree.FailSoftSides` | src/app/classes/checkers.ts:493-538 | a fail-soft result lies on the same side of the window as the true value |
| `GameTree.FirstMaxUnique` | src/app/classes/checkers.ts:507-519 | a first greatest index is the first maximum |
| `GameTree.FirstMinUnique` | src/app/classes/checkers.ts:521-534 | a first least index is the first minimum |
| `GameTree.MaxScanStep` | src/app/classes/checkers.ts:510-519 | one round of the maximising loop keeps the scan invariant, and a cut-off already gives a fail-soft value |
| `GameTree.MaxScanDone` | src/app/classes/checkers.ts:507-537 | a completed maximising scan gives a fail-soft value, exact with its move in the full window |
| `GameTree.MinScanStep` | src/app/classes/checkers.ts:524-533 | one round of the minimising loop keeps the scan invariant, and a cut-off already gives a fail-soft value |
| `GameTree.MinScanDone` | src/app/classes/checkers.ts:521-537 | a completed minimising scan gives a fail-soft value, exact with its move in the full window |
| `Engine.Children` | src/app/classes/checkers.ts:436-450 | the states realise exactly the child nodes, in move order |
| `Engine.ApplyEach` | src/app/classes/checkers.ts:445-448 | mapping the moves gives one state per child node |
| `Engine.ChildState` | src/app/classes/checkers.ts:446-447 | copying, applying the move and flipping the turn gives the child node |
| `Engine.ChildrenScored` | src/app/classes/checkers.ts:493-579 | every child lies one level deeper and has its minimax value |
| `Engine.InnerSearch` | src/app/classes/checkers.ts:507-537 | at an inner node the search result is the first best child's value and move |
| `Engine.Leaf` | src/app/classes/checkers.ts:497-501 | the heuristic times the noise factor of the state's draw, with the move that led there |
| `Engine.MinMax` | src/app/classes/checkers.ts:541-579 | returns the minimax value and the first best move of the state |
| `Engine.MinMaxMax` | src/app/classes/checkers.ts:555-564 | the maximising loop returns the first greatest child value and its move |
| `Engine.MinMaxMin` | src/app/classes/checkers.ts:565-574 | the minimising loop returns the first least child value and its move |
| `Engine.MinMaxMaxStep` | src/app/classes/checkers.ts:558-563 | one round keeps the maximum so far and its first move |
| `Engine.MinMaxMinStep` | src/app/classes/checkers.ts:568-573 | one round keeps the minimum so far and its first move |
| `Engine.MinMaxChild` | src/app/classes/checkers.ts:559 | the recursive call gives the child's minimax value |
| `Engine.AlphaBeta` | src/app/classes/checkers.ts:493-538 | the result is a fail-soft bound on the minimax value inside the window, and in the full window equals plain minimax, move included |
| `Engine.AlphaBetaMax` | src/app/classes/checkers.ts:507-519 | the maximising loop with cut-off gives a fail-soft bound on the greatest child value, exact with its move in the full window |
| `Engine.AlphaBetaMaxStep` | src/app/classes/checkers.ts:510-519 | one round raises `alpha` to the best value so far and, at a cut-off, already has a fail-soft value |
| `Engine.AlphaBetaMin` | src/app/classes/checkers.ts:521-534 | the minimising loop with cut-off gives a fail-soft bound on the least child value, exact with its move in the full window |
| `Engine.AlphaBetaMinStep` | src/app/classes/checkers.ts:524-533 | one round lowers `beta` to the best value so far and, at a cut-off, already has a fail-soft value |
| `Engine.AlphaBetaChild` | src/app/classes/checkers.ts:511 | the recursive call gives a fail-soft bound on the child's value in the current window |
| `Engine.Eval` | src/app/classes/checkers.ts:479-490 | the move is the first best move of the minimax tree at the profile's depth under the profile's noise with the given draws: none if and only if the player has no legal move, otherwise a legal move |

## Left out

- `Engine.Eval`: the random number generator (checkers.ts 497 and 545) is the parameter `draw`, a function of the search node. Two equal nodes reached along different paths therefore see one draw, where the source draws afresh at each call. The source's `minMax` and `alphaBeta` also take their draws from one random stream in different orders, so the model's statement that both searches agree holds per assignment of draws to nodes, not per stream. The draws the source makes at inner nodes, which it never uses, are not modelled. Whether each draw lies in [0, 1) is not required; `AIDefinitions.FactorBounds` states the range of the factor when it does.
- Scores are exact reals. IEEE floating-point rounding of the heuristic times the factor is not modelled.
- `AIDefinitions.Heuristic`: one heuristic is modelled for all profiles, because the five profiles (checkers.ts 90-98, 109-117, 128-136, 147-155, 166-174) carry the same heuristic body.
- `Engine.evalInWorker`, the web worker and its JSON messages (checkers.ts 461-477) are left out: they are concurrency and I/O.
- `Grid.fromJson`, `Grid.toJson`, the grid `uuid` counter, and the UI and rendering code are left out. None of them affects the game rules.
- `GridObject.Grid.Set`: requires a valid position. The source writes through `parsePos`, so an invalid position such as (8, 0) overwrites a different cell of the board (here cell 8, which is (0, 1)), and one such as (0, -1) writes outside the 64 cells.
- `Board.ApplyMove` and `Board.RemoveAll`: return None where the source would dereference a missing piece or position. The source crashes there; `ApplyRules.MoveApplies` shows this never happens for a generated move.
- `Board.ApplyMove` and `GridObject.Grid.Apply`: require a move with at least one step ending on a valid cell. The source reads the last step without checking; every generated move meets this (`ApplyRules.MoveApplies`).
- `AIDefinitions.GetByName`: returns None for an unknown name instead of failing on the missing result. `Engine.Eval` therefore requires a known profile name.
- `Engine.Eval`, `Engine.MinMax`, `Engine.AlphaBeta`: require the board's piece indices to be unique. The opening position has this property (`GridObject.InitialBoardUnique`), and every generated move keeps it (`ApplyRules.MoveApplies`). Lookups by index in the source assume this.
- `Engine.Children`: states the children's nodes, not that their grids are distinct objects. `GridObject.Grid.Copy` states that each copy is fresh.
- `Engine.MinMax` and `Engine.AlphaBeta`: each max and min loop and each round of it is a separate method. The `break` on `alpha >= beta` is a `return` of the same value and move.
- `Primitives.Between`: only its use on two-cell jumps is specified. That is its only use in the source.
- `Primitives.Opposite` models both `Utility.opposite` and the inline `opposite` of `computePossibleMoves` and `State.children`, which compute the same colour.
