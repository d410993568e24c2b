# Quoridor rules engine and search AI, modelled in Dafny

This project models the core of a two-player Quoridor game:

- **The rules engine** (`QuoridorGame` in `game/logic.py`):
  - the 9×9 board, with pawns at `(4, 8)` and `(4, 0)` and ten walls each;
  - wall blocking and neighbours;
  - pawn moves with straight and diagonal jumps;
  - the shortest path to a goal row;
  - wall legality, including the rule that no wall may cut a player off;
  - applying and undoing moves;
  - the undo/redo snapshot stacks;
  - the hashable state key.
- **The search AI** (`AI` in `game/ai.py`):
  - the evaluation;
  - candidate moves, meaning every pawn move plus the legal walls near the opponent's shortest path, shuffled;
  - depth-limited minimax with alpha-beta cutoffs and a transposition table, exploring by apply/undo on one game object.
- **The constants** of `GameConfig` (`config.py:49-54`):
  - `MaxHistory`;
  - `AiDepthEasy` and `AiDepthHard`;
  - `WinScore`;
  - `WallSearchRadius`.

The modules, in dependency order:

- `Wrappers`: `Option`.
- `Board`: cells, walls, `IsWallBlocking`, `Neighbors` and walks.
- `PathFinder`: `shortest_path` and `shortest_path_len`.
  - Breadth-first layers `Reach(k)` give the reference distance `Dist` and `PathLen`. Unreachable is reported as `999`.
  - The imperative search is proved against them. It keeps a frontier, a came-from map and the path read back through it.
- `Rules`: the board as a value `State`.
  - Moves and transitions: `Apply`, the undo token, `Unapply`, pawn moves and wall legality.
  - `Valid`, an invariant that legal play keeps. It says neither player is ever cut off from the goal row, the wall counts add up, and the placed walls sit on slots and never clash.
- `StateKey`: `get_hashable_state`, where the walls are sorted with Python's tuple order.
- `History`: the snapshot stacks as values (`Commit`, `Undone`, `Redone`).
- `Game`: `class QuoridorGame`, whose methods update its fields in place. Each method is proved against `Rules` and `History`.
- `Search`: `class AI` with the evaluation, the move generation and minimax.

The winner `None` of the source is `NoWinner == 0`. `float('inf')` in minimax is the integer `Infinity == 1_000_000`. `ScoreBounds` shows that, for wall counts in 0..10, every evaluation lies strictly between the two sentinels.

## Model

| member | source | states |
|---|---|---|
| Board.IsWallBlocking | game/logic.py:31-44 | a step is blocked only between cells that share a column or a row, and only when the list holds a wall of the orientation that crosses it (horizontal for a step within a column, vertical within a row) |
| Board.BlockingIsCovering | game/logic.py:31-44 | for one orthogonal step, the slot test is blocking exactly when some placed wall geometrically covers that step |
| Board.BlockingSymmetric | game/logic.py:31-44 | blocking does not depend on the direction of the step |
| Board.Neighbors | game/logic.py:46-54 | at most four neighbours (one per candidate direction) |
| Board.NeighborsSpec | game/logic.py:46-54 | a cell is a neighbour exactly when it is on the board, one orthogonal step away and not blocked |
| Board.NeighborsSymmetric | game/logic.py:46-54 | for cells on the board, `c` is a neighbour of `p` exactly when `p` is a neighbour of `c` |
| Board.NeighborsDependOnMembers | game/logic.py:38-43 | only which walls are in the list matters (membership tests), not their order or multiplicity |
| PathFinder.ExpandMembers | game/logic.py:104-109 | one expansion step yields exactly the neighbours of the cells expanded |
| PathFinder.ReachHasWalk | game/logic.py:104-109 | every cell of layer `k` ends a walk of at most `k` steps from the start |
| PathFinder.WalkInReach | game/logic.py:104-109 | the end of an `n`-step walk lies in layer `n` |
| PathFinder.StableAt | game/logic.py:90-112 | once a layer adds nothing, no later layer adds anything |
| PathFinder.NoShorterPath | game/logic.py:79-112 | any path to the goal row rules out "no distance" and is at least as long as the distance |
| PathFinder.DistBound | game/logic.py:79-112 | a distance is at most the number of cells |
| PathFinder.DistHasPath | game/logic.py:79-112 | a distance is realised by a path of exactly that many steps |
| PathFinder.DistIsShortest | game/logic.py:79-112 | no distance exactly when no path reaches the row; otherwise a shortest path of that length exists |
| PathFinder.PathLenIsShortest | game/logic.py:114-116 | the reported length is in 0..999; it is below 999 exactly when the row is reachable; it is minimal over all paths and realised by one |
| PathFinder.TreeAdd | game/logic.py:106-108 | recording `came_from[n] = current` for a new neighbour keeps the search tree well formed |
| PathFinder.Reconstruct | game/logic.py:95-100 | following `came_from` back from a cell and reversing gives a walk from the start to that cell, as long as its depth |
| PathFinder.LayerDone | game/logic.py:104-109 | the cells discovered while expanding layer `k` are exactly layer `k + 1` minus what was seen |
| PathFinder.Discover | game/logic.py:104-109 | expanding one cell adds exactly its unseen neighbours to the next layer and keeps the tree |
| PathFinder.ExpandLayer | game/logic.py:90-109 | a layer either yields a goal cell with the walk to it, or is goal-free and yields the next layer |
| PathFinder.LayerFound | game/logic.py:95-102 | the first layer holding a goal cell gives a walk as long as the distance |
| PathFinder.LayerAdvance | game/logic.py:90-109 | a goal-free layer hands the search invariant on to the next layer, and the seen set grows |
| PathFinder.DistStep | game/logic.py:111-112 | past a goal-free layer the distance moves on to the next layer, or there is none when the layers stop growing |
| PathFinder.SearchInit | game/logic.py:84-88 | the search starts from the start cell alone, with no predecessor |
| PathFinder.SearchStep | game/logic.py:90-109 | one loop iteration finds the shortest path, or advances the invariant while the seen set strictly grows |
| PathFinder.FoundIsShortest | game/logic.py:95-102 | the path returned is a path to the row, no longer than any other |
| PathFinder.NoneIsUnreachable | game/logic.py:111-112 | when no distance exists there is no path at all |
| PathFinder.ShortestPath | game/logic.py:79-112 | `[]` exactly when the row is unreachable; otherwise a path to the row, no longer than any other, with `PathLen` steps |
| PathFinder.ShortestPathLen | game/logic.py:114-116 | the number of steps of a shortest path, or 999 exactly when the row is unreachable |
| Rules.ApplySpec | game/logic.py:152-161 | the mover's pawn moves, or a wall is appended and costs the mover one wall; nothing else moves; the turn passes; the winner follows the pawn rows and is never cleared |
| Rules.UndoAfterApply | game/logic.py:163-191 | undoing with the token that `apply_move_fast` returns restores the board exactly |
| Rules.Without | game/logic.py:73-74 | the opponent's neighbours other than the mover's own cell |
| Rules.StepsMembers | game/logic.py:63-76 | the moves gathered over the neighbours: each non-opponent neighbour, plus the jump destinations when the opponent is a neighbour |
| Rules.PawnMovesSpec | game/logic.py:56-77 | none after a win; otherwise the open neighbours except the opponent, plus the straight jump if open, else the opponent's other neighbours |
| Rules.OpenColumns | game/logic.py:6-8 | any cell of an empty board reaches both goal rows |
| Rules.InitialValid | game/logic.py:6-15 | the initial board satisfies the invariant |
| Rules.ReachableFromNeighbor | game/logic.py:46-54 | a neighbour of a cell that reaches a row reaches it too |
| Rules.NeighborOnBoard | game/logic.py:46-54 | a neighbour is on the board, adjacent and distinct |
| Rules.PawnMoveSound | game/logic.py:56-77 | a pawn move lands on the board, off both pawns, and keeps the goal row reachable |
| Rules.JumpIsNeighbor | game/logic.py:64-71 | an open straight jump lands on a neighbour of the opponent |
| Rules.LegalKeepsValid | game/logic.py:122-161 | a legal pawn move or legal wall keeps the invariant: pawns on the board and apart, counts in 0..10 summing with the walls to 20, every placed wall on a slot in 0..7 and clashing with no wall placed before it, both goal rows reachable, winner consistent |
| Rules.NoMoveAfterWin | game/logic.py:57 | once there is a winner no move is legal |
| StateKey.WallOrderTotal | game/logic.py:119 | the order on `((x, y), orient)` tuples is total and antisymmetric |
| StateKey.InsertSorted | game/logic.py:119 | inserting into a sorted list keeps it sorted and adds exactly that wall |
| StateKey.SortWallsSpec | game/logic.py:119 | `sorted(walls)` is sorted and a permutation of the walls |
| StateKey.SortedUnique | game/logic.py:119 | two sorted lists holding the same walls are equal |
| StateKey.HashableStateSpec | game/logic.py:118-120 | the key keeps the pawns, the wall counts and the turn, and lists the placed walls sorted, each as often as placed |
| StateKey.KeyIgnoresWallOrder | game/logic.py:118-120 | two boards get equal keys exactly when pawns, counts and turn agree and they hold the same walls in any order (the winner is not in the key) |
| History.Trim | game/logic.py:145-146 | keeps the newest `min(len, 200)` snapshots |
| History.CommitSpec | game/logic.py:143-151 | a recorded move pushes the old board on the trimmed history and empties redo; an unrecorded one only trims |
| History.BoundedKept | game/logic.py:143-205 | both stacks together stay within 201 snapshots |
| History.EmptyStacksNoop | game/logic.py:193-205 | `undo` with an empty history and `redo` with an empty redo stack change nothing |
| History.UndoRedoInverse | game/logic.py:193-205 | `undo` then `redo`, and `redo` then `undo`, each restore the whole session |
| History.UndoTimesStacks | game/logic.py:193-198 | `n` undos move `n` snapshots from history to redo |
| History.UndoRedoTimes | game/logic.py:193-205 | `n` undos followed by `n` redos restore the session |
| Game.QuoridorGame.constructor | game/logic.py:6-15 | new game: initial board and empty stacks |
| Game.QuoridorGame.RestoreState | game/logic.py:26-29 | the board becomes the snapshot; the stacks stay |
| Game.QuoridorGame.GetValidPawnMoves | game/logic.py:56-77 | the loop returns exactly `PawnMoves` of the board, in order |
| Game.QuoridorGame.AppendOverOpponent | game/logic.py:64-74 | appends the straight jump or the opponent's other neighbours |
| Game.QuoridorGame.IsValidWall | game/logic.py:122-141 | the answer is `WallLegal` of the board; the temporary wall is removed again, so the board is unchanged |
| Game.QuoridorGame.CheckWin | game/logic.py:207-209 | sets the winner from the pawn rows |
| Game.QuoridorGame.Play | game/logic.py:152-161 | the board becomes `Apply(board, move)` |
| Game.QuoridorGame.ApplyMove | game/logic.py:143-161 | the session becomes `Commit(session, move, record)` |
| Game.QuoridorGame.ApplyMoveFast | game/logic.py:163-179 | plays the move, leaves the stacks, and returns the token that undoes it |
| Game.QuoridorGame.UndoMoveFast | game/logic.py:181-191 | the board becomes `Unapply(board, token)` |
| Game.QuoridorGame.Undo | game/logic.py:193-198 | returns whether there was history; the session becomes `Undone(session)` |
| Game.QuoridorGame.Redo | game/logic.py:200-205 | returns whether there was a redo snapshot; the session becomes `Redone(session)` |
| Search.ScoreBounds | game/ai.py:15-24 | with wall counts in 0..10 every evaluation is strictly between `-Infinity` and `Infinity` |
| Search.ScoreUndecided | game/ai.py:15-24 | on a valid undecided board the evaluation is strictly between the two win scores |
| Search.MoveTos | game/ai.py:29-30 | one `MOVE` per destination, in order |
| Search.FilterSplit | game/ai.py:74 | pawn moves and walls together are all the moves |
| Search.PawnsFirstSpec | game/ai.py:74 | the stable sort is a permutation that puts every pawn move before every wall and keeps the order within each kind |
| Search.Run | game/ai.py:77-105 | the running best is the start or one of the values, and nothing beats it |
| Search.Shuffle | game/ai.py:53 | the result is a permutation of the moves |
| Search.AppendPawnMoves | game/ai.py:29-30 | appends one `MOVE` per destination |
| Search.AppendWalls | game/ai.py:50-51 | appends one `WALL` per candidate, each exactly once |
| Search.AssembleMoveList | game/ai.py:26-54 | pawn moves plus the candidate walls form the move list described by `MoveList` |
| Search.ScanStep | game/ai.py:83-87 | one child updates the best value, the first best move and the window as the comparisons do |
| Search.ScanAdvance | game/ai.py:83-87 | after one more child the scan either has closed the window, with every earlier prefix open, or goes on with the narrowed window and the first best child so far |
| Search.RecordedExtend | game/ai.py:79-81 | the value of one more child, stored under its key in a table that keeps every older entry, extends the record of scanned values |
| Search.ChildKeyInjective | game/logic.py:118-120 | two moves from one board that lead to the same table key are the same move |
| Search.LeafExtend | game/ai.py:78-81 | one more child keeps the scan's table facts: values recorded, fresh leaf children scored by the evaluation (a key added earlier in the scan belongs to the same move), and the table grown only by children's keys and deeper ones |
| Search.NewKeysBelow | game/ai.py:61-105 | every key a scan adds to the table lies below the scanning node's depth |
| Search.AI.constructor | game/ai.py:6-13 | depth 1 for difficulty 1, depth 3 otherwise; empty table |
| Search.AI.Evaluate | game/ai.py:15-24 | returns `Score` of the board |
| Search.AI.ScanSlot | game/ai.py:47-49 | adds the orientations at one slot that `is_valid_wall` accepts; board unchanged |
| Search.AI.ScanCell | game/ai.py:43-49 | adds exactly the legal on-board walls within radius 1 of the cell; board unchanged |
| Search.AI.CollectWalls | game/ai.py:41-49 | the candidate set is exactly the legal walls near some cell of the path |
| Search.AI.GetAllMoves | game/ai.py:26-54 | each valid pawn move as often as `get_valid_pawn_moves` lists it; if the player has walls, every legal wall near a shortest opponent path exactly once, else none; board and stacks unchanged |
| Search.AI.ScanChildren | game/ai.py:76-105 | children are scanned in order while the window is open, stopping only when it closes; each scanned value is the table's value under that child's key (one level down, other side to move); a child that is a leaf (depth 0 or game decided) and was not in the table when the scan began has its board's evaluation as value; the value is the best of them and the move is the first child reaching it; only keys below this depth are added; the game is restored and older entries are kept |
| Search.AI.Child | game/ai.py:79-81 | apply, search one level down for the other side, undo: the value is the table's value under the child's key; for a child not in the table before, a leaf's value is its evaluation and any other child's value is the best of its own sorted move list scanned with the window, each grandchild value recorded in the table and fresh leaf grandchildren evaluated; the table grows only by the child's key and deeper keys; the game is restored |
| Search.AI.Minimax | game/ai.py:56-105 | a table hit returns the stored pair; a leaf returns the evaluation with no move and records it; otherwise it scans the sorted move list as above (recorded child values, fresh leaf children evaluated) and records the best value and first best move; the table grows only by this node's key and deeper ones; the game is restored |
| Search.AI.GetMove | game/ai.py:107-109 | the game is restored; with no table entry, a decided game gives no move, any move returned is one of player 2's candidates, and with depth > 0 an undecided game whose candidate list is empty gives no move |

## Left out

- The A\* heap of `shortest_path` (`game/logic.py:84-109`) is modelled as breadth-first expansion one layer at a time. Both return a shortest path. When several shortest paths exist, the model does not say which one is returned. The wall scan in `get_all_moves` therefore depends only on "a shortest path".
- `_path_cache`: a memo keyed by start, row and wall set, and cleared on every change. It has no effect on results, so it is left out.
- `save_state`/`restore_state` pickle the board. Snapshots are modelled as `State` values.
- `pygame.event.pump()` (`game/ai.py:57-58`) is UI I/O and is left out, as are the UI modules.
- `random.shuffle` is modelled as a swap loop over an arbitrary choice of index. The result is stated only as a permutation.
- The iteration order of the Python `set` of candidate walls is modelled as an arbitrary choice.
- Moves are a datatype with two shapes. A move dictionary whose `type` is neither `'MOVE'` nor `'WALL'` is not modelled.
- `apply_move` does not check legality, and neither does the model. The invariant `Valid` is proved only for legal moves (`LegalKeepsValid`).
- Game.QuoridorGame.UndoMoveFast: requires a non-empty wall list for a wall token. The source's `pop` raises `IndexError` there; the model does not represent that exception.
- Search.AI.Child: the value of a child is characterised to one level: a fresh leaf child by its evaluation, a fresh interior child as the best of its grandchildren's recorded values with fresh leaf grandchildren evaluated. Deeper interior values, and children whose key was already in the table when the scan began (left by another branch or an earlier call), are stated only as the values the table holds.
- Search.AI.Minimax: does not claim that the result equals the plain minimax value of the tree. The table stores values computed under one alpha-beta window as exact and reuses them under any window. The contract states what the code computes, not that it is the game-theoretic value.
- Search.AI.GetMove: on a table hit for the root key, it states only that the game is restored. Entries persist across calls, so the stored move may come from an earlier search.
- Float infinities are the integer sentinel `Infinity`; `ScoreBounds` shows no evaluation reaches it while the wall counts stay in 0..10.
