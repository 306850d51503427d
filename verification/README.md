# 2048: a model of the slide-and-merge core

This project models the game logic of a browser 2048 clone. The clone comes
in two engines.

- **The object-oriented engine** (`src/*.ts`, mirrored in `oopJS/script.js`,
  `oopJS/cell.js`, `oopJS/score.js`):
  - A `Grid` of sixteen `Cell`s is grouped four ways: by column, by reversed
    column, by row and by reversed row.
  - An arrow key runs `moveTilesInGroup` on every group of the matching
    grouping. Each tile is linked into the furthest cell that `canAccept` it;
    a tile landing on an equal tile is linked "for merge".
  - A commit pass then runs `mergeTiles` on every cell with a pending tile.
    It adds the merged value to the `Score`.
  - Keys reach `handleInput` through a one-shot listener that each handled
    key re-arms (`setupInputOnce`).
  - A move that no group can make (`canMoveInGroup`) is ignored. Otherwise a
    new tile appears in a random empty cell, the game is saved, and the game
    ends when no direction can move. Then the listener is not re-armed.
- **The procedural engine** (`oopJS/index.js`):
  - It keeps one array of sixteen cells, indexed by `x + y * gridSize`.
  - Each arrow runs `moveTilesUp`/`Down`/`Left`/`Right`. These visit the
    twelve cells off the leading line and walk each tile with
    `moveTileInDirection` until a border, a merge or a blocking tile.
  - `isMoveAnyDirection` guards the key handler: when it is false the game
    is reset.
  - `saveGameProgress` and `restoreGameProgress` write and read the board as
    a list of `{x, y, value}` records followed by `{score}`.

The model is functional:

- Cells, tiles, grids, scores and snapshots are immutable datatypes, and
  every operation returns the new state.
- `Math.random()` becomes a `real` parameter in `[0, 1)` (a "roll").
  `Math.floor(roll * n)` is the index it picks.
- Promises, animations, the DOM and `localStorage` are left out. A save is
  returned as a value, and a restore takes one as an argument.
- `Pile.Stack` is an independent reference definition of sliding one line
  toward its head: each value either merges into the top of the pile or is
  pushed onto it.
  - The object-oriented group loop is proved equal to it
    (`Slide.MoveTilesInGroupIsStack`).
  - The whole-grid move is proved to be the group loop applied group by
    group (`Engine.MoveGroupsIsGroupwise`).
- The procedural engine is related to its own legality test through a
  potential function. A walk never raises the potential and strictly lowers
  it whenever its first step is open. From this, the corrected check
  (`IsMoveTilesFixed`, which reads the offsets the way the moves do) is
  proved to hold exactly when the sweep changes the board
  (`Procedural.FixedCheckIffSweepMoves`). The check as written
  (`oopJS/index.js:375-441`) does not have this property:
  `Findings.SwappedOffsetsMissMoves` exhibits a board it misjudges.
- A procedural walk is proved to end where a closed-form jump ends: the tile
  lands on the last empty cell of its ray, then merges into the tile ahead
  when `isTilesMerge` allows (`Procedural.WalkLands`, `Procedural.WalkIsJump`).

Modules:

| module | file | models |
|---|---|---|
| `Wrappers` | `wrappers.dfy` | `Option` |
| `Scores` | `scores.dfy` | `Score` |
| `Cells` | `cells.dfy` | `Cell`, `Tile` |
| `Chance` | `chance.dfy` | `Math.random` picks |
| `Grids` | `grids.dfy` | `Grid` |
| `Pile` | `pile.dfy` | reference slide of one line |
| `Slide` | `slide.dfy` | `moveTilesInGroup`, `canMoveInGroup` |
| `Snapshot` | `snapshot.dfy` | OOP save and restore |
| `Engine` | `engine.dfy` | `moveTiles`, `handleInput`, `resetGame` |
| `Procedural` | `procedural.dfy` | `oopJS/index.js` |
| `Findings` | `findings.dfy` | the procedural engine's discrepancies listed under Findings |

## Model

| member | source | states |
|---|---|---|
| Scores.NewScore | src/score.ts:5-9 | A new score holds 0 points. |
| Scores.AddScore | oopJS/score.js:8-11 | The points grow by exactly the amount added. |
| Scores.ResetScore | src/score.ts:22-25 | A reset leaves 0 points. |
| Scores.ReplayWithoutReset | src/score.ts:11-14 | With no reset among them, a run of additions raises the points by their total. |
| Scores.NeverDecreasesBetweenResets | oopJS/score.js:8-20 | Between resets, non-negative additions never lower the score. |
| Scores.ScoreSinceReset | oopJS/score.js:8-20 | After a reset, the score is the total added since that reset, whatever came before. |
| Cells.NewCell | oopJS/cell.js:2-11 | A new cell sits at its coordinates, has no settled or pending tile, and has merged score 0. |
| Cells.LinkTile | src/cell.ts:26-29 | Linking settles the tile in the cell, moves the tile to the cell's coordinates and changes nothing else. |
| Cells.UnlinkTile | oopJS/cell.js:18-20 | Unlinking empties the cell and changes nothing else. |
| Cells.RemoveLinkedTile | src/cell.ts:35-40 | Removing is unlinking, and a no-op on an empty cell. |
| Cells.LinkTileForMerge | oopJS/cell.js:33-36 | The tile becomes pending in the cell, is placed at the cell's coordinates, and nothing else changes. |
| Cells.UnlinkTileForMerge | src/cell.ts:51-53 | The pending tile is dropped and nothing else changes. |
| Cells.IsEmpty | oopJS/cell.js:29-31 | `isEmpty`: a cell is empty exactly when it has no settled tile. A pending tile alone does not make it occupied. |
| Cells.HasTileForMerge | oopJS/cell.js:42-44 | `hasTileForMerge`: a tile is waiting in the pending slot. The commit pass merges exactly the cells where it holds (`Engine.CommitFrom`). |
| Cells.CanAccept | oopJS/cell.js:46-51 | `canAccept`: the cell is empty, or it has no pending tile and its settled value equals the tile's. `Slide.CanAcceptIsAcceptsValue` proves this is the reference pile's acceptance rule. |
| Cells.LinkUnlinkRoundTrip | oopJS/cell.js:13-20 | Linking then unlinking a tile gives an empty cell back unchanged. Linking a tile for merge and then unlinking it gives the cell back with its pending slot cleared. |
| Cells.MergeTiles | src/cell.ts:66-76 | The settled tile takes the sum of both values, stays put, and the pending slot empties. The cell records the sum as its merged score, and the score grows by it when it is positive. |
| Cells.MergeDoubles | oopJS/cell.js:53-63 | Merging two equal tiles doubles the value and adds the doubled value to the score. The cell stays coherent and placed. |
| Slide.CanAcceptIsAcceptsValue | src/cell.ts:59-64 | `canAccept` holds exactly when the reference pile accepts the value: the cell is empty, or it has no pending tile and holds an equal value. |
| Chance.PickIndex | src/grid.ts:43-48 | With at least one candidate the pick is a valid index; with none it is 0, one past the end. |
| Chance.SpawnValue | src/tile.ts:11 | A new tile is a 2 or a 4, and a 2 exactly when the roll exceeds 0.5. |
| Grids.NewCells | src/grid.ts:16-20 | Cell `i` sits at `(i mod 4, i div 4)`, and every cell starts empty with nothing pending. |
| Grids.GroupCells | src/grid.ts:50-66 | Grouping puts each cell at the group its key coordinate names and at the slot its other coordinate names. |
| Grids.GroupCellsIsLayout | src/grid.ts:50-66 | On a well-placed board, the column grouping is the columns top to bottom and the row grouping is the rows left to right. |
| Grids.ReversedLayouts | src/grid.ts:27-33 | The reversed groupings are the column and row groupings with each group reversed. |
| Grids.NewGrid | src/grid.ts:13-35 | The constructor builds a well-placed grid whose four groupings are the four direction layouts, with every cell empty. |
| Grids.DirectionMapping | oopJS/script.js:88-101 | Place `p` of group `k` in each direction's grouping is the cell at the matching coordinates: up follows columns top to bottom, down columns bottom to top, left rows left to right, right rows right to left. The groupings are the ones `src/grid.ts:13-35` builds, and `canMoveUp` … `canMoveRight` (`oopJS/script.js:146-160`) pick the same grouping per direction as the moves. |
| Grids.LayoutIsPartition | src/grid.ts:27-33 | Each direction's grouping covers every cell exactly once. |
| Grids.ClearGrid | src/grid.ts:37-41 | Clearing empties every settled slot and changes nothing else. |
| Grids.EmptyFrom | src/grid.ts:43-48 | The filter lists only empty cells, and it lists every empty cell. |
| Grids.RandomEmptyCell | src/grid.ts:43-48 | The pick is an empty cell whenever one exists, and is missing only when none does. |
| Pile.StackCounts | oopJS/script.js:115-144 | The reference pile keeps the sum of the values, and its size plus its merges is the number of tiles. |
| Pile.SlideConserves | oopJS/script.js:104-144 | A slide keeps the sum of a line and loses one tile per merge. |
| Pile.StableIsFixed | oopJS/script.js:166-180 | A line with no movable tile slides to itself. |
| Pile.UnstableMoves | oopJS/script.js:166-180 | A line with a movable tile slides to a different line. |
| Pile.UnstableFreesACell | oopJS/script.js:166-180 | Sliding a movable line leaves the place just after its packed tiles empty. |
| Pile.SlidePair | oopJS/script.js:115-144 | `2 2 _ _` slides to `4 _ _ _`. |
| Pile.SlideTriple | oopJS/script.js:115-144 | `2 2 2 _` slides to `4 2 _ _`. |
| Pile.SlideQuadruple | oopJS/script.js:115-144 | `2 2 2 2` slides to `4 4 _ _`. |
| Pile.SlideNoChain | oopJS/script.js:115-144 | `2 2 4 _` slides to `4 4 _ _`: a merged tile takes no second merge in the same move. |
| Slide.Walk | oopJS/script.js:124-128 | The backward scan stops at the first cell that refuses the tile, and every cell it passed accepts the tile. |
| Slide.MoveTile | src/script.ts:116-145 | One step of the group loop either leaves the group alone (empty cell, or its neighbour refuses) or moves the tile into the furthest accepting cell and empties its own cell. |
| Slide.MoveTilesInGroup | oopJS/script.js:115-144 | The group loop over positions 1 to the end; the leading cell is never moved. `Slide.MoveTilesInGroupIsStack` proves it leaves the reference pile, and `Slide.IllegalGroupMoveIsNoOp` that it changes nothing when no tile can move. |
| Slide.CanMoveInGroup | oopJS/script.js:166-180 | `canMoveInGroup`: some occupied cell after the first has a predecessor that accepts its tile. `Slide.GroupLegalIffChanged` proves it holds exactly when the move changes the group. |
| Slide.MoveTilesInGroupIsStack | oopJS/script.js:115-144 | On a group with nothing pending, the loop leaves exactly the reference pile of its values, padded with empty cells. |
| Slide.ReceiveOnce | oopJS/cell.js:46-51 | After a cell takes a tile for merge, it accepts no further tile. |
| Slide.IllegalGroupMoveIsNoOp | oopJS/script.js:166-180 | When `canMoveInGroup` fails, the loop changes nothing. |
| Slide.CanMoveIffUnstable | src/script.ts:167-181 | `canMoveInGroup` holds exactly when some tile is not packed against an unequal neighbour. |
| Slide.MovedGroupIsPacked | oopJS/script.js:115-144 | After the loop, all tiles precede all empty cells, and every pending tile sits on an equal settled one. |
| Slide.GroupMoveIsSlide | oopJS/script.js:104-144 | The loop followed by the commit gives the reference slide of the group's values. |
| Slide.GroupLegalIffChanged | oopJS/script.js:166-180 | `canMoveInGroup` holds exactly when moving and committing changes the group. |
| Slide.GroupMoveConserves | oopJS/script.js:104-144 | Moving a group keeps its sum and loses one tile per merge. |
| Engine.MoveGroupsIsGroupwise | oopJS/script.js:104-113 | Running the loop on each group in turn leaves every group as its own loop would; groups do not interfere. |
| Engine.MoveGroups | oopJS/script.js:104-107 | Running `moveTilesInGroup` on each group in turn keeps the number of cells. `Engine.MoveGroupsIsGroupwise` states what each cell becomes. |
| Engine.CommitFrom | src/script.ts:105-114 | The commit pass settles every pending merge, leaves other cells alone, and raises the score by the merged values. |
| Engine.MoveAlong | oopJS/script.js:104-113 | `moveTiles(groupedCells)`: after the group loops and the commit pass, the board has sixteen cells and nothing pending. |
| Engine.MoveGainIsPileGain | oopJS/script.js:110-112 | The commit pass scores exactly the merges of the reference piles of the groups. |
| Engine.MoveAlongScores | oopJS/script.js:104-113 | A move raises the score by exactly the merges of the reference piles, and by nothing else. |
| Engine.MovableIffChanged | oopJS/script.js:104-113 | Some group can move exactly when the move changes a settled value on the board. |
| Engine.MovedBoardHasRoom | oopJS/script.js:65-66 | After a move some group could make, some cell is empty. |
| Engine.GroupsConserve | oopJS/script.js:104-144 | Each group keeps its sum and loses one tile per merge. |
| Engine.MoveTiles | oopJS/script.js:88-113 | A move on a grid leaves sixteen cells with nothing pending and never lowers the score. |
| Engine.MoveTilesIsSlide | oopJS/script.js:88-113 | In every direction, each row or column of the move's grouping ends up holding the reference slide of its settled values. |
| Engine.MoveTilesScores | oopJS/script.js:88-113 | In every direction, the score rises by exactly the merges of the reference piles. |
| Engine.CanMove | oopJS/script.js:146-164 | `canMoveUp` … `canMoveRight`: some group of the direction's grouping can move. `Engine.LegalIffChanged` proves it holds exactly when the move changes the board. |
| Engine.IllegalMoveIsNoOp | oopJS/script.js:146-164 | A direction that cannot move leaves cells and score unchanged. |
| Engine.LegalIffChanged | oopJS/script.js:146-164 | `canMoveUp` and its siblings hold exactly when the move changes the board. |
| Engine.LegalMoveLeavesEmptyCell | oopJS/script.js:65-66 | A legal move always leaves a cell for the new tile. |
| Engine.MoveKeepsFrame | oopJS/script.js:104-144 | A move keeps every cell's coordinates and keeps tiles placed at their cells. |
| Engine.MoveKeepsPlayable | oopJS/script.js:104-113 | A move keeps the grid valid, quiescent and placed. |
| Engine.MoveConservesEachGroup | oopJS/script.js:88-113 | In every direction, each group keeps its sum and loses one tile per merge. |
| Engine.Spawn | src/script.ts:66-67 | A spawn puts the new tile into one empty cell and changes nothing else. |
| Engine.SpawnKeepsPlayable | oopJS/script.js:65-66 | A spawn keeps the grid playable. |
| Engine.GameOver | oopJS/script.js:69 | The game is over when no direction can move. `Engine.HandleInput` disarms the listener and clears the save exactly when it holds after a spawn. |
| Engine.HandleInput | oopJS/script.js:30-77 | With the listener disarmed, a key changes nothing. With it armed, another key, or an arrow whose direction cannot move, changes nothing and leaves it armed. A legal arrow moves, adds the moved score, spawns into an empty cell of the moved board and saves. It disarms the listener and clears the save exactly when no direction can move afterwards. |
| Engine.TwoSpawns | oopJS/script.js:9-11 | Two spawns on an empty board put the two rolled values in two distinct cells and leave all other cells empty. |
| Engine.ClearKeepsPlayable | src/grid.ts:37-41 | Clearing keeps the grid playable and empties every cell. |
| Engine.ResetGame | oopJS/script.js:79-86 | A reset zeroes the score, keeps the save, and leaves exactly two new tiles on an otherwise empty, playable board. It leaves the key listener as it was: disarmed after a game over. |
| Engine.OpenNeighbour | oopJS/script.js:162-180 | A tile whose next cell toward direction `d` is empty makes `d` legal. |
| Engine.TwoTilesCanMove | oopJS/script.js:146-180 | A board with at most two tiles, and at least one, has a legal direction. |
| Engine.ResetCanMove | oopJS/script.js:79-86 | The board a reset deals always has a legal direction. |
| Engine.ResetAfterGameOverIgnoresKeys | oopJS/script.js:69-86 | As written: after a move that ends the game, a reset deals a board with a legal direction, yet every key leaves the game unchanged. |
| Engine.ResetGameFixed | oopJS/script.js:79-86 | The corrected reset always leaves the listener armed, and differs from the as-written reset in nothing else. |
| Engine.FixedResetResumesPlay | oopJS/script.js:69-86 | With the corrected reset, the new game after a game over has its listener armed and a legal direction. By `Engine.HandleInput`, an arrow in that direction is then played. |
| Engine.ResumeAfterInput | src/script.ts:183-222 | After a legal move that keeps the game going, restoring the saved game gives back the same score and settled values. |
| Snapshot.Save | oopJS/script.js:182-194 | The save lists every cell's coordinates and settled value in grid order, then the score. |
| Snapshot.FindFrom | src/script.ts:200-222 | The search finds the first record with the coordinates, or reports that none has them. |
| Snapshot.RestoreGameProgress | oopJS/script.js:196-218 | A restore changes only the cells' settled tiles, and succeeds exactly when the last record is a score record, whose score it then takes. Each cell gets the value of the first record with its coordinates, placed at the cell, and is empty when no record has them. |
| Snapshot.SaveMatchesOnlyItsCell | oopJS/script.js:182-218 | On a well-placed grid, a cell's coordinates match only its own record. |
| Snapshot.SaveRestoreRoundTrip | oopJS/script.js:182-218 | Restoring a save gives back the score and every settled value, and keeps the target grid's frame and pending slots. |
| Procedural.CreateGrid | oopJS/index.js:193-210 | Sixteen empty cells, each found again at `x + y * gridSize` from its own coordinates. |
| Procedural.IsTilesMoveInDirection | oopJS/index.js:443-455 | `isTilesMoveInDirection`: the neighbour at the given offsets is on the board and is empty or can take a merge. `Procedural.StuckWalk` proves that when it fails with the move's offsets, the walk changes nothing. |
| Procedural.MoveTileInDirection | oopJS/index.js:323-343 | `moveTileInDirection`: the walk keeps sixteen cells. `Procedural.WalkLands` states where it ends. |
| Procedural.LandingIsLastEmpty | oopJS/index.js:327-338 | The landing cell is on the tile's ray, every cell strictly between the tile and it is empty, and the cell after it is off the board or holds a tile. |
| Procedural.WalkLands | oopJS/index.js:323-343 | A walk moves its tile to the landing cell and changes no other cell or the score. When `isTilesMerge` holds for the tile after the landing cell, the walk instead merges into it: that tile becomes twice the moving value, the score rises by that doubled value, the starting cell empties and no other cell changes. |
| Procedural.WalkIsJump | oopJS/index.js:323-343 | The step-by-step walk equals the closed-form jump to the landing cell followed by at most one merge. |
| Procedural.WalkKeepsPlaces | oopJS/index.js:323-349 | A walk moves tiles, never cells: every cell keeps its coordinates. |
| Procedural.WalkKeepsForm | oopJS/index.js:323-349 | A walk on a well-formed board leaves it well-formed. |
| Procedural.WalkKeepsUnmarked | oopJS/index.js:323-360 | As written, a walk flags no cell as merged. |
| Procedural.StuckWalk | oopJS/index.js:323-343 | A walk whose first step `isTilesMoveInDirection` rejects changes nothing. |
| Procedural.MoveTileStep | oopJS/index.js:345-349 | A step into an empty cell keeps the sum of values and moves the potential by the difference of the two cells' distances to the border. |
| Procedural.MergeStep | oopJS/index.js:351-360 | A merge keeps the sum of values, doubles the target's value into the score, and lowers the potential by the merged tile's weight. |
| Procedural.MergeTiles | oopJS/index.js:351-360 | `mergeTiles(target, current)`: the merged board; its effect is stated by `Procedural.MergeTilesEffect`. |
| Procedural.MergeTilesEffect | oopJS/index.js:351-360 | The target takes twice the moving value, the moving cell empties, the score rises by the doubled value, and no other cell changes. The target is flagged as merged only when merge flags are on. |
| Procedural.WalkLowersPotential | oopJS/index.js:323-360 | A walk keeps the sum of values and does not lower the score. It never raises the potential, and strictly lowers it when its first step is open. |
| Procedural.SweepLowersPotential | oopJS/index.js:263-321 | A sweep keeps the sum and never raises the potential. It strictly lowers the potential when some visited tile can take its first step. |
| Procedural.StuckSweep | oopJS/index.js:263-321 | When no visited tile can take its first step, the sweep changes nothing. |
| Procedural.Sweep | oopJS/index.js:263-321 | `moveTilesUp` … `moveTilesRight` without the new tile: the twelve walks keep the board well formed, and with merge flags off they flag no cell. |
| Procedural.MoveTilesIn | oopJS/index.js:263-321 | The sweep followed by `createTile`, run whether or not the sweep moved anything; the board stays well formed. |
| Procedural.IsMoveTiles | oopJS/index.js:379-441 | `isMoveTilesUp` … `isMoveTilesRight`, as written: some visited cell with a tile passes `isTilesMoveInDirection` with the offsets in swapped order. `Findings.SwappedOffsetsMissMoves` shows it can miss a move. |
| Procedural.IsMoveAnyDirection | oopJS/index.js:375-377 | `isMoveAnyDirection`: one of the four as-written checks holds. `Procedural.KeyDown` resets the game whenever it fails. |
| Procedural.FixedCheckIffSweepMoves | oopJS/index.js:375-455 | With the offsets in the order the move uses, the check holds exactly when the sweep changes the board. |
| Procedural.CreateTile | oopJS/index.js:218-239 | With room, the new 2 or 4 lands in one empty cell and nothing else changes; with no room, nothing changes. |
| Procedural.TwoCreated | oopJS/index.js:212-216 | Two tiles created on an empty board sit in two distinct cells with the rolled values. |
| Procedural.ResetGame | oopJS/index.js:176-186 | A reset zeroes the score and leaves exactly two new tiles. |
| Procedural.SaveGameProgress | oopJS/index.js:165-174 | The save lists each cell's coordinates and value, then the score. |
| Procedural.KeyDown | oopJS/index.js:35-65 | As written: when no direction passes the check, the game resets. Otherwise another key changes nothing, and an arrow sweeps, creates a tile and saves. |
| Procedural.FindCell | oopJS/index.js:105 | The search finds the first cell with the coordinates, or reports that none has them. |
| Procedural.FindOnGrid | oopJS/index.js:105 | On a well-formed board, `cells.find` returns the cell at index `x + y * 4` for on-grid coordinates and nothing otherwise. |
| Procedural.ApplySaved | oopJS/index.js:104-112 | Replaying a save's records overwrites exactly the cells whose saved value is not null. |
| Procedural.RestoreGameProgress | oopJS/index.js:96-117 | The as-written restore replays the records over the current cells; `Procedural.RestoreOverlays` states what it leaves. |
| Procedural.RestoreGameProgressFixed | oopJS/index.js:96-117 | The restore with every cell emptied first; `Procedural.RestoreFixedRoundTrip` states that it gives the save back. |
| Procedural.RestoreOverlays | oopJS/index.js:96-117 | As written, a restore sets the saved score and the saved non-null values, and keeps the board's old tile wherever the save has null. |
| Procedural.RestoreFixedRoundTrip | oopJS/index.js:96-117 | A restore that first empties every cell gives back exactly the saved values and score. |
| Procedural.ClearMarks | oopJS/index.js:457-464 | Clearing merge flags keeps every cell's place and value. |
| Procedural.KeyDownFixed | oopJS/index.js:35-65 | With the corrected check, an arrow that cannot move changes nothing. A legal arrow changes the board, creates a tile and saves. When no direction can move, the game resets. |
| Findings.SwappedOffsetsMissMoves | oopJS/index.js:375-455 | On a checkerboard with one hole, the check as written sees no move, yet moving up changes the board. |
| Findings.ChainedMerge | oopJS/index.js:351-360 | As written, the row `2 2 4 _` moved left becomes `8 _ _ _` and scores 12. |
| Findings.FlaggedMergeHappensOnce | oopJS/index.js:457-464 | With merged tiles flagged, the same row becomes `4 4 _ _` and scores 4. |
| Findings.SpawnWithoutMove | oopJS/index.js:263-276 | As written, pressing up with one tile in the corner creates a tile although nothing moved; the corrected handler changes nothing. |
| Findings.RestoreKeepsStaleTile | oopJS/index.js:96-117 | As written, restoring an empty save onto a board with a tile keeps that tile; the corrected restore empties it. |

## Left out

- The DOM, CSS classes, colours, animation waits and promises are left out. Moves are modelled as complete once they return.
- Page start-up (`oopJS/script.js:9-16`) builds the grid, spawns two tiles and arms the key listener. The model has no function for it: a `Session` is taken as given, with its `listening` flag.
- Touch handling (`oopJS/touchScreen.js`, `oopJS/index.js:130-163`) is left out. It maps swipes to the arrow handlers, and it also has side effects of its own:
  - `handleTouchMove` (`oopJS/index.js:142-156`) checks `isMoveAnyDirection` on every touch movement. When the check fails it shows the game-over alert, calls `resetGame` and clears `localStorage`.
  - It calls `saveGameProgress` on every touch movement, whether or not a move happened.
  - The key path (`Procedural.KeyDown`) models the same check, reset and save, but not this save-on-every-movement behaviour or the storage clearing.
- `localStorage` and JSON are left out. A save is returned as a list of records, and a restore takes one.
- The `confirm` and `alert` dialogs and `checkAndPromptGameProgress` are left out. They only decide whether a reset or a restore happens.
- `removeNullCells` (`oopJS/index.js:362-368`) is left out. It removes page elements of tiles whose value is null, which no modelled state can hold.
- `src/script.ts:89-103` reads the groupings as `this.cellsGroupedBy…`. The model follows `oopJS/script.js:88-102`, which reads them from the grid.
- `src/script.ts:220` calls an `updateScoreDisplay` that does not exist; display updates are left out.
- `oopJS/grid.js` is not part of this model. The grid follows `src/grid.ts`.
- Scores are unbounded integers; JavaScript numbers lose precision only far beyond any reachable score.
- Snapshot.RestoreGameProgress: when the last record is not a score record, or there is none, the source stores `undefined` as the score or throws. The model returns `ScoreMissing` (and `Procedural.RestoreGameProgress` returns `ScoreUnreadable`) with the restored cells and no score.
- Procedural.CreateTile: all retries share one roll. This loses nothing: `createTile` retries only when no cell is empty, and the board does not change between retries.
- Procedural.MoveTileInDirection: its own contract says only that the board keeps sixteen cells. Where the tile ends, and what happens to the other cells and the score, is stated by `WalkLands` and `WalkIsJump`.
- Procedural.Sweep: there is no general theorem that the corrected sweep, which respects merge flags, equals `Pile.SlideValues` on every line. The two are compared only on the row `2 2 4 _` (`Findings.FlaggedMergeHappensOnce` and `Pile.SlideNoChain`).
- In `createTile` and `src/tile.ts:11`, a roll of exactly 0.5 gives a 4: the test is `> 0.5`, so twos and fours are not quite equally likely.
- A merge keeps the sum of the values on the board and adds the merged value to the score. It does not increase the board's sum, as a loose reading of "merging doubles the tile" might suggest.

## Findings

| source | as written | input that shows it | evidently intended | confidence | as-written member | corrected member |
|---|---|---|---|---|---|---|
| oopJS/index.js:375-455 | `isMoveTilesUp` and its siblings pass the move's offsets to `isTilesMoveInDirection(cell, x, y, dirX, dirY)` in the order `(dirY, dirX)`, so each checks the wrong axis | a checkerboard of 2s and 4s with the top-left cell empty: moving up fills the hole, but the check sees no move and the next key resets the game | the check tests the axis the move walks along | not executed | Findings.SwappedOffsetsMissMoves | Procedural.FixedCheckIffSweepMoves |
| oopJS/index.js:351-360 | `mergeTiles` never sets `linkedTileForMerge`, so the guard in `isTilesMerge` never fires and a merged tile merges again in the same move | the row `2 2 4 _` moved left becomes `8 _ _ _` with 12 points | each tile merges at most once per move: `4 4 _ _` with 4 points, as in the object-oriented engine | not executed | Findings.ChainedMerge | Findings.FlaggedMergeHappensOnce |
| oopJS/index.js:263-321 | `moveTilesUp` and its siblings always end with `createTile`, even when nothing moved | one 2 in the top-left corner and the up arrow: a new tile appears | a key that moves nothing changes nothing, as in the object-oriented engine | not executed | Findings.SpawnWithoutMove | Procedural.KeyDownFixed |
| oopJS/script.js:69-86 | on game over `handleInput` returns without `setupInputOnce()`, and `resetGame` (run by the reset button) never arms the listener again | play until no direction can move, then confirm a reset: a new board with two tiles appears, but no key is handled until the page is reloaded | a reset starts a game that takes keys | not executed | Engine.ResetAfterGameOverIgnoresKeys | Engine.FixedResetResumesPlay |
| oopJS/index.js:96-117 | `restoreGameProgress` calls `clearBoard`, which removes only page elements; cells whose saved value is null keep their old tile | a board with a 2 in the corner, restored from the save of an empty board: the 2 stays | the restored board holds exactly the saved values | not executed | Findings.RestoreKeepsStaleTile | Procedural.RestoreFixedRoundTrip |
