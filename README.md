# Roll-down fill strategy and stone tile, modelled in Dafny

This project models two parts of the Match3 SDK.

The first is `ItemsRollDownFillStrategy`, the board-refill strategy. Its board is a grid of slots. Each slot is Free, Occupied by one item, or NotAvailable (terrain). The strategy does four things:

- An item falls straight down while the slot below is Free. When it is blocked, it moves one row down diagonally around NotAvailable terrain, trying Left before Right, and falls on from there.
- A drop path is compressed to the positions an animation needs (`FilterPositions`).
- Items already on the board fall column by column, scanning each column bottom to top (`GetItemsMoveData`). The whole board rolls down in outside-in column pairs (`GetRollDownJobs`).
- Fresh items are generated into every column whose top slot is not NotAvailable, until that top slot is Occupied (`GetGenerateJobs`, `GetFillJobs`).

A solve pass (`GetSolveJobs`) combines these steps:

1. It clears each distinct solved slot once and returns its item to the generator.
2. The items above the solved slots fall.
3. It hides the solved items.
4. The board rolls down and is refilled.

The pass yields a list of Move, Hide and Drop jobs.

The second part is `StoneState`, a tile with three fields. The tile starts locked, unable to hold an item, and in group Stone. `OnComplete` opens it and `OnReset` closes it again.

Layout:

- `grid.dfy` (`GridModel`): the board as a value, `Grid(rows, cols, cells)`, and the board invariant `Consistent`. The invariant says every item is owned by one slot and every item id is below the generator's next fresh id.
- `game_board.dfy` (`Board`):
  - the mutable board `GameBoard`: an `array2<Slot>` with a ghost value `model` that `Valid` ties to the array;
  - the item supplier `ItemGenerator`: a fresh-id counter plus the log of returned items.
- `drop_path.dfy`, `path_filter.dfy`, `item_moves.dfy`, `generation.dfy`, `solving.dfy`: each operation as a function of the board before it runs, with the lemmas about it.
- `rolldown_strategy.dfy` (`RollDownStrategy`): the class `ItemsRollDownFillStrategy`. Its methods keep the source's loops and update the board in place. Each method is proved to leave exactly the board, and return exactly the result, that the corresponding function describes.
- `stone_state.dfy` (`StoneTile`): the tile as a value (`Apply`, `Run`) and as a class with the three fields.

## Model

| member | source | states |
|---|---|---|
| `RollDownStrategy.ItemsRollDownFillStrategy.constructor` | Assets/Scripts/Implementation/ItemsRollDown/ItemsRollDownFillStrategy.cs:21-25 | the strategy keeps the board and the generator it is given |
| `RollDownStrategy.ItemsRollDownFillStrategy.CanDropFromTop` | Assets/Scripts/Implementation/ItemsRollDown/ItemsRollDownFillStrategy.cs:181-199 | the result is true exactly when no slot of the column from row 0 down to `row` is NotAvailable |
| `DropPaths.OpenAboveTerrain` | Assets/Scripts/Implementation/ItemsRollDown/ItemsRollDownFillStrategy.cs:186-199 | whether a column can be filled from the top depends only on the terrain, so it is the same before and after items move |
| `RollDownStrategy.ItemsRollDownFillStrategy.GetDropPositions` | Assets/Scripts/Implementation/ItemsRollDown/ItemsRollDownFillStrategy.cs:201-220 | the recursive loop returns exactly the drop path `DropPath` of the slot, whose shape the DropPaths lemmas below prove |
| `DropPaths.DropPathIsMaximalWalk` | Assets/Scripts/Implementation/ItemsRollDown/ItemsRollDownFillStrategy.cs:201-220 | a drop path is the maximal walk of single steps: every step is the move `NextDrop` allows, and the walk ends only where no move is possible |
| `DropPaths.NextDrop` | Assets/Scripts/Implementation/ItemsRollDown/ItemsRollDownFillStrategy.cs:205-216 | a step goes exactly one row down, to the same column or one to either side, into a Free slot. It goes straight down exactly when that is possible. It leaves its column only when the slot below is blocked and the slot beside is NotAvailable. It goes Right only when Left does not qualify |
| `DropPaths.DropPathDown` | Assets/Scripts/Implementation/ItemsRollDown/ItemsRollDownFillStrategy.cs:205-209 | when the slot below is movable, the path starts with it and goes on from there |
| `DropPaths.DropPathAside` | Assets/Scripts/Implementation/ItemsRollDown/ItemsRollDownFillStrategy.cs:211-219 | when the slot below is blocked, the path is empty if there is no diagonal move, and otherwise continues from the diagonal target |
| `DropPaths.DropPathShape` | Assets/Scripts/Implementation/ItemsRollDown/ItemsRollDownFillStrategy.cs:201-238 | every position of a path is one row below the one before it, in the same column or one to the side, on the grid and Free (never Occupied or NotAvailable), and leaves its column only past NotAvailable terrain |
| `DropPaths.DropPathNoDup` | Assets/Scripts/Implementation/ItemsRollDown/ItemsRollDownFillStrategy.cs:201-220 | the positions of a path are pairwise distinct, Free, and below the start |
| `DropPaths.LeftBeforeRight` | Assets/Scripts/Implementation/ItemsRollDown/ItemsRollDownFillStrategy.cs:222-226 | with both sides qualifying, the item goes down-left |
| `DropPaths.Diagonal` | Assets/Scripts/Implementation/ItemsRollDown/ItemsRollDownFillStrategy.cs:222-226 | a diagonal target exists exactly when one side qualifies. It is down-left when the Left side qualifies, and otherwise down-right |
| `RollDownStrategy.ItemsRollDownFillStrategy.CanDropDiagonally` | Assets/Scripts/Implementation/ItemsRollDown/ItemsRollDownFillStrategy.cs:222-226 | the result is true exactly when a diagonal target exists, and the out-position is that target |
| `RollDownStrategy.ItemsRollDownFillStrategy.CanDropDiagonallyToward` | Assets/Scripts/Implementation/ItemsRollDown/ItemsRollDownFillStrategy.cs:228-238 | the result is true exactly when the side slot exists and is NotAvailable and the slot below it can be moved into; the out-position is then the slot below the side slot, and it is `GridPosition.Zero` when the side slot is not NotAvailable |
| `RollDownStrategy.ItemsRollDownFillStrategy.FilterPositions` | Assets/Scripts/Implementation/ItemsRollDown/ItemsRollDownFillStrategy.cs:240-275 | the loop returns `Filter` of the path |
| `PathFilter.Filter` | Assets/Scripts/Implementation/ItemsRollDown/ItemsRollDownFillStrategy.cs:242-245 | paths of zero or one position are returned unchanged |
| `PathFilter.AddNew` | Assets/Scripts/Implementation/ItemsRollDown/ItemsRollDownFillStrategy.cs:248-269 | adding to the insertion-ordered set keeps exactly the old members plus the new one, without duplicates |
| `PathFilter.FilterIsWaypoints` | Assets/Scripts/Implementation/ItemsRollDown/ItemsRollDownFillStrategy.cs:240-275 | for a path without repeats, the filtered path equals the independent `Waypoints` of the path, in path order. It is duplicate-free, no longer than the path, contained in it, and ends with its last position. A position is kept exactly when it is the destination, or it follows or precedes a column change |
| `PathFilter.WaypointsFacts` | Assets/Scripts/Implementation/ItemsRollDown/ItemsRollDownFillStrategy.cs:250-272 | the waypoints of a prefix are no more than its length, are taken from it, are duplicate-free, and hold exactly the positions that are waypoints |
| `PathFilter.FilterFromKeepsWaypoints` | Assets/Scripts/Implementation/ItemsRollDown/ItemsRollDownFillStrategy.cs:250-272 | from any point of the loop, with the state it keeps, the rest of the loop produces the waypoints |
| `ItemMoves.RouteFacts` | Assets/Scripts/Implementation/ItemsRollDown/ItemsRollDownFillStrategy.cs:164-168 | a filtered route is empty exactly when the drop path is, ends where the drop path ends, and passes only Free slots below the start |
| `RollDownStrategy.ItemsRollDownFillStrategy.MoveRowSlot` | Assets/Scripts/Implementation/ItemsRollDown/ItemsRollDownFillStrategy.cs:158-174 | one pass over a slot updates the board array exactly as `MoveSlot` describes and returns its moves |
| `ItemMoves.MoveSlotFacts` | Assets/Scripts/Implementation/ItemsRollDown/ItemsRollDownFillStrategy.cs:158-174 | a slot that is not Occupied, or whose route is empty, is skipped and nothing changes. Otherwise the item leaves its slot for the Free slot at the end of its route, one move records it, and no other slot changes. Terrain, the number of Occupied slots, the set of items and the board invariant are kept |
| `RollDownStrategy.ItemsRollDownFillStrategy.GetItemsMoveData` | Assets/Scripts/Implementation/ItemsRollDown/ItemsRollDownFillStrategy.cs:152-179 | the bottom-to-top loop leaves exactly the board of `MoveColumn` and returns its reversed move list |
| `ItemMoves.MoveScanFacts` | Assets/Scripts/Implementation/ItemsRollDown/ItemsRollDownFillStrategy.cs:156-175 | the scan from any row upwards keeps the moves already recorded as a prefix and adds at most one move per row. Every move ends at the slot that now holds its item. Terrain, the Occupied count, the set of items and the board invariant are kept |
| `ItemMoves.MoveColumnFacts` | Assets/Scripts/Implementation/ItemsRollDown/ItemsRollDownFillStrategy.cs:152-179 | moving one column keeps the terrain, the number of Occupied slots, the set of items on the board and the board invariant. It makes at most one move per row. Every move ends at the slot now holding its item |
| `ItemMoves.MoveColumnsFacts` | Assets/Scripts/Implementation/ItemsRollDown/ItemsRollDownFillStrategy.cs:123-150 | moving any list of columns keeps the terrain, the Occupied count, the set of items and the board invariant |
| `ItemMoves.MoveColumnsAppend` | Assets/Scripts/Implementation/ItemsRollDown/ItemsRollDownFillStrategy.cs:132-140 | moving the columns of `a + b` moves those of `a`, then those of `b`, with the moves concatenated |
| `RollDownStrategy.ItemsRollDownFillStrategy.GetPairMoveData` | Assets/Scripts/Implementation/ItemsRollDown/ItemsRollDownFillStrategy.cs:132-141 | one iteration moves the left column, then the right one, then the middle one when the indices meet, exactly as `MoveColumns` over `RollDownGroup` |
| `RollDownStrategy.ItemsRollDownFillStrategy.GetRollDownJobs` | Assets/Scripts/Implementation/ItemsRollDown/ItemsRollDownFillStrategy.cs:123-150 | the loop leaves exactly the board of `RollDown` and returns its jobs |
| `ItemMoves.RollDownVisitsRange` | Assets/Scripts/Implementation/ItemsRollDown/ItemsRollDownFillStrategy.cs:127-147 | between two indices `l < r`, the outside-in pairs with the middle column visit every column from `l` to `r` exactly once |
| `ItemMoves.RollDownColumnOrder` | Assets/Scripts/Implementation/ItemsRollDown/ItemsRollDownFillStrategy.cs:127-147 | on a board of two or more columns every column is visited exactly once; on a board of one column none is |
| `ItemMoves.RollDownIsMoveColumns` | Assets/Scripts/Implementation/ItemsRollDown/ItemsRollDownFillStrategy.cs:123-150 | rolling down leaves the board of moving exactly the visited columns in visiting order, and its jobs carry exactly those moves in that order |
| `ItemMoves.RollDownJobShape` | Assets/Scripts/Implementation/ItemsRollDown/ItemsRollDownFillStrategy.cs:143-146 | every roll-down job is a Move job with at least one move and the given delay and order |
| `RollDownStrategy.ItemsRollDownFillStrategy.GenerateItem` | Assets/Scripts/Implementation/ItemsRollDown/ItemsRollDownFillStrategy.cs:97-115 | one pass of the generate loop takes one fresh id and sets exactly the board of `Spawn`. It stops the loop exactly when the route from the top slot is empty |
| `Generation.SpawnFacts` | Assets/Scripts/Implementation/ItemsRollDown/ItemsRollDownFillStrategy.cs:97-115 | from a Free top slot, the fresh item is the one move. It ends at a slot that was Free and now holds it, and no other slot changes. One more slot is Occupied and the board invariant is kept. The top slot ends Occupied exactly when the item could not fall |
| `Generation.SpawnShrinksFree` | Assets/Scripts/Implementation/ItemsRollDown/ItemsRollDownFillStrategy.cs:110-115 | an item that falls fills a Free slot, so the loop terminates |
| `RollDownStrategy.ItemsRollDownFillStrategy.GetGenerateJobs` | Assets/Scripts/Implementation/ItemsRollDown/ItemsRollDownFillStrategy.cs:90-121 | the loop leaves exactly the board and next id of `Generate` and returns its move list. It returns nothing to the generator |
| `Generation.GenerateFacts` | Assets/Scripts/Implementation/ItemsRollDown/ItemsRollDownFillStrategy.cs:90-121 | for a top slot that is not NotAvailable: afterwards the top slot is Occupied, existing items stay put and the terrain is unchanged. One fresh item is made per move, ids are consecutive, and they are listed newest first. Every move ends at the slot holding its item. The Occupied count grows by the number of moves and the invariant is kept. Nothing is generated exactly when the top slot was already Occupied |
| `Generation.GenerateFromIds` | Assets/Scripts/Implementation/ItemsRollDown/ItemsRollDownFillStrategy.cs:95-116 | each loop pass takes the next fresh id, and the loop stops at once exactly when the top slot is Occupied |
| `Generation.GenerateFromBoard` | Assets/Scripts/Implementation/ItemsRollDown/ItemsRollDownFillStrategy.cs:95-116 | when the loop ends the top slot is Occupied. Existing items and the terrain are kept, each move ends at its item's slot, and each move adds one Occupied slot |
| `RollDownStrategy.ItemsRollDownFillStrategy.GetFillJobs` | Assets/Scripts/Implementation/ItemsRollDown/ItemsRollDownFillStrategy.cs:27-30 | `GetFillJobs()` is the fill pass with delay 0 and order 0 |
| `RollDownStrategy.ItemsRollDownFillStrategy.GetFillJobsWith` | Assets/Scripts/Implementation/ItemsRollDown/ItemsRollDownFillStrategy.cs:72-88 | the column loop leaves exactly the board and next id of `Fill` and returns its jobs |
| `Generation.FillFacts` | Assets/Scripts/Implementation/ItemsRollDown/ItemsRollDownFillStrategy.cs:72-88 | there is one Drop job with the given delay and order per column whose top is not NotAvailable. Every such top slot ends Occupied. Existing items and the terrain are kept. The id counter and the Occupied count both grow by the number of generated items. The invariant is kept |
| `Generation.FillOnFullTops` | Assets/Scripts/Implementation/ItemsRollDown/ItemsRollDownFillStrategy.cs:76-85 | when every open top is already Occupied, the fill changes nothing and generates nothing, yet still yields one empty Drop job per open column |
| `Generation.OpenTopsFacts` | Assets/Scripts/Implementation/ItemsRollDown/ItemsRollDownFillStrategy.cs:78-82 | the columns the fill loop does not skip are exactly those whose top slot is not NotAvailable |
| `RollDownStrategy.ItemsRollDownFillStrategy.ClearSolvedSlots` | Assets/Scripts/Implementation/ItemsRollDown/ItemsRollDownFillStrategy.cs:36-53 | the nested loop leaves exactly the board, slot set and hide list of `ClearAll`. The generator gets back exactly the hidden items, in order, and hands out none |
| `RollDownStrategy.ItemsRollDownFillStrategy.ClearSolvedSlot` | Assets/Scripts/Implementation/ItemsRollDown/ItemsRollDownFillStrategy.cs:47-51 | a slot seen for the first time is cleared, and its item is listed and returned to the generator |
| `Solving.ClearAllFacts` | Assets/Scripts/Implementation/ItemsRollDown/ItemsRollDownFillStrategy.cs:36-53 | the recorded slots are the distinct solved slots, without repeats. Each has exactly one hidden item, the one it held, in the same order. The recorded slots become Free and no other slot changes |
| `Solving.ClearAllItems` | Assets/Scripts/Implementation/ItemsRollDown/ItemsRollDownFillStrategy.cs:36-53 | the hidden items are distinct and are exactly the items that leave the board |
| `Solving.ClearAllBoard` | Assets/Scripts/Implementation/ItemsRollDown/ItemsRollDownFillStrategy.cs:36-53 | clearing keeps the terrain and the board invariant, and removes one Occupied slot per distinct solved slot |
| `RollDownStrategy.ItemsRollDownFillStrategy.OrderByDropFromTop` | Assets/Scripts/Implementation/ItemsRollDown/ItemsRollDownFillStrategy.cs:55 | the ordering loop returns exactly `DropFromTopOrder` of the solved slots |
| `Solving.DropFromTopOrderFacts` | Assets/Scripts/Implementation/ItemsRollDown/ItemsRollDownFillStrategy.cs:55 | the falling order is a permutation of the solved slots in which no slot that can be filled from the top comes before one that cannot |
| `RollDownStrategy.ItemsRollDownFillStrategy.GetSlotMoveJobs` | Assets/Scripts/Implementation/ItemsRollDown/ItemsRollDownFillStrategy.cs:55-62 | the loop leaves exactly the board of `SlotMoves` and returns its jobs |
| `Solving.SlotMovesIsMoveColumns` | Assets/Scripts/Implementation/ItemsRollDown/ItemsRollDownFillStrategy.cs:55-62 | the falling phase moves exactly the columns of the ordered slots, in order. Every job it emits is a non-empty Move job with delay and order 0 |
| `RollDownStrategy.ItemsRollDownFillStrategy.GetSolveJobs` | Assets/Scripts/Implementation/ItemsRollDown/ItemsRollDownFillStrategy.cs:32-70 | the method leaves exactly the board and next id of `Solve` and returns its job list. The generator gets back exactly the hidden items |
| `Solving.SolveHides` | Assets/Scripts/Implementation/ItemsRollDown/ItemsRollDownFillStrategy.cs:36-53 | every slot of every sequence is recorded exactly once, and the item it held is hidden, in first-seen order |
| `Solving.SolveJobOrder` | Assets/Scripts/Implementation/ItemsRollDown/ItemsRollDownFillStrategy.cs:55-67 | the jobs come in this order: the non-empty falling Move jobs (delay 0, order 0), exactly one Hide job with the hidden items, the roll-down Move jobs (delay 1, order 0), and one Drop job (delay 0, order 1) per column whose top is not NotAvailable. No other job hides |
| `Solving.JobsLayout` | Assets/Scripts/Implementation/ItemsRollDown/ItemsRollDownFillStrategy.cs:64-67 | the assembled list has the Hide job between the phases and nowhere else |
| `Solving.SolveBoard` | Assets/Scripts/Implementation/ItemsRollDown/ItemsRollDownFillStrategy.cs:32-70 | after a solve pass the terrain is unchanged and every open top slot is Occupied again. The board lost one item per solved slot and gained one per generated item. The id counter advanced by the generated items. The invariant is kept |
| `Solving.FallsFacts` | Assets/Scripts/Implementation/ItemsRollDown/ItemsRollDownFillStrategy.cs:36-62 | after clearing and falling, the jobs are non-empty Move jobs with delay and order 0. The terrain and the invariant are kept, and one item is gone per solved slot |
| `Solving.RolledFacts` | Assets/Scripts/Implementation/ItemsRollDown/ItemsRollDownFillStrategy.cs:66 | the roll-down phase of a solve emits non-empty Move jobs with delay 1 and order 0 and keeps the terrain, the item count and the invariant |
| `Board.GameBoard.GetSlot` | Assets/Scripts/Implementation/ItemsRollDown/ItemsRollDownFillStrategy.cs:158 | reading the array at an on-grid position gives the slot of the board value |
| `Board.GameBoard.SetSlot` | Assets/Scripts/Implementation/ItemsRollDown/ItemsRollDownFillStrategy.cs:170-174 | writing a slot (Clear or SetItem) changes the board value at that position only |
| `Board.GameBoard.CanMoveInDirection` | Assets/Scripts/Implementation/ItemsRollDown/ItemsRollDownFillStrategy.cs:205 | the result is true exactly when `p + d` is on the grid and Free; the out-position is `p + d` |
| `Board.GameBoard.GetSideGridSlot` | Assets/Scripts/Implementation/ItemsRollDown/ItemsRollDownFillStrategy.cs:230-231 | the side slot, or none when `p + d` is off the grid |
| `Board.ItemGenerator.GetItem` | Assets/Scripts/Implementation/ItemsRollDown/ItemsRollDownFillStrategy.cs:97 | hands out the next fresh id, one above every id handed out before |
| `Board.ItemGenerator.ReturnItem` | Assets/Scripts/Implementation/ItemsRollDown/ItemsRollDownFillStrategy.cs:51 | the item is logged as returned, and the fresh-id counter is unchanged |
| `StoneTile.StoneState.constructor` | samples/Unity.Match3/Assets/Scripts/Common/GridTiles/States/StoneState.cs:7-9 | a new tile is locked, cannot hold an item, and is in group Stone |
| `StoneTile.StoneState.OnComplete` | samples/Unity.Match3/Assets/Scripts/Common/GridTiles/States/StoneState.cs:15-20 | from any reachable state the tile becomes unlocked, able to hold an item, and in group Available, and stays in a reachable state |
| `StoneTile.StoneState.OnReset` | samples/Unity.Match3/Assets/Scripts/Common/GridTiles/States/StoneState.cs:22-27 | from any reachable state the tile returns exactly to its initial state |
| `StoneTile.StoneState.IsLocked` | samples/Unity.Match3/Assets/Scripts/Common/GridTiles/States/StoneState.cs:12 | the getter reports the lock, which holds exactly when the tile cannot hold an item and exactly when its group is Stone |
| `StoneTile.StoneState.CanContainItem` | samples/Unity.Match3/Assets/Scripts/Common/GridTiles/States/StoneState.cs:13 | the getter reports whether the tile can hold an item, which holds exactly when it is unlocked and exactly when its group is Available |
| `StoneTile.StoneState.GroupId` | samples/Unity.Match3/Assets/Scripts/Common/GridTiles/States/StoneState.cs:11 | the getter reports the group, which is Stone exactly when the tile is locked |
| `StoneTile.ApplyOverwrites` | samples/Unity.Match3/Assets/Scripts/Common/GridTiles/States/StoneState.cs:15-27 | reset restores the initial state from any state; complete leaves the tile open from any state |
| `StoneTile.ApplyIdempotent` | samples/Unity.Match3/Assets/Scripts/Common/GridTiles/States/StoneState.cs:15-27 | handling the same event twice is the same as handling it once |
| `StoneTile.RunIsLastEvent` | samples/Unity.Match3/Assets/Scripts/Common/GridTiles/States/StoneState.cs:7-27 | after any sequence of events the state depends only on the last event, so every reachable state is the initial one or the completed one |
| `StoneTile.RunKeepsLock` | samples/Unity.Match3/Assets/Scripts/Common/GridTiles/States/StoneState.cs:7-27 | in every reachable state the tile is locked exactly when it cannot hold an item, and exactly when its group is Stone |

## Left out

- World positions are not modelled: `GetWorldPosition`, `SetWorldPosition` and the generator position (-1, col). A move carries grid positions. A generated item that cannot fall carries its top slot's position, as the source records the world position of that slot.
- Item visuals and the item pool are not modelled. An item is an id from a counter, and `ReturnItem` only logs the item.
- Job playback is not modelled: animation, delay timing and scheduling by execution order. Jobs are values holding their delay and order as integers.
- `ItemsMoveJob(itemsMoveData)` in the falling phase of `GetSolveJobs` is given delay 0 and order 0. The job class, and so its default arguments, is not part of this model.
- The sets of `GetSolveJobs` and `FilterPositions` are modelled as duplicate-free sequences in insertion order. The model assumes the .NET `HashSet` enumerates in that order when nothing is removed.
- `OrderBy` on a boolean key is modelled as a stable sort: false-keyed slots first, then true-keyed ones, each in original order.
- Solved slots are taken to lie on the board (`OnBoard`), as the board's indexer demands. The following lemmas also assume every solved slot is Occupied (`OccupiedSlots`), as a matched sequence is: `Solving.SolveHides`, `Solving.ClearAllFacts`, `Solving.ClearAllItems`, `Solving.ClearAllBoard`, `Solving.FallsFacts`, `Solving.RolledFacts`, `Solving.SolveJobOrder` and `Solving.SolveBoard`. So the job-order and board lemmas cover matched slots only; a cleared NotAvailable slot would change the terrain. For a solved slot that is not Occupied, `ClearSolvedSlot` hides and returns no item. The source would add the slot's empty item reference to both lists.
- `RollDownStrategy.ItemsRollDownFillStrategy.GetFillJobs` and `GetSolveJobs` require a board with a row, or no columns. The source reads `_gameBoard[0, c]`, which does not exist otherwise.
- The generate lemmas (`GenerateFacts` and its parts) are stated for a column whose top slot is not NotAvailable. That is the only case `GetFillJobs` generates in. A NotAvailable top slot reads as not Occupied, so the source loop would treat it as empty.
- `StoneTile.StoneState.GroupId` returns the group itself, not its integer value. The source's `TileGroup` values are not part of this model, and only the distinction between Stone and Available matters.
- The `StatefulGridTile` base class is not modelled. That includes how it dispatches to `OnComplete` and `OnReset`.
- The `StoneState` getters require `Valid()`, the class invariant every constructed tile keeps through both handlers.
- `IGameBoard`, `GridSlot` and `IItemGenerator` are not part of this model. Their behaviour follows the names in the strategy:
  - `CanMoveInDirection` holds when `p + d` is on the grid and Free;
  - `GetSideGridSlot` returns none off the grid;
  - `Clear` sets a slot Free;
  - `SetItem` sets it Occupied;
  - the indexer reads a slot.
- The source's loop bodies are the helper methods `MoveRowSlot`, `GenerateItem`, `GetPairMoveData` and `ClearSolvedSlot`. They are there so each loop's proof stays small; they change no behaviour.
- `GetFillJobs` on a board whose open tops are all Occupied still yields one empty Drop job per such column (`Generation.FillOnFullTops`).
- `PlayingMode` (input and UI wiring) and the other fill strategies are not modelled.
