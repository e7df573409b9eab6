# Shortest-path visualiser: searches and grid store

This project models the core of a grid path-finding visualiser in Dafny. It covers two parts:

- **The three searches**: A\*, Dijkstra and breadth-first search, together with their shared helpers. These are neighbour enumeration, the Manhattan heuristic and path reconstruction from predecessor links.
- **The grid store**: building a grid, typing one cell, clearing the drawn path, resetting, and the running and stop flags.

## Modules

- `GridModel` (`grid.dfy`) covers the grid, cells and neighbours:
  - a grid is a rectangular sequence of rows of cell types (empty, wall, start, end, path, visited);
  - `Neighbors` yields the in-bounds, non-wall 4-neighbours in the order up, down, left, right;
  - `Manhattan` is the heuristic;
  - it also defines walks and reachability, the reference against which the searches are judged.
- `Paths` (`paths.dfy`) holds what the searches share:
  - the `{path, visitedNodes}` result;
  - `ReconstructPath`;
  - parent trees;
  - the two promises every search makes. `RecordsVisits` says each cell is recorded at most once, only reachable cells are recorded, the end is never recorded, the start comes first, and the visit callback sees exactly the recorded cells after the start. `ReportsPath` says a path is returned exactly when the end is reachable, it is a repetition-free walk from start to end, and with no path the recorded cells are exactly the reachable ones.
- `Bfs`, `Dijkstra` and `AStar` (`bfs.dfy`, `dijkstra.dfy`, `astar.dfy`) each hold one search as a method with its loop invariant. Each method returns the result together with `trace`, the cells handed to the visit callback, in order.
  - Each search is also proved to return a shortest walk. For A\* this rests on the Manhattan heuristic being consistent: it falls by at most one per step.
  - Dijkstra's selection is a row-major scan for the first least finite distance.
  - A\* re-sorts its open list before every pop with a stable sort keyed by the estimate `f`, an unset estimate counting as zero.
- `Store` (`store.dfy`) models the store as pure functions from one state to the next. Its start/end uniqueness predicate, `Consistent`, says a cell has type start exactly when the start reference names it, and the same for end.

The searches in the source keep per-cell search fields (`g`, `f`, `parent`) on the cell objects. The model keeps them instead in fresh maps for each run. Each search also carries a ghost rank map: BFS depth, Dijkstra distance, or A\* cost-so-far. Every predecessor link lowers the rank, so reconstruction terminates.

## Model

| member | source | states |
|---|---|---|
| GridModel.Neighbors | src/lib/algorithms/pathfinding.ts:10-35 | a cell is listed exactly when it is one orthogonal move away, inside the grid and not a wall; at most four cells, in the order up, down, left, right |
| GridModel.NeighborsDistinct | src/lib/algorithms/pathfinding.ts:10-35 | no neighbour is listed twice |
| GridModel.Manhattan | src/lib/algorithms/pathfinding.ts:37-39 | the heuristic is zero exactly for the same cell and one exactly for adjacent cells |
| GridModel.ManhattanAlongWalk | src/lib/algorithms/pathfinding.ts:37-39 | along any walk, the distance to a fixed target falls by at most one per step, so the heuristic is consistent |
| GridModel.WallFreeShortestLength | src/lib/algorithms/pathfinding.ts:37-39 | on a grid without walls every shortest walk has Manhattan distance + 1 cells, so the heuristic is exact there |
| Paths.ReconstructPath | src/lib/algorithms/pathfinding.ts:41-51 | the result ends at the given cell, starts at a cell without predecessor, and each cell's predecessor is the cell before it |
| Paths.TreePathIsWalk | src/lib/algorithms/pathfinding.ts:41-51 | from any discovered cell of a parent tree, reconstruction yields a repetition-free walk from the start to that cell |
| Paths.TreePathLength | src/lib/algorithms/pathfinding.ts:41-51 | when each link raises the rank by one from rank 0 at the start, the reconstructed path has rank + 1 cells |
| Paths.TreePathWithin | src/lib/algorithms/pathfinding.ts:41-51 | when each link raises the rank by one from rank 0 at the start, every discovered cell of rank below k is the end of a walk from the start of at most k cells |
| Paths.ShortestTreePath | src/lib/algorithms/pathfinding.ts:41-51 | when a cell's rank is its distance from the start, the reconstructed path is a shortest walk |
| Bfs.Bfs | src/lib/algorithms/pathfinding.ts:175-216 | breadth-first search keeps both search promises and, when it returns a path, the path is a shortest walk from start to end; then the recorded cells are whole layers: every cell reachable by a walk of fewer cells than the path is recorded, and every recorded cell is reachable by a walk no longer than the path |
| Bfs.EnqueueOnce | src/lib/algorithms/pathfinding.ts:198-212 | popping one cell and appending the unseen neighbours keeps every cell recorded or queued at most once, and the seen set equal to recorded plus queued cells |
| Bfs.FoundEndIsShortest | src/lib/algorithms/pathfinding.ts:191-196 | when the end reaches the queue front, the reconstructed path is a walk from the start no longer than any other |
| Bfs.FoundEndRecordsLayers | src/lib/algorithms/pathfinding.ts:191-196 | when the end reaches the queue front, every cell reachable by a walk shorter than the returned path has been recorded, and every recorded cell is reachable by a walk no longer than it |
| Bfs.DrainedRecordsReachable | src/lib/algorithms/pathfinding.ts:213-215 | when the queue runs dry, the recorded cells are exactly the cells reachable from the start |
| Dijkstra.SelectMin | src/lib/algorithms/pathfinding.ts:126-143 | the scan picks an unvisited cell of least finite distance that comes first in row-major order, or reports none exactly when every unvisited cell has infinite distance |
| Dijkstra.FirstMinUnique | src/lib/algorithms/pathfinding.ts:130-141 | the scan's choice is determined: two first minima are the same cell |
| Dijkstra.Relax | src/lib/algorithms/pathfinding.ts:160-169 | relaxing the neighbours one by one equals lowering every improvable unvisited neighbour to the new distance at once; no distance rises or is forgotten, and a link changes only where the distance strictly fell |
| Dijkstra.ExhaustedRecordsReachable | src/lib/algorithms/pathfinding.ts:143-172 | when the scan finds no finite distance, the recorded cells are exactly the reachable ones |
| Dijkstra.SelectedIsOptimal | src/lib/algorithms/pathfinding.ts:126-143 | the cell the scan selects has a distance no walk from the start can beat |
| Dijkstra.UnvisitedCrossing | src/lib/algorithms/pathfinding.ts:126-143 | a walk from the start to a cell not yet selected passes through an unselected cell whose tentative distance is below the walk's length |
| Dijkstra.ExpandKeepsLevel | src/lib/algorithms/pathfinding.ts:150-169 | cells are selected in order of distance: every selected cell's distance is at most that of the cell just selected, which is at most every remaining finite distance, and relaxing keeps this |
| Dijkstra.FoundEndRecordsLayers | src/lib/algorithms/pathfinding.ts:144-149 | when the scan selects the end, every cell reachable by a walk shorter than the returned path has been recorded, and every recorded cell is reachable by a walk no longer than it |
| Dijkstra.FoundEndIsShortest | src/lib/algorithms/pathfinding.ts:144-149 | when the scan selects the end, the reconstructed path is a walk from the start no longer than any other |
| Dijkstra.Dijkstra | src/lib/algorithms/pathfinding.ts:106-173 | Dijkstra's search keeps both search promises and, when it returns a path, the path is a shortest walk from start to end; then every cell reachable by a walk of fewer cells than the path is recorded, and every recorded cell is reachable by a walk no longer than the path |
| AStar.Key | src/lib/algorithms/pathfinding.ts:68 | the sort key is the cell's `f` when set and zero when unset |
| AStar.Insert | src/lib/algorithms/pathfinding.ts:68 | inserting one cell into a list adds exactly that cell, and the result starts with it or with the list's old head |
| AStar.SortByKey | src/lib/algorithms/pathfinding.ts:68 | the sorted open list is a permutation of the open list |
| AStar.SortSorted | src/lib/algorithms/pathfinding.ts:68 | the open list after sorting is ordered by `f` (unset counting as zero) and has no repeated cell when it had none before |
| AStar.SortStable | src/lib/algorithms/pathfinding.ts:68 | the sort is stable: for every key the cells with that key keep their relative order |
| AStar.SortHeadIsFirstMin | src/lib/algorithms/pathfinding.ts:68-69 | the popped cell is the earliest open cell with the smallest key |
| AStar.PopFront | src/lib/algorithms/pathfinding.ts:68-69 | the popped cell was open, and the rest of the list holds every other open cell once |
| AStar.Relax | src/lib/algorithms/pathfinding.ts:86-100 | the neighbour loop updates cost, estimate and predecessor of exactly the neighbours that are not closed and either not open or open at a higher cost; estimates are cost plus Manhattan distance to the end; the open list grows by the neighbours neither open nor closed, in order |
| AStar.HeadKeyLeast | src/lib/algorithms/pathfinding.ts:68-69 | no open cell has a smaller key than the popped one |
| AStar.PoppedIsOptimal | src/lib/algorithms/pathfinding.ts:67-69 | the popped cell has a cost no walk from the start can beat |
| AStar.OpenCrossing | src/lib/algorithms/pathfinding.ts:67-69 | a walk from the start to a cell not yet closed passes through an open cell whose key is at most the walk's steps plus the Manhattan distance from its last cell to the end |
| AStar.ExpandKeepsLevel | src/lib/algorithms/pathfinding.ts:86-100 | because the heuristic is consistent, closing the popped cell and updating its neighbours leaves every closed key at most the popped key and every open key at least it |
| AStar.ExpandKeepsClosedBelow | src/lib/algorithms/pathfinding.ts:67-100 | cells are closed in order of key: every closed cell's key is at most that of the cell just popped, which is at most every open key, and one expansion keeps this |
| AStar.FoundEndRecordsLayers | src/lib/algorithms/pathfinding.ts:71-76 | when the end is popped, every cell reachable by a walk whose length plus Manhattan distance to the end is below the path's length has been recorded, and every recorded cell has a distance from the start which, plus its Manhattan distance to the end, is at most the path's steps |
| AStar.FoundEndIsShortest | src/lib/algorithms/pathfinding.ts:71-76 | when the end is popped, the reconstructed path is a walk from the start no longer than any other |
| AStar.AStar | src/lib/algorithms/pathfinding.ts:53-104 | A\* keeps both search promises and, when it returns a path, the path is a shortest walk from start to end; then every cell reachable by a walk whose length plus Manhattan distance to the end is below the path's length is recorded, and every recorded cell's distance from the start plus its Manhattan distance to the end is at most the path's steps |
| Store.InitialBuildsDefaultGrid | src/lib/stores/pathfindingStore.ts:28-37 | the initial state satisfies start/end uniqueness, and resetting it gives the default 20 by 40 grid of empty cells with no start or end, A\*, a 50 ms delay and both flags off |
| Store.InitializeGrid | src/lib/stores/pathfindingStore.ts:41-61 | the new grid has the given size, every cell is empty and carries its own coordinates, both references are cleared, and the other fields stay |
| Store.InitializeGridConsistent | src/lib/stores/pathfindingStore.ts:41-61 | a freshly built grid satisfies start/end uniqueness |
| Store.SetCell | src/lib/stores/pathfindingStore.ts:63-88 | setting a cell keeps the grid's shape and every field other than the grid and the references |
| Store.SetCellFrame | src/lib/stores/pathfindingStore.ts:63-88 | every cell keeps its coordinates, and every cell other than the target and the start or end cell a new start or end replaces keeps its type |
| Store.SetCellStart | src/lib/stores/pathfindingStore.ts:66-74 | a new start takes the start reference, leaves the end reference, and demotes the previous start cell, when it is another cell, to empty |
| Store.SetCellEnd | src/lib/stores/pathfindingStore.ts:66-79 | a new end takes the end reference, leaves the start reference, and demotes the previous end cell, when it is another cell, to empty |
| Store.SetCellOther | src/lib/stores/pathfindingStore.ts:66-84 | any other type is written as given, and overwriting the start (or end) cell clears that reference while the other reference stays |
| Store.SetCellFixed | src/lib/stores/pathfindingStore.ts:63-88 | the intended setCell writes the requested type at the target; for a new start (or end) the previous start (or end) cell, when it is another cell, becomes empty; every other cell is unchanged; the target takes the start or end reference, and overwriting the start or end cell with anything else clears that reference; shape and the other fields stay |
| Store.SetCellFixedConsistent | src/lib/stores/pathfindingStore.ts:63-88 | the intended setCell keeps start/end uniqueness for every target and type |
| Store.SetCellAgrees | src/lib/stores/pathfindingStore.ts:63-88 | setCell as written equals the intended one exactly when the new type is not start or end landing on the current start or end cell, and in that case it keeps start/end uniqueness |
| Store.SetCellDiffers | src/lib/stores/pathfindingStore.ts:66-84 | a new start or end on the current start or end cell, as written, differs from the intended result |
| Store.SetCellRestartEmptiesStart | src/lib/stores/pathfindingStore.ts:66-74 | setting the start again on the start cell leaves that cell empty while the start reference still names it |
| Store.SetCellStartOnEndKeepsEndRef | src/lib/stores/pathfindingStore.ts:66-84 | setting the start on the end cell leaves the end reference naming a start cell |
| Store.TwoCellsShowsSlips | src/lib/stores/pathfindingStore.ts:63-88 | on a one-row grid holding a start and an end, both slips break start/end uniqueness, while the intended setCell keeps it |
| Store.ClearPath | src/lib/stores/pathfindingStore.ts:90-100 | every path or visited cell becomes empty; all other cell types, the coordinates, the shape and the references stay |
| Store.ClearPathIdempotent | src/lib/stores/pathfindingStore.ts:90-100 | clearing twice is clearing once |
| Store.ClearPathConsistent | src/lib/stores/pathfindingStore.ts:90-100 | clearing keeps start/end uniqueness |
| Store.ResetGridAsWritten | src/lib/stores/pathfindingStore.ts:102-107 | the store first takes exactly the intended blank grid and then the state from before the call, so its last state is the old one |
| Store.ResetGrid | src/lib/stores/pathfindingStore.ts:102-107 | the intended reset leaves a grid of the current size whose every cell is empty and carries its own coordinates, with both references cleared and the algorithm, delay, running and stop flags kept |
| Store.ResetGridIdempotent | src/lib/stores/pathfindingStore.ts:102-107 | resetting twice is resetting once, and a reset grid satisfies start/end uniqueness |
| Store.SetAlgorithm | src/lib/stores/pathfindingStore.ts:116-117 | only the algorithm changes |
| Store.SetAnimationSpeed | src/lib/stores/pathfindingStore.ts:118-119 | only the delay per step changes |
| Store.SetIsRunning | src/lib/stores/pathfindingStore.ts:120-121 | sets the running flag, always withdraws a stop request, and changes nothing else |
| Store.StopAlgorithm | src/lib/stores/pathfindingStore.ts:122-123 | requests a stop and changes nothing else |

## Left out

- `sleep`, `animationSpeed` and the asynchronous waits are left out of the searches. The `onVisit` callback becomes the returned `trace`.
- The per-cell `g`, `f` and `parent` fields that the source mutates on shared cell objects are modelled as fresh maps for each run. A second run over cells that still carry fields from an earlier run is not modelled. In the source, the one stale field a later run can follow is the start's `parent`. No search ever writes it: breadth-first search marks the start seen, Dijkstra never improves on its distance 0, and A\* closes it first. `setCell` and `clearPath` copy it forward with each cell, so reconstruction can run on past the start. A\* reads `g` and `f` only on open cells, and each of these gets them in the current run.
- String keys `"row,col"` and object identity (`!==`, `includes`) are both modelled as equality of coordinates. This assumes the start and end passed in are the grid's own cell objects.
- Dijkstra's `Infinity` is modelled as a cell missing from the distance map. Distances and costs are unbounded naturals; JavaScript numbers never lose precision at grid sizes.
- The inner neighbour loops of Dijkstra and A\* are proved equal to their closed forms, which rely on a neighbour list with no repeats. The source evaluates the new cost (`(current.g || 0) + 1`, and Dijkstra's `distances.get(currentKey)! + 1`) once per neighbour (pathfinding.ts:89, :164); the model evaluates it once per expansion. The value is the same, because the current cell is never its own neighbour and the loop does not change its own entry.
- The store's subscription mechanism and `getState`/`shouldStop` readers are left out. Each operation becomes a function from state to state. The exception is `resetGrid` as written, which returns the sequence of states the store takes.
- Negative sizes passed to `initializeGrid` are not modelled; the source would raise a range error there. Sizes are naturals.
- The in-place mutation by `setCell` of the shallow-copied rows, and of `state.startCell`/`state.endCell`, is modelled as building a new state. No other reader of the old state exists.
- Store.SetCell and Store.SetCellFixed require an in-grid target. In the source, an out-of-range `row` or `col` makes `newGrid[row][col]` throw a TypeError, and that error path is not modelled. The store's callers pass the coordinates of rendered cells.
- Bfs.Bfs, Dijkstra.Dijkstra and AStar.AStar require the start to be a cell of the grid. In the source an out-of-range start is not rejected: breadth-first search still asks for its neighbours, and the map lookups of Dijkstra and A\* do not throw. That path is not modelled; the page only passes rendered cells.
- Store.SetCell: its own contract states only the frame. Its effect on the target, the references and the previous start or end cell is stated by the lemmas `Store.SetCellStart`, `Store.SetCellEnd`, `Store.SetCellOther` and `Store.SetCellFrame`.

## Findings

| source | as written | input that shows it | evidently intended | confidence | as-written member | corrected member |
|---|---|---|---|---|---|---|
| src/lib/stores/pathfindingStore.ts:66-74 | the target is retyped to start, then the cell named by the start reference is set to empty; when that is the target itself, the new start is wiped | start at (0,0), then `setCell(0, 0, 'start')` | the cell stays the start | not executed | Store.SetCellRestartEmptiesStart | Store.SetCellFixedConsistent |
| src/lib/stores/pathfindingStore.ts:66-84 | the else-if chain tests the new type first, so writing start over the end cell (or end over the start cell) never clears the old reference | start at (0,0), end at (0,1), then `setCell(0, 1, 'start')` | the end reference becomes null | not executed | Store.SetCellStartOnEndKeepsEndRef | Store.SetCellFixedConsistent |
| src/lib/stores/pathfindingStore.ts:102-107 | the callback calls `initializeGrid`, whose own update publishes a blank grid, then returns the captured old state, which the outer update publishes last | a 1×1 grid holding a wall, then `resetGrid()` | a blank grid of the current size | not executed | Store.ResetGridAsWrittenKeepsWalls | Store.ResetGridIdempotent |
