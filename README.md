# Maze creator and solvers, modelled in Dafny

The application draws a square or rectangular grid maze and solves it. The grid is a 2-D array
of cell states (`PATH`, `WALL`, `START`, `END`, `SOLUTION`, `VISITED`). A randomized depth-first
backtracker carves mazes. Four strategies solve them: breadth-first search, iterative depth-first
search, a recursion that only moves down or right, and a recursion over four directions that
unmarks dead ends.

The code exists in two trees:
- **Current tree** (`src/main/java`): the solvers return a `SolveResult`, which holds the cells
  explored, in order, and the solution path. The controller can replay that result one step per
  click. Results are also kept in a CSV file through `AlgorithmResultDAOFile`.
- **Older tree** (`src/`): the solvers return the path alone. The panel draws and clears it, and
  the controller finds START and END and reads the maze size from a text label.

The model follows the source's own form:
- The grid is an `array2<CellState>`. A path cell is identified with the grid cell at its
  coordinates.
- The iterative solvers, the generator loop, the panel and controller loops, and the DAO's loops
  are methods with loop invariants.
- The recursive solvers are classes with `maze`, `visited` and path fields. Their recursive
  `FindPath` is proved against pure specification functions (`Recursive.Descend`,
  `Recursive.Back`).
- `Cell`, `AlgorithmResult`, both controllers, the panel and the results file are classes whose
  methods change their fields under `modifies` clauses.
- String handling follows Java's rules: `split` drops trailing empty pieces, `trim` and
  `parseLong`/`parseInt` keep their ranges, and `int` arithmetic wraps. These live in `JavaText`
  and `LegacyCell`.

Ghost predicates work on `Board = seq<seq<CellState>>`, and `Grid.Snapshot` turns the array into
one. Modules:
- `Grid`, `Search` and `SolveResults`: shared definitions.
- `BfsSolver`, `DfsSolver`, `Recursive` and `RecursiveSolvers`: the current tree's solvers.
- `LegacySearch`, `LegacyBfs`, `LegacyDfs` and `LegacyRecursive`: the older tree's solvers.
- `Generator`.
- `Controller`: the current tree's controller.
- `JavaText`, `Results`, `LinkedMaps` and `ResultFile`: the CSV record and the results file.
- `LegacyCell`, `LegacyPanel` and `LegacyController`: the older tree's cell, panel and controller.

## Model

| member | source | states |
|---|---|---|
| SolveResults.IsSolutionFound | src/main/java/models/SolveResult.java:43-45 | a solution is found exactly when the solution path is non-empty |
| Search.Move | src/main/java/solver/impl/MazeSolverBFS.java:43-48 | each of the four offsets leads to a cell that shares a side with the current one |
| Search.MovesCells | src/main/java/solver/impl/MazeSolverBFS.java:43-48 | the four neighbours tried are distinct and are exactly the cells adjacent to the current one |
| Search.IsValid | src/main/java/solver/impl/MazeSolverBFS.java:78-86 | a neighbour is valid exactly when it is inside the grid, is not WALL and has no parent-map entry yet |
| Search.FreshCells | src/main/java/solver/impl/MazeSolverBFS.java:46-55 | the cells queued from one cell are exactly its open, undiscovered neighbours, each once |
| Search.AssignEntries | src/main/java/solver/impl/MazeSolverBFS.java:50-53 | after the parent assignments the map holds the old keys plus the new cells, and each new cell maps to the current cell |
| Search.Expand | src/main/java/solver/impl/MazeSolverBFS.java:46-55 | the inner loop appends exactly the fresh neighbours, in the order up, down, left, right, and records the current cell as the parent of each |
| Search.FrontierBound | src/main/java/solver/impl/MazeSolverBFS.java:34-36 | the explored trace never holds more cells than the grid plus `start` |
| Search.FrontierStep | src/main/java/solver/impl/MazeSolverBFS.java:34-55 | taking a cell off the frontier and expanding it keeps an invariant: the finished and pending cells are exactly the discovered ones, each appears once, `start` comes first, and every parent is finished |
| Search.ExpandCloses | src/main/java/solver/impl/MazeSolverBFS.java:46-55 | once a cell is expanded, every open neighbour of it is discovered |
| Search.ChainIsRoute | src/main/java/solver/impl/MazeSolverBFS.java:58-65 | following parents back from a discovered cell gives a route of open, side-sharing cells from `start` to it, with no repeated cell and one cell more than its depth |
| Search.FollowParents | src/main/java/solver/impl/MazeSolverBFS.java:58-65 | the reconstruction loop, which prepends the cell and moves to its parent until there is none, yields exactly that parent chain |
| Search.DiscoveredIsReachable | src/main/java/solver/impl/MazeSolverBFS.java:50-53 | every cell that gets a parent entry is reachable from `start` |
| Search.ClosedCoversReachable | src/main/java/solver/impl/MazeSolverBFS.java:34-56 | when no discovered cell is left unexpanded, every cell reachable from `start` was explored |
| Search.Escape | src/main/java/solver/impl/MazeSolverBFS.java:34-56 | a route from a discovered cell to a cell not yet finished first leaves the finished cells at a discovered cell |
| Search.LayeredDepth | src/main/java/solver/impl/MazeSolverBFS.java:50-53 | along a route through finished cells, the recorded depth grows by at most one per step |
| Search.LayeredShortest | src/solver/impl/MazeSolverBFS.java:12-14 | a cell taken off a frontier sorted by depth has no route from `start` with fewer than depth + 1 cells |
| Search.SearchStep | src/main/java/solver/impl/MazeSolverDFS.java:32-53 | one iteration, whether it takes from the queue's head or the stack's top, keeps the shared search invariant |
| Search.Discovered | src/main/java/solver/impl/MazeSolverBFS.java:29-36 | the trace starts with `start`, and every later cell is open and reachable from it |
| Search.FoundOutcome | src/main/java/solver/impl/MazeSolverBFS.java:38-41 | when `end` is taken off the frontier, the trace ends with `end` and the parent chain is a route from `start` to `end` without repeats; if `start == end`, trace and path are `[start]` |
| Search.ExhaustedOutcome | src/main/java/solver/impl/MazeSolverBFS.java:34-56 | when the frontier empties, the trace is exactly the cells reachable from `start`, and `end` is not among them |
| Search.Report | src/main/java/solver/impl/MazeSolverBFS.java:24-67 | the outcome of either search gives the `SolveResult` guarantees: the trace starts at `start` without repeats; a solution is found iff `end` is reachable; and the path is a route, or else empty |
| BfsSolver.LevelsStep | src/main/java/solver/impl/MazeSolverBFS.java:34-55 | after one iteration the queue still holds depths d then d + 1 only, in that order |
| BfsSolver.SortedStep | src/main/java/solver/impl/MazeSolverBFS.java:34-55 | dequeuing the head and enqueuing its children at depth + 1 keeps the queue sorted by depth |
| BfsSolver.LayeredStep | src/main/java/solver/impl/MazeSolverBFS.java:46-55 | after an expansion, every neighbour of a finished cell is discovered at most one level deeper |
| BfsSolver.Initial | src/main/java/solver/impl/MazeSolverBFS.java:25-30 | a queue holding only `start`, with parent entry `start -> null`, satisfies the breadth-first loop invariant |
| BfsSolver.Step | src/main/java/solver/impl/MazeSolverBFS.java:34-55 | one iteration keeps the breadth-first loop invariant |
| BfsSolver.Found | src/main/java/solver/impl/MazeSolverBFS.java:38-41 | on dequeuing `end`, its parent chain has no more cells than any route from `start` to `end` |
| BfsSolver.Explore | src/main/java/solver/impl/MazeSolverBFS.java:25-56 | the search loop ends with the outcome above, and with a shortest parent chain when `end` was found |
| BfsSolver.Solve | src/main/java/solver/impl/MazeSolverBFS.java:24-67 | the result is as that outcome promises, and the path is a shortest route. If `end` is unreachable, the path is empty and the trace is exactly the reachable cells. If `start == end`, both trace and path are `[start]` |
| DfsSolver.NextIsLastPushed | src/main/java/solver/impl/MazeSolverDFS.java:33-52 | in the depth-first order, every explored cell but the last pushed its open, not yet discovered neighbours in the order up, down, left, right, and when it pushed any, the next cell explored is the last of them |
| DfsSolver.PopStep | src/main/java/solver/impl/MazeSolverDFS.java:32-34 | the cell popped is the last one pushed that is still on the stack |
| DfsSolver.RecordStep | src/main/java/solver/impl/MazeSolverDFS.java:44-53 | the cells a popped cell pushes are its open neighbours not yet known, in the order up, down, left, right |
| DfsSolver.PushStep | src/main/java/solver/impl/MazeSolverDFS.java:44-53 | after the pushes, the stack is the old stack without its top, followed by the pushed cells, and the history records them |
| DfsSolver.Initial | src/main/java/solver/impl/MazeSolverDFS.java:27-28 | a stack holding only `start`, with parent entry `start -> null`, satisfies the depth-first loop invariant |
| DfsSolver.Step | src/main/java/solver/impl/MazeSolverDFS.java:32-53 | one iteration keeps the depth-first loop invariant |
| DfsSolver.Found | src/main/java/solver/impl/MazeSolverDFS.java:36-39 | popping `end` gives the found outcome, and the pop order is the last-pushed order |
| DfsSolver.Exhausted | src/main/java/solver/impl/MazeSolverDFS.java:32-54 | an empty stack gives the not-found outcome, in the same pop order |
| DfsSolver.Explore | src/main/java/solver/impl/MazeSolverDFS.java:23-54 | the loop ends with the shared outcome, and each explored cell after a push is the last cell pushed |
| DfsSolver.Solve | src/main/java/solver/impl/MazeSolverDFS.java:22-66 | the trace starts at `start` without repeats, and later cells are open and reachable. A solution is found iff `end` is reachable, and then the trace ends with `end` and the path is a route from `start` to `end` without repeats. Otherwise the path is empty and the trace is exactly the reachable cells. If `start == end`, trace and path are `[start]` |
| LegacySearch.IsValid | src/solver/impl/MazeSolverBFS.java:76-90 | a neighbour is valid exactly when it is inside the grid, not WALL and not yet marked visited |
| LegacySearch.Mark | src/solver/impl/MazeSolverBFS.java:56 | marking a cell visited keeps the visited array equal to the cells that have a parent entry |
| LegacySearch.MirrorsNext | src/solver/impl/MazeSolverBFS.java:58 | the parent map without `start` mirrors the discovery links after one more entry |
| LegacySearch.Expand | src/solver/impl/MazeSolverBFS.java:50-61 | the inner loop queues exactly the fresh neighbours in order, marks each visited and records its parent |
| LegacySearch.ReconstructPath | src/solver/impl/MazeSolverBFS.java:95-111 | the rebuilt list is the parent chain when that chain starts at `start`, and empty otherwise |
| LegacySearch.Report | src/solver/impl/MazeSolverBFS.java:19-71 | the path is non-empty iff `end` is reachable; a non-empty path is a route from `start` to `end` without repeats; and `start == end` gives `[start]` |
| LegacyBfs.Explore | src/solver/impl/MazeSolverBFS.java:22-62 | the older breadth-first loop reaches the same outcome with a shortest chain, and its parent map mirrors the chain |
| LegacyBfs.Solve | src/solver/impl/MazeSolverBFS.java:19-71 | the path is non-empty iff `end` is reachable, is then a route without repeats and no longer than any route, and is `[start]` when `start == end` |
| LegacyDfs.Explore | src/solver/impl/MazeSolverDFS.java:22-62 | the older depth-first loop reaches the same outcome, in last-pushed order |
| LegacyDfs.Solve | src/solver/impl/MazeSolverDFS.java:19-70 | the path is non-empty iff `end` is reachable, is then a route without repeats, and is `[start]` when `start == end` |
| Recursive.Descend | src/main/java/solver/impl/MazeSolverRecursivo.java:39-67 | the down/right recursion never clears a visited mark |
| Recursive.DescendStop | src/main/java/solver/impl/MazeSolverRecursivo.java:40-45 | a cell outside the grid, a wall or a visited cell records nothing and fails |
| Recursive.DescendHit | src/main/java/solver/impl/MazeSolverRecursivo.java:47-54 | reaching `end` marks it, records it and returns the path `[end]` |
| Recursive.DescendBelow | src/main/java/solver/impl/MazeSolverRecursivo.java:56-59 | a success below prepends the current cell to the path |
| Recursive.DescendBeside | src/main/java/solver/impl/MazeSolverRecursivo.java:61-66 | after a failure below, the right move runs on the marks the failure left behind, and its result decides |
| Recursive.DescendShorter | src/main/java/solver/impl/MazeSolverRecursivo.java:43-47 | each nested call records fewer cells than its caller, so the recursion ends |
| Recursive.MonoIsRoute | src/main/java/solver/impl/MazeSolverRecursivo.java:56-64 | a route of down and right moves is a route of side-sharing open cells |
| Recursive.MonoLength | src/main/java/solver/impl/MazeSolverRecursivo.java:56-64 | a down/right route from s to e needs e below and right of s, and has (e.row − s.row) + (e.col − s.col) + 1 cells |
| Recursive.DescendTrace | src/main/java/solver/impl/MazeSolverRecursivo.java:43-49 | a cell enters the trace exactly when it is open and not yet visited, each cell at most once, and marked visited |
| Recursive.DescendPath | src/main/java/solver/impl/MazeSolverRecursivo.java:51-64 | on success the path is a down/right route to `end`; on failure it is empty |
| Recursive.PrependMono | src/main/java/solver/impl/MazeSolverRecursivo.java:56-64 | an open cell put in front of a down/right route starting below it or to its right extends the route |
| Recursive.DescendClosed | src/main/java/solver/impl/MazeSolverRecursivo.java:56-66 | after a failure, `end` was not newly marked, and every newly marked cell has its open lower and right neighbours marked |
| Recursive.Blocked | src/main/java/solver/impl/MazeSolverRecursivo.java:56-66 | a down/right route out of a failed region must pass a cell that was visited before the call |
| Recursive.DescendFinds | src/solver/impl/MazeSolverRecursivo.java:14-16 | from no marks, the search succeeds exactly when a down/right route from `start` to `end` exists |
| Recursive.DescendResult | src/main/java/solver/impl/MazeSolverRecursivo.java:28-37 | the trace has no repeats and only open cells. It is non-empty iff `start` is open, and then starts at `start`. A solution is found iff a down/right route exists, iff the path is non-empty. A path then has (end.row − start.row) + (end.col − start.col) + 1 cells and the trace ends with `end`. If `end` lies above or left of `start`, the path is empty |
| Recursive.Dir | src/main/java/solver/impl/MazeSolverRecursivoCompletoBT.java:56-60 | each of the four offsets leads to a side-sharing cell |
| Recursive.DirCases | src/main/java/solver/impl/MazeSolverRecursivoCompletoBT.java:56-60 | every side-sharing cell is one of the four directions tried |
| Recursive.BackStop | src/main/java/solver/impl/MazeSolverRecursivoCompletoBT.java:40-45 | a cell outside the grid, a wall or a visited cell records nothing and fails |
| Recursive.BackHit | src/main/java/solver/impl/MazeSolverRecursivoCompletoBT.java:47-54 | reaching `end` marks and records it and returns `[end]` |
| Recursive.BackAround | src/main/java/solver/impl/MazeSolverRecursivoCompletoBT.java:56-67 | a success through some direction prepends the current cell; a failure records the cell and its subtrees' traces but returns the visited set the call started with |
| Recursive.TryCovers | src/main/java/solver/impl/MazeSolverRecursivoCompletoBT.java:59-64 | a direction's subtree records no more cells than the rest of the loop from that direction on |
| Recursive.SoundAround | src/main/java/solver/impl/MazeSolverRecursivoCompletoBT.java:47-67 | what the direction loop returns makes the call's result sound |
| Recursive.TrySoundNext | src/main/java/solver/impl/MazeSolverRecursivoCompletoBT.java:59-64 | a failed direction followed by a sound rest of the loop is sound |
| Recursive.BackSound | src/main/java/solver/impl/MazeSolverRecursivoCompletoBT.java:39-67 | the trace has only open cells and starts at the cell tried if it was open. A found path is a route of side-sharing open cells to `end` with no repeat, avoiding the cells already visited |
| Recursive.TryLoopSound | src/main/java/solver/impl/MazeSolverRecursivoCompletoBT.java:59-64 | the loop over directions from any index is sound |
| Recursive.TryReaches | src/main/java/solver/impl/MazeSolverRecursivoCompletoBT.java:59-64 | if any remaining direction succeeds, the loop succeeds |
| Recursive.BackComplete | src/main/java/solver/impl/MazeSolverRecursivoCompletoBT.java:39-67 | a route to `end` that avoids the visited cells makes the call succeed |
| Recursive.BackFinds | src/solver/impl/MazeSolverRecursivoCompletoBT.java:11-19 | from no marks, the backtracking search succeeds exactly when `start` is open and `end` is reachable from it |
| Recursive.TryFirst | src/main/java/solver/impl/MazeSolverRecursivoCompletoBT.java:56-64 | directions are tried in the order down, up, right, left; the path comes from the first direction that succeeds, and every earlier one failed |
| Recursive.BackResult | src/main/java/solver/impl/MazeSolverRecursivoCompletoBT.java:28-37 | the trace has only open cells; it is non-empty iff `start` is open, and then starts there. A solution is found iff `start` is open and `end` is reachable, iff the path is non-empty. The path is then a route without repeats, and the trace ends with `end` |
| Recursive.Mark | src/main/java/solver/impl/MazeSolverRecursivoCompletoBT.java:47 | setting `visited[row][col]` adds the cell to the visited set the array holds |
| Recursive.Unmark | src/main/java/solver/impl/MazeSolverRecursivoCompletoBT.java:66 | clearing `visited[row][col]` removes exactly that cell from the set |
| Recursive.Unmarked | src/main/java/solver/impl/MazeSolverRecursivoCompletoBT.java:30 | a new `boolean[][]` holds no marks |
| Recursive.AroundFound | src/main/java/solver/impl/MazeSolverRecursivoCompletoBT.java:59-63 | when direction i succeeds after earlier failures, the call's result is the current cell prepended to that success |
| Recursive.AroundFailed | src/main/java/solver/impl/MazeSolverRecursivoCompletoBT.java:66-67 | when all four directions fail, the call fails with the original visited set and the subtrees' traces |
| Recursive.AfterNext | src/main/java/solver/impl/MazeSolverRecursivoCompletoBT.java:59-64 | a failed direction appends its trace and moves on to the next direction |
| RecursiveSolvers.CallShrinks | src/main/java/solver/impl/MazeSolverRecursivoCompletoBT.java:59-60 | each nested call records fewer cells than its caller, so the recursion ends |
| RecursiveSolvers.FoundRecorded | src/main/java/solver/impl/MazeSolverRecursivoCompletoBT.java:60-63 | the fields after a success match the specification of the success |
| RecursiveSolvers.FailedRecorded | src/main/java/solver/impl/MazeSolverRecursivoCompletoBT.java:59-64 | the fields after a failed direction match the specification of the rest of the loop |
| RecursiveSolvers.DownRightSolver.FindPath | src/main/java/solver/impl/MazeSolverRecursivo.java:39-67 | the method returns what `Recursive.Descend` specifies: it appends that trace to `exploredOrder`, sets `solutionPath` to that path, and leaves `visited` as that set |
| RecursiveSolvers.DownRightSolver.Solve | src/main/java/solver/impl/MazeSolverRecursivo.java:28-37 | the result is the specified trace and path, with every property of `Recursive.DescendResult` |
| RecursiveSolvers.BacktrackSolver.FindPath | src/main/java/solver/impl/MazeSolverRecursivoCompletoBT.java:39-68 | the method returns what `Recursive.Back` specifies. A failing call leaves `visited` exactly as before it; a successful one leaves the specified marks |
| RecursiveSolvers.BacktrackSolver.Solve | src/main/java/solver/impl/MazeSolverRecursivoCompletoBT.java:28-37 | the result is the specified trace and path, with every property of `Recursive.BackResult` |
| LegacyRecursive.DownRightSolver.FindPath | src/solver/impl/MazeSolverRecursivo.java:45-85 | the path field ends as `Recursive.Descend` specifies, and the visited marks are never cleared |
| LegacyRecursive.DownRightSolver.Solve | src/solver/impl/MazeSolverRecursivo.java:25-39 | the result is non-empty iff a down/right route exists; it is then such a route with (end.row − start.row) + (end.col − start.col) + 1 cells; it is empty when `end` is above or left of `start` |
| LegacyRecursive.BacktrackSolver.FindPath | src/solver/impl/MazeSolverRecursivoCompletoBT.java:39-73 | the path field ends as `Recursive.Back` specifies; a failing call restores `visited` |
| LegacyRecursive.BacktrackSolver.Solve | src/solver/impl/MazeSolverRecursivoCompletoBT.java:27-37 | the result is non-empty iff `start` is open and `end` is reachable; a non-empty result is a route without repeats |
| Generator.Unvisited | src/main/java/models/MazeGenerator.java:68-87 | the candidates are exactly the cells two steps away that lie on the grid and are still walls |
| Generator.UnvisitedNeighbors | src/main/java/models/MazeGenerator.java:68-87 | the loop over the four moves collects exactly those candidates |
| Generator.NoneUnvisited | src/main/java/models/MazeGenerator.java:43-55 | when no candidate is left, every on-grid cell two steps away is carved |
| Generator.GrowStart | src/main/java/models/MazeGenerator.java:35-39 | carving and pushing the start cell establishes the loop invariant |
| Generator.JumpCases | src/main/java/models/MazeGenerator.java:48-49 | a candidate keeps the start's parity, and the wall cell midway between it and the current cell is off that parity in one coordinate |
| Generator.StepMidway | src/main/java/models/MazeGenerator.java:48-51 | the wall cell opened is on the grid, still a wall, different from the candidate, and adjacent to both |
| Generator.StepBridged | src/main/java/models/MazeGenerator.java:48-52 | every carved cell off the start's parity lies between two carved cells |
| Generator.StepParity | src/main/java/models/MazeGenerator.java:46-52 | every carved cell shares the start's row parity or its column parity |
| Generator.StepConnected | src/main/java/models/MazeGenerator.java:48-52 | carving the wall cell and the candidate keeps every carved cell connected to the start through carved cells |
| Generator.StepClosed | src/main/java/models/MazeGenerator.java:45-52 | pushing the candidate keeps every finished cell surrounded by carved cells |
| Generator.GrowStep | src/main/java/models/MazeGenerator.java:45-52 | a carve step turns exactly two wall cells, the midway cell and the candidate, into carved cells and keeps the invariant |
| Generator.GrowPop | src/main/java/models/MazeGenerator.java:53-55 | popping a cell with no candidates keeps the invariant |
| Generator.FewerWalls | src/main/java/models/MazeGenerator.java:41-56 | a carve step leaves two fewer walls, so 2 · walls + stack height decreases |
| Generator.AllRooms | src/main/java/models/MazeGenerator.java:41-56 | when the stack empties, every on-grid cell of the start's parity is carved |
| Generator.Final | src/main/java/models/MazeGenerator.java:58-59 | the returned board is size by size |
| Generator.FinalOpen | src/main/java/models/MazeGenerator.java:58-59 | the open cells of the result are the carved cells plus the two corners, which are set whether or not the carving reached them |
| Generator.FinalRoutes | src/main/java/models/MazeGenerator.java:58-59 | a route on the result is exactly a route through carved cells and the two corners |
| Generator.FinalReach | src/main/java/models/MazeGenerator.java:10-13 | every carved cell can be reached from the start in the result |
| Generator.SealedCorner | src/main/java/models/MazeGenerator.java:35-59 | with size 2 and start (0,0), only (0,0) is carved, and END at (1,1) cannot be reached from START |
| Generator.JoinedCorners | src/main/java/models/MazeGenerator.java:10-13 | with a start on an even row and an odd column, START and END are connected |
| Generator.AllWalls | src/main/java/models/MazeGenerator.java:24-30 | the first loops give a fresh size by size grid of walls |
| Generator.SetPath | src/main/java/models/MazeGenerator.java:50-51 | `setState(PATH)` on one cell adds it to the carved set and changes nothing else |
| Generator.Round | src/main/java/models/MazeGenerator.java:42-55 | one round either pushes one uncarved cell two steps from the top of the stack and carves exactly it and the cell midway, or, when the top has no such cell, pops it and carves nothing. It keeps the invariant and decreases 2 · walls + stack height |
| Generator.Carve | src/main/java/models/MazeGenerator.java:32-56 | the carving loop ends with the invariant and an empty stack |
| Generator.MarkCorners | src/main/java/models/MazeGenerator.java:58-59 | START at (0,0), then END at (size−1,size−1), on top of the carved grid |
| Generator.Generate | src/main/java/models/MazeGenerator.java:22-62 | the result is a fresh size by size grid: the carved cells plus the two corners. Every on-grid cell of the start's parity is carved, and every carved cell is reachable from the start |
| Generator.GenerateJoined | src/main/java/models/MazeGenerator.java:35-36 | the same generator with the start drawn from an even row and an odd column. END is always reachable from START |
| Controller.Blank | src/main/java/controllers/MazeController.java:322-330 | a rows by cols board of PATH cells, as new cells are |
| Controller.CreateEmptyMaze | src/main/java/controllers/MazeController.java:322-330 | `createEmptyMaze` builds a fresh all-PATH grid of the given size |
| Controller.ClearedCells | src/main/java/controllers/MazeController.java:231-237 | clearing turns every VISITED or SOLUTION cell into PATH and leaves every other cell as it was |
| Controller.ClearedIdempotent | src/main/java/controllers/MazeController.java:226-239 | clearing twice is clearing once |
| Controller.ClearedBlank | src/main/java/controllers/MazeController.java:214-224 | clearing an all-PATH board leaves it all PATH |
| Controller.ClickOutside | src/main/java/controllers/MazeController.java:102 | a click outside the grid changes nothing |
| Controller.ToggleCells | src/main/java/controllers/MazeController.java:116-119 | TOGGLE_WALL swaps PATH and WALL on the clicked cell, leaves other states there, and changes no other cell or endpoint |
| Controller.PutBack | src/main/java/controllers/MazeController.java:116-119 | writing a cell's old state back undoes a write |
| Controller.ToggleTwice | src/main/java/controllers/MazeController.java:116-119 | toggling the same cell twice restores the editor state |
| Controller.StartCells | src/main/java/controllers/MazeController.java:106-110 | SET_START resets the previous start cell to PATH, marks the clicked cell START, records it, and changes nothing else |
| Controller.EndCells | src/main/java/controllers/MazeController.java:111-115 | SET_END does the same for the end cell |
| Controller.Place | src/main/java/controllers/MazeController.java:107-109 | resetting the previous endpoint and then marking the clicked cell, on the grid |
| Controller.SolverForName | src/main/java/controllers/MazeController.java:273-281 | each known name selects its solver, and every other name selects the backtracking solver |
| Controller.NameRoundTrip | src/main/java/controllers/MazeController.java:273-281 | the name of each solver selects that solver |
| Controller.RunSolver | src/main/java/controllers/MazeController.java:186-187 | the chosen solver's result has the guarantees proved for it |
| Controller.Next | src/main/java/controllers/MazeController.java:190-211 | a step never changes the cached result |
| Controller.PaintOne | src/main/java/controllers/MazeController.java:190-211 | a step changes at most the cell it is about, only PATH to VISITED while exploring and only non-START/END to SOLUTION on the solution walk |
| Controller.Steps | src/main/java/controllers/MazeController.java:190-211 | a frame fact: no number of steps touches the cached result (the playback properties are `Controller.StepsProgress` and `Controller.Playback`) |
| Controller.StepsLast | src/main/java/controllers/MazeController.java:190-211 | n + 1 steps are n steps followed by one |
| Controller.StepsProgress | src/main/java/controllers/MazeController.java:190-211 | after n ≤ k + 1 + m steps, with k explored and m path cells, the indices and phase are as counted: exploration first, then one phase-flip step, then the solution walk |
| Controller.Playback | src/main/java/controllers/MazeController.java:195-211 | after k + 1 + m steps (m = 0 without a solution) every later step changes neither the fields nor any cell, and every earlier step changes the fields |
| Controller.MarksOnlyTrans | src/main/java/controllers/MazeController.java:190-211 | marks-only changes compose |
| Controller.PlayMarks | src/main/java/controllers/MazeController.java:190-211 | any number of steps only adds marks to the board |
| Controller.Blanked | src/main/java/controllers/MazeController.java:218-222 | a grid whose every cell is PATH is the blank board |
| Controller.MazeController.constructor | src/main/java/controllers/MazeController.java:59-66 | a new controller holds a blank grid, no endpoints, edit mode TOGGLE_WALL and idle playback |
| Controller.MazeController.MousePressed | src/main/java/controllers/MazeController.java:97-122 | the grid and endpoints change exactly as the editing rules say |
| Controller.MazeController.ExecuteStep | src/main/java/controllers/MazeController.java:179-212 | With no cached result and a missing endpoint, nothing changes. With no cached result and both endpoints, the maze is cleared, solved once, the result cached, and exploration step 0 taken in the same call. With a cached result, exactly one playback step is taken |
| Controller.MazeController.Prepare | src/main/java/controllers/MazeController.java:185-187 | clears the board, then caches the chosen solver's result on the cleared board |
| Controller.MazeController.PlayStep | src/main/java/controllers/MazeController.java:190-211 | one playback step on the fields and the grid |
| Controller.MazeController.ClearBoard | src/main/java/controllers/MazeController.java:214-224 | every cell becomes PATH, both endpoints are dropped and playback is reset |
| Controller.MazeController.ClearSolution | src/main/java/controllers/MazeController.java:226-239 | playback is reset (both indices 0, exploring, no cache) and the grid is cleared as `Controller.Cleared` says |
| JavaText.Fields | src/models/AlgorithmResult.java:69 | splitting at a character always gives at least one piece |
| JavaText.FieldsFree | src/models/AlgorithmResult.java:69 | no piece contains the separator |
| JavaText.FieldsOne | src/models/AlgorithmResult.java:69 | a string without the separator is its own single piece |
| JavaText.FieldsJoin | src/models/AlgorithmResult.java:69 | the pieces of x, separator, y are the pieces of x followed by those of y |
| JavaText.FieldsMany | src/models/AlgorithmResult.java:69 | a string containing the separator has at least two pieces |
| JavaText.DropTrailingEmpty | src/models/AlgorithmResult.java:69 | `split` removes exactly the trailing empty pieces, and what is left does not end with one |
| JavaText.Split | src/models/AlgorithmResult.java:69 | a string without the separator splits to itself |
| JavaText.SplitTrailing | src/models/AlgorithmResult.java:69 | a trailing separator on a string that already has one changes nothing |
| JavaText.TrimFront | src/main/java/dao/impl/AlgorithmResultDAOFile.java:70 | `trim` drops exactly the leading characters up to U+0020 |
| JavaText.TrimBack | src/main/java/dao/impl/AlgorithmResultDAOFile.java:70 | and exactly the trailing ones |
| JavaText.BlankAll | src/main/java/dao/impl/AlgorithmResultDAOFile.java:70 | a line is blank iff every character is at most U+0020 |
| JavaText.TrimEmpty | src/main/java/dao/impl/AlgorithmResultDAOFile.java:70 | `trim().isEmpty()` holds exactly for blank lines |
| JavaText.Digits | src/models/AlgorithmResult.java:58 | a natural number's decimal digits form a non-empty digit string |
| JavaText.DigitsRoundTrip | src/models/AlgorithmResult.java:58 | reading the digits back gives the number |
| JavaText.Decimal | src/models/AlgorithmResult.java:58 | a number's decimal text is non-empty and has no comma |
| JavaText.DecimalChars | src/models/AlgorithmResult.java:58 | it is made of an optional '-' and digits |
| JavaText.ParseDecimal | src/models/AlgorithmResult.java:74-75 | a parsed value lies in the target type's range, and anything else is a `NumberFormatException` |
| JavaText.ParseLong | src/models/AlgorithmResult.java:74 | `Long.parseLong` gives a 64-bit value or fails |
| JavaText.ParseInt | src/models/AlgorithmResult.java:75 | `Integer.parseInt` gives a 32-bit value or fails |
| JavaText.DecimalRoundTrip | src/models/AlgorithmResult.java:57-77 | parsing a number's decimal text within range gives the number back |
| JavaText.LongRoundTrip | src/models/AlgorithmResult.java:74 | a `long` printed and parsed back is unchanged |
| JavaText.IntRoundTrip | src/models/AlgorithmResult.java:75 | an `int` printed and parsed back is unchanged |
| Results.DecodeRow | src/models/AlgorithmResult.java:68-77 | a decoded record's name has no comma; the wrong number of pieces and unparsable numbers are the two failures |
| Results.RowFields | src/models/AlgorithmResult.java:57-59 | the pieces of a row are the name's pieces, then the time, then the length |
| Results.RowRoundTrip | src/models/AlgorithmResult.java:57-77 | for a comma-free name, `fromCsvRow(toCsvRow(r))` gives back name, time and length |
| Results.CommaRejected | src/models/AlgorithmResult.java:57-72 | a name with a comma gives more than three pieces, and the row is rejected |
| Results.TrailingCommaIgnored | src/models/AlgorithmResult.java:69-72 | a trailing comma on a row that has a comma does not change how it decodes (`"a,1,2,"` reads as `"a,1,2"`) |
| Results.RowNotBlank | src/models/AlgorithmResult.java:57-59 | a row is never blank, so the reader never skips it as empty |
| Results.AlgorithmResult.constructor | src/models/AlgorithmResult.java:21-25 | the fields, which the getters at 29-47 return, are the constructor arguments |
| Results.AlgorithmResult.ToCsvRow | src/models/AlgorithmResult.java:57-59 | the row decodes back to the record when the name has no comma, and is rejected for a wrong field count when it has one |
| Results.AlgorithmResult.SetAlgorithmName | src/models/AlgorithmResult.java:33-35 | only the name changes |
| Results.AlgorithmResult.SetExecutionTime | src/models/AlgorithmResult.java:41-43 | only the time changes |
| Results.AlgorithmResult.SetPathLength | src/models/AlgorithmResult.java:49-51 | only the length changes |
| Results.AlgorithmResult.FromCsvRow | src/models/AlgorithmResult.java:68-77 | either a fresh result holding the decoded record, or no result and the failure that the exception signals |
| LinkedMaps.Empty | src/main/java/dao/impl/AlgorithmResultDAOFile.java:43 | a new map has no keys |
| LinkedMaps.Put | src/main/java/dao/impl/AlgorithmResultDAOFile.java:51 | after `put(k, v)`, k maps to v, an existing key keeps its position, a new key goes last, and keys stay distinct |
| LinkedMaps.PutSame | src/main/java/dao/impl/AlgorithmResultDAOFile.java:51 | putting a key's own value changes nothing |
| LinkedMaps.Values | src/main/java/dao/impl/AlgorithmResultDAOFile.java:55 | `values()` lists the value of each key in key order |
| LinkedMaps.PutNewValues | src/main/java/dao/impl/AlgorithmResultDAOFile.java:51-55 | a new key's value is appended at the end of `values()` |
| LinkedMaps.FirstIndex | src/main/java/dao/impl/AlgorithmResultDAOFile.java:46-48 | the position of the first entry with a key, or the length when none has it |
| LinkedMaps.Latest | src/main/java/dao/impl/AlgorithmResultDAOFile.java:46-48 | the last value put for a key is one of the entries |
| LinkedMaps.Load | src/main/java/dao/impl/AlgorithmResultDAOFile.java:46-48 | putting every entry in turn gives a well-formed map |
| LinkedMaps.LoadEntries | src/main/java/dao/impl/AlgorithmResultDAOFile.java:43-48 | the fill loop computes that map |
| LinkedMaps.LoadMissing | src/main/java/dao/impl/AlgorithmResultDAOFile.java:46-48 | a key no entry has is absent from the map |
| LinkedMaps.DistinctNewKeys | src/main/java/dao/impl/AlgorithmResultDAOFile.java:46-48 | entries with pairwise distinct keys each bring a new key |
| LinkedMaps.LoadDistinct | src/main/java/dao/impl/AlgorithmResultDAOFile.java:46-48 | entries with distinct keys load as a map with those keys in that order and those values |
| LinkedMaps.Items | src/main/java/dao/impl/AlgorithmResultDAOFile.java:55 | the entries of a map, in key order |
| LinkedMaps.LoadItems | src/main/java/dao/impl/AlgorithmResultDAOFile.java:46-48 | putting a map's entries into a new map rebuilds it |
| LinkedMaps.FirstIndexSnoc | src/main/java/dao/impl/AlgorithmResultDAOFile.java:46-48 | where a key first appears after one more entry |
| LinkedMaps.LoadKeys | src/main/java/dao/impl/AlgorithmResultDAOFile.java:46-48 | the map's keys are exactly the keys of the entries |
| LinkedMaps.LoadLatest | src/main/java/dao/impl/AlgorithmResultDAOFile.java:46-48 | each key holds the value of its last entry (duplicates collapse to the last value) |
| LinkedMaps.LoadOrder | src/main/java/dao/impl/AlgorithmResultDAOFile.java:46-48 | keys are ordered by their first entry (at the first position) |
| LinkedMaps.PutOrder | src/main/java/dao/impl/AlgorithmResultDAOFile.java:43-51 | after one more `put`, the old keys keep their order and a new key comes last |
| ResultFile.ReadLine | src/main/java/dao/impl/AlgorithmResultDAOFile.java:70-75 | a line is read only when it is not blank and decodes, and the record read has a comma-free name |
| ResultFile.Reads | src/main/java/dao/impl/AlgorithmResultDAOFile.java:69-77 | each line is read on its own, in file order |
| ResultFile.Kept | src/main/java/dao/impl/AlgorithmResultDAOFile.java:71-76 | keeping the records read drops lines and never adds one |
| ResultFile.KeptFrom | src/main/java/dao/impl/AlgorithmResultDAOFile.java:71-76 | every record kept was read from some line |
| ResultFile.ReadableCommaFree | src/main/java/dao/impl/AlgorithmResultDAOFile.java:65-82 | no record `findAll` returns has a comma in its name |
| ResultFile.KeptAll | src/main/java/dao/impl/AlgorithmResultDAOFile.java:65-82 | when every line reads, all records are kept in order |
| ResultFile.SkipLine | src/main/java/dao/impl/AlgorithmResultDAOFile.java:70-75 | a blank or malformed line adds nothing |
| ResultFile.Entries | src/main/java/dao/impl/AlgorithmResultDAOFile.java:46-47 | each record is put under its own name |
| ResultFile.LoadedKeyed | src/main/java/dao/impl/AlgorithmResultDAOFile.java:46-48 | every key of the loaded map is the name of its record |
| ResultFile.LoadedCommaFree | src/main/java/dao/impl/AlgorithmResultDAOFile.java:46-48 | no key of the loaded map has a comma |
| ResultFile.LoadValues | src/main/java/dao/impl/AlgorithmResultDAOFile.java:46-48 | loading a keyed map's values rebuilds the map |
| ResultFile.Rows | src/main/java/dao/impl/AlgorithmResultDAOFile.java:55-58 | the lines written are each record's CSV row, in order |
| ResultFile.RowsSnoc | src/main/java/dao/impl/AlgorithmResultDAOFile.java:55-58 | writing one more record appends its row |
| ResultFile.ReadRows | src/main/java/dao/impl/AlgorithmResultDAOFile.java:54-82 | reading back the rows of comma-free records gives the records |
| ResultFile.SaveMap | src/main/java/dao/impl/AlgorithmResultDAOFile.java:43-51 | the map built by `saveOrUpdate` is well formed |
| ResultFile.SaveMapKeyed | src/main/java/dao/impl/AlgorithmResultDAOFile.java:46-51 | each of its keys names its record |
| ResultFile.Saving | src/main/java/dao/impl/AlgorithmResultDAOFile.java:41-62 | for a comma-free name, reading the saved file gives the map's values |
| ResultFile.SavedOnce | src/main/java/dao/impl/AlgorithmResultDAOFile.java:46-58 | after `saveOrUpdate(r)`, r is stored, it is the only record with r's name, and names are pairwise distinct |
| ResultFile.SavedLatest | src/main/java/dao/impl/AlgorithmResultDAOFile.java:46-48 | every other stored record is the last one read under its name |
| ResultFile.SavedKeepsNames | src/main/java/dao/impl/AlgorithmResultDAOFile.java:46-51 | every name that was readable before is still stored |
| ResultFile.SavedNames | src/main/java/dao/impl/AlgorithmResultDAOFile.java:46-58 | the stored records are in key order, each under its own name |
| ResultFile.Reload | src/main/java/dao/impl/AlgorithmResultDAOFile.java:41-82 | for a comma-free name, loading the saved file rebuilds the map that was saved |
| ResultFile.SaveAgainMap | src/main/java/dao/impl/AlgorithmResultDAOFile.java:41-62 | saving the same comma-free record again builds the same map |
| ResultFile.SaveTwice | src/main/java/dao/impl/AlgorithmResultDAOFile.java:41-62 | for a comma-free name, `saveOrUpdate(r)` twice gives the same file as once |
| ResultFile.CommaNameLost | src/main/java/dao/impl/AlgorithmResultDAOFile.java:51-58 | a record whose name has a comma is written but never read back: the readable records are the old ones |
| ResultFile.WriteRows | src/main/java/dao/impl/AlgorithmResultDAOFile.java:54-58 | the write loop produces exactly those rows |
| ResultFile.AlgorithmResultFile.constructor | src/main/java/dao/impl/AlgorithmResultDAOFile.java:29-38 | the store starts with the file's existing lines |
| ResultFile.AlgorithmResultFile.FindAll | src/main/java/dao/impl/AlgorithmResultDAOFile.java:65-82 | the read loop returns the readable records, in file order |
| ResultFile.AlgorithmResultFile.SaveOrUpdate | src/main/java/dao/impl/AlgorithmResultDAOFile.java:41-62 | the file becomes the rows of the upserted map |
| ResultFile.AlgorithmResultFile.ClearAll | src/main/java/dao/impl/AlgorithmResultDAOFile.java:85-90 | the file is empty, and reading it gives no record |
| LegacyCell.Wrap | src/models/Cell.java:78-81 | Java `int` arithmetic: the result agrees with the exact value modulo 2^32 |
| LegacyCell.WrapCongruent | src/models/Cell.java:78-81 | values that agree modulo 2^32 wrap alike |
| LegacyCell.PairHashExact | src/models/Cell.java:78-81 | `Objects.hash(row, col)`, wrapped step by step, is 961 + 31·row + col wrapped once |
| LegacyCell.PairHashNoWrap | src/models/Cell.java:78-81 | for small non-negative coordinates the hash is 961 + 31·row + col itself |
| LegacyCell.CoordinatesSplit | src/models/Cell.java:87-90 | row and column joined by a comma split back into the two numbers |
| LegacyCell.CellTextNames | src/models/Cell.java:87-90 | `toString` is `Cell(`, row, `,`, col, `)`, and both numbers parse back |
| LegacyCell.Cell.constructor | src/models/Cell.java:23-27 | a new cell has the given coordinates and state PATH |
| LegacyCell.Cell.SetRow | src/models/Cell.java:35-37 | only the row changes |
| LegacyCell.Cell.SetCol | src/models/Cell.java:43-45 | only the column changes |
| LegacyCell.Cell.SetState | src/models/Cell.java:51-53 | only the state changes |
| LegacyCell.Cell.Equals | src/models/Cell.java:64-70 | two cells are equal exactly when row and column agree; the state is ignored and null is never equal |
| LegacyCell.EqualsReflexive | src/models/Cell.java:64-70 | every cell equals itself |
| LegacyCell.EqualsSymmetric | src/models/Cell.java:64-70 | equality is symmetric |
| LegacyCell.EqualsTransitive | src/models/Cell.java:64-70 | equality is transitive |
| LegacyCell.EqualHash | src/models/Cell.java:78-81 | equal cells have equal hash codes, whatever their states |
| LegacyPanel.DrawnOn | src/views/MazePanel.java:19-30 | drawing keeps the board's shape |
| LegacyPanel.UndrawnAll | src/views/MazePanel.java:32-44 | clearing keeps the board's shape |
| LegacyPanel.DrawnCells | src/views/MazePanel.java:24-28 | drawing turns exactly the PATH cells on the path into SOLUTION; START, END, WALL and VISITED cells on it and every cell off it stay |
| LegacyPanel.UndrawnCells | src/views/MazePanel.java:36-42 | clearing turns exactly the SOLUTION cells into PATH; every other state, VISITED included, stays |
| LegacyPanel.DrawnNothing | src/views/MazePanel.java:20-22 | an empty path draws nothing |
| LegacyPanel.DrawnTwice | src/views/MazePanel.java:19-30 | drawing the same path twice is drawing it once |
| LegacyPanel.UndrawnTwice | src/views/MazePanel.java:32-44 | clearing is idempotent |
| LegacyPanel.DrawThenClear | src/views/MazePanel.java:19-44 | on a board without SOLUTION cells, drawing and then clearing restores it |
| LegacyPanel.UndrawnUnmarked | src/views/MazePanel.java:32-44 | clearing leaves no SOLUTION cell |
| LegacyPanel.MazePanel.SetMaze | src/views/MazePanel.java:14-17 | the panel shows the given maze |
| LegacyPanel.MazePanel.DrawSolution | src/views/MazePanel.java:19-30 | nothing changes without a maze; otherwise the grid becomes the drawn board |
| LegacyPanel.MazePanel.ClearSolution | src/views/MazePanel.java:32-44 | nothing changes without a maze; otherwise the grid becomes the cleared board |
| LegacyController.FirstUnique | src/controllers/MazeController.java:116-122 | there is at most one first cell with a given state |
| LegacyController.FindCell | src/controllers/MazeController.java:116-125 | the result is the first cell in row-major order with the state, and there is none exactly when no cell has it |
| LegacyController.SelectedSize | src/controllers/MazeController.java:105-108 | a label without `x` is parsed whole |
| LegacyController.SizeBeforeX | src/controllers/MazeController.java:105-108 | only the text before the first `x` counts |
| LegacyController.SquareLabel | src/controllers/MazeController.java:105-108 | a label `NxN` selects N, as `20x20` selects 20 |
| LegacyController.OnlyX | src/controllers/MazeController.java:105-108 | a label of nothing but `x` leaves no piece, so the index `[0]` fails |
| LegacyController.MazeController.SolveMaze | src/controllers/MazeController.java:76-99 | Without a maze there is only a notice; otherwise old SOLUTION marks are cleared. A missing START or END gives a notice, and the cleared board stays, exactly when one is absent. Otherwise the solver runs from the first START to the first END; an empty path is reported with the board left cleared, meaning END is unreachable. A non-empty path is a route and is drawn |

## Left out

- Swing views, dialogs and repaints are not part of this model. A `JOptionPane` notice becomes an
  `Outcome` value or nothing. The solver's class name in the older controller's notice is not
  modelled.
- The current controller's timers and animation, `System.nanoTime`, the timer-running guards, the
  `actionPerformed` dispatch, `createNewMaze`/`askForDimension`, and the results, chart and about
  commands are UI, clock or I/O behaviour.
- The older controller's generate, clear and results commands, and `paintComponent`, are drawing
  and UI.
- Randomness: `Random.nextInt` and `Collections.shuffle` in the generator become an arbitrary
  choice (`:|`). `Generator.UnvisitedNeighbors` returns the candidates unshuffled, and `Round`
  picks any of them, which covers every order the shuffle could give.
- Generator.Generate: requires `size > 0`; with size 0, `nextInt(0)` throws.
- Generator.Generate: the connectivity proved is "every carved cell is reachable from the start".
  That the carved region is acyclic (a perfect maze) is not proved.
- `MazeSolverRecursivoCompleto` is not part of this model. The controller step takes its result
  as a parameter (`unseen`).
- LegacyBfs.Solve: requires `Inside(g, start)`, because the older solvers index `visited` at
  `start` before the loop and would throw otherwise. The same holds for LegacyDfs.Solve.
- The backtracking solver's trace may repeat cells after a dead end is unmarked. The model keeps
  the exact trace, and `Recursive.BackResult` claims no distinctness for it.
- Cells are identified by coordinates. A path cell is the grid cell at its coordinates, so object
  aliasing and `Cell[][]` entries with other coordinates are not modelled; the grid builders
  always set `maze[r][c]` to a cell at (r, c).
- The playback step and `drawSolution` skip a cell outside the grid. The source would index it,
  but solver results never hold one.
- A `null` path in `drawSolution` behaves like an empty one; the model has only sequences.
- `isSolutionFound`'s null test has no counterpart: a `SolveResult` always holds sequences. Its
  getters are the datatype's fields.
- `equals` on an object of another class is not modelled: `Equals` takes a `Cell?`.
- `Cell` fields are typed `Int32`. `getRow`/`getCol`/`getState` are plain field reads.
- Digits are ASCII only; `parseLong`/`parseInt` accept an optional `-` or `+` sign and digits.
  Non-ASCII digits and Java's other formats are not modelled.
- Results.DecodeRow: names with line breaks are not modelled; the file is a sequence of lines.
- File I/O is abstracted. The DAO's file is a `seq<string>` field. Its creation in the
  constructor, `IOException` handling and `System.err` messages are left out.
- LinkedHashMap hashing is not modelled: the map is a key sequence plus a `map`.
- ResultFile.SavedOnce: this lemma and its neighbours are stated on `Values(SaveMap(...))`. That
  equals the records read back only for a comma-free name (`ResultFile.Saving`), and
  `ResultFile.CommaNameLost` covers the other case.
- The setters of `AlgorithmResult` are stated on the `Record` view (`Value()`).
- The loops of `saveOrUpdate` are the helpers `LinkedMaps.LoadEntries` and
  `ResultFile.WriteRows`, which the method calls.
- Time and length are Java `long` and `int` (`Int64`, `Int32`). A `long` overflow in the
  measurement is outside the model.
- `Controller.ClearedBlank` states `clearSolution` after the all-PATH loop of `clearBoard`.

## Findings

| source | as written | input that shows it | evidently intended | confidence | as-written member | corrected member |
|---|---|---|---|---|---|---|
| src/main/java/models/MazeGenerator.java:35-36 | The start cell is drawn from any row and column, and carving moves two cells at a time, so only cells of the start's parity, and walls between two of them, are carved. START (0,0) and END (size−1,size−1) are then set unconditionally at lines 58-59 | size 2 with start (0,0): no cell two steps away exists, so only (0,0) is carved. END at (1,1) is walled off from START, against the promise at lines 10-13 that every cell connects to every other | draw the start from an even row and an odd column. Then the carved region touches both corners on every size ≥ 2, and START reaches END | high, not executed | Generator.SealedCorner | Generator.JoinedCorners |
