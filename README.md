# Maze Solver core in Dafny

This project models the maze library of Maze Solver.
- `generateMaze` builds a `rows` by `cols` grid of fully walled cells.
  - A randomized recursive backtracker (`carve`) carves a spanning tree of passages from (0, 0).
  - It then clears the transient `visited` markers.
  - It then "braids" up to `extraPaths` further openings.
- Five solvers take `(grid, start, end)` and return two traces: a `visited` trace of explored steps (`isPath = false`) and a `path` trace (`isPath = true`):
  - breadth-first search (a FIFO queue);
  - depth-first search (a LIFO stack);
  - A* (an open list scanned for the lowest `fScore`, with the Manhattan heuristic);
  - Dijkstra's algorithm (a queue sorted by distance before every pop);
  - a recursive backtracking search that refuses `bomb` cells.

Modules, one file each:

- `maze.dfy` (`Maze`): the records of `types/types.ts` plus the movement relation every solver uses.
  - The records are `Coord`, `Walls`, `Cell` and `Step`.
  - `Link(g, a, b)` holds when `b` is one step from `a` through a side of `a` whose wall flag is down, and both cells are in the grid. This is exactly the test the solvers make: they look only at the current cell's flag.
  - Routes, reachability and wall symmetry are defined here.
  - Under wall symmetry, `Link` is symmetric and routes can be reversed. The generator establishes wall symmetry.
- `search.dfy` (`Search`): what the BFS, DFS and A* solvers share.
  - The neighbour table is top, bottom, left, right.
  - `Fresh` discovers the neighbours a cell adds in that order.
  - `visited` / `prev` are `array2` matrices, tied to ghost sets and maps by `SeenIs` / `PrevIs`.
  - The `prev` links form a breadth tree (`Tree`: every link is a legal move one level down).
  - `TracePath` is the shared reconstruction loop.
- `bfs.dfy`, `dfs.dfy`, `astar.dfy`, `dijkstra.dfy`, `backtracking.dfy`: the solvers.
  - Each `while` loop is a method with its invariant.
  - Each loop body is a method proved against that invariant, and the step lemmas state why the invariant is kept.
  - Backtracking is a class `Run` holding the `visited` matrix and the two traces its nested `dfs` appends to. `dfs` is a recursive method on it.
- `generator.dfy` (`MazeGenerator`): the grid is an `array2<Cell>` changed in place, and `Snap` reads it as a value.
  - `Math.random` is an object `Random` over an arbitrary oracle `draw: nat -> nat`, so every property holds for every sequence of draws.
  - `shuffle` is an in-place Fisher-Yates loop over an `array`.

What is proved, in short:

- **Generator.** For every sequence of draws, the generated grid:
  - has labelled cells, no bombs, symmetric walls and an intact rim, and every `visited` flag is cleared;
  - has every cell reachable from (0, 0);
  - has between `rows*cols - 1` and `rows*cols - 1 + max(extraPaths, 0)` open boundaries. With no extra paths that is exactly `rows*cols - 1`, so the open boundaries form a spanning tree.

  `shuffle` permutes its array.
- **Solvers.**
  - The visited trace starts at `start`, stays in the grid, repeats no cell and is no longer than the grid.
  - It contains `end`, as its last step, exactly when `end` is reachable.
  - BFS, A* and Dijkstra return a shortest route when `end` is reachable. DFS returns some route. The backtracking solver returns a route avoiding `bomb` cells exactly when one exists.
  - When `end` is unreachable, the code returns different things, and the model follows it. BFS, DFS and A* return `[end]`: the reconstruction pushes `end` and then meets a `null` predecessor. Dijkstra and backtracking return `[]`.

## Model

| member | source | states |
|---|---|---|
| Maze.MoveOpposite | lib/mazeGenerator.ts:4-9 | each direction's `opposite` leads back: moving `d` then `Opposite(d)` returns to the cell, and `Opposite` is an involution |
| Maze.Without | lib/mazeGenerator.ts:43-44 | clearing one wall flag sets exactly that flag to false and keeps the other three |
| Maze.LinkIff | lib/algorithms/bfs.ts:28-31 | a move through side `d` is legal exactly when both cells are in the grid and the current cell has no wall on side `d` |
| Maze.SymmetricFlags | lib/mazeGenerator.ts:43-44 | on a wall-symmetric grid the two flags on either side of an inner boundary agree |
| Maze.LinkSymmetric | lib/mazeGenerator.ts:43-44 | on a wall-symmetric grid every legal move can be made backwards |
| Maze.RouteReversible | lib/mazeGenerator.ts:43-44 | on a wall-symmetric grid a route read backwards is again a route |
| Maze.Reverse | lib/algorithms/bfs.ts:49 | `path.reverse()` keeps the length |
| Maze.ReverseIndex | lib/algorithms/bfs.ts:49 | element `k` of the reversed sequence is element `|s|-1-k` of the original |
| Maze.DistinctCellsBound | lib/algorithms/bfs.ts:8 | a repetition-free list of cells of the grid is no longer than `rows*cols` |
| Search.SearchOrderFacts | lib/algorithms/bfs.ts:19-24 | the solvers' neighbour table lists four distinct directions, all of them |
| Search.FreshFrom | lib/algorithms/bfs.ts:25-38 | scanning the directions adds at most one cell per direction |
| Search.FreshFromSound | lib/algorithms/bfs.ts:28-33 | every cell the scan adds was unmarked, is in the grid and is one legal move from the current cell through one of the scanned directions |
| Search.FreshFromComplete | lib/algorithms/bfs.ts:28-33 | every unmarked cell one legal move away through a scanned direction is added |
| Search.FreshFromDistinct | lib/algorithms/bfs.ts:32-35 | the scan adds no cell twice |
| Search.FreshFacts | lib/algorithms/bfs.ts:25-38 | the direction loop adds exactly the unmarked legal neighbours, each once |
| Search.FreshStep | lib/algorithms/bfs.ts:25-38 | one more pass of the direction loop appends at most the neighbour behind that direction, which no earlier pass added |
| Search.NewSeen | lib/algorithms/bfs.ts:8 | the fresh `visited` matrix has the grid's shape and marks nothing |
| Search.MarkSeen | lib/algorithms/bfs.ts:12 | setting one flag marks exactly one more cell |
| Search.NewPrev | lib/algorithms/bfs.ts:9 | the fresh `prev` matrix has the grid's shape and holds `null` everywhere |
| Search.Mark | lib/algorithms/bfs.ts:35-36 | marking a neighbour and recording its `prev` adds one cell and one tree link |
| Search.TryDirection | lib/algorithms/bfs.ts:26-37 | one pass of the direction loop queues and marks the neighbour behind that direction exactly when it is fresh, with the current cell as its `prev` |
| Search.Expand | lib/algorithms/bfs.ts:19-38 | the direction loop appends exactly the fresh neighbours, in table order, marks them and links them to the current cell |
| Search.TreeGrow | lib/algorithms/bfs.ts:34-36 | linking fresh neighbours under a known cell keeps `prev` a tree of legal moves, one level per link |
| Search.TreeRoute | lib/algorithms/bfs.ts:44-47 | following `prev` back from a known cell gives a route from `start` with one cell per level |
| Search.TreeReachable | lib/algorithms/bfs.ts:34-36 | every cell with a `prev` chain is reachable from `start` |
| Search.SolvedAnswer | lib/algorithms/bfs.ts:42-49 | a finished search plus the reconstructed path: a shortest route when `end` is reachable, `[end]` when it is not |
| Search.WalkStep | lib/algorithms/bfs.ts:44-47 | one step of the reconstruction loop keeps the walk consistent and moves one level closer to `start` |
| Search.WalkEnd | lib/algorithms/bfs.ts:48-49 | when the walk stops, the pushed cells read forwards are a route from `start` to `end` of length `depth[end]+1`, or `[end]` if `end` has no `prev` |
| Search.WalkBack | lib/algorithms/bfs.ts:44-47 | the reconstruction loop stops at `start` or at a cell without `prev`, having pushed `end` and then the `prev` links it followed |
| Search.BackStep | lib/algorithms/bfs.ts:45-46 | one step of the reconstruction loop keeps it consistent, keeps every pushed cell at `end` or among the link targets, and moves one level closer to `start` |
| Search.LinksExploredStep | lib/algorithms/bfs.ts:15-36 | exploring a cell and linking its fresh neighbours back to it keeps every `prev` link pointing at an explored cell |
| Search.TracePath | lib/algorithms/bfs.ts:42-49 | the reconstruction gives a route from `start` to `end` one longer than the depth of `end`, or `[end]` for an unreached `end`; every step is tagged `isPath`, and when every `prev` link points into a set of cells, every step other than `end` is in that set |
| Search.LayerBound | lib/algorithms/bfs.ts:14-38 | no route from `start` is shorter than the depth the search gives its last cell |
| Search.ClosedHoldsReachable | lib/algorithms/bfs.ts:14-38 | a set holding `start` and closed under legal moves holds every reachable cell |
| Search.ClosedHoldsRoute | lib/algorithms/bfs.ts:14-38 | a set closed under legal moves holds every cell of a route starting in it |
| Bfs.BfsInit | lib/algorithms/bfs.ts:8-12 | the queue `[start]` with only `start` marked satisfies the loop invariant |
| Bfs.ExploredStep | lib/algorithms/bfs.ts:15-16 | appending the popped cell keeps the visited trace starting at `start`, in the grid and without repeats |
| Bfs.StepDistinct | lib/algorithms/bfs.ts:32-35 | marking at enqueue time keeps explored and queued cells pairwise distinct |
| Bfs.StepPartition | lib/algorithms/bfs.ts:15-34 | every marked cell is either explored or queued |
| Bfs.StepLayered | lib/algorithms/bfs.ts:34 | the FIFO queue stays sorted by depth and spans at most two consecutive levels |
| Bfs.StepExpanded | lib/algorithms/bfs.ts:25-38 | after the direction loop every neighbour of each explored cell is marked, at most one level deeper |
| Bfs.BfsStep | lib/algorithms/bfs.ts:15-38 | one iteration that does not meet `end` keeps the whole loop invariant and the trace within `rows*cols` |
| Bfs.BfsFound | lib/algorithms/bfs.ts:16-17 | popping `end` ends the search with `end` last and its depth equal to its distance from `start` |
| Bfs.BfsExhausted | lib/algorithms/bfs.ts:14 | an empty queue means every reachable cell was explored and `end` is unreachable |
| Bfs.Visit | lib/algorithms/bfs.ts:15-38 | the head of the queue is taken off and appended to the visited trace; the search stops exactly when it is `end`, otherwise the new queue is the rest followed by its fresh neighbours in table order, each linked back to it; the loop invariant is kept and the trace stays within `rows*cols` |
| Bfs.Advance | lib/algorithms/bfs.ts:19-38 | for a head other than `end`, the new queue is the rest followed by its fresh neighbours, one level deeper and linked back to it, and the invariant holds with the head explored |
| Bfs.Explore | lib/algorithms/bfs.ts:6-39 | the search loop ends with a `prev` tree whose every link points at an explored cell, and a visited trace that holds `end`, last, exactly when `end` is reachable, with the depth of `end` its distance |
| Bfs.Bfs | lib/algorithms/bfs.ts:5-51 | `bfs`: a proper visited trace holding `end`, last, exactly when it is reachable; a shortest route when reachable, every cell of it explored; `[end]` otherwise |
| Dfs.DfsInit | lib/algorithms/dfs.ts:8-12 | the stack `[start]` with only `start` marked satisfies the loop invariant |
| Dfs.ExploredPop | lib/algorithms/dfs.ts:15-16 | appending the popped cell keeps the visited trace proper and the rest of the stack distinct from it |
| Dfs.PopPartition | lib/algorithms/dfs.ts:15-34 | every marked cell is either explored or on the stack |
| Dfs.DfsStep | lib/algorithms/dfs.ts:15-38 | one iteration that does not meet `end` keeps the loop invariant and the trace within `rows*cols` |
| Dfs.CoveredStep | lib/algorithms/dfs.ts:25-38 | explored cells keep all their neighbours marked, and the popped cell joins them |
| Dfs.DfsFound | lib/algorithms/dfs.ts:16-17 | popping `end` ends the search with `end` last and reachable |
| Dfs.DfsExhausted | lib/algorithms/dfs.ts:14 | an empty stack means every reachable cell was explored and `end` is unreachable |
| Dfs.Visit | lib/algorithms/dfs.ts:15-38 | the top of the stack is popped and appended to the visited trace; the search stops exactly when it is `end`, otherwise the new stack is the rest with its fresh neighbours pushed in table order, each linked back to it |
| Dfs.Explore | lib/algorithms/dfs.ts:6-39 | the search loop ends with a `prev` tree whose every link points at an explored cell, and a visited trace that holds `end`, last, exactly when `end` is reachable |
| Dfs.Dfs | lib/algorithms/dfs.ts:5-51 | `dfs`: a proper visited trace holding `end`, last, exactly when it is reachable; a route from `start` to `end` when reachable, every cell of it explored; `[end]` otherwise |
| AStar.Manhattan | lib/algorithms/astar.ts:3-5 | the heuristic is zero exactly between equal cells |
| AStar.ManhattanMetric | lib/algorithms/astar.ts:3-5 | the heuristic is symmetric, zero on the diagonal and obeys the triangle inequality |
| AStar.ManhattanStep | lib/algorithms/astar.ts:3-5 | one legal move changes the heuristic by at most one (it is consistent) |
| AStar.ManhattanAlongRoute | lib/algorithms/astar.ts:3-5 | along any route the heuristic never exceeds the moves left plus the heuristic of the route's end (it is admissible) |
| AStar.LowestF | lib/algorithms/astar.ts:23-27 | the scan returns the first open entry whose `fScore` is lowest: no entry is lower and every earlier one is strictly higher |
| AStar.LowestScore | lib/algorithms/astar.ts:23-27 | the entry the scan picks from the `fScore` matrix has the lowest `g + h` of the open list |
| AStar.PopLowest | lib/algorithms/astar.ts:23-28 | the popped cell has the lowest `fScore`, ties going to the earliest entry, and its `gScore` is its distance from `start` |
| AStar.PopOptimal | lib/algorithms/astar.ts:23-28 | with a consistent heuristic, the open cell of lowest `fScore` has no shorter route from `start` than its `gScore` |
| AStar.RemoveAt | lib/algorithms/astar.ts:28 | `splice(minIdx, 1)` removes exactly the chosen cell and keeps the list free of repeats |
| AStar.Close | lib/algorithms/astar.ts:28-32 | closing the popped cell starts its direction loop with the invariant in place |
| AStar.ScanStep | lib/algorithms/astar.ts:48-52 | giving the neighbour behind one more direction `gScore[cur]+1` (when new or lower) covers that direction too, and no score rises |
| AStar.NoReopen | lib/algorithms/astar.ts:49 | a closed neighbour's `gScore` is never above `gScore[cur]+1`, so a closed cell is never improved |
| AStar.TreeImprove | lib/algorithms/astar.ts:49-51 | redirecting `cameFrom` of an improved cell keeps a tree of legal moves |
| AStar.UpdateScores | lib/algorithms/astar.ts:48-52 | an improvement never touches a closed cell and keeps the closed cells' scores exact |
| AStar.UpdateOpen | lib/algorithms/astar.ts:53-55 | an improved cell joins the open list unless already there, so the list keeps every open scored cell once and no closed cell |
| AStar.UpdateExpanded | lib/algorithms/astar.ts:48-52 | an improvement keeps every other closed cell's neighbours scored at most one above it |
| AStar.RelaxUpdate | lib/algorithms/astar.ts:43-55 | one pass that improves a neighbour keeps the direction-loop invariant, and scores only decrease |
| AStar.RelaxKeep | lib/algorithms/astar.ts:43-49 | a pass whose test fails keeps the direction-loop invariant |
| AStar.RelaxStep | lib/algorithms/astar.ts:43-56 | one pass of the direction loop keeps its invariant whichever way the test goes, and no `gScore` increases |
| AStar.Improve | lib/algorithms/astar.ts:50-52 | an improvement writes `cameFrom`, `gScore = t` and `fScore = t + manhattan(n, end)` for exactly that cell |
| AStar.TryNeighbour | lib/algorithms/astar.ts:41-56 | one pass improves the neighbour exactly when it is in the grid, the wall is down and `gScore[cur]+1 < gScore[n]`, and otherwise changes nothing |
| AStar.Relax | lib/algorithms/astar.ts:40-58 | one pass of the direction loop has exactly the effect `RelaxOne` describes (a better score, `cameFrom` and an open-list push, or nothing), keeps the matrices matching the scores and the loop invariant, and scores only decrease |
| AStar.RelaxOneIs | lib/algorithms/astar.ts:43-55 | what `TryNeighbour` does to the open list, the scores and `cameFrom` is one step of `RelaxOne` |
| AStar.PushStep | lib/algorithms/astar.ts:43-55 | after one more pass the open list, the scores and the `cameFrom` links are `Pushes`, `ScoresAfter` and `LinksAfter` of one more direction, judged against the state the loop started from, because the four neighbours are different cells |
| AStar.TrailStep | lib/algorithms/astar.ts:40-58 | recording the state after one more pass extends the record of the direction loop by exactly that `RelaxOne` step |
| AStar.TrailProgress | lib/algorithms/astar.ts:40-58 | every state the direction loop passes through is where `Pushes`, `ScoresAfter` and `LinksAfter` put it |
| AStar.LoopOutcome | lib/algorithms/astar.ts:40-58 | the four passes end with the open list `Pushes`, the scores `ScoresAfter` and the links `LinksAfter`, each side judged against the starting state |
| AStar.AfterAt | lib/algorithms/astar.ts:48-51 | after the passes, a neighbour whose score `gScore[cur]+1` strictly improves is scored that and linked back to `cur`; every other cell, including a neighbour that would only tie, keeps its score and its `cameFrom` link |
| AStar.PushesAppend | lib/algorithms/astar.ts:53-55 | the direction loop only appends to the open list, and only neighbours of `cur` reachable in one legal move that are not closed, each once |
| AStar.RelaxDone | lib/algorithms/astar.ts:40-58 | after the four passes the closed cell has every neighbour scored at most one above it |
| AStar.ExpandCell | lib/algorithms/astar.ts:33-58 | the loop's states are the four `RelaxOne` passes in the order top, bottom, left, right, from the starting open list, scores and links to the new ones (so, by `LoopOutcome`, the open list gains the improved, unclosed, not yet open neighbours in that order and the scores and links are `ScoresAfter` and `LinksAfter`); scores stay exact on closed cells, the open list complete and repeat-free, every closed cell expanded, and scores only decrease |
| AStar.TraceStep | lib/algorithms/astar.ts:28-30 | closing an open cell appends it to the visited trace, which keeps starting at `start` and repeating no cell |
| AStar.TraceBound | lib/algorithms/astar.ts:30 | the visited trace is no longer than the grid has cells |
| AStar.AStarInit | lib/algorithms/astar.ts:12-19 | the open list `[start]` with `gScore[start] = 0` satisfies the loop invariant |
| AStar.NewScores | lib/algorithms/astar.ts:14-19 | the fresh score matrices hold `Infinity` except `gScore[start] = 0` and `fScore[start] = manhattan(start, end)` |
| AStar.AStarStep | lib/algorithms/astar.ts:28-58 | closing and expanding a cell other than `end` keeps the loop invariant and the trace within `rows*cols` |
| AStar.AStarFound | lib/algorithms/astar.ts:31 | popping `end` ends the search with `end` last and its `gScore` its distance |
| AStar.AStarExhausted | lib/algorithms/astar.ts:21 | an empty open list means every reachable cell was closed and `end` is unreachable |
| AStar.Settle | lib/algorithms/astar.ts:28-58 | one iteration that does not pop `end`: the popped cell is appended to the visited trace and closed, the new open list is the spliced list followed by the neighbours pushed by `Pushes`, the new scores and `cameFrom` links are `ScoresAfter` and `LinksAfter` of the popped cell, and the loop invariant and the matrices are kept |
| AStar.ClosedLinks | lib/algorithms/astar.ts:28-31 | every `cameFrom` link points at a closed cell, that is at a cell of the visited trace, also after one more step is appended |
| AStar.Explore | lib/algorithms/astar.ts:10-59 | the search loop ends with a `cameFrom` tree whose every link points at a closed cell, and a visited trace holding `end`, last, exactly when reachable, with `gScore[end]` its distance |
| AStar.AStar | lib/algorithms/astar.ts:9-71 | `aStar`: a proper visited trace holding `end`, last, exactly when it is reachable; a shortest route when reachable, every cell of it closed; `[end]` otherwise |
| Dijkstra.Insert | lib/algorithms/dijkstra.ts:30 | inserting an entry keeps every entry (as a multiset) and adds the new one |
| Dijkstra.SortByDist | lib/algorithms/dijkstra.ts:30 | the sort keeps the queue's entries as a multiset |
| Dijkstra.InsertSorted | lib/algorithms/dijkstra.ts:30 | inserting into a queue sorted by `dist` keeps it sorted |
| Dijkstra.SortByDistSorts | lib/algorithms/dijkstra.ts:30 | `queue.sort((a, b) => a.dist - b.dist)` leaves the queue sorted by `dist`, a permutation of the old queue |
| Dijkstra.InsertStable | lib/algorithms/dijkstra.ts:30 | insertion keeps the order of entries of equal `dist`, the new one first |
| Dijkstra.SortByDistStable | lib/algorithms/dijkstra.ts:30 | the sort is stable: for every distance the entries at that distance keep their relative order |
| Dijkstra.SortedFixed | lib/algorithms/dijkstra.ts:30 | a queue already sorted by `dist` comes out of the sort unchanged |
| Dijkstra.QueueSorted | lib/algorithms/dijkstra.ts:30-31 | the queue is always sorted by `dist` before the sort, so the shifted entry is the one with the smallest `dist` |
| Dijkstra.NewDist | lib/algorithms/dijkstra.ts:12-17 | the fresh `dist` matrix is `Infinity` everywhere except `dist[start] = 0` |
| Dijkstra.Record | lib/algorithms/dijkstra.ts:48-49 | a successful relaxation sets `dist` and `prev` of exactly that cell |
| Dijkstra.Unqueue | lib/algorithms/dijkstra.ts:33 | clearing `inQueue` of the popped cell removes exactly that cell from the flagged cells |
| Dijkstra.KnownNear | lib/algorithms/dijkstra.ts:46-47 | no cell with a finite `dist` lies more than one above the popped cell's |
| Dijkstra.RelaxIff | lib/algorithms/dijkstra.ts:46-47 | `alt = dist[cur]+1 < dist[n]` holds exactly when `n` still has `dist = Infinity` |
| Dijkstra.Probe | lib/algorithms/dijkstra.ts:39-47 | the test of one pass succeeds exactly for an open, in-grid neighbour that has no distance yet, and then `alt` is one above `dist[cur]` |
| Dijkstra.Discover | lib/algorithms/dijkstra.ts:47-53 | a successful relaxation records the distance and `prev`, queues the cell and flags it `inQueue` |
| Dijkstra.RelaxDirection | lib/algorithms/dijkstra.ts:39-56 | one pass of the direction loop relaxes and queues the neighbour behind that direction exactly when it is fresh |
| Dijkstra.RelaxAll | lib/algorithms/dijkstra.ts:38-56 | the direction loop gives every fresh open neighbour `dist[cur]+1`, `cur` as `prev`, and a queue entry, in table order |
| Dijkstra.QueuedStep | lib/algorithms/dijkstra.ts:50-53 | after the pop and the pushes the cells flagged `inQueue` are exactly the queued cells |
| Dijkstra.EntriesStep | lib/algorithms/dijkstra.ts:51 | every queue entry carries its cell's current `dist` |
| Dijkstra.CarriedStep | lib/algorithms/dijkstra.ts:46-51 | after one iteration every entry still carries its cell's `dist` |
| Dijkstra.DijkstraStep | lib/algorithms/dijkstra.ts:30-56 | one iteration that does not pop `end` moves the queue exactly like the breadth-first queue and keeps its invariant |
| Dijkstra.Visit | lib/algorithms/dijkstra.ts:30-56 | the head of the sorted queue is shifted off and appended to the visited trace; the search stops exactly when it is `end`, otherwise the new queue is the rest followed by entries at `dist[cur]+1` for its fresh neighbours in table order, each linked back to it |
| Dijkstra.SortAndPop | lib/algorithms/dijkstra.ts:30-31 | the sort leaves the queue as it is, and `shift` takes its head entry |
| Dijkstra.PopCells | lib/algorithms/dijkstra.ts:31-33 | shifting the queue removes exactly the head's cell from the queued cells |
| Dijkstra.Advance | lib/algorithms/dijkstra.ts:38-56 | the new queue is the rest followed by entries at `dist[cur]+1` for the fresh neighbours, which get `cur` as `prev`; the invariant holds with the popped cell appended to the trace |
| Dijkstra.Explore | lib/algorithms/dijkstra.ts:28-57 | the search loop ends with a `prev` tree whose every link points at an explored cell, and a visited trace holding `end`, last, exactly when reachable, with `dist[end]` its distance |
| Dijkstra.UnwindStep | lib/algorithms/dijkstra.ts:61-64 | one `unshift` of the reconstruction keeps the path a route to `end` |
| Dijkstra.Unwind | lib/algorithms/dijkstra.ts:60-67 | the `unshift` reconstruction gives a route from `start` to `end` with `dist[end]+1` cells when `end` was reached, and `[]` otherwise; when every `prev` link points into a set of cells, every step other than `end` is in that set |
| Dijkstra.Dijkstra | lib/algorithms/dijkstra.ts:3-70 | `dijkstra`: a proper visited trace holding `end`, last, exactly when it is reachable; a shortest route when reachable, every cell of it explored; `[]` otherwise |
| Backtracking.Run.constructor | lib/algorithms/backtracking.ts:8-10 | a fresh run: nothing marked, both traces empty |
| Backtracking.Run.Enter | lib/algorithms/backtracking.ts:17-18 | entering marks the cell and appends it, as an explored step, to the visited trace; a cell entered after the first is one legal move from the earlier step it was entered from |
| Backtracking.Run.Push | lib/algorithms/backtracking.ts:36 | `path.push` appends one path step and leaves the visited trace alone |
| Backtracking.Run.Dfs | lib/algorithms/backtracking.ts:13-42 | the nested `dfs` only extends the visited trace, first with its own cell, and it enters that cell exactly when the cell is in the grid, not a bomb and not yet marked; `true` exactly when `end` was reached, then `end` is last and the path read backwards is a route from the cell to `end` through visited cells; on `false` the path is empty and every cell it entered has all sides tried |
| Backtracking.Run.Sides | lib/algorithms/backtracking.ts:24-41 | the direction loop stops at the first side leading to `end`; if none does, every cell entered since the current one has all sides tried; it enters a further cell exactly when some side, in the order top, bottom, left, right, has no wall and leads to an enterable unmarked cell, and the first cell it enters is the one behind the first such side |
| Backtracking.Run.Side | lib/algorithms/backtracking.ts:31-40 | one pass tries the neighbour through a missing wall; the pass enters a cell exactly when that side has no wall and the neighbour is enterable and unmarked, and the first cell entered is that neighbour; a wall leaves both traces unchanged; on success `c` is appended to the path, otherwise that side counts as tried |
| Backtracking.FirstEntry | lib/algorithms/backtracking.ts:25-34 | the first side, from a given position in the order top, bottom, left, right, that leads into a new cell, and no side before it does; 4 when there is none |
| Backtracking.FirstEntryAt | lib/algorithms/backtracking.ts:31-35 | a side that enters, with no entering side before it, is the first entering side |
| Backtracking.FirstEntryNone | lib/algorithms/backtracking.ts:31-41 | with no entering side, there is no first one |
| Backtracking.FirstStep | lib/algorithms/backtracking.ts:31-40 | one pass of the direction loop keeps the record of which side's cell the loop entered first |
| Backtracking.OrderDone | lib/algorithms/backtracking.ts:36-41 | when the direction loop returns, the first cell it entered is behind the first entering side, and it entered none exactly when no side enters |
| Backtracking.GrewTo | lib/algorithms/backtracking.ts:19-37 | a successful recursive call has appended to the visited trace, since it ends at `end` and `end` was not visited before |
| Backtracking.EnteredMarks | lib/algorithms/backtracking.ts:17-18 | right after a cell is entered, the marked cells are the earlier ones and that cell |
| Backtracking.LinkedEarlier | lib/algorithms/backtracking.ts:31-35 | every visited cell after the first is one legal move from an earlier visited cell |
| Backtracking.TriedAfter | lib/algorithms/backtracking.ts:34-35 | after a failed recursive call or a wall, one more side of the cell is tried and earlier cells stay closed |
| Backtracking.SidesClosed | lib/algorithms/backtracking.ts:41 | after all four sides fail, the current cell and every cell entered below it are closed |
| Backtracking.Succeeded | lib/algorithms/backtracking.ts:35-37 | a successful call through an open side, with the current cell appended, leaves a backwards route from the current cell to `end` through visited cells |
| Backtracking.Unwound | lib/algorithms/backtracking.ts:36 | appending the current cell on the way out extends the backwards route by one legal move |
| Backtracking.ClosedHoldsSafeRoute | lib/algorithms/backtracking.ts:14-16 | a set holding `start` whose cells have all enterable neighbours in it holds every cell of a bomb-free route from `start` |
| Backtracking.Answer | lib/algorithms/backtracking.ts:45 | after `path.reverse()` a successful run's path is a bomb-free route from `start` to `end` through visited cells |
| Backtracking.EnteredCell | lib/algorithms/backtracking.ts:14-16 | every cell in the visited trace is in the grid and not a bomb |
| Backtracking.Refused | lib/algorithms/backtracking.ts:41 | a failed run leaves a closed set of visited cells without `end`, so no bomb-free route from `start` to `end` exists |
| Backtracking.Backtracking | lib/algorithms/backtracking.ts:5-47 | `backtracking`: the visited trace starts at `start`, holds no cell twice and no bomb; the path is non-empty exactly when a bomb-free route exists, and then it is one, from `start` to `end`, through visited cells, with `end` last in the visited trace; otherwise it is empty and `end` was never visited; every visited cell after the first is one legal move from an earlier visited cell |
| MazeGenerator.Random.Below | lib/mazeGenerator.ts:15 | `Math.floor(Math.random() * n)` is the next draw scaled below `n`, and consumes exactly one draw |
| MazeGenerator.FisherYatesStep | lib/mazeGenerator.ts:14-16 | the shuffle's first pass swaps position `i` with the next draw scaled to `[0, i]` |
| MazeGenerator.SwapPermutes | lib/mazeGenerator.ts:16 | a swap permutes the array |
| MazeGenerator.FisherYatesPermutes | lib/mazeGenerator.ts:14-17 | the swap passes permute the array |
| MazeGenerator.ShuffledPermutes | lib/mazeGenerator.ts:13-19 | whatever the draws, `shuffle` returns a permutation of its input |
| MazeGenerator.SwapWithDraw | lib/mazeGenerator.ts:15-16 | one loop pass swaps `array[i]` with the entry at the next draw scaled to `[0, i]` |
| MazeGenerator.Shuffle | lib/mazeGenerator.ts:13-19 | the in-place loop leaves the Fisher-Yates shuffle of the old contents, a permutation of them, using one draw per position from the last down to 1 |
| MazeGenerator.BoundaryShared | lib/mazeGenerator.ts:5-8 | a side and its `opposite` on the neighbour name the same boundary |
| MazeGenerator.ClearBoundaryCells | lib/mazeGenerator.ts:43-44 | clearing a boundary changes exactly the two flags on it and no other cell |
| MazeGenerator.ClearBoundaryMarks | lib/mazeGenerator.ts:43-44 | clearing a boundary keeps labels and markers and only knocks walls down |
| MazeGenerator.ClearBoundaryKeepsInv | lib/mazeGenerator.ts:43-44 | clearing both sides of a boundary keeps labels, no bombs, wall symmetry and the rim |
| MazeGenerator.ClearBoundaryKeepsSymmetry | lib/mazeGenerator.ts:43-44 | clearing a wall together with its neighbour's opposite wall keeps wall symmetry |
| MazeGenerator.ClearBoundaryKeepsRim | lib/mazeGenerator.ts:38-40 | a bounds-guarded clearing never touches a wall on the rim |
| MazeGenerator.ClearBoundaryIntact | lib/mazeGenerator.ts:43-44 | only the two cells of the cleared boundary lose walls |
| MazeGenerator.ClearBoundaryOpensOne | lib/mazeGenerator.ts:43-44 | clearing a walled boundary opens exactly that one boundary |
| MazeGenerator.ClearBoundaryOther | lib/mazeGenerator.ts:69-70 | clearing one boundary leaves every other boundary as it was |
| MazeGenerator.LinkPersists | lib/mazeGenerator.ts:69-70 | knocking walls down keeps every legal move legal |
| MazeGenerator.ReachablePersists | lib/mazeGenerator.ts:69-70 | knocking walls down never disconnects two cells |
| MazeGenerator.OpenBoundary | lib/mazeGenerator.ts:43-44 | the in-place update of the two flags leaves the grid with that boundary cleared |
| MazeGenerator.MarkVisited | lib/mazeGenerator.ts:33 | marking the current cell keeps the walls and the invariant and adds one visited cell |
| MazeGenerator.EveryDirection | lib/mazeGenerator.ts:34 | the shuffled direction table still lists all four directions |
| MazeGenerator.CarveStart | lib/mazeGenerator.ts:33-34 | after marking, the loop over the shuffled directions starts with its invariant |
| MazeGenerator.CarveSkip | lib/mazeGenerator.ts:38-42 | a direction leading off the grid or to a visited cell is passed over without change |
| MazeGenerator.CarveStepBefore | lib/mazeGenerator.ts:38-45 | opening the boundary to an unvisited neighbour makes that neighbour ready to carve, and the count of visited cells rises |
| MazeGenerator.CarveStepAfter | lib/mazeGenerator.ts:45 | after carving from the neighbour, the loop moves on with its invariant |
| MazeGenerator.CarveStepReach | lib/mazeGenerator.ts:43-45 | every cell the recursive call marked is reachable from the current cell through the opened boundary |
| MazeGenerator.CarveStepClosed | lib/mazeGenerator.ts:41-45 | tried neighbours stay visited, and closed cells stay closed |
| MazeGenerator.CarveFinish | lib/mazeGenerator.ts:35-47 | once every direction has been tried, `carve` has established its contract |
| MazeGenerator.EveryNeighbourTried | lib/mazeGenerator.ts:35-47 | after the loop every in-grid neighbour of the current cell is visited |
| MazeGenerator.CarveToward | lib/mazeGenerator.ts:36-46 | one pass of the direction loop carves towards an in-grid unvisited neighbour, or skips it, and keeps the loop invariant |
| MazeGenerator.Carve | lib/mazeGenerator.ts:32-48 | `carve(cur)` keeps the invariant, only knocks walls down, marks `cur`, makes every newly marked cell reachable from `cur` with all its neighbours marked, and opens one boundary per newly marked cell after the first |
| MazeGenerator.ClosedHoldsAll | lib/mazeGenerator.ts:50 | when (0, 0) is visited and every visited cell has all its neighbours visited, every cell is visited |
| MazeGenerator.FreshGrid | lib/mazeGenerator.ts:23-30 | the initial grid, labelled and fully walled, satisfies the invariant with nothing visited and no boundary open |
| MazeGenerator.CarvedEverything | lib/mazeGenerator.ts:50 | `carve(0, 0)` on the fresh grid reaches every cell and opens exactly `rows*cols - 1` boundaries, a spanning tree |
| MazeGenerator.Unvisit | lib/mazeGenerator.ts:52 | the reset keeps the grid's shape |
| MazeGenerator.UnvisitKeeps | lib/mazeGenerator.ts:52 | the reset keeps walls and the invariant and clears every `visited` flag |
| MazeGenerator.ResetVisited | lib/mazeGenerator.ts:52 | the nested loops leave every cell's `visited` flag cleared and everything else unchanged |
| MazeGenerator.BraidStart | lib/mazeGenerator.ts:55-56 | braiding starts with no boundary added |
| MazeGenerator.BraidStep | lib/mazeGenerator.ts:63-71 | knocking down a boundary walled on both sides opens exactly one more boundary and keeps the invariant |
| MazeGenerator.Braid | lib/mazeGenerator.ts:55-74 | braiding keeps the invariant, only opens boundaries, adds exactly `added` of them, and stops after `extraPaths` openings or `extraPaths*10` attempts |
| MazeGenerator.GeneratedReachable | lib/mazeGenerator.ts:52-74 | the reset and braiding keep every cell reachable from (0, 0) |
| MazeGenerator.GenerateMaze | lib/mazeGenerator.ts:21-77 | `generateMaze`: a `rows` by `cols` grid of labelled cells with symmetric walls, an intact rim, no visited flag, every cell reachable from (0, 0), and between `rows*cols-1` and `rows*cols-1+Max0(extraPaths)` open boundaries, where `Max0` clamps a negative `extraPaths` to 0 (exactly `rows*cols-1` when `extraPaths <= 0`, which includes the default `extraPaths := 0`) |

## Left out

- The user interface (`app/`, `components/`, `tailwind.config.ts`) is not part of this model: it only animates and draws the traces.
- `Math.random` is an injected oracle of draws. Its distribution is not modelled, and every property holds for every sequence of draws.
- JavaScript numbers are unbounded `int`/`nat`. `Infinity` in the `gScore`, `fScore` and `dist` matrices is `None`. Every value the library computes is a small non-negative integer: scores and distances stay below `rows*cols + rows + cols` (a route length plus a Manhattan distance), and the braiding attempt counter stays at most `extraPaths*10`. These are far below 2^53, where JavaScript numbers hold integers exactly, so neither floating point nor overflow is modelled.
- `Array.prototype.sort` in `dijkstra` is a library call. It is modelled as a stable insertion sort on the queue as a sequence (`Dijkstra.SortByDist`), and the queue is a `seq` the loop reassigns.
- `path.reverse()` is modelled by the value function `Maze.Reverse` rather than in place.
- The `found` flag in `backtracking` is written but never read, so it is not modelled.
- Bfs.Bfs, Dfs.Dfs, AStar.AStar, Dijkstra.Dijkstra: `start` and `end` must lie in the grid, and the grid must be non-empty and rectangular.
  - The code crashes on an empty grid.
  - For a coordinate outside the grid, its behaviour depends on JavaScript reading a missing row (a `TypeError`) or a missing column (`undefined`). That behaviour is not modelled.
- Backtracking.Backtracking: the grid must be non-empty and rectangular. `start` and `end` may be anywhere, because `dfs` checks bounds itself.
- Backtracking.Backtracking, Backtracking.Run.Dfs: the order in which sides are tried (top, bottom, left, right) is stated for each direction loop, by Run.Sides and Run.Side, and is not repeated in these two contracts.
- MazeGenerator.GenerateMaze: `rows` and `cols` must be positive, because `carve(0, 0)` fails on an empty grid.
- The `bomb` field is missing from the `Cell` type and is never set by the generator, so it reads as false. The model gives `Cell` a `bomb` flag that the generator sets to false and that only the backtracking solver reads.
- The solvers do not assume wall symmetry. A move is legal when the current cell's wall is down, which is exactly what the code tests, so routes are stated for that relation. On the generator's grids the relation is symmetric (`Maze.LinkSymmetric`).
- The cell objects' own `row`/`col` fields are kept in `Cell` but never used by the solvers, which work with coordinates.
