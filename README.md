# The MAZE search engine, modelled in Dafny

The program keeps one grid of cells: `CellType maze[ROWS][COLS]`. Each cell is
WALL, PATH, START, END, VISITED or CURRENT. The program updates the grid in place:

- `initializeMaze` fills the grid at random, then forces START at (0,0) and
  END at the far corner (ROWS-1, COLS-1).
- `resetMaze` turns VISITED and CURRENT cells back into PATH.
- `animateStep` marks one cell CURRENT and then VISITED.
- Three searches share one skeleton. Each starts from (0,0), pops a position,
  and stops with "found" if the cell is END. Otherwise it marks the cell, then
  pushes every neighbour accepted by `isValid`, in the order up, down, left,
  right. Each pushed neighbour that is not END is marked VISITED at push time.
  - `bfs` uses a FIFO queue.
  - `dfs` uses a LIFO stack.
  - `astar` uses a min-priority queue keyed on the `manhattan` distance to the far corner.

The model has five modules:

- `MazeCells` (cells.dfy) holds cell states, positions and the four neighbour
  offsets. A grid is also viewed as a map from positions to cells. This module
  has the neighbour filter, the neighbours one expansion pushes (`Pushed`), the
  marking those pushes do (`MarkPushed`), and the per-cell effect of
  generation and reset.
- `Reachability` (reach.dfy) defines 4-connected walks from (0,0). Every step
  of a walk goes to a cell that passes the neighbour filter.
- `Frontier` (frontier.dfy) models the three containers as one sequence that
  grows at the back. They differ in which index they pop: the front, the back,
  or some entry of minimal key.
- `SearchProof` (search_proof.dfy) holds the worklist loop's invariant over
  grid values, and one lemma per transition.
- `MazeEngine` (maze.dfy) holds the class `Maze`. Its `array2<CellType>` grid is
  mirrored by a ghost map, and its methods do what the source's functions do.
  `Bfs`, `Dfs` and `AStar` all call one loop, `Search`, with a different container.

ROWS and COLS are class parameters (any positive size); the program fixes them
at 15 and 20. The random draws are an input sequence, one draw per cell in
row-major order. The outcome of a search is returned as a `bool` instead of
being printed.

Three behaviours of the code are worth noting:

- The start cell (0,0) is popped first and passed to `animateStep`, whatever it
  holds, unless it is END. START is therefore overwritten with VISITED, and
  `resetMaze` later turns it into PATH. The corner is expanded even when it is WALL.
- The "A*" search orders its queue only by the Manhattan distance to the goal.
  It adds no path cost, so it is greedy best-first search.
- `Search` states completeness for any starting grid. Reachability is judged
  on the grid as it was when the search began, through PATH and END cells.

## Model

| member | source | states |
|---|---|---|
| MazeCells.Manhattan | maze.cpp:152-154 | the distance is non-negative, is zero exactly when the two points are equal, and bounds each coordinate difference |
| MazeCells.ManhattanSymmetric | maze.cpp:152-154 | the distance from a to b equals the distance from b to a |
| MazeCells.Neighbour | maze.cpp:99-104 | each generated neighbour is 4-adjacent to the cell and differs from it |
| MazeCells.AdjacentIsNeighbour | maze.cpp:99-100 | every 4-adjacent cell is one of the four generated offsets, so no neighbour is missed |
| MazeCells.PushedSound | maze.cpp:102-107 | only neighbours that pass the filter are pushed, each from one of the directions looked at so far |
| MazeCells.PushedComplete | maze.cpp:102-107 | every neighbour that passes the filter is pushed |
| MazeCells.PushedOrdered | maze.cpp:99-107 | pushed neighbours come in the order up, down, left, right |
| MazeCells.PushedDistinct | maze.cpp:102-107 | one expansion pushes no neighbour twice |
| MazeCells.MarkPushed | maze.cpp:108-110 | after the pushes, each pushed non-END cell is VISITED; every other cell and every END cell is unchanged; no cell is added or dropped |
| MazeCells.PushStep | maze.cpp:102-111 | marks made by earlier iterations do not change how the filter sees the current neighbour; one iteration extends the pushed list and the marking by exactly that neighbour |
| MazeCells.Drawn | maze.cpp:28 | a draw makes the cell WALL or PATH, and WALL exactly when the draw is divisible by 3 |
| MazeCells.DrawIndex | maze.cpp:26-29 | the row-major draw index of each cell lies inside the draw stream |
| MazeCells.Cleared | maze.cpp:199-201 | VISITED and CURRENT become PATH; every other state is kept; the result is never VISITED or CURRENT |
| MazeCells.ResetGrid | maze.cpp:196-204 | reset keeps every position and clears each cell on its own |
| MazeCells.ResetIdempotent | maze.cpp:196-204 | resetting twice gives the same grid as resetting once |
| Reachability.ReachableInClosed | maze.cpp:102-111 | every cell reachable from (0,0) lies in any set that contains (0,0) and the passable neighbours of its members |
| Reachability.OpenGridGoalReachable | maze.cpp:31-32 | when every cell except (0,0) is PATH or END and the far corner is END, END is reachable, so reachability is not vacuous |
| Reachability.EnclosedGoalUnreachable | maze.cpp:79-82 | when (0,0) is neither WALL nor END and every END cell is walled in, no END cell is reachable |
| Frontier.Key | maze.cpp:184-185 | the priority key is non-negative and zero only at the goal corner |
| Frontier.MinimalExists | maze.cpp:164-167 | a non-empty priority queue always has an entry of minimal key to pop |
| Frontier.Pop | maze.cpp:88-90 | the queue pops its front, the stack its most recent push, and the priority queue an entry whose key is no larger than any queued key (see lines 123-124 and 165-167) |
| Frontier.Remove | maze.cpp:90 | popping index k removes exactly that one entry and keeps all the others |
| SearchProof.InvInit | maze.cpp:85-86 | the container holding only (0,0) on the untouched grid satisfies the search invariant |
| SearchProof.InvFound | maze.cpp:92-95 | popping an END cell ends the search with "found"; END is then reachable, and every change made so far is to VISITED on a reachable PATH cell or on (0,0) |
| SearchProof.PoppedFacts | maze.cpp:89-97 | a popped non-END entry is reachable, not yet expanded, is PATH or (0,0), and is no longer queued |
| SearchProof.PushedFacts | maze.cpp:102-111 | each pushed neighbour is reachable, not yet expanded, and unchanged since the search began |
| SearchProof.StepChanges | maze.cpp:97-111 | after one expansion, every changed cell is VISITED, was PATH or is (0,0), and has been expanded or is queued |
| SearchProof.StepExpanded | maze.cpp:97 | after one expansion, every expanded cell is reachable, was not END, and is VISITED |
| SearchProof.StepQueued | maze.cpp:106-111 | after one expansion, every queued entry is reachable; a queued non-END entry is unexpanded and already VISITED |
| SearchProof.StepDistinct | maze.cpp:106-111 | after one expansion, no non-END cell is queued twice |
| SearchProof.StepClosed | maze.cpp:102-111 | after one expansion, every passable neighbour of an expanded cell is expanded or queued |
| SearchProof.InvStep | maze.cpp:88-112 | an iteration that pops a non-END entry keeps the invariant and adds a new cell to the expanded set, so the loop terminates |
| SearchProof.InvExhausted | maze.cpp:113-115 | an empty container ends the search with "not found"; no END cell is then reachable, and every reachable cell is VISITED |
| MazeEngine.Maze.constructor | maze.cpp:18-19 | a new grid of the given size holds WALL, the enum's zero value, everywhere |
| MazeEngine.Maze.SetCell | maze.cpp:76 | one assignment changes that cell on the array and on its map view, and nothing else |
| MazeEngine.Maze.FillRow | maze.cpp:27-29 | one row takes its row-major draws; the other rows are unchanged |
| MazeEngine.Maze.Initialize | maze.cpp:24-33 | the far corner is END; (0,0) is START unless it is the far corner; every other cell is WALL or PATH, as its draw decides |
| MazeEngine.Maze.AnimateStep | maze.cpp:72-77 | the cell ends VISITED and no other cell changes |
| MazeEngine.Maze.IsValid | maze.cpp:79-82 | true exactly when the position is in bounds and the cell is PATH or END; a true result guarantees the position is in bounds |
| MazeEngine.Maze.PushNeighbour | maze.cpp:103-111 | one neighbour iteration extends the container and the marking by that neighbour alone, as the pushed-neighbour function says |
| MazeEngine.Maze.PushNeighbours | maze.cpp:102-112 | the container grows by exactly the filtered neighbours in order up, down, left, right, and exactly those that are not END become VISITED |
| MazeEngine.Maze.Search | maze.cpp:84-116 | terminates; "found" exactly when an END cell is reachable from (0,0); only reachable PATH cells and (0,0) change, each to VISITED; WALL and END cells away from (0,0) never change; (0,0) ends VISITED unless it is END; on "not found" every reachable cell is VISITED |
| MazeEngine.Maze.Bfs | maze.cpp:84-116 | the search outcome above, with a FIFO queue |
| MazeEngine.Maze.Dfs | maze.cpp:118-150 | the search outcome above, with a LIFO stack |
| MazeEngine.Maze.AStar | maze.cpp:156-194 | the search outcome above, with a priority queue keyed on the Manhattan distance to the far corner |
| MazeEngine.Maze.ClearRow | maze.cpp:198-202 | one row is cleared cell by cell; the other rows are unchanged |
| MazeEngine.Maze.Reset | maze.cpp:196-204 | the new grid is the old one with every VISITED and CURRENT cell turned into PATH and everything else kept |
| MazeEngine.Maze.ResetAndSearch | maze.cpp:235-245 | a search key press resets the grid and then searches it; the outcome refers to the reset grid |

## Left out

- Drawing and the window: the SFML window and font globals, `drawMaze`,
  `drawMenu` and `main`'s event loop (maze.cpp:21-22, 35-70, 206-264) are graphics
  and input handling. Only the reset-then-search sequence of a key press is
  kept, as `ResetAndSearch`. The `R` key simply calls `Initialize`.
- The `drawMaze()` call and the 50 ms sleep inside `animateStep`
  (maze.cpp:74-75) are display and timing. Only the two grid writes are modelled.
- `srand(time(0))` and `rand()` are library randomness. The draws are an input
  sequence of non-negative numbers, one per cell in row-major order.
- The `std::cout` messages are replaced by the returned `bool`.
- The priority queue's tie-break among equal keys is left open, because
  `std::priority_queue` does not define it. `Pop` may return any entry of minimal key.
- The priority queue's stored key is not kept with each entry. It is always
  the Manhattan distance of the position to the far corner, so the model
  recomputes it from the position.
- Frontier.Pop: for BFS, the model does not prove that cells are expanded in
  order of distance from (0,0) (layer order). It states only which entry each
  container pops.
- The fixed sizes 15×20 and the `int` arithmetic: the grid size is a
  parameter. Every coordinate stays within the grid or one cell outside it, so
  32-bit overflow cannot happen.
