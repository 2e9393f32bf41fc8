# Maze iterative deepening search, in Dafny

This project models the search core of a small C++ maze solver. It has two parts.

**The grid, `Maze` (maze.cpp).** A rectangular grid of cells. Each cell is one of
`Empty`, `Wall`, `Start` or `Goal`, with the integer codes 0 to 3. The maze also holds a
start coordinate and a goal coordinate. Either one is "unset" when a component is
negative; the constructors use (-1, -1).

The class provides:
- a bounds test (`IsValid`);
- a walkability test (`IsWalkable`);
- a checked cell read (`GetCell`);
- three in-place mutators (`SetCell`, `SetStart`, `SetGoal`);
- the in-memory builder `CreateFromGrid`.

**The search, `IDS` (ids.cpp).** `Search` runs one depth-limited depth-first pass for
each bound 0, 1, …, width × height. Each pass gets a fresh `visited` matrix. Expansion
counts add up across passes. `DepthLimitedDFS` does three things:
- it pushes the current cell onto the path;
- it tries the neighbours in the fixed order up, down, left, right;
- it pops the cell again when none of them reaches the goal.

`GetNeighbors` builds that neighbour list.

## How the model is organised

- `maze.dfy`, module `MazeGrid`, holds the following.
  - The cell type and the `Result` outcome. `OutOfRange` is what the C++ code throws
    as `std::out_of_range`.
  - The grid as a sequence of rows, and the class `Maze`. Its mutators reassign its
    fields in place.
  - `Board`, the value of a maze's state. The search reads the maze through it.
- `ids.dfy`, module `IterativeDeepening`, holds the following.
  - Pure definitions of what each step of the search computes. `Visit` is one DFS
    call. `VisitAll` is its neighbour loop. `Deepen` is the loop over bounds.
    `SearchSpec` is the whole of `search()`.
  - The class `IDS`. Its methods carry out the same steps imperatively. The visited
    matrix is an `array2<bool>` updated in place. Each method is proved equal to the
    definition above.
  - `path` and `nodesExpanded` are passed by reference in C++. Here they are passed in
    and returned.
  - A ghost set of marks mirrors the visited matrix (`MarksAgree`).
- `ids_properties.dfy`, module `IdsProperties`, holds the properties of those
  definitions, as lemmas:
  - the neighbour list;
  - the marks and expansion count of a pass;
  - the route a successful pass returns;
  - the iteration and expansion counts of the whole search.

## Model

| member | source | states |
|---|---|---|
| MazeGrid.FromCode | maze.cpp:72 | the cast of a code in 0..3 gives the enumerator whose value is that code |
| MazeGrid.Maze.constructor | maze.cpp:7-8 | the default maze is 0 × 0 with no rows and start and goal unset at (-1, -1) |
| MazeGrid.Maze.Sized | maze.cpp:10-13 | Maze(w, h) has the given width and height, every cell Empty, and start and goal unset |
| MazeGrid.Maze.IsValid | maze.cpp:143-145 | a coordinate is valid exactly when 0 <= x < width and 0 <= y < height |
| MazeGrid.Maze.GetCell | maze.cpp:91-96 | the read succeeds exactly when the coordinate is valid, and then yields that cell; otherwise the outcome is OutOfRange |
| MazeGrid.Maze.IsWalkable | maze.cpp:147-153 | false out of bounds; in bounds, true exactly when the cell is Empty, Start or Goal (not Wall); equal to the board's Open test that the search uses |
| MazeGrid.Maze.SetCell | maze.cpp:106-117 | out of range, nothing changes; otherwise only cell (x, y) is written, start moves to (x, y) only for Start, goal only for Goal, and no earlier Start or Goal cell is cleared |
| MazeGrid.SetCellMayDuplicateStart | maze.cpp:106-117 | for every grid with a Start cell at q, writing Start with setCell into a different cell p leaves Start at both p and q, so neither is the only Start cell |
| MazeGrid.Maze.SetStart | maze.cpp:119-129 | out of range, nothing changes; otherwise the previous start cell (if set) becomes Empty, (x, y) becomes Start, start becomes (x, y), and goal and the dimensions are unchanged |
| MazeGrid.Maze.SetGoal | maze.cpp:131-141 | the same as setStart, for the goal; start is unchanged |
| MazeGrid.RelabelKeepsMarkersUnique | maze.cpp:119-141 | when a grid has at most one cell of each marker kind, setStart and setGoal keep it that way: the moved marker is only at its new cell, and no cell other than q holds the other marker. The other marker stays at q unless q is the old or the new position of the moved one; in that case it is overwritten |
| MazeGrid.Maze.CreateFromGrid | maze.cpp:60-81 | zero rows gives a 0 × 0 maze; otherwise height is the row count, width is the length of row 0, every cell is the cast of its code, and start and goal are the last row-major positions holding 2 and 3, or unchanged when there is none |
| MazeGrid.LastInRowIsLast | maze.cpp:70-80 | the inner scan's record for a row is the last column holding the value, or the earlier record when the row has none |
| MazeGrid.LastInRowsIsLast | maze.cpp:70-80 | the record after scanning all rows is the last row-major position holding the value, with no later one; it is the previous value exactly when no cell holds the value |
| IterativeDeepening.IDS.constructor | ids.cpp:5-10 | a new search refers to the given maze, and its last result is not found, with no path and all counts 0 |
| IterativeDeepening.IDS.GetLastResult | ids.cpp:149-151 | returns the recorded last result |
| IterativeDeepening.IDS.Search | ids.cpp:12-80 | the result returned is recorded as the last result and equals SearchSpec of the maze's state (the unset and start == goal shortcuts, then the passes for bounds 0 .. width × height) |
| IterativeDeepening.IDS.DepthLimitedDFS | ids.cpp:82-128 | the found flag, the path, the expansion count and the marks after the call equal what Visit gives; the visited matrix afterwards holds exactly the marks |
| IterativeDeepening.IDS.GetNeighbors | ids.cpp:130-147 | the list equals Neighbors: the four candidate cells up, down, left, right, kept when in bounds and walkable |
| IterativeDeepening.Visit | ids.cpp:82-128 | a DFS call that returns false leaves the path exactly as it was on entry |
| IterativeDeepening.VisitAll | ids.cpp:115-123 | a neighbour loop that finds nothing leaves the path as it was |
| IterativeDeepening.Deepen | ids.cpp:42-79 | the loop over bounds k .. bound as a definition: run the pass with bound k on a fresh visited set, stop with its path and bound when it succeeds, otherwise add its expansions and go on with k + 1; no path and maxDepth 0 once every bound has failed. Its properties are DeepenFound, DeepenExhausted and DeepenExpansions |
| IterativeDeepening.DeepenDone | ids.cpp:42-79 | after every bound has been tried, the loop's result is not found, with no path, maxDepth 0, the accumulated expansions and one iteration per bound |
| IterativeDeepening.SearchSpec | ids.cpp:12-80 | what search() returns, as a definition: the unset result, the start == goal result, otherwise the loop over bounds 0 .. width × height. Its properties are SearchShortcuts, SearchFindsRoute, SearchFoundCounts, SearchFailure and SearchExpansionBound |
| IterativeDeepening.NewVisited | ids.cpp:45-48 | the visited matrix of a pass is freshly allocated, height × width, and holds no marks |
| IterativeDeepening.VisitRejects | ids.cpp:87-99 | the three early exits (bound exceeded, not walkable, already visited) change nothing and return false |
| IterativeDeepening.VisitReachesGoal | ids.cpp:102-110 | at the goal the call pushes it, marks it, counts it once and returns true |
| IdsProperties.NeighborsAreAdjacentOpenCells | ids.cpp:130-147 | at most 4 cells; a cell is in the list exactly when it is one step from (x, y) and in bounds and walkable; the cells come in the order up, down, left, right, none twice |
| IdsProperties.PassableMembers | ids.cpp:138-144 | the filter loop keeps exactly the candidates that are in bounds and walkable |
| IdsProperties.PassableInOrder | ids.cpp:138-144 | the filter loop keeps the candidates in their order |
| IdsProperties.VisitMarksGrow | ids.cpp:97-104 | within a pass the marks only grow, every new mark is a walkable cell, and the expansion count rises by exactly the number of new marks, so no cell is expanded twice |
| IdsProperties.VisitAllMarksGrow | ids.cpp:115-123 | the same for the neighbour loop |
| IdsProperties.VisitFindsRoute | ids.cpp:97-126 | a call that returns true keeps the path it was given and appends a walk that starts at the call's cell and ends at the goal; the walk has adjacent steps, walkable cells, no repeats and no cell visited before the call, and at most maxDepth + 1 - depth cells |
| IdsProperties.VisitAllFindsRoute | ids.cpp:115-123 | a neighbour loop that succeeds appends a walk that starts at one of the neighbours, with the same properties and at most maxDepth - depth cells |
| IdsProperties.PassFindsRoute | ids.cpp:50-63 | a pass with bound k that succeeds returns a route from start to goal of at most k + 1 cells |
| IdsProperties.CellsCount | ids.cpp:97-104 | helper for the per-pass bound: the set of cells of a width × height grid has exactly width × height members, so marking cells at most once bounds a pass's expansions |
| IdsProperties.PassExpandsAtMostAllCells | ids.cpp:97-104 | one pass expands at most width × height cells |
| IdsProperties.SumPassesBound | ids.cpp:42-65 | the passes with bounds lo .. hi - 1 together expand at most (hi - lo) × width × height cells |
| IdsProperties.DeepenFound | ids.cpp:42-73 | the loop over bounds stops at the first bound whose pass succeeds, returns that pass's path, and has run maxDepth + 1 iterations |
| IdsProperties.DeepenExhausted | ids.cpp:42-79 | when no pass succeeds, every bound up to the last was tried, the path is empty, maxDepth is 0, and iterations is the number of bounds |
| IdsProperties.DeepenExpansions | ids.cpp:42-79 | nodesExpanded is the sum of every pass's count, failed passes included |
| IdsProperties.SearchShortcuts | ids.cpp:13-36 | with start or goal unset the result is not found, with no path and all counts 0; with start == goal it is found, with path [start], 1 node expanded, maxDepth 0 and 1 iteration |
| IdsProperties.SearchRunsPasses | ids.cpp:38-79 | with start and goal set and different, search() is the loop over bounds 0 .. width × height |
| IdsProperties.SearchFindsRoute | ids.cpp:12-80 | when start != goal and the search succeeds, the path starts at start, ends at goal, has one-step moves, walkable cells and no repeats, and `|path| - 1 <= maxDepth <= width × height` |
| IdsProperties.SearchFoundCounts | ids.cpp:42-73 | on success, maxDepth is the first bound whose pass succeeded, all smaller bounds failed, iterations == maxDepth + 1, and nodesExpanded is the sum of the passes run |
| IdsProperties.SearchFailure | ids.cpp:12-79 | on failure the path is empty and maxDepth is 0. If start or goal is unset, iterations and nodesExpanded are 0. Otherwise every bound 0 .. width × height failed, iterations == width × height + 1, and nodesExpanded is the sum of every pass |
| IdsProperties.SearchExpansionBound | ids.cpp:39-79 | the search runs at most width × height + 1 passes and expands at most iterations × width × height cells |

## Left out

- `Maze::loadFromFile` and `Maze::print`: file and console I/O.
- `main.cpp` and `printPath`: command-line wiring and console output.
- The `std::cerr` message in `search()`: output only. The unset case is modelled by the result it returns.
- `getWidth`, `getHeight`, `getStart` and `getGoal`: they return a field unchanged. The model reads the fields `width`, `height`, `start` and `goal` of `Maze` directly.
- `maxDepth` minimality: no lemma says that `maxDepth` is the length of a shortest route. A cell stays visited after backtracking, so a long first route to a cell can block a shorter one in the same pass. The proved statement is that `maxDepth` is the first bound whose pass succeeded.
- The concrete scenarios (mazes with known answers) are not stated as lemmas.
- Integer width: `int` is unbounded here. C++ overflow of `width * height`, and of the counters, is not modelled.
- MazeGrid.Maze.Sized: takes `nat` dimensions. Negative sizes, which C++ `resize` would reject, are not modelled.
- MazeGrid.Maze.CreateFromGrid: requires a maze that holds no rows yet. It also requires every row to be at least as long as row 0, and every copied value to be in 0..3. Re-using a sized maze, where `resize` keeps the old row lengths, and casting out-of-range integers to the enum are not modelled.
- IterativeDeepening.IDS.DepthLimitedDFS: the C++ path and counter are references. Here they are passed in and returned, so aliasing between them is not modelled. The visited matrix stays an array updated in place.
- Exceptions are modelled as the `OutOfRange` outcome, not as control flow that unwinds callers.

## Where the code and its description differ

The model follows the code in each of these cases.

- On failure `search()` leaves `maxDepth` at 0. It is not the last bound attempted.
- The start == goal shortcut returns `[start]` without checking that the start cell is walkable. So the route property is stated only for start != goal.
- `setCell(x, y, START)` moves `start` but does not clear an earlier Start cell. A grid can then hold two Start cells, as MazeGrid.SetCellMayDuplicateStart shows.
- `setStart` and `setGoal` can erase the other marker's cell: clearing the old start cell, or writing the new one, overwrites a Goal cell there (and the same for `setGoal` and a Start cell). The other marker's coordinate then names a cell that no longer carries that marker. MazeGrid.RelabelKeepsMarkersUnique states when this happens.
