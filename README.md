# A* grid path finding, modelled and verified in Dafny

This project models the path-finding core of a small C++ program. The core is
`AStar::findPath`: an A* search over a 4-connected occupancy grid with unit step
cost and the Manhattan heuristic. The grid it reads is `GridMap`, a row-major
`width * height` buffer of cell types with a start and a goal coordinate.

The model keeps the source's own shape:

- `Map.GridMap` is a class. Its cell buffer is an `array<CellType>` indexed by
  `y * width + x`, and `start` and `goal` are fields that the setters reassign.
  A `std::out_of_range` exception is a returned value (`Result.Throws`,
  `Outcome.Thrown`) that carries the source's message.
- `AStar.FindPath` is a method that reads a `GridMap`.
  - `closed` and `gScore` are `array2` tables with `height` rows and `width` columns.
  - `parent` is a `map<int, Coord>` keyed by `Encode(x, y, width)`.
  - The priority queue is a `multiset<Node>`. A pop takes any entry that no
    other entry ranks above under the source's reversed `operator<`.
  - The result is a sequence of coordinates, empty when there is no path.
- Ghost mirrors of the tables (`C` for the closed cells, `D` for the finite
  scores) carry the loop invariants. These are stated on values in module
  `Search`, and each step of the search has its own preservation lemma.

What is proved about `FindPath`, for every map whose start lies inside it:

- A non-empty result is a shortest route. It starts at the start and ends at
  the goal. Consecutive cells are 4-neighbours, and every cell after the start
  is inside the map and not an obstacle.
- The result is empty exactly when no route exists.
- When start and goal coincide, the result is `[start]`.
- Both loops terminate. Every parent lookup during reconstruction finds its key.

Which of several equally short routes comes back is not fixed, because the
queue's tie-breaking between equal `f` values is not specified.

Modules: `Coords` (coordinates, flat index, adjacency), `Map` (cell types, the
`Grid` value and the `GridMap` class), `Paths` (what a path, a route and a
shortest route are), `Search` (queue entries, heuristic, invariants and their
lemmas), `AStar` (the search itself).

## Model

| member | source | states |
|---|---|---|
| Coords.Encode | src/a_star.cpp:16-18 | the parent key and buffer index y * width + x decodes back: for a column inside the width, dividing by the width gives y and the remainder gives x |
| Coords.EncodeInRange | src/map.cpp:15-18 | an in-bounds (x, y) has its flat index y * width + x inside [0, width * height) |
| Coords.EncodeInjective | src/a_star.cpp:16-18 | two coordinates with in-range columns share a flat index exactly when they are equal, so parent keys and buffer slots never collide |
| Map.GridMap.constructor | src/map.cpp:3-6 | a new map has width * height cells, all FREE, and start and goal both (-1, -1) |
| Map.GridMap.GetWidth | src/map.cpp:8 | the width is non-negative, and width times height is the buffer length |
| Map.GridMap.GetHeight | src/map.cpp:9 | the height is non-negative, and width times height is the buffer length |
| Map.GridMap.InBounds | src/map.cpp:11-13 | holds when 0 <= x < width and 0 <= y < height, and then the flat index of (x, y) addresses a slot of the cell buffer |
| Map.GridMap.GetCell | src/map.cpp:11-18 | succeeds exactly when 0 <= x < width and 0 <= y < height, and then returns cell (x, y); otherwise throws out_of_range("Coordinates out of bounds") |
| Map.GridMap.SetCell | src/map.cpp:20-23 | in bounds: afterwards GetCell(x, y) is the new type and every other cell is unchanged; out of bounds: throws "Coordinates out of bounds" and the buffer is unchanged |
| Map.GridMap.SetStart | src/map.cpp:25-29 | in bounds: GetStart() becomes (x, y), cell (x, y) becomes START, the goal and all other cells are unchanged (an earlier START cell keeps its type); out of bounds: throws "Start out of bounds" and nothing changes |
| Map.GridMap.SetGoal | src/map.cpp:31-35 | in bounds: GetGoal() becomes (x, y), cell (x, y) becomes GOAL, the start and all other cells are unchanged; out of bounds: throws "Goal out of bounds" and nothing changes |
| Map.GridMap.GetStart | src/map.cpp:37 | returns the recorded start; SetStart's contract says what it holds after a set, and the constructor's that it is (-1, -1) before |
| Map.GridMap.GetGoal | src/map.cpp:38 | returns the recorded goal; SetGoal's contract says what it holds after a set, and the constructor's that it is (-1, -1) before |
| Paths.ReversedChainIsRoute | src/a_star.cpp:59-73 | a chain read from the goal back to the start, moving between neighbours over passable cells, is a route from start to goal once reversed, with the same length |
| Paths.TrivialRoute | src/a_star.cpp:41-42 | when start equals goal, the only shortest route is [start] |
| Paths.ShortestRoutesAgree | src/a_star.cpp:48-50 | any two shortest routes have the same length, whichever equal-f entry the queue pops first |
| Search.Node.F | src/a_star.cpp:9 | the estimated total cost f = g + h is never below the cost so far g, and equals it exactly when the heuristic part is zero |
| Search.Less | src/a_star.cpp:11-13 | the order handed to std::priority_queue, reversed so that a ranks below b when a's f is higher; its laws are LessIsStrictWeakOrder |
| Search.LessIsStrictWeakOrder | src/a_star.cpp:11-13 | the reversed order is irreflexive and transitive, and equal f (neither ranks above the other) is transitive too: a strict weak ordering, as std::priority_queue requires |
| Search.TopExists | src/a_star.cpp:11-13 | a non-empty queue has an entry that top() may return under the reversed operator<, and every such entry has the lowest f in the queue |
| Search.Heuristic | src/a_star.cpp:27-29 | the Manhattan distance to the goal is zero exactly at the goal |
| Search.HeuristicConsistent | src/a_star.cpp:27-29 | one unit step changes the heuristic by at most one |
| Search.FNeverFallsAlongEdge | src/a_star.cpp:90-95 | the entry pushed for a neighbour (g + 1 and the neighbour's own heuristic) never has a lower f than the entry it was expanded from |
| Search.HeuristicAlongWalk | src/a_star.cpp:27-29 | along any walk, the heuristic at a cell is at most the steps left plus the heuristic at the walk's end |
| Search.RouteAtLeastHeuristic | src/a_star.cpp:27-29 | the heuristic never overestimates: every route has at least the Manhattan distance in steps |
| Search.DirsAreNeighbours | src/a_star.cpp:44-46 | the four direction offsets reach exactly the 4-neighbours of a cell |
| Search.StaircaseWalk | src/a_star.cpp:44-46 | a proof step for the obstacle-free case (OpenGridRouteLength), about walks rather than code at these lines: between any two cells there is a walk of exactly their Manhattan distance in steps, staying in their bounding rectangle |
| Search.OpenGridRouteLength | src/a_star.cpp:84-95 | on a map without obstacles, a shortest route has exactly Manhattan distance + 1 cells |
| Search.NeighbourGoalRoute | src/a_star.cpp:84-95 | when the goal is a passable neighbour of the start, the only shortest route is [start, goal] |
| Search.CrossColumn | src/a_star.cpp:84-87 | a path from left of column k to right of it steps onto a passable cell of column k |
| Search.WallBlocks | src/a_star.cpp:86-87 | a full column of obstacles between start and goal leaves no route |
| Search.InitInv | src/a_star.cpp:37-42 | after initialisation (start scored 0 and queued, nothing closed, no parents) the search invariant holds |
| Search.FirstOutside | src/a_star.cpp:52-53 | a proof step of the A* optimality argument (FrontierBound), about sequences rather than code at these lines: any sequence that ends outside the closed set has a first cell outside it |
| Search.FrontierBound | src/a_star.cpp:48-50 | every path to a cell not yet closed is matched by a queue entry whose f is at most the path's steps plus the heuristic at its end |
| Search.StaleInv | src/a_star.cpp:52 | popping and skipping an entry for an already closed cell keeps the invariant |
| Search.CloseInv | src/a_star.cpp:49-53 | the cell of a popped top entry that is not closed is scored with exactly the entry's g, lies in bounds, has no shorter path, and closing it keeps the invariant (with its own edges pending) |
| Search.RelaxInv | src/a_star.cpp:88-95 | relaxing cur -> n with a strictly better g + 1 keeps the invariant, never touches the start, keeps already relaxed edges relaxed, and relaxes this edge |
| Search.RelaxFrontier | src/a_star.cpp:93-95 | lowering n's score and pushing its new entry keeps every queue entry sound and every open scored cell represented |
| Search.RelaxParents | src/a_star.cpp:92-94 | the start never gets a parent (g + 1 > 0), and after the update every scored non-start cell has a closed neighbour one step cheaper as parent |
| Search.RelaxSettled | src/a_star.cpp:92-93 | lowering the score of an unclosed cell keeps every edge out of the other closed cells relaxed |
| Search.FinishExpand | src/a_star.cpp:83-97 | once the four directions out of the closed cell are relaxed, every edge out of every closed cell is relaxed |
| Search.RelaxFirstInv | src/a_star.cpp:83-97 | running the loop body over the first k directions keeps the invariant, keeps cur's score and relaxes those k edges |
| Search.RelaxStepInv | src/a_star.cpp:84-96 | one run of the loop body for direction k extends what holds for the first k directions to the first k + 1 |
| Search.RelaxFirstKeepsClosed | src/a_star.cpp:88-94 | over the neighbour loop a cell's score only falls, and a closed cell keeps both its score and its parent |
| Search.ExpandInv | src/a_star.cpp:83-97 | the full pass over the four directions out of a just-closed cell restores the search invariant |
| Search.NoRouteLeft | src/a_star.cpp:48-100 | when the queue runs dry before the goal is closed, no route exists (and start differs from goal) |
| AStar.FindPath | src/a_star.cpp:20-101 | a non-empty result is a shortest route from start to goal; the result is empty exactly when no route exists; start == goal gives [start] |
| AStar.Visit | src/a_star.cpp:52-97 | closing a popped, non-stale cell adds exactly that cell to the closed set; reached holds exactly when the goal is now closed, and then scores, parents and queue are unchanged; otherwise they become exactly RelaxFirst over the four directions (so, by RelaxFirstKeepsClosed, scores only fall and closed cells keep score and parent); the invariant and the table mirrors are kept |
| AStar.MarkClosed | src/a_star.cpp:53 | marking (x, y) closed adds exactly (x, y) to the closed set the table mirrors |
| AStar.ReconstructPath | src/a_star.cpp:56-80 | following parents from the goal back to the start terminates, every lookup hits, and the reversed chain is a shortest route; [start] when start == goal |
| AStar.RelaxNeighbours | src/a_star.cpp:83-97 | the loop over the four directions leaves the tables exactly as the specification function RelaxFirst prescribes, gScore still mirrors the scores, and the search invariant is restored |
| AStar.RelaxEdge | src/a_star.cpp:84-96 | the body for one direction skips out-of-bounds, obstacle and closed neighbours, and otherwise updates score, parent and queue exactly when g + 1 beats the neighbour's gScore, as Relax prescribes |

## Left out

- Rendering (`GridMap::print`, `visualize`, `visualizeWithPath`) is console and OpenCV output only, so it is not modelled.
- Random map generation (`GridMap::generateRandomMap`) is not modelled. It depends on a time-seeded random generator, and its rejection-sampling loops have no termination guarantee.
- The entry points (`main.cpp`, `src/main.cpp`) are not modelled. They only do timing, random start/goal choice and printing.
- `tests/demo_node.cpp` only shows that the reversed `operator<` makes `std::priority_queue` pop the lowest f first. `Search.Less`, `Search.IsTop` and `Search.TopExists` state that property.
- `g`, `h` and `gScore` are `double`s in the source but only ever hold whole numbers. The model uses `nat`, and `Cost.Infinity` stands for `+infinity`.
- The commented-out Euclidean heuristic is not modelled.
- Coords.Encode: does not model 32-bit `int` overflow of `y * width + x` or of `width * height`, because integers are unbounded here. Maps so large that these overflow are outside the model.
- Map.GridMap.constructor: requires non-negative width and height. The source builds the buffer with `width * height` cells, so a negative size has two outcomes there. When exactly one factor is negative and the other positive, the product is negative and `std::vector` throws `std::length_error`. When both are negative, or one is zero, the product is non-negative and a map is built whose every coordinate is out of bounds. The model covers neither case.
- AStar.FindPath: requires the start to be inside the map, because the source indexes `gScore[sy][sx]` without a check. A goal outside the map is allowed and yields the empty result.
- The heap layout and tie-breaking of `std::priority_queue` are abstracted to "any entry of lowest f". The hashing of `std::unordered_map` is abstracted to a Dafny `map`. So no postcondition fixes which of several shortest routes is returned.
- `parent[...]` in the source inserts a default entry when the key is missing. The model proves that every lookup finds its key, so that insertion never happens and is not modelled.
- `std::reverse` on the path vector is modelled as the function `Paths.Reversed` on a sequence, not as an in-place reversal.
- The body of the main loop is split into the methods `AStar.Visit`, `AStar.MarkClosed`, `AStar.ReconstructPath`, `AStar.RelaxNeighbours` and `AStar.RelaxEdge`. They run the same steps in the same order as the single C++ function.
