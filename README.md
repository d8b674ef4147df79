# MazeLLM maze engine in Dafny

A model of the maze engine of MazeLLM and proofs about it. The engine generates a grid maze by recursive backtracking, moves a robot on it with a range sensor and all-or-nothing moves, plans paths with BFS, DFS and A*, and replays a plan one unit move per timer tick.

The model covers:

- **Boards and generation.**
  - `types.dfy` and `grid.dfy` hold positions, cells (wall, free, "S", "E"), board values and routes.
  - `carving.dfy` holds the `carve` recursion, shared by both generators.
  - `maze.dfy` is the `Maze` class of `mazellm/maze.py`.
  - `legacy_generator.dfy` is the older `src/maze_generator.py`.
  - The random shuffle is an oracle: a function from the number of shuffles made so far to a permutation of the four jumps.
  - Carving is a ghost function `CarveF`. The in-place method `Carve` on the `array2` board is proved to compute it. Its structural properties are proved as lemmas about the function:
    - it only opens cells;
    - it terminates, because each call frees a lattice cell that was a wall;
    - every lattice cell ends up free;
    - every open cell is connected to the start;
    - the result is fixed by the oracle.
- **Motion.** `robot.dfy` is the `Robot` class of `mazellm/robot.py`, with its `sensor` and `move` loops. The central lemma is that `move(d, k)` succeeds exactly when `0 <= k <= sensor()[d]`.
- **Planners.**
  - `bfs.dfy`, `dfs.dfy` and `astar.dfy` are the three searches. Each is a `while` loop over a queue, stack or priority queue (a `seq`), a parent map and, for A*, a g-score map.
  - `planning.dfy` holds what the three share: the parent tree and path reconstruction, and the frontier argument behind shortest paths.
  - BFS and A* are proved to return a shortest route. DFS is proved to return a route.
  - All three fail with `NoPath` exactly when the end is unreachable.
- **Replay.**
  - `replay.dfy` is `_step_to_move`.
  - `solver.dfy` is `mazellm/solver.py`.
  - `astar_solver.dfy` is `AStarSolver._ensure_path` and `next`. It has one tick as a function of the state, and a lemma that a full replay of a plan reaches "E".
  - `main_bfs.dfy` is `_bfs_path` and the cursor logic of `DemoMazePanel._tick`.
  - `robot_agent.dfy` is the legacy neighbour sensor `RobotSensor`.

Exceptions become the `Error` constructors of a `Result`:

- `RuntimeError` becomes `NoPath`;
- `ValueError`s become `NotFound` and `NonAdjacent`;
- `IndexError` stays `IndexError`.

Points where the model follows the code rather than its documentation or tests:

- The generator of `mazellm/maze.py` puts "E" at the bottom-right cell `(n - 1, m - 1)`. That cell is reachable exactly when n or m is odd (`MazeModel.GeneratedEndReachable`). When both are even, it is sealed off, although the generator test says "E" must be reachable from "S"; see "## Findings". `MazeModel.Maze.GenerateMaze` keeps the code's placement.
- In `src/maze_generator.py`, carving starts at (1, 1) while "S" is written at [0][0]. When n, m >= 3, the "S" cell is walled in and nothing is reachable from it (`LegacyGenerator.LegacyStartSealed`).
- The tests construct `Maze(cols=…, rows=…)`. The model follows the constructor's `n` (columns) and `m` (rows).

## Model

| member | source | states |
|---|---|---|
| Types.ParseDirection | mazellm/robot.py:117-120 | a command key is one of "up", "down", "left", "right" and maps to that direction; any other key is unknown |
| Types.NeighborsAreAdjacent | mazellm/bfs.py:16-20 | the four generated neighbours are exactly the cells at Manhattan distance 1 |
| MazeModel.Maze.constructor | mazellm/maze.py:20-24 | a new board has m rows and n columns, every cell a wall, and no shuffle has been drawn yet |
| MazeModel.Maze.IsBarrier | mazellm/maze.py:48-51 | every out-of-bounds coordinate is a barrier; in bounds, exactly the walls are (free, "S" and "E" are not) |
| MazeModel.Maze.GenerateMaze | mazellm/maze.py:26-46 | an empty board raises IndexError and changes nothing; otherwise the board becomes exactly GenerateF of the old board and the oracle (carve from (0, 0), then "S" at (0, 0) and "E" at (n - 1, m - 1)), so equal shuffle outcomes give equal boards |
| MazeModel.CarvedBoard | mazellm/maze.py:27-42 | the board before "S" and "E" are written holds only walls and free cells, every even/even cell is free, every open cell is a lattice cell or the cell between two, and all open cells are connected to (0, 0) |
| MazeModel.GeneratedLabels | mazellm/maze.py:45-46 | after generation "E" is at (n - 1, m - 1), "S" is at (0, 0) unless the board is 1×1, and every other cell is a wall or free |
| MazeModel.GeneratedConnected | mazellm/maze.py:27-46 | every even/even cell is walkable, every odd/odd cell other than "E" is a wall, and every walkable cell except possibly "E" is reachable from (0, 0) |
| MazeModel.GeneratedEndReachable | mazellm/maze.py:27-46 | "E" is reachable from "S" exactly when n or m is odd |
| MazeModel.EvenEndSealed | mazellm/maze.py:42-46 | with n and m both even, "E" at (n - 1, m - 1) is unreachable, because both of its neighbours are never carved |
| MazeModel.FourByFourEndSealed | mazellm/maze.py:42-46 | on a 4×4 board "E" at (3, 3) is unreachable from (0, 0) for every shuffle outcome |
| MazeModel.CorrectedEnd | mazellm/maze.py:46 | the corrected "E" cell is on the board; it is (n - 1, m - 1) exactly when n or m is odd, and (n - 2, m - 2), a lattice cell, when both are even |
| MazeModel.CorrectedEndReachable | mazellm/maze.py:42-46 | with "E" written at the corrected cell, "E" is reachable from (0, 0) on every board and every shuffle outcome, and the maze is the one generate_maze makes whenever n or m is odd |
| MazeModel.CorrectedLatticeEnd | mazellm/maze.py:42-46 | with n and m both even, the corrected "E" at (n - 2, m - 2) is reachable from (0, 0) |
| MazeModel.CarvedLattice | mazellm/maze.py:27-42 | on the freshly carved board every lattice cell is reachable from (0, 0) |
| MazeModel.Maze.FindCell | mazellm/main_bfs.py:13-18 | returns the first cell holding the value in row-major order (y outer, x inner), or NotFound when no cell holds it |
| Carving.Shuffled | mazellm/maze.py:29-30 | the shuffled direction list holds each of the four jumps |
| Carving.CarveF | mazellm/maze.py:27-40 | carving only opens cells and leaves its own cell free |
| Carving.Carve | mazellm/maze.py:27-40 | the in-place recursive carve on the array computes exactly CarveF, and the shuffles drawn are counted |
| Carving.CarveTurn | mazellm/maze.py:32-40 | one turn of carve's loop jumps two cells to an in-bounds wall, frees the cell between and recurses there, and otherwise leaves the board alone; it opens cells only and advances CarveDirs by one direction |
| Carving.CarveFromWalls | mazellm/maze.py:27-42 | carving an all-wall board from o frees every lattice cell two apart from o, opens only lattice cells and cells between two, and connects every open cell to o |
| Carving.CarveFReachable | mazellm/maze.py:39-40 | carving keeps every open cell connected to the origin |
| Carving.CarveFClosed | mazellm/maze.py:37-40 | after carving, every in-bounds jump target of a carved lattice cell is open |
| Carving.CarveFOnly | mazellm/maze.py:28-39 | carving opens only lattice cells and the cell between a lattice cell and its jump target |
| Carving.CarveMeasure | mazellm/maze.py:36-40 | each recursive call has one fewer wall cell to recurse on, so carving terminates |
| LegacyGenerator.GenerateMaze | src/maze_generator.py:5-26 | with n or m below 2 the writes at (1, 1) or [n - 2][m - 2] raise IndexError; otherwise an n×m grid, indexed [x][y], equal to LegacyF (carve from (1, 1), "S" at [0][0], "E" at [n - 2][m - 2]) |
| LegacyGenerator.LegacyCarvedBoard | src/maze_generator.py:8-22 | the board before "S" and "E" are written has every odd/odd cell free and all open cells connected to (1, 1) |
| LegacyGenerator.LegacyConnected | src/maze_generator.py:8-24 | "E" is at [n - 2][m - 2] and every odd/odd cell is walkable and reachable from (1, 1) |
| LegacyGenerator.LegacyStartSealed | src/maze_generator.py:22-23 | with n, m >= 3 nothing but "S" itself is reachable from "S" at [0][0] |
| RobotModel.Robot.constructor | mazellm/robot.py:35-37 | the robot is bound to the maze and stands at the given position, or at (0, 0) when none is given |
| RobotModel.Robot.InBounds | mazellm/robot.py:42-43 | true exactly inside 0 <= x < n, 0 <= y < m |
| RobotModel.Robot.IsWalkable | mazellm/robot.py:45-47 | true exactly in bounds on a non-barrier; "S" and "E" are walkable |
| RobotModel.Robot.Sensor | mazellm/robot.py:52-96 | each reading is the Ray in that direction, and the position does not change |
| RobotModel.RayMeans | mazellm/robot.py:64-94 | a ray of k means k walkable cells in a row from the neighbour on, followed by a barrier or the boundary |
| RobotModel.RayStep | mazellm/robot.py:64-94 | the ray counts the neighbour and continues from it when the neighbour is walkable; otherwise it is 0 |
| RobotModel.Robot.Move | mazellm/robot.py:98-146 | the result is MoveSpec (reject an empty command, an unknown direction or a count that is not a non-negative integer; 0 is a no-op success; otherwise all k cells or nothing), and the position becomes the reported new position |
| RobotModel.MoveIffSensor | mazellm/robot.py:126-146 | move(d, k) succeeds exactly when 0 <= k <= sensor()[d], landing k cells on in direction d, and otherwise stays put |
| RobotModel.MoveKeepsWalkable | mazellm/robot.py:132-146 | a robot on a walkable cell never ends on a wall or off the board |
| RobotModel.SampleSensorDownFromStart | tests/unit/test_robot.py:26-30 | on the 5×5 fixture the sensor at (0, 0) reads down 4 |
| RobotModel.SampleSensorBlockedAtStart | tests/unit/test_robot.py:26-30 | on the fixture the sensor at (0, 0) reads up 0, left 0, right 0 |
| RobotModel.SampleSensorUpFromEnd | tests/unit/test_robot.py:86-94 | on "E" at (4, 4) the sensor reads up 4 |
| RobotModel.SampleSensorBlockedAtEnd | tests/unit/test_robot.py:86-94 | on "E" at (4, 4) the sensor reads down 0, left 0, right 0 |
| RobotModel.SampleMovesBlockedAtStart | tests/unit/test_robot.py:33-73 | from (0, 0), right 1 into a wall and up 1 off the board fail and stay put |
| RobotModel.SampleMovesDown | tests/unit/test_robot.py:43-83 | from (0, 0), down 0 succeeds in place and down 4 lands on (0, 4) |
| RobotModel.SampleMoveBlocked | tests/unit/test_robot.py:53-63 | from (0, 4), right 3 crosses a wall midway and fails in place |
| Planning.Reconstruct | mazellm/bfs.py:47-55 | following the parent map back from end and reversing gives a route from start to end no longer than end's rank plus one |
| Planning.ParentTreeAdd | mazellm/bfs.py:38-42 | giving an unseen walkable neighbour a parent keeps the parent map a tree rooted at start, ranks rising along each link |
| BfsPlanner.Solve | mazellm/bfs.py:22-55 | the path is a shortest route of adjacent walkable cells from start to end; NoPath exactly when end is unreachable; [start] when start == end |
| BfsPlanner.ExpandNeighbours | mazellm/bfs.py:33-42 | expanding a cell gives each unseen in-bounds non-barrier neighbour a parent once and enqueues it, keeping the queue sorted by depth |
| DfsPlanner.Solve | mazellm/dfs.py:25-56 | the path is a route of adjacent walkable cells from start to end; NoPath exactly when end is unreachable; [start] when start == end |
| DfsPlanner.PushNeighbours | mazellm/dfs.py:34-43 | the stack grows by the unseen walkable neighbours in the order right, left, down, up, each given the popped cell as parent, and no existing parent changes |
| AStarPlanner.Heuristic | mazellm/astar.py:50-51 | the heuristic is the Manhattan distance and is 0 exactly at the goal |
| AStarPlanner.HeuristicAdmissible | mazellm/astar.py:50-51 | the heuristic never exceeds the number of steps of any route to the goal |
| AStarPlanner.HeuristicConsistent | mazellm/astar.py:50-51 | one step changes the heuristic by at most one |
| PlannerComparison.ComparePlanners | tests/unit/test_dfs.py:54-63 | on one maze and pair of cells the three planners agree on whether a path exists, which happens exactly when end is reachable; then the BFS and A* paths are both shortest and equally long and the DFS path is no shorter; otherwise all three raise NoPath |
| PlannerComparison.DetourShortest | tests/unit/test_astar.py:8-23 | on the board S 0 0 / 1 1 0 / 0 0 E the 5-cell detour is a shortest route from (0, 0) to (2, 2) |
| PlannerComparison.AStarDetour | tests/unit/test_astar.py:8-23 | A* on that board returns a path of 5 cells ending at (2, 2) |
| PlannerComparison.SealedUnreachable | tests/unit/test_astar.py:25-29 | on the board S 1 / 1 E no cell other than (0, 0) is reachable from (0, 0) |
| PlannerComparison.AStarSealed | tests/unit/test_astar.py:25-29 | A* on that board from (0, 0) to (1, 1) raises NoPath |
| PlannerComparison.CorridorBound | tests/unit/test_bfs.py:16-24 | on the BFS sample board every step between walkable cells moves one place along the single corridor, so the i-th cell of a route from "S" is at most i places along it |
| PlannerComparison.CorridorShortest | tests/unit/test_bfs.py:58-61 | the 17-cell corridor from (0, 0) to (4, 4) is a route, and no route between them is shorter |
| PlannerComparison.BfsSample | tests/unit/test_bfs.py:49-61 | BFS on the sample board returns a path of exactly 17 cells from (0, 0) to (4, 4) |
| AStarPlanner.PopMin | mazellm/astar.py:61-62 | the popped item has the least priority, and the rest is the queue without it, as a multiset |
| AStarPlanner.RelaxNeighbours | mazellm/astar.py:66-75 | relaxing a cell lowers or sets a neighbour's g-score to the cell's plus one, updating its parent and pushing it, only when that is an improvement |
| AStarPlanner.Progress | mazellm/astar.py:70-75 | a relaxation that changes the g-scores shrinks a finite measure, so the loop terminates |
| AStarPlanner.SolvePath | mazellm/astar.py:53-86 | the path is a shortest route from start to end; NoPath exactly when end is unreachable; [start] when start == end |
| Replay.StepToMove | mazellm/astar.py:14-25 | a 1-cell command exactly for a 4-adjacent pair, pointing from a to b; NonAdjacent for any other pair |
| Replay.StepRoundTrip | mazellm/main_bfs.py:65-76 | the command for a step onto a walkable neighbour moves a robot on a onto b |
| Replay.StepIntoBarrier | mazellm/robot.py:142-143 | the command for a step onto a barrier or off the board fails and leaves the robot on a |
| SolverBase.MakeStepResult | mazellm/solver.py:12-21 | the fields are as given, and a missing visited list becomes the empty list |
| SolverBase.Plain | mazellm/solver.py:15-17 | a result built from did_move, done and message has no added cells and no new position |
| SolverBase.Defaulted | mazellm/solver.py:15-21 | a result built from did_move and done alone has the empty message, no added cells and no new position |
| SolverBase.Solver.constructor | mazellm/solver.py:27-29 | the solver keeps its name and starts with no visited cells |
| SolverBase.Solver.Reset | mazellm/solver.py:31-32 | visited is emptied; the name is constant |
| AStarReplay.NumpyAt | mazellm/astar.py:100 | board[y, x] succeeds for indices from -n to n - 1 and -m to m - 1, wrapping negative ones, and raises IndexError beyond; in bounds it is the cell |
| AStarReplay.IndexOf | mazellm/astar.py:107 | list.index gives the first occurrence, or fails exactly when the cell is not in the plan |
| AStarReplay.Resync | mazellm/astar.py:105-109 | an out-of-step cursor moves to the robot's first index in the plan, or the tick is off path exactly when the robot is not on the plan |
| AStarReplay.Landed | mazellm/astar.py:122-138 | after a successful move the cursor is advanced, only the new cell joins visited, the result reports the move, its new position and whether the cell is "E" |
| AStarReplay.TickMovesOnce | mazellm/astar.py:100-128 | a tick makes at most one unit move, from the plan's cursor cell to the next one; with no move, visited is unchanged |
| AStarReplay.TickFollowsRoute | mazellm/astar.py:114-128 | on a walkable next cell, a tick from the cursor's cell moves there and advances the cursor by one |
| AStarReplay.TickStops | mazellm/astar.py:100-112 | on "E", or at the plan's last index, a tick is done without moving or changing anything |
| AStarReplay.TickOffPath | mazellm/astar.py:105-109 | a robot off the plan gets "off path" and nothing changes |
| AStarReplay.ReplayReachesGoal | mazellm/astar.py:97-138 | replaying a plan from its first cell takes exactly one tick fewer than the plan has cells to reach "E", visiting every plan cell, and the next tick is done |
| AStarReplay.AStarSolver.constructor | mazellm/astar.py:45-48 | the solver is named "astar", has visited nothing, no plan and cursor 0 |
| AStarReplay.AStarSolver.PlanPath | mazellm/astar.py:91-93 | succeeds exactly when the board has "S" and "E" and "E" is reachable from the first "S", giving a shortest route between the first of each; NotFound exactly when one is missing, otherwise NoPath |
| AStarReplay.AStarSolver.EnsurePath | mazellm/astar.py:88-95 | an existing plan is kept; otherwise the plan is made once, the cursor reset to 0 and the robot's cell added to visited, and on failure nothing changes |
| AStarReplay.AStarSolver.Step | mazellm/astar.py:100-112 | after planning, one tick is exactly TickSpec of the state |
| AStarReplay.AStarSolver.Move | mazellm/astar.py:111-138 | from a synchronised cursor, the tick is exactly Advance: done at the last index, else one move, the cursor advanced only on success |
| AStarReplay.AStarSolver.Next | mazellm/astar.py:97-138 | next plans only when there is no plan yet, fails without changing anything when planning fails, and otherwise performs exactly one TickSpec |
| MainBfs.BfsPath | mazellm/main_bfs.py:28-62 | a shortest route from start to end; NoPath exactly when end is unreachable; [start] when start == end |
| MainBfs.PanelTickOnce | mazellm/main_bfs.py:99-116 | a tick either changes nothing or advances the cursor by exactly one and moves the robot by the plan's step onto a walkable cell, that is onto path[i + 1] from path[i] |
| MainBfs.PanelTickAtEnd | mazellm/main_bfs.py:101-103 | once the cursor is at or past the last index a tick changes nothing |
| MainBfs.PanelTickFollowsRoute | mazellm/main_bfs.py:105-116 | on a route, a tick from path[i] moves the robot onto path[i + 1] and advances the cursor |
| MainBfs.PanelRunFollowsRoute | mazellm/main_bfs.py:99-116 | ticking along a route from path[i] brings the robot to path[j] with the cursor at j after j - i ticks |
| MainBfs.DemoMazePanel.constructor | mazellm/main_bfs.py:80-85 | the panel holds its robot and path and the cursor starts at 0 |
| MainBfs.DemoMazePanel.Tick | mazellm/main_bfs.py:99-121 | the tick is PanelTick of the state; a replay in step stays in step, the cursor rising by one until the last index |
| RobotAgent.Look | src/robot_agent.py:40-43 | a neighbour outside the rows or the first row's width is "wall"; inside, the raw value maze[dx][dy]; a row shorter than the first raises IndexError |
| RobotAgent.SurroundingsOf | src/robot_agent.py:27-45 | the keys are exactly up, down, left, right for (x - 1, y), (x + 1, y), (x, y - 1), (x, y + 1), each with its Look; IndexError exactly when one Look raises |
| RobotAgent.RectangularNeverFails | src/robot_agent.py:40-43 | on a rectangular grid the sensor never raises, and at an in-bounds cell each neighbour is "wall" exactly when it is off the edge |
| RobotAgent.RobotSensor.constructor | src/robot_agent.py:6-8 | the sensor holds the grid and the start position |
| RobotAgent.RobotSensor.GetState | src/robot_agent.py:10-19 | the state is the unchanged position and its surroundings; nothing is modified |
| RobotAgent.RobotSensor.SetPosition | src/robot_agent.py:21-25 | the position becomes the given one and nothing else changes |
| RobotAgent.RobotSensor.Surroundings | src/robot_agent.py:27-45 | the loop over the four probes builds exactly SurroundingsOf |

## Left out

- AStarReplay.AStarSolver.Next, AStarReplay.ReplayReachesGoal: the two `Position` classes are merged into the one `Types.Pos` of `mazellm/types.py:10-13`. In the code, `mazellm/robot.py:13-16` declares a second, non-frozen `Position`, and `Robot.move` stores one of those (`mazellm/robot.py:145`), while the A* plan holds `mazellm.types.Position` values. Instances of different dataclasses never compare equal, so once the robot has moved, the check at `mazellm/astar.py:105` always sees drift, `list.index` at line 107 raises `ValueError`, and `next` reports "off path" on every later tick and never reaches "E". The model compares positions by value, so a replay in step stays in step.
- AStarReplay.AStarSolver.PlanPath, AStarReplay.AStarSolver.EnsurePath: `Maze.find_cell`, which `mazellm/astar.py:91-92` calls, is not defined in `mazellm/maze.py`, so in the code `_ensure_path` raises `AttributeError` on the first tick. The model supplies it as `MazeModel.Maze.FindCell`, after `_find_cell` in `mazellm/main_bfs.py:13-18`, and does not model the `AttributeError`.
- User interface, terminal rendering and the timer: the Textual panels, board widgets, log calls and `set_interval` of `mazellm/main_bfs.py` are display code; only the cursor logic of `_tick` is modelled.
- The OpenAI client, the placeholder agent and the CLI entry points call services, global randomness or argument parsing that are outside the engine.
- `random.Random(seed).shuffle` and `random.shuffle` are replaced by an oracle from the shuffle count to a permutation. Equal seeds are modelled as equal oracles. The probabilistic "different seeds usually differ" property is not stated.
- numpy, `heapq` and `deque` become `array2`, a sequence with minimum extraction and a FIFO sequence.
- AStarPlanner.PopMin: returns some item of least priority rather than the one the heap's tie-breaking picks, so the exact A* path is not fixed; only its shortness is.
- The `async` marker on `next` is dropped; nothing is awaited.
- Messages are a datatype rather than the formatted strings (emoji, f-strings); which message a tick reports is modelled, not its text.
- The surroundings dictionary is a map, so its key order is not modelled.
- A grid cell whose raw value is the string "wall" reads the same as an off-grid neighbour in `src/robot_agent.py`; the model keeps `Inside(v)` and `OutsideWall` apart.
- `move` reads only the first entry of its command dictionary; the model takes the command as the sequence of entries, and every non-integer count is one abstract value.
- Board sizes are natural numbers; negative sizes, which numpy rejects when the board is allocated, are not modelled.
- Carving.Carve, MazeModel.Maze.GenerateMaze, LegacyGenerator.GenerateMaze: the interpreter's recursion limit is not modelled. On deep boards (for example 101×101) `carve` raises `RecursionError` and leaves the board partly carved, while the model always carves to the end.
- The default sizes `n = 5, m = 5` of `Maze.__init__` and of the legacy `generate_maze` are not modelled; callers of the model always pass both sizes.

## Findings

| source | as written | input that shows it | evidently intended | confidence | as-written member | corrected member |
|---|---|---|---|---|---|---|
| mazellm/maze.py:46 | "E" is always written at (n - 1, m - 1); with n and m both even, both neighbours of that cell are walls that carving never opens | `Maze(n=4, m=4)` with any seed, then `generate_maze()`: "E" at (3, 3) cannot be reached from "S", while tests/unit/test_maze.py:59-60 requires that it can | "E" on a cell reachable from "S", such as (n - 2, m - 2) when both sides are even | not executed | MazeModel.FourByFourEndSealed | MazeModel.CorrectedEndReachable |
