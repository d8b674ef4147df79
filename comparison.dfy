/** The three planners side by side, as the planner tests compare them: on any board they agree
    on whether a path exists, BFS and A* return paths of one length, and DFS never beats them. */
module PlannerComparison {
  import opened Types
  import opened Grid
  import opened MazeModel
  import opened Planning
  import BfsPlanner
  import DfsPlanner
  import AStarPlanner
  import RobotModel

  /** BFS.solve, DFS.solve and A* _solve_path on the same maze and endpoints. */
  method ComparePlanners(maze: Maze, start: Pos, end: Pos) returns (b: Result<seq<Pos>>, d: Result<seq<Pos>>, a: Result<seq<Pos>>)
    requires maze.Valid()
    ensures (b.Ok? <==> d.Ok?) && (b.Ok? <==> a.Ok?)
    ensures b.Ok? <==> Reachable(maze.Cells(), start, end)
    ensures b.Ok? ==> |a.value| == |b.value| <= |d.value|
    ensures b.Ok? ==> Shortest(maze.Cells(), b.value, start, end) && Shortest(maze.Cells(), a.value, start, end)
    ensures b.Err? ==> b.error == NoPath && d == b && a == b
  {
    b := BfsPlanner.Solve(maze, start, end);
    d := DfsPlanner.Solve(maze, start, end);
    a := AStarPlanner.SolvePath(maze, start, end);
    if b.Ok? {
      ShortestSameLength(maze.Cells(), a.value, b.value, start, end);
      RouteNotShorter(maze.Cells(), b.value, d.value, start, end);
    }
  }

  // ---------------------------------------------------------------------
  // The two boards of the A* tests
  // ---------------------------------------------------------------------

  /** S 0 0 / 1 1 0 / 0 0 E: the wall forces a detour along the top row. */
  function DetourBoard(): (g: Grid)
    ensures g.Valid() && g.n == 3 && g.m == 3
  {
    Grid(3, 3, [
      [Start, Free, Free],
      [Wall,  Wall, Free],
      [Free,  Free, End]])
  }

  /** The detour along the top row and down the right column is a shortest route from S to E:
      no route between opposite corners of a 3×3 board has fewer than 5 cells. */
  lemma DetourShortest()
    ensures Shortest(DetourBoard(), [Pos(0, 0), Pos(1, 0), Pos(2, 0), Pos(2, 1), Pos(2, 2)], Pos(0, 0), Pos(2, 2))
  {
    var g := DetourBoard();
    var r := [Pos(0, 0), Pos(1, 0), Pos(2, 0), Pos(2, 1), Pos(2, 2)];
    assert RouteFromTo(g, r, Pos(0, 0), Pos(2, 2));
    forall r' | RouteFromTo(g, r', Pos(0, 0), Pos(2, 2)) ensures |r| <= |r'| {
      RouteManhattan(g, r', 0);
    }
  }

  /** The A* test on the detour board: a path of 5 cells ending on E. */
  method AStarDetour(maze: Maze) returns (a: Result<seq<Pos>>)
    requires maze.Valid() && maze.Cells() == DetourBoard()
    ensures a.Ok? && |a.value| == 5 && a.value[|a.value| - 1] == Pos(2, 2)
  {
    DetourShortest();
    var r := [Pos(0, 0), Pos(1, 0), Pos(2, 0), Pos(2, 1), Pos(2, 2)];
    assert RouteFromTo(maze.Cells(), r, Pos(0, 0), Pos(2, 2));
    a := AStarPlanner.SolvePath(maze, Pos(0, 0), Pos(2, 2));
    ShortestSameLength(maze.Cells(), a.value, r, Pos(0, 0), Pos(2, 2));
  }

  /** S 1 / 1 E: the start is walled in. */
  function SealedBoard(): (g: Grid)
    ensures g.Valid() && g.n == 2 && g.m == 2
  {
    Grid(2, 2, [
      [Start, Wall],
      [Wall,  End]])
  }

  /** Nothing but S itself is reachable from S on the sealed board. */
  lemma SealedUnreachable(c: Pos)
    requires c != Pos(0, 0)
    ensures !Reachable(SealedBoard(), Pos(0, 0), c)
  {
    var g, o := SealedBoard(), Pos(0, 0);
    assert Neighbors(o) == [Pos(1, 0), Pos(-1, 0), Pos(0, 1), Pos(0, -1)];
    assert Expanded(g, {o}, o);
    ClosedSeparates(g, {o}, o, c);
  }

  /** The A* no-path test: on the sealed board the planner raises NoPath. */
  method AStarSealed(maze: Maze) returns (a: Result<seq<Pos>>)
    requires maze.Valid() && maze.Cells() == SealedBoard()
    ensures a == Err(NoPath)
  {
    SealedUnreachable(Pos(1, 1));
    a := AStarPlanner.SolvePath(maze, Pos(0, 0), Pos(1, 1));
  }

  // ---------------------------------------------------------------------
  // The board of the BFS tests
  // ---------------------------------------------------------------------

  /** Where a walkable cell of the BFS sample board lies along its one corridor: down column 0,
      across (1, 4), up column 2, across (3, 0), down column 4. */
  function CorridorIndex(p: Pos): (k: int)
    ensures p == Pos(0, 0) ==> k == 0
    ensures p == Pos(4, 4) ==> k == 16
  {
    if p.x == 0 then p.y
    else if p.x == 1 then 5
    else if p.x == 2 then 10 - p.y
    else if p.x == 3 then 11
    else 12 + p.y
  }

  /** The walkable cells of the sample board are the 17 corridor cells. */
  lemma SampleWalkable(p: Pos)
    requires RobotModel.SampleBoard().Walkable(p)
    ensures 0 <= p.y < 5
    ensures p.x == 0 || p.x == 2 || p.x == 4 || p == Pos(1, 4) || p == Pos(3, 0)
  {
    var g := RobotModel.SampleBoard();
    assert g.At(p) != Wall;
    if p.x == 1 {
      assert p.y == 0 || p.y == 1 || p.y == 2 || p.y == 3 || p.y == 4;
    } else if p.x == 3 {
      assert p.y == 0 || p.y == 1 || p.y == 2 || p.y == 3 || p.y == 4;
    }
  }

  /** One step between walkable cells moves exactly one place along the corridor. */
  lemma CorridorStep(a: Pos, b: Pos)
    requires RobotModel.SampleBoard().Walkable(a) && RobotModel.SampleBoard().Walkable(b) && Adjacent(a, b)
    ensures Abs(CorridorIndex(a) - CorridorIndex(b)) == 1
  {
    SampleWalkable(a);
    SampleWalkable(b);
  }

  /** Along a route from (0, 0), the i-th cell is at most i places down the corridor. */
  lemma {:induction false} CorridorBound(r: seq<Pos>, i: nat)
    requires IsRoute(RobotModel.SampleBoard(), r) && r[0] == Pos(0, 0) && i < |r|
    ensures CorridorIndex(r[i]) <= i
    decreases i
  {
    var g := RobotModel.SampleBoard();
    if i > 0 {
      CorridorBound(r, i - 1);
      assert g.Walkable(r[i - 1]) by {
        if i - 1 == 0 { assert g.At(Pos(0, 0)) == Start; }
      }
      CorridorStep(r[i - 1], r[i]);
    }
  }

  /** The corridor itself, from "S" to "E". */
  function Corridor(): (r: seq<Pos>)
    ensures |r| == 17 && r[0] == Pos(0, 0) && r[16] == Pos(4, 4)
  {
    [Pos(0, 0), Pos(0, 1), Pos(0, 2), Pos(0, 3), Pos(0, 4), Pos(1, 4),
     Pos(2, 4), Pos(2, 3), Pos(2, 2), Pos(2, 1), Pos(2, 0), Pos(3, 0),
     Pos(4, 0), Pos(4, 1), Pos(4, 2), Pos(4, 3), Pos(4, 4)]
  }

  /** The corridor is a shortest route from "S" to "E": 17 cells, and every route has at least 17. */
  lemma CorridorShortest()
    ensures Shortest(RobotModel.SampleBoard(), Corridor(), Pos(0, 0), Pos(4, 4))
  {
    var g, r := RobotModel.SampleBoard(), Corridor();
    forall i | 0 < i < |r| ensures g.Walkable(r[i]) && Adjacent(r[i - 1], r[i]) {
      assert g.At(r[i]) != Wall;
    }
    assert RouteFromTo(g, r, Pos(0, 0), Pos(4, 4));
    forall r' | RouteFromTo(g, r', Pos(0, 0), Pos(4, 4)) ensures |r| <= |r'| {
      CorridorBound(r', |r'| - 1);
    }
  }

  /** The BFS sample test: the path from (0, 0) to (4, 4) has 17 cells and ends on "E". */
  method BfsSample(maze: Maze) returns (b: Result<seq<Pos>>)
    requires maze.Valid() && maze.Cells() == RobotModel.SampleBoard()
    ensures b.Ok? && |b.value| == 17 && b.value[0] == Pos(0, 0) && b.value[16] == Pos(4, 4)
  {
    CorridorShortest();
    b := BfsPlanner.Solve(maze, Pos(0, 0), Pos(4, 4));
    ShortestSameLength(maze.Cells(), b.value, Corridor(), Pos(0, 0), Pos(4, 4));
  }
}
