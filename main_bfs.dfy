/** The demo driver of mazellm/main_bfs.py: its breadth-first planner and the cursor logic of
    DemoMazePanel._tick, which replays a planned path one unit move per timer tick. */
module MainBfs {
  import opened Types
  import opened Grid
  import opened MazeModel
  import opened RobotModel
  import opened Planning
  import BfsPlanner
  import opened Replay

  /** _bfs_path is line for line the search of BFS.solve (the same queue, neighbour order, parent
      map and reconstruction), so it is that method. */
  method BfsPath(maze: Maze, start: Pos, end: Pos) returns (r: Result<seq<Pos>>)
    requires maze.Valid()
    ensures r.Ok? ==> Shortest(maze.Cells(), r.value, start, end)
    ensures r.Err? <==> !Reachable(maze.Cells(), start, end)
    ensures r.Err? ==> r.error == NoPath
    ensures start == end ==> r == Ok([start])
  {
    r := BfsPlanner.Solve(maze, start, end);
  }

  /** What a tick leaves behind: its outcome (Err when _step_to_move raises), the cursor and the
      robot's cell. */
  datatype Panel = Panel(result: Result<()>, stepI: nat, position: Pos)

  /** _tick on the robot's board g, from cursor i with the robot on p. */
  ghost function PanelTick(g: Grid, path: seq<Pos>, i: nat, p: Pos): Panel
    requires g.Valid()
  {
    if i >= |path| - 1 then Panel(Ok(()), i, p)
    else
      var cmd := StepToMove(path[i], path[i + 1]);
      if cmd.Err? then Panel(Err(cmd.error), i, p)
      else
        var res := MoveSpec(g, p, Request(cmd.value));
        if !res.status then Panel(Ok(()), i, p)
        else Panel(Ok(()), i + 1, res.newPosition)
  }

  /** A tick either leaves cursor and robot alone, or advances the cursor by exactly one and moves
      the robot by the plan's step onto a walkable cell; from the cursor's cell that is the
      plan's next cell. */
  lemma PanelTickOnce(g: Grid, path: seq<Pos>, i: nat, p: Pos)
    requires g.Valid()
    ensures var t := PanelTick(g, path, i, p);
      || (t.stepI == i && t.position == p)
      || (&& t.stepI == i + 1 && i + 1 < |path| && g.Walkable(t.position)
          && t.position.x - p.x == path[i + 1].x - path[i].x && t.position.y - p.y == path[i + 1].y - path[i].y)
    ensures var t := PanelTick(g, path, i, p);
      t.stepI == i + 1 && p == path[i] ==> t.position == path[i + 1]
  {
    if i < |path| - 1 && Adjacent(path[i], path[i + 1]) {
      var d := StepToMove(path[i], path[i + 1]).value.dir;
      MoveIffSensor(g, p, d, 1);
      RayMeans(g, p, d);
    }
  }

  /** Once the cursor is at or past the last index, a tick changes nothing. */
  lemma PanelTickAtEnd(g: Grid, path: seq<Pos>, i: nat, p: Pos)
    requires g.Valid() && i >= |path| - 1
    ensures PanelTick(g, path, i, p) == Panel(Ok(()), i, p)
  {
  }

  /** On a route of the robot's board, with the robot on the cursor's cell, a tick moves it onto
      the next cell and advances the cursor. */
  lemma PanelTickFollowsRoute(g: Grid, path: seq<Pos>, i: nat)
    requires g.Valid() && IsRoute(g, path) && i + 1 < |path|
    ensures PanelTick(g, path, i, path[i]) == Panel(Ok(()), i + 1, path[i + 1])
  {
    StepRoundTrip(g, path[i], path[i + 1]);
  }

  /** n timer ticks from cursor i with the robot on p; an error stops the replay. */
  ghost function PanelRun(g: Grid, path: seq<Pos>, i: nat, p: Pos, n: nat): Panel
    requires g.Valid()
    decreases n
  {
    if n == 0 then Panel(Ok(()), i, p)
    else
      var t := PanelTick(g, path, i, p);
      if t.result.Err? then t else PanelRun(g, path, t.stepI, t.position, n - 1)
  }

  /** Replaying a route from the robot on path[i] brings it, tick by tick, onto path[j]; from the
      start, |path| - 1 ticks end on the last cell, and every further tick changes nothing. */
  lemma {:induction false} PanelRunFollowsRoute(g: Grid, path: seq<Pos>, i: nat, j: nat)
    requires g.Valid() && IsRoute(g, path) && i <= j < |path|
    ensures PanelRun(g, path, i, path[i], j - i) == Panel(Ok(()), j, path[j])
    decreases j - i
  {
    if i < j {
      PanelTickFollowsRoute(g, path, i);
      PanelRunFollowsRoute(g, path, i + 1, j);
    }
  }

  class DemoMazePanel {
    const robot: Robot
    const path: seq<Pos>
    var stepI: nat

    /** A panel replaying path with robot; the cursor starts at 0. */
    constructor (robot: Robot, path: seq<Pos>)
      ensures this.robot == robot && this.path == path && stepI == 0
    {
      this.robot := robot;
      this.path := path;
      stepI := 0;
    }

    /** The replay is in step: path is a route of the robot's board and the robot is on path[stepI]. */
    ghost predicate InStep()
      reads this, robot, robot.maze, robot.maze.board
    {
      robot.Valid() && stepI < |path| && IsRoute(robot.maze.Cells(), path) && robot.position == path[stepI]
    }

    /** _tick: nothing once the cursor is at the last index; otherwise one unit move towards
        path[stepI + 1], with the cursor advanced only when the move succeeds. */
    method Tick() returns (r: Result<()>)
      requires robot.Valid()
      modifies this, robot
      ensures Panel(r, stepI, robot.position) == PanelTick(robot.maze.Cells(), path, old(stepI), old(robot.position))
      ensures old(InStep()) ==> InStep() && stepI == if old(stepI) < |path| - 1 then old(stepI) + 1 else old(stepI)
    {
      ghost var g := robot.maze.Cells();
      if old(InStep()) && stepI < |path| - 1 {
        PanelTickFollowsRoute(g, path, stepI);
      }
      if stepI >= |path| - 1 {
        return Ok(());
      }
      var cmd := StepToMove(path[stepI], path[stepI + 1]);
      if cmd.Err? {
        return Err(cmd.error);
      }
      var res := robot.Move(Request(cmd.value));
      if !res.status {
        return Ok(());
      }
      stepI := stepI + 1;
      return Ok(());
    }
  }
}
