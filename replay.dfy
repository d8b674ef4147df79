/** Turning a planned path into robot moves: _step_to_move, written identically in
    mazellm/astar.py and mazellm/main_bfs.py, and what the robot does with its command. */
module Replay {
  import opened Types
  import opened Grid
  import opened RobotModel

  /** _step_to_move: the one-cell command from a to a 4-neighbour b, or NonAdjacent for any
      other pair (the same cell included). */
  function StepToMove(a: Pos, b: Pos): (r: Result<MoveCommand>)
    ensures r.Ok? <==> Adjacent(a, b)
    ensures r.Ok? ==> r.value.cells == 1 && Shift(a, r.value.dir, 1) == b
    ensures r.Err? ==> r.error == NonAdjacent
  {
    var dx, dy := b.x - a.x, b.y - a.y;
    if dx == 1 && dy == 0 then Ok(MoveCommand(Right, 1))
    else if dx == -1 && dy == 0 then Ok(MoveCommand(Left, 1))
    else if dx == 0 && dy == 1 then Ok(MoveCommand(Down, 1))
    else if dx == 0 && dy == -1 then Ok(MoveCommand(Up, 1))
    else Err(NonAdjacent)
  }

  /** The dictionary handed to Robot.move for a command. */
  function Request(c: MoveCommand): MoveRequest
  {
    Command(c.dir, c.cells)
  }

  /** Round trip: the command for the step from a to a walkable neighbour b moves a robot
      standing on a onto b. */
  lemma StepRoundTrip(g: Grid, a: Pos, b: Pos)
    requires g.Valid() && Adjacent(a, b) && g.Walkable(b)
    ensures MoveSpec(g, a, Request(StepToMove(a, b).value)) == MoveResult(true, b)
  {
    var c := StepToMove(a, b).value;
    MoveIffSensor(g, a, c.dir, 1);
    RayStep(g, a, c.dir);
  }

  /** A step onto a barrier or off the board fails and leaves the robot on a. */
  lemma StepIntoBarrier(g: Grid, a: Pos, b: Pos)
    requires g.Valid() && Adjacent(a, b) && !g.Walkable(b)
    ensures MoveSpec(g, a, Request(StepToMove(a, b).value)) == MoveResult(false, a)
  {
    var c := StepToMove(a, b).value;
    MoveIffSensor(g, a, c.dir, 1);
    RayStep(g, a, c.dir);
  }

  /** Whatever a unit command does, the robot ends where it was or on the walkable target. */
  lemma StepOutcome(g: Grid, a: Pos, b: Pos)
    requires g.Valid() && Adjacent(a, b)
    ensures var res := MoveSpec(g, a, Request(StepToMove(a, b).value));
      (res.status ==> res.newPosition == b && g.Walkable(b)) && (!res.status ==> res.newPosition == a && !g.Walkable(b))
  {
    if g.Walkable(b) {
      StepRoundTrip(g, a, b);
    } else {
      StepIntoBarrier(g, a, b);
    }
  }
}
