/** The replaying A* solver of mazellm/astar.py (AStarSolver): it plans once with _solve_path
    between the board's "S" and "E", then makes one unit move along the plan per tick, keeping a
    cursor into the plan and the set of visited cells. */
module AStarReplay {
  import opened Types
  import opened Grid
  import opened MazeModel
  import opened RobotModel
  import opened Planning
  import opened AStarPlanner
  import opened Replay
  import opened SolverBase

  /** board[y, x] on the numpy board of m rows and n columns: a negative index counts back from
      the end of its axis, and any index beyond an axis in either direction raises IndexError. */
  function NumpyAt(g: Grid, x: int, y: int): (r: Result<Cell>)
    requires g.Valid()
    ensures r.Ok? <==> -(g.n as int) <= x < g.n && -(g.m as int) <= y < g.m
    ensures r.Err? ==> r.error == IndexError
    ensures g.InBounds(Pos(x, y)) ==> r == Ok(g.At(Pos(x, y)))
  {
    if -(g.m as int) <= y < g.m && -(g.n as int) <= x < g.n then
      Ok(g.At(Pos(if x < 0 then x + g.n else x, if y < 0 then y + g.m else y)))
    else
      Err(IndexError)
  }

  /** list.index: the first position of x in s, or None where Python raises ValueError. */
  function IndexOf(s: seq<Pos>, x: Pos): (r: Option<nat>)
    ensures r.Some? ==> r.value < |s| && s[r.value] == x && forall j :: 0 <= j < r.value ==> s[j] != x
    ensures r.None? <==> x !in s
  {
    if |s| == 0 then None
    else if s[0] == x then Some(0)
    else
      var k := IndexOf(s[1..], x);
      if k.None? then None else Some(k.value + 1)
  }

  /** The cursor after resynchronisation with the robot at p: kept when it is past the plan or
      already on p, otherwise p's first index in the plan, or None when p is off the plan. */
  function Resync(path: seq<Pos>, i: nat, p: Pos): (r: Option<nat>)
    ensures r.Some? && r.value < |path| ==> path[r.value] == p
    ensures r.Some? && r.value != i ==> i < |path| && path[i] != p
    ensures r.None? <==> i < |path| && p !in path
  {
    if i < |path| && path[i] != p then IndexOf(path, p) else Some(i)
  }

  // ---------------------------------------------------------------------
  // Planning once
  // ---------------------------------------------------------------------

  /** p is the first cell holding v in row-major order: what find_cell returns. */
  ghost predicate FirstOf(g: Grid, v: Cell, p: Pos)
    requires g.Valid()
  {
    g.InBounds(p) && g.At(p) == v && forall q :: g.InBounds(q) && RowMajorBefore(q, p) ==> g.At(q) != v
  }

  ghost predicate HasCell(g: Grid, v: Cell)
    requires g.Valid()
  {
    exists q :: g.InBounds(q) && g.At(q) == v
  }

  /** The first "E" can be reached from the first "S". */
  ghost predicate CanPlan(g: Grid)
    requires g.Valid()
  {
    exists s, e :: FirstOf(g, Start, s) && FirstOf(g, End, e) && Reachable(g, s, e)
  }

  /** path is a shortest route from the first "S" to the first "E". */
  ghost predicate Planned(g: Grid, path: seq<Pos>)
    requires g.Valid()
  {
    exists s, e :: FirstOf(g, Start, s) && FirstOf(g, End, e) && Shortest(g, path, s, e)
  }

  lemma FirstOfUnique(g: Grid, v: Cell, a: Pos, b: Pos)
    requires g.Valid() && FirstOf(g, v, a) && FirstOf(g, v, b)
    ensures a == b
  {
  }

  /** Without an "S" or without an "E" there is nothing to plan. */
  lemma NoCellNoPlan(g: Grid, v: Cell)
    requires g.Valid() && (v == Start || v == End) && forall q :: g.InBounds(q) ==> g.At(q) != v
    ensures !HasCell(g, v) && !CanPlan(g)
  {
  }

  /** When the first "E" cannot be reached from the first "S", there is nothing to plan, though
      both cells exist. */
  lemma UnreachableNoPlan(g: Grid, s: Pos, e: Pos)
    requires g.Valid() && FirstOf(g, Start, s) && FirstOf(g, End, e) && !Reachable(g, s, e)
    ensures !CanPlan(g) && HasCell(g, Start) && HasCell(g, End)
  {
    forall s', e' | FirstOf(g, Start, s') && FirstOf(g, End, e') ensures !Reachable(g, s', e') {
      FirstOfUnique(g, Start, s, s');
      FirstOfUnique(g, End, e, e');
    }
  }

  /** A shortest route between the first "S" and the first "E" is a plan. */
  lemma FoundPlan(g: Grid, s: Pos, e: Pos, path: seq<Pos>)
    requires g.Valid() && FirstOf(g, Start, s) && FirstOf(g, End, e) && Shortest(g, path, s, e)
    ensures CanPlan(g) && Planned(g, path)
  {
    assert RouteFromTo(g, path, s, e);
  }

  // ---------------------------------------------------------------------
  // One tick, as a function of the state
  // ---------------------------------------------------------------------

  /** What a tick leaves behind: its result, the cursor, the visited set and the robot's cell. */
  datatype Tick = Tick(result: Result<StepResult>, cursor: nat, visited: set<RowCol>, position: Pos)

  /** A tick of next once a plan exists, on the board g it reads and the board rg the robot
      moves on, from cursor i, visited set visited and robot cell p. */
  ghost function TickSpec(g: Grid, rg: Grid, path: seq<Pos>, i: nat, visited: set<RowCol>, p: Pos): Tick
    requires g.Valid() && rg.Valid()
  {
    var here := NumpyAt(g, p.x, p.y);
    if here.Err? then Tick(Err(here.error), i, visited, p)
    else if here.value == End then Tick(Ok(Plain(false, true, AlreadyAtGoal)), i, visited, p)
    else
      var k := Resync(path, i, p);
      if k.None? then Tick(Ok(Plain(false, false, OffPath)), i, visited, p)
      else Advance(g, rg, path, k.value, visited, p)
  }

  /** The tick from a synchronised cursor k: done at the plan's last index, otherwise the unit
      move towards path[k + 1]. */
  ghost function Advance(g: Grid, rg: Grid, path: seq<Pos>, k: nat, visited: set<RowCol>, p: Pos): Tick
    requires g.Valid() && rg.Valid()
  {
    if k >= |path| - 1 then Tick(Ok(Plain(false, true, ReachedEnd)), k, visited, p)
    else
      var cmd := StepToMove(path[k], path[k + 1]);
      if cmd.Err? then Tick(Err(cmd.error), k, visited, p)
      else
        var res := MoveSpec(rg, p, Request(cmd.value));
        if !res.status then Tick(Ok(Plain(false, false, MoveFailed(cmd.value))), k, visited, p)
        else Landed(g, cmd.value, k + 1, visited, res.newPosition)
  }

  /** After a successful move onto q: cursor k, q marked visited and reported added when new,
      and done when q holds "E". */
  function Landed(g: Grid, cmd: MoveCommand, k: nat, visited: set<RowCol>, q: Pos): (t: Tick)
    requires g.Valid()
    ensures t.cursor == k && t.position == q && t.visited == visited + {(q.y, q.x)}
    ensures t.result.Ok? <==> NumpyAt(g, q.x, q.y).Ok?
    ensures t.result.Ok? ==> t.result.value.didMove && t.result.value.newPosition == Some(q)
    ensures t.result.Ok? ==> t.result.value.done == (NumpyAt(g, q.x, q.y).value == End)
    ensures t.result.Ok? ==> t.result.value.visitedAddedRc == Added(visited, q)
  {
    var there := NumpyAt(g, q.x, q.y);
    if there.Err? then Tick(Err(there.error), k, visited + {(q.y, q.x)}, q)
    else Tick(Ok(MakeStepResult(true, there.value == End, Moved(cmd, q), Some(Added(visited, q)), Some(q))), k, visited + {(q.y, q.x)}, q)
  }

  /** What a tick from cursor i and cell p may leave behind: at most one unit move. When the robot
      moves, it moves from the plan's cursor cell to the next one, the cursor advances onto the
      new cell, and only that cell joins the visited set; when it does not move, the visited set
      is unchanged and the cursor either stays or is resynchronised onto the robot's cell. */
  ghost predicate OneMove(rg: Grid, path: seq<Pos>, i: nat, visited: set<RowCol>, p: Pos, t: Tick)
    requires rg.Valid()
  {
    if t.position == p then
      && t.visited == visited
      && (t.cursor == i || (t.cursor < |path| && path[t.cursor] == p))
      && (t.result.Ok? ==> !t.result.value.didMove)
    else
      && Adjacent(p, t.position) && rg.Walkable(t.position)
      && 1 <= t.cursor < |path| && path[t.cursor - 1] == p && path[t.cursor] == t.position
      && t.visited == visited + {(t.position.y, t.position.x)}
      && (t.result.Ok? ==> t.result.value.didMove && t.result.value.newPosition == Some(t.position))
      && (t.result.Ok? ==> t.result.value.visitedAddedRc == Added(visited, t.position))
  }

  /** What the tick reports as newly visited on landing on q: q's key when it was not visited yet. */
  function Added(visited: set<RowCol>, q: Pos): seq<RowCol>
  {
    if (q.y, q.x) in visited then [] else [(q.y, q.x)]
  }

  /** From a cursor on the robot's cell, Advance makes at most one unit move. */
  lemma AdvanceMovesOnce(g: Grid, rg: Grid, path: seq<Pos>, k: nat, visited: set<RowCol>, p: Pos)
    requires g.Valid() && rg.Valid() && (k < |path| ==> path[k] == p)
    ensures OneMove(rg, path, k, visited, p, Advance(g, rg, path, k, visited, p))
  {
    if k < |path| - 1 && Adjacent(p, path[k + 1]) {
      StepOutcome(rg, p, path[k + 1]);
    }
  }

  /** A tick makes at most one unit move. */
  lemma TickMovesOnce(g: Grid, rg: Grid, path: seq<Pos>, i: nat, visited: set<RowCol>, p: Pos)
    requires g.Valid() && rg.Valid()
    ensures OneMove(rg, path, i, visited, p, TickSpec(g, rg, path, i, visited, p))
  {
    var here := NumpyAt(g, p.x, p.y);
    if here.Ok? && here.value != End {
      var k := Resync(path, i, p);
      if k.Some? {
        AdvanceMovesOnce(g, rg, path, k.value, visited, p);
      }
    }
  }

  /** On "E", or with the cursor on the robot at the plan's last index, a tick is done without moving. */
  lemma TickStops(g: Grid, rg: Grid, path: seq<Pos>, i: nat, visited: set<RowCol>, p: Pos)
    requires g.Valid() && rg.Valid() && g.InBounds(p)
    requires g.At(p) == End || (i < |path| && path[i] == p && i == |path| - 1)
    ensures var t := TickSpec(g, rg, path, i, visited, p);
      t.result.Ok? && t.result.value.done && !t.result.value.didMove
      && t.cursor == i && t.visited == visited && t.position == p
  {
  }

  /** Off the plan (and not on "E"), a tick reports it and changes nothing. */
  lemma TickOffPath(g: Grid, rg: Grid, path: seq<Pos>, i: nat, visited: set<RowCol>, p: Pos)
    requires g.Valid() && rg.Valid() && g.InBounds(p) && g.At(p) != End
    requires i < |path| && p !in path
    ensures TickSpec(g, rg, path, i, visited, p) == Tick(Ok(Plain(false, false, OffPath)), i, visited, p)
  {
  }

  /** Following a route of the board the robot moves on: from the cursor's cell, when the plan's
      next cell is a walkable neighbour, a tick moves the robot onto it and advances the cursor. */
  lemma TickFollowsRoute(g: Grid, path: seq<Pos>, i: nat, visited: set<RowCol>)
    requires g.Valid() && i + 1 < |path| && g.InBounds(path[i]) && g.At(path[i]) != End
    requires Adjacent(path[i], path[i + 1]) && g.Walkable(path[i + 1])
    ensures TickSpec(g, g, path, i, visited, path[i]) == Landed(g, StepToMove(path[i], path[i + 1]).value, i + 1, visited, path[i + 1])
    ensures g.InBounds(path[i + 1])
  {
    StepRoundTrip(g, path[i], path[i + 1]);
  }

  // ---------------------------------------------------------------------
  // A whole replay
  // ---------------------------------------------------------------------

  /** n ticks in a row on one board. */
  ghost function Run(g: Grid, path: seq<Pos>, t: Tick, n: nat): Tick
    requires g.Valid()
    decreases n
  {
    if n == 0 then t else Run(g, path, TickSpec(g, g, path, t.cursor, t.visited, t.position), n - 1)
  }

  /** The visited-set keys of the cells of s. */
  ghost function RowCols(s: seq<Pos>): set<RowCol>
  {
    set q | q in s :: (q.y, q.x)
  }

  /** Splitting off the first cell of path[i + 1..j + 1]. */
  lemma RowColsFirst(path: seq<Pos>, i: nat, j: nat)
    requires i < j < |path|
    ensures RowCols(path[i + 1..j + 1]) == {(path[i + 1].y, path[i + 1].x)} + RowCols(path[(i + 1) + 1..j + 1])
  {
    var rest := path[(i + 1) + 1..j + 1];
    assert path[i + 1..j + 1] == [path[i + 1]] + rest;
  }

  /** The cells visited over ticks i + 1 to j are those of tick i + 1 and those after it. */
  lemma RunVisited(path: seq<Pos>, i: nat, j: nat, v0: set<RowCol>, v1: set<RowCol>, v: set<RowCol>)
    requires i < j < |path|
    requires v1 == v0 + {(path[i + 1].y, path[i + 1].x)} && v == v1 + RowCols(path[(i + 1) + 1..j + 1])
    ensures v == v0 + RowCols(path[i + 1..j + 1])
  {
    RowColsFirst(path, i, j);
  }

  /** The first of n ticks along a route lands on the route's next cell; m is the n - 1 ticks left. */
  lemma RunStep(g: Grid, path: seq<Pos>, t0: Tick, i: nat, n: nat, m: nat)
    requires g.Valid() && i + 1 < |path| && g.InBounds(path[i]) && g.At(path[i]) != End
    requires Adjacent(path[i], path[i + 1]) && g.Walkable(path[i + 1])
    requires t0.cursor == i && t0.position == path[i] && n == m + 1
    ensures Run(g, path, t0, n) ==
            Run(g, path, Landed(g, StepToMove(path[i], path[i + 1]).value, i + 1, t0.visited, path[i + 1]), m)
  {
    TickFollowsRoute(g, path, i, t0.visited);
    assert t0 == Tick(t0.result, i, t0.visited, path[i]);
  }

  /** From a tick state with cursor i on the plan's cell i, j - i ticks walk the plan to cell j,
      visiting its cells, as long as no cell before the plan's end is "E". */
  lemma {:induction false} RunFollows(g: Grid, path: seq<Pos>, t0: Tick, i: nat, j: nat)
    requires g.Valid() && IsRoute(g, path) && i <= j < |path| && g.InBounds(path[i])
    requires forall k :: i <= k < |path| - 1 ==> g.InBounds(path[k]) && g.At(path[k]) != End
    requires t0.cursor == i && t0.position == path[i]
    ensures var t := Run(g, path, t0, j - i);
      t.cursor == j && t.position == path[j] && t.visited == t0.visited + RowCols(path[i + 1..j + 1])
    decreases j - i
  {
    if i == j {
      assert path[i + 1..j + 1] == [];
    } else {
      assert Adjacent(path[i], path[i + 1]) && g.Walkable(path[i + 1]);
      RunStep(g, path, t0, i, j - i, j - (i + 1));
      var t1 := Landed(g, StepToMove(path[i], path[i + 1]).value, i + 1, t0.visited, path[i + 1]);
      RunFollows(g, path, t1, i + 1, j);
      RunVisited(path, i, j, t0.visited, t1.visited, Run(g, path, t1, j - (i + 1)).visited);
    }
  }

  /** A cell before the end of a shortest route is never its last cell. */
  lemma ShortestNoEarlyEnd(g: Grid, path: seq<Pos>, s: Pos, e: Pos, j: nat)
    requires g.Valid() && Shortest(g, path, s, e) && j < |path| - 1
    ensures path[j] != e
  {
    if path[j] == e {
      assert RouteFromTo(g, path[..j + 1], s, e);
    }
  }

  /** On a board with a single "E", a plan is a route whose cells are on the board and hold no
      "E" before its last cell, which holds "E". */
  lemma PlannedShape(g: Grid, path: seq<Pos>)
    requires g.Valid() && Planned(g, path)
    requires forall q, q' :: g.InBounds(q) && g.InBounds(q') && g.At(q) == End && g.At(q') == End ==> q == q'
    ensures IsRoute(g, path) && g.InBounds(path[0])
    ensures forall k :: 0 <= k < |path| - 1 ==> g.InBounds(path[k]) && g.At(path[k]) != End
    ensures g.InBounds(path[|path| - 1]) && g.At(path[|path| - 1]) == End
  {
    var s, e :| FirstOf(g, Start, s) && FirstOf(g, End, e) && Shortest(g, path, s, e);
    forall k | 0 <= k < |path| - 1 ensures g.InBounds(path[k]) && g.At(path[k]) != End {
      ShortestNoEarlyEnd(g, path, s, e, k);
      assert k > 0 ==> g.Walkable(path[k]);
    }
  }

  /** Replaying a plan on a board with a single "E", starting on its first cell with the cursor
      at 0, takes exactly |path| - 1 ticks to bring the robot onto "E" with the cursor on the
      plan's last index, visits every cell of the plan, and the tick after that is done. */
  lemma ReplayReachesGoal(g: Grid, path: seq<Pos>, visited: set<RowCol>, r0: Result<StepResult>)
    requires g.Valid() && Planned(g, path)
    requires forall q, q' :: g.InBounds(q) && g.InBounds(q') && g.At(q) == End && g.At(q') == End ==> q == q'
    ensures var t := Run(g, path, Tick(r0, 0, visited, path[0]), |path| - 1);
      && t.cursor == |path| - 1 && t.position == path[|path| - 1] && g.InBounds(t.position) && g.At(t.position) == End
      && t.visited == visited + RowCols(path[1..])
      && var next := TickSpec(g, g, path, t.cursor, t.visited, t.position);
         next.result.Ok? && next.result.value.done && !next.result.value.didMove && next.position == t.position
  {
    PlannedShape(g, path);
    var t0 := Tick(r0, 0, visited, path[0]);
    RunFollows(g, path, t0, 0, |path| - 1);
    assert path[0 + 1..|path| - 1 + 1] == path[1..];
    var t := Run(g, path, t0, |path| - 0 - 1);
    TickStops(g, g, path, t.cursor, t.visited, t.position);
  }

  // ---------------------------------------------------------------------
  // The solver object
  // ---------------------------------------------------------------------

  class AStarSolver {
    /** The Solver part: the name "astar" and the visited set. */
    const solver: Solver
    var path: Option<seq<Pos>>
    var i: nat

    constructor ()
      ensures fresh(solver) && solver.name == "astar" && solver.visited == {}
      ensures path == None && i == 0
    {
      solver := new Solver("astar");
      path := None;
      i := 0;
    }

    /** The planning half of _ensure_path: the first "S", the first "E" (NotFound when either is
        missing) and a shortest route between them (NoPath when there is none). */
    method PlanPath(maze: Maze) returns (r: Result<seq<Pos>>)
      requires maze.Valid()
      ensures r.Ok? <==> CanPlan(maze.Cells())
      ensures r.Ok? ==> Planned(maze.Cells(), r.value)
      ensures r.Err? ==> (r.error == NotFound <==> !HasCell(maze.Cells(), Start) || !HasCell(maze.Cells(), End))
      ensures r.Err? ==> r.error == NotFound || r.error == NoPath
    {
      ghost var g := maze.Cells();
      var start := maze.FindCell(Start);
      if start.Err? {
        NoCellNoPlan(maze.Cells(), Start);
        return Err(start.error);
      }
      var end := maze.FindCell(End);
      if end.Err? {
        NoCellNoPlan(maze.Cells(), End);
        return Err(end.error);
      }
      var s, e := start.value, end.value;
      assert FirstOf(g, Start, s) && FirstOf(g, End, e);
      r := SolvePath(maze, s, e);
      if r.Err? {
        UnreachableNoPlan(g, s, e);
        return;
      }
      FoundPlan(g, s, e, r.value);
    }

    /** _ensure_path: plans only when no plan exists yet. The cursor starts at 0 and the robot's
        cell is marked visited; when find_cell or _solve_path raises, nothing changes. */
    method EnsurePath(maze: Maze, robot: Robot) returns (r: Result<()>)
      requires maze.Valid()
      modifies this, solver
      ensures old(path).Some? ==> r == Ok(()) && path == old(path) && i == old(i) && solver.visited == old(solver.visited)
      ensures old(path).None? ==> (r.Ok? <==> CanPlan(maze.Cells()))
      ensures old(path).None? && r.Ok? ==> path.Some? && Planned(maze.Cells(), path.value) && i == 0
      ensures old(path).None? && r.Ok? ==> solver.visited == old(solver.visited) + {(robot.position.y, robot.position.x)}
      ensures r.Err? ==> path == old(path) && i == old(i) && solver.visited == old(solver.visited)
      ensures r.Err? ==> (r.error == NotFound <==> !HasCell(maze.Cells(), Start) || !HasCell(maze.Cells(), End))
      ensures r.Err? ==> r.error == NotFound || r.error == NoPath
    {
      if path.Some? {
        return Ok(());
      }
      var planned := PlanPath(maze);
      if planned.Err? {
        return Err(planned.error);
      }
      path := Some(planned.value);
      i := 0;
      solver.visited := solver.visited + {(robot.position.y, robot.position.x)};
      return Ok(());
    }

    /** The part of next after planning: the goal check and resynchronisation of the cursor. */
    method Step(maze: Maze, robot: Robot) returns (r: Result<StepResult>)
      requires maze.Valid() && robot.Valid() && path.Some?
      modifies this, solver, robot
      ensures path == old(path)
      ensures Tick(r, i, solver.visited, robot.position) ==
              TickSpec(maze.Cells(), robot.maze.Cells(), path.value, old(i), old(solver.visited), old(robot.position))
    {
      var here := NumpyAt(maze.Cells(), robot.position.x, robot.position.y);
      if here.Err? {
        return Err(here.error);
      }
      if here.value == End {
        return Ok(Plain(false, true, AlreadyAtGoal));
      }
      var p := path.value;
      if i < |p| && p[i] != robot.position {
        var k := IndexOf(p, robot.position);
        if k.None? {
          return Ok(Plain(false, false, OffPath));
        }
        i := k.value;
      }
      r := Move(maze, robot);
    }

    /** The rest of next from a synchronised cursor: one unit move, the cursor advanced only when
        it succeeds, and the new cell added to the visited set. */
    method Move(maze: Maze, robot: Robot) returns (r: Result<StepResult>)
      requires maze.Valid() && robot.Valid() && path.Some?
      modifies this, solver, robot
      ensures path == old(path)
      ensures Tick(r, i, solver.visited, robot.position) ==
              Advance(maze.Cells(), robot.maze.Cells(), path.value, old(i), old(solver.visited), old(robot.position))
    {
      var p := path.value;
      if i >= |p| - 1 {
        return Ok(Plain(false, true, ReachedEnd));
      }
      var cmd := StepToMove(p[i], p[i + 1]);
      if cmd.Err? {
        return Err(cmd.error);
      }
      var res := robot.Move(Request(cmd.value));
      if !res.status {
        return Ok(Plain(false, false, MoveFailed(cmd.value)));
      }
      i := i + 1;
      var rp := robot.position;
      var rc := (rp.y, rp.x);
      var added: seq<RowCol> := [];
      if rc !in solver.visited {
        solver.visited := solver.visited + {rc};
        added := [rc];
      }
      var there := NumpyAt(maze.Cells(), rp.x, rp.y);
      if there.Err? {
        return Err(there.error);
      }
      return Ok(MakeStepResult(true, there.value == End, Moved(cmd.value, rp), Some(added), Some(rp)));
    }

    /** next: plan if needed (an error from planning is returned and changes nothing), then one
        tick as TickSpec describes, from cursor 0 and the robot's cell visited on a fresh plan. */
    method Next(maze: Maze, robot: Robot) returns (r: Result<StepResult>)
      requires maze.Valid() && robot.Valid()
      modifies this, solver, robot
      ensures old(path).Some? ==> path == old(path)
      ensures old(path).None? ==> (path.Some? <==> CanPlan(maze.Cells()))
      ensures old(path).None? && path.Some? ==> Planned(maze.Cells(), path.value)
      ensures path.None? ==> r.Err? && i == old(i) && solver.visited == old(solver.visited) && robot.position == old(robot.position)
      ensures path.Some? ==>
        Tick(r, i, solver.visited, robot.position) ==
        TickSpec(maze.Cells(), robot.maze.Cells(), path.value,
                 if old(path).None? then 0 else old(i),
                 if old(path).None? then old(solver.visited) + {(old(robot.position).y, old(robot.position).x)} else old(solver.visited),
                 old(robot.position))
    {
      var planned := EnsurePath(maze, robot);
      if planned.Err? {
        return Err(planned.error);
      }
      r := Step(maze, robot);
    }
  }
}
