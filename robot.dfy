/** The motion model of mazellm/robot.py: a robot with one mutable position on a maze, a
    four-way range sensor and all-or-nothing moves. */
module RobotModel {
  import opened Types
  import opened Grid
  import opened MazeModel

  /** The sensor's answer: walkable cells in a row in each direction. */
  datatype Reading = Reading(up: nat, down: nat, left: nat, right: nat)

  /** The value of a move command's entry: an integer cell count or anything else. */
  datatype Count = IntCount(cells: int) | NotAnInt

  /** A move command: the dictionary's (key, value) entries in iteration order. */
  type MoveRequest = seq<(string, Count)>

  datatype MoveResult = MoveResult(status: bool, newPosition: Pos)

  /** How far p can see in direction d: the walkable cells in a row from the neighbour on. */
  function Ray(g: Grid, p: Pos, d: Direction): nat
    requires g.Valid()
    decreases match d
      case Up => p.y
      case Down => g.m - p.y
      case Left => p.x
      case Right => g.n - p.x
  {
    var q := Shift(p, d, 1);
    if g.Walkable(q) then 1 + Ray(g, q, d) else 0
  }

  /** The Ray cells are walkable and the cell after them is not. */
  lemma {:induction false} RayMeans(g: Grid, p: Pos, d: Direction)
    requires g.Valid()
    ensures forall j :: 1 <= j <= Ray(g, p, d) ==> g.Walkable(Shift(p, d, j))
    ensures !g.Walkable(Shift(p, d, Ray(g, p, d) + 1))
    decreases match d
      case Up => p.y
      case Down => g.m - p.y
      case Left => p.x
      case Right => g.n - p.x
  {
    var q := Shift(p, d, 1);
    if g.Walkable(q) {
      RayMeans(g, q, d);
      forall j | 1 <= j <= Ray(g, p, d) ensures g.Walkable(Shift(p, d, j)) {
        if j > 1 {
          assert Shift(p, d, j) == Shift(q, d, j - 1);
        }
      }
      assert Shift(p, d, Ray(g, p, d) + 1) == Shift(q, d, Ray(g, q, d) + 1);
    }
  }

  /** One step of the ray: the neighbour counts when it is walkable, and ends the ray when not. */
  lemma RayStep(g: Grid, p: Pos, d: Direction)
    requires g.Valid()
    ensures g.Walkable(Shift(p, d, 1)) ==> Ray(g, p, d) == 1 + Ray(g, Shift(p, d, 1), d)
    ensures !g.Walkable(Shift(p, d, 1)) ==> Ray(g, p, d) == 0
  {
  }

  /** Every cell on the way, one to k cells from p in direction d, is walkable. */
  ghost predicate CanMove(g: Grid, p: Pos, d: Direction, k: int)
    requires g.Valid()
  {
    forall j :: 1 <= j <= k ==> g.Walkable(Shift(p, d, j))
  }

  /** The ray is the one k with cells 1 to k walkable and cell k + 1 not. */
  lemma RayUnique(g: Grid, p: Pos, d: Direction, k: nat)
    requires g.Valid() && CanMove(g, p, d, k) && !g.Walkable(Shift(p, d, k + 1))
    ensures Ray(g, p, d) == k
  {
    RayMeans(g, p, d);
  }

  /** What move does from p: reject an empty command, an unknown direction or a count that is
      not a non-negative integer; accept 0 as a no-op; otherwise move k cells or not at all. */
  ghost function MoveSpec(g: Grid, p: Pos, request: MoveRequest): MoveResult
    requires g.Valid()
  {
    if |request| == 0 then MoveResult(false, p)
    else
      var (name, count) := request[0];
      match ParseDirection(name)
      case None => MoveResult(false, p)
      case Some(d) =>
        if !count.IntCount? || count.cells < 0 then MoveResult(false, p)
        else if count.cells == 0 then MoveResult(true, p)
        else if CanMove(g, p, d, count.cells) then MoveResult(true, Shift(p, d, count.cells))
        else MoveResult(false, p)
  }

  /** The command moving k cells in direction d ({"up": k} and so on). */
  function Command(d: Direction, k: int): MoveRequest
  {
    [(DirName(d), IntCount(k))]
  }

  /** move(d, k) succeeds exactly when 0 <= k <= sensor()[d], and then lands k cells away;
      otherwise the robot stays put. */
  lemma MoveIffSensor(g: Grid, p: Pos, d: Direction, k: int)
    requires g.Valid()
    ensures MoveSpec(g, p, Command(d, k)).status <==> 0 <= k <= Ray(g, p, d)
    ensures MoveSpec(g, p, Command(d, k)).newPosition == if 0 <= k <= Ray(g, p, d) then Shift(p, d, k) else p
  {
    RayMeans(g, p, d);
    assert ParseDirection(DirName(d)) == Some(d);
    if k > Ray(g, p, d) {
      assert !g.Walkable(Shift(p, d, Ray(g, p, d) + 1));
    }
  }

  /** Starting on a walkable cell, the robot ends on a walkable cell, whatever the command. */
  lemma MoveKeepsWalkable(g: Grid, p: Pos, request: MoveRequest)
    requires g.Valid() && g.Walkable(p)
    ensures g.Walkable(MoveSpec(g, p, request).newPosition)
  {
    if |request| > 0 {
      var (name, count) := request[0];
      if ParseDirection(name).Some? && count.IntCount? && count.cells > 0 {
        var d := ParseDirection(name).value;
        if CanMove(g, p, d, count.cells) {
          assert g.Walkable(Shift(p, d, count.cells));
        }
      }
    }
  }

  /** A robot bound to a maze; position is (x, y) with x the column and y the row. */
  class Robot {
    const maze: Maze
    var position: Pos

    ghost predicate Valid()
      reads this, maze
    {
      maze.Valid()
    }

    /** A robot at the given position, or at (0, 0) when none is given. */
    constructor (maze: Maze, position: Option<Pos>)
      requires maze.Valid()
      ensures Valid() && this.maze == maze
      ensures this.position == if position.Some? then position.value else Pos(0, 0)
    {
      this.maze := maze;
      this.position := if position.Some? then position.value else Pos(0, 0);
    }

    function InBounds(x: int, y: int): (r: bool)
      requires Valid()
      reads this, maze, maze.board
      ensures r <==> maze.Cells().InBounds(Pos(x, y))
    {
      0 <= x < maze.n && 0 <= y < maze.m
    }

    /** In bounds and not a barrier. */
    function IsWalkable(x: int, y: int): (r: bool)
      requires Valid()
      reads this, maze, maze.board
      ensures r <==> maze.Cells().Walkable(Pos(x, y))
    {
      InBounds(x, y) && !maze.IsBarrier(x, y)
    }

    /** The four ray casts from the current position; the position is not changed. */
    method Sensor() returns (r: Reading)
      requires Valid()
      ensures r == Reading(Ray(maze.Cells(), position, Up), Ray(maze.Cells(), position, Down),
                           Ray(maze.Cells(), position, Left), Ray(maze.Cells(), position, Right))
    {
      ghost var g := maze.Cells();
      ghost var p := position;
      var x, y := position.x, position.y;

      var steps := 0;
      var yy := y - 1;
      while yy >= 0 && IsWalkable(x, yy)
        invariant Pos(x, yy) == Shift(p, Up, steps + 1)
        invariant CanMove(g, p, Up, steps)
        decreases yy + 1
      {
        steps := steps + 1;
        yy := yy - 1;
      }
      var up := steps;
      assert up == Ray(g, p, Up) by { RayUnique(g, p, Up, steps); }

      steps := 0;
      yy := y + 1;
      while yy < maze.m && IsWalkable(x, yy)
        invariant Pos(x, yy) == Shift(p, Down, steps + 1)
        invariant CanMove(g, p, Down, steps)
        decreases maze.m - yy
      {
        steps := steps + 1;
        yy := yy + 1;
      }
      var down := steps;
      assert down == Ray(g, p, Down) by { RayUnique(g, p, Down, steps); }

      steps := 0;
      var xx := x - 1;
      while xx >= 0 && IsWalkable(xx, y)
        invariant Pos(xx, y) == Shift(p, Left, steps + 1)
        invariant CanMove(g, p, Left, steps)
        decreases xx + 1
      {
        steps := steps + 1;
        xx := xx - 1;
      }
      var left := steps;
      assert left == Ray(g, p, Left) by { RayUnique(g, p, Left, steps); }

      steps := 0;
      xx := x + 1;
      while xx < maze.n && IsWalkable(xx, y)
        invariant Pos(xx, y) == Shift(p, Right, steps + 1)
        invariant CanMove(g, p, Right, steps)
        decreases maze.n - xx
      {
        steps := steps + 1;
        xx := xx + 1;
      }
      var right := steps;
      assert right == Ray(g, p, Right) by { RayUnique(g, p, Right, steps); }

      r := Reading(up, down, left, right);
    }

    /** move: the new position is the result's, and the result is MoveSpec's. */
    method Move(request: MoveRequest) returns (res: MoveResult)
      requires Valid()
      modifies this
      ensures res == MoveSpec(maze.Cells(), old(position), request)
      ensures position == res.newPosition
    {
      ghost var g := maze.Cells();
      if |request| == 0 {
        return MoveResult(false, position);
      }
      var (name, count) := request[0];
      var dir := ParseDirection(name);
      if dir.None? {
        return MoveResult(false, position);
      }
      if !count.IntCount? || count.cells < 0 {
        return MoveResult(false, position);
      }
      var cells := count.cells;
      if cells == 0 {
        return MoveResult(true, position);
      }
      var d := dir.value;
      var p0 := position;
      var x, y := p0.x, p0.y;
      for i := 0 to cells
        invariant Pos(x, y) == Shift(p0, d, i)
        invariant CanMove(g, p0, d, i)
      {
        match d {
          case Up => y := y - 1;
          case Down => y := y + 1;
          case Left => x := x - 1;
          case Right => x := x + 1;
        }
        if !IsWalkable(x, y) {
          assert !g.Walkable(Shift(p0, d, i + 1));
          assert !CanMove(g, p0, d, cells);
          return MoveResult(false, p0);
        }
      }
      position := Pos(x, y);
      res := MoveResult(true, Pos(x, y));
    }
  }

  // ---------------------------------------------------------------------
  // The five-by-five board of the robot's tests
  // ---------------------------------------------------------------------

  /** S 1 0 0 0 / 0 1 0 1 0 / 0 1 0 1 0 / 0 1 0 1 0 / 0 0 0 1 E */
  function SampleBoard(): (g: Grid)
    ensures g.Valid() && g.n == 5 && g.m == 5
  {
    Grid(5, 5, [
      [Start, Wall, Free, Free, Free],
      [Free,  Wall, Free, Wall, Free],
      [Free,  Wall, Free, Wall, Free],
      [Free,  Wall, Free, Wall, Free],
      [Free,  Free, Free, Wall, End]])
  }

  /** On "S" the sensor reads down 4: the column below it is free to the border. */
  lemma SampleSensorDownFromStart()
    ensures Ray(SampleBoard(), Pos(0, 0), Down) == 4
  {
    var g := SampleBoard();
    assert Ray(g, Pos(0, 4), Down) == 0 by {
      RayStep(g, Pos(0, 4), Down);
    }
    assert Ray(g, Pos(0, 3), Down) == 1 by {
      assert g.Walkable(Pos(0, 4));
      RayStep(g, Pos(0, 3), Down);
    }
    assert Ray(g, Pos(0, 2), Down) == 2 by {
      assert g.Walkable(Pos(0, 3));
      RayStep(g, Pos(0, 2), Down);
    }
    assert Ray(g, Pos(0, 1), Down) == 3 by {
      assert g.Walkable(Pos(0, 2));
      RayStep(g, Pos(0, 1), Down);
    }
    assert g.Walkable(Pos(0, 1));
    RayStep(g, Pos(0, 0), Down);
  }

  /** On "S" the sensor reads up 0, left 0 (the border) and right 0 (a wall). */
  lemma SampleSensorBlockedAtStart()
    ensures Ray(SampleBoard(), Pos(0, 0), Up) == 0
    ensures Ray(SampleBoard(), Pos(0, 0), Left) == 0
    ensures Ray(SampleBoard(), Pos(0, 0), Right) == 0
  {
    var g := SampleBoard();
    RayStep(g, Pos(0, 0), Up);
    RayStep(g, Pos(0, 0), Left);
    assert g.At(Pos(1, 0)) == Wall;
    RayStep(g, Pos(0, 0), Right);
  }

  /** On "E" the sensor reads up 4: "E" itself and the free column above it count as walkable. */
  lemma SampleSensorUpFromEnd()
    ensures Ray(SampleBoard(), Pos(4, 4), Up) == 4
  {
    var g := SampleBoard();
    RayStep(g, Pos(4, 0), Up);
    RayStep(g, Pos(4, 1), Up);
    RayStep(g, Pos(4, 2), Up);
    RayStep(g, Pos(4, 3), Up);
    RayStep(g, Pos(4, 4), Up);
  }

  /** On "E" the sensor reads down 0, right 0 (the border) and left 0 (a wall). */
  lemma SampleSensorBlockedAtEnd()
    ensures Ray(SampleBoard(), Pos(4, 4), Down) == 0
    ensures Ray(SampleBoard(), Pos(4, 4), Left) == 0
    ensures Ray(SampleBoard(), Pos(4, 4), Right) == 0
  {
    var g := SampleBoard();
    RayStep(g, Pos(4, 4), Down);
    assert g.At(Pos(3, 4)) == Wall;
    RayStep(g, Pos(4, 4), Left);
    RayStep(g, Pos(4, 4), Right);
  }

  /** From (0, 0) on the sample board, right 1 and up 1 fail and the robot stays. */
  lemma SampleMovesBlockedAtStart()
    ensures MoveSpec(SampleBoard(), Pos(0, 0), Command(Right, 1)) == MoveResult(false, Pos(0, 0))
    ensures MoveSpec(SampleBoard(), Pos(0, 0), Command(Up, 1)) == MoveResult(false, Pos(0, 0))
  {
    SampleSensorBlockedAtStart();
    MoveIffSensor(SampleBoard(), Pos(0, 0), Right, 1);
    MoveIffSensor(SampleBoard(), Pos(0, 0), Up, 1);
  }

  /** From (0, 0) on the sample board, down 0 stays and down 4 reaches (0, 4). */
  lemma SampleMovesDown()
    ensures MoveSpec(SampleBoard(), Pos(0, 0), Command(Down, 0)) == MoveResult(true, Pos(0, 0))
    ensures MoveSpec(SampleBoard(), Pos(0, 0), Command(Down, 4)) == MoveResult(true, Pos(0, 4))
  {
    SampleSensorDownFromStart();
    MoveIffSensor(SampleBoard(), Pos(0, 0), Down, 0);
    MoveIffSensor(SampleBoard(), Pos(0, 0), Down, 4);
  }

  /** From (0, 4) on the sample board, right 3 fails at the wall (3, 4) and the robot stays. */
  lemma SampleMoveBlocked()
    ensures MoveSpec(SampleBoard(), Pos(0, 4), Command(Right, 3)) == MoveResult(false, Pos(0, 4))
  {
    var g := SampleBoard();
    assert g.At(Pos(3, 4)) == Wall;
    RayStep(g, Pos(2, 4), Right);
    RayStep(g, Pos(1, 4), Right);
    RayStep(g, Pos(0, 4), Right);
    MoveIffSensor(g, Pos(0, 4), Right, 3);
  }
}
