/** The legacy neighbour sensor of src/robot_agent.py: a robot on a rectangular list of rows that
    reports the raw value of each of its four neighbours, or "wall" off the grid. */
module RobotAgent {
  import opened Types

  /** A reported neighbour: the grid's raw value, or the string "wall" for a cell off the grid. */
  datatype Seen<T> = Inside(value: T) | OutsideWall

  /** What get_state returns: the position and the surroundings dictionary. */
  datatype AgentState<T> = AgentState(position: (int, int), surroundings: map<string, Seen<T>>)

  /** The neighbour at (dx, dy), row dx and column dy. The bounds test is against the number of rows
      and the length of the first row, so an empty grid reports "wall" everywhere, and a row
      shorter than the first raises IndexError. */
  function Look<T>(maze: seq<seq<T>>, dx: int, dy: int): (r: Result<Seen<T>>)
    ensures r == Ok(OutsideWall) <==> !(0 <= dx < |maze| && 0 <= dy < |maze[0]|)
    ensures r.Ok? && r.value.Inside? ==> 0 <= dx < |maze| && 0 <= dy < |maze[dx]| && r.value.value == maze[dx][dy]
    ensures r.Err? <==> 0 <= dx < |maze| && |maze[dx]| <= dy < |maze[0]|
    ensures r.Err? ==> r.error == IndexError
  {
    if 0 <= dx < |maze| && 0 <= dy < |maze[0]| then
      if dy < |maze[dx]| then Ok(Inside(maze[dx][dy])) else Err(IndexError)
    else Ok(OutsideWall)
  }

  /** The four probes in the dictionary's order: up (x - 1, y), down (x + 1, y), left (x, y - 1)
      and right (x, y + 1). */
  function Probes(x: int, y: int): (s: seq<(string, int, int)>)
    ensures |s| == 4
  {
    [("up", x - 1, y), ("down", x + 1, y), ("left", x, y - 1), ("right", x, y + 1)]
  }

  /** The surroundings of (x, y) as one value: each name mapped to what its probe sees, or the
      first probe's error. */
  function SurroundingsOf<T>(maze: seq<seq<T>>, x: int, y: int): (r: Result<map<string, Seen<T>>>)
    ensures r.Ok? ==> r.value.Keys == {"up", "down", "left", "right"}
    ensures r.Ok? ==> && Look(maze, x - 1, y) == Ok(r.value["up"])
                      && Look(maze, x + 1, y) == Ok(r.value["down"])
                      && Look(maze, x, y - 1) == Ok(r.value["left"])
                      && Look(maze, x, y + 1) == Ok(r.value["right"])
    ensures r.Err? <==> || Look(maze, x - 1, y).Err? || Look(maze, x + 1, y).Err?
                        || Look(maze, x, y - 1).Err? || Look(maze, x, y + 1).Err?
    ensures r.Err? ==> r.error == IndexError
  {
    var up, down, left, right := Look(maze, x - 1, y), Look(maze, x + 1, y), Look(maze, x, y - 1), Look(maze, x, y + 1);
    if up.Err? then Err(up.error)
    else if down.Err? then Err(down.error)
    else if left.Err? then Err(left.error)
    else if right.Err? then Err(right.error)
    else Ok(map["up" := up.value, "down" := down.value, "left" := left.value, "right" := right.value])
  }

  /** Every row as long as the first. */
  predicate Rectangular<T>(maze: seq<seq<T>>)
  {
    forall i :: 0 <= i < |maze| ==> |maze[i]| == |maze[0]|
  }

  /** On a rectangular grid the sensor never raises, and at an in-bounds cell it reports a
      neighbour as "wall" exactly when that neighbour is off the grid. */
  lemma RectangularNeverFails<T>(maze: seq<seq<T>>, x: int, y: int)
    requires Rectangular(maze)
    ensures SurroundingsOf(maze, x, y).Ok?
    ensures var s := SurroundingsOf(maze, x, y).value;
      0 <= x < |maze| && 0 <= y < |maze[0]| ==>
        && (s["up"] == OutsideWall <==> x == 0)
        && (s["down"] == OutsideWall <==> x == |maze| - 1)
        && (s["left"] == OutsideWall <==> y == 0)
        && (s["right"] == OutsideWall <==> y == |maze[0]| - 1)
  {
  }

  class RobotSensor<T> {
    const maze: seq<seq<T>>
    var position: (int, int)

    constructor (maze: seq<seq<T>>, startPosition: (int, int))
      ensures this.maze == maze && position == startPosition
    {
      this.maze := maze;
      position := startPosition;
    }

    /** get_state: the position as it is and the surroundings there; it changes nothing. */
    method GetState() returns (r: Result<AgentState<T>>)
      ensures r.Ok? <==> SurroundingsOf(maze, position.0, position.1).Ok?
      ensures r.Ok? ==> r.value == AgentState(position, SurroundingsOf(maze, position.0, position.1).value)
      ensures r.Err? ==> r.error == IndexError
    {
      var (x, y) := position;
      var s := Surroundings(x, y);
      if s.Err? {
        return Err(s.error);
      }
      return Ok(AgentState((x, y), s.value));
    }

    /** set_position: the position becomes p. */
    method SetPosition(p: (int, int))
      modifies this
      ensures position == p
    {
      position := p;
    }

    /** _get_surroundings: the probes in order, each filled in as it is reached. */
    method Surroundings(x: int, y: int) returns (r: Result<map<string, Seen<T>>>)
      ensures r == SurroundingsOf(maze, x, y)
    {
      var probes := Probes(x, y);
      var result: map<string, Seen<T>> := map[];
      for k := 0 to 4
        invariant result.Keys == set j | 0 <= j < k :: probes[j].0
        invariant forall j :: 0 <= j < k ==> Look(maze, probes[j].1, probes[j].2) == Ok(result[probes[j].0])
      {
        var (name, dx, dy) := probes[k];
        if 0 <= dx < |maze| && 0 <= dy < |maze[0]| {
          if dy >= |maze[dx]| {
            assert Look(maze, dx, dy).Err?;
            assert k == 0 || k == 1 || k == 2 || k == 3;
            assert SurroundingsOf(maze, x, y).Err?;
            return Err(IndexError);
          }
          result := result[name := Inside(maze[dx][dy])];
        } else {
          result := result[name := OutsideWall];
        }
      }
      assert Look(maze, x - 1, y) == Ok(result["up"]) by { assert probes[0] == ("up", x - 1, y); }
      assert Look(maze, x + 1, y) == Ok(result["down"]) by { assert probes[1] == ("down", x + 1, y); }
      assert Look(maze, x, y - 1) == Ok(result["left"]) by { assert probes[2] == ("left", x, y - 1); }
      assert Look(maze, x, y + 1) == Ok(result["right"]) by { assert probes[3] == ("right", x, y + 1); }
      assert result.Keys == {"up", "down", "left", "right"} by {
        assert result.Keys == {probes[0].0, probes[1].0, probes[2].0, probes[3].0};
      }
      assert result == map["up" := result["up"], "down" := result["down"], "left" := result["left"], "right" := result["right"]];
      r := Ok(result);
    }
  }
}
