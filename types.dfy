/** Shared value types of the maze engine: positions, directions, cell values
    and the error outcomes that the Python code raises as exceptions. */
module Types {

  /** A board coordinate: x is the column, y is the row (the board is indexed board[y][x]). */
  datatype Pos = Pos(x: int, y: int)

  datatype Direction = Up | Down | Left | Right

  /** The four values a board cell holds: 1 (wall), 0 (free), "S" and "E". */
  datatype Cell = Wall | Free | Start | End

  datatype Option<T> = None | Some(value: T)

  /** The exceptions the planners and helpers raise. */
  datatype Error =
    | NoPath        // RuntimeError("No path found ...")
    | NotFound      // ValueError("Could not find ...")
    | NonAdjacent   // ValueError("Non-adjacent step ...")
    | IndexError    // an index outside a board or a list

  datatype Result<T> = Ok(value: T) | Err(error: Error)

  /** A move command such as {"right": 1}: a direction and a cell count. */
  datatype MoveCommand = MoveCommand(dir: Direction, cells: int)

  function Abs(v: int): nat { if v < 0 then -v else v }

  /** Manhattan distance between two positions. */
  function Manhattan(a: Pos, b: Pos): nat { Abs(a.x - b.x) + Abs(a.y - b.y) }

  predicate Adjacent(a: Pos, b: Pos) { Manhattan(a, b) == 1 }

  /** The key a direction has in the Python dictionaries. */
  function DirName(d: Direction): string
  {
    match d
    case Up => "up"
    case Down => "down"
    case Left => "left"
    case Right => "right"
  }

  /** Parses a dictionary key; anything but the four names is unknown. */
  function ParseDirection(s: string): (r: Option<Direction>)
    ensures r.Some? ==> DirName(r.value) == s
    ensures forall d :: DirName(d) == s ==> r == Some(d)
  {
    if s == "up" then Some(Up)
    else if s == "down" then Some(Down)
    else if s == "left" then Some(Left)
    else if s == "right" then Some(Right)
    else None
  }

  /** The position k cells from p in direction d ("up" decreases y). */
  function Shift(p: Pos, d: Direction, k: int): Pos
  {
    match d
    case Up => Pos(p.x, p.y - k)
    case Down => Pos(p.x, p.y + k)
    case Left => Pos(p.x - k, p.y)
    case Right => Pos(p.x + k, p.y)
  }

  /** The 4-neighbourhood in the planners' expansion order: right, left, down, up. */
  function Neighbors(p: Pos): seq<Pos>
  {
    [Pos(p.x + 1, p.y), Pos(p.x - 1, p.y), Pos(p.x, p.y + 1), Pos(p.x, p.y - 1)]
  }

  lemma NeighborsAreAdjacent(p: Pos, q: Pos)
    ensures q in Neighbors(p) <==> Adjacent(p, q)
  {
  }
}
