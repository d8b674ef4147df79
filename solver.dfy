/** The solver interface of mazellm/solver.py: what one tick reports, and the base solver's
    name and set of visited cells. */
module SolverBase {
  import opened Types

  /** A cell as the visited set keys it: (row, column), that is (y, x). */
  type RowCol = (int, int)

  /** The messages a tick reports; NoMessage is the default empty message. */
  datatype Message =
    | NoMessage
    | AlreadyAtGoal
    | OffPath
    | ReachedEnd
    | MoveFailed(command: MoveCommand)
    | Moved(command: MoveCommand, to: Pos)

  datatype StepResult = StepResult(didMove: bool, done: bool, message: Message,
                                   visitedAddedRc: seq<RowCol>, newPosition: Option<Pos>)

  /** StepResult(...): a list of added cells left out (None) becomes the empty list, which is
      what __post_init__ does. */
  function MakeStepResult(didMove: bool, done: bool, message: Message,
                          visitedAddedRc: Option<seq<RowCol>>, newPosition: Option<Pos>): (r: StepResult)
    ensures r.didMove == didMove && r.done == done && r.message == message && r.newPosition == newPosition
    ensures visitedAddedRc.None? ==> r.visitedAddedRc == []
    ensures visitedAddedRc.Some? ==> r.visitedAddedRc == visitedAddedRc.value
  {
    StepResult(didMove, done, message, if visitedAddedRc.Some? then visitedAddedRc.value else [], newPosition)
  }

  /** StepResult(did_move, done, message) with the other two fields at their defaults. */
  function Plain(didMove: bool, done: bool, message: Message): (r: StepResult)
    ensures r.didMove == didMove && r.done == done && r.message == message
    ensures r.visitedAddedRc == [] && r.newPosition == None
  {
    MakeStepResult(didMove, done, message, None, None)
  }

  /** StepResult(did_move, done): message, visited_added_rc and new_position all at their
      defaults, that is "", [] and None. */
  function Defaulted(didMove: bool, done: bool): (r: StepResult)
    ensures r.didMove == didMove && r.done == done
    ensures r.message == NoMessage && r.visitedAddedRc == [] && r.newPosition == None
  {
    Plain(didMove, done, NoMessage)
  }

  /** The base solver: a name fixed at construction and the cells visited so far. */
  class Solver {
    const name: string
    var visited: set<RowCol>

    constructor (name: string)
      ensures this.name == name && visited == {}
    {
      this.name := name;
      visited := {};
    }

    /** reset: visited is emptied; the name is a constant, so nothing else can change. */
    method Reset()
      modifies this
      ensures visited == {}
    {
      visited := {};
    }
  }
}
