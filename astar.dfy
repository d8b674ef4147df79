/** The A* planner of mazellm/astar.py (_solve_path): a priority queue of cells keyed by
    g-score plus the Manhattan heuristic, a g-score map and a parent map, the path rebuilt from
    the parents. The queue is a sequence; a pop takes some item of least priority, whichever
    one the heap would give. */
module AStarPlanner {
  import opened Types
  import opened Grid
  import opened MazeModel
  import opened Planning

  /** _heuristic: the Manhattan distance between two cells. */
  function Heuristic(a: Pos, b: Pos): (h: nat)
    ensures h == 0 <==> a == b
    ensures h == Manhattan(b, a)
  {
    Abs(a.x - b.x) + Abs(a.y - b.y)
  }

  /** The heuristic never overestimates: every route from a to b has at least h steps. */
  lemma HeuristicAdmissible(g: Grid, r: seq<Pos>, a: Pos, b: Pos)
    requires g.Valid() && RouteFromTo(g, r, a, b)
    ensures Heuristic(a, b) <= |r| - 1
  {
    RouteManhattan(g, r, 0);
  }

  /** It is consistent: one step changes it by at most one. */
  lemma HeuristicConsistent(a: Pos, c: Pos, b: Pos)
    requires Adjacent(a, c)
    ensures Heuristic(a, b) <= 1 + Heuristic(c, b) && Heuristic(c, b) <= 1 + Heuristic(a, b)
  {
  }

  /** _PrioritizedItem: ordered by priority only. */
  datatype Item = Item(priority: int, pos: Pos)

  /** The queue with the item at index i taken out. */
  function Without(pq: seq<Item>, i: nat): (rest: seq<Item>)
    requires i < |pq|
    ensures |rest| == |pq| - 1 && multiset(rest) + multiset{pq[i]} == multiset(pq)
    ensures forall k :: 0 <= k < |rest| ==> rest[k] == (if k < i then pq[k] else pq[k + 1])
  {
    assert pq == pq[..i] + [pq[i]] + pq[i + 1..];
    pq[..i] + pq[i + 1..]
  }

  /** Some item has the least priority. */
  lemma {:induction false} HasMinimum(pq: seq<Item>) returns (i: nat)
    requires |pq| > 0
    ensures i < |pq| && forall k :: 0 <= k < |pq| ==> pq[i].priority <= pq[k].priority
  {
    if |pq| == 1 {
      i := 0;
    } else {
      var j := HasMinimum(pq[1..]);
      assert forall k :: 1 <= k < |pq| ==> pq[k] == pq[1..][k - 1];
      i := if pq[0].priority <= pq[j + 1].priority then 0 else j + 1;
    }
  }

  /** heappop: some item of least priority and the queue without it. */
  method PopMin(pq: seq<Item>) returns (item: Item, rest: seq<Item>)
    requires |pq| > 0
    ensures item in pq && forall k :: 0 <= k < |pq| ==> item.priority <= pq[k].priority
    ensures multiset(rest) + multiset{item} == multiset(pq) && |rest| == |pq| - 1
    ensures forall v :: v in rest ==> v in pq
    ensures forall v :: v in pq && v.pos != item.pos ==> v in rest
  {
    ghost var m := HasMinimum(pq);
    var i :| 0 <= i < |pq| && forall k :: 0 <= k < |pq| ==> pq[i].priority <= pq[k].priority;
    item, rest := pq[i], Without(pq, i);
    forall v | v in rest ensures v in pq {
      assert v in multiset(rest);
    }
    forall v | v in pq && v.pos != item.pos ensures v in rest {
      assert v in multiset(pq);
    }
  }

  // ---------------------------------------------------------------------
  // The search invariant
  // ---------------------------------------------------------------------

  /** v waits in the queue: some item for v has a priority no higher than its g-score plus heuristic. */
  ghost predicate IsOpen(pq: seq<Item>, gs: map<Pos, nat>, end: Pos, v: Pos)
    requires v in gs
  {
    exists i :: 0 <= i < |pq| && pq[i].pos == v && pq[i].priority <= gs[v] + Heuristic(v, end)
  }

  ghost function OpenSet(pq: seq<Item>, gs: map<Pos, nat>, end: Pos): set<Pos>
  {
    set v | v in gs && IsOpen(pq, gs, end, v)
  }

  /** Every item is for a scored cell and no lower than that cell's g-score. */
  ghost predicate ItemsBounded(pq: seq<Item>, gs: map<Pos, nat>)
  {
    forall i :: 0 <= i < |pq| ==> pq[i].pos in gs && pq[i].priority >= gs[pq[i].pos]
  }

  /** The loop invariant of _solve_path: the parents form a tree ranked by g-score, every g-score
      is below the number of scored cells, the items are bounded by the g-scores, and every scored
      cell is open or has had its neighbours scored at most one above it. */
  ghost predicate AStarInv(g: Grid, start: Pos, end: Pos, parent: map<Pos, Option<Pos>>, gs: map<Pos, nat>, pq: seq<Item>)
    requires g.Valid()
  {
    && ParentTree(g, start, parent, gs) && gs.Keys <= Universe(g, start)
    && (forall v :: v in gs ==> gs[v] < |gs|)
    && ItemsBounded(pq, gs)
    && (forall v :: v in gs ==> IsOpen(pq, gs, end, v) || Settled(g, gs, v))
  }

  lemma InvFrontier(g: Grid, start: Pos, end: Pos, parent: map<Pos, Option<Pos>>, gs: map<Pos, nat>, pq: seq<Item>)
    requires g.Valid() && AStarInv(g, start, end, parent, gs, pq)
    ensures Frontier(g, gs, OpenSet(pq, gs, end))
  {
  }

  /** When an item of least priority is for end, no route to end is shorter than its g-score. */
  lemma AtGoal(g: Grid, start: Pos, end: Pos, parent: map<Pos, Option<Pos>>, gs: map<Pos, nat>, pq: seq<Item>, item: Item)
    requires g.Valid() && AStarInv(g, start, end, parent, gs, pq)
    requires item in pq && item.pos == end && forall k :: 0 <= k < |pq| ==> item.priority <= pq[k].priority
    ensures end in gs && forall r :: RouteFromTo(g, r, start, end) ==> gs[end] <= |r| - 1
  {
    InvFrontier(g, start, end, parent, gs, pq);
    var m :| 0 <= m < |pq| && pq[m] == item;
    forall r | RouteFromTo(g, r, start, end) ensures gs[end] <= |r| - 1 {
      FrontierBound(g, gs, OpenSet(pq, gs, end), r, end, 0);
      if v :| v in OpenSet(pq, gs, end) && gs[v] + Manhattan(v, end) <= |r| - 1 {
        var k :| 0 <= k < |pq| && pq[k].pos == v && pq[k].priority <= gs[v] + Heuristic(v, end);
        assert item.priority <= pq[k].priority;
      }
    }
  }

  /** When the queue is empty, whatever is reachable is scored, no higher than a route's steps. */
  lemma Exhausted(g: Grid, start: Pos, end: Pos, parent: map<Pos, Option<Pos>>, gs: map<Pos, nat>)
    requires g.Valid() && AStarInv(g, start, end, parent, gs, [])
    ensures Reachable(g, start, end) ==> end in gs
    ensures end in gs ==> forall r :: RouteFromTo(g, r, start, end) ==> gs[end] <= |r| - 1
  {
    InvFrontier(g, start, end, parent, gs, []);
    assert OpenSet([], gs, end) == {};
    forall r | RouteFromTo(g, r, start, end) ensures end in gs && gs[end] <= |r| - 1 {
      FrontierBound(g, gs, {}, r, end, 0);
    }
  }

  // ---------------------------------------------------------------------
  // The expansion of one popped cell
  // ---------------------------------------------------------------------

  /** The invariant while the neighbours of c (g-score d) are relaxed, the first j of them done. */
  ghost predicate Relaxing(g: Grid, start: Pos, end: Pos, parent: map<Pos, Option<Pos>>, gs: map<Pos, nat>, pq: seq<Item>, c: Pos, d: nat, j: nat)
    requires g.Valid()
  {
    && ParentTree(g, start, parent, gs) && gs.Keys <= Universe(g, start)
    && (forall v :: v in gs ==> gs[v] < |gs|)
    && ItemsBounded(pq, gs)
    && c in gs && gs[c] == d
    && OpenOrSettled(g, end, gs, pq, c)
    && (forall k :: 0 <= k < j && k < 4 && g.Walkable(Neighbors(c)[k]) ==>
          Neighbors(c)[k] in gs && gs[Neighbors(c)[k]] <= d + 1)
  }

  /** g-scores only go down, and a cell whose g-score changed has parent c and g-score d + 1. */
  ghost predicate Relaxed(parent0: map<Pos, Option<Pos>>, gs0: map<Pos, nat>, parent: map<Pos, Option<Pos>>, gs: map<Pos, nat>, c: Pos, d: nat)
  {
    && gs0.Keys <= gs.Keys && parent.Keys == gs.Keys && parent0.Keys == gs0.Keys
    && (forall v :: v in gs0 ==> gs[v] <= gs0[v])
    && (forall v :: v in gs0 && gs[v] == gs0[v] ==> parent[v] == parent0[v])
    && (forall v :: v in gs && (v !in gs0 || gs[v] < gs0[v]) ==> parent[v] == Some(c) && gs[v] == d + 1)
  }

  /** Popping c from the queue starts its expansion. */
  lemma RelaxBegin(g: Grid, start: Pos, end: Pos, parent: map<Pos, Option<Pos>>, gs: map<Pos, nat>,
                   pq: seq<Item>, item: Item, rest: seq<Item>)
    requires g.Valid() && AStarInv(g, start, end, parent, gs, pq)
    requires item in pq && (forall v :: v in rest ==> v in pq) && (forall v :: v in pq && v.pos != item.pos ==> v in rest)
    ensures Relaxing(g, start, end, parent, gs, rest, item.pos, gs[item.pos], 0)
  {
    forall i | 0 <= i < |rest| ensures rest[i].pos in gs && rest[i].priority >= gs[rest[i].pos] {
      var k :| 0 <= k < |pq| && pq[k] == rest[i];
    }
    forall v | v in gs && v != item.pos && IsOpen(pq, gs, end, v) ensures IsOpen(rest, gs, end, v) {
      var k :| 0 <= k < |pq| && pq[k].pos == v && pq[k].priority <= gs[v] + Heuristic(v, end);
      var k' :| 0 <= k' < |rest| && rest[k'] == pq[k];
    }
  }

  /** A neighbour out of bounds, a barrier, or already scored no higher than d + 1 needs nothing. */
  lemma RelaxSkip(g: Grid, start: Pos, end: Pos, parent: map<Pos, Option<Pos>>, gs: map<Pos, nat>, pq: seq<Item>, c: Pos, d: nat, j: nat)
    requires g.Valid() && j < 4 && Relaxing(g, start, end, parent, gs, pq, c, d, j)
    requires !g.Walkable(Neighbors(c)[j]) || (Neighbors(c)[j] in gs && gs[Neighbors(c)[j]] <= d + 1)
    ensures Relaxing(g, start, end, parent, gs, pq, c, d, j + 1)
  {
  }

  /** Every scored cell but c is open or settled. */
  ghost predicate OpenOrSettled(g: Grid, end: Pos, gs: map<Pos, nat>, pq: seq<Item>, c: Pos)
    requires g.Valid()
  {
    forall v :: v in gs && v != c ==> IsOpen(pq, gs, end, v) || Settled(g, gs, v)
  }

  /** Lowering or adding nb's g-score to k and queueing it at k plus heuristic keeps every other
      scored cell (but c) open or settled. */
  lemma OpenOrSettledUpdate(g: Grid, end: Pos, gs: map<Pos, nat>, pq: seq<Item>, c: Pos, nb: Pos, k: nat)
    requires g.Valid() && (nb !in gs || k < gs[nb]) && OpenOrSettled(g, end, gs, pq, c)
    ensures OpenOrSettled(g, end, gs[nb := k], pq + [Item(k + Heuristic(nb, end), nb)], c)
  {
    var gs', pq' := gs[nb := k], pq + [Item(k + Heuristic(nb, end), nb)];
    forall v | v in gs' && v != c ensures IsOpen(pq', gs', end, v) || Settled(g, gs', v) {
      if v == nb {
        assert pq'[|pq|] == Item(gs'[v] + Heuristic(v, end), v);
      } else if IsOpen(pq, gs, end, v) {
        var i :| 0 <= i < |pq| && pq[i].pos == v && pq[i].priority <= gs[v] + Heuristic(v, end);
        assert pq'[i] == pq[i];
      } else {
        SettledGrow(g, gs, v, nb, k);
      }
    }
  }

  /** A walkable neighbour new or scored above t = d + 1 gets g-score t, parent c and a new item. */
  lemma RelaxUpdate(g: Grid, start: Pos, end: Pos, parent: map<Pos, Option<Pos>>, gs: map<Pos, nat>, pq: seq<Item>, c: Pos, d: nat, j: nat, nb: Pos, t: nat)
    requires g.Valid() && j < 4 && Relaxing(g, start, end, parent, gs, pq, c, d, j) && nb == Neighbors(c)[j]
    requires t == d + 1 && g.Walkable(nb) && (nb !in gs || t < gs[nb])
    ensures Relaxing(g, start, end, parent[nb := Some(c)], gs[nb := t], pq + [Item(t + Heuristic(nb, end), nb)], c, d, j + 1)
  {
    var gs' := gs[nb := t];
    var pq' := pq + [Item(t + Heuristic(nb, end), nb)];
    NeighborsAreAdjacent(c, nb);
    UniverseHolds(g, start, nb);
    ParentTreeAdd(g, start, parent, gs, c, nb, t);
    assert |gs'| == if nb in gs then |gs| else |gs| + 1;
    forall i | 0 <= i < |pq'| ensures pq'[i].pos in gs' && pq'[i].priority >= gs'[pq'[i].pos] {
      if i < |pq| { assert pq'[i] == pq[i]; }
    }
    OpenOrSettledUpdate(g, end, gs, pq, c, nb, t);
  }

  /** The same step seen from the maps before the loop: nb's g-score went down, with parent c. */
  lemma RelaxedUpdate(parent0: map<Pos, Option<Pos>>, gs0: map<Pos, nat>, parent: map<Pos, Option<Pos>>, gs: map<Pos, nat>, c: Pos, d: nat, nb: Pos, t: nat)
    requires Relaxed(parent0, gs0, parent, gs, c, d) && t == d + 1 && (nb !in gs || t < gs[nb])
    ensures Relaxed(parent0, gs0, parent[nb := Some(c)], gs[nb := t], c, d)
    ensures gs[nb := t] != gs0
  {
    assert gs[nb := t][nb] == t;
  }

  /** With all four neighbours relaxed, c is settled and the search invariant holds again. */
  lemma RelaxEnd(g: Grid, start: Pos, end: Pos, parent: map<Pos, Option<Pos>>, gs: map<Pos, nat>, pq: seq<Item>, c: Pos, d: nat)
    requires g.Valid() && Relaxing(g, start, end, parent, gs, pq, c, d, 4)
    ensures AStarInv(g, start, end, parent, gs, pq)
  {
    assert Settled(g, gs, c);
  }

  /** The state of the loop over the neighbours of c after the first j, against the maps and the
      queue it started from. */
  ghost predicate RelaxState(g: Grid, start: Pos, end: Pos, parent0: map<Pos, Option<Pos>>, gs0: map<Pos, nat>, pq0: seq<Item>,
                             parent: map<Pos, Option<Pos>>, gs: map<Pos, nat>, pq: seq<Item>, c: Pos, d: nat, j: nat)
    requires g.Valid()
  {
    && Relaxing(g, start, end, parent, gs, pq, c, d, j)
    && Relaxed(parent0, gs0, parent, gs, c, d)
    && (gs == gs0 ==> pq == pq0)
  }

  lemma StateSkip(g: Grid, start: Pos, end: Pos, parent0: map<Pos, Option<Pos>>, gs0: map<Pos, nat>, pq0: seq<Item>,
                  parent: map<Pos, Option<Pos>>, gs: map<Pos, nat>, pq: seq<Item>, c: Pos, d: nat, j: nat, nb: Pos)
    requires g.Valid() && j < 4 && RelaxState(g, start, end, parent0, gs0, pq0, parent, gs, pq, c, d, j) && nb == Neighbors(c)[j]
    requires !g.Walkable(nb) || (nb in gs && gs[nb] <= d + 1)
    ensures RelaxState(g, start, end, parent0, gs0, pq0, parent, gs, pq, c, d, j + 1)
  {
    RelaxSkip(g, start, end, parent, gs, pq, c, d, j);
  }

  lemma StateUpdate(g: Grid, start: Pos, end: Pos, parent0: map<Pos, Option<Pos>>, gs0: map<Pos, nat>, pq0: seq<Item>,
                    parent: map<Pos, Option<Pos>>, gs: map<Pos, nat>, pq: seq<Item>, c: Pos, d: nat, j: nat, nb: Pos, t: nat)
    requires g.Valid() && j < 4 && RelaxState(g, start, end, parent0, gs0, pq0, parent, gs, pq, c, d, j) && nb == Neighbors(c)[j]
    requires t == d + 1 && g.Walkable(nb) && (nb !in gs || t < gs[nb])
    ensures RelaxState(g, start, end, parent0, gs0, pq0, parent[nb := Some(c)], gs[nb := t], pq + [Item(t + Heuristic(nb, end), nb)], c, d, j + 1)
  {
    RelaxUpdate(g, start, end, parent, gs, pq, c, d, j, nb, t);
    RelaxedUpdate(parent0, gs0, parent, gs, c, d, nb, t);
  }

  /** One neighbour nb = Neighbors(c)[j]: skipped when out of bounds or a barrier; otherwise its
      g-score, parent and a queue item are set when it is new or d + 1 is lower than its g-score. */
  method RelaxOne(maze: Maze, ghost start: Pos, end: Pos, c: Pos, d: nat, ghost j: nat, nb: Pos,
                  ghost parent0: map<Pos, Option<Pos>>, ghost gs0: map<Pos, nat>, ghost pq0: seq<Item>,
                  parent: map<Pos, Option<Pos>>, gs: map<Pos, nat>, pq: seq<Item>)
    returns (parent': map<Pos, Option<Pos>>, gs': map<Pos, nat>, pq': seq<Item>)
    requires maze.Valid() && j < 4 && nb == Neighbors(c)[j]
    requires RelaxState(maze.Cells(), start, end, parent0, gs0, pq0, parent, gs, pq, c, d, j)
    ensures RelaxState(maze.Cells(), start, end, parent0, gs0, pq0, parent', gs', pq', c, d, j + 1)
  {
    ghost var g := maze.Cells();
    if !(0 <= nb.x < maze.n && 0 <= nb.y < maze.m) || maze.IsBarrier(nb.x, nb.y) {
      StateSkip(g, start, end, parent0, gs0, pq0, parent, gs, pq, c, d, j, nb);
      return parent, gs, pq;
    }
    var tentative := gs[c] + 1;
    if nb !in gs || tentative < gs[nb] {
      StateUpdate(g, start, end, parent0, gs0, pq0, parent, gs, pq, c, d, j, nb, tentative);
      gs' := gs[nb := tentative];
      parent' := parent[nb := Some(c)];
      pq' := pq + [Item(tentative + Heuristic(nb, end), nb)];
    } else {
      StateSkip(g, start, end, parent0, gs0, pq0, parent, gs, pq, c, d, j, nb);
      parent', gs', pq' := parent, gs, pq;
    }
  }

  /** The loop over the four neighbours of the popped cell c, at g-score d. */
  method RelaxNeighbours(maze: Maze, ghost start: Pos, end: Pos, c: Pos, d: nat,
                         parent0: map<Pos, Option<Pos>>, gs0: map<Pos, nat>, pq0: seq<Item>)
    returns (parent: map<Pos, Option<Pos>>, gs: map<Pos, nat>, pq: seq<Item>)
    requires maze.Valid() && Relaxing(maze.Cells(), start, end, parent0, gs0, pq0, c, d, 0)
    ensures Relaxing(maze.Cells(), start, end, parent, gs, pq, c, d, 4)
    ensures Relaxed(parent0, gs0, parent, gs, c, d)
    ensures gs == gs0 ==> pq == pq0
  {
    parent, gs, pq := parent0, gs0, pq0;
    for j := 0 to 4
      invariant RelaxState(maze.Cells(), start, end, parent0, gs0, pq0, parent, gs, pq, c, d, j)
    {
      parent, gs, pq := RelaxOne(maze, start, end, c, d, j, Neighbors(c)[j], parent0, gs0, pq0, parent, gs, pq);
    }
  }

  // ---------------------------------------------------------------------
  // Termination
  // ---------------------------------------------------------------------

  /** The (cell, value) pairs a g-score map can still go down through: a cell of u not scored
      yet, or a value below its g-score. Lowering or adding a g-score removes pairs. */
  ghost function Potential(u: set<Pos>, gs: map<Pos, nat>): set<(Pos, nat)>
  {
    set v, k | v in u && 0 <= k < |u| && (v !in gs || k < gs[v]) :: (v, k)
  }

  lemma PotentialShrinks(u: set<Pos>, gs0: map<Pos, nat>, gs: map<Pos, nat>)
    requires gs0.Keys <= gs.Keys <= u && (forall v :: v in gs0 ==> gs[v] <= gs0[v])
    requires (forall v :: v in gs ==> gs[v] < |u|) && gs != gs0
    ensures Potential(u, gs) < Potential(u, gs0)
  {
    var v: Pos;
    if gs.Keys == gs0.Keys {
      v :| v in gs0 && gs[v] < gs0[v];
    } else {
      v :| v in gs && v !in gs0;
    }
    assert (v, gs[v]) in Potential(u, gs0) - Potential(u, gs);
  }

  /** One round of the search loop lowers the potential unless it left every g-score as it was. */
  lemma Progress(g: Grid, start: Pos, end: Pos, parent0: map<Pos, Option<Pos>>, gs0: map<Pos, nat>,
                 parent: map<Pos, Option<Pos>>, gs: map<Pos, nat>, pq: seq<Item>, c: Pos, d: nat)
    requires g.Valid() && AStarInv(g, start, end, parent, gs, pq) && Relaxed(parent0, gs0, parent, gs, c, d)
    ensures gs != gs0 ==> Potential(Universe(g, start), gs) < Potential(Universe(g, start), gs0)
  {
    if gs != gs0 {
      SubsetCard(gs.Keys, Universe(g, start));
      PotentialShrinks(Universe(g, start), gs0, gs);
    }
  }

  /** _solve_path: a shortest route from start to end, or NoPath exactly when end is unreachable.
      The start cell itself is never checked, so it may be a wall. */
  method SolvePath(maze: Maze, start: Pos, end: Pos) returns (r: Result<seq<Pos>>)
    requires maze.Valid()
    ensures r.Ok? ==> Shortest(maze.Cells(), r.value, start, end)
    ensures r.Err? <==> !Reachable(maze.Cells(), start, end)
    ensures r.Err? ==> r.error == NoPath
    ensures start == end ==> r == Ok([start])
  {
    ghost var g := maze.Cells();
    var pq := [Item(0, start)];
    var parent := map[start := None];
    var gs := map[start := 0];
    ghost var U := Universe(g, start);
    ghost var broke := false;
    UniverseHolds(g, start, start);
    assert pq[0].pos == start && pq[0].priority <= gs[start] + Heuristic(start, end);
    while |pq| > 0
      invariant AStarInv(g, start, end, parent, gs, pq)
      decreases Potential(U, gs), |pq|
    {
      var item, rest := PopMin(pq);
      var current := item.pos;
      if current == end {
        AtGoal(g, start, end, parent, gs, pq, item);
        broke := true;
        break;
      }
      ghost var parent0, gs0 := parent, gs;
      RelaxBegin(g, start, end, parent, gs, pq, item, rest);
      parent, gs, pq := RelaxNeighbours(maze, start, end, current, gs[current], parent, gs, rest);
      RelaxEnd(g, start, end, parent, gs, pq, current, gs0[current]);
      Progress(g, start, end, parent0, gs0, parent, gs, pq, current, gs0[current]);
    }
    if !broke {
      Exhausted(g, start, end, parent, gs);
    }
    if end !in parent {
      return Err(NoPath);
    }
    var path := Reconstruct(g, parent, gs, start, end);
    if start == end {
      assert path == [path[0]];
    }
    return Ok(path);
  }
}
