/** The breadth-first planner of mazellm/bfs.py (and its copy _bfs_path in mazellm/main_bfs.py):
    a FIFO queue, a parent map filled when a cell is first seen, and the path rebuilt from it. */
module BfsPlanner {
  import opened Types
  import opened Grid
  import opened MazeModel
  import opened Planning

  /** The queue holds scored cells in nondecreasing order of depth. */
  ghost predicate QueueSorted(q: seq<Pos>, dist: map<Pos, nat>)
  {
    && (forall i :: 0 <= i < |q| ==> q[i] in dist)
    && (forall i, j :: 0 <= i <= j < |q| ==> dist[q[i]] <= dist[q[j]])
  }

  /** Every cell seen so far is at most one level deeper than the head of the queue. */
  ghost predicate Levels(q: seq<Pos>, dist: map<Pos, nat>)
    requires QueueSorted(q, dist)
  {
    |q| > 0 ==> forall v :: v in dist ==> dist[v] <= dist[q[0]] + 1
  }

  ghost function Elems(q: seq<Pos>): set<Pos>
  {
    set v | v in q
  }

  /** The loop invariant of the search: the parent map is a tree ranked by depth, the queue is
      ordered by depth, and every seen cell is queued or has had its neighbours seen. */
  ghost predicate BfsInv(g: Grid, start: Pos, parent: map<Pos, Option<Pos>>, dist: map<Pos, nat>, q: seq<Pos>)
    requires g.Valid()
  {
    && ParentTree(g, start, parent, dist)
    && QueueSorted(q, dist) && Levels(q, dist)
    && Frontier(g, dist, Elems(q))
    && parent.Keys <= Universe(g, start)
  }

  /** When the head of the queue is b, every route to b has at least dist[b] steps. */
  lemma HeadIsNearest(g: Grid, start: Pos, parent: map<Pos, Option<Pos>>, dist: map<Pos, nat>, q: seq<Pos>, b: Pos)
    requires g.Valid() && BfsInv(g, start, parent, dist, q) && |q| > 0 && q[0] == b
    ensures forall r :: RouteFromTo(g, r, start, b) ==> dist[b] <= |r| - 1
  {
    forall r | RouteFromTo(g, r, start, b) ensures dist[b] <= |r| - 1 {
      FrontierBound(g, dist, Elems(q), r, b, 0);
    }
  }

  /** When the queue is empty, whatever is reachable has been seen, at no more than a route's steps. */
  lemma ExhaustedIsClosed(g: Grid, start: Pos, parent: map<Pos, Option<Pos>>, dist: map<Pos, nat>, b: Pos)
    requires g.Valid() && BfsInv(g, start, parent, dist, [])
    ensures Reachable(g, start, b) ==> b in dist
    ensures b in dist ==> forall r :: RouteFromTo(g, r, start, b) ==> dist[b] <= |r| - 1
  {
    assert Elems([]) == {};
    forall r | RouteFromTo(g, r, start, b) ensures b in dist && dist[b] <= |r| - 1 {
      FrontierBound(g, dist, {}, r, b, 0);
    }
  }

  /** The invariant while the neighbours of c (at depth d) are examined, the first j of them done. */
  ghost predicate Expanding(g: Grid, start: Pos, parent: map<Pos, Option<Pos>>, dist: map<Pos, nat>, q: seq<Pos>, c: Pos, d: nat, j: nat)
    requires g.Valid()
  {
    && ParentTree(g, start, parent, dist) && parent.Keys <= Universe(g, start)
    && c in dist && dist[c] == d
    && QueueSorted(q, dist) && (forall i :: 0 <= i < |q| ==> d <= dist[q[i]] <= d + 1)
    && (forall v :: v in dist ==> dist[v] <= d + 1)
    && (forall v :: v in dist && v !in Elems(q) && v != c ==> Settled(g, dist, v))
    && (forall k :: 0 <= k < j && k < 4 && g.Walkable(Neighbors(c)[k]) ==>
          Neighbors(c)[k] in dist && dist[Neighbors(c)[k]] <= d + 1)
  }

  /** Popping the head c of the queue starts its expansion. */
  lemma ExpandBegin(g: Grid, start: Pos, parent: map<Pos, Option<Pos>>, dist: map<Pos, nat>, q: seq<Pos>)
    requires g.Valid() && BfsInv(g, start, parent, dist, q) && |q| > 0
    ensures Expanding(g, start, parent, dist, q[1..], q[0], dist[q[0]], 0)
  {
    forall i | 1 <= i < |q| ensures q[i] in Elems(q[1..]) {
      assert q[1..][i - 1] == q[i];
    }
  }

  /** A neighbour that is not walkable or already seen needs nothing. */
  lemma ExpandSkip(g: Grid, start: Pos, parent: map<Pos, Option<Pos>>, dist: map<Pos, nat>, q: seq<Pos>, c: Pos, d: nat, j: nat)
    requires g.Valid() && Expanding(g, start, parent, dist, q, c, d, j) && j < 4
    requires !g.Walkable(Neighbors(c)[j]) || Neighbors(c)[j] in parent
    ensures Expanding(g, start, parent, dist, q, c, d, j + 1)
  {
  }

  /** Seeing a new walkable neighbour: parent c, depth d + 1, appended to the queue. */
  lemma ExpandPush(g: Grid, start: Pos, parent: map<Pos, Option<Pos>>, dist: map<Pos, nat>, q: seq<Pos>, c: Pos, d: nat, j: nat)
    requires g.Valid() && Expanding(g, start, parent, dist, q, c, d, j) && j < 4
    requires g.Walkable(Neighbors(c)[j]) && Neighbors(c)[j] !in parent
    ensures var nb := Neighbors(c)[j];
      Expanding(g, start, parent[nb := Some(c)], dist[nb := d + 1], q + [nb], c, d, j + 1)
  {
    var nb := Neighbors(c)[j];
    var dist' := dist[nb := d + 1];
    var q' := q + [nb];
    NeighborsAreAdjacent(c, nb);
    UniverseHolds(g, start, nb);
    ParentTreeAdd(g, start, parent, dist, c, nb, d + 1);
    assert Elems(q') == Elems(q) + {nb};
    forall v | v in dist' && v !in Elems(q') && v != c ensures Settled(g, dist', v) {
      SettledGrow(g, dist, v, nb, d + 1);
    }
    forall i | 0 <= i < |q'| ensures q'[i] in dist' && d <= dist'[q'[i]] <= d + 1 {
      if i < |q| { assert q'[i] == q[i] && q[i] != nb; }
    }
    forall i, i' | 0 <= i <= i' < |q'| ensures dist'[q'[i]] <= dist'[q'[i']] {
      if i' < |q| { assert q'[i] == q[i] && q'[i'] == q[i'] && q[i] != nb && q[i'] != nb; }
      else if i < |q| { assert q'[i] == q[i] && q[i] != nb; }
    }
  }

  /** With all four neighbours examined, c is settled and the search invariant holds again. */
  lemma ExpandEnd(g: Grid, start: Pos, parent: map<Pos, Option<Pos>>, dist: map<Pos, nat>, q: seq<Pos>, c: Pos, d: nat)
    requires g.Valid() && Expanding(g, start, parent, dist, q, c, d, 4)
    ensures BfsInv(g, start, parent, dist, q)
  {
    assert Settled(g, dist, c);
  }

  /** The loop over the four neighbours of the popped cell c: each in-bounds, non-barrier cell not
      seen yet gets parent c and depth d + 1 and is appended to the queue. */
  method ExpandNeighbours(maze: Maze, ghost start: Pos, c: Pos, ghost d: nat,
                          parent0: map<Pos, Option<Pos>>, ghost dist0: map<Pos, nat>, q0: seq<Pos>)
    returns (parent: map<Pos, Option<Pos>>, ghost dist: map<Pos, nat>, q: seq<Pos>)
    requires maze.Valid() && Expanding(maze.Cells(), start, parent0, dist0, q0, c, d, 0)
    ensures Expanding(maze.Cells(), start, parent, dist, q, c, d, 4)
    ensures parent0.Keys <= parent.Keys && (parent.Keys == parent0.Keys ==> q == q0)
  {
    ghost var g := maze.Cells();
    parent, dist, q := parent0, dist0, q0;
    for j := 0 to 4
      invariant Expanding(g, start, parent, dist, q, c, d, j)
      invariant parent0.Keys <= parent.Keys && (parent.Keys == parent0.Keys ==> q == q0)
    {
      var nb := Neighbors(c)[j];
      if !(0 <= nb.x < maze.n && 0 <= nb.y < maze.m) {
        ExpandSkip(g, start, parent, dist, q, c, d, j);
        continue;
      }
      if maze.IsBarrier(nb.x, nb.y) {
        ExpandSkip(g, start, parent, dist, q, c, d, j);
        continue;
      }
      if nb in parent {
        ExpandSkip(g, start, parent, dist, q, c, d, j);
        continue;
      }
      ExpandPush(g, start, parent, dist, q, c, d, j);
      parent := parent[nb := Some(c)];
      dist := dist[nb := d + 1];
      q := q + [nb];
    }
  }

  /** BFS.solve: a shortest route from start to end, or NoPath exactly when end is unreachable.
      The start cell itself is never checked, so it may be a wall. */
  method Solve(maze: Maze, start: Pos, end: Pos) returns (r: Result<seq<Pos>>)
    requires maze.Valid()
    ensures r.Ok? ==> Shortest(maze.Cells(), r.value, start, end)
    ensures r.Err? <==> !Reachable(maze.Cells(), start, end)
    ensures r.Err? ==> r.error == NoPath
    ensures start == end ==> r == Ok([start])
  {
    ghost var g := maze.Cells();
    var q := [start];
    var parent := map[start := None];
    ghost var dist := map[start := 0];
    ghost var U := Universe(g, start);
    ghost var broke := false;
    UniverseHolds(g, start, start);
    assert Elems(q) == {start};
    while |q| > 0
      invariant BfsInv(g, start, parent, dist, q)
      decreases U - parent.Keys, |q|
    {
      var c := q[0];
      if c == end {
        HeadIsNearest(g, start, parent, dist, q, end);
        broke := true;
        break;
      }
      ghost var d := dist[c];
      ghost var keys0, len0 := parent.Keys, |q|;
      ExpandBegin(g, start, parent, dist, q);
      parent, dist, q := ExpandNeighbours(maze, start, c, d, parent, dist, q[1..]);
      ExpandEnd(g, start, parent, dist, q, c, d);
      if parent.Keys != keys0 {
        GrowShrinks(U, keys0, parent.Keys);
      } else {
        assert |q| < len0;
      }
    }
    if !broke {
      ExhaustedIsClosed(g, start, parent, dist, end);
    }
    if end !in parent {
      return Err(NoPath);
    }
    var path := Reconstruct(g, parent, dist, start, end);
    if start == end {
      assert path == [path[0]];
    }
    return Ok(path);
  }
}
