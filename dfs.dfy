/** The depth-first planner of mazellm/dfs.py: a list used as a stack, a parent map filled
    when a cell is pushed, and the path rebuilt from it. The path is a route, not necessarily
    a shortest one. */
module DfsPlanner {
  import opened Types
  import opened Grid
  import opened MazeModel
  import opened Planning

  /** The cells of s, in order, that are walkable and not in keys. */
  ghost function Unseen(g: Grid, keys: set<Pos>, s: seq<Pos>): (r: seq<Pos>)
    requires g.Valid()
    ensures forall i :: 0 <= i < |r| ==> r[i] in s && g.Walkable(r[i]) && r[i] !in keys
    ensures forall v :: v in s && g.Walkable(v) && v !in keys ==> v in r
  {
    if |s| == 0 then []
    else (if g.Walkable(s[0]) && s[0] !in keys then [s[0]] else []) + Unseen(g, keys, s[1..])
  }

  lemma {:induction false} UnseenSnoc(g: Grid, keys: set<Pos>, s: seq<Pos>, v: Pos)
    requires g.Valid()
    ensures Unseen(g, keys, s + [v]) == Unseen(g, keys, s) + (if g.Walkable(v) && v !in keys then [v] else [])
    decreases |s|
  {
    if |s| > 0 {
      assert (s + [v])[1..] == s[1..] + [v];
      UnseenSnoc(g, keys, s[1..], v);
    } else {
      assert s + [v] == [v];
    }
  }

  ghost predicate InStack(stack: seq<Pos>, v: Pos)
  {
    v in stack
  }

  /** The loop invariant: the parent map is a tree ranked by depth, every cell on the stack is a
      key, and every key is on the stack or has had all its walkable neighbours keyed. */
  ghost predicate DfsInv(g: Grid, start: Pos, parent: map<Pos, Option<Pos>>, depth: map<Pos, nat>, stack: seq<Pos>)
    requires g.Valid()
  {
    && ParentTree(g, start, parent, depth)
    && parent.Keys <= Universe(g, start)
    && (forall i :: 0 <= i < |stack| ==> stack[i] in parent)
    && (forall v :: v in parent && !InStack(stack, v) ==> Expanded(g, parent.Keys, v))
  }

  /** The invariant while the neighbours of c are pushed, the first j of them done. */
  ghost predicate Pushing(g: Grid, start: Pos, parent: map<Pos, Option<Pos>>, depth: map<Pos, nat>, stack: seq<Pos>, c: Pos, j: nat)
    requires g.Valid()
  {
    && ParentTree(g, start, parent, depth)
    && parent.Keys <= Universe(g, start)
    && c in parent
    && (forall i :: 0 <= i < |stack| ==> stack[i] in parent)
    && (forall v :: v in parent && !InStack(stack, v) && v != c ==> Expanded(g, parent.Keys, v))
    && (forall k :: 0 <= k < j && k < 4 && g.Walkable(Neighbors(c)[k]) ==> Neighbors(c)[k] in parent)
  }

  /** The neighbours of a cell are four distinct cells. */
  lemma NeighborsDistinct(c: Pos, k: nat, j: nat)
    requires k < j < 4
    ensures Neighbors(c)[k] != Neighbors(c)[j]
  {
  }

  /** What the loop over the neighbours of c has done once it has pushed the cells added: they are
      on the stack in order, each with parent c, and no other entry has changed. */
  ghost predicate Pushed(parent0: map<Pos, Option<Pos>>, stack0: seq<Pos>,
                         parent: map<Pos, Option<Pos>>, stack: seq<Pos>, c: Pos, added: seq<Pos>)
  {
    && stack == stack0 + added
    && (forall v :: v in added ==> v in parent && parent[v] == Some(c))
    && parent.Keys == parent0.Keys + (set v | v in added)
    && (forall v :: v in parent0 ==> v in parent && parent[v] == parent0[v])
  }

  /** One more neighbour looked at: the unseen ones so far grow by it exactly when it is walkable
      and was not a key, and it is none of the earlier ones. */
  lemma UnseenStep(g: Grid, keys: set<Pos>, c: Pos, j: nat)
    requires g.Valid() && j < 4
    ensures var nb := Neighbors(c)[j];
      && Unseen(g, keys, Neighbors(c)[..j + 1]) == Unseen(g, keys, Neighbors(c)[..j]) + (if g.Walkable(nb) && nb !in keys then [nb] else [])
      && nb !in Unseen(g, keys, Neighbors(c)[..j])
  {
    var nb := Neighbors(c)[j];
    assert Neighbors(c)[..j + 1] == Neighbors(c)[..j] + [nb];
    UnseenSnoc(g, keys, Neighbors(c)[..j], nb);
    forall k | 0 <= k < j ensures Neighbors(c)[..j][k] != nb {
      NeighborsDistinct(c, k, j);
    }
  }

  /** A cell not pushed yet is a key now exactly when it was one before the loop. */
  lemma PushedKey(parent0: map<Pos, Option<Pos>>, stack0: seq<Pos>,
                  parent: map<Pos, Option<Pos>>, stack: seq<Pos>, c: Pos, added: seq<Pos>, nb: Pos)
    requires Pushed(parent0, stack0, parent, stack, c, added) && nb !in added
    ensures nb in parent <==> nb in parent0
  {
  }

  /** A new cell is given parent c and pushed. */
  lemma PushOne(parent0: map<Pos, Option<Pos>>, stack0: seq<Pos>,
                parent: map<Pos, Option<Pos>>, stack: seq<Pos>, c: Pos, added: seq<Pos>, nb: Pos)
    requires Pushed(parent0, stack0, parent, stack, c, added) && nb !in parent
    ensures Pushed(parent0, stack0, parent[nb := Some(c)], stack + [nb], c, added + [nb])
  {
    SetOfSnoc(added, nb);
  }

  /** The cells of a sequence with one more appended. */
  lemma SetOfSnoc<T>(s: seq<T>, x: T)
    ensures (set v | v in s + [x]) == (set v | v in s) + {x}
  {
  }

  /** Skipping the j-th neighbour keeps the expansion invariant of c. */
  lemma PushingSkip(g: Grid, start: Pos, parent: map<Pos, Option<Pos>>, depth: map<Pos, nat>, stack: seq<Pos>, c: Pos, j: nat)
    requires g.Valid() && j < 4 && Pushing(g, start, parent, depth, stack, c, j)
    requires !g.Walkable(Neighbors(c)[j]) || Neighbors(c)[j] in parent
    ensures Pushing(g, start, parent, depth, stack, c, j + 1)
  {
  }

  /** Keying and pushing a new walkable neighbour of c keeps the expansion invariant of c. */
  lemma PushingAdd(g: Grid, start: Pos, parent: map<Pos, Option<Pos>>, depth: map<Pos, nat>, stack: seq<Pos>, c: Pos, j: nat)
    requires g.Valid() && j < 4 && Pushing(g, start, parent, depth, stack, c, j)
    requires g.Walkable(Neighbors(c)[j]) && Neighbors(c)[j] !in parent
    ensures var nb := Neighbors(c)[j];
      Pushing(g, start, parent[nb := Some(c)], depth[nb := depth[c] + 1], stack + [nb], c, j + 1)
  {
    var nb := Neighbors(c)[j];
    NeighborsAreAdjacent(c, nb);
    UniverseHolds(g, start, nb);
    ParentTreeAdd(g, start, parent, depth, c, nb, depth[c] + 1);
    var parent' := parent[nb := Some(c)];
    var stack' := stack + [nb];
    forall i | 0 <= i < |stack'| ensures stack'[i] in parent' {
      if i < |stack| { assert stack'[i] == stack[i]; }
    }
    forall i | 0 <= i < |stack| ensures InStack(stack', stack[i]) {
      assert stack'[i] == stack[i];
    }
  }

  /** The loop over the four neighbours of the popped cell c: it pushes, in the order right, left,
      down, up, exactly the in-bounds non-barrier neighbours not seen yet, each with parent c. */
  method PushNeighbours(maze: Maze, ghost start: Pos, c: Pos,
                        parent0: map<Pos, Option<Pos>>, ghost depth0: map<Pos, nat>, stack0: seq<Pos>)
    returns (parent: map<Pos, Option<Pos>>, ghost depth: map<Pos, nat>, stack: seq<Pos>)
    requires maze.Valid() && Pushing(maze.Cells(), start, parent0, depth0, stack0, c, 0)
    ensures Pushing(maze.Cells(), start, parent, depth, stack, c, 4)
    ensures stack == stack0 + Unseen(maze.Cells(), parent0.Keys, Neighbors(c))
    ensures forall v :: v in Unseen(maze.Cells(), parent0.Keys, Neighbors(c)) ==> v in parent && parent[v] == Some(c)
    ensures parent.Keys == parent0.Keys + set v | v in Unseen(maze.Cells(), parent0.Keys, Neighbors(c))
    ensures forall v :: v in parent0 ==> v in parent && parent[v] == parent0[v]
    ensures parent.Keys == parent0.Keys ==> stack == stack0
  {
    ghost var g := maze.Cells();
    parent, depth, stack := parent0, depth0, stack0;
    assert Neighbors(c)[..0] == [];
    for j := 0 to 4
      invariant Pushing(g, start, parent, depth, stack, c, j)
      invariant Pushed(parent0, stack0, parent, stack, c, Unseen(g, parent0.Keys, Neighbors(c)[..j]))
    {
      var nb := Neighbors(c)[j];
      ghost var added := Unseen(g, parent0.Keys, Neighbors(c)[..j]);
      UnseenStep(g, parent0.Keys, c, j);
      PushedKey(parent0, stack0, parent, stack, c, added, nb);
      if !(0 <= nb.x < maze.n && 0 <= nb.y < maze.m) {
        PushingSkip(g, start, parent, depth, stack, c, j);
        continue;
      }
      if maze.IsBarrier(nb.x, nb.y) {
        PushingSkip(g, start, parent, depth, stack, c, j);
        continue;
      }
      if nb in parent {
        PushingSkip(g, start, parent, depth, stack, c, j);
        continue;
      }
      PushingAdd(g, start, parent, depth, stack, c, j);
      PushOne(parent0, stack0, parent, stack, c, added, nb);
      parent := parent[nb := Some(c)];
      depth := depth[nb := depth[c] + 1];
      stack := stack + [nb];
    }
    assert Neighbors(c)[..4] == Neighbors(c);
    ghost var added := Unseen(g, parent0.Keys, Neighbors(c));
    if |added| > 0 {
      assert added[0] in parent.Keys - parent0.Keys;
    }
  }

  /** Popping the top c of the stack starts its expansion. */
  lemma PopBegins(g: Grid, start: Pos, parent: map<Pos, Option<Pos>>, depth: map<Pos, nat>, stack: seq<Pos>)
    requires g.Valid() && DfsInv(g, start, parent, depth, stack) && |stack| > 0
    ensures Pushing(g, start, parent, depth, stack[..|stack| - 1], stack[|stack| - 1], 0)
  {
    var s' := stack[..|stack| - 1];
    forall i | 0 <= i < |s'| ensures InStack(stack, s'[i]) && InStack(s', s'[i]) {
      assert s'[i] == stack[i];
    }
    forall i | 0 <= i < |stack| - 1 ensures InStack(s', stack[i]) {
      assert s'[i] == stack[i];
    }
  }

  /** After all four neighbours, the popped cell is expanded and the invariant holds again. */
  lemma PushEnds(g: Grid, start: Pos, parent: map<Pos, Option<Pos>>, depth: map<Pos, nat>, stack: seq<Pos>, c: Pos)
    requires g.Valid() && Pushing(g, start, parent, depth, stack, c, 4)
    ensures DfsInv(g, start, parent, depth, stack)
  {
    assert Expanded(g, parent.Keys, c);
  }

  /** With the stack empty, the keys are closed, so every cell reachable from start is a key. */
  lemma ExhaustedIsClosed(g: Grid, start: Pos, parent: map<Pos, Option<Pos>>, depth: map<Pos, nat>, b: Pos)
    requires g.Valid() && DfsInv(g, start, parent, depth, [])
    ensures Reachable(g, start, b) ==> b in parent
  {
    if b !in parent {
      ClosedSeparates(g, parent.Keys, start, b);
    }
  }

  /** DFS.solve: a route from start to end, or NoPath exactly when end is unreachable. */
  method Solve(maze: Maze, start: Pos, end: Pos) returns (r: Result<seq<Pos>>)
    requires maze.Valid()
    ensures r.Ok? ==> RouteFromTo(maze.Cells(), r.value, start, end)
    ensures r.Err? <==> !Reachable(maze.Cells(), start, end)
    ensures r.Err? ==> r.error == NoPath
    ensures start == end ==> r == Ok([start])
  {
    ghost var g := maze.Cells();
    var stack := [start];
    var parent := map[start := None];
    ghost var depth := map[start := 0];
    ghost var U := Universe(g, start);
    ghost var broke := false;
    UniverseHolds(g, start, start);
    while |stack| > 0
      invariant DfsInv(g, start, parent, depth, stack)
      decreases U - parent.Keys, |stack|
    {
      var c := stack[|stack| - 1];
      if c == end {
        broke := true;
        break;
      }
      ghost var keys0, len0 := parent.Keys, |stack|;
      PopBegins(g, start, parent, depth, stack);
      parent, depth, stack := PushNeighbours(maze, start, c, parent, depth, stack[..|stack| - 1]);
      PushEnds(g, start, parent, depth, stack, c);
      if parent.Keys != keys0 {
        GrowShrinks(U, keys0, parent.Keys);
      } else {
        assert |stack| < len0;
      }
    }
    if !broke {
      ExhaustedIsClosed(g, start, parent, depth, end);
    }
    if end !in parent {
      return Err(NoPath);
    }
    var path := Reconstruct(g, parent, depth, start, end);
    if start == end {
      assert path == [path[0]];
    }
    return Ok(path);
  }
}
