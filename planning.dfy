/** What the three path planners share: the parent map they fill, rebuilding a path from it,
    and the frontier argument that makes a breadth-first or A* search return a shortest path. */
module Planning {
  import opened Types
  import opened Grid

  /** A route no other route from a to b is shorter than. */
  ghost predicate Shortest(g: Grid, r: seq<Pos>, a: Pos, b: Pos)
    requires g.Valid()
  {
    RouteFromTo(g, r, a, b) && forall r' :: RouteFromTo(g, r', a, b) ==> |r| <= |r'|
  }

  /** Two shortest routes between the same cells have the same length. */
  lemma ShortestSameLength(g: Grid, r: seq<Pos>, r': seq<Pos>, a: Pos, b: Pos)
    requires g.Valid() && Shortest(g, r, a, b) && Shortest(g, r', a, b)
    ensures |r| == |r'|
  {
  }

  /** Any route is at least as long as a shortest one, so a depth-first path is never shorter
      than the breadth-first path between the same cells. */
  lemma RouteNotShorter(g: Grid, r: seq<Pos>, r': seq<Pos>, a: Pos, b: Pos)
    requires g.Valid() && Shortest(g, r, a, b) && RouteFromTo(g, r', a, b)
    ensures |r| <= |r'|
  {
  }

  /** The parent map of a search from start: start has no parent; every other key is walkable,
      next to its parent and ranked above it (rank is the BFS depth, the DFS depth or the A* g-score). */
  ghost predicate ParentTree(g: Grid, start: Pos, parent: map<Pos, Option<Pos>>, rank: map<Pos, nat>)
    requires g.Valid()
  {
    && start in parent && parent[start] == None && rank.Keys == parent.Keys && rank[start] == 0
    && forall v {:trigger ParentLink(g, parent, rank, v)} :: v in parent && v != start ==> ParentLink(g, parent, rank, v)
  }

  /** The key v has a parent key, next to it and ranked below it, and v is walkable. (The tree's
      quantifier fires only on this predicate, so following parents does not unfold it endlessly.) */
  ghost predicate ParentLink(g: Grid, parent: map<Pos, Option<Pos>>, rank: map<Pos, nat>, v: Pos)
    requires g.Valid()
  {
    && v in parent && v in rank && parent[v].Some? && parent[v].value in parent && parent[v].value in rank
    && Adjacent(parent[v].value, v) && g.Walkable(v) && rank[parent[v].value] < rank[v]
  }

  /** The parent map of a search: the start with no parent. */
  lemma ParentTreeInit(g: Grid, start: Pos)
    requires g.Valid()
    ensures ParentTree(g, start, map[start := None], map[start := 0])
  {
  }

  /** Giving nb the parent c and a rank above c's keeps the map a tree, when nb is new or its
      rank goes down. */
  lemma ParentTreeAdd(g: Grid, start: Pos, parent: map<Pos, Option<Pos>>, rank: map<Pos, nat>, c: Pos, nb: Pos, k: nat)
    requires g.Valid() && ParentTree(g, start, parent, rank)
    requires c in parent && Adjacent(c, nb) && g.Walkable(nb) && rank[c] < k
    requires nb !in parent || k < rank[nb]
    ensures ParentTree(g, start, parent[nb := Some(c)], rank[nb := k])
  {
    var parent', rank' := parent[nb := Some(c)], rank[nb := k];
    forall v | v in parent' && v != start ensures ParentLink(g, parent', rank', v) {
      if v != nb {
        assert ParentLink(g, parent, rank, v);
        var p := parent[v].value;
        if p != nb {
          assert rank'[p] == rank[p];
        }
      } else if c != start {
        assert ParentLink(g, parent, rank, c);
      }
    }
  }

  /** The cells a chain of parents visits from its first cell back: back[i] has parent back[i + 1]. */
  ghost predicate ParentChain(parent: map<Pos, Option<Pos>>, back: seq<Pos>)
  {
    && (forall i :: 0 <= i < |back| ==> back[i] in parent)
    && (forall i :: 0 < i < |back| ==> parent[back[i - 1]] == Some(back[i]))
  }

  /** A chain that ends at a cell with no parent, read backwards, is a route from start. */
  lemma ChainRoute(g: Grid, start: Pos, parent: map<Pos, Option<Pos>>, rank: map<Pos, nat>, back: seq<Pos>)
    requires g.Valid() && ParentTree(g, start, parent, rank)
    requires |back| > 0 && ParentChain(parent, back) && parent[back[|back| - 1]] == None
    ensures RouteFromTo(g, Reversed(back), start, back[0])
  {
    var v := Reversed(back);
    assert back[|back| - 1] != start ==> ParentLink(g, parent, rank, back[|back| - 1]);
    forall i | 0 < i < |v| ensures g.Walkable(v[i]) && Adjacent(v[i - 1], v[i]) {
      var k := |back| - i;
      assert v[i] == back[k - 1] && v[i - 1] == back[k];
      assert parent[back[k - 1]] == Some(back[k]);
      assert back[k - 1] != start && ParentLink(g, parent, rank, back[k - 1]);
    }
  }

  /** The path rebuilt from end by following parents, reversed: a route from start to end with
      at most rank[end] steps. */
  method Reconstruct(ghost g: Grid, parent: map<Pos, Option<Pos>>, ghost rank: map<Pos, nat>, start: Pos, end: Pos)
    returns (path: seq<Pos>)
    requires g.Valid() && ParentTree(g, start, parent, rank) && end in parent
    ensures RouteFromTo(g, path, start, end) && |path| <= rank[end] + 1
  {
    var back: seq<Pos> := [];
    var cur: Option<Pos> := Some(end);
    while cur.Some?
      invariant cur.Some? ==> cur.value in parent
      invariant |back| == 0 ==> cur == Some(end)
      invariant ParentChain(parent, back)
      invariant |back| > 0 ==> back[0] == end && parent[back[|back| - 1]] == cur
      invariant cur.Some? ==> rank[cur.value] + |back| <= rank[end]
      invariant cur.None? ==> |back| <= rank[end] + 1
      decreases if cur.Some? then rank[cur.value] + 1 else 0
    {
      if cur.value != start {
        assert ParentLink(g, parent, rank, cur.value);
      }
      back := back + [cur.value];
      cur := parent[cur.value];
    }
    path := Reversed(back);
    ChainRoute(g, start, parent, rank, back);
  }

  // ---------------------------------------------------------------------
  // The frontier argument
  // ---------------------------------------------------------------------

  /** v has been expanded at its current score: each walkable neighbour has a score at most one more. */
  ghost predicate Settled(g: Grid, score: map<Pos, nat>, v: Pos)
    requires g.Valid() && v in score
  {
    forall j :: 0 <= j < 4 && g.Walkable(Neighbors(v)[j]) ==>
      Neighbors(v)[j] in score && score[Neighbors(v)[j]] <= score[v] + 1
  }

  /** Scoring another cell, new or lowered, keeps a settled cell settled. */
  lemma SettledGrow(g: Grid, score: map<Pos, nat>, v: Pos, nb: Pos, k: nat)
    requires g.Valid() && v in score && v != nb && Settled(g, score, v)
    requires nb !in score || k <= score[nb]
    ensures Settled(g, score[nb := k], v)
  {
    forall j | 0 <= j < 4 && g.Walkable(Neighbors(v)[j])
      ensures Neighbors(v)[j] in score[nb := k] && score[nb := k][Neighbors(v)[j]] <= score[v] + 1
    {
      assert Neighbors(v)[j] in score;
    }
  }

  /** Every scored cell is still open (waiting to be expanded at its score) or settled. */
  ghost predicate Frontier(g: Grid, score: map<Pos, nat>, open: set<Pos>)
    requires g.Valid()
  {
    open <= score.Keys && forall v :: v in score && v !in open ==> Settled(g, score, v)
  }

  /** Along a route, the Manhattan distance to the last cell is at most the number of steps left. */
  lemma {:induction false} RouteManhattan(g: Grid, r: seq<Pos>, i: nat)
    requires g.Valid() && IsRoute(g, r) && i < |r|
    ensures Manhattan(r[i], r[|r| - 1]) <= |r| - 1 - i
    decreases |r| - i
  {
    if i < |r| - 1 {
      RouteManhattan(g, r, i + 1);
      assert Adjacent(r[i], r[i + 1]);
    }
  }

  /** Given any route r to b whose i-th cell is scored at most i, either some open cell's score plus
      its Manhattan distance to b is at most the route's steps, or b is scored at most that. */
  lemma {:induction false} FrontierBound(g: Grid, score: map<Pos, nat>, open: set<Pos>, r: seq<Pos>, b: Pos, i: nat)
    requires g.Valid() && Frontier(g, score, open) && IsRoute(g, r) && r[|r| - 1] == b && i < |r|
    requires r[i] in score && score[r[i]] <= i
    ensures (exists v :: v in open && score[v] + Manhattan(v, b) <= |r| - 1) || (b in score && score[b] <= |r| - 1)
    decreases |r| - i
  {
    if r[i] in open {
      RouteManhattan(g, r, i);
    } else if i < |r| - 1 {
      var j := AdjacentIsNeighbor(r[i], r[i + 1]);
      assert Settled(g, score, r[i]);
      FrontierBound(g, score, open, r, b, i + 1);
    }
  }

  // ---------------------------------------------------------------------
  // Termination
  // ---------------------------------------------------------------------

  /** The cells a search from start can ever key: the board's cells and start itself. */
  ghost function Universe(g: Grid, start: Pos): set<Pos>
    requires g.Valid()
  {
    (set x, y | 0 <= x < g.n && 0 <= y < g.m :: Pos(x, y)) + {start}
  }

  lemma UniverseHolds(g: Grid, start: Pos, p: Pos)
    requires g.Valid() && (g.InBounds(p) || p == start)
    ensures p in Universe(g, start)
  {
    if p != start {
      assert p == Pos(p.x, p.y);
    }
  }

  /** Keying more cells of the universe leaves strictly fewer unkeyed. */
  lemma GrowShrinks<T>(u: set<T>, a: set<T>, b: set<T>)
    requires a <= b <= u && a != b
    ensures u - b < u - a
  {
    var e :| e in b && e !in a;
    assert e in u - a;
  }

  /** A subset is no larger. */
  lemma {:induction false} SubsetCard<T>(a: set<T>, b: set<T>)
    requires a <= b
    ensures |a| <= |b|
    decreases a
  {
    if a != {} {
      var e :| e in a;
      SubsetCard(a - {e}, b - {e});
    }
  }
}
