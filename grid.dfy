/** The board as a value: bounds, barrier and walkability queries, routes,
    reachability and the breadth-first balls used to speak of shortest routes. */
module Grid {
  import opened Types

  /** A board of m rows and n columns, read as cells[y][x]. */
  datatype Grid = Grid(n: nat, m: nat, cells: seq<seq<Cell>>) {

    ghost predicate Valid()
    {
      |cells| == m && forall y :: 0 <= y < m ==> |cells[y]| == n
    }

    predicate InBounds(p: Pos)
    {
      0 <= p.x < n && 0 <= p.y < m
    }

    function At(p: Pos): Cell
      requires Valid() && InBounds(p)
    {
      cells[p.y][p.x]
    }

    /** Out-of-bounds coordinates are barriers; in bounds, exactly the walls are. */
    predicate IsBarrier(x: int, y: int)
      requires Valid()
    {
      if InBounds(Pos(x, y)) then cells[y][x] == Wall else true
    }

    /** In bounds and not a barrier: free, start and end cells are all walkable. */
    predicate Walkable(p: Pos)
      requires Valid()
    {
      InBounds(p) && !IsBarrier(p.x, p.y)
    }
  }

  /** The board with one cell overwritten. */
  function Update(g: Grid, p: Pos, v: Cell): (h: Grid)
    requires g.Valid() && g.InBounds(p)
    ensures h.Valid() && h.n == g.n && h.m == g.m && h.At(p) == v
    ensures forall q :: h.InBounds(q) && q != p ==> h.At(q) == g.At(q)
  {
    Grid(g.n, g.m, g.cells[p.y := g.cells[p.y][p.x := v]])
  }

  /** A board of m rows and n columns with every cell a wall. */
  function AllWalls(n: nat, m: nat): (g: Grid)
    ensures g.Valid() && g.n == n && g.m == m
    ensures forall q :: g.InBounds(q) ==> g.At(q) == Wall
  {
    Grid(n, m, seq(m, _ => seq(n, _ => Wall)))
  }

  /** Writing a walkable value keeps every walkable cell walkable and makes only that cell newly walkable. */
  lemma UpdateWalkable(g: Grid, p: Pos, v: Cell)
    requires g.Valid() && g.InBounds(p) && v != Wall
    ensures forall q :: g.Walkable(q) ==> Update(g, p, v).Walkable(q)
    ensures forall q :: Update(g, p, v).Walkable(q) ==> g.Walkable(q) || q == p
  {
    var h := Update(g, p, v);
    forall q | g.Walkable(q) ensures h.Walkable(q) {
      if q != p { assert h.At(q) == g.At(q); }
    }
    forall q | h.Walkable(q) && q != p ensures g.Walkable(q) {
      assert h.At(q) == g.At(q);
    }
  }

  /** The contents of a two-dimensional array, row index first. */
  function View(a: array2<Cell>): (g: Grid)
    reads a
    ensures g.Valid() && g.n == a.Length1 && g.m == a.Length0
    ensures forall y, x :: 0 <= y < a.Length0 && 0 <= x < a.Length1 ==> g.cells[y][x] == a[y, x]
  {
    Grid(a.Length1, a.Length0,
         seq(a.Length0, y requires 0 <= y < a.Length0 reads a =>
           seq(a.Length1, x requires 0 <= x < a.Length1 reads a => a[y, x])))
  }

  /** Two boards of the same shape that agree on every cell are equal. */
  lemma GridExt(g: Grid, h: Grid)
    requires g.Valid() && h.Valid() && g.n == h.n && g.m == h.m
    requires forall q :: g.InBounds(q) ==> g.At(q) == h.At(q)
    ensures g == h
  {
    forall y | 0 <= y < g.m
      ensures g.cells[y] == h.cells[y]
    {
      forall x | 0 <= x < g.n
        ensures g.cells[y][x] == h.cells[y][x]
      {
        assert g.At(Pos(x, y)) == h.At(Pos(x, y));
      }
    }
  }

  // ---------------------------------------------------------------------
  // Routes and reachability
  // ---------------------------------------------------------------------

  /** A route: consecutive cells are 4-adjacent and every cell after the first is walkable. */
  ghost predicate IsRoute(g: Grid, r: seq<Pos>)
    requires g.Valid()
  {
    && |r| > 0
    && (forall i :: 0 < i < |r| ==> g.Walkable(r[i]))
    && (forall i :: 0 < i < |r| ==> Adjacent(r[i - 1], r[i]))
  }

  ghost predicate RouteFromTo(g: Grid, r: seq<Pos>, a: Pos, b: Pos)
    requires g.Valid()
  {
    IsRoute(g, r) && r[0] == a && r[|r| - 1] == b
  }

  ghost predicate Reachable(g: Grid, a: Pos, b: Pos)
    requires g.Valid()
  {
    exists r :: RouteFromTo(g, r, a, b)
  }

  /** Extending a route by a walkable neighbour of its last cell gives a route. */
  lemma RouteSnoc(g: Grid, r: seq<Pos>, q: Pos)
    requires g.Valid() && IsRoute(g, r) && g.Walkable(q) && Adjacent(r[|r| - 1], q)
    ensures IsRoute(g, r + [q])
  {
    var s := r + [q];
    forall i | 0 < i < |s|
      ensures g.Walkable(s[i]) && Adjacent(s[i - 1], s[i])
    {
      if i < |r| {
        assert s[i] == r[i] && s[i - 1] == r[i - 1];
      }
    }
  }

  /** Boards with the same walkable cells have the same routes. */
  lemma SameRoutes(g: Grid, h: Grid, r: seq<Pos>)
    requires g.Valid() && h.Valid()
    requires forall q :: g.Walkable(q) ==> h.Walkable(q)
    requires IsRoute(g, r)
    ensures IsRoute(h, r)
  {
  }

  /** The sequence read backwards (Python's list.reverse). */
  function Reversed<T>(s: seq<T>): (r: seq<T>)
    ensures |r| == |s| && forall i :: 0 <= i < |s| ==> r[i] == s[|s| - 1 - i]
  {
    seq(|s|, i requires 0 <= i < |s| => s[|s| - 1 - i])
  }

  /** A route walked backwards is a route, provided its first cell is walkable. */
  lemma RouteReverse(g: Grid, r: seq<Pos>, a: Pos, b: Pos)
    requires g.Valid() && RouteFromTo(g, r, a, b) && g.Walkable(a)
    ensures RouteFromTo(g, Reversed(r), b, a)
  {
    var v := Reversed(r);
    forall i | 0 < i < |v| ensures g.Walkable(v[i]) && Adjacent(v[i - 1], v[i]) {
      assert v[i] == r[|r| - 1 - i] && v[i - 1] == r[|r| - i];
    }
  }

  /** Reachability survives making more cells walkable. */
  lemma ReachMono(g: Grid, h: Grid, a: Pos, b: Pos)
    requires g.Valid() && h.Valid() && forall q :: g.Walkable(q) ==> h.Walkable(q)
    requires Reachable(g, a, b)
    ensures Reachable(h, a, b)
  {
    var r :| RouteFromTo(g, r, a, b);
    SameRoutes(g, h, r);
    assert RouteFromTo(h, r, a, b);
  }

  // ---------------------------------------------------------------------
  // Closed sets: a set that contains every walkable neighbour of its members
  // ---------------------------------------------------------------------

  /** Every walkable neighbour of c is in keys. */
  ghost predicate Expanded(g: Grid, keys: set<Pos>, c: Pos)
    requires g.Valid()
  {
    forall j :: 0 <= j < 4 && g.Walkable(Neighbors(c)[j]) ==> Neighbors(c)[j] in keys
  }

  lemma AdjacentIsNeighbor(p: Pos, q: Pos) returns (j: nat)
    requires Adjacent(p, q)
    ensures j < 4 && Neighbors(p)[j] == q
  {
    if q.x == p.x + 1 { j := 0; }
    else if q.x == p.x - 1 { j := 1; }
    else if q.y == p.y + 1 { j := 2; }
    else { j := 3; }
  }

  /** A route that starts inside a closed set never leaves it. */
  lemma {:induction false} ClosedHoldsRoute(g: Grid, keys: set<Pos>, r: seq<Pos>)
    requires g.Valid() && IsRoute(g, r) && r[0] in keys
    requires forall c :: c in keys ==> Expanded(g, keys, c)
    ensures forall i :: 0 <= i < |r| ==> r[i] in keys
  {
    if |r| > 1 {
      var r' := r[..|r| - 1];
      assert IsRoute(g, r') by {
        forall i | 0 < i < |r'| ensures g.Walkable(r'[i]) && Adjacent(r'[i - 1], r'[i]) {
          assert r'[i] == r[i] && r'[i - 1] == r[i - 1];
        }
      }
      ClosedHoldsRoute(g, keys, r');
      var last := r[|r| - 2];
      assert last == r'[|r'| - 1];
      var j := AdjacentIsNeighbor(last, r[|r| - 1]);
      assert Expanded(g, keys, last);
      forall i | 0 <= i < |r| ensures r[i] in keys {
        if i < |r| - 1 { assert r[i] == r'[i]; }
      }
    }
  }

  /** So a closed set that holds a but not b means b is unreachable from a. */
  lemma ClosedSeparates(g: Grid, keys: set<Pos>, a: Pos, b: Pos)
    requires g.Valid() && a in keys && b !in keys
    requires forall c :: c in keys ==> Expanded(g, keys, c)
    ensures !Reachable(g, a, b)
  {
    if Reachable(g, a, b) {
      var r :| RouteFromTo(g, r, a, b);
      ClosedHoldsRoute(g, keys, r);
    }
  }

  // ---------------------------------------------------------------------
  // Balls: the cells within k steps of s
  // ---------------------------------------------------------------------

  ghost function Expand(g: Grid, s: set<Pos>): set<Pos>
    requires g.Valid()
  {
    s + set c <- s, q <- Neighbors(c) | g.Walkable(q) :: q
  }

  ghost function Ball(g: Grid, s: Pos, k: nat): set<Pos>
    requires g.Valid()
  {
    if k == 0 then {s} else Expand(g, Ball(g, s, k - 1))
  }

  lemma ExpandGrows(g: Grid, s: set<Pos>)
    requires g.Valid()
    ensures s <= Expand(g, s)
  {
  }

  lemma {:induction false} BallMono(g: Grid, s: Pos, j: nat, k: nat)
    requires g.Valid() && j <= k
    ensures Ball(g, s, j) <= Ball(g, s, k)
  {
    if j < k {
      BallMono(g, s, j, k - 1);
      ExpandGrows(g, Ball(g, s, k - 1));
    }
  }

  /** The last cell of a route of |r| cells from s lies within |r| - 1 steps of s. */
  lemma {:induction false} RouteInBall(g: Grid, r: seq<Pos>, s: Pos)
    requires g.Valid() && IsRoute(g, r) && r[0] == s
    ensures r[|r| - 1] in Ball(g, s, |r| - 1)
  {
    if |r| > 1 {
      var r' := r[..|r| - 1];
      assert IsRoute(g, r') by {
        forall i | 0 < i < |r'| ensures g.Walkable(r'[i]) && Adjacent(r'[i - 1], r'[i]) {
          assert r'[i] == r[i] && r'[i - 1] == r[i - 1];
        }
      }
      RouteInBall(g, r', s);
      var c := r[|r| - 2];
      assert c == r'[|r'| - 1];
      var j := AdjacentIsNeighbor(c, r[|r| - 1]);
      assert r[|r| - 1] in Neighbors(c);
    }
  }

  /** Every cell of a ball other than its centre is walkable. */
  lemma {:induction false} BallWalkable(g: Grid, s: Pos, k: nat, q: Pos)
    requires g.Valid() && q in Ball(g, s, k) && q != s
    ensures g.Walkable(q)
  {
    if k > 0 {
      if q !in Ball(g, s, k - 1) {
        var c, j :| c in Ball(g, s, k - 1) && 0 <= j < 4 && Neighbors(c)[j] == q && g.Walkable(q);
      } else {
        BallWalkable(g, s, k - 1, q);
      }
    }
  }
}
