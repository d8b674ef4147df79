/** The maze of mazellm/maze.py: a board of m rows and n columns held in a two-dimensional
    array indexed board[y, x], generated in place by recursive backtracking from (0, 0). */
module MazeModel {
  import opened Types
  import opened Grid
  import opened Carving

  /** The jump list of generate_maze, in its (dx, dy) order before shuffling. */
  const MazeBase: seq<Offset> := [Offset(0, 2), Offset(2, 0), Offset(0, -2), Offset(-2, 0)]

  lemma MazeBaseValid()
    ensures ValidBase(MazeBase)
  {
    assert MazeBase[0] == Offset(0, 2) && MazeBase[1] == Offset(2, 0);
    assert MazeBase[2] == Offset(0, -2) && MazeBase[3] == Offset(-2, 0);
  }

  /** generate_maze on board g after k shuffles: carve from (0, 0), then write "S" at (0, 0) and
      "E" at (n - 1, m - 1). */
  ghost function GenerateF(g: Grid, oracle: Oracle, k: nat): (r: Carved)
    requires g.Valid() && g.n > 0 && g.m > 0
    ensures r.grid.Valid() && r.grid.n == g.n && r.grid.m == g.m
  {
    MazeBaseValid();
    var c := CarveF(g, MazeBase, oracle, Pos(0, 0), k);
    Carved(Update(Update(c.grid, Pos(0, 0), Start), Pos(g.n - 1, g.m - 1), End), c.draws)
  }

  /** generate_maze in three steps: carve from (0, 0), write "S" there, write "E" at the far corner. */
  lemma GenerateSteps(g0: Grid, oracle: Oracle, k0: nat, g1: Grid, k1: nat, g2: Grid, h: Grid)
    requires g0.Valid() && g0.n > 0 && g0.m > 0
    requires ValidBase(MazeBase) && Carved(g1, k1) == CarveF(g0, MazeBase, oracle, Pos(0, 0), k0)
    requires g2 == Update(g1, Pos(0, 0), Start) && h == Update(g2, Pos(g0.n - 1, g0.m - 1), End)
    ensures Carved(h, k1) == GenerateF(g0, oracle, k0)
  {
  }

  /** A maze of n columns and m rows. The seeded random source is the oracle; draws counts the
      shuffles made on it so far. */
  class Maze {
    const n: nat
    const m: nat
    var board: array2<Cell>
    const oracle: Oracle
    var draws: nat

    ghost predicate Valid()
      reads this
    {
      board.Length0 == m && board.Length1 == n
    }

    /** The board as a value. */
    function Cells(): (g: Grid)
      reads this, board
      ensures g.Valid() && g.n == board.Length1 && g.m == board.Length0
    {
      View(board)
    }

    /** A new maze: m rows of n walls, no shuffle made yet. */
    constructor (n: nat, m: nat, oracle: Oracle)
      ensures Valid() && this.n == n && this.m == m && this.oracle == oracle && draws == 0
      ensures fresh(board) && Cells() == AllWalls(n, m)
    {
      this.n := n;
      this.m := m;
      this.oracle := oracle;
      draws := 0;
      var b := new Cell[m, n]((y, x) => Wall);
      GridExt(View(b), AllWalls(n, m));
      board := b;
    }

    /** Out-of-bounds coordinates are barriers; in bounds exactly the walls are. */
    function IsBarrier(x: int, y: int): (r: bool)
      requires Valid()
      reads this, board
      ensures !(0 <= x < n && 0 <= y < m) ==> r
      ensures r <==> !Cells().Walkable(Pos(x, y))
    {
      if 0 <= y < m && 0 <= x < n then board[y, x] == Wall else true
    }

    /** generate_maze. An empty board has no cell (0, 0), so the first write fails. */
    method GenerateMaze() returns (r: Result<()>)
      requires Valid()
      modifies this, board
      ensures Valid() && board == old(board)
      ensures (n == 0 || m == 0) ==> r == Err(IndexError) && Cells() == old(Cells()) && draws == old(draws)
      ensures n > 0 && m > 0 ==> r == Ok(()) && Carved(Cells(), draws) == GenerateF(old(Cells()), oracle, old(draws))
    {
      if n == 0 || m == 0 {
        return Err(IndexError);
      }
      MazeBaseValid();
      ghost var g0 := Cells();
      ghost var k0 := draws;
      draws := Carve(board, MazeBase, oracle, Pos(0, 0), draws);
      ghost var g1 := View(board);
      SetCell(board, Pos(0, 0), Start);
      ghost var g2 := View(board);
      SetCell(board, Pos(n - 1, m - 1), End);
      GenerateSteps(g0, oracle, k0, g1, draws, g2, View(board));
      r := Ok(());
    }

    /** The first cell holding v in row-major order (y outer, x inner), or NotFound. */
    method FindCell(v: Cell) returns (r: Result<Pos>)
      requires Valid()
      ensures r.Ok? ==> Cells().InBounds(r.value) && Cells().At(r.value) == v
      ensures r.Ok? ==> forall q :: Cells().InBounds(q) && RowMajorBefore(q, r.value) ==> Cells().At(q) != v
      ensures r.Err? ==> r.error == NotFound && forall q :: Cells().InBounds(q) ==> Cells().At(q) != v
    {
      var y := 0;
      while y < m
        invariant 0 <= y <= m
        invariant forall q :: Cells().InBounds(q) && q.y < y ==> Cells().At(q) != v
      {
        var x := 0;
        while x < n
          invariant 0 <= x <= n
          invariant forall q :: Cells().InBounds(q) && RowMajorBefore(q, Pos(x, y)) ==> Cells().At(q) != v
        {
          if board[y, x] == v {
            return Ok(Pos(x, y));
          }
          x := x + 1;
        }
        y := y + 1;
      }
      return Err(NotFound);
    }
  }

  /** p comes before q when the rows are scanned top to bottom and each row left to right. */
  predicate RowMajorBefore(p: Pos, q: Pos)
  {
    p.y < q.y || (p.y == q.y && p.x < q.x)
  }

  // ---------------------------------------------------------------------
  // What a generated maze looks like
  // ---------------------------------------------------------------------

  /** The board generate_maze leaves on a new maze after k shuffles. */
  ghost function Generated(n: nat, m: nat, oracle: Oracle, k: nat): Grid
    requires n > 0 && m > 0
  {
    GenerateF(AllWalls(n, m), oracle, k).grid
  }

  /** The carved board before "S" and "E" are written, with everything known about it. */
  lemma CarvedBoard(n: nat, m: nat, oracle: Oracle, k: nat) returns (h: Grid)
    requires n > 0 && m > 0
    ensures h.Valid() && h.n == n && h.m == m
    ensures Generated(n, m, oracle, k) == Update(Update(h, Pos(0, 0), Start), Pos(n - 1, m - 1), End)
    ensures forall q :: h.InBounds(q) ==> h.At(q) == Wall || h.At(q) == Free
    ensures forall q :: h.InBounds(q) && Lattice(Pos(0, 0), q) ==> h.At(q) == Free
    ensures forall q :: h.InBounds(q) && h.At(q) != Wall ==> Carvable(h, Pos(0, 0), q)
    ensures AllReachable(h, Pos(0, 0))
  {
    MazeBaseValid();
    var g := AllWalls(n, m);
    h := CarveF(g, MazeBase, oracle, Pos(0, 0), k).grid;
    CarveFromWalls(g, MazeBase, oracle, Pos(0, 0), k);
  }

  /** A generated maze has the board's shape, "E" at (n - 1, m - 1), "S" at (0, 0) unless the
      board is one cell (then "E" overwrites it), and only walls and free cells elsewhere. */
  lemma GeneratedLabels(n: nat, m: nat, oracle: Oracle, k: nat)
    requires n > 0 && m > 0
    ensures var G := Generated(n, m, oracle, k);
      && G.Valid() && G.n == n && G.m == m
      && G.At(Pos(n - 1, m - 1)) == End
      && G.At(Pos(0, 0)) == (if n == 1 && m == 1 then End else Start)
      && forall q :: G.InBounds(q) && q != Pos(0, 0) && q != Pos(n - 1, m - 1) ==> G.At(q) == Wall || G.At(q) == Free
  {
    var h := CarvedBoard(n, m, oracle, k);
  }

  /** Every cell with even x and even y is open, every cell with odd x and odd y (other than the
      end cell) is a wall, and every walkable cell other than the end cell is reachable from (0, 0). */
  lemma GeneratedConnected(n: nat, m: nat, oracle: Oracle, k: nat)
    requires n > 0 && m > 0
    ensures var G := Generated(n, m, oracle, k);
      && (forall q :: G.InBounds(q) && q.x % 2 == 0 && q.y % 2 == 0 ==> G.Walkable(q))
      && (forall q :: G.InBounds(q) && q.x % 2 == 1 && q.y % 2 == 1 && q != Pos(n - 1, m - 1) ==> G.At(q) == Wall)
      && (forall q :: G.Walkable(q) && q != Pos(n - 1, m - 1) ==> Reachable(G, Pos(0, 0), q))
  {
    var h := CarvedBoard(n, m, oracle, k);
    var G := Generated(n, m, oracle, k);
    var G1 := Update(h, Pos(0, 0), Start);
    UpdateWalkable(h, Pos(0, 0), Start);
    UpdateWalkable(G1, Pos(n - 1, m - 1), End);
    forall q | G.InBounds(q) && q.x % 2 == 0 && q.y % 2 == 0 ensures G.Walkable(q) {
      assert Lattice(Pos(0, 0), q);
    }
    forall q | G.InBounds(q) && q.x % 2 == 1 && q.y % 2 == 1 && q != Pos(n - 1, m - 1) ensures G.At(q) == Wall {
      assert !Carvable(h, Pos(0, 0), q);
      assert G.At(q) == G1.At(q) == h.At(q);
    }
    forall q | G.Walkable(q) && q != Pos(n - 1, m - 1) ensures Reachable(G, Pos(0, 0), q) {
      assert h.Walkable(q);
      ReachMono(h, G, Pos(0, 0), q);
    }
  }

  /** The end cell is reachable from the start cell exactly when n or m is odd: with both even,
      its two in-bounds neighbours lie between the lattice and the border and are never carved. */
  lemma GeneratedEndReachable(n: nat, m: nat, oracle: Oracle, k: nat)
    requires n > 0 && m > 0
    ensures Reachable(Generated(n, m, oracle, k), Pos(0, 0), Pos(n - 1, m - 1)) <==> (n % 2 == 1 || m % 2 == 1)
  {
    var h := CarvedBoard(n, m, oracle, k);
    var G := Generated(n, m, oracle, k);
    var G1 := Update(h, Pos(0, 0), Start);
    var o, e := Pos(0, 0), Pos(n - 1, m - 1);
    UpdateWalkable(h, o, Start);
    UpdateWalkable(G1, e, End);
    if n % 2 == 1 && m % 2 == 1 {
      assert Lattice(o, e) && h.Walkable(e);
      ReachMono(h, G, o, e);
    } else if n % 2 == 1 || m % 2 == 1 {
      var nb := if n % 2 == 0 then Pos(n - 2, m - 1) else Pos(n - 1, m - 2);
      assert Lattice(o, nb) && h.Walkable(nb);
      ReachMono(h, G, o, nb);
      var r :| RouteFromTo(G, r, o, nb);
      RouteSnoc(G, r, e);
      assert RouteFromTo(G, r + [e], o, e);
    } else {
      EvenEndSealed(n, m, h, G);
    }
  }

  /** With n and m even, the walkable neighbours of the end cell: none. */
  lemma EvenEndSealed(n: nat, m: nat, h: Grid, G: Grid)
    requires n > 0 && m > 0 && n % 2 == 0 && m % 2 == 0
    requires h.Valid() && h.n == n && h.m == m
    requires forall q :: h.InBounds(q) && h.At(q) != Wall ==> Carvable(h, Pos(0, 0), q)
    requires G == Update(Update(h, Pos(0, 0), Start), Pos(n - 1, m - 1), End)
    ensures !Reachable(G, Pos(0, 0), Pos(n - 1, m - 1))
  {
    var o, e := Pos(0, 0), Pos(n - 1, m - 1);
    var G1 := Update(h, o, Start);
    var west, north := Pos(n - 2, m - 1), Pos(n - 1, m - 2);
    assert !Carvable(h, o, west) && !Carvable(h, o, north);
    assert G.At(west) == G1.At(west) == h.At(west) == Wall;
    assert G.At(north) == G1.At(north) == h.At(north) == Wall;
    assert Expanded(G, {e}, e);
    ClosedSeparates(G, {e}, e, o);
    if Reachable(G, o, e) {
      var r :| RouteFromTo(G, r, o, e);
      RouteReverse(G, r, o, e);
    }
  }

  // ---------------------------------------------------------------------
  // Where "E" should go
  // ---------------------------------------------------------------------

  /** On a 4 × 4 board the end cell written by generate_maze is sealed off for every shuffle. */
  lemma FourByFourEndSealed(oracle: Oracle, k: nat)
    ensures !Reachable(Generated(4, 4, oracle, k), Pos(0, 0), Pos(3, 3))
  {
    GeneratedEndReachable(4, 4, oracle, k);
  }

  /** The end cell as intended: the far corner when n or m is odd, as generate_maze writes it;
      with both even, the lattice cell diagonally inside that corner. */
  function CorrectedEnd(n: nat, m: nat): (e: Pos)
    requires n > 0 && m > 0
    ensures 0 <= e.x < n && 0 <= e.y < m
    ensures (n % 2 == 1 || m % 2 == 1) <==> e == Pos(n - 1, m - 1)
    ensures n % 2 == 0 && m % 2 == 0 ==> e == Pos(n - 2, m - 2) && e.x % 2 == 0 && e.y % 2 == 0
  {
    if n % 2 == 1 || m % 2 == 1 then Pos(n - 1, m - 1)
    else Pos(n - 2, m - 2)
  }

  /** generate_maze with "E" written at CorrectedEnd(n, m) instead of the far corner. */
  ghost function GeneratedCorrected(n: nat, m: nat, oracle: Oracle, k: nat): Grid
    requires n > 0 && m > 0
  {
    MazeBaseValid();
    var h := CarveF(AllWalls(n, m), MazeBase, oracle, Pos(0, 0), k).grid;
    Update(Update(h, Pos(0, 0), Start), CorrectedEnd(n, m), End)
  }

  /** With the corrected placement "E" is on the board and always reachable from (0, 0), and on
      every board with an odd side the maze is the one generate_maze makes. */
  lemma CorrectedEndReachable(n: nat, m: nat, oracle: Oracle, k: nat)
    requires n > 0 && m > 0
    ensures var G, e := GeneratedCorrected(n, m, oracle, k), CorrectedEnd(n, m);
      && G.Valid() && G.n == n && G.m == m && G.At(e) == End
      && Reachable(G, Pos(0, 0), e)
      && ((n % 2 == 1 || m % 2 == 1) ==> G == Generated(n, m, oracle, k))
  {
    var G, o, e := GeneratedCorrected(n, m, oracle, k), Pos(0, 0), CorrectedEnd(n, m);
    if n % 2 == 1 || m % 2 == 1 {
      assert G == Generated(n, m, oracle, k);
      GeneratedEndReachable(n, m, oracle, k);
    } else {
      CorrectedLatticeEnd(n, m, oracle, k);
    }
  }

  /** With n and m even, the corrected end cell is a lattice cell, carved and so reachable. */
  lemma CorrectedLatticeEnd(n: nat, m: nat, oracle: Oracle, k: nat)
    requires n > 0 && m > 0 && n % 2 == 0 && m % 2 == 0
    ensures Reachable(GeneratedCorrected(n, m, oracle, k), Pos(0, 0), CorrectedEnd(n, m))
  {
    var o, e := Pos(0, 0), CorrectedEnd(n, m);
    var h := CarvedLattice(n, m, oracle, k, e);
    var G1 := Update(h, o, Start);
    var G := Update(G1, e, End);
    UpdateWalkable(h, o, Start);
    UpdateWalkable(G1, e, End);
    ReachMono(h, G, o, e);
  }

  /** The board carved on a new maze, with a lattice cell e on it open and reachable from (0, 0). */
  lemma CarvedLattice(n: nat, m: nat, oracle: Oracle, k: nat, e: Pos) returns (h: Grid)
    requires n > 0 && m > 0 && 0 <= e.x < n && 0 <= e.y < m && e.x % 2 == 0 && e.y % 2 == 0
    ensures ValidBase(MazeBase) && h == CarveF(AllWalls(n, m), MazeBase, oracle, Pos(0, 0), k).grid
    ensures h.Valid() && h.n == n && h.m == m && Reachable(h, Pos(0, 0), e)
  {
    MazeBaseValid();
    var g, o := AllWalls(n, m), Pos(0, 0);
    h := CarveF(g, MazeBase, oracle, o, k).grid;
    CarveFromWalls(g, MazeBase, oracle, o, k);
    assert Lattice(o, e) && h.InBounds(e);
    assert h.Walkable(e);
  }
}
