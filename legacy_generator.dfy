/** The older generator of src/maze_generator.py: it builds a fresh n-by-m grid indexed
    maze[x, y] and carves from (1, 1).

    Its first index is the row of the array, so in board coordinates (column, row) a cell
    maze[x, y] is Pos(y, x), and a jump [dx, dy] is Offset(dy, dx). */
module LegacyGenerator {
  import opened Types
  import opened Grid
  import opened Carving

  /** The jump list [[0,2], [2,0], [0,-2], [-2,0]], in board coordinates. */
  const LegacyBase: seq<Offset> := [Offset(2, 0), Offset(0, 2), Offset(-2, 0), Offset(0, -2)]

  lemma LegacyBaseValid()
    ensures ValidBase(LegacyBase)
  {
    assert LegacyBase[0] == Offset(2, 0) && LegacyBase[1] == Offset(0, 2);
    assert LegacyBase[2] == Offset(-2, 0) && LegacyBase[3] == Offset(0, -2);
  }

  /** The carved board for n rows and m columns after k shuffles, with "S" at maze[0, 0] and "E"
      at maze[n - 2, m - 2]. */
  ghost function LegacyF(n: nat, m: nat, oracle: Oracle, k: nat): (r: Carved)
    requires n >= 2 && m >= 2
    ensures r.grid.Valid() && r.grid.n == m && r.grid.m == n
  {
    LegacyBaseValid();
    var c := CarveF(AllWalls(m, n), LegacyBase, oracle, Pos(1, 1), k);
    Carved(Update(Update(c.grid, Pos(0, 0), Start), Pos(m - 2, n - 2), End), c.draws)
  }

  /** generate_maze(n, m) after k shuffles of the global random source. Below two rows or two
      columns the first write, maze[1, 1], is out of range. */
  method GenerateMaze(n: nat, m: nat, oracle: Oracle, k: nat) returns (res: Result<array2<Cell>>, k': nat)
    ensures n < 2 || m < 2 ==> res == Err(IndexError) && k' == k
    ensures n >= 2 && m >= 2 ==> && res.Ok? && fresh(res.value)
                                 && res.value.Length0 == n && res.value.Length1 == m
                                 && Carved(View(res.value), k') == LegacyF(n, m, oracle, k)
  {
    if n < 2 || m < 2 {
      return Err(IndexError), k;
    }
    var a := new Cell[n, m]((x, y) => Wall);
    GridExt(View(a), AllWalls(m, n));
    LegacyBaseValid();
    ghost var c := CarveF(View(a), LegacyBase, oracle, Pos(1, 1), k);
    k' := Carve(a, LegacyBase, oracle, Pos(1, 1), k);
    assert View(a) == c.grid;
    SetCell(a, Pos(0, 0), Start);
    SetCell(a, Pos(m - 2, n - 2), End);
    assert View(a) == Update(Update(c.grid, Pos(0, 0), Start), Pos(m - 2, n - 2), End);
    res := Ok(a);
  }

  /** The carved board before "S" and "E" are written. */
  lemma LegacyCarvedBoard(n: nat, m: nat, oracle: Oracle, k: nat) returns (h: Grid)
    requires n >= 2 && m >= 2
    ensures h.Valid() && h.n == m && h.m == n
    ensures LegacyF(n, m, oracle, k).grid == Update(Update(h, Pos(0, 0), Start), Pos(m - 2, n - 2), End)
    ensures forall q :: h.InBounds(q) && Lattice(Pos(1, 1), q) ==> h.At(q) == Free
    ensures forall q :: h.InBounds(q) && h.At(q) != Wall ==> Carvable(h, Pos(1, 1), q)
    ensures AllReachable(h, Pos(1, 1))
  {
    LegacyBaseValid();
    var g := AllWalls(m, n);
    h := CarveF(g, LegacyBase, oracle, Pos(1, 1), k).grid;
    CarveFromWalls(g, LegacyBase, oracle, Pos(1, 1), k);
  }

  /** The grid has "E" at maze[n - 2, m - 2] and "S" at maze[0, 0] (unless both are the same cell),
      and every cell with both indices odd is walkable and reachable from maze[1, 1]. */
  lemma LegacyConnected(n: nat, m: nat, oracle: Oracle, k: nat)
    requires n >= 2 && m >= 2
    ensures var G := LegacyF(n, m, oracle, k).grid;
      && G.At(Pos(m - 2, n - 2)) == End
      && G.At(Pos(0, 0)) == (if n == 2 && m == 2 then End else Start)
      && forall q :: G.InBounds(q) && q.x % 2 == 1 && q.y % 2 == 1 ==> G.Walkable(q) && Reachable(G, Pos(1, 1), q)
  {
    var h := LegacyCarvedBoard(n, m, oracle, k);
    var G := LegacyF(n, m, oracle, k).grid;
    var G1 := Update(h, Pos(0, 0), Start);
    UpdateWalkable(h, Pos(0, 0), Start);
    UpdateWalkable(G1, Pos(m - 2, n - 2), End);
    forall q | G.InBounds(q) && q.x % 2 == 1 && q.y % 2 == 1
      ensures G.Walkable(q) && Reachable(G, Pos(1, 1), q)
    {
      OddOnLattice(q);
      assert h.Walkable(q);
      ReachMono(h, G, Pos(1, 1), q);
    }
  }

  /** With at least three rows and three columns the start cell is walled in: no other cell,
      the end cell included, is reachable from maze[0, 0]. */
  lemma LegacyStartSealed(n: nat, m: nat, oracle: Oracle, k: nat)
    requires n >= 3 && m >= 3
    ensures forall c :: c != Pos(0, 0) ==> !Reachable(LegacyF(n, m, oracle, k).grid, Pos(0, 0), c)
  {
    var h := LegacyCarvedBoard(n, m, oracle, k);
    var G := LegacyF(n, m, oracle, k).grid;
    var G1 := Update(h, Pos(0, 0), Start);
    var east, south := Pos(1, 0), Pos(0, 1);
    assert !Carvable(h, Pos(1, 1), east) && !Carvable(h, Pos(1, 1), south);
    assert G.At(east) == G1.At(east) == h.At(east) == Wall;
    assert G.At(south) == G1.At(south) == h.At(south) == Wall;
    CornerSealed(G);
  }

  /** A corner cell whose two in-bounds neighbours are walls reaches nothing else. */
  lemma CornerSealed(G: Grid)
    requires G.Valid() && G.n >= 2 && G.m >= 2
    requires G.At(Pos(1, 0)) == Wall && G.At(Pos(0, 1)) == Wall
    ensures forall c :: c != Pos(0, 0) ==> !Reachable(G, Pos(0, 0), c)
  {
    var o := Pos(0, 0);
    assert Neighbors(o) == [Pos(1, 0), Pos(-1, 0), Pos(0, 1), Pos(0, -1)];
    assert Expanded(G, {o}, o);
    forall c | c != o ensures !Reachable(G, o, c) {
      ClosedSeparates(G, {o}, o, c);
    }
  }

  /** A cell with both coordinates odd is on the lattice of (1, 1). */
  lemma OddOnLattice(q: Pos)
    requires q.x % 2 == 1 && q.y % 2 == 1
    ensures Lattice(Pos(1, 1), q)
  {
  }
}
