/** Recursive-backtracking carving, shared by both maze generators.

    carve(p) frees p, shuffles the four jumps of two cells, and for each jump
    whose target is in bounds and still a wall it frees the cell in between and
    carves the target. The random shuffle is an oracle: the k-th shuffle ever
    made yields the permutation oracle(k). The carving is given as a function
    on board values (CarveF, CarveDirs) and as a method on a two-dimensional
    array (Carve) proved to compute that function. */
module Carving {
  import opened Types
  import opened Grid

  /** A jump of two cells along one axis. */
  datatype Offset = Offset(dx: int, dy: int)

  const Jumps: set<Offset> := {Offset(0, 2), Offset(2, 0), Offset(0, -2), Offset(-2, 0)}

  /** A shuffle outcome: an ordering of the indices 0, 1, 2, 3. */
  predicate IsPerm4(p: seq<int>)
  {
    |p| == 4 && (forall j :: 0 <= j < 4 ==> 0 <= p[j] < 4) && (forall t :: 0 <= t < 4 ==> t in p)
  }

  type Perm4 = p: seq<int> | IsPerm4(p) witness [0, 1, 2, 3]

  /** The seeded random source: the k-th call to shuffle yields oracle(k). */
  type Oracle = nat -> Perm4

  /** A direction list that holds each of the four jumps. */
  predicate ValidBase(base: seq<Offset>)
  {
    |base| == 4 && (forall j :: 0 <= j < 4 ==> base[j] in Jumps) && (forall s :: s in Jumps ==> s in base)
  }

  predicate JumpList(dirs: seq<Offset>)
  {
    |dirs| == 4 && forall j :: 0 <= j < 4 ==> dirs[j] in Jumps
  }

  /** The direction list after shuffling with outcome p. */
  function Shuffled(base: seq<Offset>, p: Perm4): (dirs: seq<Offset>)
    requires ValidBase(base)
    ensures JumpList(dirs) && forall s :: s in Jumps ==> s in dirs
  {
    var dirs := [base[p[0]], base[p[1]], base[p[2]], base[p[3]]];
    assert forall s :: s in Jumps ==> s in dirs by {
      forall s | s in Jumps ensures s in dirs {
        var t :| 0 <= t < 4 && base[t] == s;
        assert t in p;
        var j :| 0 <= j < 4 && p[j] == t;
        assert dirs[j] == s;
      }
    }
    dirs
  }

  function Plus(p: Pos, s: Offset): Pos { Pos(p.x + s.dx, p.y + s.dy) }

  /** The wall cell between p and p + s (Python: x + dx // 2, y + dy // 2). */
  function Between(p: Pos, s: Offset): Pos { Pos(p.x + s.dx / 2, p.y + s.dy / 2) }

  /** The board after carving and the number of shuffles made so far. */
  datatype Carved = Carved(grid: Grid, draws: nat)

  /** h has g's shape and differs from g only in cells that h has free: carving only writes 0. */
  ghost predicate Opens(g: Grid, h: Grid)
  {
    && g.Valid() && h.Valid() && g.n == h.n && g.m == h.m
    && forall q :: g.InBounds(q) ==> h.At(q) == g.At(q) || h.At(q) == Free
  }

  ghost function WallCells(g: Grid): set<Pos>
    requires g.Valid()
  {
    set x, y | 0 <= x < g.n && 0 <= y < g.m && g.cells[y][x] == Wall :: Pos(x, y)
  }

  lemma OpensTrans(g: Grid, h: Grid, k: Grid)
    requires Opens(g, h) && Opens(h, k)
    ensures Opens(g, k)
  {
  }

  lemma OpensShrinksWalls(g: Grid, h: Grid)
    requires Opens(g, h)
    ensures WallCells(h) <= WallCells(g)
  {
    forall q | q in WallCells(h) ensures q in WallCells(g) {
      assert h.At(q) == Wall;
    }
  }

  lemma FreeingOpens(g: Grid, p: Pos)
    requires g.Valid() && g.InBounds(p)
    ensures Opens(g, Update(g, p, Free))
    ensures WallCells(Update(g, p, Free)) == WallCells(g) - {p}
  {
    var h := Update(g, p, Free);
    forall q | g.InBounds(q) ensures h.At(q) == g.At(q) || h.At(q) == Free {
      if q != p { assert h.At(q) == g.At(q); }
    }
    forall q | q in WallCells(g) - {p} ensures q in WallCells(h) {
      assert h.At(q) == g.At(q);
    }
    forall q | q in WallCells(h) ensures q in WallCells(g) - {p} {
      assert h.At(q) == Wall;
    }
  }

  /** Jumping from an in-bounds cell to an in-bounds target keeps the middle cell in bounds. */
  lemma BetweenInBounds(g: Grid, p: Pos, s: Offset)
    requires g.Valid() && g.InBounds(p) && s in Jumps && g.InBounds(Plus(p, s))
    ensures g.InBounds(Between(p, s)) && Between(p, s) != Plus(p, s) && Between(p, s) != p
    ensures Adjacent(p, Between(p, s)) && Adjacent(Between(p, s), Plus(p, s))
  {
  }

  /** carve(p): free p, draw one shuffle, then try the four jumps in the shuffled order. */
  ghost function CarveF(g: Grid, base: seq<Offset>, oracle: Oracle, p: Pos, k: nat): (r: Carved)
    requires g.Valid() && ValidBase(base) && g.InBounds(p)
    ensures Opens(g, r.grid) && r.grid.At(p) == Free
    decreases WallCells(g) + {p}, 0, 0
  {
    var g1 := Update(g, p, Free);
    FreeingOpens(g, p);
    var r := CarveDirs(g1, base, oracle, p, Shuffled(base, oracle(k)), 0, k + 1);
    OpensTrans(g, g1, r.grid);
    r
  }

  /** The loop over the shuffled jumps, from the i-th on. */
  ghost function CarveDirs(g: Grid, base: seq<Offset>, oracle: Oracle, p: Pos, dirs: seq<Offset>, i: nat, k: nat): (r: Carved)
    requires g.Valid() && ValidBase(base) && g.InBounds(p) && JumpList(dirs) && i <= 4
    ensures Opens(g, r.grid)
    decreases WallCells(g), 1, 4 - i
  {
    if i == 4 then Carved(g, k)
    else
      var q := Plus(p, dirs[i]);
      if g.InBounds(q) && g.At(q) == Wall then
        var mid := Between(p, dirs[i]);
        BetweenInBounds(g, p, dirs[i]);
        var g2 := Update(g, mid, Free);
        FreeingOpens(g, mid);
        assert q in WallCells(g2);
        var r2 := CarveF(g2, base, oracle, q, k);
        OpensTrans(g, g2, r2.grid);
        OpensShrinksWalls(g, r2.grid);
        var r := CarveDirs(r2.grid, base, oracle, p, dirs, i + 1, r2.draws);
        OpensTrans(g, r2.grid, r.grid);
        r
      else
        CarveDirs(g, base, oracle, p, dirs, i + 1, k)
  }

  /** Writes one cell of the board array. */
  method SetCell(a: array2<Cell>, p: Pos, v: Cell)
    requires 0 <= p.y < a.Length0 && 0 <= p.x < a.Length1
    modifies a
    ensures View(a) == Update(old(View(a)), p, v)
  {
    ghost var g := View(a);
    a[p.y, p.x] := v;
    GridExt(View(a), Update(g, p, v));
  }

  /** One turn of the loop of carve when the jump target is a wall: free the middle, carve the target. */
  lemma CarveDirsJump(g: Grid, base: seq<Offset>, oracle: Oracle, p: Pos, dirs: seq<Offset>, i: nat, k: nat)
    requires g.Valid() && ValidBase(base) && g.InBounds(p) && JumpList(dirs) && i < 4
    requires g.InBounds(Plus(p, dirs[i])) && g.At(Plus(p, dirs[i])) == Wall
    ensures var g2 := Update(g, Between(p, dirs[i]), Free);
      && g.InBounds(Between(p, dirs[i]))
      && Opens(g, g2) && Plus(p, dirs[i]) in WallCells(g2)
      && var r2 := CarveF(g2, base, oracle, Plus(p, dirs[i]), k);
         CarveDirs(g, base, oracle, p, dirs, i, k) == CarveDirs(r2.grid, base, oracle, p, dirs, i + 1, r2.draws)
  {
    BetweenInBounds(g, p, dirs[i]);
    FreeingOpens(g, Between(p, dirs[i]));
    assert Plus(p, dirs[i]) in WallCells(Update(g, Between(p, dirs[i]), Free));
  }

  /** One turn of the loop of carve when the jump target is out of bounds or open: nothing happens. */
  lemma CarveDirsSkip(g: Grid, base: seq<Offset>, oracle: Oracle, p: Pos, dirs: seq<Offset>, i: nat, k: nat)
    requires g.Valid() && ValidBase(base) && g.InBounds(p) && JumpList(dirs) && i < 4
    requires !(g.InBounds(Plus(p, dirs[i])) && g.At(Plus(p, dirs[i])) == Wall)
    ensures CarveDirs(g, base, oracle, p, dirs, i, k) == CarveDirs(g, base, oracle, p, dirs, i + 1, k)
  {
  }

  /** The recursive carve of a jump target works on strictly fewer wall cells than its caller. */
  lemma CarveMeasure(g0: Grid, p: Pos, g2: Grid, q: Pos)
    requires g0.Valid() && g0.InBounds(p) && Opens(Update(g0, p, Free), g2) && q in WallCells(g2)
    ensures WallCells(g2) + {q} < WallCells(g0) + {p}
  {
    var g1 := Update(g0, p, Free);
    FreeingOpens(g0, p);
    OpensShrinksWalls(g1, g2);
    assert p !in WallCells(g2);
  }

  /** The in-place carving on the board array; it computes CarveF. */
  method Carve(a: array2<Cell>, base: seq<Offset>, oracle: Oracle, p: Pos, k: nat) returns (k': nat)
    requires ValidBase(base) && 0 <= p.y < a.Length0 && 0 <= p.x < a.Length1
    modifies a
    ensures Carved(View(a), k') == CarveF(old(View(a)), base, oracle, p, k)
    decreases WallCells(View(a)) + {p}, 1
  {
    ghost var g0 := View(a);
    SetCell(a, p, Free);
    ghost var g1 := View(a);
    FreeingOpens(g0, p);
    var dirs := Shuffled(base, oracle(k));
    var kk: nat := k + 1;
    var i := 0;
    while i < 4
      invariant 0 <= i <= 4
      invariant Opens(g1, View(a))
      invariant CarveDirs(View(a), base, oracle, p, dirs, i, kk) == CarveDirs(g1, base, oracle, p, dirs, 0, k + 1)
    {
      ghost var gi := View(a);
      kk := CarveTurn(a, base, oracle, p, dirs, i, kk, g0);
      OpensTrans(g1, gi, View(a));
      i := i + 1;
    }
    k' := kk;
  }

  /** One turn of the loop of carve, on direction dirs[i], after p has been opened on the board g0. */
  method CarveTurn(a: array2<Cell>, base: seq<Offset>, oracle: Oracle, p: Pos, dirs: seq<Offset>, i: nat, k: nat,
                   ghost g0: Grid) returns (k': nat)
    requires ValidBase(base) && 0 <= p.y < a.Length0 && 0 <= p.x < a.Length1 && JumpList(dirs) && i < 4
    requires g0.Valid() && g0.InBounds(p) && Opens(Update(g0, p, Free), View(a))
    modifies a
    ensures Opens(old(View(a)), View(a))
    ensures CarveDirs(View(a), base, oracle, p, dirs, i + 1, k') == CarveDirs(old(View(a)), base, oracle, p, dirs, i, k)
    decreases WallCells(g0) + {p}, 0
  {
    ghost var gi := View(a);
    var s := dirs[i];
    var q := Pos(p.x + s.dx, p.y + s.dy);
    assert q == Plus(p, s);
    if 0 <= q.y < a.Length0 && 0 <= q.x < a.Length1 && a[q.y, q.x] == Wall {
      CarveDirsJump(gi, base, oracle, p, dirs, i, k);
      var mid := Pos(p.x + s.dx / 2, p.y + s.dy / 2);
      assert mid == Between(p, s);
      SetCell(a, mid, Free);
      ghost var g2 := View(a);
      OpensTrans(Update(g0, p, Free), gi, g2);
      CarveMeasure(g0, p, g2, q);
      k' := Carve(a, base, oracle, q, k);
      OpensTrans(gi, g2, View(a));
    } else {
      CarveDirsSkip(gi, base, oracle, p, dirs, i, k);
      k' := k;
    }
  }

  // ---------------------------------------------------------------------
  // Every lattice cell is carved
  // ---------------------------------------------------------------------

  /** q is an even number of cells away from o along both axes. */
  ghost predicate Lattice(o: Pos, q: Pos)
  {
    (q.x - o.x) % 2 == 0 && (q.y - o.y) % 2 == 0
  }

  /** Every in-bounds lattice neighbour (two cells away) of q is open. */
  ghost predicate JumpsOpen(h: Grid, q: Pos)
    requires h.Valid()
  {
    forall s :: s in Jumps && h.InBounds(Plus(q, s)) ==> h.At(Plus(q, s)) != Wall
  }

  /** Every lattice cell that was a wall in g and is open in h has its lattice neighbours open in h. */
  ghost predicate OpeningsClosed(g: Grid, h: Grid, o: Pos)
    requires g.Valid() && h.Valid() && g.n == h.n && g.m == h.m
  {
    forall q :: Lattice(o, q) && g.InBounds(q) && g.At(q) == Wall && h.At(q) != Wall ==> JumpsOpen(h, q)
  }

  lemma JumpsOpenMono(h: Grid, h': Grid, q: Pos)
    requires Opens(h, h') && JumpsOpen(h, q)
    ensures JumpsOpen(h', q)
  {
    forall s | s in Jumps && h'.InBounds(Plus(q, s)) ensures h'.At(Plus(q, s)) != Wall {
      assert h.At(Plus(q, s)) != Wall;
    }
  }

  lemma BetweenOffLattice(o: Pos, p: Pos, s: Offset)
    requires Lattice(o, p) && s in Jumps
    ensures !Lattice(o, Between(p, s)) && Lattice(o, Plus(p, s))
  {
  }

  /** Freeing a non-lattice cell, carving, then carving more keeps the closure of openings. */
  lemma CombineOpenings(g: Grid, mid: Pos, r2: Grid, h: Grid, o: Pos)
    requires g.Valid() && g.InBounds(mid) && !Lattice(o, mid)
    requires Opens(Update(g, mid, Free), r2) && Opens(r2, h)
    requires OpeningsClosed(Update(g, mid, Free), r2, o) && OpeningsClosed(r2, h, o)
    ensures OpeningsClosed(g, h, o)
  {
    var g2 := Update(g, mid, Free);
    forall c | Lattice(o, c) && g.InBounds(c) && g.At(c) == Wall && h.At(c) != Wall
      ensures JumpsOpen(h, c)
    {
      assert g2.At(c) == Wall;
      if r2.At(c) != Wall {
        JumpsOpenMono(r2, h, c);
      }
    }
  }

  /** A lattice cell that carving opened, and the start of carving, have every lattice neighbour open. */
  lemma {:induction false} CarveFClosed(g: Grid, base: seq<Offset>, oracle: Oracle, p: Pos, k: nat, o: Pos)
    requires g.Valid() && ValidBase(base) && g.InBounds(p) && Lattice(o, p)
    ensures var h := CarveF(g, base, oracle, p, k).grid;
      OpeningsClosed(g, h, o) && JumpsOpen(h, p)
    decreases WallCells(g) + {p}, 0, 0, 0
  {
    var g1 := Update(g, p, Free);
    FreeingOpens(g, p);
    var dirs := Shuffled(base, oracle(k));
    var h := CarveF(g, base, oracle, p, k).grid;
    assert h == CarveDirs(g1, base, oracle, p, dirs, 0, k + 1).grid;
    CarveDirsClosed(g1, base, oracle, p, dirs, 0, k + 1, o);
    CarveDirsTargets(g1, base, oracle, p, dirs, 0, k + 1);
    forall s | s in Jumps && h.InBounds(Plus(p, s)) ensures h.At(Plus(p, s)) != Wall {
      var j :| 0 <= j < 4 && dirs[j] == s;
    }
    forall q | Lattice(o, q) && g.InBounds(q) && g.At(q) == Wall && h.At(q) != Wall
      ensures JumpsOpen(h, q)
    {
      if q != p {
        assert g1.At(q) == Wall;
      }
    }
  }

  lemma {:induction false} CarveDirsClosed(g: Grid, base: seq<Offset>, oracle: Oracle, p: Pos, dirs: seq<Offset>, i: nat, k: nat, o: Pos)
    requires g.Valid() && ValidBase(base) && g.InBounds(p) && JumpList(dirs) && i <= 4 && Lattice(o, p)
    ensures OpeningsClosed(g, CarveDirs(g, base, oracle, p, dirs, i, k).grid, o)
    decreases WallCells(g), 1, 4 - i, 1
  {
    if i < 4 {
      if g.InBounds(Plus(p, dirs[i])) && g.At(Plus(p, dirs[i])) == Wall {
        CarveJumpClosed(g, base, oracle, p, dirs, i, k, o);
      } else {
        CarveDirsSkip(g, base, oracle, p, dirs, i, k);
        CarveDirsClosed(g, base, oracle, p, dirs, i + 1, k, o);
      }
    }
  }

  /** Every in-bounds jump target from the i-th on is open once the loop is over. */
  lemma {:induction false} CarveDirsTargets(g: Grid, base: seq<Offset>, oracle: Oracle, p: Pos, dirs: seq<Offset>, i: nat, k: nat)
    requires g.Valid() && ValidBase(base) && g.InBounds(p) && JumpList(dirs) && i <= 4
    ensures var h := CarveDirs(g, base, oracle, p, dirs, i, k).grid;
      forall j :: i <= j < 4 && g.InBounds(Plus(p, dirs[j])) ==> h.At(Plus(p, dirs[j])) != Wall
    decreases 4 - i
  {
    if i < 4 {
      var q := Plus(p, dirs[i]);
      if g.InBounds(q) && g.At(q) == Wall {
        CarveDirsJump(g, base, oracle, p, dirs, i, k);
        var g2 := Update(g, Between(p, dirs[i]), Free);
        var r2 := CarveF(g2, base, oracle, q, k);
        OpensTrans(g, g2, r2.grid);
        CarveDirsTargets(r2.grid, base, oracle, p, dirs, i + 1, r2.draws);
        JumpTargetsOpen(g, r2.grid, CarveDirs(r2.grid, base, oracle, p, dirs, i + 1, r2.draws).grid, p, dirs, i);
      } else {
        CarveDirsSkip(g, base, oracle, p, dirs, i, k);
        CarveDirsTargets(g, base, oracle, p, dirs, i + 1, k);
        SkipTargetOpen(g, CarveDirs(g, base, oracle, p, dirs, i + 1, k).grid, p, dirs, i);
      }
    }
  }

  /** The step of the loop that jumps to the wall cell p + dirs[i]. */
  lemma {:induction false} CarveJumpClosed(g: Grid, base: seq<Offset>, oracle: Oracle, p: Pos, dirs: seq<Offset>, i: nat, k: nat, o: Pos)
    requires g.Valid() && ValidBase(base) && g.InBounds(p) && JumpList(dirs) && i < 4 && Lattice(o, p)
    requires g.InBounds(Plus(p, dirs[i])) && g.At(Plus(p, dirs[i])) == Wall
    ensures OpeningsClosed(g, CarveDirs(g, base, oracle, p, dirs, i, k).grid, o)
    decreases WallCells(g), 1, 4 - i, 0
  {
    var q := Plus(p, dirs[i]);
    var mid := Between(p, dirs[i]);
    CarveDirsJump(g, base, oracle, p, dirs, i, k);
    BetweenOffLattice(o, p, dirs[i]);
    var g2 := Update(g, mid, Free);
    var r2 := CarveF(g2, base, oracle, q, k);
    JumpShrinks(g, g2, q);
    CarveFClosed(g2, base, oracle, q, k, o);
    JumpShrinksMore(g, g2, r2.grid, q);
    var h := CarveDirs(r2.grid, base, oracle, p, dirs, i + 1, r2.draws).grid;
    CarveDirsClosed(r2.grid, base, oracle, p, dirs, i + 1, r2.draws, o);
    CombineOpenings(g, mid, r2.grid, h, o);
  }

  /** A target the turn skipped was already open, so it is open after the rest of the loop too. */
  lemma SkipTargetOpen(g: Grid, h: Grid, p: Pos, dirs: seq<Offset>, i: nat)
    requires Opens(g, h) && i < 4 && |dirs| == 4
    requires !(g.InBounds(Plus(p, dirs[i])) && g.At(Plus(p, dirs[i])) == Wall)
    requires forall j :: i + 1 <= j < 4 && g.InBounds(Plus(p, dirs[j])) ==> h.At(Plus(p, dirs[j])) != Wall
    ensures forall j :: i <= j < 4 && g.InBounds(Plus(p, dirs[j])) ==> h.At(Plus(p, dirs[j])) != Wall
  {
  }

  /** Opening a cell next to the wall q keeps q a wall and frees no new walls. */
  lemma JumpShrinks(g: Grid, g2: Grid, q: Pos)
    requires Opens(g, g2) && q in WallCells(g2)
    ensures WallCells(g2) + {q} <= WallCells(g)
  {
    OpensShrinksWalls(g, g2);
  }

  /** Carving from the wall q opens it, so the board has strictly fewer walls than before. */
  lemma JumpShrinksMore(g: Grid, g2: Grid, r: Grid, q: Pos)
    requires Opens(g, g2) && Opens(g2, r) && q in WallCells(g2) && r.At(q) == Free
    ensures Opens(g, r) && WallCells(r) < WallCells(g)
  {
    OpensTrans(g, g2, r);
    OpensShrinksWalls(g, r);
    OpensShrinksWalls(g, g2);
    assert q in WallCells(g) && q !in WallCells(r);
  }

  /** The jump target p + dirs[i] that the turn opened in r, and the later targets that the rest of
      the loop opened in h, are all open in h. */
  lemma JumpTargetsOpen(g: Grid, r: Grid, h: Grid, p: Pos, dirs: seq<Offset>, i: nat)
    requires Opens(g, r) && Opens(r, h) && i < 4 && |dirs| == 4
    requires g.InBounds(Plus(p, dirs[i])) && r.At(Plus(p, dirs[i])) == Free
    requires forall j :: i + 1 <= j < 4 && r.InBounds(Plus(p, dirs[j])) ==> h.At(Plus(p, dirs[j])) != Wall
    ensures forall j :: i <= j < 4 && g.InBounds(Plus(p, dirs[j])) ==> h.At(Plus(p, dirs[j])) != Wall
  {
    forall j | i <= j < 4 && g.InBounds(Plus(p, dirs[j]))
      ensures h.At(Plus(p, dirs[j])) != Wall
    {
      if j > i {
        assert r.InBounds(Plus(p, dirs[j]));
      }
    }
  }

  /** Every open lattice cell of h has its lattice neighbours open. */
  ghost predicate LatticeClosed(h: Grid, o: Pos)
    requires h.Valid()
  {
    forall c :: Lattice(o, c) && h.InBounds(c) && h.At(c) != Wall ==> JumpsOpen(h, c)
  }

  /** A lattice cell other than o has a lattice cell one jump closer to o, in bounds whenever o and q are. */
  lemma LatticeStepBack(h: Grid, o: Pos, q: Pos) returns (q': Pos, s: Offset)
    requires h.InBounds(o) && h.InBounds(q) && Lattice(o, q) && q != o
    ensures s in Jumps && Plus(q', s) == q && Lattice(o, q') && h.InBounds(q')
    ensures Abs(q'.x - o.x) + Abs(q'.y - o.y) < Abs(q.x - o.x) + Abs(q.y - o.y)
  {
    var dx := q.x - o.x;
    var dy := q.y - o.y;
    if dx > 0 {
      assert dx >= 2;
      s := Offset(2, 0);
    } else if dx < 0 {
      assert dx <= -2;
      s := Offset(-2, 0);
    } else if dy > 0 {
      assert dy >= 2;
      s := Offset(0, 2);
    } else {
      assert dy <= -2;
      s := Offset(0, -2);
    }
    q' := Pos(q.x - s.dx, q.y - s.dy);
  }

  /** Once the open lattice cells are closed under jumps and o is open, every lattice cell is open. */
  lemma {:induction false} LatticeAllOpen(h: Grid, o: Pos, q: Pos)
    requires h.Valid() && h.InBounds(o) && h.At(o) != Wall && LatticeClosed(h, o)
    requires Lattice(o, q) && h.InBounds(q)
    ensures h.At(q) != Wall
    decreases Abs(q.x - o.x) + Abs(q.y - o.y)
  {
    if q != o {
      var q', s := LatticeStepBack(h, o, q);
      LatticeAllOpen(h, o, q');
      assert JumpsOpen(h, q');
    }
  }

  // ---------------------------------------------------------------------
  // Every open cell stays reachable from the start of carving
  // ---------------------------------------------------------------------

  /** Every walkable cell is reachable from o. */
  ghost predicate AllReachable(h: Grid, o: Pos)
    requires h.Valid()
  {
    forall c :: h.Walkable(c) ==> Reachable(h, o, c)
  }

  /** p is the start of carving, or next to an open cell. */
  ghost predicate Anchored(g: Grid, o: Pos, p: Pos)
    requires g.Valid()
  {
    p == o || exists nb :: nb in Neighbors(p) && g.Walkable(nb)
  }

  lemma OpensWalkable(g: Grid, h: Grid, q: Pos)
    requires Opens(g, h) && g.Walkable(q)
    ensures h.Walkable(q)
  {
    assert g.InBounds(q);
  }

  lemma OpensRoute(g: Grid, h: Grid, r: seq<Pos>)
    requires Opens(g, h) && IsRoute(g, r)
    ensures IsRoute(h, r)
  {
    forall q | g.Walkable(q) ensures h.Walkable(q) {
      OpensWalkable(g, h, q);
    }
    SameRoutes(g, h, r);
  }

  /** Freeing an anchored cell keeps every open cell reachable. */
  lemma FreeingKeepsReachable(g: Grid, o: Pos, p: Pos)
    requires g.Valid() && g.InBounds(p) && AllReachable(g, o) && Anchored(g, o, p)
    ensures AllReachable(Update(g, p, Free), o)
  {
    var h := Update(g, p, Free);
    FreeingOpens(g, p);
    forall c | h.Walkable(c) ensures Reachable(h, o, c) {
      if c == p {
        if p == o {
          assert RouteFromTo(h, [o], o, c);
        } else {
          var nb :| nb in Neighbors(p) && g.Walkable(nb);
          var r :| RouteFromTo(g, r, o, nb);
          OpensRoute(g, h, r);
          NeighborsAreAdjacent(p, nb);
          RouteSnoc(h, r, p);
          assert RouteFromTo(h, r + [p], o, c);
        }
      } else {
        assert g.At(c) == h.At(c);
        assert g.Walkable(c);
        var r :| RouteFromTo(g, r, o, c);
        OpensRoute(g, h, r);
        assert RouteFromTo(h, r, o, c);
      }
    }
  }

  lemma {:induction false} CarveFReachable(g: Grid, base: seq<Offset>, oracle: Oracle, p: Pos, k: nat, o: Pos)
    requires g.Valid() && ValidBase(base) && g.InBounds(p)
    requires AllReachable(g, o) && Anchored(g, o, p)
    ensures AllReachable(CarveF(g, base, oracle, p, k).grid, o)
    decreases WallCells(g) + {p}, 0, 0, 0
  {
    var g1 := Update(g, p, Free);
    FreeingOpens(g, p);
    FreeingKeepsReachable(g, o, p);
    var dirs := Shuffled(base, oracle(k));
    assert CarveF(g, base, oracle, p, k) == CarveDirs(g1, base, oracle, p, dirs, 0, k + 1);
    CarveDirsReachable(g1, base, oracle, p, dirs, 0, k + 1, o);
  }

  /** The cell between p and its jump target is anchored by p, and the target by the cell between. */
  lemma JumpAnchors(g: Grid, o: Pos, p: Pos, s: Offset)
    requires g.Valid() && g.InBounds(p) && s in Jumps && g.InBounds(Plus(p, s)) && g.Walkable(p)
    ensures Anchored(g, o, Between(p, s))
    ensures Anchored(Update(g, Between(p, s), Free), o, Plus(p, s))
  {
    BetweenInBounds(g, p, s);
    var mid := Between(p, s);
    NeighborsAreAdjacent(mid, p);
    NeighborsAreAdjacent(Plus(p, s), mid);
    assert Update(g, mid, Free).Walkable(mid);
  }

  lemma {:induction false} CarveDirsReachable(g: Grid, base: seq<Offset>, oracle: Oracle, p: Pos, dirs: seq<Offset>, i: nat, k: nat, o: Pos)
    requires g.Valid() && ValidBase(base) && g.InBounds(p) && JumpList(dirs) && i <= 4
    requires AllReachable(g, o) && g.Walkable(p)
    ensures AllReachable(CarveDirs(g, base, oracle, p, dirs, i, k).grid, o)
    decreases WallCells(g), 1, 4 - i, 1
  {
    if i < 4 {
      var q := Plus(p, dirs[i]);
      if g.InBounds(q) && g.At(q) == Wall {
        CarveJumpReachable(g, base, oracle, p, dirs, i, k, o);
      } else {
        CarveDirsSkip(g, base, oracle, p, dirs, i, k);
        CarveDirsReachable(g, base, oracle, p, dirs, i + 1, k, o);
      }
    }
  }

  /** The step of the loop that jumps to the wall cell p + dirs[i]. */
  lemma {:induction false} CarveJumpReachable(g: Grid, base: seq<Offset>, oracle: Oracle, p: Pos, dirs: seq<Offset>, i: nat, k: nat, o: Pos)
    requires g.Valid() && ValidBase(base) && g.InBounds(p) && JumpList(dirs) && i < 4
    requires g.InBounds(Plus(p, dirs[i])) && g.At(Plus(p, dirs[i])) == Wall
    requires AllReachable(g, o) && g.Walkable(p)
    ensures AllReachable(CarveDirs(g, base, oracle, p, dirs, i, k).grid, o)
    decreases WallCells(g), 1, 4 - i, 0
  {
    var q := Plus(p, dirs[i]);
    var mid := Between(p, dirs[i]);
    CarveDirsJump(g, base, oracle, p, dirs, i, k);
    JumpAnchors(g, o, p, dirs[i]);
    FreeingKeepsReachable(g, o, mid);
    var g2 := Update(g, mid, Free);
    OpensShrinksWalls(g, g2);
    assert WallCells(g2) + {q} <= WallCells(g);
    CarveFReachable(g2, base, oracle, q, k, o);
    var r2 := CarveF(g2, base, oracle, q, k);
    OpensTrans(g, g2, r2.grid);
    OpensShrinksWalls(g, r2.grid);
    OpensWalkable(g, r2.grid, p);
    assert q in WallCells(g) && q !in WallCells(r2.grid);
    CarveDirsReachable(r2.grid, base, oracle, p, dirs, i + 1, r2.draws, o);
  }

  // ---------------------------------------------------------------------
  // Carving opens only lattice cells and the cells between two of them
  // ---------------------------------------------------------------------

  /** A cell carving from o can open: a lattice cell, or the middle of two in-bounds lattice cells. */
  ghost predicate Carvable(g: Grid, o: Pos, c: Pos)
  {
    || Lattice(o, c)
    || ((c.x - o.x) % 2 == 1 && (c.y - o.y) % 2 == 0 && 0 <= c.x - 1 && c.x + 1 < g.n)
    || ((c.x - o.x) % 2 == 0 && (c.y - o.y) % 2 == 1 && 0 <= c.y - 1 && c.y + 1 < g.m)
  }

  /** Every wall of g that h opened is carvable. */
  ghost predicate OpensOnlyCarvable(g: Grid, h: Grid, o: Pos)
    requires g.Valid() && h.Valid() && g.n == h.n && g.m == h.m
  {
    forall q :: g.InBounds(q) && g.At(q) == Wall && h.At(q) != Wall ==> Carvable(g, o, q)
  }

  lemma OnlyCarvableTrans(g: Grid, h: Grid, k: Grid, o: Pos)
    requires Opens(g, h) && Opens(h, k) && OpensOnlyCarvable(g, h, o) && OpensOnlyCarvable(h, k, o)
    ensures OpensOnlyCarvable(g, k, o)
  {
    forall q | g.InBounds(q) && g.At(q) == Wall && k.At(q) != Wall ensures Carvable(g, o, q) {
      if h.At(q) == Wall {
        assert Carvable(h, o, q);
      }
    }
  }

  lemma FreeingCarvable(g: Grid, o: Pos, p: Pos)
    requires g.Valid() && g.InBounds(p) && Carvable(g, o, p)
    ensures OpensOnlyCarvable(g, Update(g, p, Free), o)
  {
  }

  lemma BetweenCarvable(g: Grid, o: Pos, p: Pos, s: Offset)
    requires g.Valid() && Lattice(o, p) && g.InBounds(p) && s in Jumps && g.InBounds(Plus(p, s))
    ensures Carvable(g, o, Between(p, s))
  {
  }

  lemma {:induction false} CarveFOnly(g: Grid, base: seq<Offset>, oracle: Oracle, p: Pos, k: nat, o: Pos)
    requires g.Valid() && ValidBase(base) && g.InBounds(p) && Lattice(o, p)
    ensures OpensOnlyCarvable(g, CarveF(g, base, oracle, p, k).grid, o)
    decreases WallCells(g) + {p}, 0, 0, 0
  {
    var g1 := Update(g, p, Free);
    FreeingOpens(g, p);
    FreeingCarvable(g, o, p);
    var dirs := Shuffled(base, oracle(k));
    assert CarveF(g, base, oracle, p, k) == CarveDirs(g1, base, oracle, p, dirs, 0, k + 1);
    CarveDirsOnly(g1, base, oracle, p, dirs, 0, k + 1, o);
    OnlyCarvableTrans(g, g1, CarveF(g, base, oracle, p, k).grid, o);
  }

  lemma {:induction false} CarveDirsOnly(g: Grid, base: seq<Offset>, oracle: Oracle, p: Pos, dirs: seq<Offset>, i: nat, k: nat, o: Pos)
    requires g.Valid() && ValidBase(base) && g.InBounds(p) && JumpList(dirs) && i <= 4 && Lattice(o, p)
    ensures OpensOnlyCarvable(g, CarveDirs(g, base, oracle, p, dirs, i, k).grid, o)
    decreases WallCells(g), 1, 4 - i, 1
  {
    if i < 4 {
      if g.InBounds(Plus(p, dirs[i])) && g.At(Plus(p, dirs[i])) == Wall {
        CarveJumpOnly(g, base, oracle, p, dirs, i, k, o);
      } else {
        CarveDirsSkip(g, base, oracle, p, dirs, i, k);
        CarveDirsOnly(g, base, oracle, p, dirs, i + 1, k, o);
      }
    }
  }

  lemma {:induction false} CarveJumpOnly(g: Grid, base: seq<Offset>, oracle: Oracle, p: Pos, dirs: seq<Offset>, i: nat, k: nat, o: Pos)
    requires g.Valid() && ValidBase(base) && g.InBounds(p) && JumpList(dirs) && i < 4 && Lattice(o, p)
    requires g.InBounds(Plus(p, dirs[i])) && g.At(Plus(p, dirs[i])) == Wall
    ensures OpensOnlyCarvable(g, CarveDirs(g, base, oracle, p, dirs, i, k).grid, o)
    decreases WallCells(g), 1, 4 - i, 0
  {
    var q := Plus(p, dirs[i]);
    var mid := Between(p, dirs[i]);
    CarveDirsJump(g, base, oracle, p, dirs, i, k);
    var g2 := Update(g, mid, Free);
    var r2 := CarveF(g2, base, oracle, q, k);
    assert Opens(g, r2.grid) && OpensOnlyCarvable(g, r2.grid, o) && WallCells(r2.grid) < WallCells(g) by {
      BetweenCarvable(g, o, p, dirs[i]);
      BetweenOffLattice(o, p, dirs[i]);
      FreeingCarvable(g, o, mid);
      OpensShrinksWalls(g, g2);
      assert WallCells(g2) + {q} == WallCells(g2) <= WallCells(g);
      CarveFOnly(g2, base, oracle, q, k, o);
      OpensTrans(g, g2, r2.grid);
      OnlyCarvableTrans(g, g2, r2.grid, o);
      OpensShrinksWalls(g, r2.grid);
      assert q in WallCells(g) && q !in WallCells(r2.grid);
    }
    CarveDirsOnly(r2.grid, base, oracle, p, dirs, i + 1, r2.draws, o);
    OnlyCarvableTrans(g, r2.grid, CarveDirs(r2.grid, base, oracle, p, dirs, i + 1, r2.draws).grid, o);
  }

  // ---------------------------------------------------------------------
  // Carving a board of walls
  // ---------------------------------------------------------------------

  /** Carving from o on a board of walls: it writes only 0s, opens every lattice cell, opens nothing
      that is not carvable, and leaves every open cell reachable from o. */
  lemma CarveFromWalls(g: Grid, base: seq<Offset>, oracle: Oracle, o: Pos, k: nat)
    requires g.Valid() && ValidBase(base) && g.InBounds(o)
    requires forall q :: g.InBounds(q) ==> g.At(q) == Wall
    ensures var h := CarveF(g, base, oracle, o, k).grid;
      && h.n == g.n && h.m == g.m
      && (forall q :: h.InBounds(q) ==> h.At(q) == Wall || h.At(q) == Free)
      && (forall q :: h.InBounds(q) && Lattice(o, q) ==> h.At(q) == Free)
      && (forall q :: h.InBounds(q) && h.At(q) != Wall ==> Carvable(h, o, q))
      && AllReachable(h, o)
  {
    var h := CarveF(g, base, oracle, o, k).grid;
    assert Lattice(o, o);
    CarveFClosed(g, base, oracle, o, k, o);
    assert LatticeClosed(h, o) by {
      forall c | Lattice(o, c) && h.InBounds(c) && h.At(c) != Wall ensures JumpsOpen(h, c) {
        assert g.At(c) == Wall;
      }
    }
    forall q | h.InBounds(q) && Lattice(o, q) ensures h.At(q) == Free {
      LatticeAllOpen(h, o, q);
      assert g.At(q) == Wall;
    }
    CarveFOnly(g, base, oracle, o, k, o);
    forall q | h.InBounds(q) && h.At(q) != Wall ensures Carvable(h, o, q) {
      assert g.At(q) == Wall;
    }
    assert AllReachable(g, o);
    CarveFReachable(g, base, oracle, o, k, o);
  }
}
