/** The read-only part of the engine: the two neighbour-counting strategies,
    the B3/S23 survival rule and the generation they define together. */
module Rules {
  import opened Grid

  /** The neighbour-counting strategy, chosen once for the whole run. */
  datatype Topology = Border | Torus

  /** `v & SIZEMASK` on a two's-complement int: the remainder modulo SizeUnit.
      On-grid coordinates are kept, and one step past either edge lands on the
      opposite edge. */
  function Wrap(v: int): (r: int)
    ensures 0 <= r < SizeUnit
    ensures 0 <= v < SizeUnit ==> r == v
    ensures v == -1 ==> r == SizeMask
    ensures v == SizeUnit ==> r == 0
  {
    v % SizeUnit
  }

  /** 1 when bit 0 of the cell is set, else 0. */
  function LiveBit(v: bv8): int {
    if IsLive(v) then 1 else 0
  }

  /** How many of the coordinates v-1, v, v+1 lie on the grid. */
  function Span(v: int): int {
    if v == 0 || v == SizeMask then 2 else 3
  }

  /** Bounded edges: a neighbour outside the grid is skipped. The count is at most
      the number of on-grid cells of the 3x3 block around (x, y), less the cell
      itself: 3 in a corner, 5 on an edge, 8 inside. */
  function NumberOfNeighboursBorder(b: Board, x: int, y: int): (n: int)
    requires InGrid(x, y)
    ensures 0 <= n <= Span(x) * Span(y) - 1
  {
    (if x > 0 && y > 0 then LiveBit(b[x - 1][y - 1]) else 0) +
    (if x > 0 then LiveBit(b[x - 1][y]) else 0) +
    (if x > 0 && y < SizeMask then LiveBit(b[x - 1][y + 1]) else 0) +
    (if y > 0 then LiveBit(b[x][y - 1]) else 0) +
    (if y < SizeMask then LiveBit(b[x][y + 1]) else 0) +
    (if x < SizeMask && y > 0 then LiveBit(b[x + 1][y - 1]) else 0) +
    (if x < SizeMask then LiveBit(b[x + 1][y]) else 0) +
    (if x < SizeMask && y < SizeMask then LiveBit(b[x + 1][y + 1]) else 0)
  }

  /** Toroidal wrap: always the eight cells around (x, y), coordinates taken
      modulo SizeUnit. */
  function NumberOfNeighboursTorus(b: Board, x: int, y: int): (n: int)
    requires InGrid(x, y)
    ensures 0 <= n <= 8
  {
    LiveBit(b[Wrap(x - 1)][Wrap(y - 1)]) +
    LiveBit(b[Wrap(x - 1)][Wrap(y)]) +
    LiveBit(b[Wrap(x - 1)][Wrap(y + 1)]) +
    LiveBit(b[Wrap(x)][Wrap(y - 1)]) +
    LiveBit(b[Wrap(x)][Wrap(y + 1)]) +
    LiveBit(b[Wrap(x + 1)][Wrap(y - 1)]) +
    LiveBit(b[Wrap(x + 1)][Wrap(y)]) +
    LiveBit(b[Wrap(x + 1)][Wrap(y + 1)])
  }

  /** The strategy behind the `number_of_neighbours` function pointer. */
  function NumberOfNeighbours(b: Board, topology: Topology, x: int, y: int): (n: int)
    requires InGrid(x, y)
    ensures 0 <= n <= 8
  {
    match topology
    case Border => NumberOfNeighboursBorder(b, x, y)
    case Torus => NumberOfNeighboursTorus(b, x, y)
  }

  /** B3/S23: a live cell survives with 2 or 3 neighbours, a dead one is born with 3. */
  function SurvivalCondition(b: Board, topology: Topology, x: int, y: int): (r: bool)
    requires InGrid(x, y)
    ensures r <==> NumberOfNeighbours(b, topology, x, y) == 3 ||
                   (IsLive(b[x][y]) && NumberOfNeighbours(b, topology, x, y) == 2)
  {
    var n := NumberOfNeighbours(b, topology, x, y);
    if IsLive(b[x][y]) then n == 2 || n == 3 else n == 3
  }

  /** The next generation, computed from the old board alone: every cell is DEAD
      or ALIVE, and a cell is ALIVE when born with three neighbours or alive with
      two. */
  function NextGeneration(b: Board, topology: Topology): (g: Board)
    ensures DeadOrAlive(g)
    ensures forall x, y | InGrid(x, y) :: g[x][y] == Alive <==>
      NumberOfNeighbours(b, topology, x, y) == 3 ||
      (IsLive(b[x][y]) && NumberOfNeighbours(b, topology, x, y) == 2)
  {
    seq(SizeUnit, x requires 0 <= x < SizeUnit =>
      seq(SizeUnit, y requires 0 <= y < SizeUnit =>
        if SurvivalCondition(b, topology, x, y) then Alive else Dead))
  }

  /** The board rotated on the torus by (dx, dy): what was at (x, y) moves to
      (x + dx, y + dy) modulo SizeUnit. */
  function Rotate(b: Board, dx: int, dy: int): Board {
    seq(SizeUnit, x requires 0 <= x < SizeUnit =>
      seq(SizeUnit, y requires 0 <= y < SizeUnit => b[Wrap(x - dx)][Wrap(y - dy)]))
  }

  /** OR-ing SURVIVE into a cell leaves its bit 0 alone: a cell marked earlier in
      the evaluation pass still reads as it did before the pass. */
  lemma MarkKeepsLiveBit(v: bv8)
    ensures IsLive(v | Survive) == IsLive(v)
    ensures v == Dead || v == Alive ==> (v | Survive) >> 1 == Alive && v >> 1 == Dead
  {
  }

  /** Every neighbour count and survival test reads only bit 0 of the cells. */
  lemma SurvivalReadsLiveBits(b: Board, c: Board, topology: Topology, x: int, y: int)
    requires SameLiveBits(b, c) && InGrid(x, y)
    ensures NumberOfNeighbours(b, topology, x, y) == NumberOfNeighbours(c, topology, x, y)
    ensures SurvivalCondition(b, topology, x, y) == SurvivalCondition(c, topology, x, y)
  {
    BorderReadsLiveBits(b, c, x, y);
    TorusReadsLiveBits(b, c, x, y);
    assert IsLive(b[x][y]) == IsLive(c[x][y]);
  }

  lemma BorderReadsLiveBits(b: Board, c: Board, x: int, y: int)
    requires SameLiveBits(b, c) && InGrid(x, y)
    ensures NumberOfNeighboursBorder(b, x, y) == NumberOfNeighboursBorder(c, x, y)
  {
  }

  lemma TorusReadsLiveBits(b: Board, c: Board, x: int, y: int)
    requires SameLiveBits(b, c) && InGrid(x, y)
    ensures NumberOfNeighboursTorus(b, x, y) == NumberOfNeighboursTorus(c, x, y)
  {
  }

  /** Away from the edges the two strategies agree. */
  lemma TorusMatchesBorderInside(b: Board, x: int, y: int)
    requires 0 < x < SizeMask && 0 < y < SizeMask
    ensures NumberOfNeighboursTorus(b, x, y) == NumberOfNeighboursBorder(b, x, y)
  {
  }

  /** On the torus every cell is an interior cell: its count is the bounded count
      at the centre of the board rotated to bring it there. */
  lemma TorusIsBorderAtCentre(b: Board, x: int, y: int)
    requires InGrid(x, y)
    ensures NumberOfNeighboursTorus(b, x, y) == NumberOfNeighboursBorder(Rotate(b, Cx - x, Cy - y), Cx, Cy)
  {
  }

  /** A generation on the torus commutes with rotation: a pattern evolves the same
      wherever it sits. */
  lemma TorusStepCommutesWithRotation(b: Board, dx: int, dy: int)
    ensures NextGeneration(Rotate(b, dx, dy), Torus) == Rotate(NextGeneration(b, Torus), dx, dy)
  {
    var left, right := NextGeneration(Rotate(b, dx, dy), Torus), Rotate(NextGeneration(b, Torus), dx, dy);
    forall x | 0 <= x < SizeUnit ensures left[x] == right[x] {
      forall y | 0 <= y < SizeUnit ensures left[x][y] == right[x][y] {
        TorusCellRotated(b, dx, dy, x, y);
      }
    }
  }

  lemma TorusCellRotated(b: Board, dx: int, dy: int, x: int, y: int)
    requires InGrid(x, y)
    ensures NextGeneration(Rotate(b, dx, dy), Torus)[x][y] == Rotate(NextGeneration(b, Torus), dx, dy)[x][y]
  {
    var r, u, v := Rotate(b, dx, dy), Wrap(x - dx), Wrap(y - dy);
    SurvivalRotated(b, dx, dy, x, y);
    NextGenerationCell(r, Torus, x, y);
    NextGenerationCell(b, Torus, u, v);
    RotateCell(NextGeneration(b, Torus), dx, dy, x, y);
  }

  lemma RotateCell(c: Board, dx: int, dy: int, x: int, y: int)
    requires InGrid(x, y)
    ensures Rotate(c, dx, dy)[x][y] == c[Wrap(x - dx)][Wrap(y - dy)]
  {
  }

  lemma NextGenerationCell(b: Board, topology: Topology, x: int, y: int)
    requires InGrid(x, y)
    ensures NextGeneration(b, topology)[x][y] == if SurvivalCondition(b, topology, x, y) then Alive else Dead
  {
  }

  /** The torus survival test on a rotated board is the test at the source cell. */
  lemma SurvivalRotated(b: Board, dx: int, dy: int, x: int, y: int)
    requires InGrid(x, y)
    ensures InGrid(Wrap(x - dx), Wrap(y - dy))
    ensures SurvivalCondition(Rotate(b, dx, dy), Torus, x, y) ==
      SurvivalCondition(b, Torus, Wrap(x - dx), Wrap(y - dy))
  {
    var r, u, v := Rotate(b, dx, dy), Wrap(x - dx), Wrap(y - dy);
    TorusCountRotated(b, dx, dy, x, y);
    assert r[x][y] == b[u][v];
    assert NumberOfNeighbours(r, Torus, x, y) == NumberOfNeighbours(b, Torus, u, v);
  }

  /** The torus count of a rotated board is the count at the source cell. */
  lemma TorusCountRotated(b: Board, dx: int, dy: int, x: int, y: int)
    requires InGrid(x, y)
    ensures NumberOfNeighboursTorus(Rotate(b, dx, dy), x, y) == NumberOfNeighboursTorus(b, Wrap(x - dx), Wrap(y - dy))
  {
    WrapShift(x, dx);
    WrapShift(y, dy);
  }

  lemma WrapShift(v: int, d: int)
    ensures Wrap(Wrap(v - 1) - d) == Wrap(Wrap(v - d) - 1)
    ensures Wrap(Wrap(v + 1) - d) == Wrap(Wrap(v - d) + 1)
    ensures Wrap(Wrap(v) - d) == Wrap(Wrap(v - d))
  {
    WrapSwap(v, -1, d);
    WrapSwap(v, 1, d);
    WrapSwap(v, 0, d);
    assert v + 0 == v && v - d + 0 == v - d;
  }

  /** Stepping by e and rotating by d commute modulo SizeUnit. */
  lemma WrapSwap(v: int, e: int, d: int)
    ensures Wrap(Wrap(v + e) - d) == Wrap(Wrap(v - d) + e)
  {
    WrapAdd(v + e, -d);
    WrapAdd(v - d, e);
  }

  /** Wrapping before adding changes nothing modulo SizeUnit. */
  lemma WrapAdd(a: int, d: int)
    ensures Wrap(Wrap(a) + d) == Wrap(a + d)
  {
    var q, r := (a + d) / SizeUnit, (a + d) % SizeUnit;
    var p := a / SizeUnit;
    assert Wrap(a) + d == SizeUnit * (q - p) + r;
    ModUnique(Wrap(a) + d, q - p, r);
  }

  lemma ModUnique(z: int, k: int, r: int)
    requires z == SizeUnit * k + r && 0 <= r < SizeUnit
    ensures z % SizeUnit == r
  {
  }

  /** The all-DEAD board is a fixed point under either strategy. */
  lemma EmptyStaysEmpty(topology: Topology)
    ensures NextGeneration(BoardOf({}), topology) == BoardOf({})
  {
    var empty := BoardOf({});
    forall x | 0 <= x < SizeUnit ensures NextGeneration(empty, topology)[x] == empty[x] {
      forall y | 0 <= y < SizeUnit ensures NextGeneration(empty, topology)[x][y] == Dead {
        NoNeighboursOnEmpty(topology, x, y);
      }
    }
  }

  lemma NoNeighboursOnEmpty(topology: Topology, x: int, y: int)
    requires InGrid(x, y)
    ensures NumberOfNeighbours(BoardOf({}), topology, x, y) == 0
  {
    assert forall i, j | InGrid(i, j) :: BoardOf({})[i][j] == Dead;
  }
}
