/** The cell grid shared by the simulation engine and the pattern loaders:
    a fixed SizeUnit x SizeUnit array of bytes, indexed grid[x][y]. */
module Grid {

  /** 1 << 8: the grid is 2^8 cells on a side. */
  const SizeUnit := 256
  /** SizeUnit - 1 */
  const SizeMask := 255
  /** The centre of the grid, around which every pattern is placed. */
  const Cx := 128
  const Cy := 128

  /** The three cell states; SURVIVE only exists inside one generation step. */
  const Dead: bv8 := 0
  const Alive: bv8 := 1
  const Survive: bv8 := 2

  type Cell = (int, int)

  predicate InGrid(x: int, y: int) {
    0 <= x < SizeUnit && 0 <= y < SizeUnit
  }

  /** The value of the whole grid. */
  type Board = b: seq<seq<bv8>> | |b| == SizeUnit && forall x | 0 <= x < |b| :: |b[x]| == SizeUnit
    witness seq(SizeUnit, _ => seq(SizeUnit, _ => Dead))

  /** The test `cell & ALIVE` used by the neighbour counts and the rule. */
  predicate IsLive(v: bv8) {
    v & Alive != 0
  }

  /** Between generations every cell is DEAD or ALIVE. */
  ghost predicate DeadOrAlive(b: Board) {
    forall x, y | InGrid(x, y) :: b[x][y] == Dead || b[x][y] == Alive
  }

  /** Two boards that agree on bit 0 of every cell. */
  ghost predicate SameLiveBits(b: Board, c: Board) {
    forall x, y | InGrid(x, y) :: IsLive(b[x][y]) == IsLive(c[x][y])
  }

  predicate IsGridArray(a: array2<bv8>) {
    a.Length0 == SizeUnit && a.Length1 == SizeUnit
  }

  /** The current value of the grid array. */
  function Snapshot(a: array2<bv8>): (b: Board)
    requires IsGridArray(a)
    reads a
    ensures forall x, y | InGrid(x, y) :: b[x][y] == a[x, y]
  {
    seq(SizeUnit, x requires 0 <= x < SizeUnit reads a =>
      seq(SizeUnit, y requires 0 <= y < SizeUnit reads a => a[x, y]))
  }

  /** Boards are equal when they agree cell by cell. */
  lemma BoardExt(b: Board, c: Board)
    requires forall x, y | InGrid(x, y) :: b[x][y] == c[x][y]
    ensures b == c
  {
    forall x | 0 <= x < SizeUnit ensures b[x] == c[x] {
      assert forall y | 0 <= y < SizeUnit :: b[x][y] == c[x][y];
    }
  }

  /** The board whose ALIVE cells are exactly `cells`, all others DEAD. */
  function BoardOf(cells: set<Cell>): Board {
    seq(SizeUnit, x => seq(SizeUnit, y => if (x, y) in cells then Alive else Dead))
  }

  /** `b` with every cell of `cells` set ALIVE and every other cell kept. */
  function Paint(b: Board, cells: set<Cell>): Board {
    seq(SizeUnit, x requires 0 <= x < SizeUnit =>
      seq(SizeUnit, y requires 0 <= y < SizeUnit => if (x, y) in cells then Alive else b[x][y]))
  }

  /** The grid array is `b0` with exactly `cells` set ALIVE on top. */
  ghost predicate Shows(a: array2<bv8>, b0: Board, cells: set<Cell>)
    requires IsGridArray(a)
    reads a
  {
    forall x, y | InGrid(x, y) :: a[x, y] == if (x, y) in cells then Alive else b0[x][y]
  }

  lemma ShowsPaint(a: array2<bv8>, b0: Board, cells: set<Cell>)
    requires IsGridArray(a) && Shows(a, b0, cells)
    ensures Snapshot(a) == Paint(b0, cells)
  {
    BoardExt(Snapshot(a), Paint(b0, cells));
  }

  /** The cells of `b` that hold ALIVE. */
  function LiveCells(b: Board): set<Cell> {
    set x, y | 0 <= x < SizeUnit && 0 <= y < SizeUnit && b[x][y] == Alive :: (x, y)
  }

  /** Number of ALIVE cells among row[0..n]. */
  function RowPopulation(row: seq<bv8>, n: nat): (r: nat)
    requires n <= |row|
    ensures r <= n
  {
    if n == 0 then 0 else RowPopulation(row, n - 1) + (if row[n - 1] == Alive then 1 else 0)
  }

  /** Number of ALIVE cells in the columns x < n, counted column by column as the
      generation step visits them. */
  function PopulationUpTo(b: Board, n: nat): (r: nat)
    requires n <= SizeUnit
    ensures r <= n * SizeUnit
  {
    if n == 0 then 0 else PopulationUpTo(b, n - 1) + RowPopulation(b[n - 1], SizeUnit)
  }

  function Population(b: Board): nat {
    PopulationUpTo(b, SizeUnit)
  }

  /** The cells of column x among its first n entries that are ALIVE. */
  function LiveInColumn(b: Board, x: int, n: nat): set<Cell>
    requires 0 <= x < SizeUnit && n <= SizeUnit
  {
    set y | 0 <= y < n && b[x][y] == Alive :: (x, y)
  }

  function LiveBelow(b: Board, n: nat): set<Cell>
    requires n <= SizeUnit
  {
    set x, y | 0 <= x < n && 0 <= y < SizeUnit && b[x][y] == Alive :: (x, y)
  }

  lemma {:induction false} ColumnCount(b: Board, x: int, n: nat)
    requires 0 <= x < SizeUnit && n <= SizeUnit
    ensures RowPopulation(b[x], n) == |LiveInColumn(b, x, n)|
  {
    if n > 0 {
      ColumnCount(b, x, n - 1);
      if b[x][n - 1] == Alive {
        assert LiveInColumn(b, x, n) == LiveInColumn(b, x, n - 1) + {(x, n - 1)};
      } else {
        assert LiveInColumn(b, x, n) == LiveInColumn(b, x, n - 1);
      }
    } else {
      assert LiveInColumn(b, x, n) == {};
    }
  }

  lemma {:induction false} CountBelow(b: Board, n: nat)
    requires n <= SizeUnit
    ensures PopulationUpTo(b, n) == |LiveBelow(b, n)|
  {
    if n > 0 {
      CountBelow(b, n - 1);
      ColumnCount(b, n - 1, SizeUnit);
      BelowSplit(b, n);
    } else {
      assert LiveBelow(b, n) == {};
    }
  }

  /** The first n columns are the first n - 1 and, apart from them, column n - 1. */
  lemma BelowSplit(b: Board, n: nat)
    requires 0 < n <= SizeUnit
    ensures LiveBelow(b, n) == LiveBelow(b, n - 1) + LiveInColumn(b, n - 1, SizeUnit)
    ensures LiveBelow(b, n - 1) * LiveInColumn(b, n - 1, SizeUnit) == {}
  {
  }

  /** The population counted by the generation step is the number of ALIVE cells. */
  lemma PopulationIsLiveCount(b: Board)
    ensures Population(b) == |LiveCells(b)|
  {
    CountBelow(b, SizeUnit);
    assert LiveBelow(b, SizeUnit) == LiveCells(b);
  }

  /** A population of zero means no cell is ALIVE: the halt test on `alive == 0`
      fires exactly on extinction. */
  lemma PopulationZeroIffExtinct(b: Board)
    ensures Population(b) == 0 <==> forall x, y | InGrid(x, y) :: b[x][y] != Alive
  {
    PopulationIsLiveCount(b);
    if Population(b) != 0 {
      var c :| c in LiveCells(b);
      assert InGrid(c.0, c.1) && b[c.0][c.1] == Alive;
    } else {
      forall x, y | InGrid(x, y) ensures b[x][y] != Alive {
        assert (x, y) !in LiveCells(b);
      }
    }
  }

  /** A board built from a set of in-grid cells has exactly that set as live cells. */
  lemma BoardOfLiveCells(cells: set<Cell>)
    requires forall c | c in cells :: InGrid(c.0, c.1)
    ensures LiveCells(BoardOf(cells)) == cells
    ensures Population(BoardOf(cells)) == |cells|
  {
    PopulationIsLiveCount(BoardOf(cells));
  }

  /** Painting cells ALIVE never clears a cell and leaves unnamed cells alone. */
  lemma PaintOnlyAddsLife(b: Board, cells: set<Cell>)
    ensures forall x, y | InGrid(x, y) :: Paint(b, cells)[x][y] == (if (x, y) in cells then Alive else b[x][y])
    ensures DeadOrAlive(b) ==> DeadOrAlive(Paint(b, cells))
  {
  }
}
