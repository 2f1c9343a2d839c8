/** The simulation state of the engine: the grid, the checksum ring and the step
    counter, with the seeding, the in-place generation step, the repeat test and
    one turn of the main loop. */
module Simulation {
  import opened Grid
  import opened Rules
  import opened Cycle

  /** The seven cells of the acorn seed around the centre. */
  function AcornCells(): (cells: set<Cell>)
    ensures |cells| == 7
    ensures forall c | c in cells :: InGrid(c.0, c.1)
  {
    {(Cx - 3, Cy + 1), (Cx - 2, Cy - 1), (Cx - 2, Cy + 1), (Cx, Cy),
     (Cx + 1, Cy + 1), (Cx + 2, Cy + 1), (Cx + 3, Cy + 1)}
  }

  lemma AcornParts()
    ensures AcornCells() == {} + {(Cx - 3, Cy + 1)} + {(Cx - 2, Cy - 1)} + {(Cx - 2, Cy + 1)} + {(Cx, Cy)} +
                            {(Cx + 1, Cy + 1)} + {(Cx + 2, Cy + 1)} + {(Cx + 3, Cy + 1)}
  {
  }

  /** The grid's bytes in memory order, as the checksum reads them: column x
      occupies bytes x * SizeUnit up to x * SizeUnit + SizeMask. */
  function Bytes(b: Board): (r: seq<bv8>)
    ensures |r| == SizeUnit * SizeUnit
  {
    seq(SizeUnit * SizeUnit, i requires 0 <= i < SizeUnit * SizeUnit => b[i / SizeUnit][i % SizeUnit])
  }

  /** The fingerprints of a sequence of grids. */
  function Fingerprints(checksum: seq<bv8> -> bv32, boards: seq<Board>): (r: seq<bv32>)
    ensures |r| == |boards|
  {
    seq(|boards|, i requires 0 <= i < |boards| => checksum(Bytes(boards[i])))
  }

  /** A cell after the evaluation pass: SURVIVE is OR-ed in when it lives on. */
  function Mark(v: bv8, next: bv8): bv8 {
    if next == Alive then v | Survive else v
  }

  /** The collapse pass turns a marked DEAD/ALIVE cell into its next state. */
  lemma CollapseOfMark(v: bv8, next: bv8)
    requires v == Dead || v == Alive
    requires next == Dead || next == Alive
    ensures Mark(v, next) >> 1 == next
    ensures IsLive(Mark(v, next)) == IsLive(v)
  {
    MarkKeepsLiveBit(v);
  }

  /** A grid part-way through the evaluation pass gives every survival test the
      answer the grid before the pass gives. */
  lemma SurvivalOnMarkedGrid(g: Board, b0: Board, topology: Topology, x: int, y: int)
    requires DeadOrAlive(b0) && InGrid(x, y)
    requires forall i, j | InGrid(i, j) :: g[i][j] == b0[i][j] || g[i][j] == b0[i][j] | Survive
    ensures SurvivalCondition(g, topology, x, y) == (NextGeneration(b0, topology)[x][y] == Alive)
  {
    forall i, j | InGrid(i, j) ensures IsLive(g[i][j]) == IsLive(b0[i][j]) {
      MarkKeepsLiveBit(b0[i][j]);
    }
    SurvivalReadsLiveBits(g, b0, topology, x, y);
  }

  /** Cell (x, y) is byte x * SizeUnit + y of the grid's memory. */
  lemma BytesInMemoryOrder(b: Board)
    ensures forall x, y | InGrid(x, y) :: Bytes(b)[x * SizeUnit + y] == b[x][y]
  {
    forall x, y | InGrid(x, y) ensures Bytes(b)[x * SizeUnit + y] == b[x][y] {
      var i := x * SizeUnit + y;
      assert i / SizeUnit == x && i % SizeUnit == y;
    }
  }

  /** Two grids with the same bytes are the same grid, so equal fingerprints of
      distinct grids can only come from the checksum itself. */
  lemma BytesInjective(b: Board, c: Board)
    requires Bytes(b) == Bytes(c)
    ensures b == c
  {
    BytesInMemoryOrder(b);
    BytesInMemoryOrder(c);
    forall x, y | InGrid(x, y) ensures b[x][y] == c[x][y] {
      assert Bytes(b)[x * SizeUnit + y] == Bytes(c)[x * SizeUnit + y];
    }
    BoardExt(b, c);
  }

  /** A grid that comes back within seven generations is detected. */
  lemma RecurringGridDetected(checksum: seq<bv8> -> bv32, boards: seq<Board>, j: int)
    requires |boards| > 0
    requires |boards| - 1 - RingSize < j < |boards| - 1 && 0 <= j
    requires boards[j] == boards[|boards| - 1]
    ensures Repeats(Ring(Fingerprints(checksum, boards)), (|boards| - 1) % RingSize)
  {
    RecentRepeatDetected(Fingerprints(checksum, boards), j);
  }

  /** A grid with no ALIVE cell is the empty grid and stays so: `alive` is 0 in
      every later generation. */
  lemma ExtinctIsFixedPoint(b: Board, topology: Topology)
    requires DeadOrAlive(b) && Population(b) == 0
    ensures b == BoardOf({})
    ensures NextGeneration(b, topology) == b
    ensures Population(NextGeneration(b, topology)) == 0
  {
    PopulationZeroIffExtinct(b);
    BoardExt(b, BoardOf({}));
    EmptyStaysEmpty(topology);
  }

  class Life {
    /** `grid[SIZEUNIT][SIZEUNIT]`, indexed [x, y] */
    const grid: array2<bv8>
    /** `crc[8]`, the ring of fingerprints */
    const crc: array<bv32>
    /** the strategy `number_of_neighbours` points to */
    const topology: Topology
    /** `crc32` over the grid's bytes */
    const checksum: seq<bv8> -> bv32
    /** generations completed */
    var step: nat
    /** the grid at the start of every generation so far */
    ghost var boards: seq<Board>

    /** Between generations every cell is DEAD or ALIVE. */
    ghost predicate GridValid()
      reads this, grid
    {
      IsGridArray(grid) && DeadOrAlive(Snapshot(grid))
    }

    /** The ring holds what writing the fingerprint of every past grid left in it. */
    ghost predicate RingValid()
      reads this, crc
    {
      crc.Length == RingSize && step == |boards| &&
      crc[..] == Ring(Fingerprints(checksum, boards))
    }

    ghost predicate Valid()
      reads this, grid, crc
    {
      GridValid() && RingValid()
    }

    /** Static storage: an all-DEAD grid and an all-zero ring. */
    constructor (topology: Topology, checksum: seq<bv8> -> bv32)
      ensures Valid() && fresh(grid) && fresh(crc)
      ensures this.topology == topology && this.checksum == checksum
      ensures Snapshot(grid) == BoardOf({}) && step == 0 && boards == []
    {
      grid := new bv8[SizeUnit, SizeUnit]((_, _) => Dead);
      crc := new bv32[RingSize](_ => 0);
      this.topology := topology;
      this.checksum := checksum;
      step := 0;
      boards := [];
      new;
      BoardExt(Snapshot(grid), BoardOf({}));
      assert crc[..] == Ring([]);
    }

    /** `init_grid`: clear the grid and seed the acorn. */
    method InitGrid()
      requires IsGridArray(grid)
      modifies grid
      ensures GridValid()
      ensures Snapshot(grid) == BoardOf(AcornCells())
    {
      Clear();
      ghost var cells: set<Cell> := {};
      SetAlive(Cx - 3, Cy + 1, cells);
      cells := cells + {(Cx - 3, Cy + 1)};
      SetAlive(Cx - 2, Cy - 1, cells);
      cells := cells + {(Cx - 2, Cy - 1)};
      SetAlive(Cx - 2, Cy + 1, cells);
      cells := cells + {(Cx - 2, Cy + 1)};
      SetAlive(Cx, Cy, cells);
      cells := cells + {(Cx, Cy)};
      SetAlive(Cx + 1, Cy + 1, cells);
      cells := cells + {(Cx + 1, Cy + 1)};
      SetAlive(Cx + 2, Cy + 1, cells);
      cells := cells + {(Cx + 2, Cy + 1)};
      SetAlive(Cx + 3, Cy + 1, cells);
      cells := cells + {(Cx + 3, Cy + 1)};
      AcornParts();
      SeededBoard(cells);
    }

    /** A grid showing `cells` on the empty board is BoardOf(cells), which is DEAD
        or ALIVE throughout. */
    lemma SeededBoard(cells: set<Cell>)
      requires IsGridArray(grid) && Shows(grid, BoardOf({}), cells)
      ensures Snapshot(grid) == BoardOf(cells) && DeadOrAlive(Snapshot(grid))
    {
      BoardExt(Snapshot(grid), BoardOf(cells));
    }

    /** `memset(grid, 0, sizeof(grid))` */
    method Clear()
      requires IsGridArray(grid)
      modifies grid
      ensures Shows(grid, BoardOf({}), {})
    {
      forall x, y | 0 <= x < SizeUnit && 0 <= y < SizeUnit {
        grid[x, y] := Dead;
      }
    }

    /** `grid[x][y] = ALIVE` on a grid that holds `cells`. */
    method SetAlive(x: int, y: int, ghost cells: set<Cell>)
      requires IsGridArray(grid) && InGrid(x, y) && Shows(grid, BoardOf({}), cells)
      modifies grid
      ensures Shows(grid, BoardOf({}), cells + {(x, y)})
    {
      grid[x, y] := Alive;
    }

    /** One generation in place: the evaluation pass ORs SURVIVE into every cell
        that lives on and counts them, the collapse pass shifts every cell right
        by one. The result is the generation computed from the old grid alone. */
    method Generation() returns (alive: int)
      requires GridValid()
      modifies grid
      ensures GridValid()
      ensures Snapshot(grid) == NextGeneration(old(Snapshot(grid)), topology)
      ensures alive == Population(Snapshot(grid))
    {
      ghost var b0 := Snapshot(grid);
      ghost var next := NextGeneration(b0, topology);
      alive := EvaluationPass();
      CollapsePass();
      forall i, j | InGrid(i, j) ensures grid[i, j] == next[i][j] {
        CollapseOfMark(b0[i][j], next[i][j]);
      }
      BoardExt(Snapshot(grid), next);
    }

    /** The evaluation pass. Marking a cell keeps its bit 0, so every test made
        later in the pass still sees the grid as it was before the pass. */
    method EvaluationPass() returns (alive: int)
      requires GridValid()
      modifies grid
      ensures forall i, j | InGrid(i, j) ::
        grid[i, j] == Mark(old(grid[i, j]), NextGeneration(old(Snapshot(grid)), topology)[i][j])
      ensures alive == Population(NextGeneration(old(Snapshot(grid)), topology))
    {
      ghost var b0 := Snapshot(grid);
      ghost var next := NextGeneration(b0, topology);
      alive := 0;
      var x := 0;
      while x < SizeUnit
        invariant 0 <= x <= SizeUnit
        invariant forall i, j | InGrid(i, j) ::
          grid[i, j] == if i < x then Mark(b0[i][j], next[i][j]) else b0[i][j]
        invariant alive == PopulationUpTo(next, x)
      {
        var born := EvaluateColumn(x, b0);
        alive := alive + born;
        x := x + 1;
      }
    }

    /** The inner loop of the evaluation pass, over the cells of column x. */
    method EvaluateColumn(x: int, ghost b0: Board) returns (born: int)
      requires IsGridArray(grid) && DeadOrAlive(b0) && 0 <= x < SizeUnit
      requires forall i, j | InGrid(i, j) ::
        grid[i, j] == if i < x then Mark(b0[i][j], NextGeneration(b0, topology)[i][j]) else b0[i][j]
      modifies grid
      ensures forall i, j | InGrid(i, j) ::
        grid[i, j] == if i <= x then Mark(b0[i][j], NextGeneration(b0, topology)[i][j]) else b0[i][j]
      ensures born == RowPopulation(NextGeneration(b0, topology)[x], SizeUnit)
    {
      ghost var next := NextGeneration(b0, topology);
      born := 0;
      var y := 0;
      while y < SizeUnit
        invariant 0 <= y <= SizeUnit
        invariant MarkedBefore(b0, x, y)
        invariant born == RowPopulation(next[x], y)
      {
        var lives := EvaluateCell(x, y, b0);
        if lives {
          born := born + 1;
        }
        y := y + 1;
      }
    }

    /** The cells before (x, y), column by column, carry their mark; the rest
        are as they were. */
    ghost predicate MarkedBefore(b0: Board, x: int, y: int)
      requires IsGridArray(grid)
      reads this, grid
    {
      forall i, j | InGrid(i, j) ::
        grid[i, j] == if i < x || (i == x && j < y) then Mark(b0[i][j], NextGeneration(b0, topology)[i][j]) else b0[i][j]
    }

    /** The evaluation of one cell: OR SURVIVE into it when it lives on. */
    method EvaluateCell(x: int, y: int, ghost b0: Board) returns (lives: bool)
      requires IsGridArray(grid) && DeadOrAlive(b0) && InGrid(x, y)
      requires MarkedBefore(b0, x, y)
      modifies grid
      ensures MarkedBefore(b0, x, y + 1)
      ensures lives == (NextGeneration(b0, topology)[x][y] == Alive)
    {
      SurvivalOnMarkedGrid(Snapshot(grid), b0, topology, x, y);
      lives := SurvivalCondition(Snapshot(grid), topology, x, y);
      if lives {
        grid[x, y] := grid[x, y] | Survive;
      }
    }

    /** The collapse pass: every cell shifted right by one bit. */
    method CollapsePass()
      requires IsGridArray(grid)
      modifies grid
      ensures forall i, j | InGrid(i, j) :: grid[i, j] == old(grid[i, j]) >> 1
    {
      var x := 0;
      while x < SizeUnit
        invariant 0 <= x <= SizeUnit
        invariant forall i, j | InGrid(i, j) ::
          grid[i, j] == if i < x then old(grid[i, j]) >> 1 else old(grid[i, j])
      {
        var y := 0;
        while y < SizeUnit
          invariant 0 <= y <= SizeUnit
          invariant forall i, j | InGrid(i, j) ::
            grid[i, j] == if i < x || (i == x && j < y) then old(grid[i, j]) >> 1 else old(grid[i, j])
        {
          grid[x, y] := grid[x, y] >> 1;
          y := y + 1;
        }
        x := x + 1;
      }
    }

    /** `sequence_detected(s)`: does another slot of the ring hold crc[s]? */
    method SequenceDetected(s: int) returns (found: bool)
      requires crc.Length == RingSize && 0 <= s < RingSize
      ensures found == Repeats(crc[..], s)
    {
      var i := 0;
      while i < crc.Length
        invariant 0 <= i <= crc.Length
        invariant forall k | 0 <= k < i :: k == s || crc[k] != crc[s]
      {
        if i != s && crc[i] == crc[s] {
          assert crc[..][i] == crc[..][s];
          return true;
        }
        i := i + 1;
      }
      return false;
    }

    /** One turn of the main loop: record the fingerprint of the grid in slot
        step & 7, advance one generation, and halt when nobody is alive or the
        fingerprint repeats one still in the ring. */
    method Tick() returns (alive: int, halt: bool)
      requires Valid()
      modifies this, grid, crc
      ensures Valid()
      ensures boards == old(boards) + [old(Snapshot(grid))] && step == old(step) + 1
      ensures Snapshot(grid) == NextGeneration(old(Snapshot(grid)), topology)
      ensures alive == Population(Snapshot(grid))
      ensures halt <==> alive == 0 || Repeats(Ring(Fingerprints(checksum, boards)), old(step) % RingSize)
    {
      var slot := step % RingSize;
      ghost var previous := Fingerprints(checksum, boards);
      crc[slot] := checksum(Bytes(Snapshot(grid)));
      boards := boards + [Snapshot(grid)];
      RingRecord(previous, checksum(Bytes(Snapshot(grid))));
      assert Fingerprints(checksum, boards) == previous + [checksum(Bytes(Snapshot(grid)))];
      alive := Generation();
      halt := alive == 0;
      if !halt {
        halt := SequenceDetected(slot);
      }
      step := step + 1;
    }
  }
}
