/** The pattern loaders as the C writes them: line loops over the file, character
    loops over each line, writing ALIVE straight into the grid and keeping the
    cursor in the statics x, y and the line pointer p shared by all three. */
module Parse {
  import opened Grid
  import opened Scan
  import opened Dialects

  class Loader {
    const grid: array2<bv8>
    /** The statics x and y. */
    var x: int
    var y: int
    /** Whether the static line pointer p has been set (it starts out NULL). */
    var started: bool

    constructor (grid: array2<bv8>)
      ensures this.grid == grid && x == 0 && y == 0 && !started
    {
      this.grid := grid;
      x, y, started := 0, 0, false;
    }

    /** The statics hold the cursor of `st`. */
    ghost predicate At(st: Cursor)
      reads this
    {
      x == st.x && y == st.y && started == st.started
    }

    /** The grid and the statics hold what `r` says, on top of `b0`. */
    ghost predicate Loaded(b0: Board, r: Cursor)
      requires IsGridArray(grid)
      reads this, grid
    {
      Snapshot(grid) == Paint(b0, r.cells) && x == r.x && y == r.y && started == r.started
    }

    /** `parse_life106` */
    method ParseLife106(lines: seq<string>) returns (status: Status)
      requires IsGridArray(grid)
      modifies this, grid
      ensures var r := Life106(lines, old(x), old(y), old(started));
        status == r.status && Loaded(old(Snapshot(grid)), r)
    {
      ghost var b0 := Snapshot(grid);
      ghost var st0 := Cursor(x, y, started, Success, {});
      ghost var st := st0;
      var k := 0;
      while k < |lines|
        invariant 0 <= k <= |lines|
        invariant st == Fold(Life106Line, lines[..k], st0)
        invariant st.status == Success && At(st) && Shows(grid, b0, st.cells)
      {
        var line := lines[k];
        FoldStep(Life106Line, lines, k, st0);
        if !StartsWith(line, '#') {
          var ok;
          ok, st := ReadCell(line, b0, st);
          if !ok {
            FoldStuck(Life106Line, lines, k + 1, st0);
            ShowsPaint(grid, b0, st.cells);
            return OutOfGrid;
          }
        } else {
          st := Life106Line(st, line);
        }
        k := k + 1;
      }
      assert lines[..k] == lines;
      ShowsPaint(grid, b0, st.cells);
      status := Success;
    }

    /** `parse_plaintext` */
    method ParsePlaintext(lines: seq<string>) returns (status: Status)
      requires IsGridArray(grid)
      modifies this, grid
      ensures var r := Plaintext(lines, old(x), old(started));
        status == r.status && Loaded(old(Snapshot(grid)), r)
    {
      ghost var b0 := Snapshot(grid);
      ghost var st0 := Cursor(x, Cy, started, Success, {});
      ghost var st := st0;
      y := Cy;
      var k := 0;
      while k < |lines|
        invariant 0 <= k <= |lines|
        invariant st == Fold(PlainLine, lines[..k], st0)
        invariant st.status == Success && At(st) && Shows(grid, b0, st.cells)
      {
        var line := lines[k];
        FoldStep(PlainLine, lines, k, st0);
        if !StartsWith(line, '!') {
          x, started := Cx, true;
          var ok;
          ghost var row;
          ok, row := ReadRow(line, b0, st.(x := Cx, started := true));
          if !ok {
            st := PlainLine(st, line);
            FoldStuck(PlainLine, lines, k + 1, st0);
            ShowsPaint(grid, b0, st.cells);
            return OutOfGrid;
          }
          y := y + 1;
        }
        st := PlainLine(st, line);
        k := k + 1;
      }
      assert lines[..k] == lines;
      ShowsPaint(grid, b0, st.cells);
      status := Success;
    }

    /** One "x y" line of a Life 1.06 file: the scanned values go to the statics
        x and y, and the cell they name, relative to the centre, is set ALIVE. */
    method ReadCell(line: string, ghost b0: Board, ghost from: Cursor) returns (ok: bool, ghost st: Cursor)
      requires IsGridArray(grid) && !StartsWith(line, '#')
      requires from.status == Success && At(from) && Shows(grid, b0, from.cells)
      modifies this`x, this`y, grid
      ensures st == Life106Line(from, line) && st.status == (if ok then Success else OutOfGrid)
      ensures At(st) && Shows(grid, b0, st.cells)
    {
      st := Life106Line(from, line);
      var vs := ScanFrom(Life106Format, line, 0);
      if |vs| >= 1 {
        x := AsInt(vs[0]);
      }
      if |vs| >= 2 {
        y := AsInt(vs[1]);
      }
      ok := true;
      if |vs| == 2 {
        if !InGrid(Cx + x, Cy + y) {
          return false, st;
        }
        grid[Cx + x, Cy + y] := Alive;
      }
    }

    /** The character loop of `parse_plaintext` over one row, from the cursor
        `from` that the statics hold; ok is false when an 'O' falls outside the
        grid. */
    method ReadRow(line: string, ghost b0: Board, ghost from: Cursor) returns (ok: bool, ghost st: Cursor)
      requires IsGridArray(grid) && from.status == Success && At(from) && Shows(grid, b0, from.cells)
      modifies this`x, grid
      ensures st == PlainChars(line, from) && st.status == (if ok then Success else OutOfGrid)
      ensures At(st) && Shows(grid, b0, st.cells)
    {
      st := from;
      var p := 0;
      while p < |line|
        invariant 0 <= p <= |line|
        invariant st == Fold(PlainChar, line[..p], from)
        invariant st.status == Success && At(st) && Shows(grid, b0, st.cells)
      {
        FoldStep(PlainChar, line, p, from);
        if line[p] == '.' {
          x := x + 1;
        } else if line[p] == 'O' {
          if !InGrid(x, y) {
            st := PlainChar(st, line[p]);
            FoldStuck(PlainChar, line, p + 1, from);
            return false, st;
          }
          grid[x, y] := Alive;
          x := x + 1;
        }
        st := PlainChar(st, line[p]);
        p := p + 1;
      }
      assert line[..p] == line;
      ok := true;
    }

    /** The statics and the locals of `parse_rle` hold the state `st`. */
    ghost predicate Mirrors(st: Rle, x0: int, y0: int, count: nat, mult: nat)
      reads this
    {
      x == st.x && y == st.y && started == st.started &&
      x0 == st.x0 && y0 == st.y0 && count == st.count && mult == st.mult
    }

    /** The run loop of `parse_rle`: n cells from the cursor, written ALIVE when
        `alive` (an 'o' run), the cursor moving one column per cell. It reports
        false, with the cells before the edge written, when a write would leave
        the grid. */
    method WriteRun(alive: bool, n: nat, ghost b0: Board, ghost cells: set<Cell>) returns (ok: bool)
      requires IsGridArray(grid) && Shows(grid, b0, cells)
      modifies this`x, grid
      ensures var k := OnGridFrom(old(x), y);
        ok == (!alive || n <= k) &&
        x == old(x) + (if ok then n else k) &&
        Shows(grid, b0, cells + (if alive then Run(old(x), y, if ok then n else k) else {}))
    {
      ghost var x1 := x;
      ghost var k := OnGridFrom(x1, y);
      var i := 0;
      while i < n
        invariant 0 <= i <= n && x == x1 + i
        invariant alive ==> i <= k
        invariant Shows(grid, b0, cells + (if alive then Run(x1, y, i) else {}))
      {
        if alive {
          if !InGrid(x, y) {
            return false;
          }
          grid[x, y] := Alive;
          assert Run(x1, y, i + 1) == Run(x1, y, i) + {Right(x1, y, i)};
        }
        i := i + 1;
        x := x + 1;
      }
      return true;
    }

    /** `parse_rle` */
    method ParseRle(lines: seq<string>) returns (status: Status)
      requires IsGridArray(grid)
      modifies this, grid
      ensures var r := RleLoad(lines, old(x), old(y), old(started));
        status == r.status && Loaded(old(Snapshot(grid)), r)
    {
      ghost var b0 := Snapshot(grid);
      var x0, y0 := Cx, Cy;
      var count: nat, mult: nat := 0, 1;
      ghost var run0 := Going(Rle(x, y, Cx, Cy, 0, 1, started, {}));
      ghost var st := run0.st;
      var k := 0;
      while k < |lines|
        invariant 0 <= k <= |lines|
        invariant Fold(RleLineStep, lines[..k], run0) == Going(st)
        invariant Mirrors(st, x0, y0, count, mult) && Shows(grid, b0, st.cells)
      {
        FoldStep(RleLineStep, lines, k, run0);
        var stop;
        x0, y0, count, mult, stop, st := ReadLine(lines[k], x0, y0, count, mult, b0, st);
        if stop.Some? {
          FoldStuck(RleLineStep, lines, k + 1, run0);
          ShowsPaint(grid, b0, st.cells);
          return stop.value;
        }
        k := k + 1;
      }
      assert lines[..k] == lines;
      ShowsPaint(grid, b0, st.cells);
      status := Failure;
    }

    /** One pass of the line loop of `parse_rle`, from the state `from` that the
        statics and the locals x0, y0, count, mult hold. It stops with a status at
        a header naming another rule, at '!' or at a run leaving the grid. */
    method ReadLine(line: string, x0': int, y0': int, count0: nat, mult0: nat,
                    ghost b0: Board, ghost from: Rle)
      returns (x0: int, y0: int, count: nat, mult: nat, stop: Option<Status>, ghost st: Rle)
      requires IsGridArray(grid) && Mirrors(from, x0', y0', count0, mult0) && Shows(grid, b0, from.cells)
      modifies this, grid
      ensures Shows(grid, b0, st.cells)
      ensures stop.None? ==> RleLine(from, line) == Going(st) && Mirrors(st, x0, y0, count, mult)
      ensures stop.Some? ==>
        RleLine(from, line) == Done(stop.value, st) && x == st.x && y == st.y && started == st.started
    {
      x0, y0, count, mult, st := x0', y0', count0, mult0, from;
      stop := None;
      if !StartsWith(line, '#') {
        var h := ScanFrom(HeaderFormat, line, 0);
        if |h| >= 1 {
          x := AsInt(h[0]);
        }
        if |h| >= 2 {
          y := AsInt(h[1]);
        }
        st := AfterHeaderScan(st, h);
        if |h| == 3 {
          x0, y0 := Cx - Half(x), Cy - Half(y);
          st := st.(x0 := x0, y0 := y0);
          if !EqualsIgnoreCase(AsStr(h[2]), "b3/s23") {
            stop := Some(Failure);
          }
        } else {
          if !started {
            x, y := x0, y0;
          }
          started := true;
          st := DataStart(st);
          count, mult, stop, st := ReadData(line, x0, y0, count, mult, b0, st);
        }
      }
    }

    /** The character loop of `parse_rle` over one data line, from the state
        `from` that the statics and the locals x0, y0, count, mult hold. It
        stops with a status at '!' or at a run leaving the grid. */
    method ReadData(line: string, x0: int, y0: int, count0: nat, mult0: nat,
                    ghost b0: Board, ghost from: Rle)
      returns (count: nat, mult: nat, stop: Option<Status>, ghost st: Rle)
      requires IsGridArray(grid) && Mirrors(from, x0, y0, count0, mult0) && Shows(grid, b0, from.cells)
      modifies this`x, this`y, grid
      ensures Shows(grid, b0, st.cells)
      ensures stop.None? ==>
        Fold(RleCharStep, line, Going(from)) == Going(st) && Mirrors(st, x0, y0, count, mult)
      ensures stop.Some? ==>
        Fold(RleCharStep, line, Going(from)) == Done(stop.value, st) &&
        x == st.x && y == st.y && started == st.started
    {
      count, mult, st := count0, mult0, from;
      var p := 0;
      while p < |line|
        invariant 0 <= p <= |line|
        invariant Fold(RleCharStep, line[..p], Going(from)) == Going(st)
        invariant Mirrors(st, x0, y0, count, mult) && Shows(grid, b0, st.cells)
      {
        var c := line[p];
        FoldStep(RleCharStep, line, p, Going(from));
        if IsDigit(c) {
          count := count * mult + DigitValue(c);
          mult := mult * 10;
        } else if c == 'b' || c == 'o' {
          if count == 0 {
            count := 1;
          }
          var ok := WriteRun(c == 'o', count, b0, st.cells);
          if !ok {
            st := RleChar(st, c).st;
            FoldStuck(RleCharStep, line, p + 1, Going(from));
            return count, mult, Some(OutOfGrid), st;
          }
          count, mult := 0, 1;
        } else if c == '$' {
          if count == 0 {
            count := 1;
          }
          x := x0;
          y := y + count;
          count, mult := 0, 1;
        } else if c == '!' {
          FoldStuck(RleCharStep, line, p + 1, Going(from));
          return count, mult, Some(Success), st;
        }
        st := RleChar(st, c).st;
        p := p + 1;
      }
      assert line[..p] == line;
      stop := None;
    }

    /** `parse_file`: `file` is the lines of the named file, or None when it does
        not open. */
    method ParseFile(filename: Option<string>, file: Option<seq<string>>) returns (status: Status)
      requires IsGridArray(grid)
      modifies this, grid
      ensures var r := LoadFile(filename, file, old(x), old(y), old(started));
        status == r.status && Loaded(old(Snapshot(grid)), r)
    {
      if filename.None? || file.None? {
        BoardExt(Snapshot(grid), Paint(Snapshot(grid), {}));
        return Failure;
      }
      var ext := Extension(filename.value);
      if ext == "rle" {
        status := ParseRle(file.value);
      } else if ext == "cells" {
        status := ParsePlaintext(file.value);
      } else {
        status := ParseLife106(file.value);
      }
    }
  }
}
