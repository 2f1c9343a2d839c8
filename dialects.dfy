/** What each pattern loader does to the grid, as functions of the lines of the
    file: the three dialects read line by line and character by character, and
    every cell they name is set ALIVE relative to the centre (Cx, Cy). */
module Dialects {
  import opened Grid
  import opened Scan

  /** What a loader returns: Success is the C 0, Failure the C 1. OutOfGrid is
      returned where the C would write outside the grid. */
  datatype Status = Success | Failure | OutOfGrid

  /** The loader's shared statics, the cursor (x, y) and whether the line pointer
      `p` has been set (it starts out NULL), with the status so far and the cells
      set ALIVE so far. It is the state of the Life 1.06 and plaintext loaders
      and what every load leaves behind. */
  datatype Cursor = Cursor(x: int, y: int, started: bool, status: Status, cells: set<Cell>)

  /** `f` applied to the items of `xs` in order, from `s`. */
  function Fold<S, T>(f: (S, T) -> S, xs: seq<T>, s: S): S {
    if xs == [] then s else f(Fold(f, xs[..|xs| - 1], s), xs[|xs| - 1])
  }

  lemma FoldStep<S, T>(f: (S, T) -> S, xs: seq<T>, k: int, s: S)
    requires 0 <= k < |xs|
    ensures Fold(f, xs[..k + 1], s) == f(Fold(f, xs[..k], s), xs[k])
  {
    assert xs[..k + 1][..k] == xs[..k];
  }

  /** Once the fold reaches a state that every item leaves alone, it stays there. */
  lemma {:induction false} FoldStuck<S, T>(f: (S, T) -> S, xs: seq<T>, k: int, s: S)
    requires 0 <= k <= |xs|
    requires forall t :: f(Fold(f, xs[..k], s), t) == Fold(f, xs[..k], s)
    ensures Fold(f, xs, s) == Fold(f, xs[..k], s)
    decreases |xs|
  {
    if k < |xs| {
      var prefix := xs[..|xs| - 1];
      assert prefix[..k] == xs[..k];
      FoldStuck(f, prefix, k, s);
    } else {
      assert xs[..k] == xs;
    }
  }

  /** A line whose first character is `marker`. */
  predicate StartsWith(line: string, marker: char) {
    |line| > 0 && line[0] == marker
  }

  function AsInt(v: Value): int {
    match v
    case IntVal(n) => n
    case StrVal(_) => 0
  }

  function AsStr(v: Value): string {
    match v
    case IntVal(_) => ""
    case StrVal(s) => s
  }

  /** C integer division by two, which truncates toward zero. */
  function Half(v: int): (r: int)
    ensures 0 <= v ==> 0 <= v - 2 * r <= 1
    ensures v < 0 ==> -1 <= v - 2 * r <= 0
  {
    if v >= 0 then v / 2 else -((-v) / 2)
  }

  // ---------------------------------------------------------------- Life 1.06

  /** The cell a Life 1.06 line names: two integers dx dy, relative to the centre. */
  function Life106Cell(line: string): Option<Cell> {
    if StartsWith(line, '#') then None
    else
      var vs := ScanFrom(Life106Format, line, 0);
      if |vs| == 2 then Some((Cx + AsInt(vs[0]), Cy + AsInt(vs[1]))) else None
  }

  /** One Life 1.06 line: whatever `sscanf` converts is stored in x and y, and a
      line with both numbers sets its cell ALIVE; the first cell outside the grid
      stops the load. */
  function Life106Line(st: Cursor, line: string): Cursor {
    if st.status != Success || StartsWith(line, '#') then st
    else
      var vs := ScanFrom(Life106Format, line, 0);
      var st1 := st.(x := if |vs| >= 1 then AsInt(vs[0]) else st.x,
                     y := if |vs| >= 2 then AsInt(vs[1]) else st.y);
      if |vs| == 2 then
        var c := (Cx + st1.x, Cy + st1.y);
        if InGrid(c.0, c.1) then st1.(cells := st1.cells + {c}) else st1.(status := OutOfGrid)
      else st1
  }

  /** The Life 1.06 loader from the statics (x, y, started). */
  function Life106(lines: seq<string>, x: int, y: int, started: bool): Cursor {
    Fold(Life106Line, lines, Cursor(x, y, started, Success, {}))
  }

  /** The values f gives the lines, in any order. */
  function Collect(f: string -> Option<Cell>, lines: seq<string>): set<Cell> {
    set k | 0 <= k < |lines| && f(lines[k]).Some? :: f(lines[k]).value
  }

  /** The cells the lines name, in any order. */
  function NamedCells(lines: seq<string>): set<Cell> {
    Collect(Life106Cell, lines)
  }

  /** Life 1.06 never fails on content: it succeeds exactly when every named cell
      is on the grid, and then sets exactly the named cells, whatever their order. */
  lemma Life106Sets(lines: seq<string>, x: int, y: int, started: bool)
    ensures var r := Life106(lines, x, y, started);
      r.status != Failure &&
      (r.status == Success <==> forall c | c in NamedCells(lines) :: InGrid(c.0, c.1)) &&
      (r.status == Success ==> r.cells == NamedCells(lines)) &&
      r.cells <= NamedCells(lines) && r.started == started
  {
    Life106Folds(lines, Cursor(x, y, started, Success, {}));
  }

  lemma {:induction false} Life106Folds(lines: seq<string>, st0: Cursor)
    requires st0.status == Success && st0.cells == {}
    ensures var st := Fold(Life106Line, lines, st0);
      st.status != Failure &&
      (st.status == Success <==> forall c | c in NamedCells(lines) :: InGrid(c.0, c.1)) &&
      (st.status == Success ==> st.cells == NamedCells(lines)) &&
      st.cells <= NamedCells(lines) && st.started == st0.started
  {
    if lines != [] {
      var prefix := lines[..|lines| - 1];
      Life106Folds(prefix, st0);
      CollectSnoc(Life106Cell, lines);
      Life106LineCell(Fold(Life106Line, prefix, st0), lines[|lines| - 1]);
    } else {
      assert NamedCells(lines) == {};
    }
  }

  /** One line adds the cell it names when that cell is on the grid, stops the
      load on one that is not, and otherwise changes neither status nor cells. */
  lemma Life106LineCell(st: Cursor, line: string)
    ensures var r, c := Life106Line(st, line), Life106Cell(line);
      r.started == st.started &&
      (st.status != Success || c.None? ==> r.status == st.status && r.cells == st.cells) &&
      (st.status == Success && c.Some? && InGrid(c.value.0, c.value.1) ==>
         r.status == Success && r.cells == st.cells + {c.value}) &&
      (st.status == Success && c.Some? && !InGrid(c.value.0, c.value.1) ==>
         r.status == OutOfGrid && r.cells == st.cells)
  {
  }

  /** What f gives all lines is what it gives all but the last, plus the last's. */
  lemma CollectSnoc(f: string -> Option<Cell>, lines: seq<string>)
    requires lines != []
    ensures var last := f(lines[|lines| - 1]);
      Collect(f, lines) == Collect(f, lines[..|lines| - 1]) + (if last.Some? then {last.value} else {})
  {
    var prefix := lines[..|lines| - 1];
    var last := f(lines[|lines| - 1]);
    forall c | c in Collect(f, lines)
      ensures c in Collect(f, prefix) || last == Some(c)
    {
      var k :| 0 <= k < |lines| && f(lines[k]).Some? && f(lines[k]).value == c;
      if k < |prefix| { assert prefix[k] == lines[k]; }
    }
    forall c | c in Collect(f, prefix) ensures c in Collect(f, lines) {
      var k :| 0 <= k < |prefix| && f(prefix[k]).Some? && f(prefix[k]).value == c;
      assert lines[k] == prefix[k];
    }
  }

  // ---------------------------------------------------------------- plaintext

  /** One character of a row: '.' skips a column, 'O' sets a cell and moves on,
      anything else is ignored. */
  function PlainChar(st: Cursor, c: char): Cursor {
    if st.status != Success then st
    else if c == '.' then st.(x := st.x + 1)
    else if c == 'O' then
      if InGrid(st.x, st.y) then st.(x := st.x + 1, cells := st.cells + {(st.x, st.y)})
      else st.(status := OutOfGrid)
    else st
  }

  function PlainChars(s: string, st: Cursor): Cursor {
    Fold(PlainChar, s, st)
  }

  /** One line: '!' lines are skipped without using a row; any other line is the
      next row, read from column Cx. */
  function PlainLine(st: Cursor, line: string): Cursor {
    if st.status != Success || StartsWith(line, '!') then st
    else
      var after := PlainChars(line, st.(x := Cx, started := true));
      if after.status != Success then after else after.(y := after.y + 1)
  }

  /** The plaintext loader from the statics (x, started); the first row is Cy. */
  function Plaintext(lines: seq<string>, x: int, started: bool): Cursor {
    Fold(PlainLine, lines, Cursor(x, Cy, started, Success, {}))
  }

  /** The characters of a row that occupy a column. */
  function Columns(row: string): (cs: string)
    ensures forall k | 0 <= k < |cs| :: cs[k] == '.' || cs[k] == 'O'
  {
    if row == [] then []
    else
      var c := row[|row| - 1];
      Columns(row[..|row| - 1]) + (if c == '.' || c == 'O' then [c] else [])
  }

  /** The cells of row y that a row sets when read from column x. */
  function RowCells(row: string, x: int, y: int): set<Cell> {
    var cs := Columns(row);
    set k | 0 <= k < |cs| && cs[k] == 'O' :: (x + k, y)
  }

  /** A row read from column x sets cell (x + k, y) for the k-th column character
      that is 'O', moves x past every column character, and fails exactly when one
      of those cells is off the grid. */
  lemma {:induction false} PlainRow(row: string, x: int, y: int, started: bool, cells: set<Cell>)
    ensures var st := PlainChars(row, Cursor(x, y, started, Success, cells));
      st.status != Failure && st.y == y && st.started == started &&
      (st.status == OutOfGrid <==> exists c | c in RowCells(row, x, y) :: !InGrid(c.0, c.1)) &&
      (st.status == Success ==> st.cells == cells + RowCells(row, x, y) && st.x == x + |Columns(row)|)
  {
    if row != [] {
      PlainRow(row[..|row| - 1], x, y, started, cells);
      RowCellsSnoc(row, x, y);
    } else {
      assert RowCells(row, x, y) == {};
    }
  }

  /** The cells of a row are those of the row without its last character, plus
      the cell of that character when it is 'O'. */
  lemma RowCellsSnoc(row: string, x: int, y: int)
    requires row != []
    ensures var prefix, c := row[..|row| - 1], row[|row| - 1];
      RowCells(row, x, y) == RowCells(prefix, x, y) + (if c == 'O' then {(x + |Columns(prefix)|, y)} else {})
  {
    var prefix, c := row[..|row| - 1], row[|row| - 1];
    var cs, all := Columns(prefix), Columns(row);
    assert all[..|cs|] == cs;
    forall cell | cell in RowCells(row, x, y)
      ensures cell in RowCells(prefix, x, y) || (c == 'O' && cell == (x + |cs|, y))
    {
      var k :| 0 <= k < |all| && all[k] == 'O' && cell == (x + k, y);
      if k < |cs| { assert cs[k] == all[k]; }
    }
    forall k | 0 <= k < |cs| && cs[k] == 'O' ensures (x + k, y) in RowCells(row, x, y) {
      assert all[k] == cs[k];
    }
    if c == 'O' {
      assert all[|cs|] == 'O';
    }
  }

  /** The lines that are rows: all but the '!' comments. */
  function Rows(lines: seq<string>): seq<string> {
    if lines == [] then []
    else
      var last := lines[|lines| - 1];
      Rows(lines[..|lines| - 1]) + (if StartsWith(last, '!') then [] else [last])
  }

  /** The cells a plaintext pattern names: row r, read from column Cx, lies on
      grid row Cy + r. */
  function PatternCells(rows: seq<string>): set<Cell> {
    set r, c | 0 <= r < |rows| && c in RowAt(rows, r) :: c
  }

  /** The cells of row r of a pattern. */
  function RowAt(rows: seq<string>, r: int): set<Cell>
    requires 0 <= r < |rows|
  {
    RowCells(rows[r], Cx, Cy + r)
  }

  lemma PatternCellsSnoc(rows: seq<string>, row: string)
    ensures PatternCells(rows + [row]) == PatternCells(rows) + RowCells(row, Cx, Cy + |rows|)
  {
    var all := rows + [row];
    forall c | c in PatternCells(all)
      ensures c in PatternCells(rows) || c in RowCells(row, Cx, Cy + |rows|)
    {
      var r :| 0 <= r < |all| && c in RowAt(all, r);
      if r < |rows| {
        assert all[r] == rows[r];
        assert RowAt(all, r) == RowAt(rows, r);
      } else {
        assert all[r] == row;
      }
    }
    forall c | c in PatternCells(rows) ensures c in PatternCells(all) {
      var r :| 0 <= r < |rows| && c in RowAt(rows, r);
      assert all[r] == rows[r];
      assert RowAt(all, r) == RowAt(rows, r);
    }
    forall c | c in RowCells(row, Cx, Cy + |rows|) ensures c in PatternCells(all) {
      assert RowAt(all, |rows|) == RowCells(row, Cx, Cy + |rows|);
    }
  }

  /** The plaintext loader sets the cells of the pattern, row after row from
      (Cx, Cy), skipping '!' lines; it fails exactly when one of them is off the
      grid, and otherwise ends one row below the last. */
  lemma PlaintextRows(lines: seq<string>, x: int, started: bool)
    ensures var r := Plaintext(lines, x, started);
      r.status != Failure &&
      (r.status == Success <==> forall c | c in PatternCells(Rows(lines)) :: InGrid(c.0, c.1)) &&
      (r.status == Success ==> r.cells == PatternCells(Rows(lines)) && r.y == Cy + |Rows(lines)|)
  {
    PlainFolds(lines, Cursor(x, Cy, started, Success, {}));
  }

  lemma {:induction false} PlainFolds(lines: seq<string>, st0: Cursor)
    requires st0.status == Success && st0.cells == {} && st0.y == Cy
    ensures var st := Fold(PlainLine, lines, st0);
      st.status != Failure &&
      (st.status == Success <==> forall c | c in PatternCells(Rows(lines)) :: InGrid(c.0, c.1)) &&
      (st.status == Success ==> st.cells == PatternCells(Rows(lines)) && st.y == Cy + |Rows(lines)|)
  {
    if lines == [] {
      assert PatternCells([]) == {};
    } else {
      var prefix, last := lines[..|lines| - 1], lines[|lines| - 1];
      PlainFolds(prefix, st0);
      var before := Fold(PlainLine, prefix, st0);
      assert Fold(PlainLine, lines, st0) == PlainLine(before, last);
      if StartsWith(last, '!') {
        assert Rows(lines) == Rows(prefix);
      } else {
        assert Rows(lines) == Rows(prefix) + [last];
        PatternCellsSnoc(Rows(prefix), last);
        if before.status == Success {
          assert before.(x := Cx, started := true) == Cursor(Cx, before.y, true, Success, before.cells);
          PlainRow(last, Cx, before.y, true, before.cells);
        }
      }
    }
  }

  // ---------------------------------------------------------------------- RLE

  /** The state of the RLE loader: the cursor (x, y) and the row origin
      (x0, y0), the run count being read and the weight of its next digit, whether
      a data line has been read yet, and the cells set so far. */
  datatype Rle = Rle(x: int, y: int, x0: int, y0: int, count: nat, mult: nat,
                     started: bool, cells: set<Cell>)

  /** Either still reading, or stopped with a status. */
  datatype RleRun = Going(st: Rle) | Done(status: Status, st: Rle)

  /** The cell i columns right of (x, y). */
  function Right(x: int, y: int, i: int): Cell {
    (x + i, y)
  }

  /** The cells an 'o' run of n cells from (x, y) sets. */
  function Run(x: int, y: int, n: nat): set<Cell> {
    set i | 0 <= i < n :: Right(x, y, i)
  }

  /** A run of n cells from (x, y) holds the n cells rightward on row y and no
      others. */
  lemma RunCells(x: int, y: int, n: nat)
    ensures forall i | 0 <= i < n :: Right(x, y, i) in Run(x, y, n)
    ensures forall c | c in Run(x, y, n) :: c.1 == y && x <= c.0 < x + n
  {
  }

  /** How many cells from (x, y) rightward lie on the grid. */
  function OnGridFrom(x: int, y: int): (k: nat)
    ensures forall c | c in Run(x, y, k) :: InGrid(c.0, c.1)
    ensures !InGrid(x + k, y)
  {
    if InGrid(x, y) then SizeUnit - x else 0
  }

  /** One data character. A run longer than the grid allows stops the load with
      the cells before the edge set. */
  function RleChar(st: Rle, c: char): RleRun {
    if IsDigit(c) then
      Going(st.(count := st.count * st.mult + DigitValue(c), mult := st.mult * 10))
    else if c == 'b' || c == 'o' then
      var n := if st.count == 0 then 1 else st.count;
      var k := OnGridFrom(st.x, st.y);
      if c == 'o' && k < n then
        Done(OutOfGrid, st.(x := st.x + k, count := n, cells := st.cells + Run(st.x, st.y, k)))
      else
        Going(st.(x := st.x + n, count := 0, mult := 1,
                  cells := if c == 'o' then st.cells + Run(st.x, st.y, n) else st.cells))
    else if c == '$' then
      var n := if st.count == 0 then 1 else st.count;
      Going(st.(x := st.x0, y := st.y + n, count := 0, mult := 1))
    else if c == '!' then
      Done(Success, st)
    else
      Going(st)
  }

  /** A stopped load ignores the rest. */
  function RleCharStep(run: RleRun, c: char): RleRun {
    match run
    case Done(_, _) => run
    case Going(st) => RleChar(st, c)
  }

  function RleChars(s: string, st: Rle): RleRun {
    Fold(RleCharStep, s, Going(st))
  }

  /** The cursor once the header scan has stored what it converted into x and y. */
  function AfterHeaderScan(st: Rle, h: seq<Value>): Rle {
    st.(x := if |h| >= 1 then AsInt(h[0]) else st.x,
        y := if |h| >= 2 then AsInt(h[1]) else st.y)
  }

  /** The cursor a data line starts from: the pattern origin, unless a data line
      was read before. */
  function DataStart(st: Rle): Rle {
    (if st.started then st else st.(x := st.x0, y := st.y0)).(started := true)
  }

  /** One line: a '#' comment, a complete header, or data. */
  function RleLine(st: Rle, line: string): RleRun {
    if StartsWith(line, '#') then Going(st)
    else
      var h := ScanFrom(HeaderFormat, line, 0);
      var st1 := AfterHeaderScan(st, h);
      if |h| == 3 then
        var st2 := st1.(x0 := Cx - Half(st1.x), y0 := Cy - Half(st1.y));
        if EqualsIgnoreCase(AsStr(h[2]), "b3/s23") then Going(st2) else Done(Failure, st2)
      else
        RleChars(line, DataStart(st1))
  }

  function RleLineStep(run: RleRun, line: string): RleRun {
    match run
    case Done(_, _) => run
    case Going(st) => RleLine(st, line)
  }

  /** The RLE loader from the statics (x, y, started): the origin is the centre
      until a header moves it, the count is empty, and reaching the end of the
      lines without '!' is a failure. */
  function RleLoad(lines: seq<string>, x: int, y: int, started: bool): Cursor {
    match Fold(RleLineStep, lines, Going(Rle(x, y, Cx, Cy, 0, 1, started, {})))
    case Done(status, st) => Cursor(st.x, st.y, st.started, status, st.cells)
    case Going(st) => Cursor(st.x, st.y, st.started, Failure, st.cells)
  }

  /** A header line "x = w, y = h, rule = r", with or without the newline `fgets`
      keeps, stores w and h in the statics and moves the pattern origin so that
      the pattern's middle sits on the centre of the grid; it is accepted only for
      the rule B3/S23, in any letter case. */
  lemma RleHeader(st: Rle, w: int, h: int, rule: string, ws: string)
    requires IsToken(rule) && AllSpace(ws)
    ensures var st2 := st.(x := w, y := h, x0 := Cx - Half(w), y0 := Cy - Half(h));
      RleLine(st, HeaderText(w, h, rule) + ws) ==
        if EqualsIgnoreCase(rule, "b3/s23") then Going(st2) else Done(Failure, st2)
  {
    ScanHeaderText(w, h, rule, ws);
    assert (HeaderText(w, h, rule) + ws)[0] == 'x';
  }

  // ------------------------------------------------------------------ dispatch

  datatype Dialect = RleDialect | PlaintextDialect | Life106Dialect

  /** The loader `parse_file` picks by the text after the last '.' of the name,
      compared case-sensitively; anything else is read as Life 1.06. */
  function DialectOf(filename: string): Dialect {
    var ext := Extension(filename);
    if ext == "rle" then RleDialect
    else if ext == "cells" then PlaintextDialect
    else Life106Dialect
  }

  /** `parse_file` on a name and the lines of the file, None when there is no name
      or the file does not open: both fail with nothing loaded. */
  function LoadFile(filename: Option<string>, file: Option<seq<string>>,
                    x: int, y: int, started: bool): Cursor {
    if filename.None? || file.None? then Cursor(x, y, started, Failure, {})
    else match DialectOf(filename.value)
      case RleDialect => RleLoad(file.value, x, y, started)
      case PlaintextDialect => Plaintext(file.value, x, started)
      case Life106Dialect => Life106(file.value, x, y, started)
  }

  /** The extension of a name is the text after its last '.'. */
  lemma ExtensionAfterLastDot(stem: string, ext: string)
    requires forall k | 0 <= k < |ext| :: ext[k] != '.'
    ensures Extension(stem + "." + ext) == ext
  {
    var name := stem + "." + ext;
    assert name[|stem|] == '.';
    var d := LastDot(name).value;
    assert forall k | |stem| < k < |name| :: name[k] == ext[k - |stem| - 1];
    assert name[d + 1..] == ext;
  }

  /** Which loader a name selects: the one its extension names exactly, Life 1.06
      for any other extension, including a differently cased "RLE". */
  lemma DialectByExtension(stem: string, ext: string)
    requires forall k | 0 <= k < |ext| :: ext[k] != '.'
    ensures DialectOf(stem + "." + ext) ==
      (if ext == "rle" then RleDialect else if ext == "cells" then PlaintextDialect else Life106Dialect)
  {
    ExtensionAfterLastDot(stem, ext);
  }

  /** A name without a '.' is read as Life 1.06. */
  lemma DialectWithoutDot(name: string)
    requires forall k | 0 <= k < |name| :: name[k] != '.'
    ensures DialectOf(name) == Life106Dialect
  {
  }

  // --------------------------------------------------------------- RLE counts

  /** The RLE state before any run count is read. */
  predicate NoCount(st: Rle) {
    st.count == 0 && st.mult == 1
  }

  /** One and two digit run counts read as their decimal value, and every digit
      multiplies the weight of the next by ten. */
  lemma CountOfTwoDigits(st: Rle, d1: char, d2: char)
    requires NoCount(st) && IsDigit(d1) && IsDigit(d2)
    ensures RleChars([d1], st) == Going(st.(count := Decimal([d1]), mult := 10))
    ensures RleChars([d1, d2], st) == Going(st.(count := Decimal([d1, d2]), mult := 100))
  {
    assert [d1, d2][..1] == [d1];
    assert [d1][..0] == [];
    assert Decimal([d1]) == DigitValue(d1);
    assert Fold(RleCharStep, [d1][..0], Going(st)) == Going(st);
    assert RleChars([d1], st) == RleChar(st, d1);
    assert RleChars([d1, d2], st) == RleCharStep(RleChars([d1], st), d2);
  }

  /** A three-digit count is not read as its decimal value: the weight applied to
      the count so far grows with each digit, so "100" reads as 1000. */
  lemma CountOfThreeDigits(st: Rle)
    requires NoCount(st)
    ensures RleChars("100", st) == Going(st.(count := 1000, mult := 1000))
  {
    CountOfTwoDigits(st, '1', '0');
    assert "100"[..2] == "10";
    assert Decimal("10") == 10;
  }

  /** The length of the next run or row skip: the count read so far, or 1 when
      there is none. */
  function RunLength(st: Rle): (n: nat)
    ensures n >= 1 && (st.count != 0 ==> n == st.count)
  {
    if st.count == 0 then 1 else st.count
  }

  /** An 'o' or 'b' ends the count, whatever digits it was read from: an 'o' run
      that fits on the grid sets that many cells rightward from the cursor, a 'b'
      run sets none, and both move the cursor past the run on the same row. */
  lemma RunOfCount(st: Rle, c: char)
    requires c == 'o' || c == 'b'
    requires c == 'o' ==> RunLength(st) <= OnGridFrom(st.x, st.y)
    ensures var r := RleChar(st, c);
      r.Going? && NoCount(r.st) && r.st.x == st.x + RunLength(st) && r.st.y == st.y &&
      (c == 'o' ==> r.st.cells == st.cells + Run(st.x, st.y, RunLength(st))) &&
      (c == 'b' ==> r.st.cells == st.cells) &&
      r.st.x0 == st.x0 && r.st.y0 == st.y0 && r.st.started == st.started
  {
  }

  /** With no count before it, a tag stands for a run of one. */
  lemma BareRun(st: Rle)
    requires NoCount(st) && InGrid(st.x, st.y)
    ensures RleChar(st, 'o') == Going(st.(x := st.x + 1, cells := st.cells + {(st.x, st.y)}))
    ensures RleChar(st, 'b') == Going(st.(x := st.x + 1))
    ensures RleChar(st, '$') == Going(st.(x := st.x0, y := st.y + 1))
  {
    assert Run(st.x, st.y, 1) == {(st.x, st.y)} by {
      assert Right(st.x, st.y, 0) == (st.x, st.y);
    }
  }

  /** A run of one or two count digits and its tag: an 'o' run sets the cells of
      the count's decimal value, a 'b' run only moves by it. */
  lemma CountedRun(st: Rle, ds: string, c: char)
    requires NoCount(st) && 1 <= |ds| <= 2 && forall k | 0 <= k < |ds| :: IsDigit(ds[k])
    requires Decimal(ds) > 0 && (c == 'o' || c == 'b')
    requires c == 'o' ==> Decimal(ds) <= OnGridFrom(st.x, st.y)
    ensures var r := RleChars(ds + [c], st);
      r.Going? && NoCount(r.st) && r.st.x == st.x + Decimal(ds) && r.st.y == st.y &&
      r.st.cells == (if c == 'o' then st.cells + Run(st.x, st.y, Decimal(ds)) else st.cells)
  {
    var mid := RleChars(ds, st);
    if |ds| == 1 {
      CountOfTwoDigits(st, ds[0], ds[0]);
      assert ds == [ds[0]];
    } else {
      CountOfTwoDigits(st, ds[0], ds[1]);
      assert ds == [ds[0], ds[1]];
    }
    assert mid == Going(st.(count := Decimal(ds), mult := mid.st.mult));
    assert (ds + [c])[..|ds|] == ds;
    assert RleChars(ds + [c], st) == RleCharStep(mid, c);
    RunOfCount(mid.st, c);
  }

  /** '$' ends a row: x goes back to the row origin x0 and y moves down by the
      count, or by one without a count. */
  lemma NewRow(st: Rle)
    ensures var r := RleChar(st, '$');
      r.Going? && NoCount(r.st) && r.st.x == st.x0 && r.st.y == st.y + RunLength(st) &&
      r.st.cells == st.cells && r.st.x0 == st.x0 && r.st.y0 == st.y0
  {
  }

  // ------------------------------------------------------------ RLE endings

  /** A line's characters end the load with Success only at a '!'. */
  lemma {:induction false} CharsSucceedAtBang(s: string, st: Rle)
    ensures RleChars(s, st).Done? && RleChars(s, st).status == Success ==> '!' in s
  {
    if s != [] {
      var prefix := s[..|s| - 1];
      CharsSucceedAtBang(prefix, st);
      assert s == prefix + [s[|s| - 1]];
    }
  }

  /** A line that is not a comment. */
  predicate DataIn(lines: seq<string>, k: int) {
    0 <= k < |lines| && !StartsWith(lines[k], '#')
  }

  /** The RLE loader succeeds only when a line that is not a comment holds '!':
      running out of lines is a failure. */
  lemma {:induction false} SuccessNeedsBang(lines: seq<string>, st: Rle)
    ensures var run := Fold(RleLineStep, lines, Going(st));
      run.Done? && run.status == Success ==> exists k | DataIn(lines, k) :: '!' in lines[k]
  {
    if lines != [] {
      var prefix, last := lines[..|lines| - 1], lines[|lines| - 1];
      SuccessNeedsBang(prefix, st);
      var before := Fold(RleLineStep, prefix, Going(st));
      if before.Done? && before.status == Success {
        var k :| DataIn(prefix, k) && '!' in prefix[k];
        assert DataIn(lines, k) && lines[k] == prefix[k];
      }
      if before.Going? && !StartsWith(last, '#') {
        var h := ScanFrom(HeaderFormat, last, 0);
        if |h| != 3 {
          CharsSucceedAtBang(last, DataStart(AfterHeaderScan(before.st, h)));
          assert DataIn(lines, |lines| - 1);
        }
      }
    }
  }

  lemma RleSuccessNeedsBang(lines: seq<string>, x: int, y: int, started: bool)
    ensures RleLoad(lines, x, y, started).status == Success ==>
      exists k | DataIn(lines, k) :: '!' in lines[k]
  {
    SuccessNeedsBang(lines, Rle(x, y, Cx, Cy, 0, 1, started, {}));
  }

  // ---------------------------------------------------------- RLE data lines

  /** A line that is neither a comment nor a header: the header scan fails on its
      first character. */
  predicate IsDataLine(line: string) {
    !StartsWith(line, '#') && !StartsWith(line, 'x')
  }

  /** A data line is read character by character from the start cursor. */
  lemma DataLine(st: Rle, line: string)
    requires IsDataLine(line)
    ensures RleLine(st, line) == RleChars(line, DataStart(st))
  {
    assert HeaderFormat[0] == Lit('x');
    assert ScanFrom(HeaderFormat, line, 0) == [];
    assert AfterHeaderScan(st, []) == st;
  }

  /** A header without a rule is read as data: the x and y it converted stand
      only once a data line has been read, and its digits become the pending
      run count, so "x = 3, y = 3" leaves a count of 33. */
  lemma HeaderWithoutRule(st: Rle)
    requires NoCount(st)
    ensures RleLine(st, "x = 3, y = 3") ==
      Going(DataStart(st.(x := 3, y := 3)).(count := 33, mult := 100))
  {
    ScanHeaderWithoutRule();
    var d := DataStart(AfterHeaderScan(st, [IntVal(3), IntVal(3)]));
    assert d == DataStart(st.(x := 3, y := 3));
    HeaderDigits(d);
  }

  /** One character of a line, given the state the characters before it left. */
  lemma CharsStep(s: string, k: nat, d: Rle, a: Rle, b: RleRun)
    requires k < |s| && RleChars(s[..k], d) == Going(a) && RleChar(a, s[k]) == b
    ensures RleChars(s[..k + 1], d) == b
  {
    FoldStep(RleCharStep, s, k, Going(d));
  }

  /** The glider in RLE. */
  const Glider := "bo$2bo$3o!"

  /** The glider from the centre with a pending run count: the count is spent
      by the leading 'b' alone, so only the top cell moves right by it, and the
      '$' after it brings the other rows back to column Cx. */
  lemma GliderChars(d: Rle)
    requires d.x == d.x0 == Cx && d.y == d.y0 == Cy && d.cells == {} && RunLength(d) < Cx
    ensures var n := RunLength(d);
      RleChars(Glider, d) ==
        Done(Success, d.(x := Cx + 3, y := Cy + 2, count := 0, mult := 1,
                         cells := {(Cx + n, Cy), (Cx + 2, Cy + 1), (Cx, Cy + 2), (Cx + 1, Cy + 2), (Cx + 2, Cy + 2)}))
  {
    var n := RunLength(d);
    var top := d.(x := Cx, y := Cy + 1, count := 0, mult := 1, cells := {(Cx + n, Cy)});
    GliderTop(d);
    var middle := top.(y := Cy + 2, cells := top.cells + {(Cx + 2, Cy + 1)});
    GliderMiddle(d, top);
    GliderBottom(d, middle);
  }

  /** "bo$": the pending count moves the one cell of the top row. */
  lemma GliderTop(d: Rle)
    requires d.x == d.x0 == Cx && d.y == Cy && d.cells == {} && RunLength(d) < Cx
    ensures RleChars(Glider[..3], d) ==
      Going(d.(x := Cx, y := Cy + 1, count := 0, mult := 1, cells := {(Cx + RunLength(d), Cy)}))
  {
    var s, n := Glider, RunLength(d);
    var s1 := d.(x := Cx + n, count := 0, mult := 1);
    var s2 := s1.(x := Cx + n + 1, cells := {(Cx + n, Cy)});
    assert s[..0] == [];
    RunOfCount(d, 'b');
    CharsStep(s, 0, d, d, Going(s1));
    BareRun(s1);
    CharsStep(s, 1, d, s1, Going(s2));
    CharsStep(s, 2, d, s2, Going(s2.(x := Cx, y := Cy + 1)));
  }

  /** "2bo$": the middle row's cell two columns right of the row origin. */
  lemma GliderMiddle(d: Rle, a: Rle)
    requires RleChars(Glider[..3], d) == Going(a)
    requires a.x == a.x0 == Cx && a.y == Cy + 1 && NoCount(a)
    ensures RleChars(Glider[..7], d) == Going(a.(y := Cy + 2, cells := a.cells + {(Cx + 2, Cy + 1)}))
  {
    var s := Glider;
    var a4 := a.(count := 2, mult := 10);
    var a5 := a.(x := Cx + 2);
    var a6 := a5.(x := Cx + 3, cells := a5.cells + {(Cx + 2, Cy + 1)});
    CharsStep(s, 3, d, a, Going(a4));
    RunOfCount(a4, 'b');
    CharsStep(s, 4, d, a4, Going(a5));
    BareRun(a5);
    CharsStep(s, 5, d, a5, Going(a6));
    CharsStep(s, 6, d, a6, Going(a6.(x := Cx, y := Cy + 2)));
  }

  /** "3o!": the bottom row's three cells, then Success. */
  lemma GliderBottom(d: Rle, a: Rle)
    requires RleChars(Glider[..7], d) == Going(a)
    requires a.x == Cx && a.y == Cy + 2 && NoCount(a)
    ensures RleChars(Glider, d) ==
      Done(Success, a.(x := Cx + 3, cells := a.cells + {(Cx, Cy + 2), (Cx + 1, Cy + 2), (Cx + 2, Cy + 2)}))
  {
    var s := Glider;
    var a8 := a.(count := 3, mult := 10);
    var a9 := a.(x := Cx + 3, cells := a.cells + Run(Cx, Cy + 2, 3));
    CharsStep(s, 7, d, a, Going(a8));
    RunOfCount(a8, 'o');
    CharsStep(s, 8, d, a8, Going(a9));
    CharsStep(s, 9, d, a9, Done(Success, a9));
    assert s[..10] == s;
    assert Run(Cx, Cy + 2, 3) == {(Cx, Cy + 2), (Cx + 1, Cy + 2), (Cx + 2, Cy + 2)} by {
      RunCells(Cx, Cy + 2, 3);
      assert Right(Cx, Cy + 2, 0) == (Cx, Cy + 2) && Right(Cx, Cy + 2, 1) == (Cx + 1, Cy + 2);
      assert Right(Cx, Cy + 2, 2) == (Cx + 2, Cy + 2);
    }
  }

  /** A header that lost its rule, "x = 3, y = 3", before the glider line: the
      header's digits become a pending count of 33 that the glider's leading 'b'
      spends, so the top cell lands at Cx + 33 rather than Cx + 1 while the other
      four cells stay where a glider from the centre puts them. The load still
      succeeds, with a broken pattern, not a moved one. */
  lemma HeaderlessGlider(x: int, y: int)
    ensures RleLoad(["x = 3, y = 3", Glider], x, y, false) ==
      Cursor(Cx + 3, Cy + 2, true, Success,
             {(Cx + 33, Cy), (Cx + 2, Cy + 1), (Cx, Cy + 2), (Cx + 1, Cy + 2), (Cx + 2, Cy + 2)})
    ensures RleChars(Glider, Rle(Cx, Cy, Cx, Cy, 0, 1, true, {})).st.cells ==
      {(Cx + 1, Cy), (Cx + 2, Cy + 1), (Cx, Cy + 2), (Cx + 1, Cy + 2), (Cx + 2, Cy + 2)}
  {
    var lines := ["x = 3, y = 3", Glider];
    var init := Rle(x, y, Cx, Cy, 0, 1, false, {});
    var d := Rle(Cx, Cy, Cx, Cy, 33, 100, true, {});
    HeaderWithoutRule(init);
    assert DataStart(init.(x := 3, y := 3)).(count := 33, mult := 100) == d;
    assert lines[..0] == [];
    FoldStep(RleLineStep, lines, 0, Going(init));
    assert Fold(RleLineStep, lines[..1], Going(init)) == Going(d);
    DataLine(d, lines[1]);
    assert DataStart(d) == d;
    GliderChars(d);
    GliderChars(Rle(Cx, Cy, Cx, Cy, 0, 1, true, {}));
    FoldStep(RleLineStep, lines, 1, Going(init));
    assert lines[..2] == lines;
  }

  /** The characters of "x = 3, y = 3" from an empty count: only the two digits
      act, and they build the count 33. */
  lemma HeaderDigits(d: Rle)
    requires NoCount(d)
    ensures RleChars("x = 3, y = 3", d) == Going(d.(count := 33, mult := 100))
  {
    var s := "x = 3, y = 3";
    var d3 := d.(count := 3, mult := 10);
    assert s[..0] == [];
    LeftAlone(s, 0, 4, d, d);
    FoldStep(RleCharStep, s, 4, Going(d));
    assert s[4] == '3';
    LeftAlone(s, 5, 11, d, d3);
    FoldStep(RleCharStep, s, 11, Going(d));
    assert s[11] == '3';
    assert s[..12] == s;
  }

  /** Characters other than digits, 'b', 'o', '$' and '!' leave a running load
      as it is. */
  lemma {:induction false} LeftAlone(s: string, i: nat, j: nat, d: Rle, st: Rle)
    requires i <= j <= |s| && RleChars(s[..i], d) == Going(st)
    requires forall k | i <= k < j :: s[k] in " ,=xy"
    ensures RleChars(s[..j], d) == Going(st)
    decreases j - i
  {
    if i < j {
      FoldStep(RleCharStep, s, i, Going(d));
      LeftAlone(s, i + 1, j, d, st);
    }
  }

  /** The characters of a line never move the origin or clear the started flag. */
  lemma {:induction false} CharsKeepOrigin(s: string, st: Rle)
    ensures var r := RleChars(s, st).st;
      r.x0 == st.x0 && r.y0 == st.y0 && r.started == st.started
  {
    if s != [] {
      CharsKeepOrigin(s[..|s| - 1], st);
    }
  }

  /** The first data line starts at the origin, which is the centre unless a
      header moved it. */
  lemma FirstDataLineAtOrigin(st: Rle, line: string)
    requires IsDataLine(line) && !st.started
    ensures RleLine(st, line) == RleChars(line, st.(x := st.x0, y := st.y0, started := true))
  {
    DataLine(st, line);
  }

  /** Every later data line carries on from where the previous one left the
      cursor, and not from the origin. */
  lemma LaterDataLinesContinue(st: Rle, first: string, line: string)
    requires IsDataLine(first) && IsDataLine(line) && RleLine(st, first).Going?
    ensures RleLine(st, first).st.started
    ensures RleLine(RleLine(st, first).st, line) == RleChars(line, RleLine(st, first).st)
  {
    DataLine(st, first);
    CharsKeepOrigin(first, DataStart(st));
    var next := RleLine(st, first).st;
    DataLine(next, line);
    assert DataStart(next) == next;
  }

  /** A '!' reached while the load is going ends it with Success, and the rest
      of the line is ignored. */
  lemma BangEndsLine(pre: string, post: string, st: Rle)
    requires RleChars(pre, st).Going?
    ensures RleChars(pre + "!" + post, st) == Done(Success, RleChars(pre, st).st)
  {
    var s := pre + "!" + post;
    var k := |pre| + 1;
    assert s[..k][..|pre|] == pre && s[..k][|pre|] == '!';
    var stop := Fold(RleCharStep, s[..k], Going(st));
    assert stop == Done(Success, RleChars(pre, st).st);
    assert forall t :: RleCharStep(stop, t) == stop;
    FoldStuck(RleCharStep, s, k, Going(st));
  }

  /** A data line holding a '!' that the load reaches while going ends the load
      with Success; the cells are those set before the '!', and no later line is
      read. */
  lemma BangEndsLoad(lines: seq<string>, k: int, pre: string, post: string,
                     x: int, y: int, started: bool)
    requires 0 <= k < |lines| && IsDataLine(lines[k]) && lines[k] == pre + "!" + post
    requires var run := Fold(RleLineStep, lines[..k], Going(Rle(x, y, Cx, Cy, 0, 1, started, {})));
      run.Going? && RleChars(pre, DataStart(run.st)).Going?
    ensures var run := Fold(RleLineStep, lines[..k], Going(Rle(x, y, Cx, Cy, 0, 1, started, {})));
      var last := RleChars(pre, DataStart(run.st)).st;
      RleLoad(lines, x, y, started) == Cursor(last.x, last.y, last.started, Success, last.cells)
  {
    var start := Going(Rle(x, y, Cx, Cy, 0, 1, started, {}));
    var run := Fold(RleLineStep, lines[..k], start);
    var last := RleChars(pre, DataStart(run.st)).st;
    FoldStep(RleLineStep, lines, k, start);
    DataLine(run.st, lines[k]);
    BangEndsLine(pre, post, DataStart(run.st));
    var stop := Fold(RleLineStep, lines[..k + 1], start);
    assert stop == Done(Success, last);
    assert forall t :: RleLineStep(stop, t) == stop;
    FoldStuck(RleLineStep, lines, k + 1, start);
  }

  // ------------------------------------------------------- RLE cells on grid

  ghost predicate CellsOnGrid(cells: set<Cell>) {
    forall c | c in cells :: InGrid(c.0, c.1)
  }

  /** A run of n cells lies within any longer run from the same cursor. */
  lemma RunWithin(x: int, y: int, n: nat, k: nat)
    requires n <= k
    ensures Run(x, y, n) <= Run(x, y, k)
  {
    RunCells(x, y, n);
    RunCells(x, y, k);
    forall c | c in Run(x, y, n) ensures c in Run(x, y, k) {
      assert c == Right(x, y, c.0 - x);
    }
  }

  lemma CharKeepsOnGrid(st: Rle, c: char)
    requires CellsOnGrid(st.cells)
    ensures CellsOnGrid(RleChar(st, c).st.cells)
  {
    if c == 'o' {
      var n, k := RunLength(st), OnGridFrom(st.x, st.y);
      if n <= k {
        RunWithin(st.x, st.y, n, k);
      }
    }
  }

  lemma {:induction false} CharsKeepOnGrid(s: string, st: Rle)
    requires CellsOnGrid(st.cells)
    ensures CellsOnGrid(RleChars(s, st).st.cells)
  {
    if s != [] {
      var prefix := s[..|s| - 1];
      CharsKeepOnGrid(prefix, st);
      var before := RleChars(prefix, st);
      if before.Going? {
        CharKeepsOnGrid(before.st, s[|s| - 1]);
      }
    }
  }

  lemma LineKeepsOnGrid(st: Rle, line: string)
    requires CellsOnGrid(st.cells)
    ensures CellsOnGrid(RleLine(st, line).st.cells)
  {
    if !StartsWith(line, '#') {
      var h := ScanFrom(HeaderFormat, line, 0);
      if |h| != 3 {
        CharsKeepOnGrid(line, DataStart(AfterHeaderScan(st, h)));
      }
    }
  }

  lemma {:induction false} LinesKeepOnGrid(lines: seq<string>, run: RleRun)
    requires CellsOnGrid(run.st.cells)
    ensures CellsOnGrid(Fold(RleLineStep, lines, run).st.cells)
  {
    if lines != [] {
      var prefix := lines[..|lines| - 1];
      LinesKeepOnGrid(prefix, run);
      var before := Fold(RleLineStep, prefix, run);
      if before.Going? {
        LineKeepsOnGrid(before.st, lines[|lines| - 1]);
      }
    }
  }

  /** Every cell an RLE load sets is on the grid, whatever the lines hold: a run
      that would leave the grid stops the load at the edge. */
  lemma RleCellsOnGrid(lines: seq<string>, x: int, y: int, started: bool)
    ensures CellsOnGrid(RleLoad(lines, x, y, started).cells)
  {
    LinesKeepOnGrid(lines, Going(Rle(x, y, Cx, Cy, 0, 1, started, {})));
  }
}
