# Game of Life engine and pattern loaders, in Dafny

This project models the core of a small Conway's Game of Life program: the
engine in `gol.c` and the pattern loaders in `parse.c`.

- **The grid** (module `Grid`) is a 256 x 256 array of bytes. A cell holds
  DEAD (0) or ALIVE (1); during a generation it may also carry the SURVIVE
  bit (2). The model keeps the grid as an `array2<bv8>` and reads it as a value
  (`Board`) wherever a specification needs one.
- **The rules** (module `Rules`) cover the two neighbour-counting strategies
  and the B3/S23 survival test:
  - the bounded ("border") count skips neighbours off the grid;
  - the toroidal count wraps coordinates with `& SIZEMASK`, modelled as
    `% 256`.
- **The checksum ring** (module `Cycle`) holds the last eight grid
  fingerprints, `crc[step & 7]`, and the repeat test `sequence_detected`.
- **The simulation state** (module `Simulation`, class `Life`) owns the grid,
  the ring and the step counter. It covers:
  - seeding with the acorn;
  - the two in-place passes of a generation: the evaluation pass ORs SURVIVE
    into every cell that lives on and counts them, and the collapse pass
    shifts every cell right by one;
  - one turn of the main loop with its halt test. The loop halts when
    `alive == 0`, or when a fingerprint repeats one of the seven before it.
- **Text scanning** (module `Scan`) covers the pieces of `sscanf`, `strrchr`
  and `strcasecmp` that the loaders use, over strings.
- **The loaders as values** (module `Dialects`) define what each dialect does:
  Life 1.06, plaintext (`.cells`) and run-length encoded (`.rle`). Each is a
  function from the file's lines and the loaders' shared statics (`x`, `y`,
  and whether the line pointer `p` was set) to a status, the set of cells
  made ALIVE and the new statics. The extension dispatch of `parse_file`
  is defined here too.
- **The loaders as code** (module `Parse`, class `Loader`) are the same loops
  written imperatively over the grid array and the statics. Each method is
  proved to leave exactly what its function above describes.

The generation is proved equal to a pure next-generation function of the
board before it. This holds because a cell marked SURVIVE part-way through
the evaluation pass still reads the same to every later survival test. The
`alive` count is proved to be the population of the new grid. The halt test
is proved to fire exactly on extinction, or when a fingerprint recurs within
seven steps; until the ring is full, a zero fingerprint also fires it.

The Life 1.06 and plaintext loaders are proved to set exactly the cells their
lines name, where each dialect puts them. The RLE loader is described piece by
piece:
- the header line;
- a run with its count, or the default count of 1;
- the row skip `$`;
- where the first and the later data lines start;
- '!' ending the load with Success and nothing after it being read;
- success being impossible without a '!';
- every cell it sets lying on the grid.

There is no whole-input description of the RLE cells.

RLE run counts of one or two digits read as their decimal value. Each digit
multiplies the count so far by a weight that itself grows by ten
(`parse.c:59-61`), so the digits d1 d2 d3 read as 1000 * d1 + 100 * d2 + d3.
A count of three or more digits is therefore read as its decimal value only
when its leading digits are 0: "009" reads as 9, but "100" reads as 1000. The
model keeps this behaviour, and `Dialects.CountOfThreeDigits` states it.

## Model

| member | source | states |
|---|---|---|
| Grid.PopulationIsLiveCount | gol.c:274-285 | the number of cells the evaluation pass counts equals the number of ALIVE cells of the board |
| Grid.PopulationZeroIffExtinct | gol.c:307 | a population of 0 holds exactly when no cell is ALIVE, in both directions |
| Grid.BoardOfLiveCells | gol.c:95-101 | a board built from in-grid cells has exactly those cells alive and a population of their number |
| Grid.PaintOnlyAddsLife | parse.c:72 | setting cells ALIVE changes exactly the named cells and keeps a DEAD/ALIVE grid DEAD/ALIVE |
| Rules.NumberOfNeighboursBorder | gol.c:104-134 | the bounded count is at most 3 in a corner, 5 on an edge and 8 inside |
| Rules.NumberOfNeighboursTorus | gol.c:136-158 | the toroidal count lies between 0 and 8 |
| Rules.NumberOfNeighbours | gol.c:160 | the selected strategy's count lies between 0 and 8 |
| Rules.Wrap | gol.c:140-155 | `& SIZEMASK` yields a coordinate on the grid, keeps on-grid ones, and sends one step past either edge to the opposite edge |
| Rules.SurvivalCondition | gol.c:162-170 | B3/S23: a cell lives exactly when it has 3 neighbours, or is alive and has 2; so a dead cell is born exactly with 3 |
| Rules.NextGeneration | gol.c:274-293 | every cell of the next generation is DEAD or ALIVE, and ALIVE exactly when born with 3 neighbours or alive with 2 |
| Rules.SurvivalReadsLiveBits | gol.c:162-170 | both counts and the survival test depend only on bit 0 of each cell |
| Rules.MarkKeepsLiveBit | gol.c:281 | OR-ing SURVIVE keeps bit 0, and a marked DEAD/ALIVE cell shifts to ALIVE while an unmarked one shifts to DEAD |
| Rules.TorusMatchesBorderInside | gol.c:104-158 | away from the edges the toroidal and bounded counts agree |
| Rules.TorusIsBorderAtCentre | gol.c:136-158 | every toroidal count is the bounded count at the centre of the board rotated to bring that cell there |
| Rules.TorusStepCommutesWithRotation | gol.c:136-170 | on the torus, a generation of a rotated board is the rotated generation |
| Rules.EmptyStaysEmpty | gol.c:162-170 | the all-DEAD board is its own next generation under either strategy |
| Cycle.Slot | gol.c:270 | a slot holds 0 or a fingerprint of a step whose number modulo 8 names that slot |
| Cycle.Ring | gol.c:209 | the ring has eight slots |
| Cycle.Repeats | gol.c:211-224 | the repeat test of `sequence_detected`: another slot holds the value of slot s; it has no contract of its own, and `Simulation.Life.SequenceDetected` and `Cycle.DetectionIffRecentRepeat` are its partners |
| Cycle.RingRecord | gol.c:270 | writing a fingerprint changes only slot `step & 7` of the ring |
| Cycle.SlotIsLatestWrite | gol.c:270 | a slot holds the fingerprint of any step that wrote it fewer than eight steps ago |
| Cycle.SlotUnwritten | gol.c:209 | a slot not yet reached by the step counter still holds the 0 of static storage |
| Cycle.RecentRepeatDetected | gol.c:211-224 | a fingerprint equal to one of the seven before it is always reported |
| Cycle.DetectedIsRecentRepeat | gol.c:211-224 | a report means a recent repeat, or a 0 fingerprint matching an unwritten slot before the ring is full |
| Cycle.DetectionIffRecentRepeat | gol.c:211-224 | the detector fires exactly on a repeat within seven steps, or on a 0 fingerprint before the ring is full |
| Cycle.ZeroMatchesUnwrittenSlot | gol.c:209-224 | before the ring is full, a 0 fingerprint is reported as a repeat |
| Simulation.CollapseOfMark | gol.c:287-293 | the collapse pass turns a cell marked by the evaluation pass into its next state |
| Simulation.SurvivalOnMarkedGrid | gol.c:274-285 | a part-marked grid gives every survival test the answer of the grid before the pass |
| Simulation.AcornCells | gol.c:95-101 | the acorn seed is seven distinct cells, all on the grid |
| Simulation.Bytes | gol.c:270 | the checksummed bytes are the 65536 cells of the grid |
| Simulation.BytesInMemoryOrder | gol.c:270 | cell (x, y) is byte 256 * x + y, as `grid[x][y]` lies in memory |
| Simulation.BytesInjective | gol.c:270 | two grids with the same checksummed bytes are the same grid |
| Simulation.RecurringGridDetected | gol.c:270-307 | a grid that recurs within seven generations makes the halt test fire |
| Simulation.ExtinctIsFixedPoint | gol.c:307 | a grid with population 0 is the empty grid, and its next generation is itself |
| Simulation.Life.constructor | gol.c:209 | the grid is all DEAD, the ring and the step counter are zero, and the strategy and checksum are those given |
| Simulation.Life.InitGrid | gol.c:26-102 | the grid holds exactly the seven acorn cells ALIVE around (128, 128), every other cell DEAD |
| Simulation.Life.Clear | gol.c:30 | every cell is DEAD |
| Simulation.Life.SetAlive | gol.c:95-101 | the named cell is ALIVE and every other cell is unchanged |
| Simulation.Life.Generation | gol.c:274-293 | the grid becomes the next generation of the old grid, and `alive` is the population of the new grid |
| Simulation.Life.EvaluationPass | gol.c:274-285 | every cell is marked SURVIVE exactly when it lives in the next generation, and `alive` counts those cells |
| Simulation.Life.EvaluateColumn | gol.c:277-284 | column x is marked by the next generation of the grid before the pass, and the count is that column's population |
| Simulation.Life.EvaluateCell | gol.c:279-283 | one more cell is marked, and the test result is the cell's next state computed from the grid before the pass |
| Simulation.Life.CollapsePass | gol.c:287-293 | every cell is shifted right by one bit |
| Simulation.Life.SequenceDetected | gol.c:211-224 | the result is true exactly when another slot holds the value of slot `step` |
| Simulation.Life.Tick | gol.c:266-313 | the grid is fingerprinted into the ring, advanced one generation and counted; the loop halts exactly on zero population or a repeat in the ring |
| Scan.LastDot | parse.c:160 | the position found holds '.' with no '.' after it, or the name holds no '.' |
| Scan.Extension | parse.c:160-164 | the extension holds no '.'; it is what follows the last '.' of the name, or empty when the name holds no '.' |
| Scan.ScanInt | parse.c:140 | `%d` stops after at least one character when it converts |
| Scan.ScanFrom | parse.c:38 | `sscanf` converts at most one value per directive; `Scan.ScanHeaderText` and `Scan.ScanIntRoundTrip` state what it reads |
| Scan.ScanHeaderWithoutRule | parse.c:38 | on "x = 3, y = 3" the header format converts the two sizes and nothing else, so the `== 3` test fails |
| Scan.EqualsIgnoreCase | parse.c:43 | `strcasecmp(a, b) == 0`: equal lengths and equal characters after ASCII lower-casing; no contract of its own, used by `Dialects.RleHeader` |
| Scan.DecimalOfNatDigits | parse.c:140 | the decimal value of a number's digit string is the number |
| Scan.ScanIntRoundTrip | parse.c:140 | `%d` at a number's decimal text, ended by a non-digit, reads back the number and stops after it |
| Scan.ScanHeaderText | parse.c:38 | the header format applied to "x = w, y = h, rule = r", with any trailing white space such as the newline `fgets` keeps, yields w, h and r |
| Dialects.Life106Line | parse.c:137-141 | one Life 1.06 line: whatever `sscanf` converts is stored in x and y, and a two-number line sets its cell; no contract of its own, `Dialects.Life106Sets` is its partner |
| Dialects.Life106LineCell | parse.c:137-141 | one line, while the load is going, adds the cell it names when that cell is on the grid, stops the load with OutOfGrid when it is not, and otherwise leaves status and cells alone; a stopped load stays as it is |
| Dialects.Life106 | parse.c:133-145 | the Life 1.06 loader over the lines from the statics; no contract of its own, `Dialects.Life106Sets` is its partner |
| Dialects.Life106Sets | parse.c:133-145 | the Life 1.06 loader never fails on content; it succeeds exactly when every named cell is on the grid, and then sets exactly the named cells |
| Dialects.Life106Folds | parse.c:135-142 | the line loop keeps the Life 1.06 invariant from any starting cursor |
| Dialects.PlainChar | parse.c:120-123 | one plaintext character: '.' moves right, 'O' sets the cell and moves right, anything else is ignored; no contract of its own, `Dialects.PlainRow` is its partner |
| Dialects.PlainLine | parse.c:113-126 | a '!' line is skipped, any other line is a row read from column Cx; no contract of its own, `Dialects.PlaintextRows` is its partner |
| Dialects.Plaintext | parse.c:107-130 | the plaintext loader from row Cy; no contract of its own, `Dialects.PlaintextRows` is its partner |
| Dialects.PlainRow | parse.c:116-124 | a row sets the k-th column character that is 'O' at column Cx + k, advances past every '.' and 'O', and fails exactly when a cell is off the grid |
| Dialects.PlaintextRows | parse.c:107-130 | the plaintext loader sets the cells of every non-'!' row, row r on line Cy + r; it fails exactly when one is off the grid, and otherwise ends one row below the last |
| Dialects.PlainFolds | parse.c:111-127 | the line loop keeps the plaintext invariant |
| Dialects.OnGridFrom | parse.c:68-77 | the run cells counted from the cursor are on the grid, and the next one is not |
| Dialects.Columns | parse.c:118-124 | only '.' and 'O' occupy a column |
| Dialects.Half | parse.c:40-41 | C `v / 2`: the quotient truncated toward zero |
| Dialects.RleChar | parse.c:57-99 | one RLE data character; no contract of its own, `Dialects.RunOfCount`, `Dialects.BareRun`, `Dialects.NewRow`, `Dialects.BangEndsLine` and `Dialects.CountOfTwoDigits` state what each kind of character does |
| Dialects.RleLine | parse.c:35-100 | one RLE line: a comment, a header or data; no contract of its own, `Dialects.RleHeader`, `Dialects.FirstDataLineAtOrigin` and `Dialects.LaterDataLinesContinue` are its partners |
| Dialects.RleLoad | parse.c:27-104 | the RLE loader over the lines; no contract of its own, `Dialects.RleSuccessNeedsBang`, `Dialects.BangEndsLoad` and `Dialects.RleCellsOnGrid` are its partners |
| Dialects.RleHeader | parse.c:38-47 | a header line, with or without trailing white space, stores w and h in the statics and puts the origin at (Cx - w/2, Cy - h/2), truncating; it continues only for rule B3/S23 in any case, and fails otherwise |
| Dialects.CountOfTwoDigits | parse.c:57-62 | one- and two-digit run counts read as their decimal value |
| Dialects.CountOfThreeDigits | parse.c:57-62 | the count "100" reads as 1000 |
| Dialects.RunLength | parse.c:65-66 | the run length is the count read so far, or 1 when there is none |
| Dialects.RunOfCount | parse.c:63-81 | for any count read so far, or the default 1, an 'o' run that fits sets that many cells rightward on the row and a 'b' run sets none; both move x past the run and reset the count |
| Dialects.BareRun | parse.c:63-93 | without a count, 'o' sets one cell and moves right, 'b' moves right, and '$' goes to the start of the next row |
| Dialects.CountedRun | parse.c:57-81 | one or two count digits followed by a tag make a run of the count's decimal value |
| Dialects.NewRow | parse.c:82-94 | '$' sets x back to x0 and moves y down by the count, or by 1 without one, keeping the cells |
| Dialects.DataLine | parse.c:35-55 | a line that starts with neither '#' nor 'x' is read as data from the start cursor |
| Dialects.HeaderWithoutRule | parse.c:38-61 | "x = 3, y = 3" is not a header: it is read as data from `Dialects.DataStart` of the scanned x and y (the origin before the first data line, the scanned values after one), and its digits leave the pending run count 33 with the next digit weighing 100 |
| Dialects.GliderChars | parse.c:57-99 | the glider line "bo$2bo$3o!" from the centre with any pending count n below Cx (so the top cell is on the grid): only the leading 'b' spends n, so the top cell lands at (Cx + n, Cy), the '$' returns x to x0 and the other four cells are those of a glider from the centre; the line ends in Success at its '!' |
| Dialects.HeaderlessGlider | parse.c:33-104 | "x = 3, y = 3" followed by the glider line loads with Success, from any statics before the first data line, and sets the top cell at (Cx + 33, Cy) while a glider without the stray count sets it at (Cx + 1, Cy); the other four cells are the same |
| Dialects.FirstDataLineAtOrigin | parse.c:49-53 | the first data line starts at the origin (x0, y0) |
| Dialects.LaterDataLinesContinue | parse.c:49-53 | after a data line, the next data line carries on from the cursor the previous one left |
| Dialects.BangEndsLine | parse.c:95-99 | a '!' reached while the load is going ends it with Success, ignoring the rest of the line |
| Dialects.BangEndsLoad | parse.c:33-104 | a '!' on a data line reached while going makes the whole load a Success with the cells set before it; later lines are never read |
| Dialects.RleCellsOnGrid | parse.c:63-81 | every cell an RLE load sets lies on the grid |
| Dialects.CharsSucceedAtBang | parse.c:95-99 | the characters of a line end the load with success only at a '!' |
| Dialects.SuccessNeedsBang | parse.c:33-103 | the line loop succeeds only when a non-comment line holds '!' |
| Dialects.RleSuccessNeedsBang | parse.c:27-104 | the RLE loader succeeds only when a non-comment line holds '!'; running out of lines is a failure |
| Dialects.DialectOf | parse.c:160-177 | the dialect `parse_file` picks from the extension; no contract of its own, `Dialects.DialectByExtension` and `Dialects.DialectWithoutDot` are its partners |
| Dialects.LoadFile | parse.c:153-181 | `parse_file` on a name and the file's lines; no contract of its own, `Parse.Loader.ParseFile` is proved against it |
| Dialects.ExtensionAfterLastDot | parse.c:160-164 | the extension of "stem.ext" is ext whenever ext holds no '.' |
| Dialects.DialectByExtension | parse.c:166-177 | "rle" selects the RLE loader and "cells" the plaintext loader, compared case-sensitively; any other extension selects Life 1.06 |
| Dialects.DialectWithoutDot | parse.c:160-177 | a name without a '.' is read as Life 1.06 |
| Parse.Loader.constructor | parse.c:23-24 | the statics x and y start at 0 and the line pointer unset |
| Parse.Loader.ParseLife106 | parse.c:133-145 | the grid and statics end as the Life 1.06 load of the lines describes, on top of the grid before |
| Parse.Loader.ReadCell | parse.c:137-141 | one line stores what `sscanf` converted in x and y, and sets the cell it names |
| Parse.Loader.ParsePlaintext | parse.c:107-130 | the grid and statics end as the plaintext load of the lines describes, on top of the grid before |
| Parse.Loader.ReadRow | parse.c:118-124 | the character loop over one row leaves the cursor and cells of the row as the plaintext function says |
| Parse.Loader.WriteRun | parse.c:63-81 | a run writes the on-grid part of its cells ALIVE (for 'o'), moves x past them, and reports whether the whole run fit |
| Parse.Loader.ParseRle | parse.c:27-104 | the grid and statics end as the RLE load of the lines describes, on top of the grid before |
| Parse.Loader.ReadLine | parse.c:33-100 | one pass of the line loop matches the RLE line function, continuing or stopping with its status |
| Parse.Loader.ReadData | parse.c:55-100 | the character loop over a data line matches the RLE character function |
| Parse.Loader.ParseFile | parse.c:147-182 | a missing name or file fails with nothing loaded; otherwise the loader chosen by the extension runs |

## Left out

- Rendering, the window, the event loop, the frame delay and the final
  message box (`gol.c:185-207`, `gol.c:241-262`, `gol.c:295-305`,
  `gol.c:315-317`) are I/O. `Simulation.Life.Tick` covers one turn without
  the quit events.
- `command_line_parameter` (`gol.c:226-239`) reads only the full-screen flag,
  which concerns the window.
- The `printf` output of the RLE loader is console output.
- The body of `crc32` is not part of this model: `crc32.h` only declares
  it. The checksum is a parameter `checksum` of `Life`, applied to the grid's
  bytes in memory order, `grid[x][y]` at offset 256 * x + y.
- File reading becomes an optional sequence of lines (`None` when the file
  does not open). `fgets` splitting a line longer than 1023 characters into
  several chunks is not modelled.
- `int` arithmetic is unbounded. Overflow of the run count, `mult`, the
  cursor or the step counter is not modelled.
- `rule[16]` in `parse_rle` overflows on a rule token of 16 or more
  characters. The model reads any token.
- The comment-out seeds in `init_grid` (glider, f-pentomino and others) are
  not compiled, so they are not modelled.
- `gol.c` never calls `parse_file`, and it fixes the strategy pointer at the
  bounded count. The model takes the strategy as a parameter of `Life` and
  the loaders as a separate class over a grid array.
- Parse.Loader.ParseLife106: the C writes a cell outside the grid without a
  check, which is undefined behaviour. The model stops the load with status
  OutOfGrid at that write and keeps the cells set before it. The same holds
  for Parse.Loader.ParsePlaintext, Parse.Loader.ParseRle and the functions
  they follow.
- Parse.Loader.ParsePlaintext: only 'O' is live and only lines starting with
  '!' are skipped. A '*' or any other character is ignored without taking a
  column, and a '#' line is read as a row, as `parse.c:113-124` does.
- Parse.Loader.ParseRle: only 'b' and 'o' are run tags (`parse.c:63`). A '.'
  or another letter is ignored.
- Parse.Loader.ParseRle: a header without a rule is not a header, because
  `sscanf` must convert all three fields (`parse.c:38`), and the line is read
  as data. The x and y that `sscanf` stored are kept only when an earlier data
  line has set the line pointer; before the first data line both are reset to
  the origin x0, y0 (`parse.c:49-53`, `Dialects.DataStart`). The header's own
  digits then become the pending run count (`parse.c:57-61`): "x = 3, y = 3"
  leaves a count of 33. The first tag after it spends that count, and the next
  '$' sends x back to x0 (`parse.c:89`). So "bo$2bo$3o!" on the next line still
  loads with Success, but broken rather than moved. Its top cell lands at
  Cx + 33 instead of Cx + 1, and the other four cells stay where a glider from
  the centre puts them. The model follows the code here:
  `Dialects.HeaderWithoutRule` proves the header line and
  `Dialects.HeaderlessGlider` the whole load.
