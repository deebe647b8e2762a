# Game of Life core in Dafny

This project models the automaton at the heart of a console Game of Life
written in Java: the `Grid` class (`src/Grid.java`), which owns a fixed
`rows × cols` board and advances it one generation at a time under
Conway's four rules, and the `Cell` class (`src/Cell.java`), a boolean
with a setter and a two-glyph text form.

The project has four modules:

- `Cells` (`cell.dfy`) holds the `Cell` class, with its field, constructor, `IsAlive`,
  `SetAlive` and `ToString`. It also holds the two glyph constants and `Glyph`, the
  pure glyph of a state, with its inverse `ReadGlyph`.
- `Life` (`life.dfy`) gives the automaton as values. A `Board` is a sequence of rows of
  booleans. The module defines the bounded neighbour count `Neighbours` and the rule
  `NextState`. It defines the simultaneous step `Step`, the text seeding `Seed` and the
  rendering `RenderBoard`. Lemmas state what the source promises about each of them.
- `Patterns` (`patterns.dfy`) checks the classic fixtures. A block is a still life and
  a blinker has period two. The blinker's period depends on every cell being computed
  from the same previous generation; the block stays still under any update order,
  since none of its cells changes. A blinker laid on a single row of five cells has no
  room to turn vertical: `RowBlinkerFades` shows that one step leaves only its centre
  cell, which is why the blinker fixtures sit in the middle of a 5×5 board.
- `Grids` (`grid.dfy`) holds the imperative `Grid` class. It keeps the board in an
  `array2<bool>` and has the source's nested loops, with their invariants. A ghost
  field `Contents` holds the board as a value, and `Valid()` ties it cell by cell to
  the array. Each method is proved against the `Life` definitions:
  - the constructor yields `DeadBoard`;
  - `InitializeFromInput` yields `Seed(old(Contents), lines)`;
  - `CountLiveNeighbors` returns `Neighbours`;
  - `Update` yields `Step(old(Contents))` in a freshly allocated array (double buffering);
  - `Render` returns `RenderBoard(Contents)`.

One point where the documentation and the code differ, resolved in favour of the code:
the doc comment of `initializeFromInput` (src/Grid.java:62-63) says that any character
other than `'1'` sets a cell dead, but the code only ever sets cells alive. `Seed`
follows the code, and `SeedKeepsLiveCells` records the difference. On a freshly
constructed grid the two readings agree.

## Model

| member | source | states |
|---|---|---|
| `Cells.Glyph` | src/Cell.java:17-20 | the glyph of a state is one character; it is the live glyph exactly when the state is alive and the dead glyph exactly when it is dead |
| `Cells.ReadGlyph` | src/Cell.java:17-20 | a string reads back as a state exactly when it is one of the two glyphs |
| `Cells.GlyphRoundTrip` | src/Cell.java:55-57 | reading back the glyph of a state gives that state, so the rendered glyph determines the cell |
| `Cells.GlyphCharDetermines` | src/Cell.java:17-20 | the two glyphs differ in their single character, so one character already determines the state |
| `Cells.Cell.constructor` | src/Cell.java:27-29 | a new cell holds the state it was given |
| `Cells.Cell.IsAlive` | src/Cell.java:36-38 | returns the stored state and changes nothing |
| `Cells.Cell.SetAlive` | src/Cell.java:45-47 | afterwards the stored state is the argument; only this cell may change |
| `Cells.Cell.ToString` | src/Cell.java:55-57 | a one-character string that is the live glyph iff the cell is alive and the dead glyph iff it is dead |
| `Life.DeadBoard` | src/Grid.java:37-42 | the board of a fresh grid has the requested dimensions and no live cell |
| `Life.Neighbours` | src/Grid.java:119-139 | the number of live cells among the eight Moore neighbours that lie on the board is at most 8 |
| `Life.CornerNeighbours` | src/Grid.java:131 | a corner cell of a rows × cols grid counts at most 3 neighbours |
| `Life.EdgeNeighbours` | src/Grid.java:131 | a cell on any edge counts at most 5 neighbours |
| `Life.NeighboursLocal` | src/Grid.java:123-136 | the count depends only on the on-board cells adjacent to (row, col); the centre cell and every cell further away do not affect it |
| `Life.NoWrapAround` | src/Grid.java:131 | in a grid of at least three rows, replacing the last row does not change the count of any cell in the first row (no toroidal wrap) |
| `Life.BlockScanCounts` | src/Grid.java:123-137 | scanning the 3×3 block in row-major order and skipping its centre adds up to exactly the neighbour count |
| `Life.NextState` | src/Grid.java:95-101 | the closed-form rule obeys the four rules: a live cell with fewer than 2 or more than 3 neighbours dies, with 2 or 3 it survives, and a dead cell becomes alive exactly with 3 |
| `Life.Step` | src/Grid.java:86-105 | the next board has the same shape, and each cell is the rule applied to that cell's state and neighbour count on the previous board |
| `Life.StepKeepsDead` | src/Grid.java:86-108 | an all-dead board steps to itself (no spontaneous life) |
| `Life.Seed` | src/Grid.java:65-74 | seeding keeps the shape; cell (i, j) is alive afterwards iff it was alive before or line i exists, is longer than j and has '1' at position j |
| `Life.SeedMonotone` | src/Grid.java:69-71 | seeding never kills a cell, and a cell it brings to life sits under a '1' |
| `Life.SeedIdempotent` | src/Grid.java:65-74 | seeding twice with the same lines equals seeding once |
| `Life.SeedShortInput` | src/Grid.java:66-68 | on a dead 3×3 grid, lines "101" and "1" give rows [alive, dead, alive], [alive, dead, dead], [dead, dead, dead] |
| `Life.SeedKeepsLiveCells` | src/Grid.java:62-71 | a '0' under a live cell leaves it alive, contrary to the doc comment |
| `Life.RenderRow` | src/Grid.java:149-151 | the line of a row, built one cell at a time as the inner loop does, has two characters per cell |
| `Life.RenderBoard` | src/Grid.java:148-153 | the rendering of a board, built one row at a time as the outer loop does, is empty exactly for an empty board and has at least one character per row |
| `Life.RenderRowExtend` | src/Grid.java:149-151 | rendering one more cell of a row appends that cell's glyph and one space |
| `Life.RenderBoardExtend` | src/Grid.java:148-153 | rendering one more row appends that row's line and a newline |
| `Life.RenderRowAt` | src/Grid.java:149-151 | a row's line has two characters per cell; position 2k holds cell k's glyph and position 2k + 1 a space |
| `Life.RenderBoardLength` | src/Grid.java:146-155 | a rows × cols board renders to rows · (2 · cols + 1) characters |
| `Life.RenderRowNoNewline` | src/Grid.java:149-151 | a row's line contains no newline |
| `Life.RenderBoardLines` | src/Grid.java:148-153 | the rendering contains exactly one newline per row |
| `Life.RenderRowInjective` | src/Grid.java:149-151 | two rows with the same line are equal |
| `Life.RenderBoardInjective` | src/Grid.java:146-155 | two rows × cols boards with the same rendering are equal |
| `Patterns.NeighboursTranspose` | src/Grid.java:123-136 | the count of a cell on the mirrored board equals the count of the original cell |
| `Patterns.StepTranspose` | src/Grid.java:86-105 | stepping commutes with mirroring, because the rule treats rows and columns alike |
| `Patterns.BlockIsStill` | src/Grid.java:86-108 | a 2×2 block inside a 4×4 board is a fixed point of the step |
| `Patterns.BlinkerTurns` | src/Grid.java:86-108 | one step turns a horizontal blinker vertical |
| `Patterns.BlinkerTurnsBack` | src/Grid.java:86-108 | one step turns the vertical blinker horizontal again |
| `Patterns.BlinkerPeriodTwo` | src/Grid.java:86-108 | the blinker returns to itself after exactly two steps and differs from itself after one |
| `Patterns.RowBlinkerFades` | src/Grid.java:86-108 | on a 1×5 board the blinker does not oscillate: one step leaves only its centre cell, and a second step does not restore it |
| `Grids.Grid.constructor` | src/Grid.java:32-43 | the grid has the given dimensions, a fresh fully populated array, and every cell dead |
| `Grids.Grid.InitializeFromInput` | src/Grid.java:65-74 | afterwards the board is the seeding of the old board by the lines; the array object and the dimensions are unchanged |
| `Grids.Grid.CountLiveNeighbors` | src/Grid.java:119-139 | the 3×3 scan returns exactly the bounded neighbour count of the current board, for any coordinates |
| `Grids.Grid.Update` | src/Grid.java:85-109 | the cells are replaced by a freshly allocated array that holds the step of the previous board; every count is taken from the previous generation |
| `Grids.Grid.Render` | src/Grid.java:146-155 | returns the rendering of the current board: per row, every glyph followed by a space, then a newline |

## Left out

- `src/GameOfLife.java` is not part of this model. It holds the console driver: it reads
  the mode and the input lines, clears the screen with ANSI codes, sleeps between
  generations and loops forever. None of this is logic the core computes.
- `Grid.initializeRandom` (src/Grid.java:49-57) is not modelled. It draws from
  `java.util.Random` and compares a floating-point draw with 0.2.
- The grid stores booleans, not `Cell` objects. The source allocates a new `Cell` per
  cell in the constructor and in `update`, and seeds by calling `setAlive` on the stored
  cells. The model writes the same booleans into an `array2<bool>`. Object identity and
  aliasing of cells are therefore not modelled. `Cell` is modelled on its own, and its
  glyph function `Glyph` is the one the rendering uses.
- Dimensions are `nat`. A negative size makes Java throw when it allocates the array,
  and that failure is not modelled. Zero rows or columns give an empty board, as in Java.
- A `null` input array or a `null` line is not modelled. The input is a sequence of strings.
- `CountLiveNeighbors` uses unbounded integers. The source adds ±1 to `int` coordinates,
  which could overflow only for coordinates near the `int` limits. `update` never
  passes such coordinates.
- The glyphs are the code points U+25A0 and U+25A1. Each is a single Dafny `char`, and
  each is a single UTF-16 unit in Java, so the lengths agree.
- `Life.Seed` / `Grids.Grid.InitializeFromInput`: input columns are Unicode scalar
  values (one Dafny `char` each), whereas `line.length()` and `line.charAt(j)` at
  src/Grid.java:68-69 count UTF-16 units. The two agree only on input inside the Basic
  Multilingual Plane; a character outside it, such as an emoji, shifts every later
  column by one in Java but not in the model.
