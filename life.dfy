/**
 * The Game of Life as values: a board is a sequence of rows of cell states,
 * and one generation, seeding from text and rendering to text are functions
 * on boards. The class in module Grids is proved against these definitions.
 */
module Life {
  import opened Cells

  /** Row-major cell states: b[i][j] is the cell in row i, column j; true is alive. */
  type Board = seq<seq<bool>>

  /** b has exactly `rows` rows of exactly `cols` cells each. */
  predicate IsGrid(b: Board, rows: nat, cols: nat) {
    |b| == rows && forall i :: 0 <= i < |b| ==> |b[i]| == cols
  }

  /** b has the same rows and row lengths as a. */
  predicate SameShape(a: Board, b: Board) {
    |a| == |b| && forall i :: 0 <= i < |a| ==> |a[i]| == |b[i]|
  }

  predicate AllDead(b: Board) {
    forall i, j :: 0 <= i < |b| && 0 <= j < |b[i]| ==> !b[i][j]
  }

  /** The board a freshly constructed grid holds. */
  function DeadBoard(rows: nat, cols: nat): (b: Board)
    ensures IsGrid(b, rows, cols) && AllDead(b)
  {
    seq(rows, _ => seq(cols, _ => false))
  }

  // ---------------------------------------------------------------------
  // Neighbour count

  /** 1 when (r, c) lies on the board and holds a live cell, 0 otherwise: coordinates off the board never wrap. */
  function Live(b: Board, r: int, c: int): (n: nat)
    ensures n <= 1
  {
    if 0 <= r < |b| && 0 <= c < |b[r]| && b[r][c] then 1 else 0
  }

  /** Live cells among the eight Moore neighbours of (row, col) that lie on the board. */
  function Neighbours(b: Board, row: int, col: int): (n: nat)
    ensures n <= 8
  {
    Live(b, row - 1, col - 1) + Live(b, row - 1, col) + Live(b, row - 1, col + 1) +
    Live(b, row, col - 1) + Live(b, row, col + 1) +
    Live(b, row + 1, col - 1) + Live(b, row + 1, col) + Live(b, row + 1, col + 1)
  }

  /** A corner cell has at most three neighbours on the board. */
  lemma CornerNeighbours(b: Board, rows: nat, cols: nat, row: int, col: int)
    requires IsGrid(b, rows, cols)
    requires row == 0 || row == rows - 1
    requires col == 0 || col == cols - 1
    ensures Neighbours(b, row, col) <= 3
  {
  }

  /** A cell on an edge has at most five neighbours on the board. */
  lemma EdgeNeighbours(b: Board, rows: nat, cols: nat, row: int, col: int)
    requires IsGrid(b, rows, cols)
    requires row == 0 || row == rows - 1 || col == 0 || col == cols - 1
    ensures Neighbours(b, row, col) <= 5
  {
  }

  /**
   * The count depends only on the on-board cells adjacent to (row, col):
   * neither the centre cell itself nor any cell further away is looked at.
   */
  lemma NeighboursLocal(a: Board, b: Board, row: int, col: int)
    requires SameShape(a, b)
    requires forall r, c :: 0 <= r < |a| && 0 <= c < |a[r]| && row - 1 <= r <= row + 1 && col - 1 <= c <= col + 1 && (r, c) != (row, col)
               ==> a[r][c] == b[r][c]
    ensures Neighbours(a, row, col) == Neighbours(b, row, col)
  {
  }

  /**
   * No wrap-around: in a grid of at least three rows, the last row does not
   * contribute to the count of a cell in the first row.
   */
  lemma {:induction false} NoWrapAround(b: Board, rows: nat, cols: nat, col: int, last: seq<bool>)
    requires IsGrid(b, rows, cols) && rows >= 3 && |last| == cols
    ensures Neighbours(b[rows - 1 := last], 0, col) == Neighbours(b, 0, col)
  {
    NeighboursLocal(b[rows - 1 := last], b, 0, col);
  }

  /** Offset (di, dj) of the 3x3 block around (row, col); the centre contributes nothing. */
  function Ring(b: Board, row: int, col: int, di: int, dj: int): nat {
    if di == 0 && dj == 0 then 0 else Live(b, row + di, col + dj)
  }

  /** Offsets (di, -1) up to (di, dj - 1) of the block, in scan order. */
  function RowScan(b: Board, row: int, col: int, di: int, dj: int): nat
    requires -1 <= dj <= 2
    decreases dj + 1
  {
    if dj == -1 then 0 else RowScan(b, row, col, di, dj - 1) + Ring(b, row, col, di, dj - 1)
  }

  /** Block rows -1 up to di - 1, in scan order. */
  function BlockScan(b: Board, row: int, col: int, di: int): nat
    requires -1 <= di <= 2
    decreases di + 1
  {
    if di == -1 then 0 else BlockScan(b, row, col, di - 1) + RowScan(b, row, col, di - 1, 2)
  }

  /** Scanning the whole 3x3 block while skipping its centre counts exactly the neighbours. */
  lemma BlockScanCounts(b: Board, row: int, col: int)
    ensures BlockScan(b, row, col, 2) == Neighbours(b, row, col)
  {
    forall di | -1 <= di <= 1
      ensures RowScan(b, row, col, di, 2) == Ring(b, row, col, di, -1) + Ring(b, row, col, di, 0) + Ring(b, row, col, di, 1)
    {
      assert RowScan(b, row, col, di, 1) == Ring(b, row, col, di, -1) + Ring(b, row, col, di, 0);
    }
    assert BlockScan(b, row, col, 1) == RowScan(b, row, col, -1, 2) + RowScan(b, row, col, 0, 2);
  }

  // ---------------------------------------------------------------------
  // One generation

  /** Conway's rule in closed form: alive next exactly with three neighbours, or alive now with two. */
  function NextState(alive: bool, n: int): (r: bool)
    ensures alive && (n < 2 || n > 3) ==> !r          // under- and overpopulation
    ensures alive && (n == 2 || n == 3) ==> r         // survival
    ensures !alive ==> (r <==> n == 3)                // reproduction, otherwise stays dead
  {
    n == 3 || (alive && n == 2)
  }

  /** The next generation: every cell's rule is applied to the same, previous board. */
  function Step(b: Board): (r: Board)
    ensures SameShape(b, r)
    ensures forall i, j {:trigger NextState(b[i][j], Neighbours(b, i, j))} :: 0 <= i < |b| && 0 <= j < |b[i]| ==> r[i][j] == NextState(b[i][j], Neighbours(b, i, j))
  {
    seq(|b|, i requires 0 <= i < |b| => seq(|b[i]|, j requires 0 <= j < |b[i]| => NextState(b[i][j], Neighbours(b, i, j))))
  }

  /** Two boards with the same shape and the same cells are equal. */
  lemma {:induction false} BoardExt(a: Board, b: Board)
    requires SameShape(a, b)
    requires forall i, j :: 0 <= i < |a| && 0 <= j < |a[i]| ==> a[i][j] == b[i][j]
    ensures a == b
  {
    forall i | 0 <= i < |a| ensures a[i] == b[i] {
      assert forall j :: 0 <= j < |a[i]| ==> a[i][j] == b[i][j];
    }
  }

  /** No spontaneous life: an all-dead board stays all-dead. */
  lemma {:induction false} StepKeepsDead(b: Board)
    requires AllDead(b)
    ensures Step(b) == b
  {
    forall i, j | 0 <= i < |b| && 0 <= j < |b[i]| ensures Step(b)[i][j] == b[i][j] {
      assert Neighbours(b, i, j) == 0;
    }
    BoardExt(Step(b), b);
  }

  // ---------------------------------------------------------------------
  // Seeding from text

  /** Row i of the text has a '1' in column j. */
  predicate SeedsAlive(lines: seq<string>, i: nat, j: nat) {
    i < |lines| && j < |lines[i]| && lines[i][j] == '1'
  }

  /**
   * The board after seeding from `lines`: a cell becomes alive where its line
   * has a '1'; every other cell keeps its state (it is never set dead).
   */
  function Seed(b: Board, lines: seq<string>): (r: Board)
    ensures SameShape(b, r)
    ensures forall i, j :: 0 <= i < |b| && 0 <= j < |b[i]| ==> r[i][j] == (b[i][j] || SeedsAlive(lines, i, j))
  {
    seq(|b|, i requires 0 <= i < |b| => seq(|b[i]|, j requires 0 <= j < |b[i]| => b[i][j] || SeedsAlive(lines, i, j)))
  }

  /** Seeding never kills a cell and only a '1' brings one to life. */
  lemma SeedMonotone(b: Board, lines: seq<string>, i: nat, j: nat)
    requires i < |b| && j < |b[i]|
    ensures b[i][j] ==> Seed(b, lines)[i][j]
    ensures !b[i][j] && Seed(b, lines)[i][j] ==> i < |lines| && j < |lines[i]| && lines[i][j] == '1'
  {
  }

  /** Seeding twice with the same text is seeding once. */
  lemma {:induction false} SeedIdempotent(b: Board, lines: seq<string>)
    ensures Seed(Seed(b, lines), lines) == Seed(b, lines)
  {
    var once := Seed(b, lines);
    BoardExt(Seed(once, lines), once);
  }

  /** Short lines and missing lines leave the uncovered cells dead. */
  lemma {:induction false} SeedShortInput()
    ensures Seed(DeadBoard(3, 3), ["101", "1"]) == [[true, false, true], [true, false, false], [false, false, false]]
  {
    var r := Seed(DeadBoard(3, 3), ["101", "1"]);
    var want := [[true, false, true], [true, false, false], [false, false, false]];
    assert SeedsAlive(["101", "1"], 0, 0) && !SeedsAlive(["101", "1"], 0, 1) && SeedsAlive(["101", "1"], 0, 2);
    assert SeedsAlive(["101", "1"], 1, 0) && !SeedsAlive(["101", "1"], 1, 1) && !SeedsAlive(["101", "1"], 1, 2);
    BoardExt(r, want);
  }

  /** A character other than '1' does not kill an already live cell. */
  lemma {:induction false} SeedKeepsLiveCells()
    ensures Seed([[true]], ["0"]) == [[true]]
  {
    BoardExt(Seed([[true]], ["0"]), [[true]]);
  }

  // ---------------------------------------------------------------------
  // Rendering

  /** One line of output without its newline: every glyph followed by one space. */
  function RenderRow(row: seq<bool>): (s: string)
    ensures |s| == 2 * |row|
  {
    if row == [] then "" else RenderRow(row[..|row| - 1]) + Glyph(row[|row| - 1]) + " "
  }

  /** The whole board: every row's line followed by a newline. */
  function RenderBoard(b: Board): (s: string)
    ensures s == [] <==> b == []
    ensures |s| >= |b|
  {
    if b == [] then "" else RenderBoard(b[..|b| - 1]) + RenderRow(b[|b| - 1]) + "\n"
  }

  /** Rendering one more cell of a row appends its glyph and a space. */
  lemma RenderRowExtend(row: seq<bool>, k: nat)
    requires k < |row|
    ensures RenderRow(row[..k + 1]) == RenderRow(row[..k]) + Glyph(row[k]) + " "
  {
    assert row[..k + 1][..k] == row[..k];
  }

  /** Rendering one more row appends its line and a newline. */
  lemma RenderBoardExtend(b: Board, k: nat)
    requires k < |b|
    ensures RenderBoard(b[..k + 1]) == RenderBoard(b[..k]) + RenderRow(b[k]) + "\n"
  {
    assert b[..k + 1][..k] == b[..k];
  }

  /** A line holds two characters per cell: the cell's glyph, then a space. */
  lemma {:induction false} RenderRowAt(row: seq<bool>)
    ensures |RenderRow(row)| == 2 * |row|
    ensures forall k :: 0 <= k < |row| ==> RenderRow(row)[2 * k] == Glyph(row[k])[0] && RenderRow(row)[2 * k + 1] == ' '
  {
    if row != [] {
      var init := row[..|row| - 1];
      RenderRowAt(init);
      assert forall k :: 0 <= k < |init| ==> row[k] == init[k];
    }
  }

  /** A rows x cols board renders to rows * (2 * cols + 1) characters. */
  lemma {:induction false} RenderBoardLength(b: Board, rows: nat, cols: nat)
    requires IsGrid(b, rows, cols)
    ensures |RenderBoard(b)| == rows * (2 * cols + 1)
  {
    if b != [] {
      var init, last := b[..|b| - 1], b[|b| - 1];
      assert IsGrid(init, rows - 1, cols);
      RenderBoardLength(init, rows - 1, cols);
      RenderRowAt(last);
      assert |RenderBoard(b)| == |RenderBoard(init)| + 2 * cols + 1;
      MulStep(rows, 2 * cols + 1);
    }
  }

  lemma MulStep(n: nat, w: nat)
    requires n > 0
    ensures (n - 1) * w + w == n * w
  {
  }

  /** A line holds no newline. */
  lemma {:induction false} RenderRowNoNewline(row: seq<bool>)
    ensures multiset(RenderRow(row))['\n'] == 0
  {
    if row != [] {
      RenderRowNoNewline(row[..|row| - 1]);
      assert Glyph(row[|row| - 1]) == [Glyph(row[|row| - 1])[0]];
    }
  }

  /** The output has exactly one line per row. */
  lemma {:induction false} RenderBoardLines(b: Board)
    ensures multiset(RenderBoard(b))['\n'] == |b|
  {
    if b != [] {
      RenderBoardLines(b[..|b| - 1]);
      RenderRowNoNewline(b[|b| - 1]);
    }
  }

  /** The glyphs of a line determine its cells. */
  lemma RenderRowInjective(a: seq<bool>, b: seq<bool>)
    requires RenderRow(a) == RenderRow(b)
    ensures a == b
  {
    RenderRowAt(a);
    RenderRowAt(b);
    assert |a| == |b|;
    forall k | 0 <= k < |a| ensures a[k] == b[k] {
      assert RenderRow(a)[2 * k] == RenderRow(b)[2 * k];
      GlyphCharDetermines(a[k], b[k]);
    }
  }

  /** The rendering of a rows x cols grid determines the grid. */
  lemma {:induction false} RenderBoardInjective(a: Board, b: Board, rows: nat, cols: nat)
    requires IsGrid(a, rows, cols) && IsGrid(b, rows, cols)
    requires RenderBoard(a) == RenderBoard(b)
    ensures a == b
  {
    if rows > 0 {
      var a', b' := a[..rows - 1], b[..rows - 1];
      assert IsGrid(a', rows - 1, cols) && IsGrid(b', rows - 1, cols);
      RenderBoardLength(a', rows - 1, cols);
      RenderBoardLength(b', rows - 1, cols);
      RenderRowAt(a[rows - 1]);
      RenderRowAt(b[rows - 1]);
      SplitLine(RenderBoard(a'), RenderRow(a[rows - 1]), RenderBoard(b'), RenderRow(b[rows - 1]));
      RenderBoardInjective(a', b', rows - 1, cols);
      RenderRowInjective(a[rows - 1], b[rows - 1]);
      assert a == a' + [a[rows - 1]];
      assert b == b' + [b[rows - 1]];
    }
  }

  /** Text ending in a line of known length splits back into what came before and that line. */
  lemma SplitLine(x: string, y: string, x': string, y': string)
    requires |x| == |x'| && |y| == |y'|
    requires x + y + "\n" == x' + y' + "\n"
    ensures x == x' && y == y'
  {
    assert x == (x + y + "\n")[..|x|];
    assert x' == (x' + y' + "\n")[..|x|];
    assert y == (x + y + "\n")[|x|..|x| + |y|];
    assert y' == (x' + y' + "\n")[|x|..|x| + |y|];
  }
}
