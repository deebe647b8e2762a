/** The Game of Life board as a mutable object, proved against the definitions in module Life. */
module Grids {
  import opened Cells
  import opened Life

  class Grid {
    /** Number of rows, fixed for the grid's lifetime. */
    const rows: nat
    /** Number of columns, fixed for the grid's lifetime. */
    const cols: nat
    /** The current generation; cells[i, j] is true when the cell is alive. */
    var cells: array2<bool>

    /** The current generation as a value. */
    ghost var Contents: Board

    ghost predicate Valid()
      reads this, cells
    {
      cells.Length0 == rows && cells.Length1 == cols &&
      IsGrid(Contents, rows, cols) &&
      forall i, j :: 0 <= i < rows && 0 <= j < cols ==> Contents[i][j] == cells[i, j]
    }

    /** A rows x cols grid whose every cell is dead. */
    constructor (rows: nat, cols: nat)
      ensures Valid() && fresh(cells)
      ensures this.rows == rows && this.cols == cols
      ensures Contents == DeadBoard(rows, cols)
    {
      var a := new bool[rows, cols];
      for i := 0 to rows
        modifies a
        invariant forall r, c :: 0 <= r < i && 0 <= c < cols ==> !a[r, c]
      {
        for j := 0 to cols
          modifies a
          invariant forall r, c :: 0 <= r < i && 0 <= c < cols ==> !a[r, c]
          invariant forall c :: 0 <= c < j ==> !a[i, c]
        {
          a[i, j] := false;
        }
      }
      this.rows := rows;
      this.cols := cols;
      cells := a;
      Contents := DeadBoard(rows, cols);
    }

    /**
     * Seeds the grid from text: cell (i, j) becomes alive when line i has a
     * '1' at position j; rows and columns the text does not reach, and cells
     * under any other character, keep their state.
     */
    method InitializeFromInput(inputLines: seq<string>)
      requires Valid()
      modifies cells, this`Contents
      ensures Valid() && cells == old(cells)
      ensures Contents == Seed(old(Contents), inputLines)
    {
      ghost var before := Contents;
      ghost var after := Seed(before, inputLines);
      var i := 0;
      while i < rows && i < |inputLines|
        modifies cells
        invariant 0 <= i <= rows
        invariant forall r, c :: 0 <= r < rows && 0 <= c < cols ==> cells[r, c] == if r < i then after[r][c] else before[r][c]
      {
        var line := inputLines[i];
        var j := 0;
        while j < cols && j < |line|
          modifies cells
          invariant 0 <= j <= cols
          invariant forall r, c :: 0 <= r < rows && 0 <= c < cols ==>
                      cells[r, c] == if r < i || (r == i && c < j) then after[r][c] else before[r][c]
        {
          if line[j] == '1' {
            cells[i, j] := true;
          }
          j := j + 1;
        }
        i := i + 1;
      }
      Contents := after;
    }

    /**
     * Live cells among the eight neighbours of (row, col) that lie inside the
     * grid, scanning the 3x3 block around it and skipping its centre.
     */
    method CountLiveNeighbors(row: int, col: int) returns (count: int)
      requires Valid()
      ensures count == Neighbours(Contents, row, col)
    {
      count := 0;
      for i := -1 to 2
        invariant count == BlockScan(Contents, row, col, i)
      {
        for j := -1 to 2
          invariant count == BlockScan(Contents, row, col, i) + RowScan(Contents, row, col, i, j)
        {
          if i == 0 && j == 0 {
            continue;
          }
          var r := row + i;
          var c := col + j;
          if r >= 0 && r < rows && c >= 0 && c < cols {
            if cells[r, c] {
              count := count + 1;
            }
          }
        }
      }
      BlockScanCounts(Contents, row, col);
    }

    /**
     * Advances one generation. Every count is taken from the current cells;
     * the results go into a fresh array that replaces them only at the end.
     */
    method Update()
      requires Valid()
      modifies this
      ensures Valid() && fresh(cells)
      ensures Contents == Step(old(Contents))
    {
      var nextGen := new bool[rows, cols];
      for i := 0 to rows
        modifies nextGen
        invariant forall r, c {:trigger nextGen[r, c]} :: 0 <= r < i && 0 <= c < cols ==>
                    nextGen[r, c] == NextState(Contents[r][c], Neighbours(Contents, r, c))
      {
        for j := 0 to cols
          modifies nextGen
          invariant forall r, c {:trigger nextGen[r, c]} :: 0 <= r < i && 0 <= c < cols ==>
                      nextGen[r, c] == NextState(Contents[r][c], Neighbours(Contents, r, c))
          invariant forall c {:trigger nextGen[i, c]} :: 0 <= c < j ==>
                      nextGen[i, c] == NextState(Contents[i][c], Neighbours(Contents, i, c))
        {
          var liveNeighbors := CountLiveNeighbors(i, j);
          var currentState := cells[i, j];
          var nextState := false;
          if currentState && (liveNeighbors < 2 || liveNeighbors > 3) {
            nextState := false;
          } else if currentState && (liveNeighbors == 2 || liveNeighbors == 3) {
            nextState := true;
          } else if !currentState && liveNeighbors == 3 {
            nextState := true;
          }
          label Unwritten:
          nextGen[i, j] := nextState;
          forall c | 0 <= c < j ensures nextGen[i, c] == old@Unwritten(nextGen[i, c]) {
          }
        }
      }
      ghost var next := Step(Contents);
      forall r, c | 0 <= r < rows && 0 <= c < cols ensures next[r][c] == nextGen[r, c] {
        assert nextGen[r, c] == NextState(Contents[r][c], Neighbours(Contents, r, c));
      }
      cells := nextGen;
      Contents := next;
    }

    /** The text of the current generation: one line per row, each glyph followed by a space. */
    method Render() returns (s: string)
      requires Valid()
      ensures s == RenderBoard(Contents)
    {
      s := "";
      for i := 0 to rows
        invariant s == RenderBoard(Contents[..i])
      {
        ghost var done := s;
        for j := 0 to cols
          invariant s == done + RenderRow(Contents[i][..j])
        {
          RenderRowExtend(Contents[i], j);
          s := s + Glyph(cells[i, j]) + " ";
        }
        assert Contents[i][..cols] == Contents[i];
        RenderBoardExtend(Contents, i);
        s := s + "\n";
      }
      assert Contents[..rows] == Contents;
    }
  }
}
