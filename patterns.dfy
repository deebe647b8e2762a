/** Classic patterns whose evolution is known: they show the step is simultaneous. */
module Patterns {
  import opened Life

  const O := false
  const X := true

  /** A 2x2 block in the middle of a 4x4 board. */
  const Block: Board := [
    [O, O, O, O],
    [O, X, X, O],
    [O, X, X, O],
    [O, O, O, O]
  ]

  /** A horizontal blinker in the middle of a 5x5 board. */
  const BlinkerH: Board := [
    [O, O, O, O, O],
    [O, O, O, O, O],
    [O, X, X, X, O],
    [O, O, O, O, O],
    [O, O, O, O, O]
  ]

  /** The same blinker, vertical. */
  const BlinkerV: Board := [
    [O, O, O, O, O],
    [O, O, X, O, O],
    [O, O, X, O, O],
    [O, O, X, O, O],
    [O, O, O, O, O]
  ]

  /** The block is a still life. */
  lemma {:induction false} BlockIsStill()
    ensures Step(Block) == Block
  {
    var s := Step(Block);
    forall i, j | 0 <= i < 4 && 0 <= j < 4 ensures s[i][j] == Block[i][j] {
      assert s[i][j] == NextState(Block[i][j], Neighbours(Block, i, j));
    }
    BoardExt(s, Block);
  }

  /** One step turns the horizontal blinker vertical. */
  lemma {:induction false} BlinkerTurns()
    ensures Step(BlinkerH) == BlinkerV
  {
    var s := Step(BlinkerH);
    forall i, j | 0 <= i < 5 && 0 <= j < 5 ensures s[i][j] == BlinkerV[i][j] {
      assert s[i][j] == NextState(BlinkerH[i][j], Neighbours(BlinkerH, i, j));
    }
    BoardExt(s, BlinkerV);
  }

  /** Mirror image across the main diagonal of a board with `cols` columns. */
  function Transpose(b: Board, cols: nat): (t: Board)
    requires IsGrid(b, |b|, cols)
    ensures IsGrid(t, cols, |b|)
    ensures forall i, j :: 0 <= i < cols && 0 <= j < |b| ==> t[i][j] == b[j][i]
  {
    seq(cols, i requires 0 <= i < cols => seq(|b|, j requires 0 <= j < |b| => b[j][i]))
  }

  /** The rule treats rows and columns alike, so a step commutes with transposition. */
  lemma {:induction false} StepTranspose(b: Board, cols: nat)
    requires IsGrid(b, |b|, cols)
    ensures Step(Transpose(b, cols)) == Transpose(Step(b), cols)
  {
    var t := Transpose(b, cols);
    assert IsGrid(Step(b), |b|, cols);
    forall i, j | 0 <= i < cols && 0 <= j < |b|
      ensures Step(t)[i][j] == Transpose(Step(b), cols)[i][j]
    {
      NeighboursTranspose(b, cols, j, i);
    }
    BoardExt(Step(t), Transpose(Step(b), cols));
  }

  /** A cell's neighbour count is the count of its mirror image. */
  lemma NeighboursTranspose(b: Board, cols: nat, row: int, col: int)
    requires IsGrid(b, |b|, cols)
    ensures Neighbours(Transpose(b, cols), col, row) == Neighbours(b, row, col)
  {
    var t := Transpose(b, cols);
    forall r: int, c: int ensures Live(t, c, r) == Live(b, r, c) {
      if 0 <= r < |b| && 0 <= c < cols {
        assert t[c][r] == b[r][c];
      }
    }
  }

  /** One step turns the vertical blinker horizontal. */
  lemma {:induction false} BlinkerTurnsBack()
    ensures Step(BlinkerV) == BlinkerH
  {
    assert IsGrid(BlinkerH, 5, 5) && IsGrid(BlinkerV, 5, 5);
    BoardExt(Transpose(BlinkerH, 5), BlinkerV);
    BoardExt(Transpose(BlinkerV, 5), BlinkerH);
    BlinkerTurns();
    StepTranspose(BlinkerH, 5);
  }

  /** The blinker has period two. */
  lemma {:induction false} BlinkerPeriodTwo()
    ensures Step(Step(BlinkerH)) == BlinkerH
    ensures Step(BlinkerH) != BlinkerH
  {
    BlinkerTurns();
    BlinkerTurnsBack();
    assert BlinkerV[1][2] != BlinkerH[1][2];
  }

  /** A blinker laid on a single row of five cells. */
  const RowBlinker: Board := [[O, X, X, X, O]]

  /**
   * Without room above and below, the blinker cannot turn vertical: one step
   * leaves only its centre, and that cell never brings the row back.
   */
  lemma {:induction false} RowBlinkerFades()
    ensures Step(RowBlinker) == [[O, O, X, O, O]]
    ensures Step(Step(RowBlinker)) != RowBlinker
  {
    var s := Step(RowBlinker);
    var after: Board := [[O, O, X, O, O]];
    forall i, j | 0 <= i < 1 && 0 <= j < 5 ensures s[i][j] == after[i][j] {
      assert s[i][j] == NextState(RowBlinker[i][j], Neighbours(RowBlinker, i, j));
    }
    BoardExt(s, after);
    assert Step(after)[0][1] == NextState(after[0][1], Neighbours(after, 0, 1));
  }
}
