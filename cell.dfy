/** A single cell of the Game of Life board: one boolean state and its display glyph. */
module Cells {

  datatype Option<T> = None | Some(value: T)

  /** Glyph of a live cell (Black Square). */
  const LIVE_CHAR: string := "\U{25A0}"

  /** Glyph of a dead cell (White Square). */
  const DEAD_CHAR: string := "\U{25A1}"

  /** The one-character glyph shown for a cell in state `alive`. */
  function Glyph(alive: bool): (s: string)
    ensures |s| == 1
    ensures s == LIVE_CHAR <==> alive
    ensures s == DEAD_CHAR <==> !alive
  {
    if alive then LIVE_CHAR else DEAD_CHAR
  }

  /** Reads a glyph back into a cell state; any other string is not a glyph. */
  function ReadGlyph(s: string): (r: Option<bool>)
    ensures r.Some? <==> s == LIVE_CHAR || s == DEAD_CHAR
  {
    if s == LIVE_CHAR then Some(true)
    else if s == DEAD_CHAR then Some(false)
    else None
  }

  /** The glyph determines the state: reading a glyph back gives the state it was drawn from. */
  lemma GlyphRoundTrip(alive: bool)
    ensures ReadGlyph(Glyph(alive)) == Some(alive)
  {
  }

  /** The two glyphs already differ in their one character. */
  lemma GlyphCharDetermines(a: bool, b: bool)
    ensures Glyph(a)[0] == Glyph(b)[0] <==> a == b
  {
  }

  class Cell {
    /** True when the cell is alive. */
    var alive: bool

    constructor (alive: bool)
      ensures this.alive == alive
    {
      this.alive := alive;
    }

    /** Queries the state; changes nothing. */
    method IsAlive() returns (a: bool)
      ensures a == alive
    {
      a := alive;
    }

    method SetAlive(a: bool)
      modifies this
      ensures alive == a
    {
      alive := a;
    }

    /** The live glyph exactly when the cell is alive, the dead glyph otherwise. */
    function ToString(): (s: string)
      reads this
      ensures |s| == 1
      ensures s == LIVE_CHAR <==> alive
      ensures s == DEAD_CHAR <==> !alive
    {
      Glyph(alive)
    }
  }
}
