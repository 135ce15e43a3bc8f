/** The terminal as a grid of character cells with a cursor. */
module TextGrid {

  /** A cell keeps the colours in force when it was drawn or erased. */
  datatype Cell = Glyph(c: nat, fg: int, bg: int) | Blank(bg: int)

  datatype Screen = Screen(grid: seq<seq<Cell>>, col: nat, row: nat, fg: int, bg: int)
  {
    /** A grid of `rows` by `cols` cells with the cursor on one of them. */
    ghost predicate Fits(cols: nat, rows: nat) {
      && |grid| == rows && (forall r :: 0 <= r < rows ==> |grid[r]| == cols)
      && col < cols && row < rows
    }
  }

  function SetCell(grid: seq<seq<Cell>>, row: nat, col: nat, cell: Cell): seq<seq<Cell>>
    requires row < |grid| && col < |grid[row]|
  {
    grid[row := grid[row][col := cell]]
  }

  function BlankRow(cols: nat, bg: int): seq<Cell> {
    seq(cols, _ => Blank(bg))
  }

  function BlankGrid(cols: nat, rows: nat, bg: int): seq<seq<Cell>> {
    seq(rows, _ => BlankRow(cols, bg))
  }

  /** The grid shifted up one row, with an empty row at the bottom. */
  function ScrollUp(grid: seq<seq<Cell>>, cols: nat, bg: int): seq<seq<Cell>>
    requires |grid| > 0
  {
    grid[1..] + [BlankRow(cols, bg)]
  }

  function ClearScreen(s: Screen, cols: nat, rows: nat): Screen {
    s.(grid := BlankGrid(cols, rows, s.bg), col := 0, row := 0)
  }

  /** The last part of `putc`: wrap at the right edge, scroll at the bottom. */
  function Settle(s: Screen, cols: nat, rows: nat): Screen
    requires |s.grid| > 0 && rows > 0
  {
    var s1 := if s.col >= cols then s.(col := 0, row := s.row + 1) else s;
    if s1.row >= rows then s1.(grid := ScrollUp(s1.grid, cols, s1.bg), row := rows - 1) else s1
  }

  /** The glyph shown for a character: its own if it is ASCII and not a control, else a question mark. */
  function Shown(c: nat): nat { if 32 <= c < 128 then c else 63 }

  predicate Printable(c: nat) { c != 10 && c != 13 }

  function Putc(s: Screen, c: nat, cols: nat, rows: nat): Screen
    requires s.Fits(cols, rows)
  {
    var s1 :=
      if c == 10 then s.(col := 0, row := s.row + 1)
      else if c == 13 then s.(col := 0)
      else s.(grid := SetCell(s.grid, s.row, s.col, Glyph(Shown(c), s.fg, s.bg)), col := s.col + 1);
    Settle(s1, cols, rows)
  }

  function Backspace(s: Screen, cols: nat, rows: nat): Screen
    requires s.Fits(cols, rows)
  {
    if s.col > 0 then s.(col := s.col - 1, grid := SetCell(s.grid, s.row, s.col - 1, Blank(s.bg)))
    else if s.row > 0 then
      s.(row := s.row - 1, col := cols - 1, grid := SetCell(s.grid, s.row - 1, cols - 1, Blank(s.bg)))
    else s
  }

  /** The cursor stays on the grid, and the grid keeps its size. */
  lemma PutcFits(s: Screen, c: nat, cols: nat, rows: nat)
    requires s.Fits(cols, rows)
    ensures Putc(s, c, cols, rows).Fits(cols, rows)
  {
  }

  /** Cell by cell, the second grid is the first moved up one row, with a blank row at the bottom. */
  ghost predicate MovedUp(before: seq<seq<Cell>>, after: seq<seq<Cell>>, cols: nat, rows: nat, bg: int) {
    && |before| == |after| == rows > 0
    && (forall r :: 0 <= r < rows - 1 ==> after[r] == before[r + 1])
    && var last := after[rows - 1]; |last| == cols && forall c :: 0 <= c < cols ==> last[c] == Blank(bg)
  }

  /** Cell by cell, the second grid is the first with one cell replaced. */
  ghost predicate OneCell(before: seq<seq<Cell>>, after: seq<seq<Cell>>, row: nat, col: nat, cell: Cell) {
    && |after| == |before|
    && forall r :: 0 <= r < |before| ==>
      && |after[r]| == |before[r]|
      && forall c :: 0 <= c < |before[r]| ==> after[r][c] == if r == row && c == col then cell else before[r][c]
  }

  /** A newline puts the cursor at the start of the next row, on the last row by moving all up. */
  lemma NewlineMoves(s: Screen, cols: nat, rows: nat)
    requires s.Fits(cols, rows)
    ensures var r := Putc(s, 10, cols, rows);
      && r.col == 0 && r.fg == s.fg && r.bg == s.bg
      && if s.row + 1 < rows then r.row == s.row + 1 && r.grid == s.grid
         else r.row == s.row && MovedUp(s.grid, r.grid, cols, rows, s.bg)
  {
  }

  /** A carriage return puts it at the start of its own row. */
  lemma ReturnMoves(s: Screen, cols: nat, rows: nat)
    requires s.Fits(cols, rows)
    ensures Putc(s, 13, cols, rows) == Screen(s.grid, 0, s.row, s.fg, s.bg)
  {
  }

  /** Any other character is drawn at the cursor, in the colours set and as a question mark if it is not
      one of 32 to 127. The cursor goes one place on, at the end of a row to the next as for a newline. */
  lemma PrintMoves(s: Screen, c: nat, cols: nat, rows: nat) returns (drawn: seq<seq<Cell>>)
    requires s.Fits(cols, rows) && c != 10 && c != 13
    ensures OneCell(s.grid, drawn, s.row, s.col, Glyph(if c < 32 || c > 127 then 0x3f else c, s.fg, s.bg))
    ensures var r := Putc(s, c, cols, rows);
      && r.fg == s.fg && r.bg == s.bg
      && if s.col + 1 < cols then r.col == s.col + 1 && r.row == s.row && r.grid == drawn
         else
           && r.col == 0
           && if s.row + 1 < rows then r.row == s.row + 1 && r.grid == drawn
              else r.row == s.row && MovedUp(drawn, r.grid, cols, rows, s.bg)
  {
    drawn := SetCell(s.grid, s.row, s.col, Glyph(Shown(c), s.fg, s.bg));
  }

  /** A backspace erases the cell before the cursor, which goes there: in its row, or at the end of the
      row above. In the first cell of the screen it does nothing. */
  lemma BackspaceMoves(s: Screen, cols: nat, rows: nat)
    requires s.Fits(cols, rows)
    ensures var r := Backspace(s, cols, rows);
      if s.col == 0 && s.row == 0 then r == s
      else
        && r.fg == s.fg && r.bg == s.bg && OneCell(s.grid, r.grid, r.row, r.col, Blank(s.bg))
        && r.row * cols + r.col + 1 == s.row * cols + s.col && r.col < cols
  {
    if s.col == 0 && s.row > 0 {
      assert (s.row - 1) * cols + (cols - 1) + 1 == s.row * cols;
    }
  }

  /** Does drawing at the cursor run off the end of the last row? */
  predicate RunsOff(s: Screen, cols: nat, rows: nat) { s.col + 1 >= cols && s.row + 1 >= rows }

  /** The screen as it would be had the character never been drawn, but its cell erased and the
      screen scrolled if the character made it scroll. */
  function Erased(s: Screen, cols: nat, rows: nat): Screen
    requires s.Fits(cols, rows)
  {
    var grid := SetCell(s.grid, s.row, s.col, Blank(s.bg));
    if RunsOff(s, cols, rows) && s.row > 0 then s.(grid := ScrollUp(grid, cols, s.bg), row := s.row - 1)
    else s.(grid := grid)
  }

  lemma SetCellTwice(grid: seq<seq<Cell>>, row: nat, col: nat, first: Cell, second: Cell)
    requires row < |grid| && col < |grid[row]|
    ensures SetCell(SetCell(grid, row, col, first), row, col, second) == SetCell(grid, row, col, second)
  {
    assert grid[row][col := first][col := second] == grid[row][col := second];
  }

  lemma SetCellScrolls(grid: seq<seq<Cell>>, row: nat, col: nat, cell: Cell, cols: nat, bg: int)
    requires 0 < row < |grid| && col < |grid[row]|
    ensures ScrollUp(grid, cols, bg)[row - 1] == grid[row]
    ensures SetCell(ScrollUp(grid, cols, bg), row - 1, col, cell) == ScrollUp(SetCell(grid, row, col, cell), cols, bg)
  {
  }

  /** `backspace` right after a printable `putc` erases exactly that character's cell and puts the
      cursor back on it, across wrapping and scrolling, exactly if there are two rows or the
      character did not fill the only one. */
  lemma BackspaceUndoesPutc(s: Screen, c: nat, cols: nat, rows: nat)
    requires s.Fits(cols, rows) && Printable(c)
    ensures Putc(s, c, cols, rows).Fits(cols, rows)
    ensures Backspace(Putc(s, c, cols, rows), cols, rows) == Erased(s, cols, rows)
        <==> rows >= 2 || s.col + 1 < cols || cols == 1
  {
    PutcFits(s, c, cols, rows);
    var glyph := Glyph(Shown(c), s.fg, s.bg);
    var grid := SetCell(s.grid, s.row, s.col, glyph);
    SetCellTwice(s.grid, s.row, s.col, glyph, Blank(s.bg));
    if RunsOff(s, cols, rows) {
      if s.row > 0 {
        SetCellScrolls(grid, s.row, s.col, Blank(s.bg), cols, s.bg);
      } else if cols == 1 {
        assert s.grid == [s.grid[0]] && s.grid[0] == [s.grid[0][0]];
        assert BlankRow(1, s.bg) == [Blank(s.bg)] == s.grid[0][0 := Blank(s.bg)];
      }
    }
  }
}
