/** The terminal's framebuffer: a flat array of pixels kept in step with a grid of cells. */
module Framebuffer {
  import opened TextGrid

  /** Sizes in pixels; `pitch` is the distance between the starts of two pixel lines. */
  datatype Geometry = Geometry(width: nat, height: nat, pitch: nat, glyphW: nat, glyphH: nat)
  {
    predicate Ok() { 0 < glyphW <= width <= pitch && 0 < glyphH <= height }

    function Cols(): nat requires Ok() { width / glyphW }

    function Rows(): nat requires Ok() { height / glyphH }

    function RowLen(): nat { glyphH * pitch }
  }

  /** Which dots of a character's glyph are lit: character, x, y. */
  type Font = (nat, nat, nat) -> bool

  /** A pixel of the text area, named by its cell and its place in the cell. */
  datatype Dot = Dot(row: nat, col: nat, gx: nat, gy: nat)
  {
    predicate In(g: Geometry) requires g.Ok() {
      row < g.Rows() && col < g.Cols() && gx < g.glyphW && gy < g.glyphH
    }

    predicate Of(r: nat, c: nat) { row == r && col == c }

    /** Is this dot drawn before the loops reach line `y`, place `x`? */
    predicate Before(x: nat, y: nat) { gy < y || (gy == y && gx < x) }
  }

  /** The pixel line and column of a dot. */
  function Line(g: Geometry, d: Dot): nat { d.row * g.glyphH + d.gy }

  function Column(g: Geometry, d: Dot): nat { d.col * g.glyphW + d.gx }

  function Offset(g: Geometry, d: Dot): nat {
    Line(g, d) * g.pitch + Column(g, d)
  }

  function Colour(cell: Cell, font: Font, gx: nat, gy: nat): int {
    match cell
    case Glyph(c, fg, bg) => if font(c, gx, gy) then fg else bg
    case Blank(bg) => bg
  }

  ghost predicate GridFits(grid: seq<seq<Cell>>, g: Geometry)
    requires g.Ok()
  {
    |grid| == g.Rows() && forall r :: 0 <= r < |grid| ==> |grid[r]| == g.Cols()
  }

  ghost predicate PixelsFit(pixels: seq<int>, g: Geometry) {
    |pixels| == g.height * g.pitch
  }

  /** Every pixel of the text area is the one its cell calls for. */
  ghost predicate Renders(pixels: seq<int>, grid: seq<seq<Cell>>, g: Geometry, font: Font)
    requires g.Ok() && PixelsFit(pixels, g) && GridFits(grid, g)
  {
    forall d: Dot :: d.In(g) ==>
      Offset(g, d) < |pixels| && pixels[Offset(g, d)] == Colour(grid[d.row][d.col], font, d.gx, d.gy)
  }

  // ---- Pixel arithmetic ----

  lemma Gap(a: nat, b: nat, n: nat)
    requires a < b
    ensures a * n + n <= b * n
  {
    assert b * n == (a + 1) * n + (b - a - 1) * n;
    assert (a + 1) * n == a * n + n;
  }

  lemma QuotientUnique(q1: nat, r1: nat, q2: nat, r2: nat, n: nat)
    requires r1 < n && r2 < n && q1 * n + r1 == q2 * n + r2
    ensures q1 == q2 && r1 == r2
  {
    if q1 < q2 {
      Gap(q1, q2, n);
    } else if q2 < q1 {
      Gap(q2, q1, n);
    }
  }

  /** Entry `i` of `n / k` entries of size `k` ends at or before `n`. */
  lemma EntryFits(i: nat, k: nat, n: nat)
    requires k > 0 && i < n / k
    ensures i * k + k <= n
  {
    assert (i + 1) * k <= n / k * k;
  }

  lemma LineFits(y: nat, x: nat, pitch: nat, height: nat)
    requires y < height && x < pitch
    ensures y * pitch + x < height * pitch
  {
    assert (y + 1) * pitch <= height * pitch;
  }

  /** Dots lie inside the framebuffer. */
  lemma OffsetInside(g: Geometry, d: Dot)
    requires g.Ok() && d.In(g)
    ensures Line(g, d) < g.height && Column(g, d) < g.pitch
    ensures Line(g, d) * g.pitch + Column(g, d) == Offset(g, d) < g.height * g.pitch
  {
    EntryFits(d.row, g.glyphH, g.height);
    EntryFits(d.col, g.glyphW, g.width);
    LineFits(Line(g, d), Column(g, d), g.pitch, g.height);
  }

  /** No two dots share a pixel: cells never overlap on the screen. */
  lemma OffsetInjective(g: Geometry, d: Dot, e: Dot)
    requires g.Ok() && d.In(g) && e.In(g) && Offset(g, d) == Offset(g, e)
    ensures d == e
  {
    hide Offset, Line, Column;
    OffsetInside(g, d);
    OffsetInside(g, e);
    QuotientUnique(Line(g, d), Column(g, d), Line(g, e), Column(g, e), g.pitch);
    PlaceUnique(g, d, e);
  }

  lemma PlaceUnique(g: Geometry, d: Dot, e: Dot)
    requires g.Ok() && d.In(g) && e.In(g) && Line(g, d) == Line(g, e) && Column(g, d) == Column(g, e)
    ensures d == e
  {
    QuotientUnique(d.row, d.gy, e.row, e.gy, g.glyphH);
    QuotientUnique(d.col, d.gx, e.col, e.gx, g.glyphW);
  }

  /** The same dot one text row further down is one row length further on. */
  lemma OffsetNextRow(g: Geometry, d: Dot)
    ensures Offset(g, d.(row := d.row + 1)) == Offset(g, d) + g.RowLen()
  {
    assert (d.row + 1) * g.glyphH + d.gy == d.row * g.glyphH + d.gy + g.glyphH;
    assert (d.row * g.glyphH + d.gy + g.glyphH) * g.pitch == (d.row * g.glyphH + d.gy) * g.pitch + g.glyphH * g.pitch;
  }

  lemma LineStart(g: Geometry, d: Dot)
    ensures Line(g, d) * g.pitch == d.row * g.RowLen() + d.gy * g.pitch
  {
    assert (d.row * g.glyphH + d.gy) * g.pitch == d.row * g.glyphH * g.pitch + d.gy * g.pitch;
    assert d.row * g.glyphH * g.pitch == d.row * (g.glyphH * g.pitch);
  }

  /** A dot lies in the stretch of pixels of its text row. */
  lemma OffsetInRow(g: Geometry, d: Dot)
    requires g.Ok() && d.In(g)
    ensures d.row * g.RowLen() <= Offset(g, d) < d.row * g.RowLen() + g.RowLen()
  {
    hide Offset, Column, Line, Geometry.RowLen;
    OffsetInside(g, d);
    InRow(d.gy, Column(g, d), g);
    LineStart(g, d);
  }

  lemma InRow(gy: nat, x: nat, g: Geometry)
    requires gy < g.glyphH && x < g.pitch
    ensures 0 <= gy * g.pitch && gy * g.pitch + x < g.RowLen()
  {
    LineFits(gy, x, g.pitch, g.glyphH);
  }

  /** A dot above text row `row` lies before its first pixel. */
  lemma OffsetAboveRow(g: Geometry, d: Dot, row: nat)
    requires g.Ok() && d.In(g) && d.row < row
    ensures Offset(g, d) < row * g.RowLen()
  {
    hide Offset;
    OffsetInRow(g, d);
    Gap(d.row, row, g.RowLen());
  }

  lemma RowsInside(g: Geometry)
    requires g.Ok()
    ensures g.Rows() >= 1 && g.Cols() >= 1
    ensures g.Rows() * g.RowLen() <= g.height * g.pitch
  {
    assert g.height / g.glyphH * g.glyphH <= g.height;
    assert g.Rows() * g.RowLen() == g.Rows() * g.glyphH * g.pitch;
  }

  // ---- What the drawing loops do ----

  /** Between two pictures: the cell's dots before (x, y) show `cell`, all else is as it was. */
  ghost predicate Painted(before: seq<int>, now: seq<int>, g: Geometry, font: Font,
                          row: nat, col: nat, cell: Cell, x: nat, y: nat)
    requires g.Ok()
  {
    && |now| == |before|
    && forall d: Dot :: d.In(g) && Offset(g, d) < |now| ==>
      now[Offset(g, d)] == (if d.Of(row, col) && d.Before(x, y) then Colour(cell, font, d.gx, d.gy)
                            else before[Offset(g, d)])
  }

  lemma PaintNext(before: seq<int>, now: seq<int>, g: Geometry, font: Font,
                  row: nat, col: nat, cell: Cell, x: nat, y: nat)
    requires g.Ok() && PixelsFit(before, g) && Painted(before, now, g, font, row, col, cell, x, y)
    requires Dot(row, col, x, y).In(g)
    requires Offset(g, Dot(row, col, x, y)) < |now|
    ensures Painted(before, now[Offset(g, Dot(row, col, x, y)) := Colour(cell, font, x, y)], g, font,
                    row, col, cell, x + 1, y)
  {
    hide Offset;
    var dot := Dot(row, col, x, y);
    var next := now[Offset(g, dot) := Colour(cell, font, x, y)];
    forall d: Dot | d.In(g) && Offset(g, d) < |next|
      ensures next[Offset(g, d)] == (if d.Of(row, col) && d.Before(x + 1, y) then Colour(cell, font, d.gx, d.gy)
                                     else before[Offset(g, d)])
    {
      if Offset(g, d) == Offset(g, dot) {
        OffsetInjective(g, d, dot);
      }
    }
  }

  /** The colours of a drawn or erased cell, dot by dot; every other dot of the text area is kept. */
  ghost predicate DotsSet(before: seq<int>, now: seq<int>, g: Geometry, font: Font, row: nat, col: nat,
                          c: nat, lit: int, unlit: int)
    requires g.Ok()
  {
    && |now| == |before|
    && forall d: Dot :: d.In(g) && Offset(g, d) < |now| ==>
      now[Offset(g, d)] == if d.row != row || d.col != col then before[Offset(g, d)]
                           else if font(c, d.gx, d.gy) then lit else unlit
  }

  lemma PaintedDots(before: seq<int>, now: seq<int>, g: Geometry, font: Font, row: nat, col: nat, cell: Cell)
    requires g.Ok() && Painted(before, now, g, font, row, col, cell, 0, g.glyphH)
    ensures match cell
      case Glyph(c, fg, bg) => DotsSet(before, now, g, font, row, col, c, fg, bg)
      case Blank(bg) => forall c: nat :: DotsSet(before, now, g, font, row, col, c, bg, bg)
  {
    hide Offset;
  }

  /** A finished cell: the pixels show the grid with that cell replaced. */
  lemma PaintedCell(before: seq<int>, now: seq<int>, grid: seq<seq<Cell>>, g: Geometry, font: Font,
                    row: nat, col: nat, cell: Cell)
    requires g.Ok() && PixelsFit(before, g) && GridFits(grid, g) && Renders(before, grid, g, font)
    requires row < g.Rows() && col < g.Cols()
    requires Painted(before, now, g, font, row, col, cell, 0, g.glyphH)
    ensures GridFits(SetCell(grid, row, col, cell), g)
    ensures Renders(now, SetCell(grid, row, col, cell), g, font)
  {
    hide Offset;
  }

  /** The picture one text row up, with the last text row filled with `bg`. */
  function ScrolledPixels(pixels: seq<int>, g: Geometry, bg: int): seq<int>
    requires g.Ok() && PixelsFit(pixels, g)
  {
    RowsInside(g);
    var last := (g.Rows() - 1) * g.RowLen();
    seq(|pixels|, i requires 0 <= i < |pixels| =>
      if i < last && i + g.RowLen() < |pixels| then pixels[i + g.RowLen()]
      else if last <= i < last + g.RowLen() then bg
      else pixels[i])
  }

  lemma LastRow(g: Geometry)
    requires g.Ok()
    ensures g.Rows() >= 1 && 0 <= (g.Rows() - 1) * g.RowLen()
    ensures (g.Rows() - 1) * g.RowLen() + g.RowLen() == g.Rows() * g.RowLen()
  {
    RowsInside(g);
    LessOne(g.Rows(), g.RowLen());
  }

  lemma LessOne(n: nat, k: nat)
    requires n >= 1
    ensures 0 <= (n - 1) * k && (n - 1) * k + k == n * k
  {
  }

  /** What the copy and the fill of `scroll` leave. */
  lemma ScrolledIs(before: seq<int>, copied: seq<int>, now: seq<int>, g: Geometry, bg: int, last: nat, rowLen: nat)
    requires g.Ok() && PixelsFit(before, g) && |before| == |copied| == |now| && g.Rows() >= 1
    requires last == (g.Rows() - 1) * g.RowLen() && rowLen == g.RowLen() && last + rowLen <= |before|
    requires forall k :: 0 <= k < last ==> copied[k] == before[k + rowLen]
    requires forall k :: last <= k < |before| ==> copied[k] == before[k]
    requires forall k :: last <= k < last + rowLen ==> now[k] == bg
    requires forall k :: 0 <= k < |before| && !(last <= k < last + rowLen) ==> now[k] == copied[k]
    ensures now == ScrolledPixels(before, g, bg)
  {
  }

  /** Moving the pixels up one text row is moving the grid up one row. */
  lemma ScrolledRenders(pixels: seq<int>, grid: seq<seq<Cell>>, g: Geometry, font: Font, bg: int)
    requires g.Ok() && PixelsFit(pixels, g) && GridFits(grid, g) && Renders(pixels, grid, g, font)
    ensures |grid| > 0 && GridFits(ScrollUp(grid, g.Cols(), bg), g)
    ensures Renders(ScrolledPixels(pixels, g, bg), ScrollUp(grid, g.Cols(), bg), g, font)
  {
    hide Offset;
    RowsInside(g);
    var up := ScrollUp(grid, g.Cols(), bg);
    var last := g.Rows() - 1;
    forall d: Dot | d.In(g)
      ensures Offset(g, d) < |pixels|
      ensures ScrolledPixels(pixels, g, bg)[Offset(g, d)] == Colour(up[d.row][d.col], font, d.gx, d.gy)
    {
      OffsetInside(g, d);
      OffsetInRow(g, d);
      if d.row < last {
        OffsetAboveRow(g, d, last);
        OffsetNextRow(g, d);
        var below := d.(row := d.row + 1);
        assert below.In(g) && Offset(g, below) < |pixels|;
        assert up[d.row] == grid[d.row + 1];
      }
    }
  }

  lemma ClearedRenders(pixels: seq<int>, g: Geometry, font: Font, bg: int)
    requires g.Ok() && PixelsFit(pixels, g) && forall i :: 0 <= i < |pixels| ==> pixels[i] == bg
    ensures GridFits(BlankGrid(g.Cols(), g.Rows(), bg), g)
    ensures Renders(pixels, BlankGrid(g.Cols(), g.Rows(), bg), g, font)
  {
    forall d: Dot | d.In(g) ensures Offset(g, d) < |pixels| {
      OffsetInside(g, d);
    }
  }

  /** The calls a user of the terminal makes. */
  datatype Call = Print(c: nat) | Erase | Clear | Recolour(fg: int, bg: int)

  function After(s: Screen, call: Call, cols: nat, rows: nat): (r: Screen)
    requires s.Fits(cols, rows)
    ensures r.Fits(cols, rows)
  {
    PutcFits(s, if call.Print? then call.c else 0, cols, rows);
    match call
    case Print(c) => Putc(s, c, cols, rows)
    case Erase => Backspace(s, cols, rows)
    case Clear => ClearScreen(s, cols, rows)
    case Recolour(fg, bg) => s.(fg := fg, bg := bg)
  }

  function AfterAll(s: Screen, calls: seq<Call>, cols: nat, rows: nat): (r: Screen)
    requires s.Fits(cols, rows)
    ensures r.Fits(cols, rows)
  {
    if calls == [] then s
    else After(AfterAll(s, calls[..|calls| - 1], cols, rows), calls[|calls| - 1], cols, rows)
  }

  class Terminal {
    const geometry: Geometry
    const font: Font
    const pixels: array<int>
    var col: nat
    var row: nat
    var fg: int
    var bg: int
    /** The grid of cells the pixels show. */
    ghost var grid: seq<seq<Cell>>

    ghost predicate Shown()
      reads this, pixels
    {
      && geometry.Ok() && PixelsFit(pixels[..], geometry) && GridFits(grid, geometry)
      && Renders(pixels[..], grid, geometry, font)
    }

    ghost function View(): Screen
      reads this
    {
      Screen(grid, col, row, fg, bg)
    }

    ghost predicate Valid()
      reads this, pixels
    {
      Shown() && View().Fits(geometry.Cols(), geometry.Rows())
    }

    constructor (geometry: Geometry, font: Font, fg: int, bg: int)
      requires geometry.Ok()
      ensures Valid() && fresh(pixels)
      ensures this.geometry == geometry && this.font == font
      ensures View() == Screen(BlankGrid(geometry.Cols(), geometry.Rows(), bg), 0, 0, fg, bg)
      ensures forall k :: 0 <= k < pixels.Length ==> pixels[k] == bg
    {
      this.geometry, this.font := geometry, font;
      pixels := new int[geometry.height * geometry.pitch];
      col, row, this.fg, this.bg := 0, 0, fg, bg;
      new;
      RowsInside(geometry);
      ClearPixels();
    }

    method PutPixel(x: nat, y: nat, colour: int)
      requires y * geometry.pitch + x < pixels.Length
      modifies pixels
      ensures pixels[..] == old(pixels[..])[y * geometry.pitch + x := colour]
    {
      pixels[y * geometry.pitch + x] := colour;
    }

    /** One turn of the inner drawing loops. */
    method PaintDot(px: nat, py: nat, gx: nat, gy: nat, colour: int,
                    ghost before: seq<int>, ghost row: nat, ghost col: nat, ghost cell: Cell)
      requires geometry.Ok() && row < geometry.Rows() && col < geometry.Cols()
      requires gx < geometry.glyphW && gy < geometry.glyphH
      requires px == col * geometry.glyphW && py == row * geometry.glyphH && colour == Colour(cell, font, gx, gy)
      requires PixelsFit(before, geometry) && |pixels[..]| == |before|
      requires Painted(before, pixels[..], geometry, font, row, col, cell, gx, gy)
      modifies pixels
      ensures Painted(before, pixels[..], geometry, font, row, col, cell, gx + 1, gy)
    {
      hide Offset, Painted, Colour;
      PlaceOf(geometry, row, col, gx, gy);
      PaintNext(before, pixels[..], geometry, font, row, col, cell, gx, gy);
      PutPixel(px + gx, py + gy, colour);
    }

    method DrawGlyph(col: nat, row: nat, c: nat)
      requires Shown() && row < geometry.Rows() && col < geometry.Cols()
      modifies pixels, `grid
      ensures Shown() && grid == SetCell(old(grid), row, col, Glyph(c, fg, bg))
      ensures DotsSet(old(pixels[..]), pixels[..], geometry, font, row, col, c, fg, bg)
    {
      hide Offset, Renders, Painted, DotsSet;
      ghost var before := pixels[..];
      ghost var cell := Glyph(c, fg, bg);
      var px, py := col * geometry.glyphW, row * geometry.glyphH;
      PaintedNothing(before, geometry, font, row, col, cell);
      for gy := 0 to geometry.glyphH
        invariant Painted(before, pixels[..], geometry, font, row, col, cell, 0, gy)
        modifies pixels
      {
        for gx := 0 to geometry.glyphW
          invariant Painted(before, pixels[..], geometry, font, row, col, cell, gx, gy)
          modifies pixels
        {
          PaintDot(px, py, gx, gy, if font(c, gx, gy) then fg else bg, before, row, col, cell);
        }
        PaintedLine(before, pixels[..], geometry, font, row, col, cell, gy);
      }
      PaintedDots(before, pixels[..], geometry, font, row, col, cell);
      PaintedCell(before, pixels[..], grid, geometry, font, row, col, cell);
      grid := SetCell(grid, row, col, cell);
    }

    method EraseGlyph(col: nat, row: nat)
      requires Shown() && row < geometry.Rows() && col < geometry.Cols()
      modifies pixels, `grid
      ensures Shown() && grid == SetCell(old(grid), row, col, Blank(bg))
      ensures forall c: nat :: DotsSet(old(pixels[..]), pixels[..], geometry, font, row, col, c, bg, bg)
    {
      hide Offset, Renders, Painted, DotsSet;
      ghost var before := pixels[..];
      ghost var cell := Blank(bg);
      var px, py := col * geometry.glyphW, row * geometry.glyphH;
      PaintedNothing(before, geometry, font, row, col, cell);
      for gy := 0 to geometry.glyphH
        invariant Painted(before, pixels[..], geometry, font, row, col, cell, 0, gy)
        modifies pixels
      {
        for gx := 0 to geometry.glyphW
          invariant Painted(before, pixels[..], geometry, font, row, col, cell, gx, gy)
          modifies pixels
        {
          PaintDot(px, py, gx, gy, bg, before, row, col, cell);
        }
        PaintedLine(before, pixels[..], geometry, font, row, col, cell, gy);
      }
      PaintedDots(before, pixels[..], geometry, font, row, col, cell);
      PaintedCell(before, pixels[..], grid, geometry, font, row, col, cell);
      grid := SetCell(grid, row, col, cell);
    }

    /** The overlapping copy goes upwards, so every pixel is read before it is overwritten. */
    method CopyDown(from: nat, count: nat)
      requires from + count <= pixels.Length
      modifies pixels
      ensures forall k :: 0 <= k < count ==> pixels[k] == old(pixels[k + from])
      ensures forall k :: count <= k < pixels.Length ==> pixels[k] == old(pixels[k])
    {
      for i := 0 to count
        invariant forall k :: 0 <= k < i ==> pixels[k] == old(pixels[k + from])
        invariant forall k :: i <= k < pixels.Length ==> pixels[k] == old(pixels[k])
      {
        pixels[i] := pixels[i + from];
      }
    }

    method Fill(from: nat, count: nat)
      requires from + count <= pixels.Length
      modifies pixels
      ensures forall k :: from <= k < from + count ==> pixels[k] == bg
      ensures forall k :: 0 <= k < pixels.Length && !(from <= k < from + count) ==> pixels[k] == old(pixels[k])
    {
      for i := 0 to count
        invariant forall k :: from <= k < from + i ==> pixels[k] == bg
        invariant forall k :: 0 <= k < pixels.Length && !(from <= k < from + i) ==> pixels[k] == old(pixels[k])
      {
        pixels[from + i] := bg;
      }
    }

    method Scroll()
      requires Shown()
      modifies pixels, `grid
      ensures Shown() && |old(grid)| > 0 && grid == ScrollUp(old(grid), geometry.Cols(), bg)
    {
      hide Offset, Renders, ScrolledPixels;
      RowsInside(geometry);
      LastRow(geometry);
      var rowLen := geometry.RowLen();
      var last := (geometry.Rows() - 1) * rowLen;
      ghost var before := pixels[..];
      CopyDown(rowLen, last);
      ghost var copied := pixels[..];
      Fill(last, rowLen);
      ScrolledIs(before, copied, pixels[..], geometry, bg, last, rowLen);
      ScrolledRenders(before, grid, geometry, font, bg);
      grid := ScrollUp(grid, geometry.Cols(), bg);
    }

    method ClearPixels()
      requires geometry.Ok() && PixelsFit(pixels[..], geometry)
      modifies pixels, this`grid, this`col, this`row
      ensures Valid()
      ensures View() == Screen(BlankGrid(geometry.Cols(), geometry.Rows(), bg), 0, 0, fg, bg)
      ensures forall k :: 0 <= k < pixels.Length ==> pixels[k] == bg
    {
      hide Offset, Renders;
      col, row := 0, 0;
      Fill(0, geometry.height * geometry.pitch);
      RowsInside(geometry);
      ClearedRenders(pixels[..], geometry, font, bg);
      grid := BlankGrid(geometry.Cols(), geometry.Rows(), bg);
    }

    method ClearAll()
      requires Valid()
      modifies this, pixels
      ensures Valid() && View() == ClearScreen(old(View()), geometry.Cols(), geometry.Rows())
      ensures col == row == 0 && forall k :: 0 <= k < pixels.Length ==> pixels[k] == bg == old(bg)
    {
      ClearPixels();
    }

    method EraseLast()
      requires Valid()
      modifies this, pixels
      ensures Valid() && View() == Backspace(old(View()), geometry.Cols(), geometry.Rows())
    {
      hide Offset, Renders;
      if col > 0 {
        col := col - 1;
      } else if row > 0 {
        row := row - 1;
        col := geometry.Cols() - 1;
      } else {
        return;
      }
      EraseGlyph(col, row);
    }

    method PutChar(c: nat)
      requires Valid()
      modifies this, pixels
      ensures Valid() && View() == Putc(old(View()), c, geometry.Cols(), geometry.Rows())
    {
      hide Offset, Renders;
      if c == 10 {
        col, row := 0, row + 1;
      } else if c == 13 {
        col := 0;
      } else {
        var byte := if 32 <= c < 128 then c else 63;
        DrawGlyph(col, row, byte);
        col := col + 1;
      }
      if col >= geometry.Cols() {
        col, row := 0, row + 1;
      }
      if row >= geometry.Rows() {
        Scroll();
        row := geometry.Rows() - 1;
      }
    }

    method SetColour(fg: int, bg: int)
      requires Valid()
      modifies this`fg, this`bg
      ensures Valid() && View() == old(View()).(fg := fg, bg := bg)
    {
      this.fg, this.bg := fg, bg;
    }

    lemma ValidFits()
      requires Valid()
      ensures geometry.Ok() && View().Fits(geometry.Cols(), geometry.Rows())
    {
    }

    /** Whatever is printed, erased, cleared and recoloured, the pixels show the grid that the
        same calls make of the abstract screen. */
    method Perform(calls: seq<Call>)
      requires Valid()
      modifies this, pixels
      ensures Valid() && View() == AfterAll(old(View()), calls, geometry.Cols(), geometry.Rows())
    {
      hide Offset, Renders, Shown, Putc, Backspace;
      ghost var start := View();
      ValidFits();
      for i := 0 to |calls|
        invariant Valid() && geometry.Ok() && start.Fits(geometry.Cols(), geometry.Rows())
        invariant View() == AfterAll(start, calls[..i], geometry.Cols(), geometry.Rows())
      {
        assert calls[..i + 1][..i] == calls[..i];
        match calls[i] {
          case Print(c) => PutChar(c);
          case Erase => EraseLast();
          case Clear => ClearAll();
          case Recolour(f, b) => SetColour(f, b);
        }
      }
      assert calls[..|calls|] == calls;
    }
  }

  // ---- Small steps of the drawing loops ----

  lemma PlaceOf(g: Geometry, row: nat, col: nat, gx: nat, gy: nat)
    requires g.Ok() && row < g.Rows() && col < g.Cols() && gx < g.glyphW && gy < g.glyphH
    ensures Dot(row, col, gx, gy).In(g)
    ensures Offset(g, Dot(row, col, gx, gy)) == (row * g.glyphH + gy) * g.pitch + (col * g.glyphW + gx)
    ensures Offset(g, Dot(row, col, gx, gy)) < g.height * g.pitch
  {
    OffsetInside(g, Dot(row, col, gx, gy));
  }

  lemma PaintedNothing(before: seq<int>, g: Geometry, font: Font, row: nat, col: nat, cell: Cell)
    requires g.Ok()
    ensures Painted(before, before, g, font, row, col, cell, 0, 0)
  {
  }

  lemma PaintedLine(before: seq<int>, now: seq<int>, g: Geometry, font: Font, row: nat, col: nat, cell: Cell, y: nat)
    requires g.Ok() && Painted(before, now, g, font, row, col, cell, g.glyphW, y)
    ensures Painted(before, now, g, font, row, col, cell, 0, y + 1)
  {
    hide Offset;
  }
}
