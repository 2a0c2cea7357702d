/** The text writer: it moves a cursor and paints glyphs, and its pixels agree with the console. */
module TextWriter {
  import opened Bits
  import opened Framebuffer
  import opened Screen

  /** The text area of the image, 8 by 16 pixels a cell, shows `grid`. */
  ghost predicate Renders(image: seq<Color>, size: Dimensions, font: Font, grid: Grid) {
    match size
    case Dimensions(width, height) =>
      && IsImage(image, width, height)
      && IsGrid(grid, width / 8, height / 16)
      && forall x: nat, y: nat | x / 8 < width / 8 && y / 16 < height / 16 ::
        Pixel(image, width, height, x, y) == CellPixel(font, grid[y / 16][x / 8], x % 8, y % 16)
  }

  /** The pixel rows below the last text row have the background color. */
  ghost predicate MarginClear(image: seq<Color>, size: Dimensions, background: Color)
    requires IsImage(image, size.width, size.height)
  {
    match size
    case Dimensions(width, height) =>
      forall x: nat, y: nat | x / 8 < width / 8 && 16 * (height / 16) <= y < height ::
        Pixel(image, width, height, x, y) == background
  }

  // ---------------------------------------------------------------- any screen is some grid

  ghost function Snapshot(image: seq<Color>, width: nat, height: nat): (grid: Grid)
    requires IsImage(image, width, height)
    ensures IsGrid(grid, width / 8, height / 16)
  {
    seq(height / 16, r requires 0 <= r < height / 16 =>
      seq(width / 8, c requires 0 <= c < width / 8 => Picture(Cutout(image, width, height, c, r))))
  }

  ghost function Cutout(image: seq<Color>, width: nat, height: nat, c: nat, r: nat): (pixels: seq<Color>)
    requires IsImage(image, width, height) && c < width / 8 && r < height / 16
    ensures |pixels| == 128
    ensures forall k | 0 <= k < 128 :: pixels[k] == Pixel(image, width, height, 8 * c + k % 8, 16 * r + k / 8)
  {
    seq(128, k requires 0 <= k < 128 => Pixel(image, width, height, 8 * c + k % 8, 16 * r + k / 8))
  }

  /** Whatever is on the screen, some grid renders to it. */
  lemma EveryScreenIsAGrid(image: seq<Color>, width: nat, height: nat, font: Font)
    requires IsImage(image, width, height)
    ensures Renders(image, Dimensions(width, height), font, Snapshot(image, width, height))
  {
    forall x: nat, y: nat | x / 8 < width / 8 && y / 16 < height / 16
      ensures Pixel(image, width, height, x, y) ==
        CellPixel(font, Snapshot(image, width, height)[y / 16][x / 8], x % 8, y % 16)
    {
      var c, r, dx, dy := x / 8, y / 16, x % 8, y % 16;
      assert x == 8 * c + dx && y == 16 * r + dy;
      var k := 8 * dy + dx;
      assert k / 8 == dy && k % 8 == dx;
      assert Cutout(image, width, height, c, r)[k] == Pixel(image, width, height, x, y);
    }
  }

  // ---------------------------------------------------------------- one cell

  function CellBox(column: nat, row: nat): Box {
    Box(FONT_WIDTH * column, FONT_HEIGHT * row, FONT_WIDTH, FONT_HEIGHT)
  }

  /** A pixel is in the box of exactly the cell it belongs to, at its place in the cell. */
  lemma PixelInCell(column: nat, row: nat, x: nat, y: nat)
    ensures CellBox(column, row).Contains(x, y) <==> x / 8 == column && y / 16 == row
    ensures CellBox(column, row).Contains(x, y) ==>
      CellBox(column, row).Index(x, y) == 8 * (y % 16) + x % 8
  {
  }

  lemma GlyphRow(glyph: seq<bv8>, dx: nat, dy: nat)
    requires |glyph| == 16 && dx < 8 && dy < 16
    ensures GlyphBit(glyph, 8 * dy + dx) == BitSet(glyph[dy], 7 - dx)
  {
    assert (8 * dy + dx) / 8 == dy && (8 * dy + dx) % 8 == dx;
  }

  /** Painting the glyph of a character into its box changes that one cell of the grid. */
  lemma GlyphFillsCell(before: seq<Color>, after: seq<Color>, width: nat, height: nat, font: Font, grid: Grid,
                       column: nat, row: nat, code: nat, text: Color, background: Color)
    requires Renders(before, Dimensions(width, height), font, grid) && IsImage(after, width, height)
    requires column < width / 8 && row < height / 16
    requires GlyphPainted(before, after, width, height, CellBox(column, row), CharGlyph(font, code), 128,
                          text, background)
    ensures var grid' := grid[row := grid[row][column := Char(code, text, background)]];
      Renders(after, Dimensions(width, height), font, grid')
    ensures forall bg ::
      MarginClear(before, Dimensions(width, height), bg) ==> MarginClear(after, Dimensions(width, height), bg)
  {
    var grid' := grid[row := grid[row][column := Char(code, text, background)]];
    var box, glyph := CellBox(column, row), CharGlyph(font, code);
    forall x: nat, y: nat | x / 8 < width / 8 && y < height
      ensures Pixel(after, width, height, x, y) ==
        if x / 8 == column && y / 16 == row then CellPixel(font, Char(code, text, background), x % 8, y % 16)
        else Pixel(before, width, height, x, y)
    {
      PixelInCell(column, row, x, y);
      GlyphRow(glyph, x % 8, y % 16);
    }
  }

  /** The pixels of a cell show character `code`: its own glyph in the font, or the box that stands for
      characters the font does not have. */
  ghost predicate ShowsCharacter(image: seq<Color>, size: Dimensions, font: Font, column: nat, row: nat, code: nat,
                                 text: Color, background: Color)
    requires IsImage(image, size.width, size.height)
    requires 8 * column + 8 <= size.width && 16 * row + 16 <= size.height
  {
    forall dx: nat, dy: nat | dx < 8 && dy < 16 ::
      Pixel(image, size.width, size.height, 8 * column + dx, 16 * row + dy) ==
        if if code <= 127 then BitSet(font[code][dy], 7 - dx) else InUnknown(dx, dy) then text else background
  }

  lemma CharacterShown(image: seq<Color>, size: Dimensions, font: Font, grid: Grid, column: nat, row: nat, code: nat,
                       text: Color, background: Color)
    requires Renders(image, size, font, grid) && column < size.width / 8 && row < size.height / 16
    requires grid[row][column] == Char(code, text, background)
    ensures ShowsCharacter(image, size, font, column, row, code, text, background)
  {
    forall dx: nat, dy: nat | dx < 8 && dy < 16
      ensures Pixel(image, size.width, size.height, 8 * column + dx, 16 * row + dy) ==
        if if code <= 127 then BitSet(font[code][dy], 7 - dx) else InUnknown(dx, dy) then text else background
    {
      var x, y := 8 * column + dx, 16 * row + dy;
      assert x / 8 == column && x % 8 == dx && y / 16 == row && y % 16 == dy;
      if code <= 127 {
        CharacterPixel(font, code, text, background, dx, dy);
      } else {
        UnknownPixel(font, code, text, background, dx, dy);
      }
    }
  }

  // ---------------------------------------------------------------- scrolling by one text row

  /** Scrolling the pixels by one text row scrolls the grid exactly when the rows below the text area
      already have the background color; afterwards they have it in any case. */
  lemma ScrollMovesGrid(before: seq<Color>, after: seq<Color>, width: nat, height: nat, font: Font, grid: Grid,
                        background: Color)
    requires Renders(before, Dimensions(width, height), font, grid) && IsImage(after, width, height) && height >= 16
    requires Scrolled(before, after, width, height, 16, background)
    ensures MarginClear(after, Dimensions(width, height), background)
    ensures Renders(after, Dimensions(width, height), font, grid[1..] + [BlankRow(width / 8, background)])
      <==> MarginClear(before, Dimensions(width, height), background)
  {
    var rows, columns := height / 16, width / 8;
    var grid' := grid[1..] + [BlankRow(columns, background)];
    if MarginClear(before, Dimensions(width, height), background) {
      forall x: nat, y: nat | x / 8 < columns && y / 16 < rows
        ensures Pixel(after, width, height, x, y) == CellPixel(font, grid'[y / 16][x / 8], x % 8, y % 16)
      {
        if y / 16 < rows - 1 {
          assert (y + 16) / 16 == y / 16 + 1 && (y + 16) % 16 == y % 16;
          assert grid'[y / 16] == grid[(y + 16) / 16];
        }
      }
    }
    if Renders(after, Dimensions(width, height), font, grid') {
      forall x: nat, y: nat | x / 8 < columns && 16 * rows <= y < height
        ensures Pixel(before, width, height, x, y) == background
      {
        var up: nat := y - 16;
        assert up / 16 == rows - 1;
        assert Pixel(after, width, height, x, up) == CellPixel(font, grid'[rows - 1][x / 8], x % 8, up % 16);
      }
    }
  }

  /** A concrete screen on which it does not: one cell, and a row of other color below it. */
  lemma DirtyMarginBreaksScrolling(font: Font, before: seq<Color>, after: seq<Color>)
    requires before == seq(8 * 17, i => if i < 128 then 0 else 1)
    requires IsImage(before, 8, 17) && IsImage(after, 8, 17) && Scrolled(before, after, 8, 17, 16, 0)
    ensures var grid := Snapshot(before, 8, 17);
      && Renders(before, Dimensions(8, 17), font, grid)
      && !Renders(after, Dimensions(8, 17), font, grid[1..] + [BlankRow(1, 0)])
  {
    EveryScreenIsAGrid(before, 8, 17, font);
    assert Pixel(before, 8, 17, 0, 16) == before[128];
    ScrollMovesGrid(before, after, 8, 17, font, Snapshot(before, 8, 17), 0);
  }

  // ---------------------------------------------------------------- the writer

  class VGAWriter {
    const lfb: LinearFramebuffer
    const font: Font
    var column: nat
    var row: nat
    var defaultText: Color
    var defaultBackground: Color
    const scrolling: bool
    ghost var grid: Grid

    ghost predicate Painted()
      reads this, lfb, lfb.buffer
    {
      && lfb.Valid()
      && Renders(lfb.Image(), lfb.Size(), font, grid)
      && MarginClear(lfb.Image(), lfb.Size(), defaultBackground)
    }

    /** The pixels show the grid, the rows below it are clear, and the cursor is on the grid. */
    ghost predicate Valid()
      reads this, lfb, lfb.buffer
    {
      Painted() && row < lfb.height / 16 && column < lfb.width / 8
    }

    ghost function State(): Console
      reads this
    {
      Console(lfb.width / 8, lfb.height / 16, grid, row, column, defaultText, defaultBackground, scrolling)
    }

    constructor (lfb: LinearFramebuffer, font: Font, scrolling: bool, text: Color, background: Color)
      requires lfb.Valid()
      ensures this.lfb == lfb && row == 0 && column == 0 && grid == Snapshot(lfb.Image(), lfb.width, lfb.height)
      ensures Valid() <==> lfb.width >= 8 && lfb.height >= 16 && MarginClear(lfb.Image(), lfb.Size(), background)
    {
      this.lfb, this.font, this.scrolling := lfb, font, scrolling;
      column, row, defaultText, defaultBackground := 0, 0, text, background;
      grid := Snapshot(lfb.Image(), lfb.width, lfb.height);
      new;
      EveryScreenIsAGrid(lfb.Image(), lfb.width, lfb.height, font);
    }

    /** Paints one character at the cursor. */
    method PutChar(code: nat)
      requires Valid()
      modifies `grid, lfb.buffer
      ensures Valid() && State() == WithCell(old(State()), Char(code, defaultText, defaultBackground))
      ensures ShowsCharacter(lfb.Image(), lfb.Size(), font, column, row, code, defaultText, defaultBackground)
    {
      ghost var before := lfb.Image();
      InsideTheText(lfb.width, lfb.height, column, row);
      var r := lfb.PlotGlyph(CellBox(column, row), CharGlyph(font, code), defaultText, defaultBackground);
      assert r.Ok?;  // the `unwrap` in `put_char`
      GlyphFillsCell(before, lfb.Image(), lfb.width, lfb.height, font, grid, column, row,
                     code, defaultText, defaultBackground);
      grid := grid[row := grid[row][column := Char(code, defaultText, defaultBackground)]];
      CharacterShown(lfb.Image(), lfb.Size(), font, grid, column, row, code, defaultText, defaultBackground);
    }

    /** Scrolls the screen by one text row. */
    method ScrollUp()
      requires Painted() && lfb.height >= 16
      modifies `grid, lfb.buffer
      ensures Painted() && grid == old(grid)[1..] + [BlankRow(lfb.width / 8, defaultBackground)]
    {
      ghost var before := lfb.Image();
      lfb.Scroll(1 * FONT_HEIGHT, defaultBackground);
      ScrollMovesGrid(before, lfb.Image(), lfb.width, lfb.height, font, grid, defaultBackground);
      grid := grid[1..] + [BlankRow(lfb.width / 8, defaultBackground)];
    }

    /** To the start of the next row; on the last row, scroll or go back to the top. */
    method NewLine()
      requires Painted() && row < lfb.height / 16 && lfb.width / 8 > 0
      modifies `column, `row, `grid, lfb.buffer
      ensures Valid() && State() == old(State().(column := 0)).NewLine()
    {
      column := 0;
      if row >= lfb.height / 16 - 1 {
        if scrolling {
          ScrollUp();
        } else {
          row := 0;
        }
      } else {
        row := row + 1;
      }
    }

    /** One character: tabs are four spaces, line feeds move on, and the row wraps when it is full.
        (The wrap test comes after all three; only a painted character can make it true.) */
    method WriteChar(c: char)
      requires Valid()
      modifies `column, `row, `grid, lfb.buffer
      ensures Valid() && State() == old(State()).Write(c)
      decreases if c == '\t' then 2 else 0
    {
      if c == '\t' {
        WriteSpaces(TAB_SIZE);
        assert column < lfb.width / 8;
      } else if c == '\n' {
        NewLine();
        assert column < lfb.width / 8;
      } else {
        WriteGlyph(c as nat % 256);
      }
    }

    method WriteGlyph(code: nat)
      requires Valid()
      modifies `column, `row, `grid, lfb.buffer
      ensures Valid() && State() == old(State()).Put(code)
    {
      PutChar(code);
      ghost var put := State();
      NewLineIgnoresColumn(put);
      column := column + 1;
      if column >= lfb.width / 8 {
        assert State().(column := 0) == put.(column := 0);
        NewLine();
      }
    }

    /** `times` spaces, one after the other. */
    method WriteSpaces(times: nat)
      requires Valid()
      modifies `column, `row, `grid, lfb.buffer
      ensures Valid() && State() == old(State()).PutTimes(' ' as nat, times)
      decreases 1
    {
      ghost var start := State();
      for i := 0 to times
        invariant Valid() && State().PutTimes(' ' as nat, times - i) == start.PutTimes(' ' as nat, times)
      {
        WriteChar(' ');
      }
    }

    /** A whole string: for every string and every start cursor the pixels render the console that
        the state machine reaches. */
    method WriteString(s: string)
      requires Valid()
      modifies `column, `row, `grid, lfb.buffer
      ensures Valid() && State() == old(State()).WriteAll(s)
    {
      ghost var start := State();
      for i := 0 to |s|
        invariant Valid() && State().WriteAll(s[i..]) == start.WriteAll(s)
      {
        assert s[i..][0] == s[i] && s[i..][1..] == s[i + 1..];
        WriteChar(s[i]);
      }
    }
  }

  lemma InsideTheText(width: nat, height: nat, column: nat, row: nat)
    requires column < width / 8 && row < height / 16
    ensures 8 * column + 8 <= width && 16 * row + 16 <= height
  {
  }
}
