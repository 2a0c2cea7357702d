/** The text console as a grid of character cells with a cursor: what the pixels should show. */
module Screen {
  import opened Bits
  import opened Framebuffer

  const FONT_WIDTH: nat := 8
  const FONT_HEIGHT: nat := 16
  const TAB_SIZE: nat := 4

  /** A font: the glyphs of the characters 0 to 127, sixteen rows of eight pixels each. */
  type Font = f: seq<seq<bv8>> | |f| == 128 && forall i | 0 <= i < 128 :: |f[i]| == 16
    witness seq(128, _ => seq(16, _ => 0))

  const UNKNOWN_CHARACTER: seq<bv8> :=
    [0x00, 0x00, 0xFF, 0xC1, 0xA1, 0xA1, 0x91, 0x91, 0x89, 0x89, 0x85, 0x85, 0x83, 0xFF, 0x00, 0x00]

  function CharGlyph(font: Font, code: nat): (glyph: seq<bv8>)
    ensures |glyph| == 16
  {
    if code > 127 then UNKNOWN_CHARACTER else font[code]
  }

  /** What one cell of the grid shows. */
  datatype Cell =
    | Char(code: nat, text: Color, background: Color)
    | Blank(color: Color)
    | Picture(pixels: seq<Color>)   // whatever was on the screen before

  ghost function CellPixel(font: Font, cell: Cell, dx: nat, dy: nat): Color
    requires dx < 8 && dy < 16
  {
    match cell
    case Char(code, text, background) =>
      if BitSet(CharGlyph(font, code)[dy], 7 - dx) then text else background
    case Blank(color) => color
    case Picture(pixels) => if |pixels| == 128 then pixels[8 * dy + dx] else 0
  }

  /** A character up to 127 shows its own glyph, the leftmost pixel of a row being its highest bit. */
  lemma CharacterPixel(font: Font, code: nat, text: Color, background: Color, dx: nat, dy: nat)
    requires code <= 127 && dx < 8 && dy < 16
    ensures CellPixel(font, Char(code, text, background), dx, dy) ==
      if BitSet(font[code][dy], 7 - dx) then text else background
  {
  }

  /** Any other shows a box from row 2 to row 13 with its diagonal, whatever the font. */
  lemma UnknownPixel(font: Font, code: nat, text: Color, background: Color, dx: nat, dy: nat)
    requires code > 127 && dx < 8 && dy < 16
    ensures CellPixel(font, Char(code, text, background), dx, dy) == if InUnknown(dx, dy) then text else background
  {
    var row := UNKNOWN_CHARACTER[dy];
    assert BitSet(row, 7) <==> 2 <= dy <= 13;
    assert BitSet(row, 6) <==> dy in {2, 3, 13};
    assert BitSet(row, 5) <==> dy in {2, 4, 5, 13};
    assert BitSet(row, 4) <==> dy in {2, 6, 7, 13};
    assert BitSet(row, 3) <==> dy in {2, 8, 9, 13};
    assert BitSet(row, 2) <==> dy in {2, 10, 11, 13};
    assert BitSet(row, 1) <==> dy in {2, 12, 13};
    assert BitSet(row, 0) <==> 2 <= dy <= 13;
  }

  predicate InUnknown(dx: nat, dy: nat) {
    2 <= dy <= 13 && (dy == 2 || dy == 13 || dx == 0 || dx == 7 || dx == dy / 2)
  }

  type Grid = seq<seq<Cell>>

  predicate IsGrid(grid: Grid, columns: nat, rows: nat) {
    |grid| == rows && forall r | 0 <= r < rows :: |grid[r]| == columns
  }

  function BlankRow(columns: nat, color: Color): (row: seq<Cell>)
    ensures |row| == columns && forall c | 0 <= c < columns :: row[c] == Blank(color)
  {
    seq(columns, _ => Blank(color))
  }

  // ---------------------------------------------------------------- the state machine

  /** The console: a grid, a cursor in it, and the settings that stay fixed while it is written. */
  datatype Console = Console(
    columns: nat, rows: nat, grid: Grid, row: nat, column: nat,
    text: Color, background: Color, scrolling: bool)
  {
    predicate Valid() {
      IsGrid(grid, columns, rows) && row < rows && column < columns
    }

    function NewLine(): (next: Console)
      requires Valid()
      ensures next.Valid()
    {
      if row + 1 < rows then this.(row := row + 1, column := 0)
      else if scrolling then this.(grid := grid[1..] + [BlankRow(columns, background)], column := 0)
      else this.(row := 0, column := 0)
    }

    /** One character at the cursor, which then moves on and wraps at the end of the row. */
    function Put(code: nat): (next: Console)
      requires Valid()
      ensures next.Valid()
    {
      var put := WithCell(this, Char(code, text, background));
      if column + 1 < columns then put.(column := column + 1) else put.NewLine()
    }

    function PutTimes(code: nat, times: nat): (next: Console)
      requires Valid()
      ensures next.Valid()
      decreases times
    {
      if times == 0 then this else Put(code).PutTimes(code, times - 1)
    }

    function Write(c: char): (next: Console)
      requires Valid()
      ensures next.Valid()
    {
      if c == '\t' then PutTimes(' ' as nat, TAB_SIZE)
      else if c == '\n' then NewLine()
      else Put(c as nat % 256)
    }

    function WriteAll(s: string): (next: Console)
      requires Valid()
      ensures next.Valid()
      decreases |s|
    {
      if s == "" then this else Write(s[0]).WriteAll(s[1..])
    }
  }

  /** A tab writes four spaces, and moves the cursor by four if there is room for more. */
  lemma TabIsFourSpaces(console: Console)
    requires console.Valid() && console.column + 4 < console.columns
    ensures var next, space := console.Write('\t'), Char(32, console.text, console.background);
      && next.row == console.row && next.column == console.column + 4
      && next.grid == console.grid[console.row := console.grid[console.row][console.column := space]
           [console.column + 1 := space][console.column + 2 := space][console.column + 3 := space]]
  {
    var space := Char(32, console.text, console.background);
    var one := console.Put(32);
    var two := one.Put(32);
    var three := two.Put(32);
    var four := three.Put(32);
    assert console.Write('\t') == console.PutTimes(32, 4) == one.PutTimes(32, 3) == two.PutTimes(32, 2);
    assert two.PutTimes(32, 2) == three.PutTimes(32, 1) == four.PutTimes(32, 0) == four;
  }

  /** Any character but tab and line feed fills the cell at the cursor, with the low byte of its number as
      the code, and moves on to the next cell or, at the end of the row, to the next row. */
  lemma CharacterFillsCell(console: Console, c: char, code: nat)
    requires console.Valid() && c != '\t' && c != '\n'
    requires code < 256 && exists high: nat :: c as nat == 256 * high + code
    ensures var cell := Char(code, console.text, console.background);
      var put := console.(grid := console.grid[console.row := console.grid[console.row][console.column := cell]]);
      console.Write(c) ==
        if console.column + 1 < console.columns then put.(column := console.column + 1) else put.NewLine()
  {
  }

  lemma NewLineIgnoresColumn(console: Console)
    requires console.Valid()
    ensures console.(column := 0).NewLine() == console.NewLine()
  {
  }

  // ---------------------------------------------------------------- a console that scrolls is a window on a paper

  /** Endless paper: it only grows at the bottom, and the pen is always on its last line. */
  datatype Paper = Paper(lines: Grid, column: nat) {
    predicate Valid(columns: nat) {
      |lines| > 0 && IsGrid(lines, columns, |lines|) && column < columns
    }

    function NewLine(columns: nat, background: Color): (next: Paper)
      requires Valid(columns)
      ensures next.Valid(columns)
    {
      Paper(lines + [BlankRow(columns, background)], 0)
    }

    function Put(columns: nat, cell: Cell, background: Color): (next: Paper)
      requires Valid(columns)
      ensures next.Valid(columns)
    {
      var put := PaperWithCell(this, columns, cell);
      if column + 1 < columns then put.(column := column + 1) else put.NewLine(columns, background)
    }

    function PutTimes(columns: nat, cell: Cell, background: Color, times: nat): (next: Paper)
      requires Valid(columns)
      ensures next.Valid(columns)
      decreases times
    {
      if times == 0 then this else Put(columns, cell, background).PutTimes(columns, cell, background, times - 1)
    }

    function Write(columns: nat, c: char, text: Color, background: Color): (next: Paper)
      requires Valid(columns)
      ensures next.Valid(columns)
    {
      if c == '\t' then PutTimes(columns, Char(' ' as nat, text, background), background, TAB_SIZE)
      else if c == '\n' then NewLine(columns, background)
      else Put(columns, Char(c as nat % 256, text, background), background)
    }

    function WriteAll(columns: nat, s: string, text: Color, background: Color): (next: Paper)
      requires Valid(columns)
      ensures next.Valid(columns)
      decreases |s|
    {
      if s == "" then this else Write(columns, s[0], text, background).WriteAll(columns, s[1..], text, background)
    }
  }

  /** The console shows the last lines of the paper, with blank rows below while the paper is short. */
  ghost predicate Shows(console: Console, paper: Paper) {
    match paper
    case Paper(lines, column) =>
      && console.Valid() && paper.Valid(console.columns) && console.scrolling
      && console.column == column
      && (if |lines| <= console.rows
          then && console.row == |lines| - 1
               && console.grid[..|lines|] == lines
               && forall r | |lines| <= r < console.rows ::
                 console.grid[r] == BlankRow(console.columns, console.background)
          else && console.row == console.rows - 1
               && console.grid == lines[|lines| - console.rows..])
  }

  lemma ShowsNewLine(console: Console, paper: Paper)
    requires Shows(console, paper)
    ensures Shows(console.NewLine(), paper.NewLine(console.columns, console.background))
  {
    var blank := BlankRow(console.columns, console.background);
    var n, rows := |paper.lines|, console.rows;
    if n < rows {
      assert console.grid[n] == blank;
      assert console.grid[..n + 1] == console.grid[..n] + [console.grid[n]];
    } else {
      assert console.grid == paper.lines[n - rows..];
      DropThenAdd(paper.lines, n - rows, blank);
    }
  }

  /** A window of lines moves down by one. */
  lemma DropThenAdd(lines: seq<seq<Cell>>, k: nat, line: seq<Cell>)
    requires k < |lines|
    ensures lines[k..][1..] + [line] == (lines + [line])[k + 1..]
  {
  }

  /** Writing the cell under the cursor, without moving it. */
  function WithCell(console: Console, cell: Cell): (next: Console)
    requires console.Valid()
    ensures next.Valid()
  {
    console.(grid := console.grid[console.row := console.grid[console.row][console.column := cell]])
  }

  function PaperWithCell(paper: Paper, columns: nat, cell: Cell): (next: Paper)
    requires paper.Valid(columns)
    ensures next.Valid(columns)
  {
    var last := |paper.lines| - 1;
    Paper(paper.lines[last := paper.lines[last][paper.column := cell]], paper.column)
  }

  lemma ShowsCell(console: Console, paper: Paper, cell: Cell)
    requires Shows(console, paper)
    ensures Shows(WithCell(console, cell), PaperWithCell(paper, console.columns, cell))
  {
    var c', p' := WithCell(console, cell), PaperWithCell(paper, console.columns, cell);
    var n, last, rows := |paper.lines|, |paper.lines| - 1, console.rows;
    if n <= rows {
      assert console.grid[..n][last] == console.grid[last];
      assert c'.grid[..n] == p'.lines;
    } else {
      assert console.grid[rows - 1] == paper.lines[last];
      assert c'.grid == p'.lines[n - rows..];
    }
  }

  lemma ShowsPut(console: Console, paper: Paper, code: nat)
    requires Shows(console, paper)
    ensures Shows(console.Put(code),
                  paper.Put(console.columns, Char(code, console.text, console.background), console.background))
  {
    var cell := Char(code, console.text, console.background);
    ShowsCell(console, paper, cell);
    if console.column + 1 == console.columns {
      ShowsNewLine(WithCell(console, cell), PaperWithCell(paper, console.columns, cell));
    }
  }

  lemma {:induction false} ShowsPutTimes(console: Console, paper: Paper, code: nat, times: nat)
    requires Shows(console, paper)
    ensures var cell := Char(code, console.text, console.background);
      Shows(console.PutTimes(code, times), paper.PutTimes(console.columns, cell, console.background, times))
    decreases times
  {
    if times > 0 {
      var cell := Char(code, console.text, console.background);
      ShowsPut(console, paper, code);
      ShowsPutTimes(console.Put(code), paper.Put(console.columns, cell, console.background), code, times - 1);
    }
  }

  lemma ShowsWrite(console: Console, paper: Paper, c: char)
    requires Shows(console, paper)
    ensures Shows(console.Write(c), paper.Write(console.columns, c, console.text, console.background))
  {
    if c == '\t' {
      ShowsPutTimes(console, paper, ' ' as nat, TAB_SIZE);
    } else if c == '\n' {
      ShowsNewLine(console, paper);
    } else {
      ShowsPut(console, paper, c as nat % 256);
    }
  }

  lemma {:induction false} SettingsStay(console: Console, code: nat, times: nat)
    requires console.Valid()
    ensures var next := console.PutTimes(code, times);
      && next.columns == console.columns && next.rows == console.rows
      && next.text == console.text && next.background == console.background && next.scrolling == console.scrolling
    decreases times
  {
    if times > 0 {
      SettingsStay(console.Put(code), code, times - 1);
    }
  }

  /** A scrolling console is a window on the paper: whatever is written, it shows the last lines of
      what endless paper of the same width would hold. */
  lemma {:induction false} ScrollingConsoleIsWindow(console: Console, paper: Paper, s: string)
    requires Shows(console, paper)
    ensures Shows(console.WriteAll(s), paper.WriteAll(console.columns, s, console.text, console.background))
    decreases |s|
  {
    if s != "" {
      ShowsWrite(console, paper, s[0]);
      SettingsStay(console, ' ' as nat, TAB_SIZE);
      var paper' := paper.Write(console.columns, s[0], console.text, console.background);
      ScrollingConsoleIsWindow(console.Write(s[0]), paper', s[1..]);
    }
  }

  /** In particular from a cleared screen, whose paper is one blank line. */
  lemma ClearedConsoleIsWindow(console: Console, s: string)
    requires console.Valid() && console.scrolling && console.row == 0 && console.column == 0
    requires forall r | 0 <= r < console.rows :: console.grid[r] == BlankRow(console.columns, console.background)
    ensures Paper([BlankRow(console.columns, console.background)], 0).Valid(console.columns)
    ensures Shows(console.WriteAll(s),
                  Paper([BlankRow(console.columns, console.background)], 0)
                    .WriteAll(console.columns, s, console.text, console.background))
  {
    var paper := Paper([BlankRow(console.columns, console.background)], 0);
    assert console.grid[..1] == paper.lines;
    ScrollingConsoleIsWindow(console, paper, s);
  }
}
