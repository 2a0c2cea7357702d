/** A linear framebuffer: pixels in rows, one after the other, in one buffer. */
module Framebuffer {
  import opened Outcomes
  import opened Bits

  type Color = bv32

  datatype FramebufferError = OutOfBounds

  // ---------------------------------------------------------------- row-major positions

  function Offset(width: nat, x: nat, y: nat): nat {
    x + y * width
  }

  lemma OffsetOrder(width: nat, x: nat, y: nat, x': nat, y': nat)
    requires x < width && y < y'
    ensures Offset(width, x, y) < Offset(width, x', y')
  {
    var d: nat := y' - y - 1;
    calc {
      y' * width;
      (y + 1 + d) * width;
      (y + 1) * width + d * width;
      y * width + width + d * width;
    }
  }

  /** Stepping right, and stepping to the start of the next row, both advance the offset by one. */
  lemma OffsetStep(width: nat, x: nat, y: nat)
    requires x < width
    ensures Offset(width, x + 1, y) == Offset(width, x, y) + 1
    ensures x + 1 == width ==> Offset(width, 0, y + 1) == Offset(width, x, y) + 1
  {
    assert (y + 1) * width == y * width + width;
  }

  /** Two positions in a row-major grid have different offsets. */
  lemma OffsetInjective(width: nat, x: nat, y: nat, x': nat, y': nat)
    requires x < width && x' < width
    ensures Offset(width, x, y) == Offset(width, x', y') <==> x == x' && y == y'
  {
    if y < y' {
      OffsetOrder(width, x, y, x', y');
    } else if y' < y {
      OffsetOrder(width, x', y', x, y);
    }
  }

  lemma OffsetInside(width: nat, height: nat, x: nat, y: nat)
    requires x < width && y < height
    ensures Offset(width, x, y) < width * height
  {
    OffsetOrder(width, x, y, 0, height);
  }

  datatype Dimensions = Dimensions(width: nat, height: nat)

  /** A buffer of `width` by `height` pixels. */
  ghost predicate IsImage(buffer: seq<Color>, width: nat, height: nat) {
    |buffer| == width * height
  }

  ghost function Pixel(buffer: seq<Color>, width: nat, height: nat, x: nat, y: nat): Color
    requires IsImage(buffer, width, height) && x < width && y < height
  {
    OffsetInside(width, height, x, y);
    buffer[Offset(width, x, y)]
  }

  /** The pixels are stored row by row. */
  lemma PixelIs(buffer: seq<Color>, width: nat, height: nat, x: nat, y: nat)
    requires IsImage(buffer, width, height) && x < width && y < height
    ensures y * width + x < |buffer| && Pixel(buffer, width, height, x, y) == buffer[y * width + x]
  {
    OffsetInside(width, height, x, y);
  }

  /** Writing one offset changes one pixel. */
  lemma PixelWritten(buffer: seq<Color>, width: nat, height: nat, x: nat, y: nat, color: Color, x': nat, y': nat)
    requires IsImage(buffer, width, height) && x < width && y < height && x' < width && y' < height
    ensures Offset(width, x, y) < |buffer|
    ensures Pixel(buffer[Offset(width, x, y) := color], width, height, x', y') ==
      if x' == x && y' == y then color else Pixel(buffer, width, height, x', y')
  {
    OffsetInside(width, height, x, y);
    OffsetInside(width, height, x', y');
    OffsetInjective(width, x, y, x', y');
  }

  // ---------------------------------------------------------------- glyphs

  /** Bit `k` of a glyph, most significant bit of each byte first. */
  predicate GlyphBit(glyph: seq<bv8>, k: nat)
    requires k < 8 * |glyph|
  {
    BitSet(glyph[k / 8], 7 - k % 8)
  }

  lemma GlyphBitIs(glyph: seq<bv8>, k: nat)
    requires k < 8 * |glyph|
    ensures GlyphBit(glyph, k) <==> (glyph[k / 8] >> (7 - k % 8)) & 1 == 1
  {
    ShiftedBit(glyph[k / 8], 7 - k % 8);
  }

  lemma ShiftedBit(b: bv8, k: nat)
    requires k < 8
    ensures BitSet(b, k) <==> (b >> k) & 1 == 1
  {
  }

  lemma GlyphBitAt(glyph: seq<bv8>, byte: nat, bit: nat)
    requires byte < |glyph| && bit < 8
    ensures GlyphBit(glyph, 8 * byte + bit) <==> glyph[byte] & Mask(7 - bit) != 0
  {
    assert (8 * byte + bit) / 8 == byte && (8 * byte + bit) % 8 == bit;
  }

  datatype Box = Box(x: nat, y: nat, width: nat, height: nat) {
    predicate Contains(px: nat, py: nat) {
      x <= px < x + width && y <= py < y + height
    }

    /** The box that is really painted on a screen of width `screen`.  A side of length zero counts as
        one, because a bit is painted before the side is compared; past the right edge that is the first
        column, one row below. */
    function Effective(screen: nat): Box {
      var w, h := if width == 0 then 1 else width, if height == 0 then 1 else height;
      if width == 0 && x == screen then Box(0, y + 1, w, h) else Box(x, y, w, h)
    }

    /** The place of a pixel in the box, row by row. */
    function Index(px: nat, py: nat): nat
      requires Contains(px, py)
    {
      Offset(width, px - x, py - y)
    }
  }

  /** The color of a pixel after the first `k` bits of a glyph were painted into a box. */
  ghost function Painted(was: Color, box: Box, glyph: seq<bv8>, k: nat, color: Color, background: Color,
                         px: nat, py: nat): Color
    requires k <= 8 * |glyph|
  {
    if box.Contains(px, py) && box.Index(px, py) < k
    then if GlyphBit(glyph, box.Index(px, py)) then color else background
    else was
  }

  ghost predicate GlyphPainted(before: seq<Color>, after: seq<Color>, width: nat, height: nat, box: Box,
                               glyph: seq<bv8>, k: nat, color: Color, background: Color)
    requires IsImage(before, width, height) && IsImage(after, width, height) && k <= 8 * |glyph|
  {
    forall px: nat, py: nat | px < width && py < height ::
      Pixel(after, width, height, px, py) ==
        Painted(Pixel(before, width, height, px, py), box, glyph, k, color, background, px, py)
  }

  /** Painting bit `k` at its place in the box extends the painted part by one. */
  lemma PaintNext(before: seq<Color>, after: seq<Color>, width: nat, height: nat, box: Box, glyph: seq<bv8>, k: nat,
                  color: Color, background: Color, dx: nat, dy: nat)
    requires IsImage(before, width, height) && IsImage(after, width, height) && k < 8 * |glyph|
    requires box.x + box.width <= width && box.y + dy < height
    requires dx < box.width && dy < box.height && k == Offset(box.width, dx, dy)
    requires GlyphPainted(before, after, width, height, box, glyph, k, color, background)
    ensures Offset(width, box.x + dx, box.y + dy) < |after|
    ensures var ink := if GlyphBit(glyph, k) then color else background;
      var after' := after[Offset(width, box.x + dx, box.y + dy) := ink];
      GlyphPainted(before, after', width, height, box, glyph, k + 1, color, background)
  {
    var ink := if GlyphBit(glyph, k) then color else background;
    var x, y := box.x + dx, box.y + dy;
    OffsetInside(width, height, x, y);
    var after' := after[Offset(width, x, y) := ink];
    forall px: nat, py: nat | px < width && py < height
      ensures Pixel(after', width, height, px, py) ==
        Painted(Pixel(before, width, height, px, py), box, glyph, k + 1, color, background, px, py)
    {
      PixelWritten(after, width, height, x, y, ink, px, py);
      if box.Contains(px, py) {
        OffsetInjective(box.width, dx, dy, px - box.x, py - box.y);
      }
    }
  }

  class LinearFramebuffer {
    const width: nat
    const height: nat
    const buffer: array<Color>

    ghost predicate Valid()
      reads this
    {
      buffer.Length == width * height
    }

    ghost function Size(): Dimensions {
      Dimensions(width, height)
    }

    ghost function Image(): seq<Color>
      requires Valid()
      reads this, buffer
      ensures IsImage(Image(), width, height)
    {
      buffer[..]
    }

    constructor (width: nat, height: nat, initial: Color)
      ensures Valid() && this.width == width && this.height == height && fresh(buffer)
      ensures forall i | 0 <= i < buffer.Length :: buffer[i] == initial
    {
      this.width, this.height := width, height;
      buffer := new Color[width * height](_ => initial);
    }

    /** One pixel; the offset has to lie in the buffer. */
    method Plot(x: nat, y: nat, color: Color)
      requires Valid() && Offset(width, x, y) < buffer.Length
      modifies buffer
      ensures Image() == old(Image())[Offset(width, x, y) := color]
    {
      buffer[x + y * width] := color;
    }

    /** One pixel; an offset outside the buffer halts. */
    method TryPlot(x: nat, y: nat, color: Color) returns (plotted: bool)
      requires Valid()
      modifies buffer
      ensures plotted <==> Offset(width, x, y) < width * height
      ensures plotted ==> Image() == old(Image())[Offset(width, x, y) := color]
    {
      plotted := x + y * width < buffer.Length;
      if plotted {
        Plot(x, y, color);
      }
    }

    /** Paints a glyph into a box: pixel (k mod width, k div width) of the box from bit k, for every k
        below both the number of bits and the area.  No other pixel changes.  It halts exactly when it
        leaves the buffer, which only a box with an empty side can make it do. */
    method PlotGlyph(box: Box, glyph: seq<bv8>, color: Color, background: Color)
      returns (r: Outcome<Unit, FramebufferError>)
      requires Valid()
      modifies buffer
      ensures r.Err? <==> box.x + box.width > width || box.y + box.height > height
      ensures r.Err? ==> r.error == FramebufferError.OutOfBounds && Image() == old(Image())
      ensures r.Panic? <==> !r.Err? && Leaves(width, height, box.Effective(width), 8 * |glyph|)
      ensures r.Ok? ==> GlyphPainted(old(Image()), Image(), width, height, box.Effective(width), glyph, 8 * |glyph|,
                                     color, background)
    {
      if box.x + box.width > width || box.y + box.height > height {
        return Err(FramebufferError.OutOfBounds);
      }
      var currentX, currentY := 0, 0;
      ghost var before, area := Image(), box.Effective(width);
      ghost var k := 0;
      label outer:
      for byte := 0 to |glyph|
        invariant currentX < area.width && currentY < area.height
        invariant k == 8 * byte == Offset(area.width, currentX, currentY)
        invariant Inside(width, height, area, k)
        invariant GlyphPainted(before, Image(), width, height, area, glyph, k, color, background)
      {
        for bit := 0 to 8
          invariant currentX < area.width && currentY < area.height
          invariant k == 8 * byte + bit == Offset(area.width, currentX, currentY)
          invariant Inside(width, height, area, k)
          invariant GlyphPainted(before, Image(), width, height, area, glyph, k, color, background)
        {
          InsideNext(width, height, area, currentX, currentY, 8 * |glyph|);
          var plotted := PlotBit(box, glyph, byte, bit, currentX, currentY, color, background, before, area);
          if !plotted {
            return Panic;
          }
          OffsetStep(area.width, currentX, currentY);
          k := k + 1;
          currentX := currentX + 1;
          if currentX >= box.width {
            currentX := 0;
            currentY := currentY + 1;
            if currentY >= box.height {
              BoxIsFull(before, Image(), width, height, area, glyph, k, color, background);
              NeverLeaves(width, height, area, k);
              break outer;
            }
          }
        }
      }
      return Ok(Unit);
    }

    /** One round of the inner loop: bit `bit` of byte `byte`, at its place in the box, unless that is
        outside the buffer. */
    method PlotBit(box: Box, glyph: seq<bv8>, byte: nat, bit: nat, currentX: nat, currentY: nat,
                   color: Color, background: Color, ghost before: seq<Color>, ghost area: Box)
      returns (plotted: bool)
      requires Valid() && IsImage(before, width, height)
      requires area == box.Effective(width) && box.x + box.width <= width
      requires byte < |glyph| && bit < 8 && currentX < area.width && currentY < area.height
      requires 8 * byte + bit == Offset(area.width, currentX, currentY)
      requires GlyphPainted(before, Image(), width, height, area, glyph, 8 * byte + bit, color, background)
      modifies buffer
      ensures plotted <==> width > 0 && area.y + currentY < height
      ensures plotted ==>
        GlyphPainted(before, Image(), width, height, area, glyph, 8 * byte + bit + 1, color, background)
    {
      var usedColor := Ink(glyph, byte, bit, color, background);
      EffectiveOffset(box, width, height, currentX, currentY);
      plotted := TryPlot(box.x + currentX, box.y + currentY, usedColor);
      if plotted {
        PaintNext(before, old(Image()), width, height, area, glyph, 8 * byte + bit, color, background,
                  currentX, currentY);
      }
    }

    /** Moves everything up by `layers` rows and fills the rows that become free. */
    method Scroll(layers: nat, color: Color)
      requires Valid() && layers <= height
      modifies buffer
      ensures Scrolled(old(Image()), Image(), width, height, layers, color)
    {
      ghost var before := Image();
      var shift, count := ScrollSplit(width, height, layers);
      CopyToFront(shift, count);
      FillFrom(count, color);
      ScrolledRows(before, Image(), width, height, layers, shift, count, color);
    }

    /** Overlapping copy of the last `count` pixels to the front. */
    method CopyToFront(shift: nat, count: nat)
      requires shift + count == buffer.Length
      modifies buffer
      ensures forall j: nat | j < count :: buffer[j] == old(buffer[j + shift])
    {
      ghost var before := buffer[..];
      for i := 0 to count
        invariant forall j: nat | j < i :: buffer[j] == before[j + shift]
        invariant forall j: nat | i <= j < buffer.Length :: buffer[j] == before[j]
      {
        buffer[i] := buffer[i + shift];
      }
    }

    method FillFrom(start: nat, color: Color)
      requires start <= buffer.Length
      modifies buffer
      ensures forall j: nat | j < start :: buffer[j] == old(buffer[j])
      ensures forall j: nat | start <= j < buffer.Length :: buffer[j] == color
    {
      for i := start to buffer.Length
        invariant forall j: nat | j < start :: buffer[j] == old(buffer[j])
        invariant forall j: nat | start <= j < i :: buffer[j] == color
      {
        buffer[i] := color;
      }
    }
  }

  /** The color of one bit. */
  method Ink(glyph: seq<bv8>, byte: nat, bit: nat, color: Color, background: Color) returns (usedColor: Color)
    requires byte < |glyph| && bit < 8
    ensures usedColor == if GlyphBit(glyph, 8 * byte + bit) then color else background
  {
    GlyphBitAt(glyph, byte, bit);
    usedColor := color;
    if glyph[byte] & Mask(7 - bit) == 0 {
      usedColor := background;
    }
  }

  /** Painting `bits` bits into the area leaves a screen of this size. */
  predicate Leaves(width: nat, height: nat, area: Box, bits: nat) {
    var rows := RowsLeft(height, area);
    bits > 0 && (width == 0 || (area.height > rows && bits > Offset(area.width, 0, rows)))
  }

  function RowsLeft(height: nat, area: Box): nat {
    if area.y <= height then height - area.y else 0
  }

  /** The first `k` bits did not leave it. */
  predicate Inside(width: nat, height: nat, area: Box, k: nat) {
    k > 0 ==> width > 0 && k <= Offset(area.width, 0, RowsLeft(height, area))
  }

  /** The place of a bit in the buffer is that in the effective box, and inside as long as its row is. */
  lemma EffectiveOffset(box: Box, width: nat, height: nat, dx: nat, dy: nat)
    requires box.x + box.width <= width && dx < box.Effective(width).width
    ensures var area := box.Effective(width);
      && Offset(width, box.x + dx, box.y + dy) == Offset(width, area.x + dx, area.y + dy)
      && (width > 0 ==> area.x + area.width <= width)
      && (Offset(width, box.x + dx, box.y + dy) < width * height <==> width > 0 && area.y + dy < height)
  {
    var area := box.Effective(width);
    if box.width == 0 && box.x == width {
      OffsetDown(width, 0, box.y + dy, 1);
    }
    if width > 0 {
      OffsetInsideIff(width, height, area.x + dx, area.y + dy);
    }
  }

  lemma OffsetInsideIff(width: nat, height: nat, x: nat, y: nat)
    requires x < width
    ensures Offset(width, x, y) < width * height <==> y < height
  {
    if y < height {
      OffsetInside(width, height, x, y);
    } else {
      OffsetDown(width, 0, 0, height);
      OffsetDown(width, x, height, y - height);
      OffsetDown(width, x, 0, height);
    }
  }

  /** One more bit: inside if its row is, and otherwise there are bits that leave. */
  lemma InsideNext(width: nat, height: nat, area: Box, dx: nat, dy: nat, bits: nat)
    requires dx < area.width && dy < area.height && Offset(area.width, dx, dy) < bits
    ensures width > 0 && area.y + dy < height ==> Inside(width, height, area, Offset(area.width, dx, dy) + 1)
    ensures !(width > 0 && area.y + dy < height) ==> Leaves(width, height, area, bits)
  {
    var rows := RowsLeft(height, area);
    if dy < rows {
      OffsetOrder(area.width, dx, dy, 0, rows);
    } else {
      OffsetDown(area.width, 0, rows, dy - rows);
    }
  }

  /** A box whose last bit was inside is inside. */
  lemma NeverLeaves(width: nat, height: nat, area: Box, k: nat)
    requires area.width > 0 && area.height > 0 && k == Offset(area.width, 0, area.height)
    requires Inside(width, height, area, k)
    ensures k > 0 && width > 0 && area.height <= RowsLeft(height, area)
  {
    OffsetOrder(area.width, 0, 0, 0, area.height);
    if area.height > RowsLeft(height, area) {
      OffsetOrder(area.width, 0, RowsLeft(height, area), 0, area.height);
    }
  }

  /** How many pixels move out, and how many stay. */
  method ScrollSplit(width: nat, height: nat, layers: nat) returns (shift: nat, count: nat)
    requires layers <= height
    ensures shift == layers * width && count == width * (height - layers)
    ensures shift + count == width * height
  {
    shift, count := layers * width, width * (height - layers);
    var rest: nat := height - layers;
    assert width * (layers + rest) == width * layers + width * rest;
  }

  /** Once the area of the box is used up, further glyph bits would not show. */
  lemma BoxIsFull(before: seq<Color>, after: seq<Color>, width: nat, height: nat, box: Box, glyph: seq<bv8>, k: nat,
                  color: Color, background: Color)
    requires IsImage(before, width, height) && IsImage(after, width, height) && k <= 8 * |glyph|
    requires k == Offset(box.width, 0, box.height)
    requires GlyphPainted(before, after, width, height, box, glyph, k, color, background)
    ensures GlyphPainted(before, after, width, height, box, glyph, 8 * |glyph|, color, background)
  {
    forall px: nat, py: nat | px < width && py < height && box.Contains(px, py)
      ensures box.Index(px, py) < k
    {
      OffsetOrder(box.width, px - box.x, py - box.y, 0, box.height);
    }
  }

  ghost predicate Scrolled(before: seq<Color>, after: seq<Color>, width: nat, height: nat, layers: nat, color: Color)
    requires IsImage(before, width, height) && IsImage(after, width, height) && layers <= height
  {
    forall x: nat, y: nat | x < width && y < height ::
      Pixel(after, width, height, x, y) ==
        if y < height - layers then Pixel(before, width, height, x, y + layers) else color
  }

  lemma ScrolledRows(before: seq<Color>, after: seq<Color>, width: nat, height: nat, layers: nat,
                     shift: nat, count: nat, color: Color)
    requires IsImage(before, width, height) && IsImage(after, width, height) && layers <= height
    requires shift == layers * width && count == width * (height - layers) && shift + count == |before|
    requires forall j: nat | j < count :: after[j] == before[j + shift]
    requires forall j: nat | count <= j < |after| :: after[j] == color
    ensures Scrolled(before, after, width, height, layers, color)
  {
    forall x: nat, y: nat | x < width && y < height
      ensures Pixel(after, width, height, x, y) ==
        if y < height - layers then Pixel(before, width, height, x, y + layers) else color
    {
      OffsetInside(width, height, x, y);
      var rest: nat := height - layers;
      if y < rest {
        OffsetInside(width, rest, x, y);
        OffsetInside(width, height, x, y + layers);
        OffsetDown(width, x, y, layers);
      } else {
        OffsetDown(width, x, y - rest, rest);
      }
    }
  }

  /** `layers` rows further down. */
  lemma OffsetDown(width: nat, x: nat, y: nat, layers: nat)
    ensures Offset(width, x, y + layers) == Offset(width, x, y) + layers * width
    ensures layers * width == width * layers
  {
    assert (y + layers) * width == y * width + layers * width;
  }
}
