/** Slicing a glyph sheet into glyphs (`load_matrix_charset` in src/utils.rs,
    and the same geometry in the profiles' charset definitions): a code's two
    nibbles select a cell of a 16 x 16 grid, and the cell's crop origin follows
    from the sheet's offsets and spacings. Decoding the sheet file is not part
    of this model: the sheet arrives as a decoded raster. */
module Layout {
  import opened Common
  import opened Pixels

  /** Which nibble of the code selects the row of the glyph sheet. */
  datatype Order =
    | RowInLowNibble      // top to bottom first
    | ColumnInLowNibble   // left to right first

  /** `CharsetProperties` / `CharsetDefinition`: glyph size and sheet geometry. */
  datatype GlyphLayout = GlyphLayout(
    order: Order,
    charWidth: nat,
    charHeight: nat,
    offsetLeft: nat,
    spacingHorizontal: nat,
    offsetTop: nat,
    spacingVertical: nat)

  datatype Cell = Cell(row: nat, column: nat)

  /** `code >> 4`, the high nibble of a code below 256. */
  function HighNibble(code: nat): nat { code / 16 }

  /** `code & 0x0f`, the low nibble. */
  function LowNibble(code: nat): nat { code % 16 }

  /** The code printed at `cell` of a sheet arranged in `order`. */
  function CodeAt(order: Order, cell: Cell): nat
  {
    match order
    case RowInLowNibble => 16 * cell.column + cell.row
    case ColumnInLowNibble => 16 * cell.row + cell.column
  }

  /** The sheet cell of `code`: both coordinates are nibbles, and the cell names the code back. */
  function CellOf(order: Order, code: nat): (c: Cell)
    requires code < 256
    ensures c.row < 16 && c.column < 16
    ensures CodeAt(order, c) == code
  {
    var hn := HighNibble(code);
    var ln := LowNibble(code);
    match order
    case RowInLowNibble => Cell(ln, hn)
    case ColumnInLowNibble => Cell(hn, ln)
  }

  /** Every cell of the 16 x 16 grid holds exactly the code `CodeAt` names. */
  lemma CellOfCodeAt(order: Order, cell: Cell)
    requires cell.row < 16 && cell.column < 16
    ensures CodeAt(order, cell) < 256
    ensures CellOf(order, CodeAt(order, cell)) == cell
  {
  }

  /** Different codes sit in different cells. */
  lemma CellOfInjective(order: Order, a: nat, b: nat)
    requires a < 256 && b < 256 && a != b
    ensures CellOf(order, a) != CellOf(order, b)
  {
  }

  /** Top-left corner of the crop for `code`. */
  function OriginX(layout: GlyphLayout, code: nat): nat
    requires code < 256
  {
    layout.offsetLeft + CellOf(layout.order, code).column * (layout.charWidth + layout.spacingHorizontal)
  }

  function OriginY(layout: GlyphLayout, code: nat): nat
    requires code < 256
  {
    layout.offsetTop + CellOf(layout.order, code).row * (layout.charHeight + layout.spacingVertical)
  }

  /** The sheet is large enough for the crop of every cell of the 16 x 16 grid. */
  predicate SheetFits(layout: GlyphLayout, w: nat, h: nat)
  {
    && layout.offsetLeft + 15 * (layout.charWidth + layout.spacingHorizontal) + layout.charWidth <= w
    && layout.offsetTop + 15 * (layout.charHeight + layout.spacingVertical) + layout.charHeight <= h
  }

  lemma CropFits(layout: GlyphLayout, code: nat, w: nat, h: nat)
    requires code < 256 && SheetFits(layout, w, h)
    ensures OriginX(layout, code) + layout.charWidth <= w
    ensures OriginY(layout, code) + layout.charHeight <= h
  {
    var c := CellOf(layout.order, code);
    MulMonotone(c.column, 15, layout.charWidth + layout.spacingHorizontal);
    MulMonotone(c.row, 15, layout.charHeight + layout.spacingVertical);
  }

  /** The glyph of `code`: the `charWidth` x `charHeight` crop at its cell's origin. */
  function GlyphAt(sheet: Raster, layout: GlyphLayout, code: nat): (glyph: Raster)
    requires code < 256 && Rectangular(sheet) && SheetFits(layout, Width(sheet), Height(sheet))
    ensures IsRaster(glyph, layout.charWidth, layout.charHeight)
  {
    CropFits(layout, code, Width(sheet), Height(sheet));
    Crop(sheet, OriginX(layout, code), OriginY(layout, code), layout.charWidth, layout.charHeight)
  }

  /** `load_matrix_charset`: the range `0..0xff` leaves out code 0xFF, so the
      result holds the 255 glyphs of codes 0x00 to 0xFE, in code order. */
  function LoadMatrixCharset(sheet: Raster, layout: GlyphLayout): (glyphs: seq<Raster>)
    requires Rectangular(sheet) && SheetFits(layout, Width(sheet), Height(sheet))
    ensures |glyphs| == 0xFF
    ensures forall code :: 0 <= code < |glyphs| ==> IsRaster(glyphs[code], layout.charWidth, layout.charHeight)
    ensures forall code :: 0 <= code < |glyphs| ==> glyphs[code] == GlyphAt(sheet, layout, code)
  {
    seq(0xFF, code requires 0 <= code < 0xFF => GlyphAt(sheet, layout, code))
  }

  /** Each loaded glyph's pixels are the sheet's pixels at its cell's origin. */
  lemma LoadedGlyphPixels(sheet: Raster, layout: GlyphLayout, code: nat, x: nat, y: nat)
    requires Rectangular(sheet) && SheetFits(layout, Width(sheet), Height(sheet))
    requires code < 0xFF && x < layout.charWidth && y < layout.charHeight
    ensures OriginY(layout, code) + y < Height(sheet) && OriginX(layout, code) + x < Width(sheet)
    ensures LoadMatrixCharset(sheet, layout)[code][y][x] == sheet[OriginY(layout, code) + y][OriginX(layout, code) + x]
  {
    CropFits(layout, code, Width(sheet), Height(sheet));
  }
}
