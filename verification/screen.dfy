/** Screen geometry shared by every converter: the screen is `lines` x
    `columns` character cells of `charWidth` x `charHeight` pixels; tiles are
    cut and previews are assembled in row-major order. */
module Screen {
  import opened Common
  import opened Pixels

  datatype Grid = Grid(lines: nat, columns: nat, charWidth: nat, charHeight: nat)

  function ScreenWidth(g: Grid): nat { g.columns * g.charWidth }

  function ScreenHeight(g: Grid): nat { g.lines * g.charHeight }

  function Cells(g: Grid): nat { g.lines * g.columns }

  /** The input image holds the whole screen. */
  predicate CoversScreen(img: Raster, g: Grid)
  {
    Rectangular(img) && ScreenWidth(g) <= Width(img) && ScreenHeight(g) <= Height(img)
  }

  /** Row-major index of cell (`row`, `column`). */
  function Index(g: Grid, row: nat, column: nat): nat { row * g.columns + column }

  /** Row and column of cell `i`, computed as `create_preview` computes them. */
  function RowOf(g: Grid, i: nat): nat
    requires 0 < g.columns
  {
    i / g.columns
  }

  function ColumnOf(g: Grid, i: nat): nat
    requires 0 < g.columns
  {
    i - RowOf(g, i) * g.columns
  }

  /** Index and (row, column) are inverse to each other on the screen. */
  lemma IndexRoundTrip(g: Grid, row: nat, column: nat)
    requires column < g.columns
    ensures RowOf(g, Index(g, row, column)) == row
    ensures ColumnOf(g, Index(g, row, column)) == column
  {
    var i := Index(g, row, column);
    var q := i / g.columns;
    var r := i % g.columns;
    assert i == q * g.columns + r;
    if q < row {
      MulMonotone(q + 1, row, g.columns);
    } else if q > row {
      MulMonotone(row + 1, q, g.columns);
    }
  }

  lemma CellInScreen(g: Grid, i: nat)
    requires 0 < g.columns && i < Cells(g)
    ensures RowOf(g, i) < g.lines && ColumnOf(g, i) < g.columns
    ensures Index(g, RowOf(g, i), ColumnOf(g, i)) == i
  {
    var q := RowOf(g, i);
    assert i == q * g.columns + i % g.columns;
    if q >= g.lines {
      MulMonotone(g.lines, q, g.columns);
    }
  }

  /** Pixel position of the top-left corner of cell (`row`, `column`). */
  function CellX(g: Grid, column: nat): nat { column * g.charWidth }

  function CellY(g: Grid, row: nat): nat { row * g.charHeight }

  lemma CellFits(g: Grid, row: nat, column: nat)
    requires row < g.lines && column < g.columns
    ensures CellX(g, column) + g.charWidth <= ScreenWidth(g)
    ensures CellY(g, row) + g.charHeight <= ScreenHeight(g)
  {
    MulMonotone(column + 1, g.columns, g.charWidth);
    MulMonotone(row + 1, g.lines, g.charHeight);
  }

  /** The tile of cell (`row`, `column`) of the input image. */
  function TileAt(img: Raster, g: Grid, row: nat, column: nat): (t: Raster)
    requires CoversScreen(img, g) && row < g.lines && column < g.columns
    ensures IsRaster(t, g.charWidth, g.charHeight)
  {
    CellFits(g, row, column);
    Crop(img, CellX(g, column), CellY(g, row), g.charWidth, g.charHeight)
  }

  /** The tiles of the first `rows` rows, cut by the nested row/column loops. */
  function TilesUpTo(img: Raster, g: Grid, rows: nat): (ts: seq<Raster>)
    requires CoversScreen(img, g) && rows <= g.lines
    ensures |ts| == rows * g.columns
    ensures forall row: nat, column: nat :: row < rows && column < g.columns ==>
      Index(g, row, column) < |ts| && ts[Index(g, row, column)] == TileAt(img, g, row, column)
    decreases rows
  {
    if rows == 0 then []
    else
      var prefix := TilesUpTo(img, g, rows - 1);
      var line := seq(g.columns, column requires 0 <= column < g.columns => TileAt(img, g, rows - 1, column));
      var ts := prefix + line;
      forall row: nat, column: nat | row < rows && column < g.columns
        ensures Index(g, row, column) < |ts| && ts[Index(g, row, column)] == TileAt(img, g, row, column)
      {
        if row == rows - 1 {
          assert Index(g, row, column) == |prefix| + column;
        }
      }
      ts
  }

  /** All `lines * columns` tiles of the screen in row-major order. */
  function Tiles(img: Raster, g: Grid): (ts: seq<Raster>)
    requires CoversScreen(img, g)
    ensures |ts| == Cells(g)
    ensures forall row: nat, column: nat :: row < g.lines && column < g.columns ==>
      Index(g, row, column) < |ts| && ts[Index(g, row, column)] == TileAt(img, g, row, column)
    ensures forall i :: 0 <= i < |ts| ==> IsRaster(ts[i], g.charWidth, g.charHeight)
  {
    var ts := TilesUpTo(img, g, g.lines);
    forall i | 0 <= i < |ts|
      ensures IsRaster(ts[i], g.charWidth, g.charHeight)
    {
      CellInScreen(g, i);
    }
    ts
  }

  /** Where `create_preview` pastes the glyph of cell `i`. */
  function CellPlacement(g: Grid, glyph: Raster, i: nat): Placement
    requires 0 < g.columns
  {
    Placement(glyph, CellX(g, ColumnOf(g, i)), CellY(g, RowOf(g, i)))
  }

  /** Every glyph has the cell size. */
  predicate CellSized(g: Grid, glyphs: seq<Raster>)
  {
    forall i :: 0 <= i < |glyphs| ==> IsRaster(glyphs[i], g.charWidth, g.charHeight)
  }

  function Placements(g: Grid, glyphs: seq<Raster>): (ps: seq<Placement>)
    requires 0 < g.columns
    ensures |ps| == |glyphs|
    ensures forall i :: 0 <= i < |ps| ==> ps[i] == CellPlacement(g, glyphs[i], i)
  {
    seq(|glyphs|, i requires 0 <= i < |glyphs| => CellPlacement(g, glyphs[i], i))
  }

  /** Cells are numbered row by row: a later cell is in a later row, or further right in the same row. */
  lemma CellOrder(g: Grid, i: nat, j: nat)
    requires 0 < g.columns && i < j
    ensures RowOf(g, i) < RowOf(g, j) || (RowOf(g, i) == RowOf(g, j) && ColumnOf(g, i) < ColumnOf(g, j))
  {
    var n := g.columns;
    var qi, qj := i / n, j / n;
    assert i == qi * n + i % n && j == qj * n + j % n;
    if qj < qi {
      MulMonotone(qj + 1, qi, n);
    }
  }

  /** Two different cells occupy disjoint rectangles. */
  lemma CellsApart(g: Grid, a: Raster, b: Raster, i: nat, j: nat)
    requires 0 < g.columns && i < j
    requires IsRaster(a, g.charWidth, g.charHeight) && IsRaster(b, g.charWidth, g.charHeight)
    requires 0 < g.charHeight
    ensures Apart(CellPlacement(g, a, i), CellPlacement(g, b, j))
  {
    CellOrder(g, i, j);
    var ri, ci, rj, cj := RowOf(g, i), ColumnOf(g, i), RowOf(g, j), ColumnOf(g, j);
    if ri < rj {
      MulMonotone(ri + 1, rj, g.charHeight);
    } else {
      MulMonotone(ci + 1, cj, g.charWidth);
    }
  }

  lemma CompositeWellFormed(g: Grid, glyphs: seq<Raster>)
    requires 0 < g.columns && 0 < g.lines && 0 < g.charWidth && 0 < g.charHeight
    requires |glyphs| <= Cells(g) && CellSized(g, glyphs)
    ensures var canvas := Filled(ScreenWidth(g), ScreenHeight(g), Black);
      && Rectangular(canvas) && Width(canvas) == ScreenWidth(g) && Height(canvas) == ScreenHeight(g)
      && AllFit(Placements(g, glyphs), ScreenWidth(g), ScreenHeight(g))
      && Disjoint(Placements(g, glyphs))
  {
    var ps := Placements(g, glyphs);
    assert 0 < ScreenHeight(g) by { MulMonotone(1, g.lines, g.charHeight); }
    forall i | 0 <= i < |ps|
      ensures FitsIn(ps[i], ScreenWidth(g), ScreenHeight(g))
    {
      CellInScreen(g, i);
      CellFits(g, RowOf(g, i), ColumnOf(g, i));
    }
    forall i, j | 0 <= i < j < |ps|
      ensures Apart(ps[i], ps[j])
    {
      CellsApart(g, glyphs[i], glyphs[j], i, j);
    }
  }

  /** The preview: a black screen with glyph `i` pasted at cell `i`. */
  function Composite(g: Grid, glyphs: seq<Raster>): (r: Raster)
    requires 0 < g.columns && 0 < g.lines && 0 < g.charWidth && 0 < g.charHeight
    requires |glyphs| <= Cells(g) && CellSized(g, glyphs)
    ensures IsRaster(r, ScreenWidth(g), ScreenHeight(g))
    ensures CoversScreen(r, g)
  {
    CompositeWellFormed(g, glyphs);
    MulMonotone(1, g.lines, g.charHeight);
    PlaceAll(Filled(ScreenWidth(g), ScreenHeight(g), Black), Placements(g, glyphs))
  }

  /** Cutting a composite back into tiles returns the glyphs that were pasted. */
  lemma {:induction false} TilesOfComposite(g: Grid, glyphs: seq<Raster>)
    requires 0 < g.columns && 0 < g.lines && 0 < g.charWidth && 0 < g.charHeight
    requires |glyphs| == Cells(g) && CellSized(g, glyphs)
    ensures Tiles(Composite(g, glyphs), g) == glyphs
  {
    var out := Composite(g, glyphs);
    var ts := Tiles(out, g);
    var ps := Placements(g, glyphs);
    CompositeWellFormed(g, glyphs);
    forall i | 0 <= i < |glyphs|
      ensures ts[i] == glyphs[i]
    {
      CellInScreen(g, i);
      var row, column := RowOf(g, i), ColumnOf(g, i);
      assert ts[Index(g, row, column)] == TileAt(out, g, row, column);
      CropPlaced(Filled(ScreenWidth(g), ScreenHeight(g), Black), ps, i);
    }
  }
}
