/** The charset sheet tool (src/bin/hcscrgen-charset-converter.rs): it cuts
    the 256 glyphs of a charset out of a sheet image arranged in a 16 x 16
    grid, and stores them again on a fresh gray sheet with a one-pixel gap
    around every glyph. Reading and writing the image files is not part of
    this model: sheets are decoded rasters. */
module CharsetSheet {
  import opened Common
  import opened Pixels
  import opened Layout

  /** How codes are laid out on the input sheet. */
  datatype Mode = LeftRight | TopBottom

  /** The value of `--mode` when it is not given. */
  const DefaultMode := "lr"

  /** `--mode`: "tb" or "lr"; any other string makes the tool panic (`None`). */
  function ParseMode(s: string): (m: Option<Mode>)
    ensures m == Some(TopBottom) <==> s == "tb"
    ensures m == Some(LeftRight) <==> s == "lr"
    ensures m.None? <==> s != "tb" && s != "lr"
  {
    if s == "tb" then Some(TopBottom)
    else if s == "lr" then Some(LeftRight)
    else None
  }

  /** Without `--mode` the glyphs are read left to right. */
  lemma DefaultModeIsLeftRight()
    ensures ParseMode(DefaultMode) == Some(LeftRight)
  {
  }

  /** The command line: glyph size, sheet offsets and spacings, and the mode. */
  datatype Args = Args(
    width: nat,
    height: nat,
    top: nat,
    left: nat,
    verticalSpacing: nat,
    horizontalSpacing: nat,
    mode: string)

  /** Top to bottom puts the low nibble in the row; left to right puts it in the column. */
  function OrderOf(m: Mode): Order
  {
    match m
    case TopBottom => RowInLowNibble
    case LeftRight => ColumnInLowNibble
  }

  /** The sheet geometry the arguments describe. */
  function SheetLayout(args: Args, m: Mode): GlyphLayout
  {
    GlyphLayout(OrderOf(m), args.width, args.height, args.left, args.horizontalSpacing, args.top, args.verticalSpacing)
  }

  /** The input sheet holds every glyph the arguments describe. */
  predicate ImportFits(args: Args, sheet: Raster)
  {
    && Rectangular(sheet)
    && (ParseMode(args.mode).Some? ==>
          SheetFits(SheetLayout(args, ParseMode(args.mode).value), Width(sheet), Height(sheet)))
  }

  /** `import_charset`: the 256 glyphs in code order, or `None` for a bad mode. */
  function ImportCharset(args: Args, sheet: Raster): (r: Option<seq<Raster>>)
    requires ImportFits(args, sheet)
    ensures r.None? <==> ParseMode(args.mode).None?
    ensures r.Some? ==> |r.value| == 0x100
    ensures r.Some? ==> forall code :: 0 <= code < 0x100 ==> IsRaster(r.value[code], args.width, args.height)
  {
    match ParseMode(args.mode)
    case None => None
    case Some(m) =>
      var layout := SheetLayout(args, m);
      Some(seq(0x100, code requires 0 <= code < 0x100 => GlyphAt(sheet, layout, code)))
  }

  /** Pixel (`x`, `y`) of imported glyph `code` is the sheet pixel at its cell's
      origin plus (`x`, `y`): top to bottom, the row is the low nibble and the
      column the high nibble; left to right, the other way round. */
  lemma ImportedPixels(args: Args, sheet: Raster, code: nat, x: nat, y: nat)
    requires ImportFits(args, sheet) && ParseMode(args.mode).Some?
    requires code < 0x100 && x < args.width && y < args.height
    ensures var m := ParseMode(args.mode).value;
      var row := if m == TopBottom then code % 16 else code / 16;
      var column := if m == TopBottom then code / 16 else code % 16;
      var sx := args.left + column * (args.width + args.horizontalSpacing) + x;
      var sy := args.top + row * (args.height + args.verticalSpacing) + y;
      && sy < Height(sheet) && sx < Width(sheet)
      && ImportCharset(args, sheet).value[code][y][x] == sheet[sy][sx]
  {
    var layout := SheetLayout(args, ParseMode(args.mode).value);
    CropFits(layout, code, Width(sheet), Height(sheet));
  }

  /* ---------------------------------------------------------------------- */
  /* Storing                                                                */
  /* ---------------------------------------------------------------------- */

  /** The background of a stored sheet. */
  const Gray := Rgb(0x80, 0x80, 0x80)

  function CanvasWidth(w: nat): nat { 1 + (w + 1) * 16 }

  function CanvasHeight(h: nat): nat { 1 + (h + 1) * 16 }

  /** Where `store_charset` pastes glyph `i`: column `i % 16`, row `i / 16`, one pixel apart. */
  function StorePlacement(w: nat, h: nat, glyph: Raster, i: nat): Placement
  {
    Placement(glyph, 1 + (i % 16) * (w + 1), 1 + (i / 16) * (h + 1))
  }

  function StorePlacements(w: nat, h: nat, charset: seq<Raster>): (ps: seq<Placement>)
    ensures |ps| == |charset|
    ensures forall i :: 0 <= i < |ps| ==> ps[i] == StorePlacement(w, h, charset[i], i)
  {
    seq(|charset|, i requires 0 <= i < |charset| => StorePlacement(w, h, charset[i], i))
  }

  /** At most 256 glyphs, each `w` x `h`. */
  predicate Storable(w: nat, h: nat, charset: seq<Raster>)
  {
    |charset| <= 0x100 && forall i :: 0 <= i < |charset| ==> IsRaster(charset[i], w, h)
  }

  /** A `w` x `h` raster is rectangular, `h` high, and at most `w` wide (no
      rows means no width). */
  lemma RasterExtent(g: Raster, w: nat, h: nat)
    requires IsRaster(g, w, h)
    ensures Rectangular(g) && Height(g) == h && Width(g) <= w
  {
  }

  /** Glyph `i` lies inside the canvas. */
  lemma StoredGlyphFits(w: nat, h: nat, glyph: Raster, i: nat)
    requires IsRaster(glyph, w, h) && i < 0x100
    ensures FitsIn(StorePlacement(w, h, glyph, i), CanvasWidth(w), CanvasHeight(h))
    ensures StorePlacement(w, h, glyph, i).x + w < CanvasWidth(w)
    ensures StorePlacement(w, h, glyph, i).y + h < CanvasHeight(h)
  {
    RasterExtent(glyph, w, h);
    MulMonotone(i % 16, 15, w + 1);
    MulMonotone(i / 16, 15, h + 1);
  }

  /** Glyphs `i` < `j` do not overlap: `j` is in a later row, or further right in the same row. */
  lemma StoredGlyphsApart(w: nat, h: nat, a: Raster, b: Raster, i: nat, j: nat)
    requires IsRaster(a, w, h) && IsRaster(b, w, h) && i < j
    ensures Apart(StorePlacement(w, h, a, i), StorePlacement(w, h, b, j))
  {
    RasterExtent(a, w, h);
    assert i == 16 * (i / 16) + i % 16 && j == 16 * (j / 16) + j % 16;
    if i / 16 < j / 16 {
      MulMonotone(i / 16 + 1, j / 16, h + 1);
    } else {
      MulMonotone(i % 16 + 1, j % 16, w + 1);
    }
  }

  lemma StoreWellFormed(w: nat, h: nat, charset: seq<Raster>)
    requires Storable(w, h, charset)
    ensures var canvas := Filled(CanvasWidth(w), CanvasHeight(h), Gray);
      && Rectangular(canvas) && Width(canvas) == CanvasWidth(w) && Height(canvas) == CanvasHeight(h)
      && AllFit(StorePlacements(w, h, charset), CanvasWidth(w), CanvasHeight(h))
      && Disjoint(StorePlacements(w, h, charset))
  {
    var ps := StorePlacements(w, h, charset);
    forall i | 0 <= i < |ps|
      ensures FitsIn(ps[i], CanvasWidth(w), CanvasHeight(h))
    {
      StoredGlyphFits(w, h, charset[i], i);
    }
    forall i, j | 0 <= i < j < |ps|
      ensures Apart(ps[i], ps[j])
    {
      StoredGlyphsApart(w, h, charset[i], charset[j], i, j);
    }
  }

  /** `store_charset`: a gray (1 + 16 (w + 1)) x (1 + 16 (h + 1)) canvas with
      glyph `i` pasted at column `i % 16`, row `i / 16`. */
  function StoreCharset(w: nat, h: nat, charset: seq<Raster>): (out: Raster)
    requires Storable(w, h, charset)
    ensures IsRaster(out, CanvasWidth(w), CanvasHeight(h))
  {
    StoreWellFormed(w, h, charset);
    PlaceAll(Filled(CanvasWidth(w), CanvasHeight(h), Gray), StorePlacements(w, h, charset))
  }

  /** Each stored glyph can be cut out of the sheet again at its position. */
  lemma StoredGlyphRecoverable(w: nat, h: nat, charset: seq<Raster>, i: nat)
    requires Storable(w, h, charset) && i < |charset|
    ensures var out := StoreCharset(w, h, charset);
      var p := StorePlacement(w, h, charset[i], i);
      && Rectangular(out) && p.x + w <= Width(out) && p.y + h <= Height(out)
      && Crop(out, p.x, p.y, w, h) == charset[i]
  {
    var canvas := Filled(CanvasWidth(w), CanvasHeight(h), Gray);
    var ps := StorePlacements(w, h, charset);
    StoreWellFormed(w, h, charset);
    StoredGlyphFits(w, h, charset[i], i);
    CropPlaced(canvas, ps, i);
    if 0 < h {
      IsRasterDimensions(charset[i], w, h);
    }
  }

  /** A multiple of the pitch `s + 1` lies outside the `n`-th cell along an
      axis, [1 + n (s + 1), 1 + n (s + 1) + s). */
  lemma OnGridOutsideCell(v: nat, n: nat, s: nat)
    requires v % (s + 1) == 0
    ensures v < 1 + n * (s + 1) || 1 + n * (s + 1) + s <= v
  {
    var d := s + 1;
    var k := v / d;
    assert v == k * d;
    if k <= n {
      MulMonotone(k, n, d);
    } else {
      MulMonotone(n + 1, k, d);
    }
  }

  /** A pixel on a gap line (a column `x` or row `y` that is a multiple of the
      cell pitch) belongs to no glyph and stays gray. */
  lemma GapsStayGray(w: nat, h: nat, charset: seq<Raster>, x: nat, y: nat)
    requires Storable(w, h, charset)
    requires x < CanvasWidth(w) && y < CanvasHeight(h)
    requires x % (w + 1) == 0 || y % (h + 1) == 0
    ensures StoreCharset(w, h, charset)[y][x] == Gray
  {
    var canvas := Filled(CanvasWidth(w), CanvasHeight(h), Gray);
    var ps := StorePlacements(w, h, charset);
    StoreWellFormed(w, h, charset);
    forall i | 0 <= i < |ps|
      ensures !Covers(ps[i], x, y)
    {
      RasterExtent(charset[i], w, h);
      if x % (w + 1) == 0 {
        OnGridOutsideCell(x, i % 16, w);
      } else {
        OnGridOutsideCell(y, i / 16, h);
      }
    }
    PlaceAllUncovered(canvas, ps, x, y);
  }

  /** The arguments that read a stored sheet back: left to right, offsets 1 and spacings 1. */
  function ReadBackArgs(w: nat, h: nat): Args
  {
    Args(w, h, 1, 1, 1, 1, "lr")
  }

  /** Importing a stored charset of 256 glyphs with offsets 1, spacings 1 and
      mode "lr" gives back the charset. */
  lemma StoreImportRoundTrip(w: nat, h: nat, charset: seq<Raster>)
    requires Storable(w, h, charset) && |charset| == 0x100
    ensures ImportFits(ReadBackArgs(w, h), StoreCharset(w, h, charset))
    ensures ImportCharset(ReadBackArgs(w, h), StoreCharset(w, h, charset)) == Some(charset)
  {
    var args := ReadBackArgs(w, h);
    var out := StoreCharset(w, h, charset);
    var layout := SheetLayout(args, LeftRight);
    assert SheetFits(layout, Width(out), Height(out));
    var glyphs := ImportCharset(args, out).value;
    forall code | 0 <= code < 0x100
      ensures glyphs[code] == charset[code]
    {
      StoredGlyphRecoverable(w, h, charset, code);
      assert OriginX(layout, code) == StorePlacement(w, h, charset[code], code).x;
      assert OriginY(layout, code) == StorePlacement(w, h, charset[code], code).y;
      assert glyphs[code] == GlyphAt(out, layout, code);
    }
    assert glyphs == charset;
  }
}
