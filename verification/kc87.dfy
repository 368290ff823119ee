/** The older stand-alone KC 87 converter (src/profiles/kc87.rs): a 40 x 24
    screen of 8 x 8 cells, one charset, and one code byte per cell; there is
    no colour RAM. */
module Kc87 {
  import opened Common
  import opened Pixels
  import opened Screen
  import opened Layout
  import opened Distance
  import opened Search
  import opened Profiles
  import opened Matching
  import opened Conversion

  /** `LINES` x `COLUMNS` cells of `CHAR_WIDTH` x `CHAR_HEIGHT` pixels. */
  const Kc87Grid := Grid(24, 40, 8, 8)

  /** The sheet geometry of the charset image. */
  const Kc87Layout := GlyphLayout(ColumnInLowNibble, 8, 8, 1, 1, 1, 1)

  datatype Kc87Converter = Kc87Converter(charset: seq<Raster>)

  /** `new`: the charset sliced from its sheet; 255 glyphs of 8 x 8. */
  function NewKc87(sheet: Raster): (c: Kc87Converter)
    requires Rectangular(sheet) && SheetFits(Kc87Layout, Width(sheet), Height(sheet))
    ensures |c.charset| == 0xFF && CellSized(Kc87Grid, c.charset)
  {
    Kc87Converter(LoadMatrixCharset(sheet, Kc87Layout))
  }

  /** The charset holds at least the 255 glyphs the scan indexes, all 8 x 8. */
  predicate Ready(c: Kc87Converter)
  {
    0xFF <= |c.charset| && CellSized(Kc87Grid, c.charset)
  }

  /** The difference between the tile and each of the codes 0x00 to 0xFE. */
  function CodeDiffs(c: Kc87Converter, tile: Raster): (ds: seq<nat>)
    requires Ready(c) && IsRaster(tile, 8, 8)
    ensures |ds| == 0xFF
    ensures forall k :: 0 <= k < 0xFF ==> ds[k] < U32_MAX
  {
    IsRasterDimensions(tile, 8, 8);
    seq(0xFF, k requires 0 <= k < 0xFF =>
      IsRasterDimensions(c.charset[k], 8, 8);
      ImageDiff(tile, c.charset[k]))
  }

  /** `get_matching_code`: the first code with the least difference; the scan
      stops at 0xFE, so 0xFF is never returned. */
  function GetMatchingCode(c: Kc87Converter, tile: Raster): (code: byte)
    requires Ready(c) && IsRaster(tile, 8, 8)
    ensures code as nat < 0xFF
    ensures IsFirstMinimum(CodeDiffs(c, tile), code as nat)
  {
    var p := FirstMinimum(CodeDiffs(c, tile));
    NatAsByte(p);
    p as byte
  }

  /** The 255 scanned glyphs as the only charset of the generic matcher. */
  function AsCharsets(c: Kc87Converter): seq<seq<Raster>>
    requires Ready(c)
  {
    [c.charset[..0xFF]]
  }

  lemma AsCharsetsComparable(c: Kc87Converter, tile: Raster)
    requires Ready(c) && IsRaster(tile, 8, 8)
    ensures Comparable(AsCharsets(c), tile) && ByteAddressable(AsCharsets(c)) && AnyGlyph(AsCharsets(c))
  {
    var charsets := AsCharsets(c);
    IsRasterDimensions(tile, 8, 8);
    forall s, k | 0 <= s < |charsets| && 0 <= k < |charsets[s]|
      ensures SameShape(tile, charsets[s][k])
    {
      IsRasterDimensions(c.charset[k], 8, 8);
    }
    assert 0 < |charsets[0]|;
  }

  /** The generic matcher's difference for (0, `code`) is the scan's difference for `code`. */
  lemma SameDiffs(c: Kc87Converter, tile: Raster, ch: Character)
    requires Ready(c) && IsRaster(tile, 8, 8)
    requires Comparable(AsCharsets(c), tile) && Valid(AsCharsets(c), ch)
    ensures ch.charset == 0
    ensures Diff(AsCharsets(c), tile, ch) == CodeDiffs(c, tile)[ch.code as nat]
  {
  }

  /** The single-charset scan picks what the generic matcher picks when it is
      given the 255 scanned glyphs as its only charset. */
  lemma AgreesWithGenericMatcher(c: Kc87Converter, tile: Raster)
    requires Ready(c) && IsRaster(tile, 8, 8)
    ensures Comparable(AsCharsets(c), tile) && ByteAddressable(AsCharsets(c))
    ensures BestMatch(AsCharsets(c), tile) == Character(0, GetMatchingCode(c, tile))
  {
    var charsets := AsCharsets(c);
    var ds := CodeDiffs(c, tile);
    AsCharsetsComparable(c, tile);
    var code := GetMatchingCode(c, tile);
    var mine := Character(0, code);
    assert Valid(charsets, mine);
    SameDiffs(c, tile, mine);
    forall ch | Valid(charsets, ch)
      ensures Diff(charsets, tile, mine) <= Diff(charsets, tile, ch)
      ensures Before(ch, mine) ==> Diff(charsets, tile, mine) < Diff(charsets, tile, ch)
    {
      SameDiffs(c, tile, ch);
    }
    IsBestUnique(charsets, tile, mine, BestMatch(charsets, tile));
  }

  /** The codes of `convert`'s nested loops, in row-major order. */
  function Codes(c: Kc87Converter, img: Raster): (codes: seq<byte>)
    requires Ready(c) && CoversScreen(img, Kc87Grid)
    ensures |codes| == Cells(Kc87Grid)
    ensures forall row: nat, column: nat :: row < 24 && column < 40 ==>
      Index(Kc87Grid, row, column) < |codes|
      && codes[Index(Kc87Grid, row, column)] == GetMatchingCode(c, TileAt(img, Kc87Grid, row, column))
    ensures forall i :: 0 <= i < |codes| ==> codes[i] as nat < 0xFF
  {
    var tiles := Tiles(img, Kc87Grid);
    seq(|tiles|, i requires 0 <= i < |tiles| => GetMatchingCode(c, tiles[i]))
  }

  /** `create_preview`: a black 320 x 192 screen with the glyph of code `i` at cell `i`. */
  function Preview(c: Kc87Converter, codes: seq<byte>): (r: Raster)
    requires Ready(c) && |codes| <= Cells(Kc87Grid)
    requires forall i :: 0 <= i < |codes| ==> codes[i] as nat < 0xFF
    ensures IsRaster(r, 320, 192)
  {
    Composite(Kc87Grid, seq(|codes|, i requires 0 <= i < |codes| => c.charset[codes[i]]))
  }

  /** Cell `i` of the preview shows the glyph of code `i`. */
  lemma PreviewShowsCodes(c: Kc87Converter, codes: seq<byte>)
    requires Ready(c) && |codes| == Cells(Kc87Grid)
    requires forall i :: 0 <= i < |codes| ==> codes[i] as nat < 0xFF
    ensures var preview := Preview(c, codes);
      && CoversScreen(preview, Kc87Grid)
      && forall i :: 0 <= i < |codes| ==> Tiles(preview, Kc87Grid)[i] == c.charset[codes[i]]
  {
    TilesOfComposite(Kc87Grid, seq(|codes|, i requires 0 <= i < |codes| => c.charset[codes[i]]));
  }

  /** `convert`: refuse an input smaller than 320 x 192; otherwise character
      RAM is the 960 matched codes and there is no colour RAM. */
  function Convert(c: Kc87Converter, img: Raster): (r: Result<LegacyResult, string>)
    requires Ready(c) && Rectangular(img)
    ensures r.Failure? <==> Width(img) < 320 || Height(img) < 192
    ensures r.Failure? ==> r.error == SizeMessage(Kc87Grid)
    ensures r.Success? ==> CoversScreen(img, Kc87Grid)
    ensures r.Success? ==>
      && r.value.characterRam == Codes(c, img)
      && r.value.colorRam.None?
      && r.value.preview == Preview(c, Codes(c, img))
    ensures r.Success? ==> |r.value.characterRam| == 960
  {
    if Undersized(img, Kc87Grid) then
      Failure(SizeMessage(Kc87Grid))
    else
      LargeEnoughCovers(img, Kc87Grid);
      var codes := Codes(c, img);
      Success(LegacyResult(Preview(c, codes), codes, None))
  }

  /** The refusal names the least size: 320 x 192 pixels. */
  lemma Kc87SizeMessage()
    ensures SizeMessage(Kc87Grid) == "Input file must have a dimension of at least 320x192 pixels."
  {
    assert NatToString(3) == "3";
    assert NatToString(32) == "32";
    assert NatToString(320) == "320";
    assert NatToString(1) == "1";
    assert NatToString(19) == "19";
    assert NatToString(192) == "192";
  }
}
