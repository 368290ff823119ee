/** The older stand-alone Sharp MZ-700 converter (src/profiles/sharpmz.rs): a
    40 x 25 screen of 8 x 8 cells, a primary and an extended charset, and a
    16-bit code per cell whose low byte is the character code and whose high
    byte is the colour attribute (bit 15 selects the extended charset, 0x07
    is the foreground colour). */
module SharpMz {
  import opened Common
  import opened Pixels
  import opened Screen
  import opened Layout
  import opened Distance
  import opened Profiles
  import opened Matching
  import opened Conversion

  /** A 16-bit cell code (Rust `u16`). */
  type u16 = bv16

  /** `LINES` x `COLUMNS` cells of `CHAR_WIDTH` x `CHAR_HEIGHT` pixels. */
  const SharpMzGrid := Grid(25, 40, 8, 8)

  /** The sheet geometry of both charset images. */
  const SharpMzLayout := GlyphLayout(RowInLowNibble, 8, 8, 2, 3, 2, 3)

  /** Bit 15: the code comes from the extended charset. */
  const ExtendedFlag: u16 := 0x8000

  /** The foreground colour or'ed into every code. */
  const Foreground: u16 := 0x0700

  datatype SharpMzConverter = SharpMzConverter(charset: seq<Raster>, charsetExtended: seq<Raster>)

  /** A decoded sheet large enough for the layout. */
  predicate SheetUsable(sheet: Raster)
  {
    Rectangular(sheet) && SheetFits(SharpMzLayout, Width(sheet), Height(sheet))
  }

  /** `new`: both charsets sliced from their sheets; 255 glyphs of 8 x 8 each. */
  function NewSharpMz(sheet: Raster, extendedSheet: Raster): (c: SharpMzConverter)
    requires SheetUsable(sheet) && SheetUsable(extendedSheet)
    ensures |c.charset| == 0xFF && |c.charsetExtended| == 0xFF
    ensures CellSized(SharpMzGrid, c.charset) && CellSized(SharpMzGrid, c.charsetExtended)
  {
    SharpMzConverter(LoadMatrixCharset(sheet, SharpMzLayout), LoadMatrixCharset(extendedSheet, SharpMzLayout))
  }

  /** Both charsets hold at least the 255 glyphs the scans index, all 8 x 8. */
  predicate Ready(c: SharpMzConverter)
  {
    && 0xFF <= |c.charset| && 0xFF <= |c.charsetExtended|
    && CellSized(SharpMzGrid, c.charset) && CellSized(SharpMzGrid, c.charsetExtended)
  }

  /** The glyphs the two scans visit, in scan order: codes 0x00 to 0xFE of the
      primary charset, then of the extended one. */
  function Scanned(c: SharpMzConverter): (charsets: seq<seq<Raster>>)
    requires Ready(c)
    ensures |charsets| == 2 && |charsets[0]| == 0xFF && |charsets[1]| == 0xFF
  {
    [c.charset[..0xFF], c.charsetExtended[..0xFF]]
  }

  /** An 8 x 8 tile can be compared with every scanned glyph. */
  lemma ScannedComparable(c: SharpMzConverter, tile: Raster)
    requires Ready(c) && IsRaster(tile, 8, 8)
    ensures Comparable(Scanned(c), tile) && ByteAddressable(Scanned(c)) && AnyGlyph(Scanned(c))
  {
    var charsets := Scanned(c);
    IsRasterDimensions(tile, 8, 8);
    forall s, k | 0 <= s < |charsets| && 0 <= k < |charsets[s]|
      ensures SameShape(tile, charsets[s][k])
    {
      assert charsets[s][k] == if s == 0 then c.charset[k] else c.charsetExtended[k];
      IsRasterDimensions(charsets[s][k], 8, 8);
    }
  }

  /** The character a cell code names: the charset from bit 15, the code from the low byte. */
  function Unpack(code: u16): Character
  {
    Character(if code & ExtendedFlag != 0 then 1 else 0, (code & 0xFF) as byte)
  }

  /** The code of a scan winner: `0x8000 | code` for the extended charset, then `| 0x0700`. */
  function Pack(ch: Character): u16
  {
    (if ch.charset == 1 then ExtendedFlag else 0) | (ch.code as u16) | Foreground
  }

  /** Packing keeps the charset and the code, and fixes bits 8 to 14 to the foreground colour. */
  lemma PackUnpack(ch: Character)
    requires ch.charset < 2
    ensures Unpack(Pack(ch)) == ch
    ensures Pack(ch) & 0x7F00 == Foreground
  {
    var flag: u16 := if ch.charset == 1 then ExtendedFlag else 0;
    var low: u16 := ch.code as u16;
    assert low & 0xFF00 == 0 && low & 0xFF == low;
    assert (flag | low | Foreground) & 0xFF == low;
    assert (flag | low | Foreground) & ExtendedFlag == flag;
    assert (low & 0xFF) as byte == ch.code;
  }

  /** `get_matching_code`: the best glyph over both charsets, ties going to the
      primary charset and then to the lower code, packed with the colour bits.
      The low byte is never 0xFF, since both scans stop at 0xFE. */
  function GetMatchingCode(c: SharpMzConverter, tile: Raster): (code: u16)
    requires Ready(c) && IsRaster(tile, 8, 8)
    ensures code & 0x7F00 == Foreground
    ensures (code & 0xFF) as nat < 0xFF
    ensures Comparable(Scanned(c), tile) && IsBest(Scanned(c), tile, Unpack(code))
    ensures code & ExtendedFlag != 0 <==> Unpack(code).charset == 1
  {
    ScannedComparable(c, tile);
    var best := BestMatch(Scanned(c), tile);
    PackUnpack(best);
    Pack(best)
  }

  /** `code & 0x00ff`, as a byte. */
  function LowByte(code: u16): (b: byte)
    ensures b as u16 == code & 0x00FF
  {
    (code & 0x00FF) as byte
  }

  /** `code >> 8`, as a byte. */
  function HighByte(code: u16): (b: byte)
    ensures b as u16 == code >> 8
  {
    (code >> 8) as byte
  }

  /** `get_character_ram`: the low byte of every code. */
  function GetCharacterRam(codes: seq<u16>): (ram: seq<byte>)
    ensures |ram| == |codes|
    ensures forall i :: 0 <= i < |codes| ==> ram[i] as u16 == codes[i] & 0x00FF
  {
    seq(|codes|, i requires 0 <= i < |codes| => LowByte(codes[i]))
  }

  /** `get_color_ram`: the high byte of every code. */
  function GetColorRam(codes: seq<u16>): (ram: seq<byte>)
    ensures |ram| == |codes|
    ensures forall i :: 0 <= i < |codes| ==> ram[i] as u16 == codes[i] >> 8
  {
    seq(|codes|, i requires 0 <= i < |codes| => HighByte(codes[i]))
  }

  /** The two RAM images together hold every code: `(colour << 8) | character`. */
  lemma RamRecombines(codes: seq<u16>)
    ensures forall i :: 0 <= i < |codes| ==>
      ((GetColorRam(codes)[i] as u16) << 8) | (GetCharacterRam(codes)[i] as u16) == codes[i]
  {
    forall i | 0 <= i < |codes|
      ensures ((GetColorRam(codes)[i] as u16) << 8) | (GetCharacterRam(codes)[i] as u16) == codes[i]
    {
      var code := codes[i];
      assert ((code >> 8) << 8) | (code & 0x00FF) == code;
    }
  }

  /** The colour byte of a matched code is 0x87 for an extended-charset winner
      and 0x07 otherwise, which is what the Sharp MZ profile's colour mapping
      gives for the same character. */
  lemma MatchedColour(c: SharpMzConverter, tile: Raster)
    requires Ready(c) && IsRaster(tile, 8, 8)
    ensures var code := GetMatchingCode(c, tile);
      var colour := GetColorRam([code])[0];
      && colour == (if Unpack(code).charset == 1 then 0x87 else 0x07)
      && colour == SharpMzProfile.colorRamMapping.value(Unpack(code))
      && GetCharacterRam([code])[0] == Unpack(code).code
  {
    var code := GetMatchingCode(c, tile);
    assert (code >> 8) & 0x7F == 0x07;
    if code & ExtendedFlag != 0 {
      assert code >> 8 == 0x87;
    } else {
      assert code >> 8 == 0x07;
    }
  }

  /** The codes of `convert`'s nested loops, in row-major order. */
  function Codes(c: SharpMzConverter, img: Raster): (codes: seq<u16>)
    requires Ready(c) && CoversScreen(img, SharpMzGrid)
    ensures |codes| == Cells(SharpMzGrid)
    ensures forall row: nat, column: nat :: row < 25 && column < 40 ==>
      Index(SharpMzGrid, row, column) < |codes|
      && codes[Index(SharpMzGrid, row, column)] == GetMatchingCode(c, TileAt(img, SharpMzGrid, row, column))
    ensures forall i :: 0 <= i < |codes| ==> (codes[i] & 0xFF) as nat < 0xFF
  {
    var tiles := Tiles(img, SharpMzGrid);
    seq(|tiles|, i requires 0 <= i < |tiles| => GetMatchingCode(c, tiles[i]))
  }

  /** The glyph the preview shows for a code: the extended charset when bit 15
      is set, the primary one otherwise, at the code's low byte. */
  function PreviewGlyph(c: SharpMzConverter, code: u16): (glyph: Raster)
    requires Ready(c) && (code & 0xFF) as nat < 0xFF
    ensures IsRaster(glyph, 8, 8)
  {
    var charset := if code & ExtendedFlag != 0 then c.charsetExtended else c.charset;
    charset[(code & 0xFF) as nat]
  }

  /** The code `Unpack` reads is the code's low byte. */
  lemma UnpackedCode(code: u16)
    ensures Unpack(code).code as nat == (code & 0xFF) as nat
  {
  }

  /** The preview glyph of a code is the scanned glyph the code names. */
  lemma PreviewGlyphIsNamed(c: SharpMzConverter, code: u16)
    requires Ready(c) && (code & 0xFF) as nat < 0xFF
    ensures Valid(Scanned(c), Unpack(code))
    ensures PreviewGlyph(c, code) == GlyphOf(Scanned(c), Unpack(code))
  {
    UnpackedCode(code);
    var ch := Unpack(code);
    if code & ExtendedFlag != 0 {
      assert ch.charset == 1;
    } else {
      assert ch.charset == 0;
    }
  }

  /** `create_preview`: a black 320 x 200 screen with the glyph of code `i` at cell `i`. */
  function Preview(c: SharpMzConverter, codes: seq<u16>): (r: Raster)
    requires Ready(c) && |codes| <= Cells(SharpMzGrid)
    requires forall i :: 0 <= i < |codes| ==> (codes[i] & 0xFF) as nat < 0xFF
    ensures IsRaster(r, 320, 200)
  {
    Composite(SharpMzGrid, seq(|codes|, i requires 0 <= i < |codes| => PreviewGlyph(c, codes[i])))
  }

  /** `convert`: refuse an input smaller than 320 x 200; otherwise the matched
      codes give character RAM (low bytes), colour RAM (high bytes) and the preview. */
  function Convert(c: SharpMzConverter, img: Raster): (r: Result<LegacyResult, string>)
    requires Ready(c) && Rectangular(img)
    ensures r.Failure? <==> Width(img) < 320 || Height(img) < 200
    ensures r.Failure? ==> r.error == SizeMessage(SharpMzGrid)
    ensures r.Success? ==> CoversScreen(img, SharpMzGrid)
    ensures r.Success? ==>
      var codes := Codes(c, img);
      && r.value.characterRam == GetCharacterRam(codes)
      && r.value.colorRam == Some(GetColorRam(codes))
      && r.value.preview == Preview(c, codes)
    ensures r.Success? ==> |r.value.characterRam| == 1000
  {
    if Undersized(img, SharpMzGrid) then
      Failure(SizeMessage(SharpMzGrid))
    else
      LargeEnoughCovers(img, SharpMzGrid);
      var codes := Codes(c, img);
      Success(LegacyResult(Preview(c, codes), GetCharacterRam(codes), Some(GetColorRam(codes))))
  }

  /** Cell `i` of the preview shows the glyph that won the match for tile `i`. */
  lemma PreviewShowsMatches(c: SharpMzConverter, img: Raster)
    requires Ready(c) && CoversScreen(img, SharpMzGrid)
    ensures var codes := Codes(c, img);
      var preview := Preview(c, codes);
      && CoversScreen(preview, SharpMzGrid)
      && forall i :: 0 <= i < |codes| ==> Tiles(preview, SharpMzGrid)[i] == GlyphOf(Scanned(c), Unpack(codes[i]))
  {
    var codes := Codes(c, img);
    var glyphs := seq(|codes|, i requires 0 <= i < |codes| => PreviewGlyph(c, codes[i]));
    TilesOfComposite(SharpMzGrid, glyphs);
    var tiles := Tiles(Preview(c, codes), SharpMzGrid);
    forall i | 0 <= i < |codes|
      ensures Valid(Scanned(c), Unpack(codes[i]))
      ensures tiles[i] == GlyphOf(Scanned(c), Unpack(codes[i]))
    {
      PreviewGlyphIsNamed(c, codes[i]);
      assert tiles[i] == glyphs[i];
    }
  }

  /** The refusal names the least size: 320 x 200 pixels. */
  lemma SharpMzSizeMessage()
    ensures SizeMessage(SharpMzGrid) == "Input file must have a dimension of at least 320x200 pixels."
  {
    assert NatToString(3) == "3";
    assert NatToString(32) == "32";
    assert NatToString(320) == "320";
    assert NatToString(2) == "2";
    assert NatToString(20) == "20";
    assert NatToString(200) == "200";
  }
}
