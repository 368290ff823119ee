/** The profile-driven converter of src/lib.rs: look the profile up, load its
    stock charsets or take a generated one, refuse an input smaller than the
    screen, match every tile in row-major order, and map the matches to
    character RAM, colour RAM and a preview. */
module ScreenConverter {
  import opened Common
  import opened Pixels
  import opened Screen
  import opened Layout
  import opened Distance
  import opened Profiles
  import opened Charset
  import opened Matching
  import opened Conversion

  /** `Converter`: the profile, the charsets to search, and whether the only
      charset is a generated one. The screen size follows from the profile. */
  datatype Converter = Converter(profile: MachineProfile, charsets: seq<seq<Raster>>, usesCustomCharset: bool)

  /** The screen of a machine profile. */
  function ProfileGrid(p: MachineProfile): Grid
  {
    Grid(p.lines, p.columns, p.definition.charWidth, p.definition.charHeight)
  }

  /** `decode` stands for reading and decoding a charset file: every charset
      file of the profile decodes to a sheet large enough for its layout. */
  predicate SheetsReadable(p: MachineProfile, decode: string -> Raster)
  {
    forall f :: f in p.charsets ==>
      Rectangular(decode(f)) && SheetFits(p.definition, Width(decode(f)), Height(decode(f)))
  }

  /** `Converter::new`: a custom charset is the only charset searched;
      otherwise every charset file of the profile is loaded, in order. */
  function NewConverter(profile: MachineProfile, custom: Option<seq<Raster>>, decode: string -> Raster): (c: Converter)
    requires custom.None? ==> SheetsReadable(profile, decode)
    ensures c.profile == profile
    ensures c.usesCustomCharset <==> custom.Some?
    ensures custom.Some? ==> c.charsets == [custom.value]
    ensures custom.None? ==> |c.charsets| == |profile.charsets|
    ensures custom.None? ==> forall s :: 0 <= s < |c.charsets| ==>
      |c.charsets[s]| == 0xFF && CellSized(ProfileGrid(profile), c.charsets[s])
  {
    match custom
    case Some(glyphs) => Converter(profile, [glyphs], true)
    case None =>
      var loaded := seq(|profile.charsets|, s requires 0 <= s < |profile.charsets| =>
        LoadMatrixCharset(decode(profile.charsets[s]), profile.definition));
      Converter(profile, loaded, false)
  }

  /** What `convert` needs of a converter: a non-degenerate screen, charsets
      that are non-empty, byte-addressable and of the cell size, and a custom
      charset that `convert_charset` accepts. */
  predicate Ready(c: Converter)
  {
    var g := ProfileGrid(c.profile);
    && 0 < g.lines && 0 < g.columns && 0 < g.charWidth && 0 < g.charHeight
    && 0 < |c.charsets|
    && (forall s :: 0 <= s < |c.charsets| ==> 0 < |c.charsets[s]| <= 256 && CellSized(g, c.charsets[s]))
    && (c.usesCustomCharset ==> |c.charsets[0]| == 256 && Sized8x8(c.charsets[0], 256))
  }

  /** Every registered profile yields a ready converter, with its stock
      charsets or with 256 generated glyphs of its cell size. */
  lemma RegisteredProfilesReady(p: MachineProfile, custom: Option<seq<Raster>>, decode: string -> Raster)
    requires p in AvailableProfiles
    requires custom.None? ==> SheetsReadable(p, decode)
    requires custom.Some? ==> |custom.value| == 256 && CellSized(ProfileGrid(p), custom.value)
    ensures Ready(NewConverter(p, custom, decode))
  {
    ProfileFacts(Character(0, 0));
  }

  /** A tile of the screen can be compared with every glyph of a ready converter. */
  lemma TilesComparable(c: Converter, img: Raster, row: nat, column: nat)
    requires Ready(c) && CoversScreen(img, ProfileGrid(c.profile))
    requires row < c.profile.lines && column < c.profile.columns
    ensures Comparable(c.charsets, TileAt(img, ProfileGrid(c.profile), row, column))
    ensures ByteAddressable(c.charsets) && AnyGlyph(c.charsets)
  {
    var g := ProfileGrid(c.profile);
    var tile := TileAt(img, g, row, column);
    IsRasterDimensions(tile, g.charWidth, g.charHeight);
    forall s, k | 0 <= s < |c.charsets| && 0 <= k < |c.charsets[s]|
      ensures SameShape(tile, c.charsets[s][k])
    {
      IsRasterDimensions(c.charsets[s][k], g.charWidth, g.charHeight);
    }
    assert 0 < |c.charsets[0]|;
  }

  /** The matched characters of `convert`'s nested loops, in row-major order:
      cell (`row`, `column`) holds the best match for its tile. */
  function Characters(c: Converter, img: Raster): (chars: seq<Character>)
    requires Ready(c) && CoversScreen(img, ProfileGrid(c.profile))
    ensures |chars| == Cells(ProfileGrid(c.profile))
    ensures forall i :: 0 <= i < |chars| ==> Valid(c.charsets, chars[i])
    ensures forall row: nat, column: nat :: row < c.profile.lines && column < c.profile.columns ==>
      var g := ProfileGrid(c.profile);
      var tile := TileAt(img, g, row, column);
      && Index(g, row, column) < |chars|
      && Comparable(c.charsets, tile)
      && IsBest(c.charsets, tile, chars[Index(g, row, column)])
  {
    var g := ProfileGrid(c.profile);
    var tiles := Tiles(img, g);
    var chars := seq(|tiles|, i requires 0 <= i < |tiles| =>
      CellInScreen(g, i);
      TilesComparable(c, img, RowOf(g, i), ColumnOf(g, i));
      BestMatch(c.charsets, tiles[i]));
    forall row: nat, column: nat | row < c.profile.lines && column < c.profile.columns
      ensures Index(g, row, column) < |chars|
      ensures Comparable(c.charsets, TileAt(img, g, row, column))
      ensures IsBest(c.charsets, TileAt(img, g, row, column), chars[Index(g, row, column)])
    {
      TilesComparable(c, img, row, column);
      IndexRoundTrip(g, row, column);
    }
    forall i | 0 <= i < |chars|
      ensures Valid(c.charsets, chars[i])
    {
      CellInScreen(g, i);
      TilesComparable(c, img, RowOf(g, i), ColumnOf(g, i));
    }
    chars
  }

  /** The glyphs the characters name, one per cell. */
  function GlyphsOf(c: Converter, chars: seq<Character>): (glyphs: seq<Raster>)
    requires Ready(c) && forall i :: 0 <= i < |chars| ==> Valid(c.charsets, chars[i])
    ensures |glyphs| == |chars|
    ensures CellSized(ProfileGrid(c.profile), glyphs)
  {
    var g := ProfileGrid(c.profile);
    var glyphs := seq(|chars|, i requires 0 <= i < |chars| => GlyphOf(c.charsets, chars[i]));
    assert CellSized(g, glyphs) by {
      forall i | 0 <= i < |glyphs|
        ensures IsRaster(glyphs[i], g.charWidth, g.charHeight)
      {
        var ch := chars[i];
        assert Valid(c.charsets, ch);
        assert CellSized(g, c.charsets[ch.charset]);
        assert glyphs[i] == c.charsets[ch.charset][ch.code];
      }
    }
    glyphs
  }

  /** `create_preview`: a black screen with the glyph of character `i` at cell `i`. */
  function Preview(c: Converter, chars: seq<Character>): (r: Raster)
    requires Ready(c) && |chars| <= Cells(ProfileGrid(c.profile))
    requires forall i :: 0 <= i < |chars| ==> Valid(c.charsets, chars[i])
    ensures IsRaster(r, ScreenWidth(ProfileGrid(c.profile)), ScreenHeight(ProfileGrid(c.profile)))
  {
    Composite(ProfileGrid(c.profile), GlyphsOf(c, chars))
  }

  /** Cutting the preview into tiles gives back, cell by cell, the glyphs of the characters. */
  lemma PreviewShowsCharacters(c: Converter, chars: seq<Character>)
    requires Ready(c) && |chars| == Cells(ProfileGrid(c.profile))
    requires forall i :: 0 <= i < |chars| ==> Valid(c.charsets, chars[i])
    ensures var preview := Preview(c, chars);
      && CoversScreen(preview, ProfileGrid(c.profile))
      && forall i :: 0 <= i < |chars| ==> Tiles(preview, ProfileGrid(c.profile))[i] == GlyphOf(c.charsets, chars[i])
  {
    TilesOfComposite(ProfileGrid(c.profile), GlyphsOf(c, chars));
  }

  /** `map_character_ram`: the profile's mapping applied to every character. */
  function MapCharacterRam(p: MachineProfile, chars: seq<Character>): (ram: seq<byte>)
    ensures |ram| == |chars|
    ensures forall i :: 0 <= i < |chars| ==> ram[i] == p.characterRamMapping(chars[i])
  {
    seq(|chars|, i requires 0 <= i < |chars| => p.characterRamMapping(chars[i]))
  }

  /** `map_color_ram`: the same for colour RAM, present only when the profile has a colour mapping. */
  function MapColorRam(p: MachineProfile, chars: seq<Character>): (ram: Option<seq<byte>>)
    ensures ram.Some? <==> p.colorRamMapping.Some?
    ensures ram.Some? ==> |ram.value| == |chars|
    ensures ram.Some? ==> forall i :: 0 <= i < |chars| ==> ram.value[i] == p.colorRamMapping.value(chars[i])
  {
    match p.colorRamMapping
    case None => None
    case Some(mapping) => Some(seq(|chars|, i requires 0 <= i < |chars| => mapping(chars[i])))
  }

  /** `Converter::convert`: an input smaller than the screen is refused;
      otherwise every cell is matched and the matches become character RAM,
      colour RAM and the preview, with the packed charset when it was generated. */
  function ConvertImage(c: Converter, img: Raster): (r: Result<ConversionResult, string>)
    requires Ready(c) && Rectangular(img)
    ensures r.Failure? <==> Undersized(img, ProfileGrid(c.profile))
    ensures r.Failure? ==> r.error == SizeMessage(ProfileGrid(c.profile))
    ensures r.Success? ==> CoversScreen(img, ProfileGrid(c.profile))
    ensures r.Success? ==>
      var chars := Characters(c, img);
      && r.value.characterRam == MapCharacterRam(c.profile, chars)
      && r.value.colorRam == MapColorRam(c.profile, chars)
      && r.value.preview == Preview(c, chars)
    ensures r.Success? ==> (r.value.charset.Some? <==> c.usesCustomCharset)
    ensures r.Success? && c.usesCustomCharset ==> r.value.charset == Some(ConvertCharset(c.charsets[0]))
  {
    var g := ProfileGrid(c.profile);
    if Undersized(img, g) then
      Failure(SizeMessage(g))
    else
      LargeEnoughCovers(img, g);
      var chars := Characters(c, img);
      Success(ConversionResult(
        Preview(c, chars),
        MapCharacterRam(c.profile, chars),
        MapColorRam(c.profile, chars),
        if c.usesCustomCharset then Some(ConvertCharset(c.charsets[0])) else None))
  }

  /** With a registered profile, character RAM holds the matched codes, one per
      cell, and colour RAM (when present) is as long as character RAM. */
  lemma RegisteredRamLayout(c: Converter, img: Raster)
    requires Ready(c) && Rectangular(img) && c.profile in AvailableProfiles
    requires ConvertImage(c, img).Success?
    ensures var out := ConvertImage(c, img).value;
      var chars := Characters(c, img);
      && |out.characterRam| == Cells(ProfileGrid(c.profile))
      && (forall i :: 0 <= i < |chars| ==> out.characterRam[i] == chars[i].code)
      && (out.colorRam.Some? ==> |out.colorRam.value| == |out.characterRam|)
  {
    ProfileFacts(Character(0, 0));
    var chars := Characters(c, img);
    forall i | 0 <= i < |chars|
      ensures c.profile.characterRamMapping(chars[i]) == chars[i].code
    {
      ProfileFacts(chars[i]);
    }
  }

  /** The error of an unknown identifier, listing the registered ones. */
  function UnknownProfileMessage(id: string): string
  {
    "Unknown profile identifier \"" + id + "\".\nAvailable profiles: " + Join(Identifiers(AvailableProfiles), ", ")
  }

  /** The listing names c64, kc87, sharpmz and z1013 in registry order. */
  lemma UnknownProfileListing(id: string)
    ensures UnknownProfileMessage(id) ==
      "Unknown profile identifier \"" + id + "\".\nAvailable profiles: c64, kc87, sharpmz, z1013"
  {
    IdentifierListing();
  }

  /** The generated charset of a registered profile fits its converter. */
  lemma GeneratedCharsetFits(p: MachineProfile, img: Raster, coin: (nat, nat, nat) -> bool)
    requires p in AvailableProfiles && CoversScreen(img, ProfileGrid(p))
    ensures GridOf(FromMachineProfile(p)) == ProfileGrid(p)
    ensures var glyphs := GenerateCharset(FromMachineProfile(p), img, coin);
      |glyphs| == 256 && CellSized(ProfileGrid(p), glyphs)
  {
    ProfileFacts(Character(0, 0));
  }

  /** `convert` once the profile is found: a generated charset when asked
      for, then the conversion of the image with that profile. */
  function ConvertWithProfile(p: MachineProfile, img: Raster, autogenerate: bool, decode: string -> Raster, coin: (nat, nat, nat) -> bool)
    : (r: Result<ConversionResult, string>)
    requires p in AvailableProfiles && Rectangular(img) && SheetsReadable(p, decode)
    requires autogenerate ==> CoversScreen(img, ProfileGrid(p))
    ensures r.Failure? <==> Undersized(img, ProfileGrid(p))
    ensures r.Failure? ==> r.error == SizeMessage(ProfileGrid(p))
    ensures r.Success? ==> (r.value.charset.Some? <==> autogenerate)
    ensures r.Success? ==> |r.value.characterRam| == Cells(ProfileGrid(p))
    ensures r.Success? ==> (r.value.colorRam.Some? <==> p.colorRamMapping.Some?)
  {
    var custom := if autogenerate then
      ProfileFacts(Character(0, 0));
      GeneratedCharsetFits(p, img, coin);
      Some(GenerateCharset(FromMachineProfile(p), img, coin))
    else None;
    RegisteredProfilesReady(p, custom, decode);
    var c := NewConverter(p, custom, decode);
    var r := ConvertImage(c, img);
    if r.Success? then
      RegisteredRamLayout(c, img);
      r
    else r
  }

  /** `convert`: the first registered profile with the identifier is used,
      with a generated charset when asked for; an unknown identifier is an
      error that lists the registered ones. `decode` reads a charset file and
      `coin` is the random source of charset generation. The source generates
      the charset before it checks the input size, so generation asks for an
      input that holds the whole screen. */
  function Convert(img: Raster, id: string, autogenerate: bool, decode: string -> Raster, coin: (nat, nat, nat) -> bool)
    : (r: Result<ConversionResult, string>)
    requires Rectangular(img)
    requires forall p :: p in AvailableProfiles ==> SheetsReadable(p, decode)
    requires autogenerate ==> forall p :: p in AvailableProfiles && p.identifier == id ==> CoversScreen(img, ProfileGrid(p))
    ensures FindProfile(AvailableProfiles, id).None? ==> r == Failure(UnknownProfileMessage(id))
    ensures FindProfile(AvailableProfiles, id).Some? ==>
      var p := AvailableProfiles[FindProfile(AvailableProfiles, id).value];
      && p.identifier == id
      && (r.Failure? <==> Undersized(img, ProfileGrid(p)))
      && (r.Failure? ==> r.error == SizeMessage(ProfileGrid(p)))
      && (r.Success? ==> (r.value.charset.Some? <==> autogenerate))
      && (r.Success? ==> |r.value.characterRam| == Cells(ProfileGrid(p)))
      && (r.Success? ==> (r.value.colorRam.Some? <==> p.colorRamMapping.Some?))
  {
    match FindProfile(AvailableProfiles, id)
    case None => Failure(UnknownProfileMessage(id))
    case Some(i) =>
      var p := AvailableProfiles[i];
      assert p in AvailableProfiles && p.identifier == id;
      ConvertWithProfile(p, img, autogenerate, decode, coin)
  }
}
