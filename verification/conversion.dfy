/** What every converter hands back, and the size check every converter
    performs before it cuts the input into tiles. */
module Conversion {
  import opened Common
  import opened Pixels
  import opened Screen

  /** `ConversionResult` of src/lib.rs: the preview, one character-RAM byte per
      cell, optional colour RAM, and the packed charset when one was generated. */
  datatype ConversionResult = ConversionResult(
    preview: Raster,
    characterRam: seq<byte>,
    colorRam: Option<seq<byte>>,
    charset: Option<seq<byte>>)

  /** The result shape of the older per-machine converters, which have no charset output. */
  datatype LegacyResult = LegacyResult(
    preview: Raster,
    characterRam: seq<byte>,
    colorRam: Option<seq<byte>>)

  /** The input is narrower or lower than the screen. */
  predicate Undersized(img: Raster, g: Grid)
  {
    Width(img) < ScreenWidth(g) || Height(img) < ScreenHeight(g)
  }

  /** An image that is not undersized holds every tile of the screen. */
  lemma LargeEnoughCovers(img: Raster, g: Grid)
    requires Rectangular(img) && !Undersized(img, g)
    ensures CoversScreen(img, g)
  {
  }

  /** The error of an undersized input, naming the least screen size in pixels. */
  function SizeMessage(g: Grid): string
  {
    "Input file must have a dimension of at least " + NatToString(ScreenWidth(g)) + "x"
      + NatToString(ScreenHeight(g)) + " pixels."
  }

  /** The message spells the width and the height in decimal. */
  lemma SizeMessageNamesSize(g: Grid)
    ensures var prefix := "Input file must have a dimension of at least ";
      var w := NatToString(ScreenWidth(g));
      var h := NatToString(ScreenHeight(g));
      var msg := SizeMessage(g);
      && msg[..|prefix|] == prefix
      && DecimalValue(msg[|prefix| .. |prefix| + |w|]) == ScreenWidth(g)
      && msg[|prefix| + |w|] == 'x'
      && DecimalValue(msg[|prefix| + |w| + 1 .. |prefix| + |w| + 1 + |h|]) == ScreenHeight(g)
      && msg[|prefix| + |w| + 1 + |h| ..] == " pixels."
  {
    var prefix := "Input file must have a dimension of at least ";
    var w := NatToString(ScreenWidth(g));
    var h := NatToString(ScreenHeight(g));
    var msg := SizeMessage(g);
    assert msg == prefix + w + "x" + h + " pixels.";
    assert msg[|prefix| .. |prefix| + |w|] == w;
    assert msg[|prefix| + |w| + 1 .. |prefix| + |w| + 1 + |h|] == h;
    NatToStringRoundTrip(ScreenWidth(g));
    NatToStringRoundTrip(ScreenHeight(g));
  }
}
