/** Choosing the glyph that best represents a tile (`get_best_matching_character`
    in src/lib.rs): every charset is scanned in order, every glyph of it in
    code order, and the best candidate is replaced only on a strictly smaller
    `image_diff`.  The result is therefore the lexicographically first glyph
    among those with the least difference. */
module Matching {
  import opened Common
  import opened Pixels
  import opened Distance
  import opened Profiles

  /** Every glyph can be compared with the tile, and the tile has pixels. */
  predicate Comparable(charsets: seq<seq<Raster>>, tile: Raster)
  {
    && 0 < Width(tile) && 0 < Height(tile)
    && forall s, k :: 0 <= s < |charsets| && 0 <= k < |charsets[s]| ==> SameShape(tile, charsets[s][k])
  }

  /** A charset's codes are bytes, so no charset is longer than 256 glyphs. */
  predicate ByteAddressable(charsets: seq<seq<Raster>>)
  {
    forall s :: 0 <= s < |charsets| ==> |charsets[s]| <= 256
  }

  /** `ch` names a glyph of one of the charsets. */
  predicate Valid(charsets: seq<seq<Raster>>, ch: Character)
  {
    ch.charset < |charsets| && ch.code as nat < |charsets[ch.charset]|
  }

  /** Some charset holds at least one glyph. */
  predicate AnyGlyph(charsets: seq<seq<Raster>>)
  {
    exists s :: 0 <= s < |charsets| && 0 < |charsets[s]|
  }

  /** The glyph `ch` names. */
  function GlyphOf(charsets: seq<seq<Raster>>, ch: Character): Raster
    requires Valid(charsets, ch)
  {
    charsets[ch.charset][ch.code]
  }

  /** `image_diff` between the tile and the glyph `ch` names. */
  function Diff(charsets: seq<seq<Raster>>, tile: Raster, ch: Character): (d: nat)
    requires Comparable(charsets, tile) && Valid(charsets, ch)
    ensures d <= 765
  {
    ImageDiff(tile, GlyphOf(charsets, ch))
  }

  /** `a` comes before `b` in scan order: an earlier charset, or a lower code in the same one. */
  predicate Before(a: Character, b: Character)
  {
    a.charset < b.charset || (a.charset == b.charset && a.code as nat < b.code as nat)
  }

  /** Two different characters are ordered one way or the other. */
  lemma BeforeTotal(a: Character, b: Character)
    requires a != b
    ensures Before(a, b) || Before(b, a)
  {
  }

  /** `best` has the least difference, and every glyph scanned before it a strictly larger one. */
  ghost predicate IsBest(charsets: seq<seq<Raster>>, tile: Raster, best: Character)
    requires Comparable(charsets, tile)
  {
    && Valid(charsets, best)
    && (forall ch :: Valid(charsets, ch) ==> Diff(charsets, tile, best) <= Diff(charsets, tile, ch))
    && (forall ch :: Valid(charsets, ch) && Before(ch, best) ==> Diff(charsets, tile, best) < Diff(charsets, tile, ch))
  }

  /** There is only one best character. */
  lemma IsBestUnique(charsets: seq<seq<Raster>>, tile: Raster, a: Character, b: Character)
    requires Comparable(charsets, tile)
    requires IsBest(charsets, tile, a) && IsBest(charsets, tile, b)
    ensures a == b
  {
    if a != b {
      BeforeTotal(a, b);
    }
  }

  /** The scan has visited `ch` before reaching charset `s`, position `code`. */
  predicate Scanned(ch: Character, s: nat, code: nat)
  {
    ch.charset < s || (ch.charset == s && ch.code as nat < code)
  }

  /** What the scan knows at position (`s`, `code`): with the sentinel still in
      place nothing has been visited and the best is (0, 0); otherwise `best` is
      the best among the visited glyphs and `bestDiff` its difference. */
  ghost predicate ScanState(charsets: seq<seq<Raster>>, tile: Raster, s: nat, code: nat, best: Character, bestDiff: nat)
    requires Comparable(charsets, tile)
  {
    if bestDiff == U32_MAX then
      && best == Character(0, 0)
      && forall ch :: Valid(charsets, ch) ==> !Scanned(ch, s, code)
    else
      && Valid(charsets, best) && Scanned(best, s, code)
      && bestDiff == Diff(charsets, tile, best)
      && (forall ch :: Valid(charsets, ch) && Scanned(ch, s, code) ==> bestDiff <= Diff(charsets, tile, ch))
      && (forall ch :: Valid(charsets, ch) && Scanned(ch, s, code) && Before(ch, best) ==>
            bestDiff < Diff(charsets, tile, ch))
  }

  /** A scan position is in range: inside charset `s`, or at the very end. */
  predicate InRange(charsets: seq<seq<Raster>>, s: nat, code: nat)
  {
    s <= |charsets| && (s < |charsets| ==> code <= |charsets[s]|) && (s == |charsets| ==> code == 0)
  }

  /** Visiting the glyph at (`s`, `code`) keeps the scan state. */
  lemma VisitStep(charsets: seq<seq<Raster>>, tile: Raster, s: nat, code: nat, best: Character, bestDiff: nat)
    requires Comparable(charsets, tile) && ByteAddressable(charsets)
    requires s < |charsets| && code < |charsets[s]|
    requires ScanState(charsets, tile, s, code, best, bestDiff)
    ensures var here := Character(s, code as byte);
      var d := Diff(charsets, tile, here);
      if d < bestDiff then ScanState(charsets, tile, s, code + 1, here, d)
      else ScanState(charsets, tile, s, code + 1, best, bestDiff)
  {
    var here := Character(s, code as byte);
    assert Valid(charsets, here);
    forall ch | Valid(charsets, ch) && Scanned(ch, s, code + 1) && !Scanned(ch, s, code)
      ensures ch == here
    {
      assert ch.charset == s && ch.code as nat == code;
    }
  }

  /** Leaving charset `s` after its last glyph keeps the scan state. */
  lemma NextCharset(charsets: seq<seq<Raster>>, tile: Raster, s: nat, best: Character, bestDiff: nat)
    requires Comparable(charsets, tile)
    requires s < |charsets|
    requires ScanState(charsets, tile, s, |charsets[s]|, best, bestDiff)
    ensures ScanState(charsets, tile, s + 1, 0, best, bestDiff)
  {
    forall ch | Valid(charsets, ch)
      ensures Scanned(ch, s + 1, 0) <==> Scanned(ch, s, |charsets[s]|)
    {
    }
  }

  /** At the end of the scan the sentinel survives exactly when there was no glyph. */
  lemma EndOfScan(charsets: seq<seq<Raster>>, tile: Raster, best: Character, bestDiff: nat)
    requires Comparable(charsets, tile)
    requires ScanState(charsets, tile, |charsets|, 0, best, bestDiff)
    ensures bestDiff == U32_MAX <==> !AnyGlyph(charsets)
    ensures bestDiff != U32_MAX ==> IsBest(charsets, tile, best)
  {
    if AnyGlyph(charsets) {
      var t :| 0 <= t < |charsets| && 0 < |charsets[t]|;
      assert Valid(charsets, Character(t, 0)) && Scanned(Character(t, 0), |charsets|, 0);
    }
    if bestDiff != U32_MAX {
      assert 0 < |charsets[best.charset]|;
      forall ch | Valid(charsets, ch)
        ensures Scanned(ch, |charsets|, 0)
      {
      }
    }
  }

  /** The nested scan from position (`s`, `code`) on. */
  function ScanFrom(charsets: seq<seq<Raster>>, tile: Raster, s: nat, code: nat, best: Character, bestDiff: nat): (r: Character)
    requires Comparable(charsets, tile) && ByteAddressable(charsets)
    requires InRange(charsets, s, code)
    requires ScanState(charsets, tile, s, code, best, bestDiff)
    ensures AnyGlyph(charsets) ==> IsBest(charsets, tile, r)
    ensures !AnyGlyph(charsets) ==> r == Character(0, 0)
    decreases |charsets| - s, if s < |charsets| then |charsets[s]| - code else 0
  {
    if s == |charsets| then
      EndOfScan(charsets, tile, best, bestDiff);
      best
    else if code == |charsets[s]| then
      NextCharset(charsets, tile, s, best, bestDiff);
      ScanFrom(charsets, tile, s + 1, 0, best, bestDiff)
    else
      var here := Character(s, code as byte);
      var d := Diff(charsets, tile, here);
      VisitStep(charsets, tile, s, code, best, bestDiff);
      if d < bestDiff then ScanFrom(charsets, tile, s, code + 1, here, d)
      else ScanFrom(charsets, tile, s, code + 1, best, bestDiff)
  }

  /** `get_best_matching_character`: the first glyph, in scan order, with the
      least difference to the tile; (0, 0) when there are no glyphs at all. */
  function BestMatch(charsets: seq<seq<Raster>>, tile: Raster): (r: Character)
    requires Comparable(charsets, tile) && ByteAddressable(charsets)
    ensures AnyGlyph(charsets) ==> IsBest(charsets, tile, r)
    ensures !AnyGlyph(charsets) ==> r == Character(0, 0)
  {
    if |charsets| == 0 then Character(0, 0)
    else ScanFrom(charsets, tile, 0, 0, Character(0, 0), U32_MAX)
  }

  /** A glyph identical to the tile wins unless an earlier one is identical too. */
  lemma ExactGlyphWins(charsets: seq<seq<Raster>>, tile: Raster, ch: Character)
    requires Comparable(charsets, tile) && ByteAddressable(charsets)
    requires Valid(charsets, ch) && GlyphOf(charsets, ch) == tile
    ensures Diff(charsets, tile, BestMatch(charsets, tile)) == 0
    ensures !Before(ch, BestMatch(charsets, tile))
  {
    ImageDiffSelf(tile);
    var r := BestMatch(charsets, tile);
    assert Diff(charsets, tile, ch) == 0;
  }
}
