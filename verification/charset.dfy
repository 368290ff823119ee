/** Charset generation (src/charset.rs): the input's tiles are clustered with
    k-means, each cluster's centroid becoming one glyph; and the packing of a
    256-glyph charset into the 2048 bytes of a monochrome character ROM. */
module Charset {
  import opened Common
  import opened Pixels
  import opened Screen
  import opened Distance
  import opened Kmeans
  import opened Profiles

  /* ---------------------------------------------------------------------- */
  /* Monochrome packing                                                     */
  /* ---------------------------------------------------------------------- */

  /** A pixel counts as set when the integer mean of its channels exceeds 0x80. */
  predicate IsLit(p: Rgb) { (p.r + p.g + p.b) / 3 > 0x80 }

  /** `1 << k` for a bit position `k` of a byte. */
  function Mask(k: nat): (m: byte)
    requires k < 8
    ensures m == (1 as byte) << k
    ensures m != 0
  {
    if k == 0 then 0x01 else if k == 1 then 0x02 else if k == 2 then 0x04 else if k == 3 then 0x08
    else if k == 4 then 0x10 else if k == 5 then 0x20 else if k == 6 then 0x40 else 0x80
  }

  /** Bit `i` of `b`, bit 0 being the least significant. */
  predicate HasBit(b: byte, i: nat)
    requires i < 8
  {
    b & Mask(i) != 0
  }

  /** A byte is determined by its eight bits. */
  lemma BitsDetermineByte(a: byte, b: byte)
    requires forall i :: 0 <= i < 8 ==> (HasBit(a, i) <==> HasBit(b, i))
    ensures a == b
  {
    assert HasBit(a, 0) == HasBit(b, 0) && HasBit(a, 1) == HasBit(b, 1);
    assert HasBit(a, 2) == HasBit(b, 2) && HasBit(a, 3) == HasBit(b, 3);
    assert HasBit(a, 4) == HasBit(b, 4) && HasBit(a, 5) == HasBit(b, 5);
    assert HasBit(a, 6) == HasBit(b, 6) && HasBit(a, 7) == HasBit(b, 7);
  }

  /** Pixels `0 .. n-1` of a row packed into one byte, pixel `x` in bit `7 - x`. */
  function PackRow(row: seq<Rgb>, n: nat): byte
    requires n <= 8 <= |row|
  {
    if n == 0 then 0
    else PackRow(row, n - 1) | (if IsLit(row[n - 1]) then Mask(8 - n) else 0)
  }

  /** Bit `i` of a packed row is set exactly when its pixel `7 - i` is among
      the packed ones and lit. */
  lemma {:induction false} PackRowBits(row: seq<Rgb>, n: nat)
    requires n <= 8 <= |row|
    ensures forall i :: 0 <= i < 8 ==> (HasBit(PackRow(row, n), i) <==> 8 - n <= i && IsLit(row[7 - i]))
  {
    if n == 0 {
      assert PackRow(row, n) == 0;
      assert forall i :: 0 <= i < 8 ==> !HasBit(0, i);
    } else {
      PackRowBits(row, n - 1);
      var prev := PackRow(row, n - 1);
      var mask: byte := if IsLit(row[n - 1]) then Mask(8 - n) else 0;
      assert PackRow(row, n) == prev | mask;
      OrBits(prev, mask, 8 - n);
      forall i | 0 <= i < 8
        ensures HasBit(PackRow(row, n), i) <==> 8 - n <= i && IsLit(row[7 - i])
      {
        if i == 8 - n {
          assert !HasBit(prev, i);
          assert mask != 0 <==> IsLit(row[n - 1]);
        } else {
          assert HasBit(prev | mask, i) <==> HasBit(prev, i);
        }
      }
    }
  }

  /** Or-ing in a mask that is empty or only bit `k` sets bit `k` exactly when
      the mask does and keeps the other bits. */
  lemma OrBits(prev: byte, mask: byte, k: nat)
    requires k < 8 && (mask == 0 || mask == Mask(k))
    ensures forall i :: 0 <= i < 8 && i != k ==> (HasBit(prev | mask, i) <==> HasBit(prev, i))
    ensures HasBit(prev | mask, k) <==> HasBit(prev, k) || mask != 0
  {
  }

  /** The eight row bytes of one 8 x 8 glyph. */
  function GlyphBytes(glyph: Raster): (bs: seq<byte>)
    requires IsRaster(glyph, 8, 8)
    ensures |bs| == 8
    ensures forall y :: 0 <= y < 8 ==> bs[y] == PackRow(glyph[y], 8)
  {
    seq(8, y requires 0 <= y < 8 => PackRow(glyph[y], 8))
  }

  /** Position of row `y` of glyph `g` in the packed data. */
  function ByteIndex(g: nat, y: nat): nat { 8 * g + y }

  /** The first `n` glyphs are 8x8 rasters. */
  predicate Sized8x8(glyphs: seq<Raster>, n: nat)
  {
    n <= |glyphs| && forall g :: 0 <= g < n ==> IsRaster(glyphs[g], 8, 8)
  }

  /** The packed rows of the first `n` glyphs, appended glyph by glyph. */
  function PackGlyphs(glyphs: seq<Raster>, n: nat): (data: seq<byte>)
    requires Sized8x8(glyphs, n)
    ensures |data| == 8 * n
    ensures forall g: nat, y: nat :: g < n && y < 8 ==>
      ByteIndex(g, y) < |data| && data[ByteIndex(g, y)] == PackRow(glyphs[g][y], 8)
  {
    if n == 0 then []
    else
      var prev := PackGlyphs(glyphs, n - 1);
      prev + GlyphBytes(glyphs[n - 1])
  }

  /** `convert_charset`: 256 glyphs of 8 x 8 pixels become 2048 bytes; bit
      `7 - x` of byte `8 g + y` is set exactly when pixel (`x`, `y`) of glyph
      `g` is lit. */
  function ConvertCharset(glyphs: seq<Raster>): (data: seq<byte>)
    requires |glyphs| == 256 && Sized8x8(glyphs, 256)
    ensures |data| == 2048
    ensures forall g: nat, y: nat, x: nat :: g < 256 && y < 8 && x < 8 ==>
      ByteIndex(g, y) < |data| && (HasBit(data[ByteIndex(g, y)], 7 - x) <==> IsLit(glyphs[g][y][x]))
  {
    var data := PackGlyphs(glyphs, 256);
    AllRowBits(glyphs, 256);
    data
  }

  lemma AllRowBits(glyphs: seq<Raster>, n: nat)
    requires Sized8x8(glyphs, n)
    ensures forall g: nat, y: nat, x: nat :: g < n && y < 8 && x < 8 ==>
      (HasBit(PackRow(glyphs[g][y], 8), 7 - x) <==> IsLit(glyphs[g][y][x]))
  {
    forall g: nat, y: nat, x: nat | g < n && y < 8 && x < 8
      ensures HasBit(PackRow(glyphs[g][y], 8), 7 - x) <==> IsLit(glyphs[g][y][x])
    {
      PackRowBits(glyphs[g][y], 8);
      assert 7 - (7 - x) == x;
    }
  }

  /** Decoder: glyph `g` of packed data, set bits white and clear bits black. */
  function UnpackGlyph(data: seq<byte>, g: nat): (glyph: Raster)
    requires ByteIndex(g, 7) < |data|
    ensures IsRaster(glyph, 8, 8)
  {
    seq(8, y requires 0 <= y < 8 =>
      seq(8, x requires 0 <= x < 8 => if HasBit(data[ByteIndex(g, y)], 7 - x) then White else Black))
  }

  function UnpackCharset(data: seq<byte>): (glyphs: seq<Raster>)
    requires |data| == 2048
    ensures |glyphs| == 256 && Sized8x8(glyphs, 256)
  {
    seq(256, g requires 0 <= g < 256 => UnpackGlyph(data, g))
  }

  /** Every pixel is pure black or pure white. */
  predicate BlackAndWhite(glyph: Raster)
  {
    forall y, x :: 0 <= y < |glyph| && 0 <= x < |glyph[y]| ==> glyph[y][x] == Black || glyph[y][x] == White
  }

  /** Packing loses nothing for black-and-white charsets. */
  lemma UnpackConvert(glyphs: seq<Raster>)
    requires |glyphs| == 256 && Sized8x8(glyphs, 256)
    requires forall g :: 0 <= g < 256 ==> BlackAndWhite(glyphs[g])
    ensures UnpackCharset(ConvertCharset(glyphs)) == glyphs
  {
    var data := ConvertCharset(glyphs);
    var back := UnpackCharset(data);
    forall g | 0 <= g < 256
      ensures back[g] == glyphs[g]
    {
      forall y | 0 <= y < 8
        ensures back[g][y] == glyphs[g][y]
      {
        forall x | 0 <= x < 8
          ensures back[g][y][x] == glyphs[g][y][x]
        {
          assert HasBit(data[ByteIndex(g, y)], 7 - x) <==> IsLit(glyphs[g][y][x]);
        }
      }
    }
  }

  /** Every 2048-byte ROM image is the packing of its decoded charset. */
  lemma ConvertUnpack(data: seq<byte>)
    requires |data| == 2048
    ensures ConvertCharset(UnpackCharset(data)) == data
  {
    var glyphs := UnpackCharset(data);
    var out := ConvertCharset(glyphs);
    forall i | 0 <= i < 2048
      ensures out[i] == data[i]
    {
      var g: nat, y: nat := i / 8, i % 8;
      assert i == ByteIndex(g, y);
      forall b | 0 <= b < 8
        ensures HasBit(out[i], b) <==> HasBit(data[i], b)
      {
        var x: nat := 7 - b;
        assert HasBit(out[ByteIndex(g, y)], 7 - x) <==> IsLit(glyphs[g][y][x]);
      }
      BitsDetermineByte(out[i], data[i]);
    }
  }

  /* ---------------------------------------------------------------------- */
  /* Centroids                                                              */
  /* ---------------------------------------------------------------------- */

  /** Channel `ch` (0 red, 1 green, 2 blue) of a pixel. */
  function ChannelValue(p: Rgb, ch: nat): Channel
    requires ch < 3
  {
    if ch == 0 then p.r else if ch == 1 then p.g else p.b
  }

  /** All members are `w` x `h` rasters. */
  predicate AllSized(ms: seq<Raster>, w: nat, h: nat)
  {
    forall k :: 0 <= k < |ms| ==> IsRaster(ms[k], w, h)
  }

  /** Sum of channel `ch` of pixel (`x`, `y`) over the first `n` members. */
  function ChannelSum(ms: seq<Raster>, w: nat, h: nat, x: nat, y: nat, ch: nat, n: nat): nat
    requires AllSized(ms, w, h) && x < w && y < h && ch < 3 && n <= |ms|
  {
    if n == 0 then 0 else ChannelSum(ms, w, h, x, y, ch, n - 1) + ChannelValue(ms[n - 1][y][x], ch)
  }

  /** The sum lies between `n` times the smallest and `n` times the largest
      member value. */
  lemma {:induction false} ChannelSumBounds(ms: seq<Raster>, w: nat, h: nat, x: nat, y: nat, ch: nat, n: nat, lo: nat, hi: nat)
    requires AllSized(ms, w, h) && x < w && y < h && ch < 3 && n <= |ms|
    requires forall k :: 0 <= k < |ms| ==> lo <= ChannelValue(ms[k][y][x], ch) <= hi
    ensures n * lo <= ChannelSum(ms, w, h, x, y, ch, n) <= n * hi
  {
    if n > 0 {
      ChannelSumBounds(ms, w, h, x, y, ch, n - 1, lo, hi);
      assert n * lo == (n - 1) * lo + lo;
      assert n * hi == (n - 1) * hi + hi;
    }
  }

  lemma QuotientBounds(s: nat, n: nat, lo: nat, hi: nat)
    requires 0 < n && n * lo <= s <= n * hi
    ensures lo <= s / n <= hi
  {
    var q, r := s / n, s % n;
    assert s == q * n + r && r < n;
    assert lo * n < (q + 1) * n;
    MulCancel(lo, q + 1, n);
    MulCancel(q, hi + 1, n);
  }

  /** The truncated mean of one channel of one pixel over all members. */
  function ChannelMean(ms: seq<Raster>, w: nat, h: nat, x: nat, y: nat, ch: nat): (v: Channel)
    requires 0 < |ms| && AllSized(ms, w, h) && x < w && y < h && ch < 3
  {
    ChannelSumBounds(ms, w, h, x, y, ch, |ms|, 0, 255);
    QuotientBounds(ChannelSum(ms, w, h, x, y, ch, |ms|), |ms|, 0, 255);
    ChannelSum(ms, w, h, x, y, ch, |ms|) / |ms|
  }

  /** `determine_colored_centroid`: every channel of every pixel is the
      truncated mean of the members' values. */
  function DetermineColoredCentroid(ms: seq<Raster>, w: nat, h: nat): (r: Raster)
    requires 0 < |ms| && AllSized(ms, w, h)
    ensures IsRaster(r, w, h)
    ensures forall y, x, ch :: 0 <= y < h && 0 <= x < w && 0 <= ch < 3 ==>
      ChannelValue(r[y][x], ch) == ChannelMean(ms, w, h, x, y, ch)
  {
    seq(h, y requires 0 <= y < h =>
      seq(w, x requires 0 <= x < w =>
        Rgb(ChannelMean(ms, w, h, x, y, 0), ChannelMean(ms, w, h, x, y, 1), ChannelMean(ms, w, h, x, y, 2))))
  }

  /** Each centroid channel lies between the members' smallest and largest
      values of that channel. */
  lemma ColoredCentroidBounds(ms: seq<Raster>, w: nat, h: nat, x: nat, y: nat, ch: nat, lo: nat, hi: nat)
    requires 0 < |ms| && AllSized(ms, w, h) && x < w && y < h && ch < 3
    requires forall k :: 0 <= k < |ms| ==> lo <= ChannelValue(ms[k][y][x], ch) <= hi
    ensures lo <= ChannelValue(DetermineColoredCentroid(ms, w, h)[y][x], ch) <= hi
  {
    ChannelSumBounds(ms, w, h, x, y, ch, |ms|, lo, hi);
    QuotientBounds(ChannelSum(ms, w, h, x, y, ch, |ms|), |ms|, lo, hi);
  }

  /** A cluster of identical tiles has that tile as its centroid. */
  lemma ColoredCentroidOfCopies(ms: seq<Raster>, w: nat, h: nat)
    requires 0 < |ms| && AllSized(ms, w, h)
    requires forall k :: 0 <= k < |ms| ==> ms[k] == ms[0]
    ensures DetermineColoredCentroid(ms, w, h) == ms[0]
  {
    var r := DetermineColoredCentroid(ms, w, h);
    forall y | 0 <= y < h
      ensures r[y] == ms[0][y]
    {
      forall x | 0 <= x < w
        ensures r[y][x] == ms[0][y][x]
      {
        var p := ms[0][y][x];
        ColoredCentroidBounds(ms, w, h, x, y, 0, p.r, p.r);
        ColoredCentroidBounds(ms, w, h, x, y, 1, p.g, p.g);
        ColoredCentroidBounds(ms, w, h, x, y, 2, p.b, p.b);
      }
    }
  }

  /** Number of the first `n` members whose pixel (`x`, `y`) is lit. */
  function LitCount(ms: seq<Raster>, w: nat, h: nat, x: nat, y: nat, n: nat): (c: nat)
    requires AllSized(ms, w, h) && x < w && y < h && n <= |ms|
    ensures c <= n
    ensures (forall k :: 0 <= k < n ==> IsLit(ms[k][y][x])) ==> c == n
    ensures (forall k :: 0 <= k < n ==> !IsLit(ms[k][y][x])) ==> c == 0
  {
    if n == 0 then 0 else LitCount(ms, w, h, x, y, n - 1) + (if IsLit(ms[n - 1][y][x]) then 1 else 0)
  }

  /** `_determine_monochrome_centroid`: a pixel is white when strictly more
      than half (rounded down) of the members have it lit, and stays black
      otherwise; an empty group gives an all-black glyph. */
  function DetermineMonochromeCentroid(ms: seq<Raster>, w: nat, h: nat): (r: Raster)
    requires AllSized(ms, w, h)
    ensures IsRaster(r, w, h)
    ensures BlackAndWhite(r)
    ensures forall y, x :: 0 <= y < h && 0 <= x < w ==>
      (r[y][x] == White <==> LitCount(ms, w, h, x, y, |ms|) > |ms| / 2)
  {
    seq(h, y requires 0 <= y < h =>
      seq(w, x requires 0 <= x < w =>
        if LitCount(ms, w, h, x, y, |ms|) > |ms| / 2 then White else Black))
  }

  /** Unanimous members decide the pixel. */
  lemma MonochromeUnanimous(ms: seq<Raster>, w: nat, h: nat, x: nat, y: nat)
    requires AllSized(ms, w, h) && x < w && y < h
    ensures 0 < |ms| && (forall k :: 0 <= k < |ms| ==> IsLit(ms[k][y][x])) ==>
      DetermineMonochromeCentroid(ms, w, h)[y][x] == White
    ensures (forall k :: 0 <= k < |ms| ==> !IsLit(ms[k][y][x])) ==>
      DetermineMonochromeCentroid(ms, w, h)[y][x] == Black
  {
  }

  /** `initialize_centroid`: each pixel black or white as the random source
      decides; `coin(k, x, y)` is the draw for pixel (`x`, `y`) of cluster `k`. */
  function InitializeCentroid(coin: (nat, nat, nat) -> bool, k: nat, w: nat, h: nat): (r: Raster)
    ensures IsRaster(r, w, h)
    ensures BlackAndWhite(r)
    ensures forall y, x :: 0 <= y < h && 0 <= x < w ==> (r[y][x] == White <==> coin(k, x, y))
  {
    seq(h, y requires 0 <= y < h => seq(w, x requires 0 <= x < w => if coin(k, x, y) then White else Black))
  }

  /* ---------------------------------------------------------------------- */
  /* Generation                                                             */
  /* ---------------------------------------------------------------------- */

  /** Screen geometry and the number of glyphs to generate. */
  datatype ScreenProfile = ScreenProfile(lines: nat, columns: nat, charWidth: nat, charHeight: nat, chars: nat)

  /** A machine's screen profile always asks for 0x100 glyphs. */
  function FromMachineProfile(p: MachineProfile): (sp: ScreenProfile)
    ensures sp.chars == 0x100
    ensures sp.lines == p.lines && sp.columns == p.columns
    ensures sp.charWidth == p.definition.charWidth && sp.charHeight == p.definition.charHeight
  {
    ScreenProfile(p.lines, p.columns, p.definition.charWidth, p.definition.charHeight, 0x100)
  }

  function GridOf(sp: ScreenProfile): Grid
  {
    Grid(sp.lines, sp.columns, sp.charWidth, sp.charHeight)
  }

  /** The clustering context of charset generation.  Where the source would
      panic on glyphs of the wrong size, the functions return a fixed value.
      For a positive glyph size these fallbacks are never taken:
      `GenerateKeepsGlyphSize` shows every centroid has the glyph size, and
      `GeneratorDiffIsImageDiff` that two glyph-sized rasters are compared
      by `ImageDiff`. */
  function GeneratorContext(sp: ScreenProfile, coin: (nat, nat, nat) -> bool): Context<Raster>
  {
    var w, h := sp.charWidth, sp.charHeight;
    Context(
      k => InitializeCentroid(coin, k, w, h),
      (ms: seq<Raster>) => if 0 < |ms| && AllSized(ms, w, h) then DetermineColoredCentroid(ms, w, h) else Filled(w, h, Black),
      (a: Raster, b: Raster) => if SameShape(a, b) && 0 < Width(a) && 0 < Height(a) then ImageDiff(a, b) else 0,
      (i, cs) => false)
  }

  /** Iterations of the generator, and how often empty clusters are refilled. */
  const MaxIterations: nat := 50
  const FillEvery: nat := 5

  /** Two rasters of a positive glyph size are compared by `image_diff`. */
  lemma GeneratorDiffIsImageDiff(sp: ScreenProfile, coin: (nat, nat, nat) -> bool, a: Raster, b: Raster)
    requires 0 < sp.charWidth && 0 < sp.charHeight
    requires IsRaster(a, sp.charWidth, sp.charHeight) && IsRaster(b, sp.charWidth, sp.charHeight)
    ensures GeneratorContext(sp, coin).diff(a, b) == ImageDiff(a, b)
  {
  }

  /** Every centroid of a generation run has the glyph size. */
  lemma GenerateKeepsGlyphSize(sp: ScreenProfile, img: Raster, coin: (nat, nat, nat) -> bool)
    requires CoversScreen(img, GridOf(sp)) && 0 < sp.chars
    requires 0 < sp.charWidth && 0 < sp.charHeight
    ensures AllCentroids(
      Optimize(GeneratorContext(sp, coin), sp.chars, Tiles(img, GridOf(sp)), MaxIterations, FillEvery),
      b => IsRaster(b, sp.charWidth, sp.charHeight))
  {
    var ctx := GeneratorContext(sp, coin);
    var tiles := Tiles(img, GridOf(sp));
    var P := (b: Raster) => IsRaster(b, sp.charWidth, sp.charHeight);
    forall ms: seq<Raster> | 0 < |ms| && (forall m :: m in ms ==> m in tiles)
      ensures P(ctx.determineCentroid(ms))
    {
      assert AllSized(ms, sp.charWidth, sp.charHeight) by {
        forall k | 0 <= k < |ms|
          ensures IsRaster(ms[k], sp.charWidth, sp.charHeight)
        {
          assert ms[k] in tiles;
        }
      }
    }
    OptimizeKeeps(ctx, sp.chars, tiles, MaxIterations, FillEvery, P);
  }

  /** `generate_charset`: the centroids of a k-means run over the screen's
      tiles, one glyph per cluster in cluster order, each of glyph size. */
  function GenerateCharset(sp: ScreenProfile, img: Raster, coin: (nat, nat, nat) -> bool): (glyphs: seq<Raster>)
    requires CoversScreen(img, GridOf(sp)) && 0 < sp.chars
    requires 0 < sp.charWidth && 0 < sp.charHeight
    ensures |glyphs| == sp.chars
    ensures forall i :: 0 <= i < |glyphs| ==> IsRaster(glyphs[i], sp.charWidth, sp.charHeight)
  {
    var clusters := Optimize(GeneratorContext(sp, coin), sp.chars, Tiles(img, GridOf(sp)), MaxIterations, FillEvery);
    GenerateKeepsGlyphSize(sp, img, coin);
    Centroids(clusters)
  }
}
