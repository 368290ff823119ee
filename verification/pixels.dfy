/** RGB rasters — character cells, glyphs, input images and previews alike —
    and the two raster operations the source borrows from the `image` crate:
    `crop_imm` (a sub-rectangle) and `copy_from` (pasting one raster onto another). */
module Pixels {

  /** One 8-bit colour channel. */
  type Channel = c: int | 0 <= c < 256

  datatype Rgb = Rgb(r: Channel, g: Channel, b: Channel)

  const Black := Rgb(0, 0, 0)
  const White := Rgb(0xFF, 0xFF, 0xFF)

  /** A raster stored row by row: `img[y][x]` is the pixel in column `x` of row `y`. */
  type Raster = seq<seq<Rgb>>

  /** `img` has exactly `h` rows of `w` pixels each. */
  predicate IsRaster(img: Raster, w: nat, h: nat)
  {
    |img| == h && forall y :: 0 <= y < h ==> |img[y]| == w
  }

  function Width(img: Raster): nat
  {
    if |img| == 0 then 0 else |img[0]|
  }

  function Height(img: Raster): nat
  {
    |img|
  }

  predicate Rectangular(img: Raster)
  {
    IsRaster(img, Width(img), Height(img))
  }

  lemma IsRasterDimensions(img: Raster, w: nat, h: nat)
    requires IsRaster(img, w, h) && 0 < h
    ensures Rectangular(img) && Width(img) == w && Height(img) == h
  {
  }

  /** A `w` x `h` raster of one colour (`RgbImage::new` is `Filled(w, h, Black)`). */
  function Filled(w: nat, h: nat, p: Rgb): (r: Raster)
    ensures IsRaster(r, w, h)
    ensures forall y, x :: 0 <= y < h && 0 <= x < w ==> r[y][x] == p
  {
    seq(h, _ => seq(w, _ => p))
  }

  /** The `w` x `h` sub-raster whose top-left corner is at (`x`, `y`); the crop must lie inside. */
  function Crop(img: Raster, x: nat, y: nat, w: nat, h: nat): (r: Raster)
    requires Rectangular(img) && x + w <= Width(img) && y + h <= Height(img)
    ensures IsRaster(r, w, h)
    ensures forall j, i :: 0 <= j < h && 0 <= i < w ==> r[j][i] == img[y + j][x + i]
  {
    seq(h, j requires 0 <= j < h => img[y + j][x .. x + w])
  }

  /** A raster to paste and the canvas position of its top-left corner. */
  datatype Placement = Placement(glyph: Raster, x: nat, y: nat)

  /** The pasted raster covers canvas pixel (`px`, `py`). */
  predicate Covers(p: Placement, px: int, py: int)
  {
    p.x <= px < p.x + Width(p.glyph) && p.y <= py < p.y + Height(p.glyph)
  }

  /** The pasted raster lies entirely inside a `w` x `h` canvas. */
  predicate FitsIn(p: Placement, w: nat, h: nat)
  {
    Rectangular(p.glyph) && p.x + Width(p.glyph) <= w && p.y + Height(p.glyph) <= h
  }

  /** The two rectangles are separated along one axis at least. */
  predicate Apart(p: Placement, q: Placement)
  {
    || p.x + Width(p.glyph) <= q.x || q.x + Width(q.glyph) <= p.x
    || p.y + Height(p.glyph) <= q.y || q.y + Height(q.glyph) <= p.y
  }

  /** No two of the placements overlap. */
  predicate Disjoint(ps: seq<Placement>)
  {
    forall i, j :: 0 <= i < j < |ps| ==> Apart(ps[i], ps[j])
  }

  /** `copy_from`: paste `p.glyph` onto the canvas; pixels outside it are kept. */
  function Place(canvas: Raster, p: Placement): (r: Raster)
    requires Rectangular(canvas) && FitsIn(p, Width(canvas), Height(canvas))
    ensures IsRaster(r, Width(canvas), Height(canvas))
    ensures forall py, px :: 0 <= py < Height(canvas) && 0 <= px < Width(canvas) && !Covers(p, px, py) ==>
      r[py][px] == canvas[py][px]
    ensures forall py, px :: 0 <= py < Height(canvas) && 0 <= px < Width(canvas) && Covers(p, px, py) ==>
      r[py][px] == p.glyph[py - p.y][px - p.x]
  {
    seq(|canvas|, py requires 0 <= py < |canvas| =>
      seq(|canvas[py]|, px requires 0 <= px < |canvas[py]| =>
        if Covers(p, px, py) then p.glyph[py - p.y][px - p.x] else canvas[py][px]))
  }

  predicate AllFit(ps: seq<Placement>, w: nat, h: nat)
  {
    forall i :: 0 <= i < |ps| ==> FitsIn(ps[i], w, h)
  }

  /** Pastes the placements one after another, in order. */
  function PlaceAll(canvas: Raster, ps: seq<Placement>): (r: Raster)
    requires Rectangular(canvas) && AllFit(ps, Width(canvas), Height(canvas))
    ensures IsRaster(r, Width(canvas), Height(canvas))
    decreases |ps|
  {
    if |ps| == 0 then canvas
    else
      var prefix := PlaceAll(canvas, ps[..|ps| - 1]);
      assert Width(prefix) == Width(canvas);
      Place(prefix, ps[|ps| - 1])
  }

  /** Where the placements do not overlap, each covered pixel shows the raster that covers it. */
  lemma {:induction false} PlaceAllCovered(canvas: Raster, ps: seq<Placement>, k: nat, px: int, py: int)
    requires Rectangular(canvas) && AllFit(ps, Width(canvas), Height(canvas)) && Disjoint(ps)
    requires k < |ps| && Covers(ps[k], px, py)
    ensures 0 <= py < Height(canvas) && 0 <= px < Width(canvas)
    ensures PlaceAll(canvas, ps)[py][px] == ps[k].glyph[py - ps[k].y][px - ps[k].x]
    decreases |ps|
  {
    var n := |ps| - 1;
    var prefix := ps[..n];
    assert Width(PlaceAll(canvas, prefix)) == Width(canvas);
    if k < n {
      assert Apart(ps[k], ps[n]);
      PlaceAllCovered(canvas, prefix, k, px, py);
    }
  }

  /** A pixel no placement covers keeps the canvas colour. */
  lemma {:induction false} PlaceAllUncovered(canvas: Raster, ps: seq<Placement>, px: int, py: int)
    requires Rectangular(canvas) && AllFit(ps, Width(canvas), Height(canvas))
    requires 0 <= py < Height(canvas) && 0 <= px < Width(canvas)
    requires forall k :: 0 <= k < |ps| ==> !Covers(ps[k], px, py)
    ensures PlaceAll(canvas, ps)[py][px] == canvas[py][px]
    decreases |ps|
  {
    if |ps| > 0 {
      var n := |ps| - 1;
      assert Width(PlaceAll(canvas, ps[..n])) == Width(canvas);
      assert !Covers(ps[n], px, py);
      PlaceAllUncovered(canvas, ps[..n], px, py);
    }
  }

  /** Cropping the canvas where a raster was pasted gives that raster back. */
  lemma CropPlaced(canvas: Raster, ps: seq<Placement>, k: nat)
    requires Rectangular(canvas) && AllFit(ps, Width(canvas), Height(canvas)) && Disjoint(ps)
    requires k < |ps|
    ensures var out := PlaceAll(canvas, ps);
      Rectangular(out) && ps[k].x + Width(ps[k].glyph) <= Width(out) && ps[k].y + Height(ps[k].glyph) <= Height(out)
      && Crop(out, ps[k].x, ps[k].y, Width(ps[k].glyph), Height(ps[k].glyph)) == ps[k].glyph
  {
    var out := PlaceAll(canvas, ps);
    var p := ps[k];
    var w, h := Width(p.glyph), Height(p.glyph);
    assert Rectangular(out) && Width(out) == Width(canvas);
    var c := Crop(out, p.x, p.y, w, h);
    forall j, i | 0 <= j < h && 0 <= i < w
      ensures c[j][i] == p.glyph[j][i]
    {
      PlaceAllCovered(canvas, ps, k, p.x + i, p.y + j);
    }
    assert forall j :: 0 <= j < h ==> c[j] == p.glyph[j];
  }
}
