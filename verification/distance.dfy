/** The distance between two equally sized rasters (`image_diff` in
    src/utils.rs): the sum over all pixels of the absolute differences of the
    three channels, divided by the pixel count with truncation. */
module Distance {
  import opened Pixels

  function AbsDiff(a: Channel, b: Channel): nat
  {
    if a < b then b - a else a - b
  }

  function PixelDiff(p: Rgb, q: Rgb): (d: nat)
    ensures d <= 765
  {
    AbsDiff(p.r, q.r) + AbsDiff(p.g, q.g) + AbsDiff(p.b, q.b)
  }

  /** The shape `image_diff` asserts: equal width and equal height. */
  predicate SameShape(a: Raster, b: Raster)
  {
    Rectangular(a) && Rectangular(b) && Width(a) == Width(b) && Height(a) == Height(b)
  }

  /** Sum of the pixel differences in rows `0 .. n-1` of column `x`. */
  function ColumnSum(a: Raster, b: Raster, x: nat, n: nat): nat
    requires SameShape(a, b) && x < Width(a) && n <= Height(a)
    decreases n
  {
    if n == 0 then 0 else ColumnSum(a, b, x, n - 1) + PixelDiff(a[n - 1][x], b[n - 1][x])
  }

  /** Sum of the pixel differences in columns `0 .. m-1`, each column summed top to bottom. */
  function TotalDiff(a: Raster, b: Raster, m: nat): nat
    requires SameShape(a, b) && m <= Width(a)
    decreases m
  {
    if m == 0 then 0 else TotalDiff(a, b, m - 1) + ColumnSum(a, b, m - 1, Height(a))
  }

  lemma {:induction false} TotalDiffBound(a: Raster, b: Raster, m: nat)
    requires SameShape(a, b) && m <= Width(a)
    ensures TotalDiff(a, b, m) <= 765 * (m * Height(a))
    decreases m
  {
    if m > 0 {
      TotalDiffBound(a, b, m - 1);
      ColumnSumBound(a, b, m - 1, Height(a));
      assert m * Height(a) == (m - 1) * Height(a) + Height(a);
    }
  }

  lemma {:induction false} ColumnSumBound(a: Raster, b: Raster, x: nat, n: nat)
    requires SameShape(a, b) && x < Width(a) && n <= Height(a)
    ensures ColumnSum(a, b, x, n) <= 765 * n
    decreases n
  {
    if n > 0 {
      ColumnSumBound(a, b, x, n - 1);
    }
  }

  lemma DivBound(t: nat, c: nat, area: nat)
    requires 0 < area
    ensures t <= c * area ==> t / area <= c
  {
  }

  lemma PositiveProduct(a: nat, b: nat)
    requires 0 < a && 0 < b
    ensures 0 < a * b
  {
  }

  /** The truncating mean `total / (w * h)` of a total over `w * h` pixels. */
  function Mean(total: nat, w: nat, h: nat): (m: nat)
    requires 0 < w && 0 < h
    ensures total <= 765 * (w * h) ==> m <= 765
    ensures m == 0 <==> total < w * h
  {
    PositiveProduct(w, h);
    DivBound(total, 765, w * h);
    QuotientZero(total, w * h);
    total / (w * h)
  }

  lemma QuotientZero(t: nat, area: nat)
    requires 0 < area
    ensures t / area == 0 <==> t < area
  {
  }

  /** `image_diff(a, b)`; the caller guarantees equal shape and a non-empty area. */
  function ImageDiff(a: Raster, b: Raster): (d: nat)
    requires SameShape(a, b) && 0 < Width(a) && 0 < Height(a)
    ensures d <= 765
  {
    TotalDiffBound(a, b, Width(a));
    Mean(TotalDiff(a, b, Width(a)), Width(a), Height(a))
  }

  /** The source's nested loops: `x` over the width outside, `y` over the height inside. */
  method ComputeImageDiff(a: Raster, b: Raster) returns (d: nat)
    requires SameShape(a, b) && 0 < Width(a) && 0 < Height(a)
    ensures d == ImageDiff(a, b)
    ensures d <= 765
  {
    var width := Width(a);
    var height := Height(a);
    var diff := 0;
    for x := 0 to width
      invariant diff == TotalDiff(a, b, x)
    {
      for y := 0 to height
        invariant diff == TotalDiff(a, b, x) + ColumnSum(a, b, x, y)
      {
        var pa := a[y][x];
        var pb := b[y][x];
        diff := diff + AbsDiff(pa.r, pb.r) + AbsDiff(pa.g, pb.g) + AbsDiff(pa.b, pb.b);
      }
    }
    d := Mean(diff, width, height);
  }

  lemma {:induction false} TotalDiffSelf(a: Raster, m: nat)
    requires SameShape(a, a) && m <= Width(a)
    ensures TotalDiff(a, a, m) == 0
    decreases m
  {
    if m > 0 {
      TotalDiffSelf(a, m - 1);
      ColumnSumSelf(a, m - 1, Height(a));
    }
  }

  lemma {:induction false} ColumnSumSelf(a: Raster, x: nat, n: nat)
    requires SameShape(a, a) && x < Width(a) && n <= Height(a)
    ensures ColumnSum(a, a, x, n) == 0
    decreases n
  {
    if n > 0 {
      ColumnSumSelf(a, x, n - 1);
    }
  }

  /** Every raster is at distance 0 from itself. */
  lemma ImageDiffSelf(a: Raster)
    requires Rectangular(a) && 0 < Width(a) && 0 < Height(a)
    ensures ImageDiff(a, a) == 0
  {
    TotalDiffSelf(a, Width(a));
  }

  lemma {:induction false} TotalDiffSymmetric(a: Raster, b: Raster, m: nat)
    requires SameShape(a, b) && m <= Width(a)
    ensures TotalDiff(a, b, m) == TotalDiff(b, a, m)
    decreases m
  {
    if m > 0 {
      TotalDiffSymmetric(a, b, m - 1);
      ColumnSumSymmetric(a, b, m - 1, Height(a));
    }
  }

  lemma {:induction false} ColumnSumSymmetric(a: Raster, b: Raster, x: nat, n: nat)
    requires SameShape(a, b) && x < Width(a) && n <= Height(a)
    ensures ColumnSum(a, b, x, n) == ColumnSum(b, a, x, n)
    decreases n
  {
    if n > 0 {
      ColumnSumSymmetric(a, b, x, n - 1);
    }
  }

  /** The distance does not depend on the argument order. */
  lemma ImageDiffSymmetric(a: Raster, b: Raster)
    requires SameShape(a, b) && 0 < Width(a) && 0 < Height(a)
    ensures ImageDiff(a, b) == ImageDiff(b, a)
  {
    TotalDiffSymmetric(a, b, Width(a));
  }

  /** The distance is 0 exactly when the summed difference is below the pixel
      count: the truncating division hides differences smaller than one unit per pixel. */
  lemma ImageDiffZero(a: Raster, b: Raster)
    requires SameShape(a, b) && 0 < Width(a) && 0 < Height(a)
    ensures ImageDiff(a, b) == 0 <==> TotalDiff(a, b, Width(a)) < Width(a) * Height(a)
  {
  }
}
