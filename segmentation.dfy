/** `SobelFilterAndSegmentation` (ImageProcessor.cs, lines 182-279): one pass
    over a worker's rectangle that computes the Sobel edge image from the red
    channel, the red, green, leaf and earth masks from the colour ratios, and
    the histogram of the pixels it visited. */
module Segmentation {
  import opened Pixels
  import opened Arithmetic
  import opened FilterConfig
  import opened FilterStages
  import opened Histograms

  /** (x, y) and its eight neighbours lie inside `g`. */
  predicate Interior(g: Grid, x: int, y: int)
  {
    1 <= y < |g| - 1 && 1 <= x && x + 1 < |g[y - 1]| && x + 1 < |g[y]| && x + 1 < |g[y + 1]|
  }

  /** Every row of `g` holds `rect`'s columns. */
  predicate ColumnsInsideAll(g: Grid, rect: Rect)
  {
    forall y :: 0 <= y < |g| ==> ColumnsInside(rect, |g[y]|)
  }

  /** Horizontal Sobel response at (x, y), on the red channel. */
  function Gx(g: Grid, x: int, y: int): (d: int)
    requires Interior(g, x, y)
    ensures -1020 <= d <= 1020
  {
    (g[y - 1][x + 1].r - g[y - 1][x - 1].r)
    + (2 * g[y][x + 1].r - 2 * g[y][x - 1].r)
    + (g[y + 1][x + 1].r - g[y + 1][x - 1].r)
  }

  /** Vertical Sobel response at (x, y), on the red channel. */
  function Gy(g: Grid, x: int, y: int): (d: int)
    requires Interior(g, x, y)
    ensures -1020 <= d <= 1020
  {
    (g[y + 1][x - 1].r - g[y - 1][x - 1].r)
    + (2 * g[y + 1][x].r - 2 * g[y - 1][x].r)
    + (g[y + 1][x + 1].r - g[y - 1][x + 1].r)
  }

  /** The integer square root, rounded down. */
  function FloorSqrt(s: nat): nat
  {
    if s == 0 then 0
    else
      var q := FloorSqrt(s - 1);
      if (q + 1) * (q + 1) <= s then q + 1 else q
  }

  lemma {:induction false} FloorSqrtBounds(s: nat)
    ensures var r := FloorSqrt(s); r * r <= s < (r + 1) * (r + 1)
  {
    if s > 0 {
      FloorSqrtBounds(s - 1);
      var q := FloorSqrt(s - 1);
      assert (q + 2) * (q + 2) == (q + 1) * (q + 1) + 2 * q + 3;
    }
  }

  /** `Math.Ceiling(Math.Sqrt(s))`: the least `m` with `s <= m * m`. (For the
      sums of two squares of at most 1020 that reach it, the double square
      root never lands on an integer it should not, so the ceiling is exact.) */
  function CeilSqrt(s: nat): (m: nat)
    ensures s <= m * m && (m == 0 || (m - 1) * (m - 1) < s)
  {
    FloorSqrtBounds(s);
    var r := FloorSqrt(s);
    if r * r == s then r else r + 1
  }

  lemma CeilSqrtMonotone(s1: nat, s2: nat)
    requires s1 <= s2
    ensures CeilSqrt(s1) <= CeilSqrt(s2)
  {
    var m1, m2 := CeilSqrt(s1), CeilSqrt(s2);
    if m1 > 0 {
      SquareStrict(m1 - 1, m2);
    }
  }

  /** The magnitude test `mag < 60` holds exactly when `gx² + gy² <= 59²`. */
  lemma MagnitudeBelow60(s: nat)
    ensures CeilSqrt(s) < 60 <==> s <= 3481
  {
    var m := CeilSqrt(s);
    if m < 60 {
      SquareMonotone(m, 59);
    }
    if s <= 3481 && m > 0 {
      SquareStrict(m - 1, 59);
    }
  }

  /** Grey level of an edge pixel with gradient (gx, gy): white when the
      orientation test fails; otherwise `255 - mag` for a magnitude below 60,
      and black from 60 on. */
  function EdgeValue(gx: int, gy: int, cfg: FilterValues): (v: Byte)
    ensures v == 0 || 196 <= v <= 255
    ensures !cfg.orientationAccepts(gx, gy) ==> v == 255
    ensures cfg.orientationAccepts(gx, gy) ==> (v == 0 <==> gx * gx + gy * gy > 3481)
  {
    MagnitudeBelow60(gx * gx + gy * gy);
    if cfg.orientationAccepts(gx, gy) then
      var mag := CeilSqrt(gx * gx + gy * gy);
      if mag < 60 then 255 - mag else 0
    else 255
  }

  /** What the edge image holds at an interior pixel. */
  function EdgePixel(g: Grid, cfg: FilterValues, x: int, y: int): Rgba
    requires Interior(g, x, y)
  {
    Grey(EdgeValue(Gx(g, x, y), Gy(g, x, y), cfg))
  }

  /** Among gradients the orientation test accepts, a stronger one is never
      drawn lighter. */
  lemma EdgeValueMonotone(gx1: int, gy1: int, gx2: int, gy2: int, cfg: FilterValues)
    requires cfg.orientationAccepts(gx1, gy1) && cfg.orientationAccepts(gx2, gy2)
    requires gx1 * gx1 + gy1 * gy1 <= gx2 * gx2 + gy2 * gy2
    ensures EdgeValue(gx2, gy2, cfg) <= EdgeValue(gx1, gy1, cfg)
  {
    CeilSqrtMonotone(gx1 * gx1 + gy1 * gy1, gx2 * gx2 + gy2 * gy2);
  }

  /** The red channel is constant on the 3x3 neighbourhood of (x, y). */
  predicate UniformAround(g: Grid, x: int, y: int)
    requires Interior(g, x, y)
  {
    forall yy, xx :: y - 1 <= yy <= y + 1 && x - 1 <= xx <= x + 1 ==> g[yy][xx].r == g[y][x].r
  }

  /** A flat neighbourhood has no gradient, so where the orientation test
      accepts the zero gradient (`atan2(0, 0)` is 0) the pixel is white. */
  lemma UniformIsWhite(g: Grid, cfg: FilterValues, x: int, y: int)
    requires Interior(g, x, y)
    requires UniformAround(g, x, y)
    ensures Gx(g, x, y) == 0 && Gy(g, x, y) == 0
    ensures cfg.orientationAccepts(0, 0) ==> EdgePixel(g, cfg, x, y) == White
  {
    assert CeilSqrt(0) == 0;
  }

  /** A vertical step from black on the left to full red on the right has the
      largest horizontal response and no vertical one; where it is accepted it
      is drawn black. */
  lemma VerticalStepIsBlack(g: Grid, cfg: FilterValues, x: int, y: int)
    requires Interior(g, x, y)
    requires g[y - 1][x - 1].r == g[y][x - 1].r == g[y + 1][x - 1].r == 0
    requires g[y - 1][x + 1].r == g[y][x + 1].r == g[y + 1][x + 1].r == 255
    requires g[y - 1][x].r == g[y + 1][x].r
    ensures Gx(g, x, y) == 1020 && Gy(g, x, y) == 0
    ensures cfg.orientationAccepts(1020, 0) ==> EdgePixel(g, cfg, x, y) == Black
  {
    MagnitudeBelow60(1020 * 1020);
  }

  /** `(r + epsilon) / (Math.Max(g, b) + epsilon)` with `epsilon = 1`. */
  function RedRatio(p: Rgba): (q: real)
    ensures q > 1.0 <==> p.r > MaxOf(p.g, p.b)
    ensures q == 1.0 <==> p.r == MaxOf(p.g, p.b)
  {
    RatioVsOne(p.r + 1, MaxOf(p.g, p.b) + 1);
    (p.r + 1) as real / (MaxOf(p.g, p.b) + 1) as real
  }

  /** `(g + epsilon) / (Math.Max(r, b) + epsilon)` with `epsilon = 1`. */
  function GreenRatio(p: Rgba): (q: real)
    ensures q > 1.0 <==> p.g > MaxOf(p.r, p.b)
    ensures q == 1.0 <==> p.g == MaxOf(p.r, p.b)
  {
    RatioVsOne(p.g + 1, MaxOf(p.r, p.b) + 1);
    (p.g + 1) as real / (MaxOf(p.r, p.b) + 1) as real
  }

  /** With a threshold of at least 1, only a pixel whose red channel is
      strictly the largest can be red-dominant; with a threshold below 1,
      every pixel whose red channel is at least as large as the others is. */
  predicate RedDominant(p: Rgba, cfg: FilterValues)
    ensures cfg.redMinRatio >= 1.0 && RedDominant(p, cfg) ==> p.r > MaxOf(p.g, p.b)
    ensures cfg.redMinRatio < 1.0 && p.r >= MaxOf(p.g, p.b) ==> RedDominant(p, cfg)
  {
    RedRatio(p) > cfg.redMinRatio
  }

  /** The same for green. */
  predicate GreenDominant(p: Rgba, cfg: FilterValues)
    ensures cfg.greenMinRatio >= 1.0 && GreenDominant(p, cfg) ==> p.g > MaxOf(p.r, p.b)
    ensures cfg.greenMinRatio < 1.0 && p.g >= MaxOf(p.r, p.b) ==> GreenDominant(p, cfg)
  {
    GreenRatio(p) > cfg.greenMinRatio
  }

  /** The brown `new Rgba32(130, 69, 10)` marking red-dominant pixels. */
  const RedMark := Opaque(130, 69, 10)
  /** The `new Rgba32(0, 255, 0)` marking green-dominant pixels. */
  const GreenMark := Opaque(0, 255, 0)

  /** The red mask marks exactly the red-dominant pixels and clears the rest. */
  function RedMaskPixel(p: Rgba, cfg: FilterValues): (m: Rgba)
    ensures m == RedMark || m == Transparent
    ensures m == RedMark <==> RedDominant(p, cfg)
    ensures cfg.redMinRatio >= 1.0 && m == RedMark ==> p.r > MaxOf(p.g, p.b)
  {
    if RedDominant(p, cfg) then RedMark else Transparent
  }

  /** The green mask marks exactly the green-dominant pixels and clears the rest. */
  function GreenMaskPixel(p: Rgba, cfg: FilterValues): (m: Rgba)
    ensures m == GreenMark || m == Transparent
    ensures m == GreenMark <==> GreenDominant(p, cfg)
    ensures cfg.greenMinRatio >= 1.0 && m == GreenMark ==> p.g > MaxOf(p.r, p.b)
  {
    if GreenDominant(p, cfg) then GreenMark else Transparent
  }

  /** The earth image keeps the colour (made opaque) of every pixel that is
      not green-dominant. */
  function EarthPixel(p: Rgba, cfg: FilterValues): (e: Rgba)
    ensures e == Transparent <==> GreenDominant(p, cfg)
    ensures e != Transparent ==> e == Opaque(p.r, p.g, p.b)
    ensures cfg.greenMinRatio >= 1.0 && p.g <= MaxOf(p.r, p.b) ==> e == Opaque(p.r, p.g, p.b)
  {
    if GreenDominant(p, cfg) then Transparent else Opaque(p.r, p.g, p.b)
  }

  /** The leaf image after a pixel is segmented, given what it held before:
      a green-dominant pixel's colour; else transparent for a red-dominant
      pixel; else left as it was. */
  function LeafPixel(p: Rgba, cfg: FilterValues, previous: Rgba): (l: Rgba)
    ensures l == Opaque(p.r, p.g, p.b) || l == Transparent || l == previous
    ensures GreenDominant(p, cfg) ==> l == Opaque(p.r, p.g, p.b)
    ensures !GreenDominant(p, cfg) && RedDominant(p, cfg) ==> l == Transparent
  {
    if GreenDominant(p, cfg) then Opaque(p.r, p.g, p.b)
    else if RedDominant(p, cfg) then Transparent
    else previous
  }

  /** A ratio of integers with a positive denominator is above 1 exactly when
      the numerator is the larger, and is 1 exactly when they are equal. */
  lemma RatioVsOne(num: int, den: int)
    requires den > 0
    ensures num as real / den as real > 1.0 <==> num > den
    ensures num as real / den as real == 1.0 <==> num == den
  {
    var q := num as real / den as real;
    assert num as real == q * den as real;
    if q > 1.0 {
      assert (q - 1.0) * den as real > 0.0;
    } else {
      assert (1.0 - q) * den as real >= 0.0;
    }
    if q == 1.0 {
      assert num as real == den as real;
    }
  }

  /** With both thresholds at least 1, no pixel is both red- and
      green-dominant: the red mask and the green mask never overlap. */
  lemma DominanceExclusive(p: Rgba, cfg: FilterValues)
    requires cfg.redMinRatio >= 1.0 && cfg.greenMinRatio >= 1.0
    ensures !(RedDominant(p, cfg) && GreenDominant(p, cfg))
    ensures RedMaskPixel(p, cfg) == Transparent || GreenMaskPixel(p, cfg) == Transparent
  {
  }

  /** A grey pixel has both ratios exactly 1, so with thresholds of at least 1
      it is neither red- nor green-dominant: it appears in neither colour mask
      and the earth image keeps it. */
  lemma GreyIsNeutral(p: Rgba, cfg: FilterValues)
    requires p.r == p.g == p.b
    requires cfg.redMinRatio >= 1.0 && cfg.greenMinRatio >= 1.0
    ensures RedRatio(p) == 1.0 && GreenRatio(p) == 1.0
    ensures RedMaskPixel(p, cfg) == Transparent && GreenMaskPixel(p, cfg) == Transparent
    ensures EarthPixel(p, cfg) == Opaque(p.r, p.g, p.b)
  {
  }

  /** Starting from a transparent leaf image, every pixel's colour goes to
      exactly one of the leaf and earth images; the green mask is set exactly
      where the earth image is cleared. */
  lemma LeafEarthPartition(p: Rgba, cfg: FilterValues)
    ensures (LeafPixel(p, cfg, Transparent) == Opaque(p.r, p.g, p.b) && EarthPixel(p, cfg) == Transparent) ||
            (LeafPixel(p, cfg, Transparent) == Transparent && EarthPixel(p, cfg) == Opaque(p.r, p.g, p.b))
    ensures GreenMaskPixel(p, cfg) == GreenMark <==> EarthPixel(p, cfg) == Transparent
  {
  }

  /** The histogram of row `y`'s pixels in columns [x0, x1), counted into
      `b` from left to right. */
  function CountRow(b: Bins, g: Grid, y: int, x0: int, x1: int): (c: Bins)
    requires b.Valid() && 0 <= y < |g|
    requires x1 <= x0 || (0 <= x0 && x1 <= |g[y]|)
    ensures c.Valid()
    decreases x1 - x0
  {
    if x1 <= x0 then b else Count(CountRow(b, g, y, x0, x1 - 1), g[y][x1 - 1])
  }

  /** The histogram of `rect`'s rows [rect.y, y1), counted into `b` row by row. */
  function CountRows(b: Bins, g: Grid, rect: Rect, y1: int): (c: Bins)
    requires b.Valid() && ColumnsInsideAll(g, rect)
    requires y1 <= rect.y || (0 <= rect.y && y1 <= |g|)
    ensures c.Valid()
    decreases y1 - rect.y
  {
    if y1 <= rect.y then b
    else
      assert ColumnsInside(rect, |g[y1 - 1]|);
      CountRow(CountRows(b, g, rect, y1 - 1), g, y1 - 1, rect.x, rect.Right())
  }

  /** The histogram of the pixels of `rect`. */
  function RectBins(g: Grid, rect: Rect): (c: Bins)
    requires ColumnsInsideAll(g, rect) && RowsInside(rect, |g|)
    ensures c.Valid()
  {
    CountRows(EmptyBins(), g, rect, rect.endy)
  }

  lemma {:induction false} CountRowCounts(b: Bins, g: Grid, y: int, x0: int, x1: int, n: nat)
    requires b.Valid() && 0 <= y < |g|
    requires x1 <= x0 || (0 <= x0 && x1 <= |g[y]|)
    requires Counts(b, n)
    ensures Counts(CountRow(b, g, y, x0, x1), n + Span(x0, x1))
    decreases x1 - x0
  {
    if x0 < x1 {
      CountRowCounts(b, g, y, x0, x1 - 1, n);
      CountAddsOne(CountRow(b, g, y, x0, x1 - 1), g[y][x1 - 1], n + Span(x0, x1 - 1));
    }
  }

  /** The number of pixels in rows [rect.y, y1) of `rect`, row by row. */
  function RowsCells(rect: Rect, y1: int): nat
    decreases y1 - rect.y
  {
    if y1 <= rect.y then 0 else RowsCells(rect, y1 - 1) + Span(rect.x, rect.endx)
  }

  lemma {:induction false} RowsCellsArea(rect: Rect, y1: int)
    ensures RowsCells(rect, y1) == Span(rect.y, y1) * Span(rect.x, rect.endx)
    decreases y1 - rect.y
  {
    if rect.y < y1 {
      RowsCellsArea(rect, y1 - 1);
      MulSucc(Span(rect.y, y1 - 1), Span(rect.x, rect.endx));
    }
  }

  lemma {:induction false} CountRowsCounts(b: Bins, g: Grid, rect: Rect, y1: int, n: nat)
    requires b.Valid() && ColumnsInsideAll(g, rect)
    requires y1 <= rect.y || (0 <= rect.y && y1 <= |g|)
    requires Counts(b, n)
    ensures Counts(CountRows(b, g, rect, y1), n + RowsCells(rect, y1))
    decreases y1 - rect.y
  {
    if rect.y < y1 {
      CountRowsCounts(b, g, rect, y1 - 1, n);
      assert ColumnsInside(rect, |g[y1 - 1]|);
      CountRowCounts(CountRows(b, g, rect, y1 - 1), g, y1 - 1, rect.x, rect.Right(), n + RowsCells(rect, y1 - 1));
    }
  }

  /** Each channel of a rectangle's histogram holds one count per pixel of
      the rectangle. */
  lemma RectBinsCounts(g: Grid, rect: Rect)
    requires ColumnsInsideAll(g, rect) && RowsInside(rect, |g|)
    ensures Counts(RectBins(g, rect), rect.Area())
  {
    EmptyCountsNothing();
    CountRowsCounts(EmptyBins(), g, rect, rect.endy, 0);
    RowsCellsArea(rect, rect.endy);
  }

  /** The five images the segmentation writes. */
  function Segmented(images: Stages): set<Image>
  {
    {images.edge, images.red, images.green, images.leaf, images.earth}
  }

  /** The pixels of the five images the segmentation writes. */
  datatype Layers = Layers(edge: Grid, red: Grid, green: Grid, leaf: Grid, earth: Grid)

  /** One pixel of each of the five layers. */
  datatype LayerPixels = LayerPixels(edge: Rgba, red: Rgba, green: Rgba, leaf: Rgba, earth: Rgba)

  /** The five images hold the layers `L`. */
  ghost predicate ShowsLayers(images: Stages, L: Layers)
    reads Segmented(images)
  {
    Shows(images.edge, L.edge) && Shows(images.red, L.red) && Shows(images.green, L.green) &&
    Shows(images.leaf, L.leaf) && Shows(images.earth, L.earth)
  }

  /** Every layer has the shape of `g`: as many rows, each as long. */
  ghost predicate Aligned(g: Grid, L: Layers)
  {
    |L.edge| == |g| && |L.red| == |g| && |L.green| == |g| && |L.leaf| == |g| && |L.earth| == |g| &&
    forall y :: 0 <= y < |g| ==>
      |L.edge[y]| == |g[y]| && |L.red[y]| == |g[y]| && |L.green[y]| == |g[y]| &&
      |L.leaf[y]| == |g[y]| && |L.earth[y]| == |g[y]|
  }

  /** Every layer has a pixel (x, y). */
  predicate Covers(L: Layers, x: int, y: int)
  {
    0 <= y < |L.edge| && 0 <= x < |L.edge[y]| && 0 <= y < |L.red| && 0 <= x < |L.red[y]| &&
    0 <= y < |L.green| && 0 <= x < |L.green[y]| && 0 <= y < |L.leaf| && 0 <= x < |L.leaf[y]| &&
    0 <= y < |L.earth| && 0 <= x < |L.earth[y]|
  }

  /** The five layers' pixels at (x, y). */
  function At(L: Layers, x: int, y: int): LayerPixels
    requires Covers(L, x, y)
  {
    LayerPixels(L.edge[y][x], L.red[y][x], L.green[y][x], L.leaf[y][x], L.earth[y][x])
  }

  /** What segmenting pixel (x, y) of `S` leaves in the five layers, given
      what they held before. */
  function SegmentedPixels(S: Grid, cfg: FilterValues, x: int, y: int, before: LayerPixels): LayerPixels
    requires Interior(S, x, y)
  {
    var p := S[y][x];
    LayerPixels(EdgePixel(S, cfg, x, y), RedMaskPixel(p, cfg), GreenMaskPixel(p, cfg),
      LeafPixel(p, cfg, before.leaf), EarthPixel(p, cfg))
  }

  /** The layers after pixel (x, y) is segmented; a pixel without the
      neighbours the kernel reads is not segmented. */
  ghost function SegmentAt(L: Layers, S: Grid, cfg: FilterValues, x: int, y: int): Layers
  {
    if Interior(S, x, y) && Covers(L, x, y) then
      var p := S[y][x];
      Layers(Put(L.edge, x, y, EdgePixel(S, cfg, x, y)), Put(L.red, x, y, RedMaskPixel(p, cfg)),
        Put(L.green, x, y, GreenMaskPixel(p, cfg)), Put(L.leaf, x, y, LeafPixel(p, cfg, L.leaf[y][x])),
        Put(L.earth, x, y, EarthPixel(p, cfg)))
    else L
  }

  /** The layers after columns [x0, x1) of row `y` are segmented, left to
      right. */
  ghost function SegmentRowSpec(L: Layers, S: Grid, cfg: FilterValues, y: int, x0: int, x1: int): Layers
    decreases x1 - x0
  {
    if x1 <= x0 then L else SegmentAt(SegmentRowSpec(L, S, cfg, y, x0, x1 - 1), S, cfg, x1 - 1, y)
  }

  /** The layers after rows [rect.y, y1) of `rect` are segmented, top to
      bottom. */
  ghost function SegmentRectSpec(L: Layers, S: Grid, cfg: FilterValues, rect: Rect, y1: int): Layers
    decreases y1 - rect.y
  {
    if y1 <= rect.y then L
    else SegmentRowSpec(SegmentRectSpec(L, S, cfg, rect, y1 - 1), S, cfg, y1 - 1, rect.x, rect.Right())
  }

  /** Segmenting an interior pixel changes that pixel's five values and
      nothing else. */
  lemma SegmentAtAt(L: Layers, S: Grid, cfg: FilterValues, x: int, y: int, xx: int, yy: int)
    requires Aligned(S, L) && Interior(S, x, y)
    requires 0 <= yy < |S| && 0 <= xx < |S[yy]|
    ensures Aligned(S, SegmentAt(L, S, cfg, x, y))
    ensures At(SegmentAt(L, S, cfg, x, y), xx, yy) ==
      if yy == y && xx == x then SegmentedPixels(S, cfg, x, y, At(L, x, y)) else At(L, xx, yy)
  {
    var p := S[y][x];
    PutElsewhere(L.edge, x, y, EdgePixel(S, cfg, x, y), xx, yy);
    PutElsewhere(L.red, x, y, RedMaskPixel(p, cfg), xx, yy);
    PutElsewhere(L.green, x, y, GreenMaskPixel(p, cfg), xx, yy);
    PutElsewhere(L.leaf, x, y, LeafPixel(p, cfg, L.leaf[y][x]), xx, yy);
    PutElsewhere(L.earth, x, y, EarthPixel(p, cfg), xx, yy);
  }

  /** Segmenting interior columns [x0, x1) of row `y` sets each of those
      pixels from the source and from what it held before, and leaves every
      other pixel. */
  lemma {:induction false} SegmentRowSpecAt(L: Layers, S: Grid, cfg: FilterValues, y: int, x0: int, x1: int, xx: int, yy: int)
    requires Aligned(S, L)
    requires forall x :: x0 <= x < x1 ==> Interior(S, x, y)
    requires 0 <= yy < |S| && 0 <= xx < |S[yy]|
    ensures Aligned(S, SegmentRowSpec(L, S, cfg, y, x0, x1))
    ensures At(SegmentRowSpec(L, S, cfg, y, x0, x1), xx, yy) ==
      if yy == y && x0 <= xx < x1 then SegmentedPixels(S, cfg, xx, yy, At(L, xx, yy)) else At(L, xx, yy)
    decreases x1 - x0
  {
    if x0 < x1 {
      var before := SegmentRowSpec(L, S, cfg, y, x0, x1 - 1);
      SegmentRowSpecAt(L, S, cfg, y, x0, x1 - 1, xx, yy);
      SegmentAtAt(before, S, cfg, x1 - 1, y, xx, yy);
      if yy == y && xx == x1 - 1 {
        SegmentRowSpecAt(L, S, cfg, y, x0, x1 - 1, x1 - 1, y);
      }
    }
  }

  /** Segmenting the interior rectangle `rect` sets each of its pixels from
      the source and from what that pixel held before, and leaves every pixel
      outside it. */
  lemma {:induction false} SegmentRectSpecAt(L: Layers, S: Grid, cfg: FilterValues, rect: Rect, y1: int, xx: int, yy: int)
    requires Aligned(S, L)
    requires forall y, x :: rect.y <= y < y1 && rect.x <= x < rect.endx ==> Interior(S, x, y)
    requires 0 <= yy < |S| && 0 <= xx < |S[yy]|
    ensures Aligned(S, SegmentRectSpec(L, S, cfg, rect, y1))
    ensures At(SegmentRectSpec(L, S, cfg, rect, y1), xx, yy) ==
      if rect.y <= yy < y1 && rect.x <= xx < rect.endx then SegmentedPixels(S, cfg, xx, yy, At(L, xx, yy))
      else At(L, xx, yy)
    decreases y1 - rect.y
  {
    if rect.y < y1 {
      var before := SegmentRectSpec(L, S, cfg, rect, y1 - 1);
      SegmentRectSpecAt(L, S, cfg, rect, y1 - 1, xx, yy);
      SegmentRowSpecAt(before, S, cfg, y1 - 1, rect.x, rect.Right(), xx, yy);
    }
  }

  /** Images of the source's shape hold layers aligned with its pixels. */
  lemma LayersAligned(src: Image, S: Grid, images: Stages, L: Layers)
    requires images.SegmentReady(src) && Shows(src, S) && ShowsLayers(images, L)
    ensures Aligned(S, L)
  {
  }

  /** The Sobel responses at (x, y), read from the rows above, at and below. */
  method Sobel(src: Image, ghost S: Grid, x: int, y: int) returns (gx: int, gy: int)
    requires Shows(src, S)
    requires 1 <= y < src.Length0 - 1 && 1 <= x < src.Length1 - 1
    ensures Interior(S, x, y)
    ensures gx == Gx(S, x, y) && gy == Gy(S, x, y)
  {
    assert |S[y - 1]| == |S[y]| == |S[y + 1]| == src.Length1;
    gx := (src[y - 1, x + 1].r - src[y - 1, x - 1].r)
      + (2 * src[y, x + 1].r - 2 * src[y, x - 1].r)
      + (src[y + 1, x + 1].r - src[y + 1, x - 1].r);
    gy := (src[y + 1, x - 1].r - src[y - 1, x - 1].r)
      + (2 * src[y + 1, x].r - 2 * src[y - 1, x].r)
      + (src[y + 1, x + 1].r - src[y - 1, x + 1].r);
  }

  /** Counts one pixel into the histogram. */
  method CountPixel(h: Histogram, p: Rgba)
    requires h.Valid()
    modifies h.red, h.green, h.blue
    ensures h.Valid() && h.Value() == Count(old(h.Value()), p)
  {
    h.red[p.r] := h.red[p.r] + 1;
    h.green[p.g] := h.green[p.g] + 1;
    h.blue[p.b] := h.blue[p.b] + 1;
  }

  /** Classifies pixel `p`, at (x, y), by its colour ratios into the red,
      green, leaf and earth images. */
  method ClassifyPixel(p: Rgba, images: Stages, cfg: FilterValues, x: int, y: int, ghost L: Layers)
    requires images.red != images.green && images.red != images.leaf && images.red != images.earth
    requires images.green != images.leaf && images.green != images.earth && images.leaf != images.earth
    requires images.edge != images.red && images.edge != images.green && images.edge != images.leaf && images.edge != images.earth
    requires ShowsLayers(images, L) && 0 <= y < images.red.Length0 && 0 <= x < images.red.Length1
    requires SameShape(images.green, images.red) && SameShape(images.leaf, images.red) && SameShape(images.earth, images.red)
    modifies images.red, images.green, images.leaf, images.earth
    ensures ShowsLayers(images, L.(red := Put(L.red, x, y, RedMaskPixel(p, cfg)),
      green := Put(L.green, x, y, GreenMaskPixel(p, cfg)),
      leaf := Put(L.leaf, x, y, LeafPixel(p, cfg, L.leaf[y][x])),
      earth := Put(L.earth, x, y, EarthPixel(p, cfg))))
  {
    var redDominant := RedRatio(p) > cfg.redMinRatio;
    var greenDominant := GreenRatio(p) > cfg.greenMinRatio;
    ghost var leaf := L.leaf;
    if !redDominant {
      WritePixel(images.red, L.red, x, y, Transparent);
    } else {
      WritePixel(images.leaf, leaf, x, y, Transparent);
      leaf := Put(leaf, x, y, Transparent);
      WritePixel(images.red, L.red, x, y, RedMark);
    }
    if !greenDominant {
      WritePixel(images.green, L.green, x, y, Transparent);
      WritePixel(images.earth, L.earth, x, y, Opaque(p.r, p.g, p.b));
    } else {
      WritePixel(images.earth, L.earth, x, y, Transparent);
      WritePixel(images.green, L.green, x, y, GreenMark);
      WritePixel(images.leaf, leaf, x, y, Opaque(p.r, p.g, p.b));
      PutTwice(L.leaf, x, y, Transparent, Opaque(p.r, p.g, p.b));
    }
  }

  /** Segments pixel (x, y) of `src`, whose pixels are `S`, into the five
      images and counts it into `h`: the edge test, the histogram, then the
      colour classification. Row `y` is done up to column `x`, and after the
      call up to column `x + 1`. */
  method SegmentPixel(src: Image, ghost S: Grid, images: Stages, cfg: FilterValues, x0: int, x: int, y: int,
                      h: Histogram, ghost L: Layers, ghost B: Bins)
    requires images.SegmentReady(src) && Shows(src, S) && B.Valid()
    requires 1 <= y < src.Length0 - 1 && 1 <= x0 <= x < src.Length1 - 1
    requires ShowsLayers(images, SegmentRowSpec(L, S, cfg, y, x0, x))
    requires h.Valid() && h.Value() == CountRow(B, S, y, x0, x)
    modifies Segmented(images), h.red, h.green, h.blue
    ensures ShowsLayers(images, SegmentRowSpec(L, S, cfg, y, x0, x + 1))
    ensures h.Valid() && h.Value() == CountRow(B, S, y, x0, x + 1)
  {
    ghost var M := SegmentRowSpec(L, S, cfg, y, x0, x);
    var p := src[y, x];
    var gx, gy := Sobel(src, S, x, y);
    var val := EdgeValue(gx, gy, cfg);
    WritePixel(images.edge, M.edge, x, y, Grey(val));
    CountPixel(h, p);
    ClassifyPixel(p, images, cfg, x, y, M.(edge := Put(M.edge, x, y, Grey(val))));
  }

  /** Segments row `y` of `rect` and counts its pixels into `h`. */
  method SegmentRow(src: Image, ghost S: Grid, images: Stages, cfg: FilterValues, rect: Rect, y: int,
                    h: Histogram, ghost L: Layers, ghost B: Bins)
    requires images.SegmentReady(src) && Shows(src, S) && ShowsLayers(images, L)
    requires RowsFit(rect, src.Length0) && ColumnsFit(rect, src.Length1) && rect.y <= y < rect.endy
    requires h.Valid() && h.Value() == B
    modifies Segmented(images), h.red, h.green, h.blue
    ensures ShowsLayers(images, SegmentRowSpec(L, S, cfg, y, rect.x, rect.Right()))
    ensures h.Valid() && h.Value() == CountRow(B, S, y, rect.x, rect.Right())
  {
    var x := rect.x;
    while x < rect.endx
      invariant rect.x <= x <= rect.Right()
      invariant ShowsLayers(images, SegmentRowSpec(L, S, cfg, y, rect.x, x))
      invariant h.Valid() && h.Value() == CountRow(B, S, y, rect.x, x)
    {
      SegmentPixel(src, S, images, cfg, rect.x, x, y, h, L, B);
      x := x + 1;
    }
    assert x == rect.Right();
  }

  /** Segments the rows of `rect`, top to bottom, counting their pixels into
      `h`. */
  method SegmentRows(src: Image, ghost S: Grid, images: Stages, cfg: FilterValues, rect: Rect, h: Histogram, ghost L: Layers)
    requires images.SegmentReady(src) && h.Valid() && Shows(src, S) && ShowsLayers(images, L)
    requires RowsFit(rect, src.Length0) && ColumnsFit(rect, src.Length1)
    modifies Segmented(images), h.red, h.green, h.blue
    ensures ShowsLayers(images, SegmentRectSpec(L, S, cfg, rect, rect.endy))
    ensures h.Valid() && h.Value() == CountRows(old(h.Value()), S, rect, rect.endy)
  {
    ghost var M := L;
    var y := rect.y;
    while y < rect.endy
      invariant rect.y <= y <= rect.endy || rect.endy <= rect.y == y
      invariant M == SegmentRectSpec(L, S, cfg, rect, y) && ShowsLayers(images, M)
      invariant h.Valid() && h.Value() == CountRows(old(h.Value()), S, rect, y)
    {
      SegmentRow(src, S, images, cfg, rect, y, h, M, h.Value());
      M := SegmentRowSpec(M, S, cfg, y, rect.x, rect.Right());
      assert h.Value() == CountRows(old(h.Value()), S, rect, y + 1);
      y := y + 1;
    }
  }

  /** Segments every pixel of `rect` and returns the histogram of the
      rectangle's pixels; pixels outside `rect` are left as they were. */
  method SobelFilterAndSegmentation(src: Image, ghost S: Grid, images: Stages, cfg: FilterValues, rect: Rect, ghost L: Layers)
    returns (h: Histogram)
    requires images.SegmentReady(src) && Shows(src, S) && ShowsLayers(images, L)
    requires RowsFit(rect, src.Length0) && ColumnsFit(rect, src.Length1)
    modifies Segmented(images)
    ensures fresh(h) && fresh(h.red) && fresh(h.green) && fresh(h.blue)
    ensures ShowsLayers(images, SegmentRectSpec(L, S, cfg, rect, rect.endy))
    ensures h.Valid() && h.Value() == RectBins(S, rect)
  {
    h := new Histogram();
    SegmentRows(src, S, images, cfg, rect, h, L);
  }
}
