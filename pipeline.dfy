/** `Filter` and `ApplyFilters` (ImageProcessor.cs, lines 72-178): nine
    blank stage images; each worker segments, blurs and high-passes its band
    of rows; then the scan-line stage, the side-by-side composite and the sum
    of the workers' histograms. The workers run here one after another, in
    the order of their indices. */
module Pipeline {
  import opened Pixels
  import opened Arithmetic
  import opened FilterConfig
  import opened FilterStages
  import opened Partition
  import opened Histograms
  import opened Segmentation
  import opened VerticalBlurring
  import opened HighpassFilter
  import opened Scanline
  import opened WholePipeline

  /** What a new image holds at every pixel of every layer. */
  const ClearPixels := LayerPixels(Transparent, Transparent, Transparent, Transparent, Transparent)

  /** The images the workers write: the five segmentation layers, the blur
      and the pass image. */
  datatype WorkState = WorkState(layers: Layers, blur: Grid, pass: Grid)

  /** The images the workers write hold `st`. */
  ghost predicate Holds(images: Stages, st: WorkState)
    reads Segmented(images), images.blur, images.pass
  {
    ShowsLayers(images, st.layers) && Shows(images.blur, st.blur) && Shows(images.pass, st.pass)
  }

  /** Every image blank, as `new Image<Rgba32>(width, height)` leaves it. */
  ghost function Start(w: nat, h: nat): WorkState
  {
    var b := Blank(w, h);
    WorkState(Layers(b, b, b, b, b), b, b)
  }

  /** `ApplyFilters` over `rect`: segmentation, then the blur of the edge
      image, then the high-pass of the blur. */
  ghost function Worker(st: WorkState, S: Grid, cfg: FilterValues, rect: Rect): WorkState
  {
    var layers := SegmentRectSpec(st.layers, S, cfg, rect, rect.endy);
    var blur := Blurred(layers.edge, st.blur, rect, cfg.blurRounds);
    WorkState(layers, blur, Highpassed(blur, st.pass, cfg.whiteThreshold, rect))
  }

  /** The images once workers 0 .. i - 1 of `n` have run. */
  ghost function Workers(S: Grid, cfg: FilterValues, w: nat, h: nat, n: nat, i: nat): WorkState
    requires n >= 1
  {
    if i == 0 then Start(w, h)
    else Worker(Workers(S, cfg, w, h, n, i - 1), S, cfg, WorkerRect(i - 1, w, h, n))
  }

  /** Pixel (x, y) lies in the band of one of workers 0 .. i - 1. */
  predicate Covered(w: nat, h: nat, n: nat, i: nat, x: int, y: int)
    requires n >= 1
  {
    1 <= x < w - 1 && 1 <= y < RowStart(i, h, n)
  }

  /** Pixel (x, y) of a filtered band: the pass pixel is the high-pass of
      the blur pixel, and the blur pixel is grey once a round has run. */
  ghost predicate Filtered(st: WorkState, cfg: FilterValues, x: int, y: int)
    requires 0 <= y < |st.blur| && 0 <= x < |st.blur[y]| && 0 <= y < |st.pass| && 0 <= x < |st.pass[y]|
  {
    st.pass[y][x] == Grey(PassLevel(st.blur[y][x].r, cfg.whiteThreshold)) &&
    (cfg.blurRounds >= 1 ==> IsGrey(st.blur[y][x]))
  }

  /** Pixel (x, y) of the blur and pass images is blank. */
  ghost predicate Untouched(st: WorkState, x: int, y: int)
    requires 0 <= y < |st.blur| && 0 <= x < |st.blur[y]| && 0 <= y < |st.pass| && 0 <= x < |st.pass[y]|
  {
    st.blur[y][x] == Transparent && st.pass[y][x] == Transparent
  }

  /** Every pixel of a rectangle whose rows and columns fit has the eight
      neighbours the kernel reads. */
  lemma FitsInterior(S: Grid, w: nat, h: nat, r: Rect)
    requires IsGrid(S, w, h) && RowsFit(r, h) && ColumnsFit(r, w)
    ensures forall y, x :: r.y <= y < r.endy && r.x <= x < r.endx ==> Interior(S, x, y)
  {
  }

  /** One worker over `r` segments each pixel of `r` from what it held and
      leaves the layers outside `r`; inside `r` the pass pixel is the
      high-pass of the blur pixel, outside it blur and pass are unchanged. */
  lemma WorkerAt(st: WorkState, S: Grid, cfg: FilterValues, w: nat, h: nat, r: Rect, x: int, y: int)
    requires IsGrid(S, w, h) && Aligned(S, st.layers) && IsGrid(st.blur, w, h) && IsGrid(st.pass, w, h)
    requires RowsFit(r, h) && ColumnsFit(r, w) && 0 <= y < h && 0 <= x < w
    ensures var next := Worker(st, S, cfg, r);
      Aligned(S, next.layers) && IsGrid(next.blur, w, h) && IsGrid(next.pass, w, h)
    ensures r.Contains(x, y) ==> Interior(S, x, y)
    ensures var next := Worker(st, S, cfg, r);
      Covers(st.layers, x, y) && Covers(next.layers, x, y) &&
      At(next.layers, x, y) == if r.Contains(x, y) then SegmentedPixels(S, cfg, x, y, At(st.layers, x, y)) else At(st.layers, x, y)
    ensures var next := Worker(st, S, cfg, r);
      if r.Contains(x, y) then Filtered(next, cfg, x, y)
      else next.blur[y][x] == st.blur[y][x] && next.pass[y][x] == st.pass[y][x]
  {
    FitsInterior(S, w, h, r);
    SegmentRectSpecAt(st.layers, S, cfg, r, r.endy, x, y);
    var layers := SegmentRectSpec(st.layers, S, cfg, r, r.endy);
    assert IsGrid(layers.edge, w, h);
    BlurredAt(layers.edge, st.blur, w, h, r, cfg.blurRounds, x, y);
    var blur := Blurred(layers.edge, st.blur, r, cfg.blurRounds);
    HighpassedAt(blur, st.pass, w, h, cfg.whiteThreshold, r, x, y);
  }

  /** No pixel is in a band before any worker has run. */
  lemma NothingCovered(w: nat, h: nat, n: nat, x: int, y: int)
    requires n >= 1
    ensures !Covered(w, h, n, 0, x, y)
  {
    RowRangesSpanInterior(h, n);
  }

  /** The bands of workers 0 .. i - 1 are those of workers 0 .. i - 2 and,
      disjoint from them, the rectangle of worker i - 1. */
  lemma CoveredStep(w: nat, h: nat, n: nat, i: nat, x: int, y: int)
    requires n >= 1 && 0 < i <= n
    ensures Covered(w, h, n, i, x, y) <==> Covered(w, h, n, i - 1, x, y) || WorkerRect(i - 1, w, h, n).Contains(x, y)
    ensures !(Covered(w, h, n, i - 1, x, y) && WorkerRect(i - 1, w, h, n).Contains(x, y))
  {
    RowRangeContiguous(i - 1, h, n);
  }

  /** Once all n workers have run, the bands are exactly the pixels with
      eight neighbours. */
  lemma AllCovered(S: Grid, w: nat, h: nat, n: nat, x: int, y: int)
    requires IsGrid(S, w, h) && n >= 1 && 0 <= y < h && 0 <= x < w
    ensures Covered(w, h, n, n, x, y) <==> Interior(S, x, y)
  {
    RowRangesSpanInterior(h, n);
    RowRangeContiguous(n - 1, h, n);
  }

  /** A pixel in a band has the eight neighbours the kernel reads. */
  lemma CoveredInterior(S: Grid, w: nat, h: nat, n: nat, i: nat, x: int, y: int)
    requires IsGrid(S, w, h) && n >= 1 && Covered(w, h, n, i, x, y)
    ensures Interior(S, x, y)
  {
  }

  /** The workers keep the shape of every image. */
  lemma {:induction false} WorkersShape(S: Grid, cfg: FilterValues, w: nat, h: nat, n: nat, i: nat, x: int, y: int)
    requires IsGrid(S, w, h) && n >= 1 && i <= n && 0 <= y < h && 0 <= x < w
    ensures var st := Workers(S, cfg, w, h, n, i);
      Aligned(S, st.layers) && IsGrid(st.blur, w, h) && IsGrid(st.pass, w, h) && Covers(st.layers, x, y)
    decreases i
  {
    if i > 0 {
      WorkersShape(S, cfg, w, h, n, i - 1, x, y);
      WorkerAt(Workers(S, cfg, w, h, n, i - 1), S, cfg, w, h, WorkerRect(i - 1, w, h, n), x, y);
    }
  }

  /** What pixel (x, y) of the layers holds once workers 0 .. i - 1 have
      run: segmented once, from a blank pixel, inside their bands; blank
      elsewhere. */
  ghost function Expected(S: Grid, cfg: FilterValues, w: nat, h: nat, n: nat, i: nat, x: int, y: int): LayerPixels
    requires IsGrid(S, w, h) && n >= 1
  {
    if Covered(w, h, n, i, x, y) then SegmentedPixels(S, cfg, x, y, ClearPixels) else ClearPixels
  }

  /** Worker i - 1 takes a pixel of the layers from its value after i - 1
      workers to its value after i. */
  lemma LayersStep(prev: Layers, next: Layers, S: Grid, cfg: FilterValues, w: nat, h: nat, n: nat, i: nat, x: int, y: int)
    requires IsGrid(S, w, h) && n >= 1 && 0 < i <= n && 0 <= y < h && 0 <= x < w
    requires Aligned(S, prev) && Covers(prev, x, y) && At(prev, x, y) == Expected(S, cfg, w, h, n, i - 1, x, y)
    requires var r := WorkerRect(i - 1, w, h, n); next == SegmentRectSpec(prev, S, cfg, r, r.endy)
    ensures Covers(next, x, y) && At(next, x, y) == Expected(S, cfg, w, h, n, i, x, y)
  {
    var r := WorkerRect(i - 1, w, h, n);
    FitsInterior(S, w, h, r);
    SegmentRectSpecAt(prev, S, cfg, r, r.endy, x, y);
    CoveredStep(w, h, n, i, x, y);
  }

  /** After workers 0 .. i - 1, each pixel of their bands has been segmented
      once, from a blank pixel, and every other pixel of the layers is still
      blank. */
  lemma {:induction false} WorkersLayersAt(S: Grid, cfg: FilterValues, w: nat, h: nat, n: nat, i: nat, x: int, y: int)
    requires IsGrid(S, w, h) && n >= 1 && i <= n && 0 <= y < h && 0 <= x < w
    ensures var st := Workers(S, cfg, w, h, n, i);
      Covers(st.layers, x, y) && At(st.layers, x, y) == Expected(S, cfg, w, h, n, i, x, y)
    decreases i
  {
    if i == 0 {
      NothingCovered(w, h, n, x, y);
    } else {
      WorkersLayersAt(S, cfg, w, h, n, i - 1, x, y);
      WorkersShape(S, cfg, w, h, n, i - 1, x, y);
      LayersStep(Workers(S, cfg, w, h, n, i - 1).layers, Workers(S, cfg, w, h, n, i).layers, S, cfg, w, h, n, i, x, y);
    }
  }

  /** Worker i - 1 takes a pixel of the blur and pass images from its state
      after i - 1 workers to its state after i. */
  lemma ImagesStep(prev: WorkState, S: Grid, cfg: FilterValues, w: nat, h: nat, n: nat, i: nat, x: int, y: int)
    requires IsGrid(S, w, h) && n >= 1 && 0 < i <= n && 0 <= y < h && 0 <= x < w
    requires Aligned(S, prev.layers) && IsGrid(prev.blur, w, h) && IsGrid(prev.pass, w, h)
    requires if Covered(w, h, n, i - 1, x, y) then Filtered(prev, cfg, x, y) else Untouched(prev, x, y)
    ensures var next := Worker(prev, S, cfg, WorkerRect(i - 1, w, h, n));
      IsGrid(next.blur, w, h) && IsGrid(next.pass, w, h) &&
      if Covered(w, h, n, i, x, y) then Filtered(next, cfg, x, y) else Untouched(next, x, y)
  {
    WorkerAt(prev, S, cfg, w, h, WorkerRect(i - 1, w, h, n), x, y);
    CoveredStep(w, h, n, i, x, y);
  }

  /** After workers 0 .. i - 1, the pass image is the high-pass of the blur
      image inside their bands, and both are blank outside them. */
  lemma {:induction false} WorkersImagesAt(S: Grid, cfg: FilterValues, w: nat, h: nat, n: nat, i: nat, x: int, y: int)
    requires IsGrid(S, w, h) && n >= 1 && i <= n && 0 <= y < h && 0 <= x < w
    ensures var st := Workers(S, cfg, w, h, n, i);
      IsGrid(st.blur, w, h) && IsGrid(st.pass, w, h) &&
      if Covered(w, h, n, i, x, y) then Filtered(st, cfg, x, y) else Untouched(st, x, y)
    decreases i
  {
    if i == 0 {
      NothingCovered(w, h, n, x, y);
    } else {
      WorkersImagesAt(S, cfg, w, h, n, i - 1, x, y);
      WorkersShape(S, cfg, w, h, n, i - 1, x, y);
      ImagesStep(Workers(S, cfg, w, h, n, i - 1), S, cfg, w, h, n, i, x, y);
    }
  }

  /** Once all `n` workers have run, exactly the pixels with eight
      neighbours have been segmented, each once and from a blank pixel; the
      one-pixel border of every layer is still blank. */
  lemma FilterSegmentsInterior(S: Grid, cfg: FilterValues, w: nat, h: nat, n: nat, x: int, y: int)
    requires IsGrid(S, w, h) && n >= 1 && 0 <= y < h && 0 <= x < w
    ensures var st := Workers(S, cfg, w, h, n, n);
      IsGrid(st.blur, w, h) && IsGrid(st.pass, w, h) && Covers(st.layers, x, y) &&
      At(st.layers, x, y) == if Interior(S, x, y) then SegmentedPixels(S, cfg, x, y, ClearPixels) else ClearPixels
    ensures var st := Workers(S, cfg, w, h, n, n);
      if Interior(S, x, y) then Filtered(st, cfg, x, y) else Untouched(st, x, y)
  {
    WorkersShape(S, cfg, w, h, n, n, x, y);
    WorkersLayersAt(S, cfg, w, h, n, n, x, y);
    WorkersImagesAt(S, cfg, w, h, n, n, x, y);
    AllCovered(S, w, h, n, x, y);
  }

  /** The histograms the workers return, in the order of their indices. */
  ghost function WorkerBins(S: Grid, w: nat, h: nat, n: nat): (bs: seq<Bins>)
    requires IsGrid(S, w, h) && n >= 1
    ensures |bs| == n && forall k :: 0 <= k < n ==> bs[k].Valid()
  {
    seq(n, k requires 0 <= k < n => RectBins(S, WorkerRect(k, w, h, n)))
  }

  /** Worker i's rectangle holds one pixel per column [1, w - 1) of each
      row of its band. */
  lemma WorkerArea(i: nat, w: nat, h: nat, n: nat)
    requires n >= 1 && i < n
    ensures WorkerRect(i, w, h, n).Area() == (RowStart(i + 1, h, n) - RowStart(i, h, n)) * Span(1, w - 1)
  {
    RowRangeContiguous(i, h, n);
  }

  /** Counts of the rows before a band plus the counts of the band are the
      counts of the rows before the next band. */
  lemma BandCountStep(f: Bins, b: Bins, start: int, next: int, s: nat)
    requires f.Valid() && b.Valid() && 1 <= start <= next
    requires Counts(f, (start - 1) * s) && Counts(b, (next - start) * s)
    ensures Counts(Merge(f, b), (next - 1) * s)
  {
    MergeAddsCounts(f, b, (start - 1) * s, (next - start) * s);
    MulAdd(start - 1, next - start, s);
  }

  /** The first i workers' histograms together count one pixel per column
      [1, w - 1) of every row before worker i's band. */
  lemma {:induction false} WorkerBinsCount(S: Grid, w: nat, h: nat, n: nat, i: nat)
    requires IsGrid(S, w, h) && n >= 1 && i <= n
    ensures Counts(Fold(WorkerBins(S, w, h, n)[..i]), (RowStart(i, h, n) - 1) * Span(1, w - 1))
    decreases i
  {
    var bs := WorkerBins(S, w, h, n);
    if i == 0 {
      RowRangesSpanInterior(h, n);
      EmptyCountsNothing();
    } else {
      WorkerBinsCount(S, w, h, n, i - 1);
      assert bs[..i][..i - 1] == bs[..i - 1];
      RectBinsCounts(S, WorkerRect(i - 1, w, h, n));
      WorkerArea(i - 1, w, h, n);
      RowStartMonotone(i - 1, i, h, n);
      BandCountStep(Fold(bs[..i - 1]), bs[i - 1], RowStart(i - 1, h, n), RowStart(i, h, n), Span(1, w - 1));
    }
  }

  /** The aggregated histogram counts every pixel with eight neighbours
      exactly once: `(height - 2) * (width - 2)` pixels for an image of at
      least 2 by 2. */
  lemma FilterCountsInterior(S: Grid, w: nat, h: nat, n: nat)
    requires IsGrid(S, w, h) && n >= 1
    ensures Counts(Fold(WorkerBins(S, w, h, n)), Span(1, h - 1) * Span(1, w - 1))
  {
    WorkerBinsCount(S, w, h, n, n);
    RowRangesSpanInterior(h, n);
    RowRangeContiguous(n - 1, h, n);
    assert WorkerBins(S, w, h, n)[..n] == WorkerBins(S, w, h, n);
  }

  /** `ApplyFilters`: one worker's three filters over its rectangle, and the
      histogram of the rectangle's source pixels. */
  method ApplyFilters(cfg: FilterValues, src: Image, ghost S: Grid, images: Stages, rect: Rect, ghost st: WorkState)
    returns (h: Histogram)
    requires images.Valid(src) && Shows(src, S)
    requires Holds(images, st)
    requires RowsFit(rect, src.Length0) && ColumnsFit(rect, src.Length1)
    modifies Segmented(images), images.blur, images.pass
    ensures fresh(h) && fresh(h.red) && fresh(h.green) && fresh(h.blue)
    ensures h.Valid() && h.Value() == RectBins(S, rect)
    ensures Holds(images, Worker(st, S, cfg, rect))
  {
    h := SobelFilterAndSegmentation(src, S, images, cfg, rect, st.layers);
    ghost var layers := SegmentRectSpec(st.layers, S, cfg, rect, rect.endy);
    VerticalBlur(images.edge, layers.edge, images.blur, st.blur, cfg.blurRounds, rect);
    Highpass(images.blur, Blurred(layers.edge, st.blur, rect, cfg.blurRounds), images.pass, st.pass, cfg.whiteThreshold, rect);
  }

  /** Worker i: `ApplyFilters` over its rectangle, its histogram appended
      to those of the workers before it. */
  method RunWorker(cfg: FilterValues, src: Image, ghost S: Grid, images: Stages, n: nat, i: nat, ghost st: WorkState,
                   results: seq<Histogram>) returns (more: seq<Histogram>)
    requires i < n && images.Valid(src) && Shows(src, S)
    requires Holds(images, st)
    requires |results| == i
    requires forall k :: 0 <= k < i ==>
      results[k].Valid() && results[k].Value() == WorkerBins(S, src.Length1, src.Length0, n)[k]
    modifies Segmented(images), images.blur, images.pass
    ensures |more| == i + 1
    ensures forall k :: 0 <= k <= i ==>
      more[k].Valid() && more[k].Value() == WorkerBins(S, src.Length1, src.Length0, n)[k]
    ensures Holds(images, Worker(st, S, cfg, WorkerRect(i, src.Length1, src.Length0, n)))
  {
    ghost var bins := WorkerBins(S, src.Length1, src.Length0, n);
    var hist := ApplyFilters(cfg, src, S, images, WorkerRect(i, src.Length1, src.Length0, n), st);
    assert forall k :: 0 <= k < i ==> results[k].Valid() && results[k].Value() == bins[k];
    more := results + [hist];
    forall k | 0 <= k <= i
      ensures more[k].Valid() && more[k].Value() == bins[k]
    {
      if k < i {
        assert more[k] == results[k];
      } else {
        assert more[k] == hist;
      }
    }
  }

  /** The `Parallel.For` over the workers, one after another. */
  method RunWorkers(cfg: FilterValues, src: Image, ghost S: Grid, images: Stages, n: nat) returns (results: seq<Histogram>)
    requires n >= 1 && images.Valid(src) && Shows(src, S)
    requires Holds(images, Start(src.Length1, src.Length0))
    modifies Segmented(images), images.blur, images.pass
    ensures |results| == n
    ensures forall k :: 0 <= k < n ==>
      results[k].Valid() && results[k].Value() == WorkerBins(S, src.Length1, src.Length0, n)[k]
    ensures Holds(images, Workers(S, cfg, src.Length1, src.Length0, n, n))
  {
    var w, h := src.Length1, src.Length0;
    results := [];
    for i := 0 to n
      invariant |results| == i
      invariant forall k :: 0 <= k < i ==> results[k].Valid() && results[k].Value() == WorkerBins(S, w, h, n)[k]
      invariant Holds(images, Workers(S, cfg, w, h, n, i))
    {
      results := RunWorker(cfg, src, S, images, n, i, Workers(S, cfg, w, h, n, i), results);
    }
  }

  /** `results.Aggregate(new Histogram(), (a, b) => a.Add(b))`. */
  method Aggregate(results: seq<Histogram>, ghost values: seq<Bins>) returns (acc: Histogram)
    requires |results| == |values| && forall k :: 0 <= k < |values| ==> values[k].Valid()
    requires forall k :: 0 <= k < |results| ==> results[k].Valid() && results[k].Value() == values[k]
    ensures acc.Valid() && acc.Value() == Fold(values)
  {
    acc := new Histogram();
    for k := 0 to |results|
      invariant fresh(acc) && fresh(acc.red) && fresh(acc.green) && fresh(acc.blue)
      invariant acc.Valid() && acc.Value() == Fold(values[..k])
    {
      assert values[..k + 1][..k] == values[..k];
      acc := acc.Add(results[k]);
    }
    assert values[..|results|] == values;
  }

  /** Nine blank images of `src`'s size. */
  method NewStages(src: Image) returns (images: Stages)
    ensures fresh(images.edge) && fresh(images.red) && fresh(images.green) && fresh(images.leaf) && fresh(images.earth)
    ensures fresh(images.blur) && fresh(images.pass) && fresh(images.hInterpolate) && fresh(images.plantTip)
    ensures images.Valid(src)
    ensures var b := Blank(src.Length1, src.Length0);
      ShowsLayers(images, Layers(b, b, b, b, b)) && Shows(images.blur, b) && Shows(images.pass, b) &&
      Shows(images.hInterpolate, b) && Shows(images.plantTip, b)
  {
    var w, h := src.Length1, src.Length0;
    var edge := NewImage(w, h);
    var red := NewImage(w, h);
    var green := NewImage(w, h);
    var leaf := NewImage(w, h);
    var earth := NewImage(w, h);
    var blur := NewImage(w, h);
    var pass := NewImage(w, h);
    var hInterpolate := NewImage(w, h);
    var plantTip := NewImage(w, h);
    images := Stages(edge, red, green, leaf, earth, blur, pass, hInterpolate, plantTip);
  }

  /** The nine images reserved, then every worker run over them. */
  method RunFilters(cfg: FilterValues, src: Image, ghost S: Grid, threads: nat) returns (images: Stages, results: seq<Histogram>)
    requires Shows(src, S) && threads >= 1
    ensures images.Valid(src) && Holds(images, Workers(S, cfg, src.Length1, src.Length0, threads, threads))
    ensures fresh(images.hInterpolate) && fresh(images.plantTip)
    ensures Shows(images.hInterpolate, Blank(src.Length1, src.Length0))
    ensures Shows(images.plantTip, Blank(src.Length1, src.Length0))
    ensures |results| == threads
    ensures forall k :: 0 <= k < threads ==>
      results[k].Valid() && results[k].Value() == WorkerBins(S, src.Length1, src.Length0, threads)[k]
  {
    images := NewStages(src);
    results := RunWorkers(cfg, src, S, images, threads);
  }

  /** The scan-line images and the composite once the workers have left
      `st`: the interpolated pass image, the longest run `m` of dense cells,
      the source with `m` marked, and the five pipeline stages side by side. */
  ghost predicate ShowsOutputs(images: Stages, whole: Image, S: Grid, st: WorkState, w: nat, h: nat, a: int,
                               tint: Rgba -> Rgba, m: ColCounter)
    reads images.hInterpolate, images.plantTip, whole
  {
    var interp := Interpolated(st.pass, Blank(w, h), w, a);
    var marker := Marker(S, tint, m, w);
    Shows(images.hInterpolate, interp) &&
    LongestOf(CellColumns(st.pass, w, a), m) && Shows(images.plantTip, marker) &&
    Shows(whole, SideBySide([st.layers.edge, st.blur, st.pass, interp, marker], w, h))
  }

  /** `LongestVerticalLineCount` on the pass image, then the composite of the
      five pipeline stages. */
  method ScanAndCompose(src: Image, ghost S: Grid, images: Stages, ghost st: WorkState, a: int, tint: Rgba -> Rgba)
    returns (whole: Image, ghost m: ColCounter)
    requires images.Valid(src) && Shows(src, S) && Holds(images, st)
    requires Shows(images.hInterpolate, Blank(src.Length1, src.Length0))
    requires Shows(images.plantTip, Blank(src.Length1, src.Length0))
    requires InterpolationFits(src.Length0, a)
    modifies images.hInterpolate, images.plantTip
    ensures fresh(whole) && Holds(images, st)
    ensures ShowsOutputs(images, whole, S, st, src.Length1, src.Length0, a, tint, m)
  {
    var w, h := src.Length1, src.Length0;
    m := LongestVerticalLineCount(src, S, images.hInterpolate, Blank(w, h), images.pass, st.pass,
                                  images.plantTip, Blank(w, h), a, tint);
    ghost var interp := Interpolated(st.pass, Blank(w, h), w, a);
    ghost var marker := Marker(S, tint, m, w);
    whole := Composite([images.edge, images.blur, images.pass, images.hInterpolate, images.plantTip],
                       [st.layers.edge, st.blur, st.pass, interp, marker], w, h);
  }

  /** What `Filter` returns. */
  datatype FilterResult = FilterResult(histogram: Histogram, images: Stages, wholePipeline: Image)

  /** `Filter` on a loaded image: `threads` workers over the corrected row
      bands, then the scan-line stage with window `ScanlineInterpolationWidth`
      and marker tint `tint`, the composite of the five pipeline stages and
      the workers' histograms summed in index order. */
  method Filter(cfg: FilterValues, src: Image, ghost S: Grid, threads: nat, tint: Rgba -> Rgba)
    returns (result: FilterResult, ghost m: ColCounter)
    requires Shows(src, S) && threads >= 1
    requires InterpolationFits(src.Length0, cfg.scanlineInterpolationWidth)
    ensures result.images.Valid(src)
    ensures var st := Workers(S, cfg, src.Length1, src.Length0, threads, threads);
      Holds(result.images, st) &&
      ShowsOutputs(result.images, result.wholePipeline, S, st, src.Length1, src.Length0,
                   cfg.scanlineInterpolationWidth, tint, m)
    ensures result.histogram.Valid() &&
      result.histogram.Value() == Fold(WorkerBins(S, src.Length1, src.Length0, threads))
  {
    var w, h := src.Length1, src.Length0;
    var images, results := RunFilters(cfg, src, S, threads);
    var whole;
    whole, m := ScanAndCompose(src, S, images, Workers(S, cfg, w, h, threads, threads),
                               cfg.scanlineInterpolationWidth, tint);
    var histogram := Aggregate(results, WorkerBins(S, w, h, threads));
    result := FilterResult(histogram, images, whole);
  }
}
