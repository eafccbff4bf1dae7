/** `Highpass` (ImageProcessor.cs, lines 303-320): every pixel of the
    rectangle whose red channel is brighter than the white threshold becomes
    white; every other pixel keeps its red level; both as an opaque grey. */
module HighpassFilter {
  import opened Pixels
  import opened Painting

  /** The level the filter writes for a red channel `r`. */
  function PassLevel(r: Byte, threshold: int): (v: Byte)
    ensures r <= v
    ensures v == 255 || v <= threshold
    ensures v == r <==> r <= threshold || r == 255
  {
    if r > threshold then 255 else r
  }

  /** The value the filter writes at (x, y) from the source grid `src`. */
  ghost function PassPaint(src: Grid, threshold: int): (int, int) -> Rgba
  {
    (x, y) => if 0 <= y < |src| && 0 <= x < |src[y]| then Grey(PassLevel(src[y][x].r, threshold)) else Black
  }

  /** `dest` after the filter has run over `rect` reading `src`. */
  ghost function Highpassed(src: Grid, dest: Grid, threshold: int, rect: Rect): Grid
  {
    Paint(dest, PassPaint(src, threshold), rect)
  }

  /** A level the filter has produced is left as it is by a second run. */
  lemma PassLevelIdempotent(r: Byte, threshold: int)
    ensures PassLevel(PassLevel(r, threshold), threshold) == PassLevel(r, threshold)
  {
  }

  /** Inside the rectangle every pixel is the grey of its pass level: white
      or no brighter than the threshold, and with a threshold of 255 or more it is
      the source's red level; outside the rectangle nothing changes. */
  lemma HighpassedAt(src: Grid, dest: Grid, w: int, h: int, threshold: int, rect: Rect, x: int, y: int)
    requires IsGrid(src, w, h) && IsGrid(dest, w, h) && 0 <= y < h && 0 <= x < w
    ensures IsGrid(Highpassed(src, dest, threshold, rect), w, h)
    ensures rect.Contains(x, y) ==> Highpassed(src, dest, threshold, rect)[y][x] == Grey(PassLevel(src[y][x].r, threshold))
    ensures rect.Contains(x, y) ==> IsGrey(Highpassed(src, dest, threshold, rect)[y][x])
    ensures rect.Contains(x, y) ==> var v := Highpassed(src, dest, threshold, rect)[y][x].r;
      src[y][x].r <= v && (v == 255 || v <= threshold)
    ensures rect.Contains(x, y) && threshold >= 255 ==> Highpassed(src, dest, threshold, rect)[y][x] == Grey(src[y][x].r)
    ensures !rect.Contains(x, y) ==> Highpassed(src, dest, threshold, rect)[y][x] == dest[y][x]
  {
    PaintPixel(dest, PassPaint(src, threshold), w, h, rect, x, y);
  }

  /** Running the filter on its own output, with the same threshold and
      rectangle, gives that output again. */
  lemma HighpassIdempotent(src: Grid, dest: Grid, w: int, h: int, threshold: int, rect: Rect)
    requires IsGrid(src, w, h) && IsGrid(dest, w, h)
    ensures var out := Highpassed(src, dest, threshold, rect);
      Highpassed(out, out, threshold, rect) == out
  {
    var out := Highpassed(src, dest, threshold, rect);
    PaintShape(dest, PassPaint(src, threshold), w, h, rect, rect.Bottom());
    forall y, x | 0 <= y < h && 0 <= x < w
      ensures if rect.Contains(x, y) then PassPaint(out, threshold)(x, y) == PassPaint(src, threshold)(x, y)
        else out[y][x] == dest[y][x]
    {
      PaintPixel(dest, PassPaint(src, threshold), w, h, rect, x, y);
      PassLevelIdempotent(src[y][x].r, threshold);
    }
    PaintAgrees(out, dest, PassPaint(out, threshold), PassPaint(src, threshold), w, h, rect);
  }

  /** Filters row `y` of `rect` from `src` into `dest`. */
  method HighpassRow(src: Image, ghost P: Grid, dest: Image, ghost D: Grid, threshold: int, rect: Rect, y: int)
    requires Shows(src, P) && Shows(dest, D) && src != dest
    requires src.Length0 == dest.Length0 && src.Length1 == dest.Length1
    requires RowsInside(rect, src.Length0) && ColumnsInside(rect, src.Length1) && rect.y <= y < rect.endy
    modifies dest
    ensures Shows(dest, PaintRow(D, PassPaint(P, threshold), y, rect.x, rect.Right()))
  {
    var x := rect.x;
    while x < rect.endx
      invariant rect.x <= x <= rect.Right()
      invariant Shows(dest, PaintRow(D, PassPaint(P, threshold), y, rect.x, x))
    {
      var col := src[y, x].r;
      if col > threshold {
        col := 255;
      }
      WritePixel(dest, PaintRow(D, PassPaint(P, threshold), y, rect.x, x), x, y, Grey(col));
      x := x + 1;
    }
    assert x == rect.Right();
  }

  /** `Highpass`: filters every row of `rect` from `src` into `dest`. */
  method Highpass(src: Image, ghost P: Grid, dest: Image, ghost D: Grid, threshold: int, rect: Rect)
    requires Shows(src, P) && Shows(dest, D) && src != dest
    requires src.Length0 == dest.Length0 && src.Length1 == dest.Length1
    requires RowsInside(rect, src.Length0) && ColumnsInside(rect, src.Length1)
    modifies dest
    ensures Shows(dest, Highpassed(P, D, threshold, rect))
  {
    var y := rect.y;
    while y < rect.endy
      invariant rect.y <= y <= rect.Bottom()
      invariant Shows(dest, PaintRows(D, PassPaint(P, threshold), rect, y))
    {
      HighpassRow(src, P, dest, PaintRows(D, PassPaint(P, threshold), rect, y), threshold, rect, y);
      y := y + 1;
    }
    assert y == rect.Bottom();
  }
}
