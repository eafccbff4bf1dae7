/** The shape shared by the single-image filters: a row-by-row,
    left-to-right scan of a rectangle that writes, at each pixel, a value
    that depends only on the pixel's position (and on images the scan does
    not write). */
module Painting {
  import opened Pixels

  /** `g` with pixel (x, y) set to `f(x, y)`; a pixel outside `g` is left. */
  ghost function PaintAt(g: Grid, f: (int, int) -> Rgba, x: int, y: int): Grid
  {
    if 0 <= y < |g| && 0 <= x < |g[y]| then Put(g, x, y, f(x, y)) else g
  }

  /** `g` after columns [x0, x1) of row `y` are painted, left to right. */
  ghost function PaintRow(g: Grid, f: (int, int) -> Rgba, y: int, x0: int, x1: int): Grid
    decreases x1 - x0
  {
    if x1 <= x0 then g else PaintAt(PaintRow(g, f, y, x0, x1 - 1), f, x1 - 1, y)
  }

  /** `g` after rows [rect.y, y1) of `rect` are painted, top to bottom. */
  ghost function PaintRows(g: Grid, f: (int, int) -> Rgba, rect: Rect, y1: int): Grid
    decreases y1 - rect.y
  {
    if y1 <= rect.y then g else PaintRow(PaintRows(g, f, rect, y1 - 1), f, y1 - 1, rect.x, rect.Right())
  }

  /** `g` after the whole of `rect` is painted. */
  ghost function Paint(g: Grid, f: (int, int) -> Rgba, rect: Rect): Grid
  {
    PaintRows(g, f, rect, rect.Bottom())
  }

  lemma PaintAtAt(g: Grid, f: (int, int) -> Rgba, w: int, h: int, x: int, y: int, xx: int, yy: int)
    requires IsGrid(g, w, h) && 0 <= yy < h && 0 <= xx < w
    ensures IsGrid(PaintAt(g, f, x, y), w, h)
    ensures PaintAt(g, f, x, y)[yy][xx] == if yy == y && xx == x then f(x, y) else g[yy][xx]
  {
    if 0 <= y < |g| && 0 <= x < |g[y]| {
      PutElsewhere(g, x, y, f(x, y), xx, yy);
    }
  }

  /** Painting part of a row sets exactly those pixels. */
  lemma {:induction false} PaintRowAt(g: Grid, f: (int, int) -> Rgba, w: int, h: int, y: int, x0: int, x1: int, xx: int, yy: int)
    requires IsGrid(g, w, h) && 0 <= yy < h && 0 <= xx < w
    ensures IsGrid(PaintRow(g, f, y, x0, x1), w, h)
    ensures PaintRow(g, f, y, x0, x1)[yy][xx] == if yy == y && x0 <= xx < x1 then f(xx, yy) else g[yy][xx]
    decreases x1 - x0
  {
    if x0 < x1 {
      PaintRowAt(g, f, w, h, y, x0, x1 - 1, xx, yy);
      PaintAtAt(PaintRow(g, f, y, x0, x1 - 1), f, w, h, x1 - 1, y, xx, yy);
    }
  }

  /** Painting rows [rect.y, y1) sets exactly the pixels of `rect` in them. */
  lemma {:induction false} PaintRowsAt(g: Grid, f: (int, int) -> Rgba, w: int, h: int, rect: Rect, y1: int, xx: int, yy: int)
    requires IsGrid(g, w, h) && 0 <= yy < h && 0 <= xx < w
    ensures IsGrid(PaintRows(g, f, rect, y1), w, h)
    ensures PaintRows(g, f, rect, y1)[yy][xx] ==
      if rect.y <= yy < y1 && rect.x <= xx < rect.endx then f(xx, yy) else g[yy][xx]
    decreases y1 - rect.y
  {
    if rect.y < y1 {
      PaintRowsAt(g, f, w, h, rect, y1 - 1, xx, yy);
      PaintRowAt(PaintRows(g, f, rect, y1 - 1), f, w, h, y1 - 1, rect.x, rect.Right(), xx, yy);
    }
  }

  /** Painting a rectangle sets each of its pixels (x, y) to `f(x, y)` and
      leaves every pixel outside it. */
  lemma PaintPixel(g: Grid, f: (int, int) -> Rgba, w: int, h: int, rect: Rect, xx: int, yy: int)
    requires IsGrid(g, w, h) && 0 <= yy < h && 0 <= xx < w
    ensures IsGrid(Paint(g, f, rect), w, h)
    ensures Paint(g, f, rect)[yy][xx] == if rect.Contains(xx, yy) then f(xx, yy) else g[yy][xx]
  {
    PaintRowsAt(g, f, w, h, rect, rect.Bottom(), xx, yy);
  }

  /** Painting keeps the shape of the image. */
  lemma {:induction false} PaintRowShape(g: Grid, f: (int, int) -> Rgba, w: int, h: int, y: int, x0: int, x1: int)
    requires IsGrid(g, w, h)
    ensures IsGrid(PaintRow(g, f, y, x0, x1), w, h)
    decreases x1 - x0
  {
    if x0 < x1 {
      PaintRowShape(g, f, w, h, y, x0, x1 - 1);
    }
  }

  lemma {:induction false} PaintShape(g: Grid, f: (int, int) -> Rgba, w: int, h: int, rect: Rect, y1: int)
    requires IsGrid(g, w, h)
    ensures IsGrid(PaintRows(g, f, rect, y1), w, h)
    decreases y1 - rect.y
  {
    if rect.y < y1 {
      PaintShape(g, f, w, h, rect, y1 - 1);
      PaintRowShape(PaintRows(g, f, rect, y1 - 1), f, w, h, y1 - 1, rect.x, rect.Right());
    }
  }

  /** Two paintings of one rectangle whose values agree inside it, applied
      to grids that agree outside it, give the same grid. */
  lemma PaintAgrees(g: Grid, k: Grid, f: (int, int) -> Rgba, e: (int, int) -> Rgba, w: int, h: int, rect: Rect)
    requires IsGrid(g, w, h) && IsGrid(k, w, h)
    requires forall y, x :: 0 <= y < h && 0 <= x < w ==> if rect.Contains(x, y) then f(x, y) == e(x, y) else g[y][x] == k[y][x]
    ensures Paint(g, f, rect) == Paint(k, e, rect)
  {
    PaintShape(g, f, w, h, rect, rect.Bottom());
    PaintShape(k, e, w, h, rect, rect.Bottom());
    forall y, x | 0 <= y < h && 0 <= x < w
      ensures Paint(g, f, rect)[y][x] == Paint(k, e, rect)[y][x]
    {
      PaintPixel(g, f, w, h, rect, x, y);
      PaintPixel(k, e, w, h, rect, x, y);
    }
    GridsEqual(Paint(g, f, rect), Paint(k, e, rect), w, h);
  }
}
