/** `VerticalBlur` (ImageProcessor.cs, lines 281-301): each round sets every
    pixel of the rectangle to the grey level of the mean red channel of the
    pixel and its two vertical neighbours, read from a copy of the image the
    previous round produced (the edge image for the first round). */
module VerticalBlurring {
  import opened Pixels
  import opened Painting

  /** The pixel (x, y) of `g` has a row above and a row below it. */
  predicate VerticallyInside(g: Grid, x: int, y: int)
  {
    1 <= y < |g| - 1 && 0 <= x && x < |g[y - 1]| && x < |g[y]| && x < |g[y + 1]|
  }

  /** `(byte)((top.R + row.R + bottom.R) / 3.0)`: the sum of three bytes is
      exact in floating point and the cast truncates, so this is the floor of
      the mean. The blurred level lies between the darkest and the brightest
      of the three red channels it averages. */
  function BlurValue(g: Grid, x: int, y: int): (v: Byte)
    requires VerticallyInside(g, x, y)
    ensures MinOf(MinOf(g[y - 1][x].r, g[y][x].r), g[y + 1][x].r) <= v
    ensures v <= MaxOf(MaxOf(g[y - 1][x].r, g[y][x].r), g[y + 1][x].r)
  {
    (g[y - 1][x].r + g[y][x].r + g[y + 1][x].r) / 3
  }

  /** The value a round writes at (x, y) when reading `prev`. The scan only
      visits pixels with both vertical neighbours, so the second branch is
      never written. */
  ghost function BlurPaint(prev: Grid): (int, int) -> Rgba
  {
    (x, y) => if VerticallyInside(prev, x, y) then Grey(BlurValue(prev, x, y)) else Black
  }

  /** One round: the pixels of `rect` in `dest` blurred from `prev`. */
  ghost function BlurRound(dest: Grid, prev: Grid, rect: Rect): Grid
  {
    Paint(dest, BlurPaint(prev), rect)
  }

  /** `dest` after `rounds` rounds that start from `prev`: each later round
      reads a copy of `dest` as the round before left it. */
  ghost function Blurred(prev: Grid, dest: Grid, rect: Rect, rounds: int): Grid
    decreases rounds
  {
    if rounds <= 0 then dest
    else
      var next := BlurRound(dest, prev, rect);
      Blurred(next, next, rect, rounds - 1)
  }

  /** One round sets every pixel of a rectangle whose rows all have a row
      above and below to the blurred level of `prev`, and leaves every pixel
      outside the rectangle. */
  lemma BlurRoundAt(dest: Grid, prev: Grid, w: int, h: int, rect: Rect, xx: int, yy: int)
    requires IsGrid(dest, w, h) && IsGrid(prev, w, h) && RowsFit(rect, h) && ColumnsInside(rect, w)
    requires 0 <= yy < h && 0 <= xx < w
    ensures IsGrid(BlurRound(dest, prev, rect), w, h)
    ensures rect.Contains(xx, yy) ==> VerticallyInside(prev, xx, yy)
    ensures BlurRound(dest, prev, rect)[yy][xx] ==
      if rect.Contains(xx, yy) then Grey(BlurValue(prev, xx, yy)) else dest[yy][xx]
  {
    PaintPixel(dest, BlurPaint(prev), w, h, rect, xx, yy);
  }

  /** However many rounds run, pixels outside the rectangle keep the value
      `dest` had, and after at least one round every pixel inside is grey. */
  lemma {:induction false} BlurredAt(prev: Grid, dest: Grid, w: int, h: int, rect: Rect, rounds: int, xx: int, yy: int)
    requires IsGrid(dest, w, h) && IsGrid(prev, w, h) && RowsFit(rect, h) && ColumnsInside(rect, w)
    requires 0 <= yy < h && 0 <= xx < w
    ensures IsGrid(Blurred(prev, dest, rect, rounds), w, h)
    ensures !rect.Contains(xx, yy) ==> Blurred(prev, dest, rect, rounds)[yy][xx] == dest[yy][xx]
    ensures rect.Contains(xx, yy) && rounds >= 1 ==> IsGrey(Blurred(prev, dest, rect, rounds)[yy][xx])
    decreases rounds
  {
    if rounds > 0 {
      var next := BlurRound(dest, prev, rect);
      BlurRoundAt(dest, prev, w, h, rect, xx, yy);
      BlurredAt(next, next, w, h, rect, rounds - 1, xx, yy);
    }
  }

  /** An image that is one grey level everywhere is left as it is by any
      number of rounds over any rectangle that fits. */
  lemma {:induction false} UniformIsFixed(g: Grid, w: int, h: int, v: Byte, rect: Rect, rounds: int)
    requires IsGrid(g, w, h) && RowsFit(rect, h) && ColumnsInside(rect, w)
    requires forall y, x :: 0 <= y < h && 0 <= x < w ==> g[y][x] == Grey(v)
    ensures Blurred(g, g, rect, rounds) == g
    decreases rounds
  {
    if rounds > 0 {
      var next := BlurRound(g, g, rect);
      PaintShape(g, BlurPaint(g), w, h, rect, rect.Bottom());
      forall y, x | 0 <= y < h && 0 <= x < w
        ensures next[y][x] == g[y][x]
      {
        BlurRoundAt(g, g, w, h, rect, x, y);
      }
      GridsEqual(next, g, w, h);
      UniformIsFixed(g, w, h, v, rect, rounds - 1);
    }
  }

  /** Blurs row `y` of `rect` from `prev` into `dest`. */
  method BlurRow(prev: Image, ghost P: Grid, dest: Image, ghost D: Grid, rect: Rect, y: int)
    requires Shows(prev, P) && Shows(dest, D) && prev != dest
    requires prev.Length0 == dest.Length0 && prev.Length1 == dest.Length1
    requires RowsFit(rect, prev.Length0) && ColumnsInside(rect, prev.Length1) && rect.y <= y < rect.endy
    modifies dest
    ensures Shows(dest, PaintRow(D, BlurPaint(P), y, rect.x, rect.Right()))
  {
    var x := rect.x;
    while x < rect.endx
      invariant rect.x <= x <= rect.Right()
      invariant Shows(dest, PaintRow(D, BlurPaint(P), y, rect.x, x))
    {
      var blur := (prev[y - 1, x].r + prev[y, x].r + prev[y + 1, x].r) / 3;
      WritePixel(dest, PaintRow(D, BlurPaint(P), y, rect.x, x), x, y, Grey(blur));
      x := x + 1;
    }
    assert x == rect.Right();
  }

  /** One round: blurs every row of `rect` from `prev` into `dest`. */
  method BlurPass(prev: Image, ghost P: Grid, dest: Image, ghost D: Grid, rect: Rect)
    requires Shows(prev, P) && Shows(dest, D) && prev != dest
    requires prev.Length0 == dest.Length0 && prev.Length1 == dest.Length1
    requires RowsFit(rect, prev.Length0) && ColumnsInside(rect, prev.Length1)
    modifies dest
    ensures Shows(dest, BlurRound(D, P, rect))
  {
    var y := rect.y;
    while y < rect.endy
      invariant rect.y <= y <= rect.Bottom()
      invariant Shows(dest, PaintRows(D, BlurPaint(P), rect, y))
    {
      BlurRow(prev, P, dest, PaintRows(D, BlurPaint(P), rect, y), rect, y);
      y := y + 1;
    }
    assert y == rect.Bottom();
  }

  /** `VerticalBlur`: `rounds` rounds over `rect`, the first reading a copy
      of `src`, each later one a copy of `dest`. */
  method VerticalBlur(src: Image, ghost E: Grid, dest: Image, ghost D: Grid, rounds: int, rect: Rect)
    requires Shows(src, E) && Shows(dest, D) && src != dest
    requires src.Length0 == dest.Length0 && src.Length1 == dest.Length1
    requires RowsFit(rect, src.Length0) && ColumnsInside(rect, src.Length1)
    modifies dest
    ensures Shows(dest, Blurred(E, D, rect, rounds))
  {
    var blurred := Clone(src, E);
    ghost var P := E;
    ghost var current := D;
    var z := 0;
    while z < rounds
      invariant 0 <= z && (z <= rounds || rounds <= 0)
      invariant blurred.Length0 == dest.Length0 && blurred.Length1 == dest.Length1
      invariant Shows(blurred, P) && Shows(dest, current) && blurred != dest && fresh(blurred)
      invariant Blurred(P, current, rect, rounds - z) == Blurred(E, D, rect, rounds)
    {
      BlurPass(blurred, P, dest, current, rect);
      current := BlurRound(current, P, rect);
      blurred := Clone(dest, current);
      P := current;
      z := z + 1;
    }
  }
}
