/** Pixel buffers: 8-bit RGBA pixels, images as two-dimensional arrays of
    pixels, the rectangles a worker processes, and value snapshots of images. */
module Pixels {

  /** One 8-bit colour channel. */
  type Byte = v: int | 0 <= v <= 255

  /** An `Rgba32` pixel. */
  datatype Rgba = Rgba(r: Byte, g: Byte, b: Byte, a: Byte)

  /** `Rgba32.Transparent`; also every pixel of a newly allocated image. */
  const Transparent := Rgba(0, 0, 0, 0)

  /** `new Rgba32(r, g, b)`: alpha defaults to fully opaque. */
  function Opaque(r: Byte, g: Byte, b: Byte): Rgba
  {
    Rgba(r, g, b, 255)
  }

  /** An opaque grey level. */
  function Grey(v: Byte): Rgba
  {
    Rgba(v, v, v, 255)
  }

  const Black := Grey(0)
  const White := Grey(255)

  predicate IsGrey(p: Rgba)
  {
    p.r == p.g == p.b && p.a == 255
  }

  function MaxOf(a: int, b: int): int
  {
    if a < b then b else a
  }

  function MinOf(a: int, b: int): int
  {
    if a < b then a else b
  }

  /** An image. Pixel (x, y) is `img[y, x]`: the first index selects the row
      span, as `GetPixelRowSpan(y)[x]` does, so `Length0` is the height and
      `Length1` the width. */
  type Image = array2<Rgba>

  /** `FilterRect`: the pixels (x, y) with x in [x, endx) and y in [y, endy). */
  datatype Rect = Rect(x: int, y: int, endx: int, endy: int)
  {
    predicate Contains(px: int, py: int)
    {
      x <= px < endx && y <= py < endy
    }

    /** The column a left-to-right scan of a row of the rectangle stops at. */
    function Right(): int
    {
      if x < endx then endx else x
    }

    /** The row a top-to-bottom scan of the rectangle stops at. */
    function Bottom(): int
    {
      if y < endy then endy else y
    }

    /** Number of pixels in the rectangle. */
    function Area(): nat
    {
      Span(y, endy) * Span(x, endx)
    }
  }

  /** The number of integers in [a, b). */
  function Span(a: int, b: int): nat
  {
    if a < b then b - a else 0
  }

  /** The rows of `rect`, when there are any, have a row above and a row below
      them inside an image of the given height (a vertical 3-tap kernel fits). */
  predicate RowsFit(rect: Rect, height: int)
  {
    rect.y < rect.endy ==> 1 <= rect.y && rect.endy <= height - 1
  }

  /** The columns of `rect`, when there are any, lie inside the image. */
  predicate ColumnsInside(rect: Rect, width: int)
  {
    rect.x < rect.endx ==> 0 <= rect.x && rect.endx <= width
  }

  /** The columns of `rect`, when there are any, have a column on either side. */
  predicate ColumnsFit(rect: Rect, width: int)
  {
    rect.x < rect.endx ==> 1 <= rect.x && rect.endx <= width - 1
  }

  /** The rows of `rect`, when there are any, lie inside the image. */
  predicate RowsInside(rect: Rect, height: int)
  {
    rect.y < rect.endy ==> 0 <= rect.y && rect.endy <= height
  }

  /** The value of an image at one moment: row y, column x is `g[y][x]`. */
  type Grid = seq<seq<Rgba>>

  ghost predicate IsGrid(g: Grid, width: int, height: int)
  {
    |g| == height && forall y :: 0 <= y < height ==> |g[y]| == width
  }

  /** `g` is the grid of pixels `img` holds now. */
  ghost predicate Shows(img: Image, g: Grid)
    reads img
  {
    IsGrid(g, img.Length1, img.Length0) &&
    forall y, x {:trigger img[y, x]} :: 0 <= y < img.Length0 && 0 <= x < img.Length1 ==> g[y][x] == img[y, x]
  }

  /** The pixels an image holds now. */
  ghost function Snapshot(img: Image): (g: Grid)
    reads img
    ensures Shows(img, g)
  {
    seq(img.Length0, y reads img requires 0 <= y < img.Length0 =>
      seq(img.Length1, x reads img requires 0 <= y < img.Length0 && 0 <= x < img.Length1 => img[y, x]))
  }

  /** `g` with pixel (x, y) replaced by `v`. */
  function Put(g: Grid, x: int, y: int, v: Rgba): (r: Grid)
    requires 0 <= y < |g| && 0 <= x < |g[y]|
    ensures |r| == |g| && |r[y]| == |g[y]| && r[y][x] == v
  {
    g[y := g[y][x := v]]
  }

  /** `Put` changes only the pixel it names. */
  lemma PutElsewhere(g: Grid, x: int, y: int, v: Rgba, xx: int, yy: int)
    requires 0 <= y < |g| && 0 <= x < |g[y]| && 0 <= yy < |g| && 0 <= xx < |g[yy]|
    ensures |Put(g, x, y, v)[yy]| == |g[yy]|
    ensures Put(g, x, y, v)[yy][xx] == if yy == y && xx == x then v else g[yy][xx]
  {
  }

  /** A pixel written twice holds the second value. */
  lemma PutTwice(g: Grid, x: int, y: int, v: Rgba, w: Rgba)
    requires 0 <= y < |g| && 0 <= x < |g[y]|
    ensures Put(Put(g, x, y, v), x, y, w) == Put(g, x, y, w)
  {
    assert g[y][x := v][x := w] == g[y][x := w];
  }

  /** `img[x, y] = v`: one pixel written. */
  method WritePixel(img: Image, ghost g: Grid, x: int, y: int, v: Rgba)
    requires Shows(img, g) && 0 <= y < img.Length0 && 0 <= x < img.Length1
    modifies img
    ensures Shows(img, Put(g, x, y, v))
  {
    img[y, x] := v;
  }

  /** Two grids of one shape that agree on every pixel are equal. */
  lemma GridsEqual(g: Grid, k: Grid, width: int, height: int)
    requires IsGrid(g, width, height) && IsGrid(k, width, height)
    requires forall y, x :: 0 <= y < height && 0 <= x < width ==> g[y][x] == k[y][x]
    ensures g == k
  {
    forall y | 0 <= y < height
      ensures g[y] == k[y]
    {
      assert |g[y]| == |k[y]| == width;
    }
  }

  /** A `width` by `height` grid of transparent pixels. */
  ghost function Blank(width: nat, height: nat): (g: Grid)
    ensures IsGrid(g, width, height)
    ensures forall y, x :: 0 <= y < height && 0 <= x < width ==> g[y][x] == Transparent
  {
    seq(height, _ => seq(width, _ => Transparent))
  }

  /** `new Image<Rgba32>(width, height)`: every pixel transparent. */
  method NewImage(width: nat, height: nat) returns (img: Image)
    ensures fresh(img) && img.Length0 == height && img.Length1 == width
    ensures Shows(img, Blank(width, height))
  {
    img := new Rgba[height, width]((y, x) => Transparent);
  }

  /** `Image.Clone()`: a new image with the same pixels. */
  method Clone(src: Image, ghost g: Grid) returns (copy: Image)
    requires Shows(src, g)
    ensures fresh(copy) && copy.Length0 == src.Length0 && copy.Length1 == src.Length1 && Shows(copy, g)
  {
    copy := new Rgba[src.Length0, src.Length1];
    for y := 0 to src.Length0
      invariant forall yy, x :: 0 <= yy < y && 0 <= x < src.Length1 ==> copy[yy, x] == g[yy][x]
    {
      for x := 0 to src.Length1
        invariant forall yy, xx :: 0 <= yy < y && 0 <= xx < src.Length1 ==> copy[yy, xx] == g[yy][xx]
        invariant forall xx :: 0 <= xx < x ==> copy[y, xx] == g[y][xx]
      {
        copy[y, x] := src[y, x];
      }
    }
  }
}
