/** `LongestVerticalLineCount` (ImageProcessor.cs, lines 330-420): copies
    the photograph into the overlay image, marks each pixel of the high-pass
    image whose horizontal neighbourhood is dark enough on average (and
    paints that decision black or white into the interpolation image), finds
    the longest vertical run of marked pixels, and tints a band over that run
    in the overlay. */
module Scanline {
  import opened Pixels
  import opened Painting

  /** Rows and columns this close to the border are never marked. */
  const SkipEdge: int := 5

  /** `ColCounter`: the column, first row and length of a vertical run. */
  datatype ColCounter = ColCounter(x: int, y: int, length: int)

  const NoRun := ColCounter(0, 0, 0)

  // ---------------------------------------------------------------------
  // Horizontal interpolation

  /** How dark columns [k0, k1) of a row are: the sum of `255 - R`, so a
      black pixel adds 255 and a white one nothing. */
  function Darkness(row: seq<Rgba>, k0: int, k1: int): (d: int)
    requires 0 <= k0 && k1 <= |row|
    ensures 0 <= d <= 255 * Span(k0, k1)
    decreases k1 - k0
  {
    if k1 <= k0 then 0 else Darkness(row, k0, k1 - 1) + (255 - row[k1 - 1].r)
  }

  /** The window of `2a + 1` pixels centred on column x lies inside the row
      and averages more than a quarter of full darkness: the integer test is
      exactly the source's floating-point test against `255 * 0.25`. */
  predicate Dense(row: seq<Rgba>, x: int, a: int)
    ensures Dense(row, x, a) <==>
      (0 <= a <= x && x + a < |row| &&
       (Darkness(row, x - a, x + a + 1) as real) / ((2 * a + 1) as real) > 255.0 * 0.25)
  {
    if 0 <= a <= x && x + a < |row| then
      QuotientAbove(Darkness(row, x - a, x + a + 1) as real, (2 * a + 1) as real, 255.0 * 0.25);
      4 * Darkness(row, x - a, x + a + 1) > 255 * (2 * a + 1)
    else false
  }

  /** The pixels the interpolation visits in an image of width w and height h. */
  function InterpRect(w: int, h: int, a: int): Rect
  {
    Rect(a + SkipEdge, SkipEdge, w - a - SkipEdge, h - SkipEdge)
  }

  /** The window half-width keeps every visited column inside the image (a
      half-width below -5 would start the scan left of column 0), or there
      are no rows to visit. */
  predicate InterpolationFits(h: int, a: int)
  {
    h <= 2 * SkipEdge || a >= -SkipEdge
  }

  /** `vCount[x, y]` of the high-pass grid `F` at the end of the
      interpolation: visited and dense. */
  predicate Cell(F: Grid, w: int, a: int, x: int, y: int)
  {
    InterpRect(w, |F|, a).Contains(x, y) && Dense(F[y], x, a)
  }

  /** Column x, row y of the marks is `C[x][y]`. */
  type Columns = seq<seq<bool>>

  ghost function CellColumns(F: Grid, w: nat, a: int): (C: Columns)
    ensures |C| == w && forall x :: 0 <= x < w ==> |C[x]| == |F|
  {
    seq(w, x => seq(|F|, y requires 0 <= y < |F| => Cell(F, w, a, x, y)))
  }

  /** `C` is the content of the `bool[w, h]` array `v`. */
  ghost predicate Holds(v: array2<bool>, C: Columns)
    reads v
  {
    |C| == v.Length0 && (forall x :: 0 <= x < |C| ==> |C[x]| == v.Length1) &&
    forall x, y {:trigger v[x, y]} :: 0 <= x < v.Length0 && 0 <= y < v.Length1 ==> C[x][y] == v[x, y]
  }

  /** The value the interpolation paints at (x, y). */
  ghost function InterpPaint(F: Grid, w: int, a: int): (int, int) -> Rgba
  {
    (x, y) => if Cell(F, w, a, x, y) then Black else White
  }

  /** The interpolation image `H` after the interpolation of `F`. */
  ghost function Interpolated(F: Grid, H: Grid, w: int, a: int): Grid
  {
    Paint(H, InterpPaint(F, w, a), InterpRect(w, |F|, a))
  }

  lemma QuotientAbove(s: real, n: real, c: real)
    requires n > 0.0
    ensures s / n > c <==> s > c * n
  {
    var q := s / n;
    assert q * n == s;
    if q > c {
      assert (q - c) * n > 0.0;
    } else {
      assert (c - q) * n >= 0.0;
    }
  }

  /** A window of black pixels is dense; a window of white pixels is not. */
  lemma {:induction false} DarknessOfUniform(row: seq<Rgba>, k0: int, k1: int, v: Byte)
    requires 0 <= k0 && k1 <= |row|
    requires forall k :: k0 <= k < k1 ==> row[k].r == v
    ensures Darkness(row, k0, k1) == (255 - v) * Span(k0, k1)
    decreases k1 - k0
  {
    if k0 < k1 {
      DarknessOfUniform(row, k0, k1 - 1, v);
      assert Span(k0, k1) == Span(k0, k1 - 1) + 1;
    }
  }

  lemma BlackWindowIsDense(row: seq<Rgba>, x: int, a: int)
    requires 0 <= a <= x && x + a < |row|
    requires forall k :: x - a <= k <= x + a ==> row[k].r == 0
    ensures Dense(row, x, a)
  {
    DarknessOfUniform(row, x - a, x + a + 1, 0);
  }

  lemma WhiteWindowIsSparse(row: seq<Rgba>, x: int, a: int)
    requires 0 <= a <= x && x + a < |row|
    requires forall k :: x - a <= k <= x + a ==> row[k].r == 255
    ensures !Dense(row, x, a)
  {
    DarknessOfUniform(row, x - a, x + a + 1, 255);
  }

  /** The interpolation paints black exactly the marked pixels and white the
      other visited ones, and leaves the pixels it does not visit. */
  lemma InterpolatedAt(F: Grid, H: Grid, w: int, a: int, x: int, y: int)
    requires IsGrid(F, w, |F|) && IsGrid(H, w, |F|) && 0 <= y < |F| && 0 <= x < w
    ensures IsGrid(Interpolated(F, H, w, a), w, |F|)
    ensures Interpolated(F, H, w, a)[y][x] ==
      if !InterpRect(w, |F|, a).Contains(x, y) then H[y][x]
      else if Cell(F, w, a, x, y) then Black else White
  {
    PaintPixel(H, InterpPaint(F, w, a), w, |F|, InterpRect(w, |F|, a), x, y);
  }

  /** The inner `k` loop: the darkness of the window around (x, y). */
  method WindowDarkness(filter: Image, ghost F: Grid, x: int, y: int, a: int) returns (sum: int)
    requires Shows(filter, F) && 0 <= y < filter.Length0
    requires a >= 0 ==> 0 <= x - a && x + a < filter.Length1
    ensures sum == if a >= 0 then Darkness(F[y], x - a, x + a + 1) else 0
  {
    sum := 0;
    var k := x - a;
    while k <= x + a
      invariant a >= 0 ==> x - a <= k <= x + a + 1 && sum == Darkness(F[y], x - a, k)
      invariant a < 0 ==> sum == 0
    {
      sum := sum + (255 - filter[y, k].r);
      k := k + 1;
    }
  }

  /** One row of the interpolation: marks and paints row y. */
  method InterpolateRow(filter: Image, ghost F: Grid, hImg: Image, ghost H: Grid, v: array2<bool>, a: int, y: int)
    requires Shows(filter, F) && Shows(hImg, H) && filter != hImg
    requires hImg.Length0 == filter.Length0 && hImg.Length1 == filter.Length1
    requires v.Length0 == filter.Length1 && v.Length1 == filter.Length0
    requires SkipEdge <= y < filter.Length0 - SkipEdge && a >= -SkipEdge
    requires forall i, j :: 0 <= i < v.Length0 && 0 <= j < v.Length1 ==> v[i, j] == (Cell(F, v.Length0, a, i, j) && j < y)
    modifies hImg, v
    ensures Shows(hImg, PaintRow(H, InterpPaint(F, v.Length0, a), y,
      InterpRect(v.Length0, v.Length1, a).x, InterpRect(v.Length0, v.Length1, a).Right()))
    ensures forall i, j :: 0 <= i < v.Length0 && 0 <= j < v.Length1 ==> v[i, j] == (Cell(F, v.Length0, a, i, j) && j <= y)
  {
    var w, h := filter.Length1, filter.Length0;
    ghost var f := InterpPaint(F, w, a);
    var x := a + SkipEdge;
    while x < w - a - SkipEdge
      invariant InterpRect(w, h, a).x <= x <= InterpRect(w, h, a).Right()
      invariant Shows(hImg, PaintRow(H, f, y, InterpRect(w, h, a).x, x))
      invariant forall i, j :: 0 <= i < w && 0 <= j < h ==> v[i, j] == (Cell(F, w, a, i, j) && (j < y || (j == y && i < x)))
    {
      var sum := WindowDarkness(filter, F, x, y, a);
      var dense := 0 <= a && 4 * sum > 255 * (2 * a + 1);
      assert dense == Cell(F, w, a, x, y);
      v[x, y] := dense;
      WritePixel(hImg, PaintRow(H, f, y, InterpRect(w, h, a).x, x), x, y, if dense then Black else White);
      x := x + 1;
    }
    assert x == InterpRect(w, h, a).Right();
  }

  /** The interpolation loop: a fresh `vCount` holding every mark, and the
      interpolation image painted. */
  method Interpolate(filter: Image, ghost F: Grid, hImg: Image, ghost H: Grid, a: int) returns (v: array2<bool>)
    requires Shows(filter, F) && Shows(hImg, H) && filter != hImg
    requires hImg.Length0 == filter.Length0 && hImg.Length1 == filter.Length1
    requires InterpolationFits(filter.Length0, a)
    modifies hImg
    ensures fresh(v) && v.Length0 == filter.Length1 && v.Length1 == filter.Length0
    ensures Holds(v, CellColumns(F, filter.Length1, a))
    ensures Shows(hImg, Interpolated(F, H, filter.Length1, a))
  {
    var w, h := filter.Length1, filter.Length0;
    ghost var f := InterpPaint(F, w, a);
    ghost var rect := InterpRect(w, h, a);
    v := new bool[w, h]((i, j) => false);
    var y := SkipEdge;
    while y < h - SkipEdge
      invariant rect.y <= y <= rect.Bottom()
      invariant Shows(hImg, PaintRows(H, f, rect, y))
      invariant forall i, j :: 0 <= i < w && 0 <= j < h ==> v[i, j] == (Cell(F, w, a, i, j) && j < y)
    {
      InterpolateRow(filter, F, hImg, PaintRows(H, f, rect, y), v, a, y);
      y := y + 1;
    }
    assert y == rect.Bottom();
    ghost var C := CellColumns(F, w, a);
    assert forall i, j :: 0 <= i < w && 0 <= j < h ==> C[i][j] == v[i, j];
  }

  // ---------------------------------------------------------------------
  // Column scan

  /** Rows [y, y + len) of column x are marked, the row just below is not,
      and neither is the row just above, if there is one: a run the scan
      closes (a run that reaches the bottom row is never closed). */
  predicate Run(C: Columns, x: int, y: int, len: int)
  {
    0 <= x < |C| && 0 <= y && 1 <= len && y + len < |C[x]| &&
    (forall k :: y <= k < y + len ==> C[x][k]) &&
    !C[x][y + len] && (y == 0 || !C[x][y - 1])
  }

  /** `m` is what the scan keeps: no run at all, or a closed run no shorter
      than any other, and strictly longer than every run the scan meets
      before it (column by column, top to bottom). */
  ghost predicate LongestOf(C: Columns, m: ColCounter)
  {
    (m == NoRun || Run(C, m.x, m.y, m.length)) &&
    (forall x, y, len :: Run(C, x, y, len) ==> len <= m.length) &&
    (forall x, y, len :: Run(C, x, y, len) && (x < m.x || (x == m.x && y < m.y)) ==> len < m.length)
  }

  /** A marked cell lies at least `SkipEdge` rows above the bottom row. */
  lemma CellAboveBottom(F: Grid, w: nat, a: int, x: int, y: int)
    requires 0 <= x < w && 0 <= y < |F| && CellColumns(F, w, a)[x][y]
    ensures y + SkipEdge < |F|
  {
    assert Cell(F, w, a, x, y);
  }

  /** No run of marks is lost at the bottom of a column: every streak of
      marked cells is followed by an unmarked row inside the column, so the
      scan always closes it. */
  lemma RunsClose(F: Grid, w: nat, a: int, x: int, y: int, len: int)
    requires 0 <= x < w && 0 <= y && 1 <= len && y + len <= |F|
    requires forall k :: y <= k < y + len ==> CellColumns(F, w, a)[x][k]
    ensures y + len < |F|
  {
    CellAboveBottom(F, w, a, x, y + len - 1);
  }

  /** The run closed at row `y` of column `x` is the streak the scan has
      counted. */
  lemma RunClosedAt(C: Columns, x: int, y: int, colSum: int, s: int, len: int)
    requires 0 <= x < |C| && 0 <= colSum <= y < |C[x]|
    requires forall k :: y - colSum <= k < y ==> C[x][k]
    requires y - colSum == 0 || !C[x][y - colSum - 1]
    requires Run(C, x, s, len) && s + len == y
    ensures s == y - colSum && len == colSum
  {
  }

  /** At most one answer satisfies `LongestOf`. */
  lemma LongestIsUnique(C: Columns, m1: ColCounter, m2: ColCounter)
    requires LongestOf(C, m1) && LongestOf(C, m2)
    ensures m1 == m2
  {
    if m1 != NoRun && m2 != NoRun {
      assert m1.length == m2.length;
    }
  }

  /** One column of the scan. */
  method ScanColumn(v: array2<bool>, ghost C: Columns, x: int, m0: ColCounter) returns (m: ColCounter)
    requires Holds(v, C) && 0 <= x < v.Length0
    requires m0 == NoRun || Run(C, m0.x, m0.y, m0.length)
    requires m0.length == 0 || m0.x < x
    requires forall xx, s, len :: Run(C, xx, s, len) && xx < x ==> len <= m0.length
    requires forall xx, s, len :: Run(C, xx, s, len) && (xx < m0.x || (xx == m0.x && s < m0.y)) ==> len < m0.length
    ensures m == NoRun || Run(C, m.x, m.y, m.length)
    ensures m.length == 0 || m.x <= x
    ensures forall xx, s, len :: Run(C, xx, s, len) && xx <= x ==> len <= m.length
    ensures forall xx, s, len :: Run(C, xx, s, len) && (xx < m.x || (xx == m.x && s < m.y)) ==> len < m.length
  {
    m := m0;
    var colSum := 0;
    var y := 0;
    while y < v.Length1
      invariant 0 <= colSum <= y <= v.Length1
      invariant forall k :: y - colSum <= k < y ==> C[x][k]
      invariant y - colSum == 0 || !C[x][y - colSum - 1]
      invariant m == NoRun || Run(C, m.x, m.y, m.length)
      invariant m.length == 0 || m.x < x || (m.x == x && m.y + m.length < y)
      invariant forall xx, s, len :: Run(C, xx, s, len) && xx < x ==> len <= m.length
      invariant forall s, len :: Run(C, x, s, len) && s + len < y ==> len <= m.length
      invariant forall xx, s, len :: Run(C, xx, s, len) && (xx < m.x || (xx == m.x && s < m.y)) ==> len < m.length
    {
      if v[x, y] {
        colSum := colSum + 1;
      } else {
        forall s, len | Run(C, x, s, len) && s + len == y
          ensures s == y - colSum && len == colSum
        {
          RunClosedAt(C, x, y, colSum, s, len);
        }
        if m.length < colSum {
          m := ColCounter(x, y - colSum, colSum);
        }
        colSum := 0;
      }
      y := y + 1;
    }
  }

  /** The column-wise scan of `vCount` for the longest closed run. */
  method LongestRun(v: array2<bool>, ghost C: Columns) returns (m: ColCounter)
    requires Holds(v, C)
    ensures LongestOf(C, m)
  {
    m := NoRun;
    var x := 0;
    while x < v.Length0
      invariant 0 <= x <= v.Length0
      invariant m == NoRun || Run(C, m.x, m.y, m.length)
      invariant m.length == 0 || m.x < x
      invariant forall xx, s, len :: Run(C, xx, s, len) && xx < x ==> len <= m.length
      invariant forall xx, s, len :: Run(C, xx, s, len) && (xx < m.x || (xx == m.x && s < m.y)) ==> len < m.length
    {
      m := ScanColumn(v, C, x, m);
      x := x + 1;
    }
  }

  /** Every pixel of the longest run is dense, and the band the marker
      draws around it lies inside the image. */
  lemma LongestRunFits(F: Grid, w: nat, a: int, m: ColCounter)
    requires IsGrid(F, w, |F|) && LongestOf(CellColumns(F, w, a), m) && m.length > 0
    ensures 2 <= m.x && m.x + 2 <= w && 0 <= m.y && m.y + m.length < |F|
    ensures forall k :: m.y <= k < m.y + m.length ==> Dense(F[k], m.x, a)
  {
    var C := CellColumns(F, w, a);
    assert C[m.x][m.y];
    forall k | m.y <= k < m.y + m.length
      ensures Dense(F[k], m.x, a)
    {
      assert C[m.x][k];
    }
  }

  // ---------------------------------------------------------------------
  // Marker

  /** `g` with pixel (x, y) replaced by `tint` of its current value. */
  ghost function TintAt(g: Grid, tint: Rgba -> Rgba, x: int, y: int): Grid
  {
    if 0 <= y < |g| && 0 <= x < |g[y]| then Put(g, x, y, tint(g[y][x])) else g
  }

  /** `g` after columns [x0, x1) of row y are tinted, left to right. */
  ghost function TintRow(g: Grid, tint: Rgba -> Rgba, y: int, x0: int, x1: int): Grid
    decreases x1 - x0
  {
    if x1 <= x0 then g else TintAt(TintRow(g, tint, y, x0, x1 - 1), tint, x1 - 1, y)
  }

  /** One row of the marker: four pixels around the run's column, then, in
      the five rows before row `end`, the whole row. */
  ghost function MarkRow(g: Grid, tint: Rgba -> Rgba, m: ColCounter, w: int, end: int, y: int): Grid
  {
    var band := TintRow(g, tint, y, m.x - 2, m.x + 2);
    if y > end - 6 then TintRow(band, tint, y, 0, w) else band
  }

  /** `g` after the marker rows [y0, y1) are drawn, top to bottom. */
  ghost function MarkRows(g: Grid, tint: Rgba -> Rgba, m: ColCounter, w: int, end: int, y0: int, y1: int): Grid
    decreases y1 - y0
  {
    if y1 <= y0 then g else MarkRow(MarkRows(g, tint, m, w, end, y0, y1 - 1), tint, m, w, end, y1 - 1)
  }

  /** `tint` applied n times. */
  function Times(tint: Rgba -> Rgba, n: nat, c: Rgba): Rgba
  {
    if n == 0 then c else tint(Times(tint, n - 1, c))
  }

  /** How many times the marker rows [y0, y1) tint pixel (x, y). */
  function MarkCount(m: ColCounter, w: int, end: int, y0: int, y1: int, x: int, y: int): nat
  {
    if y0 <= y < y1 then
      (if m.x - 2 <= x < m.x + 2 then 1 else 0) + (if y > end - 6 && 0 <= x < w then 1 else 0)
    else 0
  }

  lemma TintAtAt(g: Grid, tint: Rgba -> Rgba, w: int, h: int, x: int, y: int, xx: int, yy: int)
    requires IsGrid(g, w, h) && 0 <= yy < h && 0 <= xx < w
    ensures IsGrid(TintAt(g, tint, x, y), w, h)
    ensures TintAt(g, tint, x, y)[yy][xx] == if yy == y && xx == x then tint(g[yy][xx]) else g[yy][xx]
  {
    if 0 <= y < |g| && 0 <= x < |g[y]| {
      PutElsewhere(g, x, y, tint(g[y][x]), xx, yy);
    }
  }

  /** Tinting part of a row tints exactly those pixels, once. */
  lemma {:induction false} TintRowAt(g: Grid, tint: Rgba -> Rgba, w: int, h: int, y: int, x0: int, x1: int, xx: int, yy: int)
    requires IsGrid(g, w, h) && 0 <= yy < h && 0 <= xx < w
    ensures IsGrid(TintRow(g, tint, y, x0, x1), w, h)
    ensures TintRow(g, tint, y, x0, x1)[yy][xx] == if yy == y && x0 <= xx < x1 then tint(g[yy][xx]) else g[yy][xx]
    decreases x1 - x0
  {
    if x0 < x1 {
      TintRowAt(g, tint, w, h, y, x0, x1 - 1, xx, yy);
      TintAtAt(TintRow(g, tint, y, x0, x1 - 1), tint, w, h, x1 - 1, y, xx, yy);
    }
  }

  /** Drawing the marker rows [y0, y1) tints each pixel as many times as
      `MarkCount` says: a pixel both in the band and in a full-width row
      near the end of the run is tinted twice. */
  lemma {:induction false} MarkRowsAt(g: Grid, tint: Rgba -> Rgba, m: ColCounter, w: int, h: int, end: int, y0: int, y1: int, xx: int, yy: int)
    requires IsGrid(g, w, h) && 0 <= yy < h && 0 <= xx < w
    ensures IsGrid(MarkRows(g, tint, m, w, end, y0, y1), w, h)
    ensures MarkRows(g, tint, m, w, end, y0, y1)[yy][xx] == Times(tint, MarkCount(m, w, end, y0, y1, xx, yy), g[yy][xx])
    decreases y1 - y0
  {
    if y0 < y1 {
      var before := MarkRows(g, tint, m, w, end, y0, y1 - 1);
      MarkRowsAt(g, tint, m, w, h, end, y0, y1 - 1, xx, yy);
      var band := TintRow(before, tint, y1 - 1, m.x - 2, m.x + 2);
      TintRowAt(before, tint, w, h, y1 - 1, m.x - 2, m.x + 2, xx, yy);
      if y1 - 1 > end - 6 {
        TintRowAt(band, tint, w, h, y1 - 1, 0, w, xx, yy);
      }
    }
  }

  /** The marker as the source draws it: rows [m.y, m.length), with the
      full-width line in the rows after `m.length - 6`. It draws nothing at all
      for a run that starts at or below row `Length`. */
  ghost function AsWrittenMarker(g: Grid, tint: Rgba -> Rgba, m: ColCounter, w: int): (r: Grid)
    ensures m.length <= m.y ==> r == g
  {
    MarkRows(g, tint, m, w, m.length, m.y, m.length)
  }

  /** The marker over the run itself: rows [m.y, m.y + m.length), with the
      full-width line across the run's last five rows. An empty run draws
      nothing. */
  ghost function Marker(g: Grid, tint: Rgba -> Rgba, m: ColCounter, w: int): (r: Grid)
    ensures m.length <= 0 ==> r == g
  {
    MarkRows(g, tint, m, w, m.y + m.length, m.y, m.y + m.length)
  }

  /** One column holding a single run, in rows [20, 30) of column 7. */
  function OneRun(w: nat, h: nat): Columns
  {
    seq(w, x => seq(h, y => x == 7 && 20 <= y < 30))
  }

  /** In that image the scan keeps the run (7, 20, 10) ... */
  lemma OneRunIsLongest(w: nat, h: nat)
    requires 7 < w && 30 < h
    ensures LongestOf(OneRun(w, h), ColCounter(7, 20, 10))
  {
    var C := OneRun(w, h);
    forall x, y, len | Run(C, x, y, len)
      ensures x == 7 && y == 20 && len == 10
    {
      assert C[x][y] && C[x][y + len - 1];
    }
    forall k | 20 <= k < 30
      ensures C[7][k]
    {
    }
    assert Run(C, 7, 20, 10);
  }

  /** The marker over a run tints every pixel of the run's band; rows outside
      the run are left as they were. */
  lemma MarkerCoversRun(g: Grid, tint: Rgba -> Rgba, m: ColCounter, w: int, h: int, x: int, y: int)
    requires IsGrid(g, w, h) && 0 <= y < h && 0 <= x < w
    ensures IsGrid(Marker(g, tint, m, w), w, h)
    ensures !(m.y <= y < m.y + m.length) ==> Marker(g, tint, m, w)[y][x] == g[y][x]
    ensures m.y <= y < m.y + m.length && m.x - 2 <= x < m.x + 2 ==>
      Marker(g, tint, m, w)[y][x] == if y >= m.y + m.length - 5 then tint(tint(g[y][x])) else tint(g[y][x])
    ensures m.y <= y < m.y + m.length && !(m.x - 2 <= x < m.x + 2) ==>
      Marker(g, tint, m, w)[y][x] == if y >= m.y + m.length - 5 then tint(g[y][x]) else g[y][x]
  {
    MarkRowsAt(g, tint, m, w, h, m.y + m.length, m.y, m.y + m.length, x, y);
    assert Times(tint, 1, g[y][x]) == tint(g[y][x]);
    assert Times(tint, 2, g[y][x]) == tint(tint(g[y][x]));
  }

  /** Tints columns [x0, x1) of row y. */
  method TintSpan(img: Image, ghost G: Grid, tint: Rgba -> Rgba, y: int, x0: int, x1: int)
    requires Shows(img, G) && 0 <= y < img.Length0 && (x0 < x1 ==> 0 <= x0 && x1 <= img.Length1)
    modifies img
    ensures Shows(img, TintRow(G, tint, y, x0, x1))
  {
    var x := x0;
    while x < x1
      invariant x0 <= x <= MaxOf(x0, x1)
      invariant Shows(img, TintRow(G, tint, y, x0, x))
    {
      var c := img[y, x];
      WritePixel(img, TintRow(G, tint, y, x0, x), x, y, tint(c));
      x := x + 1;
    }
    assert x == MaxOf(x0, x1);
  }

  /** The marking loop over rows [y0, y1). */
  method MarkRun(img: Image, ghost G: Grid, tint: Rgba -> Rgba, m: ColCounter, end: int, y0: int, y1: int)
    requires Shows(img, G)
    requires y0 < y1 ==> 0 <= y0 && y1 <= img.Length0 && 2 <= m.x && m.x + 2 <= img.Length1
    modifies img
    ensures Shows(img, MarkRows(G, tint, m, img.Length1, end, y0, y1))
  {
    var w := img.Length1;
    var y := y0;
    while y < y1
      invariant y0 <= y <= MaxOf(y0, y1)
      invariant Shows(img, MarkRows(G, tint, m, w, end, y0, y))
    {
      ghost var before := MarkRows(G, tint, m, w, end, y0, y);
      TintSpan(img, before, tint, y, m.x - 2, m.x + 2);
      if y > end - 6 {
        TintSpan(img, TintRow(before, tint, y, m.x - 2, m.x + 2), tint, y, 0, w);
      }
      y := y + 1;
    }
    assert y == MaxOf(y0, y1);
  }

  /** The copy of the photograph into the overlay image. */
  method CopyInto(src: Image, ghost S: Grid, dest: Image)
    requires Shows(src, S) && src != dest
    requires dest.Length0 == src.Length0 && dest.Length1 == src.Length1
    modifies dest
    ensures Shows(dest, S)
  {
    for y := 0 to src.Length0
      invariant forall yy, x :: 0 <= yy < y && 0 <= x < src.Length1 ==> dest[yy, x] == S[yy][x]
    {
      for x := 0 to src.Length1
        invariant forall yy, xx :: 0 <= yy < y && 0 <= xx < src.Length1 ==> dest[yy, xx] == S[yy][xx]
        invariant forall xx :: 0 <= xx < x ==> dest[y, xx] == S[y][xx]
      {
        dest[y, x] := src[y, x];
      }
    }
  }

  /** `LongestVerticalLineCount`, with the marker drawn over the run's own
      rows. `m` is the run the scan keeps. */
  method LongestVerticalLineCount(src: Image, ghost S: Grid, hImg: Image, ghost H: Grid, filter: Image, ghost F: Grid,
                                  dest: Image, ghost D: Grid, a: int, tint: Rgba -> Rgba) returns (ghost m: ColCounter)
    requires Shows(src, S) && Shows(hImg, H) && Shows(filter, F) && Shows(dest, D)
    requires hImg.Length0 == src.Length0 && hImg.Length1 == src.Length1
    requires filter.Length0 == src.Length0 && filter.Length1 == src.Length1
    requires dest.Length0 == src.Length0 && dest.Length1 == src.Length1
    requires hImg != src && hImg != filter && dest != src && dest != filter && dest != hImg
    requires InterpolationFits(src.Length0, a)
    modifies hImg, dest
    ensures LongestOf(CellColumns(F, src.Length1, a), m)
    ensures Shows(hImg, Interpolated(F, H, src.Length1, a))
    ensures Shows(dest, Marker(S, tint, m, src.Length1))
  {
    CopyInto(src, S, dest);
    var v := Interpolate(filter, F, hImg, H, a);
    var run := LongestRun(v, CellColumns(F, src.Length1, a));
    if run.length > 0 {
      LongestRunFits(F, src.Length1, a, run);
    }
    MarkRun(dest, S, tint, run, run.y + run.length, run.y, run.y + run.length);
    m := run;
  }
}
