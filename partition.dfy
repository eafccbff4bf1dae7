/** How `Filter` splits the image's rows among its workers
    (ImageProcessor.cs, lines 93-105). Worker `i` of `n` gets the rectangle
    `Rect(1, start, width - 1, end)`: a one-pixel border is left for the 3x3
    kernel. The source computes `chunks = height / n` in floating point and
    truncates `i * chunks`; here that truncation is the exact floor
    `i * height / n` of non-negative integers. */
module Partition {
  import opened Pixels
  import opened Arithmetic

  /** First row of worker `i`, as written: `(int)(i * chunks) + 1`. No worker
      starts on row 0, and the first one starts on row 1. */
  function SourceRowStart(i: nat, height: nat, n: nat): (s: int)
    requires n >= 1
    ensures s >= 1
    ensures i == 0 ==> s == 1
  {
    i * height / n + 1
  }

  /** End (exclusive) of worker `i`'s rows, as written:
      `(int)((i + 1) * chunks) + (i == n - 1 ? -1 : +1)`. The last worker
      stops before the bottom row. */
  function SourceRowEnd(i: nat, height: nat, n: nat): (e: int)
    requires n >= 1
    ensures i == n - 1 ==> e == height - 1
  {
    DivIs(n * height, n, height);
    (i + 1) * height / n + (if i == n - 1 then -1 else 1)
  }

  /** One past the last interior row: `height - 1` (1 when the image has no
      interior rows at all). */
  function InteriorEnd(height: nat): nat
  {
    if height >= 2 then height - 1 else 1
  }

  /** First row of worker `i`, with the end of the interior as a ceiling. */
  function RowStart(i: nat, height: nat, n: nat): (s: nat)
    requires n >= 1
    ensures 1 <= s <= InteriorEnd(height)
  {
    MinOf(i * height / n + 1, InteriorEnd(height))
  }

  /** End (exclusive) of worker `i`'s rows, with the end of the interior as a
      ceiling. For the last worker this is exactly `height - 1`. */
  function RowEnd(i: nat, height: nat, n: nat): (e: nat)
    requires n >= 1
    ensures 1 <= e <= InteriorEnd(height)
  {
    MinOf((i + 1) * height / n + 1, InteriorEnd(height))
  }

  /** The rectangle worker `i` filters: columns [1, width - 1) of its rows. */
  function WorkerRect(i: nat, width: nat, height: nat, n: nat): (rect: Rect)
    requires n >= 1
    ensures RowsFit(rect, height) && ColumnsFit(rect, width)
  {
    Rect(1, RowStart(i, height, n), width - 1, RowEnd(i, height, n))
  }

  lemma RowStartMonotone(i: nat, j: nat, height: nat, n: nat)
    requires n >= 1 && i <= j
    ensures RowStart(i, height, n) <= RowStart(j, height, n)
  {
    MulMonotone(i, j, height);
    DivMonotone(i * height, j * height, n);
  }

  /** Every worker's range lies in the interior rows and is well formed, and
      the next worker starts exactly where this one ends: the ranges are
      contiguous. */
  lemma RowRangeContiguous(i: nat, height: nat, n: nat)
    requires n >= 1 && i < n
    ensures 1 <= RowStart(i, height, n) <= RowEnd(i, height, n) <= InteriorEnd(height)
    ensures RowEnd(i, height, n) == RowStart(i + 1, height, n)
  {
    RowStartMonotone(i, i + 1, height, n);
  }

  /** The first worker starts at row 1 and the last one ends at row
      `height - 1`: rows 0 and `height - 1` are never handed out. */
  lemma RowRangesSpanInterior(height: nat, n: nat)
    requires n >= 1
    ensures RowStart(0, height, n) == 1
    ensures RowEnd(n - 1, height, n) == InteriorEnd(height)
  {
    DivIs(n * height, n, height);
  }

  /** No row is given to two workers. */
  lemma {:induction false} RowRangesDisjoint(i: nat, j: nat, height: nat, n: nat)
    requires n >= 1 && i < j < n
    ensures RowEnd(i, height, n) <= RowStart(j, height, n)
  {
    RowStartMonotone(i + 1, j, height, n);
  }

  /** Every interior row belongs to some worker at or after `i`, given that it
      is not before worker `i`'s first row. */
  lemma {:induction false} RowCoveredFrom(y: int, i: nat, height: nat, n: nat)
    requires n >= 1 && i < n
    requires RowStart(i, height, n) <= y < InteriorEnd(height)
    ensures exists k :: i <= k < n && RowStart(k, height, n) <= y < RowEnd(k, height, n)
    decreases n - i
  {
    if y < RowEnd(i, height, n) {
    } else if i == n - 1 {
      RowRangesSpanInterior(height, n);
    } else {
      RowCoveredFrom(y, i + 1, height, n);
    }
  }

  /** Together the workers cover every interior row. */
  lemma RowCovered(y: int, height: nat, n: nat)
    requires n >= 1 && 1 <= y < InteriorEnd(height)
    ensures exists k :: 0 <= k < n && RowStart(k, height, n) <= y < RowEnd(k, height, n)
  {
    RowRangesSpanInterior(height, n);
    RowCoveredFrom(y, 0, height, n);
  }

  /** When the image has more rows than there are workers, the source's ranges
      are exactly these: the ceiling never bites. */
  lemma SourceRowsAgree(i: nat, height: nat, n: nat)
    requires 1 <= n < height && i < n
    ensures SourceRowStart(i, height, n) == RowStart(i, height, n)
    ensures SourceRowEnd(i, height, n) == RowEnd(i, height, n)
  {
    // (n - 1) * height < (height - 1) * n, since n < height.
    assert (n - 1) * height < (height - 1) * n;
    DivBelow((n - 1) * height, n, height - 1);
    MulMonotone(i, n - 1, height);
    DivMonotone(i * height, (n - 1) * height, n);
    if i < n - 1 {
      MulMonotone(i + 1, n - 1, height);
      DivMonotone((i + 1) * height, (n - 1) * height, n);
    } else {
      DivIs(n * height, n, height);
    }
  }

  /** Search for the worker, among the first `n - 1`, whose as-written range
      holds row `y`. */
  lemma {:induction false} SourceRowCoveredFrom(y: int, i: nat, height: nat, n: nat)
    requires n >= 2 && i < n - 1
    requires SourceRowStart(i, height, n) <= y < SourceRowEnd(n - 2, height, n)
    ensures exists k :: i <= k < n - 1 && SourceRowStart(k, height, n) <= y < SourceRowEnd(k, height, n)
    decreases n - i
  {
    if y >= SourceRowEnd(i, height, n) {
      SourceRowCoveredFrom(y, i + 1, height, n);
    }
  }

  /** The source's ranges when the image has no more rows than there are
      workers: a worker other than the last is handed row `height - 1`, the
      bottom border row, whose Sobel kernel would read row `height`, outside
      the image (the last worker's range is then empty). With 4 workers and a
      3-row image, worker 2 gets rows [2, 3). */
  lemma SourceRowsOverrun(height: nat, n: nat)
    requires 2 <= height <= n
    ensures exists k :: 0 <= k < n - 1 && SourceRowStart(k, height, n) <= height - 1 < SourceRowEnd(k, height, n)
  {
    assert (height - 1) * n <= (n - 1) * height < height * n;
    DivIs((n - 1) * height, n, height - 1);
    assert SourceRowEnd(n - 2, height, n) == height;
    assert SourceRowStart(0, height, n) == 1;
    SourceRowCoveredFrom(height - 1, 0, height, n);
  }
}
