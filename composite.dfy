/** The whole-pipeline image `Filter` assembles (ImageProcessor.cs, lines
    119-141): the stage images side by side, stage i occupying columns
    [i * width, (i + 1) * width) of every row. */
module WholePipeline {
  import opened Pixels
  import opened Arithmetic

  /** Row y of every grid in `gs`, concatenated in order. */
  ghost function JoinedRow(gs: seq<Grid>, y: int): seq<Rgba>
  {
    if gs == [] then []
    else JoinedRow(gs[..|gs| - 1], y) + (if 0 <= y < |gs[|gs| - 1]| then gs[|gs| - 1][y] else [])
  }

  /** The grids of `gs`, each `width` by `height`, side by side. */
  ghost function SideBySide(gs: seq<Grid>, width: nat, height: nat): Grid
  {
    seq(height, y => JoinedRow(gs, y))
  }

  /** Column `i * width + x` of a joined row is column x of grid i, and the
      row is `|gs| * width` wide. */
  lemma {:induction false} JoinedRowAt(gs: seq<Grid>, width: nat, height: nat, y: int, i: int, x: int)
    requires forall k {:trigger gs[k]} :: 0 <= k < |gs| ==> IsGrid(gs[k], width, height)
    requires 0 <= y < height && 0 <= i < |gs| && 0 <= x < width
    ensures |JoinedRow(gs, y)| == |gs| * width
    ensures 0 <= i * width + x < |gs| * width
    ensures IsGrid(gs[i], width, height) && JoinedRow(gs, y)[i * width + x] == gs[i][y][x]
    decreases |gs|
  {
    var n := |gs| - 1;
    MulSucc(n, width);
    MulMonotone(i, n, width);
    if i < n {
      JoinedRowAt(gs[..n], width, height, y, i, x);
    } else {
      JoinedRowWidth(gs[..n], width, height, y);
    }
  }

  lemma {:induction false} JoinedRowWidth(gs: seq<Grid>, width: nat, height: nat, y: int)
    requires forall k {:trigger gs[k]} :: 0 <= k < |gs| ==> IsGrid(gs[k], width, height)
    requires 0 <= y < height
    ensures |JoinedRow(gs, y)| == |gs| * width
    decreases |gs|
  {
    if gs != [] {
      JoinedRowWidth(gs[..|gs| - 1], width, height, y);
      MulSucc(|gs| - 1, width);
    }
  }

  /** Every column c of the composite comes from grid `c / width`, column
      `c % width`: the layout is a bijection onto the stages' pixels. */
  lemma SideBySideAt(gs: seq<Grid>, width: nat, height: nat, y: int, c: int)
    requires forall k {:trigger gs[k]} :: 0 <= k < |gs| ==> IsGrid(gs[k], width, height)
    requires 0 <= y < height && 0 <= c < |gs| * width
    ensures width > 0 && 0 <= c / width < |gs|
    ensures IsGrid(SideBySide(gs, width, height), |gs| * width, height)
    ensures IsGrid(gs[c / width], width, height) && SideBySide(gs, width, height)[y][c] == gs[c / width][y][c % width]
  {
    if width == 0 {
      assert false;
    }
    var i, x := c / width, c % width;
    assert c == i * width + x;
    if i >= |gs| {
      MulMonotone(|gs|, i, width);
    }
    forall yy | 0 <= yy < height
      ensures |SideBySide(gs, width, height)[yy]| == |gs| * width
    {
      JoinedRowWidth(gs, width, height, yy);
    }
    JoinedRowAt(gs, width, height, y, i, x);
  }

  /** Copies row y of one stage into columns [offset, offset + width) of
      the composite; nothing else changes. */
  method CopyStageRow(pipeline: Image, stage: Image, y: int, offset: int, width: nat)
    requires pipeline != stage && 0 <= y < stage.Length0 == pipeline.Length0 && stage.Length1 == width
    requires 0 <= offset && offset + width <= pipeline.Length1
    modifies pipeline
    ensures forall x :: 0 <= x < width ==> pipeline[y, offset + x] == stage[y, x]
    ensures forall yy, c :: 0 <= yy < pipeline.Length0 && 0 <= c < pipeline.Length1 && (yy != y || c < offset || offset + width <= c) ==>
      pipeline[yy, c] == old(pipeline[yy, c])
  {
    for x := 0 to width
      invariant forall xx :: 0 <= xx < x ==> pipeline[y, offset + xx] == stage[y, xx]
      invariant forall yy, c :: 0 <= yy < pipeline.Length0 && 0 <= c < pipeline.Length1 && (yy != y || c < offset || offset + x <= c) ==>
        pipeline[yy, c] == old(pipeline[yy, c])
    {
      pipeline[y, x + offset] := stage[y, x];
    }
  }

  /** The copy loops: a new image `|stages| * width` wide holding the stages
      side by side. */
  method Composite(stages: seq<Image>, ghost gs: seq<Grid>, width: nat, height: nat) returns (pipeline: Image)
    requires |stages| == |gs|
    requires forall i :: 0 <= i < |stages| ==>
      stages[i].Length0 == height && stages[i].Length1 == width && Shows(stages[i], gs[i])
    ensures fresh(pipeline)
    ensures Shows(pipeline, SideBySide(gs, width, height))
  {
    var total := |stages| * width;
    forall yy | 0 <= yy < height
      ensures |JoinedRow(gs, yy)| == total
    {
      JoinedRowWidth(gs, width, height, yy);
    }
    pipeline := NewImage(total, height);
    for y := 0 to height
      invariant forall yy, c :: 0 <= yy < y && 0 <= c < total ==> pipeline[yy, c] == JoinedRow(gs, yy)[c]
    {
      var offset := 0;
      for i := 0 to |stages|
        invariant offset == i * width <= total
        invariant forall yy, c :: 0 <= yy < y && 0 <= c < total ==> pipeline[yy, c] == JoinedRow(gs, yy)[c]
        invariant forall c :: 0 <= c < offset ==> pipeline[y, c] == JoinedRow(gs, y)[c]
      {
        MulSucc(i, width);
        MulMonotone(i + 1, |stages|, width);
        CopyStageRow(pipeline, stages[i], y, offset, width);
        forall c | offset <= c < offset + width
          ensures pipeline[y, c] == JoinedRow(gs, y)[c]
        {
          assert pipeline[y, offset + (c - offset)] == stages[i][y, c - offset];
          JoinedRowAt(gs, width, height, y, i, c - offset);
        }
        offset := offset + width;
      }
    }
  }
}
