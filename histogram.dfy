/** Histogram.cs: three per-channel arrays of counts, one bin per 8-bit value
    (`RGBArray.R`, `.G`, `.B`), with the in-place merge `Add`, the per-channel
    maximum `Max` and the bar-chart rendering `Draw`. */
module Histograms {
  import opened Pixels
  import opened Arithmetic

  /** `RGBArray.MAX`: one bin per channel value. */
  const BinCount: nat := 256

  /** `colorBandHeight`: the legend occupies the bottom `ColorBandHeight - 1`
      rows of each chart. */
  const ColorBandHeight: nat := 4

  /** The counts of a histogram as a value. */
  datatype Bins = Bins(red: seq<nat>, green: seq<nat>, blue: seq<nat>)
  {
    predicate Valid()
    {
      |red| == BinCount && |green| == BinCount && |blue| == BinCount
    }
  }

  /** `RGB`: one count per channel. */
  datatype Rgb = Rgb(r: nat, g: nat, b: nat)

  function Zeros(): (z: seq<nat>)
    ensures |z| == BinCount && forall i :: 0 <= i < BinCount ==> z[i] == 0
  {
    seq(BinCount, _ => 0)
  }

  /** A new histogram's counts. */
  function EmptyBins(): (e: Bins)
    ensures e.Valid()
  {
    Bins(Zeros(), Zeros(), Zeros())
  }

  /** The sum of a sequence of counts. */
  function Total(s: seq<nat>): nat
  {
    if s == [] then 0 else Total(s[..|s| - 1]) + s[|s| - 1]
  }

  /** Each channel of `b` holds `n` counts in all. */
  predicate Counts(b: Bins, n: nat)
  {
    Total(b.red) == n && Total(b.green) == n && Total(b.blue) == n
  }

  /** One pixel counted: its red value's bin of the red channel, its green
      value's bin of the green channel and its blue value's bin of the blue
      channel each go up by one. */
  function Count(b: Bins, p: Rgba): (c: Bins)
    requires b.Valid()
    ensures c.Valid()
  {
    Bins(b.red[p.r := b.red[p.r] + 1], b.green[p.g := b.green[p.g] + 1], b.blue[p.b := b.blue[p.b] + 1])
  }

  function SumSeqs(a: seq<nat>, b: seq<nat>): (s: seq<nat>)
    requires |a| == |b|
    ensures |s| == |a| && forall i :: 0 <= i < |a| ==> s[i] == a[i] + b[i]
  {
    seq(|a|, i requires 0 <= i < |a| => a[i] + b[i])
  }

  /** `Add` on values: the bin-by-bin sum of two histograms. */
  function Merge(a: Bins, b: Bins): (m: Bins)
    requires a.Valid() && b.Valid()
    ensures m.Valid()
  {
    Bins(SumSeqs(a.red, b.red), SumSeqs(a.green, b.green), SumSeqs(a.blue, b.blue))
  }

  /** `results.Aggregate(new Histogram(), (a, b) => a.Add(b))` on values. */
  function Fold(hs: seq<Bins>): (f: Bins)
    requires forall i :: 0 <= i < |hs| ==> hs[i].Valid()
    ensures f.Valid()
  {
    if hs == [] then EmptyBins() else Merge(Fold(hs[..|hs| - 1]), hs[|hs| - 1])
  }

  function RemoveAt<T>(s: seq<T>, j: nat): (r: seq<T>)
    requires j < |s|
    ensures |r| == |s| - 1
  {
    s[..j] + s[j + 1..]
  }

  /** The largest of a sequence of counts, 0 for none: `Math.Max` folded
      from 0. */
  function SeqMax(s: seq<nat>): (m: nat)
    ensures forall i :: 0 <= i < |s| ==> s[i] <= m
    ensures s == [] ==> m == 0
    ensures s != [] ==> m in s
  {
    if s == [] then 0
    else
      var prev := SeqMax(s[..|s| - 1]);
      assert s == s[..|s| - 1] + [s[|s| - 1]];
      if prev < s[|s| - 1] then s[|s| - 1] else prev
  }

  /** `maxAll`: the largest count in any bin of any channel. */
  function MaxAll(b: Bins): (m: nat)
    ensures forall i :: 0 <= i < |b.red| ==> b.red[i] <= m
    ensures forall i :: 0 <= i < |b.green| ==> b.green[i] <= m
    ensures forall i :: 0 <= i < |b.blue| ==> b.blue[i] <= m
  {
    MaxOfNat(MaxOfNat(SeqMax(b.blue), SeqMax(b.green)), SeqMax(b.red))
  }

  function MaxOfNat(a: nat, b: nat): nat
  {
    if a < b then b else a
  }

  /** `(int)((double)count / (double)(maxAll + 1) * height)`, the scaling
      taken exactly: the height of a bar, in rows. */
  function BarHeight(count: nat, maxAll: nat, height: nat): (r: nat)
    requires count <= maxAll
    ensures height > 0 ==> r < height
  {
    MulMonotone(count, maxAll, height);
    assert maxAll * height + height == height * (maxAll + 1);
    if height > 0 then
      DivBelow(count * height, maxAll + 1, height);
      count * height / (maxAll + 1)
    else 0
  }

  /** Bigger bins never draw lower bars. */
  lemma BarHeightMonotone(c1: nat, c2: nat, maxAll: nat, height: nat)
    requires c1 <= c2 <= maxAll
    ensures BarHeight(c1, maxAll, height) <= BarHeight(c2, maxAll, height)
  {
    MulMonotone(c1, c2, height);
    DivMonotone(c1 * height, c2 * height, maxAll + 1);
  }

  /** The colours of the three charts: `Color.FromArgb(255, 255, 0, 0)` and so on. */
  const RedHue := Rgba(255, 0, 0, 255)
  const GreenHue := Rgba(0, 255, 0, 255)
  const BlueHue := Rgba(0, 0, 255, 255)

  /** A point is drawn at alpha 125: `Color.FromArgb(125, 255, 0, 0)` and so on. */
  function PointColour(hue: Rgba): Rgba
  {
    hue.(a := 125)
  }

  /** Row `y` of column `i` of a channel's chart once `Draw` is done, where bin
      `i` holds `count`. The bottom `ColorBandHeight - 1` rows hold the legend,
      grey level `i`; above it, a point draws the bar's top row only, and a
      filled bar draws from its top row down to row `height - 2`. */
  function ChartPixel(count: nat, maxAll: nat, height: nat, pointMode: bool, hue: Rgba, i: Byte, y: int): (c: Rgba)
    requires count <= maxAll
    ensures c == Transparent || c == hue || c == PointColour(hue) || c == Grey(i)
    ensures height - (ColorBandHeight - 1) <= y ==> c == Grey(i)
    ensures count == 0 && y < height - (ColorBandHeight - 1) ==> c == Transparent
    ensures pointMode && y < height - (ColorBandHeight - 1) ==>
      c == (if y == height - BarHeight(count, maxAll, height) - 1 then PointColour(hue) else Transparent)
    ensures !pointMode && hue != Transparent && y < height - (ColorBandHeight - 1) ==>
      (c == hue <==> height - BarHeight(count, maxAll, height) - 1 <= y)
  {
    var top := height - BarHeight(count, maxAll, height) - 1;
    if height - (ColorBandHeight - 1) <= y then Grey(i)
    else if pointMode then (if y == top then PointColour(hue) else Transparent)
    else if top <= y < height - 1 then hue
    else Transparent
  }

  /** `canvas` is the chart of `counts`, scaled against `maxAll`: column `i` is
      bin `i`'s bar and every column past the last bin is untouched. */
  ghost predicate IsChart(canvas: Image, counts: seq<nat>, maxAll: nat, pointMode: bool, hue: Rgba)
    reads canvas
  {
    |counts| == BinCount && BinCount <= canvas.Length1 &&
    (forall i :: 0 <= i < BinCount ==> counts[i] <= maxAll) &&
    forall y, x :: 0 <= y < canvas.Length0 && 0 <= x < canvas.Length1 ==>
      canvas[y, x] == if x < BinCount then ChartPixel(counts[x], maxAll, canvas.Length0, pointMode, hue, x, y)
                      else Transparent
  }

  /** Draws bin `i` of one channel: the bar (or point), then the legend band
      below it. */
  method PlotBin(canvas: Image, i: nat, count: nat, maxAll: nat, pointMode: bool, hue: Rgba)
    requires i < BinCount <= canvas.Length1 && ColorBandHeight - 1 <= canvas.Length0
    requires count <= maxAll
    requires forall y :: 0 <= y < canvas.Length0 ==> canvas[y, i] == Transparent
    modifies canvas
    ensures forall y, x :: 0 <= y < canvas.Length0 && 0 <= x < canvas.Length1 ==>
      canvas[y, x] == if x == i then ChartPixel(count, maxAll, canvas.Length0, pointMode, hue, i, y)
                      else old(canvas[y, x])
  {
    var height := canvas.Length0;
    var r := BarHeight(count, maxAll, height);
    if pointMode {
      canvas[height - r - 1, i] := PointColour(hue);
    } else {
      for y := height - r - 1 to height - 1
        invariant forall yy, x :: 0 <= yy < height && 0 <= x < canvas.Length1 ==>
          canvas[yy, x] == if x == i && height - r - 1 <= yy < y then hue else old(canvas[yy, x])
      {
        canvas[y, i] := hue;
      }
    }
    for j := 1 to ColorBandHeight
      invariant forall yy, x :: 0 <= yy < height && 0 <= x < canvas.Length1 ==>
        canvas[yy, x] == if x == i && height - j < yy then Grey(i)
                         else if x == i && pointMode then (if yy == height - r - 1 then PointColour(hue) else Transparent)
                         else if x == i then (if height - r - 1 <= yy < height - 1 then hue else Transparent)
                         else old(canvas[yy, x])
    {
      canvas[height - j, i] := Grey(i);
    }
  }

  /** One channel's chart: a fresh `width` by `height` canvas with every bin
      plotted. */
  method DrawChart(counts: seq<nat>, maxAll: nat, pointMode: bool, hue: Rgba, width: nat, height: nat)
    returns (canvas: Image)
    requires |counts| == BinCount && forall i :: 0 <= i < BinCount ==> counts[i] <= maxAll
    requires BinCount <= width && ColorBandHeight - 1 <= height
    ensures fresh(canvas) && canvas.Length0 == height && canvas.Length1 == width
    ensures IsChart(canvas, counts, maxAll, pointMode, hue)
  {
    canvas := NewImage(width, height);
    for i := 0 to BinCount
      invariant forall y, x :: 0 <= y < height && 0 <= x < width ==>
        canvas[y, x] == if x < i then ChartPixel(counts[x], maxAll, height, pointMode, hue, x, y) else Transparent
    {
      PlotBin(canvas, i, counts[i], maxAll, pointMode, hue);
    }
  }

  /** Total(s) changes by exactly the change to one of its entries. */
  lemma {:induction false} TotalUpdate(s: seq<nat>, v: nat, c: nat)
    requires v < |s|
    ensures Total(s[v := c]) + s[v] == Total(s) + c
  {
    var n := |s|;
    if v < n - 1 {
      assert s[v := c][..n - 1] == s[..n - 1][v := c];
      TotalUpdate(s[..n - 1], v, c);
    } else {
      assert s[v := c][..n - 1] == s[..n - 1];
    }
  }

  /** Counting a pixel adds exactly one to each channel's total. */
  lemma CountAddsOne(b: Bins, p: Rgba, n: nat)
    requires b.Valid() && Counts(b, n)
    ensures Counts(Count(b, p), n + 1)
  {
    TotalUpdate(b.red, p.r, b.red[p.r] + 1);
    TotalUpdate(b.green, p.g, b.green[p.g] + 1);
    TotalUpdate(b.blue, p.b, b.blue[p.b] + 1);
  }

  lemma {:induction false} TotalOfSum(a: seq<nat>, b: seq<nat>)
    requires |a| == |b|
    ensures Total(SumSeqs(a, b)) == Total(a) + Total(b)
  {
    if a != [] {
      var n := |a|;
      assert SumSeqs(a, b)[..n - 1] == SumSeqs(a[..n - 1], b[..n - 1]);
      TotalOfSum(a[..n - 1], b[..n - 1]);
    }
  }

  lemma {:induction false} TotalOfZeros(s: seq<nat>)
    requires forall i :: 0 <= i < |s| ==> s[i] == 0
    ensures Total(s) == 0
  {
    if s != [] {
      TotalOfZeros(s[..|s| - 1]);
    }
  }

  /** A new histogram has counted nothing. */
  lemma EmptyCountsNothing()
    ensures Counts(EmptyBins(), 0)
  {
    TotalOfZeros(Zeros());
  }

  /** Merging adds the numbers of pixels counted. */
  lemma MergeAddsCounts(a: Bins, b: Bins, m: nat, n: nat)
    requires a.Valid() && b.Valid() && Counts(a, m) && Counts(b, n)
    ensures Counts(Merge(a, b), m + n)
  {
    TotalOfSum(a.red, b.red);
    TotalOfSum(a.green, b.green);
    TotalOfSum(a.blue, b.blue);
  }

  /** Folding histograms that counted `ns[i]` pixels each gives one that
      counted `Total(ns)` pixels. */
  lemma {:induction false} FoldAddsCounts(hs: seq<Bins>, ns: seq<nat>)
    requires |hs| == |ns|
    requires forall i :: 0 <= i < |hs| ==> hs[i].Valid() && Counts(hs[i], ns[i])
    ensures Counts(Fold(hs), Total(ns))
  {
    if hs == [] {
      EmptyCountsNothing();
    } else {
      var n := |hs|;
      FoldAddsCounts(hs[..n - 1], ns[..n - 1]);
      MergeAddsCounts(Fold(hs[..n - 1]), hs[n - 1], Total(ns[..n - 1]), ns[n - 1]);
    }
  }

  lemma MergeCommutes(a: Bins, b: Bins)
    requires a.Valid() && b.Valid()
    ensures Merge(a, b) == Merge(b, a)
  {
    assert SumSeqs(a.red, b.red) == SumSeqs(b.red, a.red);
    assert SumSeqs(a.green, b.green) == SumSeqs(b.green, a.green);
    assert SumSeqs(a.blue, b.blue) == SumSeqs(b.blue, a.blue);
  }

  lemma MergeAssociates(a: Bins, b: Bins, c: Bins)
    requires a.Valid() && b.Valid() && c.Valid()
    ensures Merge(Merge(a, b), c) == Merge(a, Merge(b, c))
  {
    assert SumSeqs(SumSeqs(a.red, b.red), c.red) == SumSeqs(a.red, SumSeqs(b.red, c.red));
    assert SumSeqs(SumSeqs(a.green, b.green), c.green) == SumSeqs(a.green, SumSeqs(b.green, c.green));
    assert SumSeqs(SumSeqs(a.blue, b.blue), c.blue) == SumSeqs(a.blue, SumSeqs(b.blue, c.blue));
  }

  /** The fold may take any one histogram last. */
  lemma {:induction false} FoldTakesAnyLast(hs: seq<Bins>, j: nat)
    requires j < |hs| && forall i :: 0 <= i < |hs| ==> hs[i].Valid()
    ensures Fold(hs) == Merge(Fold(RemoveAt(hs, j)), hs[j])
  {
    var n := |hs|;
    if j < n - 1 {
      var rest := RemoveAt(hs, j);
      assert rest[..n - 2] == RemoveAt(hs[..n - 1], j);
      assert rest[n - 2] == hs[n - 1];
      FoldTakesAnyLast(hs[..n - 1], j);
      var f := Fold(RemoveAt(hs[..n - 1], j));
      calc {
        Fold(hs);
        Merge(Fold(hs[..n - 1]), hs[n - 1]);
        Merge(Merge(f, hs[j]), hs[n - 1]);
        { MergeAssociates(f, hs[j], hs[n - 1]); MergeCommutes(hs[j], hs[n - 1]); }
        Merge(f, Merge(hs[n - 1], hs[j]));
        { MergeAssociates(f, hs[n - 1], hs[j]); }
        Merge(Merge(f, hs[n - 1]), hs[j]);
        Merge(Fold(rest), hs[j]);
      }
    } else {
      assert RemoveAt(hs, j) == hs[..n - 1];
    }
  }

  /** Taking the same element out of two sequences with equal multisets
      leaves equal multisets. */
  lemma RemoveMatching<T>(s: seq<T>, t: seq<T>, j: nat)
    requires multiset(s) == multiset(t) && s != [] && j < |t| && t[j] == s[|s| - 1]
    ensures multiset(s[..|s| - 1]) == multiset(RemoveAt(t, j))
  {
    assert s == s[..|s| - 1] + [s[|s| - 1]];
    assert multiset(s) == multiset(s[..|s| - 1]) + multiset{s[|s| - 1]};
    assert t == t[..j] + [t[j]] + t[j + 1..];
    assert multiset(t) == multiset(t[..j]) + multiset{t[j]} + multiset(t[j + 1..]);
    assert multiset(RemoveAt(t, j)) == multiset(t[..j]) + multiset(t[j + 1..]);
    assert multiset(RemoveAt(t, j)) == multiset(t) - multiset{t[j]};
    assert multiset(s[..|s| - 1]) == multiset(s) - multiset{s[|s| - 1]};
  }

  /** The merged histogram does not depend on the order in which the workers'
      histograms arrive. */
  lemma {:induction false} FoldAnyOrder(hs: seq<Bins>, ks: seq<Bins>)
    requires multiset(hs) == multiset(ks)
    requires forall i :: 0 <= i < |hs| ==> hs[i].Valid()
    requires forall i :: 0 <= i < |ks| ==> ks[i].Valid()
    ensures Fold(hs) == Fold(ks)
  {
    if hs != [] {
      var n := |hs|;
      assert hs[n - 1] in multiset(ks);
      var j :| 0 <= j < |ks| && ks[j] == hs[n - 1];
      RemoveMatching(hs, ks, j);
      var rest := RemoveAt(ks, j);
      assert forall i :: 0 <= i < |rest| ==> rest[i] in multiset(ks);
      FoldAnyOrder(hs[..n - 1], rest);
      FoldTakesAnyLast(ks, j);
    }
  }

  class Histogram {
    /** `RGBArray.R`, `.G` and `.B`. */
    const red: array<nat>
    const green: array<nat>
    const blue: array<nat>

    /** The charts `Draw` renders. */
    var histogramR: array2?<Rgba>
    var histogramG: array2?<Rgba>
    var histogramB: array2?<Rgba>

    ghost predicate Valid()
    {
      red.Length == BinCount && green.Length == BinCount && blue.Length == BinCount &&
      red != green && red != blue && green != blue
    }

    /** The counts held now. */
    ghost function Value(): (b: Bins)
      reads red, green, blue
      requires Valid()
      ensures b.Valid()
    {
      Bins(red[..], green[..], blue[..])
    }

    constructor ()
      ensures Valid() && Value() == EmptyBins()
      ensures fresh(red) && fresh(green) && fresh(blue)
      ensures histogramR == null && histogramG == null && histogramB == null
    {
      red := new nat[BinCount](_ => 0);
      green := new nat[BinCount](_ => 0);
      blue := new nat[BinCount](_ => 0);
      histogramR, histogramG, histogramB := null, null, null;
      new;
      assert red[..] == Zeros() && green[..] == Zeros() && blue[..] == Zeros();
    }

    /** Adds `other`'s counts into this histogram, bin by bin, and returns this
      histogram. `other` may be this histogram itself (its counts double). */
    method Add(other: Histogram) returns (self: Histogram)
      requires Valid() && other.Valid()
      requires other == this || {red, green, blue} !! {other.red, other.green, other.blue}
      modifies red, green, blue
      ensures self == this && Valid()
      ensures Value() == Merge(old(Value()), old(other.Value()))
    {
      for i := 0 to BinCount
        invariant forall k :: 0 <= k < i ==>
          red[k] == old(red[k]) + old(other.red[k]) && green[k] == old(green[k]) + old(other.green[k]) &&
          blue[k] == old(blue[k]) + old(other.blue[k])
        invariant forall k :: i <= k < BinCount ==>
          red[k] == old(red[k]) && green[k] == old(green[k]) && blue[k] == old(blue[k]) &&
          other.red[k] == old(other.red[k]) && other.green[k] == old(other.green[k]) &&
          other.blue[k] == old(other.blue[k])
      {
        red[i] := red[i] + other.red[i];
        green[i] := green[i] + other.green[i];
        blue[i] := blue[i] + other.blue[i];
      }
      assert red[..] == SumSeqs(old(red[..]), old(other.red[..]));
      assert green[..] == SumSeqs(old(green[..]), old(other.green[..]));
      assert blue[..] == SumSeqs(old(blue[..]), old(other.blue[..]));
      self := this;
    }

    /** The largest count of each channel. */
    method Max() returns (max: Rgb)
      requires Valid()
      ensures max == Rgb(SeqMax(red[..]), SeqMax(green[..]), SeqMax(blue[..]))
    {
      max := Rgb(0, 0, 0);
      for i := 0 to BinCount
        invariant max == Rgb(SeqMax(red[..i]), SeqMax(green[..i]), SeqMax(blue[..i]))
      {
        assert red[..i + 1][..i] == red[..i] && green[..i + 1][..i] == green[..i] && blue[..i + 1][..i] == blue[..i];
        max := Rgb(MaxOfNat(max.r, red[i]), MaxOfNat(max.g, green[i]), MaxOfNat(max.b, blue[i]));
      }
      assert red[..BinCount] == red[..] && green[..BinCount] == green[..] && blue[..BinCount] == blue[..];
    }

    /** Renders the charts of `source`'s three channels, each `width` by
      `height`, into this histogram's three fresh canvases; bars are scaled so
      that the largest count of any channel stays below the top row. */
    method Draw(source: Histogram, pointMode: bool, width: nat, height: nat)
      requires source.Valid()
      requires BinCount <= width && ColorBandHeight - 1 <= height
      modifies this
      ensures fresh(histogramR) && fresh(histogramG) && fresh(histogramB)
      ensures histogramR.Length0 == histogramG.Length0 == histogramB.Length0 == height
      ensures histogramR.Length1 == histogramG.Length1 == histogramB.Length1 == width
      ensures IsChart(histogramR, source.red[..], MaxAll(source.Value()), pointMode, RedHue)
      ensures IsChart(histogramG, source.green[..], MaxAll(source.Value()), pointMode, GreenHue)
      ensures IsChart(histogramB, source.blue[..], MaxAll(source.Value()), pointMode, BlueHue)
    {
      var max := source.Max();
      var maxAll := MaxOfNat(MaxOfNat(max.b, max.g), max.r);
      assert maxAll == MaxAll(source.Value());
      var canvasR := DrawChart(source.red[..], maxAll, pointMode, RedHue, width, height);
      var canvasG := DrawChart(source.green[..], maxAll, pointMode, GreenHue, width, height);
      var canvasB := DrawChart(source.blue[..], maxAll, pointMode, BlueHue, width, height);
      histogramR, histogramG, histogramB := canvasR, canvasG, canvasB;
    }
  }
}
