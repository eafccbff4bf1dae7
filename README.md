# Greenhouse++ plant image pipeline in Dafny

Greenhouse++ photographs plants and runs each photograph through a filter
pipeline. The pipeline produces the following images:
- an edge image (a Sobel kernel on the red channel, kept only for the accepted
  gradient orientations);
- red, green, leaf and earth masks, from colour ratios;
- a vertical blur of the edge image, and a high-pass threshold of the blur;
- a horizontally interpolated scan-line image of the pass image;
- a copy of the photograph with the longest vertical line of dark cells
  marked.

The pipeline also builds a per-channel histogram of the photograph. The work
is split into bands of rows, and one worker handles each band. The workers'
histograms are then merged, and the stage images are copied side by side into
one "whole pipeline" image. `Histogram.cs` holds the per-channel counts,
merges them in place, finds their maxima and draws bar charts of them.

This project models that core imperatively:
- Images are `array2<Rgba>` indexed `[y, x]`.
- A histogram is a class over three `array<nat>` counts.
- Each loop of the source is a method with its own loop invariants.

Each method is proved against a ghost specification function. These functions
repeat the loops' effect on a grid value (`seq<seq<Rgba>>`) pixel by pixel, and
lemmas state what the functions mean:
- which pixels change, and to what;
- what the results count;
- which orders of work give the same result.

Modules, one per file:

| module | file | models |
|---|---|---|
| `Pixels` | pixels.dfy | pixels, rectangles, images and their grid contents |
| `FilterConfig` | config.dfy | `FilterValues` |
| `FilterStages` | stages.dfy | the nine stage images of a run |
| `Partition` | partition.dfy | the band of rows each worker gets |
| `Histograms` | histogram.dfy | `Histogram.cs` |
| `Segmentation` | segmentation.dfy | `SobelFilterAndSegmentation` |
| `Painting` | painting.dfy | shared "paint a rectangle" specification helpers |
| `VerticalBlurring` | blur.dfy | `VerticalBlur` |
| `HighpassFilter` | highpass.dfy | `Highpass` |
| `Scanline` | scanline.dfy | `LongestVerticalLineCount` |
| `WholePipeline` | composite.dfy | the side-by-side composite |
| `Pipeline` | pipeline.dfy | `Filter`, `ApplyFilters` and the aggregate |
| `Arithmetic` | arithmetic.dfy | small multiplication and division facts |

## Model

| member | source | states |
|---|---|---|
| Pixels.NewImage | GreenhousePlusPlus.Core/Vision/ImageProcessor.cs:87-90 | a reserved image is a new buffer of the given width and height, with every pixel transparent |
| Pixels.Clone | GreenhousePlusPlus.Core/Vision/ImageProcessor.cs:283 | the clone is a new buffer of the same shape that holds exactly the source's pixels |
| Partition.RowStart | GreenhousePlusPlus.Core/Vision/ImageProcessor.cs:102 | a worker's first row always lies in the interior rows `[1, height - 1]` |
| Partition.RowEnd | GreenhousePlusPlus.Core/Vision/ImageProcessor.cs:104 | a worker's end row always lies in `[1, height - 1]` |
| Partition.SourceRowStart | GreenhousePlusPlus.Core/Vision/ImageProcessor.cs:102 | as written, no worker starts on row 0 and the first worker starts on row 1 |
| Partition.SourceRowEnd | GreenhousePlusPlus.Core/Vision/ImageProcessor.cs:104 | as written, the last worker stops at row `height - 1`, leaving the bottom row out |
| Partition.WorkerRect | GreenhousePlusPlus.Core/Vision/ImageProcessor.cs:99-105 | every worker rectangle leaves the one-pixel border the 3x3 kernel needs, in rows and in columns |
| Partition.RowStartMonotone | GreenhousePlusPlus.Core/Vision/ImageProcessor.cs:102 | later workers never start above earlier ones |
| Partition.RowRangeContiguous | GreenhousePlusPlus.Core/Vision/ImageProcessor.cs:99-105 | each band is well formed and inside the interior, and the next worker starts exactly where this one ends |
| Partition.RowRangesSpanInterior | GreenhousePlusPlus.Core/Vision/ImageProcessor.cs:99-105 | the first band starts at row 1 and the last ends at row `height - 1` |
| Partition.RowRangesDisjoint | GreenhousePlusPlus.Core/Vision/ImageProcessor.cs:99-105 | no row is handed to two workers |
| Partition.RowCovered | GreenhousePlusPlus.Core/Vision/ImageProcessor.cs:96-107 | every interior row is handed to some worker |
| Partition.SourceRowsAgree | GreenhousePlusPlus.Core/Vision/ImageProcessor.cs:93-105 | when the image has more rows than there are workers, the source's bands are exactly the corrected ones |
| Partition.SourceRowsOverrun | GreenhousePlusPlus.Core/Vision/ImageProcessor.cs:93-105 | as written, when the image has no more rows than there are workers, a worker other than the last is handed the bottom border row (finding 1) |
| Histograms.Count | GreenhousePlusPlus.Core/Vision/ImageProcessor.cs:243-245 | counting a pixel keeps 256 bins per channel |
| Histograms.CountAddsOne | GreenhousePlusPlus.Core/Vision/ImageProcessor.cs:243-245 | counting a pixel adds exactly one to each channel's total |
| Histograms.EmptyCountsNothing | Vision/Histogram.cs:9 | a new histogram has counted no pixel |
| Histograms.Merge | Vision/Histogram.cs:15-24 | the merge of two 256-bin histograms has 256 bins per channel |
| Histograms.MergeAddsCounts | Vision/Histogram.cs:15-24 | the merge counts as many pixels as its two operands together |
| Histograms.MergeCommutes | Vision/Histogram.cs:15-24 | merging is commutative |
| Histograms.MergeAssociates | Vision/Histogram.cs:15-24 | merging is associative |
| Histograms.Fold | GreenhousePlusPlus.Core/Vision/ImageProcessor.cs:145 | the aggregate of 256-bin histograms has 256 bins per channel |
| Histograms.FoldAddsCounts | GreenhousePlusPlus.Core/Vision/ImageProcessor.cs:145 | the aggregate counts the sum of the pixels each histogram counted |
| Histograms.FoldTakesAnyLast | GreenhousePlusPlus.Core/Vision/ImageProcessor.cs:145 | any one histogram may be merged last without changing the aggregate |
| Histograms.FoldAnyOrder | GreenhousePlusPlus.Core/Vision/ImageProcessor.cs:96-145 | the aggregate is the same whatever order the workers' histograms arrive in |
| Histograms.SeqMax | Vision/Histogram.cs:26-38 | the maximum is at least every count, is one of the counts, and is 0 for no counts |
| Histograms.MaxAll | Vision/Histogram.cs:46-47 | `maxAll` is at least every count of every channel |
| Histograms.BarHeight | Vision/Histogram.cs:52-54 | a bar is always lower than the chart |
| Histograms.BarHeightMonotone | Vision/Histogram.cs:52-54 | a bigger bin never draws a lower bar |
| Histograms.ChartPixel | Vision/Histogram.cs:52-83 | a chart pixel is transparent, the hue, the point colour or the legend grey; the bottom three rows are the legend; an empty bin draws nothing above the legend; in point mode the only pixel above the legend is the point colour on the bar's top row `height - bar - 1`; a filled bar holds the hue exactly from its top row down |
| Histograms.PlotBin | Vision/Histogram.cs:52-83 | plotting bin `i` draws exactly column `i` of the chart: the bar or its top point, then the grey legend band; nothing else changes |
| Histograms.DrawChart | Vision/Histogram.cs:42-83 | a chart is a new canvas where column `i` shows bin `i` and every other column is blank |
| Histograms.Histogram.constructor | Vision/Histogram.cs:7-13 | a new histogram has three fresh count arrays, all zero, and no charts |
| Histograms.Histogram.Add | Vision/Histogram.cs:15-24 | adds the other histogram's counts bin by bin into this one (also when the other histogram is this one) and returns this histogram |
| Histograms.Histogram.Max | Vision/Histogram.cs:26-38 | returns each channel's largest count |
| Histograms.Histogram.Draw | Vision/Histogram.cs:40-85 | the three charts are new canvases that show the source histogram's channels, scaled against the largest count of any channel |
| Segmentation.Gx | GreenhousePlusPlus.Core/Vision/ImageProcessor.cs:208-215 | the horizontal Sobel response is between -1020 and 1020 |
| Segmentation.Gy | GreenhousePlusPlus.Core/Vision/ImageProcessor.cs:217-223 | the vertical Sobel response is between -1020 and 1020 |
| Segmentation.CeilSqrt | GreenhousePlusPlus.Core/Vision/ImageProcessor.cs:229 | the magnitude is the least `m` with `s <= m * m` |
| Segmentation.CeilSqrtMonotone | GreenhousePlusPlus.Core/Vision/ImageProcessor.cs:229 | a larger sum of squares never has a smaller magnitude |
| Segmentation.MagnitudeBelow60 | GreenhousePlusPlus.Core/Vision/ImageProcessor.cs:229-234 | the test `mag < 60` holds exactly when `gx² + gy² <= 3481` |
| Segmentation.EdgeValue | GreenhousePlusPlus.Core/Vision/ImageProcessor.cs:226-241 | an edge level is 0 or in 196..255; it is white when the orientation is rejected, and for an accepted orientation it is black exactly when `gx² + gy² > 3481` |
| Segmentation.EdgeValueMonotone | GreenhousePlusPlus.Core/Vision/ImageProcessor.cs:229-236 | among accepted gradients a stronger one is never drawn lighter |
| Segmentation.UniformIsWhite | GreenhousePlusPlus.Core/Vision/ImageProcessor.cs:208-236 | a flat neighbourhood has no gradient and is drawn white when the zero gradient is accepted |
| Segmentation.VerticalStepIsBlack | GreenhousePlusPlus.Core/Vision/ImageProcessor.cs:208-236 | a full black-to-red vertical step has the largest horizontal response, no vertical one, and is drawn black when accepted |
| Segmentation.RedRatio | GreenhousePlusPlus.Core/Vision/ImageProcessor.cs:247 | the red ratio is above 1 exactly when red is strictly the largest channel, and is 1 exactly when red ties the larger of green and blue |
| Segmentation.GreenRatio | GreenhousePlusPlus.Core/Vision/ImageProcessor.cs:248 | the green ratio is above 1 exactly when green is strictly the largest channel, and is 1 exactly when green ties the larger of red and blue |
| Segmentation.RedDominant | GreenhousePlusPlus.Core/Vision/ImageProcessor.cs:249 | with a threshold of at least 1 only a pixel whose red is strictly the largest channel is red-dominant; with a threshold below 1 every pixel whose red is at least the other channels is |
| Segmentation.GreenDominant | GreenhousePlusPlus.Core/Vision/ImageProcessor.cs:250 | the same for green |
| Segmentation.RedMaskPixel | GreenhousePlusPlus.Core/Vision/ImageProcessor.cs:253-261 | the red mask pixel is the mark `(130, 69, 10)` exactly for red-dominant pixels and transparent otherwise |
| Segmentation.GreenMaskPixel | GreenhousePlusPlus.Core/Vision/ImageProcessor.cs:263-272 | the green mask pixel is the mark `(0, 255, 0)` exactly for green-dominant pixels and transparent otherwise |
| Segmentation.EarthPixel | GreenhousePlusPlus.Core/Vision/ImageProcessor.cs:263-272 | the earth pixel is transparent exactly for green-dominant pixels and otherwise the opaque photograph pixel; with a threshold of at least 1 every pixel whose green is not strictly the largest stays in the earth |
| Segmentation.LeafPixel | GreenhousePlusPlus.Core/Vision/ImageProcessor.cs:253-272 | the leaf pixel is the opaque photograph pixel for a green-dominant pixel, transparent for a red-dominant one that is not green-dominant, and otherwise left as it was |
| Segmentation.DominanceExclusive | GreenhousePlusPlus.Core/Vision/ImageProcessor.cs:248-251 | with both ratio thresholds at least 1, no pixel is both red- and green-dominant, so the two masks never overlap |
| Segmentation.GreyIsNeutral | GreenhousePlusPlus.Core/Vision/ImageProcessor.cs:248-267 | a grey pixel has both ratios 1: it is in neither colour mask and the earth image keeps it |
| Segmentation.LeafEarthPartition | GreenhousePlusPlus.Core/Vision/ImageProcessor.cs:254-274 | from a blank leaf image, each pixel's colour goes to exactly one of the leaf and earth images, and the green mask is set exactly where earth is cleared |
| Segmentation.RectBinsCounts | GreenhousePlusPlus.Core/Vision/ImageProcessor.cs:188-245 | a rectangle's histogram counts one pixel per cell of the rectangle in each channel |
| Segmentation.CountRowCounts | GreenhousePlusPlus.Core/Vision/ImageProcessor.cs:201-245 | counting part of a row adds one per column to each channel's total |
| Segmentation.CountRowsCounts | GreenhousePlusPlus.Core/Vision/ImageProcessor.cs:188-245 | counting rows adds one per cell of those rows to each channel's total |
| Segmentation.SegmentAtAt | GreenhousePlusPlus.Core/Vision/ImageProcessor.cs:236-274 | segmenting one pixel sets its five layer values from the source and its previous leaf value, and changes no other pixel |
| Segmentation.SegmentRowSpecAt | GreenhousePlusPlus.Core/Vision/ImageProcessor.cs:201-275 | segmenting a row sets exactly that row's visited pixels and leaves the rest |
| Segmentation.SegmentRectSpecAt | GreenhousePlusPlus.Core/Vision/ImageProcessor.cs:188-276 | segmenting a rectangle sets exactly its pixels, each from the source and what it held before, and leaves every pixel outside |
| Segmentation.Sobel | GreenhousePlusPlus.Core/Vision/ImageProcessor.cs:208-223 | the responses computed from the image are the kernel responses of its pixels |
| Segmentation.CountPixel | GreenhousePlusPlus.Core/Vision/ImageProcessor.cs:243-245 | the histogram afterwards holds one more pixel in its red, green and blue bins |
| Segmentation.ClassifyPixel | GreenhousePlusPlus.Core/Vision/ImageProcessor.cs:247-274 | the red, green, leaf and earth images change only at the pixel, to its mask values |
| Segmentation.SegmentPixel | GreenhousePlusPlus.Core/Vision/ImageProcessor.cs:203-274 | one more pixel of the row is segmented and counted |
| Segmentation.SegmentRow | GreenhousePlusPlus.Core/Vision/ImageProcessor.cs:191-275 | the row's pixels are segmented and counted, left to right |
| Segmentation.SegmentRows | GreenhousePlusPlus.Core/Vision/ImageProcessor.cs:188-276 | the rectangle's rows are segmented and counted, top to bottom |
| Segmentation.SobelFilterAndSegmentation | GreenhousePlusPlus.Core/Vision/ImageProcessor.cs:182-279 | the five layers show the rectangle segmented and nothing else changed; the result is a new histogram of the rectangle's pixels |
| VerticalBlurring.BlurValue | GreenhousePlusPlus.Core/Vision/ImageProcessor.cs:294 | the blurred level lies between the darkest and the brightest of the three levels it averages |
| VerticalBlurring.BlurRoundAt | GreenhousePlusPlus.Core/Vision/ImageProcessor.cs:286-297 | a round sets every pixel of the rectangle to the grey blurred level of the previous image, and leaves the pixels outside |
| VerticalBlurring.BlurredAt | GreenhousePlusPlus.Core/Vision/ImageProcessor.cs:281-301 | after any number of rounds, pixels outside the rectangle are unchanged, and after at least one round every pixel inside is grey |
| VerticalBlurring.UniformIsFixed | GreenhousePlusPlus.Core/Vision/ImageProcessor.cs:281-301 | an image of one grey level is left as it is by any number of rounds |
| VerticalBlurring.BlurRow | GreenhousePlusPlus.Core/Vision/ImageProcessor.cs:288-296 | one row of the rectangle is blurred from the previous image |
| VerticalBlurring.BlurPass | GreenhousePlusPlus.Core/Vision/ImageProcessor.cs:286-297 | one round of the blur over the rectangle |
| VerticalBlurring.VerticalBlur | GreenhousePlusPlus.Core/Vision/ImageProcessor.cs:281-301 | the destination holds the given number of rounds, each round reading a copy of the previous round's result (the edge image for the first) |
| HighpassFilter.PassLevel | GreenhousePlusPlus.Core/Vision/ImageProcessor.cs:311-315 | the level never darkens, is white or at most the threshold, and equals the input exactly when the input is at most the threshold or already white |
| HighpassFilter.PassLevelIdempotent | GreenhousePlusPlus.Core/Vision/ImageProcessor.cs:311-315 | thresholding a thresholded level changes nothing |
| HighpassFilter.HighpassedAt | GreenhousePlusPlus.Core/Vision/ImageProcessor.cs:305-319 | inside the rectangle each pixel is the opaque grey of its pass level (the source's level when the threshold is 255 or more); outside nothing changes |
| HighpassFilter.HighpassIdempotent | GreenhousePlusPlus.Core/Vision/ImageProcessor.cs:303-320 | running the filter on its own output gives that output again |
| HighpassFilter.HighpassRow | GreenhousePlusPlus.Core/Vision/ImageProcessor.cs:307-318 | one row of the rectangle is filtered |
| HighpassFilter.Highpass | GreenhousePlusPlus.Core/Vision/ImageProcessor.cs:303-320 | the destination is the high-pass of the source over the rectangle |
| Scanline.Darkness | GreenhousePlusPlus.Core/Vision/ImageProcessor.cs:359-363 | a window's darkness is between 0 and 255 per pixel |
| Scanline.Dense | GreenhousePlusPlus.Core/Vision/ImageProcessor.cs:355-368 | a cell is dense exactly when its window lies inside the row and the window's average darkness is above `255 * 0.25` |
| Scanline.DarknessOfUniform | GreenhousePlusPlus.Core/Vision/ImageProcessor.cs:359-363 | a window of one level `v` has darkness `(255 - v)` per pixel |
| Scanline.BlackWindowIsDense | GreenhousePlusPlus.Core/Vision/ImageProcessor.cs:357-368 | a black window is marked |
| Scanline.WhiteWindowIsSparse | GreenhousePlusPlus.Core/Vision/ImageProcessor.cs:357-368 | a white window is not marked |
| Scanline.InterpolatedAt | GreenhousePlusPlus.Core/Vision/ImageProcessor.cs:351-371 | the interpolation image is black exactly at marked pixels, white at the other visited ones, and unchanged outside the visited area |
| Scanline.WindowDarkness | GreenhousePlusPlus.Core/Vision/ImageProcessor.cs:357-363 | the inner loop sums the window's darkness |
| Scanline.InterpolateRow | GreenhousePlusPlus.Core/Vision/ImageProcessor.cs:353-370 | one row is marked in `vCount` and painted |
| Scanline.Interpolate | GreenhousePlusPlus.Core/Vision/ImageProcessor.cs:346-371 | `vCount` is a new array holding every mark, and the interpolation image is painted |
| Scanline.RunClosedAt | GreenhousePlusPlus.Core/Vision/ImageProcessor.cs:380-393 | when the scan meets an unmarked cell, the streak it counted is exactly the run that ends there |
| Scanline.LongestIsUnique | GreenhousePlusPlus.Core/Vision/ImageProcessor.cs:373-396 | at most one run fits the scan's choice, so the kept run is determined |
| Scanline.CellAboveBottom | GreenhousePlusPlus.Core/Vision/ImageProcessor.cs:351-368 | a marked cell lies at least five rows above the bottom row |
| Scanline.RunsClose | GreenhousePlusPlus.Core/Vision/ImageProcessor.cs:377-395 | every streak of marked cells is followed by a row inside the column, so the scan always closes it and no run is lost at the bottom |
| Scanline.ScanColumn | GreenhousePlusPlus.Core/Vision/ImageProcessor.cs:377-395 | after a column the kept run is at least as long as every closed run so far, and strictly longer than the earlier ones |
| Scanline.LongestRun | GreenhousePlusPlus.Core/Vision/ImageProcessor.cs:373-396 | the kept run is none, or a closed run no shorter than any other and strictly longer than every run before it in scan order |
| Scanline.LongestRunFits | GreenhousePlusPlus.Core/Vision/ImageProcessor.cs:399-408 | every cell of the kept run is dense, and the marker's four-pixel band lies inside the image |
| Scanline.MarkRowsAt | GreenhousePlusPlus.Core/Vision/ImageProcessor.cs:399-419 | drawing the marker tints each pixel once per band it lies in: once in the band, once more in a full-width row |
| Scanline.OneRunIsLongest | GreenhousePlusPlus.Core/Vision/ImageProcessor.cs:373-396 | with a single run in rows 20-29 of column 7, the scan keeps run (7, 20, 10) |
| Scanline.AsWrittenMarker | GreenhousePlusPlus.Core/Vision/ImageProcessor.cs:399-419 | as written, the marker changes nothing for a run that starts at or below row `Length` (finding 2) |
| Scanline.Marker | GreenhousePlusPlus.Core/Vision/ImageProcessor.cs:399-419 | the corrected marker changes nothing for an empty run; `MarkerCoversRun` states what it draws otherwise |
| Scanline.MarkerCoversRun | GreenhousePlusPlus.Core/Vision/ImageProcessor.cs:399-419 | the corrected marker leaves the rows outside the run alone and tints the run's four-pixel band; the run's last five rows are tinted full-width, so the band there is tinted twice |
| Scanline.TintSpan | GreenhousePlusPlus.Core/Vision/ImageProcessor.cs:404-408 | tints a span of one row, left to right |
| Scanline.MarkRun | GreenhousePlusPlus.Core/Vision/ImageProcessor.cs:399-419 | draws the marker's rows, top to bottom |
| Scanline.CopyInto | GreenhousePlusPlus.Core/Vision/ImageProcessor.cs:336-344 | the overlay holds exactly the photograph's pixels |
| Scanline.LongestVerticalLineCount | GreenhousePlusPlus.Core/Vision/ImageProcessor.cs:330-420 | the interpolation image is painted; the returned run is the longest closed run of dense cells; the overlay is the photograph with that run marked |
| WholePipeline.JoinedRowWidth | GreenhousePlusPlus.Core/Vision/ImageProcessor.cs:127 | a joined row is `stages * width` wide |
| WholePipeline.JoinedRowAt | GreenhousePlusPlus.Core/Vision/ImageProcessor.cs:133-139 | column `i * width + x` of a joined row is column `x` of stage `i` |
| WholePipeline.SideBySideAt | GreenhousePlusPlus.Core/Vision/ImageProcessor.cs:127-141 | every column `c` of the composite comes from stage `c / width`, column `c % width` |
| WholePipeline.CopyStageRow | GreenhousePlusPlus.Core/Vision/ImageProcessor.cs:133-140 | copies one stage row into its slot of the composite and changes nothing else |
| WholePipeline.Composite | GreenhousePlusPlus.Core/Vision/ImageProcessor.cs:119-141 | the composite is a new image holding the stages side by side |
| Pipeline.FitsInterior | GreenhousePlusPlus.Core/Vision/ImageProcessor.cs:98-105 | every pixel of a worker rectangle has the eight neighbours the kernel reads |
| Pipeline.WorkerAt | GreenhousePlusPlus.Core/Vision/ImageProcessor.cs:159-178 | one worker segments its rectangle's pixels, makes the pass pixel the high-pass of the blur pixel there, and changes nothing outside |
| Pipeline.NothingCovered | GreenhousePlusPlus.Core/Vision/ImageProcessor.cs:99-105 | no pixel is in a band before any worker runs |
| Pipeline.CoveredStep | GreenhousePlusPlus.Core/Vision/ImageProcessor.cs:99-105 | the bands of the first `i` workers are those of the first `i - 1` plus worker `i - 1`'s rectangle, which overlaps none of them |
| Pipeline.AllCovered | GreenhousePlusPlus.Core/Vision/ImageProcessor.cs:96-107 | once all workers have run, the bands are exactly the pixels with eight neighbours |
| Pipeline.CoveredInterior | GreenhousePlusPlus.Core/Vision/ImageProcessor.cs:99-105 | a pixel in a band has the eight neighbours the kernel reads |
| Pipeline.WorkersShape | GreenhousePlusPlus.Core/Vision/ImageProcessor.cs:96-107 | the workers keep every image's shape |
| Pipeline.LayersStep | GreenhousePlusPlus.Core/Vision/ImageProcessor.cs:96-107 | worker `i - 1` takes each layer pixel from its expected value after `i - 1` workers to its expected value after `i` |
| Pipeline.WorkersLayersAt | GreenhousePlusPlus.Core/Vision/ImageProcessor.cs:96-107 | after the first `i` workers, each pixel of their bands is segmented once from a blank pixel, and every other pixel is blank |
| Pipeline.ImagesStep | GreenhousePlusPlus.Core/Vision/ImageProcessor.cs:96-107 | one more worker keeps the blur/pass state expected of each pixel |
| Pipeline.WorkersImagesAt | GreenhousePlusPlus.Core/Vision/ImageProcessor.cs:96-107 | after the first `i` workers, pass is the high-pass of blur inside their bands, and both are blank outside them |
| Pipeline.FilterSegmentsInterior | GreenhousePlusPlus.Core/Vision/ImageProcessor.cs:72-107 | after all workers, exactly the pixels with eight neighbours are segmented, once each, and high-passed; the one-pixel border of every image stays blank |
| Pipeline.WorkerBins | GreenhousePlusPlus.Core/Vision/ImageProcessor.cs:106 | one 256-bin histogram per worker |
| Pipeline.WorkerBinsCount | GreenhousePlusPlus.Core/Vision/ImageProcessor.cs:96-107 | the first `i` workers' histograms together count one pixel per interior column of every row before worker `i`'s band |
| Pipeline.FilterCountsInterior | GreenhousePlusPlus.Core/Vision/ImageProcessor.cs:145 | the aggregated histogram counts each pixel with eight neighbours exactly once: `(height - 2) * (width - 2)` per channel |
| Pipeline.ApplyFilters | GreenhousePlusPlus.Core/Vision/ImageProcessor.cs:159-178 | segmentation, blur and high-pass of one rectangle, and a new histogram of its pixels |
| Pipeline.RunWorker | GreenhousePlusPlus.Core/Vision/ImageProcessor.cs:99-106 | worker `i`'s filters run and its histogram is appended to the results |
| Pipeline.RunWorkers | GreenhousePlusPlus.Core/Vision/ImageProcessor.cs:96-107 | every worker runs; result `k` is worker `k`'s histogram |
| Pipeline.Aggregate | GreenhousePlusPlus.Core/Vision/ImageProcessor.cs:145 | the aggregate holds the bin-by-bin sum of the results |
| Pipeline.NewStages | GreenhousePlusPlus.Core/Vision/ImageProcessor.cs:77-90 | nine new, distinct, blank images of the photograph's size |
| Pipeline.RunFilters | GreenhousePlusPlus.Core/Vision/ImageProcessor.cs:74-107 | the images are reserved and every worker runs over them |
| Pipeline.ScanAndCompose | GreenhousePlusPlus.Core/Vision/ImageProcessor.cs:109-141 | the scan-line stage runs on the pass image, then the five stages are composed, without touching the workers' images |
| Pipeline.Filter | GreenhousePlusPlus.Core/Vision/ImageProcessor.cs:72-157 | all workers' images, the scan-line outputs and the composite, and the histogram that sums the workers' histograms |

## Left out

- Loading and identifying the photograph (`Image.Load`, `Image.Identify`, the `FileStream`) is not modelled. The photograph is an image parameter `src`, together with its pixel grid.
- `Environment.ProcessorCount` is the parameter `threads`.
- Pipeline.Filter: `Parallel.For` runs the workers concurrently. Here they run one after another in index order, so three things are not modelled:
  - the race on `results.Add`;
  - the completion order of the histograms;
  - what a worker's blur reads from a neighbouring band that another worker is still writing.
  `Histograms.FoldAnyOrder` shows that the aggregated histogram does not depend on that order.
- Pipeline.FilterSegmentsInterior: the blur values inside a band are stated only as grey, with the pass image as their high-pass. Near a band boundary the blur reads rows that another worker wrote, so its exact values depend on the schedule and are not stated.
- Partition.RowStart: `(int)(i * chunks)`, with `chunks` a `double`, is taken as the exact floor of `i * height / threads`. Floating-point rounding of `chunks` is not modelled.
- The pipeline uses the corrected bands of finding 1. With more rows than workers they equal the source's bands (`Partition.SourceRowsAgree`).
- Segmentation.EdgeValue: the orientation test `atan2(gy, gx)` against `ThetaTheshold` is the function-typed parameter `orientationAccepts`, because floating-point trigonometry is not modelled.
- Segmentation.CeilSqrt: `Math.Ceiling(Math.Sqrt(s))` is taken as the exact integer ceiling square root; double rounding is not modelled.
- Segmentation.RedRatio: the colour ratios are exact reals, not doubles.
- Histograms.Histogram.Add: counts are unbounded `nat`, so overflow of the C# `int` counters is not modelled.
- Scanline.LongestVerticalLineCount: each pixel of the marker takes the colour `new Rgba32(200 / 255f, c.G / 2 / 255f, c.B / 2 / 255f)`. This float-to-byte blend is the parameter `tint`. The model states which pixels are tinted and how many times, not the resulting colour.
- Scanline.LongestVerticalLineCount: a window half-width below -5 (on an image taller than 10 rows) makes the source write `vCount` at a negative column, which throws. The model requires `InterpolationFits` instead of modelling the exception.
- Scanline.LongestVerticalLineCount: the overlay draws the corrected marker of finding 2: rows `[Y, Y + Length)`, with the full-width line over the run's last five rows, not the rows `[Y, Length)` of the source. Pipeline.ScanAndCompose and Pipeline.Filter inherit it.
- Scanline.RunsClose: nothing is left out here. Marked cells lie at least five rows above the bottom (`CellAboveBottom`), so every run of marks is closed by an unmarked row and the scan never loses one at the bottom of a column.
- Segmentation.SobelFilterAndSegmentation, VerticalBlurring.VerticalBlur and HighpassFilter.Highpass require their rectangle to fit the image, with the one-pixel border for the kernels. An out-of-range row span throws in the source; that exception is not modelled.
- Histograms.Histogram.Draw: the `System.Drawing.Bitmap` charts are `array2<Rgba>` canvases. Beyond the source's own arithmetic:
  - the bar height `(int)(count / (maxAll + 1.0) * height)` is taken exactly;
  - the canvas must be at least 256 pixels wide and 3 high, since `SetPixel` throws outside the bitmap.
- `Draw` takes the histogram to chart as the parameter `source`, where the source reads `filterResult.Histogram`.
- The `FilterResult` record's ten named image properties are the `Stages` record together with the composite image.
- The web front end, `ImageManager`, `Startup` and file paths are not part of this model.

## Findings

| source | as written | input that shows it | evidently intended | confidence | as-written member | corrected member |
|---|---|---|---|---|---|---|
| GreenhousePlusPlus.Core/Vision/ImageProcessor.cs:102-104 | a worker's band is `[(int)(i * chunks) + 1, (int)((i + 1) * chunks) ± 1)`; when the image has no more rows than there are workers, a worker other than the last gets row `height - 1`, and the Sobel kernel reads row `height`, outside the image | height 3, 4 workers: worker 2 gets rows [2, 3), and its kernel reads row 3 | the bands cover exactly rows `[1, height - 1)`, contiguous and disjoint | not executed | Partition.SourceRowsOverrun | Partition.RowRangeContiguous |
| GreenhousePlusPlus.Core/Vision/ImageProcessor.cs:399-411 | the marker runs over rows `[maxCol.Y, maxCol.Length)` and draws the full-width line where `y > maxCol.Length - 6`, mixing a row index with a length | a single run of dense cells in rows 20-29 of column 7: the scan keeps (7, 20, 10), and the marker draws nothing | the marker covers the run's rows `[Y, Y + Length)`, with the full-width line across its last five rows | not executed | Scanline.AsWrittenMarker | Scanline.MarkerCoversRun |
