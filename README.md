# roof_area core, modelled in Dafny

roof_area estimates building roof areas from aerial rasters. This project models its core as Dafny definitions and proves properties of them:

- the tile windower that walks a raster in overlapping windows;
- the evaluation metrics that compare a predicted roof mask with rasterized ground-truth footprints (IoU, Dice, area errors), plus the report path and the "inf" token;
- the per-roof quality scores (shadow score, edge confidence, shadow flag);
- the metric-area computation and the metric-CRS check;
- the heuristic baseline inference: band selection, gradient thresholding, masking by building footprints, and the dispatch and error order of `run_inference`;
- bounding-box reprojection, and the AOI short-circuit of the pipeline.

One module per source file:

- `Tiling` (tiling.dfy)
- `Eval` (eval.dfy)
- `Quality` (quality.dfy)
- `Area` (area.dfy)
- `Infer` (infer.dfy)
- `Vector` (vector.dfy)
- `Pipeline` (pipeline.dfy)

They share these modules:

- `Wrappers`: `Option`/`Result`.
- `Masks`: flattened row-major boolean masks, their cell count, and pointwise AND and OR.
- `Means`: sum, mean, max and min of reals.
- `Arith`: small lemmas on natural-number products and division.
- `Paths`: the part of pathlib that `with_suffix("")` uses.
- `CrsModel`: CRS values, and the `CRS | str` input form.
- `Geometry`:
  - geometry cells;
  - the `_iter_polygons` generator, which appears verbatim in both eval.py and infer.py and is modelled once;
  - `to_crs`;
  - the union of polygon interiors on a grid.

Numbers are Dafny `real`s and `int`s. The one float infinity the code produces, the relative area error, is a tag of its own.

Foreign library calls are function parameters:

- pyproj `CRS.from_user_input`;
- `Transformer.from_crs`;
- reprojecting one polygon;
- the rasterizer's pixel-inside-polygon test;
- the cv2 gradient-magnitude chain;
- `gpd.read_file`.

Python's default arguments are Dafny default parameter values: `overlap=0`, `darkness_threshold=0.3`, `threshold=0.4`, `pixel_area_m2=1.0` and `target_crs="EPSG:3857"`. The keyword-only `target_crs` becomes the last parameter of `Area.EnsureMetricCrs`, after the parser.

`iter_windows` and `_mask_by_footprints` change state step by step, so they are Dafny methods with loops. Each is proved equal to a specification function, and the properties are lemmas about that function. `_mask_by_footprints` ORs into a fresh array in place, as `output_mask |= base_mask & geometry_mask` does.

Where the documentation and the code disagree, the model follows the code:

- For a 5 × 4 grid with tile 3 and overlap 1, the code's last window starts at (4, 2) and is 1 wide and 2 high.
- tests/test_tiling.py:39-40 expects it to be 2 wide and 1 high.
- `Tiling.FiveByFourTiles` proves what the code yields.

## Model

| member | source | states |
|---|---|---|
| Tiling.NormalizeTileSize | roof_area/preprocess/tiling.py:12-15 | An int tile size becomes a square pair (side, side); a pair is kept as given. |
| Tiling.MultipleBelow | roof_area/preprocess/tiling.py:31-32 | `range(0, n, d)` has an element i·d exactly when i < ceil(n / d). |
| Tiling.Windows | roof_area/preprocess/tiling.py:28-35 | The window sequence has ceil(H / step_y) · ceil(W / step_x) elements. |
| Tiling.IterWindows | roof_area/preprocess/tiling.py:18-35 | Fails exactly when the overlap (0 by default) reaches the tile width or the tile height. Otherwise the two nested loops yield the row-major window sequence `Windows`, of length ceil(H / step_y) · ceil(W / step_x). |
| Tiling.WindowAt | roof_area/preprocess/tiling.py:31-35 | The window at loop row j and column i is element j·nx + i: it starts at (i·step_x, j·step_y) and is clipped to min(tile, remaining) in each dimension. |
| Tiling.WindowIndex | roof_area/preprocess/tiling.py:31-35 | Window k is the one at grid row k / nx and column k % nx. |
| Tiling.WindowsInBounds | roof_area/preprocess/tiling.py:31-35 | Every window starts inside the grid at a multiple of its stride and ends within the grid; it is no larger than the tile, and with overlap ≥ 0 at least one pixel in each direction. |
| Tiling.EveryMultipleIsAnOrigin | roof_area/preprocess/tiling.py:31-32 | Every stride multiple inside the grid is the origin of some window. |
| Tiling.WindowsRowMajor | roof_area/preprocess/tiling.py:31-32 | Windows come strictly in order: by row offset, then by column offset. |
| Tiling.WindowsCover | roof_area/preprocess/tiling.py:31-35 | With overlap ≥ 0, every pixel of the grid lies in some window. |
| Tiling.FiveByFourTiles | tests/test_tiling.py:29-40 | 5 × 4 grid, tile 3, overlap 1: six windows. The first is (0, 0, 3, 3). The last is (4, 2, 1, 2), which is not the 2 × 1 the test expects. |
| Eval.Abs | roof_area/metrics/eval.py:75 | `abs`: non-negative and equal to x or −x. |
| Eval.IouOf | roof_area/metrics/eval.py:62-65 | The IoU ratio lies in [0, 1] and is 1.0 when the union is empty. |
| Eval.DiceOf | roof_area/metrics/eval.py:67-71 | The Dice ratio lies in [0, 1] and is 1.0 when the denominator is 0. |
| Eval.ScoreFractions | roof_area/metrics/eval.py:60-71 | IoU · union = intersection and Dice · (count(P) + count(G)) = 2 · intersection whenever the denominators are positive. |
| Eval.PerfectIouOf | roof_area/metrics/eval.py:62-65 | The IoU ratio is 1.0 exactly when intersection equals union. |
| Eval.DiceOfIouOf | roof_area/metrics/eval.py:60-71 | Dice = 2·IoU / (1 + IoU), and IoU ≤ Dice. |
| Eval.Iou | roof_area/metrics/eval.py:60-65 | Mask IoU lies in [0, 1] and is 1.0 for two empty masks. |
| Eval.Dice | roof_area/metrics/eval.py:60-71 | Mask Dice lies in [0, 1] and is 1.0 for two empty masks. |
| Eval.RelAreaError | roof_area/metrics/eval.py:76-79 | The result is +inf exactly when the ground-truth area is 0 and the predicted area is not. It is 0 when both are 0, and finite and non-negative when the ground-truth area is positive. |
| Eval.RelErrorRatio | roof_area/metrics/eval.py:79 | With a non-zero ground-truth area, the relative error times that area is the absolute error. |
| Eval.RelErrorScaleFree | roof_area/metrics/eval.py:73-79 | Scaling both areas by the same positive factor leaves the relative error unchanged. |
| Eval.ComputeMetrics | roof_area/metrics/eval.py:51-88 | Builds the record from the mask IoU and Dice, each area as cell count × pixel area (1.0 by default), the absolute difference and the relative error. |
| Eval.OverlapSymmetric | roof_area/metrics/eval.py:60-71 | IoU and Dice do not depend on which mask is the prediction. |
| Eval.PerfectIou | roof_area/metrics/eval.py:60-65 | IoU is 1.0 exactly when the two masks are identical. |
| Eval.IdenticalMasks | roof_area/metrics/eval.py:51-88 | A mask against itself: IoU = Dice = 1, absolute error 0, relative error 0, for every pixel area. |
| Eval.DisjointMasks | roof_area/metrics/eval.py:60-71 | Disjoint masks that are not both empty score IoU = Dice = 0. |
| Eval.DiceFromIou | roof_area/metrics/eval.py:60-71 | On masks, Dice · (1 + IoU) = 2 · IoU, and IoU ≤ Dice. |
| Eval.RelErrorIsPixelFree | roof_area/metrics/eval.py:73-79 | For a positive pixel area, the relative error is that of the raw cell counts. |
| Eval.RasterizeGroundTruth | roof_area/metrics/eval.py:25-48 | An empty file gives the all-false grid whatever the CRSs. Otherwise it fails exactly when the file has no CRS (GroundTruthMissingCrs, checked first) or the reference raster has none (ReferenceMissingCrs, the ValueError of `to_crs(None)`). Every result has rows · cols cells. |
| Eval.GroundTruthPixels | roof_area/metrics/eval.py:36-48 | With rows, a source CRS and a reference CRS, a pixel is set exactly when some source polygon, reprojected to the reference CRS, covers it. A file of only null or non-polygon rows gives all false. |
| Eval.DefaultReportPath | roof_area/metrics/eval.py:130-132 | On a path in pathlib's normal form: fails exactly when the name is empty or ".". Otherwise it is the path without its last suffix plus "_eval_report.md", and that base plus the suffix is the original path. |
| Eval.FormatMetric | roof_area/metrics/eval.py:135-138 | +inf is written "inf"; a finite value is written in the 4-decimal form. |
| Eval.InfTokenOnlyForInfinity | roof_area/metrics/eval.py:135-138 | The text is "inf" exactly when the value is infinite, provided 4-decimal renderings always contain a '.'. |
| Quality.ShadowScore | roof_area/metrics/quality.py:6-21 | The score lies in [0, 1] and is 0.0 when the mask selects nothing. The darkness threshold defaults to 0.3. |
| Quality.ShadowScoreFraction | roof_area/metrics/quality.py:15-21 | With pixels selected, score × selected count = the number of dark selected pixels. |
| Quality.AllDark | roof_area/metrics/quality.py:15-21 | The score is 1.0 exactly when something is selected and every selected pixel is dark. |
| Quality.ShadowScoreOrder | roof_area/metrics/quality.py:20-21 | Under one mask, more dark selected pixels exactly when a higher score. |
| Quality.ThresholdIsInclusive | roof_area/metrics/quality.py:20 | A pixel equal to the threshold counts as dark. |
| Quality.DefaultDarknessThreshold | roof_area/metrics/quality.py:9-20 | At the default threshold a single masked pixel of 0.3 scores 1.0 and one of 0.31 scores 0.0. |
| Quality.ShadowScoreExample | tests/test_shadow_score.py:6-36 | The test's 4 × 4 grids at threshold 0.2 score 0.25 and 1.0. |
| Quality.EdgeCharacterization | roof_area/metrics/quality.py:30-36 | An edge cell is a set cell with some 4-neighbour unset or off the grid. Set cells split into edge and interior cells. |
| Quality.EdgeAbove | roof_area/metrics/quality.py:30-36 | Walking up a column from any set cell reaches an edge cell. |
| Quality.NoEdgeValuesBelow | roof_area/metrics/quality.py:36-40 | Gathering the edge probabilities below index k gives nothing exactly when no cell below k is an edge. |
| Quality.EdgeValuesAreEdgeProbabilities | roof_area/metrics/quality.py:36-40 | Every gathered value is the probability of some edge cell. |
| Quality.EdgeValuesCoverBelow | roof_area/metrics/quality.py:36-40 | Every edge cell whose row-major index is below k has its probability among the values gathered below k. |
| Quality.EdgeValuesCountBelow | roof_area/metrics/quality.py:36-40 | The values gathered below k are exactly as many as the edge cells below k. |
| Quality.EdgeValuesComplete | roof_area/metrics/quality.py:36-40 | `probability[edge]` has one value per edge cell of the whole grid, and every edge cell's probability is among them. |
| Quality.EdgeValuesEmpty | roof_area/metrics/quality.py:36-38 | No edge value is gathered exactly when the mask has no set cell. |
| Quality.EdgeConfidence | roof_area/metrics/quality.py:24-40 | The result is 0.0 for a mask with no set cell. With a set cell, the grid is non-empty, some edge value is gathered, and the result is the mean of the gathered edge probabilities. |
| Quality.EdgeConfidenceBounds | roof_area/metrics/quality.py:40 | Probabilities in [0, 1] give a confidence in [0, 1]. |
| Quality.EdgeConfidenceExample | tests/test_edge_confidence.py:6-30 | The test's 5 × 5 mask gathers [0.2, 0.3, 0.4, 0.5, 0.6, 0.7, 0.8, 0.1] in row-major order, with mean 0.45. |
| Quality.QualityFlagShadow | roof_area/metrics/quality.py:43-45 | A score equal to the threshold (0.4 by default) is flagged; a score below it is not. |
| Quality.QualityFlagShadowProperties | roof_area/metrics/quality.py:43-45 | A score equal to the threshold is flagged. Flagging is monotone in the score. 0.6 is flagged at 0.5 and 0.4 is not; at the default threshold 0.4 is flagged and 0.39 is not. |
| Area.MaskAreaM2 | roof_area/metrics/area.py:10-22 | Fails exactly when pixel_size_y is absent and pixel_size_x is a scalar (the ValueError) or a tuple that is not a pair, or when pixel_size_y is given and pixel_size_x is a tuple. Otherwise the area is count_nonzero × px × py, with the two sides taken from the pair when pixel_size_y is absent. |
| Area.ZeroMaskHasNoArea | roof_area/metrics/area.py:21-22 | An all-zero mask has area 0 for every pixel size. |
| Area.AreaScaling | roof_area/metrics/area.py:21-22 | The area is linear in each pixel side; doubling both sides quadruples it. |
| Area.TupleFormIsExplicitForm | roof_area/metrics/area.py:16-19 | Passing (px, py) as a tuple gives the same result as passing px and py separately. |
| Area.CountNonzeroOfBools | roof_area/metrics/area.py:21 | count_nonzero of a boolean mask stored as 0/1 is its number of set cells. |
| Area.CountNonzero | roof_area/metrics/area.py:21 | `np.count_nonzero` is at most the number of cells, and 0 exactly when every cell is 0. |
| Area.NotMetricCases | roof_area/metrics/area.py:41-48 | A geographic CRS is never metric, and neither is one with missing or empty axis information. |
| Area.MetricUnit | roof_area/metrics/area.py:45-46 | A missing unit name is never metric; a metric name has at least the five letters of "metre" or "meter". |
| Area.IsMetricCrs | roof_area/metrics/area.py:41-48 | A metric CRS is projected and has at least one axis of information. |
| Area.MetricUnitIgnoresCase | roof_area/metrics/area.py:45-46 | A unit name and its lower-cased form classify alike. |
| Area.UnitExamples | roof_area/metrics/area.py:45-46 | "Metre" and "kilometre" are metric; "degree", "US survey foot" and a missing name are not. |
| Area.EnsureMetricCrs | roof_area/metrics/area.py:25-38 | No CRS raises CrsRequired. An input the parser rejects raises Unparseable with that input. A metric parsed input is returned as parsed; otherwise the target ("EPSG:3857" by default) is parsed and returned, or raises Unparseable if it does not parse. A success is always the parse of the input or of the target. |
| Area.EnsureMetricCrsIsMetric | roof_area/metrics/area.py:34-38 | A non-metric success can only be the parsed target: the target's metricity is never checked. |
| Area.EnsureMetricCrsIdempotent | roof_area/metrics/area.py:34-38 | With a metric target and a parser that returns CRS objects as given, feeding a successful result back in returns it unchanged. |
| Infer.KeptBands | roof_area/model/infer.py:111 | `image[:3]` keeps min(3, n) bands. |
| Infer.ToGrayscale | roof_area/model/infer.py:104-113 | A band stack gives one grayscale value per pixel of a band. |
| Infer.GrayscaleBands | roof_area/model/infer.py:104-113 | A 2-D image is returned as is and a single band is that band. Two bands give the per-pixel mean of the two; three or more give the per-pixel mean of the first three. |
| Infer.GrayscaleIgnoresExtraBands | roof_area/model/infer.py:111-112 | Bands after the third never influence the result. |
| Infer.GrayscaleOfEqualBands | roof_area/model/infer.py:108-112 | Where every band holds the same value, the grayscale pixel is that value. |
| Infer.GrayscaleBetween | roof_area/model/infer.py:108-112 | A grayscale pixel lies between the least and the greatest band value at that pixel. |
| Means.MaxOf | roof_area/model/infer.py:123-124 | `np.max` is an upper bound of every element and is attained. |
| Means.MinOf | roof_area/io/vector.py:20 | `min` is a lower bound of every element and is attained. |
| Infer.Clip | roof_area/model/infer.py:126 | `np.clip(t, 0, 1)` lies in [0, 1]. It is t inside that range, 0 below it and 1 above it. |
| Infer.Normalize | roof_area/model/infer.py:123-124 | Rescaling keeps one value per pixel. |
| Infer.ThresholdMask | roof_area/model/infer.py:123-128 | A pixel is set exactly when its normalised magnitude is strictly greater than clip(t) · 255. |
| Infer.ThresholdOnRawMagnitude | roof_area/model/infer.py:123-127 | On raw magnitudes: a pixel is set exactly when the maximum is positive and the pixel exceeds clip(t) × maximum. |
| Infer.PixelOnRawMagnitude | roof_area/model/infer.py:123-127 | The same characterisation for one pixel. |
| Infer.FlatFieldGivesEmptyMask | roof_area/model/infer.py:123-127 | A field without positive magnitude (in particular an all-zero one) gives an all-false mask for every threshold. |
| Infer.ThresholdAntitone | roof_area/model/infer.py:126-127 | Raising the threshold never adds a pixel: the mask shrinks, and so does its count. |
| Infer.ZeroThresholdKeepsEveryEdge | roof_area/model/infer.py:126-127 | At a threshold ≤ 0, exactly the pixels with positive magnitude are set. |
| Infer.FullThresholdSetsNothing | roof_area/model/infer.py:126-127 | At a threshold ≥ 1, no pixel is set. |
| Infer.FootprintResult | roof_area/model/infer.py:138-158 | Fails exactly when the file has no rows, the file has no CRS or the raster has no CRS. The checks come in that order: NoFootprintsFound, then FootprintsMissingCrs, then RasterMissingCrs (the ValueError of `to_crs(None)`). |
| Infer.FootprintMask | roof_area/model/infer.py:149-158 | The footprint mask has one cell per cell of the base mask. |
| Infer.MaskByFootprints | roof_area/model/infer.py:131-161 | The in-place loop over the reprojected polygons returns what `FootprintResult` specifies: base AND the union of the footprints. |
| Infer.FootprintMaskWithinBase | roof_area/model/infer.py:158 | The result is a subset of the base mask, and its count is no larger. |
| Infer.FootprintMaskPixels | roof_area/model/infer.py:151-158 | A pixel is set exactly when it is in the base mask and inside some footprint; outside every footprint it is clear. |
| Infer.FootprintStepOnlySets | roof_area/model/infer.py:158 | One more polygon keeps every set pixel and adds exactly that polygon's part of the base. |
| Infer.PolygonPart | roof_area/model/infer.py:152-158 | One polygon's contribution `base_mask & geometry_mask`: pixel i is set exactly when it is in the base mask and inside that polygon. |
| Infer.OrInto | roof_area/model/infer.py:158 | The in-place OR-assignment of a part into `output_mask` leaves the array holding the pointwise OR of its old contents and the part. |
| Infer.FootprintMaskOfNoPolygons | roof_area/model/infer.py:149-158 | With no polygon the output stays all false. |
| Infer.DefaultOutputPath | roof_area/model/infer.py:175-177 | On a path in pathlib's normal form: fails exactly when the name is empty or ".". Otherwise it is the raster path without its last suffix plus "_roof_mask.tif". |
| Infer.DefaultOutputPathExamples | roof_area/model/infer.py:175-177 | "out/scene.tif" becomes "out/scene_roof_mask.tif"; "" is refused. |
| Infer.BaseMask | roof_area/model/infer.py:84-86 | The gradient mask has one cell per raster pixel. |
| Infer.OutputPathFor | roof_area/model/infer.py:81 | A truthy output path is used as given and never fails. Otherwise the default is the raster path without its last suffix plus "_roof_mask.tif". |
| Infer.RunInference | roof_area/model/infer.py:19-101 | Check order: a truthy model path raises NotImplemented for every other input. Without it, a falsy footprints path raises NoFootprintsProvided. Next, a failing default output path raises BadOutputPath with its cause, before the footprint file is consulted; a path error can only come from the default. On success, the written path is the given output path if truthy, else the default, and one 0/1 value is written per pixel. |
| Infer.InferenceWritesFootprintPixels | roof_area/model/infer.py:83-98 | Past the path checks, an empty footprint file, one without a CRS, or a raster without a CRS fails as `_mask_by_footprints` does. Otherwise a written pixel is 1 exactly when the gradient mask is set and the pixel is inside a footprint reprojected to the raster CRS. |
| Infer.ModelPathDecidesAlone | roof_area/model/infer.py:32-40 | With a truthy model path, the footprints, output path, raster and threshold do not affect the result. |
| Masks.Zeros | roof_area/metrics/eval.py:31 | `np.zeros(shape, dtype=bool)` has the given size and no set cell. |
| Masks.AsInts | roof_area/model/infer.py:98 | `astype(uint8)` stores 1 exactly for set cells and 0 exactly for clear ones. |
| Geometry.IterPolygons | roof_area/metrics/eval.py:141-149 | The generator loop yields exactly `Flatten` of the geometry column: Polygons, MultiPolygon parts in order, nothing for null or other types. |
| Geometry.Flatten | roof_area/metrics/eval.py:141-149 | Every polygon yielded comes from some row of the column: that Polygon, or a part of that MultiPolygon. |
| Geometry.FlattenMembers | roof_area/model/infer.py:164-172 | A polygon is yielded exactly when some row is that Polygon or a MultiPolygon containing it. |
| Geometry.FlattenIgnoresNonPolygons | roof_area/metrics/eval.py:143-147 | Null rows and rows of other geometry types can be dropped without changing the output. |
| Geometry.FlattenAppend | roof_area/metrics/eval.py:141-149 | Flattening distributes over concatenation of geometry columns. |
| Geometry.FlattenToCrs | roof_area/metrics/eval.py:36-37 | Reprojecting the column and then flattening gives each flattened polygon reprojected. |
| Geometry.ToCrs | roof_area/metrics/eval.py:36 | `to_crs` keeps one geometry per row. |
| Geometry.Union | roof_area/metrics/eval.py:41-48 | The rasterized union has one cell per grid cell. |
| Geometry.CoveredSnoc | roof_area/model/infer.py:151-158 | One more polygon adds exactly that polygon's pixels to the union. |
| Paths.WithoutSuffix | roof_area/metrics/eval.py:131-132 | On a path in pathlib's normal form: `with_suffix("")` fails exactly when the name is empty or ".". Otherwise it removes exactly the last suffix, which holds one '.' and no separator, and never cuts into the directory. |
| Paths.SplitAtSuffix | roof_area/metrics/eval.py:131-132 | A path whose name has a suffix is its directory, then the name up to the suffix, then the suffix; the suffix holds exactly one '.', at its start, and no separator. |
| Paths.DerivedPath | roof_area/model/infer.py:176-177 | A derived path is the suffix-less path plus the fixed tail, failing exactly when `with_suffix` does. Its inputs are taken in pathlib's normal form. |
| Vector.Transformed | roof_area/io/vector.py:16-18 | The corners (minx,miny), (maxx,miny), (minx,maxy), (maxx,maxy) are each transformed. |
| Vector.ReprojectBounds | roof_area/io/vector.py:11-20 | The result is ordered, and it is the tight envelope of the four transformed corners: it holds each corner, and each of its coordinates is attained by one. |
| Vector.EnvelopeIsUnique | roof_area/io/vector.py:18-20 | Any tight envelope of the transformed corners equals the result: it is the min/max of the independently transformed corners. |
| Vector.TightBoxesAgree | roof_area/io/vector.py:18-20 | Two boxes that each contain the same points and attain each of their four coordinates at one of them are the same box. |
| Vector.IdentityKeepsOrderedBounds | roof_area/io/vector.py:16-20 | Under the identity transform an ordered box is returned unchanged. |
| Vector.IdentitySortsReversedBounds | roof_area/io/vector.py:16-20 | Under the identity transform a reversed box comes back ordered. |
| Vector.OnlyCornersMatter | roof_area/io/vector.py:16-20 | Boxes whose corners transform alike give the same result. |
| Pipeline.ReprojectAoiToRasterCrs | roof_area/pipeline/run.py:13-22 | The AOI CRS is parsed first, then the raster CRS; the first one the parser rejects is the failure. With both parsed, equal CRSs return the AOI unchanged, and otherwise the result is `reproject_bounds(aoi, aoi_crs, raster_crs)`. |
| Pipeline.SameCrsIgnoresTransformer | roof_area/pipeline/run.py:19-20 | With equal parse results no transform is consulted: any two transformers give the same result, the unchanged box (or the same parse failure). |
| Pipeline.TextAndObjectShortCircuitAlike | roof_area/pipeline/run.py:19 | An identifier and the CRS object it parses to short-circuit alike, on either side. |
| Pipeline.AoiEnvelope | roof_area/pipeline/run.py:19-22 | A successful result for an ordered AOI is ordered; when reprojected, it is the tight envelope of the transformed corners. |
| Pipeline.ReprojectAoiSettles | roof_area/pipeline/run.py:19-22 | Feeding a successful result back in with the raster CRS on both sides returns it unchanged. |

## Left out

- Tiling.IterWindows: the generator is lazy. The model collects its windows into a sequence, and takes only the dataset's width and height, not the dataset object.
- Reading and writing files is taken as inputs and outputs:
  - `rasterio.open` and `dataset.read`: the raster's bands and CRS are an input value;
  - `gpd.read_file`: a function from path to vector source;
  - writing the mask or the report, and `mkdir`: the model returns the path and the values that would be written.
  - Errors raised while opening files are not modelled.
- Logging (`logger.info` and the default logger) has no effect on results and is not modelled.
- The cv2 chain is a function parameter assumed to keep the grid's size: GaussianBlur, Sobel, magnitude, and the float32 casts around it.
- Python floats are `real`s: IEEE rounding, NaN and float32 are not modelled. The one exception is that a pixel with zero channels in `shadow_score` is never dark, as NaN compares false.
- Infer.ThresholdMask: requires a non-empty magnitude grid. `np.max` raises on an empty array, and a raster rasterio opens has at least one pixel.
- Infer.RunInference: requires a raster with at least one band, all bands the same non-zero size, which is what `dataset.read()` returns.
- Infer.ToGrayscale: a band stack with zero bands would make numpy average nothing (NaN) and is excluded by the precondition.
- `format_report` and the `:.4f` rendering: the rendering is a parameter of `Eval.FormatMetric`. The report's fixed lines are text layout without logic.
- `evaluate_masks` only composes file reads with `compute_metrics` and `rasterize_ground_truth`, which are modelled.
- `write_report` only writes a file.
- The rasterizer's pixel-centre rule and the polygon reprojection are abstract functions: `features.geometry_mask`, `features.rasterize`, shapely and `to_crs`.
- Area.MetricUnit: lower-casing covers ASCII letters only. Non-ASCII letters never lower-case to the ASCII letters of "metre" or "meter", so the test's answer is the same.
- `CRS.from_user_input` and its equality are a parser parameter. It returns None where pyproj raises CRSError; parsed values are compared structurally.
- Vector.ReprojectBounds: the transformer factory is total, so the CRSError that `Transformer.from_crs` raises for an input it cannot use is not modelled. Inside `Pipeline.ReprojectAoiToRasterCrs` both inputs have already parsed by then.
- Paths.WithoutSuffix: pathlib's normalisation of the path string is not modelled. The string is taken as pathlib would print it back, which drops a leading "./", "." components, repeated separators and a trailing separator. On other strings the result differs: "./scene.tif" gives "./scene" where pathlib gives "scene", and "out/scene.tif/" fails where pathlib gives "out/scene".
- Paths.DerivedPath: inherits that gap from `Paths.WithoutSuffix`; its inputs are taken in pathlib's normal form.
- Eval.DefaultReportPath: inherits that gap from `Paths.WithoutSuffix`; the mask path is taken in pathlib's normal form.
- Infer.DefaultOutputPath: inherits that gap from `Paths.WithoutSuffix`; the raster path is taken in pathlib's normal form.
- The command-line interface, settings loading, and the package's re-export modules are not part of this model.
