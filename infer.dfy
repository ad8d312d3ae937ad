/**
 * The heuristic baseline of roof_area/model/infer.py: `run_inference`
 * dispatch, `_to_grayscale`, the normalise/threshold tail of
 * `_gradient_threshold_mask`, `_mask_by_footprints` and
 * `_default_output_path`.
 *
 * Rasters are flattened row-major, one sequence per band. The cv2 filter
 * chain (blur, Sobel, magnitude), reading the footprint file, reprojecting a
 * polygon and rasterizing one are foreign and are passed in as functions.
 */
module Infer {
  import opened Wrappers
  import opened Masks
  import opened Means
  import opened Paths
  import opened CrsModel
  import opened Geometry

  /** The ways `run_inference` fails. */
  datatype InferenceFailure =
    | NotImplemented                  // NotImplementedError from `_run_model_inference`
    | NoFootprintsProvided            // InferenceError: no footprints path
    | NoFootprintsFound               // InferenceError: the footprint file has no rows
    | FootprintsMissingCrs            // InferenceError: the footprint file has no CRS
    | BadOutputPath(cause: PathError) // ValueError from `with_suffix` on the raster path
    | RasterMissingCrs                // ValueError from `to_crs(None)`: the raster has no CRS

  /** Python truthiness of an optional string: present and non-empty. */
  predicate Truthy(s: Option<string>)
  {
    s.Some? && s.value != ""
  }

  // ---------------------------------------------------------------- _to_grayscale

  /** A numpy image: a 2-D array, or a stack of bands of one common size. */
  datatype ImageArray = Plane(values: seq<real>) | Stack(bands: seq<seq<real>>)

  /** At least one band, all of the same size (what `dataset.read()` returns). */
  predicate Stacked(bands: seq<seq<real>>)
  {
    |bands| >= 1 && forall b :: 0 <= b < |bands| ==> |bands[b]| == |bands[0]|
  }

  predicate WellShaped(img: ImageArray)
  {
    img.Stack? ==> Stacked(img.bands)
  }

  /** The number of bands `image[:3]` keeps. */
  function KeptBands(n: nat): (k: nat)
    ensures k <= n && k <= 3
    ensures n <= 3 ==> k == n
  {
    if n < 3 then n else 3
  }

  /** The values of pixel i in the first k bands. */
  function PixelAcross(bands: seq<seq<real>>, k: nat, i: nat): (v: seq<real>)
    requires Stacked(bands) && k <= |bands| && i < |bands[0]|
    ensures |v| == k
  {
    seq(k, b requires 0 <= b < k => bands[b][i])
  }

  /** `_to_grayscale`. */
  function ToGrayscale(img: ImageArray): (g: seq<real>)
    requires WellShaped(img)
    ensures img.Stack? ==> |g| == |img.bands[0]|
  {
    match img
    case Plane(values) => values
    case Stack(bands) =>
      if |bands| == 1 then bands[0]
      else
        var k := KeptBands(|bands|);
        seq(|bands[0]|, i requires 0 <= i < |bands[0]| => Mean(PixelAcross(bands, k, i)))
  }

  /**
   * Band selection: a 2-D image comes back as is, a single band is that band,
   * two bands average pixel by pixel, and three or more average the first three.
   */
  lemma GrayscaleBands(img: ImageArray)
    requires WellShaped(img)
    ensures img.Plane? ==> ToGrayscale(img) == img.values
    ensures img.Stack? && |img.bands| == 1 ==> ToGrayscale(img) == img.bands[0]
    ensures img.Stack? && |img.bands| == 2 ==> forall i :: 0 <= i < |img.bands[0]| ==>
      ToGrayscale(img)[i] == (img.bands[0][i] + img.bands[1][i]) / 2.0
    ensures img.Stack? && |img.bands| >= 3 ==> forall i :: 0 <= i < |img.bands[0]| ==>
      ToGrayscale(img)[i] == (img.bands[0][i] + img.bands[1][i] + img.bands[2][i]) / 3.0
  {
    if img.Stack? && |img.bands| >= 2 {
      var bands := img.bands;
      forall i | 0 <= i < |bands[0]|
        ensures |bands| == 2 ==> ToGrayscale(img)[i] == (bands[0][i] + bands[1][i]) / 2.0
        ensures |bands| >= 3 ==> ToGrayscale(img)[i] == (bands[0][i] + bands[1][i] + bands[2][i]) / 3.0
      {
        var v := PixelAcross(bands, KeptBands(|bands|), i);
        assert v[..1][..0] == [];
        assert Sum(v[..1]) == v[0];
        assert v[..2][..1] == v[..1];
        assert Sum(v[..2]) == v[0] + v[1];
        if |bands| >= 3 {
          assert v[..3] == v;
          assert v[..3][..2] == v[..2];
          assert Sum(v) == v[0] + v[1] + v[2];
        } else {
          assert v[..2] == v;
        }
      }
    }
  }

  /** Bands beyond the third never influence the grayscale image. */
  lemma GrayscaleIgnoresExtraBands(bands: seq<seq<real>>)
    requires Stacked(bands) && |bands| > 3
    ensures Stacked(bands[..3])
    ensures ToGrayscale(Stack(bands)) == ToGrayscale(Stack(bands[..3]))
  {
    var g, h := ToGrayscale(Stack(bands)), ToGrayscale(Stack(bands[..3]));
    forall i | 0 <= i < |bands[0]| ensures g[i] == h[i] {
      assert PixelAcross(bands, 3, i) == PixelAcross(bands[..3], 3, i);
    }
  }

  /** Where every band holds the same value at a pixel, the grayscale pixel is that value. */
  lemma GrayscaleOfEqualBands(bands: seq<seq<real>>, i: nat, c: real)
    requires Stacked(bands) && i < |bands[0]|
    requires forall b :: 0 <= b < |bands| ==> bands[b][i] == c
    ensures ToGrayscale(Stack(bands))[i] == c
  {
    if |bands| > 1 {
      MeanConstant(PixelAcross(bands, KeptBands(|bands|), i), c);
    }
  }

  /** A grayscale pixel lies between the smallest and the largest value the bands hold there. */
  lemma GrayscaleBetween(bands: seq<seq<real>>, i: nat, lo: real, hi: real)
    requires Stacked(bands) && i < |bands[0]|
    requires forall b :: 0 <= b < |bands| ==> lo <= bands[b][i] <= hi
    ensures lo <= ToGrayscale(Stack(bands))[i] <= hi
  {
    if |bands| > 1 {
      MeanBounds(PixelAcross(bands, KeptBands(|bands|), i), lo, hi);
    }
  }

  // ---------------------------------------------------------------- _gradient_threshold_mask

  /** `np.clip(t, 0.0, 1.0)`. */
  function Clip(t: real): (c: real)
    ensures 0.0 <= c <= 1.0
    ensures 0.0 <= t <= 1.0 ==> c == t
    ensures t < 0.0 ==> c == 0.0
    ensures t > 1.0 ==> c == 1.0
  {
    if t < 0.0 then 0.0 else if t > 1.0 then 1.0 else t
  }

  /** Rescale the magnitudes to a maximum of 255, only when the maximum is positive. */
  function Normalize(mag: seq<real>): (n: seq<real>)
    requires |mag| > 0
    ensures |n| == |mag|
  {
    var m := MaxOf(mag);
    if m > 0.0 then seq(|mag|, i requires 0 <= i < |mag| => mag[i] / m * 255.0) else mag
  }

  /** The tail of `_gradient_threshold_mask`: cv2's THRESH_BINARY at clip(t) * 255, read back as booleans. */
  function ThresholdMask(mag: seq<real>, t: real): (mask: seq<bool>)
    requires |mag| > 0
    ensures |mask| == |mag|
    ensures forall i :: 0 <= i < |mag| ==> (mask[i] <==> Normalize(mag)[i] > Clip(t) * 255.0)
  {
    var n := Normalize(mag);
    seq(|mag|, i requires 0 <= i < |mag| => n[i] > Clip(t) * 255.0)
  }

  /**
   * In terms of the raw magnitudes: a pixel is set exactly when some magnitude
   * is positive and this one exceeds clip(t) times the largest.
   */
  lemma ThresholdOnRawMagnitude(mag: seq<real>, t: real)
    requires |mag| > 0
    ensures forall i :: 0 <= i < |mag| ==>
      (ThresholdMask(mag, t)[i] <==> MaxOf(mag) > 0.0 && Exceeds(mag[i], Clip(t), MaxOf(mag)))
  {
    forall i | 0 <= i < |mag|
      ensures ThresholdMask(mag, t)[i] <==> MaxOf(mag) > 0.0 && Exceeds(mag[i], Clip(t), MaxOf(mag))
    {
      PixelOnRawMagnitude(mag, t, i);
    }
  }

  lemma PixelOnRawMagnitude(mag: seq<real>, t: real, i: nat)
    requires i < |mag|
    ensures ThresholdMask(mag, t)[i] <==> MaxOf(mag) > 0.0 && Exceeds(mag[i], Clip(t), MaxOf(mag))
  {
    var m, c := MaxOf(mag), Clip(t);
    var n := Normalize(mag);
    assert ThresholdMask(mag, t)[i] <==> n[i] > c * 255.0;
    if m > 0.0 {
      assert n[i] == mag[i] / m * 255.0;
      ScaledAbove(mag[i], m, c);
    } else {
      assert n[i] == mag[i];
      assert mag[i] <= 0.0;
    }
  }

  /** x exceeds the fraction c of m. */
  predicate Exceeds(x: real, c: real, m: real)
  {
    x > c * m
  }

  /** x / m * 255 exceeds c * 255 exactly when x exceeds c * m, for positive m. */
  lemma ScaledAbove(x: real, m: real, c: real)
    requires m > 0.0
    ensures x / m * 255.0 > c * 255.0 <==> Exceeds(x, c, m)
  {
    var q := x / m;
    assert q * m == x;
    assert q * 255.0 - c * 255.0 == (q - c) * 255.0;
    assert q * m - c * m == (q - c) * m;
  }

  /** A field with no positive magnitude yields an all-false mask for every threshold. */
  lemma FlatFieldGivesEmptyMask(mag: seq<real>, t: real)
    requires |mag| > 0
    requires forall i :: 0 <= i < |mag| ==> mag[i] <= 0.0
    ensures Count(ThresholdMask(mag, t)) == 0
  {
    ThresholdOnRawMagnitude(mag, t);
    CountExtremes(ThresholdMask(mag, t));
  }

  /** Raising the threshold never adds a pixel. */
  lemma ThresholdAntitone(mag: seq<real>, t1: real, t2: real)
    requires |mag| > 0 && t1 <= t2
    ensures Subset(ThresholdMask(mag, t2), ThresholdMask(mag, t1))
    ensures Count(ThresholdMask(mag, t2)) <= Count(ThresholdMask(mag, t1))
  {
    ThresholdOnRawMagnitude(mag, t1);
    ThresholdOnRawMagnitude(mag, t2);
    var m := MaxOf(mag);
    if m > 0.0 {
      assert Clip(t1) * m <= Clip(t2) * m;
    }
    CountMonotone(ThresholdMask(mag, t2), ThresholdMask(mag, t1));
  }

  /** At a threshold of 0 or below, exactly the pixels with a positive magnitude are set. */
  lemma ZeroThresholdKeepsEveryEdge(mag: seq<real>, t: real)
    requires |mag| > 0 && t <= 0.0
    ensures forall i :: 0 <= i < |mag| ==> (ThresholdMask(mag, t)[i] <==> mag[i] > 0.0)
  {
    ThresholdOnRawMagnitude(mag, t);
  }

  /** A threshold of 1 or above sets no pixel at all. */
  lemma FullThresholdSetsNothing(mag: seq<real>, t: real)
    requires |mag| > 0 && t >= 1.0
    ensures Count(ThresholdMask(mag, t)) == 0
  {
    ThresholdOnRawMagnitude(mag, t);
    CountExtremes(ThresholdMask(mag, t));
  }

  // ---------------------------------------------------------------- _mask_by_footprints

  /** The base mask restricted to the union of the footprints. */
  function FootprintMask<P>(base: seq<bool>, polys: seq<P>, inside: (P, nat) -> bool): (m: seq<bool>)
    ensures |m| == |base|
  {
    And(base, Union(polys, inside, |base|))
  }

  /** What `_mask_by_footprints` returns or raises. */
  function FootprintResult<P>(
    src: VectorSource<P>, rasterCrs: Option<Crs>, base: seq<bool>,
    project: (P, Crs, Crs) -> P, inside: (P, nat) -> bool): (r: Result<seq<bool>, InferenceFailure>)
    ensures r.Failure? <==> src.geoms == [] || src.crs.None? || rasterCrs.None?
    ensures src.geoms == [] ==> r == Failure(NoFootprintsFound)
    ensures src.geoms != [] && src.crs.None? ==> r == Failure(FootprintsMissingCrs)
    ensures src.geoms != [] && src.crs.Some? && rasterCrs.None? ==> r == Failure(RasterMissingCrs)
  {
    if src.geoms == [] then Failure(NoFootprintsFound)
    else if src.crs.None? then Failure(FootprintsMissingCrs)
    else if rasterCrs.None? then Failure(RasterMissingCrs)
    else Success(FootprintMask(base, Flatten(ToCrs(src.geoms, src.crs.value, rasterCrs.value, project)), inside))
  }

  /**
   * `_mask_by_footprints`: after the three checks, reproject the footprints and
   * OR each polygon's part of the base mask into a zeroed output array.
   */
  method MaskByFootprints<P>(
    src: VectorSource<P>, rasterCrs: Option<Crs>, base: seq<bool>,
    project: (P, Crs, Crs) -> P, inside: (P, nat) -> bool) returns (r: Result<seq<bool>, InferenceFailure>)
    ensures r == FootprintResult(src, rasterCrs, base, project, inside)
  {
    if src.geoms == [] {
      return Failure(NoFootprintsFound);
    }
    if src.crs.None? {
      return Failure(FootprintsMissingCrs);
    }
    if rasterCrs.None? {
      return Failure(RasterMissingCrs);
    }
    var gdf := ToCrs(src.geoms, src.crs.value, rasterCrs.value, project);
    var output := new bool[|base|](_ => false);
    var polys := IterPolygons(gdf);
    assert polys[..0] == [];
    assert output[..] == FootprintMask(base, polys[..0], inside);
    var k := 0;
    while k < |polys|
      invariant 0 <= k <= |polys|
      invariant output.Length == |base|
      invariant output[..] == FootprintMask(base, polys[..k], inside)
    {
      ghost var prev := FootprintMask(base, polys[..k], inside);
      assert polys[..k + 1] == polys[..k] + [polys[k]];
      FootprintStepOnlySets(base, polys[..k], polys[k], inside);
      OrInto(output, PolygonPart(base, polys[k], inside));
      assert Or(prev, PolygonPart(base, polys[k], inside)) == FootprintMask(base, polys[..k + 1], inside);
      k := k + 1;
    }
    assert polys[..|polys|] == polys;
    r := Success(output[..]);
  }

  /** The part of the base mask one polygon covers: `base & rasterize(poly)`. */
  function PolygonPart<P>(base: seq<bool>, p: P, inside: (P, nat) -> bool): (m: seq<bool>)
    ensures |m| == |base|
    ensures forall i :: 0 <= i < |base| ==> (m[i] <==> base[i] && inside(p, i))
  {
    seq(|base|, i requires 0 <= i < |base| => base[i] && inside(p, i))
  }

  /** `output |= part`, element by element. */
  method OrInto(output: array<bool>, part: seq<bool>)
    requires output.Length == |part|
    modifies output
    ensures output[..] == Or(old(output[..]), part)
  {
    ghost var before := output[..];
    var j := 0;
    while j < output.Length
      invariant 0 <= j <= output.Length
      invariant forall i :: 0 <= i < j ==> output[i] == (before[i] || part[i])
      invariant forall i :: j <= i < output.Length ==> output[i] == before[i]
    {
      output[j] := output[j] || part[j];
      j := j + 1;
    }
  }

  /** The result is a subset of the base mask. */
  lemma FootprintMaskWithinBase<P>(base: seq<bool>, polys: seq<P>, inside: (P, nat) -> bool)
    ensures Subset(FootprintMask(base, polys, inside), base)
    ensures Count(FootprintMask(base, polys, inside)) <= Count(base)
  {
    CountMonotone(FootprintMask(base, polys, inside), base);
  }

  /** A pixel is set exactly when it is in the base mask and inside some footprint; outside every footprint it is clear. */
  lemma FootprintMaskPixels<P>(base: seq<bool>, polys: seq<P>, inside: (P, nat) -> bool)
    ensures forall i :: 0 <= i < |base| ==>
      (FootprintMask(base, polys, inside)[i] <==> base[i] && exists k :: 0 <= k < |polys| && inside(polys[k], i))
  {
  }

  /** One loop step only sets pixels: adding a footprint keeps every set pixel and adds that footprint's part of the base. */
  lemma FootprintStepOnlySets<P>(base: seq<bool>, polys: seq<P>, p: P, inside: (P, nat) -> bool)
    ensures Subset(FootprintMask(base, polys, inside), FootprintMask(base, polys + [p], inside))
    ensures forall i :: 0 <= i < |base| ==>
      FootprintMask(base, polys + [p], inside)[i] == (FootprintMask(base, polys, inside)[i] || (base[i] && inside(p, i)))
  {
    forall i | 0 <= i < |base| {
      CoveredSnoc(polys, p, inside, i);
    }
  }

  /** Without any polygon (only Null or non-polygon rows) nothing is set. */
  lemma FootprintMaskOfNoPolygons<P>(base: seq<bool>, inside: (P, nat) -> bool)
    ensures Count(FootprintMask(base, [], inside)) == 0
  {
    CountExtremes(FootprintMask(base, [], inside));
  }

  // ---------------------------------------------------------------- _default_output_path

  /** `_default_output_path`: the raster path without its last suffix, plus "_roof_mask.tif". */
  function DefaultOutputPath(rasterPath: string): (r: Result<string, PathError>)
    ensures r.Failure? <==> Name(rasterPath) == "" || Name(rasterPath) == "."
    ensures r.Success? ==> r.value == WithoutSuffix(rasterPath).value + "_roof_mask.tif"
    ensures r.Success? ==> WithoutSuffix(rasterPath).value + Suffix(rasterPath) == rasterPath
  {
    DerivedPath(rasterPath, "_roof_mask.tif")
  }

  /** A raster "out/scene.tif" gets the mask "out/scene_roof_mask.tif"; an empty path is refused. */
  lemma DefaultOutputPathExamples()
    ensures DefaultOutputPath("out/scene.tif") == Success("out/scene_roof_mask.tif")
    ensures DefaultOutputPath("").Failure?
  {
    var p := "out/scene.tif";
    SceneWithoutSuffix();
    SceneMaskName();
    assert DefaultOutputPath(p) == DerivedPath(p, "_roof_mask.tif");
    assert Name("") == "";
  }

  /** The literal join of the two halves of the example's mask path. */
  lemma SceneMaskName()
    ensures "out/scene" + "_roof_mask.tif" == "out/scene_roof_mask.tif"
  {
  }

  /** "out/scene.tif" splits into the directory "out/" and the name "scene.tif". */
  lemma SceneParts()
    ensures Directory("out/scene.tif") == "out/" && Name("out/scene.tif") == "scene.tif"
  {
    var p := "out/scene.tif";
    assert p[3] == '/';
    assert LastIndexOf(p, '/') == 3;
  }

  /** Without its suffix "out/scene.tif" is "out/scene". */
  lemma SceneWithoutSuffix()
    ensures WithoutSuffix("out/scene.tif") == Success("out/scene")
  {
    SceneParts();
    var name := "scene.tif";
    assert name[5] == '.';
    assert LastIndexOf(name, '.') == 5;
    assert SuffixStart(name) == 5;
    assert name[..5] == "scene";
    assert "out/" + "scene" == "out/scene";
  }

  // ---------------------------------------------------------------- run_inference

  /** An opened raster: its bands as `dataset.read()` returns them, and its CRS. */
  datatype Raster = Raster(bands: seq<seq<real>>, crs: Option<Crs>)

  /** A raster rasterio can open: at least one band, every band the same non-zero size. */
  predicate Readable(raster: Raster)
  {
    Stacked(raster.bands) && |raster.bands[0]| > 0
  }

  /** What the baseline writes: the output path and the uint8 band. */
  datatype Written = Written(path: string, pixels: seq<int>)

  /** The output path: the given one when truthy, otherwise the default. */
  function OutputPathFor(rasterPath: string, outputPath: Option<string>): (r: Result<string, PathError>)
    ensures r.Failure? ==> !Truthy(outputPath)
    ensures Truthy(outputPath) ==> r == Success(outputPath.value)
    ensures !Truthy(outputPath) && r.Success? ==>
      WithoutSuffix(rasterPath).Success? && r.value == WithoutSuffix(rasterPath).value + "_roof_mask.tif"
  {
    if Truthy(outputPath) then Success(outputPath.value) else DefaultOutputPath(rasterPath)
  }

  /** The gradient mask of `_run_baseline_inference`, from the grayscale image through the foreign filter chain. */
  function BaseMask(raster: Raster, threshold: real, magnitude: seq<real> -> seq<real>): (m: seq<bool>)
    requires Readable(raster)
    requires forall g: seq<real> :: |magnitude(g)| == |g|
    ensures |m| == |raster.bands[0]|
  {
    ThresholdMask(magnitude(ToGrayscale(Stack(raster.bands))), threshold)
  }

  /**
   * `run_inference`: a truthy model path raises before anything else; the
   * baseline then demands a footprints path, settles the output path, and
   * writes base-mask AND footprint-union as 0/1.
   */
  function RunInference<P>(
    rasterPath: string, footprintsPath: Option<string>, outputPath: Option<string>,
    modelPath: Option<string>, threshold: real,
    raster: Raster, readFootprints: string -> VectorSource<P>, magnitude: seq<real> -> seq<real>,
    project: (P, Crs, Crs) -> P, inside: (P, nat) -> bool): (r: Result<Written, InferenceFailure>)
    requires Readable(raster)
    requires forall g: seq<real> :: |magnitude(g)| == |g|
    ensures Truthy(modelPath) ==> r == Failure(NotImplemented)
    ensures !Truthy(modelPath) && !Truthy(footprintsPath) ==> r == Failure(NoFootprintsProvided)
    ensures r.Failure? && r.error.BadOutputPath? ==> !Truthy(outputPath)
    ensures !Truthy(modelPath) && Truthy(footprintsPath) && OutputPathFor(rasterPath, outputPath).Failure? ==>
      r == Failure(BadOutputPath(OutputPathFor(rasterPath, outputPath).error))
    ensures r.Success? ==> Truthy(footprintsPath) && !Truthy(modelPath)
    ensures r.Success? ==> OutputPathFor(rasterPath, outputPath) == Success(r.value.path)
    ensures r.Success? ==> |r.value.pixels| == |raster.bands[0]|
    ensures r.Success? ==> forall i :: 0 <= i < |r.value.pixels| ==> r.value.pixels[i] == 0 || r.value.pixels[i] == 1
  {
    if Truthy(modelPath) then Failure(NotImplemented)
    else if !Truthy(footprintsPath) then Failure(NoFootprintsProvided)
    else
      match OutputPathFor(rasterPath, outputPath)
      case Failure(e) => Failure(BadOutputPath(e))
      case Success(path) =>
        var base := BaseMask(raster, threshold, magnitude);
        match FootprintResult(readFootprints(footprintsPath.value), raster.crs, base, project, inside)
        case Failure(e) => Failure(e)
        case Success(m) => Success(Written(path, AsInts(m)))
  }

  /**
   * A written pixel is 1 exactly when the gradient mask is set there and the
   * pixel lies inside some footprint reprojected to the raster's CRS; the
   * footprint file's own failures, and `to_crs(None)` for a raster without a
   * CRS, surface unchanged.
   */
  lemma InferenceWritesFootprintPixels<P>(
    rasterPath: string, footprintsPath: Option<string>, outputPath: Option<string>,
    modelPath: Option<string>, threshold: real,
    raster: Raster, readFootprints: string -> VectorSource<P>, magnitude: seq<real> -> seq<real>,
    project: (P, Crs, Crs) -> P, inside: (P, nat) -> bool)
    requires Readable(raster)
    requires forall g: seq<real> :: |magnitude(g)| == |g|
    requires !Truthy(modelPath) && Truthy(footprintsPath) && OutputPathFor(rasterPath, outputPath).Success?
    ensures var src := readFootprints(footprintsPath.value);
      var r := RunInference(rasterPath, footprintsPath, outputPath, modelPath, threshold,
                            raster, readFootprints, magnitude, project, inside);
      && (src.geoms == [] ==> r == Failure(NoFootprintsFound))
      && (src.geoms != [] && src.crs.None? ==> r == Failure(FootprintsMissingCrs))
      && (src.geoms != [] && src.crs.Some? && raster.crs.None? ==> r == Failure(RasterMissingCrs))
      && (src.geoms != [] && src.crs.Some? && raster.crs.Some? ==>
            r.Success? &&
            var polys := Flatten(ToCrs(src.geoms, src.crs.value, raster.crs.value, project));
            var base := BaseMask(raster, threshold, magnitude);
            forall i :: 0 <= i < |base| ==>
              (r.value.pixels[i] == 1 <==> base[i] && Covered(polys, inside, i)))
  {
  }

  /** With a model path, nothing else matters: not the footprints, the raster or the threshold. */
  lemma ModelPathDecidesAlone<P>(
    rasterPath: string, footprintsPath: Option<string>, outputPath: Option<string>,
    modelPath: Option<string>, threshold: real,
    raster: Raster, readFootprints: string -> VectorSource<P>, magnitude: seq<real> -> seq<real>,
    project: (P, Crs, Crs) -> P, inside: (P, nat) -> bool)
    requires Readable(raster)
    requires forall g: seq<real> :: |magnitude(g)| == |g|
    requires Truthy(modelPath)
    ensures RunInference(rasterPath, footprintsPath, outputPath, modelPath, threshold,
                         raster, readFootprints, magnitude, project, inside)
         == RunInference("", None, None, modelPath, 0.0, raster, readFootprints, magnitude, project, inside)
  {
  }
}
