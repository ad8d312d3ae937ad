/**
 * The evaluation core of roof_area/metrics/eval.py: agreement metrics
 * between a predicted and a ground-truth mask, the precondition ladder
 * around ground-truth rasterization, the report path and the "inf" token.
 *
 * Floats are reals; the one non-finite value the engine produces, the
 * relative area error +inf, is a tag of its own.
 */
module Eval {
  import opened Wrappers
  import opened Masks
  import opened Paths
  import opened CrsModel
  import opened Geometry

  /** A relative area error: a real number or +inf. */
  datatype RelError = Finite(value: real) | Inf

  /** The frozen `EvalMetrics` dataclass. */
  datatype EvalMetrics = EvalMetrics(
    iou: real,
    dice: real,
    absAreaError: real,
    relAreaError: RelError,
    predAreaM2: real,
    gtAreaM2: real)

  function Abs(x: real): (r: real)
    ensures r >= 0.0 && (r == x || r == -x)
  {
    if x < 0.0 then -x else x
  }

  /** IoU from pixel counts: intersection / union, 1.0 when the union is empty. */
  function IouOf(inter: nat, union: nat): (r: real)
    requires inter <= union
    ensures 0.0 <= r <= 1.0
    ensures union == 0 ==> r == 1.0
  {
    if union == 0 then 1.0 else inter as real / union as real
  }

  /** Dice from pixel counts: 2 intersection / (|P| + |G|), 1.0 when both are empty. */
  function DiceOf(inter: nat, total: nat): (r: real)
    requires 2 * inter <= total
    ensures 0.0 <= r <= 1.0
    ensures total == 0 ==> r == 1.0
  {
    if total == 0 then 1.0 else (2 * inter) as real / total as real
  }

  /** Away from the empty case the scores are the fractions they stand for. */
  lemma ScoreFractions(inter: nat, union: nat, total: nat)
    requires inter <= union && 2 * inter <= total
    ensures union > 0 ==> IouOf(inter, union) * (union as real) == inter as real
    ensures total > 0 ==> DiceOf(inter, total) * (total as real) == (2 * inter) as real
  {
  }

  /** A perfect IoU means the intersection is the whole union. */
  lemma {:induction false} PerfectIouOf(inter: nat, union: nat)
    requires inter <= union
    ensures IouOf(inter, union) == 1.0 <==> inter == union
  {
    if union > 0 {
      var i, u := inter as real, union as real;
      assert IouOf(inter, union) == i / u;
      assert (i / u) * u == i;
    }
  }

  /**
   * With |P| + |G| == |P ∩ G| + |P ∪ G| the scores determine each other:
   * Dice == 2 IoU / (1 + IoU), and IoU never exceeds Dice.
   */
  lemma {:induction false} DiceOfIouOf(inter: nat, union: nat)
    requires inter <= union
    ensures DiceOf(inter, inter + union) * (1.0 + IouOf(inter, union)) == 2.0 * IouOf(inter, union)
    ensures IouOf(inter, union) <= DiceOf(inter, inter + union)
  {
    if union > 0 {
      var i, u := inter as real, union as real;
      assert IouOf(inter, union) == i / u;
      assert DiceOf(inter, inter + union) == (2.0 * i) / (i + u);
      DiceIouReal(i, u);
    }
  }

  /** The Dice/IoU identity on the real fractions themselves. */
  lemma DiceIouReal(i: real, u: real)
    requires 0.0 <= i <= u && u > 0.0
    ensures ((2.0 * i) / (i + u)) * (1.0 + i / u) == 2.0 * (i / u)
    ensures i / u <= (2.0 * i) / (i + u)
  {
    DivSum(i, u, u);
    DivCancel(2.0 * i, i + u, u);
    assert i * u <= u * u;
    assert i * i <= i * u;
    CrossLe(i, u, 2.0 * i, i + u);
  }

  /** Division distributes over a sum. */
  lemma DivSum(a: real, b: real, m: real)
    requires m != 0.0
    ensures (a + b) / m == a / m + b / m
  {
    assert (a / m + b / m) * m == a + b;
  }

  /** (x / y) * (y / z) == x / z. */
  lemma DivCancel(x: real, y: real, z: real)
    requires y != 0.0 && z != 0.0
    ensures (x / y) * (y / z) == x / z
  {
  }

  /** Fractions with positive denominators compare as their cross products. */
  lemma CrossLe(a: real, b: real, c: real, d: real)
    requires b > 0.0 && d > 0.0 && a * d <= c * b
    ensures a / b <= c / d
  {
    assert a / b == (a * d) / (b * d);
    assert c / d == (c * b) / (b * d);
  }

  /** Intersection over union of two masks; 1.0 when both are empty. */
  function Iou(pred: seq<bool>, gt: seq<bool>): (r: real)
    requires |pred| == |gt|
    ensures 0.0 <= r <= 1.0
    ensures Count(Or(pred, gt)) == 0 ==> r == 1.0
  {
    IntersectionBounds(pred, gt);
    IouOf(Count(And(pred, gt)), Count(Or(pred, gt)))
  }

  /** Dice coefficient of two masks; 1.0 when both are empty. */
  function Dice(pred: seq<bool>, gt: seq<bool>): (r: real)
    requires |pred| == |gt|
    ensures 0.0 <= r <= 1.0
    ensures Count(pred) + Count(gt) == 0 ==> r == 1.0
  {
    IntersectionBounds(pred, gt);
    DiceOf(Count(And(pred, gt)), Count(pred) + Count(gt))
  }

  /**
   * The relative area error: 0 when both areas are 0, +inf when only the
   * ground-truth area is 0, and |pred - gt| / gt otherwise.
   */
  function RelAreaError(predArea: real, gtArea: real): (r: RelError)
    ensures r.Inf? <==> gtArea == 0.0 && predArea != 0.0
    ensures gtArea == 0.0 && predArea == 0.0 ==> r == Finite(0.0)
    ensures gtArea > 0.0 ==> r.Finite? && r.value >= 0.0
  {
    if gtArea == 0.0 then (if predArea == 0.0 then Finite(0.0) else Inf)
    else Finite(Abs(predArea - gtArea) / gtArea)
  }

  /** Away from a zero ground-truth area the relative error times that area is the absolute error. */
  lemma RelErrorRatio(predArea: real, gtArea: real)
    requires gtArea != 0.0
    ensures RelAreaError(predArea, gtArea).Finite?
    ensures RelAreaError(predArea, gtArea).value * gtArea == Abs(predArea - gtArea)
  {
  }

  /** Scaling both areas by the same positive factor leaves the relative error unchanged. */
  lemma {:induction false} RelErrorScaleFree(predArea: real, gtArea: real, k: real)
    requires k > 0.0
    ensures RelAreaError(predArea * k, gtArea * k) == RelAreaError(predArea, gtArea)
  {
    if gtArea != 0.0 {
      var e, f := RelAreaError(predArea * k, gtArea * k).value, RelAreaError(predArea, gtArea).value;
      RelErrorRatio(predArea * k, gtArea * k);
      RelErrorRatio(predArea, gtArea);
      assert Abs(predArea * k - gtArea * k) == Abs(predArea - gtArea) * k by {
        assert predArea * k - gtArea * k == (predArea - gtArea) * k;
      }
      assert (e * gtArea) * k == (f * gtArea) * k;
    } else if predArea != 0.0 {
      assert predArea * k != 0.0;
    }
  }

  /** `compute_metrics`, with the pixel area defaulting to 1.0 square metres. */
  function ComputeMetrics(pred: seq<bool>, gt: seq<bool>, pixelAreaM2: real := 1.0): (m: EvalMetrics)
    requires |pred| == |gt|
    ensures m.iou == Iou(pred, gt) && m.dice == Dice(pred, gt)
    ensures m.predAreaM2 == (Count(pred) as real) * pixelAreaM2
    ensures m.gtAreaM2 == (Count(gt) as real) * pixelAreaM2
    ensures m.absAreaError == Abs(m.predAreaM2 - m.gtAreaM2)
    ensures m.relAreaError == RelAreaError(m.predAreaM2, m.gtAreaM2)
  {
    var predArea := (Count(pred) as real) * pixelAreaM2;
    var gtArea := (Count(gt) as real) * pixelAreaM2;
    EvalMetrics(
      iou := Iou(pred, gt),
      dice := Dice(pred, gt),
      absAreaError := Abs(predArea - gtArea),
      relAreaError := RelAreaError(predArea, gtArea),
      predAreaM2 := predArea,
      gtAreaM2 := gtArea)
  }

  /** IoU and Dice do not depend on which mask is the prediction. */
  lemma OverlapSymmetric(pred: seq<bool>, gt: seq<bool>)
    requires |pred| == |gt|
    ensures Iou(pred, gt) == Iou(gt, pred)
    ensures Dice(pred, gt) == Dice(gt, pred)
  {
    assert And(pred, gt) == And(gt, pred);
    assert Or(pred, gt) == Or(gt, pred);
  }

  /** IoU is perfect exactly when the two masks agree on every pixel. */
  lemma PerfectIou(pred: seq<bool>, gt: seq<bool>)
    requires |pred| == |gt|
    ensures Iou(pred, gt) == 1.0 <==> pred == gt
  {
    var a, o := And(pred, gt), Or(pred, gt);
    IntersectionBounds(pred, gt);
    PerfectIouOf(Count(a), Count(o));
    if pred == gt {
      assert a == o;
    } else {
      var k :| 0 <= k < |pred| && pred[k] != gt[k];
      assert o[k] && !a[k];
      CountMonotone(a, o);
    }
  }

  /** A mask compared with itself: perfect overlap and no area error, for every pixel area. */
  lemma IdenticalMasks(p: seq<bool>, pixelAreaM2: real)
    ensures var m := ComputeMetrics(p, p, pixelAreaM2);
      m.iou == 1.0 && m.dice == 1.0 && m.absAreaError == 0.0 && m.relAreaError == Finite(0.0)
  {
    assert And(p, p) == p;
    assert Or(p, p) == p;
    var c := Count(p) as real;
    if c * pixelAreaM2 != 0.0 {
      RelErrorRatio(c * pixelAreaM2, c * pixelAreaM2);
    }
  }

  /** Disjoint masks that are not both empty have no overlap at all. */
  lemma DisjointMasks(pred: seq<bool>, gt: seq<bool>)
    requires |pred| == |gt|
    requires forall i :: 0 <= i < |pred| ==> !(pred[i] && gt[i])
    requires Count(pred) + Count(gt) > 0
    ensures Iou(pred, gt) == 0.0 && Dice(pred, gt) == 0.0
  {
    CountExtremes(And(pred, gt));
    IntersectionBounds(pred, gt);
  }

  /** The two overlap scores of any pair of masks determine each other: Dice == 2 IoU / (1 + IoU), and IoU <= Dice. */
  lemma DiceFromIou(pred: seq<bool>, gt: seq<bool>)
    requires |pred| == |gt|
    ensures Dice(pred, gt) * (1.0 + Iou(pred, gt)) == 2.0 * Iou(pred, gt)
    ensures Iou(pred, gt) <= Dice(pred, gt)
  {
    InclusionExclusion(pred, gt);
    IntersectionBounds(pred, gt);
    DiceOfIouOf(Count(And(pred, gt)), Count(Or(pred, gt)));
  }

  /**
   * With a positive pixel area the relative error does not depend on it:
   * it is the relative error of the two pixel counts.
   */
  lemma RelErrorIsPixelFree(pred: seq<bool>, gt: seq<bool>, pixelAreaM2: real)
    requires |pred| == |gt| && pixelAreaM2 > 0.0
    ensures ComputeMetrics(pred, gt, pixelAreaM2).relAreaError == RelAreaError(Count(pred) as real, Count(gt) as real)
  {
    var c, g := Count(pred) as real, Count(gt) as real;
    MetricsRelError(pred, gt, pixelAreaM2);
    RelErrorScaleFree(c, g, pixelAreaM2);
  }

  /** The relative error of the metrics is that of the two areas. */
  lemma MetricsRelError(pred: seq<bool>, gt: seq<bool>, pixelAreaM2: real)
    requires |pred| == |gt|
    ensures ComputeMetrics(pred, gt, pixelAreaM2).relAreaError
         == RelAreaError((Count(pred) as real) * pixelAreaM2, (Count(gt) as real) * pixelAreaM2)
  {
    var m := ComputeMetrics(pred, gt, pixelAreaM2);
    assert m.predAreaM2 == (Count(pred) as real) * pixelAreaM2;
    assert m.gtAreaM2 == (Count(gt) as real) * pixelAreaM2;
  }

  /** Why `rasterize_ground_truth` can fail. */
  datatype EvalError =
    | GroundTruthMissingCrs  // ValueError: the ground-truth vector has no CRS
    | ReferenceMissingCrs    // ValueError from `to_crs(None)`: the reference raster has no CRS

  /**
   * `rasterize_ground_truth` on a rows x cols reference grid with CRS refCrs.
   * An empty source gives the all-false mask whatever its CRS; otherwise
   * a missing source CRS is an error, and so (from `to_crs(None)`) is a
   * reference raster without a CRS; otherwise the polygons left after
   * reprojection and flattening are rasterized as a union (none: all false).
   */
  function RasterizeGroundTruth<P>(
    src: VectorSource<P>, rows: nat, cols: nat, refCrs: Option<Crs>,
    project: (P, Crs, Crs) -> P, inside: (P, nat) -> bool): (r: Result<seq<bool>, EvalError>)
    ensures r.Failure? <==> src.geoms != [] && (src.crs.None? || refCrs.None?)
    ensures r.Failure? ==> r.error == (if src.crs.None? then GroundTruthMissingCrs else ReferenceMissingCrs)
    ensures r.Success? ==> |r.value| == rows * cols
    ensures src.geoms == [] ==> r == Success(Zeros(rows * cols))
  {
    if src.geoms == [] then Success(Zeros(rows * cols))
    else if src.crs.None? then Failure(GroundTruthMissingCrs)
    else if refCrs.None? then Failure(ReferenceMissingCrs)
    else
      var polys := Flatten(ToCrs(src.geoms, src.crs.value, refCrs.value, project));
      if polys == [] then Success(Zeros(rows * cols))
      else Success(Union(polys, inside, rows * cols))
  }

  /**
   * A ground-truth pixel is set exactly when some polygon of the source,
   * after reprojection to the reference CRS, covers it; in particular a
   * source of only null or non-polygon geometries rasterizes to all false.
   */
  lemma GroundTruthPixels<P>(
    src: VectorSource<P>, rows: nat, cols: nat, refCrs: Option<Crs>,
    project: (P, Crs, Crs) -> P, inside: (P, nat) -> bool, i: nat)
    requires src.geoms != [] && src.crs.Some? && refCrs.Some? && i < rows * cols
    ensures var r := RasterizeGroundTruth(src, rows, cols, refCrs, project, inside);
      r.Success? && (r.value[i] <==>
        exists k :: 0 <= k < |Flatten(src.geoms)| && inside(project(Flatten(src.geoms)[k], src.crs.value, refCrs.value), i))
  {
    var flat := Flatten(src.geoms);
    var polys := Flatten(ToCrs(src.geoms, src.crs.value, refCrs.value, project));
    FlattenToCrs(src.geoms, src.crs.value, refCrs.value, project);
    var r := RasterizeGroundTruth(src, rows, cols, refCrs, project, inside);
    if polys == [] {
      assert flat == [];
      assert !r.value[i];
    } else {
      assert r.value[i] == Covered(polys, inside, i);
      assert forall k :: 0 <= k < |flat| ==> polys[k] == project(flat[k], src.crs.value, refCrs.value);
    }
  }

  /** `default_report_path`: the mask path without its last suffix, then "_eval_report.md". */
  function DefaultReportPath(predMaskPath: string): (r: Result<string, PathError>)
    ensures r.Failure? <==> Name(predMaskPath) == "" || Name(predMaskPath) == "."
    ensures r.Success? ==> r.value == WithoutSuffix(predMaskPath).value + "_eval_report.md"
    ensures r.Success? ==> WithoutSuffix(predMaskPath).value + Suffix(predMaskPath) == predMaskPath
  {
    DerivedPath(predMaskPath, "_eval_report.md")
  }

  /** `_format_metric`: the token "inf" for infinity, the 4-decimal rendering `fixed4` otherwise. */
  function FormatMetric(v: RelError, fixed4: real -> string): (s: string)
    ensures v.Inf? ==> s == "inf"
    ensures v.Finite? ==> s == fixed4(v.value)
  {
    match v
    case Inf => "inf"
    case Finite(x) => fixed4(x)
  }

  /** A fixed-point rendering always has a '.', so "inf" appears exactly for the infinite error. */
  lemma InfTokenOnlyForInfinity(v: RelError, fixed4: real -> string)
    requires forall x :: '.' in fixed4(x)
    ensures FormatMetric(v, fixed4) == "inf" <==> v.Inf?
  {
    if v.Finite? {
      assert '.' in fixed4(v.value);
      assert '.' !in "inf";
    }
  }
}
