/**
 * Area computation and metric-CRS classification of roof_area/metrics/area.py.
 *
 * A mask is a flattened numpy array of integers or booleans; its area is the
 * number of non-zero cells times the two pixel sides. A CRS's unit names are
 * tested for "metre" / "meter" after lower-casing.
 */
module Area {
  import opened Wrappers
  import opened Masks
  import opened CrsModel

  // ---------------------------------------------------------------- mask_area_m2

  /** `pixel_size_x`: a float, or a tuple meant to hold (px, py). */
  datatype PixelSize = Scalar(size: real) | Tuple(items: seq<real>)

  /** The ways `mask_area_m2` fails. */
  datatype AreaError =
    | MissingPixelSizeY   // ValueError: pixel_size_y absent and pixel_size_x not a tuple
    | WrongTupleLength    // ValueError: the tuple does not unpack into exactly two values
    | TupleAsFloat        // TypeError: float() applied to a tuple pixel_size_x

  /** The indices of the non-zero cells of an integer mask. */
  function NonzeroCells(m: seq<int>): set<nat>
  {
    set i: nat | i < |m| && m[i] != 0
  }

  /** `np.count_nonzero`: at most one per cell, and 0 exactly for an all-zero mask. */
  function CountNonzero(m: seq<int>): (n: nat)
    ensures n <= |m|
    ensures n == 0 <==> forall i :: 0 <= i < |m| ==> m[i] == 0
  {
    NonzeroCellsFacts(m);
    |NonzeroCells(m)|
  }

  lemma NonzeroCellsFacts(m: seq<int>)
    ensures |NonzeroCells(m)| <= |m|
    ensures NonzeroCells(m) == {} <==> forall i :: 0 <= i < |m| ==> m[i] == 0
  {
    var nonzero := seq(|m|, i requires 0 <= i < |m| => m[i] != 0);
    assert NonzeroCells(m) == Cells(nonzero);
    CountBound(nonzero);
    if k :| 0 <= k < |m| && m[k] != 0 {
      assert k as nat in NonzeroCells(m);
    }
  }

  /**
   * `mask_area_m2`. With pixel_size_y absent, pixel_size_x must be a tuple of
   * exactly two sides; with it present, pixel_size_x must be a number.
   */
  function MaskAreaM2(mask: seq<int>, pixelSizeX: PixelSize, pixelSizeY: Option<real>): (r: Result<real, AreaError>)
    ensures r.Failure? <==>
      if pixelSizeY.None? then pixelSizeX.Scalar? || |pixelSizeX.items| != 2 else pixelSizeX.Tuple?
    ensures r.Failure? && pixelSizeY.None? && pixelSizeX.Scalar? ==> r.error == MissingPixelSizeY
    ensures r.Success? && pixelSizeY.None? ==>
      r.value == CountNonzero(mask) as real * pixelSizeX.items[0] * pixelSizeX.items[1]
    ensures r.Success? && pixelSizeY.Some? ==>
      r.value == CountNonzero(mask) as real * pixelSizeX.size * pixelSizeY.value
  {
    if pixelSizeY.None? then
      if pixelSizeX.Scalar? then Failure(MissingPixelSizeY)
      else if |pixelSizeX.items| != 2 then Failure(WrongTupleLength)
      else Success(CountNonzero(mask) as real * pixelSizeX.items[0] * pixelSizeX.items[1])
    else if pixelSizeX.Tuple? then Failure(TupleAsFloat)
    else Success(CountNonzero(mask) as real * pixelSizeX.size * pixelSizeY.value)
  }

  /** An all-zero mask has area 0 whatever the pixel size. */
  lemma ZeroMaskHasNoArea(mask: seq<int>, px: real, py: real)
    requires forall i :: 0 <= i < |mask| ==> mask[i] == 0
    ensures MaskAreaM2(mask, Scalar(px), Some(py)) == Success(0.0)
  {
    assert NonzeroCells(mask) == {};
  }

  /** The area is linear in each pixel side; doubling both sides quadruples it. */
  lemma AreaScaling(mask: seq<int>, px: real, py: real, k: real)
    ensures MaskAreaM2(mask, Scalar(k * px), Some(py)).value == k * MaskAreaM2(mask, Scalar(px), Some(py)).value
    ensures MaskAreaM2(mask, Scalar(px), Some(k * py)).value == k * MaskAreaM2(mask, Scalar(px), Some(py)).value
    ensures MaskAreaM2(mask, Scalar(2.0 * px), Some(2.0 * py)).value == 4.0 * MaskAreaM2(mask, Scalar(px), Some(py)).value
  {
    var n := CountNonzero(mask) as real;
    assert n * (k * px) * py == k * (n * px * py);
    assert n * px * (k * py) == k * (n * px * py);
    assert n * (2.0 * px) * (2.0 * py) == 4.0 * (n * px * py);
  }

  /** Passing the pair as a tuple is the same as passing the two sides separately. */
  lemma TupleFormIsExplicitForm(mask: seq<int>, px: real, py: real)
    ensures MaskAreaM2(mask, Tuple([px, py]), None) == MaskAreaM2(mask, Scalar(px), Some(py))
  {
    var items := [px, py];
    assert items[0] == px && items[1] == py;
    assert MaskAreaM2(mask, Tuple(items), None).value == MaskAreaM2(mask, Scalar(px), Some(py)).value;
  }

  /** For a boolean mask, the non-zero count is the number of set cells. */
  lemma CountNonzeroOfBools(b: seq<bool>)
    ensures CountNonzero(AsInts(b)) == Count(b)
  {
    assert NonzeroCells(AsInts(b)) == Cells(b);
  }

  // ---------------------------------------------------------------- _is_metric_crs

  /** ASCII lower-casing of one character. */
  function LowerChar(c: char): char
  {
    if 'A' <= c <= 'Z' then (c as int + 32) as char else c
  }

  /** `str.lower()`, restricted to ASCII letters. */
  function ToLower(s: string): (t: string)
    ensures |t| == |s|
  {
    seq(|s|, i requires 0 <= i < |s| => LowerChar(s[i]))
  }

  /** sub occurs in s starting at index i. */
  predicate OccursAt(s: string, sub: string, i: int)
  {
    0 <= i <= |s| - |sub| && s[i..i + |sub|] == sub
  }

  /** Python's `sub in s`. */
  predicate Contains(s: string, sub: string)
  {
    exists i :: 0 <= i <= |s| - |sub| && OccursAt(s, sub, i)
  }

  /** One axis: its unit name, a missing name read as "", contains "metre" or "meter" after lower-casing. */
  predicate MetricUnit(unitName: Option<string>): (metric: bool)
    ensures unitName.None? ==> !metric
    ensures metric ==> |unitName.value| >= 5
  {
    var name := ToLower(unitName.GetOr(""));
    Contains(name, "metre") || Contains(name, "meter")
  }

  /**
   * `_is_metric_crs`: a projected CRS with some metric axis. Missing axis
   * information is an empty axis list.
   */
  predicate IsMetricCrs(crs: Crs): (metric: bool)
    ensures metric ==> crs.isProjected && crs.axisUnits.Some? && |crs.axisUnits.value| > 0
  {
    && crs.isProjected
    && var axes := crs.axisUnits.GetOr([]);
       exists k :: 0 <= k < |axes| && MetricUnit(axes[k])
  }

  /** A geographic CRS is never metric, and neither is one with no axes. */
  lemma NotMetricCases(name: string, axes: seq<Option<string>>)
    ensures !IsMetricCrs(Crs(name, false, Some(axes)))
    ensures !IsMetricCrs(Crs(name, true, None))
    ensures !IsMetricCrs(Crs(name, true, Some([])))
  {
  }

  /** Lower-casing twice is lower-casing once. */
  lemma ToLowerIdempotent(s: string)
    ensures ToLower(ToLower(s)) == ToLower(s)
  {
  }

  /** The unit test ignores letter case: a unit name and its lower-cased form classify alike. */
  lemma MetricUnitIgnoresCase(s: string)
    ensures MetricUnit(Some(s)) <==> MetricUnit(Some(ToLower(s)))
  {
    ToLowerIdempotent(s);
  }

  /** pyproj's unit names: "metre" and "kilometre" are metric, "degree" and the US survey foot are not. */
  lemma UnitExamples()
    ensures MetricUnit(Some("Metre")) && MetricUnit(Some("kilometre"))
    ensures !MetricUnit(Some("degree")) && !MetricUnit(Some("US survey foot"))
    ensures !MetricUnit(None)
  {
    assert ToLower("Metre") == "metre";
    assert OccursAt(ToLower("Metre"), "metre", 0);
    assert ToLower("kilometre") == "kilometre";
    assert OccursAt(ToLower("kilometre"), "metre", 4);
    NoMetreIn(ToLower("degree"));
    NoMetreIn(ToLower("US survey foot"));
  }

  /** A string without the letter 'm' contains neither "metre" nor "meter". */
  lemma NoMetreIn(s: string)
    requires forall k :: 0 <= k < |s| ==> s[k] != 'm'
    ensures !Contains(s, "metre") && !Contains(s, "meter")
  {
    forall i | 0 <= i <= |s| - 5
      ensures !OccursAt(s, "metre", i) && !OccursAt(s, "meter", i)
    {
      assert s[i..i + 5][0] == s[i];
    }
  }

  // ---------------------------------------------------------------- ensure_metric_crs

  /** Why `ensure_metric_crs` raises. */
  datatype CrsError =
    | CrsRequired                // ValueError: "CRS is required to compute metric areas"
    | Unparseable(input: CrsInput) // CRSError from `CRS.from_user_input` on that input

  /**
   * `ensure_metric_crs`: no CRS is an error; the CRS is parsed (which may
   * raise); a metric CRS is returned as parsed; any other CRS is replaced by
   * the parsed target (which may raise too), and the target is not itself
   * checked. The target defaults to "EPSG:3857", as in the source.
   */
  function EnsureMetricCrs(crs: Option<CrsInput>, parse: Parser, target: CrsInput := Text("EPSG:3857")): (r: Result<Crs, CrsError>)
    ensures crs.None? ==> r == Failure(CrsRequired)
    ensures crs.Some? && parse(crs.value).None? ==> r == Failure(Unparseable(crs.value))
    ensures crs.Some? && parse(crs.value).Some? ==>
      var parsed := parse(crs.value).value;
      && (IsMetricCrs(parsed) ==> r == Success(parsed))
      && (!IsMetricCrs(parsed) && parse(target).None? ==> r == Failure(Unparseable(target)))
      && (!IsMetricCrs(parsed) && parse(target).Some? ==> r == Success(parse(target).value))
    ensures r.Success? ==> Some(r.value) == parse(crs.value) || Some(r.value) == parse(target)
  {
    if crs.None? then Failure(CrsRequired)
    else
      match parse(crs.value)
      case None => Failure(Unparseable(crs.value))
      case Some(parsed) =>
        if IsMetricCrs(parsed) then Success(parsed)
        else
          match parse(target)
          case None => Failure(Unparseable(target))
          case Some(t) => Success(t)
  }

  /** The result is metric whenever the target is: the only way a non-metric CRS comes back is through the target. */
  lemma EnsureMetricCrsIsMetric(crs: CrsInput, target: CrsInput, parse: Parser)
    ensures var r := EnsureMetricCrs(Some(crs), parse, target);
      r.Success? && !IsMetricCrs(r.value) ==> parse(target) == Some(r.value) && !IsMetricCrs(parse(target).value)
  {
  }

  /**
   * When parsing a CRS object gives it back and the target is metric,
   * feeding a result in again returns it unchanged.
   */
  lemma EnsureMetricCrsIdempotent(crs: CrsInput, target: CrsInput, parse: Parser)
    requires forall c :: parse(Object(c)) == Some(c)
    requires parse(target).Some? && IsMetricCrs(parse(target).value)
    ensures var once := EnsureMetricCrs(Some(crs), parse, target);
      once.Success? ==> EnsureMetricCrs(Some(Object(once.value)), parse, target) == once
  {
  }
}
