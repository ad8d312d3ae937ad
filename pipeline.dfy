/**
 * `reproject_aoi_to_raster_crs` of roof_area/pipeline/run.py: the AOI box is
 * kept when the two CRSs parse to the same CRS and reprojected otherwise.
 * `CRS.from_user_input` is the caller's parser, which may reject an input.
 */
module Pipeline {
  import opened Wrappers
  import opened CrsModel
  import opened Vector

  /**
   * `reproject_aoi_to_raster_crs`. Both CRSs are parsed, the AOI's first; an
   * input pyproj cannot parse is the failure (its CRSError).
   */
  function ReprojectAoiToRasterCrs(
    aoi: Bounds, aoiCrs: CrsInput, rasterCrs: CrsInput,
    parse: Parser, fromCrs: TransformerFactory): (r: Result<Bounds, CrsInput>)
    ensures r.Failure? <==> parse(aoiCrs).None? || parse(rasterCrs).None?
    ensures parse(aoiCrs).None? ==> r == Failure(aoiCrs)
    ensures parse(aoiCrs).Some? && parse(rasterCrs).None? ==> r == Failure(rasterCrs)
    ensures r.Success? && parse(aoiCrs) == parse(rasterCrs) ==> r.value == aoi
    ensures r.Success? && parse(aoiCrs) != parse(rasterCrs) ==> r.value == ReprojectBounds(aoi, aoiCrs, rasterCrs, fromCrs)
  {
    match parse(aoiCrs)
    case None => Failure(aoiCrs)
    case Some(a) =>
      match parse(rasterCrs)
      case None => Failure(rasterCrs)
      case Some(b) =>
        if a == b then Success(aoi) else Success(ReprojectBounds(aoi, aoiCrs, rasterCrs, fromCrs))
  }

  /** When the CRSs agree no transform is consulted: any two transformer factories give the same, unchanged box. */
  lemma SameCrsIgnoresTransformer(
    aoi: Bounds, aoiCrs: CrsInput, rasterCrs: CrsInput,
    parse: Parser, f: TransformerFactory, g: TransformerFactory)
    requires parse(aoiCrs) == parse(rasterCrs)
    ensures ReprojectAoiToRasterCrs(aoi, aoiCrs, rasterCrs, parse, f)
         == if parse(aoiCrs).Some? then Success(aoi) else Failure(aoiCrs)
    ensures ReprojectAoiToRasterCrs(aoi, aoiCrs, rasterCrs, parse, f)
         == ReprojectAoiToRasterCrs(aoi, aoiCrs, rasterCrs, parse, g)
  {
  }

  /**
   * Equality is decided on parsed values: an identifier and the CRS object it
   * parses to short-circuit alike, whichever side each is on.
   */
  lemma TextAndObjectShortCircuitAlike(
    aoi: Bounds, id: string, c: Crs, parse: Parser, fromCrs: TransformerFactory)
    requires parse(Text(id)) == Some(c) && parse(Object(c)) == Some(c)
    ensures ReprojectAoiToRasterCrs(aoi, Text(id), Object(c), parse, fromCrs) == Success(aoi)
    ensures ReprojectAoiToRasterCrs(aoi, Object(c), Text(id), parse, fromCrs) == Success(aoi)
    ensures ReprojectAoiToRasterCrs(aoi, Text(id), Text(id), parse, fromCrs) == Success(aoi)
  {
  }

  /**
   * Whatever the CRSs, an ordered AOI comes back ordered; when reprojected, the
   * box is the tight envelope of the transformed corners.
   */
  lemma AoiEnvelope(
    aoi: Bounds, aoiCrs: CrsInput, rasterCrs: CrsInput,
    parse: Parser, fromCrs: TransformerFactory)
    requires Ordered(aoi)
    ensures var r := ReprojectAoiToRasterCrs(aoi, aoiCrs, rasterCrs, parse, fromCrs);
      r.Success? ==>
        && Ordered(r.value)
        && (parse(aoiCrs) != parse(rasterCrs) ==> Envelope(r.value, Transformed(aoi, fromCrs(aoiCrs, rasterCrs))))
  {
  }

  /** Feeding a result back in with the raster CRS on both sides changes nothing. */
  lemma ReprojectAoiSettles(
    aoi: Bounds, aoiCrs: CrsInput, rasterCrs: CrsInput,
    parse: Parser, fromCrs: TransformerFactory)
    ensures var r := ReprojectAoiToRasterCrs(aoi, aoiCrs, rasterCrs, parse, fromCrs);
      r.Success? ==> ReprojectAoiToRasterCrs(r.value, rasterCrs, rasterCrs, parse, fromCrs) == r
  {
  }
}
