/**
 * Vector geometries as the core sees them: a GeoDataFrame's geometry column
 * with its CRS, the `_iter_polygons` flattening filter (present verbatim in
 * both roof_area/metrics/eval.py and roof_area/model/infer.py), `to_crs`
 * reprojection, and rasterization of polygon interiors onto a grid.
 *
 * Polygons are an abstract type P. Reprojecting one polygon and deciding
 * whether a pixel lies inside it are foreign (shapely/pyproj and rasterio)
 * and are passed in as functions.
 */
module Geometry {
  import opened Wrappers
  import opened CrsModel

  /** A geometry cell: missing, a Polygon, a MultiPolygon's parts, or any other type. */
  datatype Geom<P> = Null | Poly(polygon: P) | Multi(parts: seq<P>) | Other(geomType: string)

  /** A loaded vector file: its rows' geometries and its (possibly missing) CRS. */
  datatype VectorSource<P> = VectorSource(geoms: seq<Geom<P>>, crs: Option<Crs>)

  /** The polygons one geometry contributes. */
  function Parts<P>(g: Geom<P>): seq<P>
  {
    match g
    case Null => []
    case Poly(p) => [p]
    case Multi(ps) => ps
    case Other(_) => []
  }

  /** The polygons of a geometry column, in order: the specification of IterPolygons. */
  function Flatten<P>(gs: seq<Geom<P>>): (ps: seq<P>)
    ensures forall p :: p in ps ==> exists i :: 0 <= i < |gs| && p in Parts(gs[i])
  {
    if gs == [] then [] else Flatten(gs[..|gs| - 1]) + Parts(gs[|gs| - 1])
  }

  /** The generator loop of `_iter_polygons`, collected into a sequence. */
  method IterPolygons<P>(gs: seq<Geom<P>>) returns (ps: seq<P>)
    ensures ps == Flatten(gs)
  {
    ps := [];
    var i := 0;
    while i < |gs|
      invariant 0 <= i <= |gs|
      invariant ps == Flatten(gs[..i])
    {
      FlattenPrefixStep(gs, i);
      match gs[i] {
        case Null =>
        case Poly(p) =>
          ps := ps + [p];
        case Multi(parts) =>
          var j := 0;
          ghost var before := ps;
          while j < |parts|
            invariant 0 <= j <= |parts|
            invariant ps == before + parts[..j]
          {
            assert parts[..j + 1] == parts[..j] + [parts[j]];
            ps := ps + [parts[j]];
            j := j + 1;
          }
          assert parts[..|parts|] == parts;
        case Other(_) =>
      }
      i := i + 1;
    }
    assert gs[..|gs|] == gs;
  }

  /** One more row of the column adds that row's parts. */
  lemma FlattenPrefixStep<P>(gs: seq<Geom<P>>, i: nat)
    requires i < |gs|
    ensures Flatten(gs[..i + 1]) == Flatten(gs[..i]) + Parts(gs[i])
  {
    assert gs[..i + 1][..i] == gs[..i];
    assert gs[..i + 1][i] == gs[i];
  }

  /** Flattening distributes over concatenation of geometry columns. */
  lemma {:induction false} FlattenAppend<P>(a: seq<Geom<P>>, b: seq<Geom<P>>)
    ensures Flatten(a + b) == Flatten(a) + Flatten(b)
    decreases |b|
  {
    if b == [] {
      assert a + b == a;
    } else {
      assert (a + b)[..|a + b| - 1] == a + b[..|b| - 1];
      assert (a + b)[|a + b| - 1] == b[|b| - 1];
      FlattenAppend(a, b[..|b| - 1]);
    }
  }

  /**
   * Membership: a polygon is yielded exactly when some row is that Polygon
   * or a MultiPolygon containing it; Null and other geometry types add nothing.
   */
  lemma {:induction false} FlattenMembers<P>(gs: seq<Geom<P>>, p: P)
    ensures p in Flatten(gs) <==>
      exists i :: 0 <= i < |gs| && (gs[i] == Poly(p) || (gs[i].Multi? && p in gs[i].parts))
  {
    if gs != [] {
      var init := gs[..|gs| - 1];
      FlattenMembers(init, p);
      assert forall i :: 0 <= i < |init| ==> init[i] == gs[i];
    }
  }

  /** Rows that are Null or of another geometry type can be dropped without changing the result. */
  lemma {:induction false} FlattenIgnoresNonPolygons<P>(a: seq<Geom<P>>, b: seq<Geom<P>>, g: Geom<P>)
    requires g.Null? || g.Other?
    ensures Flatten(a + [g] + b) == Flatten(a + b)
  {
    FlattenAppend(a + [g], b);
    FlattenAppend(a, b);
    assert Flatten(a + [g]) == Flatten(a) by {
      assert (a + [g])[..|a + [g]| - 1] == a;
      assert (a + [g])[|a + [g]| - 1] == g;
    }
  }

  /** One polygon list reprojected from src to dst. */
  function ProjectAll<P>(ps: seq<P>, src: Crs, dst: Crs, project: (P, Crs, Crs) -> P): (r: seq<P>)
    ensures |r| == |ps|
  {
    seq(|ps|, k requires 0 <= k < |ps| => project(ps[k], src, dst))
  }

  /** `to_crs` on one geometry: every polygon reprojected, Null and other types kept. */
  function GeomToCrs<P>(g: Geom<P>, src: Crs, dst: Crs, project: (P, Crs, Crs) -> P): Geom<P>
  {
    match g
    case Null => Null
    case Poly(p) => Poly(project(p, src, dst))
    case Multi(ps) => Multi(ProjectAll(ps, src, dst, project))
    case Other(t) => Other(t)
  }

  /** `to_crs` on a geometry column. */
  function ToCrs<P>(gs: seq<Geom<P>>, src: Crs, dst: Crs, project: (P, Crs, Crs) -> P): (r: seq<Geom<P>>)
    ensures |r| == |gs|
  {
    seq(|gs|, i requires 0 <= i < |gs| => GeomToCrs(gs[i], src, dst, project))
  }

  /** Reprojecting the column and then flattening equals flattening and then reprojecting each polygon. */
  lemma {:induction false} FlattenToCrs<P>(gs: seq<Geom<P>>, src: Crs, dst: Crs, project: (P, Crs, Crs) -> P)
    ensures Flatten(ToCrs(gs, src, dst, project)) == ProjectAll(Flatten(gs), src, dst, project)
  {
    if gs != [] {
      var init, last := gs[..|gs| - 1], gs[|gs| - 1];
      var t := ToCrs(gs, src, dst, project);
      assert t[..|gs| - 1] == ToCrs(init, src, dst, project);
      FlattenToCrs(init, src, dst, project);
      assert Parts(t[|gs| - 1]) == ProjectAll(Parts(last), src, dst, project);
      ProjectAllAppend(Flatten(init), Parts(last), src, dst, project);
    }
  }

  lemma ProjectAllAppend<P>(a: seq<P>, b: seq<P>, src: Crs, dst: Crs, project: (P, Crs, Crs) -> P)
    ensures ProjectAll(a + b, src, dst, project) == ProjectAll(a, src, dst, project) + ProjectAll(b, src, dst, project)
  {
  }

  /** Pixel i lies inside some polygon of ps, by the rasterizer's pixel-centre rule `inside`. */
  predicate Covered<P>(ps: seq<P>, inside: (P, nat) -> bool, i: nat)
  {
    exists k :: 0 <= k < |ps| && inside(ps[k], i)
  }

  /** The union of the polygons' interiors on a grid of n cells (`features.rasterize` with fill 1 over 0). */
  function Union<P>(ps: seq<P>, inside: (P, nat) -> bool, n: nat): (m: seq<bool>)
    ensures |m| == n
  {
    seq(n, i requires 0 <= i < n => Covered(ps, inside, i))
  }

  /** Adding one more polygon adds exactly that polygon's pixels. */
  lemma CoveredSnoc<P>(ps: seq<P>, p: P, inside: (P, nat) -> bool, i: nat)
    ensures Covered(ps + [p], inside, i) <==> Covered(ps, inside, i) || inside(p, i)
  {
    if Covered(ps, inside, i) {
      var k :| 0 <= k < |ps| && inside(ps[k], i);
      assert (ps + [p])[k] == ps[k];
    }
    if inside(p, i) {
      assert (ps + [p])[|ps|] == p;
    }
  }
}
