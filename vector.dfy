/**
 * `reproject_bounds` of roof_area/io/vector.py: the envelope of a bounding
 * box's four corners after a point transform. pyproj's
 * `Transformer.from_crs(src, dst, always_xy=True)` is foreign and is passed
 * in as a function from the two CRS inputs to an (x, y) -> (x, y) transform.
 */
module Vector {
  import opened Means
  import opened CrsModel

  /** `(minx, miny, maxx, maxy)`. */
  datatype Bounds = Bounds(minx: real, miny: real, maxx: real, maxy: real)

  /** A point transform in x/y order. */
  type Transform = ((real, real)) -> (real, real)

  /** `Transformer.from_crs(src, dst, always_xy=True)`. */
  type TransformerFactory = (CrsInput, CrsInput) -> Transform

  /** The box's corners in the order the source lists them. */
  function Corners(b: Bounds): (cs: seq<(real, real)>)
    ensures |cs| == 4
  {
    [(b.minx, b.miny), (b.maxx, b.miny), (b.minx, b.maxy), (b.maxx, b.maxy)]
  }

  /** Lower-left corner no further right or up than the upper-right one. */
  predicate Ordered(b: Bounds)
  {
    b.minx <= b.maxx && b.miny <= b.maxy
  }

  /** The point lies in the closed box. */
  predicate Inside(b: Bounds, p: (real, real))
  {
    b.minx <= p.0 <= b.maxx && b.miny <= p.1 <= b.maxy
  }

  /** The transformed corners. */
  function Transformed(b: Bounds, t: Transform): (ps: seq<(real, real)>)
    ensures |ps| == 4
    ensures forall k :: 0 <= k < 4 ==> ps[k] == t(Corners(b)[k])
  {
    var cs := Corners(b);
    seq(4, k requires 0 <= k < 4 => t(cs[k]))
  }

  function Xs(ps: seq<(real, real)>): (xs: seq<real>)
    ensures |xs| == |ps|
  {
    seq(|ps|, k requires 0 <= k < |ps| => ps[k].0)
  }

  function Ys(ps: seq<(real, real)>): (ys: seq<real>)
    ensures |ys| == |ps|
  {
    seq(|ps|, k requires 0 <= k < |ps| => ps[k].1)
  }

  /**
   * A box is the tight envelope of the points: it holds each of them, and each
   * of its four coordinates is a coordinate of one of them.
   */
  predicate Envelope(r: Bounds, ps: seq<(real, real)>)
  {
    && (forall k :: 0 <= k < |ps| ==> Inside(r, ps[k]))
    && (exists k :: 0 <= k < |ps| && ps[k].0 == r.minx)
    && (exists k :: 0 <= k < |ps| && ps[k].0 == r.maxx)
    && (exists k :: 0 <= k < |ps| && ps[k].1 == r.miny)
    && (exists k :: 0 <= k < |ps| && ps[k].1 == r.maxy)
  }

  /** `reproject_bounds`: min and max of the transformed corners' coordinates. */
  function ReprojectBounds(b: Bounds, src: CrsInput, dst: CrsInput, fromCrs: TransformerFactory): (r: Bounds)
    ensures Ordered(r)
    ensures Envelope(r, Transformed(b, fromCrs(src, dst)))
  {
    var ps := Transformed(b, fromCrs(src, dst));
    var xs, ys := Xs(ps), Ys(ps);
    var r := Bounds(MinOf(xs), MinOf(ys), MaxOf(xs), MaxOf(ys));
    assert forall k :: 0 <= k < 4 ==> xs[k] == ps[k].0 && ys[k] == ps[k].1;
    assert forall k :: 0 <= k < 4 ==> Inside(r, ps[k]);
    r
  }

  /** The envelope of a set of points is unique: any tight box around the transformed corners is the result. */
  lemma EnvelopeIsUnique(b: Bounds, src: CrsInput, dst: CrsInput, fromCrs: TransformerFactory, q: Bounds)
    requires Envelope(q, Transformed(b, fromCrs(src, dst)))
    ensures q == ReprojectBounds(b, src, dst, fromCrs)
  {
    TightBoxesAgree(q, ReprojectBounds(b, src, dst, fromCrs), Transformed(b, fromCrs(src, dst)));
  }

  /** Two tight boxes around the same points are the same box. */
  lemma TightBoxesAgree(q: Bounds, r: Bounds, ps: seq<(real, real)>)
    requires Envelope(q, ps) && Envelope(r, ps)
    ensures q == r
  {
    var i :| 0 <= i < |ps| && ps[i].0 == q.minx;
    var j :| 0 <= j < |ps| && ps[j].0 == r.minx;
    assert Inside(r, ps[i]) && Inside(q, ps[j]);
    var i2 :| 0 <= i2 < |ps| && ps[i2].0 == q.maxx;
    var j2 :| 0 <= j2 < |ps| && ps[j2].0 == r.maxx;
    assert Inside(r, ps[i2]) && Inside(q, ps[j2]);
    var i3 :| 0 <= i3 < |ps| && ps[i3].1 == q.miny;
    var j3 :| 0 <= j3 < |ps| && ps[j3].1 == r.miny;
    assert Inside(r, ps[i3]) && Inside(q, ps[j3]);
    var i4 :| 0 <= i4 < |ps| && ps[i4].1 == q.maxy;
    var j4 :| 0 <= j4 < |ps| && ps[j4].1 == r.maxy;
    assert Inside(r, ps[i4]) && Inside(q, ps[j4]);
  }

  /** Under the identity transform an ordered box comes back unchanged. */
  lemma IdentityKeepsOrderedBounds(b: Bounds, src: CrsInput, dst: CrsInput, fromCrs: TransformerFactory)
    requires forall p: (real, real) :: fromCrs(src, dst)(p) == p
    requires Ordered(b)
    ensures ReprojectBounds(b, src, dst, fromCrs) == b
  {
    var ps := Transformed(b, fromCrs(src, dst));
    assert ps[0] == (b.minx, b.miny) && ps[3] == (b.maxx, b.maxy);
    assert ps[1] == (b.maxx, b.miny) && ps[2] == (b.minx, b.maxy);
    EnvelopeIsUnique(b, src, dst, fromCrs, b);
  }

  /** A reversed box under the identity comes back ordered: the envelope sorts each axis. */
  lemma IdentitySortsReversedBounds(src: CrsInput, dst: CrsInput, fromCrs: TransformerFactory)
    requires forall p: (real, real) :: fromCrs(src, dst)(p) == p
    ensures ReprojectBounds(Bounds(1.0, 1.0, 0.0, 0.0), src, dst, fromCrs) == Bounds(0.0, 0.0, 1.0, 1.0)
  {
    var b := Bounds(1.0, 1.0, 0.0, 0.0);
    var ps := Transformed(b, fromCrs(src, dst));
    assert ps[0] == (1.0, 1.0) && ps[3] == (0.0, 0.0);
    assert ps[1] == (0.0, 1.0) && ps[2] == (1.0, 0.0);
    EnvelopeIsUnique(b, src, dst, fromCrs, Bounds(0.0, 0.0, 1.0, 1.0));
  }

  /** Only the four transformed corners matter: boxes whose corners transform alike give the same result. */
  lemma OnlyCornersMatter(b: Bounds, c: Bounds, src: CrsInput, dst: CrsInput, fromCrs: TransformerFactory)
    requires Transformed(b, fromCrs(src, dst)) == Transformed(c, fromCrs(src, dst))
    ensures ReprojectBounds(b, src, dst, fromCrs) == ReprojectBounds(c, src, dst, fromCrs)
  {
    EnvelopeIsUnique(b, src, dst, fromCrs, ReprojectBounds(c, src, dst, fromCrs));
  }
}
