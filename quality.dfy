/**
 * The per-roof quality scores of roof_area/metrics/quality.py.
 *
 * `shadow_score` works on flattened (row-major) images and masks.
 * `edge_confidence` needs 4-neighbours, so it works on rows of cells; a grid
 * is a sequence of rows of one common width.
 */
module Quality {
  import opened Masks
  import opened Arith
  import opened Means

  // ---------------------------------------------------------------- shadow_score

  /**
   * An image as `shadow_score` receives it: one value per pixel (ndim 2), or
   * the channel values of each pixel (ndim 3), which are averaged first.
   */
  datatype Image = Plane(values: seq<real>) | Channels(pixels: seq<seq<real>>)

  function Size(img: Image): nat
  {
    match img
    case Plane(v) => |v|
    case Channels(px) => |px|
  }

  /**
   * `image <= darkness_threshold` at pixel i. A pixel with no channels has
   * mean NaN, and NaN compares false, so it is never dark.
   */
  predicate Dark(img: Image, i: nat, threshold: real)
    requires i < Size(img)
  {
    match img
    case Plane(v) => v[i] <= threshold
    case Channels(px) => |px[i]| > 0 && Mean(px[i]) <= threshold
  }

  /** The dark-pixel mask of an image. */
  function DarkMask(img: Image, threshold: real): (d: seq<bool>)
    ensures |d| == Size(img)
  {
    seq(Size(img), i requires 0 <= i < Size(img) => Dark(img, i, threshold))
  }

  /** Number of masked pixels that are dark. */
  function DarkInMask(img: Image, mask: seq<bool>, threshold: real): nat
    requires |mask| == Size(img)
  {
    Count(And(mask, DarkMask(img, threshold)))
  }

  /** d out of n as a fraction, 0.0 when n is 0. */
  function FractionOf(d: nat, n: nat): (r: real)
    requires d <= n
    ensures 0.0 <= r <= 1.0
    ensures n == 0 ==> r == 0.0
  {
    if n == 0 then 0.0 else d as real / n as real
  }

  /** Away from n == 0 the fraction times n is d, and it is 1.0 exactly when d == n. */
  lemma FractionFacts(d: nat, n: nat)
    requires d <= n && n > 0
    ensures FractionOf(d, n) * (n as real) == d as real
    ensures FractionOf(d, n) == 1.0 <==> d == n
  {
    var q := d as real / n as real;
    assert q * (n as real) == d as real;
  }

  /** Over one denominator, fractions are ordered as their numerators. */
  lemma FractionOrder(d1: nat, d2: nat, n: nat)
    requires d1 <= n && d2 <= n && n > 0
    ensures d1 < d2 <==> FractionOf(d1, n) < FractionOf(d2, n)
  {
    if d1 < d2 {
      DivStrict(d1 as real, d2 as real, n as real);
    } else {
      DivLe(d2 as real, d1 as real, n as real);
    }
  }

  /** Division by a positive real keeps a strict order. */
  lemma DivStrict(a: real, b: real, m: real)
    requires a < b && m > 0.0
    ensures a / m < b / m
  {
    assert b / m - a / m == (b - a) / m;
  }

  /** Division by a positive real keeps a non-strict order. */
  lemma DivLe(a: real, b: real, m: real)
    requires a <= b && m > 0.0
    ensures a / m <= b / m
  {
    assert b / m - a / m == (b - a) / m;
  }

  /**
   * `shadow_score`: the fraction of masked pixels at or below the threshold,
   * 0.0 when the mask selects nothing. The darkness threshold defaults to 0.3.
   */
  function ShadowScore(img: Image, mask: seq<bool>, threshold: real := 0.3): (r: real)
    requires |mask| == Size(img)
    ensures 0.0 <= r <= 1.0
    ensures Count(mask) == 0 ==> r == 0.0
  {
    IntersectionBounds(mask, DarkMask(img, threshold));
    FractionOf(DarkInMask(img, mask, threshold), Count(mask))
  }

  /** With some pixel selected, the score times the selection is the number of dark selected pixels. */
  lemma ShadowScoreFraction(img: Image, mask: seq<bool>, threshold: real)
    requires |mask| == Size(img) && Count(mask) > 0
    ensures ShadowScore(img, mask, threshold) * (Count(mask) as real) == DarkInMask(img, mask, threshold) as real
  {
    IntersectionBounds(mask, DarkMask(img, threshold));
    FractionFacts(DarkInMask(img, mask, threshold), Count(mask));
  }

  /** The score is 1.0 exactly when every masked pixel is dark (and something is masked). */
  lemma AllDark(img: Image, mask: seq<bool>, threshold: real)
    requires |mask| == Size(img)
    ensures ShadowScore(img, mask, threshold) == 1.0 <==>
      Count(mask) > 0 && forall i :: 0 <= i < |mask| && mask[i] ==> Dark(img, i, threshold)
  {
    var d := DarkMask(img, threshold);
    var a := And(mask, d);
    IntersectionBounds(mask, d);
    if Count(mask) > 0 {
      FractionFacts(Count(a), Count(mask));
      if forall i :: 0 <= i < |mask| && mask[i] ==> Dark(img, i, threshold) {
        assert a == mask;
      } else {
        var k :| 0 <= k < |mask| && mask[k] && !Dark(img, k, threshold);
        assert mask[k] && !a[k];
        CountMonotone(a, mask);
      }
    }
  }

  /**
   * For one mask, the image with more dark masked pixels scores strictly
   * higher, and conversely.
   */
  lemma ShadowScoreOrder(img1: Image, img2: Image, mask: seq<bool>, threshold: real)
    requires |mask| == Size(img1) == Size(img2) && Count(mask) > 0
    ensures DarkInMask(img1, mask, threshold) < DarkInMask(img2, mask, threshold) <==>
      ShadowScore(img1, mask, threshold) < ShadowScore(img2, mask, threshold)
  {
    IntersectionBounds(mask, DarkMask(img1, threshold));
    IntersectionBounds(mask, DarkMask(img2, threshold));
    FractionOrder(DarkInMask(img1, mask, threshold), DarkInMask(img2, mask, threshold), Count(mask));
  }

  /** At the default threshold of 0.3 a pixel of 0.3 is dark and one of 0.31 is not. */
  lemma DefaultDarknessThreshold()
    ensures ShadowScore(Plane([0.3]), [true]) == 1.0
    ensures ShadowScore(Plane([0.31]), [true]) == 0.0
  {
    ThresholdIsInclusive(0.3);
    CountExtremes([true]);
    assert And([true], DarkMask(Plane([0.31]), 0.3)) == [false];
    CountExtremes([false]);
  }

  /** The darkness test is inclusive: a pixel exactly at the threshold is dark. */
  lemma ThresholdIsInclusive(t: real)
    ensures ShadowScore(Plane([t]), [true], t) == 1.0
  {
    AllDark(Plane([t]), [true], t);
    CountExtremes([true]);
  }

  /** The roof mask of tests/test_shadow_score.py: the central 2 x 2 block of a 4 x 4 grid. */
  const ExampleRoof: seq<bool> :=
    [false, false, false, false,
     false, true, true, false,
     false, true, true, false,
     false, false, false, false]

  /** The test's image with one shadowed roof pixel. */
  const LowShadow: Image :=
    Plane([0.9, 0.9, 0.9, 0.9, 0.9, 0.1, 0.9, 0.9, 0.9, 0.9, 0.9, 0.9, 0.9, 0.9, 0.9, 0.9])

  /** The test's image with the whole roof shadowed. */
  const HighShadow: Image :=
    Plane([0.9, 0.9, 0.9, 0.9, 0.9, 0.1, 0.1, 0.9, 0.9, 0.1, 0.1, 0.9, 0.9, 0.9, 0.9, 0.9])

  lemma ExampleRoofCount()
    ensures Count(ExampleRoof) == 4
  {
    assert Cells(ExampleRoof) == {5, 6, 9, 10};
  }

  lemma LowShadowCount()
    ensures DarkInMask(LowShadow, ExampleRoof, 0.2) == 1
  {
    assert Cells(And(ExampleRoof, DarkMask(LowShadow, 0.2))) == {5};
  }

  lemma HighShadowCount()
    ensures DarkInMask(HighShadow, ExampleRoof, 0.2) == 4
  {
    assert Cells(And(ExampleRoof, DarkMask(HighShadow, 0.2))) == {5, 6, 9, 10};
  }

  /** The test's two images at threshold 0.2: one dark roof pixel of four, then all four. */
  lemma ShadowScoreExample()
    ensures ShadowScore(LowShadow, ExampleRoof, 0.2) == 0.25
    ensures ShadowScore(HighShadow, ExampleRoof, 0.2) == 1.0
  {
    ExampleRoofCount();
    LowShadowCount();
    HighShadowCount();
  }

  // ---------------------------------------------------------------- edge_confidence

  /** A grid of `rows` rows, each `cols` cells wide. */
  predicate Shaped<T>(g: seq<seq<T>>, rows: nat, cols: nat)
  {
    |g| == rows && forall r :: 0 <= r < rows ==> |g[r]| == cols
  }

  /** The mask cell at (r, c); false outside the grid (numpy's pad with False). */
  predicate Cell(mask: seq<seq<bool>>, r: int, c: int)
  {
    0 <= r < |mask| && 0 <= c < |mask[r]| && mask[r][c]
  }

  /** A set cell whose four neighbours are all set. */
  predicate Interior(mask: seq<seq<bool>>, r: int, c: int)
  {
    Cell(mask, r, c) && Cell(mask, r - 1, c) && Cell(mask, r + 1, c) && Cell(mask, r, c - 1) && Cell(mask, r, c + 1)
  }

  /** `mask & ~interior`. */
  predicate Edge(mask: seq<seq<bool>>, r: int, c: int)
  {
    Cell(mask, r, c) && !Interior(mask, r, c)
  }

  /** An edge cell is a set cell with a false or out-of-grid 4-neighbour; edge and interior split the mask. */
  lemma EdgeCharacterization(mask: seq<seq<bool>>, r: int, c: int)
    ensures Edge(mask, r, c) <==>
      Cell(mask, r, c) && (!Cell(mask, r - 1, c) || !Cell(mask, r + 1, c) || !Cell(mask, r, c - 1) || !Cell(mask, r, c + 1))
    ensures Cell(mask, r, c) <==> (Edge(mask, r, c) || Interior(mask, r, c))
    ensures !(Edge(mask, r, c) && Interior(mask, r, c))
  {
  }

  /** Walking up a column from a set cell reaches an edge cell: the topmost set cell of that run. */
  lemma {:induction false} EdgeAbove(mask: seq<seq<bool>>, r: nat, c: nat)
    requires Cell(mask, r, c)
    ensures exists r' :: 0 <= r' <= r && Edge(mask, r', c)
  {
    if !Cell(mask, r - 1, c) {
      assert Edge(mask, r, c);
    } else {
      EdgeAbove(mask, r - 1, c);
    }
  }

  /**
   * The probabilities at the edge cells among the first k cells in row-major
   * order: numpy's boolean indexing `probability[edge]`.
   */
  function EdgeValuesBelow(mask: seq<seq<bool>>, prob: seq<seq<real>>, cols: nat, k: nat): seq<real>
    requires cols > 0 && Shaped(mask, |mask|, cols) && Shaped(prob, |mask|, cols)
    requires k <= |mask| * cols
  {
    if k == 0 then []
    else
      var r, c := (k - 1) / cols, (k - 1) % cols;
      DivBelow(k - 1, |mask|, cols);
      EdgeValuesBelow(mask, prob, cols, k - 1) + (if Edge(mask, r, c) then [prob[r][c]] else [])
  }

  /** The edge values of the whole grid, in row-major order. */
  function EdgeValues(mask: seq<seq<bool>>, prob: seq<seq<real>>, cols: nat): seq<real>
    requires cols > 0 && Shaped(mask, |mask|, cols) && Shaped(prob, |mask|, cols)
  {
    EdgeValuesBelow(mask, prob, cols, |mask| * cols)
  }

  /** No value is collected exactly when no cell among the first k is an edge. */
  lemma {:induction false} NoEdgeValuesBelow(mask: seq<seq<bool>>, prob: seq<seq<real>>, cols: nat, k: nat)
    requires cols > 0 && Shaped(mask, |mask|, cols) && Shaped(prob, |mask|, cols)
    requires k <= |mask| * cols
    ensures EdgeValuesBelow(mask, prob, cols, k) == [] <==>
      forall j :: 0 <= j < k ==> !Edge(mask, j / cols, j % cols)
  {
    if k > 0 {
      NoEdgeValuesBelow(mask, prob, cols, k - 1);
    }
  }

  /** Every collected value is the probability of some edge cell. */
  lemma {:induction false} EdgeValuesAreEdgeProbabilities(mask: seq<seq<bool>>, prob: seq<seq<real>>, cols: nat, k: nat)
    requires cols > 0 && Shaped(mask, |mask|, cols) && Shaped(prob, |mask|, cols)
    requires k <= |mask| * cols
    ensures forall v :: v in EdgeValuesBelow(mask, prob, cols, k) ==>
      exists r, c :: 0 <= r < |mask| && 0 <= c < cols && Edge(mask, r, c) && v == prob[r][c]
  {
    if k > 0 {
      EdgeValuesAreEdgeProbabilities(mask, prob, cols, k - 1);
      DivBelow(k - 1, |mask|, cols);
    }
  }

  /** The edge cells whose row-major index is below k, as (row, column) pairs. */
  function EdgeCellsBelow(mask: seq<seq<bool>>, cols: nat, k: nat): set<(nat, nat)>
  {
    set r: nat, c: nat | r < |mask| && c < cols && r * cols + c < k && Edge(mask, r, c) :: (r, c)
  }

  /** All edge cells of a grid `cols` wide: the True cells of numpy's `edge`. */
  function EdgeCells(mask: seq<seq<bool>>, cols: nat): set<(nat, nat)>
  {
    set r: nat, c: nat | r < |mask| && c < cols && Edge(mask, r, c) :: (r, c)
  }

  /** One more cell in row-major order adds that cell, if it is an edge, and no other. */
  lemma EdgeCellsStep(mask: seq<seq<bool>>, cols: nat, k: nat)
    requires cols > 0
    ensures var q, m := k / cols, k % cols;
      && q * cols + m == k
      && (q, m) !in EdgeCellsBelow(mask, cols, k)
      && EdgeCellsBelow(mask, cols, k + 1)
         == EdgeCellsBelow(mask, cols, k) + (if Edge(mask, q, m) then {(q, m)} else {})
  {
    DivModNat(k, cols);
    var q, m := k / cols, k % cols;
    var before, after := EdgeCellsBelow(mask, cols, k), EdgeCellsBelow(mask, cols, k + 1);
    var added: set<(nat, nat)> := if Edge(mask, q, m) then {(q, m)} else {};
    forall rc | rc in after
      ensures rc in before + added
    {
      var (r, c) := rc;
      if r * cols + c == k {
        DivModIndex(r, c, cols);
      }
    }
  }

  /** The edge cells below k + 1 number one more than those below k exactly when cell k is an edge. */
  lemma EdgeCellsCountStep(mask: seq<seq<bool>>, cols: nat, k: nat)
    requires cols > 0
    ensures |EdgeCellsBelow(mask, cols, k + 1)|
      == |EdgeCellsBelow(mask, cols, k)| + (if Edge(mask, k / cols, k % cols) then 1 else 0)
  {
    EdgeCellsStep(mask, cols, k);
    if Edge(mask, k / cols, k % cols) {
      CardAdd(EdgeCellsBelow(mask, cols, k), (k / cols, k % cols));
    }
  }

  /** Adding an absent element grows a set by one. */
  lemma CardAdd<T>(a: set<T>, x: T)
    requires x !in a
    ensures |a + {x}| == |a| + 1
  {
  }

  /** The edge values below k are as many as the edge cells below k. */
  lemma {:induction false} EdgeValuesCountBelow(mask: seq<seq<bool>>, prob: seq<seq<real>>, cols: nat, k: nat)
    requires cols > 0 && Shaped(mask, |mask|, cols) && Shaped(prob, |mask|, cols)
    requires k <= |mask| * cols
    ensures |EdgeValuesBelow(mask, prob, cols, k)| == |EdgeCellsBelow(mask, cols, k)|
  {
    if k == 0 {
      assert EdgeCellsBelow(mask, cols, 0) == {};
    } else {
      EdgeValuesCountBelow(mask, prob, cols, k - 1);
      EdgeCellsCountStep(mask, cols, k - 1);
      DivBelow(k - 1, |mask|, cols);
    }
  }

  /** Every edge cell below k contributes its probability. */
  lemma {:induction false} EdgeValuesCoverBelow(mask: seq<seq<bool>>, prob: seq<seq<real>>, cols: nat, k: nat)
    requires cols > 0 && Shaped(mask, |mask|, cols) && Shaped(prob, |mask|, cols)
    requires k <= |mask| * cols
    ensures forall rc :: rc in EdgeCellsBelow(mask, cols, k) ==>
      rc.0 < |prob| && rc.1 < |prob[rc.0]| && prob[rc.0][rc.1] in EdgeValuesBelow(mask, prob, cols, k)
  {
    if k > 0 {
      EdgeValuesCoverBelow(mask, prob, cols, k - 1);
      EdgeCellsStep(mask, cols, k - 1);
      DivBelow(k - 1, |mask|, cols);
    }
  }

  /**
   * `probability[edge]` is complete: every edge cell's probability is among the
   * edge values, and there is exactly one value per edge cell.
   */
  lemma EdgeValuesComplete(mask: seq<seq<bool>>, prob: seq<seq<real>>, cols: nat)
    requires cols > 0 && Shaped(mask, |mask|, cols) && Shaped(prob, |mask|, cols)
    ensures forall r, c :: 0 <= r < |mask| && 0 <= c < cols && Edge(mask, r, c) ==>
      prob[r][c] in EdgeValues(mask, prob, cols)
    ensures |EdgeValues(mask, prob, cols)| == |EdgeCells(mask, cols)|
  {
    var n := |mask| * cols;
    assert EdgeCellsBelow(mask, cols, n) == EdgeCells(mask, cols) by {
      forall rc | rc in EdgeCells(mask, cols)
        ensures rc in EdgeCellsBelow(mask, cols, n)
      {
        RowEnd(rc.0, |mask|, cols);
      }
    }
    EdgeValuesCountBelow(mask, prob, cols, n);
    EdgeValuesCoverBelow(mask, prob, cols, n);
    forall r, c | 0 <= r < |mask| && 0 <= c < cols && Edge(mask, r, c)
      ensures prob[r][c] in EdgeValues(mask, prob, cols)
    {
      assert (r as nat, c as nat) in EdgeCells(mask, cols);
    }
  }

  /** A grid has edge values exactly when some cell of its mask is set. */
  lemma EdgeValuesEmpty(mask: seq<seq<bool>>, prob: seq<seq<real>>, cols: nat)
    requires cols > 0 && Shaped(mask, |mask|, cols) && Shaped(prob, |mask|, cols)
    ensures EdgeValues(mask, prob, cols) == [] <==> forall r, c :: !Cell(mask, r, c)
  {
    NoEdgeValuesBelow(mask, prob, cols, |mask| * cols);
    if r, c :| Cell(mask, r, c) {
      EdgeAbove(mask, r, c);
      var r' :| 0 <= r' <= r && Edge(mask, r', c);
      DivModIndex(r', c, cols);
      RowEnd(r', |mask|, cols);
      var j := r' * cols + c;
      assert j < |mask| * cols && !(!Edge(mask, j / cols, j % cols));
    } else {
      forall j | 0 <= j < |mask| * cols
        ensures !Edge(mask, j / cols, j % cols)
      {
        assert !Cell(mask, j / cols, j % cols);
      }
    }
  }

  /** A set cell makes the grid non-empty. */
  lemma SetCellFillsGrid(mask: seq<seq<bool>>, cols: nat)
    requires Shaped(mask, |mask|, cols)
    ensures (exists r, c :: Cell(mask, r, c)) ==> cols > 0 && |mask| * cols > 0
  {
    if r, c :| Cell(mask, r, c) {
      RowEnd(r, |mask|, cols);
    }
  }

  /**
   * `edge_confidence`: 0.0 for an empty grid or a mask with no edge cell,
   * otherwise the mean probability over the edge cells. The no-edge fallback
   * is reached only by an all-false mask: a mask with a set cell always
   * scores the mean over its (non-empty) edge values.
   */
  function EdgeConfidence(prob: seq<seq<real>>, mask: seq<seq<bool>>, cols: nat): (conf: real)
    requires Shaped(mask, |mask|, cols) && Shaped(prob, |mask|, cols)
    ensures (forall r, c :: !Cell(mask, r, c)) ==> conf == 0.0
    ensures (exists r, c :: Cell(mask, r, c)) ==>
      cols > 0 && EdgeValues(mask, prob, cols) != [] && conf == Mean(EdgeValues(mask, prob, cols))
  {
    SetCellFillsGrid(mask, cols);
    if |mask| * cols == 0 then 0.0
    else
      EdgeValuesEmpty(mask, prob, cols);
      var e := EdgeValues(mask, prob, cols);
      if e == [] then 0.0 else Mean(e)
  }

  /** Probabilities in [0, 1] give a confidence in [0, 1]. */
  lemma EdgeConfidenceBounds(prob: seq<seq<real>>, mask: seq<seq<bool>>, cols: nat)
    requires Shaped(mask, |mask|, cols) && Shaped(prob, |mask|, cols)
    requires forall r, c :: 0 <= r < |prob| && 0 <= c < cols ==> 0.0 <= prob[r][c] <= 1.0
    ensures 0.0 <= EdgeConfidence(prob, mask, cols) <= 1.0
  {
    if |mask| * cols > 0 {
      var e := EdgeValues(mask, prob, cols);
      if e != [] {
        EdgeValuesAreEdgeProbabilities(mask, prob, cols, |mask| * cols);
        forall i | 0 <= i < |e|
          ensures 0.0 <= e[i] <= 1.0
        {
          assert e[i] in e;
        }
        MeanBounds(e, 0.0, 1.0);
      }
    }
  }

  /** The mask of tests/test_edge_confidence.py: a 3 x 3 block inside a 5 x 5 grid. */
  const ExampleMask: seq<seq<bool>> :=
     [[false, false, false, false, false],
      [false, true, true, true, false],
      [false, true, true, true, false],
      [false, true, true, true, false],
      [false, false, false, false, false]]

  /** The probabilities of that test. */
  const ExampleProb: seq<seq<real>> :=
     [[0.0, 0.0, 0.0, 0.0, 0.0],
      [0.0, 0.2, 0.3, 0.4, 0.0],
      [0.0, 0.5, 0.9, 0.6, 0.0],
      [0.0, 0.7, 0.8, 0.1, 0.0],
      [0.0, 0.0, 0.0, 0.0, 0.0]]

  lemma ExampleShaped()
    ensures Shaped(ExampleMask, 5, 5) && Shaped(ExampleProb, 5, 5)
  {
  }

  /** Row 0 of the example grid in the row-major walk. */
  lemma ExampleRow0()
    ensures Shaped(ExampleMask, 5, 5) && Shaped(ExampleProb, 5, 5)
    ensures EdgeValuesBelow(ExampleMask, ExampleProb, 5, 5) == []
  {
    ExampleShaped();
    assert !Edge(ExampleMask, 0, 0);
    assert EdgeValuesBelow(ExampleMask, ExampleProb, 5, 1) == [];
    assert !Edge(ExampleMask, 0, 1);
    assert EdgeValuesBelow(ExampleMask, ExampleProb, 5, 2) == [];
    assert !Edge(ExampleMask, 0, 2);
    assert EdgeValuesBelow(ExampleMask, ExampleProb, 5, 3) == [];
    assert !Edge(ExampleMask, 0, 3);
    assert EdgeValuesBelow(ExampleMask, ExampleProb, 5, 4) == [];
    assert !Edge(ExampleMask, 0, 4);
    assert EdgeValuesBelow(ExampleMask, ExampleProb, 5, 5) == [];
  }

  /** Row 1 of the example grid in the row-major walk. */
  lemma ExampleRow1()
    ensures Shaped(ExampleMask, 5, 5) && Shaped(ExampleProb, 5, 5)
    ensures EdgeValuesBelow(ExampleMask, ExampleProb, 5, 10) == [0.2, 0.3, 0.4]
  {
    ExampleShaped();
    ExampleRow0();
    assert !Edge(ExampleMask, 1, 0);
    assert EdgeValuesBelow(ExampleMask, ExampleProb, 5, 6) == [];
    assert Edge(ExampleMask, 1, 1);
    assert EdgeValuesBelow(ExampleMask, ExampleProb, 5, 7) == [0.2];
    assert Edge(ExampleMask, 1, 2);
    assert EdgeValuesBelow(ExampleMask, ExampleProb, 5, 8) == [0.2, 0.3];
    assert Edge(ExampleMask, 1, 3);
    assert EdgeValuesBelow(ExampleMask, ExampleProb, 5, 9) == [0.2, 0.3, 0.4];
    assert !Edge(ExampleMask, 1, 4);
    assert EdgeValuesBelow(ExampleMask, ExampleProb, 5, 10) == [0.2, 0.3, 0.4];
  }

  /** Row 2 of the example grid in the row-major walk. */
  lemma ExampleRow2()
    ensures Shaped(ExampleMask, 5, 5) && Shaped(ExampleProb, 5, 5)
    ensures EdgeValuesBelow(ExampleMask, ExampleProb, 5, 15) == [0.2, 0.3, 0.4, 0.5, 0.6]
  {
    ExampleShaped();
    ExampleRow1();
    assert !Edge(ExampleMask, 2, 0);
    assert EdgeValuesBelow(ExampleMask, ExampleProb, 5, 11) == [0.2, 0.3, 0.4];
    assert Edge(ExampleMask, 2, 1);
    assert EdgeValuesBelow(ExampleMask, ExampleProb, 5, 12) == [0.2, 0.3, 0.4, 0.5];
    assert !Edge(ExampleMask, 2, 2);
    assert EdgeValuesBelow(ExampleMask, ExampleProb, 5, 13) == [0.2, 0.3, 0.4, 0.5];
    assert Edge(ExampleMask, 2, 3);
    assert EdgeValuesBelow(ExampleMask, ExampleProb, 5, 14) == [0.2, 0.3, 0.4, 0.5, 0.6];
    assert !Edge(ExampleMask, 2, 4);
    assert EdgeValuesBelow(ExampleMask, ExampleProb, 5, 15) == [0.2, 0.3, 0.4, 0.5, 0.6];
  }

  /** Row 3 of the example grid in the row-major walk. */
  lemma ExampleRow3()
    ensures Shaped(ExampleMask, 5, 5) && Shaped(ExampleProb, 5, 5)
    ensures EdgeValuesBelow(ExampleMask, ExampleProb, 5, 20) == [0.2, 0.3, 0.4, 0.5, 0.6, 0.7, 0.8, 0.1]
  {
    ExampleShaped();
    ExampleRow2();
    assert !Edge(ExampleMask, 3, 0);
    assert EdgeValuesBelow(ExampleMask, ExampleProb, 5, 16) == [0.2, 0.3, 0.4, 0.5, 0.6];
    assert Edge(ExampleMask, 3, 1);
    assert EdgeValuesBelow(ExampleMask, ExampleProb, 5, 17) == [0.2, 0.3, 0.4, 0.5, 0.6, 0.7];
    assert Edge(ExampleMask, 3, 2);
    assert EdgeValuesBelow(ExampleMask, ExampleProb, 5, 18) == [0.2, 0.3, 0.4, 0.5, 0.6, 0.7, 0.8];
    assert Edge(ExampleMask, 3, 3);
    assert EdgeValuesBelow(ExampleMask, ExampleProb, 5, 19) == [0.2, 0.3, 0.4, 0.5, 0.6, 0.7, 0.8, 0.1];
    assert !Edge(ExampleMask, 3, 4);
    assert EdgeValuesBelow(ExampleMask, ExampleProb, 5, 20) == [0.2, 0.3, 0.4, 0.5, 0.6, 0.7, 0.8, 0.1];
  }

  /** Row 4 of the example grid in the row-major walk. */
  lemma ExampleRow4()
    ensures Shaped(ExampleMask, 5, 5) && Shaped(ExampleProb, 5, 5)
    ensures EdgeValuesBelow(ExampleMask, ExampleProb, 5, 25) == [0.2, 0.3, 0.4, 0.5, 0.6, 0.7, 0.8, 0.1]
  {
    ExampleShaped();
    ExampleRow3();
    assert !Edge(ExampleMask, 4, 0);
    assert EdgeValuesBelow(ExampleMask, ExampleProb, 5, 21) == [0.2, 0.3, 0.4, 0.5, 0.6, 0.7, 0.8, 0.1];
    assert !Edge(ExampleMask, 4, 1);
    assert EdgeValuesBelow(ExampleMask, ExampleProb, 5, 22) == [0.2, 0.3, 0.4, 0.5, 0.6, 0.7, 0.8, 0.1];
    assert !Edge(ExampleMask, 4, 2);
    assert EdgeValuesBelow(ExampleMask, ExampleProb, 5, 23) == [0.2, 0.3, 0.4, 0.5, 0.6, 0.7, 0.8, 0.1];
    assert !Edge(ExampleMask, 4, 3);
    assert EdgeValuesBelow(ExampleMask, ExampleProb, 5, 24) == [0.2, 0.3, 0.4, 0.5, 0.6, 0.7, 0.8, 0.1];
    assert !Edge(ExampleMask, 4, 4);
    assert EdgeValuesBelow(ExampleMask, ExampleProb, 5, 25) == [0.2, 0.3, 0.4, 0.5, 0.6, 0.7, 0.8, 0.1];
  }

  /**
   * The edge cells of the example are the block's 8 border cells, read in
   * row-major order, so the confidence is the mean of their probabilities.
   */
  lemma EdgeConfidenceExample()
    ensures Shaped(ExampleMask, 5, 5) && Shaped(ExampleProb, 5, 5)
    ensures EdgeValues(ExampleMask, ExampleProb, 5) == [0.2, 0.3, 0.4, 0.5, 0.6, 0.7, 0.8, 0.1]
    ensures EdgeConfidence(ExampleProb, ExampleMask, 5) == 0.45
  {
    ExampleRow4();
    var e := [0.2, 0.3, 0.4, 0.5, 0.6, 0.7, 0.8, 0.1];
    assert |ExampleMask| * 5 == 25;
    assert EdgeValues(ExampleMask, ExampleProb, 5) == e;
    ExampleEdgeSum();
    MeanOfSum(e, 3.6);
    assert EdgeConfidence(ExampleProb, ExampleMask, 5) == Mean(e);
  }

  /** A mean is its sum over the length. */
  lemma MeanOfSum(xs: seq<real>, s: real)
    requires |xs| > 0 && Sum(xs) == s
    ensures Mean(xs) == s / |xs| as real
  {
  }

  /** The example's eight edge probabilities add up to 3.6. */
  lemma ExampleEdgeSum()
    ensures Sum([0.2, 0.3, 0.4, 0.5, 0.6, 0.7, 0.8, 0.1]) == 3.6
  {
    ExampleFirstFour();
    assert [0.2, 0.3, 0.4, 0.5, 0.6][..4] == [0.2, 0.3, 0.4, 0.5];
    assert Sum([0.2, 0.3, 0.4, 0.5, 0.6]) == 2.0;
    assert [0.2, 0.3, 0.4, 0.5, 0.6, 0.7][..5] == [0.2, 0.3, 0.4, 0.5, 0.6];
    assert Sum([0.2, 0.3, 0.4, 0.5, 0.6, 0.7]) == 2.7;
    assert [0.2, 0.3, 0.4, 0.5, 0.6, 0.7, 0.8][..6] == [0.2, 0.3, 0.4, 0.5, 0.6, 0.7];
    assert Sum([0.2, 0.3, 0.4, 0.5, 0.6, 0.7, 0.8]) == 3.5;
    assert [0.2, 0.3, 0.4, 0.5, 0.6, 0.7, 0.8, 0.1][..7] == [0.2, 0.3, 0.4, 0.5, 0.6, 0.7, 0.8];
  }

  /** The first four edge probabilities add up to 1.4. */
  lemma ExampleFirstFour()
    ensures Sum([0.2, 0.3, 0.4, 0.5]) == 1.4
  {
    assert [0.2][..0] == [];
    assert Sum([0.2]) == 0.2;
    assert [0.2, 0.3][..1] == [0.2];
    assert Sum([0.2, 0.3]) == 0.5;
    assert [0.2, 0.3, 0.4][..2] == [0.2, 0.3];
    assert Sum([0.2, 0.3, 0.4]) == 0.9;
    assert [0.2, 0.3, 0.4, 0.5][..3] == [0.2, 0.3, 0.4];
  }

  // ---------------------------------------------------------------- quality_flag_shadow

  /** `quality_flag_shadow`: flag a roof whose shadow score reaches the threshold (0.4 by default). */
  function QualityFlagShadow(score: real, threshold: real := 0.4): (flagged: bool)
    ensures score == threshold ==> flagged
    ensures score < threshold ==> !flagged
  {
    score >= threshold
  }

  /** The flag is inclusive at the threshold and monotone: a higher score is flagged whenever a lower one is. */
  lemma QualityFlagShadowProperties(score: real, threshold: real, higher: real)
    requires score <= higher
    ensures QualityFlagShadow(threshold, threshold)
    ensures QualityFlagShadow(score, threshold) ==> QualityFlagShadow(higher, threshold)
    ensures QualityFlagShadow(0.6, 0.5) && !QualityFlagShadow(0.4, 0.5)
    ensures QualityFlagShadow(0.4) && !QualityFlagShadow(0.39)
  {
  }
}
