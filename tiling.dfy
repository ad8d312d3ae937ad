/**
 * The tile windower of roof_area/preprocess/tiling.py.
 *
 * `iter_windows` walks a W x H pixel grid with strides
 * step_x = tile_width - overlap and step_y = tile_height - overlap, y in the
 * outer loop and x in the inner one, and yields each window clipped to the
 * grid. Only the dataset's width and height are used, so they are the inputs.
 */
module Tiling {
  import opened Wrappers
  import opened Arith

  /** `int | Tuple[int, int]`. */
  datatype TileSize = Square(side: int) | Rect(width: int, height: int)

  /** rasterio's `Window(col_off, row_off, width, height)`. */
  datatype Window = Window(colOff: int, rowOff: int, width: int, height: int)

  /** The ValueError "overlap must be smaller than tile dimensions". */
  datatype TilingError = OverlapTooLarge

  /** `_normalize_tile_size`: an int becomes a square pair, a pair is kept. */
  function NormalizeTileSize(t: TileSize): (r: (int, int))
    ensures t.Square? ==> r.0 == r.1 == t.side
    ensures t.Rect? ==> r == (t.width, t.height)
  {
    match t
    case Square(s) => (s, s)
    case Rect(w, h) => (w, h)
  }

  function Min(a: int, b: int): int
  {
    if a <= b then a else b
  }

  /** ceil(n / d): the number of multiples of d in [0, n), i.e. the length of `range(0, n, d)`. */
  function CeilDiv(n: nat, d: nat): (q: nat)
    requires d > 0
  {
    (n + d - 1) / d
  }

  /** i * d lies below n exactly for the first CeilDiv(n, d) values of i. */
  lemma MultipleBelow(n: nat, d: nat, i: nat)
    requires d > 0
    ensures i * d < n <==> i < CeilDiv(n, d)
  {
    var q, r := (n + d - 1) / d, (n + d - 1) % d;
    assert n + d - 1 == q * d + r;
    if i < q {
      MulLe(i + 1, q, d);
      assert i * d + d <= q * d;
    } else {
      MulLe(q, i, d);
    }
  }

  /** The window with origin (x, y), clipped to the grid. */
  function Clipped(width: nat, height: nat, tw: int, th: int, x: int, y: int): Window
  {
    Window(x, y, Min(tw, width - x), Min(th, height - y))
  }

  /**
   * The windows in closed form: window k is in grid row k / nx and grid
   * column k % nx, where nx = ceil(W / step_x) and ny = ceil(H / step_y).
   * This is the specification IterWindows is proved against.
   */
  function Windows(width: nat, height: nat, tw: int, th: int, overlap: int): (ws: seq<Window>)
    requires overlap < tw && overlap < th
    ensures |ws| == CeilDiv(height, th - overlap) * CeilDiv(width, tw - overlap)
  {
    var sx, sy := tw - overlap, th - overlap;
    var nx, ny := CeilDiv(width, sx), CeilDiv(height, sy);
    if nx == 0 then []
    else seq(ny * nx, k requires 0 <= k < ny * nx => Clipped(width, height, tw, th, (k % nx) * sx, (k / nx) * sy))
  }

  /** The window in grid row j and grid column i. */
  lemma WindowAt(width: nat, height: nat, tw: int, th: int, overlap: int, j: nat, i: nat)
    requires overlap < tw && overlap < th
    requires j < CeilDiv(height, th - overlap) && i < CeilDiv(width, tw - overlap)
    ensures 0 <= j * CeilDiv(width, tw - overlap) + i < |Windows(width, height, tw, th, overlap)|
    ensures Windows(width, height, tw, th, overlap)[j * CeilDiv(width, tw - overlap) + i]
      == Clipped(width, height, tw, th, i * (tw - overlap), j * (th - overlap))
  {
    var nx, ny := CeilDiv(width, tw - overlap), CeilDiv(height, th - overlap);
    MulLe(j + 1, ny, nx);
    DivModIndex(j, i, nx);
  }

  /**
   * `iter_windows`, its yields collected in order. It fails, yielding nothing,
   * exactly when the overlap reaches either tile dimension; otherwise it
   * yields the ceil(H / step_y) * ceil(W / step_x) windows of Windows.
   * The overlap defaults to 0.
   */
  method IterWindows(width: nat, height: nat, tileSize: TileSize, overlap: int := 0)
    returns (r: Result<seq<Window>, TilingError>)
    ensures r.Failure? <==> overlap >= NormalizeTileSize(tileSize).0 || overlap >= NormalizeTileSize(tileSize).1
    ensures r.Success? ==>
      r.value == Windows(width, height, NormalizeTileSize(tileSize).0, NormalizeTileSize(tileSize).1, overlap)
    ensures r.Success? ==>
      |r.value| == CeilDiv(height, NormalizeTileSize(tileSize).1 - overlap)
                   * CeilDiv(width, NormalizeTileSize(tileSize).0 - overlap)
  {
    var (tw, th) := NormalizeTileSize(tileSize);
    if overlap >= tw || overlap >= th {
      return Failure(OverlapTooLarge);
    }
    var sx, sy := tw - overlap, th - overlap;
    ghost var nx, ny := CeilDiv(width, sx), CeilDiv(height, sy);
    ghost var all := Windows(width, height, tw, th, overlap);
    var ws: seq<Window> := [];
    var y := 0;
    ghost var j: nat := 0;
    while y < height
      invariant y == j * sy && j <= ny
      invariant j * nx <= |all| && ws == all[..j * nx]
    {
      MultipleBelow(height, sy, j);
      var x := 0;
      ghost var i: nat := 0;
      while x < width
        invariant x == i * sx && i <= nx
        invariant j * nx + i <= |all| && ws == all[..j * nx + i]
      {
        WindowStep(width, height, tw, th, overlap, j, i, ws);
        ws := ws + [Window(x, y, Min(tw, width - x), Min(th, height - y))];
        x := x + sx;
        i := i + 1;
      }
      MultipleBelow(width, sx, i);
      assert (j + 1) * nx == j * nx + i;
      y := y + sy;
      j := j + 1;
    }
    MultipleBelow(height, sy, j);
    MulLe(ny, j, nx);
    assert ws == all;
    return Success(ws);
  }

  /** One pass of the inner loop appends the next window of the closed form. */
  lemma WindowStep(width: nat, height: nat, tw: int, th: int, overlap: int, j: nat, i: nat, ws: seq<Window>)
    requires overlap < tw && overlap < th
    requires j * (th - overlap) < height && i * (tw - overlap) < width
    requires var nx := CeilDiv(width, tw - overlap);
      j * nx + i <= |Windows(width, height, tw, th, overlap)| && ws == Windows(width, height, tw, th, overlap)[..j * nx + i]
    ensures var nx := CeilDiv(width, tw - overlap);
      && i < nx && j * nx + i + 1 <= |Windows(width, height, tw, th, overlap)|
      && ws + [Clipped(width, height, tw, th, i * (tw - overlap), j * (th - overlap))]
         == Windows(width, height, tw, th, overlap)[..j * nx + i + 1]
      && (i + 1) * (tw - overlap) == i * (tw - overlap) + (tw - overlap)
  {
    var all, nx := Windows(width, height, tw, th, overlap), CeilDiv(width, tw - overlap);
    MultipleBelow(width, tw - overlap, i);
    MultipleBelow(height, th - overlap, j);
    WindowAt(width, height, tw, th, overlap, j, i);
    SliceSnoc(all, ws, j * nx + i, Clipped(width, height, tw, th, i * (tw - overlap), j * (th - overlap)));
  }

  /** A prefix followed by the next element is the next prefix. */
  lemma SliceSnoc<T>(s: seq<T>, prefix: seq<T>, n: nat, x: T)
    requires n < |s| && prefix == s[..n] && s[n] == x
    ensures prefix + [x] == s[..n + 1]
  {
  }

  /** The grid row and column of window k. */
  lemma WindowIndex(width: nat, height: nat, tw: int, th: int, overlap: int, k: nat)
    requires overlap < tw && overlap < th
    requires k < |Windows(width, height, tw, th, overlap)|
    ensures var nx, ny := CeilDiv(width, tw - overlap), CeilDiv(height, th - overlap);
      && nx > 0 && 0 <= k / nx < ny && 0 <= k % nx < nx
      && Windows(width, height, tw, th, overlap)[k]
         == Clipped(width, height, tw, th, (k % nx) * (tw - overlap), (k / nx) * (th - overlap))
  {
    var nx, ny := CeilDiv(width, tw - overlap), CeilDiv(height, th - overlap);
    var q, r := k / nx, k % nx;
    DivModNat(k, nx);
    if q >= ny {
      MulLe(ny, q, nx);
    }
  }

  /**
   * Every window starts at a multiple of its stride inside the grid and ends
   * inside it; it is no larger than the tile and, once the tile is at least one
   * pixel wide (always so when overlap >= 0), at least one pixel in each direction.
   */
  lemma WindowsInBounds(width: nat, height: nat, tw: int, th: int, overlap: int, k: nat)
    requires overlap < tw && overlap < th
    requires k < |Windows(width, height, tw, th, overlap)|
    ensures var w := Windows(width, height, tw, th, overlap)[k];
      && 0 <= w.colOff < width && w.colOff % (tw - overlap) == 0 && w.colOff + w.width <= width
      && 0 <= w.rowOff < height && w.rowOff % (th - overlap) == 0 && w.rowOff + w.height <= height
      && w.width <= tw && w.height <= th
      && (tw >= 1 ==> w.width >= 1) && (th >= 1 ==> w.height >= 1)
      && (overlap >= 0 ==> 1 <= w.width && 1 <= w.height)
  {
    var nx := CeilDiv(width, tw - overlap);
    WindowIndex(width, height, tw, th, overlap, k);
    var a, b := k % nx, k / nx;
    MultipleBelow(width, tw - overlap, a);
    MultipleBelow(height, th - overlap, b);
    ClippedInBounds(width, height, tw, th, tw - overlap, th - overlap, a, b);
  }

  /** The clipped window at the stride multiples (a sx, b sy) inside the grid. */
  lemma ClippedInBounds(width: nat, height: nat, tw: int, th: int, sx: nat, sy: nat, a: nat, b: nat)
    requires sx > 0 && sy > 0
    requires a * sx < width && b * sy < height
    ensures var w := Clipped(width, height, tw, th, a * sx, b * sy);
      && 0 <= w.colOff < width && w.colOff % sx == 0 && w.colOff + w.width <= width
      && 0 <= w.rowOff < height && w.rowOff % sy == 0 && w.rowOff + w.height <= height
      && w.width <= tw && w.height <= th
      && (tw >= 1 ==> w.width >= 1) && (th >= 1 ==> w.height >= 1)
      && (sx <= tw ==> 1 <= w.width) && (sy <= th ==> 1 <= w.height)
  {
    DivModIndex(a, 0, sx);
    DivModIndex(b, 0, sy);
  }

  /** Conversely, every pair of stride multiples inside the grid is the origin of a window. */
  lemma EveryMultipleIsAnOrigin(width: nat, height: nat, tw: int, th: int, overlap: int, a: nat, b: nat)
    requires overlap < tw && overlap < th
    requires a * (tw - overlap) < width && b * (th - overlap) < height
    ensures exists k :: (0 <= k < |Windows(width, height, tw, th, overlap)|
      && Windows(width, height, tw, th, overlap)[k].colOff == a * (tw - overlap)
      && Windows(width, height, tw, th, overlap)[k].rowOff == b * (th - overlap))
  {
    MultipleBelow(width, tw - overlap, a);
    MultipleBelow(height, th - overlap, b);
    WindowAt(width, height, tw, th, overlap, b, a);
  }

  /** w1 starts on an earlier row, or on the same row further left. */
  predicate Before(w1: Window, w2: Window)
  {
    w1.rowOff < w2.rowOff || (w1.rowOff == w2.rowOff && w1.colOff < w2.colOff)
  }

  /** Row-major order: later windows start lower down, or on the same row further right. */
  lemma WindowsRowMajor(width: nat, height: nat, tw: int, th: int, overlap: int, k1: nat, k2: nat)
    requires overlap < tw && overlap < th
    requires k1 < k2 < |Windows(width, height, tw, th, overlap)|
    ensures Before(Windows(width, height, tw, th, overlap)[k1], Windows(width, height, tw, th, overlap)[k2])
  {
    var nx, sx, sy := CeilDiv(width, tw - overlap), tw - overlap, th - overlap;
    WindowIndex(width, height, tw, th, overlap, k1);
    WindowIndex(width, height, tw, th, overlap, k2);
    var w1, w2 := Windows(width, height, tw, th, overlap)[k1], Windows(width, height, tw, th, overlap)[k2];
    var q1, r1, q2, r2 := k1 / nx, k1 % nx, k2 / nx, k2 % nx;
    assert w1 == Clipped(width, height, tw, th, r1 * sx, q1 * sy);
    assert w2 == Clipped(width, height, tw, th, r2 * sx, q2 * sy);
    IndexOrder(k1, k2, nx);
    OriginOrder(width, height, tw, th, q1, r1, q2, r2, sx, sy);
  }

  /** Windows whose (row, column) grid positions are in row-major order are in that order on the grid. */
  lemma OriginOrder(width: nat, height: nat, tw: int, th: int, q1: nat, r1: nat, q2: nat, r2: nat, sx: nat, sy: nat)
    requires q1 < q2 || (q1 == q2 && r1 < r2)
    requires sx > 0 && sy > 0
    ensures Before(Clipped(width, height, tw, th, r1 * sx, q1 * sy), Clipped(width, height, tw, th, r2 * sx, q2 * sy))
  {
    if q1 < q2 {
      MulStrict(q1, q2, sy);
    } else {
      MulStrict(r1, r2, sx);
    }
  }

  /** Flat indices in increasing order are in increasing (row, column) order. */
  lemma IndexOrder(k1: nat, k2: nat, nx: nat)
    requires k1 < k2 && nx > 0
    ensures k1 / nx < k2 / nx || (k1 / nx == k2 / nx && k1 % nx < k2 % nx)
  {
    var q1, r1, q2, r2 := k1 / nx, k1 % nx, k2 / nx, k2 % nx;
    assert k1 == q1 * nx + r1 && k2 == q2 * nx + r2;
    assert q1 * nx < (q2 + 1) * nx;
    MulLtCancel(q1, q2 + 1, nx);
  }

  /** With a non-negative overlap the windows cover every pixel of the grid. */
  lemma WindowsCover(width: nat, height: nat, tw: int, th: int, overlap: int, x: nat, y: nat)
    requires 0 <= overlap < tw && overlap < th
    requires x < width && y < height
    ensures exists k :: (0 <= k < |Windows(width, height, tw, th, overlap)|
      && var w := Windows(width, height, tw, th, overlap)[k];
         w.colOff <= x < w.colOff + w.width && w.rowOff <= y < w.rowOff + w.height)
  {
    var sx, sy := tw - overlap, th - overlap;
    var a, b := x / sx, y / sy;
    DivModNat(x, sx);
    DivModNat(y, sy);
    MultipleBelow(width, sx, a);
    MultipleBelow(height, sy, b);
    WindowAt(width, height, tw, th, overlap, b, a);
  }

  /**
   * A 5 x 4 grid with tile 3 and overlap 1 gives six windows; the first is
   * 3 x 3 and the last starts at (4, 2) and is 1 wide and 2 high.
   * tests/test_tiling.py:39-40 expects the last one to be 2 wide and 1 high.
   */
  lemma FiveByFourTiles()
    ensures var ws := Windows(5, 4, 3, 3, 1);
      && |ws| == 6
      && ws[0] == Window(0, 0, 3, 3)
      && ws[5] == Window(4, 2, 1, 2)
      && !(ws[5].width == 2 && ws[5].height == 1)
  {
    assert CeilDiv(5, 2) == 3 && CeilDiv(4, 2) == 2;
  }
}
