/** Small facts of natural-number arithmetic shared by the grid models. */
module Arith {

  lemma MulLe(a: nat, b: nat, c: nat)
    requires a <= b
    ensures a * c <= b * c
  {
  }

  /** Row j, column i of a grid with nx columns sits at flat index j * nx + i, and back. */
  lemma DivModIndex(j: nat, i: nat, nx: nat)
    requires i < nx
    ensures (j * nx + i) / nx == j && (j * nx + i) % nx == i
  {
    var m := j * nx + i;
    var q, r := m / nx, m % nx;
    assert m == q * nx + r;
    if q < j {
      MulLe(q + 1, j, nx);
    } else if q > j {
      MulLe(j + 1, q, nx);
    }
  }

  /** Quotient and remainder of a natural number by a positive divisor. */
  lemma DivModNat(k: nat, n: nat)
    requires n > 0
    ensures 0 <= k / n && 0 <= k % n < n && k == (k / n) * n + k % n
  {
  }

  lemma MulLtCancel(a: nat, b: nat, c: nat)
    requires a * c < b * c
    ensures a < b
  {
    assert (b - a) * c == b * c - a * c;
  }

  lemma MulStrict(a: nat, b: nat, c: nat)
    requires a < b && c > 0
    ensures a * c < b * c
  {
  }

  /** A flat index below rows * cols lies in one of the first rows rows. */
  lemma DivBelow(j: nat, rows: nat, cols: nat)
    requires cols > 0 && j < rows * cols
    ensures j / cols < rows
  {
    assert j == (j / cols) * cols + j % cols;
    MulLtCancel(j / cols, rows, cols);
  }

  /** Row r below rows ends no later than the grid does. */
  lemma RowEnd(r: nat, rows: nat, cols: nat)
    requires r < rows
    ensures r * cols + cols <= rows * cols
  {
    MulLe(r + 1, rows, cols);
  }
}
