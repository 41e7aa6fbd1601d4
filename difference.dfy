/** `difference_matrix(n, k)` of pybaselines._banded_utils, as pinned down by
    tests/test_banded_utils.py:310-375: the k-fold row difference of the n x n
    identity (`np.diff(np.eye(n), k, axis=0)`), and the penalty matrix DᵀD built
    from it. Matrices are dense and integer-valued; a matrix is a sequence of
    rows. */
module Difference {
  import opened Results

  type Matrix = seq<seq<int>>

  /** Every row of a has `cols` entries. */
  predicate Rect(a: Matrix, cols: nat) {
    forall i :: 0 <= i < |a| ==> |a[i]| == cols
  }

  function Identity(n: nat): (a: Matrix)
    ensures |a| == n && Rect(a, n)
  {
    seq(n, i => seq(n, j => if i == j then 1 else 0))
  }

  lemma IdentityAt(n: nat, i: int, j: int)
    requires 0 <= i < n && 0 <= j < n
    ensures Identity(n)[i][j] == if i == j then 1 else 0
  {
  }

  /** `np.diff(a, axis=0)`: row i is row i + 1 minus row i. */
  function Diff(a: Matrix, cols: nat): (d: Matrix)
    requires Rect(a, cols)
    ensures |d| == if |a| == 0 then 0 else |a| - 1
    ensures Rect(d, cols)
  {
    if |a| == 0 then []
    else seq(|a| - 1, i requires 0 <= i < |a| - 1 =>
           seq(cols, j requires 0 <= j < cols => a[i + 1][j] - a[i][j]))
  }

  lemma DiffAt(a: Matrix, cols: nat, i: int, j: int)
    requires Rect(a, cols) && 0 <= i < |a| - 1 && 0 <= j < cols
    ensures Diff(a, cols)[i][j] == a[i + 1][j] - a[i][j]
  {
  }

  /** `np.diff(a, k, axis=0)` */
  function DiffN(a: Matrix, cols: nat, k: nat): (d: Matrix)
    requires Rect(a, cols)
    ensures |d| == if |a| <= k then 0 else |a| - k
    ensures Rect(d, cols)
  {
    if k == 0 then a else Diff(DiffN(a, cols, k - 1), cols)
  }

  /** The coefficient at offset d of the k-th difference, (-1)^(k-d) C(k, d),
      through Pascal's rule with alternating signs. */
  function Coef(k: nat, d: int): int {
    if k == 0 then (if d == 0 then 1 else 0)
    else Coef(k - 1, d - 1) - Coef(k - 1, d)
  }

  /** The coefficients vanish outside [0, k]; the last one is 1. */
  lemma {:induction false} CoefBand(k: nat, d: int)
    ensures d < 0 || d > k ==> Coef(k, d) == 0
    ensures Coef(k, k) == 1
  {
    if k > 0 {
      CoefBand(k - 1, d);
      CoefBand(k - 1, d - 1);
      CoefBand(k - 1, k);
      CoefBand(k - 1, k - 1);
    }
  }

  function DifferenceMatrix(n: int, k: int): (r: Result<Matrix>)
    ensures r.Ok? <==> n >= 0 && k >= 0
    ensures r.Ok? ==> |r.value| == (if n <= k then 0 else n - k) && Rect(r.value, n)
  {
    if n < 0 || k < 0 then Err("size and difference order must be non-negative")
    else Ok(DiffN(Identity(n), n, k))
  }

  /** Row i of the k-th difference matrix holds the coefficients of the k-th
      difference starting at column i. */
  lemma {:induction false} DiffNEntry(n: nat, k: nat, i: int, j: int)
    requires 0 <= i < n - k && 0 <= j < n
    ensures DiffN(Identity(n), n, k)[i][j] == Coef(k, j - i)
  {
    if k == 0 {
      IdentityAt(n, i, j);
    } else {
      var a := DiffN(Identity(n), n, k - 1);
      DiffNEntry(n, k - 1, i, j);
      DiffNEntry(n, k - 1, i + 1, j);
      DiffAt(a, n, i, j);
      assert DiffN(Identity(n), n, k) == Diff(a, n);
      assert Coef(k, j - i) == Coef(k - 1, j - (i + 1)) - Coef(k - 1, j - i);
    }
  }

  lemma DifferenceMatrixEntries(n: nat, k: nat, i: int, j: int)
    requires 0 <= i < n - k && 0 <= j < n
    ensures DifferenceMatrix(n, k).value[i][j] == Coef(k, j - i)
  {
    DiffNEntry(n, k, i, j);
  }

  /** Order 0 is the identity. */
  lemma DifferenceMatrixOrder0(n: nat)
    ensures DifferenceMatrix(n, 0) == Ok(Identity(n))
  {
  }

  lemma Coef1(d: int)
    ensures Coef(1, d) == if d == 0 then -1 else if d == 1 then 1 else 0
  {
  }

  /** Order 2 has the rows 1, -2, 1. */
  lemma DifferenceMatrixOrder2(n: nat, i: int, j: int)
    requires 0 <= i < n - 2 && 0 <= j < n
    ensures DifferenceMatrix(n, 2).value[i][j] ==
              if j == i || j == i + 2 then 1 else if j == i + 1 then -2 else 0
  {
    DiffNEntry(n, 2, i, j);
    Coef1(j - i - 1);
    Coef1(j - i);
    assert Coef(2, j - i) == Coef(1, j - i - 1) - Coef(1, j - i);
  }

  /** An order of at least n leaves no rows. */
  lemma DifferenceMatrixTooHigh(n: nat, k: nat)
    requires k >= n
    ensures DifferenceMatrix(n, k) == Ok([])
  {
  }

  // ------------------------------------------------------------------
  // The penalty DᵀD

  /** The dot product of columns i and j of d over its first m rows. */
  function ColDot(d: Matrix, cols: nat, i: int, j: int, m: nat): int
    requires Rect(d, cols) && m <= |d| && 0 <= i < cols && 0 <= j < cols
  {
    if m == 0 then 0 else ColDot(d, cols, i, j, m - 1) + d[m - 1][i] * d[m - 1][j]
  }

  /** `d.T @ d` */
  function Gram(d: Matrix, cols: nat): (g: Matrix)
    requires Rect(d, cols)
    ensures |g| == cols && Rect(g, cols)
  {
    seq(cols, i requires 0 <= i < cols => seq(cols, j requires 0 <= j < cols => ColDot(d, cols, i, j, |d|)))
  }

  lemma GramAt(d: Matrix, cols: nat, i: int, j: int)
    requires Rect(d, cols) && 0 <= i < cols && 0 <= j < cols
    ensures Gram(d, cols)[i][j] == ColDot(d, cols, i, j, |d|)
  {
  }

  /** The penalty of order k on n points. */
  function Penalty(n: nat, k: nat): (p: Matrix)
    ensures |p| == n && Rect(p, n)
  {
    Gram(DiffN(Identity(n), n, k), n)
  }

  predicate Symmetric(a: Matrix, n: nat)
    requires |a| == n && Rect(a, n)
  {
    forall i, j :: 0 <= i < n && 0 <= j < n ==> a[i][j] == a[j][i]
  }

  /** No entry lies further than k from the main diagonal. */
  predicate Banded(a: Matrix, n: nat, k: nat)
    requires |a| == n && Rect(a, n)
  {
    forall i, j :: 0 <= i < n && 0 <= j < n && (i - j > k || j - i > k) ==> a[i][j] == 0
  }

  lemma {:induction false} ColDotSymmetric(d: Matrix, cols: nat, i: int, j: int, m: nat)
    requires Rect(d, cols) && m <= |d| && 0 <= i < cols && 0 <= j < cols
    ensures ColDot(d, cols, i, j, m) == ColDot(d, cols, j, i, m)
  {
    if m > 0 {
      ColDotSymmetric(d, cols, i, j, m - 1);
    }
  }

  lemma GramSymmetric(d: Matrix, cols: nat)
    requires Rect(d, cols)
    ensures Symmetric(Gram(d, cols), cols)
  {
    forall i, j | 0 <= i < cols && 0 <= j < cols
      ensures Gram(d, cols)[i][j] == Gram(d, cols)[j][i]
    {
      ColDotSymmetric(d, cols, i, j, |d|);
    }
  }

  /** Column c of the k-th difference matrix is zero in row r unless
      r <= c <= r + k. */
  lemma PenaltyEntryZero(n: nat, k: nat, r: int, c: int)
    requires 0 <= r < n - k && 0 <= c < n && (c - r < 0 || c - r > k)
    ensures DiffN(Identity(n), n, k)[r][c] == 0
  {
    DiffNEntry(n, k, r, c);
    CoefBand(k, c - r);
  }

  lemma {:induction false} PenaltyColDotZero(n: nat, k: nat, i: int, j: int, m: nat)
    requires k < n && m <= n - k && 0 <= i < n && 0 <= j < n && (i - j > k || j - i > k)
    ensures ColDot(DiffN(Identity(n), n, k), n, i, j, m) == 0
  {
    if m > 0 {
      var d := DiffN(Identity(n), n, k);
      PenaltyColDotZero(n, k, i, j, m - 1);
      var r := m - 1;
      var p := d[r][i];
      var q := d[r][j];
      if i - r < 0 || i - r > k {
        PenaltyEntryZero(n, k, r, i);
        assert p * q == 0;
      } else {
        PenaltyEntryZero(n, k, r, j);
        assert p * q == 0;
      }
    }
  }

  /** The penalty of order k is symmetric and has band k. */
  lemma PenaltyBanded(n: nat, k: nat)
    ensures Symmetric(Penalty(n, k), n)
    ensures Banded(Penalty(n, k), n, k)
  {
    var d := DiffN(Identity(n), n, k);
    GramSymmetric(d, n);
    forall i, j | 0 <= i < n && 0 <= j < n && (i - j > k || j - i > k)
      ensures Penalty(n, k)[i][j] == 0
    {
      GramAt(d, n, i, j);
      if k < n {
        PenaltyColDotZero(n, k, i, j, n - k);
      }
    }
  }

  /** One term of a first-order column product. */
  lemma Order1Term(n: nat, r: int, i: int, j: int)
    requires 2 <= n && 0 <= r < n - 1 && 0 <= i < n && 0 <= j < n && (j == i || j == i + 1)
    ensures DiffN(Identity(n), n, 1)[r][i] * DiffN(Identity(n), n, 1)[r][j] ==
              if j == i then (if r == i || r == i - 1 then 1 else 0) else (if r == i then -1 else 0)
  {
    var d := DiffN(Identity(n), n, 1);
    DiffNEntry(n, 1, r, i);
    DiffNEntry(n, 1, r, j);
    Coef1(i - r);
    Coef1(j - r);
    var p, q := d[r][i], d[r][j];
    if r == i {
      assert p == -1;
    } else if r == i - 1 {
      assert p == 1 && q == (if j == i then 1 else 0);
    } else {
      assert p == 0;
    }
  }

  lemma {:induction false} Order1ColDot(n: nat, i: int, j: int, m: nat)
    requires 2 <= n && m <= n - 1 && 0 <= i < n && 0 <= j < n && (j == i || j == i + 1)
    ensures ColDot(DiffN(Identity(n), n, 1), n, i, j, m) ==
              if j == i then (if 1 <= i <= m then 1 else 0) + (if i < m then 1 else 0)
              else (if i < m then -1 else 0)
  {
    if m > 0 {
      Order1ColDot(n, i, j, m - 1);
      Order1Term(n, m - 1, i, j);
    }
  }

  /** The first-order penalty: 1, 2, ..., 2, 1 on the main diagonal and -1 next
      to it. */
  lemma PenaltyOrder1(n: nat, i: int)
    requires 2 <= n && 0 <= i < n
    ensures Penalty(n, 1)[i][i] == if i == 0 || i == n - 1 then 1 else 2
    ensures i + 1 < n ==> Penalty(n, 1)[i][i + 1] == -1 && Penalty(n, 1)[i + 1][i] == -1
  {
    var d := DiffN(Identity(n), n, 1);
    Order1ColDot(n, i, i, n - 1);
    GramAt(d, n, i, i);
    if i + 1 < n {
      Order1ColDot(n, i, i + 1, n - 1);
      GramAt(d, n, i, i + 1);
      PenaltyBanded(n, 1);
    }
  }
}
