/** The banded storage of pybaselines._banded_utils, as pinned down by
    tests/test_banded_utils.py: `diff_penalty_diagonals`, `_pad_diagonals`,
    `_add_diagonals` and `_lower_to_full`.

    A square n x n matrix with band k is stored in 2k + 1 rows of n columns,
    one row per diagonal from offset +k (the highest superdiagonal) down to
    offset -k: the row for offset d holds entry (j - d, j) in column j and 0
    where j - d lies outside the matrix (the column-aligned convention of
    `scipy.sparse.dia_matrix.data`, reversed). The "lower" form keeps only the
    last k + 1 rows, main diagonal first. */
module Diagonals {
  import opened Results
  import opened Difference

  /** Entry (i, j) of an n x n matrix, 0 outside it. */
  function Entry(a: Matrix, n: nat, i: int, j: int): int
    requires |a| == n && Rect(a, n)
  {
    if 0 <= i < n && 0 <= j < n then a[i][j] else 0
  }

  /** The 2k + 1 diagonals of a in storage order. */
  function Dia(a: Matrix, n: nat, k: nat): (s: Matrix)
    requires |a| == n && Rect(a, n)
    ensures |s| == 2 * k + 1 && Rect(s, n)
  {
    seq(2 * k + 1, r requires 0 <= r < 2 * k + 1 =>
      seq(n, j requires 0 <= j < n => Entry(a, n, j - (k - r), j)))
  }

  lemma DiaAt(a: Matrix, n: nat, k: nat, r: int, j: int)
    requires |a| == n && Rect(a, n) && 0 <= r < 2 * k + 1 && 0 <= j < n
    ensures Dia(a, n, k)[r][j] == Entry(a, n, j - (k - r), j)
  {
  }

  /** The matrix a stored diagonal array s stands for. */
  function FromDia(s: Matrix, n: nat, k: nat): (a: Matrix)
    requires |s| == 2 * k + 1 && Rect(s, n)
    ensures |a| == n && Rect(a, n)
  {
    seq(n, i requires 0 <= i < n =>
      seq(n, j requires 0 <= j < n => if i - j <= k && j - i <= k then s[k - (j - i)][j] else 0))
  }

  /** The positions of s that lie outside the matrix hold 0. */
  predicate ZeroOutside(s: Matrix, n: nat, k: nat)
    requires |s| == 2 * k + 1 && Rect(s, n)
  {
    forall r, j :: 0 <= r < 2 * k + 1 && 0 <= j < n && !(0 <= j - (k - r) < n) ==> s[r][j] == 0
  }

  /** The storage is lossless for a matrix of band k ... */
  lemma DiaLossless(a: Matrix, n: nat, k: nat)
    requires |a| == n && Rect(a, n) && Banded(a, n, k)
    ensures ZeroOutside(Dia(a, n, k), n, k)
    ensures FromDia(Dia(a, n, k), n, k) == a
  {
    var b := FromDia(Dia(a, n, k), n, k);
    forall i | 0 <= i < n ensures b[i] == a[i] {
      forall j | 0 <= j < n ensures b[i][j] == a[i][j] {
        if i - j <= k && j - i <= k {
          DiaAt(a, n, k, k - (j - i), j);
        }
      }
    }
    forall r, j | 0 <= r < 2 * k + 1 && 0 <= j < n && !(0 <= j - (k - r) < n)
      ensures Dia(a, n, k)[r][j] == 0
    {
      DiaAt(a, n, k, r, j);
    }
  }

  /** ... and every stored array whose outside positions are 0 stores some
      matrix of band k. */
  lemma DiaOfFromDia(s: Matrix, n: nat, k: nat)
    requires |s| == 2 * k + 1 && Rect(s, n) && ZeroOutside(s, n, k)
    ensures Banded(FromDia(s, n, k), n, k)
    ensures Dia(FromDia(s, n, k), n, k) == s
  {
    var a := FromDia(s, n, k);
    var t := Dia(a, n, k);
    forall r | 0 <= r < 2 * k + 1 ensures t[r] == s[r] {
      forall j | 0 <= j < n ensures t[r][j] == s[r][j] {
        DiaAt(a, n, k, r, j);
      }
    }
  }

  /** The bottom k + 1 rows, or all rows. */
  function Part(s: Matrix, k: nat, lowerOnly: bool): (p: Matrix)
    requires |s| == 2 * k + 1
    ensures |p| == if lowerOnly then k + 1 else 2 * k + 1
  {
    if lowerOnly then s[k..] else s
  }

  // ------------------------------------------------------------------
  // _pad_diagonals

  function Zeros(rows: nat, cols: nat): (z: Matrix)
    ensures |z| == rows && Rect(z, cols)
  {
    seq(rows, i => seq(cols, j => 0))
  }

  /** `_pad_diagonals(array, padding, lower_only)`: padding zero rows below (lower
      form) or on both sides (full form); nothing when padding <= 0. `cols` is
      the column count of the array. */
  function PadDiagonals(a: Matrix, cols: nat, padding: int, lowerOnly: bool): (p: Matrix)
    requires Rect(a, cols)
    ensures Rect(p, cols)
    ensures |p| == |a| + (if padding <= 0 then 0 else if lowerOnly then padding else 2 * padding)
  {
    if padding <= 0 then a
    else if lowerOnly then a + Zeros(padding, cols)
    else Zeros(padding, cols) + a + Zeros(padding, cols)
  }

  /** Removes what PadDiagonals added. */
  function Unpad(p: Matrix, padding: int, lowerOnly: bool): Matrix
    requires padding > 0 ==> |p| >= (if lowerOnly then padding else 2 * padding)
  {
    if padding <= 0 then p
    else if lowerOnly then p[..|p| - padding]
    else p[padding..|p| - padding]
  }

  /** Padding can be removed again, and the added rows are zero. */
  lemma PadDiagonalsRoundTrip(a: Matrix, cols: nat, padding: int, lowerOnly: bool)
    requires Rect(a, cols)
    ensures Unpad(PadDiagonals(a, cols, padding, lowerOnly), padding, lowerOnly) == a
    ensures padding <= 0 ==> PadDiagonals(a, cols, padding, lowerOnly) == a
    ensures forall r, j :: 0 <= r < |PadDiagonals(a, cols, padding, lowerOnly)| && 0 <= j < cols &&
                           !((if padding > 0 && !lowerOnly then padding else 0) <= r <
                             (if padding > 0 && !lowerOnly then padding else 0) + |a|) ==>
                           PadDiagonals(a, cols, padding, lowerOnly)[r][j] == 0
  {
    if padding > 0 {
      var z := Zeros(padding, cols);
      if lowerOnly {
        assert (a + z)[..|a + z| - padding] == a;
      } else {
        assert (z + a + z)[padding..|z + a + z| - padding] == a;
      }
    }
  }

  /** Padding the stored diagonals of a matrix of band k by p gives its
      storage with band k + p: the matrix stored is unchanged. */
  lemma PadDiagonalsWidensBand(a: Matrix, n: nat, k: nat, padding: int, lowerOnly: bool)
    requires |a| == n && Rect(a, n) && Banded(a, n, k) && padding > 0
    ensures PadDiagonals(Part(Dia(a, n, k), k, lowerOnly), n, padding, lowerOnly)
            == Part(Dia(a, n, k + padding), k + padding, lowerOnly)
  {
    var K := k + padding;
    var s := Dia(a, n, k);
    var p := PadDiagonals(Part(s, k, lowerOnly), n, padding, lowerOnly);
    var t := Part(Dia(a, n, K), K, lowerOnly);
    var off := if lowerOnly then K else 0;
    forall r | 0 <= r < |t| ensures p[r] == t[r] {
      forall j | 0 <= j < n ensures p[r][j] == t[r][j] {
        DiaAt(a, n, K, r + off, j);
        var d := K - (r + off);
        if d + k >= 0 && d <= k {
          DiaAt(a, n, k, k - d, j);
        }
      }
    }
  }

  // ------------------------------------------------------------------
  // diff_penalty_diagonals

  /** `diff_penalty_diagonals(n, k, lower_only, padding)`: the stored diagonals
      of the penalty DᵀD of the k-th difference matrix on n points. */
  function DiffPenaltyDiagonals(n: int, k: int, lowerOnly: bool, padding: int): (r: Result<Matrix>)
    ensures r.Ok? <==> n > 0 && k >= 0
    ensures r.Ok? ==> Rect(r.value, n)
    ensures r.Ok? ==> |r.value| == (if lowerOnly then k + 1 else 2 * k + 1) +
                                   (if padding <= 0 then 0 else if lowerOnly then padding else 2 * padding)
  {
    if k < 0 || n <= 0 then Err("data size must be positive and the difference order non-negative")
    else Ok(PadDiagonals(Part(Dia(Penalty(n, k), n, k), k, lowerOnly), n, padding, lowerOnly))
  }

  /** Without padding the full form stores DᵀD exactly, and the lower form is
      its bottom k + 1 rows. */
  lemma DiffPenaltyDiagonalsStores(n: nat, k: nat)
    requires n > 0
    ensures FromDia(DiffPenaltyDiagonals(n, k, false, 0).value, n, k) == Penalty(n, k)
    ensures DiffPenaltyDiagonals(n, k, true, 0).value == DiffPenaltyDiagonals(n, k, false, 0).value[k..]
  {
    PenaltyBanded(n, k);
    DiaLossless(Penalty(n, k), n, k);
  }

  /** Padding by p stores the same penalty with band k + p. */
  lemma DiffPenaltyDiagonalsPadded(n: nat, k: nat, lowerOnly: bool, padding: int)
    requires n > 0 && padding > 0
    ensures DiffPenaltyDiagonals(n, k, lowerOnly, padding).value
            == Part(Dia(Penalty(n, k), n, k + padding), k + padding, lowerOnly)
  {
    PenaltyBanded(n, k);
    PadDiagonalsWidensBand(Penalty(n, k), n, k, padding, lowerOnly);
  }

  /** The first-order penalty diagonals: the superdiagonal row starts with the
      padding 0, the subdiagonal row ends with it. */
  lemma DiffPenaltyDiagonalsOrder1(n: nat, j: int)
    requires 2 <= n && 0 <= j < n
    ensures var s := DiffPenaltyDiagonals(n, 1, false, 0).value;
            && s[0][j] == (if j == 0 then 0 else -1)
            && s[1][j] == (if j == 0 || j == n - 1 then 1 else 2)
            && s[2][j] == (if j == n - 1 then 0 else -1)
  {
    var p := Penalty(n, 1);
    DiaAt(p, n, 1, 0, j);
    DiaAt(p, n, 1, 1, j);
    DiaAt(p, n, 1, 2, j);
    PenaltyOrder1(n, j);
    if j > 0 {
      PenaltyOrder1(n, j - 1);
    }
  }

  // ------------------------------------------------------------------
  // _add_diagonals

  /** The column count of an array (0 for an array without rows). */
  function Width(a: Matrix): nat {
    if |a| == 0 then 0 else |a[0]|
  }

  predicate IsArray(a: Matrix) {
    Rect(a, Width(a))
  }

  /** `big` plus `small` placed from row `off` on. */
  function AddAt(big: Matrix, small: Matrix, off: nat): (s: Matrix)
    requires IsArray(big) && IsArray(small) && Width(big) == Width(small)
    requires off + |small| <= |big|
    ensures |s| == |big| && Rect(s, Width(big))
  {
    seq(|big|, r requires 0 <= r < |big| =>
      if off <= r < off + |small| then
        seq(Width(big), j requires 0 <= j < Width(big) => big[r][j] + small[r - off][j])
      else big[r])
  }

  /** `_add_diagonals(a, b, lower_only)`: the sum of two stored diagonal arrays
      of possibly different band. The one with fewer rows is aligned with the
      other at the top (lower form) or the middle (full form). */
  function AddDiagonals(a: Matrix, b: Matrix, lowerOnly: bool): (r: Result<Matrix>)
    requires IsArray(a) && IsArray(b)
    ensures r.Ok? <==> Width(a) == Width(b) && (lowerOnly || (|a| - |b|) % 2 == 0)
    ensures r.Ok? ==> |r.value| == (if |a| >= |b| then |a| else |b|) && Rect(r.value, Width(a))
  {
    if Width(a) != Width(b) then Err("the arrays must have the same number of columns")
    else if !lowerOnly && (|a| - |b|) % 2 != 0 then
      Err("the row difference must be even when both arrays hold all diagonals")
    else if |a| >= |b| then Ok(AddAt(a, b, if lowerOnly then 0 else (|a| - |b|) / 2))
    else Ok(AddAt(b, a, if lowerOnly then 0 else (|b| - |a|) / 2))
  }

  lemma AddDiagonalsCommutes(a: Matrix, b: Matrix, lowerOnly: bool)
    requires IsArray(a) && IsArray(b)
    ensures AddDiagonals(a, b, lowerOnly) == AddDiagonals(b, a, lowerOnly)
  {
    if Width(a) == Width(b) && |a| == |b| && (lowerOnly || (|a| - |b|) % 2 == 0) {
      var s, t := AddAt(a, b, 0), AddAt(b, a, 0);
      forall r | 0 <= r < |a| ensures s[r] == t[r] {
        forall j | 0 <= j < Width(a) ensures s[r][j] == t[r][j] {
        }
      }
      assert s == t;
      assert AddDiagonals(a, b, lowerOnly) == Ok(s);
      assert AddDiagonals(b, a, lowerOnly) == Ok(t);
    }
  }

  /** Entry (i, j) of a + b. */
  function Sum(a: Matrix, b: Matrix, n: nat): (c: Matrix)
    requires |a| == n && Rect(a, n) && |b| == n && Rect(b, n)
    ensures |c| == n && Rect(c, n)
  {
    seq(n, i requires 0 <= i < n => seq(n, j requires 0 <= j < n => a[i][j] + b[i][j]))
  }

  /** One entry of AddStorageOrdered. */
  lemma AddStorageEntry(a: Matrix, b: Matrix, n: nat, ka: nat, kb: nat, lowerOnly: bool, r: int, j: int)
    requires |a| == n && Rect(a, n) && |b| == n && Rect(b, n) && Banded(b, n, kb)
    requires kb <= ka && 0 <= r < (if lowerOnly then ka + 1 else 2 * ka + 1) && 0 <= j < n
    ensures var sa, sb := Part(Dia(a, n, ka), ka, lowerOnly), Part(Dia(b, n, kb), kb, lowerOnly);
            Width(sa) == Width(sb) == n &&
            AddAt(sa, sb, if lowerOnly then 0 else ka - kb)[r][j]
            == Part(Dia(Sum(a, b, n), n, ka), ka, lowerOnly)[r][j]
  {
    var sa, sb := Part(Dia(a, n, ka), ka, lowerOnly), Part(Dia(b, n, kb), kb, lowerOnly);
    var off := if lowerOnly then 0 else ka - kb;
    var base := if lowerOnly then ka else 0;
    var c := Sum(a, b, n);
    DiaAt(c, n, ka, r + base, j);
    DiaAt(a, n, ka, r + base, j);
    var d := ka - (r + base);
    if off <= r < off + |sb| {
      DiaAt(b, n, kb, r - off + (if lowerOnly then kb else 0), j);
    } else {
      assert d + kb < 0 || d > kb;
    }
  }

  lemma AddStorageOrdered(a: Matrix, b: Matrix, n: nat, ka: nat, kb: nat, lowerOnly: bool)
    requires |a| == n && Rect(a, n) && Banded(a, n, ka)
    requires |b| == n && Rect(b, n) && Banded(b, n, kb)
    requires kb <= ka
    ensures AddDiagonals(Part(Dia(a, n, ka), ka, lowerOnly), Part(Dia(b, n, kb), kb, lowerOnly), lowerOnly)
            == Ok(Part(Dia(Sum(a, b, n), n, ka), ka, lowerOnly))
  {
    var sa, sb := Part(Dia(a, n, ka), ka, lowerOnly), Part(Dia(b, n, kb), kb, lowerOnly);
    var t := Part(Dia(Sum(a, b, n), n, ka), ka, lowerOnly);
    assert |sa[0]| == n && |sb[0]| == n;
    var off := if lowerOnly then 0 else ka - kb;
    assert lowerOnly || (|sa| - |sb|) % 2 == 0;
    assert (if lowerOnly then 0 else (|sa| - |sb|) / 2) == off;
    var s := AddAt(sa, sb, off);
    forall r | 0 <= r < |t| ensures s[r] == t[r] {
      forall j | 0 <= j < n ensures s[r][j] == t[r][j] {
        AddStorageEntry(a, b, n, ka, kb, lowerOnly, r, j);
      }
    }
    assert s == t;
  }

  /** Adding the stored diagonals of two banded matrices stores their sum, with
      the wider band. */
  lemma AddDiagonalsStoresSum(a: Matrix, b: Matrix, n: nat, ka: nat, kb: nat, lowerOnly: bool)
    requires |a| == n && Rect(a, n) && Banded(a, n, ka)
    requires |b| == n && Rect(b, n) && Banded(b, n, kb)
    ensures AddDiagonals(Part(Dia(a, n, ka), ka, lowerOnly), Part(Dia(b, n, kb), kb, lowerOnly), lowerOnly)
            == Ok(Part(Dia(Sum(a, b, n), n, if ka >= kb then ka else kb), if ka >= kb then ka else kb, lowerOnly))
  {
    if kb <= ka {
      AddStorageOrdered(a, b, n, ka, kb, lowerOnly);
    } else {
      AddStorageOrdered(b, a, n, kb, ka, lowerOnly);
      AddDiagonalsCommutes(Part(Dia(a, n, ka), ka, lowerOnly), Part(Dia(b, n, kb), kb, lowerOnly), lowerOnly);
      var ab, ba := Sum(a, b, n), Sum(b, a, n);
      forall i | 0 <= i < n ensures ab[i] == ba[i] {
        forall j | 0 <= j < n ensures ab[i][j] == ba[i][j] {
        }
      }
      assert ab == ba;
    }
  }

  /** The sum of two penalty diagonal arrays stores the sum of the penalties. */
  lemma AddPenaltyDiagonals(n: nat, k1: nat, k2: nat, lowerOnly: bool)
    requires n > 0
    ensures AddDiagonals(DiffPenaltyDiagonals(n, k1, lowerOnly, 0).value,
                         DiffPenaltyDiagonals(n, k2, lowerOnly, 0).value, lowerOnly)
            == Ok(Part(Dia(Sum(Penalty(n, k1), Penalty(n, k2), n), n, if k1 >= k2 then k1 else k2),
                       if k1 >= k2 then k1 else k2, lowerOnly))
  {
    PenaltyBanded(n, k1);
    PenaltyBanded(n, k2);
    AddDiagonalsStoresSum(Penalty(n, k1), Penalty(n, k2), n, k1, k2, lowerOnly);
  }

  /** The simple case: three lower rows plus two, and the failures on a column
      mismatch and on an odd row difference in the full form. */
  lemma AddDiagonalsExample()
    ensures AddDiagonals([[1, 2, 3, 4], [5, 6, 7, 8], [1, 2, 3, 4]],
                         [[1, 2, 3, 4], [5, 6, 7, 8]], true)
            == Ok([[2, 4, 6, 8], [10, 12, 14, 16], [1, 2, 3, 4]])
    ensures AddDiagonals([[2, 3, 4], [6, 7, 8], [2, 3, 4]], [[1, 2, 3, 4], [5, 6, 7, 8]], true).Err?
    ensures AddDiagonals([[1, 2, 3, 4], [5, 6, 7, 8], [1, 2, 3, 4]],
                         [[1, 2, 3, 4], [5, 6, 7, 8]], false).Err?
  {
    var s := AddAt([[1, 2, 3, 4], [5, 6, 7, 8], [1, 2, 3, 4]], [[1, 2, 3, 4], [5, 6, 7, 8]], 0);
    assert s[0] == [2, 4, 6, 8];
    assert s[1] == [10, 12, 14, 16];
    assert s[2] == [1, 2, 3, 4];
    assert s == [[2, 4, 6, 8], [10, 12, 14, 16], [1, 2, 3, 4]];
  }

  // ------------------------------------------------------------------
  // _lower_to_full

  /** `_lower_to_full(lower)`: the full diagonals of a symmetric matrix from its
      lower k + 1 rows. The row for offset d > 0 is lower row d moved right by
      d columns, zeros coming in from the left. */
  function LowerToFull(lower: Matrix): (full: Matrix)
    requires |lower| >= 1 && IsArray(lower)
    ensures |full| == 2 * |lower| - 1 && Rect(full, Width(lower))
    ensures full[|lower| - 1..] == lower
  {
    var k, c := |lower| - 1, Width(lower);
    seq(k, r requires 0 <= r < k =>
      seq(c, j requires 0 <= j < c => if j >= k - r then lower[k - r][j - (k - r)] else 0))
    + lower
  }

  /** For a symmetric matrix the lower form determines the full one. */
  lemma LowerToFullSymmetric(a: Matrix, n: nat, k: nat)
    requires |a| == n && Rect(a, n) && Symmetric(a, n)
    ensures LowerToFull(Dia(a, n, k)[k..]) == Dia(a, n, k)
  {
    var s := Dia(a, n, k);
    var lower := s[k..];
    assert Width(lower) == n;
    var f := LowerToFull(lower);
    forall r | 0 <= r < 2 * k + 1 ensures f[r] == s[r] {
      if r < k {
        forall j | 0 <= j < n ensures f[r][j] == s[r][j] {
          DiaAt(a, n, k, r, j);
          var d := k - r;
          if j >= d {
            DiaAt(a, n, k, k + d, j - d);
          }
        }
      }
    }
  }

  /** The full penalty diagonals are recovered from the lower ones, and the
      bottom half of the result is the lower form again. */
  lemma LowerToFullPenalty(n: nat, k: nat)
    requires n > 0
    ensures LowerToFull(DiffPenaltyDiagonals(n, k, true, 0).value) == DiffPenaltyDiagonals(n, k, false, 0).value
    ensures LowerToFull(DiffPenaltyDiagonals(n, k, true, 0).value)[k..] == DiffPenaltyDiagonals(n, k, true, 0).value
  {
    PenaltyBanded(n, k);
    LowerToFullSymmetric(Penalty(n, k), n, k);
  }

  /** The simple case of three lower rows. */
  lemma LowerToFullExample()
    ensures LowerToFull([[1, 2, 3, 4], [5, 6, 7, 0], [8, 9, 0, 0]])
            == [[0, 0, 8, 9], [0, 5, 6, 7], [1, 2, 3, 4], [5, 6, 7, 0], [8, 9, 0, 0]]
  {
    var f := LowerToFull([[1, 2, 3, 4], [5, 6, 7, 0], [8, 9, 0, 0]]);
    assert f[0] == [0, 0, 8, 9];
    assert f[1] == [0, 5, 6, 7];
  }
}
