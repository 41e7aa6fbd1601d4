/** `_shift_rows(matrix, upper, lower)` of pybaselines._banded_utils, as pinned
    down by tests/test_banded_utils.py:107-169. It works in place: each of the
    first `upper` rows moves right by its distance to row `upper` (so row 0 by
    `upper`), and each of the last `lower` rows moves left, the bottom row by
    `lower`, the one above it by `lower - 1`, and so on; zeros come in on the
    vacated side and the other rows are left alone. It turns diagonals stored
    row-aligned (entry (i, i + d) in column i) into the column-aligned storage
    of the Diagonals module. The rows below the middle follow the test at
    tests/test_banded_utils.py:158-164: with upper = 2 and lower = 1, row 3
    stays as it is and only the bottom row moves left by one. These tests
    decide the lower case; a reading in which every row below the middle
    moves is not what they expect. */
module RowShift {
  import opened Difference
  import opened Diagonals

  /** A row moved s columns to the right, zeros from the left. */
  function ShiftRight(row: seq<int>, s: nat): (out: seq<int>)
    ensures |out| == |row|
  {
    seq(|row|, j requires 0 <= j < |row| => if j >= s then row[j - s] else 0)
  }

  /** A row moved s columns to the left, zeros from the right. */
  function ShiftLeft(row: seq<int>, s: nat): (out: seq<int>)
    ensures |out| == |row|
  {
    seq(|row|, j requires 0 <= j < |row| => if j + s < |row| then row[j + s] else 0)
  }

  /** The rows after `_shift_rows(m, upper, lower)`. */
  function ShiftedRows(m: Matrix, upper: nat, lower: nat): (out: Matrix)
    requires upper + lower <= |m|
    ensures |out| == |m|
  {
    seq(|m|, r requires 0 <= r < |m| =>
      if r < upper then ShiftRight(m[r], upper - r)
      else if r >= |m| - lower then ShiftLeft(m[r], lower - (|m| - 1 - r))
      else m[r])
  }

  /** Shifting keeps the shape and leaves the rows between the shifted ones
      unchanged. */
  lemma ShiftedRowsShape(m: Matrix, cols: nat, upper: nat, lower: nat)
    requires upper + lower <= |m| && Rect(m, cols)
    ensures Rect(ShiftedRows(m, upper, lower), cols)
    ensures forall r :: upper <= r < |m| - lower ==> ShiftedRows(m, upper, lower)[r] == m[r]
  {
  }

  /** The contents of a two-dimensional array, row by row. */
  function Rows(m: array2<int>): (rows: Matrix)
    reads m
    ensures |rows| == m.Length0 && Rect(rows, m.Length1)
  {
    seq(m.Length0, i requires 0 <= i < m.Length0 reads m =>
      seq(m.Length1, j requires 0 <= j < m.Length1 reads m => m[i, j]))
  }

  /** Moves one row of m right by s columns. */
  method ShiftRowRight(m: array2<int>, r: int, s: nat)
    requires 0 <= r < m.Length0
    modifies m
    ensures forall j :: 0 <= j < m.Length1 ==> m[r, j] == if j >= s then old(m[r, j - s]) else 0
    ensures forall i, j :: 0 <= i < m.Length0 && i != r && 0 <= j < m.Length1 ==> m[i, j] == old(m[i, j])
  {
    forall j | 0 <= j < m.Length1 {
      m[r, j] := if j >= s then m[r, j - s] else 0;
    }
  }

  /** Moves one row of m left by s columns. */
  method ShiftRowLeft(m: array2<int>, r: int, s: nat)
    requires 0 <= r < m.Length0
    modifies m
    ensures forall j :: 0 <= j < m.Length1 ==> m[r, j] == if j + s < m.Length1 then old(m[r, j + s]) else 0
    ensures forall i, j :: 0 <= i < m.Length0 && i != r && 0 <= j < m.Length1 ==> m[i, j] == old(m[i, j])
  {
    forall j | 0 <= j < m.Length1 {
      m[r, j] := if j + s < m.Length1 then m[r, j + s] else 0;
    }
  }

  /** Entry (i, j) after `_shift_rows(m, upper, lower)`. */
  function ShiftedAt(m: Matrix, cols: nat, upper: nat, lower: nat, i: int, j: int): int
    requires upper + lower <= |m| && Rect(m, cols) && 0 <= i < |m| && 0 <= j < cols
  {
    if i < upper then (if j >= upper - i then m[i][j - (upper - i)] else 0)
    else if i >= |m| - lower then
      (var s := lower - (|m| - 1 - i); if j + s < cols then m[i][j + s] else 0)
    else m[i][j]
  }

  lemma ShiftedRowsAt(m: Matrix, cols: nat, upper: nat, lower: nat)
    requires upper + lower <= |m| && Rect(m, cols)
    ensures forall i, j :: 0 <= i < |m| && 0 <= j < cols ==>
              ShiftedRows(m, upper, lower)[i][j] == ShiftedAt(m, cols, upper, lower, i, j)
  {
  }

  /** The first loop of `_shift_rows`: the upper rows. */
  method ShiftUpperRows(matrix: array2<int>, upper: nat, ghost before: Matrix, ghost lower: nat)
    requires upper + lower <= matrix.Length0 && before == Rows(matrix)
    modifies matrix
    ensures forall i, j :: 0 <= i < upper && 0 <= j < matrix.Length1 ==>
              matrix[i, j] == ShiftedAt(before, matrix.Length1, upper, lower, i, j)
    ensures forall i, j :: upper <= i < matrix.Length0 && 0 <= j < matrix.Length1 ==>
              matrix[i, j] == before[i][j]
  {
    var r := 0;
    while r < upper
      invariant 0 <= r <= upper
      invariant forall i, j :: 0 <= i < r && 0 <= j < matrix.Length1 ==>
                  matrix[i, j] == ShiftedAt(before, matrix.Length1, upper, lower, i, j)
      invariant forall i, j :: r <= i < matrix.Length0 && 0 <= j < matrix.Length1 ==>
                  matrix[i, j] == before[i][j]
    {
      ShiftRowRight(matrix, r, upper - r);
      r := r + 1;
    }
  }

  /** The second loop of `_shift_rows`: the lower rows, from the bottom up. */
  method ShiftLowerRows(matrix: array2<int>, lower: nat, ghost before: Matrix, ghost upper: nat)
    requires upper + lower <= matrix.Length0 && |before| == matrix.Length0 && Rect(before, matrix.Length1)
    requires forall i, j :: upper <= i < matrix.Length0 && 0 <= j < matrix.Length1 ==>
               matrix[i, j] == before[i][j]
    modifies matrix
    ensures forall i, j :: matrix.Length0 - lower <= i < matrix.Length0 && 0 <= j < matrix.Length1 ==>
              matrix[i, j] == ShiftedAt(before, matrix.Length1, upper, lower, i, j)
    ensures forall i, j :: 0 <= i < matrix.Length0 - lower && 0 <= j < matrix.Length1 ==>
              matrix[i, j] == old(matrix[i, j])
  {
    var rows := matrix.Length0;
    var t := 0;
    while t < lower
      invariant 0 <= t <= lower
      invariant forall i, j :: rows - t <= i < rows && 0 <= j < matrix.Length1 ==>
                  matrix[i, j] == ShiftedAt(before, matrix.Length1, upper, lower, i, j)
      invariant forall i, j :: 0 <= i < rows - t && 0 <= j < matrix.Length1 ==>
                  matrix[i, j] == old(matrix[i, j])
    {
      ShiftRowLeft(matrix, rows - 1 - t, lower - t);
      t := t + 1;
    }
  }

  /** `_shift_rows`: shifts the rows of matrix in place and returns it. */
  method ShiftRows(matrix: array2<int>, upper: nat, lower: nat) returns (out: array2<int>)
    requires upper + lower <= matrix.Length0
    modifies matrix
    ensures out == matrix
    ensures Rows(matrix) == ShiftedRows(old(Rows(matrix)), upper, lower)
  {
    ghost var before := Rows(matrix);
    ShiftUpperRows(matrix, upper, before, lower);
    ShiftLowerRows(matrix, lower, before, upper);
    ghost var after := ShiftedRows(before, upper, lower);
    ShiftedRowsAt(before, matrix.Length1, upper, lower);
    ShiftedRowsShape(before, matrix.Length1, upper, lower);
    forall i | 0 <= i < matrix.Length0 ensures Rows(matrix)[i] == after[i] {
      forall j | 0 <= j < matrix.Length1 ensures Rows(matrix)[i][j] == after[i][j] {
        if upper <= i < matrix.Length0 - lower {
          assert matrix[i, j] == before[i][j];
        }
      }
    }
    out := matrix;
  }

  /** The three matrices of the tests: two diagonals on either side, one on
      either side, and two above with one below. */
  lemma ShiftRowsExamples()
    ensures ShiftedRows([[1, 2, 9, 0, 0], [1, 2, 3, 4, 0], [1, 2, 3, 4, 5], [0, 1, 2, 3, 8], [0, 0, 1, 2, 3]], 2, 2)
            == [[0, 0, 1, 2, 9], [0, 1, 2, 3, 4], [1, 2, 3, 4, 5], [1, 2, 3, 8, 0], [1, 2, 3, 0, 0]]
    ensures ShiftedRows([[1, 2, 3, 8, 0], [1, 2, 3, 4, 5], [0, 1, 2, 3, 4]], 1, 1)
            == [[0, 1, 2, 3, 8], [1, 2, 3, 4, 5], [1, 2, 3, 4, 0]]
    ensures ShiftedRows([[1, 2, 9, 0, 0], [1, 2, 3, 4, 0], [1, 2, 3, 4, 5], [0, 1, 2, 3, 8], [0, 0, 1, 2, 3]], 2, 1)
            == [[0, 0, 1, 2, 9], [0, 1, 2, 3, 4], [1, 2, 3, 4, 5], [0, 1, 2, 3, 8], [0, 1, 2, 3, 0]]
  {
    var m := [[1, 2, 9, 0, 0], [1, 2, 3, 4, 0], [1, 2, 3, 4, 5], [0, 1, 2, 3, 8], [0, 0, 1, 2, 3]];
    assert ShiftRight(m[0], 2) == [0, 0, 1, 2, 9];
    assert ShiftRight(m[1], 1) == [0, 1, 2, 3, 4];
    assert ShiftLeft(m[3], 1) == [1, 2, 3, 8, 0];
    assert ShiftLeft(m[4], 2) == [1, 2, 3, 0, 0];
    assert ShiftLeft(m[4], 1) == [0, 1, 2, 3, 0];
    var m2 := [[1, 2, 3, 8, 0], [1, 2, 3, 4, 5], [0, 1, 2, 3, 4]];
    assert ShiftRight(m2[0], 1) == [0, 1, 2, 3, 8];
    assert ShiftLeft(m2[2], 1) == [1, 2, 3, 4, 0];
  }

  /** The diagonals of a stored row-aligned: the row for offset d = k - r holds
      entry (c, c + d) in column c, 0 outside the matrix. */
  function RowAligned(a: Matrix, n: nat, k: nat): (s: Matrix)
    requires |a| == n && Rect(a, n)
    ensures |s| == 2 * k + 1 && Rect(s, n)
  {
    seq(2 * k + 1, r requires 0 <= r < 2 * k + 1 =>
      seq(n, c requires 0 <= c < n => Entry(a, n, c, c + (k - r))))
  }

  /** Shifting the row-aligned diagonals by k above and below gives the
      column-aligned storage. */
  lemma ShiftRowsAligns(a: Matrix, n: nat, k: nat)
    requires |a| == n && Rect(a, n)
    ensures ShiftedRows(RowAligned(a, n, k), k, k) == Dia(a, n, k)
  {
    var s := ShiftedRows(RowAligned(a, n, k), k, k);
    var t := Dia(a, n, k);
    forall r | 0 <= r < 2 * k + 1 ensures s[r] == t[r] {
      forall j | 0 <= j < n ensures s[r][j] == t[r][j] {
        DiaAt(a, n, k, r, j);
      }
    }
  }
}
