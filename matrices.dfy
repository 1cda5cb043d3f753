/**
 * Shared vocabulary of the solver: cost matrices as values, the working
 * matrix as a two-dimensional array, and the minimum and maximum that the
 * source takes with Math.min and Math.max.
 */
module Matrices {

  datatype Option<T> = None | Some(value: T)

  /** A cost matrix as a value: a sequence of rows. */
  type Matrix = seq<seq<int>>

  /** Every row has as many cells as there are rows. */
  predicate IsSquare(M: Matrix)
  {
    forall i :: 0 <= i < |M| ==> |M[i]| == |M|
  }

  /** Every cell is non-negative. */
  predicate NonNegative(M: Matrix)
  {
    forall i, j :: 0 <= i < |M| && 0 <= j < |M[i]| ==> M[i][j] >= 0
  }

  /** Row i of M holds a zero. */
  predicate RowHasZero(M: Matrix, i: nat)
    requires i < |M|
  {
    exists j :: 0 <= j < |M[i]| && M[i][j] == 0
  }

  /** Column j of M holds a zero. */
  predicate ColumnHasZero(M: Matrix, j: nat)
    requires forall i :: 0 <= i < |M| ==> j < |M[i]|
  {
    exists i :: 0 <= i < |M| && M[i][j] == 0
  }

  /** The row-wise deep copy of a working matrix (`matrixState.map(row => [...row])`). */
  function Snap(a: array2<int>): (M: Matrix)
    reads a
    ensures |M| == a.Length0
    ensures forall i :: 0 <= i < a.Length0 ==> |M[i]| == a.Length1
    ensures forall i, j :: 0 <= i < a.Length0 && 0 <= j < a.Length1 ==> M[i][j] == a[i, j]
  {
    seq(a.Length0, i reads a requires 0 <= i < a.Length0 =>
      seq(a.Length1, j reads a requires 0 <= j < a.Length1 => a[i, j]))
  }

  /** Row i of a working matrix, as a value. */
  function RowOf(a: array2<int>, i: nat): (r: seq<int>)
    reads a
    requires i < a.Length0
    ensures |r| == a.Length1
    ensures forall j :: 0 <= j < a.Length1 ==> r[j] == a[i, j]
  {
    seq(a.Length1, j reads a requires 0 <= j < a.Length1 => a[i, j])
  }

  /** Column j of a matrix (`matrix.map(row => row[job])`). */
  function Column(M: Matrix, j: nat): (c: seq<int>)
    requires forall i :: 0 <= i < |M| ==> j < |M[i]|
    ensures |c| == |M|
    ensures forall i :: 0 <= i < |M| ==> c[i] == M[i][j]
  {
    seq(|M|, i requires 0 <= i < |M| => M[i][j])
  }

  /** A snapshot is determined by the cells of the array. */
  lemma SnapIs(a: array2<int>, X: Matrix)
    requires |X| == a.Length0
    requires forall i :: 0 <= i < |X| ==> |X[i]| == a.Length1
    requires forall i, j :: 0 <= i < a.Length0 && 0 <= j < a.Length1 ==> a[i, j] == X[i][j]
    ensures Snap(a) == X
  {
    var S := Snap(a);
    forall i | 0 <= i < |X|
      ensures S[i] == X[i]
    {
      assert |S[i]| == |X[i]|;
    }
  }

  /** The least of s[0..k-1]. */
  function MinUpTo(s: seq<int>, k: nat): (m: int)
    requires 0 < k <= |s|
    ensures exists j :: 0 <= j < k && s[j] == m
    ensures forall j :: 0 <= j < k ==> m <= s[j]
  {
    if k == 1 then s[0]
    else
      var rest := MinUpTo(s, k - 1);
      if s[k - 1] < rest then s[k - 1] else rest
  }

  /** Math.min over a non-empty row: a member of s that no member undercuts. */
  function SeqMin(s: seq<int>): (m: int)
    requires |s| > 0
    ensures exists j :: 0 <= j < |s| && s[j] == m
    ensures forall j :: 0 <= j < |s| ==> m <= s[j]
  {
    MinUpTo(s, |s|)
  }

  /** The greatest of s[0..k-1]. */
  function MaxUpTo(s: seq<int>, k: nat): (m: int)
    requires 0 < k <= |s|
    ensures exists j :: 0 <= j < k && s[j] == m
    ensures forall j :: 0 <= j < k ==> s[j] <= m
  {
    if k == 1 then s[0]
    else
      var rest := MaxUpTo(s, k - 1);
      if s[k - 1] > rest then s[k - 1] else rest
  }

  /** Math.max over a non-empty row: a member of s that no member exceeds. */
  function SeqMax(s: seq<int>): (m: int)
    requires |s| > 0
    ensures exists j :: 0 <= j < |s| && s[j] == m
    ensures forall j :: 0 <= j < |s| ==> s[j] <= m
  {
    MaxUpTo(s, |s|)
  }

  /** The greatest cell in rows 0..k-1 of M. */
  function RowsMaxUpTo(M: Matrix, k: nat): (mx: int)
    requires 0 < k <= |M|
    requires forall i :: 0 <= i < |M| ==> |M[i]| > 0
    ensures forall i, j :: 0 <= i < k && 0 <= j < |M[i]| ==> M[i][j] <= mx
    ensures exists i, j :: 0 <= i < k && 0 <= j < |M[i]| && M[i][j] == mx
  {
    var top := SeqMax(M[k - 1]);
    if k == 1 then top
    else
      var rest := RowsMaxUpTo(M, k - 1);
      if top > rest then top else rest
  }

  /** Math.max(...matrix.flat()): a cell of M that no cell exceeds. */
  function MatrixMax(M: Matrix): (mx: int)
    requires |M| > 0
    requires forall i :: 0 <= i < |M| ==> |M[i]| > 0
    ensures forall i, j :: 0 <= i < |M| && 0 <= j < |M[i]| ==> M[i][j] <= mx
    ensures exists i, j :: 0 <= i < |M| && 0 <= j < |M[i]| && M[i][j] == mx
  {
    RowsMaxUpTo(M, |M|)
  }

  /** A member of s that no member undercuts is the minimum SeqMin computes. */
  lemma SeqMinIs(s: seq<int>, m: int)
    requires |s| > 0
    requires exists j :: 0 <= j < |s| && s[j] == m
    requires forall j :: 0 <= j < |s| ==> m <= s[j]
    ensures m == SeqMin(s)
  {
    var j :| 0 <= j < |s| && s[j] == m;
    assert SeqMin(s) <= m;
  }

  /** A cell of M that no cell exceeds is the maximum MatrixMax computes. */
  lemma MatrixMaxIs(M: Matrix, m: int)
    requires |M| > 0 && forall i :: 0 <= i < |M| ==> |M[i]| > 0
    requires exists i, j :: 0 <= i < |M| && 0 <= j < |M[i]| && M[i][j] == m
    requires forall i, j :: 0 <= i < |M| && 0 <= j < |M[i]| ==> M[i][j] <= m
    ensures m == MatrixMax(M)
  {
    var i, j :| 0 <= i < |M| && 0 <= j < |M[i]| && M[i][j] == m;
    assert m <= MatrixMax(M);
  }
}
