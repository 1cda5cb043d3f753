/**
 * The preprocessing of solveHungarian as functions on matrix values:
 * maximisation-to-minimisation conversion (hungarian.js:26-30), row
 * reduction (hungarian.js:33-39) and column reduction (hungarian.js:42-51),
 * together with the intermediate states the two loops pass through.
 */
module Reduction {
  import opened Matrices
  import opened Costs

  /** Every cell v replaced by maxValue - v, maxValue being the largest cell. */
  function Complement(M: Matrix): (C: Matrix)
    requires |M| > 0 && IsSquare(M)
    ensures IsSquare(C) && |C| == |M|
    ensures forall i, j :: 0 <= i < |M| && 0 <= j < |M| ==> C[i][j] == MatrixMax(M) - M[i][j]
  {
    var maxValue := MatrixMax(M);
    seq(|M|, i requires 0 <= i < |M| => seq(|M|, j requires 0 <= j < |M| => maxValue - M[i][j]))
  }

  /** One row with its minimum subtracted from every cell (`row.map(val => val - min)`). */
  function ReduceRow(row: seq<int>): (r: seq<int>)
    requires |row| > 0
    ensures |r| == |row|
    ensures forall j :: 0 <= j < |r| ==> r[j] >= 0
    ensures exists j :: 0 <= j < |r| && r[j] == 0
    ensures forall j :: 0 <= j < |r| ==> r[j] == row[j] - SeqMin(row)
  {
    var min := SeqMin(row);
    var r := seq(|row|, j requires 0 <= j < |row| => row[j] - min);
    var at :| 0 <= at < |row| && row[at] == min;
    assert r[at] == 0;
    r
  }

  /** The row minima, the amounts row reduction takes from each row. */
  function RowMins(M: Matrix): (u: seq<int>)
    requires IsSquare(M)
    ensures |u| == |M|
  {
    seq(|M|, i requires 0 <= i < |M| => SeqMin(M[i]))
  }

  /** The column minima, the amounts column reduction takes from each column. */
  function ColumnMins(M: Matrix): (v: seq<int>)
    requires IsSquare(M)
    ensures |v| == |M|
  {
    seq(|M|, j requires 0 <= j < |M| => SeqMin(Column(M, j)))
  }

  /** The working matrix after the row-reduction loop has handled rows 0..k-1. */
  function RowsReducedUpTo(M: Matrix, k: nat): (R: Matrix)
    requires IsSquare(M) && k <= |M|
    ensures IsSquare(R) && |R| == |M|
  {
    seq(|M|, i requires 0 <= i < |M| => if i < k then ReduceRow(M[i]) else M[i])
  }

  /** The working matrix after the column-reduction loop has handled columns 0..k-1. */
  function ColumnsReducedUpTo(M: Matrix, k: nat): (R: Matrix)
    requires IsSquare(M) && k <= |M|
    ensures IsSquare(R) && |R| == |M|
  {
    seq(|M|, i requires 0 <= i < |M| =>
      seq(|M|, j requires 0 <= j < |M| => if j < k then M[i][j] - SeqMin(Column(M, j)) else M[i][j]))
  }

  /** One cell of the matrix after the first k rows were reduced. */
  lemma RowsReducedCell(M: Matrix, k: nat, i: nat, j: nat)
    requires IsSquare(M) && k <= |M| && i < |M| && j < |M|
    ensures RowsReducedUpTo(M, k)[i][j] == M[i][j] - (if i < k then SeqMin(M[i]) else 0)
  {
  }

  /** One cell of the matrix after the first k columns were reduced. */
  lemma ColumnsReducedCell(M: Matrix, k: nat, i: nat, j: nat)
    requires IsSquare(M) && k <= |M| && i < |M| && j < |M|
    ensures ColumnsReducedUpTo(M, k)[i][j] == M[i][j] - (if j < k then SeqMin(Column(M, j)) else 0)
  {
  }

  /** Before the column-reduction loop the working matrix is the input. */
  lemma ColumnsReducedNone(M: Matrix)
    requires IsSquare(M)
    ensures ColumnsReducedUpTo(M, 0) == M
  {
    forall i | 0 <= i < |M|
      ensures ColumnsReducedUpTo(M, 0)[i] == M[i]
    {
    }
  }

  /** Reducing one more column whose minimum is zero changes nothing. */
  lemma ColumnsReducedSame(M: Matrix, k: nat)
    requires IsSquare(M) && 0 < k <= |M| && SeqMin(Column(M, k - 1)) == 0
    ensures ColumnsReducedUpTo(M, k) == ColumnsReducedUpTo(M, k - 1)
  {
    var R := ColumnsReducedUpTo(M, k);
    var S := ColumnsReducedUpTo(M, k - 1);
    forall i | 0 <= i < |M|
      ensures R[i] == S[i]
    {
      forall j | 0 <= j < |M|
        ensures R[i][j] == S[i][j]
      {
        ColumnsReducedCell(M, k, i, j);
        ColumnsReducedCell(M, k - 1, i, j);
      }
    }
  }

  /** Before the row-reduction loop the working matrix is the input. */
  lemma RowsReducedNone(M: Matrix)
    requires IsSquare(M)
    ensures RowsReducedUpTo(M, 0) == M
  {
  }

  /** Reducing one more row whose minimum is zero changes nothing. */
  lemma RowsReducedSame(M: Matrix, k: nat)
    requires IsSquare(M) && 0 < k <= |M| && SeqMin(M[k - 1]) == 0
    ensures RowsReducedUpTo(M, k) == RowsReducedUpTo(M, k - 1)
  {
    var R := RowsReducedUpTo(M, k);
    var S := RowsReducedUpTo(M, k - 1);
    forall i | 0 <= i < |M|
      ensures R[i] == S[i]
    {
      if i == k - 1 {
        ReduceRowZeroMin(M[i]);
      }
    }
  }

  /** Reducing row k lowers that row by its minimum and leaves the other rows alone. */
  lemma RowsReducedNext(M: Matrix, k: nat)
    requires IsSquare(M) && k < |M|
    ensures forall i, j :: 0 <= i < |M| && 0 <= j < |M| ==>
      RowsReducedUpTo(M, k + 1)[i][j] == RowsReducedUpTo(M, k)[i][j] - (if i == k then SeqMin(M[k]) else 0)
  {
    forall i, j | 0 <= i < |M| && 0 <= j < |M|
      ensures RowsReducedUpTo(M, k + 1)[i][j] == RowsReducedUpTo(M, k)[i][j] - (if i == k then SeqMin(M[k]) else 0)
    {
      RowsReducedCell(M, k, i, j);
      RowsReducedCell(M, k + 1, i, j);
    }
  }

  /** Reducing column k lowers that column by its minimum and leaves the other columns alone. */
  lemma ColumnsReducedNext(M: Matrix, k: nat)
    requires IsSquare(M) && k < |M|
    ensures forall i, j :: 0 <= i < |M| && 0 <= j < |M| ==>
      ColumnsReducedUpTo(M, k + 1)[i][j] == ColumnsReducedUpTo(M, k)[i][j] - (if j == k then SeqMin(Column(M, k)) else 0)
  {
    forall i, j | 0 <= i < |M| && 0 <= j < |M|
      ensures ColumnsReducedUpTo(M, k + 1)[i][j] == ColumnsReducedUpTo(M, k)[i][j] - (if j == k then SeqMin(Column(M, k)) else 0)
    {
      ColumnsReducedCell(M, k, i, j);
      ColumnsReducedCell(M, k + 1, i, j);
    }
  }

  /** Reducing a row whose minimum is already zero leaves it as it is. */
  lemma ReduceRowZeroMin(row: seq<int>)
    requires |row| > 0 && SeqMin(row) == 0
    ensures ReduceRow(row) == row
  {
  }

  /** Row reduction as a whole: every row handled. */
  function ReducedRows(M: Matrix): (R: Matrix)
    requires IsSquare(M)
    ensures IsSquare(R) && |R| == |M|
  {
    RowsReducedUpTo(M, |M|)
  }

  /** Column reduction as a whole: every column handled. */
  function ReducedColumns(M: Matrix): (R: Matrix)
    requires IsSquare(M)
    ensures IsSquare(R) && |R| == |M|
  {
    ColumnsReducedUpTo(M, |M|)
  }

  /** After row reduction every cell is non-negative and every row holds a zero. */
  lemma ReducedRowsNormal(M: Matrix)
    requires IsSquare(M)
    ensures NonNegative(ReducedRows(M))
    ensures forall i :: 0 <= i < |M| ==> RowHasZero(ReducedRows(M), i)
  {
    var R := ReducedRows(M);
    forall i | 0 <= i < |M|
      ensures (forall j :: 0 <= j < |M| ==> R[i][j] >= 0) && RowHasZero(R, i)
    {
      assert R[i] == ReduceRow(M[i]);
    }
  }

  /** After column reduction every cell is non-negative and every column holds a zero. */
  lemma ReducedColumnsNormal(M: Matrix)
    requires IsSquare(M)
    ensures NonNegative(ReducedColumns(M))
    ensures forall j :: 0 <= j < |M| ==> ColumnHasZero(ReducedColumns(M), j)
  {
    var R := ReducedColumns(M);
    forall i, j | 0 <= i < |M| && 0 <= j < |M|
      ensures R[i][j] >= 0
    {
      assert R[i][j] == M[i][j] - SeqMin(Column(M, j));
      assert Column(M, j)[i] == M[i][j];
    }
    forall j | 0 <= j < |M|
      ensures ColumnHasZero(R, j)
    {
      var c := Column(M, j);
      var i :| 0 <= i < |c| && c[i] == SeqMin(c);
      assert R[i][j] == M[i][j] - SeqMin(c);
    }
  }

  /**
   * Row reduction followed by column reduction leaves every cell
   * non-negative and a zero in every row and in every column.
   */
  lemma ReductionLeavesZeros(M: Matrix)
    requires IsSquare(M)
    ensures var R := ReducedColumns(ReducedRows(M));
      NonNegative(R) &&
      (forall i :: 0 <= i < |R| ==> RowHasZero(R, i)) &&
      (forall j :: 0 <= j < |R| ==> ColumnHasZero(R, j))
  {
    var A := ReducedRows(M);
    var R := ReducedColumns(A);
    ReducedRowsNormal(M);
    ReducedColumnsNormal(A);
    forall i | 0 <= i < |R|
      ensures RowHasZero(R, i)
    {
      ColumnReductionKeepsRowZero(A, i);
    }
  }

  /** A row of a non-negative matrix that holds a zero still holds it after column reduction. */
  lemma ColumnReductionKeepsRowZero(A: Matrix, i: nat)
    requires IsSquare(A) && NonNegative(A) && i < |A| && RowHasZero(A, i)
    ensures RowHasZero(ReducedColumns(A), i)
  {
    var j :| 0 <= j < |A| && A[i][j] == 0;
    var c := Column(A, j);
    var k :| 0 <= k < |c| && c[k] == SeqMin(c);
    assert c[k] >= 0 && c[i] == 0;
    assert ReducedColumns(A)[i][j] == A[i][j] - SeqMin(c);
  }

  /**
   * After the conversion every cell is non-negative, and a cell is zero
   * exactly where the original holds the maximum, so some cell is zero.
   */
  lemma ComplementNormal(M: Matrix)
    requires |M| > 0 && IsSquare(M)
    ensures NonNegative(Complement(M))
    ensures forall i, j :: 0 <= i < |M| && 0 <= j < |M| ==> (Complement(M)[i][j] == 0 <==> M[i][j] == MatrixMax(M))
    ensures exists i, j :: 0 <= i < |M| && 0 <= j < |M| && Complement(M)[i][j] == 0
  {
    var C := Complement(M);
    var mx := MatrixMax(M);
    forall i, j | 0 <= i < |M| && 0 <= j < |M|
      ensures C[i][j] == mx - M[i][j] >= 0
    {
    }
    var i, j :| 0 <= i < |M| && 0 <= j < |M[i]| && M[i][j] == mx;
    assert C[i][j] == 0;
  }

  /** A matrix whose cells are x minus those of M gives every assignment the cost |p| * x minus its cost in M. */
  lemma {:induction false} NegatedCost(C: Matrix, M: Matrix, x: int, p: seq<int>)
    requires IsSquare(M) && IsSquare(C) && |C| == |M|
    requires forall i, j :: 0 <= i < |M| && 0 <= j < |M| ==> C[i][j] == x - M[i][j]
    requires |p| <= |M|
    requires forall i :: 0 <= i < |p| ==> 0 <= p[i] < |M|
    ensures Cost(C, p) == |p| * x - Cost(M, p)
    decreases |p|
  {
    if |p| > 0 {
      NegatedCost(C, M, x, p[..|p| - 1]);
    }
  }

  /** Under the conversion every assignment's cost is n * maxValue minus its original cost. */
  lemma ComplementCost(M: Matrix, p: seq<int>)
    requires |M| > 0 && IsSquare(M)
    requires IsPermutation(p, |M|)
    ensures Cost(Complement(M), p) == |M| * MatrixMax(M) - Cost(M, p)
  {
    NegatedCost(Complement(M), M, MatrixMax(M), p);
  }

  /** Row and column reduction take the row minima and then the column minima as potentials. */
  lemma ReductionPotentials(B: Matrix)
    requires IsSquare(B)
    ensures HasPotentials(ReducedColumns(ReducedRows(B)), B, RowMins(B), ColumnMins(ReducedRows(B)))
  {
    var A := ReducedRows(B);
    var R := ReducedColumns(A);
    forall i, j | 0 <= i < |B| && 0 <= j < |B|
      ensures R[i][j] == B[i][j] - RowMins(B)[i] - ColumnMins(A)[j]
    {
      assert A[i] == ReduceRow(B[i]);
      assert A[i][j] == B[i][j] - SeqMin(B[i]);
    }
  }
}
