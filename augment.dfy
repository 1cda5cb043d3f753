/**
 * The augmentation step of solveHungarian (hungarian.js:59-77): subtract the
 * smallest uncovered value from every row without a line and add it to every
 * column with a line. Besides the cell rule, this module proves the two facts
 * the outer loop rests on: the step keeps the matrix non-negative and creates
 * an uncovered zero, and it raises the dual potential sum, so the loop ends.
 */
module Augmentation {
  import opened Matrices
  import opened Costs
  import opened Cover

  /** The working matrix after one augmentation with amount d. */
  function Augmented(M: Matrix, lines: seq<Line>, d: int): (W: Matrix)
    requires IsSquare(M)
    ensures IsSquare(W) && |W| == |M|
  {
    seq(|M|, i requires 0 <= i < |M| =>
      seq(|M|, j requires 0 <= j < |M| =>
        M[i][j] - (if i in RowSet(lines) then 0 else d) + (if j in ColSet(lines) then d else 0)))
  }

  /** Row potentials after the step: rows without a line have given up d more. */
  function RaiseFreeRows(u: seq<int>, R: set<int>, d: int): (u': seq<int>)
    ensures |u'| == |u|
  {
    seq(|u|, i requires 0 <= i < |u| => u[i] + (if i in R then 0 else d))
  }

  /** Column potentials after the step: columns with a line have d given back. */
  function LowerCoveredColumns(v: seq<int>, C: set<int>, d: int): (v': seq<int>)
    ensures |v'| == |v|
  {
    seq(|v|, j requires 0 <= j < |v| => v[j] - (if j in C then d else 0))
  }

  /**
   * The cell rule of the step: a cell on no line drops by d, a cell on
   * exactly one line is unchanged, and a cell where a row line crosses a
   * column line rises by d.
   */
  lemma AugmentationCells(M: Matrix, lines: seq<Line>, d: int)
    requires IsSquare(M)
    ensures forall i, j :: 0 <= i < |M| && 0 <= j < |M| && IsFree(lines, i, j) ==>
      Augmented(M, lines, d)[i][j] == M[i][j] - d
    ensures forall i, j :: 0 <= i < |M| && 0 <= j < |M| && (i in RowSet(lines) <==> j !in ColSet(lines)) ==>
      Augmented(M, lines, d)[i][j] == M[i][j]
    ensures forall i, j :: 0 <= i < |M| && 0 <= j < |M| && i in RowSet(lines) && j in ColSet(lines) ==>
      Augmented(M, lines, d)[i][j] == M[i][j] + d
  {
    forall i, j | 0 <= i < |M| && 0 <= j < |M|
      ensures Augmented(M, lines, d)[i][j] ==
        M[i][j] - (if i in RowSet(lines) then 0 else d) + (if j in ColSet(lines) then d else 0)
    {
      AugmentedCell(M, lines, d, i, j);
    }
  }

  /**
   * On a non-negative matrix whose zeros are all covered, with d the smallest
   * uncovered value: d is positive, every cell stays non-negative, and some
   * free cell becomes zero.
   */
  lemma AugmentationNormal(M: Matrix, lines: seq<Line>, d: int)
    requires IsSquare(M) && NonNegative(M) && CoversZeros(M, lines)
    requires IsMinUncovered(M, lines, d)
    ensures d > 0
    ensures NonNegative(Augmented(M, lines, d))
    ensures exists i, j :: 0 <= i < |M| && 0 <= j < |M| && IsFree(lines, i, j) && Augmented(M, lines, d)[i][j] == 0
  {
    var W := Augmented(M, lines, d);
    var i0, j0 :| 0 <= i0 < |M| && 0 <= j0 < |M| && IsFree(lines, i0, j0) && M[i0][j0] == d;
    assert d != 0;
    forall i, j | 0 <= i < |W| && 0 <= j < |W[i]|
      ensures W[i][j] >= 0
    {
      AugmentedCell(M, lines, d, i, j);
      if IsFree(lines, i, j) {
        assert d <= M[i][j];
      }
    }
    AugmentedCell(M, lines, d, i0, j0);
  }

  /** One cell of the augmented matrix. */
  lemma AugmentedCell(M: Matrix, lines: seq<Line>, d: int, i: nat, j: nat)
    requires IsSquare(M) && i < |M| && j < |M|
    ensures Augmented(M, lines, d)[i][j] ==
      M[i][j] - (if i in RowSet(lines) then 0 else d) + (if j in ColSet(lines) then d else 0)
  {
  }

  /** Raising the rows outside R by d raises the row potential sum by d per such row. */
  lemma SumRaiseFreeRows(u: seq<int>, R: set<int>, d: int)
    ensures Sum(RaiseFreeRows(u, R, d)) == Sum(u) + d * (|u| - CountIn(|u|, R))
  {
    var du := seq(|u|, i requires 0 <= i < |u| => if i in R then 0 else d);
    SumPointwise(u, du, RaiseFreeRows(u, R, d));
    SumIndicator(du, R, 0, d);
  }

  /** Lowering the columns in C by d lowers the column potential sum by d per such column. */
  lemma SumLowerCoveredColumns(v: seq<int>, C: set<int>, d: int)
    ensures Sum(LowerCoveredColumns(v, C, d)) == Sum(v) - d * CountIn(|v|, C)
  {
    var dv := seq(|v|, j requires 0 <= j < |v| => if j in C then d else 0);
    SumPointwise(LowerCoveredColumns(v, C, d), dv, v);
    SumIndicator(dv, C, d, 0);
  }

  /**
   * The potential argument for one step: if W is B less the potentials u, v,
   * the augmented matrix is B less the raised potentials.
   */
  lemma AugmentationPotentials(W: Matrix, B: Matrix, u: seq<int>, v: seq<int>, lines: seq<Line>, d: int)
    requires HasPotentials(W, B, u, v)
    ensures HasPotentials(Augmented(W, lines, d), B,
                          RaiseFreeRows(u, RowSet(lines), d), LowerCoveredColumns(v, ColSet(lines), d))
  {
  }

  /** With fewer than n lines the potential sum rises by at least d. */
  lemma PotentialSumRises(u: seq<int>, v: seq<int>, lines: seq<Line>, d: int)
    requires |u| == |v| && |lines| < |u| && d > 0
    ensures Sum(RaiseFreeRows(u, RowSet(lines), d)) + Sum(LowerCoveredColumns(v, ColSet(lines), d)) >= Sum(u) + Sum(v) + d
  {
    CoveredCount(|u|, lines);
    CountsRise(u, v, RowSet(lines), ColSet(lines), d);
  }

  /** The arithmetic of PotentialSumRises, for any sets of covered rows R and columns C. */
  lemma CountsRise(u: seq<int>, v: seq<int>, R: set<int>, C: set<int>, d: int)
    requires |u| == |v| && d > 0 && CountIn(|u|, R) + CountIn(|u|, C) < |u|
    ensures Sum(RaiseFreeRows(u, R, d)) + Sum(LowerCoveredColumns(v, C, d)) >= Sum(u) + Sum(v) + d
  {
    SumRaiseFreeRows(u, R, d);
    SumLowerCoveredColumns(v, C, d);
    ScaledGap(d, |u| - CountIn(|u|, R), CountIn(|u|, C));
  }

  /** The step lowers the cost of the identity assignment by at least d when fewer than n lines are drawn. */
  lemma AugmentationProgress(W: Matrix, B: Matrix, u: seq<int>, v: seq<int>, lines: seq<Line>, d: int)
    requires HasPotentials(W, B, u, v) && |lines| < |W| && d > 0
    ensures Cost(Augmented(W, lines, d), Identity(|W|)) <= Cost(W, Identity(|W|)) - d
  {
    var n := |W|;
    var u' := RaiseFreeRows(u, RowSet(lines), d);
    var v' := LowerCoveredColumns(v, ColSet(lines), d);
    AugmentationPotentials(W, B, u, v, lines, d);
    PotentialSumRises(u, v, lines, d);
    IdentityIsPermutation(n);
    PotentialCost(W, B, u, v, Identity(n));
    PotentialCost(Augmented(W, lines, d), B, u', v', Identity(n));
  }

  /** The arithmetic of PotentialSumRises: d * a exceeds d * b by at least d when a exceeds b. */
  lemma ScaledGap(d: int, a: int, b: int)
    requires d > 0 && a - b >= 1
    ensures d * a - d * b >= d
  {
    assert d * a - d * b == d * (a - b);
  }

  /**
   * The augmentation loops, in place on the working matrix: first every row
   * without a line loses d, then every column with a line gains d.
   */
  method Augment(matrix: array2<int>, lines: seq<Line>, d: int)
    requires matrix.Length0 == matrix.Length1
    modifies matrix
    ensures Snap(matrix) == Augmented(old(Snap(matrix)), lines, d)
  {
    ghost var M := Snap(matrix);
    var n := matrix.Length0;
    for worker := 0 to n
      invariant forall i, j :: 0 <= i < n && 0 <= j < n ==>
        matrix[i, j] == M[i][j] - (if i < worker && i !in RowSet(lines) then d else 0)
    {
      if worker !in RowSet(lines) {
        SubtractFromRow(matrix, worker, d);
      }
    }
    for job := 0 to n
      invariant forall i, j :: 0 <= i < n && 0 <= j < n ==>
        matrix[i, j] == M[i][j] - (if i !in RowSet(lines) then d else 0) + (if j < job && j in ColSet(lines) then d else 0)
    {
      if job in ColSet(lines) {
        AddToColumn(matrix, job, d);
      }
    }
    forall i, j | 0 <= i < n && 0 <= j < n
      ensures matrix[i, j] == Augmented(M, lines, d)[i][j]
    {
      AugmentedCell(M, lines, d, i, j);
    }
    SnapIs(matrix, Augmented(M, lines, d));
  }

  /** `matrix[worker][job] -= minUncovered` for every job of one row. */
  method SubtractFromRow(matrix: array2<int>, worker: nat, d: int)
    requires worker < matrix.Length0
    modifies matrix
    ensures forall i, j :: 0 <= i < matrix.Length0 && 0 <= j < matrix.Length1 ==>
      matrix[i, j] == old(matrix[i, j]) - (if i == worker then d else 0)
  {
    for job := 0 to matrix.Length1
      invariant forall i, j :: 0 <= i < matrix.Length0 && 0 <= j < matrix.Length1 ==>
        matrix[i, j] == old(matrix[i, j]) - (if i == worker && j < job then d else 0)
    {
      matrix[worker, job] := matrix[worker, job] - d;
    }
  }

  /** `matrix[worker][job] += minUncovered` for every worker of one column. */
  method AddToColumn(matrix: array2<int>, job: nat, d: int)
    requires job < matrix.Length1
    modifies matrix
    ensures forall i, j :: 0 <= i < matrix.Length0 && 0 <= j < matrix.Length1 ==>
      matrix[i, j] == old(matrix[i, j]) + (if j == job then d else 0)
  {
    for worker := 0 to matrix.Length0
      invariant forall i, j :: 0 <= i < matrix.Length0 && 0 <= j < matrix.Length1 ==>
        matrix[i, j] == old(matrix[i, j]) + (if j == job && i < worker then d else 0)
    {
      matrix[worker, job] := matrix[worker, job] + d;
    }
  }
}
