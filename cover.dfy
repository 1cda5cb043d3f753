/**
 * The zero cover (coverZeros, hungarian.js:109-181), the smallest uncovered
 * value (findMinUncovered, hungarian.js:183-203) and the augmentation step
 * that uses it (hungarian.js:59-77).
 */
module Cover {
  import opened Matrices
  import opened Costs

  datatype Kind = Row | Col

  /** A covering line `{ type, index }`; the display label is not modelled. */
  datatype Line = Line(kind: Kind, index: nat)

  /** Indices of the row lines (`lines.filter(line => line.type === 'row').map(line => line.index)`). */
  function RowSet(lines: seq<Line>): set<int>
  {
    if |lines| == 0 then {}
    else
      var l := lines[|lines| - 1];
      RowSet(lines[..|lines| - 1]) + (if l.kind == Row then {l.index as int} else {})
  }

  /** Indices of the column lines. */
  function ColSet(lines: seq<Line>): set<int>
  {
    if |lines| == 0 then {}
    else
      var l := lines[|lines| - 1];
      ColSet(lines[..|lines| - 1]) + (if l.kind == Col then {l.index as int} else {})
  }

  /** The row and column sets hold exactly the indices of the row and column lines. */
  lemma {:induction false} LineSets(lines: seq<Line>, x: nat)
    ensures x in RowSet(lines) <==> Line(Row, x) in lines
    ensures x in ColSet(lines) <==> Line(Col, x) in lines
    decreases |lines|
  {
    if |lines| > 0 {
      var P := lines[..|lines| - 1];
      LineSets(P, x);
      assert lines == P + [lines[|lines| - 1]];
    }
  }

  /** Cell (i, j) lies on no line. */
  predicate IsFree(lines: seq<Line>, i: int, j: int)
  {
    i !in RowSet(lines) && j !in ColSet(lines)
  }

  /** Some cell of an n-by-n matrix lies on no line. */
  predicate HasFreeCell(n: nat, lines: seq<Line>)
  {
    exists i, j :: 0 <= i < n && 0 <= j < n && IsFree(lines, i, j)
  }

  /** Every zero cell of M lies on some line. */
  predicate CoversZeros(M: Matrix, lines: seq<Line>)
    requires IsSquare(M)
  {
    forall i, j :: 0 <= i < |M| && 0 <= j < |M| && M[i][j] == 0 ==> !IsFree(lines, i, j)
  }

  /** Number of positions j < k where s holds a zero and j is not in X. */
  function FreeZeros(s: seq<int>, X: set<int>, k: nat): (r: nat)
    requires k <= |s|
    ensures r <= k
  {
    if k == 0 then 0 else FreeZeros(s, X, k - 1) + (if s[k - 1] == 0 && k - 1 !in X then 1 else 0)
  }

  /** Zeros of row i whose column carries no line yet. */
  function RowScore(M: Matrix, lines: seq<Line>, i: nat): (r: nat)
    requires IsSquare(M) && i < |M|
    ensures r <= |M|
  {
    FreeZeros(M[i], ColSet(lines), |M|)
  }

  /** Zeros of column j whose row carries no line yet. */
  function ColScore(M: Matrix, lines: seq<Line>, j: nat): (r: nat)
    requires IsSquare(M) && j < |M|
    ensures r <= |M|
  {
    FreeZeros(Column(M, j), RowSet(lines), |M|)
  }

  /** r is the first uncovered row with the greatest score (the row scan, hungarian.js:120-128). */
  predicate BestRow(M: Matrix, P: seq<Line>, r: nat)
    requires IsSquare(M)
  {
    r < |M| && r !in RowSet(P) &&
    (forall i :: 0 <= i < |M| && i !in RowSet(P) ==> RowScore(M, P, i) <= RowScore(M, P, r)) &&
    (forall i :: 0 <= i < r && i !in RowSet(P) ==> RowScore(M, P, i) < RowScore(M, P, r))
  }

  /** c is the first uncovered column with the greatest score (the column scan, hungarian.js:134-145). */
  predicate BestColumn(M: Matrix, P: seq<Line>, c: nat)
    requires IsSquare(M)
  {
    c < |M| && c !in ColSet(P) &&
    (forall j :: 0 <= j < |M| && j !in ColSet(P) ==> ColScore(M, P, j) <= ColScore(M, P, c)) &&
    (forall j :: 0 <= j < c && j !in ColSet(P) ==> ColScore(M, P, j) < ColScore(M, P, c))
  }

  /**
   * The line coverZeros adds after the lines P: the best row when its score
   * is positive and at least every uncovered column's (a row wins ties),
   * otherwise the best column when its score is positive and beats every
   * uncovered row's (hungarian.js:148-177).
   */
  predicate GreedyPick(M: Matrix, P: seq<Line>, l: Line)
    requires IsSquare(M)
  {
    match l.kind
    case Row =>
      BestRow(M, P, l.index) && RowScore(M, P, l.index) > 0 &&
      forall j :: 0 <= j < |M| && j !in ColSet(P) ==> ColScore(M, P, j) <= RowScore(M, P, l.index)
    case Col =>
      BestColumn(M, P, l.index) && ColScore(M, P, l.index) > 0 &&
      forall i :: 0 <= i < |M| && i !in RowSet(P) ==> RowScore(M, P, i) < ColScore(M, P, l.index)
  }

  /** Each line is the greedy pick after the lines before it. */
  predicate GreedyPrefix(M: Matrix, lines: seq<Line>)
    requires IsSquare(M)
  {
    forall k :: 0 <= k < |lines| ==> GreedyPick(M, lines[..k], lines[k])
  }

  /** lines is the sequence coverZeros returns for M: greedy picks until every zero is covered. */
  predicate IsGreedyCover(M: Matrix, lines: seq<Line>)
    requires IsSquare(M)
  {
    GreedyPrefix(M, lines) && CoversZeros(M, lines)
  }

  /** A zero cell at or after which nothing is counted - how coverZeros marks `tempMatrix` (-1). */
  function Marked(M: Matrix, R: set<int>, C: set<int>, i: nat, j: nat): (v: int)
    requires i < |M| && j < |M[i]|
    ensures v == 0 <==> M[i][j] == 0 && i !in R && j !in C
  {
    if M[i][j] == 0 && (i in R || j in C) then -1 else M[i][j]
  }

  /** The working copy t holds M with the zeros on the lines R, C marked. */
  ghost predicate Mirrors(t: array2<int>, M: Matrix, R: set<int>, C: set<int>)
    requires IsSquare(M) && t.Length0 == t.Length1 == |M|
    reads t
  {
    forall i, j :: 0 <= i < |M| && 0 <= j < |M| ==> t[i, j] == Marked(M, R, C, i, j)
  }

  /** Indices below n outside S. */
  function Remaining(n: nat, S: set<int>): (X: set<int>)
  {
    set x | 0 <= x < n && x !in S
  }

  /** Covering one more index leaves fewer to cover: the coverZeros loop ends. */
  lemma RemainingShrinks(n: nat, S: set<int>, x: int)
    requires 0 <= x < n && x !in S
    ensures |Remaining(n, S + {x})| < |Remaining(n, S)|
  {
    assert Remaining(n, S + {x}) == Remaining(n, S) - {x};
    assert x in Remaining(n, S);
  }

  lemma RowSetAppend(lines: seq<Line>, l: Line)
    ensures RowSet(lines + [l]) == RowSet(lines) + (if l.kind == Row then {l.index as int} else {})
    ensures ColSet(lines + [l]) == ColSet(lines) + (if l.kind == Col then {l.index as int} else {})
  {
    assert (lines + [l])[..|lines|] == lines;
  }

  /** A free zero before k is counted. */
  lemma {:induction false} FreeZerosWitness(s: seq<int>, X: set<int>, k: nat, j: int)
    requires k <= |s| && 0 <= j < k && s[j] == 0 && j !in X
    ensures FreeZeros(s, X, k) > 0
    decreases k
  {
    if j < k - 1 {
      FreeZerosWitness(s, X, k - 1, j);
    }
  }

  /** A positive count has a free zero behind it. */
  lemma {:induction false} FreeZerosFind(s: seq<int>, X: set<int>, k: nat) returns (j: nat)
    requires k <= |s| && FreeZeros(s, X, k) > 0
    ensures j < k && s[j] == 0 && j !in X
    decreases k
  {
    if s[k - 1] == 0 && k - 1 !in X {
      j := k - 1;
    } else {
      j := FreeZerosFind(s, X, k - 1);
    }
  }

  /** The count only depends on where the free positions hold zeros. */
  lemma {:induction false} FreeZerosAgree(s: seq<int>, t: seq<int>, X: set<int>, k: nat)
    requires k <= |s| && k <= |t|
    requires forall j :: 0 <= j < k && j !in X ==> (s[j] == 0 <==> t[j] == 0)
    ensures FreeZeros(s, X, k) == FreeZeros(t, X, k)
    decreases k
  {
    if k > 0 {
      FreeZerosAgree(s, t, X, k - 1);
    }
  }

  /** The line a greedy step adds covers a zero that the earlier lines left uncovered. */
  lemma GreedyPickProgress(M: Matrix, P: seq<Line>, l: Line) returns (i: nat, j: nat)
    requires IsSquare(M) && GreedyPick(M, P, l)
    ensures i < |M| && j < |M| && M[i][j] == 0 && IsFree(P, i, j)
    ensures l == Line(Row, i) || l == Line(Col, j)
  {
    if l.kind == Row {
      i := l.index;
      j := FreeZerosFind(M[i], ColSet(P), |M|);
    } else {
      j := l.index;
      i := FreeZerosFind(Column(M, j), RowSet(P), |M|);
    }
  }

  /** At most one line satisfies the greedy rule after a given prefix. */
  lemma GreedyPickUnique(M: Matrix, P: seq<Line>, Q: seq<Line>, a: Line, b: Line)
    requires IsSquare(M) && P == Q && GreedyPick(M, P, a) && GreedyPick(M, Q, b)
    ensures a == b
  {
    match (a.kind, b.kind)
    case (Row, Row) =>
      assert RowScore(M, P, a.index) == RowScore(M, P, b.index);
      assert !(a.index < b.index) && !(b.index < a.index);
    case (Col, Col) =>
      assert ColScore(M, P, a.index) == ColScore(M, P, b.index);
      assert !(a.index < b.index) && !(b.index < a.index);
    case (Row, Col) =>
      assert false;
    case (Col, Row) =>
      assert false;
  }

  /** Adding the greedy pick keeps every line a greedy pick. */
  lemma ExtendGreedyPrefix(M: Matrix, lines: seq<Line>, l: Line)
    requires IsSquare(M) && GreedyPrefix(M, lines) && GreedyPick(M, lines, l)
    ensures GreedyPrefix(M, lines + [l])
  {
    var L := lines + [l];
    forall k | 0 <= k < |L|
      ensures GreedyPick(M, L[..k], L[k])
    {
      if k < |lines| {
        assert L[..k] == lines[..k];
      } else {
        assert L[..k] == lines;
      }
    }
  }

  /** The k-th line of a greedy sequence is the greedy pick after the first k. */
  lemma PickAt(M: Matrix, a: seq<Line>, k: nat)
    requires IsSquare(M) && GreedyPrefix(M, a) && k < |a|
    ensures GreedyPick(M, a[..k], a[k])
  {
  }

  /** A prefix one longer is the shorter prefix and one more element. */
  lemma SliceStep<T>(a: seq<T>, k: nat)
    requires 0 < k <= |a|
    ensures a[..k] == a[..k - 1] + [a[k - 1]]
  {
  }

  /** Two greedy line sequences agree on their first k lines. */
  lemma {:induction false} GreedyPrefixesAgree(M: Matrix, a: seq<Line>, b: seq<Line>, k: nat)
    requires IsSquare(M) && GreedyPrefix(M, a) && GreedyPrefix(M, b)
    requires k <= |a| && k <= |b|
    ensures a[..k] == b[..k]
    decreases k
  {
    if k > 0 {
      GreedyPrefixesAgree(M, a, b, k - 1);
      PickAt(M, a, k - 1);
      PickAt(M, b, k - 1);
      GreedyPickUnique(M, a[..k - 1], b[..k - 1], a[k - 1], b[k - 1]);
      SliceStep(a, k);
      SliceStep(b, k);
    }
  }

  /** A greedy cover is not a proper prefix of another greedy sequence. */
  lemma CoverIsMaximal(M: Matrix, a: seq<Line>, b: seq<Line>)
    requires IsSquare(M) && IsGreedyCover(M, a) && GreedyPrefix(M, b)
    ensures !(|a| < |b| && b[..|a|] == a)
  {
    if |a| < |b| && b[..|a|] == a {
      assert GreedyPick(M, b[..|a|], b[|a|]);
      var i, j := GreedyPickProgress(M, a, b[|a|]);
      assert false;
    }
  }

  /** The greedy rule leaves no choice: coverZeros is deterministic. */
  lemma GreedyCoverUnique(M: Matrix, a: seq<Line>, b: seq<Line>)
    requires IsSquare(M) && IsGreedyCover(M, a) && IsGreedyCover(M, b)
    ensures a == b
  {
    if |a| < |b| {
      GreedyPrefixesAgree(M, a, b, |a|);
      assert a[..|a|] == a;
      CoverIsMaximal(M, a, b);
    } else if |b| < |a| {
      GreedyPrefixesAgree(M, b, a, |b|);
      assert b[..|b|] == b;
      CoverIsMaximal(M, b, a);
    } else {
      GreedyPrefixesAgree(M, a, b, |a|);
      assert a == a[..|a|] && b == b[..|b|];
    }
  }

  /** A greedy cover names each line at most once, and only rows and columns of M. */
  lemma GreedyCoverDistinct(M: Matrix, lines: seq<Line>)
    requires IsSquare(M) && IsGreedyCover(M, lines)
    ensures forall k :: 0 <= k < |lines| ==> lines[k].index < |M|
    ensures forall k1, k2 :: 0 <= k1 < k2 < |lines| ==> lines[k1] != lines[k2]
  {
    forall k | 0 <= k < |lines|
      ensures lines[k].index < |M|
    {
      assert GreedyPick(M, lines[..k], lines[k]);
    }
    forall k1, k2 | 0 <= k1 < k2 < |lines|
      ensures lines[k1] != lines[k2]
    {
      var P := lines[..k2];
      PickAt(M, lines, k2);
      PickIsNew(M, P, lines[k2]);
      assert lines[k1] == P[k1];
    }
  }

  /** The greedy pick is a line not drawn before. */
  lemma PickIsNew(M: Matrix, P: seq<Line>, l: Line)
    requires IsSquare(M) && GreedyPick(M, P, l)
    ensures l !in P
  {
    LineSets(P, l.index);
    assert l == Line(l.kind, l.index);
  }

  /**
   * coverZeros: repeatedly add the greedy line and mark its zeros on a
   * private copy, until no uncovered zero is left. The argument is only read.
   */
  method CoverZeros(matrix: array2<int>) returns (lines: seq<Line>)
    requires matrix.Length0 == matrix.Length1 >= 1
    ensures IsGreedyCover(Snap(matrix), lines)
  {
    var n := matrix.Length0;
    ghost var M := Snap(matrix);
    lines := [];
    var coveredRows: set<int> := {};
    var coveredCols: set<int> := {};
    var tempMatrix := new int[n, n]((i, j) reads matrix requires 0 <= i < n && 0 <= j < n => matrix[i, j]);
    while true
      invariant tempMatrix.Length0 == n && tempMatrix.Length1 == n
      invariant coveredRows == RowSet(lines) && coveredCols == ColSet(lines)
      invariant Mirrors(tempMatrix, M, coveredRows, coveredCols)
      invariant GreedyPrefix(M, lines)
      decreases |Remaining(n, coveredRows)| + |Remaining(n, coveredCols)|
    {
      var next := CoverRound(tempMatrix, coveredRows, coveredCols, M, lines);
      if next.None? {
        break;
      }
      var line := next.value;
      if line.kind == Row {
        RemainingShrinks(n, coveredRows, line.index);
        coveredRows := coveredRows + {line.index};
      } else {
        RemainingShrinks(n, coveredCols, line.index);
        coveredCols := coveredCols + {line.index};
      }
      ExtendGreedyPrefix(M, lines, line);
      RowSetAppend(lines, line);
      lines := lines + [line];
    }
  }

  /**
   * One round of the coverZeros loop: scan rows and columns, then either stop
   * (None) or mark the zeros of the greedy line on tempMatrix and return it.
   */
  method CoverRound(tempMatrix: array2<int>, coveredRows: set<int>, coveredCols: set<int>,
                    ghost M: Matrix, ghost lines: seq<Line>)
    returns (next: Option<Line>)
    requires IsSquare(M) && tempMatrix.Length0 == tempMatrix.Length1 == |M|
    requires coveredRows == RowSet(lines) && coveredCols == ColSet(lines)
    requires Mirrors(tempMatrix, M, coveredRows, coveredCols)
    modifies tempMatrix
    ensures next.None? ==> CoversZeros(M, lines)
    ensures next.Some? ==> GreedyPick(M, lines, next.value)
    ensures next.Some? && next.value.kind == Row ==>
      Mirrors(tempMatrix, M, coveredRows + {next.value.index}, coveredCols)
    ensures next.Some? && next.value.kind == Col ==>
      Mirrors(tempMatrix, M, coveredRows, coveredCols + {next.value.index})
  {
    var maxRowIndex, maxRowCount := ScanRows(tempMatrix, coveredRows, coveredCols, M, lines);
    var maxColIndex, maxColCount := ScanColumns(tempMatrix, coveredRows, coveredCols, M, lines);

    if maxRowCount <= 0 && maxColCount <= 0 {
      NothingLeftToCover(M, lines, maxRowIndex, maxRowCount);
      return None;
    }

    if maxRowCount >= maxColCount {
      RowPickIsGreedy(M, lines, maxRowIndex, maxRowCount, maxColIndex, maxColCount);
      MarkRow(tempMatrix, maxRowIndex, coveredRows, coveredCols, M);
      next := Some(Line(Row, maxRowIndex));
    } else {
      ColumnPickIsGreedy(M, lines, maxRowIndex, maxRowCount, maxColIndex, maxColCount);
      MarkColumn(tempMatrix, maxColIndex, coveredRows, coveredCols, M);
      next := Some(Line(Col, maxColIndex));
    }
  }

  /** When no uncovered row has a free zero, every zero is covered (the `break`, hungarian.js:148). */
  lemma NothingLeftToCover(M: Matrix, lines: seq<Line>, maxRowIndex: int, maxRowCount: int)
    requires IsSquare(M)
    requires -1 <= maxRowIndex < |M|
    requires maxRowIndex == -1 ==> forall i :: 0 <= i < |M| ==> i in RowSet(lines)
    requires maxRowIndex >= 0 ==> BestRow(M, lines, maxRowIndex) && maxRowCount == RowScore(M, lines, maxRowIndex)
    requires maxRowCount <= 0
    ensures CoversZeros(M, lines)
  {
    forall i, j | 0 <= i < |M| && 0 <= j < |M| && M[i][j] == 0
      ensures !IsFree(lines, i, j)
    {
      if IsFree(lines, i, j) {
        FreeZerosWitness(M[i], ColSet(lines), |M|, j);
        assert false;
      }
    }
  }

  /** The scans of one round, as ScanRows and ScanColumns report them. */
  predicate ScanResult(M: Matrix, lines: seq<Line>, maxRowIndex: int, maxRowCount: int, maxColIndex: int, maxColCount: int)
    requires IsSquare(M)
  {
    -1 <= maxRowIndex < |M| && -1 <= maxColIndex < |M| &&
    (maxRowIndex == -1 ==> maxRowCount == -1 && forall i :: 0 <= i < |M| ==> i in RowSet(lines)) &&
    (maxRowIndex >= 0 ==> BestRow(M, lines, maxRowIndex) && maxRowCount == RowScore(M, lines, maxRowIndex)) &&
    (maxColIndex == -1 ==> maxColCount == -1 && forall j :: 0 <= j < |M| ==> j in ColSet(lines)) &&
    (maxColIndex >= 0 ==> BestColumn(M, lines, maxColIndex) && maxColCount == ColScore(M, lines, maxColIndex))
  }

  /** A positive row count at least the column count picks that row (hungarian.js:151-163). */
  lemma RowPickIsGreedy(M: Matrix, lines: seq<Line>, maxRowIndex: int, maxRowCount: int, maxColIndex: int, maxColCount: int)
    requires IsSquare(M) && ScanResult(M, lines, maxRowIndex, maxRowCount, maxColIndex, maxColCount)
    requires maxRowCount > 0 && maxRowCount >= maxColCount
    ensures maxRowIndex >= 0 && GreedyPick(M, lines, Line(Row, maxRowIndex))
  {
  }

  /** A positive column count beating the row count picks that column (hungarian.js:164-176). */
  lemma ColumnPickIsGreedy(M: Matrix, lines: seq<Line>, maxRowIndex: int, maxRowCount: int, maxColIndex: int, maxColCount: int)
    requires IsSquare(M) && ScanResult(M, lines, maxRowIndex, maxRowCount, maxColIndex, maxColCount)
    requires maxColCount > 0 && maxColCount > maxRowCount
    ensures maxColIndex >= 0 && GreedyPick(M, lines, Line(Col, maxColIndex))
  {
  }

  /** The row scan of one round: the first uncovered row with the most free zeros. */
  method ScanRows(tempMatrix: array2<int>, coveredRows: set<int>, coveredCols: set<int>,
                  ghost M: Matrix, ghost lines: seq<Line>)
    returns (maxRowIndex: int, maxRowCount: int)
    requires IsSquare(M) && tempMatrix.Length0 == tempMatrix.Length1 == |M|
    requires coveredRows == RowSet(lines) && coveredCols == ColSet(lines)
    requires Mirrors(tempMatrix, M, coveredRows, coveredCols)
    ensures -1 <= maxRowIndex < |M|
    ensures maxRowIndex == -1 ==> maxRowCount == -1 && forall i :: 0 <= i < |M| ==> i in coveredRows
    ensures maxRowIndex >= 0 ==> BestRow(M, lines, maxRowIndex) && maxRowCount == RowScore(M, lines, maxRowIndex)
  {
    var n := tempMatrix.Length0;
    maxRowIndex, maxRowCount := -1, -1;
    var worker := 0;
    while worker < n
      invariant 0 <= worker <= n
      invariant -1 <= maxRowIndex < worker
      invariant maxRowIndex == -1 ==> maxRowCount == -1 && forall i :: 0 <= i < worker ==> i in coveredRows
      invariant maxRowIndex >= 0 ==> maxRowIndex !in coveredRows && maxRowCount == RowScore(M, lines, maxRowIndex)
      invariant maxRowIndex >= 0 ==> forall i :: 0 <= i < worker && i !in coveredRows ==> RowScore(M, lines, i) <= maxRowCount
      invariant maxRowIndex >= 0 ==> forall i :: 0 <= i < maxRowIndex && i !in coveredRows ==> RowScore(M, lines, i) < maxRowCount
    {
      if worker !in coveredRows {
        var zeroCount := FreeZeros(RowOf(tempMatrix, worker), coveredCols, n);
        FreeZerosAgree(RowOf(tempMatrix, worker), M[worker], coveredCols, n);
        if zeroCount > maxRowCount {
          maxRowCount := zeroCount;
          maxRowIndex := worker;
        }
      }
      worker := worker + 1;
    }
  }

  /** The column scan of one round: the first uncovered column with the most free zeros. */
  method ScanColumns(tempMatrix: array2<int>, coveredRows: set<int>, coveredCols: set<int>,
                     ghost M: Matrix, ghost lines: seq<Line>)
    returns (maxColIndex: int, maxColCount: int)
    requires IsSquare(M) && tempMatrix.Length0 == tempMatrix.Length1 == |M|
    requires coveredRows == RowSet(lines) && coveredCols == ColSet(lines)
    requires Mirrors(tempMatrix, M, coveredRows, coveredCols)
    ensures -1 <= maxColIndex < |M|
    ensures maxColIndex == -1 ==> maxColCount == -1 && forall j :: 0 <= j < |M| ==> j in coveredCols
    ensures maxColIndex >= 0 ==> BestColumn(M, lines, maxColIndex) && maxColCount == ColScore(M, lines, maxColIndex)
  {
    var n := tempMatrix.Length0;
    maxColIndex, maxColCount := -1, -1;
    var job := 0;
    while job < n
      invariant 0 <= job <= n
      invariant -1 <= maxColIndex < job
      invariant maxColIndex == -1 ==> maxColCount == -1 && forall j :: 0 <= j < job ==> j in coveredCols
      invariant maxColIndex >= 0 ==> maxColIndex !in coveredCols && maxColCount == ColScore(M, lines, maxColIndex)
      invariant maxColIndex >= 0 ==> forall j :: 0 <= j < job && j !in coveredCols ==> ColScore(M, lines, j) <= maxColCount
      invariant maxColIndex >= 0 ==> forall j :: 0 <= j < maxColIndex && j !in coveredCols ==> ColScore(M, lines, j) < maxColCount
    {
      if job !in coveredCols {
        var zeroCount := 0;
        var worker := 0;
        while worker < n
          invariant 0 <= worker <= n
          invariant zeroCount == FreeZeros(Column(M, job), coveredRows, worker)
        {
          if tempMatrix[worker, job] == 0 && worker !in coveredRows {
            zeroCount := zeroCount + 1;
          }
          worker := worker + 1;
        }
        if zeroCount > maxColCount {
          maxColCount := zeroCount;
          maxColIndex := job;
        }
      }
      job := job + 1;
    }
  }

  /** Mark the zeros of row r as consumed (hungarian.js:159-163). */
  method MarkRow(tempMatrix: array2<int>, r: int, coveredRows: set<int>, coveredCols: set<int>, ghost M: Matrix)
    requires IsSquare(M) && tempMatrix.Length0 == tempMatrix.Length1 == |M|
    requires 0 <= r < |M| && r !in coveredRows
    requires Mirrors(tempMatrix, M, coveredRows, coveredCols)
    modifies tempMatrix
    ensures Mirrors(tempMatrix, M, coveredRows + {r}, coveredCols)
  {
    var n := tempMatrix.Length0;
    var job := 0;
    while job < n
      invariant 0 <= job <= n
      invariant forall i, j :: 0 <= i < n && 0 <= j < n ==>
        tempMatrix[i, j] == (if i == r && j >= job then Marked(M, coveredRows, coveredCols, i, j)
                             else Marked(M, coveredRows + {r}, coveredCols, i, j))
    {
      if tempMatrix[r, job] == 0 {
        tempMatrix[r, job] := -1;
      }
      job := job + 1;
    }
  }

  /** Mark the zeros of column c as consumed (hungarian.js:172-176). */
  method MarkColumn(tempMatrix: array2<int>, c: int, coveredRows: set<int>, coveredCols: set<int>, ghost M: Matrix)
    requires IsSquare(M) && tempMatrix.Length0 == tempMatrix.Length1 == |M|
    requires 0 <= c < |M| && c !in coveredCols
    requires Mirrors(tempMatrix, M, coveredRows, coveredCols)
    modifies tempMatrix
    ensures Mirrors(tempMatrix, M, coveredRows, coveredCols + {c})
  {
    var n := tempMatrix.Length0;
    var worker := 0;
    while worker < n
      invariant 0 <= worker <= n
      invariant forall i, j :: 0 <= i < n && 0 <= j < n ==>
        tempMatrix[i, j] == (if j == c && i >= worker then Marked(M, coveredRows, coveredCols, i, j)
                             else Marked(M, coveredRows, coveredCols + {c}, i, j))
    {
      if tempMatrix[worker, c] == 0 {
        tempMatrix[worker, c] := -1;
      }
      worker := worker + 1;
    }
  }

  /** m is the smallest value of M on a cell that lies on no line. */
  predicate IsMinUncovered(M: Matrix, lines: seq<Line>, m: int)
    requires IsSquare(M)
  {
    (exists i, j :: 0 <= i < |M| && 0 <= j < |M| && IsFree(lines, i, j) && M[i][j] == m) &&
    (forall i, j :: 0 <= i < |M| && 0 <= j < |M| && IsFree(lines, i, j) ==> m <= M[i][j])
  }

  /** The smallest uncovered value is unique. */
  lemma MinUncoveredUnique(M: Matrix, lines: seq<Line>, m: int, m': int)
    requires IsSquare(M) && IsMinUncovered(M, lines, m) && IsMinUncovered(M, lines, m')
    ensures m == m'
  {
    var i, j :| 0 <= i < |M| && 0 <= j < |M| && IsFree(lines, i, j) && M[i][j] == m;
    var i', j' :| 0 <= i' < |M| && 0 <= j' < |M| && IsFree(lines, i', j') && M[i'][j'] == m';
  }

  /**
   * findMinUncovered: the smallest value on a cell outside every line, or
   * None (the source's Infinity) when every cell is covered.
   */
  method FindMinUncovered(matrix: array2<int>, lines: seq<Line>) returns (min: Option<int>)
    requires matrix.Length0 == matrix.Length1
    ensures min.None? <==> !HasFreeCell(matrix.Length0, lines)
    ensures min.Some? ==> IsMinUncovered(Snap(matrix), lines, min.value)
  {
    ghost var M := Snap(matrix);
    var n := matrix.Length0;
    var coveredRows := RowSet(lines);
    var coveredCols := ColSet(lines);
    min := None;
    ghost var wi, wj := 0, 0;
    for worker := 0 to n
      invariant min.None? ==> forall i, j :: 0 <= i < worker && 0 <= j < n ==> !IsFree(lines, i, j)
      invariant min.Some? ==> 0 <= wi < n && 0 <= wj < n && IsFree(lines, wi, wj) && M[wi][wj] == min.value
      invariant min.Some? ==> forall i, j :: 0 <= i < worker && 0 <= j < n && IsFree(lines, i, j) ==> min.value <= M[i][j]
    {
      if worker !in coveredRows {
        for job := 0 to n
          invariant min.None? ==> forall i, j :: (0 <= i < worker || (i == worker && j < job)) && 0 <= j < n ==> !IsFree(lines, i, j)
          invariant min.Some? ==> 0 <= wi < n && 0 <= wj < n && IsFree(lines, wi, wj) && M[wi][wj] == min.value
          invariant min.Some? ==> forall i, j :: (0 <= i < worker || (i == worker && j < job)) && 0 <= j < n && IsFree(lines, i, j) ==> min.value <= M[i][j]
        {
          if job !in coveredCols {
            if min.None? || matrix[worker, job] < min.value {
              min := Some(matrix[worker, job]);
              wi, wj := worker, job;
            }
          }
        }
      }
    }
  }

  /** Each line covers at most one row or one column: the covered rows and columns number at most |lines|. */
  lemma {:induction false} CoveredCount(n: nat, lines: seq<Line>)
    ensures CountIn(n, RowSet(lines)) + CountIn(n, ColSet(lines)) <= |lines|
    decreases |lines|
  {
    if |lines| == 0 {
      CountInSame(n, RowSet(lines), {});
      CountInSame(n, ColSet(lines), {});
      CountInEmpty(n);
    } else {
      var P := lines[..|lines| - 1];
      var l := lines[|lines| - 1];
      assert lines == P + [l];
      CoveredCount(n, P);
      RowSetAppend(P, l);
      if l.kind == Row {
        assert RowSet(lines) == RowSet(P) + {l.index as int} && ColSet(lines) == ColSet(P);
        CountInAdd(n, RowSet(P), l.index);
      } else {
        assert ColSet(lines) == ColSet(P) + {l.index as int} && RowSet(lines) == RowSet(P);
        CountInAdd(n, ColSet(P), l.index);
      }
    }
  }

  lemma {:induction false} CountInEmpty(n: nat)
    ensures CountIn(n, {}) == 0
    decreases n
  {
    if n > 0 {
      CountInEmpty(n - 1);
    }
  }

  /** A set that does not hold every index below n misses one of them. */
  lemma {:induction false} CountInMiss(n: nat, S: set<int>) returns (x: nat)
    requires CountIn(n, S) < n
    ensures x < n && x !in S
    decreases n
  {
    if n - 1 !in S {
      x := n - 1;
    } else {
      x := CountInMiss(n - 1, S);
    }
  }

  /** Fewer than n lines leave a free cell, so findMinUncovered finds a value inside the solver loop. */
  lemma FewLinesLeaveFreeCell(n: nat, lines: seq<Line>)
    requires |lines| < n
    ensures HasFreeCell(n, lines)
  {
    CoveredCount(n, lines);
    var i := CountInMiss(n, RowSet(lines));
    var j := CountInMiss(n, ColSet(lines));
    assert IsFree(lines, i, j);
  }
}
