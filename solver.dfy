/**
 * solveHungarian (hungarian.js:1-107): copy the input, convert a
 * maximisation problem, reduce rows and columns, then alternate greedy covers
 * and augmentations until the cover has n lines, recording a step each time;
 * finally search the zeros of the working matrix for an assignment and price
 * it in the original matrix.
 */
module Solver {
  import opened Matrices
  import opened Costs
  import opened Cover
  import opened Matching
  import opened Reduction
  import opened Augmentation
  import opened Trace

  /** What solveHungarian returns: `{ steps, assignment, originalMatrix }`. */
  datatype Solution = Solution(steps: seq<Step>, assignment: seq<Assigned>, originalMatrix: Matrix)

  /** The jobs of the final assignment, in worker order. */
  function Jobs(a: seq<Assigned>): (q: seq<int>)
    ensures |q| == |a| && forall k :: 0 <= k < |a| ==> q[k] == a[k].job
  {
    seq(|a|, k requires 0 <= k < |a| => a[k].job)
  }

  /**
   * q is a best complete assignment for O: no permutation costs less
   * (minimisation) or more (maximisation).
   */
  ghost predicate IsOptimal(O: Matrix, isMax: bool, q: seq<int>)
    requires IsSquare(O)
  {
    IsPermutation(q, |O|) &&
    forall p :: IsPermutation(p, |O|) ==> if isMax then Cost(O, p) <= Cost(O, q) else Cost(O, q) <= Cost(O, p)
  }

  /**
   * The steps of a solution for O: the prelude, a chain of covers and rounds
   * ending in a cover of the last working matrix with at least n lines, and
   * the final step, which shows the original matrix and the assignment.
   */
  ghost predicate IsSolutionTrace(O: Matrix, isMax: bool, steps: seq<Step>, assignment: seq<Assigned>)
    requires |O| > 0 && IsSquare(O)
  {
    var P := Prelude(O, isMax);
    |steps| >= |P| + 2 && steps[..|P|] == P &&
    IsTraceAfter(|P|, Reduced(O, isMax), O, steps, assignment)
  }

  /**
   * From position p on, steps holds a chain of covers and rounds that starts
   * from R and ends in a cover with at least n lines, followed by the final
   * step for O and the assignment, which is the one found in the matrix of
   * that last cover.
   */
  ghost predicate IsTraceAfter(p: nat, R: Matrix, O: Matrix, steps: seq<Step>, assignment: seq<Assigned>)
  {
    |steps| >= p + 2 &&
    Chain(steps[p..|steps| - 1]) && steps[p].matrix == R &&
    IsSquare(O) && IsSquare(steps[|steps| - 2].matrix) && |steps[|steps| - 2].matrix| == |O| &&
    |steps[|steps| - 2].lines| >= |O| &&
    steps[|steps| - 1] == Step(Optimal, O, [], CostList(assignment), true, Some(O)) &&
    IsFinalAssignment(O, steps[|steps| - 2].matrix, assignment)
  }

  /**
   * The assignment found in the last working matrix W: the first complete
   * zero matching, each entry priced in O, or empty when W has none.
   */
  ghost predicate IsFinalAssignment(O: Matrix, W: Matrix, a: seq<Assigned>)
    requires IsSquare(O) && IsSquare(W) && |W| == |O|
  {
    (Extendable(W, []) ==>
       |a| == |O| && FirstExtension(W, [], Jobs(a)) &&
       forall k :: 0 <= k < |O| ==> a[k].worker == k && a[k].cost == O[k][a[k].job]) &&
    (!Extendable(W, []) ==> a == [])
  }

  /** s is what solveHungarian(O, isMax) returns. */
  ghost predicate IsSolution(O: Matrix, isMax: bool, s: Solution)
    requires |O| > 0 && IsSquare(O)
  {
    s.originalMatrix == O && IsSolutionTrace(O, isMax, s.steps, s.assignment)
  }

  /** The trace of a solution, as IsTraceAfter states it. */
  lemma TraceOfSolution(O: Matrix, isMax: bool, s: Solution)
    requires |O| > 0 && IsSquare(O) && IsSolution(O, isMax, s)
    ensures IsTraceAfter(|Prelude(O, isMax)|, Reduced(O, isMax), O, s.steps, s.assignment)
  {
  }

  /**
   * The solver: the result satisfies IsSolution, the input is only read, and
   * a complete assignment is optimal for the original problem.
   */
  method SolveHungarian(originalMatrix: array2<int>, isMaximization: bool := false) returns (s: Solution)
    requires originalMatrix.Length0 == originalMatrix.Length1 >= 1
    ensures IsSolution(Snap(originalMatrix), isMaximization, s)
    ensures |s.assignment| == 0 || |s.assignment| == originalMatrix.Length0
    ensures |s.assignment| != 0 ==> IsOptimal(Snap(originalMatrix), isMaximization, Jobs(s.assignment))
  {
    var n := originalMatrix.Length0;
    ghost var O := Snap(originalMatrix);
    ghost var B := Start(O, isMaximization);
    var matrix, prelude := Preprocess(originalMatrix, isMaximization);
    ReductionPotentials(B);
    ReductionLeavesZeros(B);
    ghost var u, v;
    var trace;
    trace, u, v := CoverAndAugment(matrix, B, RowMins(B), ColumnMins(ReducedRows(B)));

    var found := FindOptimalAssignment(matrix);
    ghost var W := Snap(matrix);
    var assignment := Price(originalMatrix, found, W, O);
    var final := Step(Optimal, Snap(originalMatrix), [], CostList(assignment), true, Some(Snap(originalMatrix)));
    s := Solution(prelude + trace + [final], assignment, Snap(originalMatrix));
    SolutionIs(O, isMaximization, prelude, trace, W, u, v, found, s);
  }

  /** The facts gathered by SolveHungarian make its result a solution, optimal when complete. */
  lemma SolutionIs(O: Matrix, isMax: bool, prelude: seq<Step>, trace: seq<Step>, W: Matrix, u: seq<int>, v: seq<int>,
                   found: seq<Pair>, s: Solution)
    requires |O| > 0 && IsSquare(O) && prelude == Prelude(O, isMax)
    requires Chain(trace) && trace[0].matrix == Reduced(O, isMax)
    requires trace[|trace| - 1].matrix == W && |trace[|trace| - 1].lines| >= |O| && IsSquare(W) && |W| == |O|
    requires HasPotentials(W, Start(O, isMax), u, v) && NonNegative(W)
    requires Extendable(W, []) ==> found == Pairs(Cols(found)) && FirstExtension(W, [], Cols(found))
    requires !Extendable(W, []) ==> found == []
    requires |s.assignment| == |found|
    requires forall k :: 0 <= k < |found| ==> s.assignment[k] == Assigned(k, found[k].col, O[k][found[k].col])
    requires s == Solution(prelude + trace + [Step(Optimal, O, [], CostList(s.assignment), true, Some(O))], s.assignment, O)
    ensures IsSolution(O, isMax, s)
    ensures |s.assignment| == 0 || |s.assignment| == |O|
    ensures |s.assignment| != 0 ==> IsOptimal(O, isMax, Jobs(s.assignment))
  {
    FinalAssignmentIs(O, W, found, s.assignment);
    SolutionTraceIs(O, isMax, prelude, trace, s.assignment, s.steps);
    if Extendable(W, []) {
      FinalOptimal(O, isMax, W, u, v, Cols(found));
    }
  }

  /**
   * The first cover and the outer loop (hungarian.js:54-87): while the
   * greedy cover has fewer than n lines, augment and cover again. The loop
   * ends because every round lowers the cost of the identity assignment in a
   * working matrix that stays non-negative; ghost potentials u, v keep the
   * working matrix tied to the matrix B the reductions started from.
   */
  method CoverAndAugment(matrix: array2<int>, ghost B: Matrix, ghost u0: seq<int>, ghost v0: seq<int>)
    returns (trace: seq<Step>, ghost u: seq<int>, ghost v: seq<int>)
    requires matrix.Length0 == matrix.Length1 >= 1
    requires HasPotentials(Snap(matrix), B, u0, v0) && NonNegative(Snap(matrix))
    modifies matrix
    ensures Chain(trace) && trace[0].matrix == old(Snap(matrix))
    ensures trace[|trace| - 1].matrix == Snap(matrix) && |trace[|trace| - 1].lines| >= matrix.Length0
    ensures HasPotentials(Snap(matrix), B, u, v) && NonNegative(Snap(matrix))
  {
    var n := matrix.Length0;
    u, v := u0, v0;
    var lines := CoverZeros(matrix);
    trace := [AddedStep(Covered(|lines|), Snap(matrix), lines, PairList([]))];
    while |lines| < n
      invariant matrix.Length0 == matrix.Length1 == n
      invariant HasPotentials(Snap(matrix), B, u, v) && NonNegative(Snap(matrix)) && CoversZeros(Snap(matrix), lines)
      invariant Chain(trace) && trace[0].matrix == old(Snap(matrix))
      invariant trace[|trace| - 1].matrix == Snap(matrix) && trace[|trace| - 1].lines == lines
      decreases Cost(Snap(matrix), Identity(n))
    {
      lines, trace, u, v := AugmentRound(matrix, lines, trace, B, u, v);
    }
  }

  /**
   * One pass of the outer loop with the facts it keeps: the potentials, a
   * non-negative working matrix whose zeros the lines cover, and the chain
   * of steps; the cost of the identity assignment drops.
   */
  method AugmentRound(matrix: array2<int>, lines: seq<Line>, trace: seq<Step>, ghost B: Matrix, ghost u: seq<int>, ghost v: seq<int>)
    returns (lines': seq<Line>, trace': seq<Step>, ghost u': seq<int>, ghost v': seq<int>)
    requires matrix.Length0 == matrix.Length1 >= 1 && |lines| < matrix.Length0
    requires HasPotentials(Snap(matrix), B, u, v) && NonNegative(Snap(matrix)) && CoversZeros(Snap(matrix), lines)
    requires Chain(trace) && trace[|trace| - 1].matrix == Snap(matrix) && trace[|trace| - 1].lines == lines
    modifies matrix
    ensures HasPotentials(Snap(matrix), B, u', v') && NonNegative(Snap(matrix)) && CoversZeros(Snap(matrix), lines')
    ensures Chain(trace') && trace'[0] == trace[0]
    ensures trace'[|trace'| - 1].matrix == Snap(matrix) && trace'[|trace'| - 1].lines == lines'
    ensures 0 <= Cost(Snap(matrix), Identity(matrix.Length0)) < old(Cost(Snap(matrix), Identity(matrix.Length0)))
  {
    ghost var W := Snap(matrix);
    var round;
    lines', round := Round(matrix, lines, trace[|trace| - 1]);
    ghost var d := round[0].tag.amount;
    RoundKeeps(W, B, u, v, lines, d);
    u', v' := RaiseFreeRows(u, RowSet(lines), d), LowerCoveredColumns(v, ColSet(lines), d);
    ChainExtend(trace, round);
    trace' := trace + round;
  }

  /**
   * What one augmentation keeps: the raised potentials describe the new
   * matrix, which stays non-negative, and the identity assignment costs less.
   */
  lemma RoundKeeps(W: Matrix, B: Matrix, u: seq<int>, v: seq<int>, lines: seq<Line>, d: int)
    requires HasPotentials(W, B, u, v) && NonNegative(W) && CoversZeros(W, lines) && |lines| < |W|
    requires IsMinUncovered(W, lines, d)
    ensures var W' := Augmented(W, lines, d);
      HasPotentials(W', B, RaiseFreeRows(u, RowSet(lines), d), LowerCoveredColumns(v, ColSet(lines), d)) &&
      NonNegative(W') && 0 <= Cost(W', Identity(|W|)) < Cost(W, Identity(|W|))
  {
    AugmentationNormal(W, lines, d);
    AugmentationPotentials(W, B, u, v, lines, d);
    AugmentationProgress(W, B, u, v, lines, d);
    IdentityIsPermutation(|W|);
    CostNonNegative(Augmented(W, lines, d), Identity(|W|));
  }

  /** The steps of the result, assembled from the prelude, the chain of covers and rounds, and the final step. */
  lemma SolutionTraceIs(O: Matrix, isMax: bool, prelude: seq<Step>, trace: seq<Step>, a: seq<Assigned>, steps: seq<Step>)
    requires |O| > 0 && IsSquare(O) && prelude == Prelude(O, isMax)
    requires Chain(trace) && trace[0].matrix == Reduced(O, isMax)
    requires IsSquare(trace[|trace| - 1].matrix) && |trace[|trace| - 1].matrix| == |O| && |trace[|trace| - 1].lines| >= |O|
    requires IsFinalAssignment(O, trace[|trace| - 1].matrix, a)
    requires steps == prelude + trace + [Step(Optimal, O, [], CostList(a), true, Some(O))]
    ensures IsSolutionTrace(O, isMax, steps, a) && steps[|steps| - 2] == trace[|trace| - 1]
  {
    Parts(prelude, trace, steps[|steps| - 1], steps);
  }

  /** The pieces of a sequence written as P + c + [f]. */
  lemma Parts<T>(P: seq<T>, c: seq<T>, f: T, s: seq<T>)
    requires |c| >= 1 && s == P + c + [f]
    ensures |s| == |P| + |c| + 1 && s[..|P|] == P && s[|P|..|s| - 1] == c
    ensures s[|P|] == c[0] && s[|s| - 2] == c[|c| - 1] && s[|s| - 1] == f
  {
    assert s[..|P|] == P;
    assert s[|P|..|s| - 1] == c;
  }

  /** The priced search result is the final assignment IsSolution describes. */
  lemma FinalAssignmentIs(O: Matrix, W: Matrix, found: seq<Pair>, a: seq<Assigned>)
    requires IsSquare(O) && IsSquare(W) && |W| == |O|
    requires Extendable(W, []) ==> found == Pairs(Cols(found)) && FirstExtension(W, [], Cols(found))
    requires !Extendable(W, []) ==> found == []
    requires |a| == |found| && forall k :: 0 <= k < |found| ==> a[k] == Assigned(k, found[k].col, O[k][found[k].col])
    ensures IsFinalAssignment(O, W, a) && Jobs(a) == Cols(found)
  {
    PricedJobs(found, a, O);
  }

  lemma PricedJobs(found: seq<Pair>, a: seq<Assigned>, O: Matrix)
    requires |a| == |found| && forall k :: 0 <= k < |found| ==> a[k].job == found[k].col
    ensures Jobs(a) == Cols(found)
  {
  }

  /**
   * A complete zero matching of the last working matrix is optimal for the
   * original problem: for the reduced problem by the potentials, and under
   * maximisation because the complement reverses every comparison.
   */
  lemma FinalOptimal(O: Matrix, isMax: bool, W: Matrix, u: seq<int>, v: seq<int>, q: seq<int>)
    requires |O| > 0 && IsSquare(O)
    requires HasPotentials(W, Start(O, isMax), u, v) && NonNegative(W)
    requires IsCompleteZeroMatching(W, q)
    ensures IsOptimal(O, isMax, q)
  {
    var n := |O|;
    forall p | IsPermutation(p, n)
      ensures if isMax then Cost(O, p) <= Cost(O, q) else Cost(O, q) <= Cost(O, p)
    {
      ZeroAssignmentOptimal(W, Start(O, isMax), u, v, q, p);
      if isMax {
        ComplementCost(O, q);
        ComplementCost(O, p);
      }
    }
  }

  /**
   * The final assignment: each pair of the search result with the cost of its
   * cell in the original matrix (hungarian.js:90-94).
   */
  method Price(originalMatrix: array2<int>, found: seq<Pair>, ghost W: Matrix, ghost O: Matrix) returns (assignment: seq<Assigned>)
    requires originalMatrix.Length0 == originalMatrix.Length1 == |W| && IsSquare(W) && O == Snap(originalMatrix)
    requires Extendable(W, []) ==> found == Pairs(Cols(found)) && FirstExtension(W, [], Cols(found))
    requires !Extendable(W, []) ==> found == []
    ensures |assignment| == |found|
    ensures forall k :: 0 <= k < |found| ==> assignment[k] == Assigned(k, found[k].col, O[k][found[k].col])
  {
    var n := originalMatrix.Length0;
    assignment := [];
    for k := 0 to |found|
      invariant |assignment| == k
      invariant forall t :: 0 <= t < k ==> assignment[t] == Assigned(t, found[t].col, O[t][found[t].col])
    {
      var q := Cols(found);
      assert found[k] == Pair(k, q[k]) && 0 <= q[k] < n;
      assignment := assignment + [Assigned(found[k].row, found[k].col, originalMatrix[found[k].row, found[k].col])];
    }
  }

  /**
   * The working copy and the steps before the first cover
   * (hungarian.js:2, 22-51).
   */
  method Preprocess(originalMatrix: array2<int>, isMaximization: bool) returns (matrix: array2<int>, steps: seq<Step>)
    requires originalMatrix.Length0 == originalMatrix.Length1 >= 1
    ensures fresh(matrix) && matrix.Length0 == matrix.Length1 == originalMatrix.Length0
    ensures Snap(matrix) == Reduced(Snap(originalMatrix), isMaximization)
    ensures steps == Prelude(Snap(originalMatrix), isMaximization)
  {
    var n := originalMatrix.Length0;
    ghost var O := Snap(originalMatrix);
    matrix := new int[n, n]((i, j) reads originalMatrix requires 0 <= i < n && 0 <= j < n => originalMatrix[i, j]);
    SnapIs(matrix, O);
    var initial := AddedStep(Initial, Snap(matrix), [], PairList([]));
    var conversion := [];
    if isMaximization {
      var maxValue := ConvertToMinimisation(matrix);
      conversion := [AddedStep(Conversion(maxValue), Snap(matrix), [], PairList([]))];
    }
    ghost var B := Snap(matrix);
    var rowSteps := ReduceRows(matrix);
    var columnSteps := ReduceColumns(matrix);
    steps := [initial] + conversion + rowSteps + columnSteps;
    PreludeIs(O, isMaximization, B, initial, conversion, rowSteps, columnSteps);
  }

  /** The prelude, assembled from the steps the conversion and the two reduction loops recorded. */
  lemma PreludeIs(O: Matrix, isMax: bool, B: Matrix, initial: Step, conversion: seq<Step>,
                  rowSteps: seq<Step>, columnSteps: seq<Step>)
    requires |O| > 0 && IsSquare(O) && B == Start(O, isMax)
    requires initial == AddedStep(Initial, O, [], PairList([]))
    requires conversion == if isMax then [AddedStep(Conversion(MatrixMax(O)), B, [], PairList([]))] else []
    requires rowSteps == RowReductionSteps(B, |B|)
    requires columnSteps == ColumnReductionSteps(ReducedRows(B), |B|)
    ensures [initial] + conversion + rowSteps + columnSteps == Prelude(O, isMax)
  {
  }

  /**
   * One round of the outer loop (hungarian.js:59-86): augment by the
   * smallest uncovered value, cover again, and search for a tentative
   * assignment, recording a step after each.
   */
  method Round(matrix: array2<int>, lines: seq<Line>, ghost prev: Step) returns (lines': seq<Line>, r: seq<Step>)
    requires matrix.Length0 == matrix.Length1 >= 1
    requires prev.matrix == Snap(matrix) && prev.lines == lines && |lines| < matrix.Length0
    modifies matrix
    ensures IsRound(prev, r) && r[2].matrix == Snap(matrix) && r[2].lines == lines'
    ensures IsMinUncovered(old(Snap(matrix)), lines, r[0].tag.amount)
    ensures Snap(matrix) == Augmented(old(Snap(matrix)), lines, r[0].tag.amount)
    ensures CoversZeros(Snap(matrix), lines')
  {
    var n := matrix.Length0;
    FewLinesLeaveFreeCell(n, lines);
    var minUncovered := FindMinUncovered(matrix, lines);
    var d := minUncovered.value;
    ghost var before := Snap(matrix);
    Augment(matrix, lines, d);
    var augmented := AddedStep(Augmentation(d), Snap(matrix), lines, PairList([]));
    lines' := CoverZeros(matrix);
    var covered := AddedStep(Covered(|lines'|), Snap(matrix), lines', PairList([]));
    var tempAssignment := FindOptimalAssignment(matrix);
    var tentative := AddedStep(Tentative(|tempAssignment|), Snap(matrix), lines', PairList(tempAssignment));
    r := [augmented, covered, tentative];
    RoundIs(prev, d, lines', tempAssignment, r);
  }

  /** The three steps of one round, assembled from what the round computed. */
  lemma RoundIs(prev: Step, d: int, lines': seq<Line>, a: seq<Pair>, r: seq<Step>)
    requires IsSquare(prev.matrix) && |prev.lines| < |prev.matrix|
    requires IsMinUncovered(prev.matrix, prev.lines, d)
    requires var W := Augmented(prev.matrix, prev.lines, d);
      IsGreedyCover(W, lines') && IsSearchResult(W, a) &&
      r == [AddedStep(Augmentation(d), W, prev.lines, PairList([])),
            AddedStep(Covered(|lines'|), W, lines', PairList([])),
            AddedStep(Tentative(|a|), W, lines', PairList(a))]
    ensures IsRound(prev, r) && r[2].matrix == Augmented(prev.matrix, prev.lines, d) && r[2].lines == lines'
  {
  }

  /** `Math.max(...matrix.flat())`: the largest cell, found by a scan. */
  method LargestCell(matrix: array2<int>) returns (maxValue: int)
    requires matrix.Length0 == matrix.Length1 >= 1
    ensures maxValue == MatrixMax(Snap(matrix))
  {
    var n := matrix.Length0;
    maxValue := matrix[0, 0];
    ghost var wi, wj := 0, 0;
    for worker := 0 to n
      invariant 0 <= wi < n && 0 <= wj < n && matrix[wi, wj] == maxValue
      invariant forall i, j :: 0 <= i < worker && 0 <= j < n ==> matrix[i, j] <= maxValue
    {
      for job := 0 to n
        invariant 0 <= wi < n && 0 <= wj < n && matrix[wi, wj] == maxValue
        invariant forall i, j :: (0 <= i < worker || (i == worker && j < job)) && 0 <= j < n ==> matrix[i, j] <= maxValue
      {
        if matrix[worker, job] > maxValue {
          maxValue := matrix[worker, job];
          wi, wj := worker, job;
        }
      }
    }
    MatrixMaxIs(Snap(matrix), maxValue);
  }

  /** The conversion of a maximisation problem, in place (hungarian.js:26-30). */
  method ConvertToMinimisation(matrix: array2<int>) returns (maxValue: int)
    requires matrix.Length0 == matrix.Length1 >= 1
    modifies matrix
    ensures maxValue == MatrixMax(old(Snap(matrix)))
    ensures Snap(matrix) == Complement(old(Snap(matrix)))
  {
    ghost var M := Snap(matrix);
    var n := matrix.Length0;
    maxValue := LargestCell(matrix);
    for worker := 0 to n
      invariant forall i, j :: 0 <= i < n && 0 <= j < n ==>
        matrix[i, j] == if i < worker then maxValue - M[i][j] else M[i][j]
    {
      for job := 0 to n
        invariant forall i, j :: 0 <= i < n && 0 <= j < n ==>
          matrix[i, j] == if i < worker || (i == worker && j < job) then maxValue - M[i][j] else M[i][j]
      {
        matrix[worker, job] := maxValue - matrix[worker, job];
      }
    }
    SnapIs(matrix, Complement(M));
  }

  /** `Math.min(...matrix[worker])`. */
  method RowMinimum(matrix: array2<int>, worker: nat) returns (min: int)
    requires worker < matrix.Length0 && matrix.Length1 >= 1
    ensures min == SeqMin(RowOf(matrix, worker))
  {
    min := matrix[worker, 0];
    ghost var w := 0;
    for job := 0 to matrix.Length1
      invariant 0 <= w < matrix.Length1 && matrix[worker, w] == min
      invariant forall j :: 0 <= j < job ==> min <= matrix[worker, j]
    {
      if matrix[worker, job] < min {
        min := matrix[worker, job];
        w := job;
      }
    }
    SeqMinIs(RowOf(matrix, worker), min);
  }

  /** `Math.min(...matrix.map(row => row[job]))`. */
  method ColumnMinimum(matrix: array2<int>, job: nat) returns (min: int)
    requires job < matrix.Length1 && matrix.Length0 >= 1
    ensures min == SeqMin(Column(Snap(matrix), job))
  {
    min := matrix[0, job];
    ghost var w := 0;
    for worker := 0 to matrix.Length0
      invariant 0 <= w < matrix.Length0 && matrix[w, job] == min
      invariant forall i :: 0 <= i < worker ==> min <= matrix[i, job]
    {
      if matrix[worker, job] < min {
        min := matrix[worker, job];
        w := worker;
      }
    }
    SeqMinIs(Column(Snap(matrix), job), min);
  }

  /** The state of the row-reduction loop once rows 0..k-1 of M are handled. */
  ghost predicate RowsDone(M: Matrix, k: nat, W: Matrix, recorded: seq<Step>)
    requires IsSquare(M) && k <= |M|
  {
    W == RowsReducedUpTo(M, k) && recorded == RowReductionSteps(M, k)
  }

  /** One more row handled: the loop state moves from k to k + 1. */
  lemma RowsDoneNext(M: Matrix, k: nat, W: Matrix, W': Matrix, recorded: seq<Step>, step: seq<Step>)
    requires IsSquare(M) && k < |M| && RowsDone(M, k, W, recorded)
    requires W' == RowsReducedUpTo(M, k + 1)
    requires step == if SeqMin(M[k]) != 0 then [RowStep(M, k)] else []
    ensures RowsDone(M, k + 1, W', recorded + step)
  {
    RowReductionStepsNext(M, k);
  }

  /** The state of the column-reduction loop once columns 0..k-1 of M are handled. */
  ghost predicate ColumnsDone(M: Matrix, k: nat, W: Matrix, recorded: seq<Step>)
    requires IsSquare(M) && k <= |M|
  {
    W == ColumnsReducedUpTo(M, k) && recorded == ColumnReductionSteps(M, k)
  }

  /** One more column handled: the loop state moves from k to k + 1. */
  lemma ColumnsDoneNext(M: Matrix, k: nat, W: Matrix, W': Matrix, recorded: seq<Step>, step: seq<Step>)
    requires IsSquare(M) && k < |M| && ColumnsDone(M, k, W, recorded)
    requires W' == ColumnsReducedUpTo(M, k + 1)
    requires step == if ColumnMins(M)[k] != 0 then [ColumnStep(M, k)] else []
    ensures ColumnsDone(M, k + 1, W', recorded + step)
  {
    ColumnReductionStepsNext(M, k);
  }

  /**
   * The row-reduction loop (hungarian.js:33-39): each row with a nonzero
   * minimum loses it, and a step is recorded for that row.
   */
  method ReduceRows(matrix: array2<int>) returns (recorded: seq<Step>)
    requires matrix.Length0 == matrix.Length1 >= 1
    modifies matrix
    ensures Snap(matrix) == ReducedRows(old(Snap(matrix)))
    ensures recorded == RowReductionSteps(old(Snap(matrix)), matrix.Length0)
  {
    ghost var M := Snap(matrix);
    var n := matrix.Length0;
    recorded := [];
    RowsReducedNone(M);
    for worker := 0 to n
      invariant RowsDone(M, worker, Snap(matrix), recorded)
    {
      ghost var W := Snap(matrix);
      var step := ReduceRowAt(matrix, worker, M);
      RowsDoneNext(M, worker, W, Snap(matrix), recorded, step);
      recorded := recorded + step;
    }
  }

  /** One pass of the row-reduction loop: row `worker` loses its minimum, if that is nonzero. */
  method ReduceRowAt(matrix: array2<int>, worker: nat, ghost M: Matrix) returns (recorded: seq<Step>)
    requires IsSquare(M) && matrix.Length0 == matrix.Length1 == |M| && worker < |M|
    requires Snap(matrix) == RowsReducedUpTo(M, worker)
    modifies matrix
    ensures Snap(matrix) == RowsReducedUpTo(M, worker + 1)
    ensures recorded == if SeqMin(M[worker]) != 0 then [RowStep(M, worker)] else []
  {
    var n := matrix.Length0;
    assert RowOf(matrix, worker) == Snap(matrix)[worker] == M[worker];
    var min := RowMinimum(matrix, worker);
    if min != 0 {
      SubtractFromRow(matrix, worker, min);
      RowsReducedNext(M, worker);
      SnapIs(matrix, RowsReducedUpTo(M, worker + 1));
      recorded := [AddedStep(RowReduction(worker, min), Snap(matrix), [], PairList([]))];
    } else {
      RowsReducedSame(M, worker + 1);
      recorded := [];
    }
  }

  /**
   * The column-reduction loop (hungarian.js:42-51): each column with a
   * nonzero minimum loses it, and a step is recorded for that column.
   */
  method ReduceColumns(matrix: array2<int>) returns (recorded: seq<Step>)
    requires matrix.Length0 == matrix.Length1 >= 1
    modifies matrix
    ensures Snap(matrix) == ReducedColumns(old(Snap(matrix)))
    ensures recorded == ColumnReductionSteps(old(Snap(matrix)), matrix.Length0)
  {
    ghost var M := Snap(matrix);
    var n := matrix.Length0;
    recorded := [];
    ColumnsReducedNone(M);
    for job := 0 to n
      invariant ColumnsDone(M, job, Snap(matrix), recorded)
    {
      ghost var W := Snap(matrix);
      var step := ReduceColumnAt(matrix, job, M);
      ColumnsDoneNext(M, job, W, Snap(matrix), recorded, step);
      recorded := recorded + step;
    }
  }

  /** One pass of the column-reduction loop: column `job` loses its minimum, if that is nonzero. */
  method ReduceColumnAt(matrix: array2<int>, job: nat, ghost M: Matrix) returns (recorded: seq<Step>)
    requires IsSquare(M) && matrix.Length0 == matrix.Length1 == |M| && job < |M|
    requires Snap(matrix) == ColumnsReducedUpTo(M, job)
    modifies matrix
    ensures Snap(matrix) == ColumnsReducedUpTo(M, job + 1)
    ensures recorded == if ColumnMins(M)[job] != 0 then [ColumnStep(M, job)] else []
  {
    var n := matrix.Length0;
    assert Column(Snap(matrix), job) == Column(M, job);
    var min := ColumnMinimum(matrix, job);
    if min != 0 {
      // `matrix[worker][job] -= min` for every worker
      AddToColumn(matrix, job, -min);
      ColumnsReducedNext(M, job);
      SnapIs(matrix, ColumnsReducedUpTo(M, job + 1));
      recorded := [AddedStep(ColumnReduction(job, min), Snap(matrix), [], PairList([]))];
    } else {
      ColumnsReducedSame(M, job + 1);
      recorded := [];
    }
  }
}
