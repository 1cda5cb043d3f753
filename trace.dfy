/**
 * The step-by-step trace that solveHungarian records through addedSteps
 * (hungarian.js:5-20). Each step keeps a snapshot of the working matrix, the
 * covering lines, the assignment shown and, for the final step only, the
 * original matrix. The Indonesian description strings are replaced by a tag
 * carrying the numbers they interpolate.
 */
module Trace {
  import opened Matrices
  import opened Cover
  import opened Matching
  import opened Reduction
  import opened Augmentation

  /** What a step records, with the values its description mentions. */
  datatype Tag =
    | Initial                                  // "Matriks awal"
    | Conversion(maxValue: int)                // maximisation converted to minimisation
    | RowReduction(worker: nat, rowMin: int)   // a row minimum subtracted
    | ColumnReduction(job: nat, colMin: int)   // a column minimum subtracted
    | Covered(count: nat)                      // all zeros covered with `count` lines
    | Augmentation(amount: int)                // extra zeros created
    | Tentative(count: nat)                    // a temporary assignment of `count` pairs
    | Optimal                                  // the optimal assignment found

  /** An entry `{ worker, job, cost }` of the final assignment. */
  datatype Assigned = Assigned(worker: int, job: int, cost: int)

  /** The assignment a step shows: search pairs, or the final entries with their costs. */
  datatype Listing = PairList(pairs: seq<Pair>) | CostList(entries: seq<Assigned>)

  datatype Step = Step(tag: Tag, matrix: Matrix, lines: seq<Line>, assignment: Listing,
                       isFinal: bool, originalMatrix: Option<Matrix>)

  /**
   * addedSteps with isFinal left false, as every call in the source does:
   * a copy of the state and no original matrix.
   */
  function AddedStep(tag: Tag, M: Matrix, lines: seq<Line>, assignment: Listing): (s: Step)
    ensures s.matrix == M && s.lines == lines && s.assignment == assignment
    ensures !s.isFinal && s.originalMatrix.None?
  {
    Step(tag, M, lines, assignment, false, None)
  }

  /** The step recorded for row i of M, right after that row was reduced. */
  function RowStep(M: Matrix, i: nat): (s: Step)
    requires IsSquare(M) && i < |M|
    ensures s.tag == RowReduction(i, SeqMin(M[i])) && s.lines == [] && s.assignment == PairList([])
    ensures s.matrix == RowsReducedUpTo(M, i + 1)
  {
    AddedStep(RowReduction(i, SeqMin(M[i])), RowsReducedUpTo(M, i + 1), [], PairList([]))
  }

  /** The step recorded for column j of M, right after that column was reduced. */
  function ColumnStep(M: Matrix, j: nat): (s: Step)
    requires IsSquare(M) && j < |M|
    ensures s.tag == ColumnReduction(j, SeqMin(Column(M, j))) && s.lines == [] && s.assignment == PairList([])
    ensures s.matrix == ColumnsReducedUpTo(M, j + 1)
  {
    AddedStep(ColumnReduction(j, ColumnMins(M)[j]), ColumnsReducedUpTo(M, j + 1), [], PairList([]))
  }

  /** The indices below k whose entry in mins is nonzero, in increasing order. */
  function NonzeroIndices(mins: seq<int>, k: nat): (I: seq<nat>)
    requires k <= |mins|
    ensures forall t :: 0 <= t < |I| ==> I[t] < k
  {
    if k == 0 then []
    else NonzeroIndices(mins, k - 1) + (if mins[k - 1] != 0 then [k - 1] else [])
  }

  predicate Increasing(I: seq<nat>)
  {
    forall t1, t2 :: 0 <= t1 < t2 < |I| ==> I[t1] < I[t2]
  }

  /** NonzeroIndices lists each index below k with a nonzero entry, once and in order, and no other. */
  lemma {:induction false} NonzeroIndicesExact(mins: seq<int>, k: nat)
    requires k <= |mins|
    ensures Increasing(NonzeroIndices(mins, k))
    ensures forall i :: i in NonzeroIndices(mins, k) <==> 0 <= i < k && mins[i] != 0
    decreases k
  {
    if k > 0 {
      NonzeroIndicesExact(mins, k - 1);
    }
  }

  /**
   * The steps the row-reduction loop records for rows 0..k-1 of M: one for
   * each row with a nonzero minimum.
   */
  function RowReductionSteps(M: Matrix, k: nat): (s: seq<Step>)
    requires IsSquare(M) && k <= |M|
  {
    var I := NonzeroIndices(RowMins(M), k);
    seq(|I|, t requires 0 <= t < |I| => RowStep(M, I[t]))
  }

  /** The steps the column-reduction loop records for columns 0..k-1 of M. */
  function ColumnReductionSteps(M: Matrix, k: nat): (s: seq<Step>)
    requires IsSquare(M) && k <= |M|
  {
    var I := NonzeroIndices(ColumnMins(M), k);
    seq(|I|, t requires 0 <= t < |I| => ColumnStep(M, I[t]))
  }

  /** Handling row k adds a step exactly when the minimum of row k is nonzero. */
  lemma RowReductionStepsNext(M: Matrix, k: nat)
    requires IsSquare(M) && k < |M|
    ensures RowReductionSteps(M, k + 1) ==
      RowReductionSteps(M, k) + (if SeqMin(M[k]) != 0 then [RowStep(M, k)] else [])
  {
    assert RowMins(M)[k] == SeqMin(M[k]);
  }

  /** Handling column k adds a step exactly when the minimum of column k is nonzero. */
  lemma ColumnReductionStepsNext(M: Matrix, k: nat)
    requires IsSquare(M) && k < |M|
    ensures ColumnReductionSteps(M, k + 1) ==
      ColumnReductionSteps(M, k) + (if ColumnMins(M)[k] != 0 then [ColumnStep(M, k)] else [])
  {
  }

  /** s is the step recorded for a row of M whose minimum is nonzero. */
  predicate IsRowStep(M: Matrix, s: Step)
    requires IsSquare(M)
  {
    s.tag.RowReduction? && s.tag.worker < |M| && SeqMin(M[s.tag.worker]) != 0 &&
    s == RowStep(M, s.tag.worker)
  }

  /** s is the step recorded for a column of M whose minimum is nonzero. */
  predicate IsColumnStep(M: Matrix, s: Step)
    requires IsSquare(M)
  {
    s.tag.ColumnReduction? && s.tag.job < |M| && ColumnMins(M)[s.tag.job] != 0 &&
    s == ColumnStep(M, s.tag.job)
  }

  /**
   * The row-reduction trace for rows 0..k-1 holds a step exactly for the rows
   * whose minimum is nonzero, in row order, each with that minimum and the
   * matrix right after that row was reduced.
   */
  lemma RowReductionTrace(M: Matrix, k: nat)
    requires IsSquare(M) && k <= |M|
    ensures var s := RowReductionSteps(M, k);
      (forall t :: 0 <= t < |s| ==> IsRowStep(M, s[t]) && s[t].tag.worker < k) &&
      (forall t1, t2 :: 0 <= t1 < t2 < |s| ==> s[t1].tag.worker < s[t2].tag.worker) &&
      (forall i :: 0 <= i < k && SeqMin(M[i]) != 0 ==> exists t :: 0 <= t < |s| && s[t].tag.worker == i)
  {
    var u := RowMins(M);
    var I := NonzeroIndices(u, k);
    var s := RowReductionSteps(M, k);
    NonzeroIndicesExact(u, k);
    forall t | 0 <= t < |s|
      ensures s[t].tag.worker == I[t] && IsRowStep(M, s[t])
    {
      assert u[I[t]] == SeqMin(M[I[t]]);
    }
    forall i | 0 <= i < k && SeqMin(M[i]) != 0
      ensures exists t :: 0 <= t < |s| && s[t].tag.worker == i
    {
      assert u[i] == SeqMin(M[i]);
      var t :| 0 <= t < |I| && I[t] == i;
      assert s[t].tag.worker == i;
    }
  }

  /**
   * The column-reduction trace for columns 0..k-1 holds a step exactly for
   * the columns whose minimum is nonzero, in column order, each with that
   * minimum and the matrix right after that column was reduced.
   */
  lemma ColumnReductionTrace(M: Matrix, k: nat)
    requires IsSquare(M) && k <= |M|
    ensures var s := ColumnReductionSteps(M, k);
      (forall t :: 0 <= t < |s| ==> IsColumnStep(M, s[t]) && s[t].tag.job < k) &&
      (forall t1, t2 :: 0 <= t1 < t2 < |s| ==> s[t1].tag.job < s[t2].tag.job) &&
      (forall j :: 0 <= j < k && ColumnMins(M)[j] != 0 ==> exists t :: 0 <= t < |s| && s[t].tag.job == j)
  {
    var v := ColumnMins(M);
    var I := NonzeroIndices(v, k);
    var s := ColumnReductionSteps(M, k);
    NonzeroIndicesExact(v, k);
    forall t | 0 <= t < |s|
      ensures s[t].tag.job == I[t] && IsColumnStep(M, s[t])
    {
    }
    forall j | 0 <= j < k && v[j] != 0
      ensures exists t :: 0 <= t < |s| && s[t].tag.job == j
    {
      var t :| 0 <= t < |I| && I[t] == j;
      assert s[t].tag.job == j;
    }
  }

  /** The matrix the reductions start from: the input, or its complement under maximisation. */
  function Start(O: Matrix, isMax: bool): (B: Matrix)
    requires |O| > 0 && IsSquare(O)
    ensures IsSquare(B) && |B| == |O|
  {
    if isMax then Complement(O) else O
  }

  /** The matrix after row and column reduction. */
  function Reduced(O: Matrix, isMax: bool): (R: Matrix)
    requires |O| > 0 && IsSquare(O)
    ensures IsSquare(R) && |R| == |O|
  {
    ReducedColumns(ReducedRows(Start(O, isMax)))
  }

  /** The steps recorded before the first cover (hungarian.js:22-51). */
  function Prelude(O: Matrix, isMax: bool): (P: seq<Step>)
    requires |O| > 0 && IsSquare(O)
    ensures |P| >= 1 && P[0] == AddedStep(Initial, O, [], PairList([]))
    ensures isMax ==> |P| >= 2 && P[1] == AddedStep(Conversion(MatrixMax(O)), Complement(O), [], PairList([]))
  {
    var B := Start(O, isMax);
    var head := [AddedStep(Initial, O, [], PairList([]))] +
      (if isMax then [AddedStep(Conversion(MatrixMax(O)), B, [], PairList([]))] else []);
    var reductions := RowReductionSteps(B, |B|) + ColumnReductionSteps(ReducedRows(B), |B|);
    assert |head| >= 1 && head[0] == AddedStep(Initial, O, [], PairList([]));
    assert isMax ==> |head| == 2 && head[1] == AddedStep(Conversion(MatrixMax(O)), Complement(O), [], PairList([]));
    HeadOfJoin(head, reductions);
    head + reductions
  }

  /** Joining keeps the elements of the first part in place. */
  lemma HeadOfJoin<T>(a: seq<T>, b: seq<T>)
    ensures |a + b| >= |a| && forall k :: 0 <= k < |a| ==> (a + b)[k] == a[k]
  {
  }

  /**
   * What findOptimalAssignment returns for M: the first complete zero
   * matching as pairs when one exists, and the empty sequence otherwise.
   */
  ghost predicate IsSearchResult(M: Matrix, a: seq<Pair>)
    requires IsSquare(M)
  {
    (Extendable(M, []) ==> a == Pairs(Cols(a)) && FirstExtension(M, [], Cols(a))) &&
    (!Extendable(M, []) ==> a == [])
  }

  /** A step that records a greedy cover of its matrix. */
  ghost predicate IsCoverStep(s: Step)
  {
    IsSquare(s.matrix) && IsGreedyCover(s.matrix, s.lines) &&
    s == AddedStep(Covered(|s.lines|), s.matrix, s.lines, PairList([]))
  }

  /**
   * One round of the outer loop (hungarian.js:58-87), following the step
   * `prev` that holds the current matrix and lines: an augmentation by the
   * smallest uncovered value, a new greedy cover, and a tentative search.
   */
  ghost predicate IsRound(prev: Step, r: seq<Step>)
  {
    IsSquare(prev.matrix) && |prev.lines| < |prev.matrix| && |r| == 3 &&
    r[0].tag.Augmentation? &&
    IsMinUncovered(prev.matrix, prev.lines, r[0].tag.amount) &&
    r[0] == AddedStep(r[0].tag, Augmented(prev.matrix, prev.lines, r[0].tag.amount), prev.lines, PairList([])) &&
    IsCoverStep(r[1]) && r[1].matrix == r[0].matrix &&
    r[2].assignment.PairList? && IsSearchResult(r[1].matrix, r[2].assignment.pairs) &&
    r[2] == AddedStep(Tentative(|r[2].assignment.pairs|), r[1].matrix, r[1].lines, r[2].assignment)
  }

  /**
   * The steps from the first cover on: a cover step followed by whole
   * rounds, each round following the last step before it.
   */
  ghost predicate Chain(c: seq<Step>)
    decreases |c|
  {
    if |c| == 1 then IsCoverStep(c[0])
    else |c| >= 4 && Chain(c[..|c| - 3]) && IsRound(c[|c| - 4], c[|c| - 3..])
  }

  /** A round that follows the last step of a chain extends the chain. */
  lemma ChainExtend(c: seq<Step>, r: seq<Step>)
    requires Chain(c) && |c| >= 1 && IsRound(c[|c| - 1], r)
    ensures Chain(c + r) && (c + r)[0] == c[0]
  {
    var e := c + r;
    assert e[..|e| - 3] == c;
    assert e[|e| - 3..] == r;
  }

  /** A chain starts with a cover step. */
  lemma {:induction false} ChainHead(c: seq<Step>)
    requires Chain(c)
    ensures |c| >= 1 && IsCoverStep(c[0])
    decreases |c|
  {
    if |c| != 1 {
      var p := c[..|c| - 3];
      ChainHead(p);
      assert p[0] == c[0];
    }
  }

  /** No round follows a cover with n or more lines, so such a chain is one step long. */
  lemma {:induction false} ChainOfFullCover(c: seq<Step>)
    requires Chain(c) && |c| >= 1 && IsSquare(c[0].matrix) && |c[0].lines| >= |c[0].matrix|
    ensures |c| == 1
    decreases |c|
  {
    if |c| > 1 {
      var p := c[..|c| - 3];
      assert p[0] == c[0];
      ChainOfFullCover(p);
      assert false;
    }
  }

  /** A cover step is determined by its matrix: coverZeros is deterministic. */
  lemma CoverStepUnique(s1: Step, s2: Step)
    requires IsCoverStep(s1) && IsCoverStep(s2) && s1.matrix == s2.matrix
    ensures s1 == s2
  {
    GreedyCoverUnique(s1.matrix, s1.lines, s2.lines);
  }

  /** findOptimalAssignment is deterministic: a matrix has one search result. */
  lemma SearchResultUnique(M: Matrix, a1: seq<Pair>, a2: seq<Pair>)
    requires IsSquare(M) && IsSearchResult(M, a1) && IsSearchResult(M, a2)
    ensures a1 == a2
  {
    if Extendable(M, []) {
      LexFirstUnique(M, [], Cols(a1), Cols(a2));
    }
  }

  /** One round of the outer loop is determined by the step before it. */
  lemma RoundUnique(prev: Step, r1: seq<Step>, r2: seq<Step>)
    requires IsRound(prev, r1) && IsRound(prev, r2)
    ensures r1 == r2
  {
    AugmentationStepUnique(prev, r1[0], r2[0]);
    CoverStepUnique(r1[1], r2[1]);
    TentativeStepUnique(r1[1], r1[2], r2[2]);
    SameTriple(r1, r2);
  }

  /** The augmentation step after a given cover is determined. */
  lemma AugmentationStepUnique(prev: Step, a1: Step, a2: Step)
    requires IsSquare(prev.matrix) && a1.tag.Augmentation? && a2.tag.Augmentation?
    requires IsMinUncovered(prev.matrix, prev.lines, a1.tag.amount) && IsMinUncovered(prev.matrix, prev.lines, a2.tag.amount)
    requires a1 == AddedStep(a1.tag, Augmented(prev.matrix, prev.lines, a1.tag.amount), prev.lines, PairList([]))
    requires a2 == AddedStep(a2.tag, Augmented(prev.matrix, prev.lines, a2.tag.amount), prev.lines, PairList([]))
    ensures a1 == a2
  {
    MinUncoveredUnique(prev.matrix, prev.lines, a1.tag.amount, a2.tag.amount);
  }

  /** The tentative-assignment step after a given cover is determined. */
  lemma TentativeStepUnique(c: Step, t1: Step, t2: Step)
    requires IsSquare(c.matrix) && t1.assignment.PairList? && t2.assignment.PairList?
    requires IsSearchResult(c.matrix, t1.assignment.pairs) && IsSearchResult(c.matrix, t2.assignment.pairs)
    requires t1 == AddedStep(Tentative(|t1.assignment.pairs|), c.matrix, c.lines, t1.assignment)
    requires t2 == AddedStep(Tentative(|t2.assignment.pairs|), c.matrix, c.lines, t2.assignment)
    ensures t1 == t2
  {
    SearchResultUnique(c.matrix, t1.assignment.pairs, t2.assignment.pairs);
  }

  /** Two sequences of three equal elements are equal. */
  lemma SameTriple<T>(r1: seq<T>, r2: seq<T>)
    requires |r1| == |r2| == 3 && r1[0] == r2[0] && r1[1] == r2[1] && r1[2] == r2[2]
    ensures r1 == r2
  {
  }

  /** A round follows only a cover of fewer than n lines. */
  lemma FewLinesBeforeRound(prev: Step, r: seq<Step>)
    requires IsRound(prev, r)
    ensures |prev.lines| < |prev.matrix|
  {
  }

  /**
   * The shape of Chain with the judgement of the first step and of each
   * round left as parameters, so that the determinism argument below needs
   * only the three properties that follow, not the bodies of IsCoverStep and
   * IsRound.
   */
  ghost predicate Rounds(c: seq<Step>, cover: Step -> bool, round: (Step, seq<Step>) -> bool)
    decreases |c|
  {
    if |c| == 1 then cover(c[0])
    else |c| >= 4 && Rounds(c[..|c| - 3], cover, round) && round(c[|c| - 4], c[|c| - 3..])
  }

  /** A cover step is determined by its matrix. */
  ghost predicate CoverDeterministic(cover: Step -> bool)
  {
    forall s1, s2 :: cover(s1) && cover(s2) && s1.matrix == s2.matrix ==> s1 == s2
  }

  /** A round is determined by the step before it. */
  ghost predicate RoundDeterministic(round: (Step, seq<Step>) -> bool)
  {
    forall p, r1, r2 :: round(p, r1) && round(p, r2) ==> r1 == r2
  }

  /** A round follows only a cover of fewer than n lines. */
  ghost predicate RoundNeedsFewLines(round: (Step, seq<Step>) -> bool)
  {
    forall p, r :: round(p, r) ==> |p.lines| < |p.matrix|
  }

  /** A chain is Rounds with IsCoverStep and IsRound. */
  lemma {:induction false} ChainIsRounds(c: seq<Step>)
    requires Chain(c)
    ensures Rounds(c, IsCoverStep, IsRound)
    decreases |c|
  {
    if |c| != 1 {
      ChainIsRounds(c[..|c| - 3]);
    }
  }

  /** coverZeros, findMinUncovered and findOptimalAssignment make Chain's judgements deterministic. */
  lemma ChainJudgements()
    ensures CoverDeterministic(IsCoverStep) && RoundDeterministic(IsRound) && RoundNeedsFewLines(IsRound)
  {
    forall s1, s2 | IsCoverStep(s1) && IsCoverStep(s2) && s1.matrix == s2.matrix
      ensures s1 == s2
    {
      CoverStepUnique(s1, s2);
    }
    forall p, r1, r2 | IsRound(p, r1) && IsRound(p, r2)
      ensures r1 == r2
    {
      RoundUnique(p, r1, r2);
    }
    forall p, r | IsRound(p, r)
      ensures |p.lines| < |p.matrix|
    {
      FewLinesBeforeRound(p, r);
    }
  }

  /**
   * The chain of covers and rounds is determined by its first matrix: two
   * chains from the same matrix that both end in a cover of at least n lines
   * are equal.
   */
  lemma ChainsAgree(c1: seq<Step>, c2: seq<Step>)
    requires Chain(c1) && Chain(c2) && c1[0].matrix == c2[0].matrix
    requires |c1[|c1| - 1].lines| >= |c1[|c1| - 1].matrix| && |c2[|c2| - 1].lines| >= |c2[|c2| - 1].matrix|
    ensures c1 == c2
  {
    ChainIsRounds(c1);
    ChainIsRounds(c2);
    ChainJudgements();
    RoundsAgree(c1, c2, IsCoverStep, IsRound);
  }

  /** ChainsAgree for any deterministic judgements. */
  lemma RoundsAgree(c1: seq<Step>, c2: seq<Step>, cover: Step -> bool, round: (Step, seq<Step>) -> bool)
    requires CoverDeterministic(cover) && RoundDeterministic(round) && RoundNeedsFewLines(round)
    requires Rounds(c1, cover, round) && Rounds(c2, cover, round) && |c1| >= 1 && |c2| >= 1
    requires c1[0].matrix == c2[0].matrix
    requires |c1[|c1| - 1].lines| >= |c1[|c1| - 1].matrix| && |c2[|c2| - 1].lines| >= |c2[|c2| - 1].matrix|
    ensures c1 == c2
  {
    if |c1| <= |c2| {
      ShorterAgrees(c1, c2, cover, round);
    } else {
      ShorterAgrees(c2, c1, cover, round);
    }
  }

  /** Of two such chains, the one no longer than the other is the other. */
  lemma ShorterAgrees(c1: seq<Step>, c2: seq<Step>, cover: Step -> bool, round: (Step, seq<Step>) -> bool)
    requires CoverDeterministic(cover) && RoundDeterministic(round) && RoundNeedsFewLines(round)
    requires Rounds(c1, cover, round) && Rounds(c2, cover, round) && 1 <= |c1| <= |c2|
    requires c1[0].matrix == c2[0].matrix
    requires |c1[|c1| - 1].lines| >= |c1[|c1| - 1].matrix|
    ensures c1 == c2
  {
    PrefixAgrees(c1, c2, cover, round);
    RoundsLength(c1, cover, round);
    assert c2[|c1| - 1] == c1[|c1| - 1];
    FullCoverIsLast(c2, |c1|, cover, round);
    assert c2[..|c2|] == c2;
  }

  /** A cover of at least n lines ends the chain. */
  lemma FullCoverIsLast(c: seq<Step>, k: nat, cover: Step -> bool, round: (Step, seq<Step>) -> bool)
    requires RoundNeedsFewLines(round)
    requires Rounds(c, cover, round) && 1 <= k <= |c| && IsChainLength(k)
    requires |c[k - 1].lines| >= |c[k - 1].matrix|
    ensures k == |c|
  {
    if k < |c| {
      FewLinesBefore(c, k, cover, round);
    }
  }

  /** Two chains from the same matrix agree on the length of the shorter one. */
  lemma {:induction false} PrefixAgrees(c1: seq<Step>, c2: seq<Step>, cover: Step -> bool, round: (Step, seq<Step>) -> bool)
    requires CoverDeterministic(cover) && RoundDeterministic(round)
    requires Rounds(c1, cover, round) && Rounds(c2, cover, round) && 1 <= |c1| <= |c2|
    requires c1[0].matrix == c2[0].matrix
    ensures c1 == c2[..|c1|]
    decreases |c1|
  {
    RoundsHead(c2, cover, round);
    if |c1| == 1 {
      assert c1 == [c1[0]] && c2[..1] == [c2[0]];
    } else {
      var n := |c1|;
      var p1 := c1[..n - 3];
      RoundsHead(p1, cover, round);
      assert p1[0] == c1[0];
      PrefixAgrees(p1, c2, cover, round);
      RoundsLength(c1, cover, round);
      RoundsPrefix(c2, n, cover, round);
      var q := c2[..n];
      assert q[..n - 3] == p1;
      assert q[n - 4] == p1[n - 4];
      assert c1[n - 3..] == q[n - 3..];
      assert c1 == p1 + c1[n - 3..] && q == q[..n - 3] + q[n - 3..];
    }
  }

  /** Rounds starts with a cover step. */
  lemma {:induction false} RoundsHead(c: seq<Step>, cover: Step -> bool, round: (Step, seq<Step>) -> bool)
    requires Rounds(c, cover, round)
    ensures |c| >= 1 && cover(c[0])
    decreases |c|
  {
    if |c| != 1 {
      var p := c[..|c| - 3];
      RoundsHead(p, cover, round);
      assert p[0] == c[0];
    }
  }

  /** k is 1 more than a multiple of 3: the length of a cover step followed by whole rounds. */
  ghost predicate IsChainLength(k: nat)
    decreases k
  {
    k == 1 || (k >= 4 && IsChainLength(k - 3))
  }

  /** A cover step followed by whole rounds has a chain length. */
  lemma {:induction false} RoundsLength(c: seq<Step>, cover: Step -> bool, round: (Step, seq<Step>) -> bool)
    requires Rounds(c, cover, round)
    ensures IsChainLength(|c|)
    decreases |c|
  {
    if |c| != 1 {
      RoundsLength(c[..|c| - 3], cover, round);
    }
  }

  /** Two chain lengths differ by at least a round. */
  lemma {:induction false} LengthGap(k: nat, m: nat)
    requires IsChainLength(k) && IsChainLength(m) && k < m
    ensures k + 3 <= m
    decreases k
  {
    if k != 1 {
      LengthGap(k - 3, m - 3);
    }
  }

  /** Every prefix that ends after a cover is itself a chain. */
  lemma {:induction false} RoundsPrefix(c: seq<Step>, k: nat, cover: Step -> bool, round: (Step, seq<Step>) -> bool)
    requires Rounds(c, cover, round) && k <= |c| && IsChainLength(k)
    ensures Rounds(c[..k], cover, round)
    decreases |c|
  {
    if k < |c| {
      RoundsLength(c, cover, round);
      LengthGap(k, |c|);
      var p := c[..|c| - 3];
      RoundsPrefix(p, k, cover, round);
      assert p[..k] == c[..k];
    } else {
      assert c[..k] == c;
    }
  }

  /** Every cover in a chain but the last has fewer than n lines. */
  lemma FewLinesBefore(c: seq<Step>, k: nat, cover: Step -> bool, round: (Step, seq<Step>) -> bool)
    requires RoundNeedsFewLines(round)
    requires Rounds(c, cover, round) && 1 <= k < |c| && IsChainLength(k)
    ensures |c[k - 1].lines| < |c[k - 1].matrix|
  {
    RoundsLength(c, cover, round);
    LengthGap(k, |c|);
    assert IsChainLength(k + 3);
    RoundsPrefix(c, k + 3, cover, round);
    var q := c[..k + 3];
    assert round(q[k - 1], q[k..]);
    assert q[k - 1] == c[k - 1];
  }
}
