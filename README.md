# Hungarian assignment solver, modelled in Dafny

This project models the engine of the assignment solver in
`assignment-solver/src/hungarian.js`. Its entry point takes an n×n cost
matrix and a maximisation flag. It copies the matrix into a working matrix.
Under maximisation it first replaces every cell by `max - cell`. It then
subtracts each row minimum, then each column minimum. Next it covers every
zero with lines picked greedily (`coverZeros`). While the cover has fewer
than n lines, it repeats four things:

- it subtracts the smallest uncovered value (`findMinUncovered`) from the rows without a line;
- it adds that value to the columns with a line;
- it covers again;
- it records a tentative assignment.

Finally a backtracking search over the zeros (`findOptimalAssignment`)
produces the assignment. Each pair is priced in the original matrix. Every
stage is recorded as a step of a replayable trace.

The model is imperative, like the source:

- the input matrix is an `array2<int>` that is only read;
- the working matrix and `coverZeros`' `tempMatrix` are `array2<int>` updated in place;
- the loops are `for`/`while` loops with invariants;
- the backtracking search is a class whose fields are `assignment` and `assignedJobs`, which its methods push and pop.

Each method is proved against a specification function on snapshots
(`Snap`) of its arrays. The main results are:

- **The trace.** `SolveHungarian` returns steps that are the fixed prelude,
  then a chain of alternating covers and augmentation rounds, then the final
  step. The prelude is the initial matrix, the conversion, and one step per
  row or column whose minimum is nonzero, in order. The chain ends in a
  cover of at least n lines. The final step holds the original matrix and
  the priced assignment.
- **Outer loop termination.** The `while` loop terminates. Each round strictly lowers the
  non-negative cost of the identity assignment in the working matrix.
- **Optimality.** The assignment is empty or has n pairs. When it has n pairs it is optimal
  among all permutations: the cheapest under minimisation, the most valuable under
  maximisation. The proof carries ghost dual potentials u, v with
  `W[i][j] == B[i][j] - u[i] - v[j]`.
- **The input array.** `SolveHungarian` has no `modifies` clause, so it is not mutated.
- **Reduction.** Reduction leaves a non-negative matrix with a zero in every row and column.
  Maximisation leaves a non-negative matrix whose zeros are exactly the maxima.
- **The cover.** `coverZeros` returns the unique greedy cover:
  - it covers every zero;
  - it never repeats a line;
  - each line is the best-scoring row or column, and rows win ties.
- **The smallest uncovered value.** `findMinUncovered` returns the smallest uncovered value, or nothing exactly
  when every cell is covered (the source's `Infinity`).
- **Augmentation.** An augmentation lowers free cells by d, leaves singly covered cells
  unchanged and raises doubly covered cells by d. It keeps the matrix
  non-negative and creates a new uncovered zero.
- **The search.** `findOptimalAssignment` returns the lexicographically first complete
  matching of zeros when one exists, and `[]` otherwise.
- **Determinism.** Every step is determined by the one before it, so
  `solveHungarian` has exactly one result for each input
  (`Uniqueness.SolutionUnique`). Maximising O picks the same jobs as
  minimising the complement of O (`Uniqueness.MaximisationIsComplementMinimisation`).

The comment at hungarian.js:53 says the zeros are covered "with minimum
number of lines", and the one at :89 says the final search finds the optimal
assignment. The greedy cover is not always a minimum cover. For
`[[0,0,1,1],[0,1,1,1],[1,0,1,1],[1,1,0,0]]` it picks rows 0, 3, 1 and 2.
Three lines would do: columns 0 and 1 and row 3. With four lines the loop at
hungarian.js:58 never runs. The zeros hold no complete matching, so the
search at :90 returns `[]`. The result therefore carries an empty assignment,
which `Stranded.StrandedSolution` proves. When `backtrack` fails it pops every
pair it pushed, so the search result is never partial: it is complete or
empty (`Matching.FindOptimalAssignment`).

Modules, in dependency order:

| module | file | contents |
|---|---|---|
| Matrices | matrices.dfy | the `Matrix` type, `array2` snapshots, minima and maxima |
| Costs | costs.dfy | permutations, assignment cost, dual potentials |
| Cover | cover.dfy | lines, `coverZeros`, `findMinUncovered` |
| Matching | matching.dfy | `findOptimalAssignment` and `backtrack` |
| Reduction | reduction.dfy | maximisation conversion, row and column reduction |
| Augmentation | augment.dfy | the augmentation step |
| Trace | trace.dfy | `addedSteps` and the shape of the trace |
| Solver | solver.dfy | `solveHungarian` |
| Stranded | stranded.dfy | the input whose result has no assignment |
| Uniqueness | uniqueness.dfy | one result per input; maximisation as minimisation of the complement |

## Model

| member | source | states |
|---|---|---|
| Solver.SolveHungarian | assignment-solver/src/hungarian.js:1-107 | returns a Solution for the input: the prelude trace, a chain of covers and rounds ending in at least n lines, and a final step with the original matrix and the priced assignment; the assignment is empty or has n entries, and when it has n it is optimal over all permutations (minimal, or maximal under the flag); no `modifies`, so the input is left unmutated; the flag defaults to minimisation |
| Solver.SolutionIs | assignment-solver/src/hungarian.js:89-106 | assembling the final step and the result from the trace, the potentials and the search result meets all three guarantees of SolveHungarian |
| Solver.SolutionTraceIs | assignment-solver/src/hungarian.js:96-104 | prelude, chain and final step together form a solution trace whose next-to-last step is the last cover |
| Solver.FinalAssignmentIs | assignment-solver/src/hungarian.js:90-94 | the priced pairs carry worker k, the job the search found for k, and the original cost of that cell; they are empty exactly when no complete zero matching exists |
| Solver.FinalOptimal | assignment-solver/src/hungarian.js:89-94 | a complete zero matching of the final working matrix is optimal for the original matrix, as a minimum, or as a maximum under the flag |
| Solver.Price | assignment-solver/src/hungarian.js:90-94 | each found pair (row, col) becomes (worker row, job col, originalMatrix[row][col]), in order |
| Solver.Preprocess | assignment-solver/src/hungarian.js:2-51 | the working matrix is a fresh copy that ends as the converted, row-reduced, column-reduced input; the steps recorded are exactly the prelude |
| Solver.PreludeIs | assignment-solver/src/hungarian.js:23-51 | initial step, optional conversion step, row steps and column steps concatenate to the prelude |
| Solver.LargestCell | assignment-solver/src/hungarian.js:27 | returns the largest cell of the matrix |
| Solver.ConvertToMinimisation | assignment-solver/src/hungarian.js:26-30 | returns the old maximum and replaces every cell by maximum minus cell |
| Solver.RowMinimum | assignment-solver/src/hungarian.js:34 | returns the minimum of the worker's row |
| Solver.ColumnMinimum | assignment-solver/src/hungarian.js:43-44 | returns the minimum of the job's column |
| Solver.ReduceRows | assignment-solver/src/hungarian.js:33-39 | every row loses its minimum; one step is recorded per row with a nonzero minimum, in row order |
| Solver.ReduceRowAt | assignment-solver/src/hungarian.js:34-38 | reduces one more row; records a step exactly when that row's minimum is nonzero |
| Solver.ReduceColumns | assignment-solver/src/hungarian.js:42-51 | every column loses its minimum; one step is recorded per column with a nonzero minimum, in column order |
| Solver.ReduceColumnAt | assignment-solver/src/hungarian.js:43-50 | reduces one more column; records a step exactly when that column's minimum is nonzero |
| Solver.RowsDoneNext | assignment-solver/src/hungarian.js:33-39 | the row loop's invariant passes from row k to row k + 1 |
| Solver.ColumnsDoneNext | assignment-solver/src/hungarian.js:42-51 | the column loop's invariant passes from column k to column k + 1 |
| Solver.CoverAndAugment | assignment-solver/src/hungarian.js:54-87 | the first cover and then rounds until the cover has n lines; the recorded steps form a chain starting at the reduced matrix and ending at the final working matrix; the matrix stays non-negative and keeps its potentials; the loop terminates |
| Solver.AugmentRound | assignment-solver/src/hungarian.js:58-87 | one loop iteration keeps non-negativity, the potentials and a full cover of the zeros, extends the chain by one round, and strictly lowers the non-negative identity cost |
| Solver.RoundKeeps | assignment-solver/src/hungarian.js:59-77 | with fewer than n lines and d the smallest uncovered value, the augmented matrix keeps the raised potentials, stays non-negative and has a smaller identity cost |
| Solver.Round | assignment-solver/src/hungarian.js:59-86 | the amount is the smallest uncovered value, the matrix becomes the augmented one, the new lines cover all its zeros, and the three recorded steps form a round |
| Solver.RoundIs | assignment-solver/src/hungarian.js:79-86 | the augmentation, cover and tentative-assignment steps of one iteration form a round after the previous cover |
| Augmentation.Augment | assignment-solver/src/hungarian.js:61-77 | the matrix becomes the augmented matrix: rows without a line lose d, then columns with a line gain d |
| Augmentation.SubtractFromRow | assignment-solver/src/hungarian.js:64-66 | only the given row changes, each cell by -d |
| Augmentation.AddToColumn | assignment-solver/src/hungarian.js:73-75 | only the given column changes, each cell by +d |
| Augmentation.AugmentationCells | assignment-solver/src/hungarian.js:61-77 | free cells drop by d, cells on exactly one line are unchanged, and cells where a row line crosses a column line rise by d |
| Augmentation.AugmentationNormal | assignment-solver/src/hungarian.js:59-77 | on a non-negative matrix with all zeros covered, d is positive, the result stays non-negative and some free cell becomes zero |
| Augmentation.AugmentationPotentials | assignment-solver/src/hungarian.js:61-77 | if W is B less potentials u, v, the augmented matrix is B less u raised on free rows and v lowered on covered columns |
| Augmentation.AugmentationProgress | assignment-solver/src/hungarian.js:58-77 | with fewer than n lines the identity cost of the working matrix drops by at least d |
| Augmentation.PotentialSumRises | assignment-solver/src/hungarian.js:58-77 | with fewer than n lines the potential sum rises by at least d |
| Cover.CoverZeros | assignment-solver/src/hungarian.js:109-181 | returns the greedy cover of the matrix: each line is the greedy pick after the lines before it, and every zero is covered |
| Cover.CoverRound | assignment-solver/src/hungarian.js:115-177 | one pass of the loop: nothing to pick exactly when all zeros are covered; otherwise the greedy pick, with `tempMatrix` marked for it |
| Cover.ScanRows | assignment-solver/src/hungarian.js:116-128 | returns the first uncovered row with the most free zeros and its count, or -1 and -1 when every row is covered |
| Cover.ScanColumns | assignment-solver/src/hungarian.js:130-145 | returns the first uncovered column with the most free zeros and its count, or -1 and -1 when every column is covered |
| Cover.MarkRow | assignment-solver/src/hungarian.js:157-163 | the zeros of the new row line are marked -1 in the working copy |
| Cover.MarkColumn | assignment-solver/src/hungarian.js:170-176 | the zeros of the new column line are marked -1 in the working copy |
| Cover.NothingLeftToCover | assignment-solver/src/hungarian.js:148 | when no row has a free zero, every zero is already covered |
| Cover.RowPickIsGreedy | assignment-solver/src/hungarian.js:151-163 | a positive best row score at least the best column score makes that row the greedy pick (rows win ties) |
| Cover.ColumnPickIsGreedy | assignment-solver/src/hungarian.js:164-177 | a positive best column score above the best row score makes that column the greedy pick |
| Cover.GreedyPickProgress | assignment-solver/src/hungarian.js:148-177 | every pick passes through an uncovered zero, so each line covers something new |
| Cover.PickIsNew | assignment-solver/src/hungarian.js:121-135 | a picked line is not already in the cover |
| Cover.GreedyCoverDistinct | assignment-solver/src/hungarian.js:109-181 | the cover repeats no line and every index is within the matrix |
| Cover.GreedyCoverUnique | assignment-solver/src/hungarian.js:109-181 | a matrix has exactly one greedy cover |
| Cover.CoverIsMaximal | assignment-solver/src/hungarian.js:148 | no greedy prefix continues past a complete greedy cover |
| Cover.GreedyPickUnique | assignment-solver/src/hungarian.js:115-177 | after the same lines, the greedy pick is determined |
| Cover.RemainingShrinks | assignment-solver/src/hungarian.js:157-170 | adding a new index shrinks the set of uncovered indices (the loop measure) |
| Cover.LineSets | assignment-solver/src/hungarian.js:184-185 | an index is in the covered-row (column) set exactly when a row (column) line with that index is in the list |
| Cover.FindMinUncovered | assignment-solver/src/hungarian.js:183-203 | returns nothing exactly when every cell is covered, otherwise the smallest uncovered cell value |
| Cover.MinUncoveredUnique | assignment-solver/src/hungarian.js:183-203 | the smallest uncovered value is unique |
| Cover.FewLinesLeaveFreeCell | assignment-solver/src/hungarian.js:58-59 | with fewer than n lines some cell is uncovered, so the loop never sees `Infinity` |
| Cover.CoveredCount | assignment-solver/src/hungarian.js:184-185 | covered rows plus covered columns number at most the lines |
| Matching.FindOptimalAssignment | assignment-solver/src/hungarian.js:205-229 | returns the pairs (k, q[k]) of the lexicographically first complete zero matching q when one exists, and the empty list otherwise |
| Matching.Backtracker.constructor | assignment-solver/src/hungarian.js:206-207 | starts with no pairs and no assigned jobs |
| Matching.Backtracker.Backtrack | assignment-solver/src/hungarian.js:209-225 | on success the assignment is the first complete zero matching extending the current one; on failure assignment and assigned jobs are restored and no extension exists |
| Matching.Backtracker.TryJob | assignment-solver/src/hungarian.js:213-221 | the same, for the current assignment followed by one job |
| Matching.BlockedJob | assignment-solver/src/hungarian.js:213 | a job whose cell is nonzero, or that is already assigned, extends to no complete matching |
| Matching.NoJobLeft | assignment-solver/src/hungarian.js:224 | when no job of the loop extends, the current prefix does not extend |
| Matching.FirstExtensionStep | assignment-solver/src/hungarian.js:212-217 | the first extension through the first job that extends is the first extension of the prefix |
| Matching.CompleteIsFirst | assignment-solver/src/hungarian.js:210 | a complete zero matching is its own first extension |
| Matching.LexFirstUnique | assignment-solver/src/hungarian.js:205-229 | the first extension is unique |
| Matching.Push | assignment-solver/src/hungarian.js:214-215 | pushing a free zero job keeps the assignment and the job set in step |
| Matching.TakenJob | assignment-solver/src/hungarian.js:213 | a job in the set is a job already assigned |
| Trace.AddedStep | assignment-solver/src/hungarian.js:5-20 | a step copies the matrix, lines and assignment it is given, is not final and carries no original matrix |
| Trace.NonzeroIndicesExact | assignment-solver/src/hungarian.js:33-51 | the indices recorded are increasing and are exactly those with a nonzero minimum |
| Trace.RowReductionTrace | assignment-solver/src/hungarian.js:33-39 | row steps name their worker and minimum, come in increasing worker order, and exist for every row with a nonzero minimum |
| Trace.ColumnReductionTrace | assignment-solver/src/hungarian.js:42-51 | column steps name their job and minimum, come in increasing job order, and exist for every column with a nonzero minimum |
| Trace.RowReductionStepsNext | assignment-solver/src/hungarian.js:35-38 | one more row adds a step exactly when its minimum is nonzero |
| Trace.ColumnReductionStepsNext | assignment-solver/src/hungarian.js:45-50 | one more column adds a step exactly when its minimum is nonzero |
| Trace.ChainExtend | assignment-solver/src/hungarian.js:79-86 | a round after the last cover extends the chain and keeps its first step |
| Trace.ChainHead | assignment-solver/src/hungarian.js:55 | a chain starts with a cover step |
| Trace.ChainOfFullCover | assignment-solver/src/hungarian.js:58 | a chain whose first cover has n lines has no rounds |
| Reduction.ReduceRow | assignment-solver/src/hungarian.js:36 | every entry loses the row minimum, all become non-negative, and one becomes zero |
| Reduction.ReducedRowsNormal | assignment-solver/src/hungarian.js:33-39 | row reduction leaves a non-negative matrix with a zero in every row |
| Reduction.ReducedColumnsNormal | assignment-solver/src/hungarian.js:42-51 | column reduction leaves a non-negative matrix with a zero in every column |
| Reduction.ColumnReductionKeepsRowZero | assignment-solver/src/hungarian.js:42-51 | on a non-negative matrix, column reduction keeps every zero that a row had |
| Reduction.ReductionLeavesZeros | assignment-solver/src/hungarian.js:32-51 | after both reductions the matrix is non-negative with a zero in every row and every column |
| Reduction.RowsReducedNext | assignment-solver/src/hungarian.js:36 | reducing one more row changes only that row, by its minimum |
| Reduction.ColumnsReducedNext | assignment-solver/src/hungarian.js:46-48 | reducing one more column changes only that column, by its minimum |
| Reduction.RowsReducedSame | assignment-solver/src/hungarian.js:35 | a row whose minimum is zero is left as it is |
| Reduction.ColumnsReducedSame | assignment-solver/src/hungarian.js:45 | a column whose minimum is zero is left as it is |
| Reduction.ComplementNormal | assignment-solver/src/hungarian.js:26-30 | the converted matrix is non-negative, a cell is zero exactly when it held the maximum, and some cell is zero |
| Reduction.ComplementCost | assignment-solver/src/hungarian.js:26-30 | a permutation costs n·max less its old cost, so the cheapest converted assignment is the most valuable original one |
| Reduction.ReductionPotentials | assignment-solver/src/hungarian.js:32-51 | the reduced matrix is the start matrix less the row minima and the column minima of the row-reduced matrix |
| Costs.ZeroAssignmentOptimal | assignment-solver/src/hungarian.js:89-94 | on a non-negative matrix with potentials, a permutation through zeros costs in the start matrix no more than any permutation |
| Costs.PotentialCost | assignment-solver/src/hungarian.js:58-77 | a permutation's cost in W is its cost in B less the sums of the potentials |
| Costs.CostNonNegative | assignment-solver/src/hungarian.js:58 | on a non-negative matrix every assignment costs at least zero |
| Matrices.SeqMin | assignment-solver/src/hungarian.js:34 | `Math.min` of a non-empty row: an entry of it, no larger than any entry |
| Matrices.MatrixMax | assignment-solver/src/hungarian.js:27 | `Math.max` of all cells: a cell of the matrix, no smaller than any cell |
| Matrices.Snap | assignment-solver/src/hungarian.js:8 | the deep copy of the working matrix a step keeps: same dimensions, same cells |
| Stranded.StrandedSolution | assignment-solver/src/hungarian.js:54-94 | for the input `[[0,0,1,1],[0,1,1,1],[1,0,1,1],[1,1,0,0]]` minimised, the solution's assignment is empty |
| Stranded.FullFirstCoverStrands | assignment-solver/src/hungarian.js:54-94 | when the first greedy cover already has n lines and the reduced matrix has no complete zero matching, the solution's assignment is empty |
| Stranded.FirstCoverIsLast | assignment-solver/src/hungarian.js:54-58 | when the first cover has n lines, the last working matrix is the reduced one |
| Stranded.ReducedE | assignment-solver/src/hungarian.js:32-51 | neither reduction changes the example input |
| Stranded.CoverE | assignment-solver/src/hungarian.js:109-181 | rows 0, 3, 1 and 2, in that order, are the greedy cover of the example |
| Stranded.NoMatchingE | assignment-solver/src/hungarian.js:205-229 | the example's zeros have no complete matching |
| Reduction.Complement | assignment-solver/src/hungarian.js:27-28 | the converted matrix is square of the same size, and each cell is maxValue less the original cell |
| Matrices.Column | assignment-solver/src/hungarian.js:43 | the column of job j: one entry per worker, that worker's cell for j |
| Cover.RowSet | assignment-solver/src/hungarian.js:184 | no contract of its own; Cover.LineSets states its members |
| Cover.ColSet | assignment-solver/src/hungarian.js:185 | no contract of its own; Cover.LineSets states its members |
| Cover.FreeZeros | assignment-solver/src/hungarian.js:122 | counts at most one zero per position scanned |
| Cover.RowScore | assignment-solver/src/hungarian.js:120-124 | the free zeros of a row number at most n |
| Cover.ColScore | assignment-solver/src/hungarian.js:134-139 | the free zeros of a column number at most n |
| Cover.Marked | assignment-solver/src/hungarian.js:157-176 | a cell of the working copy is still zero exactly when it is a zero of neither a covered row nor a covered column |
| Augmentation.Augmented | assignment-solver/src/hungarian.js:61-77 | square of the same size as M; Augmentation.AugmentationCells states its cells |
| Trace.RowStep | assignment-solver/src/hungarian.js:37 | the step names the worker and its row minimum, has no lines and no pairs, and shows the matrix with rows 0..i reduced |
| Trace.ColumnStep | assignment-solver/src/hungarian.js:49 | the step names the job and its column minimum, has no lines and no pairs, and shows the matrix with columns 0..j reduced |
| Trace.Prelude | assignment-solver/src/hungarian.js:22-51 | the first step shows the input; under maximisation the second shows the complement and names maxValue |
| Trace.IsRound | assignment-solver/src/hungarian.js:58-86 | no contract of its own; a round follows a cover of fewer than n lines and holds the augmentation by the smallest uncovered value, the new greedy cover and the search result |
| Trace.Chain | assignment-solver/src/hungarian.js:54-87 | no contract of its own; a cover step followed by rounds, each after the cover before it |
| Trace.CoverStepUnique | assignment-solver/src/hungarian.js:54-55 | two cover steps of one matrix are equal |
| Trace.SearchResultUnique | assignment-solver/src/hungarian.js:85 | findOptimalAssignment has one result per matrix |
| Trace.RoundUnique | assignment-solver/src/hungarian.js:58-86 | the round after a given cover is determined |
| Trace.AugmentationStepUnique | assignment-solver/src/hungarian.js:59-79 | the augmentation step after a given cover is determined |
| Trace.TentativeStepUnique | assignment-solver/src/hungarian.js:85-86 | the tentative-assignment step after a given cover is determined |
| Trace.FewLinesBeforeRound | assignment-solver/src/hungarian.js:58 | a round only follows a cover of fewer than n lines |
| Trace.ChainJudgements | assignment-solver/src/hungarian.js:54-86 | cover steps are determined by their matrix, rounds by the step before, and rounds follow only covers of fewer than n lines |
| Trace.RoundsAgree | assignment-solver/src/hungarian.js:54-87 | for such judgements, two chains from the same matrix that each end in a cover of at least n lines are equal |
| Trace.ChainsAgree | assignment-solver/src/hungarian.js:54-87 | two chains of covers and rounds from the same matrix, each ending in a cover of at least n lines, are equal |
| Solver.TraceOfSolution | assignment-solver/src/hungarian.js:54-106 | after the prelude, a solution holds a chain from the reduced matrix and the final step |
| Uniqueness.TracesAgree | assignment-solver/src/hungarian.js:54-87 | two traces from the same reduced matrix have the same chain and the same last cover |
| Uniqueness.FinalJobsAgree | assignment-solver/src/hungarian.js:89-94 | final assignments found in one working matrix choose the same jobs, whatever matrix prices them |
| Uniqueness.FinalAssignmentUnique | assignment-solver/src/hungarian.js:89-94 | priced in the same matrix, the final assignment is unique |
| Uniqueness.TraceAssignmentsAgree | assignment-solver/src/hungarian.js:54-94 | two traces from the same reduced matrix choose the same jobs, and the same assignment when they price in the same matrix |
| Uniqueness.TracesEqual | assignment-solver/src/hungarian.js:22-106 | two traces of one problem after the same prelude are equal, and so are their assignments |
| Uniqueness.SolutionUnique | assignment-solver/src/hungarian.js:1-107 | solveHungarian(O, isMax) has exactly one result |
| Uniqueness.MaximisationIsComplementMinimisation | assignment-solver/src/hungarian.js:25-30 | the solution of maximising O and that of minimising its complement choose the same jobs |

## Left out

- Display text is not modelled. That covers the Indonesian step descriptions, the line labels (hungarian.js:12-14, 155, 168) and the worker letters. A step carries a tag with the numbers its description interpolates.
- JavaScript numbers are modelled as unbounded integers. Floating point and non-finite values are not modelled.
- The `Infinity` sentinel of `findMinUncovered` is modelled as `None`.
- An empty matrix is excluded by a precondition (n ≥ 1). The source reads `matrix[0].length` there and throws.
- Non-square and ragged inputs are excluded by a precondition.
- SolveHungarian: the model does not promise n pairs for every input. The source does not keep that promise either (`Stranded.StrandedSolution`). Optimality is proved only for a complete result.
- The visualisation layer that reads the trace is outside this model.
- ConvertToMinimisation: hungarian.js:28 binds `matrix` to a fresh array, while the model overwrites the working copy in place. Nothing else holds that copy, so the two agree.
