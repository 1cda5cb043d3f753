/**
 * solveHungarian is a function of its arguments: every step it records is
 * determined by the matrix before it (coverZeros, findMinUncovered and
 * findOptimalAssignment each choose deterministically), so two solutions for
 * the same problem are equal. A maximisation problem and the minimisation of
 * its complement share their working matrices and so choose the same jobs.
 */
module Uniqueness {
  import opened Matrices
  import opened Reduction
  import opened Matching
  import opened Trace
  import opened Solver

  /** Two traces from the same reduced matrix have the same chain of covers and rounds. */
  lemma TracesAgree(p1: nat, p2: nat, R: Matrix, O1: Matrix, O2: Matrix,
                    steps1: seq<Step>, a1: seq<Assigned>, steps2: seq<Step>, a2: seq<Assigned>)
    requires IsTraceAfter(p1, R, O1, steps1, a1) && IsTraceAfter(p2, R, O2, steps2, a2)
    ensures steps1[p1..|steps1| - 1] == steps2[p2..|steps2| - 1]
    ensures steps1[|steps1| - 2] == steps2[|steps2| - 2]
  {
    var c1 := steps1[p1..|steps1| - 1];
    var c2 := steps2[p2..|steps2| - 1];
    SliceEnds(steps1, p1, c1);
    SliceEnds(steps2, p2, c2);
    ChainsAgree(c1, c2);
    SliceEnds(steps2, p2, c1);
  }

  /** The ends of s with the first p elements and the last one cut off. */
  lemma SliceEnds<T>(s: seq<T>, p: nat, c: seq<T>)
    requires |s| >= p + 2 && c == s[p..|s| - 1]
    ensures |c| >= 1 && c[0] == s[p] && c[|c| - 1] == s[|s| - 2]
  {
  }

  /** The final assignments found in one working matrix choose the same jobs, whatever they are priced in. */
  lemma FinalJobsAgree(O1: Matrix, O2: Matrix, W1: Matrix, W2: Matrix, a1: seq<Assigned>, a2: seq<Assigned>)
    requires IsSquare(O1) && IsSquare(O2) && IsSquare(W1) && |W1| == |O1| == |O2| && W1 == W2
    requires IsFinalAssignment(O1, W1, a1) && IsFinalAssignment(O2, W2, a2)
    ensures Jobs(a1) == Jobs(a2)
  {
    if Extendable(W1, []) {
      LexFirstUnique(W1, [], Jobs(a1), Jobs(a2));
    }
  }

  /** Priced in the same matrix, the final assignment is unique. */
  lemma FinalAssignmentUnique(O: Matrix, W1: Matrix, W2: Matrix, a1: seq<Assigned>, a2: seq<Assigned>)
    requires IsSquare(O) && IsSquare(W1) && |W1| == |O| && W1 == W2
    requires IsFinalAssignment(O, W1, a1) && IsFinalAssignment(O, W2, a2)
    ensures a1 == a2
  {
    FinalJobsAgree(O, O, W1, W2, a1, a2);
    if Extendable(W1, []) {
      forall k | 0 <= k < |a1|
        ensures a1[k] == a2[k]
      {
        assert Jobs(a1)[k] == Jobs(a2)[k];
      }
    }
  }

  /** Two traces from the same reduced matrix choose the same jobs, and with the same O the same assignment. */
  lemma TraceAssignmentsAgree(p1: nat, p2: nat, R: Matrix, O1: Matrix, O2: Matrix,
                              steps1: seq<Step>, a1: seq<Assigned>, steps2: seq<Step>, a2: seq<Assigned>)
    requires IsTraceAfter(p1, R, O1, steps1, a1) && IsTraceAfter(p2, R, O2, steps2, a2) && |O1| == |O2|
    ensures Jobs(a1) == Jobs(a2)
    ensures O1 == O2 ==> a1 == a2
  {
    TracesAgree(p1, p2, R, O1, O2, steps1, a1, steps2, a2);
    var W1 := steps1[|steps1| - 2].matrix;
    var W2 := steps2[|steps2| - 2].matrix;
    FinalJobsAgree(O1, O2, W1, W2, a1, a2);
    if O1 == O2 {
      FinalAssignmentUnique(O1, W1, W2, a1, a2);
    }
  }

  /** Two traces of one problem after the same prelude P are equal, and so are their assignments. */
  lemma TracesEqual(P: seq<Step>, R: Matrix, O: Matrix,
                    steps1: seq<Step>, a1: seq<Assigned>, steps2: seq<Step>, a2: seq<Assigned>)
    requires IsTraceAfter(|P|, R, O, steps1, a1) && IsTraceAfter(|P|, R, O, steps2, a2)
    requires steps1[..|P|] == P && steps2[..|P|] == P
    ensures steps1 == steps2 && a1 == a2
  {
    TracesAgree(|P|, |P|, R, O, O, steps1, a1, steps2, a2);
    TraceAssignmentsAgree(|P|, |P|, R, O, O, steps1, a1, steps2, a2);
    FinalStepOfTrace(|P|, R, O, steps1, a1);
    FinalStepOfTrace(|P|, R, O, steps2, a2);
    JoinSteps(P, steps1[|P|..|steps1| - 1], steps1);
    JoinSteps(P, steps2[|P|..|steps2| - 1], steps2);
  }

  /** solveHungarian(O, isMax) has exactly one result. */
  lemma SolutionUnique(O: Matrix, isMax: bool, s1: Solution, s2: Solution)
    requires |O| > 0 && IsSquare(O) && IsSolution(O, isMax, s1) && IsSolution(O, isMax, s2)
    ensures s1 == s2
  {
    var P := Prelude(O, isMax);
    PreludeOfSolution(O, isMax, s1);
    PreludeOfSolution(O, isMax, s2);
    TraceOfSolution(O, isMax, s1);
    TraceOfSolution(O, isMax, s2);
    TracesEqual(P, Reduced(O, isMax), O, s1.steps, s1.assignment, s2.steps, s2.assignment);
  }

  /**
   * Maximising O chooses the same jobs as minimising its complement: both
   * start from Complement(O) and so reduce to the same working matrices.
   */
  lemma MaximisationIsComplementMinimisation(O: Matrix, s1: Solution, s2: Solution)
    requires |O| > 0 && IsSquare(O) && IsSolution(O, true, s1) && IsSolution(Complement(O), false, s2)
    ensures Jobs(s1.assignment) == Jobs(s2.assignment)
  {
    var C := Complement(O);
    assert Reduced(O, true) == Reduced(C, false);
    TraceOfSolution(O, true, s1);
    TraceOfSolution(C, false, s2);
    TraceAssignmentsAgree(|Prelude(O, true)|, |Prelude(C, false)|, Reduced(O, true), O, C,
                          s1.steps, s1.assignment, s2.steps, s2.assignment);
  }

  /** A solution's steps begin with the prelude. */
  lemma PreludeOfSolution(O: Matrix, isMax: bool, s: Solution)
    requires |O| > 0 && IsSquare(O) && IsSolution(O, isMax, s)
    ensures |s.steps| >= |Prelude(O, isMax)| + 2 && s.steps[..|Prelude(O, isMax)|] == Prelude(O, isMax)
  {
  }

  /** The last step of a trace shows the original matrix and the assignment. */
  lemma FinalStepOfTrace(p: nat, R: Matrix, O: Matrix, steps: seq<Step>, a: seq<Assigned>)
    requires IsTraceAfter(p, R, O, steps, a)
    ensures steps[|steps| - 1] == Step(Optimal, O, [], CostList(a), true, Some(O))
  {
  }

  /** A sequence cut before k and before its last element is the three pieces joined. */
  lemma JoinSteps<T>(p: seq<T>, c: seq<T>, s: seq<T>)
    requires |s| >= |p| + 1 && s[..|p|] == p && c == s[|p|..|s| - 1]
    ensures s == p + c + [s[|s| - 1]]
  {
  }
}
