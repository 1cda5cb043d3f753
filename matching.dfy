/**
 * findOptimalAssignment (hungarian.js:205-229): a depth-first search that
 * gives worker 0, 1, ... a zero cell in a job not yet taken, trying jobs in
 * ascending order and undoing a choice when the workers after it cannot be
 * served. Its result is the lexicographically first complete matching of
 * zeros, or the empty sequence when there is none.
 */
module Matching {
  import opened Matrices
  import opened Costs

  /** An entry `{ row, col }` of the assignment: worker `row` takes job `col`. */
  datatype Pair = Pair(row: int, col: int)

  /** Worker i takes job q[i] for every i < |q|; the jobs are distinct jobs of M and all the cells are zero. */
  predicate IsZeroMatching(M: Matrix, q: seq<int>)
    requires IsSquare(M)
  {
    |q| <= |M| && (forall i :: 0 <= i < |q| ==> 0 <= q[i] < |M| && M[i][q[i]] == 0) && Distinct(q)
  }

  /** A zero matching that serves every worker. */
  predicate IsCompleteZeroMatching(M: Matrix, q: seq<int>)
    requires IsSquare(M)
  {
    IsZeroMatching(M, q) && |q| == |M|
  }

  /** a comes no later than b in lexicographic order (equal lengths). */
  predicate LexLeq(a: seq<int>, b: seq<int>)
    requires |a| == |b|
  {
    a == b || exists k :: 0 <= k < |a| && a[..k] == b[..k] && a[k] < b[k]
  }

  /** Some complete zero matching begins with the choices p. */
  ghost predicate Extendable(M: Matrix, p: seq<int>)
    requires IsSquare(M)
  {
    exists q {:trigger IsCompleteZeroMatching(M, q)} :: IsCompleteZeroMatching(M, q) && |p| <= |q| && q[..|p|] == p
  }

  /** q is the lexicographically first complete zero matching that begins with p. */
  ghost predicate FirstExtension(M: Matrix, p: seq<int>, q: seq<int>)
    requires IsSquare(M)
  {
    IsCompleteZeroMatching(M, q) && |p| <= |q| && q[..|p|] == p &&
    forall r {:trigger IsCompleteZeroMatching(M, r)} :: IsCompleteZeroMatching(M, r) && |p| <= |r| && r[..|p|] == p ==> LexLeq(q, r)
  }

  /** The jobs of an assignment, in worker order. */
  function Cols(a: seq<Pair>): (q: seq<int>)
    ensures |q| == |a| && forall k :: 0 <= k < |a| ==> q[k] == a[k].col
  {
    seq(|a|, k requires 0 <= k < |a| => a[k].col)
  }

  /** The assignment that gives worker k the job q[k]. */
  function Pairs(q: seq<int>): (a: seq<Pair>)
    ensures |a| == |q| && forall k :: 0 <= k < |q| ==> a[k] == Pair(k, q[k])
  {
    seq(|q|, k requires 0 <= k < |q| => Pair(k, q[k]))
  }

  /** Lexicographic order is antisymmetric. */
  lemma LexLeqAntisymmetric(a: seq<int>, b: seq<int>)
    requires |a| == |b| && LexLeq(a, b) && LexLeq(b, a)
    ensures a == b
  {
    if a != b {
      assert false;
    }
  }

  /** There is only one lexicographically first extension, so the search result is determined by M. */
  lemma LexFirstUnique(M: Matrix, p: seq<int>, q1: seq<int>, q2: seq<int>)
    requires IsSquare(M) && FirstExtension(M, p, q1) && FirstExtension(M, p, q2)
    ensures q1 == q2
  {
    LexLeqAntisymmetric(q1, q2);
  }

  /** A complete zero matching is its own and only extension. */
  lemma CompleteIsFirst(M: Matrix, p: seq<int>)
    requires IsSquare(M) && IsCompleteZeroMatching(M, p)
    ensures FirstExtension(M, p, p)
  {
    assert p[..|p|] == p;
    forall r | IsCompleteZeroMatching(M, r) && |p| <= |r| && r[..|p|] == p
      ensures LexLeq(p, r)
    {
      assert r == r[..|r|];
    }
  }

  /** A complete zero matching agrees with each of its prefixes. */
  lemma PrefixAgrees(q: seq<int>, p: seq<int>)
    requires |p| <= |q| && q[..|p|] == p
    ensures forall k :: 0 <= k < |p| ==> q[k] == p[k]
  {
    forall k | 0 <= k < |p|
      ensures q[k] == p[k]
    {
      assert q[k] == q[..|p|][k];
    }
  }

  lemma DistinctAt(q: seq<int>, k: int, l: int)
    requires Distinct(q) && 0 <= k < l < |q|
    ensures q[k] != q[l]
  {
  }

  /** A complete zero matching that begins with p also begins with p and its next job. */
  lemma ExtendOne(M: Matrix, p: seq<int>, q: seq<int>)
    requires IsSquare(M) && IsCompleteZeroMatching(M, q) && |p| < |q| && q[..|p|] == p
    ensures Extendable(M, p + [q[|p|]])
  {
    assert q[..|p| + 1] == p + [q[|p|]];
  }

  /** A job whose cell is not zero, or that is already taken, cannot follow p. */
  lemma BlockedJob(M: Matrix, p: seq<int>, job: int)
    requires IsSquare(M) && |p| < |M| && 0 <= job < |M|
    requires M[|p|][job] != 0 || job in p
    ensures !Extendable(M, p + [job])
  {
    if Extendable(M, p + [job]) {
      var q :| IsCompleteZeroMatching(M, q) && |p + [job]| <= |q| && q[..|p + [job]|] == p + [job];
      PrefixAgrees(q, p + [job]);
      assert q[|p|] == job;
      if M[|p|][job] != 0 {
        assert false;
      } else {
        var k :| 0 <= k < |p| && p[k] == job;
        DistinctAt(q, k, |p|);
        assert false;
      }
    }
  }

  /** No job below `job` can follow the choices p. */
  ghost predicate NoneBefore(M: Matrix, p: seq<int>, job: int)
    requires IsSquare(M)
  {
    forall j :: 0 <= j < job ==> !Extendable(M, p + [j])
  }

  lemma NoneBeforeStep(M: Matrix, p: seq<int>, job: int)
    requires IsSquare(M) && NoneBefore(M, p, job) && !Extendable(M, p + [job])
    ensures NoneBefore(M, p, job + 1)
  {
  }

  /** When no job can follow p, no complete zero matching begins with p. */
  lemma NoJobLeft(M: Matrix, p: seq<int>)
    requires IsSquare(M) && |p| < |M|
    requires NoneBefore(M, p, |M|)
    ensures !Extendable(M, p)
  {
    if Extendable(M, p) {
      var q :| IsCompleteZeroMatching(M, q) && |p| <= |q| && q[..|p|] == p;
      ExtendOne(M, p, q);
      assert false;
    }
  }

  /**
   * The first extension of p + [job], when no smaller job can follow p, is
   * the first extension of p: the ascending job loop finds the first one.
   */
  lemma FirstExtensionStep(M: Matrix, p: seq<int>, job: int, q: seq<int>)
    requires IsSquare(M) && |p| < |M|
    requires NoneBefore(M, p, job)
    requires FirstExtension(M, p + [job], q)
    ensures FirstExtension(M, p, q)
  {
    var w := |p|;
    PrefixThen(q, p, job);
    forall r | IsCompleteZeroMatching(M, r) && |p| <= |r| && r[..w] == p
      ensures LexLeq(q, r)
    {
      Rival(M, p, job, q, r);
    }
  }

  /** One complete zero matching r that begins with p, compared with the first extension q of p + [job]. */
  lemma Rival(M: Matrix, p: seq<int>, job: int, q: seq<int>, r: seq<int>)
    requires IsSquare(M) && |p| < |M|
    requires NoneBefore(M, p, job)
    requires FirstExtension(M, p + [job], q)
    requires IsCompleteZeroMatching(M, r) && r[..|p|] == p
    ensures LexLeq(q, r)
  {
    var w := |p|;
    PrefixThen(q, p, job);
    if r[w] < job {
      ExtendOne(M, p, r);
      assert false;
    } else if r[w] == job {
      assert r[..w + 1] == p + [job];
    } else {
      LaterJob(q, r, w);
    }
  }

  /** A sequence that begins with p + [job] begins with p and holds job next. */
  lemma PrefixThen(q: seq<int>, p: seq<int>, job: int)
    requires |p| < |q| && q[..|p| + 1] == p + [job]
    ensures q[..|p|] == p && q[|p|] == job
  {
    assert q[..|p|] == q[..|p| + 1][..|p|];
    assert q[|p|] == q[..|p| + 1][|p|];
  }

  /** Sequences that agree before w and differ first at w in favour of q are in order. */
  lemma LaterJob(q: seq<int>, r: seq<int>, w: int)
    requires |q| == |r| && 0 <= w < |q| && q[..w] == r[..w] && q[w] < r[w]
    ensures LexLeq(q, r)
  {
  }

  /** assignment gives worker k its k-th pair, uses exactly the jobs in assignedJobs, and only zero cells. */
  ghost predicate Consistent(M: Matrix, assignment: seq<Pair>, assignedJobs: set<int>)
    requires IsSquare(M)
  {
    (forall k :: 0 <= k < |assignment| ==> assignment[k].row == k) &&
    assignedJobs == (set k | 0 <= k < |assignment| :: assignment[k].col) &&
    IsZeroMatching(M, Cols(assignment))
  }

  /** Pushing a free zero of the next worker keeps the search state consistent. */
  lemma Push(M: Matrix, assignment: seq<Pair>, assignedJobs: set<int>, job: int)
    requires IsSquare(M) && Consistent(M, assignment, assignedJobs)
    requires |assignment| < |M| && 0 <= job < |M| && M[|assignment|][job] == 0 && job !in assignedJobs
    ensures Cols(assignment + [Pair(|assignment|, job)]) == Cols(assignment) + [job]
    ensures Consistent(M, assignment + [Pair(|assignment|, job)], assignedJobs + {job})
  {
    var a := assignment + [Pair(|assignment|, job)];
    assert Cols(a) == Cols(assignment) + [job];
    assert (set k | 0 <= k < |a| :: a[k].col) == assignedJobs + {job} by {
      assert forall k :: 0 <= k < |assignment| ==> a[k] == assignment[k];
      assert a[|assignment|].col == job;
    }
  }

  /** A job of the assignment is in assignedJobs. */
  lemma TakenJob(M: Matrix, assignment: seq<Pair>, assignedJobs: set<int>, job: int)
    requires IsSquare(M) && Consistent(M, assignment, assignedJobs) && job in assignedJobs
    ensures job in Cols(assignment)
  {
    var k :| 0 <= k < |assignment| && assignment[k].col == job;
    assert Cols(assignment)[k] == job;
  }

  /**
   * The state of the search: the assignment built so far and the set of jobs
   * it uses (the `assignment` array and `assignedJobs` set of the closure).
   */
  class Backtracker {
    const matrix: array2<int>
    ghost const M: Matrix
    var assignment: seq<Pair>
    var assignedJobs: set<int>

    ghost predicate Valid()
      reads this, matrix
    {
      matrix.Length0 == matrix.Length1 && M == Snap(matrix) && Consistent(M, assignment, assignedJobs)
    }

    constructor(matrix: array2<int>)
      requires matrix.Length0 == matrix.Length1
      ensures this.matrix == matrix && M == Snap(matrix)
      ensures assignment == [] && assignedJobs == {} && Valid()
    {
      this.matrix := matrix;
      M := Snap(matrix);
      assignment := [];
      assignedJobs := {};
    }

    /**
     * backtrack(worker): extend the current assignment to every worker from
     * `worker` on. On success the assignment is the first complete zero
     * matching that begins with the old one; on failure it is restored and
     * no complete zero matching begins with it.
     */
    method Backtrack(worker: int) returns (found: bool)
      requires Valid() && worker == |assignment|
      modifies this
      decreases matrix.Length0 - worker, 1
      ensures Valid()
      ensures found ==> FirstExtension(M, Cols(old(assignment)), Cols(assignment))
      ensures !found ==> assignment == old(assignment) && assignedJobs == old(assignedJobs)
      ensures !found ==> !Extendable(M, Cols(old(assignment)))
    {
      var n := matrix.Length0;
      if worker >= n {
        CompleteIsFirst(M, Cols(assignment));
        return true;
      }
      ghost var p := Cols(assignment);
      for job := 0 to n
        invariant Valid() && assignment == old(assignment) && assignedJobs == old(assignedJobs)
        invariant NoneBefore(M, p, job)
      {
        found := TryJob(worker, job);
        if found {
          FirstExtensionStep(M, p, job, Cols(assignment));
          return;
        }
        NoneBeforeStep(M, p, job);
      }
      NoJobLeft(M, p);
      found := false;
    }

    /**
     * One pass of the job loop of backtrack: when the cell is zero and the
     * job free, take it, search on from the next worker, and undo the choice
     * if that search fails.
     */
    method TryJob(worker: int, job: int) returns (found: bool)
      requires Valid() && worker == |assignment| < matrix.Length0 && 0 <= job < matrix.Length0
      modifies this
      decreases matrix.Length0 - worker, 0
      ensures Valid()
      ensures found ==> FirstExtension(M, Cols(old(assignment)) + [job], Cols(assignment))
      ensures !found ==> assignment == old(assignment) && assignedJobs == old(assignedJobs)
      ensures !found ==> !Extendable(M, Cols(old(assignment)) + [job])
    {
      ghost var p := Cols(assignment);
      if matrix[worker, job] == 0 && job !in assignedJobs {
        Push(M, assignment, assignedJobs, job);
        assignedJobs := assignedJobs + {job};
        assignment := assignment + [Pair(worker, job)];
        ghost var extended := Cols(assignment);
        assert extended == p + [job];
        found := Backtrack(worker + 1);
        if found {
          assert FirstExtension(M, extended, Cols(assignment));
          return;
        }
        assignedJobs := assignedJobs - {job};
        assignment := assignment[..|assignment| - 1];
      } else {
        if job in assignedJobs {
          TakenJob(M, assignment, assignedJobs, job);
        }
        BlockedJob(M, p, job);
        found := false;
      }
    }
  }

  /**
   * findOptimalAssignment: the lexicographically first complete matching of
   * zero cells as (row, col) pairs, or the empty sequence when none exists.
   */
  method FindOptimalAssignment(matrix: array2<int>) returns (assignment: seq<Pair>)
    requires matrix.Length0 == matrix.Length1
    ensures Extendable(Snap(matrix), []) ==>
      assignment == Pairs(Cols(assignment)) && FirstExtension(Snap(matrix), [], Cols(assignment))
    ensures !Extendable(Snap(matrix), []) ==> assignment == []
  {
    var search := new Backtracker(matrix);
    var found := search.Backtrack(0);
    assignment := search.assignment;
    if found {
      assert assignment == Pairs(Cols(assignment));
      assert Cols(assignment)[..0] == [];
    }
  }
}
