/**
 * An input on which coverZeros stops with n lines although the reduced
 * matrix has no complete matching of zeros. Workers 0, 1 and 2 have zeros
 * only in jobs 0 and 1, so no assignment serves all three; yet the greedy
 * cover picks rows 0, 3, 1 and 2, and with four lines the outer loop of
 * solveHungarian (hungarian.js:58) never runs. findOptimalAssignment then
 * finds nothing, and the result carries an empty assignment.
 */
module Stranded {
  import opened Matrices
  import opened Reduction
  import opened Cover
  import opened Matching
  import opened Trace
  import opened Solver
  import opened Costs

  /**
   * When the greedy cover of the reduced matrix already has n lines and that
   * matrix has no complete matching of zeros, the solution has no assignment.
   */
  lemma FullFirstCoverStrands(O: Matrix, isMax: bool, L: seq<Line>, s: Solution)
    requires |O| > 0 && IsSquare(O) && IsSolution(O, isMax, s)
    requires IsGreedyCover(Reduced(O, isMax), L) && |L| >= |O|
    requires !Extendable(Reduced(O, isMax), [])
    ensures s.assignment == []
  {
    TraceOfSolution(O, isMax, s);
    Strands(|Prelude(O, isMax)|, Reduced(O, isMax), O, s.steps, s.assignment, L);
  }

  /** FullFirstCoverStrands on the pieces of a solution. */
  lemma Strands(p: nat, R: Matrix, O: Matrix, steps: seq<Step>, a: seq<Assigned>, L: seq<Line>)
    requires IsTraceAfter(p, R, O, steps, a)
    requires IsSquare(R) && |R| == |O| && IsGreedyCover(R, L) && |L| >= |O| && !Extendable(R, [])
    ensures a == []
  {
    FirstCoverIsLast(p, R, O, steps, a, L);
    NothingToFind(O, R, a);
  }

  /** Without a complete matching of zeros in W the final assignment is empty. */
  lemma NothingToFind(O: Matrix, W: Matrix, a: seq<Assigned>)
    requires IsSquare(O) && IsSquare(W) && |W| == |O| && IsFinalAssignment(O, W, a) && !Extendable(W, [])
    ensures a == []
  {
  }

  /**
   * When the greedy cover of R, the matrix the chain starts from, already has
   * n lines, no round follows, and the last cover is that of R.
   */
  lemma FirstCoverIsLast(p: nat, R: Matrix, O: Matrix, steps: seq<Step>, a: seq<Assigned>, L: seq<Line>)
    requires IsTraceAfter(p, R, O, steps, a)
    requires IsSquare(R) && |R| == |O| && IsGreedyCover(R, L) && |L| >= |O|
    ensures steps[|steps| - 2].matrix == R
  {
    var c := steps[p..|steps| - 1];
    ChainHead(c);
    GreedyCoverUnique(R, c[0].lines, L);
    ChainOfFullCover(c);
    LastOfMiddle(steps, p);
  }

  /** The last element of s[p..|s| - 1] is the one before the last of s. */
  lemma LastOfMiddle<T>(s: seq<T>, p: nat)
    requires p + 2 <= |s|
    ensures |s[p..|s| - 1]| >= 1 && s[p..|s| - 1][|s[p..|s| - 1]| - 1] == s[|s| - 2] && s[p..|s| - 1][0] == s[p]
  {
  }

  /** The input: already reduced, with a zero in every row and every column. */
  function E(): (M: Matrix)
    ensures IsSquare(M) && |M| == 4
  {
    [[0, 0, 1, 1], [0, 1, 1, 1], [1, 0, 1, 1], [1, 1, 0, 0]]
  }

  /** The cover coverZeros returns for E. */
  function EL(): (L: seq<Line>)
    ensures |L| == 4
  {
    [Line(Row, 0), Line(Row, 3), Line(Row, 1), Line(Row, 2)]
  }

  /** solveHungarian(E, false) returns an empty assignment. */
  lemma StrandedSolution(s: Solution)
    requires IsSolution(E(), false, s)
    ensures s.assignment == []
  {
    ReducedE();
    CoverE();
    NoMatchingE();
    FullFirstCoverStrands(E(), false, EL(), s);
  }

  /** Every cell of E is 0 or 1. */
  lemma CellsE()
    ensures forall i, j :: 0 <= i < 4 && 0 <= j < 4 ==> 0 <= E()[i][j] <= 1
  {
    forall i, j | 0 <= i < 4 && 0 <= j < 4
      ensures 0 <= E()[i][j] <= 1
    {
      assert i == 0 || i == 1 || i == 2 || i == 3;
      assert j == 0 || j == 1 || j == 2 || j == 3;
    }
  }

  /** Neither reduction changes E: every row and every column minimum is zero. */
  lemma ReducedE()
    ensures Reduced(E(), false) == E()
  {
    RowsOfE();
    ColumnsOfE();
  }

  /** Row reduction leaves E as it is. */
  lemma RowsOfE()
    ensures ReducedRows(E()) == E()
  {
    var M := E();
    CellsE();
    SeqMinIs(M[0], 0) by { assert M[0][0] == 0; }
    SeqMinIs(M[1], 0) by { assert M[1][0] == 0; }
    SeqMinIs(M[2], 0) by { assert M[2][1] == 0; }
    SeqMinIs(M[3], 0) by { assert M[3][2] == 0; }
    RowsReducedSame(M, 4);
    RowsReducedSame(M, 3);
    RowsReducedSame(M, 2);
    RowsReducedSame(M, 1);
    RowsReducedNone(M);
  }

  /** Column reduction leaves E as it is. */
  lemma ColumnsOfE()
    ensures ReducedColumns(E()) == E()
  {
    var M := E();
    CellsE();
    SeqMinIs(Column(M, 0), 0) by { assert Column(M, 0)[0] == 0; }
    SeqMinIs(Column(M, 1), 0) by { assert Column(M, 1)[0] == 0; }
    SeqMinIs(Column(M, 2), 0) by { assert Column(M, 2)[3] == 0; }
    SeqMinIs(Column(M, 3), 0) by { assert Column(M, 3)[3] == 0; }
    ColumnsReducedSame(M, 4);
    ColumnsReducedSame(M, 3);
    ColumnsReducedSame(M, 2);
    ColumnsReducedSame(M, 1);
    ColumnsReducedNone(M);
  }

  /** 1 when x is outside X, 0 when it is inside. */
  function Out(x: int, X: set<int>): (o: nat)
    ensures o == 0 <==> x in X
  {
    if x in X then 0 else 1
  }

  /** FreeZeros of a sequence of four 0/1 cells, written out. */
  lemma FreeZerosOf4(s: seq<int>, X: set<int>)
    requires |s| == 4
    ensures FreeZeros(s, X, 4) ==
      (if s[0] == 0 then Out(0, X) else 0) + (if s[1] == 0 then Out(1, X) else 0) +
      (if s[2] == 0 then Out(2, X) else 0) + (if s[3] == 0 then Out(3, X) else 0)
  {
    assert FreeZeros(s, X, 1) == (if s[0] == 0 then Out(0, X) else 0);
    assert FreeZeros(s, X, 2) == FreeZeros(s, X, 1) + (if s[1] == 0 then Out(1, X) else 0);
    assert FreeZeros(s, X, 3) == FreeZeros(s, X, 2) + (if s[2] == 0 then Out(2, X) else 0);
  }

  /** The scores of E's rows and columns after row lines only. */
  lemma ScoresE(P: seq<Line>)
    requires ColSet(P) == {}
    ensures RowScore(E(), P, 0) == 2 && RowScore(E(), P, 1) == 1 && RowScore(E(), P, 2) == 1 && RowScore(E(), P, 3) == 2
    ensures ColScore(E(), P, 0) == Out(0, RowSet(P)) + Out(1, RowSet(P))
    ensures ColScore(E(), P, 1) == Out(0, RowSet(P)) + Out(2, RowSet(P))
    ensures ColScore(E(), P, 2) == Out(3, RowSet(P)) && ColScore(E(), P, 3) == Out(3, RowSet(P))
  {
    var M := E();
    FreeZerosOf4(M[0], {});
    FreeZerosOf4(M[1], {});
    FreeZerosOf4(M[2], {});
    FreeZerosOf4(M[3], {});
    FreeZerosOf4(Column(M, 0), RowSet(P));
    FreeZerosOf4(Column(M, 1), RowSet(P));
    FreeZerosOf4(Column(M, 2), RowSet(P));
    FreeZerosOf4(Column(M, 3), RowSet(P));
  }

  /** The prefixes of EL and their line sets: rows only. */
  lemma PrefixesE()
    ensures EL()[..0] == [] && EL()[..1] == [Line(Row, 0)] && EL()[..2] == [Line(Row, 0), Line(Row, 3)]
    ensures EL()[..3] == [Line(Row, 0), Line(Row, 3), Line(Row, 1)]
    ensures RowSet([]) == {} && RowSet([Line(Row, 0)]) == {0} && RowSet([Line(Row, 0), Line(Row, 3)]) == {0, 3}
    ensures RowSet([Line(Row, 0), Line(Row, 3), Line(Row, 1)]) == {0, 1, 3} && RowSet(EL()) == {0, 1, 2, 3}
    ensures ColSet([]) == {} && ColSet([Line(Row, 0)]) == {} && ColSet([Line(Row, 0), Line(Row, 3)]) == {}
    ensures ColSet([Line(Row, 0), Line(Row, 3), Line(Row, 1)]) == {}
  {
    RowSetAppend([], Line(Row, 0));
    assert [] + [Line(Row, 0)] == [Line(Row, 0)];
    RowSetAppend([Line(Row, 0)], Line(Row, 3));
    assert [Line(Row, 0)] + [Line(Row, 3)] == [Line(Row, 0), Line(Row, 3)];
    RowSetAppend([Line(Row, 0), Line(Row, 3)], Line(Row, 1));
    assert [Line(Row, 0), Line(Row, 3)] + [Line(Row, 1)] == [Line(Row, 0), Line(Row, 3), Line(Row, 1)];
    RowSetAppend([Line(Row, 0), Line(Row, 3), Line(Row, 1)], Line(Row, 2));
    assert [Line(Row, 0), Line(Row, 3), Line(Row, 1)] + [Line(Row, 2)] == EL();
  }

  /** Row 0 is the first pick: best row score 2, no column scores more. */
  lemma Pick0()
    ensures GreedyPick(E(), [], Line(Row, 0))
  {
    PrefixesE();
    ScoresE([]);
    forall i | 0 <= i < 4
      ensures RowScore(E(), [], i) <= 2 && ColScore(E(), [], i) <= 2
    {
      assert i == 0 || i == 1 || i == 2 || i == 3;
    }
  }

  /** Row 3 is the second pick: score 2 against 1 elsewhere. */
  lemma Pick1()
    ensures GreedyPick(E(), [Line(Row, 0)], Line(Row, 3))
  {
    var P := [Line(Row, 0)];
    PrefixesE();
    ScoresE(P);
    forall i | 0 <= i < 4
      ensures (i != 0 ==> RowScore(E(), P, i) <= 2) && (0 < i < 3 ==> RowScore(E(), P, i) < 2) && ColScore(E(), P, i) <= 2
    {
      assert i == 0 || i == 1 || i == 2 || i == 3;
    }
  }

  /** Row 1 is the third pick: every remaining score is 1 and a row wins ties. */
  lemma Pick2()
    ensures GreedyPick(E(), [Line(Row, 0), Line(Row, 3)], Line(Row, 1))
  {
    var P := [Line(Row, 0), Line(Row, 3)];
    PrefixesE();
    ScoresE(P);
    forall i | 0 <= i < 4
      ensures (i != 0 && i != 3 ==> RowScore(E(), P, i) <= 1) && ColScore(E(), P, i) <= 1
    {
      assert i == 0 || i == 1 || i == 2 || i == 3;
    }
  }

  /** Row 2 is the last pick: the only row left, tied with column 1. */
  lemma Pick3()
    ensures GreedyPick(E(), [Line(Row, 0), Line(Row, 3), Line(Row, 1)], Line(Row, 2))
  {
    var P := [Line(Row, 0), Line(Row, 3), Line(Row, 1)];
    PrefixesE();
    ScoresE(P);
    forall i | 0 <= i < 4
      ensures (i != 0 && i != 1 && i != 3 ==> RowScore(E(), P, i) <= 1) && ColScore(E(), P, i) <= 1
    {
      assert i == 0 || i == 1 || i == 2 || i == 3;
    }
  }

  /** Rows 0, 3, 1 and 2, in that order, are the greedy cover of E. */
  lemma CoverE()
    ensures IsGreedyCover(E(), EL())
  {
    GreedyE();
    CoversE();
  }

  /** Each of the four lines is the greedy pick after the ones before it. */
  lemma GreedyE()
    ensures GreedyPrefix(E(), EL())
  {
    PrefixesE();
    Pick0();
    Pick1();
    Pick2();
    Pick3();
    forall k | 0 <= k < |EL()|
      ensures GreedyPick(E(), EL()[..k], EL()[k])
    {
      assert k == 0 || k == 1 || k == 2 || k == 3;
    }
  }

  /** With every row on a line, every zero of E is covered. */
  lemma CoversE()
    ensures CoversZeros(E(), EL())
  {
    PrefixesE();
  }

  /** Workers 0, 1 and 2 would need three distinct jobs among jobs 0 and 1. */
  lemma NoMatchingE()
    ensures !Extendable(E(), [])
  {
    forall q | |q| == 4 && forall i :: 0 <= i < 4 ==> 0 <= q[i] < 4 && E()[i][q[i]] == 0
      ensures !Distinct(q)
    {
      ZeroJobsE(q);
    }
  }

  /** In E, worker 0 has zeros in jobs 0 and 1, worker 1 only in job 0 and worker 2 only in job 1. */
  lemma ZeroJobsE(q: seq<int>)
    requires |q| == 4 && forall i :: 0 <= i < 4 ==> 0 <= q[i] < 4 && E()[i][q[i]] == 0
    ensures q[1] == 0 && q[2] == 1 && (q[0] == 0 || q[0] == 1)
  {
    assert 0 <= q[0] < 4 && E()[0][q[0]] == 0;
    assert 0 <= q[1] < 4 && E()[1][q[1]] == 0;
    assert 0 <= q[2] < 4 && E()[2][q[2]] == 0;
  }
}
