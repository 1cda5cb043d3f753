/**
 * Total cost of an assignment and the dual-variable (potential) argument that
 * makes the Hungarian method correct: subtracting a constant from a row or a
 * column changes the cost of every complete assignment by the same amount.
 */
module Costs {
  import opened Matrices

  /** No value occurs twice in s. */
  predicate Distinct(s: seq<int>)
  {
    forall i, k :: 0 <= i < k < |s| ==> s[i] != s[k]
  }

  /** p gives every worker i < n a job p[i] < n, no job twice. */
  predicate IsPermutation(p: seq<int>, n: nat)
  {
    |p| == n && (forall i :: 0 <= i < n ==> 0 <= p[i] < n) && Distinct(p)
  }

  /** The sum of the entries of v. */
  function Sum(v: seq<int>): (s: int)
  {
    if |v| == 0 then 0 else Sum(v[..|v| - 1]) + v[|v| - 1]
  }

  /** The sum of v[p[0]], v[p[1]], ... */
  function SumAt(v: seq<int>, p: seq<int>): (s: int)
    requires forall i :: 0 <= i < |p| ==> 0 <= p[i] < |v|
  {
    if |p| == 0 then 0 else SumAt(v, p[..|p| - 1]) + v[p[|p| - 1]]
  }

  /** Total cost of giving worker i the job p[i], for every i < |p|. */
  function Cost(M: Matrix, p: seq<int>): (c: int)
    requires |p| <= |M|
    requires forall i :: 0 <= i < |p| ==> 0 <= p[i] < |M[i]|
  {
    if |p| == 0 then 0 else Cost(M, p[..|p| - 1]) + M[|p| - 1][p[|p| - 1]]
  }

  /** Worker i takes job i. */
  function Identity(n: nat): (p: seq<int>)
    ensures |p| == n && forall i :: 0 <= i < n ==> p[i] == i
  {
    seq(n, i requires 0 <= i < n => i)
  }

  lemma IdentityIsPermutation(n: nat)
    ensures IsPermutation(Identity(n), n)
  {
  }

  /** Number of indices below n that belong to S. */
  function CountIn(n: nat, S: set<int>): (c: nat)
    ensures c <= n
  {
    if n == 0 then 0 else CountIn(n - 1, S) + (if n - 1 in S then 1 else 0)
  }

  /** W is B with u[i] taken from row i and v[j] taken from column j. */
  ghost predicate HasPotentials(W: Matrix, B: Matrix, u: seq<int>, v: seq<int>)
  {
    IsSquare(W) && IsSquare(B) && |W| == |B| == |u| == |v| &&
    forall i, j :: 0 <= i < |W| && 0 <= j < |W| ==> W[i][j] == B[i][j] - u[i] - v[j]
  }

  /** s with every value above x moved down by one; x itself is left out of the range. */
  function Squeeze(s: seq<int>, x: int): (t: seq<int>)
    ensures |t| == |s|
    ensures forall i :: 0 <= i < |s| ==> t[i] == (if s[i] > x then s[i] - 1 else s[i])
  {
    seq(|s|, i requires 0 <= i < |s| => if s[i] > x then s[i] - 1 else s[i])
  }

  /** Pigeonhole: a repetition-free sequence of values below m has at most m members. */
  lemma {:induction false} DistinctBound(s: seq<int>, m: nat)
    requires Distinct(s)
    requires forall i :: 0 <= i < |s| ==> 0 <= s[i] < m
    ensures |s| <= m
    decreases |s|
  {
    if |s| > 0 {
      var x := s[|s| - 1];
      var t := Squeeze(s[..|s| - 1], x);
      assert forall i :: 0 <= i < |s| - 1 ==> s[i] != x;
      DistinctBound(t, m - 1);
    }
  }

  /** A permutation of 0..n-1 uses every job. */
  lemma PermutationCovers(p: seq<int>, n: nat, j: int)
    requires IsPermutation(p, n) && 0 <= j < n
    ensures j in p
  {
    if j !in p {
      var q := Squeeze(p, j);
      assert forall i :: 0 <= i < n ==> p[i] != j;
      DistinctBound(q, n - 1);
      assert false;
    }
  }

  lemma {:induction false} SumAtAppend(v: seq<int>, a: seq<int>, b: seq<int>)
    requires forall i :: 0 <= i < |a| ==> 0 <= a[i] < |v|
    requires forall i :: 0 <= i < |b| ==> 0 <= b[i] < |v|
    ensures SumAt(v, a + b) == SumAt(v, a) + SumAt(v, b)
    decreases |b|
  {
    if |b| == 0 {
      assert a + b == a;
    } else {
      assert (a + b)[..|a + b| - 1] == a + b[..|b| - 1];
      SumAtAppend(v, a, b[..|b| - 1]);
    }
  }

  /** SumAt only looks at the entries of v that p names. */
  lemma {:induction false} SumAtPrefix(v: seq<int>, m: nat, p: seq<int>)
    requires m <= |v|
    requires forall i :: 0 <= i < |p| ==> 0 <= p[i] < m
    ensures SumAt(v, p) == SumAt(v[..m], p)
    decreases |p|
  {
    if |p| > 0 {
      SumAtPrefix(v, m, p[..|p| - 1]);
    }
  }

  /** Taking the k-th entry out of p removes v[p[k]] from the sum. */
  lemma RemoveAt(v: seq<int>, p: seq<int>, k: nat)
    requires k < |p|
    requires forall i :: 0 <= i < |p| ==> 0 <= p[i] < |v|
    ensures SumAt(v, p) == SumAt(v, p[..k] + p[k + 1..]) + v[p[k]]
  {
    assert p == p[..k] + [p[k]] + p[k + 1..];
    SumAtAppend(v, p[..k] + [p[k]], p[k + 1..]);
    SumAtAppend(v, p[..k], [p[k]]);
    SumAtAppend(v, p[..k], p[k + 1..]);
    assert [p[k]][..0] == [];
  }

  /** Taking the largest job n - 1 out of a permutation of 0..n-1 leaves a permutation of 0..n-2. */
  lemma RemoveLargest(p: seq<int>, n: nat, k: nat)
    requires IsPermutation(p, n) && k < n && p[k] == n - 1
    ensures IsPermutation(p[..k] + p[k + 1..], n - 1)
  {
    var q := p[..k] + p[k + 1..];
    assert forall i :: 0 <= i < |q| ==> q[i] == (if i < k then p[i] else p[i + 1]);
    assert forall i :: 0 <= i < |q| ==> q[i] != n - 1;
  }

  /** Summing v in the order of a permutation gives the plain sum of v. */
  lemma {:induction false} PermutationSum(v: seq<int>, p: seq<int>)
    requires IsPermutation(p, |v|)
    ensures SumAt(v, p) == Sum(v)
    decreases |v|
  {
    var n := |v|;
    if n > 0 {
      PermutationCovers(p, n, n - 1);
      var k :| 0 <= k < n && p[k] == n - 1;
      var q := p[..k] + p[k + 1..];
      RemoveLargest(p, n, k);
      RemoveAt(v, p, k);
      SumAtPrefix(v, n - 1, q);
      PermutationSum(v[..n - 1], q);
    }
  }

  /** Cost of a partial assignment under potentials, prefix by prefix. */
  lemma {:induction false} PotentialCostPrefix(W: Matrix, B: Matrix, u: seq<int>, v: seq<int>, p: seq<int>)
    requires HasPotentials(W, B, u, v)
    requires |p| <= |W|
    requires forall i :: 0 <= i < |p| ==> 0 <= p[i] < |W|
    ensures Cost(W, p) == Cost(B, p) - Sum(u[..|p|]) - SumAt(v, p)
    decreases |p|
  {
    if |p| > 0 {
      var k := |p| - 1;
      PotentialCostPrefix(W, B, u, v, p[..k]);
      assert u[..|p|][..k] == u[..k];
    }
  }

  /**
   * The potential argument: for every complete assignment p, the cost in W is
   * the cost in B minus the same constant Sum(u) + Sum(v).
   */
  lemma PotentialCost(W: Matrix, B: Matrix, u: seq<int>, v: seq<int>, p: seq<int>)
    requires HasPotentials(W, B, u, v)
    requires IsPermutation(p, |W|)
    ensures Cost(W, p) == Cost(B, p) - Sum(u) - Sum(v)
  {
    PotentialCostPrefix(W, B, u, v, p);
    assert u[..|p|] == u;
    PermutationSum(v, p);
  }

  /** An assignment through non-negative cells costs at least zero. */
  lemma {:induction false} CostNonNegative(W: Matrix, p: seq<int>)
    requires NonNegative(W)
    requires |p| <= |W|
    requires forall i :: 0 <= i < |p| ==> 0 <= p[i] < |W[i]|
    ensures Cost(W, p) >= 0
    decreases |p|
  {
    if |p| > 0 {
      CostNonNegative(W, p[..|p| - 1]);
    }
  }

  /** An assignment through zero cells costs exactly zero. */
  lemma {:induction false} CostOfZeros(W: Matrix, p: seq<int>)
    requires |p| <= |W|
    requires forall i :: 0 <= i < |p| ==> 0 <= p[i] < |W[i]| && W[i][p[i]] == 0
    ensures Cost(W, p) == 0
    decreases |p|
  {
    if |p| > 0 {
      CostOfZeros(W, p[..|p| - 1]);
    }
  }

  /** Sum of a pointwise sum. */
  lemma {:induction false} SumPointwise(a: seq<int>, b: seq<int>, c: seq<int>)
    requires |a| == |b| == |c|
    requires forall i :: 0 <= i < |c| ==> c[i] == a[i] + b[i]
    ensures Sum(c) == Sum(a) + Sum(b)
    decreases |c|
  {
    if |c| > 0 {
      var k := |c| - 1;
      SumPointwise(a[..k], b[..k], c[..k]);
    }
  }

  /** Summing x over the members of S below n and y over the rest. */
  lemma {:induction false} SumIndicator(v: seq<int>, S: set<int>, x: int, y: int)
    requires forall i :: 0 <= i < |v| ==> v[i] == (if i in S then x else y)
    ensures Sum(v) == x * CountIn(|v|, S) + y * (|v| - CountIn(|v|, S))
    decreases |v|
  {
    if |v| > 0 {
      SumIndicator(v[..|v| - 1], S, x, y);
    }
  }

  /** Two sets that agree below n have the same count below n. */
  lemma {:induction false} CountInSame(n: nat, S: set<int>, T: set<int>)
    requires forall i :: 0 <= i < n ==> (i in S <==> i in T)
    ensures CountIn(n, S) == CountIn(n, T)
    decreases n
  {
    if n > 0 {
      CountInSame(n - 1, S, T);
    }
  }

  /** Adding one more member to S raises the count below n by at most one. */
  lemma {:induction false} CountInAdd(n: nat, S: set<int>, x: int)
    ensures CountIn(n, S) <= CountIn(n, S + {x}) <= CountIn(n, S) + 1
    decreases n
  {
    if n > 0 {
      if n - 1 == x {
        CountInSame(n - 1, S, S + {x});
      } else {
        CountInAdd(n - 1, S, x);
      }
    }
  }

  /**
   * The optimality argument: when W is B less some potentials and has no
   * negative cell, a complete assignment through zeros of W costs no more in
   * B than any other complete assignment.
   */
  lemma ZeroAssignmentOptimal(W: Matrix, B: Matrix, u: seq<int>, v: seq<int>, a: seq<int>, p: seq<int>)
    requires HasPotentials(W, B, u, v) && NonNegative(W)
    requires IsPermutation(a, |W|) && forall i :: 0 <= i < |W| ==> W[i][a[i]] == 0
    requires IsPermutation(p, |W|)
    ensures Cost(B, a) <= Cost(B, p)
  {
    PotentialCost(W, B, u, v, a);
    PotentialCost(W, B, u, v, p);
    CostOfZeros(W, a);
    CostNonNegative(W, p);
  }
}
