/** Adjacency matrices (`vector<vector<int>>` in isomorphic.cpp), the edge
    count, the degree sequence, and relabelling by a permutation. */
module Adjacency {
  import opened Sequences

  type Matrix = seq<seq<int>>

  /** Every row has one entry per vertex. */
  predicate IsSquare(m: Matrix)
  {
    forall i :: 0 <= i < |m| ==> |m[i]| == |m|
  }

  /** A simple undirected graph: 0/1 entries, symmetric, no self-loops. */
  predicate IsSimpleGraph(m: Matrix)
  {
    IsSquare(m) &&
    (forall i, j :: 0 <= i < |m| && 0 <= j < |m| ==> m[i][j] == 0 || m[i][j] == 1) &&
    (forall i, j :: 0 <= i < |m| && 0 <= j < |m| ==> m[i][j] == m[j][i]) &&
    (forall i :: 0 <= i < |m| ==> m[i][i] == 0)
  }

  /** The n-by-n matrix of zeros the generator starts from. */
  function ZeroMatrix(n: nat): Matrix
  {
    seq(n, _ => seq(n, _ => 0))
  }

  /** Entries `m[i][c]` for the rows `i < r` of column `c`. */
  function ColumnAbove(m: Matrix, c: int, r: int): int
    requires IsSquare(m) && 0 <= c < |m| && 0 <= r <= |m|
    decreases r
  {
    if r == 0 then 0 else ColumnAbove(m, c, r - 1) + m[r - 1][c]
  }

  /** Entries strictly above the diagonal in the first `k` columns. */
  function UpperCount(m: Matrix, k: int): int
    requires IsSquare(m) && 0 <= k <= |m|
    decreases k
  {
    if k == 0 then 0 else UpperCount(m, k - 1) + ColumnAbove(m, k - 1, k - 1)
  }

  /** Number of edges: the 1-cells above the diagonal. */
  function EdgeCount(m: Matrix): int
    requires IsSquare(m)
  {
    UpperCount(m, |m|)
  }

  /** Row sums: the degree of every vertex (`calculateDegrees`). */
  function Degrees(m: Matrix): seq<int>
  {
    seq(|m|, i requires 0 <= i < |m| => Sum(m[i]))
  }

  /** Sum of the leading `r`-by-`c` block, row by row. */
  function BlockSum(m: Matrix, r: int, c: int): int
    requires IsSquare(m) && 0 <= r <= |m| && 0 <= c <= |m|
    decreases r
  {
    if r == 0 then 0 else BlockSum(m, r - 1, c) + Sum(m[r - 1][..c])
  }

  lemma {:induction false} BlockSumAddColumn(m: Matrix, r: int, c: int)
    requires IsSquare(m) && 0 <= r <= |m| && 0 <= c < |m|
    ensures BlockSum(m, r, c + 1) == BlockSum(m, r, c) + ColumnAbove(m, c, r)
    decreases r
  {
    if r > 0 {
      BlockSumAddColumn(m, r - 1, c);
      assert m[r - 1][..c + 1][..c] == m[r - 1][..c];
    }
  }

  /** In a symmetric matrix the first `j` entries of row `k` are the first `j`
      entries of column `k`. */
  lemma {:induction false} RowPrefixIsColumn(m: Matrix, k: int, j: int)
    requires IsSimpleGraph(m) && 0 <= k < |m| && 0 <= j <= |m|
    ensures Sum(m[k][..j]) == ColumnAbove(m, k, j)
    decreases j
  {
    if j > 0 {
      RowPrefixIsColumn(m, k, j - 1);
      assert m[k][..j][..j - 1] == m[k][..j - 1];
    }
  }

  lemma {:induction false} BlockIsTwiceUpper(m: Matrix, k: int)
    requires IsSimpleGraph(m) && 0 <= k <= |m|
    ensures BlockSum(m, k, k) == 2 * UpperCount(m, k)
    decreases k
  {
    if k > 0 {
      var j := k - 1;
      BlockIsTwiceUpper(m, j);
      BlockSumAddColumn(m, j, j);
      RowPrefixIsColumn(m, j, j);
      assert m[j][..k][..j] == m[j][..j];
    }
  }

  lemma {:induction false} DegreePrefixIsBlock(m: Matrix, r: int)
    requires IsSquare(m) && 0 <= r <= |m|
    ensures Sum(Degrees(m)[..r]) == BlockSum(m, r, |m|)
    decreases r
  {
    if r > 0 {
      DegreePrefixIsBlock(m, r - 1);
      assert Degrees(m)[..r][..r - 1] == Degrees(m)[..r - 1];
      assert m[r - 1][..|m|] == m[r - 1];
    }
  }

  /** The handshake lemma: the degrees of a simple graph add up to twice its
      number of edges. */
  lemma DegreeSum(m: Matrix)
    requires IsSimpleGraph(m)
    ensures Sum(Degrees(m)) == 2 * EdgeCount(m)
  {
    DegreePrefixIsBlock(m, |m|);
    assert Degrees(m)[..|m|] == Degrees(m);
    BlockIsTwiceUpper(m, |m|);
  }

  lemma {:induction false} ZeroColumn(n: nat, c: int, r: int)
    requires 0 <= c < n && 0 <= r <= n
    ensures ColumnAbove(ZeroMatrix(n), c, r) == 0
    decreases r
  {
    if r > 0 {
      ZeroColumn(n, c, r - 1);
    }
  }

  lemma {:induction false} ZeroUpper(n: nat, k: int)
    requires 0 <= k <= n
    ensures UpperCount(ZeroMatrix(n), k) == 0
    decreases k
  {
    if k > 0 {
      ZeroUpper(n, k - 1);
      ZeroColumn(n, k - 1, k - 1);
    }
  }

  /** The matrix of zeros is a simple graph without edges. */
  lemma ZeroMatrixIsEmptyGraph(n: nat)
    ensures IsSimpleGraph(ZeroMatrix(n)) && |ZeroMatrix(n)| == n
    ensures EdgeCount(ZeroMatrix(n)) == 0
  {
    ZeroUpper(n, n);
  }

  /** The two writes the generator makes when it accepts the pair (a, b). */
  function WithEdge(m: Matrix, a: int, b: int): Matrix
    requires IsSquare(m) && 0 <= a < |m| && 0 <= b < |m|
  {
    var m1 := m[a := m[a][b := 1]];
    m1[b := m1[b][a := 1]]
  }

  lemma {:induction false} ColumnAboveWithEdge(m: Matrix, a: int, b: int, c: int, r: int)
    requires IsSimpleGraph(m) && 0 <= a < |m| && 0 <= b < |m| && a != b
    requires 0 <= c < |m| && 0 <= r <= c
    ensures IsSquare(WithEdge(m, a, b))
    ensures ColumnAbove(WithEdge(m, a, b), c, r) ==
            ColumnAbove(m, c, r) + (if c == Max(a, b) && Min(a, b) < r then 1 - m[a][b] else 0)
    decreases r
  {
    if r > 0 {
      ColumnAboveWithEdge(m, a, b, c, r - 1);
    }
  }

  lemma {:induction false} UpperCountWithEdge(m: Matrix, a: int, b: int, k: int)
    requires IsSimpleGraph(m) && 0 <= a < |m| && 0 <= b < |m| && a != b
    requires 0 <= k <= |m|
    ensures IsSquare(WithEdge(m, a, b))
    ensures UpperCount(WithEdge(m, a, b), k) ==
            UpperCount(m, k) + (if Max(a, b) < k then 1 - m[a][b] else 0)
    decreases k
  {
    ColumnAboveWithEdge(m, a, b, 0, 0);
    if k > 0 {
      UpperCountWithEdge(m, a, b, k - 1);
      ColumnAboveWithEdge(m, a, b, k - 1, k - 1);
    }
  }

  /** Accepting a fresh pair keeps the graph simple and adds exactly one edge:
      the new edge set is the old one plus the unordered pair {a, b}. */
  lemma AddEdge(m: Matrix, a: int, b: int)
    requires IsSimpleGraph(m) && 0 <= a < |m| && 0 <= b < |m|
    requires a != b && m[a][b] == 0
    ensures IsSimpleGraph(WithEdge(m, a, b)) && |WithEdge(m, a, b)| == |m|
    ensures EdgeCount(WithEdge(m, a, b)) == EdgeCount(m) + 1
    ensures forall i, j :: 0 <= i < |m| && 0 <= j < |m| ==>
              WithEdge(m, a, b)[i][j] == (if (i == a && j == b) || (i == b && j == a) then 1 else m[i][j])
  {
    UpperCountWithEdge(m, a, b, |m|);
  }

  function Min(a: int, b: int): int { if a <= b then a else b }
  function Max(a: int, b: int): int { if a <= b then b else a }

  lemma {:induction false} FullColumn(m: Matrix, c: int, r: int)
    requires IsSquare(m) && 0 <= c < |m| && 0 <= r <= c
    requires forall i :: 0 <= i < c ==> m[i][c] == 1
    ensures ColumnAbove(m, c, r) == r
    decreases r
  {
    if r > 0 {
      FullColumn(m, c, r - 1);
    }
  }

  lemma {:induction false} FullUpper(m: Matrix, k: int)
    requires IsSquare(m) && 0 <= k <= |m|
    requires forall i, j :: 0 <= i < j < |m| ==> m[i][j] == 1
    ensures 2 * UpperCount(m, k) == k * (k - 1)
    decreases k
  {
    if k > 0 {
      FullUpper(m, k - 1);
      FullColumn(m, k - 1, k - 1);
      assert k * (k - 1) == (k - 1) * (k - 2) + 2 * (k - 1);
    }
  }

  /** While fewer than n(n-1)/2 edges are present, some pair is still free, so
      the generator's rejection sampling can make progress. */
  lemma FreePairExists(m: Matrix)
    requires IsSimpleGraph(m)
    requires 2 * EdgeCount(m) < |m| * (|m| - 1)
    ensures exists i, j :: 0 <= i < j < |m| && m[i][j] == 0
  {
    if forall i, j :: 0 <= i < j < |m| ==> m[i][j] == 1 {
      FullUpper(m, |m|);
      assert false;
    }
  }

  /** The matrix `shuffleVerticesWithSameEdges` builds: entry (i, j) is 1
      exactly when i != j and the cell (p[i], p[j]) -- read from the upper
      triangle side the loop visits -- is 1. */
  function Relabeled(m: Matrix, p: seq<int>): Matrix
    requires IsSquare(m) && IsPermutation(p, |m|)
  {
    seq(|m|, i requires 0 <= i < |m| =>
      seq(|m|, j requires 0 <= j < |m| =>
        if i < j then (if m[p[i]][p[j]] == 1 then 1 else 0)
        else if j < i then (if m[p[j]][p[i]] == 1 then 1 else 0)
        else 0))
  }

  /** Relabelling always yields a simple graph of the same size. */
  lemma RelabeledIsSimple(m: Matrix, p: seq<int>)
    requires IsSquare(m) && IsPermutation(p, |m|)
    ensures IsSimpleGraph(Relabeled(m, p)) && |Relabeled(m, p)| == |m|
  {
  }

  /** Relabelling a simple graph is an isomorphism: i and j are adjacent in the
      new graph exactly when p[i] and p[j] are adjacent in the old one. */
  lemma RelabeledIsomorphism(m: Matrix, p: seq<int>)
    requires IsSimpleGraph(m) && IsPermutation(p, |m|)
    ensures forall i, j :: 0 <= i < |m| && 0 <= j < |m| ==> Relabeled(m, p)[i][j] == m[p[i]][p[j]]
  {
  }

  /** New vertex i has the degree old vertex p[i] had. */
  lemma RelabeledDegrees(m: Matrix, p: seq<int>)
    requires IsSimpleGraph(m) && IsPermutation(p, |m|)
    ensures |Degrees(Relabeled(m, p))| == |m|
    ensures forall i :: 0 <= i < |m| ==> Degrees(Relabeled(m, p))[i] == Degrees(m)[p[i]]
  {
    var r := Relabeled(m, p);
    RelabeledIsomorphism(m, p);
    forall i | 0 <= i < |m|
      ensures Degrees(r)[i] == Degrees(m)[p[i]]
    {
      assert r[i] == Pick(m[p[i]], p);
      PickPermutation(m[p[i]], p);
    }
  }

  /** Relabelling keeps the degree multiset and the number of edges. */
  lemma RelabeledInvariants(m: Matrix, p: seq<int>)
    requires IsSimpleGraph(m) && IsPermutation(p, |m|)
    ensures IsSimpleGraph(Relabeled(m, p))
    ensures multiset(Degrees(Relabeled(m, p))) == multiset(Degrees(m))
    ensures EdgeCount(Relabeled(m, p)) == EdgeCount(m)
  {
    var r := Relabeled(m, p);
    RelabeledIsSimple(m, p);
    RelabeledDegrees(m, p);
    assert Degrees(r) == Pick(Degrees(m), p);
    PickPermutation(Degrees(m), p);
    DegreeSum(m);
    DegreeSum(r);
  }
}
