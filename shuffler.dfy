/** `shuffleVerticesWithSameEdges` (isomorphic.cpp:125-155). */
module Shuffler {
  import opened Sequences
  import opened Adjacency

  /** Builds the matrix relabelled by the permutation `p` (the source draws it
      with `std::shuffle`; here it is a parameter). Only the cells above the
      diagonal are read from `m`, and each 1 found is written to both
      symmetric cells of a fresh zero matrix. The source then moves the new
      matrix into the caller's variable; here it is returned and the caller
      assigns it. */
  method ShuffleVertices(m: Matrix, p: seq<int>) returns (shuffled: Matrix)
    requires IsSquare(m) && IsPermutation(p, |m|)
    ensures shuffled == Relabeled(m, p)
    ensures IsSimpleGraph(shuffled) && |shuffled| == |m|
    ensures IsSimpleGraph(m) ==>
              (forall i, j :: 0 <= i < |m| && 0 <= j < |m| ==> shuffled[i][j] == m[p[i]][p[j]]) &&
              (forall i :: 0 <= i < |m| ==> Degrees(shuffled)[i] == Degrees(m)[p[i]]) &&
              multiset(Degrees(shuffled)) == multiset(Degrees(m)) &&
              EdgeCount(shuffled) == EdgeCount(m)
  {
    var n := |m|;
    ghost var target := Relabeled(m, p);
    shuffled := ZeroMatrix(n);
    var i := 0;
    while i < n
      invariant 0 <= i <= n
      invariant |shuffled| == n && IsSquare(shuffled)
      invariant forall a, b :: 0 <= a < n && 0 <= b < n ==>
                  shuffled[a][b] == if Min(a, b) < i then target[a][b] else 0
    {
      var j := i + 1;
      while j < n
        invariant i + 1 <= j <= n
        invariant |shuffled| == n && IsSquare(shuffled)
        invariant forall a, b :: 0 <= a < n && 0 <= b < n ==>
                    shuffled[a][b] == if Min(a, b) < i || (Min(a, b) == i && Max(a, b) < j) then target[a][b] else 0
      {
        if m[p[i]][p[j]] == 1 {
          shuffled := shuffled[i := shuffled[i][j := 1]];
          shuffled := shuffled[j := shuffled[j][i := 1]];
        }
        j := j + 1;
      }
      i := i + 1;
    }
    assert forall a :: 0 <= a < n ==> shuffled[a] == target[a];
    RelabeledIsSimple(m, p);
    if IsSimpleGraph(m) {
      RelabeledIsomorphism(m, p);
      RelabeledDegrees(m, p);
      RelabeledInvariants(m, p);
    }
  }
}
