/** How far the degree-sequence heuristic `isIsomorphic` (isomorphic.cpp:168-179)
    is from graph isomorphism: it is necessary (`IsomorphicPassesHeuristic`) but
    not sufficient. */
module HeuristicLimits {
  import opened Sequences
  import opened Adjacency
  import opened DegreeAnalysis

  /** The path 0-1-2-3-4. */
  function Path5(): (m: Matrix)
    ensures IsSimpleGraph(m) && |m| == 5
  {
    seq(5, i => seq(5, j => if i - j == 1 || j - i == 1 then 1 else 0))
  }

  /** A triangle on 0, 1, 2 and the separate edge 3-4. */
  function TriangleAndEdge(): (m: Matrix)
    ensures IsSimpleGraph(m) && |m| == 5
  {
    seq(5, i => seq(5, j => if i != j && ((i < 3 && j < 3) || (3 <= i && 3 <= j)) then 1 else 0))
  }

  lemma SumOfFive(a: int, b: int, c: int, d: int, e: int)
    ensures Sum([a, b, c, d, e]) == a + b + c + d + e
  {
    assert [a][..0] == [];
    assert Sum([a]) == a;
    assert [a, b][..1] == [a];
    assert Sum([a, b]) == a + b;
    assert [a, b, c][..2] == [a, b];
    assert Sum([a, b, c]) == a + b + c;
    assert [a, b, c, d][..3] == [a, b, c];
    assert Sum([a, b, c, d]) == a + b + c + d;
    assert [a, b, c, d, e][..4] == [a, b, c, d];
  }

  lemma Path5Degrees()
    ensures Degrees(Path5()) == [1, 2, 2, 2, 1]
  {
    var m := Path5();
    assert m[0] == [0, 1, 0, 0, 0];
    assert m[1] == [1, 0, 1, 0, 0];
    assert m[2] == [0, 1, 0, 1, 0];
    assert m[3] == [0, 0, 1, 0, 1];
    assert m[4] == [0, 0, 0, 1, 0];
    SumOfFive(0, 1, 0, 0, 0);
    SumOfFive(1, 0, 1, 0, 0);
    SumOfFive(0, 1, 0, 1, 0);
    SumOfFive(0, 0, 1, 0, 1);
    SumOfFive(0, 0, 0, 1, 0);
  }

  lemma TriangleAndEdgeDegrees()
    ensures Degrees(TriangleAndEdge()) == [2, 2, 2, 1, 1]
  {
    var m := TriangleAndEdge();
    assert m[0] == [0, 1, 1, 0, 0];
    assert m[1] == [1, 0, 1, 0, 0];
    assert m[2] == [1, 1, 0, 0, 0];
    assert m[3] == [0, 0, 0, 0, 1];
    assert m[4] == [0, 0, 0, 1, 0];
    SumOfFive(0, 1, 1, 0, 0);
    SumOfFive(1, 0, 1, 0, 0);
    SumOfFive(1, 1, 0, 0, 0);
    SumOfFive(0, 0, 0, 0, 1);
    SumOfFive(0, 0, 0, 1, 0);
  }

  /** The path has no triangle: no three vertices are pairwise adjacent. */
  lemma Path5TriangleFree(a: int, b: int, c: int)
    requires 0 <= a < 5 && 0 <= b < 5 && 0 <= c < 5
    ensures !(Path5()[a][b] == 1 && Path5()[b][c] == 1 && Path5()[a][c] == 1)
  {
  }

  /** The heuristic accepts the path against the triangle with an edge, yet no
      relabelling turns one into the other: a relabelling carries the triangle
      back to three pairwise adjacent vertices of the path. */
  lemma HeuristicFalsePositive()
    ensures IsIsomorphic(Degrees(Path5()), Degrees(TriangleAndEdge()))
    ensures !Isomorphic(Path5(), TriangleAndEdge())
  {
    Path5Degrees();
    TriangleAndEdgeDegrees();
    assert multiset([1, 2, 2, 2, 1]) == multiset([2, 2, 2, 1, 1]);
    if Isomorphic(Path5(), TriangleAndEdge()) {
      var p :| IsPermutation(p, 5) && Relabeled(Path5(), p) == TriangleAndEdge();
      RelabeledIsomorphism(Path5(), p);
      assert TriangleAndEdge()[0][1] == 1 && TriangleAndEdge()[1][2] == 1 && TriangleAndEdge()[0][2] == 1;
      Path5TriangleFree(p[0], p[1], p[2]);
      assert false;
    }
  }

  /** Degree sequences listed in different vertex orders are still accepted. */
  lemma OrderDoesNotMatter()
    ensures IsIsomorphic([1, 2, 2, 1], [1, 2, 1, 2])
    ensures !IsIsomorphic([1, 2, 2, 1], [1, 2, 2, 2])
    ensures !IsIsomorphic([1, 1], [1, 1, 0])
  {
    assert multiset([1, 2, 2, 1]) == multiset([1, 2, 1, 2]);
    assert 2 !in multiset([1, 2, 2, 1]) - multiset{1, 2, 2} ;
    assert multiset([1, 2, 2, 1])[2] == 2 && multiset([1, 2, 2, 2])[2] == 3;
  }
}
