/** The comparison that follows a completed drawing (isomorphic.cpp:486-583):
    one random graph, relabelled into graph 1, a copy of graph 1 relabelled
    again into graph 2, and the heuristic verdict of the user's degrees against
    each. */
module Comparison {
  import opened Sequences
  import opened Adjacency
  import opened Generator
  import opened Shuffler
  import opened DegreeAnalysis
  import opened EdgeEditor

  /** The random choices are parameters: `draws` for the generator and the
      permutations `p1`, `p2` for the two shuffles. Both random graphs have the
      same degree multiset and the same edge count, so the two verdicts always
      agree, and each verdict is multiset equality with the user's degrees.
      Both graphs have the requested number of edges less `missing`, the
      edges the generator could not place before the supplied draws ran out
      (none when the draws suffice, as `GeneratorCanProgress` makes possible
      for every accepted input). */
  method CompareWithRandomGraphs(userDegrees: seq<int>, numVertices: nat, numEdges: nat,
                                 draws: seq<(int, int)>, p1: seq<int>, p2: seq<int>)
    returns (graph1: Matrix, graph2: Matrix, missing: nat, verdict1: bool, verdict2: bool)
    requires forall k :: 0 <= k < |draws| ==> 0 <= draws[k].0 < numVertices && 0 <= draws[k].1 < numVertices
    requires IsPermutation(p1, numVertices) && IsPermutation(p2, numVertices)
    ensures IsSimpleGraph(graph1) && IsSimpleGraph(graph2) && |graph1| == |graph2| == numVertices
    ensures EdgeCount(graph1) == EdgeCount(graph2) && EdgeCount(graph1) + missing == numEdges
    ensures forall i, j :: 0 <= i < numVertices && 0 <= j < numVertices ==> graph2[i][j] == graph1[p2[i]][p2[j]]
    ensures multiset(Degrees(graph1)) == multiset(Degrees(graph2))
    ensures verdict1 <==> |userDegrees| == numVertices && multiset(userDegrees) == multiset(Degrees(graph1))
    ensures verdict1 == verdict2
  {
    var generated, remaining, used := GenerateRandomGraph(numVertices, numEdges, draws);
    missing := remaining;
    graph1 := ShuffleVertices(generated, p1);
    var degrees1 := CalculateDegrees(graph1);
    var sortedVertices1 := SortVerticesByDegree(degrees1);
    graph2 := graph1;
    graph2 := ShuffleVertices(graph2, p2);
    var degrees2 := CalculateDegrees(graph2);
    var sortedVertices2 := SortVerticesByDegree(degrees2);
    verdict1 := IsIsomorphic(userDegrees, degrees1);
    verdict2 := IsIsomorphic(userDegrees, degrees2);
  }

  /** For input the prompts accept, the generator's loop never gets stuck:
      while edges remain to be placed, some pair of distinct vertices is still
      free, so some draw is accepted. */
  lemma GeneratorCanProgress(m: Matrix, numVertices: int, numEdges: int, remaining: nat)
    requires ValidInput(numVertices, numEdges)
    requires IsSimpleGraph(m) && |m| == numVertices
    requires EdgeCount(m) + remaining == numEdges && remaining > 0
    ensures exists i, j :: 0 <= i < j < numVertices && m[i][j] == 0
  {
    FreePairExists(m);
  }
}
