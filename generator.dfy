/** `generateRandomGraph` (isomorphic.cpp:100-122): rejection sampling of
    vertex pairs into an initially empty adjacency matrix. */
module Generator {
  import opened Adjacency

  /** The random engine is replaced by the sequence `draws` of pairs it would
      produce; each draw is what the two `uniform_int_distribution(0, n - 1)`
      calls return. A draw is accepted exactly when its two vertices differ and
      are not yet adjacent; every acceptance writes both symmetric cells and
      counts the requested edge total down by one. The loop ends when that count
      reaches 0, or when the supplied draws run out (`remaining` then says how
      many edges are still missing). The edges of the result are exactly the
      pairs of distinct vertices among the `used` draws consumed. */
  method GenerateRandomGraph(numVertices: nat, numEdges: nat, draws: seq<(int, int)>)
    returns (m: Matrix, remaining: nat, used: nat)
    requires forall k :: 0 <= k < |draws| ==> 0 <= draws[k].0 < numVertices && 0 <= draws[k].1 < numVertices
    ensures IsSimpleGraph(m) && |m| == numVertices
    ensures EdgeCount(m) + remaining == numEdges
    ensures used <= |draws| && (remaining == 0 || used == |draws|)
    ensures forall i, j :: 0 <= i < numVertices && 0 <= j < numVertices && m[i][j] == 1 ==>
              exists k :: 0 <= k < used && (draws[k] == (i, j) || draws[k] == (j, i))
    ensures forall k :: 0 <= k < used && draws[k].0 != draws[k].1 ==> m[draws[k].0][draws[k].1] == 1
  {
    m := ZeroMatrix(numVertices);
    ZeroMatrixIsEmptyGraph(numVertices);
    remaining, used := numEdges, 0;
    while remaining > 0 && used < |draws|
      invariant IsSimpleGraph(m) && |m| == numVertices
      invariant EdgeCount(m) + remaining == numEdges
      invariant used <= |draws|
      invariant EdgesFromDraws(m, draws, used) && DrawsCovered(m, draws, used)
    {
      var (v1, v2) := draws[used];
      if v1 != v2 && m[v1][v2] == 0 {
        ghost var before := m;
        AddEdge(m, v1, v2);
        DrawAccepted(m, draws, used);
        m := m[v1 := m[v1][v2 := 1]];
        m := m[v2 := m[v2][v1 := 1]];
        assert m == WithEdge(before, v1, v2);
        remaining := remaining - 1;
      } else {
        DrawRejected(m, draws, used);
      }
      used := used + 1;
    }
  }

  /** Every 1 of `m` comes from one of the first `used` draws. */
  ghost predicate EdgesFromDraws(m: Matrix, draws: seq<(int, int)>, used: nat)
    requires IsSquare(m) && used <= |draws|
  {
    forall i, j :: 0 <= i < |m| && 0 <= j < |m| && m[i][j] == 1 ==>
      exists k :: 0 <= k < used && (draws[k] == (i, j) || draws[k] == (j, i))
  }

  /** Every draw of two distinct vertices among the first `used` is an edge of `m`. */
  predicate DrawsCovered(m: Matrix, draws: seq<(int, int)>, used: nat)
    requires IsSquare(m) && used <= |draws|
    requires forall k :: 0 <= k < |draws| ==> 0 <= draws[k].0 < |m| && 0 <= draws[k].1 < |m|
  {
    forall k :: 0 <= k < used && draws[k].0 != draws[k].1 ==> m[draws[k].0][draws[k].1] == 1
  }

  /** Accepting a draw keeps both links between the edges and the draws. */
  lemma DrawAccepted(m: Matrix, draws: seq<(int, int)>, used: nat)
    requires IsSimpleGraph(m) && used < |draws|
    requires forall k :: 0 <= k < |draws| ==> 0 <= draws[k].0 < |m| && 0 <= draws[k].1 < |m|
    requires draws[used].0 != draws[used].1 && m[draws[used].0][draws[used].1] == 0
    requires EdgesFromDraws(m, draws, used) && DrawsCovered(m, draws, used)
    ensures IsSquare(WithEdge(m, draws[used].0, draws[used].1))
    ensures EdgesFromDraws(WithEdge(m, draws[used].0, draws[used].1), draws, used + 1)
    ensures DrawsCovered(WithEdge(m, draws[used].0, draws[used].1), draws, used + 1)
  {
    var a, b := draws[used].0, draws[used].1;
    AddEdge(m, a, b);
    var next := WithEdge(m, a, b);
    forall i, j | 0 <= i < |m| && 0 <= j < |m| && next[i][j] == 1
      ensures exists k :: 0 <= k < used + 1 && (draws[k] == (i, j) || draws[k] == (j, i))
    {
      if (i == a && j == b) || (i == b && j == a) {
        assert draws[used] == (i, j) || draws[used] == (j, i);
      } else {
        assert m[i][j] == 1;
        var k :| 0 <= k < used && (draws[k] == (i, j) || draws[k] == (j, i));
        assert 0 <= k < used + 1;
      }
    }
    forall k | 0 <= k < used + 1 && draws[k].0 != draws[k].1
      ensures next[draws[k].0][draws[k].1] == 1
    {
      if k < used {
        assert m[draws[k].0][draws[k].1] == 1;
      }
    }
  }

  /** Rejecting a draw keeps both links: it repeats a vertex, or its pair is
      already an edge. */
  lemma DrawRejected(m: Matrix, draws: seq<(int, int)>, used: nat)
    requires IsSimpleGraph(m) && used < |draws|
    requires forall k :: 0 <= k < |draws| ==> 0 <= draws[k].0 < |m| && 0 <= draws[k].1 < |m|
    requires draws[used].0 == draws[used].1 || m[draws[used].0][draws[used].1] == 1
    requires EdgesFromDraws(m, draws, used) && DrawsCovered(m, draws, used)
    ensures EdgesFromDraws(m, draws, used + 1) && DrawsCovered(m, draws, used + 1)
  {
  }
}
