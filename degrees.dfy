/** Degree analysis: `calculateDegrees` (isomorphic.cpp:156-167),
    `sortVerticesByDegree` (isomorphic.cpp:33-49) and the degree-sequence
    heuristic `isIsomorphic` (isomorphic.cpp:168-179). */
module DegreeAnalysis {
  import opened Sequences
  import opened Adjacency

  /** Row sums of the matrix, accumulated cell by cell. */
  method CalculateDegrees(m: Matrix) returns (degrees: seq<int>)
    requires IsSquare(m)
    ensures degrees == Degrees(m)
    ensures |degrees| == |m| && forall i :: 0 <= i < |m| ==> degrees[i] == Sum(m[i])
    ensures IsSimpleGraph(m) ==> Sum(degrees) == 2 * EdgeCount(m)
  {
    var n := |m|;
    degrees := seq(n, _ => 0);
    var i := 0;
    while i < n
      invariant 0 <= i <= n && |degrees| == n
      invariant forall k :: 0 <= k < i ==> degrees[k] == Sum(m[k])
      invariant forall k :: i <= k < n ==> degrees[k] == 0
    {
      var j := 0;
      while j < n
        invariant 0 <= j <= n && |degrees| == n
        invariant degrees[i] == Sum(m[i][..j])
        invariant forall k :: 0 <= k < i ==> degrees[k] == Sum(m[k])
        invariant forall k :: i < k < n ==> degrees[k] == 0
      {
        assert m[i][..j + 1][..j] == m[i][..j];
        degrees := degrees[i := degrees[i] + m[i][j]];
        j := j + 1;
      }
      assert m[i][..n] == m[i];
      i := i + 1;
    }
    if IsSimpleGraph(m) {
      DegreeSum(m);
    }
  }

  /** The keys of `s` never decrease. */
  predicate SortedBy<T>(s: seq<T>, key: T -> int)
  {
    forall i, j :: 0 <= i < j < |s| ==> key(s[i]) <= key(s[j])
  }

  function InsertBy<T>(x: T, s: seq<T>, key: T -> int): (r: seq<T>)
    requires SortedBy(s, key)
    ensures SortedBy(r, key) && multiset(r) == multiset(s) + multiset{x}
    ensures r[0] == x || (s != [] && r[0] == s[0])
    decreases |s|
  {
    if s == [] || key(x) <= key(s[0]) then [x] + s
    else
      var rest := InsertBy(x, s[1..], key);
      assert s == [s[0]] + s[1..];
      assert key(s[0]) <= key(rest[0]);
      [s[0]] + rest
  }

  /** A comparison sort by `key`, standing for `std::sort`: the result is sorted
      by key and is a rearrangement of the input. The order among equal keys
      is whatever the insertion yields; `std::sort` promises none either. */
  function SortBy<T>(s: seq<T>, key: T -> int): (r: seq<T>)
    ensures SortedBy(r, key) && multiset(r) == multiset(s)
    decreases |s|
  {
    if s == [] then []
    else
      assert s == [s[0]] + s[1..];
      InsertBy(s[0], SortBy(s[1..], key), key)
  }

  function Id(x: int): int { x }
  function First(q: (int, int)): int { q.0 }
  function Second(q: (int, int)): int { q.1 }

  /** Reading the vertices out of a degree-sorted rearrangement of the pairs
      (v, degrees[v]) lists every vertex once, by non-decreasing degree. */
  lemma SortedPairsGiveOrder(degrees: seq<int>, initial: seq<(int, int)>, sorted: seq<(int, int)>)
    requires |initial| == |degrees| && forall k :: 0 <= k < |degrees| ==> initial[k] == (k, degrees[k])
    requires multiset(sorted) == multiset(initial) && SortedBy(sorted, Second)
    ensures IsPermutation(Map(First, sorted), |degrees|)
    ensures forall i, j :: 0 <= i < j < |degrees| ==>
              degrees[Map(First, sorted)[i]] <= degrees[Map(First, sorted)[j]]
  {
    assert |sorted| == |multiset(sorted)| == |multiset(initial)| == |degrees|;
    MapPermutation(First, sorted, initial);
    assert forall k :: 0 <= k < |degrees| ==> Map(First, initial)[k] == Range(|degrees|)[k];
    assert Map(First, initial) == Range(|degrees|);
    forall k | 0 <= k < |degrees|
      ensures 0 <= sorted[k].0 < |degrees| && degrees[sorted[k].0] == sorted[k].1
    {
      assert sorted[k] in multiset(initial);
    }
  }

  /** `sortVerticesByDegree`: pair every vertex with its degree, sort the pairs
      by degree, and read the vertices back out in that order. The result lists
      every vertex exactly once, in non-decreasing order of degree. */
  method SortVerticesByDegree(degrees: seq<int>) returns (sortedVertices: seq<int>)
    ensures IsPermutation(sortedVertices, |degrees|)
    ensures forall i, j :: 0 <= i < j < |degrees| ==> degrees[sortedVertices[i]] <= degrees[sortedVertices[j]]
  {
    var vertexDegrees: seq<(int, int)> := [];
    var i := 0;
    while i < |degrees|
      invariant 0 <= i <= |degrees| && |vertexDegrees| == i
      invariant forall k :: 0 <= k < i ==> vertexDegrees[k] == (k, degrees[k])
    {
      vertexDegrees := vertexDegrees + [(i, degrees[i])];
      i := i + 1;
    }
    ghost var initial := vertexDegrees;
    vertexDegrees := SortBy(vertexDegrees, Second);

    sortedVertices := [];
    for k := 0 to |vertexDegrees|
      invariant sortedVertices == Map(First, vertexDegrees[..k])
    {
      assert Map(First, vertexDegrees[..k + 1]) == Map(First, vertexDegrees[..k]) + [vertexDegrees[k].0];
      sortedVertices := sortedVertices + [vertexDegrees[k].0];
    }
    assert vertexDegrees[..|vertexDegrees|] == vertexDegrees;
    SortedPairsGiveOrder(degrees, initial, vertexDegrees);
  }

  /** Two sorted sequences are equal exactly when they hold the same multiset
      of values: sorting forgets nothing but the order. */
  lemma {:induction false} SortedEqualIff(a: seq<int>, b: seq<int>)
    requires SortedBy(a, Id) && SortedBy(b, Id)
    ensures a == b <==> multiset(a) == multiset(b)
    decreases |a|
  {
    if multiset(a) == multiset(b) && a != [] {
      assert |b| == |multiset(b)| == |a|;
      assert a[0] in multiset(b) && b[0] in multiset(a);
      assert a[0] == b[0];
      assert a == [a[0]] + a[1..] && b == [b[0]] + b[1..];
      assert multiset(a[1..]) == multiset(a) - multiset{a[0]};
      assert multiset(b[1..]) == multiset(b) - multiset{b[0]};
      SortedEqualIff(a[1..], b[1..]);
    } else if multiset(a) == multiset(b) {
      assert |b| == |multiset(b)| == 0;
    }
  }

  /** `isIsomorphic`: sizes first, then equality of the sorted copies. This is
      the degree-sequence heuristic: it holds exactly when the two degree
      sequences are equal as multisets. */
  function IsIsomorphic(degrees1: seq<int>, degrees2: seq<int>): (r: bool)
    ensures r <==> |degrees1| == |degrees2| && multiset(degrees1) == multiset(degrees2)
  {
    if |degrees1| != |degrees2| then false
    else
      var sorted1, sorted2 := SortBy(degrees1, Id), SortBy(degrees2, Id);
      SortedEqualIff(sorted1, sorted2);
      sorted1 == sorted2
  }

  /** The heuristic is an equivalence relation on degree sequences. */
  lemma HeuristicIsEquivalence(a: seq<int>, b: seq<int>, c: seq<int>)
    ensures IsIsomorphic(a, a)
    ensures IsIsomorphic(a, b) == IsIsomorphic(b, a)
    ensures IsIsomorphic(a, b) && IsIsomorphic(b, c) ==> IsIsomorphic(a, c)
  {
  }

  /** Graph isomorphism proper: some relabelling turns `a` into `b`. */
  ghost predicate Isomorphic(a: Matrix, b: Matrix)
  {
    IsSquare(a) && exists p :: IsPermutation(p, |a|) && Relabeled(a, p) == b
  }

  /** The heuristic is a necessary condition: isomorphic graphs pass it. */
  lemma IsomorphicPassesHeuristic(a: Matrix, b: Matrix)
    requires IsSimpleGraph(a) && Isomorphic(a, b)
    ensures IsIsomorphic(Degrees(a), Degrees(b))
  {
    var p :| IsPermutation(p, |a|) && Relabeled(a, p) == b;
    RelabeledInvariants(a, p);
  }
}
