/** The editing bookkeeping of `main` (isomorphic.cpp:300-301, 311-486): the
    accepted input bounds, the mode flags, hit resolution, the per-vertex
    connection sets, the degree counters and the drawn-edge counter. */
module EdgeEditor {
  import opened Sequences
  import opened Labels

  /** Largest edge count the prompt accepts, `min(n(n-1)/2, 10)`: the number
      of vertex pairs, capped at 10. */
  function MaxEdges(n: int): (r: int)
    ensures r <= 10 && r <= n * (n - 1) / 2
    ensures r == 10 || r == n * (n - 1) / 2
  {
    var pairs := n * (n - 1) / 2;
    if pairs <= 10 then pairs else 10
  }

  /** The vertex and edge counts the two prompts let through (4 to 10
      vertices, 4 to `MaxEdges` edges). Accepted input never asks for more
      edges than a simple graph on that many vertices has room for, which is
      what the random generator relies on. */
  predicate ValidInput(numVertices: int, numEdges: int): (ok: bool)
    ensures ok ==> 4 <= numEdges <= 10 && 2 * numEdges <= numVertices * (numVertices - 1)
  {
    4 <= numVertices <= 10 && 4 <= numEdges <= MaxEdges(numVertices)
  }

  // ---- The drawn multigraph (ghost bookkeeping) ----

  /** What edge `e` adds to the degree of `v`: one per endpoint, so a loop
      (v, v) adds 2 to v. */
  function Contribution(e: (int, int), v: int): int
  {
    (if e.0 == v then 1 else 0) + (if e.1 == v then 1 else 0)
  }

  /** Degree of `v` in the multigraph of the drawn edges. */
  function DegreeOf(edges: seq<(int, int)>, v: int): int
    decreases |edges|
  {
    if edges == [] then 0
    else DegreeOf(edges[..|edges| - 1], v) + Contribution(edges[|edges| - 1], v)
  }

  /** What edge `e` adds to the counter `degrees[v]` of the source: a straight
      or curved edge adds one per endpoint, a loop adds 2 to the vertex its
      label's first digit names. */
  function CreditedContribution(e: (int, int), v: int): int
  {
    if e.0 != e.1 then Contribution(e, v)
    else if e.0 >= 0 && LoopCreditIndex(e.0) == v then 2
    else 0
  }

  function CreditedDegree(edges: seq<(int, int)>, v: int): int
    decreases |edges|
  {
    if edges == [] then 0
    else CreditedDegree(edges[..|edges| - 1], v) + CreditedContribution(edges[|edges| - 1], v)
  }

  /** While no loop sits on a vertex whose number has two digits, the counters
      are the true degrees of the drawn multigraph; straight edges and curves
      are credited correctly at every vertex. */
  lemma {:induction false} CreditedIsDegree(edges: seq<(int, int)>, v: int)
    requires forall k :: 0 <= k < |edges| ==>
               0 <= edges[k].0 && 0 <= edges[k].1 && (edges[k].0 == edges[k].1 ==> edges[k].0 < 9)
    ensures CreditedDegree(edges, v) == DegreeOf(edges, v)
    decreases |edges|
  {
    if edges != [] {
      CreditedIsDegree(edges[..|edges| - 1], v);
    }
  }

  /** A loop on the tenth vertex (label "10") raises the first vertex's counter
      by 2 and leaves its own at 0, although its true degree is 2. */
  lemma LoopOnTenthVertex()
    ensures CreditedDegree([(9, 9)], 9) == 0 && CreditedDegree([(9, 9)], 0) == 2
    ensures DegreeOf([(9, 9)], 9) == 2 && DegreeOf([(9, 9)], 0) == 0
  {
    TenthVertexMiscredited();
    assert [(9, 9)][..0] == [];
  }

  /** The intended credit: a loop adds 2 to the vertex whose whole label it
      carries, read as a number minus one. */
  function IntendedContribution(e: (int, int), v: int): int
  {
    if e.0 != e.1 then Contribution(e, v)
    else if e.0 >= 0 && LabelIndex(VertexLabel(e.0)) == v then 2
    else 0
  }

  function IntendedDegree(edges: seq<(int, int)>, v: int): int
    decreases |edges|
  {
    if edges == [] then 0
    else IntendedDegree(edges[..|edges| - 1], v) + IntendedContribution(edges[|edges| - 1], v)
  }

  /** With the intended credit the counters are the true degrees for every
      vertex count, the tenth vertex included. */
  lemma {:induction false} IntendedIsDegree(edges: seq<(int, int)>, v: int)
    requires forall k :: 0 <= k < |edges| ==> 0 <= edges[k].0 && 0 <= edges[k].1
    ensures IntendedDegree(edges, v) == DegreeOf(edges, v)
    decreases |edges|
  {
    if edges != [] {
      var e := edges[|edges| - 1];
      IntendedIsDegree(edges[..|edges| - 1], v);
      LabelIndexRoundTrip(e.0);
    }
  }

  /** Number of drawn edges, straight or curved, between u and v. */
  function PairCount(edges: seq<(int, int)>, u: int, v: int): nat
    decreases |edges|
  {
    if edges == [] then 0
    else
      var e := edges[|edges| - 1];
      PairCount(edges[..|edges| - 1], u, v) + (if e == (u, v) || e == (v, u) then 1 else 0)
  }

  lemma {:induction false} PairCountSymmetric(edges: seq<(int, int)>, u: int, v: int)
    ensures PairCount(edges, u, v) == PairCount(edges, v, u)
    decreases |edges|
  {
    if edges != [] {
      PairCountSymmetric(edges[..|edges| - 1], u, v);
    }
  }

  /** The counters are the credited degrees of the drawn edges. */
  predicate CountersMatch(degrees: seq<int>, drawn: seq<(int, int)>)
  {
    forall v :: 0 <= v < |degrees| ==> degrees[v] == CreditedDegree(drawn, v)
  }

  /** A pair of distinct vertices is cross-listed exactly when at least one
      edge joins it, and no vertex lists itself: the only update of the sets
      the program runs is the straight-edge insert (isomorphic.cpp:451). */
  predicate ConnectionsMatch(connectedDots: seq<set<int>>, drawn: seq<(int, int)>)
  {
    forall u, v :: 0 <= u < |connectedDots| && 0 <= v < |connectedDots| ==>
      (v in connectedDots[u] <==> u != v && PairCount(drawn, u, v) >= 1)
  }

  /** Cross-connection is symmetric: both ends list each other or neither does. */
  lemma ConnectionsSymmetric(connectedDots: seq<set<int>>, drawn: seq<(int, int)>, s: int, e: int)
    requires ConnectionsMatch(connectedDots, drawn)
    requires 0 <= s < |connectedDots| && 0 <= e < |connectedDots|
    ensures e in connectedDots[s] <==> s in connectedDots[e]
  {
    PairCountSymmetric(drawn, s, e);
  }

  /** Drawing an edge between two distinct vertices adds one to each of their
      counters and nothing to any other. */
  lemma EdgeKeepsCounters(degrees: seq<int>, drawn: seq<(int, int)>, s: int, e: int)
    requires CountersMatch(degrees, drawn) && 0 <= s < |degrees| && 0 <= e < |degrees| && s != e
    ensures CountersMatch(degrees[s := degrees[s] + 1][e := degrees[e] + 1], drawn + [(s, e)])
    ensures Sum(degrees[s := degrees[s] + 1][e := degrees[e] + 1]) == Sum(degrees) + 2
  {
    SumUpdate(degrees, s, 1);
    SumUpdate(degrees[s := degrees[s] + 1], e, 1);
    assert (drawn + [(s, e)])[..|drawn|] == drawn;
  }

  /** A loop on `k` adds 2 to the counter its label names and nothing else. */
  lemma LoopKeepsCounters(degrees: seq<int>, drawn: seq<(int, int)>, k: nat)
    requires CountersMatch(degrees, drawn) && k < |degrees|
    ensures LoopCreditIndex(k) < |degrees|
    ensures CountersMatch(degrees[LoopCreditIndex(k) := degrees[LoopCreditIndex(k)] + 2], drawn + [(k, k)])
    ensures Sum(degrees[LoopCreditIndex(k) := degrees[LoopCreditIndex(k)] + 2]) == Sum(degrees) + 2
  {
    SumUpdate(degrees, LoopCreditIndex(k), 2);
    assert (drawn + [(k, k)])[..|drawn|] == drawn;
  }

  /** A loop changes no cross-connection count. */
  lemma LoopKeepsConnections(connectedDots: seq<set<int>>, drawn: seq<(int, int)>, k: int)
    requires ConnectionsMatch(connectedDots, drawn)
    ensures ConnectionsMatch(connectedDots, drawn + [(k, k)])
  {
    assert (drawn + [(k, k)])[..|drawn|] == drawn;
  }

  /** The connection sets after a stroke between `s` and `e`, as the program
      runs: a straight edge, taken when neither end lists the other, inserts
      each end into the other's set (isomorphic.cpp:451). The erase and insert
      calls of the curve branch stand on a line that begins with `//`
      (isomorphic.cpp:477), so a curve leaves the sets as they are. */
  function SetsAfterStroke(connectedDots: seq<set<int>>, s: int, e: int): (r: seq<set<int>>)
    requires 0 <= s < |connectedDots| && 0 <= e < |connectedDots|
    ensures |r| == |connectedDots|
    ensures forall w :: 0 <= w < |r| && w != s && w != e ==> r[w] == connectedDots[w]
  {
    if e !in connectedDots[s] && s !in connectedDots[e] then
      connectedDots[s := connectedDots[s] + {e}][e := connectedDots[e] + {s}]
    else connectedDots
  }

  /** A stroke between two distinct vertices is straight exactly when it is the
      first edge between them, and it keeps the connection invariant. Every
      later stroke between the same pair is therefore a curve. */
  lemma StrokeKeepsConnections(connectedDots: seq<set<int>>, drawn: seq<(int, int)>, s: int, e: int)
    requires ConnectionsMatch(connectedDots, drawn)
    requires 0 <= s < |connectedDots| && 0 <= e < |connectedDots| && s != e
    ensures (e !in connectedDots[s] && s !in connectedDots[e]) <==> PairCount(drawn, s, e) == 0
    ensures ConnectionsMatch(SetsAfterStroke(connectedDots, s, e), drawn + [(s, e)])
  {
    assert (drawn + [(s, e)])[..|drawn|] == drawn;
    PairCountSymmetric(drawn, s, e);
  }

  /** Three strokes between vertices 1 and 2 on a fresh board of four: the
      first is straight, and it leaves the pair cross-listed for good, so the
      second and the third are both curves. */
  lemma RepeatedStrokesStayCurved()
    ensures var c0: seq<set<int>> := seq(4, _ => {});
            var c1 := SetsAfterStroke(c0, 0, 1);
            var c2 := SetsAfterStroke(c1, 0, 1);
            1 !in c0[0] && 1 in c1[0] && 1 in c2[0] && c2 == c1
  {
  }

  // ---- The intended alternation of straight edges and curves ----

  /** Cross-listed exactly when an odd number of edges joins the pair; what a
      vertex lists about itself is left open. */
  predicate ParityMatch(connectedDots: seq<set<int>>, drawn: seq<(int, int)>)
  {
    forall u, v :: 0 <= u < |connectedDots| && 0 <= v < |connectedDots| && u != v ==>
      (v in connectedDots[u] <==> PairCount(drawn, u, v) % 2 == 1)
  }

  /** The sets after a stroke with the erase and insert calls of the curve
      branch executed: a curve removes the cross entries and puts each end into
      its own set. */
  function IntendedSetsAfterStroke(connectedDots: seq<set<int>>, s: int, e: int): (r: seq<set<int>>)
    requires 0 <= s < |connectedDots| && 0 <= e < |connectedDots|
    ensures |r| == |connectedDots|
    ensures forall w :: 0 <= w < |r| && w != s && w != e ==> r[w] == connectedDots[w]
  {
    if e !in connectedDots[s] && s !in connectedDots[e] then
      connectedDots[s := connectedDots[s] + {e}][e := connectedDots[e] + {s}]
    else if e in connectedDots[s] && s in connectedDots[e] then
      connectedDots[s := connectedDots[s] - {e} + {s}][e := connectedDots[e] - {s} + {e}]
    else connectedDots
  }

  /** With the curve branch's updates executed, strokes between a pair
      alternate: a stroke is straight exactly when an even number of edges
      already joins the pair, and the parity invariant is kept. */
  lemma IntendedStrokesAlternate(connectedDots: seq<set<int>>, drawn: seq<(int, int)>, s: int, e: int)
    requires ParityMatch(connectedDots, drawn)
    requires 0 <= s < |connectedDots| && 0 <= e < |connectedDots| && s != e
    ensures (e !in connectedDots[s] && s !in connectedDots[e]) <==> PairCount(drawn, s, e) % 2 == 0
    ensures ParityMatch(IntendedSetsAfterStroke(connectedDots, s, e), drawn + [(s, e)])
  {
    PairCountSymmetric(drawn, s, e);
    if e !in connectedDots[s] && s !in connectedDots[e] {
      IntendedStraightKeepsParity(connectedDots, drawn, s, e);
    } else {
      IntendedCurveKeepsParity(connectedDots, drawn, s, e);
    }
  }

  lemma IntendedStraightKeepsParity(connectedDots: seq<set<int>>, drawn: seq<(int, int)>, s: int, e: int)
    requires ParityMatch(connectedDots, drawn)
    requires 0 <= s < |connectedDots| && 0 <= e < |connectedDots| && s != e
    requires e !in connectedDots[s] && s !in connectedDots[e]
    ensures ParityMatch(IntendedSetsAfterStroke(connectedDots, s, e), drawn + [(s, e)])
  {
    assert (drawn + [(s, e)])[..|drawn|] == drawn;
    PairCountSymmetric(drawn, s, e);
  }

  lemma IntendedCurveKeepsParity(connectedDots: seq<set<int>>, drawn: seq<(int, int)>, s: int, e: int)
    requires ParityMatch(connectedDots, drawn)
    requires 0 <= s < |connectedDots| && 0 <= e < |connectedDots| && s != e
    requires e in connectedDots[s]
    ensures ParityMatch(IntendedSetsAfterStroke(connectedDots, s, e), drawn + [(s, e)])
  {
    assert (drawn + [(s, e)])[..|drawn|] == drawn;
    PairCountSymmetric(drawn, s, e);
  }

  /** The same three strokes with the intended updates: straight, curve,
      straight. */
  lemma IntendedThirdStrokeIsStraight()
    ensures var c0: seq<set<int>> := seq(4, _ => {});
            var c1 := IntendedSetsAfterStroke(c0, 0, 1);
            var c2 := IntendedSetsAfterStroke(c1, 0, 1);
            1 !in c0[0] && 1 in c1[0] && 1 !in c2[0] && 0 !in c2[1]
  {
  }

  /** The bookkeeping agrees with the drawn edges: the counters are their
      credited degrees and add up to twice their number, and the connection
      sets list exactly the pairs joined by at least one of them. */
  ghost predicate Consistent(numVertices: nat, degrees: seq<int>, connectedDots: seq<set<int>>,
                             numDrawnEdges: nat, drawn: seq<(int, int)>)
  {
    |degrees| == numVertices && |connectedDots| == numVertices &&
    |drawn| == numDrawnEdges &&
    (forall k :: 0 <= k < |drawn| ==> 0 <= drawn[k].0 < numVertices && 0 <= drawn[k].1 < numVertices) &&
    CountersMatch(degrees, drawn) &&
    Sum(degrees) == 2 * numDrawnEdges &&
    ConnectionsMatch(connectedDots, drawn)
  }

  /** A straight edge or curve between two distinct vertices keeps the
      bookkeeping consistent. */
  lemma StrokeKeepsConsistent(numVertices: nat, degrees: seq<int>, connectedDots: seq<set<int>>,
                              numDrawnEdges: nat, drawn: seq<(int, int)>, s: int, e: int)
    requires Consistent(numVertices, degrees, connectedDots, numDrawnEdges, drawn)
    requires 0 <= s < numVertices && 0 <= e < numVertices && s != e
    ensures Consistent(numVertices, degrees[s := degrees[s] + 1][e := degrees[e] + 1],
                       SetsAfterStroke(connectedDots, s, e), numDrawnEdges + 1, drawn + [(s, e)])
  {
    StrokeKeepsConnections(connectedDots, drawn, s, e);
    EdgeKeepsCounters(degrees, drawn, s, e);
  }

  /** A loop on vertex `k` keeps the bookkeeping consistent. */
  lemma LoopKeepsConsistent(numVertices: nat, degrees: seq<int>, connectedDots: seq<set<int>>,
                            numDrawnEdges: nat, drawn: seq<(int, int)>, k: nat)
    requires Consistent(numVertices, degrees, connectedDots, numDrawnEdges, drawn)
    requires k < numVertices
    ensures LoopCreditIndex(k) < numVertices
    ensures Consistent(numVertices, degrees[LoopCreditIndex(k) := degrees[LoopCreditIndex(k)] + 2],
                       connectedDots, numDrawnEdges + 1, drawn + [(k, k)])
  {
    LoopKeepsCounters(degrees, drawn, k);
    LoopKeepsConnections(connectedDots, drawn, k);
  }

  // ---- Hit testing ----

  /** No vertex among the first `upTo` is hit. */
  predicate NoHit(hits: seq<bool>, upTo: int)
    requires 0 <= upTo <= |hits|
  {
    forall i :: 0 <= i < upTo ==> !hits[i]
  }

  /** `k` is the last hit vertex among the first `upTo`. */
  predicate IsLastHit(hits: seq<bool>, k: int, upTo: int)
    requires 0 <= upTo <= |hits|
  {
    0 <= k < upTo && hits[k] && forall i :: k < i < upTo ==> !hits[i]
  }

  /** `k` is the first hit vertex. */
  predicate IsFirstHit(hits: seq<bool>, k: int)
  {
    0 <= k < |hits| && hits[k] && forall i :: 0 <= i < k ==> !hits[i]
  }

  /** The vertices that can become the end of a stroke: those containing the
      release point but not the press point (the `else if` of the scan). */
  function EndHits(containsStart: seq<bool>, containsEnd: seq<bool>): seq<bool>
    requires |containsStart| == |containsEnd|
  {
    seq(|containsStart|, i requires 0 <= i < |containsStart| => !containsStart[i] && containsEnd[i])
  }

  /** The scan on release (isomorphic.cpp:419-431): the last vertex containing
      the press point becomes the start, the last other vertex containing the
      release point the end. A vertex containing the press point is never the
      end, so two resolved endpoints always differ. */
  method ResolveHits(containsStart: seq<bool>, containsEnd: seq<bool>) returns (startDot: int, endDot: int)
    requires |containsStart| == |containsEnd|
    ensures var n := |containsStart|;
      (startDot == -1 && NoHit(containsStart, n)) || IsLastHit(containsStart, startDot, n)
    ensures var ends := EndHits(containsStart, containsEnd);
      (endDot == -1 && NoHit(ends, |ends|)) || IsLastHit(ends, endDot, |ends|)
    ensures startDot != -1 && endDot != -1 ==> startDot != endDot
  {
    ghost var ends := EndHits(containsStart, containsEnd);
    startDot, endDot := -1, -1;
    for i := 0 to |containsStart|
      invariant (startDot == -1 && NoHit(containsStart, i)) || IsLastHit(containsStart, startDot, i)
      invariant (endDot == -1 && NoHit(ends, i)) || IsLastHit(ends, endDot, i)
    {
      if containsStart[i] {
        startDot := i;
      } else if containsEnd[i] {
        endDot := i;
      }
    }
  }

  /** The scan on a loop-mode press (isomorphic.cpp:371-396): the first vertex
      containing the press point, or -1; the `break` stops at the first one. */
  method FirstHit(hits: seq<bool>) returns (k: int)
    ensures (k == -1 && NoHit(hits, |hits|)) || IsFirstHit(hits, k)
  {
    k := -1;
    var i := 0;
    while i < |hits|
      invariant 0 <= i <= |hits| && k == -1 && NoHit(hits, i)
    {
      if hits[i] {
        k := i;
        break;
      }
      i := i + 1;
    }
  }

  // ---- The editor ----

  /** What a release in drawing mode added. */
  datatype Stroke = NoStroke | StraightEdge(u: int, v: int) | CurvedEdge(u: int, v: int)

  /** The local state of `main` that the event loop updates. Positions are
      abstracted away: each press or release comes with the vertices whose
      bounds contain the relevant point. */
  class Editor {
    const numVertices: nat
    const numEdges: nat
    var degrees: seq<int>
    var connectedDots: seq<set<int>>
    var numDrawnEdges: nat
    var drawingMode: bool
    var loopMode: bool
    var isDrawing: bool
    /** Every edge drawn so far, in order; a loop on v is (v, v). */
    ghost var drawn: seq<(int, int)>

    ghost predicate Valid()
      reads this
    {
      ValidInput(numVertices, numEdges) &&
      !(drawingMode && loopMode) &&
      Consistent(numVertices, degrees, connectedDots, numDrawnEdges, drawn)
    }

    /** Set-up after the prompts (isomorphic.cpp:311-321): zero degrees, empty
        connection sets, drawing mode on, loop mode off. */
    constructor (n: nat, e: nat)
      requires ValidInput(n, e)
      ensures Valid()
      ensures numVertices == n && numEdges == e
      ensures degrees == seq(n, _ => 0) && connectedDots == seq(n, _ => {})
      ensures numDrawnEdges == 0 && drawn == []
      ensures drawingMode && !loopMode && !isDrawing
    {
      numVertices, numEdges := n, e;
      degrees := seq(n, _ => 0);
      connectedDots := seq(n, _ => {});
      numDrawnEdges := 0;
      drawingMode, loopMode, isDrawing := true, false, false;
      drawn := [];
      SumOfZeros(n);
    }

    /** Space (isomorphic.cpp:347-351): toggle drawing mode, leave loop mode. */
    method PressSpace()
      requires Valid()
      modifies this
      ensures Valid()
      ensures drawingMode == !old(drawingMode) && !loopMode && isDrawing == old(isDrawing)
      ensures degrees == old(degrees) && connectedDots == old(connectedDots)
      ensures numDrawnEdges == old(numDrawnEdges) && drawn == old(drawn)
    {
      drawingMode := !drawingMode;
      loopMode := false;
    }

    /** L (isomorphic.cpp:352-356): toggle loop mode, leave drawing mode. */
    method PressL()
      requires Valid()
      modifies this
      ensures Valid()
      ensures loopMode == !old(loopMode) && !drawingMode && isDrawing == old(isDrawing)
      ensures degrees == old(degrees) && connectedDots == old(connectedDots)
      ensures numDrawnEdges == old(numDrawnEdges) && drawn == old(drawn)
    {
      loopMode := !loopMode;
      drawingMode := false;
    }

    /** Left-button press (isomorphic.cpp:357-413). In drawing mode it starts a
        stroke. In loop mode, while fewer than `numEdges` edges are drawn, it
        puts one loop on the first vertex hit, counts it, and adds 2 to the
        counter its label names; `loopAt` is that vertex, or -1. In move mode it
        only starts a drag, which touches nothing modelled here. */
    method PressMouse(containsMouse: seq<bool>) returns (loopAt: int)
      requires Valid() && |containsMouse| == numVertices
      modifies this
      ensures Valid()
      ensures drawingMode == old(drawingMode) && loopMode == old(loopMode)
      ensures isDrawing == (old(isDrawing) || old(drawingMode))
      ensures connectedDots == old(connectedDots)
      ensures loopAt == -1 <==>
                !old(loopMode) || old(numDrawnEdges) >= numEdges || NoHit(containsMouse, numVertices)
      ensures loopAt == -1 ==>
                degrees == old(degrees) && numDrawnEdges == old(numDrawnEdges) && drawn == old(drawn)
      ensures loopAt != -1 ==>
                IsFirstHit(containsMouse, loopAt) &&
                numDrawnEdges == old(numDrawnEdges) + 1 && drawn == old(drawn) + [(loopAt, loopAt)] &&
                |degrees| == numVertices &&
                forall v :: 0 <= v < numVertices ==>
                  degrees[v] == old(degrees)[v] + if v == LoopCreditIndex(loopAt) then 2 else 0
    {
      loopAt := -1;
      if drawingMode && !loopMode {
        isDrawing := true;
      } else if loopMode {
        if numDrawnEdges < numEdges {
          var k := FirstHit(containsMouse);
          if k != -1 {
            var credited := LoopCreditIndex(k);
            LoopKeepsConsistent(numVertices, degrees, connectedDots, numDrawnEdges, drawn, k);
            degrees := degrees[credited := degrees[credited] + 2];
            numDrawnEdges := numDrawnEdges + 1;
            drawn := drawn + [(k, k)];
            loopAt := k;
          }
        }
      }
    }

    /** The edge-adding part of a release between two distinct resolved
        endpoints (isomorphic.cpp:432-482): a straight edge when neither lists
        the other, a curve when both do; cross-listing is symmetric, so one of
        the two always applies. Only the straight edge changes the sets. */
    method Connect(s: int, e: int) returns (stroke: Stroke)
      requires Valid() && 0 <= s < numVertices && 0 <= e < numVertices && s != e
      modifies this
      ensures Valid()
      ensures drawingMode == old(drawingMode) && loopMode == old(loopMode) && isDrawing == old(isDrawing)
      ensures stroke != NoStroke && stroke.u == s && stroke.v == e
      ensures stroke.StraightEdge? <==> e !in old(connectedDots)[s]
      ensures stroke.StraightEdge? <==> PairCount(old(drawn), s, e) == 0
      ensures numDrawnEdges == old(numDrawnEdges) + 1 &&
                drawn == old(drawn) + [(s, e)] &&
                degrees == old(degrees)[s := old(degrees)[s] + 1][e := old(degrees)[e] + 1]
      ensures connectedDots == SetsAfterStroke(old(connectedDots), s, e)
    {
      ConnectionsSymmetric(connectedDots, drawn, s, e);
      StrokeKeepsConnections(connectedDots, drawn, s, e);
      StrokeKeepsConsistent(numVertices, degrees, connectedDots, numDrawnEdges, drawn, s, e);
      var sets := connectedDots;
      stroke := NoStroke;
      if e !in sets[s] && s !in sets[e] {
        sets := sets[s := sets[s] + {e}][e := sets[e] + {s}];
        stroke := StraightEdge(s, e);
      } else if e in sets[s] && s in sets[e] {
        stroke := CurvedEdge(s, e);
      }
      connectedDots := sets;
      degrees := degrees[s := degrees[s] + 1][e := degrees[e] + 1];
      numDrawnEdges := numDrawnEdges + 1;
      drawn := drawn + [(s, e)];
    }

    /** Left-button release (isomorphic.cpp:414-486). In drawing mode with a
        stroke under way it resolves the endpoints; two distinct endpoints that
        are not cross-listed get a straight edge and become cross-listed, two
        that are get a curve and the sets stay as they are. Either way both
        counters and the edge count go up by 1.
        The stroke ends, and `complete` reports the check for `numEdges` drawn
        edges that starts the comparison. Outside drawing mode it only ends a
        drag. */
    method ReleaseMouse(containsStart: seq<bool>, containsEnd: seq<bool>) returns (stroke: Stroke, complete: bool)
      requires Valid() && |containsStart| == numVertices && |containsEnd| == numVertices
      modifies this
      ensures Valid()
      ensures drawingMode == old(drawingMode) && loopMode == old(loopMode)
      ensures isDrawing == (old(isDrawing) && !old(drawingMode))
      ensures complete <==> old(drawingMode) && old(isDrawing) && numDrawnEdges == numEdges
      ensures old(numDrawnEdges) > numEdges ==> !complete
      ensures stroke != NoStroke <==>
                old(drawingMode) && old(isDrawing) &&
                !NoHit(containsStart, numVertices) && !NoHit(EndHits(containsStart, containsEnd), numVertices)
      ensures stroke != NoStroke ==>
                IsLastHit(containsStart, stroke.u, numVertices) &&
                IsLastHit(EndHits(containsStart, containsEnd), stroke.v, numVertices)
      ensures stroke == NoStroke ==>
                degrees == old(degrees) && connectedDots == old(connectedDots) &&
                numDrawnEdges == old(numDrawnEdges) && drawn == old(drawn)
      ensures stroke != NoStroke ==>
                (stroke.StraightEdge? <==> stroke.v !in old(connectedDots)[stroke.u]) &&
                numDrawnEdges == old(numDrawnEdges) + 1 &&
                drawn == old(drawn) + [(stroke.u, stroke.v)] &&
                degrees == old(degrees)[stroke.u := old(degrees)[stroke.u] + 1]
                                       [stroke.v := old(degrees)[stroke.v] + 1]
      ensures stroke != NoStroke ==>
                (stroke.StraightEdge? <==> PairCount(old(drawn), stroke.u, stroke.v) == 0) &&
                connectedDots == SetsAfterStroke(old(connectedDots), stroke.u, stroke.v)
    {
      stroke, complete := NoStroke, false;
      if drawingMode && isDrawing {
        var startDot, endDot := ResolveHits(containsStart, containsEnd);
        if startDot != -1 && endDot != -1 && startDot != endDot {
          stroke := Connect(startDot, endDot);
        }
        isDrawing := false;
        complete := numDrawnEdges == numEdges;
      }
    }
  }

  /** As long as no loop has been put on the tenth vertex, the counters are the
      true degrees of the drawn multigraph, loops included. */
  lemma CountersAreDegrees(editor: Editor)
    requires editor.Valid()
    requires forall k :: 0 <= k < |editor.drawn| ==> editor.drawn[k] != (9, 9)
    ensures forall v :: 0 <= v < editor.numVertices ==> editor.degrees[v] == DegreeOf(editor.drawn, v)
  {
    forall v | 0 <= v < editor.numVertices
      ensures editor.degrees[v] == DegreeOf(editor.drawn, v)
    {
      CreditedIsDegree(editor.drawn, v);
    }
  }
}
