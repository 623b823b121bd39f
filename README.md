# Graph isomorphism game — verified model of its core

The program asks for a vertex count (4 to 10) and an edge count. The user then
draws a graph on screen:
- straight edges;
- curves, which are second edges between an already joined pair;
- loops.

Every release of a drawing stroke ends with a check of the drawn-edge count,
whether or not the stroke added an edge. When that count equals the requested
number, the program:
- generates a random simple graph with that many vertices and edges;
- relabels it by a random permutation to get "random graph 1";
- relabels a copy of graph 1 by a second permutation to get "random graph 2";
- reports, for each random graph, whether the user's graph is isomorphic to it.

Isomorphism is judged by a heuristic: the two degree sequences are compared as
multisets.

This Dafny project models that core:

| file | module | what it models |
|---|---|---|
| `sequences.dfy` | `Sequences` | sums, permutations of `0..n-1`, maps over sequences |
| `adjacency.dfy` | `Adjacency` | adjacency matrices, edge count, degrees, the handshake identity, the relabelled matrix |
| `generator.dfy` | `Generator` | `generateRandomGraph` |
| `shuffler.dfy` | `Shuffler` | `shuffleVerticesWithSameEdges` |
| `degrees.dfy` | `DegreeAnalysis` | `calculateDegrees`, `sortVerticesByDegree`, `isIsomorphic`, true isomorphism |
| `labels.dfy` | `Labels` | vertex labels and the way a loop press maps a label back to a vertex |
| `editor.dfy` | `EdgeEditor` | the editing state of `main`: input bounds, mode flags, hit resolution, connection sets, degree counters, drawn-edge count |
| `heuristic.dfy` | `HeuristicLimits` | where the degree heuristic and isomorphism part ways |
| `pipeline.dfy` | `Comparison` | the comparison run after a completed drawing |

C++ vectors are values, and the model keeps them as Dafny sequences.

The editing state of `main` is the class `EdgeEditor.Editor`. It has one method per
event.

The class invariant `Valid()` ties the counters to a ghost list of the edges
drawn so far:
- each counter equals the degree credited by those edges;
- the counters sum to twice the number of drawn edges;
- two distinct vertices list each other in their connection sets exactly when
  at least one drawn edge joins them, and no vertex lists itself.

The first stroke between two vertices is straight and cross-lists them. Every
later stroke between the same two is a curve and leaves the sets as they are
(see the finding for isomorphic.cpp:477 below).

## Model

| member | source | states |
|---|---|---|
| Generator.GenerateRandomGraph | isomorphic.cpp:100-122 | The result is an n×n symmetric 0/1 matrix with a zero diagonal. Its edge count plus the edges still missing equals the requested count. Its edges are exactly the pairs of distinct vertices among the consumed draws: every 1 comes from one of them, and every such draw is an edge. The loop stops only when the count reaches 0 or the draws run out. |
| Generator.DrawAccepted | isomorphic.cpp:113-118 | Accepting a draw of two distinct, non-adjacent vertices keeps "every edge comes from a consumed draw" and "every consumed distinct draw is an edge". |
| Generator.DrawRejected | isomorphic.cpp:113 | Rejecting a draw, because it repeats a vertex or its pair is already an edge, keeps both links. |
| Adjacency.AddEdge | isomorphic.cpp:113-118 | Accepting a free pair keeps the matrix simple and adds exactly one edge; the two symmetric cells become 1 and no other cell changes. |
| Adjacency.ZeroMatrixIsEmptyGraph | isomorphic.cpp:105 | The initial all-zero matrix is a simple graph with no edges. |
| Adjacency.FreePairExists | isomorphic.cpp:108-120 | While fewer than n(n-1)/2 edges are present, some pair above the diagonal is still 0, so an accepting draw exists. |
| Comparison.GeneratorCanProgress | isomorphic.cpp:300-301 | For every vertex and edge count the prompts accept, and while edges remain to be placed, the generator has a free pair to accept. |
| EdgeEditor.MaxEdges | isomorphic.cpp:300-301 | The edge bound is the smaller of n(n-1)/2 and 10. |
| EdgeEditor.ValidInput | isomorphic.cpp:291-304 | Input the two prompts accept asks for 4 to 10 edges and never more than n(n-1)/2. |
| Shuffler.ShuffleVertices | isomorphic.cpp:125-155 | The result is the graph relabelled by `p`. It is always simple. For a simple input: entry (i, j) equals old entry (p[i], p[j]); new degree i is old degree p[i]; the degree multiset and the edge count are unchanged. |
| Adjacency.RelabeledDegrees | isomorphic.cpp:141-152 | After relabelling, vertex i has the degree that vertex p[i] had. |
| Adjacency.RelabeledInvariants | isomorphic.cpp:141-154 | Relabelling keeps the graph simple, the degree multiset and the number of edges. |
| DegreeAnalysis.CalculateDegrees | isomorphic.cpp:156-167 | degrees[i] is the sum of row i. For a simple graph the degrees add up to twice the edge count. |
| Adjacency.DegreeSum | isomorphic.cpp:156-167 | Handshake identity: in a simple graph the row sums total twice the number of 1s above the diagonal. |
| DegreeAnalysis.SortBy | isomorphic.cpp:40-42 | The comparison sort standing for `std::sort`: its result is sorted by key and is a rearrangement of its input. |
| DegreeAnalysis.SortedPairsGiveOrder | isomorphic.cpp:35-48 | Reading the vertex out of each pair, after the (vertex, degree) pairs are sorted by degree, yields every vertex exactly once, in non-decreasing order of degree. |
| DegreeAnalysis.SortVerticesByDegree | isomorphic.cpp:33-49 | The output is a permutation of 0..n-1 whose degrees never decrease. The order among equal degrees is left open. |
| DegreeAnalysis.SortedEqualIff | isomorphic.cpp:174-178 | Two sorted sequences are equal exactly when they hold the same multiset. |
| DegreeAnalysis.IsIsomorphic | isomorphic.cpp:168-179 | The verdict is false when the sizes differ; otherwise it is true exactly when the two degree sequences are equal as multisets. |
| DegreeAnalysis.HeuristicIsEquivalence | isomorphic.cpp:168-179 | The verdict is reflexive, symmetric and transitive. |
| DegreeAnalysis.IsomorphicPassesHeuristic | isomorphic.cpp:168-179 | Graphs related by a relabelling always pass the heuristic, so it is a necessary condition. |
| HeuristicLimits.HeuristicFalsePositive | isomorphic.cpp:168-179 | The heuristic accepts a 5-vertex path against a triangle plus a separate edge, yet no relabelling relates the two, because the path has no triangle. |
| HeuristicLimits.OrderDoesNotMatter | isomorphic.cpp:168-179 | The verdict ignores the order of the degrees but not their values or count. |
| HeuristicLimits.Path5Degrees | isomorphic.cpp:156-167 | The path's degrees are 1, 2, 2, 2, 1. |
| HeuristicLimits.TriangleAndEdgeDegrees | isomorphic.cpp:156-167 | The degrees of the triangle plus an edge are 2, 2, 2, 1, 1. |
| Comparison.CompareWithRandomGraphs | isomorphic.cpp:486-583 | Both random graphs are simple, with the same size. Each has the requested number of edges less the edges the generator could not place before the draws ran out. Graph 2 is graph 1 relabelled. Both have the same degree multiset. Verdict 1 holds exactly when the user's degrees equal graph 1's as a multiset, and the two verdicts always agree. |
| Labels.VertexLabel | isomorphic.cpp:335 | Vertex i is labelled with the decimal form of i + 1. The label is a single digit exactly for the first nine vertices. |
| Labels.ToDecimal | isomorphic.cpp:335 | A label is a non-empty string of decimal digits. |
| Labels.ParseToDecimal | isomorphic.cpp:335 | Reading a label back as a decimal number gives the number written. |
| Labels.LeadingDigit | isomorphic.cpp:392 | The first digit of a label lies between 1 and the label's number, and for 1 to 9 it is the number itself. |
| Labels.LoopCreditIndex | isomorphic.cpp:392 | The counter a loop on vertex i credits is always an existing vertex at or before i. For the first nine vertices it is i itself. |
| Labels.TenthVertexMiscredited | isomorphic.cpp:335-392 | Vertex 10's label is "10", so a loop on it is credited to index 0. |
| Labels.LabelIndexRoundTrip | isomorphic.cpp:335-392 | Reading the whole label, minus one, recovers every vertex's own index. |
| EdgeEditor.CreditedIsDegree | isomorphic.cpp:392-481 | While no loop sits on a vertex numbered 10 or more, the credited counters are the true degrees of the drawn multigraph, with a loop counting 2. Straight edges and curves are credited correctly at every vertex. |
| EdgeEditor.LoopOnTenthVertex | isomorphic.cpp:392 | A loop on vertex 10 leaves its counter at 0 and raises vertex 1's by 2, while the true degrees are the other way round. |
| EdgeEditor.IntendedIsDegree | isomorphic.cpp:335-392 | Under the intended credit, where the whole label is read, the counters are the true degrees for every vertex count, the tenth vertex included. |
| EdgeEditor.CountersAreDegrees | isomorphic.cpp:314-481 | In a valid editor where no loop has been put on the tenth vertex, every counter equals the vertex's true degree in the drawn multigraph. |
| EdgeEditor.PairCountSymmetric | isomorphic.cpp:432-481 | The number of drawn edges between u and v does not depend on the order of u and v. |
| EdgeEditor.ConnectionsSymmetric | isomorphic.cpp:434-458 | Under the connection invariant, e is in s's set exactly when s is in e's, so the two tests of each branch always agree. |
| EdgeEditor.EdgeKeepsCounters | isomorphic.cpp:452-455 | A straight or curved edge adds one to each endpoint's counter and keeps the counters equal to the credited degrees. The counter total grows by 2. |
| EdgeEditor.LoopKeepsCounters | isomorphic.cpp:391-392 | A loop adds 2 to the counter its label names and keeps the counters equal to the credited degrees. The total grows by 2. |
| EdgeEditor.LoopKeepsConnections | isomorphic.cpp:365-397 | A loop changes no connection set and keeps the connection invariant. |
| EdgeEditor.SetsAfterStroke | isomorphic.cpp:434-477 | A stroke changes the sets of its two ends only. |
| EdgeEditor.StrokeKeepsConnections | isomorphic.cpp:434-481 | A stroke between two distinct vertices is straight exactly when no edge joins them yet. As the program runs, it keeps the invariant "cross-listed exactly when at least one edge joins the pair". |
| EdgeEditor.RepeatedStrokesStayCurved | isomorphic.cpp:434-477 | Three strokes between vertices 1 and 2 on a fresh board: the first cross-lists them and the later two leave the sets unchanged, so both are curves. |
| EdgeEditor.StrokeKeepsConsistent | isomorphic.cpp:432-481 | A straight edge or curve keeps the counters equal to the credited degrees, their total at twice the edge count, and the connection invariant. |
| EdgeEditor.LoopKeepsConsistent | isomorphic.cpp:365-397 | A loop keeps the same bookkeeping consistent. |
| EdgeEditor.IntendedSetsAfterStroke | isomorphic.cpp:477 | With the curve branch's erase and insert executed, a stroke still changes only the sets of its two ends. |
| EdgeEditor.IntendedStrokesAlternate | isomorphic.cpp:434-481 | With those updates executed, a stroke is straight exactly when an even number of edges already joins the pair, and "cross-listed exactly when an odd number of edges joins the pair" is kept. |
| EdgeEditor.IntendedStraightKeepsParity | isomorphic.cpp:434-451 | Under the parity invariant, a straight edge keeps it. |
| EdgeEditor.IntendedCurveKeepsParity | isomorphic.cpp:458-477 | Under the parity invariant, a curve with its updates executed keeps it. |
| EdgeEditor.IntendedThirdStrokeIsStraight | isomorphic.cpp:434-477 | With the intended updates, three strokes between vertices 1 and 2 go straight, curve, straight. |
| EdgeEditor.ResolveHits | isomorphic.cpp:419-431 | The start is the last vertex containing the press point and the end is the last other vertex containing the release point, or -1 when none. Two resolved endpoints always differ. |
| EdgeEditor.FirstHit | isomorphic.cpp:370-396 | A loop press acts on the first vertex containing the press point, or on none. |
| EdgeEditor.Editor.constructor | isomorphic.cpp:311-321 | The editor starts with zero counters, empty sets and no edges, in drawing mode with loop mode off; the invariant holds. |
| EdgeEditor.Editor.PressSpace | isomorphic.cpp:347-351 | Space toggles drawing mode and turns loop mode off. Nothing else changes and the invariant is kept, so both modes are never on together. |
| EdgeEditor.Editor.PressL | isomorphic.cpp:352-356 | L toggles loop mode and turns drawing mode off. Nothing else changes and the invariant is kept. |
| EdgeEditor.Editor.PressMouse | isomorphic.cpp:357-413 | In drawing mode a press starts a stroke. In loop mode, while fewer than the requested edges exist, it adds exactly one loop, on the first vertex hit, counts it, and adds 2 to the counter its label names and to no other. Otherwise nothing changes. A press reports no completion, so a loop that reaches the requested count does not start the comparison. |
| EdgeEditor.Editor.Connect | isomorphic.cpp:432-482 | Between two distinct vertices, a straight edge is added when they are not cross-listed, which is exactly when no edge joins them yet. A curve is added when they are. Each adds one edge and one to both counters. Only the straight edge changes the sets, by cross-listing the pair. |
| EdgeEditor.Editor.ReleaseMouse | isomorphic.cpp:414-486 | A release ends the stroke. It adds an edge exactly when the stroke resolved two endpoints, which then always differ; otherwise nothing changes. The edge is straight exactly when it is the first between the pair, and the sets change as `SetsAfterStroke` says. It reports completion exactly when the drawn count equals the requested count after a drawing-mode release. The invariant, including "counter total is twice the edge count", is kept. |

## Left out

- Windows, event polling, drawing and fonts are left out. So are the loading screen, `calculateMidpoint`, edge and vertex label text, and every console message: they are presentation and I/O.
- Vertex positions and dragging are left out. A press or release arrives with the vertices whose bounds contain the relevant point, as sequences of booleans. Dragging touches no modelled state.
- The `cin` prompts and their re-prompting loops are left out. Only the accepted bounds are kept, as `EdgeEditor.ValidInput`.
- The random engine is left out. The generator takes the sequence of vertex pairs it would draw. Each shuffle takes the permutation `std::shuffle` would produce. Random positions of the result graphs are dropped.
- Generator.GenerateRandomGraph: the source loops until all edges are placed, with no bound on the number of draws. The model stops early when the supplied draws run out and reports the edges still missing in `remaining`. `Comparison.GeneratorCanProgress` shows that for accepted input some draw is always acceptable.
- Shuffler.ShuffleVertices returns the new matrix instead of moving it into the caller's variable; the caller assigns it.
- `std::sort` is modelled by an insertion sort. Only its guarantees (sorted by key and a rearrangement) are relied on, and the order among equal degrees is left unspecified.
- The edge, curve and loop shapes stored per vertex are not modelled. The ghost list `drawn` of the editor stands for them.
- EdgeEditor.Editor keeps the loop credit as written (first digit of the label). The corrected credit of the isomorphic.cpp:392 finding is stated beside it as `EdgeEditor.IntendedDegree`, not substituted into the editor.
- EdgeEditor.Editor keeps the connection sets as the program updates them (no update on a curve). The intended alternation of the isomorphic.cpp:477 finding is stated beside it as `EdgeEditor.IntendedSetsAfterStroke`, not substituted into the editor.
- Comparison.CompareWithRandomGraphs: the random graphs have exactly the requested number of edges only when the supplied draws suffice; otherwise `missing` counts the shortfall.
- EdgeEditor.Editor.PressMouse: the drag start in move mode is not modelled.

## Findings

| source | as written | input that shows it | evidently intended | confidence | as-written member | corrected member |
|---|---|---|---|---|---|---|
| isomorphic.cpp:477 | The erase and insert calls of the curve branch follow a `//` on the same line, so they are comment text. A curve leaves the connection sets unchanged, and a pair stays cross-listed after its first edge. | Three strokes between vertices 1 and 2: the program draws straight, curve, curve, and no vertex ever lists itself. | The calls run: a curve removes the cross entries, so straight edges and curves alternate on a pair. | high; not executed | EdgeEditor.RepeatedStrokesStayCurved | EdgeEditor.IntendedStrokesAlternate |
| isomorphic.cpp:392 | A loop credits `degrees[label[0] - '1']`, which uses only the first character of the label. | n = 10 with a loop on vertex 10: label "10" gives index 0. Vertex 1's counter rises by 2 and vertex 10's stays 0. | Credit the clicked vertex itself, index = value of the whole label minus one. | high; not executed | EdgeEditor.LoopOnTenthVertex | EdgeEditor.IntendedIsDegree |
