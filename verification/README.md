# Structural diversity and span reachability, modelled in Dafny

This project models the core of two C++ graph programs and proves, for each
of their operations, what it computes or what it keeps invariant, and how
the operations relate.

**Truss-based structural diversity (the GCT index).** An undirected graph is
built from an edge list. Every vertex `w` gets an *ego network*: the edges
among the neighbours of `w`. Each ego-network edge gets its *support*, the
number of triangles it lies on. Peeling the edges by ascending support gives
each edge its *trussness*. Per ego network, a *supergraph* is then built:
vertices of equal trussness that are joined by an edge of that trussness are
merged into *supernodes*, and the other edges become *superedges* as long as
they join supernodes not yet connected. Two histograms count the supernodes
and the superedges by trussness. The structural diversity of `w` for a
threshold `k` is the number of supernodes minus the number of superedges of
trussness at least `k`. A naive variant cuts the ego network down to the
edges of trussness at least `k` and counts its connected components. The
model proves that the two agree for every `k >= 0` on an index built by the
three passes in order.

The modules:

- `StaticGraph`: the graph class and its constructor.
- `Intersection`: `findintersection` and `findintersectionnum`.
- `MapGraph`: `isConnected` and `Num_Connected_Component` over maps of maps.
- `EgoNetwork`: the first half of `build_egonetwork`, which spreads the edges, and the second half, which computes supports.
- `Truss`: `compute_truss` for one ego network.
- `SuperGraph`: the merge-or-link step of `build_supergraph_index` and the invariant it keeps.
- `Threshold`: the loop of `build_supergraph_index` over a whole truss queue, and what it leaves at every trussness threshold: the superedges of trussness at least `k` form a forest over the supernodes of trussness at least `k`, and every queued edge is accounted for. From these, the index score at `k` is the naive component count.
- `Diversity`: the histograms, the score and the naive count.
- `Index`: the `GCT_INDEX` class and `compute_structure_diversity`.

Ego networks are `map<int, map<int, EdgeInfo>>` values, as the source's
nested hash maps are. The index is a class whose methods replace its fields.

**Span reachability in temporal graphs.** A temporal graph stores, for every
vertex, the `(neighbour, timestamp)` pairs of its edges. Two vertices are
connected in a window `[t1, t2]` when a path joins them using only edges
whose timestamps lie in the window.

- `Temporal` holds the graph class and window reachability.
- `OnlineBfs` models `online_bidirectional_bfs`, with its visited arrays as Dafny arrays, and `HistoricalConnectivity`, which answers a list of queries with it.
- `SpanReach` models the `TILL_REACH` label index: the constructor's degree order, and the query `SPAN_REACH`. The query answers from the label of each vertex, a list of hubs each with a slice of time intervals.

The labels are inputs to the model, because the routine that fills them is
not part of this model (see below). What the query is proved to answer is
therefore stated relative to the labels. It answers only when the labels
certify the window. When both hub lists are in rank order, it answers
exactly when they do.

In `compute_diversirty` the loop index starts at `k` and is compared with
`size()`, which converts it to unsigned. A negative `k` therefore sums
nothing, and the model's suffix sums are 0 for a negative `k` in the same way.

Where the source reads a hash map through `operator[]`, the model reads a
missing key as the default the source would insert (`OrderOf` for
`vertex_order`).

## Model

| member | source | states |
|---|---|---|
| Temporal.VertexCount | project1_Reproduce_paper_Efficiently_Answering_Span-Reachability_Queries_in_Large_Temporal_Graphs/main.cpp:17-20 | the vertex count is non-negative and exceeds every endpoint; it is 0 or one more than an endpoint of some edge, so it is the smallest such bound; as a consequence it is positive once the first edge has non-negative endpoints |
| Temporal.CountVertices | project1_Reproduce_paper_Efficiently_Answering_Span-Reachability_Queries_in_Large_Temporal_Graphs/main.cpp:17-20 | the first constructor loop computes exactly `VertexCount`, the maximum of `src + 1` and `dst + 1` over all edges (0 for none) |
| Temporal.FillLists | project1_Reproduce_paper_Efficiently_Answering_Span-Reachability_Queries_in_Large_Temporal_Graphs/main.cpp:21-26 | after the second loop the list of vertex `i` is `Incident(edges, i)`: for each edge in order, `(dst, t)` at `src` and `(src, t)` at `dst` |
| Temporal.UndirectedGraph.constructor | project1_Reproduce_paper_Efficiently_Answering_Span-Reachability_Queries_in_Large_Temporal_Graphs/main.cpp:16-27 | the graph is valid (symmetric incidence lists, endpoints in range), `vertexNum` is the vertex count and every list holds the edge's timestamps in input order |
| Temporal.IncidentMembers | project1_Reproduce_paper_Efficiently_Answering_Span-Reachability_Queries_in_Large_Temporal_Graphs/main.cpp:23-26 | `(y, t)` is in the list of `x` exactly when `(x, y, t)` or `(y, x, t)` is an input edge |
| Temporal.IncidentSymmetric | project1_Reproduce_paper_Efficiently_Answering_Span-Reachability_Queries_in_Large_Temporal_Graphs/main.cpp:23-26 | `(y, t)` is in the list of `x` if and only if `(x, t)` is in the list of `y` |
| Temporal.IncidentListsSymmetric | project1_Reproduce_paper_Efficiently_Answering_Span-Reachability_Queries_in_Large_Temporal_Graphs/main.cpp:23-26 | lists built from an edge list are symmetric and name only vertices in range |
| Temporal.ReachSym | project1_Reproduce_paper_Efficiently_Answering_Span-Reachability_Queries_in_Large_Temporal_Graphs/main.cpp:24-25 | because each edge is stored at both ends, reachability inside a time window is symmetric |
| OnlineBfs.Met | project1_Reproduce_paper_Efficiently_Answering_Span-Reachability_Queries_in_Large_Temporal_Graphs/main.cpp:53 | a vertex reached from both `u` and `v` inside the window connects `u` and `v` |
| OnlineBfs.Exhausted | project1_Reproduce_paper_Efficiently_Answering_Span-Reachability_Queries_in_Large_Temporal_Graphs/main.cpp:72-74 | once either queue is empty with the frontiers still disjoint, `v` is not reachable from `u` inside the window |
| OnlineBfs.Visit | project1_Reproduce_paper_Efficiently_Answering_Span-Reachability_Queries_in_Large_Temporal_Graphs/main.cpp:48-56 | scanning one dequeued vertex marks each unvisited in-window neighbour (all reachable from the source) and stops with `true` exactly when a neighbour is already marked by the other side |
| OnlineBfs.Round | project1_Reproduce_paper_Efficiently_Answering_Span-Reachability_Queries_in_Large_Temporal_Graphs/main.cpp:46-57 | one level of the search keeps the exploration invariant and strictly grows the set of expanded vertices unless the two searches met |
| OnlineBfs.Start | project1_Reproduce_paper_Efficiently_Answering_Span-Reachability_Queries_in_Large_Temporal_Graphs/main.cpp:35-42 | both visited arrays are fresh, of `vertex_num` entries, and mark only `u` and only `v`; the two queues start as `[u]` and `[v]` |
| OnlineBfs.Advance | project1_Reproduce_paper_Efficiently_Answering_Span-Reachability_Queries_in_Large_Temporal_Graphs/main.cpp:44-71 | one iteration of the outer loop (a round from `u`, then from `v`): a meeting proves `u` reaches `v`; otherwise the search invariant holds and the expanded set of `u` grows within the vertex set |
| OnlineBfs.OnlineBidirectionalBfs | project1_Reproduce_paper_Efficiently_Answering_Span-Reachability_Queries_in_Large_Temporal_Graphs/main.cpp:32-75 | the answer is `true` exactly when `v` is reachable from `u` over edges with timestamps in `[t1, t2]` (so `true` when `u == v`), and every vertex marked is reachable from its source |
| OnlineBfs.Query | project1_Reproduce_paper_Efficiently_Answering_Span-Reachability_Queries_in_Large_Temporal_Graphs/main.cpp:358-359 | one query's answer is 1 when its endpoints are connected in its window and 0 otherwise |
| OnlineBfs.HistoricalConnectivity | project1_Reproduce_paper_Efficiently_Answering_Span-Reachability_Queries_in_Large_Temporal_Graphs/main.cpp:347-364 | one answer per query, in query order, each 1 or 0 by window reachability |
| SpanReach.BeforeOrder | project1_Reproduce_paper_Efficiently_Answering_Span-Reachability_Queries_in_Large_Temporal_Graphs/main.cpp:94-100 | the sort comparator (higher degree first, then smaller id) is irreflexive, total on distinct vertices and transitive, so it is a strict total order |
| SpanReach.SortByDegree | project1_Reproduce_paper_Efficiently_Answering_Span-Reachability_Queries_in_Large_Temporal_Graphs/main.cpp:90-100 | the ordered vertices are a permutation of `0 .. vertex_num - 1` sorted by the comparator |
| SpanReach.PositionMap | project1_Reproduce_paper_Efficiently_Answering_Span-Reachability_Queries_in_Large_Temporal_Graphs/main.cpp:101-103 | `vertex_order` maps each ordered vertex to its position and no two vertices share a rank |
| SpanReach.TillReach.constructor | project1_Reproduce_paper_Efficiently_Answering_Span-Reachability_Queries_in_Large_Temporal_Graphs/main.cpp:88-104 | one empty label per vertex, the vertices ranked by the comparator, and `vertex_order` the inverse of that ranking |
| SpanReach.MinTimeAbove | project1_Reproduce_paper_Efficiently_Answering_Span-Reachability_Queries_in_Large_Temporal_Graphs/main.cpp:171-175 | the neighbour minimum exceeds `t2` exactly when every incident timestamp does (and `t2` is below `INT_MAX`) |
| SpanReach.MaxTimeBelow | project1_Reproduce_paper_Efficiently_Answering_Span-Reachability_Queries_in_Large_Temporal_Graphs/main.cpp:171-175 | the neighbour maximum is below `t1` exactly when every incident timestamp is (and `t1` is above `INT_MIN`) |
| SpanReach.TimeBounds | project1_Reproduce_paper_Efficiently_Answering_Span-Reachability_Queries_in_Large_Temporal_Graphs/main.cpp:171-179 | the two scans compute the minimum and maximum incident timestamp, starting from `INT_MAX` and `INT_MIN` |
| SpanReach.ScanSlice | project1_Reproduce_paper_Efficiently_Answering_Span-Reachability_Queries_in_Large_Temporal_Graphs/main.cpp:188-194 | scanning one hub's interval slice finds an interval inside `[t1, t2]` exactly when one exists |
| SpanReach.ScanRest | project1_Reproduce_paper_Efficiently_Answering_Span-Reachability_Queries_in_Large_Temporal_Graphs/main.cpp:185-199 | once one label is used up, the scan of the other's remaining hubs succeeds exactly when it lists the other vertex with an interval inside the window |
| SpanReach.PassedEnd | project1_Reproduce_paper_Efficiently_Answering_Span-Reachability_Queries_in_Large_Temporal_Graphs/main.cpp:184-214 | when one label is used up, the labels certify the window exactly when the remaining hubs of the other hold a direct hit |
| SpanReach.AsWrittenStalls | project1_Reproduce_paper_Efficiently_Answering_Span-Reachability_Queries_in_Large_Temporal_Graphs/main.cpp:216-233 | on a concrete valid input the loop body as written returns to the same iterator pair, so the loop does not end |
| SpanReach.MergeWalk | project1_Reproduce_paper_Efficiently_Answering_Span-Reachability_Queries_in_Large_Temporal_Graphs/main.cpp:183-260 | the corrected merge walk answers only when the labels certify the window (a direct hub or a common hub with intervals inside it), and answers exactly that when both labels list hubs in rank order |
| SpanReach.TillReach.RanksDistinct | project1_Reproduce_paper_Efficiently_Answering_Span-Reachability_Queries_in_Large_Temporal_Graphs/main.cpp:234-235 | `comp_order` compares distinct ranks, so two different hubs never compare equal |
| SpanReach.TillReach.SpanReach | project1_Reproduce_paper_Efficiently_Answering_Span-Reachability_Queries_in_Large_Temporal_Graphs/main.cpp:165-261 | `true` for `u == v`; `false` when both labels are empty, or when all incident timestamps of either endpoint lie after `t2` or all before `t1` (as the `INT_MAX`/`INT_MIN`-seeded scans decide); otherwise `true` only when the labels certify the window, and exactly then when both labels are in rank order |
| StaticGraph.VertexCount | project2_Reproduce_paper_Truss-Based_Structural_Diversity_Search_in_Large_Graphs/main.cpp:20-23 | the vertex count is non-negative and exceeds every endpoint; it is 0 or one more than an endpoint of some edge, so it is the smallest such bound |
| StaticGraph.CountVertices | project2_Reproduce_paper_Truss-Based_Structural_Diversity_Search_in_Large_Graphs/main.cpp:20-23 | the first constructor loop computes exactly the maximum of `max(u, v) + 1` over all edges |
| StaticGraph.FillLists | project2_Reproduce_paper_Truss-Based_Structural_Diversity_Search_in_Large_Graphs/main.cpp:24-31 | after the second loop the list of vertex `i` is `Incident(edges, i)`: the other endpoint of every non-loop edge at `i`, in input order |
| StaticGraph.UndirectedGraph.constructor | project2_Reproduce_paper_Truss-Based_Structural_Diversity_Search_in_Large_Graphs/main.cpp:19-32 | the graph is valid (symmetric, loop-free lists of in-range vertices) with `vertexNum` the vertex count and the lists as above |
| StaticGraph.IncidentMembers | project2_Reproduce_paper_Truss-Based_Structural_Diversity_Search_in_Large_Graphs/main.cpp:25-31 | `y` is in the list of `x` exactly when `x` and `y` are joined by a non-loop edge |
| StaticGraph.IncidentSymmetric | project2_Reproduce_paper_Truss-Based_Structural_Diversity_Search_in_Large_Graphs/main.cpp:25-31 | `y` is in the list of `x` if and only if `x` is in the list of `y`, and no vertex lists itself |
| StaticGraph.IncidentListsValid | project2_Reproduce_paper_Truss-Based_Structural_Diversity_Search_in_Large_Graphs/main.cpp:25-31 | lists built from an edge list name only vertices in range, are symmetric and hold no self-loops |
| Intersection.FindIntersection | project2_Reproduce_paper_Truss-Based_Structural_Diversity_Search_in_Large_Graphs/main.cpp:86-95 | the result is `Common(a, b)`, the elements of `b` that occur in `a`, in `b`'s order |
| Intersection.CommonMembers | project2_Reproduce_paper_Truss-Based_Structural_Diversity_Search_in_Large_Graphs/main.cpp:86-95 | `x` is in the intersection exactly when it is in both `a` and `b` |
| Intersection.CommonInOrder | project2_Reproduce_paper_Truss-Based_Structural_Diversity_Search_in_Large_Graphs/main.cpp:89-93 | the intersection is the subsequence of `b` made of all positions whose element is in `a` |
| Intersection.CommonNoDup | project2_Reproduce_paper_Truss-Based_Structural_Diversity_Search_in_Large_Graphs/main.cpp:86-95 | the intersection of a duplicate-free `b` is duplicate-free |
| Intersection.FindIntersectionNum | project2_Reproduce_paper_Truss-Based_Structural_Diversity_Search_in_Large_Graphs/main.cpp:97-106 | the count equals the length of `findintersection`'s result |
| Intersection.CommonCount | project2_Reproduce_paper_Truss-Based_Structural_Diversity_Search_in_Large_Graphs/main.cpp:97-106 | for duplicate-free `b` the count is the size of the set intersection of `a` and `b` |
| MapGraph.IsConnected | project2_Reproduce_paper_Truss-Based_Structural_Diversity_Search_in_Large_Graphs/main.cpp:108-129 | `true` exactly when `src != dst` and `dst` is reachable from `src` in the superedge graph (`src == dst` is reported as not connected) |
| MapGraph.ExploreComponent | project2_Reproduce_paper_Truss-Based_Structural_Diversity_Search_in_Large_Graphs/main.cpp:140-153 | one BFS marks exactly the component of its start vertex, which is one of the graph's components |
| MapGraph.NumConnectedComponent | project2_Reproduce_paper_Truss-Based_Structural_Diversity_Search_in_Large_Graphs/main.cpp:131-156 | on a symmetric graph the count is the number of connected components among vertices with a non-empty neighbour map |
| MapGraph.ReachSym | project2_Reproduce_paper_Truss-Based_Structural_Diversity_Search_in_Large_Graphs/main.cpp:145-153 | on a symmetric graph reachability is symmetric, so a BFS component does not depend on its start vertex |
| EgoNetwork.DistributeEdges | project2_Reproduce_paper_Truss-Based_Structural_Diversity_Search_in_Large_Graphs/main.cpp:180-191 | the ego network of `w` holds edge `(a, b)` in both directions exactly when `a`-`b` is an edge and both are neighbours of `w`, each with record `{0, false}` |
| EgoNetwork.KeysOf | project2_Reproduce_paper_Truss-Based_Structural_Diversity_Search_in_Large_Graphs/main.cpp:196-200 | the neighbour list of `u` holds each key of its map exactly once |
| EgoNetwork.CommonNeighbourCount | project2_Reproduce_paper_Truss-Based_Structural_Diversity_Search_in_Large_Graphs/main.cpp:204-209 | the support computed for `(u, v)` is the number of common neighbours of `u` and `v` in the ego network |
| EgoNetwork.SupportForEdge | project2_Reproduce_paper_Truss-Based_Structural_Diversity_Search_in_Large_Graphs/main.cpp:201-212 | handling neighbour `v` of `u` writes the support into both directions when `u < v` and changes nothing otherwise |
| EgoNetwork.SupportsForNode | project2_Reproduce_paper_Truss-Based_Structural_Diversity_Search_in_Large_Graphs/main.cpp:194-214 | after the row of `u` every edge at `u` toward a larger vertex carries its support in both directions |
| EgoNetwork.ComputeSupports | project2_Reproduce_paper_Truss-Based_Structural_Diversity_Search_in_Large_Graphs/main.cpp:193-215 | the ego network keeps its shape and every edge's value becomes its support, with the finalized flags unchanged |
| EgoNetwork.SupportSymmetric | project2_Reproduce_paper_Truss-Based_Structural_Diversity_Search_in_Large_Graphs/main.cpp:209-211 | the support of `(a, b)` equals that of `(b, a)`, so writing one value to both directions is consistent |
| Index.GctIndex.BuildEgoNetwork | project2_Reproduce_paper_Truss-Based_Structural_Diversity_Search_in_Large_Graphs/main.cpp:175-216 | one ego network per vertex, holding exactly the edges among that vertex's neighbours, each carrying its support and not finalized; the histograms are sized and empty |
| Truss.InitSupportQueue | project2_Reproduce_paper_Truss-Based_Structural_Diversity_Search_in_Large_Graphs/main.cpp:228-237 | the support queue holds one entry per edge `u < v` of the ego network, carrying its current support |
| Truss.PopMin | project2_Reproduce_paper_Truss-Based_Structural_Diversity_Search_in_Large_Graphs/main.cpp:239-240 | the popped entry has the smallest support in the queue |
| Truss.SkipStale | project2_Reproduce_paper_Truss-Based_Structural_Diversity_Search_in_Large_Graphs/main.cpp:241 | dropping an entry for an edge already finalized keeps the queue invariant |
| Truss.UnfinalizedNeighbours | project2_Reproduce_paper_Truss-Based_Structural_Diversity_Search_in_Large_Graphs/main.cpp:248-261 | the neighbour list holds, once each, exactly the neighbours joined by an edge not yet finalized |
| Truss.CommonIsLive | project2_Reproduce_paper_Truss-Based_Structural_Diversity_Search_in_Large_Graphs/main.cpp:247-262 | `W` holds exactly the third vertices of the unfinalized triangles on `(u, v)` |
| Truss.QueueDecrement | project2_Reproduce_paper_Truss-Based_Structural_Diversity_Search_in_Large_Graphs/main.cpp:265-268 | lowering an unfinalized edge above the current level and pushing its new value keeps the queue invariant |
| Truss.LowerU | project2_Reproduce_paper_Truss-Based_Structural_Diversity_Search_in_Large_Graphs/main.cpp:265-269 | the `(u, w)` step lowers that edge by one in both directions only when its value is above the popped support, and keeps the queue invariant |
| Truss.LowerV | project2_Reproduce_paper_Truss-Based_Structural_Diversity_Search_in_Large_Graphs/main.cpp:270-274 | the `(v, w)` step lowers that edge in the same way |
| Truss.PeelEdge | project2_Reproduce_paper_Truss-Based_Structural_Diversity_Search_in_Large_Graphs/main.cpp:241-275 | processing a popped edge finalizes it at support + 2 and lowers the live triangles' edges as the source does, keeping the queue invariant |
| Truss.UnfinalizedShrinks | project2_Reproduce_paper_Truss-Based_Structural_Diversity_Search_in_Large_Graphs/main.cpp:241-245 | every processed pop finalizes one more edge, so the peeling loop ends |
| Truss.PeelEgo | project2_Reproduce_paper_Truss-Based_Structural_Diversity_Search_in_Large_Graphs/main.cpp:225-279 | every edge ends finalized with a value between 2 and its support + 2, backed by at least value - 2 triangles whose other edges are at least as strong, and the truss queue lists edges by ascending value |
| Index.GctIndex.ComputeTruss | project2_Reproduce_paper_Truss-Based_Structural_Diversity_Search_in_Large_Graphs/main.cpp:218-280 | every ego network is peeled as above, one truss queue appended per ego network, the histograms untouched; started from no queues, each queue lists edges of its ego network with their trussness and holds every one of them |
| Index.PeeledCovers | project2_Reproduce_paper_Truss-Based_Structural_Diversity_Search_in_Large_Graphs/main.cpp:226-278 | once every edge of an ego network is final, its truss queue holds every edge `u < v` with its trussness |
| SuperGraph.NodeTruss | project2_Reproduce_paper_Truss-Based_Structural_Diversity_Search_in_Large_Graphs/main.cpp:293-296 | a vertex's trussness is the maximum over its edges, or 0 with no edge |
| SuperGraph.InitSupernodes | project2_Reproduce_paper_Truss-Based_Structural_Diversity_Search_in_Large_Graphs/main.cpp:292-299 | every vertex starts as its own supernode, with its own trussness |
| SuperGraph.PopMax | project2_Reproduce_paper_Truss-Based_Structural_Diversity_Search_in_Large_Graphs/main.cpp:303-304 | the popped entry has the largest trussness and the rest of the queue is the queue without it |
| SuperGraph.MergeMembers | project2_Reproduce_paper_Truss-Based_Structural_Diversity_Search_in_Large_Graphs/main.cpp:317-320 | the members of `sv` join `su` and are mapped to `su` |
| SuperGraph.RelinkEdges | project2_Reproduce_paper_Truss-Based_Structural_Diversity_Search_in_Large_Graphs/main.cpp:323-328 | every superedge of `sv` except one to `su` is moved to `su` with its trussness, and the back-link to `sv` removed |
| SuperGraph.Merge | project2_Reproduce_paper_Truss-Based_Structural_Diversity_Search_in_Large_Graphs/main.cpp:315-331 | merging `sv` into `su` updates the member map, removes `sv` and leaves the superedges as `MergeAdj` |
| SuperGraph.MergeEdges | project2_Reproduce_paper_Truss-Based_Structural_Diversity_Search_in_Large_Graphs/main.cpp:323-330 | after the merge an edge exists exactly when it existed away from `sv` or was an edge of `sv` now attached to `su`, with its trussness kept |
| SuperGraph.MergeUndirected | project2_Reproduce_paper_Truss-Based_Structural_Diversity_Search_in_Large_Graphs/main.cpp:323-330 | merging keeps the superedge graph undirected |
| SuperGraph.MergeUEdges | project2_Reproduce_paper_Truss-Based_Structural_Diversity_Search_in_Large_Graphs/main.cpp:323-330 | merging two unconnected supernodes keeps the number of superedges |
| SuperGraph.AddEdge | project2_Reproduce_paper_Truss-Based_Structural_Diversity_Search_in_Large_Graphs/main.cpp:334-335 | adding a superedge inserts it in both directions with the entry's trussness and leaves every other edge unchanged |
| SuperGraph.AddUndirected | project2_Reproduce_paper_Truss-Based_Structural_Diversity_Search_in_Large_Graphs/main.cpp:334-335 | adding a superedge keeps the superedge graph undirected |
| SuperGraph.UEdgesAdd | project2_Reproduce_paper_Truss-Based_Structural_Diversity_Search_in_Large_Graphs/main.cpp:334-335 | adding a superedge between unlinked supernodes adds exactly one undirected superedge |
| SuperGraph.LabelsAreComponents | project2_Reproduce_paper_Truss-Based_Structural_Diversity_Search_in_Large_Graphs/main.cpp:305-309 | the component labels kept beside the supergraph agree with reachability, as `isConnected` reports it |
| SuperGraph.ForestAdd | project2_Reproduce_paper_Truss-Based_Structural_Diversity_Search_in_Large_Graphs/main.cpp:309-335 | adding a superedge between unconnected supernodes keeps the superedge graph a forest |
| SuperGraph.ForestMerge | project2_Reproduce_paper_Truss-Based_Structural_Diversity_Search_in_Large_Graphs/main.cpp:309-331 | merging unconnected supernodes keeps the superedge graph a forest |
| SuperGraph.EntryBelow | project2_Reproduce_paper_Truss-Based_Structural_Diversity_Search_in_Large_Graphs/main.cpp:303-315 | an edge's trussness is at most the trussness of the supernodes of its endpoints |
| SuperGraph.AddTrussEdge | project2_Reproduce_paper_Truss-Based_Structural_Diversity_Search_in_Large_Graphs/main.cpp:305-336 | one popped entry: skipped when its ends share a supernode or are already connected, merged when both supernodes and the entry share a trussness, otherwise a superedge is added; the supergraph invariant is kept |
| Threshold.BuildSupergraph | project2_Reproduce_paper_Truss-Based_Structural_Diversity_Search_in_Large_Graphs/main.cpp:283-337 | every vertex of the ego network belongs to exactly one supernode whose trussness is its own; the superedges are undirected, no stronger than either end, and a forest on the supernodes; for every threshold `k` the superedges of trussness at least `k` form a forest on the supernodes of trussness at least `k`; every supernode's members, and the two ends of every superedge of trussness `t`, are connected by ego edges of trussness at least the supernode's trussness, resp. `t`; and every entry `(u, v, s)` of the truss queue ends with `u` and `v` in one supernode or in supernodes connected by superedges of trussness at least `s` |
| Threshold.Absorb | project2_Reproduce_paper_Truss-Based_Structural_Diversity_Search_in_Large_Graphs/main.cpp:302-336 | one round of the loop pops the heaviest entry and processes it, keeping the supergraph invariant and all threshold facts; the queue shrinks by that entry, which joins the processed ones |
| Threshold.PopRest | project2_Reproduce_paper_Truss-Based_Structural_Diversity_Search_in_Large_Graphs/main.cpp:303-304 | the entries left after the pop are still queued and no heavier than the popped one, and no entry is lost or duplicated |
| Threshold.Step | project2_Reproduce_paper_Truss-Based_Structural_Diversity_Search_in_Large_Graphs/main.cpp:305-336 | whichever branch a popped entry takes (skip, merge or new superedge), the threshold forests, the member and superedge connections, the descending order of the rest of the queue and the joins of all processed entries are kept, and the popped entry is itself joined |
| Threshold.TrackedInit | project2_Reproduce_paper_Truss-Based_Structural_Diversity_Search_in_Large_Graphs/main.cpp:292-299 | the singleton supernodes, with no superedges, satisfy the threshold facts before the first pop |
| Threshold.LevelAdd | project2_Reproduce_paper_Truss-Based_Structural_Diversity_Search_in_Large_Graphs/main.cpp:334-335 | adding a superedge of trussness `t` between unconnected supernodes keeps, for every `k`, the superedges of trussness at least `k` a forest on the supernodes of trussness at least `k` |
| Threshold.LevelMerge | project2_Reproduce_paper_Truss-Based_Structural_Diversity_Search_in_Large_Graphs/main.cpp:315-331 | merging two unconnected supernodes of the entry's trussness keeps every threshold forest |
| Threshold.Bridge | project2_Reproduce_paper_Truss-Based_Structural_Diversity_Search_in_Large_Graphs/main.cpp:305-315 | the namesakes of the supernodes of a popped edge of trussness `s` are connected by ego edges of trussness at least `s` |
| Threshold.JoinedAllAdd | project2_Reproduce_paper_Truss-Based_Structural_Diversity_Search_in_Large_Graphs/main.cpp:334-335 | adding a superedge keeps every processed entry joined |
| Threshold.CondensesAll | project2_Reproduce_paper_Truss-Based_Structural_Diversity_Search_in_Large_Graphs/main.cpp:302-337 | once the queue is empty every entry of the original queue has been processed and is joined |
| Diversity.Increment | project2_Reproduce_paper_Truss-Based_Structural_Diversity_Search_in_Large_Graphs/main.cpp:342-343 | growing the histogram when needed and bumping slot `t` tabulates the counts with one more value `t` |
| Diversity.TallyNodes | project2_Reproduce_paper_Truss-Based_Structural_Diversity_Search_in_Large_Graphs/main.cpp:340-344 | the node histogram counts, for each trussness, the supernodes of that trussness |
| Diversity.TallyRow | project2_Reproduce_paper_Truss-Based_Structural_Diversity_Search_in_Large_Graphs/main.cpp:348-357 | one row of the superedge scan counts each superedge `u < v` of that row once |
| Diversity.TallyEdges | project2_Reproduce_paper_Truss-Based_Structural_Diversity_Search_in_Large_Graphs/main.cpp:346-358 | the edge histogram counts, for each trussness, the undirected superedges of that trussness, each once |
| Diversity.SumCounts | project2_Reproduce_paper_Truss-Based_Structural_Diversity_Search_in_Large_Graphs/main.cpp:368-373 | a histogram's suffix sum from `k` is the number of tabulated values at least `k` |
| Diversity.Score | project2_Reproduce_paper_Truss-Based_Structural_Diversity_Search_in_Large_Graphs/main.cpp:365-374 | the score is the node histogram's suffix sum from `k` minus the edge histogram's |
| Diversity.NodeSum | project2_Reproduce_paper_Truss-Based_Structural_Diversity_Search_in_Large_Graphs/main.cpp:368-370 | the node suffix sum is the number of supernodes of trussness at least `k` |
| Diversity.EdgeSum | project2_Reproduce_paper_Truss-Based_Structural_Diversity_Search_in_Large_Graphs/main.cpp:371-373 | the edge suffix sum is the number of superedges of trussness at least `k` |
| Diversity.ScoreCounts | project2_Reproduce_paper_Truss-Based_Structural_Diversity_Search_in_Large_Graphs/main.cpp:365-374 | the score read from the histograms is the number of supernodes minus superedges of trussness at least `k` |
| Threshold.ScoreIsRoots | project2_Reproduce_paper_Truss-Based_Structural_Diversity_Search_in_Large_Graphs/main.cpp:362-378 | the score at `k` is the number of trees of the threshold forest at `k` |
| Threshold.InHigh | project2_Reproduce_paper_Truss-Based_Structural_Diversity_Search_in_Large_Graphs/main.cpp:293-296 | a vertex with an ego edge of trussness at least `k` lies in a supernode of trussness at least `k` |
| Threshold.EdgeJoins | project2_Reproduce_paper_Truss-Based_Structural_Diversity_Search_in_Large_Graphs/main.cpp:302-337 | an ego edge of trussness at least `k` joins vertices whose supernodes coincide or are connected by superedges of trussness at least `k` |
| Threshold.LowerAbove | project2_Reproduce_paper_Truss-Based_Structural_Diversity_Search_in_Large_Graphs/main.cpp:302-337 | supernodes connected by superedges of trussness at least `k` have namesakes connected by ego edges of trussness at least `k` |
| Threshold.Anchor | project2_Reproduce_paper_Truss-Based_Structural_Diversity_Search_in_Large_Graphs/main.cpp:315-320 | a vertex with an ego edge of trussness at least `k` is connected to its supernode's namesake by ego edges of trussness at least `k` |
| Threshold.ConnectedSameLabel | project2_Reproduce_paper_Truss-Based_Structural_Diversity_Search_in_Large_Graphs/main.cpp:302-337 | two vertices connected in the cut ego network at `k` have supernodes in one tree of the threshold forest at `k` |
| Threshold.SameLabelConnected | project2_Reproduce_paper_Truss-Based_Structural_Diversity_Search_in_Large_Graphs/main.cpp:302-337 | two vertices with edges at `k` whose supernodes lie in one tree of the threshold forest at `k` are connected in the cut ego network at `k` |
| Threshold.RootHasEdge | project2_Reproduce_paper_Truss-Based_Structural_Diversity_Search_in_Large_Graphs/main.cpp:293-299 | every supernode of trussness at least `k >= 0` is named after a vertex with an ego edge of trussness at least `k` |
| Threshold.ScoreIsComponentCount | project2_Reproduce_paper_Truss-Based_Structural_Diversity_Search_in_Large_Graphs/main.cpp:362-401 | on a supergraph built from a queue holding every ego edge, the score at `k >= 0` (supernodes minus superedges of trussness at least `k`) equals the number of connected components of the ego network cut to its edges of trussness at least `k`, the naive count |
| Index.IndexEgo | project2_Reproduce_paper_Truss-Based_Structural_Diversity_Search_in_Large_Graphs/main.cpp:284-358 | one ego network's supergraph is built from its truss queue with every property of `Threshold.BuildSupergraph`, and its two histograms tabulate its supernodes and superedges |
| Index.GctIndex.BuildSupergraphIndex | project2_Reproduce_paper_Truss-Based_Structural_Diversity_Search_in_Large_Graphs/main.cpp:282-360 | every ego network gets, from its own truss queue, a supergraph as above whose histograms describe it; the ego networks and truss queues are not changed |
| Index.GctIndex.ComputeDiversity | project2_Reproduce_paper_Truss-Based_Structural_Diversity_Search_in_Large_Graphs/main.cpp:362-378 | one score per vertex, each the difference of the histogram suffix sums; on a built index, the number of supernodes minus superedges of trussness at least `k`; and when in addition every truss queue holds all edges of its ego network and `k >= 0`, exactly the component count that `compute_diversirty_naive` returns for that vertex |
| Diversity.CollectRow | project2_Reproduce_paper_Truss-Based_Structural_Diversity_Search_in_Large_Graphs/main.cpp:385-390 | the scan of one row collects its pairs `u < v` with value below `k` |
| Diversity.CollectLow | project2_Reproduce_paper_Truss-Based_Structural_Diversity_Search_in_Large_Graphs/main.cpp:384-391 | the pairs collected are exactly the edges `u < v` with value below `k` |
| Diversity.ErasePair | project2_Reproduce_paper_Truss-Based_Structural_Diversity_Search_in_Large_Graphs/main.cpp:392-397 | erasing one pair from both ends, then any row left empty, gives the ego network without the pairs erased so far |
| Diversity.FilteredEdge | project2_Reproduce_paper_Truss-Based_Structural_Diversity_Search_in_Large_Graphs/main.cpp:384-397 | after the cut an edge remains exactly when its value is at least `k`, and no remaining vertex is isolated |
| Diversity.FilteredSymmetric | project2_Reproduce_paper_Truss-Based_Structural_Diversity_Search_in_Large_Graphs/main.cpp:384-397 | the cut ego network is still symmetric, so components are well defined |
| Diversity.WithoutLow | project2_Reproduce_paper_Truss-Based_Structural_Diversity_Search_in_Large_Graphs/main.cpp:384-397 | erasing all collected pairs leaves exactly the ego network filtered to values at least `k` |
| Diversity.NaiveCount | project2_Reproduce_paper_Truss-Based_Structural_Diversity_Search_in_Large_Graphs/main.cpp:383-398 | the naive score is the number of connected components of the ego network filtered to values at least `k` |
| Index.GctIndex.ComputeDiversityNaive | project2_Reproduce_paper_Truss-Based_Structural_Diversity_Search_in_Large_Graphs/main.cpp:380-401 | one naive score per vertex, the component count of its filtered ego network |
| Index.ComputeStructureDiversity | project2_Reproduce_paper_Truss-Based_Structural_Diversity_Search_in_Large_Graphs/main.cpp:404-411 | the scores are `compute_diversirty`'s: histogram differences; on a built index supernodes minus superedges of trussness at least `k`; with complete truss queues and `k >= 0`, the naive component counts |
| Index.BuildIndex | project2_Reproduce_paper_Truss-Based_Structural_Diversity_Search_in_Large_Graphs/main.cpp:428-431 | the three passes run in order on a fresh index give one ego network per vertex, a built index and complete truss queues, so the scores of `compute_structure_diversity` are the naive component counts for every `k >= 0` |

## Left out

- File loading (`loadEdges`, `load_edge_list`, `load_ground_truth`, the query loader), `main`, timing, printing and `check_result`: these are I/O. Edge lists arrive as sequences. The model does not repeat the sorting and de-duplication that `load_edge_list` applies before construction; the constructors accept any edge list with non-negative endpoints.
- `TILL_REACH::TILL_CONSTRUCT_STAR` and the commented-out alternative query code after `SPAN_REACH`. `TILL_CONSTRUCT_STAR` is not part of this model. Labels are taken as arbitrary well-formed input, so nothing is proved about how they relate to window reachability.
- SpanReach.TillReach.SpanReach: states the complete answer (`true` exactly when the labels certify the window) only when both hub lists are in rank order. The empty labels the constructor creates are in rank order. On other labels only the "reported implies certified" half is stated.
- SpanReach.TillReach.SpanReach: models the corrected merge walk. The walk as written does not terminate on some inputs (see Findings).
- `trade_off` is stored by the `TILL_REACH` constructor and never read; the model stores it too.
- Truss.PeelEgo: proves that every edge ends finalized, that its value lies between 2 and its support + 2, that it is backed by at least value - 2 triangles of at least that strength, and that the truss queue is ordered. It does not prove that the value is the exact trussness (the largest `k` whose `k`-truss contains the edge).
- Index.GctIndex.ComputeDiversity: agrees with `compute_diversirty_naive` only for `k >= 0`. For a negative `k` the index loops compare the signed index with the unsigned `size()`, sum nothing and score 0, whereas the naive count removes no edge and counts the components of the whole ego network; the two differ on every ego network with an edge. `Index.ComputeStructureDiversity` inherits this.
- Index.GctIndex.ComputeDiversity: the agreement with the naive count is stated for truss queues that hold every edge, which `compute_truss` produces when it starts from no queues; calling `compute_truss` twice appends a second set of queues, and nothing is stated about the scores then.
- Priority-queue tie-breaks: Truss.PopMin and SuperGraph.PopMax may return any entry of minimal or maximal value, so the model covers every order the heaps may produce rather than the one `std::priority_queue` picks.
- Hash-map iteration order: loops over `unordered_map` and `unordered_set` are modelled by choosing keys in any order, so the results are proved for every iteration order.
- Integer widths: `int` is unbounded. Overflow of vertex counts, supports, histogram counters and timestamps is not modelled, except that `INT_MAX` and `INT_MIN` seed the timestamp scans in `SPAN_REACH`.
- Diversity.TallyEdges: the string keys `u_v` that `build_supergraph_index` uses to skip repeated superedges are modelled as the pairs `(u, v)` they encode.
- `operator[]` side effects: reads of a missing key (in `comp_order`, or `ego[u][v]` during peeling) insert a default entry in the source. The model reads the default value without inserting it; the peeling reads only existing keys.
- The visited arrays and queues of `online_bidirectional_bfs` are arrays and sequences; `std::queue` is not modelled beyond first-in first-out order.

## Findings

| source | as written | input that shows it | evidently intended | confidence | as-written member | corrected member |
|---|---|---|---|---|---|---|
| project1_Reproduce_paper_Efficiently_Answering_Span-Reachability_Queries_in_Large_Temporal_Graphs/main.cpp:216-233 | While both hub lists have entries left, a current hub that is the other query vertex (`it1->first == v`, or `it2->first == u`) whose interval slice holds no interval inside the window advances neither iterator, so the loop repeats the same step forever | adjacency `[[(1,5)],[(0,5)],[]]`; `Lin[0]` = hubs `[(1,0)]` with intervals `[(7,9)]`; `Lin[1]` = hubs `[(2,0)]` with intervals `[(4,4)]`; query `u = 0`, `v = 1`, window `[0, 6]` | pass over the missed direct hub (advance that iterator) and keep merging | not executed | SpanReach.MergeStepAsWritten (shown by SpanReach.AsWrittenStalls) | SpanReach.MergeWalk |
