# Graph algorithm exercises, modelled in Dafny

This project models the graph algorithms of the C++ repository
`algorithm_exercise`. Each one is a stand-alone program with its own `Graph`
class and a CppUnit test suite. The model covers:

- depth-first reachability (`graph/dfs`);
- the depth-first post-order listing (`graph/priority`);
- the parent vector of the queue search (`graph/bfs`);
- the two-colouring test (`graph/bipartite`);
- the odd-degree test and edge-deleting walk of `graph/EulerPath`;
- Kosaraju-style strong components (`digraph/strong_connected_components`);
- the topological-order relaxation of `shortest_path/acyclic_graph`;
- Bellman-Ford with a queue of lowered vertices (`shortest_path/BellmanFord`);
- Ford-Fulkerson with depth-first augmenting paths (`maxflow/FordFulkerson`);
- Kruskal with a union-find (`mst/Kruskal`);
- Prim with a binary heap of edges (`mst/LazyPrim/main.cpp`);
- the second union-find and its cycle check (`mst/LazyPrim/main1.cpp`);
- Prim with a heap of edges indexed by vertex (`mst/EagerPrim`).

Adjacency lists are `seq<seq<int>>` (or sequences of edge records). A vertex
is an `int` index checked against the graph's size. Recursive searches
become recursive methods that take the marks, and return the marks,
explicitly. Loops become `while`/`for` loops with invariants. The objects
the source mutates in place become classes with `modifies` clauses: the
graphs built by `add`, the union-finds and the heaps. Shared notions live in
two modules:

- `Paths`: walks, reachability, marks, and the depth-first invariants;
- `WeightedEdges`: walks over weighted edges.

Every search is proved against a declarative statement: reachability, a
proper two-colouring, a topological order, a cut, a spanning forest. The
properties the source's tests assert are proved as lemmas on the same
inputs. Where verification showed that the source does not do what it
evidently means, the model keeps the code as written, exhibits an input,
and proves the intended version beside it (see "## Findings").

## Model

| member | source | states |
|---|---|---|
| GraphDfs.DfsImpl | graph/dfs/main.cpp:37-47 | Only adds marks. Afterwards every neighbour of `vertex` is marked, and every mark set is on a vertex reachable from `vertex` through unmarked vertices. |
| GraphDfs.Dfs | graph/dfs/main.cpp:49-57 | `marked[v]` holds exactly when `v` is reachable from `startVertex` (both directions); the start is marked. |
| GraphDfs.TestReachableFromZero | graph/dfs/main.cpp:99-105 | In the test's graph, vertices 0..5 are reachable from 0, so `dfs` marks them. |
| GraphDfs.TestUnreachableFromZero | graph/dfs/main.cpp:107-110 | In the test's graph, vertices 6..9 are not reachable from 0, so `dfs` leaves them unmarked. |
| GraphDfs.TestReachableFromSix | graph/dfs/main.cpp:113-115 | Vertex 8 is reachable from 6. |
| GraphPriority.DfsImpl | graph/priority/main.cpp:40-52 | Only adds marks and only appends to the result. The appended vertices are exactly the newly marked ones plus `vertex`, which comes last. Each appended vertex has a parent that is listed after it and is adjacent to it. |
| GraphPriority.Dfs | graph/priority/main.cpp:54-64 | The result lists every vertex reachable from `vertex` exactly once, and nothing else. `vertex` is last, and every other entry comes before its depth-first parent, a neighbour. |
| GraphPriority.DfsListsReachable | graph/priority/main.cpp:54-64 | A search started with only `vertex` marked lists exactly the vertices `vertex` reaches. |
| GraphPriority.DfsTree | graph/priority/main.cpp:40-52 | The recorded tree puts every listed vertex except the last before a parent that is adjacent to it. |
| GraphBfs.Offer | graph/bfs/main.cpp:89-94 | One offer preserves the sizes of marks and parents. |
| GraphBfs.Visit | graph/bfs/main.cpp:87-95 | The inner loop preserves the sizes of marks and parents. |
| GraphBfs.Expand | graph/bfs/main.cpp:84-95 | One turn of the loop as written reads the newest queue entry, drops the oldest, and offers the neighbours of the entry it read. |
| GraphBfs.ExpandFront | graph/bfs/main.cpp:82-96 | One turn of a first-in first-out search (the corrected loop). |
| GraphBfs.VisitMarks | graph/bfs/main.cpp:87-95 | The inner loop only sets marks, and leaves every neighbour marked. |
| GraphBfs.VisitQueueGrows | graph/bfs/main.cpp:87-95 | The inner loop only appends to the queue, adding one entry per mark it sets. |
| GraphBfs.VisitQueue | graph/bfs/main.cpp:89-94 | The appended queue entries are exactly the newly marked vertices. |
| GraphBfs.VisitPath | graph/bfs/main.cpp:93 | Exactly the newly marked vertices get `vertex` as their parent; other parents are unchanged. |
| GraphBfs.VisitInv | graph/bfs/main.cpp:87-95 | Expanding a marked vertex preserves the search invariant. The start stays parentless. Marked means start or parented. Each parent is a neighbour and is marked. Each marked vertex is reachable. Queue entries are marked. |
| GraphBfs.VisitRank | graph/bfs/main.cpp:93 | Expanding preserves a rank under which every parent ranks below its child, so the parent chain is acyclic. |
| GraphBfs.Init | graph/bfs/main.cpp:76-80 | The initial state: only the start is marked and queued, and every parent is -1. |
| GraphBfs.InitInv | graph/bfs/main.cpp:76-80 | The initial state satisfies the search invariant. |
| GraphBfs.ExpandDecreases | graph/bfs/main.cpp:82-96 | Each turn shrinks, in lexicographic order, the number of unmarked vertices and then the queue length, so the loop terminates. |
| GraphBfs.Run | graph/bfs/main.cpp:82-96 | Running the loop as written ends with an empty queue. |
| GraphBfs.PopInv | graph/bfs/main.cpp:85 | Dropping the oldest queue entry preserves the invariant. |
| GraphBfs.VisitNeighbours | graph/bfs/main.cpp:87-95 | The loop over the neighbours computes exactly `Visit`. |
| GraphBfs.InvParentTree | graph/bfs/main.cpp:74-102 | Under the invariant, the parent vector is a tree of graph edges rooted at the start. |
| GraphBfs.Bfs | graph/bfs/main.cpp:74-102 | Models `bfs` as written; its parent vector is the loop's own result. It is a tree of graph edges with a parentless start. Every vertex with a parent is reachable from the start. Parents are ranked. |
| GraphBfs.ExpandFrontFinished | graph/bfs/main.cpp:82-96 | Under first-in first-out order, every vertex that has left the queue has all its neighbours marked. |
| GraphBfs.BfsFront | graph/bfs/main.cpp:74-102 | The corrected search: a vertex other than the start has a parent exactly when it is reachable from the start. |
| GraphBfs.PathTo | graph/bfs/main.cpp:53-66 | Given ranked parents, the loop terminates. The result ends at `v`, starts at a parentless vertex, and each entry is the parent of the next. For -1 the result is empty. |
| GraphBfs.PathToWalk | graph/bfs/main.cpp:53-66 | On a search's parent tree, for the start or a vertex with a parent, `pathTo` begins at the start and is a walk in the graph. |
| GraphBfs.ChainUnique | graph/bfs/main.cpp:53-66 | The parent vector determines the path to `v`: two chains ending at `v` are equal. |
| GraphBfs.TestGraph | graph/bfs/main.cpp:149-152 | The test graph is well formed and has ten vertices. |
| GraphBfs.TestBfsParents | graph/bfs/main.cpp:147-154 | The search as written, run from 0 on the test graph, records the parents [-1,0,1,-1,…]. |
| GraphBfs.TestPathToTwo | graph/bfs/main.cpp:156-159 | With those parents, `pathTo(2)` is [0,1,2]. |
| GraphBfs.MissGraph | graph/bfs/main.cpp:23-27 | The graph built by add(0,1), add(0,2), add(1,3) is well formed. |
| GraphBfs.BfsMissesVertex | graph/bfs/main.cpp:84-85 | Vertex 3 is reachable from 0, yet the search as written never gives it a parent. |
| GraphBipartite.NextState | graph/bipartite/main.cpp:44-48 | The result is a colour that differs from any given colour. An uncoloured vertex's successor is red. |
| GraphBipartite.NextStateTwice | graph/bipartite/main.cpp:44-48 | Applied twice to a colour, `nextState` gives back that colour. |
| GraphBipartite.Coloured | graph/bipartite/main.cpp:56 | The marks read off the states: coloured vertices, exactly. |
| GraphBipartite.AlternatesAlong | graph/bipartite/main.cpp:50-71 | Along a walk from the root, a proper two-colouring alternates; the end shares the root's colour exactly when the walk has an odd number of vertices. |
| GraphBipartite.SameColour | graph/bipartite/main.cpp:50-71 | Under the parity invariant, any proper colouring agrees on two vertices of the same state. |
| GraphBipartite.ColouredReachable | graph/bipartite/main.cpp:50-71 | Only vertices reachable from the root are ever coloured. |
| GraphBipartite.Conflict | graph/bipartite/main.cpp:64-67 | An edge between two vertices of the same colour proves that the root's component is not two-colourable. |
| GraphBipartite.ParityColour | graph/bipartite/main.cpp:56-58 | Colouring an uncoloured neighbour with the next colour preserves the parity invariant: the same colour as the root exactly when an even walk leads there. |
| GraphBipartite.IsBipartiteImpl | graph/bipartite/main.cpp:50-71 | Only ever colours uncoloured vertices. On success, `vertex` and every vertex it coloured have all their neighbours coloured the other way. On failure the root's component is not two-colourable. |
| GraphBipartite.IsBipartite | graph/bipartite/main.cpp:73-78 | Returns true exactly when the vertices reachable from 0 can be two-coloured (both directions). |
| GraphBipartite.Triangle | graph/bipartite/main.cpp:107-111 | The test triangle is well formed and has ten vertices. |
| GraphBipartite.TriangleNotTwoColourable | graph/bipartite/main.cpp:105-122 | The triangle is not two-colourable, so `isBipartite` returns false. |
| GraphBipartite.Square | graph/bipartite/main.cpp:127-132 | The test square is well formed and has ten vertices. |
| GraphBipartite.SquareTwoColourable | graph/bipartite/main.cpp:124-144 | The square is two-colourable, so `isBipartite` returns true. |
| GraphEuler.Added | graph/EulerPath/main.cpp:23-27 | `add(v1,v2)` records `v2` in `v1`'s list and `v1` in `v2`'s, and changes no other list. |
| GraphEuler.ErasePassShrinks | graph/EulerPath/main.cpp:31-37 | The erase loop only removes entries. It removes at least one when `x` is listed and none when it is not. |
| GraphEuler.ErasePassKeeps | graph/EulerPath/main.cpp:31-37 | The erase loop keeps every entry other than `x`. |
| GraphEuler.Deleted | graph/EulerPath/main.cpp:29-46 | `deleteEdge` changes only the two lists it names. |
| GraphEuler.ErasePassOnce | graph/EulerPath/main.cpp:31-37 | On a list that holds `x` once, the erase loop removes exactly that entry. |
| GraphEuler.ErasePassSkips | graph/EulerPath/main.cpp:31-37 | Of two adjacent copies of `x`, the erase loop removes only the first: the index advances past the entry that slides into the erased slot. |
| GraphEuler.DeleteUndoesAdd | graph/EulerPath/main.cpp:23-46 | On a simple graph, `deleteEdge` after `add` of a new edge gives back the original lists. |
| GraphEuler.Graph.constructor | graph/EulerPath/main.cpp:14-16 | The graph has `size` empty lists. |
| GraphEuler.Graph.Add | graph/EulerPath/main.cpp:23-27 | The lists become `Added(old lists)`. |
| GraphEuler.Graph.ErasePassAt | graph/EulerPath/main.cpp:31-37 | The in-place erase loop leaves `v`'s list equal to the erase pass of the old list; other lists are unchanged. |
| GraphEuler.Graph.DeleteEdge | graph/EulerPath/main.cpp:29-46 | The lists become `Deleted(old lists)`. |
| GraphEuler.OddUpToMeaning | graph/EulerPath/main.cpp:64-70 | After the scan, `oddVertice` holds exactly the odd-degree vertices, in increasing order. |
| GraphEuler.EulerStartAllEven | graph/EulerPath/main.cpp:72-75 | `hasEulerPath` answers the vertex count exactly when every degree is even. |
| GraphEuler.EulerStartTwoOdd | graph/EulerPath/main.cpp:76-77 | When exactly two vertices `a < b` have odd degree, the answer is `a`. |
| GraphEuler.EulerStartNone | graph/EulerPath/main.cpp:78-79 | The answer is -1 exactly when neither of the two cases above holds. |
| GraphEuler.SelfLoopReach | graph/EulerPath/main.cpp:131-139 | `deleteEdge(v, v)`, which erases a self-loop, leaves the set of vertices reachable from `v` unchanged, so `dfs_count` gives the same count before and after. |
| GraphEuler.StartVertexInRange | graph/EulerPath/main.cpp:108-113 | When the answer is not -1, the walk's start vertex (0 in place of the vertex count) is a vertex. |
| GraphEuler.HasEulerPath | graph/EulerPath/main.cpp:58-81 | The scan computes `EulerStart`, whose meaning the three lemmas above give. |
| GraphEuler.DfsCountImpl | graph/EulerPath/main.cpp:83-95 | The count returned is one plus the number of marks this call adds. The marks added are the vertices reachable from `vertex` through unmarked ones. |
| GraphEuler.DfsCount | graph/EulerPath/main.cpp:97-104 | The result is the number of vertices reachable from `vertex`, the vertex itself included. |
| GraphEuler.WithinWellFormed | graph/EulerPath/main.cpp:116-146 | Lists that only hold entries of a well-formed graph's lists are well-formed. |
| GraphEuler.DeletedWithin | graph/EulerPath/main.cpp:127-133 | Deleting keeps every list within the original graph's list. |
| GraphEuler.AddedWithin | graph/EulerPath/main.cpp:141 | Re-adding an edge of the original graph keeps every list within the original one. |
| GraphEuler.DeletedShrinks | graph/EulerPath/main.cpp:127-133 | Deleting an edge `v1`-`v2` shortens `v2`'s list. |
| GraphEuler.ReachWithin | graph/EulerPath/main.cpp:131-136 | Lists holding only entries of another graph's lists reach no more vertices, so deleting an edge can only lower `dfs_count`. |
| GraphEuler.RetryKeeps | graph/EulerPath/main.cpp:133-141 | A tried edge that is deleted and then re-added by `add(vertex, next)` leaves every entry of every list in place. |
| GraphEuler.TakenShrinks | graph/EulerPath/main.cpp:125-139 | A turn that breaks out of the loop erases the walked edge, so fewer list entries are left than when its last try began. |
| GraphEuler.Step | graph/EulerPath/main.cpp:118-144 | One turn of the walk moves along an original edge, and its new lists are exactly as the loop leaves them (`Stepped`). The tries before the last only re-add what they deleted. When the loop breaks, the walked edge is deleted from the lists the last try began with, and it was the only edge left or its deletion keeps every vertex `vertex` reached. When the loop runs off the end, the lists are those after the last re-add, with `next` last in `vertex`'s list. Self-loops are allowed: removing one never changes the count, so the turn keeps it. |
| GraphEuler.GetEulerPath | graph/EulerPath/main.cpp:106-149 | The walk starts at the start vertex, and every step follows an edge of the original graph. If it stops before the fuel runs out, its last vertex has no edges left. A ghost trace of the lists before each step gives every step's change, as `Step` states it. |
| GraphEuler.TestTriangle | graph/EulerPath/main.cpp:191-210 | On the triangle, `hasEulerPath` answers 10. |
| GraphEuler.TestDiamond | graph/EulerPath/main.cpp:212-237 | On the diamond, it answers 1. |
| GraphEuler.TestComplete4 | graph/EulerPath/main.cpp:239-266 | On the complete graph on 0..3, it answers -1. |
| StrongComponents.ReversedGraph | digraph/strong_connected_components/main.cpp:37-50 | The reversed graph has the same vertices, and `t` is a successor of `i` exactly when `i` is a successor of `t` in the reversed graph (both directions). |
| StrongComponents.DfsImpl | digraph/strong_connected_components/main.cpp:52-64 | Only adds marks and only appends to the list. The vertices appended are exactly `vertex` and those newly marked, each reachable from `vertex` through unmarked vertices, in post-order with `vertex` last. |
| StrongComponents.TopologicalOrder | digraph/strong_connected_components/main.cpp:66-72 | Marks `vertex`. Lists exactly `vertex` plus the vertices it newly marks, i.e. those reachable from it through unmarked vertices. Every successor of `vertex` ends up marked. |
| StrongComponents.FirstPass | digraph/strong_connected_components/main.cpp:78-91 | `order` lists every vertex exactly once. |
| StrongComponents.MinVertex | digraph/strong_connected_components/main.cpp:102-110 | `minV` is at most every listed vertex and at most the bound, and is either the bound or one of the listed vertices. |
| StrongComponents.Relabel | digraph/strong_connected_components/main.cpp:112-115 | Exactly the listed vertices get the label; every other entry is unchanged. |
| StrongComponents.LabelTree | digraph/strong_connected_components/main.cpp:98-116 | Labelling a freshly grown tree with its least vertex keeps the labelling invariant. Each marked vertex carries the least vertex of its tree; that vertex labels itself; every vertex of a tree is reachable from the tree's root. |
| StrongComponents.MutualInTree | digraph/strong_connected_components/main.cpp:98-100 | When the marks before a search form a union of strongly connected components, the search from an unmarked vertex also marks every vertex that is mutually reachable with one it newly marked. |
| StrongComponents.JoinTree | digraph/strong_connected_components/main.cpp:98-116 | A fresh tree keeps the marks a union of strongly connected components, and gives every pair of mutually reachable vertices one tree. |
| StrongComponents.SecondPassTree | digraph/strong_connected_components/main.cpp:98-116 | One tree of the second pass keeps the labelling invariant and the union-of-components invariant, and marks the vertex it starts from. |
| StrongComponents.StrongComponents | digraph/strong_connected_components/main.cpp:74-125 | The first pass orders every vertex once. Every label is a vertex no greater than the one it labels, and labels itself. In the final labels, every vertex carries the least vertex of its search tree, which carries its own label, and every vertex of a tree is reachable from the tree's root. Mutually reachable vertices get the same label. |
| StrongComponents.LabelledAll | digraph/strong_connected_components/main.cpp:93-119 | Once every vertex is marked, the labelling covers the whole graph and no -1 remains. |
| WeightedEdges.Targets | shortest_path/acyclic_graph/main.cpp:105-107 | The successor lists read off the edge lists: the same shape, with entry `k` of list `u` the head of edge `k` of `u`. |
| WeightedEdges.Start | shortest_path/acyclic_graph/main.cpp:166-167 | The initial table: `{source, 0}` at the source and `{-1, 999999}` everywhere else. |
| WeightedEdges.TestEdges | shortest_path/acyclic_graph/main.cpp:236-259 | The test's edge lists form a valid graph of eight vertices. The first Bellman-Ford test (shortest_path/BellmanFord/main.cpp lines 191-214) adds the same edges. |
| AcyclicPaths.Graph.constructor | shortest_path/acyclic_graph/main.cpp:31-33 | The graph has `size` vertices and no edges. |
| AcyclicPaths.Graph.Add | shortest_path/acyclic_graph/main.cpp:37 | The edge is appended to its tail's list only. |
| AcyclicPaths.Graph.AddEdge | shortest_path/acyclic_graph/main.cpp:38-42 | Appends `Edge(from, to, weight)` to `from`'s list only. |
| AcyclicPaths.AddValid | shortest_path/acyclic_graph/main.cpp:37 | Adding an edge whose ends are vertices keeps the graph valid. |
| AcyclicPaths.Visited | shortest_path/acyclic_graph/main.cpp:64 | A vertex is reached exactly when its state is not `UNVISITED`. |
| AcyclicPaths.FinAlongWalk | shortest_path/acyclic_graph/main.cpp:57-80 | Along any walk from a finished vertex, every vertex is finished, and no later than the walk's start. |
| AcyclicPaths.NoCycle | shortest_path/acyclic_graph/main.cpp:77-79 | A search from `s` that finishes leaves no cycle reachable from `s`. |
| AcyclicPaths.RoundCycle | shortest_path/acyclic_graph/main.cpp:71-74 | A successor still on the search path closes a cycle reachable from the root. |
| AcyclicPaths.IsAcyclicImpl | shortest_path/acyclic_graph/main.cpp:57-80 | If it returns false, a cycle is reachable from the root. If true, `vertex` and everything it reaches are finished in a consistent order, and the vertices on the path are exactly those before the call. |
| AcyclicPaths.IsAcyclic | shortest_path/acyclic_graph/main.cpp:82-98 | True exactly when some vertex has an edge, and no cycle is reachable from the least such vertex. A graph without edges answers false. |
| AcyclicPaths.DfsImpl | shortest_path/acyclic_graph/main.cpp:101-115 | Marks `vertex` and everything it reaches through unmarked vertices, and lists them in post-order: each successor of a listed vertex is listed before it, or reaches it. |
| AcyclicPaths.TopologicalOrder | shortest_path/acyclic_graph/main.cpp:118-125 | Lists every vertex reachable from `vertex` exactly once, with `vertex` last, in post-order. |
| AcyclicPaths.BackEdgeCycle | shortest_path/acyclic_graph/main.cpp:101-125 | In the post-order, an edge to a vertex listed no earlier closes a cycle reachable from the start. |
| AcyclicPaths.ReversedSorted | shortest_path/acyclic_graph/main.cpp:169-170 | Without a reachable cycle, the reversed post-order is topological: no edge leads to an earlier vertex or to itself. |
| AcyclicPaths.Relax | shortest_path/acyclic_graph/main.cpp:133-144 | Entries only get lighter. Every changed entry now comes from `vertex`, through one of its edges. Without a self-loop, every edge of `vertex` is relaxed afterwards. |
| AcyclicPaths.OrderFacts | shortest_path/acyclic_graph/main.cpp:169-170 | The relaxation order holds exactly the reachable vertices, with the source first, and is topological when no cycle is reachable. |
| AcyclicPaths.MstStepKept | shortest_path/acyclic_graph/main.cpp:172-175 | Each relaxation keeps the following. Entries never exceed the initial table. Unreachable entries stay initial. Every other changed entry comes from a reachable predecessor. |
| AcyclicPaths.MstStepSorted | shortest_path/acyclic_graph/main.cpp:172-175 | In a topological order, a relaxation leaves the source at `{source,0}`, and the edges of the vertices already relaxed stay relaxed. |
| AcyclicPaths.MstDone | shortest_path/acyclic_graph/main.cpp:172-175 | After the whole order, every edge out of a reachable vertex satisfies the triangle inequality. |
| AcyclicPaths.RelaxInOrder | shortest_path/acyclic_graph/main.cpp:172-175 | The loop establishes the round invariant for the whole order. |
| AcyclicPaths.MstEnd | shortest_path/acyclic_graph/main.cpp:164-178 | The same promises as `AcyclicMst`, stated for any table the loop can produce. |
| AcyclicPaths.AcyclicMst | shortest_path/acyclic_graph/main.cpp:164-178 | Entries never exceed the initial table. Unreachable vertices keep `{-1, 999999}`. Every other changed entry names a reachable predecessor with an edge to it. Without a reachable cycle, the source keeps `{source, 0}` and every edge out of a reachable vertex is relaxed. |
| AcyclicPaths.WalkBound | shortest_path/acyclic_graph/main.cpp:164-178 | In a table where every reachable edge is relaxed, the entry of the end of any walk from the source is at most the source's entry plus the walk's weight. `getAcyclicMst`'s distances are thus upper-bounded by every path. |
| AcyclicPaths.TestTargets | shortest_path/acyclic_graph/main.cpp:238-259 | The successor lists of the test graph. |
| AcyclicPaths.RankAlongWalk | shortest_path/acyclic_graph/main.cpp:238-259 | Along a walk, a rank that every edge increases never decreases. |
| AcyclicPaths.RankedAcyclic | shortest_path/acyclic_graph/main.cpp:238-259 | A rank that every edge increases rules out a cycle. |
| AcyclicPaths.TestAcyclic | shortest_path/acyclic_graph/main.cpp:236-259 | The test graph has no cycle reachable from 0, so `getAcyclicMst` promises its topological facts there. |
| AcyclicPaths.TestUpperBounds | shortest_path/acyclic_graph/main.cpp:261-265 | Any table meeting those promises is at most the expected distances 5, 14, 17, 9, 13, 25, 8. |
| BellmanFord.Graph.constructor | shortest_path/BellmanFord/main.cpp:35-37 | The graph has `size` vertices and no edges. |
| BellmanFord.Graph.Add | shortest_path/BellmanFord/main.cpp:41 | The edge is appended to its tail's list only. |
| BellmanFord.Graph.AddEdge | shortest_path/BellmanFord/main.cpp:42-46 | Appends `Edge(from, to, weight)` to `from`'s list only. |
| BellmanFord.Relax | shortest_path/BellmanFord/main.cpp:66-79 | Entries only get lighter. A changed entry is strictly lighter and now comes from `vertex` along one of its edges. A flag is raised exactly where an entry got lighter, earlier flags stay. Afterwards every edge of `vertex` leads to a head no heavier than `vertex`'s entry at the call plus the weight. |
| BellmanFord.RoundBound | shortest_path/BellmanFord/main.cpp:111-118 | A round that relaxes every edge extends the walk bound by one edge. If walks of at most `len` edges bound the entries before the round, walks of at most `len + 1` edges bound them after. |
| BellmanFord.SweepStep | shortest_path/BellmanFord/main.cpp:114-117 | Relaxing vertex `j` keeps the round invariant: entries lighter, changed entries from a predecessor, flags where lowered. |
| BellmanFord.RoundEnd | shortest_path/BellmanFord/main.cpp:111-118 | After all vertices are relaxed, the next round's invariant holds. |
| BellmanFord.Round | shortest_path/BellmanFord/main.cpp:113-117 | One round keeps the outer invariant one round further. `nextRoundUpdate[x]` is set exactly when `x`'s entry got lighter during the round. |
| BellmanFord.Lowered | shortest_path/BellmanFord/main.cpp:119-126 | `verticeToUpdate` becomes exactly the flagged vertices, in increasing order. |
| BellmanFord.BellmanFord | shortest_path/BellmanFord/main.cpp:99-131 | Entries never exceed the initial table. Every changed entry names a vertex with an edge to it. After `n` rounds, every entry is at most the initial entry of any vertex `u` plus the weight of any walk of at most `n` edges from `u`. |
| BellmanFord.SourceWalks | shortest_path/BellmanFord/main.cpp:99-131 | Hence the entry of every vertex reachable from the source along a walk of at most `n` edges is at most that walk's weight. |
| BellmanFord.Unreached | shortest_path/BellmanFord/main.cpp:101-117 | A valid three-vertex graph with one negative edge `1 -> 2`. |
| BellmanFord.UnreachedLowered | shortest_path/BellmanFord/main.cpp:101-117 | With source 0, vertex 2 is unreachable, yet any final table puts it below 999999: the initial 999999 is an ordinary value and is relaxed like one. |
| BellmanFord.TestUpperBounds | shortest_path/BellmanFord/main.cpp:216-220 | Any table meeting `BellmanFord`'s promises on that graph is at most the expected distances 0, 5, 14, 17, 9, 13, 25, 8. |
| BellmanFord.TestNegative | shortest_path/BellmanFord/main.cpp:226-242 | The second test's graph, with the letters A..E as 0..4, is valid. |
| BellmanFord.TestNegativeUpperBounds | shortest_path/BellmanFord/main.cpp:245-249 | Any such table on that graph is at most the expected 0, -1, 2, -2, 1. |
| FordFulkerson.OtherEnds | maxflow/FordFulkerson/main.cpp:32-35 | Given one end, `other` gives the opposite end, and applied again gives back the first. |
| FordFulkerson.Remaining | maxflow/FordFulkerson/main.cpp:47-59 | With the flow within capacity, what can still be pushed from either end is between 0 and the capacity. |
| FordFulkerson.RemainingBoth | maxflow/FordFulkerson/main.cpp:47-59 | For an edge that is not a loop, what remains from the tail plus what remains from the head is the capacity. |
| FordFulkerson.Pushed | maxflow/FordFulkerson/main.cpp:61-74 | Pushing `flow` from one end keeps the ends and the capacity. It lowers what remains from that end by `flow` and raises what remains from the other end by `flow`. An allowed push keeps the flow within capacity. |
| FordFulkerson.TotalUpdate | maxflow/FordFulkerson/main.cpp:201-221 | Replacing one edge changes a sum over the edges by the difference of that edge's terms. |
| FordFulkerson.NetBelowCapacity | maxflow/FordFulkerson/main.cpp:201-221 | With every flow within its capacity, the net flow out of a vertex is at most the capacity leaving it. This bounds the number of rounds. |
| FordFulkerson.PushNet | maxflow/FordFulkerson/main.cpp:210-215 | Pushing one unit along an edge from `a` raises the net flow out of `a` by one and lowers it at the other end by one. Everywhere else it is unchanged, as is every capacity. |
| FordFulkerson.Graph.constructor | maxflow/FordFulkerson/main.cpp:85-88 | No edges, `size` empty lists, a valid graph. |
| FordFulkerson.Graph.Add | maxflow/FordFulkerson/main.cpp:90-98 | Stores the edge once, lists it at its tail and then at its head, and keeps the graph valid. |
| FordFulkerson.Graph.PushFlow | maxflow/FordFulkerson/main.cpp:61-74 | Updates only the stored edge named, as `Pushed` says. |
| FordFulkerson.AddValid | maxflow/FordFulkerson/main.cpp:90-98 | Adding an edge keeps every listed index naming a stored edge incident to its vertex, and every edge listed at both ends. |
| FordFulkerson.Residual | maxflow/FordFulkerson/main.cpp:142-147 | The residual graph has the shape of the adjacency lists. Entry `k` of `u` is the other end of `u`'s `k`th edge when that edge can still carry flow from `u`, and `u` itself otherwise. |
| FordFulkerson.ResidualAt | maxflow/FordFulkerson/main.cpp:144-147 | Spells out that entry. |
| FordFulkerson.ResidualWellFormed | maxflow/FordFulkerson/main.cpp:142-147 | The residual graph names vertices only. |
| FordFulkerson.SourceGroupImpl | maxflow/FordFulkerson/main.cpp:171-184 | Marks `vertex` and exactly what a residual search through unmarked vertices reaches from it. |
| FordFulkerson.SourceGroup | maxflow/FordFulkerson/main.cpp:186-199 | The result is, in increasing order, exactly the vertices the residual graph reaches from `source`. |
| FordFulkerson.ClosedCut | maxflow/FordFulkerson/main.cpp:186-199 | Across a vertex set closed under the residual graph, every edge leaving it is full and every edge entering it is empty. |
| FordFulkerson.SideCut | maxflow/FordFulkerson/main.cpp:223-224 | The vertices the residual graph reaches from 0 form such a saturated cut. |
| FordFulkerson.AugmentingWalk | maxflow/FordFulkerson/main.cpp:133-159 | An augmenting path, read from the source, is a walk through distinct unmarked vertices, each edge able to carry flow onward. |
| FordFulkerson.AugmentingExtend | maxflow/FordFulkerson/main.cpp:149-153 | Putting an edge that can carry flow in front of an augmenting path gives an augmenting path. Its bottleneck is the smaller of the edge's remainder and the rest's bottleneck. |
| FordFulkerson.BottleneckMin | maxflow/FordFulkerson/main.cpp:133-159 | The answer is at most 9999 and at most every edge's remainder, and equals 9999 or one of them. |
| FordFulkerson.AugmentingReach | maxflow/FordFulkerson/main.cpp:133-159 | An augmenting path is a path of the residual graph. |
| FordFulkerson.PathImpl | maxflow/FordFulkerson/main.cpp:133-159 | Marks `vertex` and only adds marks. On 0, the result is unchanged and the marks are a complete residual search that never reached the target. On a positive answer, the appended edges form an augmenting path to the target whose bottleneck is the answer. |
| FordFulkerson.AugmentedPath | maxflow/FordFulkerson/main.cpp:161-169 | A path is found exactly when the residual graph reaches the target (both directions), and the path found is augmenting. |
| FordFulkerson.AlongEdgesDistinct | maxflow/FordFulkerson/main.cpp:210-215 | Along a path of distinct vertices no edge appears twice, so each push sees the edge as the search did. |
| FordFulkerson.PushStep | maxflow/FordFulkerson/main.cpp:210-215 | Each push is allowed (`remainingFlow >= 1`), and `other` moves to the next vertex of the path. |
| FordFulkerson.RoundEnd | maxflow/FordFulkerson/main.cpp:205-216 | A whole path pushed raises the net flow out of the source by one unit and keeps conservation everywhere else. |
| FordFulkerson.FordFulkerson | maxflow/FordFulkerson/main.cpp:201-225 | Terminates. Flows stay within capacity and only flows change. Flow is conserved everywhere but at source and target, and what leaves the source arrives at the target. Afterwards no augmenting path remains. The result is, in increasing order, the residual side of vertex 0, a cut whose leaving edges are full and whose entering edges are empty. |
| Kruskal.OtherEnds | mst/Kruskal/main.cpp:31-34 | From one end, `other` gives the other end, and applied again gives back the first. |
| Kruskal.Graph.constructor | mst/Kruskal/main.cpp:49-51 | `size` empty lists, a valid graph. |
| Kruskal.Graph.Add | mst/Kruskal/main.cpp:53-57 | A copy of the edge goes to its tail's list, then to its head's. No other list changes, and validity is kept. |
| Kruskal.Graph.DeleteEdge | mst/Kruskal/main.cpp:69-91 | Erases from the tail's list the first edge with the same head, then from the head's list the first edge with the same tail. No other list changes, and validity is kept. |
| Kruskal.RemoveFirstAt | mst/Kruskal/main.cpp:72-79 | At the first match, exactly that element is removed and the rest keep their order. |
| Kruskal.RemoveFirstNone | mst/Kruskal/main.cpp:72-79 | Without a match, nothing is removed. |
| Kruskal.RemoveFirstFrom | mst/Kruskal/main.cpp:72-79 | At most one element goes, and only elements of the list remain. |
| Kruskal.EraseFirst | mst/Kruskal/main.cpp:72-79 | The iterator loop computes exactly `RemoveFirst`. |
| Kruskal.Neighbours | mst/Kruskal/main.cpp:31-34 | The vertices a traversal steps to: `other` of each listed edge, one list per vertex. |
| Kruskal.NeighboursWellFormed | mst/Kruskal/main.cpp:53-57 | In a valid graph, these are vertices. |
| Kruskal.Find | mst/Kruskal/main.cpp:150-161 | The root `v` climbs to is a root. |
| Kruskal.SplitKeepsFind | mst/Kruskal/main.cpp:156 | Pointing an element at its grandparent keeps the forest and changes no element's root. |
| Kruskal.HangFind | mst/Kruskal/main.cpp:128-140 | Hanging root `r1` under root `r2` merges exactly those two sets. |
| Kruskal.RootsDrop | mst/Kruskal/main.cpp:128-140 | Hanging one root under another lowers the number of roots by one. |
| Kruskal.UnionFind.constructor | mst/Kruskal/main.cpp:113-121 | Every element is its own root, and every depth is 1. |
| Kruskal.UnionFind.Root | mst/Kruskal/main.cpp:150-161 | Returns `v`'s root. Path splitting changes no element's root and no element's root status, and leaves the depths alone. |
| Kruskal.UnionFind.IsConnected | mst/Kruskal/main.cpp:143-146 | True exactly when the two elements have the same root. Roots are unchanged. |
| Kruskal.UnionFind.Connect | mst/Kruskal/main.cpp:123-141 | Merges the two sets and no other. The result is rooted at the root of greater depth, or at the second root on a tie or when the second is deeper; only the other root stops being a root. The depths stay as they were unless the first root is hung under the second, when the second root's depth grows by one; that also happens when the two already share a root. The repeated condition at line 132 is dead. |
| Kruskal.AdjacencyEntry | mst/Kruskal/main.cpp:53-57 | Each adjacency entry comes from an edge of the list, in one direction or the other. |
| Kruskal.AdjacencyGrows | mst/Kruskal/main.cpp:53-57 | Adding an edge adds exactly its two directions to the adjacency. |
| Kruskal.Greedy | mst/Kruskal/main.cpp:176-183 | Kruskal's choice stated on graphs: each candidate in turn is kept exactly when its ends are not yet connected by the edges kept before it. Kept edges join vertices. |
| Kruskal.GreedyFrom | mst/Kruskal/main.cpp:176-183 | The kept edges are candidates, and there are no more of them than candidates. |
| Kruskal.GreedyOrdered | mst/Kruskal/main.cpp:174-183 | On sorted candidates, the kept edges are in weight order. |
| Kruskal.GreedyForest | mst/Kruskal/main.cpp:176-183 | The kept edges form a forest: each one joins ends not yet connected by the earlier ones. |
| Kruskal.GreedySpans | mst/Kruskal/main.cpp:176-183 | The kept edges span: the ends of every candidate are connected by them. |
| Kruskal.ReachSameRoot | mst/Kruskal/main.cpp:178 | Vertices connected by the kept edges have one root. |
| Kruskal.MergeTracks | mst/Kruskal/main.cpp:180-181 | After `connect`, the roots again track exactly the components of the kept edges. |
| Kruskal.ChosenKeep | mst/Kruskal/main.cpp:178-182 | An edge whose ends have different roots is kept and its ends are connected, keeping the loop invariant. |
| Kruskal.ChosenSkip | mst/Kruskal/main.cpp:178 | An edge whose ends have one root is skipped, keeping the loop invariant. |
| Kruskal.Kruskal | mst/Kruskal/main.cpp:169-186 | On the edges after the sort, the result is exactly `Greedy`'s choice: in weight order, a spanning forest of the candidates. On `n > 0` vertices at most `n - 1` edges are kept. |
| KruskalCycle.UnionFind.constructor | mst/LazyPrim/main1.cpp:142-151 | Every element is its own root, and every depth is 1. |
| KruskalCycle.UnionFind.Root | mst/LazyPrim/main1.cpp:181-190 | Returns `v`'s root. Path halving changes no element's root and no element's root status, and leaves the depths alone. |
| KruskalCycle.UnionFind.IsConnected | mst/LazyPrim/main1.cpp:175-178 | True exactly when the two elements have the same root. Roots are unchanged. |
| KruskalCycle.UnionFind.Connect | mst/LazyPrim/main1.cpp:153-173 | Merges the two sets and no other. The result is rooted at the deeper root, or at the second on a tie. The depths are unchanged, except that on a tie the second root's depth grows by one, even when the two already share a root. |
| KruskalCycle.MergedJoins | mst/LazyPrim/main1.cpp:153-173 | After `connect(a, b)`, `a` and `b` share a root, and elements that shared one still do. |
| KruskalCycle.MergedSwap | mst/LazyPrim/main1.cpp:244-247 | Connecting head to tail merges the same two sets as tail to head. |
| KruskalCycle.Kruskal8 | mst/LazyPrim/main1.cpp:233-252 | On eight vertices, after the sort, the result is exactly `Greedy`'s choice: a spanning forest of at most seven edges. |
| KruskalCycle.UnseenMark | mst/LazyPrim/main1.cpp:112-114 | Putting an unseen vertex on the path leaves one fewer unseen, so the recursion terminates. |
| KruskalCycle.CycleFound | mst/LazyPrim/main1.cpp:121-124 | Meeting a vertex on the search path, other than the one just come from, closes a cycle of the graph. |
| KruskalCycle.PathStep | mst/LazyPrim/main1.cpp:112-115 | Stepping onto an unseen neighbour extends the search path. |
| KruskalCycle.PathBack | mst/LazyPrim/main1.cpp:119 | Finishing a neighbour whose search found no cycle restores the path. |
| KruskalCycle.SearchBack | mst/LazyPrim/main1.cpp:112-120 | That step keeps the loop invariant. |
| KruskalCycle.IsCycleImpl | mst/LazyPrim/main1.cpp:104-128 | Markers only move forward from unseen. When it reports a cycle, the graph has one. Otherwise the search path is as it was and every vertex newly seen is finished. |
| KruskalCycle.IsCycleFrom | mst/LazyPrim/main1.cpp:130-137 | A reported cycle is a cycle of the graph. |
| LazyPrimHeap.Parent | mst/LazyPrim/main.cpp:127-130 | `(position - 1) / 2`, truncated as in C: 0 at the root, and otherwise a smaller slot whose left or right child is `position`. |
| LazyPrimHeap.ParentOfChild | mst/LazyPrim/main.cpp:117-130 | The parent of either child of `p` is `p`. |
| LazyPrimHeap.Swap | mst/LazyPrim/main.cpp:166 | Exchanges exactly the two slots and keeps the rest. |
| LazyPrimHeap.SinkOnce | mst/LazyPrim/main.cpp:159-185 | The returned position is `position` exactly when nothing moved. Otherwise it is a child inside the vector. Afterwards the slot is no heavier than either child. Only the slot and its two children change. |
| LazyPrimHeap.Sink | mst/LazyPrim/main.cpp:198-207 | Keeps the length; `SinkPermutes` adds that it only rearranges. |
| LazyPrimHeap.PromoteOnce | mst/LazyPrim/main.cpp:187-195 | Moves exactly when the slot is strictly lighter than its parent. It then swaps the two and returns the parent, a smaller position; otherwise nothing changes. |
| LazyPrimHeap.Promote | mst/LazyPrim/main.cpp:209-218 | Keeps the length; `PromotePermutes` and `PromoteOrders` add the rest. |
| LazyPrimHeap.Add | mst/LazyPrim/main.cpp:232-239 | The vector grows by one; `AddPermutes` and `AddOrdered` add the rest. |
| LazyPrimHeap.Pop | mst/LazyPrim/main.cpp:241-251 | Returns the root, and leaves one slot fewer. |
| LazyPrimHeap.Shrunk | mst/LazyPrim/main.cpp:245-246 | One slot fewer. The old last edge is at the root when any slot is left, and every other slot keeps its edge. |
| LazyPrimHeap.ShrunkPermutes | mst/LazyPrim/main.cpp:243-246 | Moving the last slot to the root loses exactly the old root. |
| LazyPrimHeap.MoveLastToFront | mst/LazyPrim/main.cpp:245-246 | The same, on any sequence: the copy and the `pop_back` lose exactly the first element. |
| LazyPrimHeap.SwapPermutes | mst/LazyPrim/main.cpp:166 | A swap keeps the multiset of edges. |
| LazyPrimHeap.SinkOncePermutes | mst/LazyPrim/main.cpp:159-185 | `sinkOnce` keeps the multiset of edges. |
| LazyPrimHeap.SinkPermutes | mst/LazyPrim/main.cpp:198-207 | `sink` keeps the multiset of edges. |
| LazyPrimHeap.PromotePermutes | mst/LazyPrim/main.cpp:209-218 | `promote` keeps the multiset of edges. |
| LazyPrimHeap.AddPermutes | mst/LazyPrim/main.cpp:232-239 | `add` puts in exactly the new edge. |
| LazyPrimHeap.PopPermutes | mst/LazyPrim/main.cpp:241-251 | `pop` takes out exactly the edge it returns, which was in the heap. |
| LazyPrimHeap.Heap.constructor | mst/LazyPrim/main.cpp:223-225 | The heap starts empty. |
| LazyPrimHeap.Heap.SwapSlots | mst/LazyPrim/main.cpp:166 | The vector afterwards is `Swap` of the vector before. |
| LazyPrimHeap.Heap.SinkOnceAt | mst/LazyPrim/main.cpp:159-185 | The vector and the returned position are those of `SinkOnce`. |
| LazyPrimHeap.Heap.PromoteOnceAt | mst/LazyPrim/main.cpp:187-195 | The vector and the returned position are those of `PromoteOnce`. |
| LazyPrimHeap.Heap.SinkAt | mst/LazyPrim/main.cpp:198-207 | The loop computes `Sink`. |
| LazyPrimHeap.Heap.PromoteAt | mst/LazyPrim/main.cpp:209-218 | The loop computes `Promote`. |
| LazyPrimHeap.Heap.Push | mst/LazyPrim/main.cpp:232-239 | The vector afterwards is `Add` of the vector before. |
| LazyPrimHeap.Heap.PopMin | mst/LazyPrim/main.cpp:241-251 | Returns and leaves what `Pop` gives. |
| LazyPrimHeap.Heap.SinkOnceFixedAt | mst/LazyPrim/main.cpp:159-185 | The intended `sinkOnce`: the vector and the position of `SinkOnceFixed`. |
| LazyPrimHeap.Heap.SinkFixedAt | mst/LazyPrim/main.cpp:198-207 | The intended `sink`: the vector of `SinkFixed`. |
| LazyPrimHeap.Heap.PopLightest | mst/LazyPrim/main.cpp:241-251 | The intended `pop`: returns and leaves what `PopFixed` gives. |
| LazyPrimHeap.PromoteOrders | mst/LazyPrim/main.cpp:209-218 | Promoting the one slot that may be lighter than its parent restores heap order. |
| LazyPrimHeap.AddOrdered | mst/LazyPrim/main.cpp:232-239 | `add` keeps heap order. |
| LazyPrimHeap.RootLightest | mst/LazyPrim/main.cpp:241-243 | In an ordered heap the root is no heavier than any slot, so `pop` returns a lightest edge. |
| LazyPrimHeap.PopBreaksOrder | mst/LazyPrim/main.cpp:164-181 | Adding weights 9, 2, 3, 7, 8, 2, 4, 5 gives an ordered heap. The first `pop` leaves it out of order. The third `pop` returns weight 4 while weight 3 is still in the heap. |
| LazyPrimHeap.AddsFirst | mst/LazyPrim/main.cpp:232-239 | The first four of those adds give the heap 2, 7, 3, 9. |
| LazyPrimHeap.AddsLast | mst/LazyPrim/main.cpp:232-239 | The last four adds give 2, 5, 2, 7, 8, 3, 4, 9, which is in heap order. |
| LazyPrimHeap.LastAdd | mst/LazyPrim/main.cpp:232-239 | The eighth add, of weight 5, rises two levels. |
| LazyPrimHeap.FirstPop | mst/LazyPrim/main.cpp:164-181 | At the root both children rise, so the old last edge, 9, goes left and the old left child, 5, goes right above the 3; the result is out of order. |
| LazyPrimHeap.LaterPops | mst/LazyPrim/main.cpp:241-251 | The second `pop` leaves 4 at the root; the third returns 4 and leaves 3 at the root. |
| LazyPrimHeap.SinkOnceFixed | mst/LazyPrim/main.cpp:159-185 | The intended step. It moves only when the lighter child is strictly lighter than the slot, and then swaps the slot with that child. When nothing moves, the slot is no heavier than either child. |
| LazyPrimHeap.SinkFixed | mst/LazyPrim/main.cpp:198-207 | Keeps the length; `SinkFixedOrders` and `SinkFixedPermutes` add the rest. |
| LazyPrimHeap.PopFixed | mst/LazyPrim/main.cpp:241-251 | Returns the root and leaves one slot fewer. |
| LazyPrimHeap.SinkFixedOrders | mst/LazyPrim/main.cpp:198-207 | Sinking the one slot that may be heavier than its children restores heap order. |
| LazyPrimHeap.PopFixedOrdered | mst/LazyPrim/main.cpp:241-251 | On an ordered heap the intended `pop` returns a lightest edge and leaves an ordered heap. |
| LazyPrimHeap.SinkOnceFixedPermutes | mst/LazyPrim/main.cpp:159-185 | The intended step keeps the multiset of edges. |
| LazyPrimHeap.SinkFixedPermutes | mst/LazyPrim/main.cpp:198-207 | The intended `sink` keeps the multiset of edges. |
| LazyPrimHeap.PopFixedPermutes | mst/LazyPrim/main.cpp:241-251 | The intended `pop` takes out exactly the edge it returns. |
| LazyPrimRounds.EndsAttachedAppend | mst/LazyPrim/main.cpp:290-292 | Taking an edge from an attached vertex and attaching its other end keeps every taken edge between attached vertices. |
| LazyPrimRounds.CountFalseNone | mst/LazyPrim/main.cpp:294 | No unattached vertex is left exactly when every vertex is attached. |
| LazyPrimRounds.NoneAttached | mst/LazyPrim/main.cpp:270 | `n` entries, all false. |
| LazyPrimRounds.CountFalseAll | mst/LazyPrim/main.cpp:270-272 | All `n` of them are unattached. |
| LazyPrimRounds.StartTree | mst/LazyPrim/main.cpp:269-272 | Vertex 0 alone, with no edges, is a tree. |
| LazyPrimRounds.Crossing | mst/LazyPrim/main.cpp:276-285 | In a connected graph, while a vertex is unattached, some edge at an attached vertex leads to an unattached one. |
| LazyPrimRounds.Alone | mst/LazyPrim/main.cpp:290 | A vertex that no taken edge touches reaches only itself. |
| LazyPrimRounds.NotJoined | mst/LazyPrim/main.cpp:288-290 | An edge with one end unattached joins two vertices the taken edges do not connect yet, so taking it closes no cycle. |
| LazyPrimRounds.ReachGrows | mst/LazyPrim/main.cpp:290-292 | After taking it, vertex 0 reaches the new vertex and everything it reached before. |
| LazyPrimRounds.TreeGrows | mst/LazyPrim/main.cpp:289-292 | Taking it and attaching the unattached end keeps the tree. |
| LazyPrimRounds.GrownAppend | mst/LazyPrim/main.cpp:290 | An edge between vertices not yet connected extends a forest to a forest. |
| LazyPrimRounds.HeapAfterPop | mst/LazyPrim/main.cpp:287-292 | After the pop and the attach, the rest of the heap is still offered edges. Every edge leaving the tree, except at the new vertex, is still in it. |
| LazyPrimRounds.RoundOf | mst/LazyPrim/main.cpp:274-294 | Puts the parts of the round invariant together. |
| LazyPrimRounds.StaleRemove | mst/LazyPrim/main.cpp:287-288 | Removing an edge lowers the count of stale edges by one exactly when that edge was stale. |
| LazyPrimRounds.AllInGraphAppend | mst/LazyPrim/main.cpp:290 | Appending a graph edge keeps every taken edge a graph edge. |
| LazyPrimRounds.StartRound | mst/LazyPrim/main.cpp:265-272 | The state before the first round meets the round invariant, with `counter` equal to the number of unattached vertices. |
| LazyPrimRounds.OfferedFromNext | mst/LazyPrim/main.cpp:278-285 | The `for` loop's invariant advances by one edge. |
| LazyPrimRounds.OfferStart | mst/LazyPrim/main.cpp:276-278 | The `for` loop's invariant holds before its first edge. |
| LazyPrimRounds.OfferNext | mst/LazyPrim/main.cpp:280-283 | Adding the edge when the far end is unattached, and passing over it otherwise, advances the invariant and keeps the stale count. |
| LazyPrimRounds.OfferedAdd | mst/LazyPrim/main.cpp:282 | An edge at an attached vertex may join the heap. |
| LazyPrimRounds.StaleAdd | mst/LazyPrim/main.cpp:282 | Adding an edge that is not stale keeps the stale count. |
| LazyPrimRounds.OfferDone | mst/LazyPrim/main.cpp:278-285 | After the loop, every edge leaving the tree is in the heap. |
| LazyPrimRounds.HeapNotEmpty | mst/LazyPrim/main.cpp:287 | With a vertex still unattached in a connected graph, the heap holds an edge, so the `pop` is defined. |
| LazyPrimRounds.Skip | mst/LazyPrim/main.cpp:288 | Popping a stale edge keeps the round invariant and lowers the stale count. The `continue` goes back to the loop test with `counter` unchanged. |
| LazyPrimRounds.Take | mst/LazyPrim/main.cpp:289-292 | Popping an edge with an unattached end attaches that end. It keeps the round invariant at the new vertex and lowers the unattached count by one. |
| LazyPrimRounds.OtherInRange | mst/LazyPrim/main.cpp:280 | The far end of a list entry is a vertex. |
| LazyPrim.Offer | mst/LazyPrim/main.cpp:278-285 | Adds to the heap exactly those edges at `vertex` whose far end is unattached, all of them, and keeps the heap's other edges. |
| LazyPrim.LazyPrim | mst/LazyPrim/main.cpp:263-297 | On a connected graph of at least two vertices, returns one edge fewer than the vertices. The edges are graph edges, form a forest, and reach every vertex from 0: a spanning tree. |
| EagerPrimHeap.OtherEnd | mst/EagerPrim/main.cpp:32-36 | For an end of the edge, the opposite end. |
| EagerPrimHeap.SetSource | mst/EagerPrim/main.cpp:43-50 | The same edge, with the same weight and ends, and `source` as its tail. It is unchanged when `source` already was the tail. |
| EagerPrimHeap.SlotsFit | mst/EagerPrim/main.cpp:255-278 | With the position map in step, each vertex has one slot at most, so there are no more slots than vertices. |
| EagerPrimHeap.DistinctFit | mst/EagerPrim/main.cpp:245 | Distinct vertex numbers below `n` number `n` at most. |
| EagerPrimHeap.SwapPos | mst/EagerPrim/main.cpp:176 | Exchanges exactly the two positions. |
| EagerPrimHeap.ReindexedUnique | mst/EagerPrim/main.cpp:171-177 | Given the slots and the previous map, the updated position map is determined. |
| EagerPrimHeap.SwapReindexed | mst/EagerPrim/main.cpp:171-177 | Swapping two slots and then the positions of the two vertices they now hold keeps the map the inverse of the slots. |
| EagerPrimHeap.ReindexedTrans | mst/EagerPrim/main.cpp:218-238 | Two updates in a row, as in the loops of `sink` and `promote`, are one update. |
| EagerPrimHeap.HeadsPermute | mst/EagerPrim/main.cpp:280-293 | Rearranging the slots keeps the set of vertices that have one. |
| EagerPrimHeap.Added | mst/EagerPrim/main.cpp:255-278 | The vector grows by one exactly when the far end had no slot; otherwise its length is kept. |
| EagerPrimHeap.AddedEntry | mst/EagerPrim/main.cpp:255-278 | Afterwards the far end has a slot, and nothing else changes. A vertex without a slot gains the edge from `from`. A slot is given `Edge(from, to, weight)` exactly when that is strictly lighter. Otherwise the vector is unchanged. |
| EagerPrimHeap.AppendedEntry | mst/EagerPrim/main.cpp:259-267 | Appending and promoting adds exactly the new edge and its vertex. |
| EagerPrimHeap.ReplacedEntry | mst/EagerPrim/main.cpp:269-276 | Replacing a slot's edge by one to the same vertex and promoting swaps exactly that edge and keeps the vertices. |
| EagerPrimHeap.ReplacePermutes | mst/EagerPrim/main.cpp:274 | Overwriting a slot takes out the old edge and puts in the new one. |
| EagerPrimHeap.AddedOrdered | mst/EagerPrim/main.cpp:255-278 | `add` keeps heap order in both branches: the append and the decrease of a key. |
| EagerPrimHeap.PopEntry | mst/EagerPrim/main.cpp:280-293 | `pop`, as written or intended, removes exactly the root's vertex; the edges left are edges of the other slots. |
| EagerPrimHeap.Heap.constructor | mst/EagerPrim/main.cpp:243-248 | No edges. Every position is -1, except the start vertex's, which is `size`. The map is in step. |
| EagerPrimHeap.Heap.SwapSlots | mst/EagerPrim/main.cpp:171-177 | Swaps the two slots, then the positions of the vertices they now hold, and keeps the map in step. |
| EagerPrimHeap.Heap.SinkOnceAt | mst/EagerPrim/main.cpp:179-205 | Moves the slots as `LazyPrimHeap.SinkOnce` does, and keeps the map in step. |
| EagerPrimHeap.Heap.PromoteOnceAt | mst/EagerPrim/main.cpp:207-215 | Moves the slots as `PromoteOnce` does, and keeps the map in step. |
| EagerPrimHeap.Heap.SinkAt | mst/EagerPrim/main.cpp:218-227 | The loop computes `Sink` and keeps the map in step. |
| EagerPrimHeap.Heap.PromoteAt | mst/EagerPrim/main.cpp:229-238 | The loop computes `Promote` and keeps the map in step. |
| EagerPrimHeap.Heap.Add | mst/EagerPrim/main.cpp:255-278 | The vector afterwards is `Added` of the vector before, and the map is in step. |
| EagerPrimHeap.Heap.Pop | mst/EagerPrim/main.cpp:280-293 | As written, on at least two slots. Returns and leaves what `LazyPrimHeap.Pop` gives. The popped vertex's position becomes `size`. The map is in step. |
| EagerPrimHeap.Heap.SinkOnceFixedAt | mst/EagerPrim/main.cpp:179-205 | The intended step, `SinkOnceFixed`, with the map in step. |
| EagerPrimHeap.Heap.SinkFixedAt | mst/EagerPrim/main.cpp:218-227 | The intended `sink`, `SinkFixed`, with the map in step. |
| EagerPrimHeap.Heap.PopLightest | mst/EagerPrim/main.cpp:280-293 | The intended `pop`, on any non-empty heap. Returns and leaves what `PopFixed` gives. The popped vertex's position becomes `size`. The map is in step. |
| EagerPrimHeap.AppendReindexed | mst/EagerPrim/main.cpp:261-265 | Appending an edge to a vertex without a slot, at position `size()`, keeps the map in step. |
| EagerPrimHeap.ReplaceReindexed | mst/EagerPrim/main.cpp:271-274 | Overwriting a slot with an edge to the same vertex keeps the map in step. |
| EagerPrimHeap.ShrunkReindexed | mst/EagerPrim/main.cpp:284-288 | Retiring the root's vertex, moving the last slot to the root and giving its vertex position 0 keeps the map in step. |
| EagerPrimHeap.InOrderIndexed | mst/EagerPrim/main.cpp:245 | Slots holding edges to 1, 2, ... in order are indexed by the map that sends `v` to `v - 1`. |
| EagerPrimHeap.PopBreaksIndexedOrder | mst/EagerPrim/main.cpp:179-205 | A heap of edges to eight distinct vertices, ordered and indexed. The first `pop` leaves it out of order. The third returns weight 4 while weight 3 is still in the heap. |
| EagerPrimHeap.IndexedFirstPop | mst/EagerPrim/main.cpp:184-201 | At the root both children rise, and the result is out of order. |
| EagerPrimHeap.IndexedLaterPops | mst/EagerPrim/main.cpp:280-293 | The second and third pops of that heap. |
| EagerPrimHeap.HeapScenario | mst/EagerPrim/main.cpp:480-510 | In a heap of 8 vertices started at 0, after three adds from 0, vertices 2, 4 and 7 have positions. The `pop` returns `Edge(0, 7, 4)` and gives 7 position 8, while 2 and 4 keep theirs. The four adds from 7 leave `[7->4 (4), 7->5 (4), 7->1 (5), 0->2 (5)]`. |
| EagerPrimHeap.FromZero | mst/EagerPrim/main.cpp:482-486 | The three adds from 0 leave the slots 7, 4, 2, at positions 0, 1, 2. |
| EagerPrimHeap.PopSeven | mst/EagerPrim/main.cpp:494-503 | The `pop` returns the edge to 7, leaves the slots 2, 4 and gives 7 position 8. |
| EagerPrimHeap.FromSeven | mst/EagerPrim/main.cpp:505-508 | The adds from 7 insert 1 and 5, pass over the heavier-or-equal edge to 2, and lower 4's key. |
| EagerPrimHeap.KeptAt | mst/EagerPrim/main.cpp:255-278 | A vertex without a slot keeps its position through an update. |
| EagerPrimRounds.ReindexedGrows | mst/EagerPrim/main.cpp:255-278 | No vertex with a position loses it through an update. |
| EagerPrimRounds.StartStage | mst/EagerPrim/main.cpp:339-345 | The state before the first round meets the round invariant, with `counter` equal to the number of unattached vertices. |
| EagerPrimRounds.AddKeeps | mst/EagerPrim/main.cpp:353-356 | `add(e, vertex)` for an edge to an unattached vertex keeps the heap a frontier. Every slot stays a graph edge from an attached to an unattached vertex. No position is lost, and the far end gets one. |
| EagerPrimRounds.SeenNext | mst/EagerPrim/main.cpp:351-357 | The `for` loop's invariant advances by one edge. |
| EagerPrimRounds.SeenAll | mst/EagerPrim/main.cpp:351-357 | After the loop, every edge leaving the tree has given its far end a slot. |
| EagerPrimRounds.FrontierNotEmpty | mst/EagerPrim/main.cpp:362 | With a vertex still unattached in a connected graph, the heap is not empty, so `pop` is defined. |
| EagerPrimRounds.PopKeeps | mst/EagerPrim/main.cpp:360-369 | The root popped by either `pop` (as written, or guarded) leads from an attached to an unattached vertex, so the inner loop's test fails at once. Attaching that vertex keeps the rest a frontier, still covering every edge leaving the tree. |
| EagerPrimRounds.TakeKeeps | mst/EagerPrim/main.cpp:365-369 | Taking that edge keeps the tree and lowers the unattached count by one. |
| EagerPrimRounds.OneUnattached | mst/EagerPrim/main.cpp:371 | With one vertex unattached, any two unattached vertices are that vertex. |
| EagerPrimRounds.LastPopSingleton | mst/EagerPrim/main.cpp:288 | In the last round every slot leads to the one unattached vertex, so the heap holds at most one slot. That is why the `pop` as written, which reads slot 0 after shrinking, is not usable there. |
| EagerPrim.OfferAll | mst/EagerPrim/main.cpp:349-357 | After the loop the heap is still a frontier, and every edge leaving the tree has given its far end a slot. |
| EagerPrim.EagerPrim | mst/EagerPrim/main.cpp:337-374 | On a connected graph of at least two vertices, returns one edge fewer than the vertices, each a graph edge oriented away from the tree. They form a forest that reaches every vertex from 0: a spanning tree. |

## Left out

- The `operator<<` printers, the CppUnit fixtures and `main` of every program, and the `std::cout` in `hasEulerPath`: output and test harness. The test bodies appear only as concrete lemmas.
- `simplex/simplex/main.cpp`: floating-point pivoting, not part of this model.
- The `float` weights of the two shortest-path programs are modelled as `int`. Every weight in their tests is a whole number, and the results are stored as `int`.
- `std::sort` is not modelled. The Kruskal models take the sorted sequence as a parameter that must be a permutation of the input, ordered by weight. The order among equal weights is left open, as `std::sort` is not stable.
- `operator==` on edges compares only weights. It matters only to the tests' `CPPUNIT_ASSERT_EQUAL` on edge vectors, which are not modelled.
- The Ford-Fulkerson graph keeps its edges in a `std::list` and lists their addresses. The model stores the edges in a sequence and lists indices into it. That list nodes keep their addresses is not modelled.
- `Heap::empty`, `getEdgeToVertex`, `getEdges` and `GetVertexToPos` of `mst/EagerPrim/main.cpp` are not modelled. They are accessors the algorithm does not call; the last two are the `edges` and `pos` fields.
- The `Edge` and `Graph` classes of `mst/LazyPrim/main.cpp` and `mst/EagerPrim/main.cpp` are the same text as those of `mst/Kruskal/main.cpp`. They are modelled once, in module `Kruskal`, and imported.
- The commented-out Kruskal of `mst/LazyPrim/main1.cpp` (lines 208-231) is not modelled.
- The letter-vertex overloads of `shortest_path/BellmanFord/main.cpp` (lines 21-23 and 48-52) are not modelled. The test with letters is stated with their numbers.
- LazyPrim.LazyPrim: proves a spanning tree, not a minimum one, and not the weights test1 expects (lines 343-401). It uses `pop` as written, which need not return a lightest edge (see "## Findings"), so no minimality could be proved of it anyway.
- EagerPrim.EagerPrim: proves a spanning tree, not a minimum one, and not the weights test1 expects (lines 420-478). It pops with `pop` as written, double-swap sink included, whenever the heap holds two slots or more. Every round whose heap holds one slot (the last round always does) uses the guarded `pop`, because line 288 then indexes an empty vector; on one slot the sink does nothing, so only that write is skipped (see "## Findings").
- LazyPrim.LazyPrim: requires at least two vertices and a connected graph. On one vertex the source pops an empty heap, and on a disconnected graph it eventually does too.
- EagerPrim.EagerPrim: requires at least two vertices and a connected graph, for the same reason. The inner `do`-`while` that skips stale edges is one `pop`. The model proves that a popped edge is never stale.
- EagerPrimHeap.Heap.Pop: requires two slots, because line 288 reads slot 0 after `pop_back`.
- Kruskal.Kruskal: takes `graphEdges` as a value. The source takes it by non-const reference and `std::sort` reorders the caller's vector in place (lines 169-174), so the caller's vector afterwards is `sorted`. The model does not hand that vector back.
- Kruskal.Kruskal: proves the greedy choice, a spanning forest in weight order, but not that it is a minimum spanning tree. The exact edge list of test1 (lines 238-281) is not stated.
- KruskalCycle.Kruskal8: as for `Kruskal.Kruskal`. The expected weights of its test are not stated.
- KruskalCycle.IsCycleFrom: proves only that a reported cycle exists. Completeness is not proved. The skip of `prevVertex` also skips a parallel edge back to it, so a two-edge cycle is missed.
- StrongComponents.StrongComponents: proves that each label is the least vertex of its second-pass search tree, that each tree vertex is reachable from the tree's root, and that mutually reachable vertices share a label. It does not prove the converse, that vertices sharing a label reach each other; that half depends on the finishing order of the first pass, which its contract does not state. The expected vector of test1 (lines 206-210) is not stated.
- GraphEuler.Step, GraphEuler.GetEulerPath: state each turn's new lists, but not that no edge is walked twice. A try that deletes and re-adds an edge keeps the entry count only on a graph without parallel edges whose lists agree at both ends: the erase loop can drop two parallel copies and `add` restores one. Nor is it proved that a turn never runs off the end of its list, where every tried edge was re-added and nothing is deleted. Ruling that out needs Fleury's parity argument (two bridges at the current vertex would need two more odd vertices), which is not modelled.
- GraphEuler.GetEulerPath: takes a `fuel` bound on the number of steps, because termination through the re-added bridges is not proved. The walk test4 expects (lines 285-288) is not computed.
- GraphPriority.Dfs: the exact orders test1 and test2 expect (lines 107-152) are not stated. The contract fixes which vertices are listed and the post-order shape, not the order among siblings.
- AcyclicPaths.AcyclicMst: proves that, without a reachable cycle, every edge out of a reachable vertex is relaxed, which gives upper bounds. It does not prove the matching lower bounds, that entries are exact distances. 999999 is an ordinary integer, so it bounds nothing from below.
- BellmanFord.BellmanFord: proves that after `n` rounds every walk of at most `n` edges bounds its head's entry. Exact distances and negative cycles are not treated.
- FordFulkerson.FordFulkerson: requires `source != target`; with equal ends the source program finds an empty path every round and never stops. The cut of the test, {0, 2, 3, 6}, is not stated.
- FordFulkerson.FordFulkerson: requires every capacity to be at least 0 (and every flow within it), through `Graph.Valid`, although `Edge` and `Graph::add` (maxflow/FordFulkerson/main.cpp:14-20, 90-98) accept any `int`. A negative-capacity edge leaves its tail with a nonzero, negative remainder (line 144), so the search crosses it. If the target lies beyond it, `std::min` returns a negative bottleneck (line 149). The callers above treat that as failure, but `result` keeps the edges already pushed, and the `bool` bottleneck then pushes one unit along that partial path until `remainingFlow`'s or `pushFlow`'s assert fails (lines 49, 63). The model does not follow that run.
- FordFulkerson.FordFulkerson: the maximality of the flow is stated as the saturated cut around vertex 0's residual side, not as a flow value.

## Findings

| source | as written | input that shows it | evidently intended | confidence | as-written member | corrected member |
|---|---|---|---|---|---|---|
| graph/bfs/main.cpp:84-85 | expands `queue.back()`, the newest entry, but `pop()` removes the oldest, so some entries are never expanded | edges 0-1, 0-2, 1-3 from 0: 1 is never expanded, and 3, reachable, gets no parent | expand the entry removed, `queue.front()`, so every reachable vertex gets a parent | not executed | GraphBfs.BfsMissesVertex | GraphBfs.BfsFront |
| mst/LazyPrim/main.cpp:164-181 | when both children are lighter, both are swapped into the slot, so the first one lands under the second | add weights 9, 2, 3, 7, 8, 2, 4, 5; the first `pop` breaks heap order and the third returns 4 while 3 is in the heap | swap only the lighter child, so `pop` always returns a lightest edge | not executed | LazyPrimHeap.PopBreaksOrder | LazyPrimHeap.PopFixedOrdered |
| mst/EagerPrim/main.cpp:184-201 | the same double swap in the indexed heap | 8 slots to vertices 1..8 of weights 2, 5, 2, 7, 8, 3, 4, 9; the first `pop` breaks heap order | as above | not executed | EagerPrimHeap.PopBreaksIndexedOrder | EagerPrimHeap.Heap.PopLightest |
| mst/EagerPrim/main.cpp:288 | after `pop_back` it reads `m_Edges[0]` even when the heap is now empty | a heap of one slot, in every round of `EagerPrim` whose heap holds one slot (the last round always does; on the path 0-1, 1-2 the first round does too) | write the new root's position only when a slot is left | not executed | EagerPrimRounds.LastPopSingleton | EagerPrimHeap.Heap.PopLightest |
