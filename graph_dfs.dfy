/** graph/dfs/main.cpp: depth-first reachability marks on an undirected graph. */
module GraphDfs {
  import opened Paths

  /** The graph as `dfs` sees it: `adj[v]` holds the neighbours pushed by `add`. */
  datatype Graph = Graph(adj: seq<seq<int>>)
  {
    function Size(): nat { |adj| }

    ghost predicate Valid() { WellFormed(adj) }
  }

  /** `dfs_impl`: marks every unmarked vertex reachable from `vertex`. The
      `target` argument is accepted and never consulted. */
  method DfsImpl(g: Graph, vertex: int, target: int, marked: seq<bool>) returns (out: seq<bool>)
    requires g.Valid() && |marked| == g.Size()
    requires 0 <= vertex < g.Size() && marked[vertex]
    ensures Explored(g.adj, vertex, marked, out) && AllMarked(out, g.adj[vertex])
    decreases CountFalse(marked)
  {
    out := marked;
    SearchedStart(g.adj, vertex, marked);
    for i := 0 to |g.adj[vertex]|
      invariant Searched(g.adj, vertex, marked, out, i)
    {
      var next := g.adj[vertex][i];
      if !out[next] {
        var before := out[next := true];
        CountFalseGrows(marked, out);
        CountFalseGrows(out, before);
        var after := DfsImpl(g, next, target, before);
        SearchedChild(g.adj, vertex, marked, out, i, after);
        out := after;
      } else {
        SearchedSkip(g.adj, vertex, marked, out, i);
      }
    }
    SearchedDone(g.adj, vertex, marked, out);
  }

  /** `dfs`: the marks are exactly the vertices reachable from `startVertex`,
      whatever `target` is. */
  method Dfs(g: Graph, startVertex: int, target: int) returns (marked: seq<bool>)
    requires g.Valid() && 0 <= startVertex < g.Size()
    ensures |marked| == g.Size()
    ensures marked[startVertex]
    ensures forall v :: 0 <= v < g.Size() ==> (marked[v] <==> Reachable(g.adj, startVertex, v))
  {
    var init := seq(g.Size(), _ => false)[startVertex := true];
    marked := DfsImpl(g, startVertex, target, init);
    assert Closed(g.adj, marked);
    forall v | 0 <= v < g.Size()
      ensures marked[v] <==> Reachable(g.adj, startVertex, v)
    {
      if marked[v] && v == startVertex {
        ReachRefl(g.adj, v);
      }
      if Reachable(g.adj, startVertex, v) {
        ClosedReach(g.adj, marked, startVertex, v);
      }
    }
  }

  /** The adjacency lists that the test's calls add(0,1), add(0,2), add(3,2), add(1,2),
      add(3,5), add(3,4), add(6,7), add(8,7) build on ten vertices. */
  function TestGraph(): (g: Graph)
    ensures g.Valid() && g.Size() == 10
  {
    Graph([[1, 2], [0, 2], [0, 3, 1], [2, 5, 4], [3], [3], [7], [6, 8], [7], []])
  }

  /** The marks the test expects from vertex 0: 0..5 reachable. */
  lemma TestReachableFromZero()
    ensures forall v :: 0 <= v <= 5 ==> Reachable(TestGraph().adj, 0, v)
  {
    var adj := TestGraph().adj;
    ReachRefl(adj, 0);
    ReachAppend(adj, 0, 0, 1);
    ReachAppend(adj, 0, 0, 2);
    ReachAppend(adj, 0, 2, 3);
    ReachAppend(adj, 0, 3, 4);
    ReachAppend(adj, 0, 3, 5);
  }

  /** The marks the test expects from vertex 0: 6..9 unreachable. */
  lemma TestUnreachableFromZero()
    ensures forall v :: 6 <= v < 10 ==> !Reachable(TestGraph().adj, 0, v)
  {
    var adj := TestGraph().adj;
    var m := [true, true, true, true, true, true, false, false, false, false];
    assert Closed(adj, m) by {
      forall u | 0 <= u < |m| && m[u] ensures AllMarked(m, adj[u]) {
        assert u in {0, 1, 2, 3, 4, 5};
      }
    }
    forall v | 6 <= v < 10 ensures !Reachable(adj, 0, v) {
      if Reachable(adj, 0, v) {
        ClosedReach(adj, m, 0, v);
      }
    }
  }

  /** The test's second search: vertex 8 is reachable from 6. */
  lemma TestReachableFromSix()
    ensures Reachable(TestGraph().adj, 6, 8)
  {
    assert IsWalk(TestGraph().adj, [6, 7, 8]);
  }
}
