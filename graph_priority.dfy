/** graph/priority/main.cpp: depth-first post-order listing of the vertices
    reachable from a start vertex in an undirected graph. */
module GraphPriority {
  import opened Paths

  /** The graph as `dfs` sees it: `adj[v]` holds the neighbours pushed by `add`. */
  datatype Graph = Graph(adj: seq<seq<int>>)
  {
    function Size(): nat { |adj| }

    ghost predicate Valid() { WellFormed(adj) }
  }

  /** `dfs_impl`: visits every unmarked neighbour (marking it first), then appends
      `vertex`. Alongside `result` the ghost `parents` records, for each appended
      vertex, the vertex it was visited from (`from` for `vertex` itself): the
      depth-first tree. */
  method DfsImpl(g: Graph, vertex: int, marked: seq<bool>, result: seq<int>,
                 ghost from: int, ghost parents: seq<int>)
    returns (marked': seq<bool>, result': seq<int>, ghost parents': seq<int>)
    requires g.Valid() && |marked| == g.Size() && |parents| == |result|
    requires 0 <= vertex < g.Size() && marked[vertex] && vertex !in result
    requires Listed(g.adj, marked, result)
    ensures Explored(g.adj, vertex, marked, marked') && AllMarked(marked', g.adj[vertex])
    ensures Appended(g.adj, marked, result, parents, marked', result', parents', vertex, from)
    decreases CountFalse(marked)
  {
    marked', result', parents' := marked, result, parents;
    ListStart(g.adj, vertex, marked, result, parents);
    for i := 0 to |g.adj[vertex]|
      invariant ListRound(g.adj, vertex, marked, result, parents, marked', result', parents', i)
    {
      var next := g.adj[vertex][i];
      if !marked'[next] {
        ListReady(g.adj, vertex, marked, result, parents, marked', result', parents', i);
        var before := marked'[next := true];
        CountFalseGrows(marked, marked');
        CountFalseGrows(marked', before);
        var m2, r2, q2 := DfsImpl(g, next, before, result', vertex, parents');
        ListChild(g.adj, vertex, marked, result, parents, marked', result', parents', i, m2, r2, q2);
        marked', result', parents' := m2, r2, q2;
      } else {
        ListSkip(g.adj, vertex, marked, result, parents, marked', result', parents', i);
      }
    }
    ListDone(g.adj, vertex, marked, result, parents, marked', result', parents', from);
    result', parents' := result' + [vertex], parents' + [from];
  }

  /** `dfs`: every vertex reachable from `vertex` exactly once, and nothing else;
      `vertex` comes last, and every other vertex comes before the vertex it was
      reached from (its parent in the depth-first tree), which is a neighbour. */
  method Dfs(g: Graph, vertex: int) returns (result: seq<int>, ghost parents: seq<int>)
    requires g.Valid() && 0 <= vertex < g.Size()
    ensures Distinct(result)
    ensures forall x :: x in result <==> 0 <= x < g.Size() && Reachable(g.adj, vertex, x)
    ensures |result| > 0 && result[|result| - 1] == vertex
    ensures |parents| == |result|
    ensures forall i :: 0 <= i < |result| - 1 ==>
      parents[i] in result[i + 1..] && 0 <= parents[i] < g.Size() && result[i] in g.adj[parents[i]]
  {
    var marked := seq(g.Size(), _ => false)[vertex := true];
    var m;
    m, result, parents := DfsImpl(g, vertex, marked, [], -1, []);
    DfsListsReachable(g.adj, vertex, m, result, parents);
    DfsTree(g.adj, vertex, m, result, parents);
  }

  /** A search from `vertex` alone lists exactly what `vertex` reaches. */
  lemma DfsListsReachable(adj: seq<seq<int>>, vertex: int, m: seq<bool>, result: seq<int>, parents: seq<int>)
    requires WellFormed(adj) && 0 <= vertex < |adj|
    requires Explored(adj, vertex, seq(|adj|, _ => false)[vertex := true], m) && AllMarked(m, adj[vertex])
    requires Appended(adj, seq(|adj|, _ => false)[vertex := true], [], [], m, result, parents, vertex, -1)
    ensures forall x :: x in result <==> 0 <= x < |adj| && Reachable(adj, vertex, x)
  {
    assert result[0..] == result;
    assert Closed(adj, m);
    forall x ensures x in result <==> 0 <= x < |adj| && Reachable(adj, vertex, x) {
      if x == vertex {
        ReachRefl(adj, vertex);
      }
      if 0 <= x < |adj| && Reachable(adj, vertex, x) {
        ClosedReach(adj, m, vertex, x);
      }
    }
  }

  /** The tree a search from `vertex` alone records: every listed vertex but
      the last comes before its parent, a neighbour it was reached from. */
  lemma DfsTree(adj: seq<seq<int>>, vertex: int, m: seq<bool>, result: seq<int>, parents: seq<int>)
    requires Listed(adj, m, result) && TreeEdges(adj, 0, result, parents)
    requires |result| > 0 && result[|result| - 1] == vertex
    ensures Distinct(result) && |result| > 0 && result[|result| - 1] == vertex && |parents| == |result|
    ensures forall i :: 0 <= i < |result| - 1 ==>
      parents[i] in result[i + 1..] && 0 <= parents[i] < |adj| && result[i] in adj[parents[i]]
  {
    forall i | 0 <= i < |result| - 1 ensures parents[i] in result[i + 1..] {
      assert parents[i] in result && parents[i] !in result[..i + 1];
      assert result == result[..i + 1] + result[i + 1..];
    }
  }
}
