/** digraph/strong_connected_components/main.cpp: Kosaraju-style labelling of a
    directed graph, each vertex labelled with the least vertex of its tree in a
    second depth-first pass. */
module StrongComponents {
  import opened Paths

  /** A directed graph: `adj[v]` holds the heads of the edges `add(v, _)` stored. */
  datatype Digraph = Digraph(adj: seq<seq<int>>)
  {
    function Size(): nat { |adj| }

    ghost predicate Valid() { WellFormed(adj) }
  }

  /** `getReversedGraph`: the same vertices with every edge turned around. */
  method ReversedGraph(g: Digraph) returns (r: Digraph)
    requires g.Valid()
    ensures r.Valid() && r.Size() == g.Size()
    ensures forall i, t :: 0 <= i < g.Size() && 0 <= t < g.Size() ==> (t in g.adj[i] <==> i in r.adj[t])
  {
    var radj: seq<seq<int>> := seq(g.Size(), _ => []);
    for i := 0 to g.Size()
      invariant |radj| == g.Size()
      invariant forall t, k :: 0 <= t < |radj| && 0 <= k < |radj[t]| ==> 0 <= radj[t][k] < i
      invariant forall u, t :: 0 <= u < g.Size() && 0 <= t < g.Size() ==> (u < i && t in g.adj[u] <==> u in radj[t])
    {
      for k := 0 to |g.adj[i]|
        invariant |radj| == g.Size()
        invariant forall t, k :: 0 <= t < |radj| && 0 <= k < |radj[t]| ==> 0 <= radj[t][k] <= i
        invariant forall u, t :: 0 <= u < g.Size() && 0 <= t < g.Size() ==>
          ((u < i && t in g.adj[u]) || (u == i && t in g.adj[i][..k]) <==> u in radj[t])
      {
        var to := g.adj[i][k];
        assert g.adj[i][..k + 1] == g.adj[i][..k] + [to];
        radj := radj[to := radj[to] + [i]];
      }
      assert g.adj[i][..|g.adj[i]|] == g.adj[i];
    }
    r := Digraph(radj);
  }

  /** `dfs_impl`: visits every unmarked successor (marking it first), then appends
      `vertex`; `parents` is the ghost depth-first tree alongside `result`. */
  method DfsImpl(g: Digraph, vertex: int, marked: seq<bool>, result: seq<int>,
                 ghost from: int, ghost parents: seq<int>)
    returns (marked': seq<bool>, result': seq<int>, ghost parents': seq<int>)
    requires g.Valid() && |marked| == g.Size() && |parents| == |result|
    requires 0 <= vertex < g.Size() && marked[vertex] && vertex !in result
    requires Listed(g.adj, marked, result)
    ensures Explored(g.adj, vertex, marked, marked') && AllMarked(marked', g.adj[vertex])
    ensures Appended(g.adj, marked, result, parents, marked', result', parents', vertex, from)
    decreases CountFalse(marked)
  {
    marked', result', parents' := marked, result, parents;
    ListStart(g.adj, vertex, marked, result, parents);
    for i := 0 to |g.adj[vertex]|
      invariant ListRound(g.adj, vertex, marked, result, parents, marked', result', parents', i)
    {
      var next := g.adj[vertex][i];
      if !marked'[next] {
        ListReady(g.adj, vertex, marked, result, parents, marked', result', parents', i);
        var before := marked'[next := true];
        CountFalseGrows(marked, marked');
        CountFalseGrows(marked', before);
        var m2, r2, q2 := DfsImpl(g, next, before, result', vertex, parents');
        ListChild(g.adj, vertex, marked, result, parents, marked', result', parents', i, m2, r2, q2);
        marked', result', parents' := m2, r2, q2;
      } else {
        ListSkip(g.adj, vertex, marked, result, parents, marked', result', parents', i);
      }
    }
    ListDone(g.adj, vertex, marked, result, parents, marked', result', parents', from);
    result', parents' := result' + [vertex], parents' + [from];
  }

  /** `getTopologicalOrder(graph, vertex, marked)`: marks `vertex`, then lists in
      post-order exactly the vertices this search marks, `vertex` last; the marks
      are shared with the caller. */
  method TopologicalOrder(g: Digraph, vertex: int, marked: seq<bool>)
    returns (marked': seq<bool>, result: seq<int>, ghost parents: seq<int>)
    requires g.Valid() && |marked| == g.Size() && 0 <= vertex < g.Size()
    ensures Explored(g.adj, vertex, marked[vertex := true], marked')
    ensures Appended(g.adj, marked[vertex := true], [], [], marked', result, parents, vertex, -1)
    ensures Grows(marked, marked') && marked'[vertex] && AllMarked(marked', g.adj[vertex])
    ensures forall x :: x in result <==> 0 <= x < g.Size() && marked'[x] && (x == vertex || !marked[x])
  {
    marked', result, parents := DfsImpl(g, vertex, marked[vertex := true], [], -1, []);
    assert result[0..] == result;
  }

  /** The first pass of `getStrongComponents`: a search on the reversed graph
      from every vertex still unmarked, the listings concatenated. Every vertex
      is listed exactly once. */
  method FirstPass(reversed: Digraph) returns (order: seq<int>)
    requires reversed.Valid()
    ensures Distinct(order) && forall x :: x in order <==> 0 <= x < reversed.Size()
  {
    var marked := seq(reversed.Size(), _ => false);
    order := [];
    for i := 0 to reversed.Size()
      invariant |marked| == reversed.Size() && Distinct(order)
      invariant forall x :: x in order <==> 0 <= x < reversed.Size() && marked[x]
      invariant forall u :: 0 <= u < i ==> marked[u]
    {
      if !marked[i] {
        var passed;
        ghost var q;
        marked, passed, q := TopologicalOrder(reversed, i, marked);
        DistinctConcat(order, passed);
        order := order + passed;
      }
    }
  }

  /** The `minV` loop: the least listed vertex, or `bound` for an empty list. */
  method MinVertex(temp: seq<int>, bound: int) returns (minV: int)
    ensures minV <= bound && forall k :: 0 <= k < |temp| ==> minV <= temp[k]
    ensures minV == bound || minV in temp
  {
    minV := bound;
    for k := 0 to |temp|
      invariant minV <= bound && forall k' :: 0 <= k' < k ==> minV <= temp[k']
      invariant minV == bound || minV in temp[..k]
    {
      if temp[k] < minV {
        minV := temp[k];
      }
      assert temp[..k + 1] == temp[..k] + [temp[k]];
    }
    assert temp[..|temp|] == temp;
  }

  /** The labelling loop: every listed vertex gets `tag`; the ghost `roots`
      records `root` alongside. */
  method Relabel(result: seq<int>, temp: seq<int>, tag: int, ghost roots: seq<int>, ghost root: int)
    returns (result': seq<int>, ghost roots': seq<int>)
    requires |roots| == |result| && forall k :: 0 <= k < |temp| ==> 0 <= temp[k] < |result|
    ensures |result'| == |result| && |roots'| == |roots|
    ensures forall u :: 0 <= u < |result| ==>
      if u in temp then result'[u] == tag && roots'[u] == root
      else result'[u] == result[u] && roots'[u] == roots[u]
  {
    result', roots' := result, roots;
    for k := 0 to |temp|
      invariant |result'| == |result| && |roots'| == |roots|
      invariant forall u :: 0 <= u < |result| ==>
        if u in temp[..k] then result'[u] == tag && roots'[u] == root
        else result'[u] == result[u] && roots'[u] == roots[u]
    {
      assert temp[..k + 1] == temp[..k] + [temp[k]];
      result' := result'[temp[k] := tag];
      roots' := roots'[temp[k] := root];
    }
    assert temp[..|temp|] == temp;
  }

  /** The labels of the marked vertices: each is the least vertex of the tree
      (identified by its root, a vertex of the tree) that holds it. The triggers
      keep the solver from chasing `result[result[u]]` and `roots[roots[u]]`. */
  ghost predicate Labelled(g: Digraph, marked: seq<bool>, result: seq<int>, roots: seq<int>)
  {
    && |marked| == g.Size() && |result| == g.Size() && |roots| == g.Size()
    && (forall u {:trigger marked[u]} :: 0 <= u < g.Size() && !marked[u] ==> result[u] == -1)
    && (forall u {:trigger marked[u]} :: 0 <= u < g.Size() && marked[u] ==>
          && 0 <= result[u] <= u && 0 <= roots[u] < g.Size()
          && marked[result[u]] && result[result[u]] == result[u] && roots[result[u]] == roots[u]
          && marked[roots[u]] && roots[roots[u]] == roots[u]
          && Reachable(g.adj, roots[u], u))
    && (forall u, w {:trigger roots[u], roots[w]} ::
          0 <= u < g.Size() && 0 <= w < g.Size() && marked[u] && marked[w] && roots[u] == roots[w] ==>
          result[u] == result[w] && result[w] <= u)
  }

  /** Labelling a fresh tree, grown from the unmarked `v`, with its least vertex
      keeps the labelling consistent. */
  lemma {:induction false} LabelTree(g: Digraph, marked: seq<bool>, result: seq<int>, roots: seq<int>, v: int,
                                     marked': seq<bool>, temp: seq<int>, minV: int,
                                     result': seq<int>, roots': seq<int>)
    requires g.Valid() && Labelled(g, marked, result, roots) && 0 <= v < g.Size() && !marked[v]
    requires Grows(marked, marked') && marked'[v]
    requires forall u :: 0 <= u < g.Size() && marked'[u] && !marked[u] && u != v ==> Reachable(g.adj, v, u)
    requires forall x :: x in temp <==> 0 <= x < g.Size() && marked'[x] && (x == v || !marked[x])
    requires forall k :: 0 <= k < |temp| ==> minV <= temp[k]
    requires minV in temp
    requires |result'| == g.Size() && |roots'| == g.Size()
    requires forall u :: 0 <= u < g.Size() ==>
      if u in temp then result'[u] == minV && roots'[u] == v
      else result'[u] == result[u] && roots'[u] == roots[u]
    ensures Labelled(g, marked', result', roots')
  {
    var n := g.Size();
    forall u | 0 <= u < n && !marked'[u] ensures result'[u] == -1 {
      assert u !in temp && !marked[u];
    }
    forall u | 0 <= u < n && marked'[u]
      ensures && 0 <= result'[u] <= u && 0 <= roots'[u] < n
              && marked'[result'[u]] && result'[result'[u]] == result'[u] && roots'[result'[u]] == roots'[u]
              && marked'[roots'[u]] && roots'[roots'[u]] == roots'[u]
              && Reachable(g.adj, roots'[u], u)
    {
      if u in temp {
        assert result'[u] == minV && roots'[u] == v && v in temp;
        if u == v {
          ReachRefl(g.adj, v);
        }
      } else {
        assert marked[u] && result'[u] == result[u] && roots'[u] == roots[u];
        assert marked[result[u]] && marked[roots[u]];
        assert result[u] !in temp && roots[u] !in temp;
      }
    }
    forall u, w | 0 <= u < n && 0 <= w < n && marked'[u] && marked'[w] && roots'[u] == roots'[w]
      ensures result'[u] == result'[w] && result'[w] <= u
    {
      if u !in temp && w !in temp {
        assert marked[u] && marked[w] && roots[u] == roots[w];
      }
    }
  }

  /** `u` and `w` reach each other: they lie in one strongly connected component. */
  ghost predicate Mutual(adj: seq<seq<int>>, u: int, w: int)
  {
    Reachable(adj, u, w) && Reachable(adj, w, u)
  }

  /** The marked vertices are a union of strongly connected components, and
      mutually reachable vertices were marked by the same tree. */
  ghost predicate Joined(g: Digraph, marked: seq<bool>, roots: seq<int>)
    requires |marked| == g.Size() && |roots| == g.Size()
  {
    forall u, w :: 0 <= u < g.Size() && 0 <= w < g.Size() && marked[u] && Mutual(g.adj, u, w) ==>
      marked[w] && roots[u] == roots[w]
  }

  /** A vertex that reaches back to a vertex `u` of a fresh tree is in the tree
      too: every vertex of a walk from `u` to it is mutually reachable with `u`,
      so none of them was marked before (the marks were a union of components)
      and each is a neighbour of a tree vertex, all of whose neighbours the
      search marked. */
  lemma {:induction false} MutualInTree(g: Digraph, marked: seq<bool>, roots: seq<int>, v: int,
                                        marked': seq<bool>, u: int, w: int)
    requires g.Valid() && |marked| == g.Size() && |roots| == g.Size() && Joined(g, marked, roots)
    requires 0 <= v < g.Size() && !marked[v]
    requires Explored(g.adj, v, marked[v := true], marked') && AllMarked(marked', g.adj[v])
    requires 0 <= u < g.Size() && 0 <= w < g.Size() && marked'[u] && !marked[u] && Mutual(g.adj, u, w)
    ensures marked'[w] && !marked[w]
  {
    var n := g.Size();
    var wk :| IsWalk(g.adj, wk) && wk[0] == u && wk[|wk| - 1] == w;
    var k := 0;
    while k < |wk| - 1
      invariant 0 <= k < |wk| && marked'[wk[k]] && !marked[wk[k]]
    {
      var x, y := wk[k], wk[k + 1];
      assert AllMarked(marked', g.adj[x]);
      var j :| 0 <= j < |g.adj[x]| && g.adj[x][j] == y;
      assert marked'[y];
      assert IsWalk(g.adj, wk[..k + 2]) && wk[..k + 2][k + 1] == y;
      assert IsWalk(g.adj, wk[k + 1..]) && wk[k + 1..][|wk| - k - 2] == w;
      ReachTrans(g.adj, y, w, u);
      assert Mutual(g.adj, y, u);
      assert !marked[y];
      k := k + 1;
    }
  }

  /** A fresh tree keeps the marks a union of components: it holds every vertex
      that reaches back to one of its own, and labels them all with one root. */
  lemma JoinTree(g: Digraph, marked: seq<bool>, roots: seq<int>, v: int,
                 marked': seq<bool>, temp: seq<int>, roots': seq<int>)
    requires g.Valid() && |marked| == g.Size() && |roots| == g.Size() && Joined(g, marked, roots)
    requires 0 <= v < g.Size() && !marked[v]
    requires Explored(g.adj, v, marked[v := true], marked') && AllMarked(marked', g.adj[v])
    requires forall x :: x in temp <==> 0 <= x < g.Size() && marked'[x] && (x == v || !marked[x])
    requires |roots'| == g.Size()
    requires forall u :: 0 <= u < g.Size() ==> roots'[u] == if u in temp then v else roots[u]
    ensures Joined(g, marked', roots')
  {
    forall u, w | 0 <= u < g.Size() && 0 <= w < g.Size() && marked'[u] && Mutual(g.adj, u, w)
      ensures marked'[w] && roots'[u] == roots'[w]
    {
      if marked[u] {
        assert marked[w] && roots[u] == roots[w];
        assert u !in temp && w !in temp;
      } else {
        MutualInTree(g, marked, roots, v, marked', u, w);
        assert u in temp && w in temp;
      }
    }
  }

  /** One tree of the second pass: search from the unmarked `v`, then label
      everything it reached with the least vertex it reached. */
  method SecondPassTree(g: Digraph, v: int, marked: seq<bool>, result: seq<int>, ghost roots: seq<int>)
    returns (marked': seq<bool>, result': seq<int>, ghost roots': seq<int>)
    requires g.Valid() && Labelled(g, marked, result, roots) && 0 <= v < g.Size() && !marked[v]
    requires Joined(g, marked, roots)
    ensures Labelled(g, marked', result', roots') && Grows(marked, marked') && marked'[v]
    ensures Joined(g, marked', roots')
  {
    var temp;
    ghost var q;
    marked', temp, q := TopologicalOrder(g, v, marked);
    var minV := MinVertex(temp, g.Size());
    result', roots' := Relabel(result, temp, minV, roots, v);
    LabelTree(g, marked, result, roots, v, marked', temp, minV, result', roots');
    JoinTree(g, marked, roots, v, marked', temp, roots');
  }

  /** `getStrongComponents`: the first pass lists every vertex once; the second,
      in the reverse of that order, labels each search tree on the graph with
      its least vertex. The ghost `roots` records the vertex each tree was
      grown from. */
  method StrongComponents(g: Digraph) returns (result: seq<int>, ghost order: seq<int>, ghost roots: seq<int>)
    requires g.Valid()
    ensures Distinct(order) && forall x :: x in order <==> 0 <= x < g.Size()
    ensures |result| == g.Size() && forall v :: 0 <= v < g.Size() ==> 0 <= result[v] <= v && result[result[v]] == result[v]
    ensures Components(g, result, roots)
    ensures forall u, w :: 0 <= u < g.Size() && 0 <= w < g.Size() && Mutual(g.adj, u, w) ==> result[u] == result[w]
  {
    var n := g.Size();
    var reversed := ReversedGraph(g);
    var ord := FirstPass(reversed);
    order := ord;
    var rorder := Reversed(ord);
    assert forall k :: 0 <= k < |rorder| ==> 0 <= rorder[k] < n by {
      forall k | 0 <= k < |rorder| ensures 0 <= rorder[k] < n {
        assert ord[|ord| - 1 - k] in ord;
      }
    }
    var marked := seq(n, _ => false);
    result := seq(n, _ => -1);
    roots := seq(n, _ => -1);
    for j := 0 to |rorder|
      invariant Labelled(g, marked, result, roots) && Joined(g, marked, roots)
      invariant forall x :: x in rorder[..j] ==> 0 <= x < n && marked[x]
    {
      var v := rorder[j];
      if !marked[v] {
        marked, result, roots := SecondPassTree(g, v, marked, result, roots);
      }
      assert rorder[..j + 1] == rorder[..j] + [v];
    }
    assert forall v :: 0 <= v < n ==> v in rorder by {
      forall v | 0 <= v < n ensures v in rorder {
        assert v in ord;
        var k :| 0 <= k < |ord| && ord[k] == v;
        assert rorder[|ord| - 1 - k] == v;
      }
    }
    assert rorder[..|rorder|] == rorder;
    LabelledAll(g, marked, result, roots);
    forall u, w | 0 <= u < n && 0 <= w < n && Mutual(g.adj, u, w) ensures result[u] == result[w] {
      assert marked[u] && roots[u] == roots[w];
    }
  }

  /** Every vertex is labelled with the least vertex of its tree: a vertex of the
      same tree, itself labelled with itself. Each tree is identified by its
      root, from which every vertex of the tree is reachable. */
  ghost predicate Components(g: Digraph, result: seq<int>, roots: seq<int>)
  {
    && |result| == g.Size() && |roots| == g.Size()
    && (forall v :: 0 <= v < g.Size() ==>
          0 <= result[v] <= v && result[result[v]] == result[v]
          && 0 <= roots[v] < g.Size() && roots[result[v]] == roots[v] && Reachable(g.adj, roots[v], v))
    && (forall u, v :: 0 <= u < g.Size() && 0 <= v < g.Size() && roots[u] == roots[v] ==>
          result[u] == result[v] && result[v] <= u)
  }

  /** Once every vertex is marked the labelling covers the whole graph. */
  lemma LabelledAll(g: Digraph, marked: seq<bool>, result: seq<int>, roots: seq<int>)
    requires Labelled(g, marked, result, roots) && forall v :: 0 <= v < g.Size() ==> marked[v]
    ensures Components(g, result, roots)
  {
    forall v | 0 <= v < g.Size()
      ensures 0 <= result[v] <= v && result[result[v]] == result[v]
      ensures 0 <= roots[v] < g.Size() && roots[result[v]] == roots[v] && Reachable(g.adj, roots[v], v)
    {
      assert marked[v];
    }
    forall u, v | 0 <= u < g.Size() && 0 <= v < g.Size() && roots[u] == roots[v]
      ensures result[u] == result[v] && result[v] <= u
    {
      assert marked[u] && marked[v];
    }
  }
}
