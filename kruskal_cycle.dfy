/** mst/LazyPrim/main1.cpp: a second union-find (path halving, three-way union
    by depth), Kruskal's choice over a fixed eight vertices, and the
    three-colour cycle search over the adjacency-list graph. The edge and
    graph types are the same as in mst/Kruskal/main.cpp and are taken from
    that model. */
module KruskalCycle {
  import opened Paths
  import opened Kruskal

  // Union-find.

  /** `UnionFind`: `connected` is `m_Connected`, `depth` is `m_Depth`. */
  class UnionFind {
    var connected: seq<int>
    var depth: seq<int>

    ghost predicate Valid()
      reads this
    {
      Forest(connected, depth)
    }

    /** `UnionFind(size)`: every element its own root, every depth 1. */
    constructor (size: nat)
      ensures connected == seq(size, v => v) && depth == seq(size, _ => 1)
      ensures Valid()
    {
      var c, d := seq(size, _ => 0), seq(size, _ => 0);
      var i := 0;
      while i < size
        invariant 0 <= i <= size && |c| == size && |d| == size
        invariant forall v :: 0 <= v < i ==> c[v] == v && d[v] == 1
      {
        c := c[i := i];
        d := d[i := 1];
        i := i + 1;
      }
      connected, depth := c, d;
    }

    /** `root(v)`: steps to the parent, then points that parent at its own
        grandparent, until a root is reached. No element's root changes, and
        neither does which elements are roots. */
    method Root(v: int) returns (r: int)
      requires Valid() && 0 <= v < |connected|
      modifies this
      ensures Valid() && depth == old(depth) && |connected| == |old(connected)|
      ensures r == Find(old(connected), depth, v) && connected[r] == r
      ensures forall u :: 0 <= u < |connected| ==> Find(connected, depth, u) == Find(old(connected), depth, u)
      ensures forall u :: 0 <= u < |connected| ==> (connected[u] == u <==> old(connected)[u] == u)
    {
      var x := v;
      while connected[x] != x
        invariant Valid() && depth == old(depth) && |connected| == |old(connected)|
        invariant 0 <= x < |connected|
        invariant forall u :: 0 <= u < |connected| ==> Find(connected, depth, u) == Find(old(connected), depth, u)
        invariant forall u :: 0 <= u < |connected| ==> (connected[u] == u <==> old(connected)[u] == u)
        invariant Find(connected, depth, x) == Find(old(connected), depth, v)
        decreases MaxOf(depth) - depth[x]
      {
        x := connected[x];
        forall u | 0 <= u < |connected| ensures Find(connected[x := connected[connected[x]]], depth, u) == Find(connected, depth, u) {
          SplitKeepsFind(connected, depth, x, u);
        }
        SplitKeepsFind(connected, depth, x, x);
        connected := connected[x := connected[connected[x]]];
      }
      r := x;
    }

    /** `isConnected(v1, v2)`: whether the two have the same root. */
    method IsConnected(v1: int, v2: int) returns (b: bool)
      requires Valid() && 0 <= v1 < |connected| && 0 <= v2 < |connected|
      modifies this
      ensures Valid() && depth == old(depth) && |connected| == |old(connected)|
      ensures b <==> Find(old(connected), depth, v1) == Find(old(connected), depth, v2)
      ensures forall u :: 0 <= u < |connected| ==> Find(connected, depth, u) == Find(old(connected), depth, u)
      ensures forall u :: 0 <= u < |connected| ==> (connected[u] == u <==> old(connected)[u] == u)
    {
      var r1 := Root(v1);
      var r2 := Root(v2);
      b := r1 == r2;
    }

    /** `connect(v1, v2)`: the shallower root goes under the deeper; on equal
        depth the first goes under the second, whose depth grows by one. */
    method Connect(v1: int, v2: int)
      requires Valid() && 0 <= v1 < |connected| && 0 <= v2 < |connected|
      modifies this
      ensures Valid() && |connected| == |old(connected)|
      ensures Merged(old(connected), old(depth), connected, depth, v1, v2)
      ensures var r1, r2 := Find(old(connected), old(depth), v1), Find(old(connected), old(depth), v2);
        depth == if old(depth)[r1] == old(depth)[r2] then old(depth)[r2 := old(depth)[r2] + 1] else old(depth)
    {
      ghost var c0, d0 := connected, depth;
      var root1 := Root(v1);
      var root2 := Root(v2);
      ghost var c1 := connected;
      var depth1 := depth[root1];
      var depth2 := depth[root2];
      if depth1 < depth2 {
        HangForest(connected, depth, root1, root2, false);
        connected := connected[root1 := root2];
      } else if depth2 < depth1 {
        HangForest(connected, depth, root2, root1, false);
        connected := connected[root2 := root1];
      } else {
        HangForest(connected, depth, root1, root2, true);
        connected := connected[root1 := root2];
        depth := depth[root2 := depth[root2] + 1];
      }
      Hung(c0, d0, c1, connected, depth, v1, v2);
    }
  }

  /** After `connect(a, b)`, `a` and `b` have one root, and any two elements
      that had one root still do. */
  lemma MergedJoins(c: seq<int>, d: seq<int>, c': seq<int>, d': seq<int>, a: int, b: int)
    requires Forest(c, d) && Forest(c', d') && |c'| == |c| && 0 <= a < |c| && 0 <= b < |c|
    requires Merged(c, d, c', d', a, b)
    ensures Find(c', d', a) == Find(c', d', b)
    ensures forall u, w :: 0 <= u < |c| && 0 <= w < |c| && Find(c, d, u) == Find(c, d, w) ==>
      Find(c', d', u) == Find(c', d', w)
  {
  }

  // Kruskal.

  /** `Kruskal(edges)`: over the union-find of eight elements, after
      `std::sort` (`sorted`, as in `Kruskal.Kruskal`), each edge is kept when
      its ends, asked head first, are unconnected, and then they are
      connected. The choice is `Greedy` on eight vertices: a forest of at
      most seven edges. */
  method Kruskal8(edges: seq<Edge>, sorted: seq<Edge>) returns (result: seq<Edge>)
    requires Inside(8, edges)
    requires multiset(sorted) == multiset(edges)
    requires forall i, j :: 0 <= i < j < |sorted| ==> sorted[i].weight <= sorted[j].weight
    ensures Inside(8, sorted)
    ensures result == Greedy(8, sorted)
    ensures |result| <= 7
  {
    assert Inside(8, sorted) by {
      forall i | 0 <= i < |sorted| ensures 0 <= sorted[i].from < 8 && 0 <= sorted[i].to < 8 {
        assert sorted[i] in multiset(edges);
        var j :| 0 <= j < |edges| && edges[j] == sorted[i];
      }
    }
    var uf := new UnionFind(8);
    result := [];
    StartChosen(uf.connected, uf.depth, 8, sorted);
    for i := 0 to |sorted|
      invariant uf.Valid() && Chosen(uf.connected, uf.depth, 8, sorted, i, result)
    {
      var e := sorted[i];
      ghost var c, d := uf.connected, uf.depth;
      var connected := uf.IsConnected(e.to, e.from);
      ChosenSame(c, d, uf.connected, uf.depth, 8, sorted, i, result);
      if !connected {
        result := result + [e];
        ghost var c1, d1 := uf.connected, uf.depth;
        ghost var r1, r2 := Find(c1, d1, e.to), Find(c1, d1, e.from);
        ghost var kept := if d1[r1] > d1[r2] then r1 else r2;
        uf.Connect(e.to, e.from);
        MergedSwap(c1, d1, uf.connected, uf.depth, e.to, e.from, kept);
        ChosenKeep(c1, d1, uf.connected, uf.depth, 8, sorted, i, result[..|result| - 1], kept);
      } else {
        ChosenSkip(uf.connected, uf.depth, 8, sorted, i, result);
      }
    }
    assert sorted[..|sorted|] == sorted;
    RootsPositive(uf.connected, Find(uf.connected, uf.depth, 0), 8);
  }

  /** Connecting head to tail merges the same two sets as tail to head. */
  lemma MergedSwap(c: seq<int>, d: seq<int>, c': seq<int>, d': seq<int>, a: int, b: int, kept: int)
    requires Forest(c, d) && Forest(c', d') && |c'| == |c| && 0 <= a < |c| && 0 <= b < |c|
    requires MergedAt(c, d, c', d', a, b, kept)
    ensures MergedAt(c, d, c', d', b, a, kept)
  {
    assert {Find(c, d, a), Find(c, d, b)} == {Find(c, d, b), Find(c, d, a)};
  }

  // The cycle search.

  /** `Marker`: not yet seen, finished, or on the current search path. */
  datatype Marker = Unvailed | Discovered | WithinPath

  /** A cycle: distinct vertices, each a neighbour of the one before, with the
      first a neighbour of the last; one vertex is a loop, and two would use
      one edge both ways, so they are not counted. */
  ghost predicate IsCycle(nb: seq<seq<int>>, c: seq<int>)
  {
    && IsWalk(nb, c) && Distinct(c) && |c| != 2
    && c[0] in nb[c[|c| - 1]]
  }

  ghost predicate HasCycle(nb: seq<seq<int>>)
  {
    exists c :: IsCycle(nb, c)
  }

  /** The number of vertices not yet seen. */
  function Unseen(m: seq<Marker>): nat
  {
    if m == [] then 0 else Unseen(m[..|m| - 1]) + (if m[|m| - 1] == Unvailed then 1 else 0)
  }

  /** Markers only move forward: a vertex on the path or finished stays so. */
  ghost predicate Forward(m: seq<Marker>, m': seq<Marker>)
  {
    && |m'| == |m|
    && (forall v :: 0 <= v < |m| && m[v] == WithinPath ==> m'[v] == WithinPath)
    && (forall v :: 0 <= v < |m| && m[v] == Discovered ==> m'[v] == Discovered)
  }

  lemma {:induction false} UnseenForward(m: seq<Marker>, m': seq<Marker>)
    requires Forward(m, m')
    ensures Unseen(m') <= Unseen(m)
  {
    if m != [] {
      UnseenForward(m[..|m| - 1], m'[..|m| - 1]);
    }
  }

  lemma {:induction false} UnseenMark(m: seq<Marker>, v: int, x: Marker)
    requires 0 <= v < |m| && m[v] == Unvailed && x != Unvailed
    ensures Unseen(m[v := x]) == Unseen(m) - 1
  {
    if v < |m| - 1 {
      assert m[v := x][..|m| - 1] == m[..|m| - 1][v := x];
      UnseenMark(m[..|m| - 1], v, x);
    } else {
      assert m[v := x][..|m| - 1] == m[..|m| - 1];
    }
  }

  /** The search path: distinct vertices from the start to `vertex`, each a
      neighbour of the one before, exactly the vertices marked on the path;
      `prevVertex` is the one before `vertex`, or -1 at the start. */
  ghost predicate OnPath(nb: seq<seq<int>>, m: seq<Marker>, stack: seq<int>, prevVertex: int, vertex: int)
  {
    && |m| == |nb| && WellFormed(nb)
    && IsWalk(nb, stack) && Distinct(stack) && stack[|stack| - 1] == vertex
    && prevVertex == (if |stack| >= 2 then stack[|stack| - 2] else -1)
    && (forall v :: 0 <= v < |m| ==> (m[v] == WithinPath <==> v in stack))
  }

  /** Meeting a path vertex other than the previous one closes a cycle. */
  lemma CycleFound(nb: seq<seq<int>>, m: seq<Marker>, stack: seq<int>, prevVertex: int, vertex: int, next: int)
    requires OnPath(nb, m, stack, prevVertex, vertex)
    requires next in nb[vertex] && next != prevVertex && 0 <= next < |m| && m[next] == WithinPath
    ensures HasCycle(nb)
  {
    var j :| 0 <= j < |stack| && stack[j] == next;
    var c := stack[j..];
    assert c[|c| - 1] == vertex;
    forall k | 0 <= k < |c| - 1 ensures c[k + 1] in nb[c[k]] {
      assert c[k] == stack[j + k] && c[k + 1] == stack[j + k + 1];
    }
    assert IsCycle(nb, c);
  }

  /** Stepping onto an unseen neighbour extends the path. */
  lemma PathStep(nb: seq<seq<int>>, m: seq<Marker>, stack: seq<int>, prevVertex: int, vertex: int, next: int)
    requires OnPath(nb, m, stack, prevVertex, vertex)
    requires next in nb[vertex] && 0 <= next < |m| && m[next] == Unvailed
    ensures OnPath(nb, m[next := WithinPath], stack + [next], vertex, next)
  {
    var s := stack + [next];
    assert next !in stack;
    forall k | 0 <= k < |s| - 1 ensures s[k + 1] in nb[s[k]] {
      if k < |s| - 2 {
        assert s[k] == stack[k] && s[k + 1] == stack[k + 1];
      }
    }
    forall a, b | 0 <= a < b < |s| ensures s[a] != s[b] {
      if b < |s| - 1 {
        assert s[a] == stack[a] && s[b] == stack[b];
      } else {
        assert s[a] in stack;
      }
    }
  }

  /** Finishing `next` after its search came back false restores the path. */
  lemma PathBack(nb: seq<seq<int>>, m: seq<Marker>, m': seq<Marker>, stack: seq<int>, prevVertex: int, vertex: int, next: int)
    requires OnPath(nb, m, stack, prevVertex, vertex)
    requires 0 <= next < |m| && next !in stack && |m'| == |m|
    requires forall v :: 0 <= v < |m| ==> (m'[v] == WithinPath <==> v in stack + [next])
    ensures OnPath(nb, m'[next := Discovered], stack, prevVertex, vertex)
  {
  }

  /** The loop of `isCycleImpl` after the first `k` edges of `vertex`, all
      without a cycle found. */
  ghost predicate Searching(nb: seq<seq<int>>, m0: seq<Marker>, m: seq<Marker>, stack: seq<int>,
                            prevVertex: int, vertex: int)
  {
    OnPath(nb, m, stack, prevVertex, vertex) && Forward(m0, m)
    && (forall v :: 0 <= v < |m0| && m0[v] == Unvailed ==> m[v] != WithinPath)
  }

  /** Finishing an unseen neighbour whose search found no cycle keeps the loop
      of `isCycleImpl` searching. */
  lemma SearchBack(nb: seq<seq<int>>, m0: seq<Marker>, m: seq<Marker>, m2: seq<Marker>, stack: seq<int>,
                   prevVertex: int, vertex: int, next: int)
    requires Searching(nb, m0, m, stack, prevVertex, vertex)
    requires 0 <= next < |m| && m[next] == Unvailed
    requires Searching(nb, m[next := WithinPath], m2, stack + [next], vertex, next)
    ensures Searching(nb, m0, m2[next := Discovered], stack, prevVertex, vertex)
  {
    assert next !in stack;
    PathBack(nb, m, m2, stack, prevVertex, vertex, next);
  }

  /** `isCycleImpl(graph, prevVertex, vertex, marked)`: for each edge of
      `vertex` in turn, skip it when it leads back to `prevVertex`; search
      from an unseen neighbour, marked on the path and then finished; and
      report a cycle on reaching the search path again. When it reports
      one, the graph has a cycle; otherwise the path is as it was and every
      vertex newly seen is finished. Markers only move forward. */
  method IsCycleImpl(graph: Graph, prevVertex: int, vertex: int, marked: seq<Marker>, ghost stack: seq<int>)
    returns (cycle: bool, marked': seq<Marker>)
    requires graph.Valid() && OnPath(Neighbours(graph.adj), marked, stack, prevVertex, vertex)
    ensures Forward(marked, marked')
    ensures cycle ==> HasCycle(Neighbours(graph.adj))
    ensures !cycle ==> Searching(Neighbours(graph.adj), marked, marked', stack, prevVertex, vertex)
    decreases Unseen(marked)
  {
    var list := graph.adj[vertex];
    ghost var nb := Neighbours(graph.adj);
    var m := marked;
    for k := 0 to |list|
      invariant Searching(nb, marked, m, stack, prevVertex, vertex)
    {
      var next := Other(list[k], vertex);
      assert next == nb[vertex][k];
      if next == prevVertex {
        continue;
      }
      if m[next] == Unvailed {
        UnseenForward(marked, m);
        UnseenMark(m, next, WithinPath);
        PathStep(nb, m, stack, prevVertex, vertex, next);
        var found, m2 := IsCycleImpl(graph, vertex, next, m[next := WithinPath], stack + [next]);
        if found {
          return true, m2;
        }
        SearchBack(nb, marked, m, m2, stack, prevVertex, vertex, next);
        m := m2[next := Discovered];
      }
      if m[next] == WithinPath {
        CycleFound(nb, m, stack, prevVertex, vertex, next);
        return true, m;
      }
    }
    return false, m;
  }

  /** `isCycle(graph, vertex)`: every vertex unseen but `vertex`, which starts
      the path; a reported cycle is a cycle of the graph. */
  method IsCycleFrom(graph: Graph, vertex: int) returns (cycle: bool)
    requires graph.Valid() && 0 <= vertex < |graph.adj|
    ensures cycle ==> HasCycle(Neighbours(graph.adj))
  {
    var marked := seq(|graph.adj|, _ => Unvailed);
    marked := marked[vertex := WithinPath];
    NeighboursWellFormed(graph);
    assert IsWalk(Neighbours(graph.adj), [vertex]);
    var m';
    cycle, m' := IsCycleImpl(graph, -1, vertex, marked, [vertex]);
  }
}
