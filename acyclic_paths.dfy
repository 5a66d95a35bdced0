/** shortest_path/acyclic_graph/main.cpp: a cycle check on a weighted directed
    graph, a depth-first post-order, and single-source distances by relaxing
    every vertex's edges in reversed post-order. */
module AcyclicPaths {
  import opened Paths
  import opened WeightedEdges

  /** The graph: `edges[v]` is `m_edges[v]`, to which `add` appends. */
  class Graph {
    var edges: seq<seq<Edge>>

    /** `Graph(size)`: `size` vertices, no edges. */
    constructor (size: nat)
      ensures edges == seq(size, _ => [])
    {
      edges := seq(size, _ => []);
    }

    /** `add(e)`: the edge goes to its tail's list only. */
    method Add(e: Edge)
      requires 0 <= e.from < |edges|
      modifies this
      ensures edges == old(edges)[e.from := old(edges)[e.from] + [e]]
    {
      edges := edges[e.from := edges[e.from] + [e]];
    }

    /** `add(from, to, weight)`. */
    method AddEdge(from: int, to: int, weight: int)
      requires 0 <= from < |edges|
      modifies this
      ensures edges == old(edges)[from := old(edges)[from] + [Edge(from, to, weight)]]
    {
      Add(Edge(from, to, weight));
    }
  }

  /** `add` keeps the graph valid when the new edge enters a vertex. */
  lemma AddValid(edges: seq<seq<Edge>>, e: Edge)
    requires Valid(edges) && 0 <= e.from < |edges| && 0 <= e.to < |edges|
    ensures Valid(edges[e.from := edges[e.from] + [e]])
  {
  }

  // The cycle check.

  /** The marks of `isAcyclicImpl`. */
  datatype State = Unvisited | Discovered | WithinPath

  /** Some vertex reachable from `s` has an edge back to a vertex that reaches it:
      a cycle reachable from `s`. */
  ghost predicate CycleFrom(adj: seq<seq<int>>, s: int)
  {
    exists u, k :: 0 <= u < |adj| && Reachable(adj, s, u) && 0 <= k < |adj[u]| && Reachable(adj, adj[u][k], u)
  }

  /** Which vertices have been reached. */
  function Visited(marked: seq<State>): (m: seq<bool>)
    ensures |m| == |marked| && forall v :: 0 <= v < |marked| ==> (m[v] <==> marked[v] != Unvisited)
  {
    seq(|marked|, v requires 0 <= v < |marked| => marked[v] != Unvisited)
  }

  /** A discovered vertex `u` finished at time `fin[u]`, after all its successors,
      which are discovered too. */
  ghost predicate FinishedAt(adj: seq<seq<int>>, marked: seq<State>, fin: seq<int>, clock: int, u: int)
    requires WellFormed(adj) && |marked| == |fin| == |adj| && 0 <= u < |adj|
  {
    marked[u] == Discovered ==>
      fin[u] < clock &&
      forall k :: 0 <= k < |adj[u]| ==> marked[adj[u][k]] == Discovered && fin[adj[u][k]] < fin[u]
  }

  ghost predicate Finished(adj: seq<seq<int>>, marked: seq<State>, fin: seq<int>, clock: int)
    requires WellFormed(adj)
  {
    |marked| == |fin| == |adj| && forall u :: 0 <= u < |adj| ==> FinishedAt(adj, marked, fin, clock, u)
  }

  /** Every vertex on the current search path is reachable from `s` and reaches `vertex`. */
  ghost predicate OnStack(adj: seq<seq<int>>, s: int, marked: seq<State>, vertex: int)
  {
    forall w :: 0 <= w < |marked| && marked[w] == WithinPath ==> Reachable(adj, s, w) && Reachable(adj, w, vertex)
  }

  /** Marks of reached vertices stay, and finishing times stay. */
  ghost predicate Settles(marked: seq<State>, marked': seq<State>, fin: seq<int>, fin': seq<int>, clock: int, clock': int)
  {
    && |marked'| == |marked| && |fin'| == |fin| && clock <= clock'
    && (forall w :: 0 <= w < |marked| && marked[w] != Unvisited ==> marked'[w] == marked[w])
    && (forall w :: 0 <= w < |marked| && marked[w] == Discovered && w < |fin| ==> fin'[w] == fin[w])
  }

  /** Along a walk from a discovered vertex, finishing times never grow. */
  lemma {:induction false} FinAlongWalk(adj: seq<seq<int>>, marked: seq<State>, fin: seq<int>, clock: int, w: seq<int>)
    requires WellFormed(adj) && Finished(adj, marked, fin, clock) && IsWalk(adj, w) && marked[w[0]] == Discovered
    ensures marked[w[|w| - 1]] == Discovered && fin[w[|w| - 1]] <= fin[w[0]]
    decreases |w|
  {
    if |w| > 1 {
      var w' := w[..|w| - 1];
      FinAlongWalk(adj, marked, fin, clock, w');
      var x := w[|w| - 2];
      assert FinishedAt(adj, marked, fin, clock, x);
      var k :| 0 <= k < |adj[x]| && adj[x][k] == w[|w| - 1];
    }
  }

  /** A finished search from `s` leaves no cycle reachable from `s`. */
  lemma NoCycle(adj: seq<seq<int>>, marked: seq<State>, fin: seq<int>, clock: int, s: int)
    requires WellFormed(adj) && Finished(adj, marked, fin, clock) && 0 <= s < |adj| && marked[s] == Discovered
    ensures !CycleFrom(adj, s)
  {
    forall u, k | 0 <= u < |adj| && Reachable(adj, s, u) && 0 <= k < |adj[u]| && Reachable(adj, adj[u][k], u)
      ensures false
    {
      var w1 :| IsWalk(adj, w1) && w1[0] == s && w1[|w1| - 1] == u;
      FinAlongWalk(adj, marked, fin, clock, w1);
      assert FinishedAt(adj, marked, fin, clock, u);
      var w2 :| IsWalk(adj, w2) && w2[0] == adj[u][k] && w2[|w2| - 1] == u;
      FinAlongWalk(adj, marked, fin, clock, w2);
    }
  }

  /** Searching from `next`, a successor of `vertex`, keeps every path vertex reaching the search. */
  lemma StackStep(adj: seq<seq<int>>, s: int, marked: seq<State>, vertex: int, next: int)
    requires OnStack(adj, s, marked, vertex) && 0 <= vertex < |adj| && 0 <= next < |adj| && next in adj[vertex]
    ensures OnStack(adj, s, marked, next)
  {
    forall w | 0 <= w < |marked| && marked[w] == WithinPath ensures Reachable(adj, w, next) {
      ReachAppend(adj, w, vertex, next);
    }
  }

  /** The loop invariant of `isAcyclicImpl` after `i` edges of `vertex`. */
  ghost predicate Round(adj: seq<seq<int>>, s: int, marked: seq<State>, fin: seq<int>, clock: int,
                        m: seq<State>, f: seq<int>, c: int, vertex: int, i: int)
    requires WellFormed(adj) && 0 <= vertex < |adj| && 0 <= i <= |adj[vertex]| && |marked| == |adj|
  {
    && |m| == |marked| && m[vertex] == WithinPath && marked[vertex] == Unvisited
    && Settles(marked, m, fin, f, clock, c) && Finished(adj, m, f, c)
    && (forall w :: 0 <= w < |marked| && w != vertex ==> (m[w] == WithinPath <==> marked[w] == WithinPath))
    && OnStack(adj, s, m, vertex) && Reachable(adj, s, vertex)
    && forall k :: 0 <= k < i ==> m[adj[vertex][k]] == Discovered && f[adj[vertex][k]] < c
  }

  lemma RoundStart(adj: seq<seq<int>>, s: int, marked: seq<State>, fin: seq<int>, clock: int, vertex: int)
    requires WellFormed(adj) && 0 <= vertex < |adj| && |marked| == |adj| && marked[vertex] == Unvisited
    requires Reachable(adj, s, vertex) && OnStack(adj, s, marked, vertex) && Finished(adj, marked, fin, clock)
    ensures Round(adj, s, marked, fin, clock, marked[vertex := WithinPath], fin, clock, vertex, 0)
  {
    var m := marked[vertex := WithinPath];
    forall u | 0 <= u < |adj| ensures FinishedAt(adj, m, fin, clock, u) {
      assert FinishedAt(adj, marked, fin, clock, u);
    }
    ReachRefl(adj, vertex);
  }

  /** While `vertex` is on the path, fewer vertices are unvisited than at the call. */
  lemma RoundFewer(marked: seq<State>, m: seq<State>, vertex: int)
    requires |m| == |marked| && 0 <= vertex < |m| && marked[vertex] == Unvisited && m[vertex] != Unvisited
    requires forall w :: 0 <= w < |marked| && marked[w] != Unvisited ==> m[w] == marked[w]
    ensures CountFalse(Visited(m)) < CountFalse(Visited(marked))
  {
    CountFalseGrows(Visited(marked), Visited(m));
  }

  /** The round after a successful search from the unvisited successor. */
  lemma RoundChild(adj: seq<seq<int>>, s: int, marked: seq<State>, fin: seq<int>, clock: int,
                   m: seq<State>, f: seq<int>, c: int, vertex: int, i: int,
                   m2: seq<State>, f2: seq<int>, c2: int)
    requires WellFormed(adj) && 0 <= vertex < |adj| && 0 <= i < |adj[vertex]| && |marked| == |adj|
    requires Round(adj, s, marked, fin, clock, m, f, c, vertex, i) && m[adj[vertex][i]] == Unvisited
    requires Finished(adj, m2, f2, c2) && m2[adj[vertex][i]] == Discovered
    requires Settles(m, m2, f, f2, c, c2)
    requires forall w :: 0 <= w < |m| ==> (m2[w] == WithinPath <==> m[w] == WithinPath)
    ensures Round(adj, s, marked, fin, clock, m2, f2, c2, vertex, i + 1)
  {
    var next := adj[vertex][i];
    assert FinishedAt(adj, m2, f2, c2, next);
    forall k | 0 <= k < i ensures m2[adj[vertex][k]] == Discovered && f2[adj[vertex][k]] < c2 {
      assert m[adj[vertex][k]] == Discovered;
    }
  }

  /** The round after a successor already discovered. */
  lemma RoundSkip(adj: seq<seq<int>>, s: int, marked: seq<State>, fin: seq<int>, clock: int,
                  m: seq<State>, f: seq<int>, c: int, vertex: int, i: int)
    requires WellFormed(adj) && 0 <= vertex < |adj| && 0 <= i < |adj[vertex]| && |marked| == |adj|
    requires Round(adj, s, marked, fin, clock, m, f, c, vertex, i) && m[adj[vertex][i]] == Discovered
    ensures Round(adj, s, marked, fin, clock, m, f, c, vertex, i + 1)
  {
    assert FinishedAt(adj, m, f, c, adj[vertex][i]);
  }

  /** A successor on the search path closes a cycle. */
  lemma RoundCycle(adj: seq<seq<int>>, s: int, marked: seq<State>, fin: seq<int>, clock: int,
                   m: seq<State>, f: seq<int>, c: int, vertex: int, i: int)
    requires WellFormed(adj) && 0 <= vertex < |adj| && 0 <= i < |adj[vertex]| && |marked| == |adj|
    requires Round(adj, s, marked, fin, clock, m, f, c, vertex, i) && m[adj[vertex][i]] == WithinPath
    ensures CycleFrom(adj, s)
  {
    assert Reachable(adj, adj[vertex][i], vertex);
  }

  /** Finishing `vertex` once all its edges are done. */
  lemma RoundDone(adj: seq<seq<int>>, s: int, marked: seq<State>, fin: seq<int>, clock: int,
                  m: seq<State>, f: seq<int>, c: int, vertex: int)
    requires WellFormed(adj) && 0 <= vertex < |adj| && |marked| == |adj|
    requires Round(adj, s, marked, fin, clock, m, f, c, vertex, |adj[vertex]|)
    ensures Finished(adj, m[vertex := Discovered], f[vertex := c], c + 1)
    ensures Settles(marked, m[vertex := Discovered], fin, f[vertex := c], clock, c + 1)
    ensures forall w :: 0 <= w < |marked| ==> (m[vertex := Discovered][w] == WithinPath <==> marked[w] == WithinPath)
  {
    var m' := m[vertex := Discovered];
    var f' := f[vertex := c];
    var c' := c + 1;
    forall u | 0 <= u < |adj| ensures FinishedAt(adj, m', f', c', u) {
      assert FinishedAt(adj, m, f, c, u);
      if u != vertex && m[u] == Discovered {
        forall k | 0 <= k < |adj[u]| ensures adj[u][k] != vertex {
          assert m[adj[u][k]] == Discovered;
        }
      }
    }
  }

  /** `isAcyclicImpl`: marks `vertex` as on the path, searches every unvisited
      successor, and fails as soon as a successor is on the path; on success
      `vertex` is discovered. A failure exhibits a cycle reachable from the
      root `s`; a success finishes `vertex` after all its successors. */
  method IsAcyclicImpl(graph: Graph, vertex: int, marked: seq<State>, ghost s: int, ghost fin: seq<int>, ghost clock: int)
    returns (ok: bool, marked': seq<State>, ghost fin': seq<int>, ghost clock': int)
    requires Valid(graph.edges) && |marked| == |graph.edges| && 0 <= vertex < |graph.edges|
    requires marked[vertex] == Unvisited && Reachable(Targets(graph.edges), s, vertex)
    requires OnStack(Targets(graph.edges), s, marked, vertex)
    requires WellFormed(Targets(graph.edges)) && Finished(Targets(graph.edges), marked, fin, clock)
    ensures !ok ==> CycleFrom(Targets(graph.edges), s)
    ensures ok ==> Finished(Targets(graph.edges), marked', fin', clock') && marked'[vertex] == Discovered
    ensures ok ==> Settles(marked, marked', fin, fin', clock, clock')
    ensures ok ==> forall w :: 0 <= w < |marked| ==> (marked'[w] == WithinPath <==> marked[w] == WithinPath)
    decreases CountFalse(Visited(marked))
  {
    ghost var adj := Targets(graph.edges);
    RoundStart(adj, s, marked, fin, clock, vertex);
    marked', fin', clock' := marked[vertex := WithinPath], fin, clock;
    for i := 0 to |graph.edges[vertex]|
      invariant Round(adj, s, marked, fin, clock, marked', fin', clock', vertex, i)
    {
      var next := graph.edges[vertex][i].to;
      assert next == adj[vertex][i] && next in adj[vertex];
      if marked'[next] == Unvisited {
        RoundFewer(marked, marked', vertex);
        StackStep(adj, s, marked', vertex, next);
        ReachAppend(adj, s, vertex, next);
        ghost var m, f, c := marked', fin', clock';
        var r;
        r, marked', fin', clock' := IsAcyclicImpl(graph, next, marked', s, fin', clock');
        if !r {
          return false, marked', fin', clock';
        }
        RoundChild(adj, s, marked, fin, clock, m, f, c, vertex, i, marked', fin', clock');
      } else if marked'[next] == WithinPath {
        RoundCycle(adj, s, marked, fin, clock, marked', fin', clock', vertex, i);
        return false, marked', fin', clock';
      } else {
        RoundSkip(adj, s, marked, fin, clock, marked', fin', clock', vertex, i);
      }
    }
    RoundDone(adj, s, marked, fin, clock, marked', fin', clock', vertex);
    marked', fin', clock' := marked'[vertex := Discovered], fin'[vertex := clock'], clock' + 1;
    ok := true;
  }

  /** `v` is the least vertex with an outgoing edge. */
  ghost predicate FirstWithEdges(edges: seq<seq<Edge>>, v: int)
  {
    0 <= v < |edges| && |edges[v]| > 0 && forall u :: 0 <= u < v ==> |edges[u]| == 0
  }

  /** `isAcyclic`: false for a graph without edges; otherwise the search from the
      least vertex with an outgoing edge, which succeeds exactly when no cycle
      is reachable from that vertex. */
  method IsAcyclic(graph: Graph) returns (ok: bool)
    requires Valid(graph.edges)
    ensures ok <==> exists v :: FirstWithEdges(graph.edges, v) && !CycleFrom(Targets(graph.edges), v)
  {
    ghost var adj := Targets(graph.edges);
    TargetsWellFormed(graph.edges);
    var vertex := 0;
    while vertex < |graph.edges|
      invariant 0 <= vertex <= |graph.edges|
      invariant forall u :: 0 <= u < vertex ==> |graph.edges[u]| == 0
    {
      if |graph.edges[vertex]| != 0 {
        break;
      }
      vertex := vertex + 1;
    }
    if vertex != |graph.edges| {
      assert FirstWithEdges(graph.edges, vertex);
      var marked := seq(|graph.edges|, _ => Unvisited);
      ghost var fin := seq(|graph.edges|, _ => 0);
      ReachRefl(adj, vertex);
      assert Finished(adj, marked, fin, 0) by {
        forall u | 0 <= u < |adj| ensures FinishedAt(adj, marked, fin, 0, u) { }
      }
      var m;
      ghost var f, c;
      ok, m, f, c := IsAcyclicImpl(graph, vertex, marked, vertex, fin, 0);
      if ok {
        NoCycle(adj, m, f, c, vertex);
      }
      return ok;
    }
    return false;
  }

  // The depth-first post-order.

  /** Every vertex marked but not yet listed (a vertex of the current search
      path) reaches `vertex`. */
  ghost predicate Stacked(adj: seq<seq<int>>, marked: seq<bool>, result: seq<int>, vertex: int)
  {
    forall x :: 0 <= x < |marked| && marked[x] && x !in result ==> Reachable(adj, x, vertex)
  }

  /** From index `lo` on, each successor of a listed vertex is listed before it,
      or reaches it (and so closes a cycle). */
  ghost predicate PostOrderFrom(adj: seq<seq<int>>, lo: nat, r: seq<int>)
  {
    forall i :: lo <= i < |r| ==>
      && 0 <= r[i] < |adj|
      && forall k :: 0 <= k < |adj[r[i]]| ==> adj[r[i]][k] in r[..i] || Reachable(adj, adj[r[i]][k], r[i])
  }

  lemma PostOrderJoin(adj: seq<seq<int>>, lo: nat, r: seq<int>, r2: seq<int>)
    requires lo <= |r| <= |r2| && r2[..|r|] == r
    requires PostOrderFrom(adj, lo, r) && PostOrderFrom(adj, |r|, r2)
    ensures PostOrderFrom(adj, lo, r2)
  {
    forall i | lo <= i < |r| ensures r2[..i] == r[..i] && r2[i] == r[i] {
      assert r2[..i] == r2[..|r|][..i];
    }
  }

  /** The search from an unmarked successor `next` of `vertex` keeps the path reaching it. */
  lemma StackedChild(adj: seq<seq<int>>, marked: seq<bool>, result: seq<int>, vertex: int,
                     m1: seq<bool>, m: seq<bool>, r: seq<int>, q: seq<int>, q0: seq<int>, next: int)
    requires WellFormed(adj) && |marked| == |adj| && 0 <= vertex < |adj| && m1 == marked[vertex := true]
    requires Stacked(adj, marked, result, vertex)
    requires Partial(adj, m1, result, q0, m, r, q, vertex)
    requires 0 <= next < |adj| && next in adj[vertex] && !m[next]
    ensures Stacked(adj, m, r, next)
  {
    forall x | 0 <= x < |m| && m[x] && x !in r ensures Reachable(adj, x, next) {
      assert x !in r[|result|..];
      if x == vertex {
        ReachStep(adj, vertex, next);
      } else {
        assert x !in result by { assert r[..|result|] == result; }
        ReachAppend(adj, x, vertex, next);
      }
    }
  }

  /** An already marked successor is listed or reaches `vertex`. */
  lemma MarkedSuccessor(adj: seq<seq<int>>, marked: seq<bool>, result: seq<int>, vertex: int,
                        m1: seq<bool>, m: seq<bool>, r: seq<int>, q: seq<int>, q0: seq<int>, next: int)
    requires WellFormed(adj) && |marked| == |adj| && 0 <= vertex < |adj| && m1 == marked[vertex := true]
    requires Stacked(adj, marked, result, vertex)
    requires Partial(adj, m1, result, q0, m, r, q, vertex)
    requires 0 <= next < |adj| && m[next]
    ensures next in r || Reachable(adj, next, vertex)
  {
    if next !in r {
      assert next !in r[|result|..];
      if next == vertex {
        ReachRefl(adj, vertex);
      } else {
        assert next !in result by { assert r[..|result|] == result; }
      }
    }
  }

  /** The loop of `dfs_impl` after `i` successors of `vertex`. */
  ghost predicate PostRound(adj: seq<seq<int>>, marked: seq<bool>, result: seq<int>, parents: seq<int>, vertex: int,
                            m: seq<bool>, r: seq<int>, q: seq<int>, i: int)
    requires 0 <= vertex < |adj| && 0 <= vertex < |marked|
  {
    && 0 <= i <= |adj[vertex]|
    && Explored(adj, vertex, marked[vertex := true], m) && AllMarked(m, adj[vertex][..i])
    && Partial(adj, marked[vertex := true], result, parents, m, r, q, vertex)
    && PostOrderFrom(adj, |result|, r)
    && forall k :: 0 <= k < i ==> adj[vertex][k] in r || Reachable(adj, adj[vertex][k], vertex)
  }

  lemma PostRoundStart(adj: seq<seq<int>>, marked: seq<bool>, result: seq<int>, parents: seq<int>, vertex: int)
    requires WellFormed(adj) && |marked| == |adj| && |parents| == |result|
    requires 0 <= vertex < |adj| && !marked[vertex] && Listed(adj, marked, result)
    ensures PostRound(adj, marked, result, parents, vertex, marked[vertex := true], result, parents, 0)
  {
    var m1 := marked[vertex := true];
    assert result[|result|..] == [];
    assert vertex !in result;
    assert Listed(adj, m1, result);
  }

  lemma PostRoundChild(adj: seq<seq<int>>, marked: seq<bool>, result: seq<int>, parents: seq<int>, vertex: int,
                       m: seq<bool>, r: seq<int>, q: seq<int>, i: int, m2: seq<bool>, r2: seq<int>, q2: seq<int>)
    requires WellFormed(adj) && |marked| == |adj| && 0 <= vertex < |adj|
    requires PostRound(adj, marked, result, parents, vertex, m, r, q, i) && i < |adj[vertex]|
    requires !m[adj[vertex][i]]
    requires Explored(adj, adj[vertex][i], m[adj[vertex][i] := true], m2) && AllMarked(m2, adj[adj[vertex][i]])
    requires Appended(adj, m[adj[vertex][i] := true], r, q, m2, r2, q2, adj[vertex][i], vertex)
    requires PostOrderFrom(adj, |r|, r2)
    ensures PostRound(adj, marked, result, parents, vertex, m2, r2, q2, i + 1)
  {
    var m1 := marked[vertex := true];
    var next := adj[vertex][i];
    ExploredChild(adj, vertex, m1, m, i, m2);
    assert next in adj[vertex];
    PartialChild(adj, m1, result, parents, m, r, q, vertex, next, m2, r2, q2);
    PostOrderJoin(adj, |result|, r, r2);
    SuccessorsSeen(adj, vertex, r, r2, i);
  }

  lemma SuccessorsSeen(adj: seq<seq<int>>, vertex: int, r: seq<int>, r2: seq<int>, i: int)
    requires 0 <= vertex < |adj| && 0 <= i < |adj[vertex]|
    requires |r| < |r2| && r2[..|r|] == r && r2[|r2| - 1] == adj[vertex][i]
    requires forall k :: 0 <= k < i ==> adj[vertex][k] in r || Reachable(adj, adj[vertex][k], vertex)
    ensures forall k :: 0 <= k < i + 1 ==> adj[vertex][k] in r2 || Reachable(adj, adj[vertex][k], vertex)
  {
    assert r2 == r + r2[|r|..];
  }

  lemma PostRoundSkip(adj: seq<seq<int>>, marked: seq<bool>, result: seq<int>, parents: seq<int>, vertex: int,
                      m: seq<bool>, r: seq<int>, q: seq<int>, i: int)
    requires WellFormed(adj) && |marked| == |adj| && 0 <= vertex < |adj|
    requires PostRound(adj, marked, result, parents, vertex, m, r, q, i) && i < |adj[vertex]|
    requires m[adj[vertex][i]] && Stacked(adj, marked, result, vertex)
    ensures PostRound(adj, marked, result, parents, vertex, m, r, q, i + 1)
  {
    var next := adj[vertex][i];
    MarkedSuccessor(adj, marked, result, vertex, marked[vertex := true], m, r, q, parents, next);
    assert adj[vertex][..i + 1] == adj[vertex][..i] + [next];
  }

  lemma PostRoundDone(adj: seq<seq<int>>, marked: seq<bool>, result: seq<int>, parents: seq<int>, vertex: int,
                      m: seq<bool>, r: seq<int>, q: seq<int>, from: int)
    requires WellFormed(adj) && |marked| == |adj| && 0 <= vertex < |adj|
    requires PostRound(adj, marked, result, parents, vertex, m, r, q, |adj[vertex]|)
    ensures AllMarked(m, adj[vertex])
    ensures Appended(adj, marked[vertex := true], result, parents, m, r + [vertex], q + [from], vertex, from)
    ensures PostOrderFrom(adj, |result|, r + [vertex])
  {
    assert adj[vertex][..|adj[vertex]|] == adj[vertex];
    var r2 := r + [vertex];
    assert r2[..|r|] == r;
    PostOrderJoin(adj, |result|, r, r2);
    PartialDone(adj, marked[vertex := true], result, parents, m, r, q, vertex, from);
  }

  /** `dfs_impl`: marks `vertex`, visits every unmarked successor, then appends
      `vertex`. The ghost `parents` is the depth-first tree alongside `result`.
      Every successor of an appended vertex is listed before it unless it
      reaches it. */
  method DfsImpl(graph: Graph, vertex: int, marked: seq<bool>, result: seq<int>,
                 ghost from: int, ghost parents: seq<int>)
    returns (marked': seq<bool>, result': seq<int>, ghost parents': seq<int>)
    requires Valid(graph.edges) && |marked| == |graph.edges| && |parents| == |result|
    requires 0 <= vertex < |graph.edges| && !marked[vertex]
    requires Listed(Targets(graph.edges), marked, result) && Stacked(Targets(graph.edges), marked, result, vertex)
    ensures Explored(Targets(graph.edges), vertex, marked[vertex := true], marked')
    ensures AllMarked(marked', Targets(graph.edges)[vertex])
    ensures Appended(Targets(graph.edges), marked[vertex := true], result, parents, marked', result', parents', vertex, from)
    ensures PostOrderFrom(Targets(graph.edges), |result|, result')
    decreases CountFalse(marked)
  {
    ghost var adj := Targets(graph.edges);
    TargetsWellFormed(graph.edges);
    var m1 := marked[vertex := true];
    CountFalseGrows(marked, m1);
    PostRoundStart(adj, marked, result, parents, vertex);
    marked', result', parents' := m1, result, parents;
    for i := 0 to |graph.edges[vertex]|
      invariant PostRound(adj, marked, result, parents, vertex, marked', result', parents', i)
    {
      var next := graph.edges[vertex][i].to;
      assert next == adj[vertex][i];
      if !marked'[next] {
        StackedChild(adj, marked, result, vertex, m1, marked', result', parents', parents, next);
        CountFalseGrows(m1, marked');
        var m2, r2, q2 := DfsImpl(graph, next, marked', result', vertex, parents');
        PostRoundChild(adj, marked, result, parents, vertex, marked', result', parents', i, m2, r2, q2);
        marked', result', parents' := m2, r2, q2;
      } else {
        PostRoundSkip(adj, marked, result, parents, vertex, marked', result', parents', i);
      }
    }
    PostRoundDone(adj, marked, result, parents, vertex, marked', result', parents', from);
    result', parents' := result' + [vertex], parents' + [from];
  }

  /** `getTopologicalOrder`: every vertex reachable from `vertex` exactly once,
      `vertex` last, each successor of a listed vertex listed before it unless
      it reaches it. */
  method TopologicalOrder(graph: Graph, vertex: int) returns (result: seq<int>)
    requires Valid(graph.edges) && 0 <= vertex < |graph.edges|
    ensures Distinct(result)
    ensures forall x :: x in result <==> 0 <= x < |graph.edges| && Reachable(Targets(graph.edges), vertex, x)
    ensures |result| > 0 && result[|result| - 1] == vertex
    ensures PostOrderFrom(Targets(graph.edges), 0, result)
  {
    ghost var adj := Targets(graph.edges);
    TargetsWellFormed(graph.edges);
    var marked := seq(|graph.edges|, _ => false);
    var m;
    ghost var q;
    m, result, q := DfsImpl(graph, vertex, marked, [], -1, []);
    assert result[0..] == result;
    assert Closed(adj, m);
    forall x ensures x in result <==> 0 <= x < |adj| && Reachable(adj, vertex, x) {
      if x == vertex {
        ReachRefl(adj, vertex);
      }
      if 0 <= x < |adj| && Reachable(adj, vertex, x) {
        ClosedReach(adj, m, vertex, x);
      }
    }
  }

  /** No vertex of `ord` has an edge to itself or to an earlier vertex. */
  ghost predicate Sorted(adj: seq<seq<int>>, ord: seq<int>)
  {
    forall i, j :: 0 <= i <= j < |ord| && 0 <= ord[j] < |adj| ==> ord[i] !in adj[ord[j]]
  }

  /** An edge from a listed vertex back to a vertex listed no earlier closes a
      cycle reachable from `s`. */
  lemma BackEdgeCycle(adj: seq<seq<int>>, s: int, r: seq<int>, a: int, b: int, k: int)
    requires Distinct(r) && PostOrderFrom(adj, 0, r)
    requires forall x :: x in r ==> Reachable(adj, s, x)
    requires 0 <= a <= b < |r| && 0 <= k < |adj[r[a]]| && adj[r[a]][k] == r[b]
    ensures CycleFrom(adj, s)
  {
    assert r[b] !in r[..a] by {
      forall c | 0 <= c < a ensures r[c] != r[b] { }
    }
    assert Reachable(adj, adj[r[a]][k], r[a]);
    assert Reachable(adj, s, r[a]);
  }

  /** Without a cycle reachable from `s`, the reversed post-order is sorted. */
  lemma ReversedSorted(adj: seq<seq<int>>, s: int, r: seq<int>)
    requires Distinct(r) && PostOrderFrom(adj, 0, r)
    requires forall x :: x in r ==> Reachable(adj, s, x)
    requires !CycleFrom(adj, s)
    ensures Sorted(adj, Reversed(r))
  {
    var ord := Reversed(r);
    forall i, j | 0 <= i <= j < |ord| && 0 <= ord[j] < |adj| ensures ord[i] !in adj[ord[j]] {
      var a, b := |r| - 1 - j, |r| - 1 - i;
      forall k | 0 <= k < |adj[r[a]]| && adj[r[a]][k] == r[b] ensures false {
        BackEdgeCycle(adj, s, r, a, b, k);
      }
    }
  }

  // Distances.

  /** One step of `relax` for the first `i` edges of `vertex`, when `vertex`
      has no edge to itself: the entry of `vertex` stays, each edge's head is no
      heavier than through `vertex`, and each changed entry is the weight through
      one of those edges. */
  ghost predicate RelaxedUpTo(edges: seq<seq<Edge>>, vertex: int, res: seq<Result>, res': seq<Result>, i: int)
    requires 0 <= vertex < |edges| && 0 <= i <= |edges[vertex]| && Valid(edges) && |res| == |res'| == |edges|
  {
    && res'[vertex] == res[vertex]
    && (forall k :: 0 <= k < i ==> res'[edges[vertex][k].to].path <= res[vertex].path + edges[vertex][k].weight)
    && (forall x :: 0 <= x < |res| && res'[x] != res[x] ==>
          exists k :: 0 <= k < i && edges[vertex][k].to == x && res'[x].path == res[vertex].path + edges[vertex][k].weight)
  }

  /** Entries only get lighter, and a changed entry now comes from `vertex`
      along one of its first `i` edges. */
  ghost predicate Lighter(edges: seq<seq<Edge>>, vertex: int, res: seq<Result>, res': seq<Result>, i: int)
    requires 0 <= vertex < |edges| && 0 <= i <= |edges[vertex]| && |res| == |res'|
  {
    && (forall x :: 0 <= x < |res| ==> res'[x].path <= res[x].path)
    && (forall x :: 0 <= x < |res| && res'[x] != res[x] ==> res'[x].from == vertex && x in Targets(edges)[vertex][..i])
  }

  /** The `i`th edge keeps `Lighter`: the head changes only when it gets
      lighter through `vertex`. */
  lemma LighterStep(edges: seq<seq<Edge>>, vertex: int, res: seq<Result>, res': seq<Result>, i: int, res2: seq<Result>)
    requires Valid(edges) && 0 <= vertex < |edges| && 0 <= i < |edges[vertex]| && |res| == |res'| == |edges|
    requires Lighter(edges, vertex, res, res', i)
    requires var e := edges[vertex][i];
      res2 == if res'[vertex].path + e.weight < res'[e.to].path then res'[e.to := Result(vertex, res'[vertex].path + e.weight)] else res'
    ensures |res2| == |res| && Lighter(edges, vertex, res, res2, i + 1)
  {
    var adj := Targets(edges);
    var t := edges[vertex][i].to;
    assert adj[vertex][..i + 1] == adj[vertex][..i] + [t];
    forall x | 0 <= x < |res| && res2[x] != res[x] ensures res2[x].from == vertex && x in adj[vertex][..i + 1] {
      if res2[x] == res'[x] {
        assert x in adj[vertex][..i];
      } else {
        assert x == t;
      }
    }
  }

  /** With no edge from `vertex` to itself, the `i`th edge keeps
      `RelaxedUpTo`. */
  lemma RelaxedStep(edges: seq<seq<Edge>>, vertex: int, res: seq<Result>, res': seq<Result>, i: int, res2: seq<Result>)
    requires Valid(edges) && 0 <= vertex < |edges| && 0 <= i < |edges[vertex]| && |res| == |res'| == |edges|
    requires vertex !in Targets(edges)[vertex] && RelaxedUpTo(edges, vertex, res, res', i)
    requires forall x :: 0 <= x < |res| ==> res'[x].path <= res[x].path
    requires var e := edges[vertex][i];
      res2 == if res'[vertex].path + e.weight < res'[e.to].path then res'[e.to := Result(vertex, res'[vertex].path + e.weight)] else res'
    ensures |res2| == |res| && RelaxedUpTo(edges, vertex, res, res2, i + 1)
  {
    var e := edges[vertex][i];
    assert e.to != vertex by {
      assert Targets(edges)[vertex][i] == e.to;
    }
    forall k | 0 <= k < i + 1 ensures res2[edges[vertex][k].to].path <= res[vertex].path + edges[vertex][k].weight {
      if k < i {
        assert res'[edges[vertex][k].to].path <= res[vertex].path + edges[vertex][k].weight;
      }
    }
    forall x | 0 <= x < |res| && res2[x] != res[x]
      ensures exists k :: 0 <= k < i + 1 && edges[vertex][k].to == x && res2[x].path == res[vertex].path + edges[vertex][k].weight
    {
      if res2[x] == res'[x] {
        var k :| 0 <= k < i && edges[vertex][k].to == x && res'[x].path == res[vertex].path + edges[vertex][k].weight;
      } else {
        assert edges[vertex][i].to == x;
      }
    }
  }

  /** What `relax` of `vertex` does to the table: entries only get lighter, a
      changed entry now comes from `vertex` along one of its edges, and when
      `vertex` has no edge to itself `RelaxedUpTo` holds for all its edges. */
  ghost predicate Relaxes(edges: seq<seq<Edge>>, vertex: int, res: seq<Result>, res': seq<Result>)
    requires Valid(edges) && 0 <= vertex < |edges| && |res| == |edges|
  {
    && |res'| == |res|
    && (forall x :: 0 <= x < |res| ==> res'[x].path <= res[x].path)
    && (forall x :: 0 <= x < |res| && res'[x] != res[x] ==> res'[x].from == vertex && x in Targets(edges)[vertex])
    && (vertex !in Targets(edges)[vertex] ==> RelaxedUpTo(edges, vertex, res, res', |edges[vertex]|))
  }

  /** `relax`: for each edge of `vertex` in turn, a head that is lighter through
      `vertex` takes that weight and `vertex` as its previous vertex. The weight
      of `vertex` is read afresh at every edge. */
  method Relax(graph: Graph, vertex: int, results: seq<Result>) returns (results': seq<Result>)
    requires Valid(graph.edges) && |results| == |graph.edges| && 0 <= vertex < |graph.edges|
    ensures Relaxes(graph.edges, vertex, results, results')
  {
    results' := results;
    RelaxStart(graph.edges, vertex, results);
    for i := 0 to |graph.edges[vertex]|
      invariant RelaxedSoFar(graph.edges, vertex, results, results', i)
    {
      var edge := graph.edges[vertex][i];
      var next := edge.to;
      var before := results';
      if results'[vertex].path + edge.weight < results'[next].path {
        results' := results'[next := Result(vertex, results'[vertex].path + edge.weight)];
      }
      RelaxNext(graph.edges, vertex, results, before, i, results');
    }
    RelaxDone(graph.edges, vertex, results, results');
  }

  /** The loop of `relax` after its first `i` edges. */
  ghost predicate RelaxedSoFar(edges: seq<seq<Edge>>, vertex: int, res: seq<Result>, res': seq<Result>, i: int)
  {
    && Valid(edges) && 0 <= vertex < |edges| && 0 <= i <= |edges[vertex]| && |res| == |edges| && |res'| == |res|
    && Lighter(edges, vertex, res, res', i)
    && (vertex !in Targets(edges)[vertex] ==> RelaxedUpTo(edges, vertex, res, res', i))
  }

  lemma RelaxStart(edges: seq<seq<Edge>>, vertex: int, res: seq<Result>)
    requires Valid(edges) && 0 <= vertex < |edges| && |res| == |edges|
    ensures RelaxedSoFar(edges, vertex, res, res, 0)
  {
    assert Targets(edges)[vertex][..0] == [];
  }

  lemma RelaxNext(edges: seq<seq<Edge>>, vertex: int, res: seq<Result>, res': seq<Result>, i: int, res2: seq<Result>)
    requires RelaxedSoFar(edges, vertex, res, res', i) && i < |edges[vertex]|
    requires var e := edges[vertex][i];
      res2 == if res'[vertex].path + e.weight < res'[e.to].path then res'[e.to := Result(vertex, res'[vertex].path + e.weight)] else res'
    ensures RelaxedSoFar(edges, vertex, res, res2, i + 1)
  {
    LighterStep(edges, vertex, res, res', i, res2);
    if vertex !in Targets(edges)[vertex] {
      RelaxedStep(edges, vertex, res, res', i, res2);
    }
  }

  lemma RelaxDone(edges: seq<seq<Edge>>, vertex: int, res: seq<Result>, res': seq<Result>)
    requires 0 <= vertex < |edges| && RelaxedSoFar(edges, vertex, res, res', |edges[vertex]|)
    ensures Relaxes(edges, vertex, res, res')
  {
    assert Targets(edges)[vertex][..|edges[vertex]|] == Targets(edges)[vertex];
  }

  /** `from` is a vertex reachable from `source` with an edge to `v`. */
  ghost predicate Predecessor(edges: seq<seq<Edge>>, source: int, from: int, v: int)
  {
    0 <= from < |edges| && Reachable(Targets(edges), source, from) && v in Targets(edges)[from]
  }

  /** Every edge out of a vertex reachable from `source` is no shorter than the
      difference of the weights at its ends. */
  ghost predicate Triangle(edges: seq<seq<Edge>>, source: int, res: seq<Result>)
    requires Valid(edges) && |res| == |edges|
  {
    forall u, k :: 0 <= u < |edges| && Reachable(Targets(edges), source, u) && 0 <= k < |edges[u]| ==>
      res[edges[u][k].to].path <= res[u].path + edges[u][k].weight
  }

  /** The relaxation loop of `getAcyclicMst` after the first `i` vertices of `ord`. */
  ghost predicate MstRound(edges: seq<seq<Edge>>, source: int, ord: seq<int>, res: seq<Result>, i: int)
    requires Valid(edges) && 0 <= source < |edges| && forall j :: 0 <= j < |ord| ==> 0 <= ord[j] < |edges|
  {
    && 0 <= i <= |ord| && |res| == |edges|
    && (forall v :: 0 <= v < |edges| ==> res[v].path <= Start(|edges|, source)[v].path)
    && (forall v :: 0 <= v < |edges| && !Reachable(Targets(edges), source, v) ==> res[v] == Start(|edges|, source)[v])
    && (forall v :: 0 <= v < |edges| ==> res[v] == Start(|edges|, source)[v] || Predecessor(edges, source, res[v].from, v))
    && (Sorted(Targets(edges), ord) ==> res[source] == Result(source, 0))
    && (Sorted(Targets(edges), ord) ==> forall j, k :: 0 <= j < i && 0 <= k < |edges[ord[j]]| ==>
          res[edges[ord[j]][k].to].path <= res[ord[j]].path + edges[ord[j]][k].weight)
  }

  lemma MstStart(edges: seq<seq<Edge>>, source: int, ord: seq<int>)
    requires Valid(edges) && 0 <= source < |edges| && forall j :: 0 <= j < |ord| ==> 0 <= ord[j] < |edges|
    ensures MstRound(edges, source, ord, Start(|edges|, source), 0)
  {
  }

  /** The order `getAcyclicMst` relaxes in: reachable vertices, the source
      first, every reachable vertex present, and sorted when no cycle is
      reachable. */
  ghost predicate Ordering(edges: seq<seq<Edge>>, source: int, ord: seq<int>)
  {
    && Valid(edges) && 0 <= source < |edges|
    && |ord| > 0 && ord[0] == source
    && (forall j :: 0 <= j < |ord| ==> 0 <= ord[j] < |edges| && Reachable(Targets(edges), source, ord[j]))
    && (forall u :: 0 <= u < |edges| && Reachable(Targets(edges), source, u) ==> u in ord)
    && (!CycleFrom(Targets(edges), source) ==> Sorted(Targets(edges), ord))
  }

  lemma MstStep(edges: seq<seq<Edge>>, source: int, ord: seq<int>, res: seq<Result>, i: int, res': seq<Result>)
    requires Ordering(edges, source, ord)
    requires MstRound(edges, source, ord, res, i) && i < |ord|
    requires Relaxes(edges, ord[i], res, res')
    ensures MstRound(edges, source, ord, res', i + 1)
  {
    MstStepKept(edges, source, ord, res, i, res');
    if Sorted(Targets(edges), ord) {
      MstStepSorted(edges, source, ord, res, i, res');
    }
  }

  /** A relaxation step keeps every entry a reachable predecessor's or the
      starting one. */
  lemma MstStepKept(edges: seq<seq<Edge>>, source: int, ord: seq<int>, res: seq<Result>, i: int, res': seq<Result>)
    requires Ordering(edges, source, ord)
    requires MstRound(edges, source, ord, res, i) && i < |ord|
    requires Relaxes(edges, ord[i], res, res')
    ensures forall v :: 0 <= v < |edges| ==> res'[v].path <= Start(|edges|, source)[v].path
    ensures forall v :: 0 <= v < |edges| && !Reachable(Targets(edges), source, v) ==> res'[v] == Start(|edges|, source)[v]
    ensures forall v :: 0 <= v < |edges| ==> res'[v] == Start(|edges|, source)[v] || Predecessor(edges, source, res'[v].from, v)
  {
    var adj := Targets(edges);
    var u := ord[i];
    TargetsWellFormed(edges);
    forall x | 0 <= x < |res| && res'[x] != res[x] ensures Reachable(adj, source, x) && Predecessor(edges, source, res'[x].from, x) {
      ReachAppend(adj, source, u, x);
    }
  }

  /** In a sorted order a relaxation step leaves the vertices before it alone,
      so their edges stay relaxed, and relaxes the edges of `ord[i]`. */
  lemma MstStepSorted(edges: seq<seq<Edge>>, source: int, ord: seq<int>, res: seq<Result>, i: int, res': seq<Result>)
    requires Ordering(edges, source, ord)
    requires MstRound(edges, source, ord, res, i) && i < |ord|
    requires Relaxes(edges, ord[i], res, res')
    requires Sorted(Targets(edges), ord)
    ensures res'[source] == Result(source, 0)
    ensures forall j, k :: 0 <= j < i + 1 && 0 <= k < |edges[ord[j]]| ==>
          res'[edges[ord[j]][k].to].path <= res'[ord[j]].path + edges[ord[j]][k].weight
  {
    var adj := Targets(edges);
    var u := ord[i];
    TargetsWellFormed(edges);
    assert ord[0] !in adj[u];
    forall j | 0 <= j <= i ensures res'[ord[j]] == res[ord[j]] {
      assert ord[j] !in adj[u];
    }
    forall j, k | 0 <= j < i + 1 && 0 <= k < |edges[ord[j]]|
      ensures res'[edges[ord[j]][k].to].path <= res'[ord[j]].path + edges[ord[j]][k].weight
    {
    }
  }

  /** The reversed post-order from `source`: reachable vertices, the source
      first, every reachable vertex present, and sorted when no cycle is
      reachable. */
  lemma OrderFacts(edges: seq<seq<Edge>>, source: int, post: seq<int>)
    requires Valid(edges) && 0 <= source < |edges|
    requires Distinct(post) && PostOrderFrom(Targets(edges), 0, post)
    requires forall x :: x in post <==> 0 <= x < |edges| && Reachable(Targets(edges), source, x)
    requires |post| > 0 && post[|post| - 1] == source
    ensures Ordering(edges, source, Reversed(post))
  {
    OrderInside(edges, source, post);
    OrderComplete(edges, source, post);
    if !CycleFrom(Targets(edges), source) {
      ReversedSorted(Targets(edges), source, post);
    }
  }

  lemma OrderInside(edges: seq<seq<Edge>>, source: int, post: seq<int>)
    requires forall x :: x in post <==> 0 <= x < |edges| && Reachable(Targets(edges), source, x)
    ensures forall j :: 0 <= j < |Reversed(post)| ==> 0 <= Reversed(post)[j] < |edges| && Reachable(Targets(edges), source, Reversed(post)[j])
  {
    var ord := Reversed(post);
    forall j | 0 <= j < |ord| ensures 0 <= ord[j] < |edges| && Reachable(Targets(edges), source, ord[j]) {
      assert ord[j] == post[|post| - 1 - j];
      assert ord[j] in post;
    }
  }

  lemma OrderComplete(edges: seq<seq<Edge>>, source: int, post: seq<int>)
    requires forall x :: x in post <==> 0 <= x < |edges| && Reachable(Targets(edges), source, x)
    ensures forall u :: 0 <= u < |edges| && Reachable(Targets(edges), source, u) ==> u in Reversed(post)
  {
    forall u | 0 <= u < |edges| && Reachable(Targets(edges), source, u)
      ensures u in Reversed(post)
    {
      assert u in post;
      ReversedHas(post, u);
    }
  }

  lemma ReversedHas(post: seq<int>, u: int)
    requires u in post
    ensures u in Reversed(post)
  {
    var a :| 0 <= a < |post| && post[a] == u;
    assert Reversed(post)[|post| - 1 - a] == u;
  }

  /** After the whole order, every edge out of a reachable vertex is relaxed. */
  lemma MstDone(edges: seq<seq<Edge>>, source: int, ord: seq<int>, res: seq<Result>)
    requires Ordering(edges, source, ord)
    requires MstRound(edges, source, ord, res, |ord|) && !CycleFrom(Targets(edges), source)
    ensures res[source] == Result(source, 0) && Triangle(edges, source, res)
  {
    forall u, k | 0 <= u < |edges| && Reachable(Targets(edges), source, u) && 0 <= k < |edges[u]|
      ensures res[edges[u][k].to].path <= res[u].path + edges[u][k].weight
    {
      var j :| 0 <= j < |ord| && ord[j] == u;
    }
  }

  /** `getAcyclicMst`: relaxes the vertices reachable from `source` in reversed
      post-order, starting from `Start`. Entries only get lighter, unreachable
      vertices keep `{-1, 999999}`, and every other changed entry names a
      reachable vertex with an edge to it. Without a cycle reachable from
      `source` the order is topological: the source keeps `{source, 0}` and every
      edge out of a reachable vertex is relaxed for good. */
  method AcyclicMst(graph: Graph, source: int) returns (results: seq<Result>)
    requires Valid(graph.edges) && 0 <= source < |graph.edges|
    ensures |results| == |graph.edges|
    ensures forall v :: 0 <= v < |graph.edges| ==> results[v].path <= Start(|graph.edges|, source)[v].path
    ensures forall v :: 0 <= v < |graph.edges| && !Reachable(Targets(graph.edges), source, v) ==> results[v] == Result(-1, 999999)
    ensures forall v :: 0 <= v < |graph.edges| ==>
      results[v] == Start(|graph.edges|, source)[v] || Predecessor(graph.edges, source, results[v].from, v)
    ensures !CycleFrom(Targets(graph.edges), source) ==> results[source] == Result(source, 0)
    ensures !CycleFrom(Targets(graph.edges), source) ==> Triangle(graph.edges, source, results)
  {
    var order := TopologicalOrder(graph, source);
    OrderFacts(graph.edges, source, order);
    order := Reversed(order);
    results := RelaxInOrder(graph, source, order);
    MstEnd(graph.edges, source, order, results);
  }

  /** The loop of `getAcyclicMst`: from `Start`, `relax` each vertex of the
      order in turn. */
  method RelaxInOrder(graph: Graph, source: int, order: seq<int>) returns (results: seq<Result>)
    requires Ordering(graph.edges, source, order)
    ensures MstRound(graph.edges, source, order, results, |order|)
  {
    results := Start(|graph.edges|, source);
    MstStart(graph.edges, source, order);
    for i := 0 to |order|
      invariant MstRound(graph.edges, source, order, results, i)
    {
      var before := results;
      results := Relax(graph, order[i], results);
      MstStep(graph.edges, source, order, before, i, results);
    }
  }

  lemma MstEnd(edges: seq<seq<Edge>>, source: int, ord: seq<int>, res: seq<Result>)
    requires Ordering(edges, source, ord) && MstRound(edges, source, ord, res, |ord|)
    ensures |res| == |edges|
    ensures forall v :: 0 <= v < |edges| ==> res[v].path <= Start(|edges|, source)[v].path
    ensures forall v :: 0 <= v < |edges| && !Reachable(Targets(edges), source, v) ==> res[v] == Result(-1, 999999)
    ensures forall v :: 0 <= v < |edges| ==> res[v] == Start(|edges|, source)[v] || Predecessor(edges, source, res[v].from, v)
    ensures !CycleFrom(Targets(edges), source) ==> res[source] == Result(source, 0) && Triangle(edges, source, res)
  {
    if !CycleFrom(Targets(edges), source) {
      MstDone(edges, source, ord, res);
    }
  }

  /** Where every edge out of a reachable vertex is relaxed, the entry of the
      head of a walk from `s` is at most the entry of `s` plus the walk's
      weight: the distances `getAcyclicMst` computes on a graph without a
      reachable cycle are no heavier than any walk. */
  lemma {:induction false} WalkBound(edges: seq<seq<Edge>>, s: int, res: seq<Result>, p: seq<Edge>, t: int)
    requires Valid(edges) && |res| == |edges| && Triangle(edges, s, res) && EdgeWalk(edges, p, s, t)
    ensures 0 <= t < |edges| && Reachable(Targets(edges), s, t)
    ensures res[t].path <= res[s].path + Weight(p)
    decreases |p|
  {
    if p == [] {
      ReachRefl(Targets(edges), s);
    } else {
      var e := p[|p| - 1];
      var k := EdgeWalkLast(edges, p, s, t);
      WalkBound(edges, s, res, p[..|p| - 1], e.from);
      TargetsWellFormed(edges);
      ReachAppend(Targets(edges), s, e.from, e.to);
    }
  }

  // The test graph, `TestEdges`, is shared with the Bellman-Ford tests.

  /** The heads of the test graph's edges. */
  lemma TestTargets()
    ensures Targets(TestEdges()) == [[1, 4, 7], [2, 3, 7], [3, 6], [6], [5, 6, 7], [2, 6], [], [2, 5]]
  {
    var e := TestEdges();
    var adj := Targets(e);
    assert adj[0] == [e[0][0].to, e[0][1].to, e[0][2].to];
    assert adj[1] == [e[1][0].to, e[1][1].to, e[1][2].to];
    assert adj[2] == [e[2][0].to, e[2][1].to];
    assert adj[3] == [e[3][0].to];
    assert adj[4] == [e[4][0].to, e[4][1].to, e[4][2].to];
    assert adj[5] == [e[5][0].to, e[5][1].to];
    assert adj[6] == [];
    assert adj[7] == [e[7][0].to, e[7][1].to];
  }

  /** Along a walk, a rank that every edge increases never decreases. */
  lemma {:induction false} RankAlongWalk(adj: seq<seq<int>>, rank: seq<int>, w: seq<int>)
    requires |rank| == |adj| && IsWalk(adj, w)
    requires forall u, k :: 0 <= u < |adj| && 0 <= k < |adj[u]| ==> 0 <= adj[u][k] < |adj| && rank[u] < rank[adj[u][k]]
    ensures rank[w[0]] <= rank[w[|w| - 1]]
    decreases |w|
  {
    if |w| > 1 {
      var w' := w[..|w| - 1];
      RankAlongWalk(adj, rank, w');
      var x := w[|w| - 2];
      var k :| 0 <= k < |adj[x]| && adj[x][k] == w[|w| - 1];
    }
  }

  /** A rank that every edge increases rules out cycles. */
  lemma RankedAcyclic(adj: seq<seq<int>>, rank: seq<int>, s: int)
    requires |rank| == |adj|
    requires forall u, k :: 0 <= u < |adj| && 0 <= k < |adj[u]| ==> 0 <= adj[u][k] < |adj| && rank[u] < rank[adj[u][k]]
    ensures !CycleFrom(adj, s)
  {
    forall u, k | 0 <= u < |adj| && Reachable(adj, s, u) && 0 <= k < |adj[u]| && Reachable(adj, adj[u][k], u)
      ensures false
    {
      var w :| IsWalk(adj, w) && w[0] == adj[u][k] && w[|w| - 1] == u;
      RankAlongWalk(adj, rank, w);
    }
  }

  /** The test graph has no cycle, so `AcyclicMst` promises its topological facts. */
  lemma TestAcyclic()
    ensures !CycleFrom(Targets(TestEdges()), 0)
  {
    TestTargets();
    var adj := Targets(TestEdges());
    var rank := [0, 1, 5, 6, 2, 4, 7, 3];
    forall u, k | 0 <= u < |adj| && 0 <= k < |adj[u]| ensures 0 <= adj[u][k] < |adj| && rank[u] < rank[adj[u][k]] {
      assert u in {0, 1, 2, 3, 4, 5, 6, 7};
    }
    RankedAcyclic(adj, rank, 0);
  }

  /** A table meeting `AcyclicMst`'s promises on the test graph (which has no
      cycle) is no heavier than the distances the test expects:
      5, 14, 17, 9, 13, 25 and 8 for vertices 1 to 7. */
  lemma TestUpperBounds(res: seq<Result>)
    requires |res| == 8 && res[0] == Result(0, 0) && Triangle(TestEdges(), 0, res)
    ensures res[1].path <= 5 && res[2].path <= 14 && res[3].path <= 17 && res[4].path <= 9
    ensures res[5].path <= 13 && res[6].path <= 25 && res[7].path <= 8
  {
    var e := TestEdges();
    TestTargets();
    var adj := Targets(e);
    ReachRefl(adj, 0);
    assert e[0][0].to == 1 && e[0][1].to == 4 && e[0][2].to == 7;
    ReachStep(adj, 0, 4);
    assert e[4][0].to == 5;
    ReachAppend(adj, 0, 4, 5);
    assert e[5][0].to == 2;
    ReachAppend(adj, 0, 5, 2);
    assert e[2][0].to == 3 && e[2][1].to == 6;
  }
}
