/** shortest_path/BellmanFord/main.cpp: single-source distances by relaxing
    every vertex's edges, in index order, once per vertex of the graph. */
module BellmanFord {
  import opened Paths
  import opened WeightedEdges

  /** The graph: `edges[v]` is `m_edges[v]`, to which `add` appends. */
  class Graph {
    var edges: seq<seq<Edge>>

    /** `Graph(size)`: `size` vertices, no edges. */
    constructor (size: nat)
      ensures edges == seq(size, _ => [])
    {
      edges := seq(size, _ => []);
    }

    /** `add(e)`: the edge goes to its tail's list only. */
    method Add(e: Edge)
      requires 0 <= e.from < |edges|
      modifies this
      ensures edges == old(edges)[e.from := old(edges)[e.from] + [e]]
    {
      edges := edges[e.from := edges[e.from] + [e]];
    }

    /** `add(from, to, weight)`. */
    method AddEdge(from: int, to: int, weight: int)
      requires 0 <= from < |edges|
      modifies this
      ensures edges == old(edges)[from := old(edges)[from] + [Edge(from, to, weight)]]
    {
      Add(Edge(from, to, weight));
    }
  }

  // Relaxation.

  /** The loop of `relax` after its first `i` edges: entries only get lighter,
      a changed entry is strictly lighter and comes from `vertex` along one of
      those edges, a flag is raised exactly where an entry got lighter, and each
      of those edges' heads is no heavier than `vertex` was plus the weight. */
  ghost predicate RelaxRound(edges: seq<seq<Edge>>, vertex: int, res: seq<Result>, flags: seq<bool>,
                             res': seq<Result>, flags': seq<bool>, i: int)
    requires Valid(edges) && 0 <= vertex < |edges| && |res| == |edges|
  {
    && 0 <= i <= |edges[vertex]| && |res'| == |res| && |flags| == |flags'| == |res|
    && (forall x :: 0 <= x < |res| ==> res'[x].path <= res[x].path)
    && (forall x :: 0 <= x < |res| && res'[x] != res[x] ==>
          res'[x].path < res[x].path && res'[x].from == vertex && x in Targets(edges)[vertex][..i])
    && (forall x :: 0 <= x < |res| ==> (flags'[x] <==> flags[x] || res'[x].path < res[x].path))
    && (forall k :: 0 <= k < i ==> res'[edges[vertex][k].to].path <= res[vertex].path + edges[vertex][k].weight)
  }

  lemma RelaxRoundStart(edges: seq<seq<Edge>>, vertex: int, res: seq<Result>, flags: seq<bool>)
    requires Valid(edges) && 0 <= vertex < |edges| && |res| == |flags| == |edges|
    ensures RelaxRound(edges, vertex, res, flags, res, flags, 0)
  {
  }

  lemma RelaxRoundStep(edges: seq<seq<Edge>>, vertex: int, res: seq<Result>, flags: seq<bool>,
                       res': seq<Result>, flags': seq<bool>, i: int, res2: seq<Result>, flags2: seq<bool>)
    requires Valid(edges) && 0 <= vertex < |edges| && |res| == |edges|
    requires RelaxRound(edges, vertex, res, flags, res', flags', i) && i < |edges[vertex]|
    requires var e := edges[vertex][i];
      if res'[vertex].path + e.weight < res'[e.to].path then
        res2 == res'[e.to := Result(vertex, res'[vertex].path + e.weight)] && flags2 == flags'[e.to := true]
      else
        res2 == res' && flags2 == flags'
    ensures RelaxRound(edges, vertex, res, flags, res2, flags2, i + 1)
  {
    var adj := Targets(edges);
    assert adj[vertex][..i + 1] == adj[vertex][..i] + [edges[vertex][i].to];
  }

  /** What `relax` of `vertex` does: entries only get lighter; a changed entry
      is strictly lighter and names `vertex`, which has an edge to it; a flag is
      raised exactly where an entry got lighter, and stays raised; and every
      edge of `vertex` now leads to an entry no heavier than the entry `vertex`
      had on entry plus the edge's weight. */
  ghost predicate Relaxes(edges: seq<seq<Edge>>, vertex: int, res: seq<Result>, flags: seq<bool>,
                          res': seq<Result>, flags': seq<bool>)
    requires Valid(edges) && 0 <= vertex < |edges| && |res| == |edges|
  {
    && |res'| == |res| && |flags'| == |flags|
    && (forall x :: 0 <= x < |res| ==> res'[x].path <= res[x].path)
    && (forall x :: 0 <= x < |res| && res'[x] != res[x] ==>
          res'[x].path < res[x].path && res'[x].from == vertex && x in Targets(edges)[vertex])
    && (forall x :: 0 <= x < |res| && x < |flags| ==> (flags'[x] <==> flags[x] || res'[x].path < res[x].path))
    && (forall k :: 0 <= k < |edges[vertex]| ==> res'[edges[vertex][k].to].path <= res[vertex].path + edges[vertex][k].weight)
  }

  /** `relax`: for each edge of `vertex` in turn, a head that is lighter through
      `vertex` takes that weight and `vertex` as its previous vertex, and its flag
      is raised. The weight of `vertex` is read afresh at every edge. */
  method Relax(graph: Graph, vertex: int, results: seq<Result>, relaxed: seq<bool>)
    returns (results': seq<Result>, relaxed': seq<bool>)
    requires Valid(graph.edges) && |results| == |relaxed| == |graph.edges| && 0 <= vertex < |graph.edges|
    ensures Relaxes(graph.edges, vertex, results, relaxed, results', relaxed')
  {
    RelaxRoundStart(graph.edges, vertex, results, relaxed);
    results', relaxed' := results, relaxed;
    for i := 0 to |graph.edges[vertex]|
      invariant RelaxRound(graph.edges, vertex, results, relaxed, results', relaxed', i)
    {
      var edge := graph.edges[vertex][i];
      var next := edge.to;
      var r0, f0 := results', relaxed';
      if results'[vertex].path + edge.weight < results'[next].path {
        results' := results'[next := Result(vertex, results'[vertex].path + edge.weight)];
        relaxed' := relaxed'[next := true];
      }
      RelaxRoundStep(graph.edges, vertex, results, relaxed, r0, f0, i, results', relaxed');
    }
    assert Targets(graph.edges)[vertex][..|graph.edges[vertex]|] == Targets(graph.edges)[vertex];
  }

  // The rounds.

  /** Every walk of at most `len` edges from any vertex `u` to `t` bounds the
      entry of `t` by the entry `base` gave `u` plus the walk's weight. */
  ghost predicate WalkBounded(edges: seq<seq<Edge>>, base: seq<Result>, res: seq<Result>, len: int)
  {
    forall u: int, t: int, p: seq<Edge> :: EdgeWalk(edges, p, u, t) && |p| <= len && 0 <= u < |base| && 0 <= t < |res| ==>
      res[t].path <= base[u].path + Weight(p)
  }

  /** A round that relaxes every edge against the entries it started from
      extends the bound to walks one edge longer. */
  lemma RoundBound(edges: seq<seq<Edge>>, base: seq<Result>, r0: seq<Result>, r1: seq<Result>, len: int)
    requires Valid(edges) && |base| == |r0| == |r1| == |edges|
    requires WalkBounded(edges, base, r0, len)
    requires forall x :: 0 <= x < |edges| ==> r1[x].path <= r0[x].path && r0[x].path <= base[x].path
    requires forall v, k :: 0 <= v < |edges| && 0 <= k < |edges[v]| ==>
      r1[edges[v][k].to].path <= r0[v].path + edges[v][k].weight
    ensures WalkBounded(edges, base, r1, len + 1)
  {
    forall u: int, t: int, p: seq<Edge> | EdgeWalk(edges, p, u, t) && |p| <= len + 1 && 0 <= u < |base| && 0 <= t < |r1|
      ensures r1[t].path <= base[u].path + Weight(p)
    {
      if p != [] {
        var k := EdgeWalkLast(edges, p, u, t);
        var e := p[|p| - 1];
        assert r0[e.from].path <= base[u].path + Weight(p[..|p| - 1]);
        assert r1[edges[e.from][k].to].path <= r0[e.from].path + edges[e.from][k].weight;
      }
    }
  }

  /** Every entry this search changes names a vertex with an edge to it. */
  ghost predicate FromPredecessor(edges: seq<seq<Edge>>, source: int, res: seq<Result>)
    requires 0 <= source < |edges| && |res| == |edges|
  {
    forall v :: 0 <= v < |res| && res[v] != Start(|edges|, source)[v] ==>
      0 <= res[v].from < |edges| && v in Targets(edges)[res[v].from]
  }

  /** The inner loop of a round after the vertices `0..j-1`. */
  ghost predicate Sweep(edges: seq<seq<Edge>>, source: int, r0: seq<Result>, res: seq<Result>, flags: seq<bool>, j: int)
    requires Valid(edges) && 0 <= source < |edges| && |r0| == |edges|
  {
    && 0 <= j <= |edges| && |res| == |flags| == |edges|
    && (forall x :: 0 <= x < |edges| ==> res[x].path <= r0[x].path)
    && (forall x :: 0 <= x < |edges| ==> (flags[x] <==> res[x].path < r0[x].path))
    && (FromPredecessor(edges, source, r0) ==> FromPredecessor(edges, source, res))
    && (forall v, k :: 0 <= v < j && 0 <= k < |edges[v]| ==>
          res[edges[v][k].to].path <= r0[v].path + edges[v][k].weight)
  }

  lemma SweepStep(edges: seq<seq<Edge>>, source: int, r0: seq<Result>, res: seq<Result>, flags: seq<bool>, j: int,
                  res': seq<Result>, flags': seq<bool>)
    requires Valid(edges) && 0 <= source < |edges| && |r0| == |edges|
    requires Sweep(edges, source, r0, res, flags, j) && j < |edges|
    requires Relaxes(edges, j, res, flags, res', flags')
    ensures Sweep(edges, source, r0, res', flags', j + 1)
  {
    if FromPredecessor(edges, source, r0) {
      forall v | 0 <= v < |res'| && res'[v] != Start(|edges|, source)[v]
        ensures 0 <= res'[v].from < |edges| && v in Targets(edges)[res'[v].from]
      {
        if res'[v] == res[v] {
          assert FromPredecessor(edges, source, res);
        }
      }
    }
  }

  /** The outer loop of `BellmanFord` after `i` rounds. */
  ghost predicate Rounds(edges: seq<seq<Edge>>, source: int, res: seq<Result>, i: int)
    requires 0 <= source < |edges|
  {
    && |res| == |edges|
    && (forall x :: 0 <= x < |edges| ==> res[x].path <= Start(|edges|, source)[x].path)
    && FromPredecessor(edges, source, res)
    && WalkBounded(edges, Start(|edges|, source), res, i)
  }

  lemma RoundsStart(edges: seq<seq<Edge>>, source: int)
    requires Valid(edges) && 0 <= source < |edges|
    ensures Rounds(edges, source, Start(|edges|, source), 0)
  {
  }

  lemma SweepStart(edges: seq<seq<Edge>>, source: int, r0: seq<Result>, i: int)
    requires Valid(edges) && 0 <= source < |edges| && Rounds(edges, source, r0, i)
    ensures Sweep(edges, source, r0, r0, seq(|edges|, _ => false), 0)
  {
  }

  lemma RoundEnd(edges: seq<seq<Edge>>, source: int, r0: seq<Result>, res: seq<Result>, flags: seq<bool>, i: int)
    requires Valid(edges) && 0 <= source < |edges| && Rounds(edges, source, r0, i)
    requires Sweep(edges, source, r0, res, flags, |edges|)
    ensures Rounds(edges, source, res, i + 1)
  {
    RoundBound(edges, Start(|edges|, source), r0, res, i);
  }

  /** `BellmanFord`: from `Start`, `|edges|` rounds, each relaxing the vertices
      `0..n-1` in index order. Entries only get lighter, every changed entry
      names a vertex with an edge to it, and every walk of at most `|edges|`
      edges bounds the entry of its head by its tail's starting entry plus its
      weight. `verticeToUpdate` lists, after each round, the vertices that round
      lowered; nothing reads it. */
  method BellmanFord(graph: Graph, source: int) returns (result: seq<Result>)
    requires Valid(graph.edges) && 0 <= source < |graph.edges|
    ensures |result| == |graph.edges|
    ensures forall v :: 0 <= v < |graph.edges| ==> result[v].path <= Start(|graph.edges|, source)[v].path
    ensures FromPredecessor(graph.edges, source, result)
    ensures WalkBounded(graph.edges, Start(|graph.edges|, source), result, |graph.edges|)
  {
    result := Start(|graph.edges|, source);
    var verticeToUpdate: seq<int> := [];
    for i := 0 to |graph.edges|
      invariant verticeToUpdate == seq(i, v => v)
    {
      verticeToUpdate := verticeToUpdate + [i];
    }
    RoundsStart(graph.edges, source);
    for i := 0 to |graph.edges|
      invariant Rounds(graph.edges, source, result, i)
    {
      var nextRoundUpdate;
      result, nextRoundUpdate := Round(graph, source, result, i);
      verticeToUpdate := Lowered(nextRoundUpdate);
    }
  }

  /** One round of `BellmanFord`: relax the vertices `0..n-1` in index order,
      flagging in `flags` every entry the round lowered. */
  method Round(graph: Graph, source: int, r0: seq<Result>, ghost i: int) returns (result: seq<Result>, flags: seq<bool>)
    requires Valid(graph.edges) && 0 <= source < |graph.edges| && Rounds(graph.edges, source, r0, i)
    ensures Rounds(graph.edges, source, result, i + 1)
    ensures |flags| == |graph.edges|
    ensures forall x :: 0 <= x < |graph.edges| ==> (flags[x] <==> result[x].path < r0[x].path)
  {
    result, flags := r0, seq(|graph.edges|, _ => false);
    SweepStart(graph.edges, source, r0, i);
    for j := 0 to |graph.edges|
      invariant Sweep(graph.edges, source, r0, result, flags, j)
    {
      var before, flagged := result, flags;
      result, flags := Relax(graph, j, result, flags);
      SweepStep(graph.edges, source, r0, before, flagged, j, result, flags);
    }
    RoundEnd(graph.edges, source, r0, result, flags, i);
  }

  /** The vertices to update next round: those whose flag is set, in index order. */
  method Lowered(flags: seq<bool>) returns (list: seq<int>)
    ensures forall x :: x in list <==> 0 <= x < |flags| && flags[x]
    ensures forall k, l :: 0 <= k < l < |list| ==> list[k] < list[l]
  {
    list := [];
    for j := 0 to |flags|
      invariant forall x :: x in list <==> 0 <= x < j && flags[x]
      invariant forall k, l :: 0 <= k < l < |list| ==> list[k] < list[l]
      invariant forall k :: 0 <= k < |list| ==> list[k] < j
    {
      if flags[j] == true {
        list := list + [j];
      }
    }
  }

  /** The bound read for walks from the source: the entry of every vertex
      reached by a walk of at most `|edges|` edges is at most that walk's weight. */
  lemma SourceWalks(edges: seq<seq<Edge>>, source: int, res: seq<Result>, p: seq<Edge>, t: int)
    requires Valid(edges) && 0 <= source < |edges| && |res| == |edges|
    requires WalkBounded(edges, Start(|edges|, source), res, |edges|)
    requires EdgeWalk(edges, p, source, t) && |p| <= |edges|
    ensures 0 <= t < |edges| && res[t].path <= Weight(p)
  {
    if p != [] {
      var k := EdgeWalkLast(edges, p, source, t);
    }
  }

  // 999999 is an ordinary integer.

  /** Three vertices, one edge `1 -> 2` of weight -1. */
  function Unreached(): (edges: seq<seq<Edge>>)
    ensures Valid(edges) && |edges| == 3
  {
    [[], [Edge(1, 2, -1)], []]
  }

  /** From source 0, vertex 2 is unreachable, yet every table `BellmanFord`
      may return lowers it below 999999: vertex 1 keeps 999999 and its negative
      edge is relaxed like any other. */
  lemma UnreachedLowered(res: seq<Result>)
    requires |res| == 3 && WalkBounded(Unreached(), Start(3, 0), res, 3)
    ensures !Reachable(Targets(Unreached()), 0, 2)
    ensures res[2].path <= 999998
  {
    var edges := Unreached();
    var adj := Targets(edges);
    assert adj == [[], [2], []] by {
      assert adj[1] == [edges[1][0].to];
    }
    var m := [true, false, false];
    assert Closed(adj, m);
    if Reachable(adj, 0, 2) {
      ClosedReach(adj, m, 0, 2);
    }
    EdgeWalkNil(edges, 1);
    EdgeWalkSnoc(edges, [], 1, 1, 0);
    assert [] + [edges[1][0]] == [Edge(1, 2, -1)];
  }

  // The tests.

  /** A table meeting `BellmanFord`'s promises on the first test's graph is no
      heavier than the distances the test expects: 0, 5, 14, 17, 9, 13, 25, 8. */
  lemma TestUpperBounds(res: seq<Result>)
    requires |res| == 8 && WalkBounded(TestEdges(), Start(8, 0), res, 8)
    ensures res[0].path <= 0 && res[1].path <= 5 && res[2].path <= 14 && res[3].path <= 17
    ensures res[4].path <= 9 && res[5].path <= 13 && res[6].path <= 25 && res[7].path <= 8
  {
    var e := TestEdges();
    EdgeWalkNil(e, 0);
    EdgeWalkSnoc(e, [], 0, 0, 0);
    EdgeWalkSnoc(e, [], 0, 0, 1);
    EdgeWalkSnoc(e, [], 0, 0, 2);
    var p4 := [e[0][1]];
    EdgeWalkSnoc(e, p4, 0, 4, 0);
    var p5 := p4 + [e[4][0]];
    EdgeWalkSnoc(e, p5, 0, 5, 0);
    var p2 := p5 + [e[5][0]];
    EdgeWalkSnoc(e, p2, 0, 2, 0);
    EdgeWalkSnoc(e, p2, 0, 2, 1);
  }

  /** The second test's graph, vertices A..E as 0..4, with negative weights. */
  function TestNegative(): (edges: seq<seq<Edge>>)
    ensures Valid(edges) && |edges| == 5
  {
    [[Edge(0, 1, -1), Edge(0, 2, 4)],
     [Edge(1, 2, 3), Edge(1, 3, 2), Edge(1, 4, 2)],
     [],
     [Edge(3, 1, 1), Edge(3, 2, 5)],
     [Edge(4, 3, -3)]]
  }

  /** A table meeting `BellmanFord`'s promises on the second test's graph is no
      heavier than the distances the test expects: 0, -1, 2, -2, 1. */
  lemma TestNegativeUpperBounds(res: seq<Result>)
    requires |res| == 5 && WalkBounded(TestNegative(), Start(5, 0), res, 5)
    ensures res[0].path <= 0 && res[1].path <= -1 && res[2].path <= 2 && res[3].path <= -2 && res[4].path <= 1
  {
    var e := TestNegative();
    EdgeWalkNil(e, 0);
    EdgeWalkSnoc(e, [], 0, 0, 0);
    var p1 := [e[0][0]];
    EdgeWalkSnoc(e, p1, 0, 1, 0);
    EdgeWalkSnoc(e, p1, 0, 1, 2);
    var p4 := p1 + [e[1][2]];
    EdgeWalkSnoc(e, p4, 0, 4, 0);
  }
}
