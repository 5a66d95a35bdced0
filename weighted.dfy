/** Weighted directed edges as the shortest-path files store them, and walks
    along them. The shortest-path models share this vocabulary; each keeps its
    own graph class. */
module WeightedEdges {
  import opened Paths

  /** A directed edge `from -> to`; the `float` weight is an integer here. */
  datatype Edge = Edge(from: int, to: int, weight: int)

  /** Every stored edge leaves the vertex whose list holds it and enters a vertex. */
  ghost predicate Valid(edges: seq<seq<Edge>>)
  {
    forall u, k :: 0 <= u < |edges| && 0 <= k < |edges[u]| ==>
      edges[u][k].from == u && 0 <= edges[u][k].to < |edges|
  }

  /** The heads of the edges, list by list. */
  function Targets(edges: seq<seq<Edge>>): (adj: seq<seq<int>>)
    ensures |adj| == |edges|
    ensures forall u :: 0 <= u < |edges| ==> |adj[u]| == |edges[u]|
    ensures forall u, k :: 0 <= u < |edges| && 0 <= k < |edges[u]| ==> adj[u][k] == edges[u][k].to
  {
    seq(|edges|, u requires 0 <= u < |edges| => seq(|edges[u]|, k requires 0 <= k < |edges[u]| => edges[u][k].to))
  }

  lemma TargetsWellFormed(edges: seq<seq<Edge>>)
    requires Valid(edges)
    ensures WellFormed(Targets(edges))
  {
  }

  /** `p` is a sequence of stored edges leading from `s` to `t`. */
  ghost predicate EdgeWalk(edges: seq<seq<Edge>>, p: seq<Edge>, s: int, t: int)
  {
    && 0 <= s < |edges|
    && (p == [] ==> s == t)
    && (p != [] ==> p[0].from == s && p[|p| - 1].to == t)
    && (forall i :: 0 <= i < |p| ==> 0 <= p[i].from < |edges| && p[i] in edges[p[i].from])
    && (forall i :: 0 <= i < |p| - 1 ==> p[i].to == p[i + 1].from)
  }

  /** The total weight of a sequence of edges. */
  function Weight(p: seq<Edge>): int
  {
    if p == [] then 0 else Weight(p[..|p| - 1]) + p[|p| - 1].weight
  }

  /** The last edge of a non-empty walk sits in its tail's list at index `k`,
      and the walk without it leads to that tail. */
  lemma EdgeWalkLast(edges: seq<seq<Edge>>, p: seq<Edge>, s: int, t: int) returns (k: int)
    requires Valid(edges) && EdgeWalk(edges, p, s, t) && p != []
    ensures var e := p[|p| - 1];
      && 0 <= e.from < |edges| && 0 <= k < |edges[e.from]| && edges[e.from][k] == e
      && e.to == t && Targets(edges)[e.from][k] == t
      && EdgeWalk(edges, p[..|p| - 1], s, e.from)
      && Weight(p) == Weight(p[..|p| - 1]) + e.weight
  {
    var e := p[|p| - 1];
    var p' := p[..|p| - 1];
    assert EdgeWalk(edges, p', s, e.from) by {
      if p' != [] {
        assert p'[|p'| - 1].to == e.from;
      }
    }
    k :| 0 <= k < |edges[e.from]| && edges[e.from][k] == e;
  }

  /** A walk extended by a stored edge leaving its head. */
  lemma EdgeWalkSnoc(edges: seq<seq<Edge>>, p: seq<Edge>, s: int, t: int, k: int)
    requires Valid(edges) && EdgeWalk(edges, p, s, t) && 0 <= t < |edges| && 0 <= k < |edges[t]|
    ensures EdgeWalk(edges, p + [edges[t][k]], s, edges[t][k].to)
    ensures Weight(p + [edges[t][k]]) == Weight(p) + edges[t][k].weight
  {
    var p2 := p + [edges[t][k]];
    assert p2[..|p2| - 1] == p;
  }

  /** The walk of no edges. */
  lemma EdgeWalkNil(edges: seq<seq<Edge>>, s: int)
    requires 0 <= s < |edges|
    ensures EdgeWalk(edges, [], s, s) && Weight([]) == 0
  {
  }

  /** An entry of the distance table: the previous vertex and the path weight. */
  datatype Result = Result(from: int, path: int)

  /** The table both shortest-path searches start from: `{-1, 999999}` everywhere but
      `{source, 0}` at the source. */
  function Start(n: nat, source: int): (res: seq<Result>)
    ensures |res| == n
    ensures forall v :: 0 <= v < n ==> res[v] == if v == source then Result(source, 0) else Result(-1, 999999)
  {
    seq(n, v => if v == source then Result(source, 0) else Result(-1, 999999))
  }

  /** The graph both shortest-path programs test on: the edges their tests add
      to a graph of eight vertices, all weights positive. */
  function TestEdges(): (edges: seq<seq<Edge>>)
    ensures Valid(edges) && |edges| == 8
  {
    [[Edge(0, 1, 5), Edge(0, 4, 9), Edge(0, 7, 8)],
     [Edge(1, 2, 12), Edge(1, 3, 15), Edge(1, 7, 4)],
     [Edge(2, 3, 3), Edge(2, 6, 11)],
     [Edge(3, 6, 9)],
     [Edge(4, 5, 4), Edge(4, 6, 20), Edge(4, 7, 5)],
     [Edge(5, 2, 1), Edge(5, 6, 13)],
     [],
     [Edge(7, 2, 7), Edge(7, 5, 6)]]
  }

}
