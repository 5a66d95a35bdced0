/** mst/Kruskal/main.cpp: union-find with path splitting and union by depth,
    Kruskal's greedy choice over the edges in weight order, and the
    adjacency-list graph with `deleteEdge`. */
module Kruskal {
  import opened Paths

  /** An undirected weighted edge. */
  datatype Edge = Edge(from: int, to: int, weight: int)

  /** `other(vertex)`: the head when asked from anywhere but the head. */
  function Other(e: Edge, vertex: int): int
  {
    if vertex == e.to then e.from else e.to
  }

  /** From one end, `Other` gives the other end, and going back returns. */
  lemma OtherEnds(e: Edge, v: int)
    requires v == e.from || v == e.to
    ensures Other(e, v) == e.from || Other(e, v) == e.to
    ensures (v == e.from && Other(e, v) == e.to) || (v == e.to && Other(e, v) == e.from)
    ensures Other(e, Other(e, v)) == v
  {
  }

  /** An edge filed under `u` among `n` vertices has `u` as an end. */
  ghost predicate Incident(e: Edge, u: int, n: nat)
  {
    0 <= e.from < n && 0 <= e.to < n && (e.from == u || e.to == u)
  }

  // The graph.

  /** `Graph`: `adj[v]` holds a copy of every edge added at `v`. */
  class Graph {
    var adj: seq<seq<Edge>>

    /** Every edge is filed only under its own ends. */
    ghost predicate Valid()
      reads this
    {
      forall u, k :: 0 <= u < |adj| && 0 <= k < |adj[u]| ==> Incident(adj[u][k], u, |adj|)
    }

    /** `Graph(size)`: `size` vertices, no edges. */
    constructor (size: nat)
      ensures adj == seq(size, _ => []) && Valid()
    {
      adj := seq(size, _ => []);
    }

    /** `add(edge)`: copied into the list of its tail, then of its head. */
    method Add(e: Edge)
      requires 0 <= e.from < |adj| && 0 <= e.to < |adj|
      modifies this
      ensures var atFrom := old(adj)[e.from := old(adj)[e.from] + [e]];
        adj == atFrom[e.to := atFrom[e.to] + [e]]
      ensures old(Valid()) ==> Valid()
    {
      adj := adj[e.from := adj[e.from] + [e]];
      adj := adj[e.to := adj[e.to] + [e]];
    }

    /** `deleteEdge(e)`: erases from the tail's list the first edge with the same
        head, then from the head's list the first edge with the same tail. */
    method DeleteEdge(e: Edge)
      requires 0 <= e.from < |adj| && 0 <= e.to < |adj|
      modifies this
      ensures var atFrom := old(adj)[e.from := RemoveFirst(old(adj)[e.from], (x: Edge) => x.to == e.to)];
        adj == atFrom[e.to := RemoveFirst(atFrom[e.to], (x: Edge) => x.from == e.from)]
      ensures old(Valid()) ==> Valid()
    {
      var v := EraseFirst(adj[e.from], (x: Edge) => x.to == e.to);
      RemoveFirstFrom(adj[e.from], (x: Edge) => x.to == e.to);
      adj := adj[e.from := v];
      var v1 := EraseFirst(adj[e.to], (x: Edge) => x.from == e.from);
      RemoveFirstFrom(adj[e.to], (x: Edge) => x.from == e.from);
      adj := adj[e.to := v1];
    }
  }

  /** `s` without its first element satisfying `p`. */
  function RemoveFirst(s: seq<Edge>, p: Edge -> bool): seq<Edge>
  {
    if s == [] then []
    else if p(s[0]) then s[1..]
    else [s[0]] + RemoveFirst(s[1..], p)
  }

  /** `RemoveFirst` removes the first match, and everything else keeps its
      order. */
  lemma {:induction false} RemoveFirstAt(s: seq<Edge>, p: Edge -> bool, i: int)
    requires 0 <= i < |s| && p(s[i]) && forall j :: 0 <= j < i ==> !p(s[j])
    ensures RemoveFirst(s, p) == s[..i] + s[i + 1..]
  {
    if i > 0 {
      assert !p(s[0]);
      forall j | 0 <= j < i - 1 ensures !p(s[1..][j]) {
        assert s[1..][j] == s[j + 1];
      }
      RemoveFirstAt(s[1..], p, i - 1);
      assert [s[0]] + (s[1..][..i - 1] + s[1..][i..]) == s[..i] + s[i + 1..];
    }
  }

  /** Without a match, `RemoveFirst` removes nothing. */
  lemma {:induction false} RemoveFirstNone(s: seq<Edge>, p: Edge -> bool)
    requires forall j :: 0 <= j < |s| ==> !p(s[j])
    ensures RemoveFirst(s, p) == s
  {
    if s != [] {
      assert !p(s[0]);
      forall j | 0 <= j < |s| - 1 ensures !p(s[1..][j]) {
        assert s[1..][j] == s[j + 1];
      }
      RemoveFirstNone(s[1..], p);
    }
  }

  /** The neighbour ids a traversal steps to: `other(vertex)` of each edge in
      the list of `vertex`. */
  ghost function Neighbours(adj: seq<seq<Edge>>): (nb: seq<seq<int>>)
    ensures |nb| == |adj|
  {
    seq(|adj|, u requires 0 <= u < |adj| => seq(|adj[u]|, k requires 0 <= k < |adj[u]| => Other(adj[u][k], u)))
  }

  /** A valid graph steps only to vertices. */
  lemma NeighboursWellFormed(graph: Graph)
    requires graph.Valid()
    ensures WellFormed(Neighbours(graph.adj))
  {
    var nb := Neighbours(graph.adj);
    forall u, k | 0 <= u < |nb| && 0 <= k < |nb[u]| ensures 0 <= nb[u][k] < |nb| {
      assert Incident(graph.adj[u][k], u, |graph.adj|);
    }
  }
  /** `RemoveFirst` removes one element at most, and keeps only elements of
      `s`. */
  lemma {:induction false} RemoveFirstFrom(s: seq<Edge>, p: Edge -> bool)
    ensures |RemoveFirst(s, p)| >= |s| - 1
    ensures forall k :: 0 <= k < |RemoveFirst(s, p)| ==> RemoveFirst(s, p)[k] in s
  {
    if s != [] && !p(s[0]) {
      RemoveFirstFrom(s[1..], p);
    }
  }

  /** The iterator loop of `deleteEdge`: scan for the first match and erase it. */
  method EraseFirst(v: seq<Edge>, p: Edge -> bool) returns (r: seq<Edge>)
    ensures r == RemoveFirst(v, p)
  {
    var i := 0;
    while i < |v| && !p(v[i])
      invariant 0 <= i <= |v| && RemoveFirst(v, p) == v[..i] + RemoveFirst(v[i..], p)
    {
      assert v[i..][1..] == v[i + 1..];
      assert v[..i + 1] == v[..i] + [v[i]];
      i := i + 1;
    }
    if i < |v| {
      r := v[..i] + v[i + 1..];
      assert v[i..][1..] == v[i + 1..];
    } else {
      r := v;
      assert v[..i] == v;
    }
  }

  // Union-find.

  /** The greatest entry (0 for none). */
  function MaxOf(s: seq<int>): (m: int)
    ensures forall i :: 0 <= i < |s| ==> s[i] <= m
  {
    if s == [] then 0 else var m' := MaxOf(s[..|s| - 1]); if s[|s| - 1] > m' then s[|s| - 1] else m'
  }

  /** Parent links stay inside and lead to strictly deeper entries, so every
      element climbs to a root. */
  ghost predicate Forest(c: seq<int>, d: seq<int>)
  {
    && |c| == |d|
    && (forall v :: 0 <= v < |c| ==> 0 <= c[v] < |c|)
    && (forall v :: 0 <= v < |c| && c[v] != v ==> d[v] < d[c[v]])
  }

  /** The root `v` climbs to. */
  ghost function Find(c: seq<int>, d: seq<int>, v: int): (r: int)
    requires Forest(c, d) && 0 <= v < |c|
    ensures 0 <= r < |c| && c[r] == r
    decreases MaxOf(d) - d[v]
  {
    if c[v] == v then v else Find(c, d, c[v])
  }

  /** One step of `root`: pointing `x` at its grandparent changes no root. */
  lemma {:induction false} SplitKeepsFind(c: seq<int>, d: seq<int>, x: int, u: int)
    requires Forest(c, d) && 0 <= x < |c| && 0 <= u < |c|
    ensures Forest(c[x := c[c[x]]], d)
    ensures Find(c[x := c[c[x]]], d, u) == Find(c, d, u)
    decreases MaxOf(d) - d[u]
  {
    var c' := c[x := c[c[x]]];
    assert Forest(c', d);
    if c[u] != u {
      if u == x {
        if c[c[x]] != c[x] {
          SplitKeepsFind(c, d, x, c[c[x]]);
        }
      } else {
        SplitKeepsFind(c, d, x, c[u]);
      }
    }
  }

  /** Hanging root `r1` under root `r2` merges their two sets and no other. */
  lemma {:induction false} HangFind(c: seq<int>, d: seq<int>, d': seq<int>, r1: int, r2: int, u: int)
    requires Forest(c, d) && 0 <= r1 < |c| && 0 <= r2 < |c| && c[r1] == r1 && c[r2] == r2
    requires Forest(c[r1 := r2], d') && 0 <= u < |c|
    ensures Find(c[r1 := r2], d', u) == if Find(c, d, u) == r1 then r2 else Find(c, d, u)
    decreases MaxOf(d) - d[u]
  {
    var c' := c[r1 := r2];
    if u != r1 && c[u] != u {
      HangFind(c, d, d', r1, r2, c[u]);
    }
  }

  /** The number of roots among the first `k` elements. */
  function Roots(c: seq<int>, k: nat): nat
    requires k <= |c|
  {
    if k == 0 then 0 else Roots(c, k - 1) + (if c[k - 1] == k - 1 then 1 else 0)
  }

  /** Roots counted in two parent vectors that agree on which elements are
      roots, except that `r` stops being one. */
  lemma {:induction false} RootsDrop(c: seq<int>, c': seq<int>, r: int, k: nat)
    requires |c| == |c'| && k <= |c| && 0 <= r < |c|
    requires forall u :: 0 <= u < |c| && u != r ==> (c'[u] == u <==> c[u] == u)
    requires c'[r] == r ==> c[r] == r
    ensures Roots(c', k) == Roots(c, k) - (if r < k && c[r] == r && c'[r] != r then 1 else 0)
  {
    if k > 0 {
      RootsDrop(c, c', r, k - 1);
    }
  }

  /** Some element is a root, when there are elements. */
  lemma {:induction false} RootsPositive(c: seq<int>, r: int, k: nat)
    requires k <= |c| && 0 <= r < k && c[r] == r
    ensures Roots(c, k) >= 1
  {
    if r < k - 1 {
      RootsPositive(c, r, k - 1);
    }
  }

  /** `UnionFind`: `connect` is `m_Connect`, the parent of each element, and
      `depth` is `m_Depth`. */
  class UnionFind {
    var connect: seq<int>
    var depth: seq<int>

    ghost predicate Valid()
      reads this
    {
      Forest(connect, depth)
    }

    /** `UnionFind(size)`: every element its own root, every depth 1. */
    constructor (size: nat)
      ensures connect == seq(size, v => v) && depth == seq(size, _ => 1)
      ensures Valid()
    {
      depth := seq(size, _ => 1);
      var c := seq(size, _ => 0);
      var i := 0;
      while i < size
        invariant 0 <= i <= size && |c| == size
        invariant forall v :: 0 <= v < i ==> c[v] == v
      {
        c := c[i := i];
        i := i + 1;
      }
      connect := c;
    }

    /** `root(v)`: climbs from `v`, pointing every element it passes at its
        grandparent, and returns the root reached. No element's root changes,
        and neither does which elements are roots. */
    method Root(v: int) returns (r: int)
      requires Valid() && 0 <= v < |connect|
      modifies this
      ensures Valid() && depth == old(depth) && |connect| == |old(connect)|
      ensures r == Find(old(connect), depth, v) && connect[r] == r
      ensures forall u :: 0 <= u < |connect| ==> Find(connect, depth, u) == Find(old(connect), depth, u)
      ensures forall u :: 0 <= u < |connect| ==> (connect[u] == u <==> old(connect)[u] == u)
    {
      var x := v;
      var nextv := connect[x];
      while x != nextv
        invariant Valid() && depth == old(depth) && |connect| == |old(connect)|
        invariant 0 <= x < |connect| && nextv == connect[x]
        invariant forall u :: 0 <= u < |connect| ==> Find(connect, depth, u) == Find(old(connect), depth, u)
        invariant forall u :: 0 <= u < |connect| ==> (connect[u] == u <==> old(connect)[u] == u)
        invariant Find(connect, depth, x) == Find(old(connect), depth, v)
        decreases MaxOf(depth) - depth[x]
      {
        forall u | 0 <= u < |connect| ensures Find(connect[x := connect[nextv]], depth, u) == Find(connect, depth, u) {
          SplitKeepsFind(connect, depth, x, u);
        }
        SplitKeepsFind(connect, depth, x, x);
        connect := connect[x := connect[nextv]];
        x := nextv;
        nextv := connect[x];
      }
      r := nextv;
    }

    /** `isConnected(v1, v2)`: whether the two have the same root; the roots
        found along the way are kept. */
    method IsConnected(v1: int, v2: int) returns (b: bool)
      requires Valid() && 0 <= v1 < |connect| && 0 <= v2 < |connect|
      modifies this
      ensures Valid() && depth == old(depth) && |connect| == |old(connect)|
      ensures b <==> Find(old(connect), depth, v1) == Find(old(connect), depth, v2)
      ensures forall u :: 0 <= u < |connect| ==> Find(connect, depth, u) == Find(old(connect), depth, u)
      ensures forall u :: 0 <= u < |connect| ==> (connect[u] == u <==> old(connect)[u] == u)
    {
      var r1 := Root(v1);
      var r2 := Root(v2);
      b := r1 == r2;
    }

    /** `connect(v1, v2)`: the root of smaller depth goes under the other; on
        equal depth the first root goes under the second, whose depth grows by
        one. */
    method Connect(v1: int, v2: int)
      requires Valid() && 0 <= v1 < |connect| && 0 <= v2 < |connect|
      modifies this
      ensures Valid() && |connect| == |old(connect)|
      ensures Merged(old(connect), old(depth), connect, depth, v1, v2)
      ensures var r1, r2 := Find(old(connect), old(depth), v1), Find(old(connect), old(depth), v2);
        depth == if old(depth)[r1] > old(depth)[r2] then old(depth) else old(depth)[r2 := old(depth)[r2] + 1]
    {
      ghost var c0, d0 := connect, depth;
      var root1 := Root(v1);
      var root2 := Root(v2);
      ghost var c1 := connect;
      if depth[root1] > depth[root2] {
        HangForest(connect, depth, root2, root1, false);
        connect := connect[root2 := root1];
        Hung(c0, d0, c1, connect, depth, v1, v2);
      } else if depth[root1] > depth[root2] {
        // Never taken: the condition repeats the one above.
        assert false;
      } else {
        HangForest(connect, depth, root1, root2, true);
        connect := connect[root1 := root2];
        depth := depth[root2 := depth[root2] + 1];
        Hung(c0, d0, c1, connect, depth, v1, v2);
      }
    }
  }

  /** The sets of `v1` and `v2` become one, rooted at `kept`, one of their two
      roots; no other set changes, and only the other of the two roots stops
      being a root. */
  ghost predicate MergedAt(c: seq<int>, d: seq<int>, c': seq<int>, d': seq<int>, v1: int, v2: int, kept: int)
    requires Forest(c, d) && Forest(c', d') && |c'| == |c| && 0 <= v1 < |c| && 0 <= v2 < |c|
  {
    var r1, r2 := Find(c, d, v1), Find(c, d, v2);
    && (kept == r1 || kept == r2)
    && (forall u :: 0 <= u < |c| ==>
          Find(c', d', u) == if Find(c, d, u) in {r1, r2} then kept else Find(c, d, u))
    && (forall u :: 0 <= u < |c| ==> (c'[u] == u <==> c[u] == u && (u == kept || u !in {r1, r2})))
  }

  /** After `connect(v1, v2)`: merged at the root of greater depth, the second
      on a tie. */
  ghost predicate Merged(c: seq<int>, d: seq<int>, c': seq<int>, d': seq<int>, v1: int, v2: int)
    requires Forest(c, d) && Forest(c', d') && |c'| == |c| && 0 <= v1 < |c| && 0 <= v2 < |c|
  {
    var r1, r2 := Find(c, d, v1), Find(c, d, v2);
    MergedAt(c, d, c', d', v1, v2, if d[r1] > d[r2] then r1 else r2)
  }

  /** Hanging root `lo` under root `hi` keeps depths increasing along links:
      `hi` is deeper, or as deep and then made one deeper. */
  lemma HangForest(c: seq<int>, d: seq<int>, lo: int, hi: int, bump: bool)
    requires Forest(c, d) && 0 <= lo < |c| && 0 <= hi < |c| && c[lo] == lo && c[hi] == hi
    requires lo != hi ==> if bump then d[lo] <= d[hi] else d[lo] < d[hi]
    ensures Forest(c[lo := hi], if bump then d[hi := d[hi] + 1] else d)
  {
  }

  /** Hanging one root under the other, after the two `root` calls. */
  lemma Hung(c0: seq<int>, d0: seq<int>, c1: seq<int>, c': seq<int>, d': seq<int>, v1: int, v2: int)
    requires Forest(c0, d0) && Forest(c1, d0) && |c1| == |c0| && 0 <= v1 < |c0| && 0 <= v2 < |c0|
    requires forall u :: 0 <= u < |c0| ==> Find(c1, d0, u) == Find(c0, d0, u)
    requires forall u :: 0 <= u < |c0| ==> (c1[u] == u <==> c0[u] == u)
    requires var r1, r2 := Find(c0, d0, v1), Find(c0, d0, v2);
      var kept := if d0[r1] > d0[r2] then r1 else r2;
      c' == c1[(if kept == r1 then r2 else r1) := kept]
    requires d' == d0 || d' == d0[Find(c0, d0, v2) := d0[Find(c0, d0, v2)] + 1]
    requires Forest(c', d')
    ensures Merged(c0, d0, c', d', v1, v2)
  {
    var r1, r2 := Find(c0, d0, v1), Find(c0, d0, v2);
    var kept := if d0[r1] > d0[r2] then r1 else r2;
    var lost := if kept == r1 then r2 else r1;
    forall u | 0 <= u < |c0| ensures Find(c', d', u) == if Find(c0, d0, u) in {r1, r2} then kept else Find(c0, d0, u) {
      HangFind(c1, d0, d', lost, kept, u);
    }
  }

  // Kruskal.

  /** The undirected adjacency lists `add` would build from `es`: each edge
      gives its head to its tail and its tail to its head. */
  ghost function Adjacency(n: nat, es: seq<Edge>): (adj: seq<seq<int>>)
    requires forall i :: 0 <= i < |es| ==> 0 <= es[i].from < n && 0 <= es[i].to < n
    ensures |adj| == n
  {
    if es == [] then seq(n, _ => [])
    else
      var g := Adjacency(n, es[..|es| - 1]);
      var e := es[|es| - 1];
      var g' := g[e.from := g[e.from] + [e.to]];
      g'[e.to := g'[e.to] + [e.from]]
  }

  /** Every edge's ends are vertices. */
  ghost predicate Inside(n: nat, es: seq<Edge>)
  {
    forall i :: 0 <= i < |es| ==> 0 <= es[i].from < n && 0 <= es[i].to < n
  }

  /** Each adjacency entry comes from an edge of `es`, in one direction or
      the other, and the lists name vertices. */
  lemma {:induction false} AdjacencyEntry(n: nat, es: seq<Edge>, u: int, x: int)
    requires Inside(n, es) && 0 <= u < n && x in Adjacency(n, es)[u]
    ensures 0 <= x < n
    ensures exists i :: 0 <= i < |es| && ((es[i].from == u && es[i].to == x) || (es[i].to == u && es[i].from == x))
  {
    if es != [] {
      var g := Adjacency(n, es[..|es| - 1]);
      var e := es[|es| - 1];
      var g' := g[e.from := g[e.from] + [e.to]];
      if !((e.from == u && e.to == x) || (e.to == u && e.from == x)) {
        assert x in g'[u];
        assert x in g[u];
        AdjacencyEntry(n, es[..|es| - 1], u, x);
        var i :| 0 <= i < |es| - 1 && ((es[..|es| - 1][i].from == u && es[..|es| - 1][i].to == x) || (es[..|es| - 1][i].to == u && es[..|es| - 1][i].from == x));
        assert es[i] == es[..|es| - 1][i];
      }
    }
  }

  lemma AdjacencyWellFormed(n: nat, es: seq<Edge>)
    requires Inside(n, es)
    ensures WellFormed(Adjacency(n, es))
  {
    var adj := Adjacency(n, es);
    forall u, k | 0 <= u < |adj| && 0 <= k < |adj[u]| ensures 0 <= adj[u][k] < |adj| {
      AdjacencyEntry(n, es, u, adj[u][k]);
    }
  }

  /** One more edge only adds adjacencies: its two directions. */
  lemma AdjacencyGrows(n: nat, es: seq<Edge>, e: Edge)
    requires Inside(n, es) && 0 <= e.from < n && 0 <= e.to < n && Inside(n, es + [e])
    ensures var g, g' := Adjacency(n, es), Adjacency(n, es + [e]);
      && (forall u, x :: 0 <= u < n && x in g[u] ==> x in g'[u])
      && e.to in g'[e.from] && e.from in g'[e.to]
  {
    assert (es + [e])[..|es|] == es;
    var g := Adjacency(n, es);
    var g1 := g[e.from := g[e.from] + [e.to]];
    forall u, x | 0 <= u < n && x in g[u] ensures x in Adjacency(n, es + [e])[u] {
      assert x in g1[u];
    }
  }

  /** A walk along lists stays a walk along longer lists. */
  lemma ReachMore(adj: seq<seq<int>>, adj': seq<seq<int>>, s: int, t: int)
    requires |adj| == |adj'| && forall u, x :: 0 <= u < |adj| && x in adj[u] ==> x in adj'[u]
    requires Reachable(adj, s, t)
    ensures Reachable(adj', s, t)
  {
    var w :| IsWalk(adj, w) && w[0] == s && w[|w| - 1] == t;
    assert IsWalk(adj', w);
  }

  /** Kruskal's choice, stated on the graph: each edge in turn is kept exactly
      when the edges kept so far do not already connect its ends. */
  ghost function Greedy(n: nat, es: seq<Edge>): (r: seq<Edge>)
    requires Inside(n, es)
    ensures Inside(n, r)
  {
    if es == [] then []
    else
      var r := Greedy(n, es[..|es| - 1]);
      var e := es[|es| - 1];
      if Reachable(Adjacency(n, r), e.from, e.to) then r else r + [e]
  }

  /** The kept edges are among the candidates, and no more of them. */
  lemma {:induction false} GreedyFrom(n: nat, es: seq<Edge>)
    requires Inside(n, es)
    ensures |Greedy(n, es)| <= |es|
    ensures forall e :: e in Greedy(n, es) ==> e in es
  {
    if es != [] {
      GreedyFrom(n, es[..|es| - 1]);
    }
  }

  /** Taken in order, the kept edges keep the weight order of the candidates. */
  lemma {:induction false} GreedyOrdered(n: nat, es: seq<Edge>)
    requires Inside(n, es)
    requires forall i, j :: 0 <= i < j < |es| ==> es[i].weight <= es[j].weight
    ensures Ordered(Greedy(n, es))
    ensures es != [] ==> forall e :: e in Greedy(n, es) ==> e.weight <= es[|es| - 1].weight
  {
    if es != [] {
      var es', e := es[..|es| - 1], es[|es| - 1];
      GreedyOrdered(n, es');
      GreedyStep(n, es);
      if es' != [] {
        assert es'[|es'| - 1] == es[|es| - 2];
      }
      OrderedAppend(Greedy(n, es'), e);
    }
  }

  /** Each candidate in turn either is kept or is not. */
  lemma GreedyStep(n: nat, es: seq<Edge>)
    requires Inside(n, es) && es != []
    ensures var r', e := Greedy(n, es[..|es| - 1]), es[|es| - 1];
      (Greedy(n, es) == r' && Reachable(Adjacency(n, r'), e.from, e.to)) || Greedy(n, es) == r' + [e]
  {
  }

  /** Weights in non-decreasing order. */
  ghost predicate Ordered(r: seq<Edge>)
  {
    forall i, j :: 0 <= i < j < |r| ==> r[i].weight <= r[j].weight
  }

  lemma OrderedAppend(r: seq<Edge>, e: Edge)
    requires Ordered(r) && forall x :: x in r ==> x.weight <= e.weight
    ensures Ordered(r + [e]) && forall x :: x in r + [e] ==> x.weight <= e.weight
  {
    forall i, j | 0 <= i < j < |r + [e]| ensures (r + [e])[i].weight <= (r + [e])[j].weight {
      assert (r + [e])[i] == r[i];
      if j < |r| {
        assert (r + [e])[j] == r[j];
      }
    }
  }

  /** `r` is a forest grown edge by edge: each edge joins ends that the edges
      before it do not connect. */
  ghost predicate Grown(n: nat, r: seq<Edge>)
    requires Inside(n, r)
  {
    r == [] ||
      var r', e := r[..|r| - 1], r[|r| - 1];
      Grown(n, r') && !Reachable(Adjacency(n, r'), e.from, e.to)
  }

  /** The kept edges form a forest. */
  lemma {:induction false} GreedyForest(n: nat, es: seq<Edge>)
    requires Inside(n, es)
    ensures Grown(n, Greedy(n, es))
  {
    if es != [] {
      var es' := es[..|es| - 1];
      var r' := Greedy(n, es');
      GreedyForest(n, es');
      var r := Greedy(n, es);
      if r != r' {
        assert r[..|r| - 1] == r';
      }
    }
  }

  /** The kept edges span: the ends of every candidate are connected by them. */
  lemma {:induction false} GreedySpans(n: nat, es: seq<Edge>)
    requires Inside(n, es)
    ensures Spans(n, Greedy(n, es), es)
  {
    if es != [] {
      var es' := es[..|es| - 1];
      GreedySpans(n, es');
      GreedyStep(n, es);
      LastSplit(es);
      SpansAppend(n, Greedy(n, es'), Greedy(n, es), es', es[|es| - 1]);
    }
  }

  lemma LastSplit(es: seq<Edge>)
    requires es != []
    ensures es == es[..|es| - 1] + [es[|es| - 1]]
  {
  }

  /** The ends of every edge of `es` are connected by the edges `r`. */
  ghost predicate Spans(n: nat, r: seq<Edge>, es: seq<Edge>)
    requires Inside(n, r) && Inside(n, es)
  {
    forall i :: 0 <= i < |es| ==> Reachable(Adjacency(n, r), es[i].from, es[i].to)
  }

  /** One more candidate: either its ends are connected already, or it is kept. */
  lemma SpansAppend(n: nat, r': seq<Edge>, r: seq<Edge>, es': seq<Edge>, e: Edge)
    requires Inside(n, r') && Inside(n, r) && Inside(n, es' + [e]) && Inside(n, es')
    requires Spans(n, r', es')
    requires (r == r' && Reachable(Adjacency(n, r'), e.from, e.to)) || r == r' + [e]
    ensures Spans(n, r, es' + [e])
  {
    var es := es' + [e];
    if r != r' {
      AdjacencyGrows(n, r', e);
      AdjacencyWellFormed(n, r);
    }
    forall i | 0 <= i < |es| ensures Reachable(Adjacency(n, r), es[i].from, es[i].to) {
      if i < |es'| {
        assert es[i] == es'[i];
        if r != r' {
          ReachMore(Adjacency(n, r'), Adjacency(n, r), es[i].from, es[i].to);
        }
      } else if r != r' {
        ReachStep(Adjacency(n, r), e.from, e.to);
      }
    }
  }

  /** Every kept edge has ends with one root, and elements with one root are
      connected by the kept edges: so the two relations agree. */
  ghost predicate Tracks(c: seq<int>, d: seq<int>, n: nat, r: seq<Edge>)
  {
    && Forest(c, d) && |c| == n && Inside(n, r)
    && (forall i :: 0 <= i < |r| ==> Find(c, d, r[i].from) == Find(c, d, r[i].to))
    && (forall u, w :: 0 <= u < n && 0 <= w < n && Find(c, d, u) == Find(c, d, w) ==> Reachable(Adjacency(n, r), u, w))
  }

  /** Connected by the kept edges means one root. */
  lemma ReachSameRoot(c: seq<int>, d: seq<int>, n: nat, r: seq<Edge>, u: int, w: int)
    requires Tracks(c, d, n, r) && Reachable(Adjacency(n, r), u, w)
    ensures 0 <= u < n && 0 <= w < n && Find(c, d, u) == Find(c, d, w)
  {
    var adj := Adjacency(n, r);
    var walk :| IsWalk(adj, walk) && walk[0] == u && walk[|walk| - 1] == w;
    var k := 0;
    while k < |walk| - 1
      invariant 0 <= k < |walk| && Find(c, d, walk[k]) == Find(c, d, u)
    {
      AdjacencyEntry(n, r, walk[k], walk[k + 1]);
      k := k + 1;
    }
  }

  /** Merging the sets of the ends of an edge `e` they did not connect, and
      keeping `e`, keeps the two relations in step. */
  lemma MergeTracks(c: seq<int>, d: seq<int>, c': seq<int>, d': seq<int>, n: nat, r: seq<Edge>, e: Edge, kept: int)
    requires Tracks(c, d, n, r) && 0 <= e.from < n && 0 <= e.to < n && Inside(n, r + [e])
    requires Forest(c', d') && |c'| == n
    requires kept == Find(c, d, e.from) || kept == Find(c, d, e.to)
    requires forall u :: 0 <= u < n ==>
      Find(c', d', u) == if Find(c, d, u) in {Find(c, d, e.from), Find(c, d, e.to)} then kept else Find(c, d, u)
    ensures Tracks(c', d', n, r + [e])
  {
    var r' := r + [e];
    var g, g' := Adjacency(n, r), Adjacency(n, r');
    AdjacencyGrows(n, r, e);
    AdjacencyWellFormed(n, r');
    forall i | 0 <= i < |r'| ensures Find(c', d', r'[i].from) == Find(c', d', r'[i].to) {
      if i < |r| {
        assert r'[i] == r[i];
      }
    }
    forall u, w | 0 <= u < n && 0 <= w < n && Find(c', d', u) == Find(c', d', w) ensures Reachable(g', u, w) {
      var a, b := Find(c, d, e.from), Find(c, d, e.to);
      if Find(c, d, u) == Find(c, d, w) {
        ReachMore(g, g', u, w);
      } else {
        // One is in the set of one end, the other in the set of the other end.
        var x, y := if Find(c, d, u) == a then e.from else e.to, if Find(c, d, u) == a then e.to else e.from;
        assert Find(c, d, u) == Find(c, d, x) && Find(c, d, w) == Find(c, d, y);
        ReachMore(g, g', u, x);
        ReachMore(g, g', y, w);
        ReachStep(g', x, y);
        ReachTrans(g', u, x, y);
        ReachTrans(g', u, y, w);
      }
    }
  }

  /** The loop of `Kruskal` after the first `i` sorted edges. */
  ghost predicate Chosen(c: seq<int>, d: seq<int>, n: nat, sorted: seq<Edge>, i: int, result: seq<Edge>)
  {
    && 0 <= i <= |sorted| && Inside(n, sorted)
    && Tracks(c, d, n, result)
    && result == Greedy(n, sorted[..i])
    && Roots(c, n) + |result| == n
  }

  /** `Kruskal(graphEdges, graphSize)`: after `std::sort` has put the edges in
      weight order (`sorted`, a permutation of `graphEdges` whose order among
      equal weights is the library's), each edge is kept when union-find finds
      its ends unconnected, and then they are connected. The result is
      `Greedy`'s choice, and on `graphSize` vertices at most `graphSize - 1`
      edges are kept. The sort reorders the caller's vector in place, so the
      caller's `graphEdges` afterwards is `sorted`; here it is a value. */
  method Kruskal(graphEdges: seq<Edge>, graphSize: nat, sorted: seq<Edge>) returns (result: seq<Edge>)
    requires Inside(graphSize, graphEdges)
    requires multiset(sorted) == multiset(graphEdges)
    requires forall i, j :: 0 <= i < j < |sorted| ==> sorted[i].weight <= sorted[j].weight
    ensures Inside(graphSize, sorted)
    ensures result == Greedy(graphSize, sorted)
    ensures graphSize > 0 ==> |result| <= graphSize - 1
  {
    assert Inside(graphSize, sorted) by {
      forall i | 0 <= i < |sorted| ensures 0 <= sorted[i].from < graphSize && 0 <= sorted[i].to < graphSize {
        assert sorted[i] in multiset(graphEdges);
        var j :| 0 <= j < |graphEdges| && graphEdges[j] == sorted[i];
      }
    }
    var uf := new UnionFind(graphSize);
    result := [];
    StartChosen(uf.connect, uf.depth, graphSize, sorted);
    for i := 0 to |sorted|
      invariant uf.Valid() && Chosen(uf.connect, uf.depth, graphSize, sorted, i, result)
    {
      var edge := sorted[i];
      ghost var c, d := uf.connect, uf.depth;
      var connected := uf.IsConnected(edge.from, edge.to);
      ChosenSame(c, d, uf.connect, uf.depth, graphSize, sorted, i, result);
      if !connected {
        ghost var c1, d1 := uf.connect, uf.depth;
        ghost var r1, r2 := Find(c1, d1, edge.from), Find(c1, d1, edge.to);
        uf.Connect(edge.from, edge.to);
        ChosenKeep(c1, d1, uf.connect, uf.depth, graphSize, sorted, i, result, if d1[r1] > d1[r2] then r1 else r2);
        result := result + [edge];
      } else {
        ChosenSkip(uf.connect, uf.depth, graphSize, sorted, i, result);
      }
    }
    assert sorted[..|sorted|] == sorted;
    if graphSize > 0 {
      RootsPositive(uf.connect, Find(uf.connect, uf.depth, 0), graphSize);
    }
  }

  lemma StartChosen(c: seq<int>, d: seq<int>, n: nat, sorted: seq<Edge>)
    requires c == seq(n, v => v) && d == seq(n, _ => 1) && Inside(n, sorted)
    ensures Chosen(c, d, n, sorted, 0, [])
  {
    assert Forest(c, d);
    forall u, w | 0 <= u < n && 0 <= w < n && Find(c, d, u) == Find(c, d, w) ensures Reachable(Adjacency(n, []), u, w) {
      ReachRefl(Adjacency(n, []), u);
    }
    RootsAll(c, n);
  }

  lemma {:induction false} RootsAll(c: seq<int>, k: nat)
    requires k <= |c| && forall v :: 0 <= v < |c| ==> c[v] == v
    ensures Roots(c, k) == k
  {
    if k > 0 {
      RootsAll(c, k - 1);
    }
  }

  /** `isConnected` changes neither the roots nor which elements are roots. */
  lemma ChosenSame(c: seq<int>, d: seq<int>, c': seq<int>, d': seq<int>, n: nat, sorted: seq<Edge>, i: int, result: seq<Edge>)
    requires Chosen(c, d, n, sorted, i, result) && Forest(c', d') && d' == d && |c'| == |c|
    requires forall u :: 0 <= u < |c| ==> Find(c', d', u) == Find(c, d, u)
    requires forall u :: 0 <= u < |c| ==> (c'[u] == u <==> c[u] == u)
    ensures Chosen(c', d', n, sorted, i, result)
  {
    forall k | 0 <= k < |result| ensures Find(c', d', result[k].from) == Find(c', d', result[k].to) {
      assert Find(c, d, result[k].from) == Find(c, d, result[k].to);
    }
    RootsSame(c, c', n);
  }

  lemma {:induction false} RootsSame(c: seq<int>, c': seq<int>, k: nat)
    requires |c| == |c'| && k <= |c| && forall u :: 0 <= u < |c| ==> (c'[u] == u <==> c[u] == u)
    ensures Roots(c', k) == Roots(c, k)
  {
    if k > 0 {
      RootsSame(c, c', k - 1);
    }
  }

  /** An edge whose ends have different roots is not yet connected, is kept,
      and merges two sets. */
  lemma ChosenKeep(c: seq<int>, d: seq<int>, c': seq<int>, d': seq<int>, n: nat, sorted: seq<Edge>, i: int, result: seq<Edge>, kept: int)
    requires Chosen(c, d, n, sorted, i, result) && i < |sorted|
    requires Find(c, d, sorted[i].from) != Find(c, d, sorted[i].to)
    requires Forest(c', d') && |c'| == n && MergedAt(c, d, c', d', sorted[i].from, sorted[i].to, kept)
    ensures Chosen(c', d', n, sorted, i + 1, result + [sorted[i]])
  {
    var e := sorted[i];
    var r1, r2 := Find(c, d, e.from), Find(c, d, e.to);
    var lost := if kept == r1 then r2 else r1;
    assert Inside(n, result + [e]);
    MergeTracks(c, d, c', d', n, result, e, kept);
    if Reachable(Adjacency(n, result), e.from, e.to) {
      ReachSameRoot(c, d, n, result, e.from, e.to);
    }
    GreedyNext(n, sorted, i);
    forall u | 0 <= u < |c| && u != lost ensures c'[u] == u <==> c[u] == u {
      if u in {r1, r2} {
        assert u == kept;
      }
    }
    RootsDrop(c, c', lost, n);
  }

  /** The choice after `i + 1` candidates, from the choice after `i`. */
  lemma GreedyNext(n: nat, sorted: seq<Edge>, i: int)
    requires Inside(n, sorted) && 0 <= i < |sorted|
    ensures var r, e := Greedy(n, sorted[..i]), sorted[i];
      Greedy(n, sorted[..i + 1]) == if Reachable(Adjacency(n, r), e.from, e.to) then r else r + [e]
  {
    assert sorted[..i + 1][..i] == sorted[..i];
  }

  /** An edge whose ends have one root is already connected, and skipped. */
  lemma ChosenSkip(c: seq<int>, d: seq<int>, n: nat, sorted: seq<Edge>, i: int, result: seq<Edge>)
    requires Chosen(c, d, n, sorted, i, result) && i < |sorted|
    requires Find(c, d, sorted[i].from) == Find(c, d, sorted[i].to)
    ensures Chosen(c, d, n, sorted, i + 1, result)
  {
    GreedyNext(n, sorted, i);
    assert Reachable(Adjacency(n, result), sorted[i].from, sorted[i].to);
  }
}
