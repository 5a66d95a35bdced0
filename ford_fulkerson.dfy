/** maxflow/FordFulkerson/main.cpp: augmenting paths found by depth-first
    search in the residual graph, one unit pushed along each, until none is
    left; then the vertices still reachable in the residual graph. */
module FordFulkerson {
  import opened Paths

  // Edges.

  /** An edge `from -> to` with its capacity and the flow it carries. */
  datatype Edge = Edge(from: int, to: int, capacity: int, flow: int)

  /** `v` is one of the two ends of `e`. */
  predicate IsEndpoint(e: Edge, v: int)
  {
    v == e.from || v == e.to
  }

  /** `other(vertex)`: the tail when given the head, otherwise the head. */
  function Other(e: Edge, v: int): int
  {
    if v == e.to then e.from else e.to
  }

  /** From one end `other` gives the opposite end, and back again. */
  lemma OtherEnds(e: Edge, v: int)
    requires IsEndpoint(e, v)
    ensures IsEndpoint(e, Other(e, v)) && Other(e, Other(e, v)) == v
    ensures (v == e.from && Other(e, v) == e.to) || (v == e.to && Other(e, v) == e.from)
  {
  }

  /** `remainingFlow(from)`: what can still be pushed leaving from `from`:
      the unused capacity from the tail, the flow already carried from the head. */
  function Remaining(e: Edge, v: int): (r: int)
    requires IsEndpoint(e, v)
    ensures 0 <= e.flow <= e.capacity ==> 0 <= r <= e.capacity
  {
    if v == e.from then e.capacity - e.flow else e.flow
  }

  /** The two ends of an edge that is not a loop share its capacity. */
  lemma RemainingBoth(e: Edge)
    requires e.from != e.to
    ensures Remaining(e, e.from) + Remaining(e, e.to) == e.capacity
  {
  }

  /** `pushFlow(flow, from)`: `flow` more leaves `from` along the edge. What
      `from` can still push drops by `flow`, what the other end can push back
      grows by `flow`, and a flow within capacity stays within it. */
  function Pushed(e: Edge, flow: int, v: int): (r: Edge)
    requires IsEndpoint(e, v) && Remaining(e, v) >= flow
    ensures r.from == e.from && r.to == e.to && r.capacity == e.capacity
    ensures Remaining(r, v) == Remaining(e, v) - flow
    ensures e.from != e.to ==> Remaining(r, Other(e, v)) == Remaining(e, Other(e, v)) + flow
    ensures 0 <= flow && 0 <= e.flow <= e.capacity ==> 0 <= r.flow <= r.capacity
  {
    if v == e.from then e.(flow := e.flow + flow) else e.(flow := e.flow - flow)
  }

  // Sums over the edges.

  /** The sum of `f` over the edges. */
  function Total(es: seq<Edge>, f: Edge -> int): int
  {
    if es == [] then 0 else Total(es[..|es| - 1], f) + f(es[|es| - 1])
  }

  lemma {:induction false} TotalUpdate(es: seq<Edge>, i: int, e: Edge, f: Edge -> int)
    requires 0 <= i < |es|
    ensures Total(es[i := e], f) == Total(es, f) - f(es[i]) + f(e)
    decreases |es|
  {
    var es' := es[i := e];
    assert es'[..|es'| - 1] == if i == |es| - 1 then es[..|es| - 1] else es[..|es| - 1][i := e];
    if i < |es| - 1 {
      TotalUpdate(es[..|es| - 1], i, e, f);
    }
  }

  lemma {:induction false} TotalBelow(es: seq<Edge>, f: Edge -> int, g: Edge -> int)
    requires forall i :: 0 <= i < |es| ==> f(es[i]) <= g(es[i])
    ensures Total(es, f) <= Total(es, g)
    decreases |es|
  {
    if es != [] {
      TotalBelow(es[..|es| - 1], f, g);
    }
  }

  /** What an edge adds to the net flow out of `v`: its flow when it leaves `v`,
      minus its flow when it enters `v`; loops add nothing. */
  function Contribution(e: Edge, v: int): int
  {
    (if e.from == v && e.to != v then e.flow else 0) - (if e.to == v && e.from != v then e.flow else 0)
  }

  /** The capacity of the edges leaving `v` (loops excluded). */
  function OutCapacity(e: Edge, v: int): int
  {
    if e.from == v && e.to != v then e.capacity else 0
  }

  /** The net flow out of `v`. */
  function Net(es: seq<Edge>, v: int): int
  {
    Total(es, e => Contribution(e, v))
  }

  /** The capacity leaving `v`. */
  function Capacity(es: seq<Edge>, v: int): int
  {
    Total(es, e => OutCapacity(e, v))
  }

  /** With every flow within its capacity, the net flow out of `v` is at most
      the capacity leaving it. */
  lemma NetBelowCapacity(es: seq<Edge>, v: int)
    requires forall i :: 0 <= i < |es| ==> 0 <= es[i].flow <= es[i].capacity
    ensures Net(es, v) <= Capacity(es, v)
  {
    TotalBelow(es, e => Contribution(e, v), e => OutCapacity(e, v));
  }

  /** Pushing one unit along edge `i` from its end `a` to the other end `b`
      raises the net flow out of `a` by one, lowers it at `b` by one, leaves it
      everywhere else, and leaves every capacity. */
  lemma PushNet(es: seq<Edge>, i: int, a: int)
    requires 0 <= i < |es| && IsEndpoint(es[i], a) && Remaining(es[i], a) >= 1 && Other(es[i], a) != a
    ensures var es' := es[i := Pushed(es[i], 1, a)];
      && (forall x :: Net(es', x) == Net(es, x) + (if x == a then 1 else 0) - (if x == Other(es[i], a) then 1 else 0))
      && (forall x :: Capacity(es', x) == Capacity(es, x))
  {
    var e' := Pushed(es[i], 1, a);
    forall x ensures Net(es[i := e'], x) == Net(es, x) + (if x == a then 1 else 0) - (if x == Other(es[i], a) then 1 else 0) {
      TotalUpdate(es, i, e', e => Contribution(e, x));
    }
    forall x ensures Capacity(es[i := e'], x) == Capacity(es, x) {
      TotalUpdate(es, i, e', e => OutCapacity(e, x));
    }
  }

  // The graph.

  /** Every stored pointer names an edge that has the listing vertex as an end. */
  ghost predicate Linked(edges: seq<Edge>, adj: seq<seq<int>>)
  {
    forall u, k :: 0 <= u < |adj| && 0 <= k < |adj[u]| ==> 0 <= adj[u][k] < |edges| && IsEndpoint(edges[adj[u][k]], u)
  }

  /** Every stored edge is listed at both its ends. */
  ghost predicate Listing(edges: seq<Edge>, adj: seq<seq<int>>)
  {
    forall i :: 0 <= i < |edges| ==>
      0 <= edges[i].from < |adj| && 0 <= edges[i].to < |adj| && i in adj[edges[i].from] && i in adj[edges[i].to]
  }

  /** Both ends of every edge are vertices, and every flow is within its capacity. */
  ghost predicate Feasible(edges: seq<Edge>, n: int)
  {
    forall i :: 0 <= i < |edges| ==>
      0 <= edges[i].from < n && 0 <= edges[i].to < n && 0 <= edges[i].flow <= edges[i].capacity
  }

  /** The graph: `edges` is the storage `m_FromEdges` holds, in the order `add`
      stored them; `adj[v]` is `m_Edges[v]`, its pointers written as indices
      into `edges`, so an edge listed at both its ends is one shared entry. */
  class Graph {
    var edges: seq<Edge>
    var adj: seq<seq<int>>

    ghost predicate Valid()
      reads this
    {
      Linked(edges, adj) && Listing(edges, adj) && Feasible(edges, |adj|)
    }

    /** `Graph(size)`: `size` vertices, no edges. */
    constructor (size: nat)
      ensures edges == [] && adj == seq(size, _ => [])
      ensures Valid()
    {
      edges, adj := [], seq(size, _ => []);
    }

    /** `add(edge)`: stored once, listed at its tail and then at its head (twice
        at a vertex for a loop). */
    method Add(e: Edge)
      requires 0 <= e.from < |adj| && 0 <= e.to < |adj|
      modifies this
      ensures edges == old(edges) + [e]
      ensures var atFrom := old(adj)[e.from := old(adj)[e.from] + [|old(edges)|]];
        adj == atFrom[e.to := atFrom[e.to] + [|old(edges)|]]
      ensures old(Valid()) && 0 <= e.flow <= e.capacity ==> Valid()
    {
      var i := |edges|;
      if Valid() && 0 <= e.flow <= e.capacity {
        AddValid(edges, adj, e);
      }
      edges := edges + [e];
      adj := adj[e.from := adj[e.from] + [i]];
      adj := adj[e.to := adj[e.to] + [i]];
    }

    /** `e->pushFlow(flow, from)` on the edge stored at `i`. */
    method PushFlow(i: int, flow: int, from: int)
      requires 0 <= i < |edges| && IsEndpoint(edges[i], from) && Remaining(edges[i], from) >= flow
      modifies this
      ensures edges == old(edges)[i := Pushed(old(edges)[i], flow, from)] && adj == old(adj)
    {
      edges := edges[i := Pushed(edges[i], flow, from)];
    }
  }

  /** `add` keeps the pointers right and the flows within capacity. */
  lemma AddValid(edges: seq<Edge>, adj: seq<seq<int>>, e: Edge)
    requires Linked(edges, adj) && Listing(edges, adj) && Feasible(edges, |adj|)
    requires 0 <= e.from < |adj| && 0 <= e.to < |adj| && 0 <= e.flow <= e.capacity
    ensures var i := |edges|;
      var atFrom := adj[e.from := adj[e.from] + [i]];
      var adj' := atFrom[e.to := atFrom[e.to] + [i]];
      Linked(edges + [e], adj') && Listing(edges + [e], adj') && Feasible(edges + [e], |adj'|)
  {
    var i := |edges|;
    var edges' := edges + [e];
    var atFrom := adj[e.from := adj[e.from] + [i]];
    var adj' := atFrom[e.to := atFrom[e.to] + [i]];
    forall u | 0 <= u < |adj'| ensures forall x :: x in adj[u] ==> x in adj'[u] {
    }
    forall u, k | 0 <= u < |adj'| && 0 <= k < |adj'[u]| ensures 0 <= adj'[u][k] < |edges'| && IsEndpoint(edges'[adj'[u][k]], u) {
      if adj'[u][k] != i {
        assert adj'[u][k] in adj[u];
        var k' :| 0 <= k' < |adj[u]| && adj[u][k'] == adj'[u][k];
      }
    }
    assert i in adj'[e.from] && i in adj'[e.to];
  }

  /** The residual graph, aligned with `adj`: the `k`-th entry of `u` is the
      other end of its `k`-th edge when that edge can still carry flow away from
      `u`, and `u` itself otherwise (which adds nothing to what `u` reaches). */
  ghost function Residual(edges: seq<Edge>, adj: seq<seq<int>>): (r: seq<seq<int>>)
    requires Linked(edges, adj)
    ensures |r| == |adj| && forall u :: 0 <= u < |adj| ==> |r[u]| == |adj[u]|
  {
    seq(|adj|, u requires 0 <= u < |adj| => ResidualRow(edges, adj[u], u))
  }

  /** The residual entries of one vertex `u`, whose edges are `row`. */
  ghost function ResidualRow(edges: seq<Edge>, row: seq<int>, u: int): (r: seq<int>)
    requires forall k :: 0 <= k < |row| ==> 0 <= row[k] < |edges| && IsEndpoint(edges[row[k]], u)
    ensures |r| == |row|
  {
    seq(|row|, k requires 0 <= k < |row| =>
      if Remaining(edges[row[k]], u) != 0 then Other(edges[row[k]], u) else u)
  }

  /** The `k`-th residual entry of `u`. */
  lemma ResidualAt(edges: seq<Edge>, adj: seq<seq<int>>, u: int, k: int)
    requires Linked(edges, adj) && 0 <= u < |adj| && 0 <= k < |adj[u]|
    ensures Residual(edges, adj)[u][k]
      == if Remaining(edges[adj[u][k]], u) != 0 then Other(edges[adj[u][k]], u) else u
  {
  }

  lemma ResidualWellFormed(edges: seq<Edge>, adj: seq<seq<int>>)
    requires Linked(edges, adj) && Feasible(edges, |adj|)
    ensures WellFormed(Residual(edges, adj))
  {
    var r := Residual(edges, adj);
    forall u, k | 0 <= u < |r| && 0 <= k < |r[u]| ensures 0 <= r[u][k] < |r| {
      assert 0 <= adj[u][k] < |edges|;
    }
  }

  // The source side: dfs_SourceGroupImpl and dfs_SourceGroup.

  /** The marks a depth-first search from `vertex`, started on marks `m0`,
      leaves: the newly marked vertices, `vertex` among them, are reachable
      from it and closed under the residual graph. */
  ghost predicate Closure(edges: seq<Edge>, adj: seq<seq<int>>, vertex: int, m0: seq<bool>, m: seq<bool>)
  {
    && Linked(edges, adj) && 0 <= vertex < |m0|
    && Explored(Residual(edges, adj), vertex, m0[vertex := true], m)
    && AllMarked(m, Residual(edges, adj)[vertex])
  }

  /** Such a search after the first `i` edges of `vertex`. */
  ghost predicate Scanned(edges: seq<Edge>, adj: seq<seq<int>>, vertex: int, m0: seq<bool>, m: seq<bool>, i: int)
  {
    && Linked(edges, adj) && Feasible(edges, |adj|) && |m0| == |adj| && 0 <= vertex < |adj|
    && 0 <= i <= |adj[vertex]|
    && Explored(Residual(edges, adj), vertex, m0[vertex := true], m)
    && AllMarked(m, Residual(edges, adj)[vertex][..i])
  }

  lemma ScanStart(edges: seq<Edge>, adj: seq<seq<int>>, vertex: int, m0: seq<bool>)
    requires Linked(edges, adj) && Feasible(edges, |adj|) && |m0| == |adj| && 0 <= vertex < |adj|
    ensures Scanned(edges, adj, vertex, m0, m0[vertex := true], 0)
  {
  }

  /** An edge skipped because it cannot carry flow or leads to a marked vertex. */
  lemma ScanSkip(edges: seq<Edge>, adj: seq<seq<int>>, vertex: int, m0: seq<bool>, m: seq<bool>, i: int)
    requires Scanned(edges, adj, vertex, m0, m, i) && i < |adj[vertex]|
    requires m[Other(edges[adj[vertex][i]], vertex)] || Remaining(edges[adj[vertex][i]], vertex) == 0
    ensures Scanned(edges, adj, vertex, m0, m, i + 1)
  {
    var r := Residual(edges, adj);
    assert r[vertex][..i + 1] == r[vertex][..i] + [r[vertex][i]];
    assert m0[vertex := true][vertex];
  }

  /** An edge the search descended through. */
  lemma ScanChild(edges: seq<Edge>, adj: seq<seq<int>>, vertex: int, m0: seq<bool>, m: seq<bool>, i: int, m2: seq<bool>)
    requires Scanned(edges, adj, vertex, m0, m, i) && i < |adj[vertex]|
    requires !m[Other(edges[adj[vertex][i]], vertex)] && Remaining(edges[adj[vertex][i]], vertex) != 0
    requires Closure(edges, adj, Other(edges[adj[vertex][i]], vertex), m, m2)
    ensures Scanned(edges, adj, vertex, m0, m2, i + 1)
  {
    ResidualWellFormed(edges, adj);
    ExploredChild(Residual(edges, adj), vertex, m0[vertex := true], m, i, m2);
  }

  lemma ScanDone(edges: seq<Edge>, adj: seq<seq<int>>, vertex: int, m0: seq<bool>, m: seq<bool>)
    requires 0 <= vertex < |adj| && Scanned(edges, adj, vertex, m0, m, |adj[vertex]|)
    ensures Closure(edges, adj, vertex, m0, m)
  {
    var r := Residual(edges, adj);
    assert r[vertex][..|adj[vertex]|] == r[vertex];
  }

  /** `dfs_SourceGroupImpl`: marks `vertex`, then follows every edge that can
      still carry flow away from it to an unmarked vertex. */
  method SourceGroupImpl(graph: Graph, vertex: int, marked: seq<bool>) returns (marked': seq<bool>)
    requires Linked(graph.edges, graph.adj) && Feasible(graph.edges, |graph.adj|)
    requires |marked| == |graph.adj| && 0 <= vertex < |marked| && !marked[vertex]
    ensures Closure(graph.edges, graph.adj, vertex, marked, marked')
    decreases CountFalse(marked)
  {
    var edges, adj := graph.edges, graph.adj;
    marked' := marked[vertex := true];
    CountFalseSet(marked, vertex);
    ScanStart(edges, adj, vertex, marked);
    var i := 0;
    while i < |adj[vertex]|
      invariant Scanned(edges, adj, vertex, marked, marked', i)
    {
      var e := edges[adj[vertex][i]];
      var next := Other(e, vertex);
      if Remaining(e, vertex) != 0 && !marked'[next] {
        CountFalseGrows(marked[vertex := true], marked');
        var m2 := SourceGroupImpl(graph, next, marked');
        ScanChild(edges, adj, vertex, marked, marked', i, m2);
        marked' := m2;
      } else {
        ScanSkip(edges, adj, vertex, marked, marked', i);
      }
      i := i + 1;
    }
    ScanDone(edges, adj, vertex, marked, marked');
  }

  /** `dfs_SourceGroup`: the vertices reachable from `source` in the residual
      graph, in ascending order. */
  method SourceGroup(graph: Graph, source: int) returns (result: seq<int>)
    requires graph.Valid() && 0 <= source < |graph.adj|
    ensures forall x :: x in result <==> 0 <= x < |graph.adj| && Reachable(Residual(graph.edges, graph.adj), source, x)
    ensures forall i, j :: 0 <= i < j < |result| ==> result[i] < result[j]
  {
    ghost var r := Residual(graph.edges, graph.adj);
    var marked := SourceGroupImpl(graph, source, seq(|graph.adj|, _ => false));
    assert Closure(graph.edges, graph.adj, source, seq(|graph.adj|, _ => false), marked);
    assert Closed(r, marked);
    result := [];
    var i := 0;
    while i < |graph.adj|
      invariant 0 <= i <= |graph.adj|
      invariant forall x :: x in result <==> 0 <= x < i && marked[x]
      invariant forall j, k :: 0 <= j < k < |result| ==> result[j] < result[k]
      invariant forall j :: 0 <= j < |result| ==> result[j] < i
    {
      if marked[i] {
        result := result + [i];
      }
      i := i + 1;
    }
    forall x | 0 <= x < |graph.adj|
      ensures marked[x] <==> Reachable(r, source, x)
    {
      if x == source {
        ReachRefl(r, x);
      }
      if Reachable(r, source, x) {
        ClosedReach(r, marked, source, x);
      }
    }
  }

  /** A set of vertices closed under the residual graph is a saturated cut:
      every edge leaving it is full and every edge entering it is empty. */
  lemma ClosedCut(edges: seq<Edge>, adj: seq<seq<int>>, m: seq<bool>, i: int)
    requires Linked(edges, adj) && Listing(edges, adj) && Closed(Residual(edges, adj), m)
    requires 0 <= i < |edges|
    ensures m[edges[i].from] && !m[edges[i].to] ==> edges[i].flow == edges[i].capacity
    ensures m[edges[i].to] && !m[edges[i].from] ==> edges[i].flow == 0
  {
    var r := Residual(edges, adj);
    var e := edges[i];
    if m[e.from] && !m[e.to] {
      var k :| 0 <= k < |adj[e.from]| && adj[e.from][k] == i;
      assert AllMarked(m, r[e.from]);
      assert m[r[e.from][k]];
    }
    if m[e.to] && !m[e.from] {
      var k :| 0 <= k < |adj[e.to]| && adj[e.to][k] == i;
      assert AllMarked(m, r[e.to]);
      assert m[r[e.to][k]];
    }
  }

  /** The vertices the residual graph reaches from 0 form a saturated cut. */
  lemma SideCut(edges: seq<Edge>, adj: seq<seq<int>>, side: seq<int>)
    requires Linked(edges, adj) && Listing(edges, adj) && Feasible(edges, |adj|)
    requires forall x :: x in side <==> 0 <= x < |adj| && Reachable(Residual(edges, adj), 0, x)
    ensures forall i :: 0 <= i < |edges| && edges[i].from in side && edges[i].to !in side ==>
      edges[i].flow == edges[i].capacity
    ensures forall i :: 0 <= i < |edges| && edges[i].to in side && edges[i].from !in side ==>
      edges[i].flow == 0
  {
    var r := Residual(edges, adj);
    var marked := seq(|adj|, x => x in side);
    ResidualWellFormed(edges, adj);
    forall u | 0 <= u < |marked| && marked[u] ensures AllMarked(marked, r[u]) {
      forall k | 0 <= k < |r[u]| ensures 0 <= r[u][k] < |marked| && marked[r[u][k]] {
        ReachAppend(r, 0, u, r[u][k]);
      }
    }
    forall i | 0 <= i < |edges|
      ensures edges[i].from in side && edges[i].to !in side ==> edges[i].flow == edges[i].capacity
      ensures edges[i].to in side && edges[i].from !in side ==> edges[i].flow == 0
    {
      ClosedCut(edges, adj, marked, i);
    }
  }

  // Augmenting paths: getPathImpl and getAugmentedPath.

  /** `p` lists, target first as `getPathImpl` appends them, the edges of a path
      from `v` to `t` along which each edge can still carry flow away from the
      vertex before it, through vertices that are distinct and unmarked in `m`. */
  ghost predicate Augmenting(edges: seq<Edge>, adj: seq<seq<int>>, v: int, t: int, p: seq<int>, m: seq<bool>)
    decreases |p|
  {
    && 0 <= v < |adj| && 0 <= v < |m| && !m[v]
    && if p == [] then v == t else
      var e := p[|p| - 1];
      && e in adj[v] && 0 <= e < |edges| && IsEndpoint(edges[e], v) && Remaining(edges[e], v) != 0
      && Augmenting(edges, adj, Other(edges[e], v), t, p[..|p| - 1], m[v := true])
  }

  /** The least of 9999 and what each edge of the path can still carry. */
  ghost function Bottleneck(edges: seq<Edge>, v: int, p: seq<int>): int
    decreases |p|
  {
    if p == [] then 9999
    else
      var e := p[|p| - 1];
      if 0 <= e < |edges| && IsEndpoint(edges[e], v)
      then Min(Remaining(edges[e], v), Bottleneck(edges, Other(edges[e], v), p[..|p| - 1]))
      else 0
  }

  function Min(a: int, b: int): int
  {
    if a < b then a else b
  }

  /** The path read from `vs[0]`: `q[j]` is listed at `vs[j]`, can still carry
      flow away from it and leads to `vs[j + 1]`; the vertices are distinct. */
  ghost predicate Along(edges: seq<Edge>, adj: seq<seq<int>>, q: seq<int>, vs: seq<int>)
  {
    && |vs| == |q| + 1 && Distinct(vs)
    && forall j :: 0 <= j < |q| ==>
      && 0 <= vs[j] < |adj| && q[j] in adj[vs[j]] && 0 <= q[j] < |edges| && IsEndpoint(edges[q[j]], vs[j])
      && Remaining(edges[q[j]], vs[j]) != 0 && Other(edges[q[j]], vs[j]) == vs[j + 1]
  }

  /** An augmenting path, reversed, is a walk through distinct unmarked vertices. */
  lemma {:induction false} AugmentingWalk(edges: seq<Edge>, adj: seq<seq<int>>, v: int, t: int, p: seq<int>, m: seq<bool>)
      returns (vs: seq<int>)
    requires Augmenting(edges, adj, v, t, p, m)
    ensures Along(edges, adj, Reversed(p), vs) && vs[0] == v && vs[|p|] == t
    ensures forall j :: 0 <= j < |vs| ==> 0 <= vs[j] < |m| && !m[vs[j]]
    decreases |p|
  {
    if p == [] {
      vs := [v];
    } else {
      var e := p[|p| - 1];
      var w := Other(edges[e], v);
      var p' := p[..|p| - 1];
      var vs' := AugmentingWalk(edges, adj, w, t, p', m[v := true]);
      vs := [v] + vs';
      assert Reversed(p) == [e] + Reversed(p');
      forall j | 0 <= j < |vs'| ensures vs'[j] != v {
        assert !m[v := true][vs'[j]];
      }
      AlongCons(edges, adj, v, e, Reversed(p'), vs');
      forall j | 0 <= j < |vs| ensures 0 <= vs[j] < |m| && !m[vs[j]] {
        if j > 0 {
          assert !m[v := true][vs'[j - 1]];
        }
      }
    }
  }

  /** An edge of `v` that can still carry flow to the start of a path that
      avoids `v` extends that path back to `v`. */
  lemma AlongCons(edges: seq<Edge>, adj: seq<seq<int>>, v: int, e: int, q: seq<int>, vs: seq<int>)
    requires Along(edges, adj, q, vs) && v !in vs
    requires 0 <= v < |adj| && e in adj[v] && 0 <= e < |edges| && IsEndpoint(edges[e], v)
    requires Remaining(edges[e], v) != 0 && Other(edges[e], v) == vs[0]
    ensures Along(edges, adj, [e] + q, [v] + vs)
  {
    DistinctConcat([v], vs);
    var q', vs' := [e] + q, [v] + vs;
    forall j | 0 <= j < |q'|
      ensures && 0 <= vs'[j] < |adj| && q'[j] in adj[vs'[j]] && 0 <= q'[j] < |edges| && IsEndpoint(edges[q'[j]], vs'[j])
              && Remaining(edges[q'[j]], vs'[j]) != 0 && Other(edges[q'[j]], vs'[j]) == vs'[j + 1]
    {
      if j > 0 {
        assert q'[j] == q[j - 1] && vs'[j] == vs[j - 1] && vs'[j + 1] == vs[j];
      }
    }
  }

  /** An edge of `v` that can still carry flow, in front of a path from its
      other end that avoids `v`, gives a path from `v`. */
  lemma AugmentingExtend(edges: seq<Edge>, adj: seq<seq<int>>, v: int, t: int, p: seq<int>, e: int, m: seq<bool>)
    requires 0 <= v < |adj| && 0 <= v < |m| && !m[v]
    requires e in adj[v] && 0 <= e < |edges| && IsEndpoint(edges[e], v) && Remaining(edges[e], v) != 0
    requires Augmenting(edges, adj, Other(edges[e], v), t, p, m[v := true])
    ensures Augmenting(edges, adj, v, t, p + [e], m)
    ensures Bottleneck(edges, v, p + [e]) == Min(Remaining(edges[e], v), Bottleneck(edges, Other(edges[e], v), p))
  {
    assert (p + [e])[..|p|] == p;
  }

  /** The bottleneck of a path is what its narrowest edge can still carry,
      or 9999 when every edge can carry more. */
  lemma {:induction false} BottleneckMin(edges: seq<Edge>, adj: seq<seq<int>>, p: seq<int>, vs: seq<int>)
    requires Along(edges, adj, Reversed(p), vs)
    ensures forall j :: 0 <= j < |p| ==> Bottleneck(edges, vs[0], p) <= Remaining(edges[Reversed(p)[j]], vs[j])
    ensures Bottleneck(edges, vs[0], p) <= 9999
    ensures Bottleneck(edges, vs[0], p) == 9999
      || exists j :: 0 <= j < |p| && Bottleneck(edges, vs[0], p) == Remaining(edges[Reversed(p)[j]], vs[j])
    decreases |p|
  {
    if p != [] {
      var q := Reversed(p);
      var p' := p[..|p| - 1];
      var q' := Reversed(p');
      var vs' := vs[1..];
      assert forall j :: 0 <= j < |q'| ==> q'[j] == q[j + 1];
      assert Distinct(vs') by {
        forall i, j | 0 <= i < j < |vs'| ensures vs'[i] != vs'[j] {
          assert vs'[i] == vs[i + 1] && vs'[j] == vs[j + 1];
        }
      }
      assert Along(edges, adj, q', vs') by {
        forall j | 0 <= j < |q'|
          ensures && 0 <= vs'[j] < |adj| && q'[j] in adj[vs'[j]] && 0 <= q'[j] < |edges| && IsEndpoint(edges[q'[j]], vs'[j])
                  && Remaining(edges[q'[j]], vs'[j]) != 0 && Other(edges[q'[j]], vs'[j]) == vs'[j + 1]
        {
          assert vs'[j] == vs[j + 1] && vs'[j + 1] == vs[j + 2];
        }
      }
      BottleneckMin(edges, adj, p', vs');
      var b, b' := Bottleneck(edges, vs[0], p), Bottleneck(edges, vs'[0], p');
      assert q[0] == p[|p| - 1];
      assert b == Min(Remaining(edges[q[0]], vs[0]), b');
      forall j | 0 <= j < |p| ensures b <= Remaining(edges[q[j]], vs[j]) {
        if j > 0 {
          assert q[j] == q'[j - 1] && vs[j] == vs'[j - 1];
        }
      }
      if b != 9999 && b != Remaining(edges[q[0]], vs[0]) {
        var j :| 0 <= j < |p'| && b' == Remaining(edges[q'[j]], vs'[j]);
        assert b == Remaining(edges[q[j + 1]], vs[j + 1]);
      }
    }
  }

  /** An augmenting path is a path of the residual graph. */
  lemma {:induction false} AugmentingReach(edges: seq<Edge>, adj: seq<seq<int>>, v: int, t: int, p: seq<int>, m: seq<bool>)
    requires Linked(edges, adj) && Feasible(edges, |adj|) && Augmenting(edges, adj, v, t, p, m)
    ensures Reachable(Residual(edges, adj), v, t)
    decreases |p|
  {
    var r := Residual(edges, adj);
    if p == [] {
      ReachRefl(r, v);
    } else {
      var e := p[|p| - 1];
      var w := Other(edges[e], v);
      AugmentingReach(edges, adj, w, t, p[..|p| - 1], m[v := true]);
      var k :| 0 <= k < |adj[v]| && adj[v][k] == e;
      assert r[v][k] == w;
      ReachPrepend(r, v, w, t);
    }
  }

  /** A path through vertices unmarked in `m` also avoids the marks of any `m0`
      that `m` extends. */
  lemma {:induction false} AugmentingWeaken(edges: seq<Edge>, adj: seq<seq<int>>, v: int, t: int, p: seq<int>, m0: seq<bool>, m: seq<bool>)
    requires Grows(m0, m) && Augmenting(edges, adj, v, t, p, m)
    ensures Augmenting(edges, adj, v, t, p, m0)
    decreases |p|
  {
    if p != [] {
      var e := p[|p| - 1];
      AugmentingWeaken(edges, adj, Other(edges[e], v), t, p[..|p| - 1], m0[v := true], m[v := true]);
    }
  }

  /** What a 0 from `getPathImpl(vertex)` started on marks `m0` leaves: the
      marks of a complete search, without the target among the new ones. */
  ghost predicate Failed(edges: seq<Edge>, adj: seq<seq<int>>, vertex: int, target: int, m0: seq<bool>, m: seq<bool>)
  {
    Closure(edges, adj, vertex, m0, m) && 0 <= target < |m0| && (m[target] ==> m0[target])
  }

  /** What a positive answer from `getPathImpl(vertex)` leaves: `result'` is
      `result` followed by an augmenting path whose bottleneck is the answer. */
  ghost predicate Found(edges: seq<Edge>, adj: seq<seq<int>>, vertex: int, target: int, m0: seq<bool>,
                        result: seq<int>, result': seq<int>, flow: int)
  {
    && |result| <= |result'| && result'[..|result|] == result
    && Augmenting(edges, adj, vertex, target, result'[|result|..], m0)
    && flow == Bottleneck(edges, vertex, result'[|result|..])
  }

  /** The loop of `getPathImpl(vertex)` after its first `i` edges, all of which
      came back with 0. */
  ghost predicate Searching(edges: seq<Edge>, adj: seq<seq<int>>, vertex: int, target: int, m0: seq<bool>, m: seq<bool>, i: int)
  {
    Scanned(edges, adj, vertex, m0, m, i) && 0 <= target < |adj| && vertex != target && (m[target] ==> m0[target])
  }

  /** A positive answer from the neighbour across edge `e`, descended into with
      marks `m`, gives one for `vertex`. */
  lemma FoundStep(edges: seq<Edge>, adj: seq<seq<int>>, vertex: int, target: int, m0: seq<bool>, m: seq<bool>,
                  result: seq<int>, r2: seq<int>, f: int, e: int)
    requires 0 <= vertex < |adj| && 0 <= vertex < |m0| && !m0[vertex] && Grows(m0[vertex := true], m)
    requires e in adj[vertex] && 0 <= e < |edges| && IsEndpoint(edges[e], vertex) && Remaining(edges[e], vertex) != 0
    requires Found(edges, adj, Other(edges[e], vertex), target, m, result, r2, f)
    ensures Found(edges, adj, vertex, target, m0, result, r2 + [e], Min(Remaining(edges[e], vertex), f))
  {
    var p := r2[|result|..];
    AugmentingWeaken(edges, adj, Other(edges[e], vertex), target, p, m0[vertex := true], m);
    AugmentingExtend(edges, adj, vertex, target, p, e, m0);
    assert (r2 + [e])[|result|..] == p + [e];
    assert (r2 + [e])[..|result|] == r2[..|result|];
  }

  lemma GrowsTrans(m0: seq<bool>, m1: seq<bool>, m2: seq<bool>)
    requires Grows(m0, m1) && |m1| == |m2| && forall u :: 0 <= u < |m1| && m1[u] ==> m2[u]
    ensures Grows(m0, m2)
  {
  }

  /** `getPathImpl`: marks `vertex`; at the target it answers 9999. Otherwise it
      tries the edges of `vertex` in order, descending into each unmarked
      neighbour the edge can still carry flow to, and stops at the first
      positive answer, appending its edge and answering the smaller of that
      answer and what the edge can carry. */
  method PathImpl(graph: Graph, vertex: int, target: int, marked: seq<bool>, result: seq<int>)
      returns (flow: int, marked': seq<bool>, result': seq<int>)
    requires Linked(graph.edges, graph.adj) && Feasible(graph.edges, |graph.adj|)
    requires |marked| == |graph.adj| && 0 <= vertex < |marked| && 0 <= target < |marked| && !marked[vertex]
    ensures flow >= 0 && Grows(marked[vertex := true], marked')
    ensures flow == 0 ==> result' == result && Failed(graph.edges, graph.adj, vertex, target, marked, marked')
    ensures flow > 0 ==> Found(graph.edges, graph.adj, vertex, target, marked, result, result', flow)
    decreases CountFalse(marked)
  {
    var edges, adj := graph.edges, graph.adj;
    marked', result' := marked[vertex := true], result;
    CountFalseSet(marked, vertex);
    if vertex == target {
      assert result'[|result|..] == [];
      return 9999, marked', result';
    }
    ScanStart(edges, adj, vertex, marked);
    var i := 0;
    while i < |adj[vertex]|
      invariant result' == result
      invariant Searching(edges, adj, vertex, target, marked, marked', i)
    {
      var index := adj[vertex][i];
      var e := edges[index];
      var next := Other(e, vertex);
      var remain := Remaining(e, vertex);
      if !marked'[next] && remain != 0 {
        assert 0 <= e.flow <= e.capacity;
        CountFalseGrows(marked[vertex := true], marked');
        var f, m2, r2 := PathImpl(graph, next, target, marked', result');
        if f > 0 {
          FoundStep(edges, adj, vertex, target, marked, marked', result, r2, f, index);
          GrowsTrans(marked[vertex := true], marked', m2);
          return Min(remain, f), m2, r2 + [index];
        }
        ScanChild(edges, adj, vertex, marked, marked', i, m2);
        marked' := m2;
      } else {
        ScanSkip(edges, adj, vertex, marked, marked', i);
      }
      i := i + 1;
    }
    ScanDone(edges, adj, vertex, marked, marked');
    flow := 0;
  }

  /** `getAugmentedPath`: the path `getPathImpl` finds from `source` with nothing
      marked, and its answer converted to `bool`, which is true exactly when
      the residual graph reaches `target` from `source`. */
  method AugmentedPath(graph: Graph, source: int, target: int) returns (path: seq<int>, found: bool)
    requires graph.Valid() && 0 <= source < |graph.adj| && 0 <= target < |graph.adj|
    ensures found <==> Reachable(Residual(graph.edges, graph.adj), source, target)
    ensures found ==> Augmenting(graph.edges, graph.adj, source, target, path, seq(|graph.adj|, _ => false))
    ensures !found ==> path == []
  {
    ghost var r := Residual(graph.edges, graph.adj);
    var marked := seq(|graph.adj|, _ => false);
    var flow, m, p := PathImpl(graph, source, target, marked, []);
    path, found := p, flow != 0;
    assert p[0..] == p;
    if found {
      AugmentingReach(graph.edges, graph.adj, source, target, path, marked);
    } else if Reachable(r, source, target) {
      assert Failed(graph.edges, graph.adj, source, target, marked, m);
      assert Closed(r, m);
      ClosedReach(r, m, source, target);
      assert false;
    }
  }

  // Augmenting: the loop of FordFulkerson.

  /** Pushing flow changes no edge's ends or capacity. */
  ghost predicate Shape(e0: seq<Edge>, es: seq<Edge>)
  {
    |es| == |e0| && forall i :: 0 <= i < |es| ==>
      es[i].from == e0[i].from && es[i].to == e0[i].to && es[i].capacity == e0[i].capacity
  }

  /** Along a path of distinct vertices no edge comes twice. */
  lemma AlongEdgesDistinct(edges: seq<Edge>, adj: seq<seq<int>>, q: seq<int>, vs: seq<int>)
    requires Along(edges, adj, q, vs)
    ensures forall i, k :: 0 <= i < k < |q| ==> q[i] != q[k]
  {
    forall i, k | 0 <= i < k < |q| ensures q[i] != q[k] {
      OtherEnds(edges[q[i]], vs[i]);
      OtherEnds(edges[q[k]], vs[k]);
      assert vs[i] != vs[k] && vs[i] != vs[k + 1] && vs[i + 1] != vs[k + 1];
    }
  }

  /** The inner loop of FordFulkerson after pushing one unit along the first
      `j` edges of the path `q` through `vs`, found in the edges `e0`. */
  ghost predicate PushRound(e0: seq<Edge>, es: seq<Edge>, adj: seq<seq<int>>, q: seq<int>, vs: seq<int>, j: int)
  {
    && Along(e0, adj, q, vs) && Feasible(e0, |adj|) && 0 <= j <= |q| && Shape(e0, es)
    && Linked(es, adj) && Listing(es, adj) && Feasible(es, |adj|)
    && (forall k :: j <= k < |q| ==> es[q[k]] == e0[q[k]])
    && (forall x :: Net(es, x) == Net(e0, x) + (if x == vs[0] then 1 else 0) - (if x == vs[j] then 1 else 0))
    && (forall x :: Capacity(es, x) == Capacity(e0, x))
  }

  lemma PushStart(e0: seq<Edge>, adj: seq<seq<int>>, q: seq<int>, vs: seq<int>)
    requires Along(e0, adj, q, vs) && Linked(e0, adj) && Listing(e0, adj) && Feasible(e0, |adj|)
    ensures PushRound(e0, e0, adj, q, vs, 0)
  {
  }

  /** The next push is allowed, `other` leads to the next vertex of the path,
      and the round goes on. */
  lemma PushStep(e0: seq<Edge>, es: seq<Edge>, adj: seq<seq<int>>, q: seq<int>, vs: seq<int>, j: int)
    requires PushRound(e0, es, adj, q, vs, j) && j < |q|
    ensures 0 <= q[j] < |es| && IsEndpoint(es[q[j]], vs[j]) && Remaining(es[q[j]], vs[j]) >= 1
    ensures Other(es[q[j]], vs[j]) == vs[j + 1]
    ensures PushRound(e0, es[q[j] := Pushed(es[q[j]], 1, vs[j])], adj, q, vs, j + 1)
  {
    var i := q[j];
    assert es[i] == e0[i];
    assert vs[j] != vs[j + 1];
    PushNet(es, i, vs[j]);
    AlongEdgesDistinct(e0, adj, q, vs);
    var es' := es[i := Pushed(es[i], 1, vs[j])];
    assert Shape(e0, es');
    assert Linked(es', adj) by {
      forall u, k | 0 <= u < |adj| && 0 <= k < |adj[u]| ensures 0 <= adj[u][k] < |es'| && IsEndpoint(es'[adj[u][k]], u) {
        assert IsEndpoint(es[adj[u][k]], u);
      }
    }
    assert Listing(es', adj) by {
      forall x | 0 <= x < |es'|
        ensures 0 <= es'[x].from < |adj| && 0 <= es'[x].to < |adj| && x in adj[es'[x].from] && x in adj[es'[x].to]
      {
        assert es'[x].from == es[x].from && es'[x].to == es[x].to;
      }
    }
  }

  /** FordFulkerson's outer loop: flows within capacities, ends and capacities
      as given, conservation at every vertex but `s` and `t`, and what leaves
      `s` arrives at `t`. */
  ghost predicate Progress(e0: seq<Edge>, es: seq<Edge>, adj: seq<seq<int>>, s: int, t: int)
  {
    && Linked(es, adj) && Listing(es, adj) && Feasible(es, |adj|) && Shape(e0, es)
    && (forall x :: x != s && x != t ==> Net(es, x) == Net(e0, x))
    && Net(es, s) - Net(e0, s) == Net(e0, t) - Net(es, t) >= 0
    && Capacity(es, s) == Capacity(e0, s)
  }

  /** A whole augmenting path pushed: one more unit leaves `s` and reaches `t`. */
  lemma RoundEnd(e0: seq<Edge>, es: seq<Edge>, es': seq<Edge>, adj: seq<seq<int>>, q: seq<int>, vs: seq<int>, s: int, t: int)
    requires Progress(e0, es, adj, s, t) && PushRound(es, es', adj, q, vs, |q|)
    requires vs[0] == s && vs[|q|] == t && s != t
    ensures Progress(e0, es', adj, s, t)
    ensures Net(es', s) == Net(es, s) + 1
  {
  }

  /** `FordFulkerson`: while `getAugmentedPath` finds a path, one unit (the
      `bool` it returns, read back as an `int`) is pushed along it from
      `source`; then the residual side of vertex 0 is returned. The loop ends
      because every round raises the net flow out of `source`, which the
      capacity leaving it bounds. When it ends no augmenting path is left,
      flow is conserved everywhere but at `source` and `target`, and the
      vertices returned, in ascending order, form a cut whose outgoing edges
      are full and whose incoming edges are empty. */
  method FordFulkerson(graph: Graph, source: int, target: int) returns (result: seq<int>)
    requires graph.Valid() && 0 <= source < |graph.adj| && 0 <= target < |graph.adj| && source != target
    modifies graph
    ensures graph.Valid() && graph.adj == old(graph.adj) && Shape(old(graph.edges), graph.edges)
    ensures forall x :: x != source && x != target ==> Net(graph.edges, x) == Net(old(graph.edges), x)
    ensures Net(graph.edges, source) - Net(old(graph.edges), source) == Net(old(graph.edges), target) - Net(graph.edges, target) >= 0
    ensures !Reachable(Residual(graph.edges, graph.adj), source, target)
    ensures forall x :: x in result <==> 0 <= x < |graph.adj| && Reachable(Residual(graph.edges, graph.adj), 0, x)
    ensures forall i, j :: 0 <= i < j < |result| ==> result[i] < result[j]
    ensures forall i :: 0 <= i < |graph.edges| && graph.edges[i].from in result && graph.edges[i].to !in result ==>
      graph.edges[i].flow == graph.edges[i].capacity
    ensures forall i :: 0 <= i < |graph.edges| && graph.edges[i].to in result && graph.edges[i].from !in result ==>
      graph.edges[i].flow == 0
  {
    ghost var e0 := graph.edges;
    while true
      invariant graph.adj == old(graph.adj) && Progress(e0, graph.edges, graph.adj, source, target)
      decreases Capacity(graph.edges, source) - Net(graph.edges, source)
    {
      NetBelowCapacity(graph.edges, source);
      var path, found := AugmentedPath(graph, source, target);
      var vertex := source;
      ghost var found' := path;
      path := Reversed(path);
      if found {
        ghost var es := graph.edges;
        ghost var vs := AugmentingWalk(es, graph.adj, source, target, found', seq(|graph.adj|, _ => false));
        PushStart(es, graph.adj, path, vs);
        for j := 0 to |path|
          invariant graph.adj == old(graph.adj) && vertex == vs[j]
          invariant PushRound(es, graph.edges, graph.adj, path, vs, j)
        {
          PushStep(es, graph.edges, graph.adj, path, vs, j);
          graph.PushFlow(path[j], 1, vertex);
          vertex := Other(graph.edges[path[j]], vertex);
        }
        RoundEnd(e0, es, graph.edges, graph.adj, path, vs, source, target);
      } else {
        break;
      }
    }
    result := SourceGroup(graph, 0);
    SideCut(graph.edges, graph.adj, result);
  }
}

