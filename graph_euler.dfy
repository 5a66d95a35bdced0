/** graph/EulerPath/main.cpp: the odd-degree test, reachable-vertex counting
    and Fleury's edge-by-edge walk on an undirected graph that the walk
    dismantles as it goes. */
module GraphEuler {
  import opened Paths

  // Pure descriptions of the adjacency-list updates.

  /** `add(v1, v2)`: `v2` appended to `v1`'s list, then `v1` to `v2`'s. */
  function Added(e: seq<seq<int>>, v1: int, v2: int): (r: seq<seq<int>>)
    requires 0 <= v1 < |e| && 0 <= v2 < |e|
    ensures |r| == |e| && v2 in r[v1] && v1 in r[v2]
    ensures forall u :: 0 <= u < |e| && u != v1 && u != v2 ==> r[u] == e[u]
  {
    var e1 := e[v1 := e[v1] + [v2]];
    e1[v2 := e1[v2] + [v1]]
  }

  /** One erase loop of `deleteEdge`: an entry equal to `x` is erased and the
      index still advances, so the entry that slides into its slot is kept
      unexamined. */
  function ErasePass(l: seq<int>, x: int): seq<int>
  {
    if l == [] then []
    else if l[0] == x then (if |l| == 1 then [] else [l[1]] + ErasePass(l[2..], x))
    else [l[0]] + ErasePass(l[1..], x)
  }

  /** The erase pass only removes entries, at least one when `x` is listed,
      and none when it is not. */
  lemma {:induction false} ErasePassShrinks(l: seq<int>, x: int)
    ensures |ErasePass(l, x)| <= |l| && (x in l ==> |ErasePass(l, x)| < |l|)
    ensures forall y :: y in ErasePass(l, x) ==> y in l
    ensures x !in l ==> ErasePass(l, x) == l
  {
    if l != [] {
      if l[0] == x {
        if |l| > 1 {
          ErasePassShrinks(l[2..], x);
          assert forall y :: y in l[2..] ==> y in l;
        }
      } else {
        ErasePassShrinks(l[1..], x);
        assert forall y :: y in l[1..] ==> y in l;
        assert l == [l[0]] + l[1..];
      }
    }
  }

  /** The erase pass keeps every entry other than `x`. */
  lemma {:induction false} ErasePassKeeps(l: seq<int>, x: int)
    ensures forall y :: y in l && y != x ==> y in ErasePass(l, x)
  {
    if l != [] {
      if l[0] == x {
        if |l| > 1 {
          ErasePassKeeps(l[2..], x);
          assert l == [l[0], l[1]] + l[2..];
        }
      } else {
        ErasePassKeeps(l[1..], x);
        assert l == [l[0]] + l[1..];
      }
    }
  }

  /** `deleteEdge(v1, v2)`: the erase pass over `v1`'s list, then over `v2`'s. */
  function Deleted(e: seq<seq<int>>, v1: int, v2: int): (r: seq<seq<int>>)
    requires 0 <= v1 < |e| && 0 <= v2 < |e|
    ensures |r| == |e| && forall u :: 0 <= u < |e| && u != v1 && u != v2 ==> r[u] == e[u]
  {
    var e1 := e[v1 := ErasePass(e[v1], v2)];
    e1[v2 := ErasePass(e1[v2], v1)]
  }

  /** On a list holding `x` once, the erase pass removes exactly that entry and
      keeps the others in order. */
  lemma {:induction false} ErasePassOnce(a: seq<int>, x: int, b: seq<int>)
    requires x !in a && x !in b
    ensures ErasePass(a + [x] + b, x) == a + b
  {
    if a == [] {
      if b != [] {
        var l := [x] + b;
        assert a + [x] + b == l && a + b == b;
        assert l[0] == x && l[1] == b[0] && l[2..] == b[1..];
        assert ErasePass(b[1..], x) == b[1..] by {
          assert forall y :: y in b[1..] ==> y in b;
          ErasePassShrinks(b[1..], x);
        }
        assert ErasePass(l, x) == [b[0]] + b[1..];
        assert b == [b[0]] + b[1..];
      }
    } else {
      assert (a + [x] + b)[1..] == a[1..] + [x] + b;
      ErasePassOnce(a[1..], x, b);
    }
  }

  /** The skip in the erase loop: of two adjacent copies only the first goes. */
  lemma ErasePassSkips(x: int)
    ensures ErasePass([x, x], x) == [x]
  {
  }

  /** On a simple graph, `deleteEdge` undoes `add`. */
  lemma DeleteUndoesAdd(e: seq<seq<int>>, v1: int, v2: int)
    requires 0 <= v1 < |e| && 0 <= v2 < |e| && v1 != v2 && v2 !in e[v1] && v1 !in e[v2]
    ensures Deleted(Added(e, v1, v2), v1, v2) == e
  {
    ErasePassOnce(e[v1], v2, []);
    ErasePassOnce(e[v2], v1, []);
    assert e[v1] + [v2] + [] == e[v1] + [v2];
    assert e[v2] + [v1] + [] == e[v2] + [v1];
    var r := Added(e, v1, v2);
    assert r[v1] == e[v1] + [v2] && r[v2] == e[v2] + [v1];
    var d1 := r[v1 := ErasePass(r[v1], v2)];
    assert d1[v2] == e[v2] + [v1];
    var d2 := d1[v2 := ErasePass(d1[v2], v1)];
    assert d2 == Deleted(r, v1, v2);
    assert d2[v1] == e[v1] && d2[v2] == e[v2];
    assert d2 == e;
  }

  /** The erase loop's invariant: `l` is the list after `i` steps of the pass
      over `l0`, and finishing the pass from index `i` gives the pass's result. */
  ghost predicate Scanned(l0: seq<int>, x: int, l: seq<int>, i: int)
  {
    0 <= i && ErasePass(l0, x) == if i <= |l| then l[..i] + ErasePass(l[i..], x) else l
  }

  lemma ScanErase(l0: seq<int>, x: int, l: seq<int>, i: int)
    requires 0 <= i < |l| && l[i] == x && Scanned(l0, x, l, i)
    ensures Scanned(l0, x, l[..i] + l[i + 1..], i + 1)
  {
    var l' := l[..i] + l[i + 1..];
    if i + 1 < |l| {
      assert l[i..][2..] == l[i + 2..];
      assert l'[..i + 1] == l[..i] + [l[i + 1]];
      assert l'[i + 1..] == l[i + 2..];
    } else {
      assert l' == l[..i];
    }
  }

  lemma ScanKeep(l0: seq<int>, x: int, l: seq<int>, i: int)
    requires 0 <= i < |l| && l[i] != x && Scanned(l0, x, l, i)
    ensures Scanned(l0, x, l, i + 1)
  {
    var t := l[i..];
    assert t[0] == l[i] && t[1..] == l[i + 1..];
    assert ErasePass(t, x) == [l[i]] + ErasePass(l[i + 1..], x);
    assert l[..i + 1] == l[..i] + [l[i]];
  }

  lemma ScanDone(l0: seq<int>, x: int, l: seq<int>, i: int)
    requires i >= |l| && Scanned(l0, x, l, i)
    ensures l == ErasePass(l0, x)
  {
    if i <= |l| {
      assert l[..i] == l && l[i..] == [];
    }
  }

  /** The graph: `edges[v]` is `m_Edges[v]`, changed in place by `add` and `deleteEdge`. */
  class Graph {
    var edges: seq<seq<int>>

    /** `Graph(size)`: `size` vertices, no edges. */
    constructor (size: nat)
      ensures edges == seq(size, _ => [])
    {
      edges := seq(size, _ => []);
    }

    function Size(): nat
      reads this
    {
      |edges|
    }

    /** `add`: one undirected edge, recorded in both lists. */
    method Add(v1: int, v2: int)
      requires 0 <= v1 < |edges| && 0 <= v2 < |edges|
      modifies this
      ensures edges == Added(old(edges), v1, v2)
    {
      edges := edges[v1 := edges[v1] + [v2]];
      edges := edges[v2 := edges[v2] + [v1]];
    }

    /** One erase loop of `deleteEdge`, in place on `edges[v]`. */
    method ErasePassAt(v: int, x: int)
      requires 0 <= v < |edges|
      modifies this
      ensures edges == old(edges)[v := ErasePass(old(edges)[v], x)]
    {
      ghost var e0 := edges;
      var i := 0;
      while i < |edges[v]|
        invariant |edges| == |e0| && edges == e0[v := edges[v]]
        invariant Scanned(e0[v], x, edges[v], i)
        decreases |edges[v]| - i
      {
        var l := edges[v];
        if l[i] == x {
          ScanErase(e0[v], x, l, i);
          edges := edges[v := l[..i] + l[i + 1..]];
        } else {
          ScanKeep(e0[v], x, l, i);
        }
        i := i + 1;
      }
      ScanDone(e0[v], x, edges[v], i);
    }

    /** `deleteEdge`: erase `v2` from `v1`'s list and `v1` from `v2`'s. */
    method DeleteEdge(v1: int, v2: int)
      requires 0 <= v1 < |edges| && 0 <= v2 < |edges|
      modifies this
      ensures edges == Deleted(old(edges), v1, v2)
    {
      ErasePassAt(v1, v2);
      ErasePassAt(v2, v1);
    }
  }

  // The odd-degree test.

  /** The vertices below `i` with an odd number of list entries, in increasing order. */
  function OddUpTo(adj: seq<seq<int>>, i: nat): seq<int>
    requires i <= |adj|
  {
    if i == 0 then [] else OddUpTo(adj, i - 1) + (if |adj[i - 1]| % 2 == 1 then [i - 1] else [])
  }

  /** `oddVertice` after `i` rounds: exactly the odd-degree vertices below `i`,
      in increasing order. */
  lemma {:induction false} OddUpToMeaning(adj: seq<seq<int>>, i: nat)
    requires i <= |adj|
    ensures forall x :: x in OddUpTo(adj, i) <==> 0 <= x < i && |adj[x]| % 2 == 1
    ensures forall j, k :: 0 <= j < k < |OddUpTo(adj, i)| ==> OddUpTo(adj, i)[j] < OddUpTo(adj, i)[k]
  {
    if i > 0 {
      var prev := OddUpTo(adj, i - 1);
      OddUpToMeaning(adj, i - 1);
      assert forall j :: 0 <= j < |prev| ==> prev[j] in prev;
    }
  }

  /** What `hasEulerPath` answers for the adjacency lists `adj`. */
  function EulerStart(adj: seq<seq<int>>): int
  {
    var odd := OddUpTo(adj, |adj|);
    if |odd| == 0 then |adj| else if |odd| == 2 then odd[0] else -1
  }

  ghost predicate AllEven(adj: seq<seq<int>>)
  {
    forall v :: 0 <= v < |adj| ==> |adj[v]| % 2 == 0
  }

  /** `a` and `b` are the only odd-degree vertices. */
  ghost predicate ExactlyTwoOdd(adj: seq<seq<int>>, a: int, b: int)
  {
    && 0 <= a < b < |adj| && |adj[a]| % 2 == 1 && |adj[b]| % 2 == 1
    && forall v :: 0 <= v < |adj| && v != a && v != b ==> |adj[v]| % 2 == 0
  }

  /** An increasing sequence has as many distinct entries as it is long. */
  lemma {:induction false} IncreasingCard(s: seq<int>)
    requires forall j, k :: 0 <= j < k < |s| ==> s[j] < s[k]
    ensures |set x | x in s| == |s|
  {
    if s != [] {
      var n := |s| - 1;
      var p := s[..n];
      IncreasingCard(p);
      assert (set x | x in s) == (set x | x in p) + {s[n]} by {
        assert s == p + [s[n]];
      }
      assert s[n] !in (set x | x in p) by {
        forall j | 0 <= j < n ensures p[j] != s[n] { }
      }
    }
  }

  /** `hasEulerPath` answers the vertex count exactly when every degree is even. */
  lemma EulerStartAllEven(adj: seq<seq<int>>)
    ensures EulerStart(adj) == |adj| <==> AllEven(adj)
  {
    var odd := OddUpTo(adj, |adj|);
    OddUpToMeaning(adj, |adj|);
    if |odd| == 0 {
      forall v | 0 <= v < |adj| ensures |adj[v]| % 2 == 0 {
        assert v !in odd;
      }
    } else {
      assert odd[0] in odd;
      assert 0 <= odd[0] < |adj| && |adj[odd[0]]| % 2 == 1;
      assert EulerStart(adj) != |adj|;
    }
  }

  /** The walk's start vertex names a vertex whenever `hasEulerPath` does not answer -1. */
  lemma StartVertexInRange(adj: seq<seq<int>>)
    requires |adj| > 0 && EulerStart(adj) != -1
    ensures 0 <= StartVertex(adj) < |adj|
  {
    var odd := OddUpTo(adj, |adj|);
    OddUpToMeaning(adj, |adj|);
    if |odd| == 2 {
      assert odd[0] in odd;
    }
  }

  /** When exactly two vertices have odd degree, `hasEulerPath` answers the lower. */
  lemma EulerStartTwoOdd(adj: seq<seq<int>>, a: int, b: int)
    requires ExactlyTwoOdd(adj, a, b)
    ensures EulerStart(adj) == a
  {
    var odd := OddUpTo(adj, |adj|);
    OddUpToMeaning(adj, |adj|);
    IncreasingCard(odd);
    assert (set x | x in odd) == {a, b};
    assert odd[0] in odd && odd[1] in odd;
  }

  /** `hasEulerPath` answers -1 exactly when the odd-degree vertices number
      neither zero nor two. */
  lemma EulerStartNone(adj: seq<seq<int>>)
    ensures EulerStart(adj) == -1 <==> !AllEven(adj) && forall a, b :: !ExactlyTwoOdd(adj, a, b)
  {
    var odd := OddUpTo(adj, |adj|);
    OddUpToMeaning(adj, |adj|);
    EulerStartAllEven(adj);
    forall a, b | ExactlyTwoOdd(adj, a, b) ensures EulerStart(adj) == a {
      EulerStartTwoOdd(adj, a, b);
    }
    if |odd| == 2 {
      assert odd[0] in odd && odd[1] in odd;
      assert ExactlyTwoOdd(adj, odd[0], odd[1]);
    }
  }

  /** The odd-degree scan of `hasEulerPath`. */
  method HasEulerPath(graph: Graph) returns (r: int)
    ensures r == EulerStart(graph.edges)
  {
    var oddVertice: seq<int> := [];
    for i := 0 to |graph.edges|
      invariant oddVertice == OddUpTo(graph.edges, i)
    {
      if |graph.edges[i]| % 2 == 1 {
        oddVertice := oddVertice + [i];
      }
    }
    if |oddVertice| == 0 {
      r := |graph.edges|;
    } else if |oddVertice| == 2 {
      r := oddVertice[0];
    } else {
      r := -1;
    }
  }

  // Counting reachable vertices.

  /** Marking a clear entry adds exactly one marked entry. */
  lemma CountTrueSet(m: seq<bool>, i: int)
    requires 0 <= i < |m| && !m[i]
    ensures CountTrue(m[i := true]) == CountTrue(m) + 1
  {
    CountFalseSet(m, i);
    CountFalseGrows(m, m[i := true]);
  }

  /** `dfs_count_impl`: marks every unmarked vertex reachable from `vertex` and
      returns one more than the number of vertices it marked. */
  method DfsCountImpl(graph: Graph, vertex: int, marked: seq<bool>) returns (result: int, marked': seq<bool>)
    requires WellFormed(graph.edges) && |marked| == |graph.edges|
    requires 0 <= vertex < |graph.edges| && marked[vertex]
    ensures Explored(graph.edges, vertex, marked, marked') && AllMarked(marked', graph.edges[vertex])
    ensures result == CountTrue(marked') - CountTrue(marked) + 1
    decreases CountFalse(marked)
  {
    var adj := graph.edges;
    result := 1;
    marked' := marked;
    SearchedStart(adj, vertex, marked);
    for i := 0 to |adj[vertex]|
      invariant Searched(adj, vertex, marked, marked', i)
      invariant result == CountTrue(marked') - CountTrue(marked) + 1
    {
      var next := adj[vertex][i];
      if !marked'[next] {
        var before := marked'[next := true];
        CountFalseGrows(marked, marked');
        CountFalseGrows(marked', before);
        CountTrueSet(marked', next);
        var count, m2 := DfsCountImpl(graph, next, before);
        SearchedChild(adj, vertex, marked, marked', i, m2);
        marked' := m2;
        result := result + count;
      } else {
        SearchedSkip(adj, vertex, marked, marked', i);
      }
    }
    SearchedDone(adj, vertex, marked, marked');
  }

  /** `dfs_count`: the number of vertices reachable from `vertex`, itself included. */
  method DfsCount(graph: Graph, vertex: int) returns (r: int)
    requires WellFormed(graph.edges) && 0 <= vertex < |graph.edges|
    ensures r == |ReachableSet(graph.edges, vertex)|
  {
    var adj := graph.edges;
    var marked := seq(|adj|, _ => false)[vertex := true];
    var m;
    r, m := DfsCountImpl(graph, vertex, marked);
    assert Closed(adj, m);
    forall u ensures u in ReachableSet(adj, vertex) <==> 0 <= u < |m| && m[u] {
      if 0 <= u < |m| && m[u] && u == vertex {
        ReachRefl(adj, u);
      }
      if u in ReachableSet(adj, vertex) {
        ClosedReach(adj, m, vertex, u);
      }
    }
    CountTrueCard(m, ReachableSet(adj, vertex));
    var z := seq(|adj|, _ => false);
    assert marked == z[vertex := true];
    CountTrueSet(z, vertex);
    CountTrueCard(z, {});
  }

  // Fleury's walk.

  /** Every list entry of `e` is an entry of the same list in `e0`. */
  ghost predicate Within(e: seq<seq<int>>, e0: seq<seq<int>>)
  {
    |e| == |e0| && forall u, x :: 0 <= u < |e| && x in e[u] ==> x in e0[u]
  }

  /** Every edge is recorded at both ends, as `add` records it. */
  ghost predicate Symmetric(e: seq<seq<int>>)
  {
    forall u, x :: 0 <= u < |e| && x in e[u] ==> 0 <= x < |e| && u in e[x]
  }

  /** A sub-multigraph of a well-formed graph is well-formed. */
  lemma WithinWellFormed(e: seq<seq<int>>, e0: seq<seq<int>>)
    requires Within(e, e0) && WellFormed(e0)
    ensures WellFormed(e)
  {
    forall u, k | 0 <= u < |e| && 0 <= k < |e[u]| ensures 0 <= e[u][k] < |e| {
      assert e[u][k] in e[u];
      var j :| 0 <= j < |e0[u]| && e0[u][j] == e[u][k];
    }
  }

  /** Deleting keeps the lists within the original ones. */
  lemma DeletedWithin(e: seq<seq<int>>, e0: seq<seq<int>>, v1: int, v2: int)
    requires Within(e, e0) && 0 <= v1 < |e| && 0 <= v2 < |e|
    ensures Within(Deleted(e, v1, v2), e0)
  {
    var e1 := e[v1 := ErasePass(e[v1], v2)];
    ErasePassShrinks(e[v1], v2);
    assert Within(e1, e0);
    ErasePassShrinks(e1[v2], v1);
  }

  /** Re-adding an edge of the original graph keeps the lists within the original ones. */
  lemma AddedWithin(e: seq<seq<int>>, e0: seq<seq<int>>, v1: int, v2: int)
    requires Within(e, e0) && 0 <= v1 < |e| && 0 <= v2 < |e| && v2 in e0[v1] && v1 in e0[v2]
    ensures Within(Added(e, v1, v2), e0)
  {
  }

  /** Deleting an edge `v1`-`v2` with `v1 != v2` shortens `v2`'s list. */
  lemma DeletedShrinks(e: seq<seq<int>>, v1: int, v2: int)
    requires 0 <= v1 < |e| && 0 <= v2 < |e| && v1 != v2 && v1 in e[v2]
    ensures |Deleted(e, v1, v2)[v2]| < |e[v2]|
  {
    ErasePassShrinks(e[v2], v1);
  }

  /** `deleteEdge(v, v)` on a self-loop leaves the vertices reachable from `v`
      unchanged: it only erases `v` from `v`'s own list, and every other entry
      stays. So `dfs_count` cannot tell the two graphs apart. */
  lemma SelfLoopReach(e: seq<seq<int>>, v: int)
    requires WellFormed(e) && 0 <= v < |e|
    ensures ReachableSet(Deleted(e, v, v), v) == ReachableSet(e, v)
  {
    var d := Deleted(e, v, v);
    ErasePassShrinks(e[v], v);
    ErasePassShrinks(ErasePass(e[v], v), v);
    ErasePassKeeps(e[v], v);
    ErasePassKeeps(ErasePass(e[v], v), v);
    assert forall u, x :: 0 <= u < |e| && x in d[u] ==> x in e[u];
    assert forall u, x :: 0 <= u < |e| && x in e[u] && (u != v || x != v) ==> x in d[u];
    forall u | u in ReachableSet(d, v) ensures u in ReachableSet(e, v) {
      var w :| IsWalk(d, w) && w[0] == v && w[|w| - 1] == u;
      assert IsWalk(e, w);
    }
    var m := seq(|e|, u => u in ReachableSet(d, v));
    forall u | 0 <= u < |m| && m[u] ensures AllMarked(m, e[u]) {
      forall k | 0 <= k < |e[u]| ensures 0 <= e[u][k] < |m| && m[e[u][k]] {
        var x := e[u][k];
        assert x in e[u];
        if u == v && x == v {
          ReachRefl(d, v);
        } else {
          ReachAppend(d, v, u, x);
        }
      }
    }
    forall u | u in ReachableSet(e, v) ensures u in ReachableSet(d, v) {
      ReachRefl(d, v);
      ClosedReach(e, m, v, u);
    }
  }

  /** The start vertex of `getEulerPath`: vertex 0 when every degree is even. */
  function StartVertex(adj: seq<seq<int>>): int
  {
    if EulerStart(adj) == |adj| then 0 else EulerStart(adj)
  }

  /** Lists that hold only entries of `e`'s lists reach no more than `e` does. */
  lemma ReachWithin(e': seq<seq<int>>, e: seq<seq<int>>, s: int)
    requires Within(e', e)
    ensures ReachableSet(e', s) <= ReachableSet(e, s)
  {
    forall u | u in ReachableSet(e', s) ensures u in ReachableSet(e, s) {
      var w :| IsWalk(e', w) && w[0] == s && w[|w| - 1] == u;
      assert IsWalk(e, w);
    }
  }

  /** A subset as large as its superset is the superset. */
  lemma SubsetSameSize(a: set<int>, b: set<int>)
    requires a <= b && |a| == |b|
    ensures a == b
  {
    assert b == a + (b - a);
    assert a * (b - a) == {};
  }

  /** A tried edge that is deleted and re-added leaves every entry in place. */
  lemma RetryKeeps(e: seq<seq<int>>, n: int, v: int)
    requires 0 <= n < |e| && 0 <= v < |e| && n != v
    ensures Within(e, Added(Deleted(e, n, v), v, n))
  {
    ErasePassKeeps(e[n], v);
    var e1 := e[n := ErasePass(e[n], v)];
    ErasePassKeeps(e1[v], n);
  }

  /** The number of list entries: each undirected edge counts at both ends. */
  function Total(e: seq<seq<int>>): nat
  {
    if e == [] then 0 else Total(e[..|e| - 1]) + |e[|e| - 1]|
  }

  lemma {:induction false} TotalUpdate(e: seq<seq<int>>, u: int, l: seq<int>)
    requires 0 <= u < |e|
    ensures Total(e[u := l]) == Total(e) - |e[u]| + |l|
  {
    var n := |e| - 1;
    var e' := e[u := l];
    if u == n {
      assert e'[..n] == e[..n];
    } else {
      TotalUpdate(e[..n], u, l);
      assert e'[..n] == e[..n][u := l];
    }
  }

  /** One turn of the walk, from lists `e` at `v` to lists `e'` at `n`. The
      tries before the last deleted and re-added edges, so `l`, the lists
      when the last try began, still holds every entry of `e`; the edge to
      `n` is one of `l[v]`. A taken turn deletes that edge from `l`, and it
      was the only edge left at `v` or deleting it kept every vertex `v`
      reached. A turn that runs off the end of the list re-added its last
      try, so `e'` is `l` with `n` last in `v`'s list. */
  ghost predicate Stepped(e: seq<seq<int>>, l: seq<seq<int>>, e': seq<seq<int>>, v: int, n: int, taken: bool)
  {
    && Within(e, l) && 0 <= v < |l| && 0 <= n < |l| && n in l[v]
    && (taken ==> e' == Deleted(l, n, v) && (|l[v]| == 1 || ReachableSet(e', v) == ReachableSet(l, v)))
    && (!taken ==> e' == l && l[v][|l[v]| - 1] == n)
  }

  /** A taken turn erases the walked edge: fewer entries are left. */
  lemma TakenShrinks(e: seq<seq<int>>, l: seq<seq<int>>, e': seq<seq<int>>, v: int, n: int)
    requires Stepped(e, l, e', v, n, true)
    ensures |e'| == |l| && Total(e') < Total(l)
  {
    var e1 := l[n := ErasePass(l[n], v)];
    ErasePassShrinks(l[n], v);
    TotalUpdate(l, n, ErasePass(l[n], v));
    ErasePassShrinks(e1[v], n);
    TotalUpdate(e1, v, ErasePass(e1[v], n));
  }

  /** One step of `getEulerPath` from `vertex`: tries the list entries in turn,
      keeps the first edge whose removal leaves the count of vertices reachable
      from `vertex` unchanged (or the only one), and re-adds every other edge it
      tried at the end of both lists. Returns the vertex moved to; the ghost
      `taken` says whether the loop broke. When it broke, `tried` is the lists
      when its last try began; when the loop ran off the end of the list,
      `tried` is the final lists. */
  method Step(graph: Graph, vertex: int, ghost e0: seq<seq<int>>) returns (next: int, ghost taken: bool, ghost tried: seq<seq<int>>)
    requires WellFormed(e0) && Symmetric(e0) && Within(graph.edges, e0)
    requires 0 <= vertex < |graph.edges| && |graph.edges[vertex]| > 0
    modifies graph
    ensures Within(graph.edges, e0) && Within(tried, e0) && next in e0[vertex]
    ensures Stepped(old(graph.edges), tried, graph.edges, vertex, next, taken)
  {
    next := graph.edges[vertex][0];
    taken, tried := false, graph.edges;
    var i := 0;
    while i < |graph.edges[vertex]|
      invariant Within(graph.edges, e0) && next in e0[vertex] && !taken
      invariant Within(old(graph.edges), graph.edges) && |graph.edges[vertex]| > 0
      invariant i > 0 ==> 0 <= next < |e0| && graph.edges[vertex][|graph.edges[vertex]| - 1] == next
      decreases |graph.edges[vertex]| - i
    {
      assert graph.edges[vertex][i] in graph.edges[vertex];
      next := graph.edges[vertex][i];
      assert 0 <= next < |e0|;
      WithinWellFormed(graph.edges, e0);
      if |graph.edges[vertex]| == 1 {
        DeletedWithin(graph.edges, e0, next, vertex);
        taken, tried := true, graph.edges;
        graph.DeleteEdge(next, vertex);
        break;
      }
      var count1 := DfsCount(graph, vertex);
      ghost var before := graph.edges;
      DeletedWithin(graph.edges, e0, next, vertex);
      graph.DeleteEdge(next, vertex);
      WithinWellFormed(graph.edges, e0);
      var count2 := DfsCount(graph, vertex);
      if next == vertex {
        SelfLoopReach(before, vertex);
      }
      if count1 == count2 {
        DeletedWithin(before, before, next, vertex);
        ReachWithin(graph.edges, before, vertex);
        SubsetSameSize(ReachableSet(graph.edges, vertex), ReachableSet(before, vertex));
        taken, tried := true, before;
        break;
      }
      DeletedShrinks(before, next, vertex);
      assert vertex in e0[next];
      AddedWithin(graph.edges, e0, vertex, next);
      graph.Add(vertex, next);
      RetryKeeps(before, next, vertex);
      i := i + 1;
    }
    if !taken {
      tried := graph.edges;
    }
  }

  /** `getEulerPath`, run for at most `fuel` steps: the walk starts at the
      vertex `hasEulerPath` names (0 when every degree is even), each step
      follows an edge of the original graph, and the walk stops at a vertex
      with no edges left unless the fuel runs out first. The ghost `graphs`
      holds the lists before each step and after the last, and step `k` is
      `Stepped` from `graphs[k]`, through `tries[k]`, to `graphs[k + 1]`. */
  method GetEulerPath(graph: Graph, fuel: nat)
    returns (result: seq<int>, ghost graphs: seq<seq<seq<int>>>, ghost tries: seq<seq<seq<int>>>, ghost taken: seq<bool>)
    requires WellFormed(graph.edges) && Symmetric(graph.edges)
    requires |graph.edges| > 0 && EulerStart(graph.edges) != -1
    modifies graph
    ensures |result| >= 1 && result[0] == StartVertex(old(graph.edges))
    ensures forall k :: 0 <= k < |result| ==> 0 <= result[k] < |old(graph.edges)|
    ensures forall k :: 0 <= k < |result| - 1 ==> result[k + 1] in old(graph.edges)[result[k]]
    ensures Within(graph.edges, old(graph.edges))
    ensures |result| <= fuel + 1 && (|result| <= fuel ==> graph.edges[result[|result| - 1]] == [])
    ensures |graphs| == |result| && |tries| == |result| - 1 && |taken| == |result| - 1
    ensures graphs[0] == old(graph.edges) && graphs[|result| - 1] == graph.edges
    ensures forall k :: 0 <= k < |result| - 1 ==>
      Stepped(graphs[k], tries[k], graphs[k + 1], result[k], result[k + 1], taken[k])
  {
    ghost var e0 := graph.edges;
    var vertex := HasEulerPath(graph);
    StartVertexInRange(e0);
    if vertex == |graph.edges| {
      vertex := 0;
    }
    assert OddUpTo(e0, |e0|) != [] ==> OddUpTo(e0, |e0|)[0] in OddUpTo(e0, |e0|);
    result := [vertex];
    graphs, tries, taken := [e0], [], [];
    var steps := 0;
    while |graph.edges[vertex]| > 0 && steps < fuel
      invariant Within(graph.edges, e0) && 0 <= vertex < |e0|
      invariant |result| == steps + 1 && steps <= fuel && result[0] == StartVertex(e0)
      invariant result[|result| - 1] == vertex
      invariant forall k :: 0 <= k < |result| ==> 0 <= result[k] < |e0|
      invariant forall k :: 0 <= k < |result| - 1 ==> result[k + 1] in e0[result[k]]
      invariant |graphs| == |result| && |tries| == |result| - 1 && |taken| == |result| - 1
      invariant graphs[0] == e0 && graphs[|result| - 1] == graph.edges
      invariant forall k :: 0 <= k < |result| - 1 ==>
        Stepped(graphs[k], tries[k], graphs[k + 1], result[k], result[k + 1], taken[k])
      decreases fuel - steps
    {
      var next, t, l := Step(graph, vertex, e0);
      graphs, tries, taken := graphs + [graph.edges], tries + [l], taken + [t];
      assert 0 <= next < |e0| by { assert WellFormed(e0); var j :| 0 <= j < |e0[vertex]| && e0[vertex][j] == next; }
      vertex := next;
      result := result + [vertex];
      steps := steps + 1;
    }
  }

  // The tests' graphs, built by `add` on ten vertices.

  /** test1 and test4: add(0,1), add(0,2), add(1,2). */
  function Triangle(): seq<seq<int>>
  {
    [[1, 2], [0, 2], [0, 1], [], [], [], [], [], [], []]
  }

  /** test2: add(0,1), add(0,2), add(1,2), add(1,3), add(2,3). */
  function Diamond(): seq<seq<int>>
  {
    [[1, 2], [0, 2, 3], [0, 1, 3], [1, 2], [], [], [], [], [], []]
  }

  /** test3: the diamond plus add(0,3). */
  function Complete4(): seq<seq<int>>
  {
    [[1, 2, 3], [0, 2, 3], [0, 1, 3], [1, 2, 0], [], [], [], [], [], []]
  }

  /** The answers the tests expect from `hasEulerPath`: 10, 1 and -1. */
  lemma TestTriangle()
    ensures EulerStart(Triangle()) == 10
  {
    assert OddUpTo(Triangle(), 10) == [];
  }

  lemma TestDiamond()
    ensures EulerStart(Diamond()) == 1
  {
    assert OddUpTo(Diamond(), 10) == [1, 2];
  }

  lemma TestComplete4()
    ensures EulerStart(Complete4()) == -1
  {
    assert OddUpTo(Complete4(), 10) == [0, 1, 2, 3];
  }
}
