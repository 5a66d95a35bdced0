/** graph/bfs/main.cpp: the queue search that records a parent for every vertex
    it marks, and the result object that walks those parents back. */
module GraphBfs {
  import opened Paths

  /** The graph as `bfs` sees it: `adj[v]` holds the neighbours pushed by `add`. */
  datatype Graph = Graph(adj: seq<seq<int>>)
  {
    function Size(): nat { |adj| }

    ghost predicate Valid() { WellFormed(adj) }
  }

  /** `BFSResult`: the start vertex and the recorded parent of every vertex, -1 for none. */
  datatype BfsResult = BfsResult(startVertex: int, neighbour: seq<int>)
  {
    /** `isPath`: whether a parent was recorded for `v`. */
    predicate IsPath(v: int)
      requires 0 <= v < |neighbour|
    {
      neighbour[v] != -1
    }
  }

  /** The three variables the search loop updates. */
  datatype Search = Search(queue: seq<int>, marked: seq<bool>, path: seq<int>)

  ghost predicate Sized(g: Graph, st: Search)
  {
    |st.marked| == g.Size() && |st.path| == g.Size()
    && forall k :: 0 <= k < |st.queue| ==> 0 <= st.queue[k] < g.Size()
  }

  /** Offering `next` to the search on behalf of `vertex`: an unmarked `next`
      is marked, queued and given `vertex` as its parent. */
  ghost function Offer(g: Graph, vertex: int, next: int, st: Search): (r: Search)
    requires Sized(g, st) && 0 <= next < g.Size()
    ensures Sized(g, r)
  {
    if !st.marked[next] then Search(st.queue + [next], st.marked[next := true], st.path[next := vertex])
    else st
  }

  /** The `for (int next: ...)` loop over `nexts`, on behalf of `vertex`. */
  ghost function Visit(g: Graph, vertex: int, nexts: seq<int>, st: Search): (r: Search)
    requires Sized(g, st) && forall k :: 0 <= k < |nexts| ==> 0 <= nexts[k] < g.Size()
    ensures Sized(g, r)
    decreases |nexts|
  {
    if nexts == [] then st else Visit(g, vertex, nexts[1..], Offer(g, vertex, nexts[0], st))
  }

  /** One turn of the `while` loop as written: the vertex expanded is the newest
      entry (`queue.back()`), but the entry removed is the oldest (`pop()`). */
  ghost function Expand(g: Graph, st: Search): (r: Search)
    requires g.Valid() && Sized(g, st) && st.queue != []
    ensures Sized(g, r)
  {
    var vertex := st.queue[|st.queue| - 1];
    Visit(g, vertex, g.adj[vertex], st.(queue := st.queue[1..]))
  }

  /** One turn of a queue search that expands the entry it removes. */
  ghost function ExpandFront(g: Graph, st: Search): (r: Search)
    requires g.Valid() && Sized(g, st) && st.queue != []
    ensures Sized(g, r)
  {
    var vertex := st.queue[0];
    Visit(g, vertex, g.adj[vertex], st.(queue := st.queue[1..]))
  }

  /** `Visit` only sets marks, and leaves every offered neighbour marked. */
  lemma {:induction false} VisitMarks(g: Graph, vertex: int, nexts: seq<int>, st: Search)
    requires Sized(g, st) && forall k :: 0 <= k < |nexts| ==> 0 <= nexts[k] < g.Size()
    ensures Grows(st.marked, Visit(g, vertex, nexts, st).marked)
    ensures AllMarked(Visit(g, vertex, nexts, st).marked, nexts)
    decreases |nexts|
  {
    if nexts != [] {
      VisitMarks(g, vertex, nexts[1..], Offer(g, vertex, nexts[0], st));
    }
  }

  /** `Visit` only appends to the queue, one entry per mark it sets. */
  lemma {:induction false} VisitQueueGrows(g: Graph, vertex: int, nexts: seq<int>, st: Search)
    requires Sized(g, st) && forall k :: 0 <= k < |nexts| ==> 0 <= nexts[k] < g.Size()
    ensures var r := Visit(g, vertex, nexts, st);
      && |r.queue| >= |st.queue| && r.queue[..|st.queue|] == st.queue
      && |r.queue| - |st.queue| == CountFalse(st.marked) - CountFalse(r.marked)
    decreases |nexts|
  {
    if nexts != [] {
      var st1 := Offer(g, vertex, nexts[0], st);
      if !st.marked[nexts[0]] {
        CountFalseSet(st.marked, nexts[0]);
      }
      VisitQueueGrows(g, vertex, nexts[1..], st1);
      var r := Visit(g, vertex, nexts[1..], st1);
      assert r.queue[..|st.queue|] == r.queue[..|st1.queue|][..|st.queue|];
    }
  }

  /** The entries `Visit` appends to the queue are exactly the vertices it marks. */
  lemma {:induction false} VisitQueue(g: Graph, vertex: int, nexts: seq<int>, st: Search)
    requires Sized(g, st) && forall k :: 0 <= k < |nexts| ==> 0 <= nexts[k] < g.Size()
    ensures var r := Visit(g, vertex, nexts, st);
      && |r.queue| >= |st.queue| && r.queue[..|st.queue|] == st.queue
      && (forall x :: x in r.queue[|st.queue|..] <==> 0 <= x < g.Size() && r.marked[x] && !st.marked[x])
    decreases |nexts|
  {
    VisitQueueGrows(g, vertex, nexts, st);
    if nexts != [] {
      var n0 := nexts[0];
      var st1 := Offer(g, vertex, n0, st);
      VisitQueue(g, vertex, nexts[1..], st1);
      VisitMarks(g, vertex, nexts[1..], st1);
      var r := Visit(g, vertex, nexts[1..], st1);
      var added, tail := st1.queue[|st.queue|..], r.queue[|st1.queue|..];
      assert added == if st.marked[n0] then [] else [n0];
      assert r.queue[|st.queue|..] == added + tail by {
        assert r.queue == st1.queue + tail;
      }
      forall x
        ensures x in r.queue[|st.queue|..] <==> 0 <= x < g.Size() && r.marked[x] && !st.marked[x]
      {
        assert x in added + tail <==> x in added || x in tail;
      }
    } else {
      assert st.queue[|st.queue|..] == [];
    }
  }

  /** `Visit` gives the newly marked vertices, and only those, `vertex` as their
      parent; each of them is one of `nexts`. */
  lemma {:induction false} VisitPath(g: Graph, vertex: int, nexts: seq<int>, st: Search)
    requires Sized(g, st) && forall k :: 0 <= k < |nexts| ==> 0 <= nexts[k] < g.Size()
    ensures var r := Visit(g, vertex, nexts, st);
      && (forall v :: 0 <= v < g.Size() && r.marked[v] && !st.marked[v] ==> r.path[v] == vertex && v in nexts)
      && (forall v :: 0 <= v < g.Size() && !(r.marked[v] && !st.marked[v]) ==> r.path[v] == st.path[v])
    decreases |nexts|
  {
    if nexts != [] {
      var st1 := Offer(g, vertex, nexts[0], st);
      VisitPath(g, vertex, nexts[1..], st1);
      VisitMarks(g, vertex, nexts[1..], st1);
      assert nexts == [nexts[0]] + nexts[1..];
    }
  }

  /** What every state of the search satisfies: the start is marked and has no
      parent, queued vertices are marked, exactly the marked vertices other than
      the start have a parent, which is a marked vertex adjacent to them, and
      every marked vertex is reachable from the start. */
  ghost predicate Inv(g: Graph, start: int, st: Search)
  {
    InvShape(g, start, st) && InvParents(g, start, st) && InvReach(g, start, st)
  }

  ghost predicate InvShape(g: Graph, start: int, st: Search)
  {
    && g.Valid() && Sized(g, st) && 0 <= start < g.Size() && st.marked[start] && st.path[start] == -1
    && (forall k :: 0 <= k < |st.queue| ==> st.marked[st.queue[k]])
  }

  ghost predicate InvParents(g: Graph, start: int, st: Search)
    requires Sized(g, st)
  {
    && (forall v :: 0 <= v < g.Size() && !st.marked[v] ==> st.path[v] == -1)
    && (forall v :: 0 <= v < g.Size() && st.marked[v] && v != start ==>
          0 <= st.path[v] < g.Size() && st.marked[st.path[v]] && v in g.adj[st.path[v]])
  }

  ghost predicate InvReach(g: Graph, start: int, st: Search)
    requires Sized(g, st)
  {
    forall v :: 0 <= v < g.Size() && st.marked[v] ==> Reachable(g.adj, start, v)
  }

  /** Parents rank strictly lower than their children: following them terminates. */
  ghost predicate Ranked(path: seq<int>, rank: seq<nat>)
  {
    |rank| == |path| && forall v :: 0 <= v < |path| && path[v] != -1 ==> 0 <= path[v] < |path| && rank[path[v]] < rank[v]
  }

  /** Expanding `vertex`, a marked vertex, keeps the search invariant. */
  lemma VisitInv(g: Graph, start: int, vertex: int, st: Search)
    requires Inv(g, start, st) && 0 <= vertex < g.Size() && st.marked[vertex]
    ensures Inv(g, start, Visit(g, vertex, g.adj[vertex], st))
  {
    VisitShape(g, start, vertex, st);
    VisitParents(g, start, vertex, st);
    VisitReach(g, start, vertex, st);
  }

  lemma VisitShape(g: Graph, start: int, vertex: int, st: Search)
    requires InvShape(g, start, st) && 0 <= vertex < g.Size() && st.marked[vertex]
    ensures InvShape(g, start, Visit(g, vertex, g.adj[vertex], st))
  {
    var r := Visit(g, vertex, g.adj[vertex], st);
    VisitMarks(g, vertex, g.adj[vertex], st);
    VisitQueue(g, vertex, g.adj[vertex], st);
    VisitPath(g, vertex, g.adj[vertex], st);
    forall k | 0 <= k < |r.queue| ensures r.marked[r.queue[k]] {
      if k >= |st.queue| {
        assert r.queue[|st.queue|..][k - |st.queue|] == r.queue[k];
      } else {
        assert r.queue[..|st.queue|][k] == r.queue[k];
      }
    }
  }

  lemma VisitParents(g: Graph, start: int, vertex: int, st: Search)
    requires InvShape(g, start, st) && InvParents(g, start, st) && 0 <= vertex < g.Size() && st.marked[vertex]
    ensures InvParents(g, start, Visit(g, vertex, g.adj[vertex], st))
  {
    VisitMarks(g, vertex, g.adj[vertex], st);
    VisitPath(g, vertex, g.adj[vertex], st);
  }

  lemma VisitReach(g: Graph, start: int, vertex: int, st: Search)
    requires InvShape(g, start, st) && InvReach(g, start, st) && 0 <= vertex < g.Size() && st.marked[vertex]
    ensures InvReach(g, start, Visit(g, vertex, g.adj[vertex], st))
  {
    var r := Visit(g, vertex, g.adj[vertex], st);
    VisitMarks(g, vertex, g.adj[vertex], st);
    VisitPath(g, vertex, g.adj[vertex], st);
    forall v | 0 <= v < g.Size() && r.marked[v]
      ensures Reachable(g.adj, start, v)
    {
      if !st.marked[v] {
        ReachAppend(g.adj, start, vertex, v);
      }
    }
  }

  /** Expanding a marked vertex keeps a ranking of the parents: each newly
      marked vertex ranks one above `vertex`. */
  lemma VisitRank(g: Graph, start: int, vertex: int, st: Search, rank: seq<nat>) returns (rank': seq<nat>)
    requires Inv(g, start, st) && 0 <= vertex < g.Size() && st.marked[vertex] && Ranked(st.path, rank)
    ensures Ranked(Visit(g, vertex, g.adj[vertex], st).path, rank')
  {
    var r := Visit(g, vertex, g.adj[vertex], st);
    VisitPath(g, vertex, g.adj[vertex], st);
    rank' := seq(g.Size(), v requires 0 <= v < g.Size() => if r.marked[v] && !st.marked[v] then rank[vertex] + 1 else rank[v]);
  }

  /** The state `bfs` starts from: only `start` marked and queued, no parents. */
  function Init(g: Graph, start: int): (st: Search)
    requires 0 <= start < g.Size()
    ensures Sized(g, st) && st.queue == [start]
    ensures forall v :: 0 <= v < g.Size() ==> (st.marked[v] <==> v == start) && st.path[v] == -1
  {
    Search([start], seq(g.Size(), _ => false)[start := true], seq(g.Size(), _ => -1))
  }

  lemma InitInv(g: Graph, start: int)
    requires g.Valid() && 0 <= start < g.Size()
    ensures Inv(g, start, Init(g, start))
  {
    ReachRefl(g.adj, start);
  }

  /** A turn of either loop shrinks the pair (unmarked vertices, queue length). */
  lemma ExpandDecreases(g: Graph, st: Search, vertex: int)
    requires g.Valid() && Sized(g, st) && st.queue != [] && 0 <= vertex < g.Size()
    ensures var r := Visit(g, vertex, g.adj[vertex], st.(queue := st.queue[1..]));
      CountFalse(r.marked) < CountFalse(st.marked)
      || (CountFalse(r.marked) == CountFalse(st.marked) && |r.queue| < |st.queue|)
  {
    var st0 := st.(queue := st.queue[1..]);
    VisitQueueGrows(g, vertex, g.adj[vertex], st0);
    VisitMarks(g, vertex, g.adj[vertex], st0);
    CountFalseGrows(st0.marked, Visit(g, vertex, g.adj[vertex], st0).marked);
  }

  /** The search as written, run until the queue is empty. */
  ghost function Run(g: Graph, st: Search): (r: Search)
    requires g.Valid() && Sized(g, st)
    ensures Sized(g, r) && r.queue == []
    decreases CountFalse(st.marked), |st.queue|
  {
    if st.queue == [] then st
    else
      ExpandDecreases(g, st, st.queue[|st.queue| - 1]);
      Run(g, Expand(g, st))
  }

  /** Dropping the oldest queue entry keeps the invariant. */
  lemma PopInv(g: Graph, start: int, st: Search)
    requires Inv(g, start, st) && st.queue != []
    ensures Inv(g, start, st.(queue := st.queue[1..]))
  {
    assert forall k :: 0 <= k < |st.queue| - 1 ==> st.queue[1..][k] == st.queue[k + 1];
  }

  /** The inner `for` loop of `bfs`: offers every neighbour of `vertex`. */
  method VisitNeighbours(g: Graph, vertex: int, queue: seq<int>, marked: seq<bool>, path: seq<int>)
    returns (queue': seq<int>, marked': seq<bool>, path': seq<int>)
    requires g.Valid() && Sized(g, Search(queue, marked, path)) && 0 <= vertex < g.Size()
    ensures Search(queue', marked', path') == Visit(g, vertex, g.adj[vertex], Search(queue, marked, path))
  {
    queue', marked', path' := queue, marked, path;
    for i := 0 to |g.adj[vertex]|
      invariant Sized(g, Search(queue', marked', path'))
      invariant Visit(g, vertex, g.adj[vertex][i..], Search(queue', marked', path'))
             == Visit(g, vertex, g.adj[vertex], Search(queue, marked, path))
    {
      var next := g.adj[vertex][i];
      assert g.adj[vertex][i..][0] == next && g.adj[vertex][i..][1..] == g.adj[vertex][i + 1..];
      if !marked'[next] {
        marked' := marked'[next := true];
        queue' := queue' + [next];
        path' := path'[next := vertex];
      }
    }
  }

  /** The parent vector of a search from `start`: `start` has none, and every
      recorded parent is a neighbour that is `start` or has a parent itself. */
  ghost predicate ParentTree(g: Graph, start: int, nb: seq<int>)
  {
    && |nb| == g.Size() && 0 <= start < g.Size() && nb[start] == -1
    && forall v :: 0 <= v < g.Size() && nb[v] != -1 ==>
         0 <= nb[v] < g.Size() && v in g.adj[nb[v]] && (nb[v] == start || nb[nb[v]] != -1)
  }

  lemma InvParentTree(g: Graph, start: int, st: Search)
    requires Inv(g, start, st)
    ensures ParentTree(g, start, st.path)
    ensures forall v :: 0 <= v < g.Size() ==> (st.marked[v] <==> v == start || st.path[v] != -1)
  {
  }

  /** `bfs` as written. Every vertex given a parent is reachable from the start
      and hangs off a neighbour; the start has no parent (so `isPath` is false
      for it); the ghost `rank` shows the parent links are acyclic. The result
      is the one the loop as written computes, which need not reach every
      reachable vertex. */
  method Bfs(g: Graph, startVertex: int) returns (result: BfsResult, ghost rank: seq<nat>)
    requires g.Valid() && 0 <= startVertex < g.Size()
    ensures result.startVertex == startVertex && result.neighbour == Run(g, Init(g, startVertex)).path
    ensures ParentTree(g, startVertex, result.neighbour) && !result.IsPath(startVertex)
    ensures forall v :: 0 <= v < g.Size() && result.IsPath(v) ==> Reachable(g.adj, startVertex, v)
    ensures Ranked(result.neighbour, rank)
  {
    var n := g.Size();
    var queue := [startVertex];
    var marked := seq(n, _ => false)[startVertex := true];
    var path := seq(n, _ => -1);
    rank := seq(n, _ => 0);
    ghost var init := Init(g, startVertex);
    assert Search(queue, marked, path) == init;
    InitInv(g, startVertex);
    while queue != []
      invariant Inv(g, startVertex, Search(queue, marked, path)) && Ranked(path, rank)
      invariant Run(g, Search(queue, marked, path)) == Run(g, init)
      decreases CountFalse(marked), |queue|
    {
      ghost var st := Search(queue, marked, path);
      var vertex := queue[|queue| - 1];
      queue := queue[1..];
      ExpandDecreases(g, st, vertex);
      PopInv(g, startVertex, st);
      rank := VisitRank(g, startVertex, vertex, st.(queue := queue), rank);
      VisitInv(g, startVertex, vertex, st.(queue := queue));
      queue, marked, path := VisitNeighbours(g, vertex, queue, marked, path);
    }
    InvParentTree(g, startVertex, Search(queue, marked, path));
    result := BfsResult(startVertex, path);
  }

  /** Marked vertices that have left the queue have all their neighbours marked. */
  ghost predicate Finished(g: Graph, st: Search)
    requires Sized(g, st)
  {
    forall v :: 0 <= v < g.Size() && st.marked[v] && v !in st.queue ==> AllMarked(st.marked, g.adj[v])
  }

  /** Expanding the entry that is removed keeps `Finished`. */
  lemma ExpandFrontFinished(g: Graph, st: Search)
    requires g.Valid() && Sized(g, st) && Finished(g, st) && st.queue != []
    ensures Finished(g, ExpandFront(g, st))
  {
    var vertex := st.queue[0];
    var st0 := st.(queue := st.queue[1..]);
    var r := ExpandFront(g, st);
    VisitMarks(g, vertex, g.adj[vertex], st0);
    VisitQueue(g, vertex, g.adj[vertex], st0);
    assert r.queue == st0.queue + r.queue[|st0.queue|..];
    forall v | 0 <= v < g.Size() && r.marked[v] && v !in r.queue
      ensures AllMarked(r.marked, g.adj[v])
    {
      if v != vertex {
        assert st.marked[v];
        assert v !in st.queue by {
          assert st.queue == [vertex] + st0.queue;
        }
        assert AllMarked(st.marked, g.adj[v]);
      }
    }
  }

  /** A queue search that expands the entry it removes: it gives a parent to
      every vertex reachable from the start, and to no other vertex. */
  method BfsFront(g: Graph, startVertex: int) returns (result: BfsResult, ghost rank: seq<nat>)
    requires g.Valid() && 0 <= startVertex < g.Size()
    ensures result.startVertex == startVertex
    ensures ParentTree(g, startVertex, result.neighbour) && !result.IsPath(startVertex)
    ensures forall v :: 0 <= v < g.Size() && v != startVertex ==> (result.IsPath(v) <==> Reachable(g.adj, startVertex, v))
    ensures Ranked(result.neighbour, rank)
  {
    var n := g.Size();
    var queue := [startVertex];
    var marked := seq(n, _ => false)[startVertex := true];
    var path := seq(n, _ => -1);
    rank := seq(n, _ => 0);
    ghost var init := Init(g, startVertex);
    assert Search(queue, marked, path) == init;
    InitInv(g, startVertex);
    while queue != []
      invariant Inv(g, startVertex, Search(queue, marked, path)) && Ranked(path, rank)
      invariant Finished(g, Search(queue, marked, path))
      decreases CountFalse(marked), |queue|
    {
      ghost var st := Search(queue, marked, path);
      var vertex := queue[0];
      queue := queue[1..];
      ExpandDecreases(g, st, vertex);
      PopInv(g, startVertex, st);
      ExpandFrontFinished(g, st);
      rank := VisitRank(g, startVertex, vertex, st.(queue := queue), rank);
      VisitInv(g, startVertex, vertex, st.(queue := queue));
      queue, marked, path := VisitNeighbours(g, vertex, queue, marked, path);
    }
    InvParentTree(g, startVertex, Search(queue, marked, path));
    assert Closed(g.adj, marked);
    forall v | 0 <= v < n && Reachable(g.adj, startVertex, v) ensures marked[v] {
      ClosedReach(g.adj, marked, startVertex, v);
    }
    result := BfsResult(startVertex, path);
  }

  /** `pathTo`'s result read back: every entry a vertex, each entry the parent
      of the next. */
  ghost predicate ParentChain(nb: seq<int>, p: seq<int>)
  {
    && (forall k :: 0 <= k < |p| ==> 0 <= p[k] < |nb|)
    && (forall k :: 0 <= k < |p| - 1 ==> nb[p[k + 1]] == p[k])
  }

  /** `pathTo`: follows the parents from `v` until -1, then reverses, so the
      result ends with `v` and starts at a vertex without a parent. */
  method PathTo(r: BfsResult, v: int, ghost rank: seq<nat>) returns (p: seq<int>)
    requires Ranked(r.neighbour, rank) && -1 <= v < |r.neighbour|
    ensures v == -1 ==> p == []
    ensures v != -1 ==> |p| > 0 && ParentChain(r.neighbour, p) && p[|p| - 1] == v && r.neighbour[p[0]] == -1
  {
    var nb := r.neighbour;
    var acc: seq<int> := [];
    var cur := v;
    while cur != -1
      invariant -1 <= cur < |nb|
      invariant forall k :: 0 <= k < |acc| ==> 0 <= acc[k] < |nb|
      invariant acc == [] ==> cur == v
      invariant acc != [] ==> acc[0] == v && nb[acc[|acc| - 1]] == cur
      invariant forall k :: 0 <= k < |acc| - 1 ==> nb[acc[k]] == acc[k + 1]
      decreases if cur == -1 then 0 else rank[cur] + 1
    {
      acc := acc + [cur];
      cur := nb[cur];
    }
    p := Reversed(acc);
  }

  /** Together: for a vertex that is the start or has a parent, the path
      `pathTo` returns is a walk from the start to it. */
  lemma PathToWalk(g: Graph, start: int, nb: seq<int>, v: int, p: seq<int>)
    requires ParentTree(g, start, nb) && 0 <= v < g.Size() && (v == start || nb[v] != -1)
    requires |p| > 0 && ParentChain(nb, p) && p[|p| - 1] == v && nb[p[0]] == -1
    ensures p[0] == start && IsWalk(g.adj, p)
  {
    if |p| > 1 {
      assert nb[p[1]] == p[0] && nb[p[1]] != -1;
    }
    forall k | 0 <= k < |p| - 1 ensures p[k + 1] in g.adj[p[k]] {
      assert nb[p[k + 1]] == p[k] && 0 <= p[k];
    }
  }

  /** The graph the test builds with add(0, 1) and add(1, 2) on ten vertices. */
  function TestGraph(): (g: Graph)
    ensures g.Valid() && g.Size() == 10
  {
    Graph([[1], [0, 2], [1], [], [], [], [], [], [], []])
  }

  /** The search as written from 0 on the test graph records 0 as the parent
      of 1 and 1 as the parent of 2, and nothing else. */
  lemma TestBfsParents()
    ensures Run(TestGraph(), Init(TestGraph(), 0)).path == [-1, 0, 1, -1, -1, -1, -1, -1, -1, -1]
  {
    var g := TestGraph();
    var none := seq(10, _ => -1);
    var m0 := seq(10, _ => false)[0 := true];
    var st0 := Init(g, 0);
    var st1 := Search([1], m0[1 := true], none[1 := 0]);
    var st2 := Search([2], m0[1 := true][2 := true], none[1 := 0][2 := 1]);
    var st3 := st2.(queue := []);
    assert Expand(g, st0) == st1;
    assert Visit(g, 1, [0, 2], st1.(queue := [])) == st2;
    assert Expand(g, st1) == st2;
    assert Expand(g, st2) == st3;
    assert st3.path == [-1, 0, 1, -1, -1, -1, -1, -1, -1, -1];
  }

  /** The path `pathTo` returns is determined by the parent vector: two
      parent chains that end at the same vertex and start at a vertex without a
      parent are equal. */
  lemma {:induction false} ChainUnique(nb: seq<int>, p: seq<int>, q: seq<int>)
    requires |p| > 0 && |q| > 0 && ParentChain(nb, p) && ParentChain(nb, q)
    requires p[|p| - 1] == q[|q| - 1] && nb[p[0]] == -1 && nb[q[0]] == -1
    ensures p == q
    decreases |p|
  {
    assert |p| > 1 ==> nb[p[|p| - 1]] == p[|p| - 2] >= 0;
    assert |q| > 1 ==> nb[q[|q| - 1]] == q[|q| - 2] >= 0;
    if |p| > 1 {
      ChainUnique(nb, p[..|p| - 1], q[..|q| - 1]);
      assert p == p[..|p| - 1] + [p[|p| - 1]] && q == q[..|q| - 1] + [q[|q| - 1]];
    }
  }

  /** With those parents, the only path `pathTo(2)` can return is [0, 1, 2]. */
  lemma TestPathToTwo(p: seq<int>)
    requires |p| > 0 && ParentChain([-1, 0, 1, -1, -1, -1, -1, -1, -1, -1], p)
    requires p[|p| - 1] == 2 && [-1, 0, 1, -1, -1, -1, -1, -1, -1, -1][p[0]] == -1
    ensures p == [0, 1, 2]
  {
    ChainUnique([-1, 0, 1, -1, -1, -1, -1, -1, -1, -1], p, [0, 1, 2]);
  }

  /** The graph built by add(0, 1), add(0, 2), add(1, 3). */
  function MissGraph(): (g: Graph)
    ensures g.Valid() && g.Size() == 4
  {
    Graph([[1, 2], [0, 3], [0], [1]])
  }

  /** The search as written from 0 expands 0, then expands 2 (the newest entry)
      while removing 1 (the oldest), so 1 is never expanded and 3, a neighbour
      of 1, is never given a parent although it is reachable. */
  lemma BfsMissesVertex()
    ensures Reachable(MissGraph().adj, 0, 3)
    ensures Run(MissGraph(), Init(MissGraph(), 0)).path[3] == -1
  {
    var g := MissGraph();
    assert IsWalk(g.adj, [0, 1, 3]);
    var none := seq(4, _ => -1);
    var m := seq(4, _ => false)[0 := true][1 := true][2 := true];
    var p := none[1 := 0][2 := 0];
    var st0 := Init(g, 0);
    var st1 := Search([1, 2], m, p);
    var st2 := Search([2], m, p);
    var st3 := Search([], m, p);
    assert Expand(g, st0) == st1;
    assert Expand(g, st1) == st2;
    assert Expand(g, st2) == st3;
  }
}
