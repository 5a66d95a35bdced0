/** mst/EagerPrim/main.cpp: a binary min-heap of edges indexed by the vertex each
    edge leads to, with decrease-key through `add`, and eager Prim, which keeps
    at most one candidate edge per vertex outside the tree. The edge and graph
    types are the same as in mst/Kruskal/main.cpp, and the heap moves its edge
    vector exactly as the heap of mst/LazyPrim/main.cpp does; both are taken
    from those models. */
module EagerPrimHeap {
  import opened Kruskal
  import opened LazyPrimHeap

  // Edges.

  /** `other(vertex)`, which asserts that `vertex` is an end: the opposite end. */
  function OtherEnd(e: Edge, vertex: int): (r: int)
    requires vertex == e.from || vertex == e.to
    ensures vertex == e.from ==> r == e.to
    ensures vertex == e.to ==> r == e.from
  {
    Other(e, vertex)
  }

  /** `setSourceVertex(source)`, which asserts that `source` is an end: the
      same two ends and weight, with `source` as the tail. */
  function SetSource(e: Edge, source: int): (r: Edge)
    requires source == e.from || source == e.to
    ensures r.from == source && r.to == OtherEnd(e, source) && r.weight == e.weight
    ensures multiset{r.from, r.to} == multiset{e.from, e.to}
    ensures source == e.from ==> r == e
  {
    if source != e.from then Edge(e.to, e.from, e.weight) else e
  }

  // The position map.

  /** `pos` is the inverse of the slots: slot `k` holds the edge to
      `edges[k].to` and `pos` sends that vertex back to `k`; every other vertex
      has -1 (never added) or `|pos|` (popped, or the start vertex). */
  ghost predicate Indexed(edges: seq<Edge>, pos: seq<int>)
  {
    && (forall k :: 0 <= k < |edges| ==> 0 <= edges[k].to < |pos| && pos[edges[k].to] == k)
    && (forall v :: 0 <= v < |pos| ==> pos[v] == -1 || pos[v] == |pos| || (0 <= pos[v] < |edges| && edges[pos[v]].to == v))
  }

  /** Each vertex has one slot at most, so there are no more slots than
      vertices. */
  lemma SlotsFit(edges: seq<Edge>, pos: seq<int>)
    requires Indexed(edges, pos)
    ensures |edges| <= |pos|
  {
    var tos := seq(|edges|, k requires 0 <= k < |edges| => edges[k].to);
    forall i, j | 0 <= i < j < |tos| ensures tos[i] != tos[j] {
      assert pos[tos[i]] == i && pos[tos[j]] == j;
    }
    DistinctFit(tos, |pos|);
  }

  /** Distinct values below `n` number `n` at most. */
  lemma {:induction false} DistinctFit(xs: seq<int>, n: nat)
    requires forall i :: 0 <= i < |xs| ==> 0 <= xs[i] < n
    requires forall i, j :: 0 <= i < j < |xs| ==> xs[i] != xs[j]
    ensures |xs| <= n
  {
    if |xs| > 0 {
      assert 0 <= xs[0] < n;
      if i :| 0 <= i < |xs| && xs[i] == n - 1 {
        var ys := xs[..i] + xs[i + 1..];
        forall a | 0 <= a < |ys| ensures 0 <= ys[a] < n - 1 {
          if a < i {
            assert ys[a] == xs[a];
          } else {
            assert ys[a] == xs[a + 1];
          }
        }
        forall a, b | 0 <= a < b < |ys| ensures ys[a] != ys[b] {
          var a', b' := if a < i then a else a + 1, if b < i then b else b + 1;
          assert ys[a] == xs[a'] && ys[b] == xs[b'];
        }
        DistinctFit(ys, n - 1);
      } else {
        DistinctFit(xs, n - 1);
      }
    }
  }

  /** `pos` is `pos0` brought up to date with `edges`: it is the inverse of
      the slots and differs from `pos0` only at vertices that have a slot.
      Given `edges` and `pos0` there is one such `pos`. */
  ghost predicate Reindexed(pos0: seq<int>, edges: seq<Edge>, pos: seq<int>)
  {
    && |pos| == |pos0| && Indexed(edges, pos)
    && forall v :: 0 <= v < |pos| && pos[v] != pos0[v] ==> 0 <= pos[v] < |edges|
  }

  /** The vertices that have a slot. */
  ghost function Heads(edges: seq<Edge>): set<int>
  {
    set x | x in edges :: x.to
  }

  /** `std::swap` of two entries of the position map. */
  function SwapPos(pos: seq<int>, a: int, b: int): (r: seq<int>)
    requires 0 <= a < |pos| && 0 <= b < |pos|
    ensures |r| == |pos| && r[a] == pos[b] && r[b] == pos[a]
    ensures forall v :: 0 <= v < |pos| && v != a && v != b ==> r[v] == pos[v]
  {
    pos[a := pos[b]][b := pos[a]]
  }

  /** Only one map: `Reindexed` gives a single `pos`. */
  lemma ReindexedUnique(pos0: seq<int>, edges: seq<Edge>, pos: seq<int>, pos': seq<int>)
    requires Reindexed(pos0, edges, pos) && Reindexed(pos0, edges, pos')
    ensures pos == pos'
  {
    SlotsFit(edges, pos);
    forall v | 0 <= v < |pos| ensures pos[v] == pos'[v] {
      if pos[v] != pos0[v] {
        assert pos'[edges[pos[v]].to] == pos[v];
      }
    }
  }

  /** `swap(i, j)` (the slots, then the positions of the vertices they now
      hold) keeps the map the inverse of the slots. */
  lemma SwapReindexed(edges: seq<Edge>, pos: seq<int>, i: nat, j: nat)
    requires Indexed(edges, pos) && i < |edges| && j < |edges|
    ensures Reindexed(pos, Swap(edges, i, j), SwapPos(pos, edges[j].to, edges[i].to))
  {
    var edges', pos' := Swap(edges, i, j), SwapPos(pos, edges[j].to, edges[i].to);
    forall k | 0 <= k < |edges'| ensures 0 <= edges'[k].to < |pos'| && pos'[edges'[k].to] == k {
      if k != i && k != j {
        assert edges[k].to != edges[i].to && edges[k].to != edges[j].to;
      }
    }
  }

  lemma ReindexedTrans(pos0: seq<int>, edges1: seq<Edge>, pos1: seq<int>, edges2: seq<Edge>, pos2: seq<int>)
    requires Reindexed(pos0, edges1, pos1) && Reindexed(pos1, edges2, pos2) && |edges1| == |edges2|
    ensures Reindexed(pos0, edges2, pos2)
  {
    SlotsFit(edges2, pos2);
  }

  lemma HeadsPermute(s: seq<Edge>, t: seq<Edge>)
    requires multiset(s) == multiset(t)
    ensures Heads(s) == Heads(t)
  {
    forall x | x in s ensures x in t {
      assert x in multiset(s);
    }
    forall x | x in t ensures x in s {
      assert x in multiset(t);
    }
  }

  // `add`.

  /** The edge vector after `add(e, from)`: a vertex without a slot gets `e`
      with `from` as its tail, appended and promoted; a vertex with a slot
      whose edge is strictly heavier gets `Edge(from, to, weight)` there,
      promoted; otherwise nothing changes. */
  function Added(edges: seq<Edge>, pos: seq<int>, e: Edge, from: int): (r: seq<Edge>)
    requires Indexed(edges, pos) && (from == e.from || from == e.to)
    requires 0 <= OtherEnd(e, from) < |pos| && pos[OtherEnd(e, from)] != |pos|
    ensures |r| == |edges| + (if pos[OtherEnd(e, from)] == -1 then 1 else 0)
  {
    var to := OtherEnd(e, from);
    if pos[to] == -1 then Add(edges, SetSource(e, from))
    else if e.weight < edges[pos[to]].weight then Promote(edges[pos[to] := Edge(from, to, e.weight)], pos[to]).0
    else edges
  }

  /** `add` leaves `to` with a slot, and changes nothing but that slot: the
      edges afterwards are the ones before and the new edge from `from`; a
      vertex without a slot gains one, the entry of a vertex with a slot is
      replaced when the new edge is strictly lighter and kept otherwise. */
  lemma AddedEntry(edges: seq<Edge>, pos: seq<int>, e: Edge, from: int)
    requires Indexed(edges, pos) && (from == e.from || from == e.to)
    requires 0 <= OtherEnd(e, from) < |pos| && pos[OtherEnd(e, from)] != |pos|
    ensures var to, r := OtherEnd(e, from), Added(edges, pos, e, from);
      && Heads(r) == Heads(edges) + {to}
      && (forall x :: x in r ==> x in edges || x == Edge(from, to, e.weight))
      && (pos[to] == -1 ==> multiset(r) == multiset(edges) + multiset{Edge(from, to, e.weight)})
      && (pos[to] != -1 && e.weight < edges[pos[to]].weight ==>
            multiset(r) == multiset(edges) - multiset{edges[pos[to]]} + multiset{Edge(from, to, e.weight)})
      && (pos[to] != -1 && e.weight >= edges[pos[to]].weight ==> r == edges)
  {
    var to := OtherEnd(e, from);
    assert SetSource(e, from) == Edge(from, to, e.weight);
    if pos[to] == -1 {
      AppendedEntry(edges, Edge(from, to, e.weight));
    } else if e.weight < edges[pos[to]].weight {
      ReplacedEntry(edges, pos[to], Edge(from, to, e.weight));
    }
  }

  lemma AppendedEntry(edges: seq<Edge>, x: Edge)
    ensures var r := Add(edges, x);
      && Heads(r) == Heads(edges) + {x.to}
      && (forall y :: y in r ==> y in edges || y == x)
      && multiset(r) == multiset(edges) + multiset{x}
  {
    var r := Add(edges, x);
    AddPermutes(edges, x);
    HeadsPermute(r, edges + [x]);
    assert Heads(edges + [x]) == Heads(edges) + {x.to};
    forall y | y in r ensures y in edges || y == x {
      assert y in multiset(r);
    }
  }

  lemma ReplacedEntry(edges: seq<Edge>, p: nat, x: Edge)
    requires p < |edges| && edges[p].to == x.to
    ensures var r := Promote(edges[p := x], p).0;
      && Heads(r) == Heads(edges)
      && (forall y :: y in r ==> y in edges || y == x)
      && multiset(r) == multiset(edges) - multiset{edges[p]} + multiset{x}
  {
    var s := edges[p := x];
    var r := Promote(s, p).0;
    PromotePermutes(s, p);
    ReplacePermutes(edges, p, x);
    HeadsPermute(r, s);
    forall h | h in Heads(edges) ensures h in Heads(s) {
      var k :| 0 <= k < |edges| && edges[k].to == h;
      if k == p {
        assert s[p].to == h;
      } else {
        assert s[k] == edges[k];
      }
    }
    forall h | h in Heads(s) ensures h in Heads(edges) {
      var k :| 0 <= k < |s| && s[k].to == h;
      assert edges[k].to == h;
    }
    forall y | y in r ensures y in edges || y == x {
      assert y in multiset(r);
      var k :| 0 <= k < |s| && s[k] == y;
      if k != p {
        assert edges[k] == y;
      }
    }
  }

  lemma ReplacePermutes<T>(s: seq<T>, p: nat, x: T)
    requires p < |s|
    ensures multiset(s[p := x]) == multiset(s) - multiset{s[p]} + multiset{x}
  {
    assert s == s[..p] + [s[p]] + s[p + 1..];
    assert s[p := x] == s[..p] + [x] + s[p + 1..];
  }

  /** `add` keeps heap order: a new edge is promoted from the end, and a
      lighter edge promoted from its slot. */
  lemma AddedOrdered(edges: seq<Edge>, pos: seq<int>, e: Edge, from: int)
    requires Indexed(edges, pos) && (from == e.from || from == e.to)
    requires 0 <= OtherEnd(e, from) < |pos| && pos[OtherEnd(e, from)] != |pos|
    requires HeapOrdered(edges)
    ensures HeapOrdered(Added(edges, pos, e, from))
  {
    var to := OtherEnd(e, from);
    if pos[to] == -1 {
      AddOrdered(edges, SetSource(e, from));
    } else if e.weight < edges[pos[to]].weight {
      var p := pos[to];
      var s := edges[p := Edge(from, to, e.weight)];
      ParentOfChild(p);
      forall i | 0 < i < |s| && i != p ensures s[Parent(i)].weight <= s[i].weight {
        assert edges[Parent(i)].weight <= edges[i].weight;
      }
      if 0 < p {
        assert edges[Parent(p)].weight <= edges[p].weight;
        if Left(p) < |s| {
          assert edges[p].weight <= edges[Left(p)].weight;
        }
        if Right(p) < |s| {
          assert edges[p].weight <= edges[Right(p)].weight;
        }
      }
      PromoteOrders(s, p);
    }
  }

  // `pop`.

  /** `pop` takes out the root's entry and no other: the edges left are
      edges of the other slots, and their vertices are the others. */
  lemma PopEntry(edges: seq<Edge>, pos: seq<int>)
    requires Indexed(edges, pos) && |edges| > 0
    ensures forall x :: x in Pop(edges).1 ==> x in edges && x.to != edges[0].to
    ensures forall x :: x in PopFixed(edges).1 ==> x in edges && x.to != edges[0].to
    ensures Heads(Pop(edges).1) == Heads(edges) - {edges[0].to}
    ensures Heads(PopFixed(edges).1) == Heads(edges) - {edges[0].to}
  {
    var t := Shrunk(edges);
    SinkPermutes(t, 0);
    SinkFixedPermutes(t, 0);
    HeadsPermute(Pop(edges).1, t);
    HeadsPermute(PopFixed(edges).1, t);
    forall x | x in t ensures x in edges && x.to != edges[0].to {
      var k :| 0 <= k < |t| && t[k] == x;
      if k == 0 {
        assert x == edges[|edges| - 1];
      } else {
        assert x == edges[k];
      }
    }
    forall x | x in Pop(edges).1 ensures x in t {
      assert x in multiset(Pop(edges).1);
    }
    forall x | x in PopFixed(edges).1 ensures x in t {
      assert x in multiset(PopFixed(edges).1);
    }
    forall h | h in Heads(edges) && h != edges[0].to ensures h in Heads(t) {
      var k :| 0 <= k < |edges| && edges[k].to == h;
      if k == |edges| - 1 {
        assert t[0] == edges[k];
      } else {
        assert t[k] == edges[k];
      }
    }
  }

  /** `Heap`: `edges` is `m_Edges` and `pos` is `m_VertexToPosition`. */
  class Heap {
    var edges: seq<Edge>
    var pos: seq<int>

    /** `Heap(size, initialVertex)`: no edges; every position -1 except the
        start vertex's, which is `size`. */
    constructor (size: nat, initialVertex: nat)
      requires initialVertex < size
      ensures edges == [] && pos == seq(size, v => -1)[initialVertex := size]
      ensures Indexed(edges, pos)
    {
      edges := [];
      pos := seq(size, v => -1)[initialVertex := size];
    }

    /** `swap(pos1, pos2)`: the two slots, then the positions of the two
        vertices they now hold. The ghost `pos0` is the map the current
        operation started from. */
    method SwapSlots(i: nat, j: nat, ghost pos0: seq<int>)
      requires Reindexed(pos0, edges, pos) && i < |edges| && j < |edges|
      modifies this
      ensures edges == Swap(old(edges), i, j)
      ensures pos == SwapPos(old(pos), old(edges)[j].to, old(edges)[i].to)
      ensures Reindexed(pos0, edges, pos)
    {
      SwapReindexed(edges, pos, i, j);
      edges := edges[i := edges[j]][j := edges[i]];
      var a, b := edges[i].to, edges[j].to;
      pos := pos[a := pos[b]][b := pos[a]];
      ReindexedTrans(pos0, old(edges), old(pos), edges, pos);
    }

    method SinkOnceAt(position: nat, ghost pos0: seq<int>) returns (current: nat)
      requires Reindexed(pos0, edges, pos)
      modifies this
      ensures (edges, current) == SinkOnce(old(edges), position)
      ensures Reindexed(pos0, edges, pos)
    {
      current := position;
      if Left(position) < |edges| {
        if edges[Left(position)].weight < edges[position].weight {
          SwapSlots(Left(position), position, pos0);
          current := Left(position);
        }
      }
      if Right(position) < |edges| {
        if edges[Right(position)].weight < edges[position].weight {
          SwapSlots(Right(position), position, pos0);
          if position == current {
            current := Right(position);
          }
        }
      }
    }

    method PromoteOnceAt(position: nat, ghost pos0: seq<int>) returns (next: nat)
      requires Reindexed(pos0, edges, pos) && position < |edges|
      modifies this
      ensures (edges, next) == PromoteOnce(old(edges), position)
      ensures Reindexed(pos0, edges, pos)
    {
      if edges[position].weight < edges[Parent(position)].weight {
        SwapSlots(position, Parent(position), pos0);
        return Parent(position);
      }
      return position;
    }

    method SinkAt(position: nat, ghost pos0: seq<int>) returns (r: nat)
      requires Reindexed(pos0, edges, pos)
      modifies this
      ensures (edges, r) == Sink(old(edges), position)
      ensures Reindexed(pos0, edges, pos)
    {
      var p: nat := position;
      var next: nat := SinkOnceAt(p, pos0);
      while p != next
        invariant next != p ==> p < next < |edges| && Sink(old(edges), position) == Sink(edges, next)
        invariant next == p ==> Sink(old(edges), position) == (edges, p)
        invariant |edges| == |old(edges)| && Reindexed(pos0, edges, pos)
        decreases |edges| - p
      {
        p := next;
        next := SinkOnceAt(p, pos0);
      }
      return p;
    }

    method PromoteAt(position: nat, ghost pos0: seq<int>) returns (r: nat)
      requires Reindexed(pos0, edges, pos) && position < |edges|
      modifies this
      ensures (edges, r) == Promote(old(edges), position)
      ensures Reindexed(pos0, edges, pos)
    {
      var p: nat := position;
      var next: nat := PromoteOnceAt(p, pos0);
      while p != next
        invariant next < |edges|
        invariant next != p ==> next < p && Promote(old(edges), position) == Promote(edges, next)
        invariant next == p ==> Promote(old(edges), position) == (edges, p)
        invariant |edges| == |old(edges)| && Reindexed(pos0, edges, pos)
        decreases p
      {
        p := next;
        next := PromoteOnceAt(p, pos0);
      }
      return p;
    }

    /** `add(edge, from)`: a new vertex is given a slot at the end, oriented
        from `from`, and promoted; a vertex with a slot gets the edge there
        when it is strictly lighter, promoted. A popped vertex (position
        `|pos|`) would index past the end, so it is excluded. */
    method Add(e: Edge, from: int)
      requires Indexed(edges, pos) && (from == e.from || from == e.to)
      requires 0 <= OtherEnd(e, from) < |pos| && pos[OtherEnd(e, from)] != |pos|
      modifies this
      ensures edges == Added(old(edges), old(pos), e, from)
      ensures Reindexed(old(pos), edges, pos)
    {
      var to := OtherEnd(e, from);
      if pos[to] == -1 {
        var p := |edges|;
        AppendReindexed(edges, pos, SetSource(e, from));
        edges := edges + [e];
        edges := edges[p := SetSource(edges[p], from)];
        pos := pos[edges[p].to := p];
        assert edges == old(edges) + [SetSource(e, from)];
        var _ := PromoteAt(p, old(pos));
      } else {
        var hashPosition := pos[to];
        if e.weight < edges[hashPosition].weight {
          ReplaceReindexed(edges, pos, hashPosition, Edge(from, to, e.weight));
          edges := edges[hashPosition := Edge(from, to, e.weight)];
          var _ := PromoteAt(hashPosition, old(pos));
        }
      }
    }

    /** `pop()` as written: the root is returned and its vertex's position
        set to `|pos|`; the last slot moves to the root, the vector shrinks,
        the new root's vertex is given position 0, and the root sinks. Line
        288 reads slot 0 after the shrink, so the heap must hold two edges. */
    method Pop() returns (e: Edge)
      requires Indexed(edges, pos) && |edges| >= 2
      modifies this
      ensures (e, edges) == LazyPrimHeap.Pop(old(edges))
      ensures Reindexed(old(pos)[old(edges)[0].to := |pos|], edges, pos)
    {
      e := edges[0];
      pos := pos[e.to := |pos|];
      edges := edges[0 := edges[|edges| - 1]];
      edges := edges[..|edges| - 1];
      pos := pos[edges[0].to := 0];
      ShrunkReindexed(old(edges), old(pos));
      var _ := SinkAt(0, old(pos)[old(edges)[0].to := |pos|]);
    }

    /** `sinkOnce` as intended: only the lighter child comes up. */
    method SinkOnceFixedAt(position: nat, ghost pos0: seq<int>) returns (current: nat)
      requires Reindexed(pos0, edges, pos)
      modifies this
      ensures (edges, current) == SinkOnceFixed(old(edges), position)
      ensures Reindexed(pos0, edges, pos)
    {
      current := position;
      if Left(position) < |edges| {
        var lighter := Left(position);
        if Right(position) < |edges| && edges[Right(position)].weight < edges[Left(position)].weight {
          lighter := Right(position);
        }
        if edges[lighter].weight < edges[position].weight {
          SwapSlots(position, lighter, pos0);
          current := lighter;
        }
      }
    }

    method SinkFixedAt(position: nat, ghost pos0: seq<int>)
      requires Reindexed(pos0, edges, pos)
      modifies this
      ensures edges == SinkFixed(old(edges), position)
      ensures Reindexed(pos0, edges, pos)
    {
      var p: nat := position;
      var next: nat := SinkOnceFixedAt(p, pos0);
      while p != next
        invariant next != p ==> p < next < |edges| && SinkFixed(old(edges), position) == SinkFixed(edges, next)
        invariant next == p ==> SinkFixed(old(edges), position) == edges
        invariant |edges| == |old(edges)| && Reindexed(pos0, edges, pos)
        decreases |edges| - p
      {
        p := next;
        next := SinkOnceFixedAt(p, pos0);
      }
    }

    /** `pop` as intended: the intended sink, and the new root's position
        written only when a root is left. */
    method PopLightest() returns (e: Edge)
      requires Indexed(edges, pos) && |edges| >= 1
      modifies this
      ensures (e, edges) == PopFixed(old(edges))
      ensures Reindexed(old(pos)[old(edges)[0].to := |pos|], edges, pos)
    {
      e := edges[0];
      pos := pos[e.to := |pos|];
      edges := edges[0 := edges[|edges| - 1]];
      edges := edges[..|edges| - 1];
      if |edges| > 0 {
        pos := pos[edges[0].to := 0];
        ShrunkReindexed(old(edges), old(pos));
        SinkFixedAt(0, old(pos)[old(edges)[0].to := |pos|]);
      } else {
        assert old(pos)[old(edges)[0].to := |pos|] == pos;
      }
    }
  }

  /** A vertex without a slot given one at the end. */
  lemma AppendReindexed(edges: seq<Edge>, pos: seq<int>, x: Edge)
    requires Indexed(edges, pos) && 0 <= x.to < |pos| && pos[x.to] == -1
    ensures Reindexed(pos, edges + [x], pos[x.to := |edges|])
  {
    var edges', pos' := edges + [x], pos[x.to := |edges|];
    forall k | 0 <= k < |edges'| ensures 0 <= edges'[k].to < |pos'| && pos'[edges'[k].to] == k {
      if k < |edges| {
        assert edges'[k] == edges[k] && pos[edges[k].to] == k;
      }
    }
  }

  /** A slot given another edge to the same vertex. */
  lemma ReplaceReindexed(edges: seq<Edge>, pos: seq<int>, p: nat, x: Edge)
    requires Indexed(edges, pos) && p < |edges| && edges[p].to == x.to
    ensures Reindexed(pos, edges[p := x], pos)
  {
  }

  /** Moving the last slot to the root and giving its vertex position 0 keeps
      the map the inverse of the slots, with the old root's vertex removed. */
  lemma ShrunkReindexed(edges: seq<Edge>, pos: seq<int>)
    requires Indexed(edges, pos) && |edges| >= 2
    ensures Reindexed(pos[edges[0].to := |pos|], Shrunk(edges), pos[edges[0].to := |pos|][edges[|edges| - 1].to := 0])
  {
    var t := Shrunk(edges);
    var pos1 := pos[edges[0].to := |pos|];
    var pos2 := pos1[edges[|edges| - 1].to := 0];
    assert edges[0].to != edges[|edges| - 1].to;
    forall k | 0 <= k < |t| ensures 0 <= t[k].to < |pos2| && pos2[t[k].to] == k {
      if k > 0 {
        assert t[k] == edges[k];
        assert edges[k].to != edges[0].to && edges[k].to != edges[|edges| - 1].to;
      }
    }
    forall v | 0 <= v < |pos2| ensures pos2[v] == -1 || pos2[v] == |pos2| || (0 <= pos2[v] < |t| && t[pos2[v]].to == v) {
      if v != edges[0].to && v != edges[|edges| - 1].to && 0 <= pos[v] < |edges| && pos[v] != |pos| {
        assert edges[pos[v]].to == v;
        assert pos[v] != 0 && pos[v] != |edges| - 1;
        assert t[pos[v]] == edges[pos[v]];
      }
    }
  }
  // Where `sinkOnce` goes wrong, with one slot per vertex.

  function E(to: int, weight: int): Edge { Edge(0, to, weight) }

  /** The slots hold edges to 1, 2, ... in order, so vertex `v` sits at slot
      `v - 1` and 0 is the start vertex. */
  lemma InOrderIndexed(h: seq<Edge>)
    requires forall k :: 0 <= k < |h| ==> h[k].to == k + 1
    ensures Indexed(h, seq(|h| + 1, v => v - 1)[0 := |h| + 1])
  {
  }

  /** A heap of edges to eight distinct vertices, in heap order and with its
      position map in step: the first `pop` breaks the order, and the third
      returns weight 4 while the edge of weight 3 is still in the heap. */
  lemma PopBreaksIndexedOrder()
    ensures var h := [E(1, 2), E(2, 5), E(3, 2), E(4, 7), E(5, 8), E(6, 3), E(7, 4), E(8, 9)];
      && Indexed(h, [9, 0, 1, 2, 3, 4, 5, 6, 7]) && HeapOrdered(h)
      && Pop(h).1 == [E(3, 2), E(4, 7), E(2, 5), E(8, 9), E(5, 8), E(6, 3), E(7, 4)] && !HeapOrdered(Pop(h).1)
      && Pop(Pop(h).1).1 == [E(7, 4), E(4, 7), E(2, 5), E(8, 9), E(5, 8), E(6, 3)]
      && Pop(Pop(Pop(h).1).1).0 == E(7, 4) && E(6, 3) in Pop(Pop(Pop(h).1).1).1
  {
    var h := [E(1, 2), E(2, 5), E(3, 2), E(4, 7), E(5, 8), E(6, 3), E(7, 4), E(8, 9)];
    forall k | 0 <= k < |h| ensures h[k].to == k + 1 {
      assert k in {0, 1, 2, 3, 4, 5, 6, 7};
    }
    InOrderIndexed(h);
    assert seq(9, v => v - 1)[0 := 9] == [9, 0, 1, 2, 3, 4, 5, 6, 7];
    forall i | 0 < i < |h| ensures h[Parent(i)].weight <= h[i].weight {
      assert i in {1, 2, 3, 4, 5, 6, 7};
    }
    IndexedFirstPop();
    IndexedLaterPops();
  }

  lemma IndexedFirstPop()
    ensures Pop([E(1, 2), E(2, 5), E(3, 2), E(4, 7), E(5, 8), E(6, 3), E(7, 4), E(8, 9)]).1
      == [E(3, 2), E(4, 7), E(2, 5), E(8, 9), E(5, 8), E(6, 3), E(7, 4)]
    ensures !HeapOrdered([E(3, 2), E(4, 7), E(2, 5), E(8, 9), E(5, 8), E(6, 3), E(7, 4)])
  {
    var h := [E(1, 2), E(2, 5), E(3, 2), E(4, 7), E(5, 8), E(6, 3), E(7, 4), E(8, 9)];
    var m0 := [E(8, 9), E(2, 5), E(3, 2), E(4, 7), E(5, 8), E(6, 3), E(7, 4)];
    var x := [E(2, 5), E(8, 9), E(3, 2), E(4, 7), E(5, 8), E(6, 3), E(7, 4)];
    var m1 := [E(3, 2), E(8, 9), E(2, 5), E(4, 7), E(5, 8), E(6, 3), E(7, 4)];
    var m2 := [E(3, 2), E(4, 7), E(2, 5), E(8, 9), E(5, 8), E(6, 3), E(7, 4)];
    assert Shrunk(h) == m0;
    assert Swap(m0, 1, 0) == x;
    assert Swap(x, 2, 0) == m1;
    assert SinkOnce(m0, 0) == (m1, 1);
    assert Swap(m1, 3, 1) == m2;
    assert SinkOnce(m1, 1) == (m2, 3);
    assert SinkOnce(m2, 3) == (m2, 3);
    assert m2[Parent(5)].weight > m2[5].weight;
  }

  lemma IndexedLaterPops()
    ensures Pop([E(3, 2), E(4, 7), E(2, 5), E(8, 9), E(5, 8), E(6, 3), E(7, 4)]).1
      == [E(7, 4), E(4, 7), E(2, 5), E(8, 9), E(5, 8), E(6, 3)]
    ensures Pop([E(7, 4), E(4, 7), E(2, 5), E(8, 9), E(5, 8), E(6, 3)]).0 == E(7, 4)
    ensures Pop([E(7, 4), E(4, 7), E(2, 5), E(8, 9), E(5, 8), E(6, 3)]).1[0] == E(6, 3)
  {
    var m2 := [E(3, 2), E(4, 7), E(2, 5), E(8, 9), E(5, 8), E(6, 3), E(7, 4)];
    var n0 := [E(7, 4), E(4, 7), E(2, 5), E(8, 9), E(5, 8), E(6, 3)];
    assert Shrunk(m2) == n0;
    assert SinkOnce(n0, 0) == (n0, 0);
    var o0 := [E(6, 3), E(4, 7), E(2, 5), E(8, 9), E(5, 8)];
    assert Shrunk(n0) == o0;
    assert SinkOnce(o0, 0) == (o0, 0);
  }

  // The heap test.

  /** Three edges from 0, a `pop`, and four edges from 7 into a heap of 8
      vertices started at 0: every added vertex has a position, the pop
      returns the weight-4 edge to 7 and gives 7 the position 8, and the
      four later edges leave one slot per vertex 4, 5, 1 and 2, lightest
      first. */
  method HeapScenario() returns (added: seq<int>, popped: Edge, after: seq<int>, last: seq<Edge>)
    ensures |added| == 8 && added[2] != -1 && added[4] != -1 && added[7] != -1
    ensures popped == Edge(0, 7, 4)
    ensures |after| == 8 && after[7] == 8 && after[2] != -1 && after[4] != -1
    ensures last == [Edge(7, 4, 4), Edge(7, 5, 4), Edge(7, 1, 5), Edge(0, 2, 5)]
  {
    var heap := new Heap(8, 0);
    FromZero(heap);
    added := heap.pos;
    popped := PopSeven(heap);
    after := heap.pos;
    FromSeven(heap);
    last := heap.edges;
  }

  /** The vertices the scenario touches, other than 0 and 3, 6. */
  ghost predicate Placed(pos: seq<int>, p1: int, p2: int, p4: int, p5: int, p7: int)
  {
    |pos| == 8 && pos[1] == p1 && pos[2] == p2 && pos[4] == p4 && pos[5] == p5 && pos[7] == p7
  }

  /** `add(Edge(0, 2, 5), 0)`, `add(Edge(0, 4, 5), 0)`, `add(Edge(0, 7, 4), 0)`. */
  method FromZero(heap: Heap)
    requires Indexed(heap.edges, heap.pos) && heap.edges == [] && Placed(heap.pos, -1, -1, -1, -1, -1)
    modifies heap
    ensures heap.edges == [Edge(0, 7, 4), Edge(0, 4, 5), Edge(0, 2, 5)]
    ensures Indexed(heap.edges, heap.pos) && Placed(heap.pos, -1, 2, 1, -1, 0)
  {
    heap.Add(Edge(0, 2, 5), 0);
    assert heap.edges == [Edge(0, 2, 5)] by {
      assert PromoteOnce([Edge(0, 2, 5)], 0) == ([Edge(0, 2, 5)], 0);
    }
    KeptAt(old(heap.pos), heap.edges, heap.pos, 1);
    KeptAt(old(heap.pos), heap.edges, heap.pos, 4);
    KeptAt(old(heap.pos), heap.edges, heap.pos, 5);
    KeptAt(old(heap.pos), heap.edges, heap.pos, 7);
    ghost var p1 := heap.pos;
    heap.Add(Edge(0, 4, 5), 0);
    assert heap.edges == [Edge(0, 2, 5), Edge(0, 4, 5)] by {
      assert PromoteOnce([Edge(0, 2, 5), Edge(0, 4, 5)], 1) == ([Edge(0, 2, 5), Edge(0, 4, 5)], 1);
    }
    KeptAt(p1, heap.edges, heap.pos, 1);
    KeptAt(p1, heap.edges, heap.pos, 5);
    KeptAt(p1, heap.edges, heap.pos, 7);
    ghost var p2 := heap.pos;
    heap.Add(Edge(0, 7, 4), 0);
    assert heap.edges == [Edge(0, 7, 4), Edge(0, 4, 5), Edge(0, 2, 5)] by {
      var s := [Edge(0, 2, 5), Edge(0, 4, 5), Edge(0, 7, 4)];
      var t := [Edge(0, 7, 4), Edge(0, 4, 5), Edge(0, 2, 5)];
      assert Swap(s, 2, 0) == t;
      assert PromoteOnce(s, 2) == (t, 0);
      assert PromoteOnce(t, 0) == (t, 0);
    }
    KeptAt(p2, heap.edges, heap.pos, 1);
    KeptAt(p2, heap.edges, heap.pos, 5);
    assert heap.pos[heap.edges[0].to] == 0 && heap.pos[heap.edges[1].to] == 1 && heap.pos[heap.edges[2].to] == 2;
  }

  /** `pop()`: the edge to 7 comes out, 7 gets the position 8, and nothing
      else moves. */
  method PopSeven(heap: Heap) returns (e: Edge)
    requires heap.edges == [Edge(0, 7, 4), Edge(0, 4, 5), Edge(0, 2, 5)]
    requires Indexed(heap.edges, heap.pos) && Placed(heap.pos, -1, 2, 1, -1, 0)
    modifies heap
    ensures e == Edge(0, 7, 4) && heap.edges == [Edge(0, 2, 5), Edge(0, 4, 5)]
    ensures Indexed(heap.edges, heap.pos) && Placed(heap.pos, -1, 0, 1, -1, 8)
  {
    e := heap.Pop();
    assert heap.edges == [Edge(0, 2, 5), Edge(0, 4, 5)] by {
      assert Shrunk([Edge(0, 7, 4), Edge(0, 4, 5), Edge(0, 2, 5)]) == [Edge(0, 2, 5), Edge(0, 4, 5)];
      assert SinkOnce([Edge(0, 2, 5), Edge(0, 4, 5)], 0) == ([Edge(0, 2, 5), Edge(0, 4, 5)], 0);
    }
    ghost var p0 := old(heap.pos)[7 := 8];
    KeptAt(p0, heap.edges, heap.pos, 1);
    KeptAt(p0, heap.edges, heap.pos, 5);
    KeptAt(p0, heap.edges, heap.pos, 7);
    assert heap.pos[heap.edges[0].to] == 0 && heap.pos[heap.edges[1].to] == 1;
  }

  /** `add(Edge(7, 1, 5), 7)` (a new vertex), `add(Edge(7, 2, 5), 7)` (no
      lighter), `add(Edge(7, 4, 4), 7)` (lighter), `add(Edge(7, 5, 4), 7)`
      (a new vertex). */
  method FromSeven(heap: Heap)
    requires heap.edges == [Edge(0, 2, 5), Edge(0, 4, 5)]
    requires Indexed(heap.edges, heap.pos) && Placed(heap.pos, -1, 0, 1, -1, 8)
    modifies heap
    ensures heap.edges == [Edge(7, 4, 4), Edge(7, 5, 4), Edge(7, 1, 5), Edge(0, 2, 5)]
  {
    heap.Add(Edge(7, 1, 5), 7);
    assert heap.edges == [Edge(0, 2, 5), Edge(0, 4, 5), Edge(7, 1, 5)] by {
      var s := [Edge(0, 2, 5), Edge(0, 4, 5), Edge(7, 1, 5)];
      assert PromoteOnce(s, 2) == (s, 2);
    }
    KeptAt(old(heap.pos), heap.edges, heap.pos, 5);
    assert heap.pos[heap.edges[0].to] == 0 && heap.pos[heap.edges[1].to] == 1;
    heap.Add(Edge(7, 2, 5), 7);
    ghost var p2 := heap.pos;
    heap.Add(Edge(7, 4, 4), 7);
    assert heap.edges == [Edge(7, 4, 4), Edge(0, 2, 5), Edge(7, 1, 5)] by {
      var s := [Edge(0, 2, 5), Edge(7, 4, 4), Edge(7, 1, 5)];
      var t := [Edge(7, 4, 4), Edge(0, 2, 5), Edge(7, 1, 5)];
      assert Swap(s, 1, 0) == t;
      assert PromoteOnce(s, 1) == (t, 0);
      assert PromoteOnce(t, 0) == (t, 0);
    }
    KeptAt(p2, heap.edges, heap.pos, 5);
    heap.Add(Edge(7, 5, 4), 7);
    assert heap.edges == [Edge(7, 4, 4), Edge(7, 5, 4), Edge(7, 1, 5), Edge(0, 2, 5)] by {
      var s := [Edge(7, 4, 4), Edge(0, 2, 5), Edge(7, 1, 5), Edge(7, 5, 4)];
      var t := [Edge(7, 4, 4), Edge(7, 5, 4), Edge(7, 1, 5), Edge(0, 2, 5)];
      assert Swap(s, 3, 1) == t;
      assert PromoteOnce(s, 3) == (t, 1);
      assert PromoteOnce(t, 1) == (t, 1);
    }
  }

  /** A vertex without a slot keeps its old position. */
  lemma KeptAt(pos0: seq<int>, edges: seq<Edge>, pos: seq<int>, v: int)
    requires Reindexed(pos0, edges, pos) && 0 <= v < |pos|
    requires forall k :: 0 <= k < |edges| ==> edges[k].to != v
    ensures pos[v] == pos0[v]
  {
    SlotsFit(edges, pos);
  }
}

/** mst/EagerPrim/main.cpp, the invariants of `EagerPrim`. */
module EagerPrimRounds {
  import opened Paths
  import opened Kruskal
  import opened LazyPrimHeap
  import opened LazyPrimRounds
  import opened EagerPrimHeap

  /** `e` is a graph edge, possibly with its ends swapped. */
  ghost predicate Joins(adj: seq<seq<Edge>>, e: Edge)
  {
    InGraph(adj, e) || InGraph(adj, Edge(e.to, e.from, e.weight))
  }

  ghost predicate AllJoin(adj: seq<seq<Edge>>, result: seq<Edge>)
  {
    forall i :: 0 <= i < |result| ==> Joins(adj, result[i])
  }

  /** The heap beside `attached`: the position map is in step with the slots,
      a vertex is attached exactly when its position is `|pos|`, and each
      slot holds a graph edge from an attached vertex to an unattached one. */
  ghost predicate Frontier(adj: seq<seq<Edge>>, attached: seq<bool>, edges: seq<Edge>, pos: seq<int>)
  {
    && |attached| == |adj| && |pos| == |adj| && Indexed(edges, pos)
    && (forall v :: 0 <= v < |pos| ==> (attached[v] <==> pos[v] == |pos|))
    && (forall k :: 0 <= k < |edges| ==>
          0 <= edges[k].from < |attached| && attached[edges[k].from] && !attached[edges[k].to] && Joins(adj, edges[k]))
  }

  /** Every edge from an attached vertex other than `skip` to an unattached
      one has given its far end a slot. */
  ghost predicate Seen(adj: seq<seq<Edge>>, attached: seq<bool>, pos: seq<int>, skip: int)
  {
    forall u, k :: 0 <= u < |adj| && 0 <= u < |attached| && u != skip && attached[u] && 0 <= k < |adj[u]| ==>
      (0 <= Other(adj[u][k], u) < |attached| && !attached[Other(adj[u][k], u)]) ==>
        0 <= Other(adj[u][k], u) < |pos| && pos[Other(adj[u][k], u)] != -1
  }

  /** The same for the first `i` edges at `vertex`. */
  ghost predicate SeenFrom(adj: seq<seq<Edge>>, attached: seq<bool>, vertex: int, i: int, pos: seq<int>)
  {
    0 <= vertex < |adj| && 0 <= i <= |adj[vertex]| &&
    forall k :: 0 <= k < i && 0 <= Other(adj[vertex][k], vertex) < |attached| && !attached[Other(adj[vertex][k], vertex)] ==>
      0 <= Other(adj[vertex][k], vertex) < |pos| && pos[Other(adj[vertex][k], vertex)] != -1
  }

  /** No vertex with a position loses it. */
  ghost predicate Grows(pos: seq<int>, pos': seq<int>)
  {
    |pos'| == |pos| && forall w :: 0 <= w < |pos| && pos[w] != -1 ==> pos'[w] != -1
  }

  /** The state at the top of each round of eager Prim. */
  ghost predicate Stage(adj: seq<seq<Edge>>, attached: seq<bool>, result: seq<Edge>, edges: seq<Edge>, pos: seq<int>, vertex: int)
  {
    && Tree(|adj|, attached, result) && AllJoin(adj, result)
    && 0 <= vertex < |adj| && attached[vertex]
    && Frontier(adj, attached, edges, pos) && Seen(adj, attached, pos, vertex)
  }

  /** A slot map in step with the slots moves only at slot vertices, so a
      position other than -1 stays other than -1. */
  lemma ReindexedGrows(pos0: seq<int>, edges: seq<Edge>, pos: seq<int>)
    requires Reindexed(pos0, edges, pos)
    ensures Grows(pos0, pos)
  {
  }

  /** Vertex 0 attached, nothing taken, the heap of a fresh `Heap(n, 0)`. */
  lemma StartStage(adj: seq<seq<Edge>>)
    requires |adj| > 0
    ensures Stage(adj, NoneAttached(|adj|)[0 := true], [], [], seq(|adj|, v => -1)[0 := |adj|], 0)
    ensures CountFalse(NoneAttached(|adj|)[0 := true]) == |adj| - 1
  {
    StartRound(adj);
  }

  /** `add(e, from)` for an edge at the attached vertex `from` whose far end
      is unattached keeps the heap beside `attached`, keeps every position
      other than -1, and gives the far end a position. */
  lemma AddKeeps(adj: seq<seq<Edge>>, attached: seq<bool>, edges: seq<Edge>, pos: seq<int>, e: Edge, from: int, edges': seq<Edge>, pos': seq<int>)
    requires Lists(adj) && Frontier(adj, attached, edges, pos)
    requires 0 <= from < |adj| && attached[from] && e in adj[from]
    requires 0 <= Other(e, from) < |adj| && !attached[Other(e, from)]
    requires Incident(e, from, |adj|)
    requires Indexed(edges, pos) && pos[OtherEnd(e, from)] != |pos|
    requires edges' == Added(edges, pos, e, from) && Reindexed(pos, edges', pos')
    ensures Frontier(adj, attached, edges', pos')
    ensures Grows(pos, pos') && pos'[Other(e, from)] != -1
  {
    var to := OtherEnd(e, from);
    var x := Edge(from, to, e.weight);
    AddedEntry(edges, pos, e, from);
    SlotsFit(edges', pos');
    assert Joins(adj, x) by {
      if from == e.from {
        assert x == e;
      } else {
        assert Edge(x.to, x.from, x.weight) == e;
      }
    }
    forall k | 0 <= k < |edges'|
      ensures 0 <= edges'[k].from < |attached| && attached[edges'[k].from] && !attached[edges'[k].to] && Joins(adj, edges'[k])
    {
      assert edges'[k] in edges';
      if edges'[k] != x {
        var j :| 0 <= j < |edges| && edges[j] == edges'[k];
      }
    }
    forall v | 0 <= v < |pos'| ensures attached[v] <==> pos'[v] == |pos'| {
      if pos'[v] != pos[v] {
        assert edges'[pos'[v]].to == v;
      }
    }
    assert to in Heads(edges');
    var j :| 0 <= j < |edges'| && edges'[j].to == to;
  }

  /** Offering the `i`th edge at `vertex` (adding it or passing over it)
      keeps every edge seen, and sees the `i`th one. */
  lemma SeenNext(adj: seq<seq<Edge>>, attached: seq<bool>, vertex: int, i: int, pos: seq<int>, pos': seq<int>)
    requires SeenFrom(adj, attached, vertex, i, pos) && Seen(adj, attached, pos, vertex)
    requires i < |adj[vertex]| && Grows(pos, pos')
    requires 0 <= Other(adj[vertex][i], vertex) < |attached| && !attached[Other(adj[vertex][i], vertex)] ==>
      0 <= Other(adj[vertex][i], vertex) < |pos'| && pos'[Other(adj[vertex][i], vertex)] != -1
    ensures SeenFrom(adj, attached, vertex, i + 1, pos') && Seen(adj, attached, pos', vertex)
  {
  }

  /** Once every edge at `vertex` is offered, every edge leaving the tree is
      seen. */
  lemma SeenAll(adj: seq<seq<Edge>>, attached: seq<bool>, vertex: int, pos: seq<int>)
    requires 0 <= vertex < |adj| && Seen(adj, attached, pos, vertex) && SeenFrom(adj, attached, vertex, |adj[vertex]|, pos)
    ensures Seen(adj, attached, pos, -1)
  {
  }

  /** With a vertex left to attach, the heap is not empty. */
  lemma FrontierNotEmpty(adj: seq<seq<Edge>>, attached: seq<bool>, edges: seq<Edge>, pos: seq<int>)
    requires Lists(adj) && Connected(adj) && attached != [] && attached[0]
    requires Frontier(adj, attached, edges, pos) && Seen(adj, attached, pos, -1)
    requires CountFalse(attached) != 0
    ensures |edges| > 0
  {
    CountFalseNone(attached);
    var unattached :| 0 <= unattached < |attached| && !attached[unattached];
    Crossing(adj, attached, unattached);
    var u, k :| 0 <= u < |attached| && attached[u] && 0 <= k < |adj[u]| && !attached[Other(adj[u][k], u)];
    assert Incident(adj[u][k], u, |adj|);
    var w := Other(adj[u][k], u);
    assert pos[w] != -1 && pos[w] != |pos|;
  }

  /** The root popped by either `pop` leads from an attached vertex to an
      unattached one, so it is never stale; attaching its head keeps the heap beside
      `attached`, and every edge leaving the tree other than at the head
      stays seen. */
  lemma PopKeeps(adj: seq<seq<Edge>>, attached: seq<bool>, edges: seq<Edge>, pos: seq<int>, e: Edge, edges': seq<Edge>, pos': seq<int>)
    requires Frontier(adj, attached, edges, pos) && |edges| > 0
    requires (e, edges') == PopFixed(edges) || (e, edges') == Pop(edges)
    requires Reindexed(pos[edges[0].to := |pos|], edges', pos')
    ensures 0 <= e.from < |attached| && 0 <= e.to < |attached| && attached[e.from] && !attached[e.to] && Joins(adj, e)
    ensures Frontier(adj, attached[e.to := true], edges', pos')
    ensures Seen(adj, attached, pos, -1) ==> Seen(adj, attached[e.to := true], pos', e.to)
  {
    var attached' := attached[e.to := true];
    var pos0 := pos[e.to := |pos|];
    PopEntry(edges, pos);
    SlotsFit(edges', pos');
    forall k | 0 <= k < |edges'|
      ensures 0 <= edges'[k].from < |attached'| && attached'[edges'[k].from] && !attached'[edges'[k].to] && Joins(adj, edges'[k])
    {
      assert edges'[k] in edges';
      var j :| 0 <= j < |edges| && edges[j] == edges'[k];
    }
    forall v | 0 <= v < |pos'| ensures attached'[v] <==> pos'[v] == |pos'| {
      if pos'[v] != pos0[v] {
        assert edges'[pos'[v]] in edges';
      }
    }
    ReindexedGrows(pos0, edges', pos');
  }

  /** Taking the popped edge into the result keeps the tree. */
  lemma TakeKeeps(adj: seq<seq<Edge>>, attached: seq<bool>, result: seq<Edge>, e: Edge)
    requires Tree(|adj|, attached, result) && AllJoin(adj, result)
    requires 0 <= e.from < |attached| && 0 <= e.to < |attached| && attached[e.from] && !attached[e.to] && Joins(adj, e)
    ensures Tree(|adj|, attached[e.to := true], result + [e]) && AllJoin(adj, result + [e])
    ensures CountFalse(attached[e.to := true]) == CountFalse(attached) - 1
  {
    TreeGrows(|adj|, attached, result, e, e.to);
    CountFalseSet(attached, e.to);
  }

  // `pop` on one slot.

  /** One vertex unattached: any two unattached vertices are that one. */
  lemma OneUnattached(attached: seq<bool>, a: int, b: int)
    requires CountFalse(attached) == 1
    requires 0 <= a < |attached| && !attached[a] && 0 <= b < |attached| && !attached[b]
    ensures a == b
  {
    CountFalseSet(attached, a);
    CountFalseNone(attached[a := true]);
  }

  /** In the last round one vertex is left, and every slot leads to an
      unattached vertex, each to its own: the heap holds one edge, and the
      `pop` as written reads slot 0 of an empty vector. */
  lemma LastPopSingleton(adj: seq<seq<Edge>>, attached: seq<bool>, edges: seq<Edge>, pos: seq<int>)
    requires Frontier(adj, attached, edges, pos) && CountFalse(attached) == 1
    ensures |edges| <= 1
  {
    if |edges| >= 2 {
      assert pos[edges[0].to] == 0 && pos[edges[1].to] == 1;
      OneUnattached(attached, edges[0].to, edges[1].to);
    }
  }
}


/** mst/EagerPrim/main.cpp, `EagerPrim`. */
module EagerPrim {
  import opened Paths
  import opened Kruskal
  import opened LazyPrimRounds
  import opened EagerPrimHeap
  import opened EagerPrimRounds

  /** The `for` loop of a round: every edge at `vertex` whose other end is
      unattached is added to the heap from `vertex`. */
  method OfferAll(adj: seq<seq<Edge>>, heap: Heap, attached: seq<bool>, vertex: int)
    requires Lists(adj) && Frontier(adj, attached, heap.edges, heap.pos)
    requires 0 <= vertex < |adj| && attached[vertex] && Seen(adj, attached, heap.pos, vertex)
    modifies heap
    ensures Frontier(adj, attached, heap.edges, heap.pos) && Seen(adj, attached, heap.pos, -1)
  {
    var edges := adj[vertex];
    for i := 0 to |edges|
      invariant Frontier(adj, attached, heap.edges, heap.pos)
      invariant Seen(adj, attached, heap.pos, vertex) && SeenFrom(adj, attached, vertex, i, heap.pos)
    {
      ghost var p := heap.pos;
      assert Incident(edges[i], vertex, |adj|);
      if attached[OtherEnd(edges[i], vertex)] == false {
        ghost var s := heap.edges;
        heap.Add(edges[i], vertex);
        AddKeeps(adj, attached, s, p, edges[i], vertex, heap.edges, heap.pos);
      }
      SeenNext(adj, attached, vertex, i, p, heap.pos);
    }
    SeenAll(adj, attached, vertex, heap.pos);
  }

  /** Eager Prim: from vertex 0, offer every edge to an unattached vertex to
      the heap, which keeps the lightest seen per vertex; pop the root with
      `pop` as written (the guarded `pop` on a one-slot heap), take the edge
      and attach its head, until every vertex is attached. The popped edge
      always leads to an unattached vertex, so the inner loop that skips
      stale edges never repeats. The edges taken are graph edges (oriented
      away from the tree), form a forest, reach every vertex from vertex 0,
      and number one fewer than the vertices. */
  method EagerPrim(graph: Graph) returns (result: seq<Edge>)
    requires graph.Valid() && |graph.adj| >= 2 && Connected(graph.adj)
    ensures |result| == |graph.adj| - 1
    ensures Inside(|graph.adj|, result) && Grown(|graph.adj|, result)
    ensures forall v :: 0 <= v < |graph.adj| ==> Reachable(Adjacency(|graph.adj|, result), 0, v)
    ensures AllJoin(graph.adj, result)
  {
    var adj := graph.adj;
    var n := |adj|;
    assert Lists(adj);
    result := [];
    var vertex := 0;
    var heap := new Heap(n, vertex);
    var attached := NoneAttached(n)[vertex := true];
    var counter := n - 1;
    StartStage(adj);
    while counter != 0
      invariant Stage(adj, attached, result, heap.edges, heap.pos, vertex)
      invariant counter == CountFalse(attached)
      decreases counter
    {
      OfferAll(adj, heap, attached, vertex);
      FrontierNotEmpty(adj, attached, heap.edges, heap.pos);
      ghost var (s, p) := (heap.edges, heap.pos);
      var e;
      if |heap.edges| >= 2 {
        e := heap.Pop();
      } else {
        // On one slot, line 288 would index the emptied vector. The sink has
        // nothing to do there, so the guarded pop differs only in skipping
        // that write.
        e := heap.PopLightest();
      }
      PopKeeps(adj, attached, s, p, e, heap.edges, heap.pos);
      if attached[e.from] && attached[e.to] {
        assert false;
      }
      counter := counter - 1;
      TakeKeeps(adj, attached, result, e);
      result := result + [e];
      vertex := if attached[e.to] then e.from else e.to;
      attached := attached[vertex := true];
    }
    CountFalseNone(attached);
  }
}
