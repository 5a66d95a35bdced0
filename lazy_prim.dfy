/** mst/LazyPrim/main.cpp: a binary min-heap of edges kept in a vector, and
    lazy Prim, which offers every edge leaving the tree to the heap and skips
    the stale ones it pops. The edge and graph types are the same as in
    mst/Kruskal/main.cpp and are taken from that model. */
module LazyPrimHeap {
  import opened Paths
  import opened Kruskal

  // Slots.

  function Left(position: nat): nat { position * 2 + 1 }

  function Right(position: nat): nat { position * 2 + 2 }

  /** `parentIndex`: `(position - 1) / 2` with C's division, which truncates
      toward zero, so the parent of the root is the root. */
  function Parent(position: nat): (r: nat)
    ensures position == 0 ==> r == 0
    ensures position > 0 ==> r < position && (position == Left(r) || position == Right(r))
  {
    if position == 0 then 0 else (position - 1) / 2
  }

  lemma ParentOfChild(p: nat)
    ensures Parent(Left(p)) == p && Parent(Right(p)) == p
  {
  }

  /** `std::swap` of two slots. */
  function Swap(s: seq<Edge>, i: nat, j: nat): (r: seq<Edge>)
    requires i < |s| && j < |s|
    ensures |r| == |s|
    ensures r[i] == s[j] && r[j] == s[i] && forall k :: 0 <= k < |s| && k != i && k != j ==> r[k] == s[k]
  {
    s[i := s[j]][j := s[i]]
  }

  // The heap as written.

  /** `sinkOnce(position)`: the left child comes up when lighter than the
      slot; then the right child comes up when lighter than whatever the slot
      now holds. The slot ends with the lightest of the three; the position
      returned is the first child that moved, or `position` when nothing did.
      When both move, the old slot goes left and the old left child goes
      right. */
  function SinkOnce(s: seq<Edge>, position: nat): (r: (seq<Edge>, nat))
    ensures |r.0| == |s|
    ensures r.1 == position <==> r.0 == s
    ensures r.1 != position ==> (r.1 == Left(position) || r.1 == Right(position)) && r.1 < |s|
    ensures position < |s| ==>
      && (Left(position) < |s| ==> r.0[position].weight <= r.0[Left(position)].weight)
      && (Right(position) < |s| ==> r.0[position].weight <= r.0[Right(position)].weight)
    ensures forall k :: 0 <= k < |s| && k != position && k != Left(position) && k != Right(position) ==> r.0[k] == s[k]
  {
    var l, rt := Left(position), Right(position);
    var (s1, current) := if l < |s| && s[l].weight < s[position].weight then (Swap(s, l, position), l) else (s, position);
    if rt < |s| && s1[rt].weight < s1[position].weight then
      (Swap(s1, rt, position), if position == current then rt else current)
    else (s1, current)
  }

  /** `sink(position)`: `sinkOnce` until it reports no move. */
  function Sink(s: seq<Edge>, position: nat): (r: (seq<Edge>, nat))
    ensures |r.0| == |s|
    decreases |s| - position
  {
    var (s', next) := SinkOnce(s, position);
    if next == position then (s', position) else Sink(s', next)
  }

  /** `promoteOnce(position)`: the slot goes up when strictly lighter than its
      parent, and the parent's position is returned; otherwise `position`
      is. The root never moves. */
  function PromoteOnce(s: seq<Edge>, position: nat): (r: (seq<Edge>, nat))
    requires position < |s|
    ensures |r.0| == |s|
    ensures r.1 != position <==> s[position].weight < s[Parent(position)].weight
    ensures r.1 != position ==> r.1 == Parent(position) && r.1 < position && r.0 == Swap(s, position, r.1)
    ensures r.1 == position ==> r.0 == s
  {
    if s[position].weight < s[Parent(position)].weight then (Swap(s, position, Parent(position)), Parent(position))
    else (s, position)
  }

  /** `promote(position)`: `promoteOnce` until it reports no move. */
  function Promote(s: seq<Edge>, position: nat): (r: (seq<Edge>, nat))
    requires position < |s|
    ensures |r.0| == |s|
    decreases position
  {
    var (s', next) := PromoteOnce(s, position);
    if next == position then (s', position) else Promote(s', next)
  }

  /** `add(edge)`: appended, then promoted. */
  function Add(s: seq<Edge>, e: Edge): (r: seq<Edge>)
    ensures |r| == |s| + 1
  {
    Promote(s + [e], |s|).0
  }

  /** `pop()`: the root is returned; the last slot moves to the root,
      the vector shrinks by one, and the root sinks. */
  function Pop(s: seq<Edge>): (r: (Edge, seq<Edge>))
    requires |s| > 0
    ensures r.0 == s[0] && |r.1| == |s| - 1
  {
    (s[0], Sink(Shrunk(s), 0).0)
  }

  /** The last slot moved to the root, and the vector one shorter. */
  function Shrunk(s: seq<Edge>): (r: seq<Edge>)
    requires |s| > 0
    ensures |r| == |s| - 1
    ensures |s| > 1 ==> r[0] == s[|s| - 1]
    ensures forall i :: 0 < i < |r| ==> r[i] == s[i]
  {
    s[0 := s[|s| - 1]][..|s| - 1]
  }

  lemma ShrunkPermutes(s: seq<Edge>)
    requires |s| > 0
    ensures multiset(Shrunk(s)) + multiset{s[0]} == multiset(s)
  {
    MoveLastToFront(s);
  }

  lemma MoveLastToFront<T>(s: seq<T>)
    requires |s| > 0
    ensures multiset(s[0 := s[|s| - 1]][..|s| - 1]) + multiset{s[0]} == multiset(s)
  {
    if |s| > 1 {
      var middle := s[1..|s| - 1];
      assert s == [s[0]] + middle + [s[|s| - 1]];
      assert s[0 := s[|s| - 1]][..|s| - 1] == [s[|s| - 1]] + middle;
    }
  }

  // What the heap holds.

  lemma SwapPermutes(s: seq<Edge>, i: nat, j: nat)
    requires i < |s| && j < |s|
    ensures multiset(Swap(s, i, j)) == multiset(s)
  {
  }

  lemma SinkOncePermutes(s: seq<Edge>, position: nat)
    ensures multiset(SinkOnce(s, position).0) == multiset(s)
  {
    var l, rt := Left(position), Right(position);
    var (s1, current) := if l < |s| && s[l].weight < s[position].weight then (Swap(s, l, position), l) else (s, position);
    if l < |s| && s[l].weight < s[position].weight {
      SwapPermutes(s, l, position);
    }
    if rt < |s| && s1[rt].weight < s1[position].weight {
      SwapPermutes(s1, rt, position);
    }
  }

  lemma {:induction false} SinkPermutes(s: seq<Edge>, position: nat)
    ensures multiset(Sink(s, position).0) == multiset(s)
    decreases |s| - position
  {
    var (s', next) := SinkOnce(s, position);
    SinkOncePermutes(s, position);
    if next != position {
      SinkPermutes(s', next);
    }
  }

  lemma {:induction false} PromotePermutes(s: seq<Edge>, position: nat)
    requires position < |s|
    ensures multiset(Promote(s, position).0) == multiset(s)
    decreases position
  {
    var (s', next) := PromoteOnce(s, position);
    if next != position {
      SwapPermutes(s, position, next);
      PromotePermutes(s', next);
    }
  }

  /** `add` puts the edge in and takes nothing out. */
  lemma AddPermutes(s: seq<Edge>, e: Edge)
    ensures multiset(Add(s, e)) == multiset(s) + multiset{e}
  {
    PromotePermutes(s + [e], |s|);
  }

  /** `pop` takes out the edge it returns and nothing else. */
  lemma PopPermutes(s: seq<Edge>)
    requires |s| > 0
    ensures Pop(s).0 in multiset(s) && multiset(Pop(s).1) == multiset(s) - multiset{Pop(s).0}
  {
    ShrunkPermutes(s);
    SinkPermutes(Shrunk(s), 0);
  }

  /** `Heap`: `edges` is `m_Edges`. */
  class Heap {
    var edges: seq<Edge>

    /** `Heap()`: empty. */
    constructor ()
      ensures edges == []
    {
      edges := [];
    }

    method SwapSlots(i: nat, j: nat)
      requires i < |edges| && j < |edges|
      modifies this
      ensures edges == Swap(old(edges), i, j)
    {
      edges := edges[i := edges[j]][j := edges[i]];
    }

    method SinkOnceAt(position: nat) returns (current: nat)
      modifies this
      ensures (edges, current) == SinkOnce(old(edges), position)
    {
      current := position;
      if Left(position) < |edges| {
        if edges[Left(position)].weight < edges[position].weight {
          SwapSlots(Left(position), position);
          current := Left(position);
        }
      }
      if Right(position) < |edges| {
        if edges[Right(position)].weight < edges[position].weight {
          SwapSlots(Right(position), position);
          if position == current {
            current := Right(position);
          }
        }
      }
    }

    method PromoteOnceAt(position: nat) returns (next: nat)
      requires position < |edges|
      modifies this
      ensures (edges, next) == PromoteOnce(old(edges), position)
    {
      if edges[position].weight < edges[Parent(position)].weight {
        SwapSlots(position, Parent(position));
        return Parent(position);
      }
      return position;
    }

    method SinkAt(position: nat) returns (r: nat)
      modifies this
      ensures (edges, r) == Sink(old(edges), position)
    {
      var p: nat := position;
      var next: nat := SinkOnceAt(p);
      while p != next
        invariant next != p ==> p < next < |edges| && Sink(old(edges), position) == Sink(edges, next)
        invariant next == p ==> Sink(old(edges), position) == (edges, p)
        decreases |edges| - p
      {
        p := next;
        next := SinkOnceAt(p);
      }
      return p;
    }

    method PromoteAt(position: nat) returns (r: nat)
      requires position < |edges|
      modifies this
      ensures (edges, r) == Promote(old(edges), position)
    {
      var p: nat := position;
      var next: nat := PromoteOnceAt(p);
      while p != next
        invariant next < |edges|
        invariant next != p ==> next < p && Promote(old(edges), position) == Promote(edges, next)
        invariant next == p ==> Promote(old(edges), position) == (edges, p)
        decreases p
      {
        p := next;
        next := PromoteOnceAt(p);
      }
      return p;
    }

    method Push(e: Edge)
      modifies this
      ensures edges == Add(old(edges), e)
    {
      var pos := |edges|;
      edges := edges + [e];
      var _ := PromoteAt(pos);
    }

    method PopMin() returns (e: Edge)
      requires |edges| > 0
      modifies this
      ensures (e, edges) == Pop(old(edges))
    {
      e := edges[0];
      edges := edges[0 := edges[|edges| - 1]];
      edges := edges[..|edges| - 1];
      var _ := SinkAt(0);
    }

    /** `sinkOnce` as intended: only the lighter child comes up. */
    method SinkOnceFixedAt(position: nat) returns (current: nat)
      modifies this
      ensures (edges, current) == SinkOnceFixed(old(edges), position)
    {
      current := position;
      if Left(position) < |edges| {
        var lighter := Left(position);
        if Right(position) < |edges| && edges[Right(position)].weight < edges[Left(position)].weight {
          lighter := Right(position);
        }
        if edges[lighter].weight < edges[position].weight {
          SwapSlots(position, lighter);
          current := lighter;
        }
      }
    }

    method SinkFixedAt(position: nat)
      modifies this
      ensures edges == SinkFixed(old(edges), position)
    {
      var p: nat := position;
      var next: nat := SinkOnceFixedAt(p);
      while p != next
        invariant next != p ==> p < next < |edges| && SinkFixed(old(edges), position) == SinkFixed(edges, next)
        invariant next == p ==> SinkFixed(old(edges), position) == edges
        decreases |edges| - p
      {
        p := next;
        next := SinkOnceFixedAt(p);
      }
    }

    /** `pop` as intended. */
    method PopLightest() returns (e: Edge)
      requires |edges| > 0
      modifies this
      ensures (e, edges) == PopFixed(old(edges))
    {
      e := edges[0];
      edges := edges[0 := edges[|edges| - 1]];
      edges := edges[..|edges| - 1];
      SinkFixedAt(0);
    }
  }

  // Heap order.

  /** No slot is lighter than its parent. */
  ghost predicate HeapOrdered(s: seq<Edge>)
  {
    forall i :: 0 < i < |s| ==> s[Parent(i)].weight <= s[i].weight
  }

  /** In order except at `p`, which may be lighter than its parent; its
      parent is no heavier than its children. */
  ghost predicate RisingAt(s: seq<Edge>, p: nat)
  {
    && p < |s|
    && (forall i :: 0 < i < |s| && i != p ==> s[Parent(i)].weight <= s[i].weight)
    && (0 < p && Left(p) < |s| ==> s[Parent(p)].weight <= s[Left(p)].weight)
    && (0 < p && Right(p) < |s| ==> s[Parent(p)].weight <= s[Right(p)].weight)
  }

  lemma {:induction false} PromoteOrders(s: seq<Edge>, p: nat)
    requires RisingAt(s, p)
    ensures HeapOrdered(Promote(s, p).0)
    decreases p
  {
    var (s', next) := PromoteOnce(s, p);
    if next != p {
      ParentOfChild(p);
      ParentOfChild(next);
      forall i | 0 < i < |s'| && i != next ensures s'[Parent(i)].weight <= s'[i].weight {
        if Parent(i) == p {
          assert i == Left(p) || i == Right(p);
        }
      }
      PromoteOrders(s', next);
    }
  }

  /** `add` keeps heap order. */
  lemma AddOrdered(s: seq<Edge>, e: Edge)
    requires HeapOrdered(s)
    ensures HeapOrdered(Add(s, e))
  {
    var s' := s + [e];
    forall i | 0 < i < |s'| && i != |s| ensures s'[Parent(i)].weight <= s'[i].weight {
      assert s'[i] == s[i] && s'[Parent(i)] == s[Parent(i)];
    }
    PromoteOrders(s', |s|);
  }

  /** In an ordered heap the root is a lightest edge, so `pop` returns one. */
  lemma {:induction false} RootLightest(s: seq<Edge>, i: nat)
    requires HeapOrdered(s) && i < |s|
    ensures s[0].weight <= s[i].weight
    decreases i
  {
    if i > 0 {
      RootLightest(s, Parent(i));
    }
  }

  // Where `sinkOnce` goes wrong.

  function W(weight: int): Edge { Edge(0, 1, weight) }

  /** Adding weights 9, 2, 3, 7, 8, 2, 4, 5 to an empty heap gives an ordered
      heap; the first `pop` leaves the 3 under the 5, and the third `pop`
      returns 4 while 3 is still in the heap. */
  lemma PopBreaksOrder()
    ensures var h := Add(Add(Add(Add(Add(Add(Add(Add([], W(9)), W(2)), W(3)), W(7)), W(8)), W(2)), W(4)), W(5));
      && h == [W(2), W(5), W(2), W(7), W(8), W(3), W(4), W(9)] && HeapOrdered(h)
      && Pop(h).1 == [W(2), W(7), W(5), W(9), W(8), W(3), W(4)] && !HeapOrdered(Pop(h).1)
      && Pop(Pop(h).1).1 == [W(4), W(7), W(5), W(9), W(8), W(3)]
      && Pop(Pop(Pop(h).1).1).0 == W(4) && W(3) in Pop(Pop(Pop(h).1).1).1
  {
    AddsFirst();
    AddsLast();
    FirstPop();
    LaterPops();
  }

  lemma AddsFirst()
    ensures Add(Add(Add(Add([], W(9)), W(2)), W(3)), W(7)) == [W(2), W(7), W(3), W(9)]
  {
    assert Add([], W(9)) == [W(9)] by {
      assert PromoteOnce([W(9)], 0) == ([W(9)], 0);
    }
    assert Add([W(9)], W(2)) == [W(2), W(9)] by {
      assert Swap([W(9), W(2)], 1, 0) == [W(2), W(9)];
      assert PromoteOnce([W(9), W(2)], 1) == ([W(2), W(9)], 0);
      assert PromoteOnce([W(2), W(9)], 0) == ([W(2), W(9)], 0);
    }
    assert Add([W(2), W(9)], W(3)) == [W(2), W(9), W(3)] by {
      assert PromoteOnce([W(2), W(9), W(3)], 2) == ([W(2), W(9), W(3)], 2);
    }
    assert Add([W(2), W(9), W(3)], W(7)) == [W(2), W(7), W(3), W(9)] by {
      assert Swap([W(2), W(9), W(3), W(7)], 3, 1) == [W(2), W(7), W(3), W(9)];
      assert PromoteOnce([W(2), W(9), W(3), W(7)], 3) == ([W(2), W(7), W(3), W(9)], 1);
      assert PromoteOnce([W(2), W(7), W(3), W(9)], 1) == ([W(2), W(7), W(3), W(9)], 1);
    }
  }

  lemma AddsLast()
    ensures Add(Add(Add(Add([W(2), W(7), W(3), W(9)], W(8)), W(2)), W(4)), W(5)) == [W(2), W(5), W(2), W(7), W(8), W(3), W(4), W(9)]
    ensures HeapOrdered([W(2), W(5), W(2), W(7), W(8), W(3), W(4), W(9)])
  {
    assert Add([W(2), W(7), W(3), W(9)], W(8)) == [W(2), W(7), W(3), W(9), W(8)] by {
      assert PromoteOnce([W(2), W(7), W(3), W(9), W(8)], 4) == ([W(2), W(7), W(3), W(9), W(8)], 4);
    }
    assert Add([W(2), W(7), W(3), W(9), W(8)], W(2)) == [W(2), W(7), W(2), W(9), W(8), W(3)] by {
      assert Swap([W(2), W(7), W(3), W(9), W(8), W(2)], 5, 2) == [W(2), W(7), W(2), W(9), W(8), W(3)];
      assert PromoteOnce([W(2), W(7), W(3), W(9), W(8), W(2)], 5) == ([W(2), W(7), W(2), W(9), W(8), W(3)], 2);
      assert PromoteOnce([W(2), W(7), W(2), W(9), W(8), W(3)], 2) == ([W(2), W(7), W(2), W(9), W(8), W(3)], 2);
    }
    assert Add([W(2), W(7), W(2), W(9), W(8), W(3)], W(4)) == [W(2), W(7), W(2), W(9), W(8), W(3), W(4)] by {
      assert PromoteOnce([W(2), W(7), W(2), W(9), W(8), W(3), W(4)], 6) == ([W(2), W(7), W(2), W(9), W(8), W(3), W(4)], 6);
    }
    LastAdd();
    var h := [W(2), W(5), W(2), W(7), W(8), W(3), W(4), W(9)];
    forall i | 0 < i < |h| ensures h[Parent(i)].weight <= h[i].weight {
      assert i in {1, 2, 3, 4, 5, 6, 7};
    }
  }

  lemma LastAdd()
    ensures Add([W(2), W(7), W(2), W(9), W(8), W(3), W(4)], W(5)) == [W(2), W(5), W(2), W(7), W(8), W(3), W(4), W(9)]
  {
    var a := [W(2), W(7), W(2), W(9), W(8), W(3), W(4), W(5)];
    var b := [W(2), W(7), W(2), W(5), W(8), W(3), W(4), W(9)];
    var c := [W(2), W(5), W(2), W(7), W(8), W(3), W(4), W(9)];
    assert Swap(a, 7, 3) == b;
    assert Swap(b, 3, 1) == c;
    assert PromoteOnce(a, 7) == (b, 3);
    assert PromoteOnce(b, 3) == (c, 1);
    assert PromoteOnce(c, 1) == (c, 1);
  }

  /** The first `pop`: both children rise at the root. */
  lemma FirstPop()
    ensures Pop([W(2), W(5), W(2), W(7), W(8), W(3), W(4), W(9)]).1 == [W(2), W(7), W(5), W(9), W(8), W(3), W(4)]
    ensures !HeapOrdered([W(2), W(7), W(5), W(9), W(8), W(3), W(4)])
  {
    var h := [W(2), W(5), W(2), W(7), W(8), W(3), W(4), W(9)];
    var m0 := [W(9), W(5), W(2), W(7), W(8), W(3), W(4)];
    var m1 := [W(2), W(9), W(5), W(7), W(8), W(3), W(4)];
    var m2 := [W(2), W(7), W(5), W(9), W(8), W(3), W(4)];
    assert Shrunk(h) == m0;
    var x := [W(5), W(9), W(2), W(7), W(8), W(3), W(4)];
    assert Swap(m0, 1, 0) == x;
    assert Swap(x, 2, 0) == m1;
    assert SinkOnce(m0, 0) == (m1, 1);
    assert Swap(m1, 3, 1) == m2;
    assert SinkOnce(m1, 1) == (m2, 3);
    assert SinkOnce(m2, 3) == (m2, 3);
    assert m2[Parent(5)].weight > m2[5].weight;
  }

  /** The second `pop` moves nothing; the third returns the root, 4, and
      leaves the 3 on top. */
  lemma LaterPops()
    ensures Pop([W(2), W(7), W(5), W(9), W(8), W(3), W(4)]).1 == [W(4), W(7), W(5), W(9), W(8), W(3)]
    ensures Pop([W(4), W(7), W(5), W(9), W(8), W(3)]).0 == W(4)
    ensures Pop([W(4), W(7), W(5), W(9), W(8), W(3)]).1[0] == W(3)
  {
    var m2 := [W(2), W(7), W(5), W(9), W(8), W(3), W(4)];
    var n0 := [W(4), W(7), W(5), W(9), W(8), W(3)];
    assert Shrunk(m2) == n0;
    assert SinkOnce(n0, 0) == (n0, 0);
    var o0 := [W(3), W(7), W(5), W(9), W(8)];
    assert Shrunk(n0) == o0;
    assert SinkOnce(o0, 0) == (o0, 0);
  }

  // The sink intended.

  /** `sinkOnce` moving only the lighter child up, when it is lighter than
      the slot. */
  function SinkOnceFixed(s: seq<Edge>, position: nat): (r: (seq<Edge>, nat))
    ensures |r.0| == |s|
    ensures r.1 == position <==> r.0 == s
    ensures r.1 != position ==> (r.1 == Left(position) || r.1 == Right(position)) && r.1 < |s| && r.0 == Swap(s, position, r.1)
    ensures r.1 == position && position < |s| ==>
      && (Left(position) < |s| ==> s[position].weight <= s[Left(position)].weight)
      && (Right(position) < |s| ==> s[position].weight <= s[Right(position)].weight)
    ensures r.1 != position ==>
      && s[r.1].weight < s[position].weight
      && (Left(position) < |s| ==> s[r.1].weight <= s[Left(position)].weight)
      && (Right(position) < |s| ==> s[r.1].weight <= s[Right(position)].weight)
  {
    var l, rt := Left(position), Right(position);
    if l >= |s| then (s, position)
    else
      var m := if rt < |s| && s[rt].weight < s[l].weight then rt else l;
      if s[m].weight < s[position].weight then (Swap(s, position, m), m) else (s, position)
  }

  function SinkFixed(s: seq<Edge>, position: nat): (r: seq<Edge>)
    ensures |r| == |s|
    decreases |s| - position
  {
    var (s', next) := SinkOnceFixed(s, position);
    if next == position then s' else SinkFixed(s', next)
  }

  /** `pop` with the intended sink. */
  function PopFixed(s: seq<Edge>): (r: (Edge, seq<Edge>))
    requires |s| > 0
    ensures r.0 == s[0] && |r.1| == |s| - 1
  {
    (s[0], SinkFixed(Shrunk(s), 0))
  }

  /** In order except below `p`: `p` may be heavier than its children, and its
      parent is no heavier than them. */
  ghost predicate SinkingAt(s: seq<Edge>, p: nat)
  {
    && (forall i :: 0 < i < |s| && Parent(i) != p ==> s[Parent(i)].weight <= s[i].weight)
    && (0 < p && Left(p) < |s| ==> s[Parent(p)].weight <= s[Left(p)].weight)
    && (0 < p && Right(p) < |s| ==> s[Parent(p)].weight <= s[Right(p)].weight)
  }

  lemma {:induction false} SinkFixedOrders(s: seq<Edge>, p: nat)
    requires SinkingAt(s, p)
    ensures HeapOrdered(SinkFixed(s, p))
    decreases |s| - p
  {
    var (s', next) := SinkOnceFixed(s, p);
    ParentOfChild(p);
    if next != p {
      ParentOfChild(next);
      forall i | 0 < i < |s'| && Parent(i) != next ensures s'[Parent(i)].weight <= s'[i].weight {
        if Parent(i) == p {
          assert i == Left(p) || i == Right(p);
        }
      }
      SinkFixedOrders(s', next);
    } else {
      forall i | 0 < i < |s| && Parent(i) == p ensures s[Parent(i)].weight <= s[i].weight {
        assert i == Left(p) || i == Right(p);
      }
    }
  }

  /** With the intended sink, `pop` returns a lightest edge and keeps heap
      order. */
  lemma PopFixedOrdered(s: seq<Edge>)
    requires HeapOrdered(s) && |s| > 0
    ensures HeapOrdered(PopFixed(s).1)
    ensures forall i :: 0 <= i < |s| ==> PopFixed(s).0.weight <= s[i].weight
  {
    var moved := Shrunk(s);
    forall i | 0 < i < |moved| && Parent(i) != 0 ensures moved[Parent(i)].weight <= moved[i].weight {
      assert moved[i] == s[i] && moved[Parent(i)] == s[Parent(i)];
    }
    SinkFixedOrders(moved, 0);
    forall i | 0 <= i < |s| ensures s[0].weight <= s[i].weight {
      RootLightest(s, i);
    }
  }

  lemma SinkOnceFixedPermutes(s: seq<Edge>, position: nat)
    ensures multiset(SinkOnceFixed(s, position).0) == multiset(s)
  {
    var (s', next) := SinkOnceFixed(s, position);
    if next != position {
      SwapPermutes(s, position, next);
    }
  }

  lemma {:induction false} SinkFixedPermutes(s: seq<Edge>, position: nat)
    ensures multiset(SinkFixed(s, position)) == multiset(s)
    decreases |s| - position
  {
    var (s', next) := SinkOnceFixed(s, position);
    SinkOnceFixedPermutes(s, position);
    if next != position {
      SinkFixedPermutes(s', next);
    }
  }

  /** The intended `pop` takes out the edge it returns and nothing else. */
  lemma PopFixedPermutes(s: seq<Edge>)
    requires |s| > 0
    ensures PopFixed(s).0 in multiset(s) && multiset(PopFixed(s).1) == multiset(s) - multiset{PopFixed(s).0}
  {
    ShrunkPermutes(s);
    SinkFixedPermutes(Shrunk(s), 0);
  }
}

module LazyPrimRounds {
  import opened Paths
  import opened Kruskal
  import opened LazyPrimHeap

  /** Every vertex is reachable from vertex 0. */
  ghost predicate Connected(adj: seq<seq<Edge>>)
  {
    forall v :: 0 <= v < |adj| ==> Reachable(Neighbours(adj), 0, v)
  }

  /** `e` is held in some adjacency list of the graph. */
  ghost predicate InGraph(adj: seq<seq<Edge>>, e: Edge)
  {
    exists u :: 0 <= u < |adj| && e in adj[u]
  }

  /** Both ends attached: popping it adds nothing. */
  predicate Stale(attached: seq<bool>, e: Edge)
  {
    0 <= e.from < |attached| && 0 <= e.to < |attached| && attached[e.from] && attached[e.to]
  }

  /** Every heap edge is a graph edge with an attached end. */
  ghost predicate Offered(adj: seq<seq<Edge>>, attached: seq<bool>, m: multiset<Edge>)
  {
    forall e :: e in m ==>
      && 0 <= e.from < |attached| && 0 <= e.to < |attached|
      && (attached[e.from] || attached[e.to]) && InGraph(adj, e)
  }

  /** Every edge leaving an attached vertex other than `skip` for an
      unattached one is in the heap. */
  ghost predicate Covered(adj: seq<seq<Edge>>, attached: seq<bool>, m: multiset<Edge>, skip: int)
  {
    forall u, k :: 0 <= u < |adj| && 0 <= u < |attached| && u != skip && attached[u] && 0 <= k < |adj[u]| ==>
      (0 <= Other(adj[u][k], u) < |attached| && !attached[Other(adj[u][k], u)]) ==> adj[u][k] in m
  }

  /** The edges taken so far join the attached vertices into a tree:
      they form a forest, join only attached vertices, reach every attached
      vertex from vertex 0, and number one fewer than the attached
      vertices. */
  ghost predicate Tree(n: nat, attached: seq<bool>, result: seq<Edge>)
  {
    && |attached| == n && n > 0 && attached[0]
    && Inside(n, result) && Grown(n, result)
    && EndsAttached(attached, result)
    && ReachAll(Adjacency(n, result), attached)
    && |result| + CountFalse(attached) == n - 1
  }

  /** Every taken edge joins two attached vertices. */
  ghost predicate EndsAttached(attached: seq<bool>, result: seq<Edge>)
  {
    forall i :: 0 <= i < |result| ==> 0 <= result[i].from < |attached| && 0 <= result[i].to < |attached| && attached[result[i].from] && attached[result[i].to]
  }

  lemma EndsAttachedAppend(attached: seq<bool>, result: seq<Edge>, e: Edge, v: int)
    requires EndsAttached(attached, result) && 0 <= v < |attached|
    requires 0 <= e.from < |attached| && 0 <= e.to < |attached|
    requires (attached[e.from] && v == e.to) || (attached[e.to] && v == e.from)
    ensures EndsAttached(attached[v := true], result + [e])
  {
  }

  /** Vertex 0 reaches every attached vertex. */
  ghost predicate ReachAll(adj: seq<seq<int>>, attached: seq<bool>)
  {
    forall v :: 0 <= v < |attached| && attached[v] ==> Reachable(adj, 0, v)
  }

  lemma {:induction false} CountFalseNone(m: seq<bool>)
    ensures CountFalse(m) == 0 <==> forall u :: 0 <= u < |m| ==> m[u]
  {
    if m != [] {
      CountFalseNone(m[..|m| - 1]);
      if CountFalse(m) == 0 {
        forall u | 0 <= u < |m| ensures m[u] {
          if u < |m| - 1 {
            assert m[..|m| - 1][u] == m[u];
          }
        }
      }
    }
  }

  /** `std::vector<bool>(n, false)`. */
  function NoneAttached(n: nat): (r: seq<bool>)
    ensures |r| == n && forall v :: 0 <= v < n ==> !r[v]
  {
    seq(n, _ => false)
  }

  lemma {:induction false} CountFalseAll(n: nat)
    ensures CountFalse(NoneAttached(n)) == n
  {
    if n > 0 {
      assert NoneAttached(n)[..n - 1] == NoneAttached(n - 1);
      CountFalseAll(n - 1);
    }
  }

  /** Vertex 0 alone is attached, by no edges. */
  lemma StartTree(n: nat)
    requires n > 0
    ensures Tree(n, NoneAttached(n)[0 := true], [])
  {
    var attached := NoneAttached(n)[0 := true];
    CountFalseAll(n);
    CountFalseSet(NoneAttached(n), 0);
    forall v | 0 <= v < n && attached[v] ensures Reachable(Adjacency(n, []), 0, v) {
      ReachRefl(Adjacency(n, []), 0);
    }
  }

  /** In a connected graph, while a vertex is unattached some edge leaves the
      attached ones. */
  lemma Crossing(adj: seq<seq<Edge>>, attached: seq<bool>, v: int)
    requires Lists(adj) && Connected(adj) && |attached| == |adj|
    requires 0 <= v < |attached| && !attached[v] && attached[0]
    ensures exists u, k :: 0 <= u < |attached| && attached[u] && 0 <= k < |adj[u]| && !attached[Other(adj[u][k], u)]
  {
    var nb := Neighbours(adj);
    if !exists u, k :: 0 <= u < |attached| && attached[u] && 0 <= k < |adj[u]| && !attached[Other(adj[u][k], u)] {
      forall u | 0 <= u < |attached| && attached[u] ensures AllMarked(attached, nb[u]) {
        forall k | 0 <= k < |nb[u]| ensures 0 <= nb[u][k] < |attached| && attached[nb[u][k]] {
          assert Incident(adj[u][k], u, |adj|);
        }
      }
      ClosedReach(nb, attached, 0, v);
    }
  }

  /** A vertex that no taken edge touches reaches nothing but itself. */
  lemma Alone(n: nat, result: seq<Edge>, v: int, t: int)
    requires Inside(n, result) && 0 <= v < n
    requires forall i :: 0 <= i < |result| ==> result[i].from != v && result[i].to != v
    requires Reachable(Adjacency(n, result), v, t)
    ensures t == v
  {
    var adj := Adjacency(n, result);
    var w :| IsWalk(adj, w) && w[0] == v && w[|w| - 1] == t;
    if |w| > 1 {
      AdjacencyEntry(n, result, v, w[1]);
    }
  }

  /** The taken edges join only attached vertices, so an edge with one end
      unattached joins two vertices they do not connect yet. */
  lemma NotJoined(n: nat, attached: seq<bool>, result: seq<Edge>, e: Edge, v: int)
    requires Tree(n, attached, result)
    requires 0 <= e.from < n && 0 <= e.to < n
    requires (attached[e.from] && v == e.to) || (attached[e.to] && v == e.from)
    requires !attached[v]
    ensures !Reachable(Adjacency(n, result), e.from, e.to)
  {
    var g := Adjacency(n, result);
    if Reachable(g, e.from, e.to) {
      if v == e.from {
        Alone(n, result, v, e.to);
      } else {
        forall x | 0 <= x < n && attached[x] ensures AllMarked(attached, g[x]) {
          forall k | 0 <= k < |g[x]| ensures 0 <= g[x][k] < n && attached[g[x][k]] {
            AdjacencyEntry(n, result, x, g[x][k]);
          }
        }
        ClosedReach(g, attached, e.from, e.to);
      }
    }
  }

  /** After taking an edge from `u` to `v`, vertex 0 reaches `v` and
      everything it reached before. */
  lemma ReachGrows(n: nat, attached: seq<bool>, result: seq<Edge>, e: Edge, u: int, v: int)
    requires Inside(n, result) && 0 <= e.from < n && 0 <= e.to < n && |attached| == n && 0 <= v < n
    requires (u == e.from && v == e.to) || (u == e.to && v == e.from)
    requires attached[u] && ReachAll(Adjacency(n, result), attached)
    ensures ReachAll(Adjacency(n, result + [e]), attached[v := true])
  {
    var g, g' := Adjacency(n, result), Adjacency(n, result + [e]);
    assert Inside(n, result + [e]);
    AdjacencyGrows(n, result, e);
    forall x | 0 <= x < n && attached[v := true][x] ensures Reachable(g', 0, x) {
      if x == v {
        ReachMore(g, g', 0, u);
        ReachStep(g', u, v);
        ReachTrans(g', 0, u, v);
      } else {
        ReachMore(g, g', 0, x);
      }
    }
  }

  /** Taking an edge from an attached vertex to an unattached one attaches
      the latter and keeps the tree. */
  lemma TreeGrows(n: nat, attached: seq<bool>, result: seq<Edge>, e: Edge, v: int)
    requires Tree(n, attached, result)
    requires 0 <= e.from < n && 0 <= e.to < n
    requires (attached[e.from] && v == e.to) || (attached[e.to] && v == e.from)
    requires !attached[v]
    ensures Tree(n, attached[v := true], result + [e])
  {
    NotJoined(n, attached, result, e, v);
    GrownAppend(n, result, e);
    ReachGrows(n, attached, result, e, if v == e.to then e.from else e.to, v);
    CountFalseSet(attached, v);
    EndsAttachedAppend(attached, result, e, v);
  }

  lemma GrownAppend(n: nat, r: seq<Edge>, e: Edge)
    requires Inside(n, r) && 0 <= e.from < n && 0 <= e.to < n && Grown(n, r)
    requires !Reachable(Adjacency(n, r), e.from, e.to)
    ensures Inside(n, r + [e]) && Grown(n, r + [e])
  {
    assert (r + [e])[..|r|] == r;
  }

  /** Popping `e` from the offered edges, with every edge leaving the tree in
      the heap, and attaching `v` (which may be attached already) so that `e`
      joins attached vertices: the rest are offered, and covered except at
      `v`. */
  lemma HeapAfterPop(adj: seq<seq<Edge>>, attached: seq<bool>, m: multiset<Edge>, e: Edge, v: int)
    requires |attached| == |adj| && Lists(adj) && 0 <= v < |attached|
    requires Offered(adj, attached, m) && Covered(adj, attached, m, -1) && e in m
    requires Stale(attached[v := true], e)
    ensures Offered(adj, attached[v := true], m - multiset{e})
    ensures Covered(adj, attached[v := true], m - multiset{e}, v)
  {
    var attached' := attached[v := true];
    forall u, k | 0 <= u < |adj| && 0 <= u < |attached'| && u != v && attached'[u] && 0 <= k < |adj[u]| && 0 <= Other(adj[u][k], u) < |attached'| && !attached'[Other(adj[u][k], u)]
      ensures adj[u][k] in m - multiset{e}
    {
      assert Incident(adj[u][k], u, |adj|);
      assert adj[u][k] != e;
    }
  }

  /** The parts of a round, put together. */
  lemma RoundOf(adj: seq<seq<Edge>>, attached: seq<bool>, result: seq<Edge>, m: multiset<Edge>, vertex: int)
    requires Tree(|adj|, attached, result) && AllInGraph(adj, result)
    requires 0 <= vertex < |attached| && attached[vertex]
    requires Offered(adj, attached, m) && Covered(adj, attached, m, vertex)
    ensures Round(adj, attached, result, m, vertex)
  {
  }

  // The stale edges in the heap.

  ghost function Pick(m: multiset<Edge>): Edge
    requires m != multiset{}
  {
    var e :| e in m; e
  }

  /** How many heap edges are stale. */
  ghost function StaleIn(attached: seq<bool>, m: multiset<Edge>): nat
    decreases |m|
  {
    if m == multiset{} then 0
    else (if Stale(attached, Pick(m)) then 1 else 0) + StaleIn(attached, m - multiset{Pick(m)})
  }

  lemma {:induction false} StaleRemove(attached: seq<bool>, m: multiset<Edge>, x: Edge)
    requires x in m
    ensures StaleIn(attached, m) == (if Stale(attached, x) then 1 else 0) + StaleIn(attached, m - multiset{x})
    decreases |m|
  {
    var e := Pick(m);
    if e != x {
      StaleRemove(attached, m - multiset{e}, x);
      StaleRemove(attached, m - multiset{x}, e);
      assert m - multiset{e} - multiset{x} == m - multiset{x} - multiset{e};
    }
  }

  /** Every list entry touches its own vertex and names vertices. */
  ghost predicate Lists(adj: seq<seq<Edge>>)
  {
    forall u, k :: 0 <= u < |adj| && 0 <= k < |adj[u]| ==> Incident(adj[u][k], u, |adj|)
  }

  /** The state at the top of each round of lazy Prim. */
  ghost predicate Round(adj: seq<seq<Edge>>, attached: seq<bool>, result: seq<Edge>, m: multiset<Edge>, vertex: int)
  {
    && Tree(|adj|, attached, result) && AllInGraph(adj, result)
    && 0 <= vertex < |adj| && attached[vertex]
    && Offered(adj, attached, m) && Covered(adj, attached, m, vertex)
  }

  ghost predicate AllInGraph(adj: seq<seq<Edge>>, result: seq<Edge>)
  {
    forall i :: 0 <= i < |result| ==> InGraph(adj, result[i])
  }

  lemma AllInGraphAppend(adj: seq<seq<Edge>>, result: seq<Edge>, e: Edge)
    requires AllInGraph(adj, result) && InGraph(adj, e)
    ensures AllInGraph(adj, result + [e])
  {
    forall i | 0 <= i < |result| + 1 ensures InGraph(adj, (result + [e])[i]) {
      if i < |result| {
        assert (result + [e])[i] == result[i];
      }
    }
  }

  /** Vertex 0 attached, nothing taken, an empty heap. */
  lemma StartRound(adj: seq<seq<Edge>>)
    requires |adj| > 0
    ensures Round(adj, NoneAttached(|adj|)[0 := true], [], multiset{}, 0)
    ensures CountFalse(NoneAttached(|adj|)[0 := true]) == |adj| - 1
  {
    StartTree(|adj|);
  }

  /** The first `i` edges at `vertex` that lead to unattached vertices have
      been added to the heap, which held `before`. */
  ghost predicate Offering(adj: seq<seq<Edge>>, attached: seq<bool>, vertex: int, i: int, before: multiset<Edge>, m: multiset<Edge>)
  {
    && 0 <= vertex < |adj| && 0 <= i <= |adj[vertex]|
    && Offered(adj, attached, m) && before <= m && OfferedFrom(adj, attached, vertex, i, m)
    && StaleIn(attached, m) == StaleIn(attached, before)
  }

  /** The first `i` edges at `vertex` to unattached vertices are in `m`. */
  ghost predicate OfferedFrom(adj: seq<seq<Edge>>, attached: seq<bool>, vertex: int, i: int, m: multiset<Edge>)
    requires 0 <= vertex < |adj| && 0 <= i <= |adj[vertex]|
  {
    forall k :: 0 <= k < i && 0 <= Other(adj[vertex][k], vertex) < |attached| && !attached[Other(adj[vertex][k], vertex)] ==> adj[vertex][k] in m
  }

  lemma OfferedFromNext(adj: seq<seq<Edge>>, attached: seq<bool>, vertex: int, i: int, m: multiset<Edge>, m': multiset<Edge>)
    requires 0 <= vertex < |adj| && 0 <= i < |adj[vertex]| && OfferedFrom(adj, attached, vertex, i, m) && m <= m'
    requires 0 <= Other(adj[vertex][i], vertex) < |attached| && !attached[Other(adj[vertex][i], vertex)] ==> adj[vertex][i] in m'
    ensures OfferedFrom(adj, attached, vertex, i + 1, m')
  {
    forall k | 0 <= k < i + 1 && 0 <= Other(adj[vertex][k], vertex) < |attached| && !attached[Other(adj[vertex][k], vertex)]
      ensures adj[vertex][k] in m'
    {
      if k < i {
        assert adj[vertex][k] in m;
      }
    }
  }

  lemma OfferStart(adj: seq<seq<Edge>>, attached: seq<bool>, result: seq<Edge>, m: multiset<Edge>, vertex: int)
    requires Round(adj, attached, result, m, vertex)
    ensures Offering(adj, attached, vertex, 0, m, m)
  {
  }

  /** The `i`th edge at `vertex` is passed over or added. */
  lemma OfferNext(adj: seq<seq<Edge>>, attached: seq<bool>, vertex: int, i: int, before: multiset<Edge>, m: multiset<Edge>, m': multiset<Edge>)
    requires Lists(adj) && |attached| == |adj| && Offering(adj, attached, vertex, i, before, m) && i < |adj[vertex]| && attached[vertex]
    requires m' == if attached[Other(adj[vertex][i], vertex)] then m else m + multiset{adj[vertex][i]}
    ensures Offering(adj, attached, vertex, i + 1, before, m')
  {
    var e := adj[vertex][i];
    assert Incident(e, vertex, |adj|);
    if !attached[Other(e, vertex)] {
      OfferedAdd(adj, attached, m, vertex, i);
      StaleAdd(attached, m, e);
      assert before <= m';
    }
    OfferedFromNext(adj, attached, vertex, i, m, m');
  }

  lemma OfferedAdd(adj: seq<seq<Edge>>, attached: seq<bool>, m: multiset<Edge>, vertex: int, i: int)
    requires Lists(adj) && |attached| == |adj| && 0 <= vertex < |adj| && 0 <= i < |adj[vertex]| && attached[vertex]
    requires Offered(adj, attached, m)
    ensures Offered(adj, attached, m + multiset{adj[vertex][i]})
  {
    var e := adj[vertex][i];
    assert Incident(e, vertex, |adj|);
    forall x | x in m + multiset{e} ensures 0 <= x.from < |attached| && 0 <= x.to < |attached| && (attached[x.from] || attached[x.to]) && InGraph(adj, x) {
      if x == e {
        assert e in adj[vertex];
      } else {
        assert x in m;
      }
    }
  }

  /** Adding an edge that is not stale keeps the stale count. */
  lemma StaleAdd(attached: seq<bool>, m: multiset<Edge>, e: Edge)
    requires !Stale(attached, e)
    ensures StaleIn(attached, m + multiset{e}) == StaleIn(attached, m)
  {
    StaleRemove(attached, m + multiset{e}, e);
    assert m + multiset{e} - multiset{e} == m;
  }

  /** Once every edge at `vertex` is offered, every edge leaving the tree is
      in the heap. */
  lemma OfferDone(adj: seq<seq<Edge>>, attached: seq<bool>, result: seq<Edge>, before: multiset<Edge>, vertex: int, m: multiset<Edge>)
    requires Round(adj, attached, result, before, vertex) && Offering(adj, attached, vertex, |adj[vertex]|, before, m)
    ensures Round(adj, attached, result, m, vertex) && Covered(adj, attached, m, -1)
  {
  }

  /** With a vertex left to attach, the heap is not empty. */
  lemma HeapNotEmpty(adj: seq<seq<Edge>>, attached: seq<bool>, result: seq<Edge>, m: multiset<Edge>, vertex: int)
    requires Lists(adj) && Connected(adj)
    requires Round(adj, attached, result, m, vertex) && Covered(adj, attached, m, -1)
    requires CountFalse(attached) != 0
    ensures m != multiset{}
  {
    CountFalseNone(attached);
    var unattached :| 0 <= unattached < |attached| && !attached[unattached];
    Crossing(adj, attached, unattached);
    var u, k :| 0 <= u < |attached| && attached[u] && 0 <= k < |adj[u]| && !attached[Other(adj[u][k], u)];
    assert Incident(adj[u][k], u, |adj|);
  }

  /** Popping a stale edge leaves the round as it was, with one stale edge
      fewer. */
  lemma Skip(adj: seq<seq<Edge>>, attached: seq<bool>, result: seq<Edge>, m: multiset<Edge>, vertex: int, e: Edge)
    requires Lists(adj) && Round(adj, attached, result, m, vertex) && Covered(adj, attached, m, -1)
    requires e in m && Stale(attached, e)
    ensures Round(adj, attached, result, m - multiset{e}, vertex)
    ensures StaleIn(attached, m - multiset{e}) < StaleIn(attached, m)
  {
    assert attached[vertex := true] == attached;
    HeapAfterPop(adj, attached, m, e, vertex);
    StaleRemove(attached, m, e);
    RoundOf(adj, attached, result, m - multiset{e}, vertex);
  }

  /** Popping an edge with an unattached end takes it and attaches that
      end. */
  lemma Take(adj: seq<seq<Edge>>, attached: seq<bool>, result: seq<Edge>, m: multiset<Edge>, vertex: int, e: Edge, v: int)
    requires Lists(adj) && Round(adj, attached, result, m, vertex) && Covered(adj, attached, m, -1)
    requires e in m && !Stale(attached, e) && v == (if attached[e.to] then e.from else e.to)
    ensures 0 <= v < |attached| && !attached[v]
    ensures Round(adj, attached[v := true], result + [e], m - multiset{e}, v)
    ensures CountFalse(attached[v := true]) == CountFalse(attached) - 1
  {
    assert 0 <= e.from < |adj| && 0 <= e.to < |adj| && (attached[e.from] || attached[e.to]) && InGraph(adj, e);
    TreeGrows(|adj|, attached, result, e, v);
    CountFalseSet(attached, v);
    HeapAfterPop(adj, attached, m, e, v);
    AllInGraphAppend(adj, result, e);
    RoundOf(adj, attached[v := true], result + [e], m - multiset{e}, v);
  }

  lemma OtherInRange(adj: seq<seq<Edge>>, vertex: int, i: int)
    requires Lists(adj) && 0 <= vertex < |adj| && 0 <= i < |adj[vertex]|
    ensures 0 <= Other(adj[vertex][i], vertex) < |adj|
  {
    assert Incident(adj[vertex][i], vertex, |adj|);
  }

}

/** mst/LazyPrim/main.cpp, `LazyPrim`. */
module LazyPrim {
  import opened Paths
  import opened Kruskal
  import opened LazyPrimHeap
  import opened LazyPrimRounds

  /** The `for` loop of a round: every edge at `vertex` whose other end is
      unattached goes into the heap. */
  method Offer(adj: seq<seq<Edge>>, heap: Heap, attached: seq<bool>, vertex: int)
    requires Lists(adj) && |attached| == |adj| && 0 <= vertex < |attached| && attached[vertex]
    requires Offering(adj, attached, vertex, 0, multiset(heap.edges), multiset(heap.edges))
    modifies heap
    ensures Offering(adj, attached, vertex, |adj[vertex]|, old(multiset(heap.edges)), multiset(heap.edges))
  {
    var edges := adj[vertex];
    for i := 0 to |edges|
      invariant Offering(adj, attached, vertex, i, old(multiset(heap.edges)), multiset(heap.edges))
    {
      ghost var m := multiset(heap.edges);
      OtherInRange(adj, vertex, i);
      if !attached[Other(edges[i], vertex)] {
        ghost var s := heap.edges;
        heap.Push(edges[i]);
        AddPermutes(s, edges[i]);
      }
      OfferNext(adj, attached, vertex, i, old(multiset(heap.edges)), m, multiset(heap.edges));
    }
  }

  /** Lazy Prim: from vertex 0, offer every edge to an unattached vertex to
      the heap, pop its root, skip it when both ends are attached, and
      otherwise take it and attach its far end, until every vertex is
      attached. The edges taken are graph edges, form a forest, reach every
      vertex from vertex 0, and number one fewer than the vertices. */
  method LazyPrim(graph: Graph) returns (result: seq<Edge>)
    requires graph.Valid() && |graph.adj| >= 2 && Connected(graph.adj)
    ensures |result| == |graph.adj| - 1
    ensures Inside(|graph.adj|, result) && Grown(|graph.adj|, result)
    ensures forall v :: 0 <= v < |graph.adj| ==> Reachable(Adjacency(|graph.adj|, result), 0, v)
    ensures AllInGraph(graph.adj, result)
  {
    var adj := graph.adj;
    var n := |adj|;
    assert Lists(adj);
    result := [];
    var heap := new Heap();
    var vertex := 0;
    var attached := NoneAttached(n)[vertex := true];
    var counter := n - 1;
    StartRound(adj);
    while counter != 0
      invariant Round(adj, attached, result, multiset(heap.edges), vertex)
      invariant counter == CountFalse(attached)
      decreases counter, StaleIn(attached, multiset(heap.edges))
    {
      ghost var before := multiset(heap.edges);
      OfferStart(adj, attached, result, before, vertex);
      Offer(adj, heap, attached, vertex);
      OfferDone(adj, attached, result, before, vertex, multiset(heap.edges));
      HeapNotEmpty(adj, attached, result, multiset(heap.edges), vertex);
      ghost var s := heap.edges;
      var e := heap.PopMin();
      PopPermutes(s);
      if attached[e.to] && attached[e.from] {
        Skip(adj, attached, result, multiset(s), vertex, e);
        continue;
      }
      counter := counter - 1;
      Take(adj, attached, result, multiset(s), vertex, e, if attached[e.to] then e.from else e.to);
      result := result + [e];
      vertex := if attached[e.to] then e.from else e.to;
      attached := attached[vertex := true];
    }
    CountFalseNone(attached);
  }
}
