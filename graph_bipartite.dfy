/** graph/bipartite/main.cpp: two-colouring the vertices reachable from vertex 0
    by a depth-first search that checks every edge it meets. */
module GraphBipartite {
  import opened Paths

  /** The graph as `isBipartite` sees it: `adj[v]` holds the neighbours pushed by `add`. */
  datatype Graph = Graph(adj: seq<seq<int>>)
  {
    function Size(): nat { |adj| }

    ghost predicate Valid() { WellFormed(adj) }
  }

  /** `State`: not yet coloured, or one of the two colours. */
  datatype State = None | Red | Black

  /** `nextState`: the other colour; an uncoloured vertex's successor is red. */
  function NextState(s: State): (r: State)
    ensures r != None && (s != None ==> r != s)
    ensures s == None ==> r == Red
  {
    if s == Red then Black else Red
  }

  /** Two steps lead back to a colour. */
  lemma NextStateTwice(s: State)
    requires s != None
    ensures NextState(NextState(s)) == s
  {
  }

  /** Which vertices carry a colour. */
  function Coloured(states: seq<State>): (m: seq<bool>)
    ensures |m| == |states| && forall v :: 0 <= v < |states| ==> (m[v] <==> states[v] != None)
  {
    seq(|states|, v requires 0 <= v < |states| => states[v] != None)
  }

  /** Colours, once given, stay. */
  ghost predicate Keeps(states: seq<State>, states': seq<State>)
  {
    |states'| == |states| && forall v :: 0 <= v < |states| && states[v] != None ==> states'[v] == states[v]
  }

  /** A walk from `root` to `u` whose number of vertices is odd exactly when `same`. */
  ghost predicate ParityWalk(g: Graph, root: int, u: int, same: bool)
  {
    exists w :: IsWalk(g.adj, w) && w[0] == root && w[|w| - 1] == u && (|w| % 2 == 1 <==> same)
  }

  /** Every coloured vertex has the root's colour exactly when some walk from
      the root reaches it in an even number of steps. */
  ghost predicate Parity(g: Graph, root: int, states: seq<State>)
  {
    && |states| == g.Size() && 0 <= root < g.Size() && states[root] != None
    && forall u :: 0 <= u < g.Size() && states[u] != None ==> ParityWalk(g, root, u, states[u] == states[root])
  }

  /** Every neighbour of `u` is coloured, with the colour after `u`'s. */
  ghost predicate Settled(g: Graph, states: seq<State>, u: int)
    requires g.Valid() && |states| == g.Size() && 0 <= u < g.Size()
  {
    forall k :: 0 <= k < |g.adj[u]| ==> states[g.adj[u][k]] != None && states[g.adj[u][k]] == NextState(states[u])
  }

  /** Every vertex uncoloured in `states` and coloured in `states'` is settled. */
  ghost predicate NewSettled(g: Graph, states: seq<State>, states': seq<State>)
    requires g.Valid() && |states| == |states'| == g.Size()
  {
    forall u :: 0 <= u < g.Size() && states[u] == None && states'[u] != None ==> Settled(g, states', u)
  }

  /** Settled vertices stay settled while colours are kept. */
  lemma SettledKept(g: Graph, s1: seq<State>, s2: seq<State>, u: int)
    requires g.Valid() && |s1| == g.Size() && 0 <= u < g.Size() && s1[u] != None
    requires Settled(g, s1, u) && Keeps(s1, s2)
    ensures Settled(g, s2, u)
  {
    forall k | 0 <= k < |g.adj[u]| ensures s2[g.adj[u][k]] == NextState(s2[u]) {
      assert s1[g.adj[u][k]] != None;
    }
  }

  /** The search from a freshly coloured `next` extends the settled set. */
  lemma NewSettledStep(g: Graph, s0: seq<State>, s1: seq<State>, next: int, s2: seq<State>)
    requires g.Valid() && |s0| == |s1| == |s2| == g.Size() && 0 <= next < g.Size()
    requires Keeps(s0, s1) && NewSettled(g, s0, s1) && s1[next] == None
    requires Keeps(s1[next := s2[next]], s2) && s2[next] != None && Settled(g, s2, next)
    requires NewSettled(g, s1[next := s2[next]], s2)
    ensures Keeps(s0, s2) && NewSettled(g, s0, s2)
  {
    var mid := s1[next := s2[next]];
    forall u | 0 <= u < g.Size() && s0[u] == None && s2[u] != None ensures Settled(g, s2, u) {
      if u != next && mid[u] != None {
        SettledKept(g, s1, s2, u);
      }
    }
  }

  /** `col` two-colours every edge leaving a vertex reachable from `root`. */
  ghost predicate ProperOn(g: Graph, root: int, col: seq<bool>)
    requires g.Valid()
  {
    |col| == g.Size() &&
    forall u, k :: 0 <= u < g.Size() && Reachable(g.adj, root, u) && 0 <= k < |g.adj[u]| ==> col[u] != col[g.adj[u][k]]
  }

  /** The vertices reachable from `root` can be two-coloured. */
  ghost predicate TwoColourable(g: Graph, root: int)
    requires g.Valid()
  {
    exists col :: ProperOn(g, root, col)
  }

  /** Along a walk from the root, a proper colouring alternates. */
  lemma {:induction false} AlternatesAlong(g: Graph, root: int, col: seq<bool>, w: seq<int>)
    requires g.Valid() && ProperOn(g, root, col) && IsWalk(g.adj, w) && w[0] == root
    ensures col[w[|w| - 1]] == col[root] <==> |w| % 2 == 1
    decreases |w|
  {
    if |w| > 1 {
      var w' := w[..|w| - 1];
      assert IsWalk(g.adj, w');
      AlternatesAlong(g, root, col, w');
      var x := w[|w| - 2];
      assert Reachable(g.adj, root, x) by { assert w'[|w'| - 1] == x; }
      var k :| 0 <= k < |g.adj[x]| && g.adj[x][k] == w[|w| - 1];
    }
  }

  /** Under the parity invariant, a proper colouring agrees on two vertices of
      the same colour. */
  lemma SameColour(g: Graph, root: int, states: seq<State>, col: seq<bool>, u: int, x: int)
    requires g.Valid() && Parity(g, root, states) && ProperOn(g, root, col)
    requires 0 <= u < g.Size() && 0 <= x < g.Size() && states[u] != None && states[x] == states[u]
    ensures col[u] == col[x]
  {
    assert ParityWalk(g, root, u, states[u] == states[root]);
    assert ParityWalk(g, root, x, states[x] == states[root]);
    var wu :| IsWalk(g.adj, wu) && wu[0] == root && wu[|wu| - 1] == u && (|wu| % 2 == 1 <==> states[u] == states[root]);
    var wx :| IsWalk(g.adj, wx) && wx[0] == root && wx[|wx| - 1] == x && (|wx| % 2 == 1 <==> states[x] == states[root]);
    AlternatesAlong(g, root, col, wu);
    AlternatesAlong(g, root, col, wx);
  }

  /** A coloured vertex is reachable from the root. */
  lemma ColouredReachable(g: Graph, root: int, states: seq<State>, u: int)
    requires Parity(g, root, states) && 0 <= u < g.Size() && states[u] != None
    ensures Reachable(g.adj, root, u)
  {
    assert ParityWalk(g, root, u, states[u] == states[root]);
  }

  /** An edge between two vertices of the same colour, under the parity
      invariant, closes an odd cycle: no two-colouring exists. */
  lemma Conflict(g: Graph, root: int, states: seq<State>, u: int, k: int)
    requires g.Valid() && Parity(g, root, states) && 0 <= u < g.Size() && states[u] != None
    requires 0 <= k < |g.adj[u]| && states[g.adj[u][k]] == states[u]
    ensures !TwoColourable(g, root)
  {
    ColouredReachable(g, root, states, u);
    forall col | ProperOn(g, root, col) ensures false {
      SameColour(g, root, states, col, u, g.adj[u][k]);
    }
  }

  /** Colouring an uncoloured neighbour `next` of a coloured `u` with the
      colour after `u`'s keeps the parity invariant. */
  lemma ParityColour(g: Graph, root: int, states: seq<State>, u: int, next: int)
    requires g.Valid() && Parity(g, root, states) && 0 <= u < g.Size() && states[u] != None
    requires next in g.adj[u] && states[next] == None
    ensures Parity(g, root, states[next := NextState(states[u])])
  {
    var s' := states[next := NextState(states[u])];
    assert next != root;
    assert ParityWalk(g, root, u, states[u] == states[root]);
    var w :| IsWalk(g.adj, w) && w[0] == root && w[|w| - 1] == u && (|w| % 2 == 1 <==> states[u] == states[root]);
    var w' := w + [next];
    assert IsWalk(g.adj, w');
    assert ParityWalk(g, root, next, s'[next] == s'[root]) by {
      assert w'[0] == root && w'[|w'| - 1] == next;
    }
    forall v | 0 <= v < g.Size() && s'[v] != None
      ensures ParityWalk(g, root, v, s'[v] == s'[root])
    {
      if v != next {
        assert ParityWalk(g, root, v, states[v] == states[root]);
      }
    }
  }

  /** The loop invariant of `isBipartiteImpl` after `i` neighbours of `vertex`. */
  ghost predicate Round(g: Graph, root: int, states: seq<State>, s: seq<State>, vertex: int, i: int)
    requires g.Valid() && |states| == g.Size() && 0 <= vertex < g.Size() && 0 <= i <= |g.adj[vertex]|
  {
    && Keeps(states, s) && Parity(g, root, s) && NewSettled(g, states, s)
    && forall k :: 0 <= k < i ==> s[g.adj[vertex][k]] != None && s[g.adj[vertex][k]] == NextState(s[vertex])
  }

  /** Colouring the uncoloured neighbour `next` leaves fewer uncoloured vertices. */
  lemma Fewer(states: seq<State>, before: seq<State>, next: int, c: State)
    requires Keeps(states, before) && 0 <= next < |before| && before[next] == None && c != None
    ensures CountFalse(Coloured(before[next := c])) < CountFalse(Coloured(states))
  {
    assert Coloured(before[next := c]) == Coloured(before)[next := true];
    CountFalseSet(Coloured(before), next);
    CountFalseGrows(Coloured(states), Coloured(before));
  }

  /** The round after a successful search from the freshly coloured neighbour. */
  lemma RoundChild(g: Graph, root: int, states: seq<State>, before: seq<State>, vertex: int, i: int,
                   after: seq<State>)
    requires g.Valid() && |states| == g.Size() && 0 <= vertex < g.Size() && 0 <= i < |g.adj[vertex]|
    requires Round(g, root, states, before, vertex, i) && before[g.adj[vertex][i]] == None
    requires states[vertex] != None
    requires Keeps(before[g.adj[vertex][i] := NextState(before[vertex])], after) && Parity(g, root, after)
    requires Settled(g, after, g.adj[vertex][i])
    requires NewSettled(g, before[g.adj[vertex][i] := NextState(before[vertex])], after)
    ensures Round(g, root, states, after, vertex, i + 1)
  {
    var next := g.adj[vertex][i];
    NewSettledStep(g, states, before, next, after);
    forall k | 0 <= k < i + 1
      ensures after[g.adj[vertex][k]] != None && after[g.adj[vertex][k]] == NextState(after[vertex])
    {
      if k < i {
        assert before[g.adj[vertex][k]] != None;
      }
    }
  }

  /** The round after a neighbour already coloured the other way. */
  lemma RoundColoured(g: Graph, root: int, states: seq<State>, s: seq<State>, vertex: int, i: int)
    requires g.Valid() && |states| == g.Size() && 0 <= vertex < g.Size() && 0 <= i < |g.adj[vertex]|
    requires Round(g, root, states, s, vertex, i)
    requires s[g.adj[vertex][i]] != None && s[g.adj[vertex][i]] == NextState(s[vertex])
    ensures Round(g, root, states, s, vertex, i + 1)
  {
  }

  /** `isBipartiteImpl`: colours each uncoloured neighbour with the colour after
      `vertex`'s and searches from it, and fails at the first neighbour already
      coloured like `vertex`. Colours are only ever given to uncoloured
      vertices; on success every vertex this call coloured, and `vertex`
      itself, has all its neighbours coloured the other way; on failure the
      root's part of the graph is not two-colourable. */
  method IsBipartiteImpl(g: Graph, vertex: int, states: seq<State>, ghost root: int)
    returns (ok: bool, states': seq<State>)
    requires g.Valid() && |states| == g.Size() && 0 <= vertex < g.Size() && states[vertex] != None
    requires Parity(g, root, states)
    ensures Keeps(states, states') && Parity(g, root, states')
    ensures ok ==> Settled(g, states', vertex)
    ensures ok ==> NewSettled(g, states, states')
    ensures !ok ==> !TwoColourable(g, root)
    decreases CountFalse(Coloured(states))
  {
    states' := states;
    var curState := states[vertex];
    for i := 0 to |g.adj[vertex]|
      invariant Round(g, root, states, states', vertex, i)
    {
      var next := g.adj[vertex][i];
      if states'[next] == None {
        ghost var before := states';
        ParityColour(g, root, states', vertex, next);
        Fewer(states, states', next, NextState(curState));
        var r;
        r, states' := IsBipartiteImpl(g, next, states'[next := NextState(curState)], root);
        if r == false {
          return false, states';
        }
        RoundChild(g, root, states, before, vertex, i, states');
      } else if states'[next] != NextState(states'[vertex]) {
        Conflict(g, root, states', vertex, i);
        return false, states';
      } else {
        RoundColoured(g, root, states, states', vertex, i);
      }
    }
    ok := true;
  }

  /** `isBipartite`: colour vertex 0 red and search from it. The answer is
      true exactly when the vertices reachable from 0 can be two-coloured;
      other components are not examined. */
  method IsBipartite(g: Graph) returns (ok: bool)
    requires g.Valid() && g.Size() > 0
    ensures ok <==> TwoColourable(g, 0)
  {
    var states := seq(g.Size(), _ => None)[0 := Red];
    assert Parity(g, 0, states) by {
      assert IsWalk(g.adj, [0]);
      assert ParityWalk(g, 0, 0, true);
    }
    var s';
    ok, s' := IsBipartiteImpl(g, 0, states, 0);
    if ok {
      var m := Coloured(s');
      assert Closed(g.adj, m) by {
        forall u | 0 <= u < g.Size() && m[u] ensures AllMarked(m, g.adj[u]) {
          assert Settled(g, s', u);
        }
      }
      var col := seq(g.Size(), v requires 0 <= v < g.Size() => s'[v] == Red);
      forall u, k | 0 <= u < g.Size() && Reachable(g.adj, 0, u) && 0 <= k < |g.adj[u]|
        ensures col[u] != col[g.adj[u][k]]
      {
        ClosedReach(g.adj, m, 0, u);
        assert Settled(g, s', u);
      }
      assert ProperOn(g, 0, col);
    }
  }

  /** The triangle the first test builds with add(0,1), add(0,2), add(1,2) on ten vertices. */
  function Triangle(): (g: Graph)
    ensures g.Valid() && g.Size() == 10
  {
    Graph([[1, 2], [0, 2], [0, 1], [], [], [], [], [], [], []])
  }

  /** The first test's expectation: the triangle is not two-colourable. */
  lemma TriangleNotTwoColourable()
    ensures !TwoColourable(Triangle(), 0)
  {
    var g := Triangle();
    var states := [Red, Black, Black, None, None, None, None, None, None, None];
    forall u | 0 <= u < g.Size() && states[u] != None ensures ParityWalk(g, 0, u, states[u] == states[0]) {
      if u == 0 {
        assert IsWalk(g.adj, [0]);
      } else if u == 1 {
        assert IsWalk(g.adj, [0, 1]);
      } else {
        assert u == 2 && IsWalk(g.adj, [0, 2]);
      }
    }
    Conflict(g, 0, states, 1, 1);
  }

  /** The square the second test builds with add(0,1), add(0,2), add(1,3), add(2,3) on ten vertices. */
  function Square(): (g: Graph)
    ensures g.Valid() && g.Size() == 10
  {
    Graph([[1, 2], [0, 3], [0, 3], [1, 2], [], [], [], [], [], []])
  }

  /** The second test's expectation: the square is two-colourable. */
  lemma SquareTwoColourable()
    ensures TwoColourable(Square(), 0)
  {
    var col := [true, false, false, true, true, true, true, true, true, true];
    assert ProperOn(Square(), 0, col);
  }
}
