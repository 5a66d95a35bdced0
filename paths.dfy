/** Graph-theoretic vocabulary shared by the traversal models: walks over
    adjacency lists whose entries are vertex ids, reachability along them,
    counting the entries of a `marked` vector, and the depth-first post-order
    listings several traversals build. This module models no
    entity of the source; each source file keeps its own graph type. */
module Paths {

  /** Every neighbour id stored in an adjacency list names a vertex. */
  ghost predicate WellFormed(adj: seq<seq<int>>)
  {
    forall u, k :: 0 <= u < |adj| && 0 <= k < |adj[u]| ==> 0 <= adj[u][k] < |adj|
  }

  /** `w` is a walk: a non-empty sequence of vertices, each step along an adjacency. */
  ghost predicate IsWalk(adj: seq<seq<int>>, w: seq<int>)
  {
    && |w| >= 1
    && (forall k :: 0 <= k < |w| ==> 0 <= w[k] < |adj|)
    && (forall k :: 0 <= k < |w| - 1 ==> w[k + 1] in adj[w[k]])
  }

  /** `t` can be reached from `s` by following adjacency lists (possibly in zero steps). */
  ghost predicate Reachable(adj: seq<seq<int>>, s: int, t: int)
  {
    exists w :: IsWalk(adj, w) && w[0] == s && w[|w| - 1] == t
  }

  /** The vertices reachable from `s`. */
  ghost function ReachableSet(adj: seq<seq<int>>, s: int): set<int>
  {
    set u | 0 <= u < |adj| && Reachable(adj, s, u)
  }

  lemma ReachRefl(adj: seq<seq<int>>, s: int)
    requires 0 <= s < |adj|
    ensures Reachable(adj, s, s)
  {
    assert IsWalk(adj, [s]);
  }

  lemma ReachPrepend(adj: seq<seq<int>>, s: int, u: int, t: int)
    requires 0 <= s < |adj| && u in adj[s] && Reachable(adj, u, t)
    ensures Reachable(adj, s, t)
  {
    var w :| IsWalk(adj, w) && w[0] == u && w[|w| - 1] == t;
    var w' := [s] + w;
    assert IsWalk(adj, w');
  }

  lemma ReachAppend(adj: seq<seq<int>>, s: int, u: int, t: int)
    requires Reachable(adj, s, u) && 0 <= u < |adj| && t in adj[u] && 0 <= t < |adj|
    ensures Reachable(adj, s, t)
  {
    var w :| IsWalk(adj, w) && w[0] == s && w[|w| - 1] == u;
    var w' := w + [t];
    assert IsWalk(adj, w');
  }

  lemma ReachStep(adj: seq<seq<int>>, s: int, t: int)
    requires 0 <= s < |adj| && 0 <= t < |adj| && t in adj[s]
    ensures Reachable(adj, s, t)
  {
    assert IsWalk(adj, [s, t]);
  }

  lemma {:induction false} ReachTrans(adj: seq<seq<int>>, s: int, u: int, t: int)
    requires Reachable(adj, s, u) && Reachable(adj, u, t)
    ensures Reachable(adj, s, t)
  {
    var w1 :| IsWalk(adj, w1) && w1[0] == s && w1[|w1| - 1] == u;
    var w2 :| IsWalk(adj, w2) && w2[0] == u && w2[|w2| - 1] == t;
    var w := w1 + w2[1..];
    assert forall k :: 0 <= k < |w| - 1 ==> w[k + 1] in adj[w[k]] by {
      forall k | 0 <= k < |w| - 1 ensures w[k + 1] in adj[w[k]] {
        if k < |w1| - 1 {
        } else {
          assert w[k] == w2[k - |w1| + 1] && w[k + 1] == w2[k - |w1| + 2];
        }
      }
    }
    assert IsWalk(adj, w);
  }

  /** Every entry of `s` is a vertex id marked in `m`. */
  ghost predicate AllMarked(m: seq<bool>, s: seq<int>)
  {
    forall k :: 0 <= k < |s| ==> 0 <= s[k] < |m| && m[s[k]]
  }

  /** The marked vertices are closed under adjacency. */
  ghost predicate Closed(adj: seq<seq<int>>, m: seq<bool>)
  {
    |m| == |adj| && forall u :: 0 <= u < |m| && m[u] ==> AllMarked(m, adj[u])
  }

  /** A closed marking that contains `s` contains everything reachable from `s`. */
  lemma {:induction false} ClosedReach(adj: seq<seq<int>>, m: seq<bool>, s: int, t: int)
    requires Closed(adj, m) && 0 <= s < |m| && m[s] && Reachable(adj, s, t)
    ensures 0 <= t < |m| && m[t]
  {
    var w :| IsWalk(adj, w) && w[0] == s && w[|w| - 1] == t;
    var k := 0;
    while k < |w| - 1
      invariant 0 <= k < |w| && m[w[k]]
    {
      var j :| 0 <= j < |adj[w[k]]| && adj[w[k]][j] == w[k + 1];
      assert AllMarked(m, adj[w[k]]);
      k := k + 1;
    }
  }

  /** `m'` is `m` with possibly more entries set: marks are never cleared. */
  ghost predicate Grows(m: seq<bool>, m': seq<bool>)
  {
    |m| == |m'| && forall u :: 0 <= u < |m| && m[u] ==> m'[u]
  }

  function CountFalse(m: seq<bool>): (r: nat)
    ensures r <= |m|
  {
    if m == [] then 0 else CountFalse(m[..|m| - 1]) + (if m[|m| - 1] then 0 else 1)
  }

  function CountTrue(m: seq<bool>): (r: nat)
    ensures r <= |m|
  {
    if m == [] then 0 else CountTrue(m[..|m| - 1]) + (if m[|m| - 1] then 1 else 0)
  }

  /** Setting marks never increases the number of unmarked entries, and
      setting a previously clear one strictly decreases it. */
  lemma {:induction false} CountFalseGrows(m: seq<bool>, m': seq<bool>)
    requires Grows(m, m')
    ensures CountFalse(m') <= CountFalse(m)
    ensures CountTrue(m') - CountTrue(m) == CountFalse(m) - CountFalse(m')
    ensures (exists u :: 0 <= u < |m| && !m[u] && m'[u]) ==> CountFalse(m') < CountFalse(m)
  {
    if m != [] {
      var n := |m| - 1;
      assert Grows(m[..n], m'[..n]);
      CountFalseGrows(m[..n], m'[..n]);
      if u :| 0 <= u < |m| && !m[u] && m'[u] {
        if u < n {
          assert !m[..n][u] && m'[..n][u];
        }
      }
    }
  }

  /** Setting one clear mark removes exactly one unmarked entry. */
  lemma {:induction false} CountFalseSet(m: seq<bool>, i: int)
    requires 0 <= i < |m| && !m[i]
    ensures CountFalse(m[i := true]) == CountFalse(m) - 1
  {
    var n := |m| - 1;
    if i < n {
      assert m[i := true][..n] == m[..n][i := true];
      CountFalseSet(m[..n], i);
    } else {
      assert m[i := true][..n] == m[..n];
    }
  }

  /** `std::reverse`: the same entries back to front. */
  function Reversed<T>(s: seq<T>): (r: seq<T>)
    ensures |r| == |s| && forall k :: 0 <= k < |s| ==> r[k] == s[|s| - 1 - k]
  {
    if s == [] then [] else [s[|s| - 1]] + Reversed(s[..|s| - 1])
  }

  /** The number of marked entries is the size of the set they mark. */
  lemma {:induction false} CountTrueCard(m: seq<bool>, s: set<int>)
    requires forall u :: u in s <==> 0 <= u < |m| && m[u]
    ensures CountTrue(m) == |s|
  {
    if m != [] {
      var n := |m| - 1;
      var s' := s - {n};
      CountTrueCard(m[..n], s');
      if m[n] {
        assert s == s' + {n};
      } else {
        assert s == s';
      }
    } else {
      assert forall u :: u !in s;
      assert s == {};
    }
  }

  // Depth-first post-order listings, threaded through the recursion of a
  // `dfs_impl` that marks a vertex before visiting it and appends it afterwards.

  /** No vertex is listed twice. */
  ghost predicate Distinct(s: seq<int>)
  {
    forall i, j :: 0 <= i < j < |s| ==> s[i] != s[j]
  }

  lemma DistinctConcat(a: seq<int>, b: seq<int>)
    requires Distinct(a) && Distinct(b) && forall x :: x in b ==> x !in a
    ensures Distinct(a + b)
  {
    forall i, j | 0 <= i < j < |a + b| ensures (a + b)[i] != (a + b)[j] {
      if i < |a| && j >= |a| {
        assert (a + b)[j] == b[j - |a|] && b[j - |a|] in b;
      } else if i >= |a| {
        assert (a + b)[i] == b[i - |a|] && (a + b)[j] == b[j - |a|];
      }
    }
  }

  /** `r` lists distinct vertices, each of them marked in `m`. */
  ghost predicate Listed(adj: seq<seq<int>>, m: seq<bool>, r: seq<int>)
  {
    Distinct(r) && forall k :: 0 <= k < |r| ==> 0 <= r[k] < |adj| && 0 <= r[k] < |m| && m[r[k]]
  }

  /** From index `lo` on, each listed vertex but the last was reached from a
      neighbour `q[i]` that is listed after it. */
  ghost predicate TreeEdges(adj: seq<seq<int>>, lo: nat, r: seq<int>, q: seq<int>)
  {
    |q| == |r| &&
    forall i :: lo <= i < |r| - 1 ==>
      q[i] in r && q[i] !in r[..i + 1] && 0 <= q[i] < |adj| && r[i] in adj[q[i]]
  }

  /** What one call of `dfs_impl` on `vertex` does to the list and the tree:
      it appends the newly marked vertices and then `vertex`, reached from `from`. */
  ghost predicate Appended(adj: seq<seq<int>>, m0: seq<bool>, r0: seq<int>, q0: seq<int>,
                           m: seq<bool>, r: seq<int>, q: seq<int>, vertex: int, from: int)
  {
    && |m| == |m0|
    && |r| > |r0| && r[..|r0|] == r0 && r[|r| - 1] == vertex
    && Listed(adj, m, r)
    && (forall x :: x in r[|r0|..] <==> x == vertex || (0 <= x < |m| && m[x] && !m0[x]))
    && TreeEdges(adj, |r0|, r, q) && q[..|r0|] == q0 && q[|r| - 1] == from
  }

  /** The loop of `dfs_impl` part-way: the children visited so far are listed
      after `r0`, each reached from a later vertex or from `vertex`. */
  ghost predicate Partial(adj: seq<seq<int>>, m0: seq<bool>, r0: seq<int>, q0: seq<int>,
                          m: seq<bool>, r: seq<int>, q: seq<int>, vertex: int)
  {
    && |m| == |m0|
    && |r| >= |r0| && r[..|r0|] == r0 && vertex !in r
    && Listed(adj, m, r)
    && (forall x :: x in r[|r0|..] <==> 0 <= x < |m| && m[x] && !m0[x])
    && |q| == |r| && q[..|r0|] == q0
    && (forall i :: |r0| <= i < |r| ==>
          (q[i] in r || q[i] == vertex) && q[i] !in r[..i + 1]
          && 0 <= q[i] < |adj| && r[i] in adj[q[i]])
  }

  lemma PrefixTrans(r0: seq<int>, r: seq<int>, r2: seq<int>)
    requires |r0| <= |r| <= |r2| && r[..|r0|] == r0 && r2[..|r|] == r
    ensures r2[..|r0|] == r0
  {
    assert r2[..|r0|] == r2[..|r|][..|r0|];
  }

  lemma {:induction false} ChildNewPart(m0: seq<bool>, r0: seq<int>, m: seq<bool>, r: seq<int>,
                                        next: int, m2: seq<bool>, r2: seq<int>)
    requires |m0| == |m| == |m2| && 0 <= next < |m| && !m[next] && Grows(m0, m)
    requires |r0| <= |r| < |r2| && r2[..|r|] == r
    requires forall x :: x in r[|r0|..] <==> 0 <= x < |m| && m[x] && !m0[x]
    requires forall x :: x in r2[|r|..] <==> x == next || (0 <= x < |m2| && m2[x] && !m[next := true][x])
    requires Grows(m[next := true], m2)
    ensures forall x :: x in r2[|r0|..] <==> 0 <= x < |m2| && m2[x] && !m0[x]
  {
    assert r2 == r + r2[|r|..];
    assert r2[|r0|..] == r[|r0|..] + r2[|r|..];
  }

  lemma {:induction false} ChildTree(adj: seq<seq<int>>, r0: seq<int>, r: seq<int>, q: seq<int>, vertex: int,
                                     r2: seq<int>, q2: seq<int>)
    requires |r0| <= |r| < |r2| && |q| == |r| && r2[..|r|] == r
    requires forall i :: |r0| <= i < |r| ==>
      (q[i] in r || q[i] == vertex) && q[i] !in r[..i + 1]
      && 0 <= q[i] < |adj| && r[i] in adj[q[i]]
    requires TreeEdges(adj, |r|, r2, q2) && q2[..|r|] == q && q2[|r2| - 1] == vertex
    requires vertex !in r2
    requires 0 <= vertex < |adj| && r2[|r2| - 1] in adj[vertex]
    ensures forall i :: |r0| <= i < |r2| ==>
      (q2[i] in r2 || q2[i] == vertex) && q2[i] !in r2[..i + 1]
      && 0 <= q2[i] < |adj| && r2[i] in adj[q2[i]]
  {
    forall i | |r0| <= i < |r2|
      ensures (q2[i] in r2 || q2[i] == vertex) && q2[i] !in r2[..i + 1]
        && 0 <= q2[i] < |adj| && r2[i] in adj[q2[i]]
    {
      if i < |r| {
        assert q2[..|r|][i] == q[i];
        assert r2[..|r|][i] == r[i];
        assert r2[..i + 1] == r2[..|r|][..i + 1];
        assert r2 == r + r2[|r|..];
      }
    }
  }

  lemma {:induction false} PartialChild(adj: seq<seq<int>>, m0: seq<bool>, r0: seq<int>, q0: seq<int>,
                     m: seq<bool>, r: seq<int>, q: seq<int>, vertex: int,
                     next: int, m2: seq<bool>, r2: seq<int>, q2: seq<int>)
    requires Partial(adj, m0, r0, q0, m, r, q, vertex) && Grows(m0, m)
    requires 0 <= vertex < |adj| && 0 <= next < |m| && !m[next] && next in adj[vertex]
    requires Appended(adj, m[next := true], r, q, m2, r2, q2, next, vertex) && Grows(m[next := true], m2)
    requires 0 <= vertex < |m0| && m0[vertex]
    ensures Partial(adj, m0, r0, q0, m2, r2, q2, vertex)
  {
    PrefixTrans(r0, r, r2);
    PrefixTrans(q0, q, q2);
    ChildNewPart(m0, r0, m, r, next, m2, r2);
    assert vertex !in r2 by {
      assert r2 == r + r2[|r|..];
      assert vertex !in r2[|r|..];
    }
    ChildTree(adj, r0, r, q, vertex, r2, q2);
  }

  lemma {:induction false} PartialDone(adj: seq<seq<int>>, m0: seq<bool>, r0: seq<int>, q0: seq<int>,
                    m: seq<bool>, r: seq<int>, q: seq<int>, vertex: int, from: int)
    requires Partial(adj, m0, r0, q0, m, r, q, vertex)
    requires 0 <= vertex < |adj| && 0 <= vertex < |m| && m[vertex]
    ensures Appended(adj, m0, r0, q0, m, r + [vertex], q + [from], vertex, from)
  {
    var r' := r + [vertex];
    assert r'[|r0|..] == r[|r0|..] + [vertex];
    assert r'[..|r0|] == r[..|r0|];
    assert (q + [from])[..|r0|] == q[..|r0|];
    forall j | |r0| <= j < |r|
      ensures r'[..j + 1] == r[..j + 1] && r'[j] == r[j]
    {
    }
  }

  /** Every vertex marked in `m` but not in `m0` is reachable from `vertex` and
      has all its neighbours marked. */
  ghost predicate Explored(adj: seq<seq<int>>, vertex: int, m0: seq<bool>, m: seq<bool>)
  {
    && Grows(m0, m) && |m| == |adj|
    && (forall u :: 0 <= u < |adj| && m[u] && !m0[u] ==> Reachable(adj, vertex, u))
    && (forall u :: 0 <= u < |adj| && m[u] && !m0[u] ==> AllMarked(m, adj[u]))
  }

  lemma {:induction false} ExploredChild(adj: seq<seq<int>>, vertex: int, m0: seq<bool>, m: seq<bool>, i: int, m2: seq<bool>)
    requires WellFormed(adj) && 0 <= vertex < |adj| && 0 <= i < |adj[vertex]|
    requires Explored(adj, vertex, m0, m) && AllMarked(m, adj[vertex][..i])
    requires !m[adj[vertex][i]]
    requires Explored(adj, adj[vertex][i], m[adj[vertex][i] := true], m2)
    requires AllMarked(m2, adj[adj[vertex][i]])
    ensures Explored(adj, vertex, m0, m2) && AllMarked(m2, adj[vertex][..i + 1])
  {
    var next := adj[vertex][i];
    forall u | 0 <= u < |adj| && m2[u] && !m0[u]
      ensures Reachable(adj, vertex, u) && AllMarked(m2, adj[u])
    {
      if !m[u] {
        if u == next {
          ReachRefl(adj, next);
        }
        ReachPrepend(adj, vertex, next, u);
      } else {
        assert AllMarked(m, adj[u]);
      }
    }
    assert adj[vertex][..i + 1] == adj[vertex][..i] + [next];
  }

  /** The loop of a marking `dfs_impl` on `vertex` after its first `i` neighbours. */
  ghost predicate Searched(adj: seq<seq<int>>, vertex: int, m0: seq<bool>, m: seq<bool>, i: int)
    requires 0 <= vertex < |adj|
  {
    0 <= i <= |adj[vertex]| && Explored(adj, vertex, m0, m) && AllMarked(m, adj[vertex][..i])
  }

  lemma SearchedStart(adj: seq<seq<int>>, vertex: int, m0: seq<bool>)
    requires 0 <= vertex < |adj| && |m0| == |adj|
    ensures Searched(adj, vertex, m0, m0, 0)
  {
  }

  /** A neighbour that is already marked needs no visit. */
  lemma SearchedSkip(adj: seq<seq<int>>, vertex: int, m0: seq<bool>, m: seq<bool>, i: int)
    requires 0 <= vertex < |adj| && Searched(adj, vertex, m0, m, i) && i < |adj[vertex]|
    requires 0 <= adj[vertex][i] < |m| && m[adj[vertex][i]]
    ensures Searched(adj, vertex, m0, m, i + 1)
  {
    assert adj[vertex][..i + 1] == adj[vertex][..i] + [adj[vertex][i]];
  }

  /** An unmarked neighbour, marked and explored, leaves everything it marked
      reachable from `vertex`. */
  lemma SearchedChild(adj: seq<seq<int>>, vertex: int, m0: seq<bool>, m: seq<bool>, i: int, m2: seq<bool>)
    requires WellFormed(adj) && 0 <= vertex < |adj| && Searched(adj, vertex, m0, m, i) && i < |adj[vertex]|
    requires !m[adj[vertex][i]]
    requires Explored(adj, adj[vertex][i], m[adj[vertex][i] := true], m2) && AllMarked(m2, adj[adj[vertex][i]])
    ensures Searched(adj, vertex, m0, m2, i + 1)
  {
    ExploredChild(adj, vertex, m0, m, i, m2);
  }

  lemma SearchedDone(adj: seq<seq<int>>, vertex: int, m0: seq<bool>, m: seq<bool>)
    requires 0 <= vertex < |adj| && Searched(adj, vertex, m0, m, |adj[vertex]|)
    ensures Explored(adj, vertex, m0, m) && AllMarked(m, adj[vertex])
  {
    assert adj[vertex][..|adj[vertex]|] == adj[vertex];
  }

  /** The loop of a listing `dfs_impl` on `vertex` after its first `i` neighbours:
      the marks are scanned and the visited children listed. */
  ghost predicate ListRound(adj: seq<seq<int>>, vertex: int, m0: seq<bool>, r0: seq<int>, q0: seq<int>,
                            m: seq<bool>, r: seq<int>, q: seq<int>, i: int)
    requires 0 <= vertex < |adj|
  {
    Searched(adj, vertex, m0, m, i) && Partial(adj, m0, r0, q0, m, r, q, vertex)
  }

  lemma ListStart(adj: seq<seq<int>>, vertex: int, m0: seq<bool>, r0: seq<int>, q0: seq<int>)
    requires 0 <= vertex < |adj| && |m0| == |adj| && |q0| == |r0|
    requires vertex !in r0 && Listed(adj, m0, r0)
    ensures ListRound(adj, vertex, m0, r0, q0, m0, r0, q0, 0)
  {
    assert r0[|r0|..] == [];
  }

  /** What a call on an unmarked neighbour needs: the marks it starts from list
      the vertices so far, and it is not one of them. */
  lemma ListReady(adj: seq<seq<int>>, vertex: int, m0: seq<bool>, r0: seq<int>, q0: seq<int>,
                  m: seq<bool>, r: seq<int>, q: seq<int>, i: int)
    requires 0 <= vertex < |adj| && ListRound(adj, vertex, m0, r0, q0, m, r, q, i) && i < |adj[vertex]|
    requires 0 <= adj[vertex][i] < |m| && !m[adj[vertex][i]]
    ensures Grows(m0, m) && |m| == |adj| && |q| == |r|
    ensures adj[vertex][i] !in r && Listed(adj, m[adj[vertex][i] := true], r)
  {
  }

  lemma ListSkip(adj: seq<seq<int>>, vertex: int, m0: seq<bool>, r0: seq<int>, q0: seq<int>,
                 m: seq<bool>, r: seq<int>, q: seq<int>, i: int)
    requires 0 <= vertex < |adj| && ListRound(adj, vertex, m0, r0, q0, m, r, q, i) && i < |adj[vertex]|
    requires 0 <= adj[vertex][i] < |m| && m[adj[vertex][i]]
    ensures ListRound(adj, vertex, m0, r0, q0, m, r, q, i + 1)
  {
    SearchedSkip(adj, vertex, m0, m, i);
  }

  lemma ListChild(adj: seq<seq<int>>, vertex: int, m0: seq<bool>, r0: seq<int>, q0: seq<int>,
                  m: seq<bool>, r: seq<int>, q: seq<int>, i: int, m2: seq<bool>, r2: seq<int>, q2: seq<int>)
    requires WellFormed(adj) && 0 <= vertex < |adj| && ListRound(adj, vertex, m0, r0, q0, m, r, q, i)
    requires i < |adj[vertex]| && !m[adj[vertex][i]] && m0[vertex]
    requires Explored(adj, adj[vertex][i], m[adj[vertex][i] := true], m2) && AllMarked(m2, adj[adj[vertex][i]])
    requires Appended(adj, m[adj[vertex][i] := true], r, q, m2, r2, q2, adj[vertex][i], vertex)
    ensures ListRound(adj, vertex, m0, r0, q0, m2, r2, q2, i + 1)
  {
    SearchedChild(adj, vertex, m0, m, i, m2);
    assert adj[vertex][i] in adj[vertex];
    PartialChild(adj, m0, r0, q0, m, r, q, vertex, adj[vertex][i], m2, r2, q2);
  }

  lemma ListDone(adj: seq<seq<int>>, vertex: int, m0: seq<bool>, r0: seq<int>, q0: seq<int>,
                 m: seq<bool>, r: seq<int>, q: seq<int>, from: int)
    requires 0 <= vertex < |adj| && ListRound(adj, vertex, m0, r0, q0, m, r, q, |adj[vertex]|) && m0[vertex]
    ensures Explored(adj, vertex, m0, m) && AllMarked(m, adj[vertex])
    ensures Appended(adj, m0, r0, q0, m, r + [vertex], q + [from], vertex, from)
  {
    SearchedDone(adj, vertex, m0, m);
    PartialDone(adj, m0, r0, q0, m, r, q, vertex, from);
  }
}
