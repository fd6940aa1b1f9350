/**
 * The maze graph: one vertex per cell, one adjacency entry per wall.
 * An entry is (neighbour, border); neighbour -1 marks a wall on the outside
 * of the maze. Borders are opaque handles; a handle shared by the two
 * entries of an internal wall plays the role of the shared pointer.
 */
module Graphs {

  /** An opaque border handle: the site that created the border and its loop indices. */
  type BorderId = seq<int>

  /** One adjacency entry: neighbour vertex (or -1) and the border between them. */
  type Edge = (int, BorderId)

  type Graph = seq<seq<Edge>>

  /** The neighbour value that stands for "outside the maze". */
  const Outside: int := -1

  /** The vertices 0 .. n-1. */
  function Vertices(n: int): set<int>
  {
    set x | 0 <= x < n && InRange(n, x)
  }

  predicate InRange(n: int, x: int)
  {
    0 <= x < n
  }

  lemma {:induction false} VerticesCard(n: nat)
    ensures |Vertices(n)| == n
  {
    if n > 0 {
      VerticesCard(n - 1);
      assert Vertices(n) == Vertices(n - 1) + {n - 1};
    } else {
      assert Vertices(n) == {};
    }
  }

  /** `n` lists whose neighbours are vertices or the outside marker. */
  ghost predicate ValidGraph(n: int, g: Graph)
  {
    |g| == n &&
    forall u, j :: 0 <= u < |g| && 0 <= j < |g[u]| ==> -1 <= g[u][j].0 < |g|
  }

  /** Every internal entry has a mirror entry with the same border. */
  ghost predicate Symmetric(g: Graph)
  {
    forall u, j :: 0 <= u < |g| && 0 <= j < |g[u]| && 0 <= g[u][j].0 < |g| ==>
      (u, g[u][j].1) in g[g[u][j].0]
  }

  /** `v` is an internal neighbour of `u`. */
  ghost predicate Adjacent(g: Graph, u: int, v: int)
  {
    0 <= u < |g| && v >= 0 && exists j :: 0 <= j < |g[u]| && g[u][j].0 == v
  }

  /** The list of `u` holds an entry naming `v`: a neighbour, or the outside marker. */
  ghost predicate Lists(g: Graph, u: int, v: int)
  {
    0 <= u < |g| && exists j :: 0 <= j < |g[u]| && g[u][j].0 == v
  }

  /** No internal entry of a member of `S` leads out of `S`. */
  ghost predicate Closed(g: Graph, S: set<int>)
  {
    forall u, j :: u in S && 0 <= u < |g| && 0 <= j < |g[u]| && g[u][j].0 >= 0 ==> g[u][j].0 in S
  }

  /** The internal walls connect the vertices: no nonempty proper subset of them is closed. */
  ghost predicate Connected(n: int, g: Graph)
  {
    forall S :: S <= Vertices(n) && S != {} && Closed(g, S) ==> S == Vertices(n)
  }

  /** Every vertex is reachable from `s`: every closed set holding `s` holds all vertices. */
  ghost predicate ConnectedFrom(g: Graph, s: int)
  {
    forall S :: s in S && Closed(g, S) ==> Vertices(|g|) <= S
  }

  /** `x` is reachable from `s` over internal entries: every closed set holding `s` holds `x`. */
  ghost predicate Reach(g: Graph, s: int, x: int)
  {
    forall S :: s in S && Closed(g, S) ==> x in S
  }

  /** A closed set holding `s` holds everything reachable from `s`. */
  lemma ReachInClosed(g: Graph, s: int, x: int, S: set<int>)
    requires Reach(g, s, x) && s in S && Closed(g, S)
    ensures x in S
  {
  }

  /** One internal entry more: the neighbour of a reachable vertex is reachable. */
  lemma ReachStep(g: Graph, s: int, u: int, j: int)
    requires 0 <= u < |g| && 0 <= j < |g[u]| && g[u][j].0 >= 0 && Reach(g, s, u)
    ensures Reach(g, s, g[u][j].0)
  {
  }

  lemma ConnectedReachesAll(g: Graph, s: int)
    requires ValidGraph(|g|, g) && Connected(|g|, g) && 0 <= s < |g|
    ensures ConnectedFrom(g, s)
  {
    forall S | s in S && Closed(g, S) ensures Vertices(|g|) <= S {
      var R := S * Vertices(|g|);
      assert Closed(g, R);
      assert s in R;
    }
  }

  /** On a connected graph with two or more vertices every vertex has an internal neighbour. */
  lemma HasNeighbour(g: Graph, u: int)
    requires ValidGraph(|g|, g) && Connected(|g|, g) && |g| >= 2 && 0 <= u < |g|
    ensures exists j :: 0 <= j < |g[u]| && g[u][j].0 >= 0
  {
    var other := if u == 0 then 1 else 0;
    assert other in Vertices(|g|) && other !in {u};
    assert !Closed(g, {u});
  }

  /** On a symmetric graph the vertices outside a closed set form a closed set too. */
  lemma ComplementClosed(g: Graph, S: set<int>)
    requires ValidGraph(|g|, g) && Symmetric(g) && Closed(g, S)
    ensures Closed(g, Vertices(|g|) - S)
  {
    var Rest := Vertices(|g|) - S;
    forall u, j | u in Rest && 0 <= u < |g| && 0 <= j < |g[u]| && g[u][j].0 >= 0
      ensures g[u][j].0 in Rest
    {
      var v := g[u][j].0;
      assert (u, g[u][j].1) in g[v];
    }
  }

  /** On a symmetric graph reachability from one vertex gives connectivity. */
  lemma ReachesAllConnected(g: Graph, s: int)
    requires ValidGraph(|g|, g) && Symmetric(g) && ConnectedFrom(g, s) && 0 <= s < |g|
    ensures Connected(|g|, g)
  {
    forall S | S <= Vertices(|g|) && S != {} && Closed(g, S) ensures S == Vertices(|g|) {
      if s !in S {
        ComplementClosed(g, S);
        assert false;
      }
    }
  }

  /** The vertices whose flag is set. */
  function Marked(visited: seq<bool>): set<int>
  {
    set x | 0 <= x < |visited| && visited[x]
  }

  lemma MarkedBound(visited: seq<bool>)
    ensures |Marked(visited)| <= |visited|
  {
    VerticesCard(|visited|);
    assert Marked(visited) <= Vertices(|visited|);
    SubsetCard(Marked(visited), Vertices(|visited|));
  }

  lemma SubsetCard(A: set<int>, B: set<int>)
    requires A <= B
    ensures |A| <= |B|
  {
    assert B == A + (B - A);
  }

  lemma MarkOne(visited: seq<bool>, x: int)
    requires 0 <= x < |visited| && !visited[x]
    ensures Marked(visited[x := true]) == Marked(visited) + {x}
    ensures |Marked(visited[x := true])| == |Marked(visited)| + 1
  {
    assert Marked(visited[x := true]) == Marked(visited) + {x};
  }

  lemma MarkedAll(visited: seq<bool>)
    requires forall x :: 0 <= x < |visited| ==> visited[x]
    ensures Marked(visited) == Vertices(|visited|)
    ensures |Marked(visited)| == |visited|
  {
    assert Marked(visited) == Vertices(|visited|);
    VerticesCard(|visited|);
  }

  lemma MarkedNone(n: nat)
    ensures Marked(seq(n, _ => false)) == {}
  {
  }

  // ---------------------------------------------------------------------------
  // Graphs built by a sequence of `push_back`s.

  /** A push: append `entry` to the list of `vertex`. */
  type PushOp = (int, Edge)

  function Empty(n: nat): (g: Graph)
    ensures |g| == n && forall u :: 0 <= u < n ==> g[u] == []
  {
    seq(n, _ => [])
  }

  /** Append one entry to the list of `u`; other lists are untouched. */
  function Push(g: Graph, u: int, e: Edge): (r: Graph)
    requires 0 <= u < |g|
    ensures |r| == |g| && r[u] == g[u] + [e]
    ensures forall w :: 0 <= w < |g| && w != u ==> r[w] == g[w]
  {
    g[u := g[u] + [e]]
  }

  /** All push targets are vertices. */
  ghost predicate PushesIn(n: int, P: seq<PushOp>)
  {
    forall k :: 0 <= k < |P| ==> 0 <= P[k].0 < n
  }

  /** The graph after performing the pushes of `P` in order. */
  function Build(g: Graph, P: seq<PushOp>): (r: Graph)
    requires PushesIn(|g|, P)
    ensures |r| == |g|
    decreases |P|
  {
    if P == [] then g else Push(Build(g, P[..|P| - 1]), P[|P| - 1].0, P[|P| - 1].1)
  }

  lemma BuildStep(g: Graph, P: seq<PushOp>, x: PushOp)
    requires PushesIn(|g|, P) && 0 <= x.0 < |g|
    ensures PushesIn(|g|, P + [x])
    ensures Build(g, P + [x]) == Push(Build(g, P), x.0, x.1)
  {
    assert (P + [x])[..|P|] == P;
  }

  /** Pushing all of `P` then `Q` is pushing `P + Q`. */
  lemma {:induction false} BuildAppend(g: Graph, P: seq<PushOp>, Q: seq<PushOp>)
    requires PushesIn(|g|, P) && PushesIn(|g|, Q)
    ensures PushesIn(|g|, P + Q)
    ensures Build(g, P + Q) == Build(Build(g, P), Q)
    decreases |Q|
  {
    if Q == [] {
      assert P + Q == P;
    } else {
      var Q' := Q[..|Q| - 1];
      BuildAppend(g, P, Q');
      assert (P + Q)[..|P + Q| - 1] == P + Q';
    }
  }

  /** The list of `u` is its old list followed by the entries pushed to `u`, in push order. */
  function PushedTo(P: seq<PushOp>, u: int): (r: seq<Edge>)
    ensures |r| <= |P|
    decreases |P|
  {
    if P == [] then []
    else PushedTo(P[..|P| - 1], u) + (if P[|P| - 1].0 == u then [P[|P| - 1].1] else [])
  }

  lemma {:induction false} BuildLists(g: Graph, P: seq<PushOp>, u: int)
    requires PushesIn(|g|, P) && 0 <= u < |g|
    ensures Build(g, P)[u] == g[u] + PushedTo(P, u)
    decreases |P|
  {
    if P != [] {
      BuildLists(g, P[..|P| - 1], u);
    }
  }

  lemma {:induction false} PushedToMembers(P: seq<PushOp>, u: int, e: Edge)
    ensures e in PushedTo(P, u) <==> (u, e) in P
    decreases |P|
  {
    if P != [] {
      var P' := P[..|P| - 1];
      PushedToMembers(P', u, e);
      assert P == P' + [P[|P| - 1]];
    }
  }

  /** An entry is in a list of a graph built from nothing exactly when it was pushed there. */
  lemma BuildMembers(n: nat, P: seq<PushOp>, u: int, e: Edge)
    requires PushesIn(n, P) && 0 <= u < n
    ensures e in Build(Empty(n), P)[u] <==> (u, e) in P
  {
    BuildLists(Empty(n), P, u);
    PushedToMembers(P, u, e);
  }

  /** Every internal push has its mirror push with the same border. */
  ghost predicate MirroredPushes(P: seq<PushOp>)
  {
    forall k :: 0 <= k < |P| && P[k].1.0 >= 0 ==> (P[k].1.0, (P[k].0, P[k].1.1)) in P
  }

  /** Push neighbours are vertices or the outside marker. */
  ghost predicate TargetsIn(n: int, P: seq<PushOp>)
  {
    forall k :: 0 <= k < |P| ==> -1 <= P[k].1.0 < n
  }

  /** Mirrored pushes build a symmetric, valid graph. */
  lemma BuildSymmetric(n: nat, P: seq<PushOp>)
    requires PushesIn(n, P) && TargetsIn(n, P) && MirroredPushes(P)
    ensures ValidGraph(n, Build(Empty(n), P))
    ensures Symmetric(Build(Empty(n), P))
  {
    var g: Graph := Build(Empty(n), P);
    forall u: int, j: int | 0 <= u < |g| && 0 <= j < |g[u]| ensures -1 <= g[u][j].0 < |g| {
      BuildMembers(n, P, u, g[u][j]);
      var k :| 0 <= k < |P| && P[k] == (u, g[u][j]);
    }
    forall u: int, j: int | 0 <= u < |g| && 0 <= j < |g[u]| && 0 <= g[u][j].0 < |g|
      ensures (u, g[u][j].1) in g[g[u][j].0]
    {
      BuildMembers(n, P, u, g[u][j]);
      var k :| 0 <= k < |P| && P[k] == (u, g[u][j]);
      BuildMembers(n, P, g[u][j].0, (u, g[u][j].1));
    }
  }

  /** A two-way internal wall between `u` and `v`. */
  function Mirror(u: int, v: int, b: BorderId): (P: seq<PushOp>)
    ensures MirroredPushes(P)
  {
    [(u, (v, b)), (v, (u, b))]
  }

  lemma MirroredAppend(P: seq<PushOp>, Q: seq<PushOp>)
    requires MirroredPushes(P) && MirroredPushes(Q)
    ensures MirroredPushes(P + Q)
  {
    forall k | 0 <= k < |P + Q| && (P + Q)[k].1.0 >= 0
      ensures ((P + Q)[k].1.0, ((P + Q)[k].0, (P + Q)[k].1.1)) in P + Q
    {
      if k < |P| {
        assert (P + Q)[k] == P[k];
      } else {
        assert (P + Q)[k] == Q[k - |P|];
      }
    }
  }

  // ---------------------------------------------------------------------------
  // Counting entries.

  /** Outside-wall entries (neighbour -1) of one list. */
  function OutsideIn(s: seq<Edge>): nat
    decreases |s|
  {
    if s == [] then 0 else OutsideIn(s[..|s| - 1]) + (if s[|s| - 1].0 == Outside then 1 else 0)
  }

  /** Internal entries (neighbour >= 0) of one list. */
  function InternalIn(s: seq<Edge>): nat
    decreases |s|
  {
    if s == [] then 0 else InternalIn(s[..|s| - 1]) + (if s[|s| - 1].0 >= 0 then 1 else 0)
  }

  /** Outside-wall entries of the whole graph. */
  function OutsideWalls(g: Graph): nat
    decreases |g|
  {
    if g == [] then 0 else OutsideWalls(g[..|g| - 1]) + OutsideIn(g[|g| - 1])
  }

  /** Internal entries of the whole graph (each internal wall of a symmetric graph twice). */
  function InternalEntries(g: Graph): nat
    decreases |g|
  {
    if g == [] then 0 else InternalEntries(g[..|g| - 1]) + InternalIn(g[|g| - 1])
  }

  lemma {:induction false} CountsAppend(s: seq<Edge>, t: seq<Edge>)
    ensures OutsideIn(s + t) == OutsideIn(s) + OutsideIn(t)
    ensures InternalIn(s + t) == InternalIn(s) + InternalIn(t)
    decreases |t|
  {
    if t == [] {
      assert s + t == s;
    } else {
      CountsAppend(s, t[..|t| - 1]);
      assert (s + t)[..|s + t| - 1] == s + t[..|t| - 1];
    }
  }

  /** Replacing one list changes the totals by the difference of that list's counts. */
  lemma {:induction false} CountsUpdate(g: Graph, u: int, s: seq<Edge>)
    requires 0 <= u < |g|
    ensures OutsideWalls(g[u := s]) + OutsideIn(g[u]) == OutsideWalls(g) + OutsideIn(s)
    ensures InternalEntries(g[u := s]) + InternalIn(g[u]) == InternalEntries(g) + InternalIn(s)
    decreases |g|
  {
    var h := g[u := s];
    if u < |g| - 1 {
      CountsUpdate(g[..|g| - 1], u, s);
      assert h[..|h| - 1] == g[..|g| - 1][u := s];
    } else {
      assert h[..|h| - 1] == g[..|g| - 1];
    }
  }

  lemma {:induction false} EmptyCounts(n: nat)
    ensures OutsideWalls(Empty(n)) == 0 && InternalEntries(Empty(n)) == 0
  {
    if n > 0 {
      EmptyCounts(n - 1);
      assert Empty(n)[..n - 1] == Empty(n - 1);
    }
  }

  /** The number of pushes of outside walls. */
  function OutsidePushes(P: seq<PushOp>): nat
    decreases |P|
  {
    if P == [] then 0 else OutsidePushes(P[..|P| - 1]) + (if P[|P| - 1].1.0 == Outside then 1 else 0)
  }

  /** The number of pushes of internal entries. */
  function InternalPushes(P: seq<PushOp>): nat
    decreases |P|
  {
    if P == [] then 0 else InternalPushes(P[..|P| - 1]) + (if P[|P| - 1].1.0 >= 0 then 1 else 0)
  }

  lemma {:induction false} PushCountsAppend(P: seq<PushOp>, Q: seq<PushOp>)
    ensures OutsidePushes(P + Q) == OutsidePushes(P) + OutsidePushes(Q)
    ensures InternalPushes(P + Q) == InternalPushes(P) + InternalPushes(Q)
    decreases |Q|
  {
    if Q == [] {
      assert P + Q == P;
    } else {
      PushCountsAppend(P, Q[..|Q| - 1]);
      assert (P + Q)[..|P + Q| - 1] == P + Q[..|Q| - 1];
    }
  }

  /** Each push adds its entry to exactly one list, so the totals count the pushes. */
  lemma {:induction false} BuildCounts(g: Graph, P: seq<PushOp>)
    requires PushesIn(|g|, P)
    ensures OutsideWalls(Build(g, P)) == OutsideWalls(g) + OutsidePushes(P)
    ensures InternalEntries(Build(g, P)) == InternalEntries(g) + InternalPushes(P)
    decreases |P|
  {
    if P != [] {
      var P' := P[..|P| - 1];
      var h := Build(g, P');
      var x := P[|P| - 1];
      BuildCounts(g, P');
      CountsUpdate(h, x.0, h[x.0] + [x.1]);
      CountsAppend(h[x.0], [x.1]);
      assert OutsideIn([x.1]) == (if x.1.0 == Outside then 1 else 0) by {
        assert [x.1][..0] == [];
      }
      assert InternalIn([x.1]) == (if x.1.0 >= 0 then 1 else 0) by {
        assert [x.1][..0] == [];
      }
    }
  }
}
