/**
 * Randomized Kruskal (src/algorithms/kruskal.cpp): shuffle the internal walls
 * and keep each one whose endpoints are still in different groups of a
 * path-compressing parent array.
 */
module Kruskal {
  import opened Graphs
  import opened Trees
  import opened Sequences
  import opened DisjointSets
  import Random

  /** The pairs (u, w) with w > u taken from the list of `u`, in list order. */
  function ForwardPairs(u: int, s: seq<Edge>): (r: seq<Pair>)
    ensures forall k :: 0 <= k < |r| ==> r[k].0 == u && r[k].1 > u
    decreases |s|
  {
    if s == [] then []
    else ForwardPairs(u, s[..|s| - 1]) + (if s[|s| - 1].0 > u then [(u, s[|s| - 1].0)] else [])
  }

  /** The candidate list collected from the lists of the vertices below `i`. */
  function Candidates(g: Graph, i: nat): seq<Pair>
    requires i <= |g|
  {
    if i == 0 then [] else Candidates(g, i - 1) + ForwardPairs(i - 1, g[i - 1])
  }

  lemma {:induction false} ForwardPairsMembers(u: int, s: seq<Edge>, p: Pair)
    ensures p in ForwardPairs(u, s) <==> p.0 == u && p.1 > u && exists j :: 0 <= j < |s| && s[j].0 == p.1
    decreases |s|
  {
    if s != [] {
      var s' := s[..|s| - 1];
      ForwardPairsMembers(u, s', p);
      assert forall j :: 0 <= j < |s'| ==> s'[j] == s[j];
      if p.0 == u && p.1 > u && (exists j :: 0 <= j < |s| && s[j].0 == p.1) {
        var j :| 0 <= j < |s| && s[j].0 == p.1;
        if j < |s'| {
          assert s'[j].0 == p.1;
        }
      }
    }
  }

  /**
   * The candidates are exactly the internal entries (u, w) with w > u: sentinels
   * and entries pointing to a smaller vertex are left out.
   */
  lemma {:induction false} CandidatesMembers(g: Graph, i: nat, p: Pair)
    requires i <= |g|
    ensures p in Candidates(g, i) <==>
      0 <= p.0 < i && p.1 > p.0 && exists j :: 0 <= j < |g[p.0]| && g[p.0][j].0 == p.1
    decreases i
  {
    if i > 0 {
      CandidatesMembers(g, i - 1, p);
      ForwardPairsMembers(i - 1, g[i - 1], p);
    }
  }

  /** The loops that collect the candidate walls, in vertex and list order. */
  method CollectCandidates(vertices: int, adjacencylist: Graph) returns (edges: seq<Pair>)
    requires ValidGraph(vertices, adjacencylist)
    ensures edges == Candidates(adjacencylist, vertices)
  {
    edges := [];
    var i := 0;
    while i < vertices
      invariant 0 <= i <= vertices
      invariant edges == Candidates(adjacencylist, i)
    {
      var j := 0;
      while j < |adjacencylist[i]|
        invariant 0 <= j <= |adjacencylist[i]|
        invariant edges == Candidates(adjacencylist, i) + ForwardPairs(i, adjacencylist[i][..j])
      {
        assert adjacencylist[i][..j + 1][..j] == adjacencylist[i][..j];
        if adjacencylist[i][j].0 > i {
          edges := edges + [(i, adjacencylist[i][j].0)];
        }
        j := j + 1;
      }
      assert adjacencylist[i][..j] == adjacencylist[i];
      i := i + 1;
    }
  }

  class Kruskal {
    const generator: Random.Generator
    /** `parent_`: the group structure; a representative is its own parent. */
    var parent: seq<int>
    ghost var rank: seq<nat>
    var spanningtree: seq<Pair>

    ghost predicate Valid()
      reads this
    {
      Forest(parent, rank) && forall x :: 0 <= x < |parent| ==> 0 <= parent[x]
    }

    constructor (generator: Random.Generator)
      ensures this.generator == generator && parent == [] && spanningtree == []
    {
      this.generator := generator;
      parent := [];
      rank := [];
      spanningtree := [];
    }

    /**
     * The representative of `u`. Every vertex on the way is pointed straight
     * at it; no vertex changes group.
     */
    method GetParent(u: int) returns (r: int)
      requires Valid() && 0 <= u < |parent|
      modifies this
      ensures Valid() && |parent| == old(|parent|) && rank == old(rank)
      ensures spanningtree == old(spanningtree)
      ensures r == old(Root(parent, rank, u)) && parent[r] == r && parent[u] == r
      ensures Roots(parent) == old(Roots(parent))
      ensures RootMap(parent, rank) == old(RootMap(parent, rank))
      decreases |parent| - rank[u]
    {
      if parent[u] == u {
        r := u;
        return;
      }
      ghost var p0 := parent;
      r := GetParent(parent[u]);
      assert RootMap(parent, rank)[u] == RootMap(p0, rank)[u];
      Compress(parent, rank, u);
      parent := parent[u := r];
    }

    /**
     * One pass of the main loop: find both representatives, and when they
     * differ link the first under the second and keep the pair.
     */
    method Consider(ghost n: nat, e: Pair) returns (kept: bool)
      requires Valid() && Tracks(n, parent, rank, spanningtree)
      requires 0 <= e.0 < n && 0 <= e.1 < n
      modifies this
      ensures Valid() && Tracks(n, parent, rank, spanningtree)
      ensures kept == (old(RootMap(parent, rank))[e.0] != old(RootMap(parent, rank))[e.1])
      ensures RootMap(parent, rank) == if kept
        then Merge(old(RootMap(parent, rank)), old(RootMap(parent, rank))[e.0], old(RootMap(parent, rank))[e.1])
        else old(RootMap(parent, rank))
      ensures spanningtree == if kept then old(spanningtree) + [e] else old(spanningtree)
    {
      var u := GetParent(e.0);
      var v := GetParent(e.1);
      kept := u != v;
      if kept {
        TracksLink(n, parent, rank, spanningtree, e.0, e.1);
        LinkRootMap(parent, rank, u, v);
        parent := parent[u := v];
        rank := Bump(rank, u, v);
        spanningtree := spanningtree + [e];
      }
    }

    /** The main loop: every shuffled candidate in turn. */
    method ConsiderAll(ghost n: nat, edges: seq<Pair>)
      requires Valid() && Tracks(n, parent, rank, spanningtree)
      requires forall m :: 0 <= m < |edges| ==> 0 <= edges[m].0 < n && 0 <= edges[m].1 < n
      requires forall m :: 0 <= m < |spanningtree| ==> spanningtree[m] in edges
      modifies this
      ensures Valid() && Tracks(n, parent, rank, spanningtree)
      ensures JoinedUpTo(RootMap(parent, rank), edges, |edges|)
      ensures forall m :: 0 <= m < |spanningtree| ==> spanningtree[m] in edges
    {
      ghost var groups := RootMap(parent, rank);
      var k := 0;
      while k < |edges|
        invariant 0 <= k <= |edges|
        invariant Valid() && Tracks(n, parent, rank, spanningtree)
        invariant groups == RootMap(parent, rank)
        invariant JoinedUpTo(groups, edges, k)
        invariant forall m :: 0 <= m < |spanningtree| ==> spanningtree[m] in edges
      {
        var kept := Consider(n, edges[k]);
        JoinStep(groups, RootMap(parent, rank), edges, k, kept);
        groups := RootMap(parent, rank);
        k := k + 1;
      }
    }

    /** `Kruskal::MinimumSpanningTree`. */
    method SpanningTree(vertices: int, adjacencylist: Graph) returns (tree: seq<Pair>)
      requires ValidGraph(vertices, adjacencylist)
      modifies this, generator
      ensures tree == spanningtree
      ensures forall k :: 0 <= k < |tree| ==>
        tree[k] in Candidates(adjacencylist, vertices) && Adjacent(adjacencylist, tree[k].0, tree[k].1)
      ensures vertices >= 1 && Symmetric(adjacencylist) && Connected(vertices, adjacencylist) ==>
        IsSpanningTree(vertices, adjacencylist, tree)
      ensures Acyclic(vertices, tree)
    {
      var edges := CollectCandidates(vertices, adjacencylist);
      ghost var candidates := edges;
      edges := generator.Shuffle(edges);
      SameMembers(edges, candidates);

      CandidatesInRange(adjacencylist, edges, candidates);
      parent := Iota(vertices);
      rank := Zeros(vertices);
      spanningtree := [];
      TracksStart(vertices, parent, rank);
      ConsiderAll(vertices, edges);
      tree := spanningtree;
      Outcome(vertices, adjacencylist, parent, rank, tree, edges, candidates);
    }
  }

  /** What the end of the main loop gives: every candidate was considered. */
  lemma Outcome(n: nat, g: Graph, p: seq<int>, rank: seq<nat>, T: seq<Pair>, edges: seq<Pair>, candidates: seq<Pair>)
    requires ValidGraph(n, g) && Tracks(n, p, rank, T)
    requires candidates == Candidates(g, n)
    requires forall e :: e in edges <==> e in candidates
    requires forall m :: 0 <= m < |edges| ==> 0 <= edges[m].0 < n && 0 <= edges[m].1 < n
    requires JoinedUpTo(RootMap(p, rank), edges, |edges|)
    requires forall m :: 0 <= m < |T| ==> T[m] in edges
    ensures forall k :: 0 <= k < |T| ==> T[k] in Candidates(g, n) && Adjacent(g, T[k].0, T[k].1)
    ensures n >= 1 && Symmetric(g) && Connected(n, g) ==> IsSpanningTree(n, g, T)
    ensures Acyclic(n, T)
  {
    forall k | 0 <= k < |T| ensures T[k] in Candidates(g, n) && Adjacent(g, T[k].0, T[k].1) {
      CandidatesMembers(g, n, T[k]);
    }
    if n >= 1 && Symmetric(g) && Connected(n, g) {
      AllWallsJoined(g, RootMap(p, rank), edges, candidates);
      TracksAllJoined(n, g, p, rank, T);
    }
  }

  /** The first `k` pairs of `edges` lie inside groups of `C`. */
  ghost predicate JoinedUpTo(C: seq<int>, edges: seq<Pair>, k: int)
  {
    forall m :: 0 <= m < k && 0 <= m < |edges| ==>
      0 <= edges[m].0 < |C| && 0 <= edges[m].1 < |C| && C[edges[m].0] == C[edges[m].1]
  }

  /**
   * One pass of the main loop keeps the considered pairs inside groups: a kept
   * pair merges its two groups, a skipped one already lies in a group.
   */
  lemma JoinStep(C: seq<int>, C': seq<int>, edges: seq<Pair>, k: int, kept: bool)
    requires 0 <= k < |edges| && 0 <= edges[k].0 < |C| && 0 <= edges[k].1 < |C|
    requires JoinedUpTo(C, edges, k)
    requires kept == (C[edges[k].0] != C[edges[k].1])
    requires C' == if kept then Merge(C, C[edges[k].0], C[edges[k].1]) else C
    ensures JoinedUpTo(C', edges, k + 1)
  {
  }

  /** Every candidate is an internal wall between two vertices. */
  lemma CandidatesInRange(g: Graph, edges: seq<Pair>, candidates: seq<Pair>)
    requires ValidGraph(|g|, g) && candidates == Candidates(g, |g|)
    requires forall e :: e in edges <==> e in candidates
    ensures forall m :: 0 <= m < |edges| ==> 0 <= edges[m].0 < |g| && 0 <= edges[m].1 < |g|
    ensures forall e :: e in candidates ==> EndsIn(|g|, e) && Adjacent(g, e.0, e.1)
  {
    forall e | e in candidates ensures EndsIn(|g|, e) && Adjacent(g, e.0, e.1) {
      CandidatesMembers(g, |g|, e);
    }
  }

  /** Once every candidate lies inside a group, so does every internal entry of a symmetric graph. */
  lemma AllWallsJoined(g: Graph, C: seq<int>, edges: seq<Pair>, candidates: seq<Pair>)
    requires ValidGraph(|C|, g) && Symmetric(g)
    requires candidates == Candidates(g, |g|)
    requires forall e :: e in edges <==> e in candidates
    requires forall m :: 0 <= m < |edges| ==> 0 <= edges[m].0 < |C| && 0 <= edges[m].1 < |C|
    requires forall m :: 0 <= m < |edges| ==> C[edges[m].0] == C[edges[m].1]
    ensures forall u, j :: 0 <= u < |g| && 0 <= j < |g[u]| && g[u][j].0 >= 0 ==> C[u] == C[g[u][j].0]
  {
    forall u, j | 0 <= u < |g| && 0 <= j < |g[u]| && g[u][j].0 >= 0
      ensures C[u] == C[g[u][j].0]
    {
      var w := g[u][j].0;
      if w > u {
        CandidatesMembers(g, |g|, (u, w));
        var m :| 0 <= m < |edges| && edges[m] == (u, w);
      } else if w < u {
        assert (u, g[u][j].1) in g[w];
        var k :| 0 <= k < |g[w]| && g[w][k] == (u, g[u][j].1);
        assert g[w][k].0 == u;
        CandidatesMembers(g, |g|, (w, u));
        var m :| 0 <= m < |edges| && edges[m] == (w, u);
      }
    }
  }
}
