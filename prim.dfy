/**
 * Randomized Prim (src/algorithms/prim.cpp): grow the tree from a random
 * vertex; the frontier is a list of (visited, neighbour) pairs from which a
 * random entry is swapped to the back and popped until one leads to an
 * unvisited vertex.
 */
module Prim {
  import opened Graphs
  import opened Trees
  import Random

  /** The entries of `boundary` start at a visited vertex and follow an internal wall of `g`. */
  ghost predicate BoundaryFrom(g: Graph, visited: seq<bool>, boundary: seq<Pair>)
    requires |visited| == |g|
  {
    forall k :: 0 <= k < |boundary| ==>
      0 <= boundary[k].0 < |g| && 0 <= boundary[k].1 < |g| &&
      visited[boundary[k].0] && Adjacent(g, boundary[k].0, boundary[k].1)
  }

  /**
   * Every internal entry from a visited vertex to an unvisited one, except
   * those from or to `except`, is on the boundary.
   */
  ghost predicate Frontier(g: Graph, visited: seq<bool>, boundary: seq<Pair>, except: int)
    requires |visited| == |g|
  {
    forall u, j ::
      (0 <= u < |g| && 0 <= j < |g[u]| && visited[u] && u != except &&
       0 <= g[u][j].0 < |g| && !visited[g[u][j].0] && g[u][j].0 != except) ==>
      (u, g[u][j].0) in boundary
  }

  /** A connected graph has an internal entry leaving any nonempty proper subset of its vertices. */
  lemma Leaves(g: Graph, visited: seq<bool>)
    requires ValidGraph(|visited|, g) && Connected(|g|, g)
    requires Marked(visited) != {} && |Marked(visited)| < |g|
    ensures exists u, j ::
      0 <= u < |g| && 0 <= j < |g[u]| && visited[u] && 0 <= g[u][j].0 < |g| && !visited[g[u][j].0]
  {
    VerticesCard(|g|);
    assert Marked(visited) <= Vertices(|g|);
    assert Marked(visited) != Vertices(|g|);
    assert !Closed(g, Marked(visited));
  }

  /** Swapping two places keeps the members. */
  lemma SwapKeeps(b: seq<Pair>, i: int, l: int)
    requires 0 <= i < |b| && 0 <= l < |b|
    ensures forall x :: x in b <==> x in b[i := b[l]][l := b[i]]
  {
    assert multiset(b[i := b[l]][l := b[i]]) == multiset(b);
    forall x ensures x in b <==> x in b[i := b[l]][l := b[i]] {
      assert x in b <==> x in multiset(b);
      assert x in b[i := b[l]][l := b[i]] <==> x in multiset(b[i := b[l]][l := b[i]]);
    }
  }

  /** Popping the back keeps everything else. */
  lemma PopKeeps(b: seq<Pair>)
    requires b != []
    ensures forall x :: x in b && x != b[|b| - 1] ==> x in b[..|b| - 1]
    ensures forall x :: x in b[..|b| - 1] ==> x in b
  {
    forall x | x in b && x != b[|b| - 1] ensures x in b[..|b| - 1] {
      var j :| 0 <= j < |b| && b[j] == x;
      assert b[..|b| - 1][j] == x;
    }
  }

  class Prim {
    const generator: Random.Generator
    var spanningtree: seq<Pair>

    constructor (generator: Random.Generator)
      ensures this.generator == generator && spanningtree == []
    {
      this.generator := generator;
      spanningtree := [];
    }

    /** `Prim::SpanningTree`: clear the result and run the algorithm. */
    method SpanningTree(vertices: int, adjacencylist: Graph) returns (tree: seq<Pair>)
      requires ValidGraph(vertices, adjacencylist) && vertices >= 1 && Connected(vertices, adjacencylist)
      modifies this, generator
      ensures tree == spanningtree && IsSpanningTree(vertices, adjacencylist, tree)
    {
      spanningtree := [];
      PrimAlgorithm(vertices, adjacencylist);
      tree := spanningtree;
    }

    /**
     * `Prim::PrimAlgorithm`: `vertices - 1` rounds, each marking the current
     * vertex, pushing its edges to unvisited vertices and drawing frontier
     * entries until one leads to an unvisited vertex.
     */
    method PrimAlgorithm(vertices: int, adjacencylist: Graph)
      requires ValidGraph(vertices, adjacencylist) && vertices >= 1 && Connected(vertices, adjacencylist)
      modifies this, generator
      ensures |spanningtree| == |old(spanningtree)| + vertices - 1
      ensures spanningtree[..|old(spanningtree)|] == old(spanningtree)
      ensures IsSpanningTree(vertices, adjacencylist, spanningtree[|old(spanningtree)|..])
    {
      var visited := seq(vertices, _ => false);
      MarkedNone(vertices);
      var boundary: seq<Pair> := [];
      var vertex := generator.UniformInt(0, vertices - 1);
      ghost var T: seq<Pair> := [];
      GrownStart(vertices, vertex);
      var i := 1;
      while i < vertices
        invariant 1 <= i <= vertices && |visited| == vertices
        invariant 0 <= vertex < vertices && !visited[vertex]
        invariant |Marked(visited)| == i - 1 && |T| == i - 1
        invariant spanningtree == old(spanningtree) + T
        invariant Grown(vertices, T, Marked(visited) + {vertex})
        invariant forall k :: 0 <= k < |T| ==> Adjacent(adjacencylist, T[k].0, T[k].1)
        invariant BoundaryFrom(adjacencylist, visited, boundary)
        invariant Frontier(adjacencylist, visited, boundary, vertex)
      {
        var nextedge;
        ghost var R := Marked(visited) + {vertex};
        MarkOne(visited, vertex);
        visited, boundary, nextedge := Round(adjacencylist, visited, vertex, boundary, i);
        assert Marked(visited) == R;
        GrowStep(vertices, T, Marked(visited), nextedge.0, nextedge.1);
        T := T + [nextedge];
        spanningtree := spanningtree + [nextedge];
        vertex := nextedge.1;
        i := i + 1;
      }
      assert spanningtree[..|old(spanningtree)|] == old(spanningtree);
      assert spanningtree[|old(spanningtree)|..] == T;
    }

    /** One round of the `for` loop, up to the choice of the next pair. */
    method Round(g: Graph, visited: seq<bool>, vertex: int, boundary: seq<Pair>, ghost i: int)
      returns (visited': seq<bool>, boundary': seq<Pair>, nextedge: Pair)
      requires ValidGraph(|visited|, g) && Connected(|g|, g) && 0 <= vertex < |g| && !visited[vertex]
      requires |Marked(visited)| == i - 1 && i < |g|
      requires BoundaryFrom(g, visited, boundary) && Frontier(g, visited, boundary, vertex)
      modifies generator
      ensures visited' == visited[vertex := true]
      ensures 0 <= nextedge.0 < |g| && 0 <= nextedge.1 < |g|
      ensures visited'[nextedge.0] && !visited'[nextedge.1] && Adjacent(g, nextedge.0, nextedge.1)
      ensures BoundaryFrom(g, visited', boundary') && Frontier(g, visited', boundary', nextedge.1)
    {
      MarkOne(visited, vertex);
      visited' := visited[vertex := true];
      boundary' := PushNeighbours(g, visited', vertex, boundary);
      boundary', nextedge := DrawEdge(g, visited', boundary');
    }

    /** The inner `for`: push `(vertex, w)` for every internal entry to an unvisited `w`, in list order. */
    method PushNeighbours(g: Graph, visited: seq<bool>, vertex: int, boundary: seq<Pair>) returns (r: seq<Pair>)
      requires ValidGraph(|visited|, g) && 0 <= vertex < |g| && visited[vertex]
      requires BoundaryFrom(g, visited, boundary) && Frontier(g, visited, boundary, vertex)
      ensures BoundaryFrom(g, visited, r) && Frontier(g, visited, r, -1)
      ensures |r| >= |boundary| && r[..|boundary|] == boundary
      ensures forall k :: |boundary| <= k < |r| ==> r[k].0 == vertex && 0 <= r[k].1 < |g| && !visited[r[k].1]
    {
      r := boundary;
      var j := 0;
      while j < |g[vertex]|
        invariant 0 <= j <= |g[vertex]| && |r| >= |boundary| && r[..|boundary|] == boundary
        invariant forall k :: |boundary| <= k < |r| ==> r[k].0 == vertex && 0 <= r[k].1 < |g| && !visited[r[k].1]
        invariant BoundaryFrom(g, visited, r)
        invariant Frontier(g, visited, r, vertex)
        invariant forall k :: 0 <= k < j && 0 <= g[vertex][k].0 && !visited[g[vertex][k].0] ==>
          (vertex, g[vertex][k].0) in r
      {
        var p := g[vertex][j];
        if p.0 != -1 && !visited[p.0] {
          r := r + [(vertex, p.0)];
        }
        j := j + 1;
      }
    }

    /**
     * The `do`/`while`: swap a random entry to the back, take it if it leads to
     * an unvisited vertex, pop it. The draw range is never empty: the visited
     * vertices are a nonempty proper subset of a connected graph, so some
     * frontier entry leaves them.
     */
    method DrawEdge(g: Graph, visited: seq<bool>, boundary: seq<Pair>) returns (r: seq<Pair>, nextedge: Pair)
      requires ValidGraph(|visited|, g) && Connected(|g|, g)
      requires Marked(visited) != {} && |Marked(visited)| < |g|
      requires BoundaryFrom(g, visited, boundary) && Frontier(g, visited, boundary, -1)
      modifies generator
      ensures 0 <= nextedge.0 < |g| && 0 <= nextedge.1 < |g|
      ensures visited[nextedge.0] && !visited[nextedge.1] && Adjacent(g, nextedge.0, nextedge.1)
      ensures BoundaryFrom(g, visited, r) && Frontier(g, visited, r, nextedge.1)
    {
      r := boundary;
      nextedge := (-1, -1);
      while nextedge.0 == -1
        invariant BoundaryFrom(g, visited, r)
        invariant nextedge.0 == -1 ==> Frontier(g, visited, r, -1)
        invariant nextedge.0 != -1 ==>
          0 <= nextedge.0 < |g| && 0 <= nextedge.1 < |g| &&
          visited[nextedge.0] && !visited[nextedge.1] && Adjacent(g, nextedge.0, nextedge.1) &&
          Frontier(g, visited, r, nextedge.1)
        decreases |r|
      {
        Leaves(g, visited);
        var u, j :| 0 <= u < |g| && 0 <= j < |g[u]| && visited[u] && 0 <= g[u][j].0 < |g| && !visited[g[u][j].0];
        assert (u, g[u][j].0) in r;
        var index := generator.UniformInt(0, |r| - 1);
        var last := |r| - 1;
        SwapKeeps(r, index, last);
        r := r[index := r[last]][last := r[index]];
        if !visited[r[last].1] {
          nextedge := r[last];
        }
        PopKeeps(r);
        r := r[..last];
      }
    }
  }
}
