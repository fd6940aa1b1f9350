/**
 * Randomized depth-first search (src/algorithms/depthfirstsearch.cpp, and the
 * same algorithm behind the older interface in src/depthfirstsearch.cpp):
 * from a random start, visit the neighbours of each vertex in a shuffled
 * order, recording a pair for every vertex first reached.
 */
module DepthFirstSearch {
  import opened Graphs
  import opened Trees
  import opened Sequences
  import Random
  import opened Search

  /** The neighbours of `vertex` at the first `k` shuffled positions are visited. */
  ghost predicate Covered(g: Graph, visited: seq<bool>, vertex: int, nodeorder: seq<int>, k: int)
    requires |visited| == |g| && 0 <= vertex < |g| && 0 <= k <= |nodeorder|
    requires forall m :: 0 <= m < |nodeorder| ==> 0 <= nodeorder[m] < |g[vertex]|
  {
    forall m :: 0 <= m < k && 0 <= g[vertex][nodeorder[m]].0 < |g| ==> visited[g[vertex][nodeorder[m]].0]
  }

  /** Setting more flags keeps the covered positions covered, and covers one more once its neighbour is visited. */
  lemma CoveredStep(g: Graph, before: seq<bool>, after: seq<bool>, vertex: int, nodeorder: seq<int>, k: int)
    requires |before| == |g| && 0 <= vertex < |g| && 0 <= k < |nodeorder|
    requires forall m :: 0 <= m < |nodeorder| ==> 0 <= nodeorder[m] < |g[vertex]|
    requires Covered(g, before, vertex, nodeorder, k) && Grows(before, after)
    requires 0 <= g[vertex][nodeorder[k]].0 < |g| ==> after[g[vertex][nodeorder[k]].0]
    ensures Covered(g, after, vertex, nodeorder, k + 1)
  {
  }

  /** Since `visited0` flags were only set, `vertex` among them, and each newly set one but `vertex` is finished. */
  ghost predicate FinishedSince(g: Graph, visited0: seq<bool>, visited: seq<bool>, vertex: int)
    requires |visited| == |g|
  {
    Grows(visited0, visited) && 0 <= vertex < |visited| && visited[vertex] &&
    forall u :: 0 <= u < |visited| && visited[u] && !visited0[u] && u != vertex ==> Finished(g, visited, u)
  }

  /** Marking a reachable vertex whose pair is already recorded gives a search state. */
  lemma Enter(g: Graph, visited: seq<bool>, tree: seq<Pair>, start: int, vertex: int)
    requires ValidGraph(|visited|, g) && 0 <= vertex < |visited| && !visited[vertex]
    requires Grown(|visited|, tree, Marked(visited) + {vertex}) && |tree| == |Marked(visited)|
    requires forall k :: 0 <= k < |tree| ==> Adjacent(g, tree[k].0, tree[k].1)
    requires Reach(g, start, vertex)
    requires forall x :: 0 <= x < |visited| && visited[x] ==> Reach(g, start, x)
    ensures Searched(g, visited[vertex := true], tree, start)
  {
    MarkOne(visited, vertex);
  }

  /**
   * Once every shuffled position is covered, `vertex` is finished, and so is
   * everything newly visited since `visited0`.
   */
  lemma AllCovered(g: Graph, visited0: seq<bool>, visited: seq<bool>, vertex: int, nodeorder: seq<int>)
    requires |visited| == |g| && 0 <= vertex < |g|
    requires forall m :: 0 <= m < |nodeorder| ==> 0 <= nodeorder[m] < |g[vertex]|
    requires forall j :: 0 <= j < |g[vertex]| ==> j in nodeorder
    requires Covered(g, visited, vertex, nodeorder, |nodeorder|)
    requires |visited0| == |g| && FinishedSince(g, visited0[vertex := true], visited, vertex)
    ensures Grows(visited0, visited) && visited[vertex]
    ensures forall u :: 0 <= u < |visited| && visited[u] && !visited0[u] ==> Finished(g, visited, u)
  {
    forall j | 0 <= j < |g[vertex]| && 0 <= g[vertex][j].0 < |visited|
      ensures visited[g[vertex][j].0]
    {
      assert j in nodeorder;
      var m :| 0 <= m < |nodeorder| && nodeorder[m] == j;
    }
  }

  class DepthFirstSearch {
    const generator: Random.Generator
    var visited: seq<bool>
    var spanningtree: seq<Pair>

    constructor (generator: Random.Generator)
      ensures this.generator == generator && visited == [] && spanningtree == []
    {
      this.generator := generator;
      visited := [];
      spanningtree := [];
    }

    /**
     * `DepthFirstSearch::SpanningTree` (also the older `MinimumSpanningTree`):
     * the visited vertices are exactly those reachable from the start, and the
     * pairs form a tree on them, one pair fewer than vertices.
     */
    method SpanningTree(vertices: int, adjacencylist: Graph) returns (tree: seq<Pair>, ghost start: int)
      requires ValidGraph(vertices, adjacencylist) && vertices >= 1
      modifies this, generator
      ensures tree == spanningtree && |visited| == vertices && 0 <= start < vertices
      ensures forall x :: 0 <= x < vertices ==> (visited[x] <==> Reach(adjacencylist, start, x))
      ensures Grown(vertices, tree, Marked(visited)) && |tree| + 1 == |Marked(visited)|
      ensures forall k :: 0 <= k < |tree| ==> Adjacent(adjacencylist, tree[k].0, tree[k].1)
      ensures Connected(vertices, adjacencylist) ==> IsSpanningTree(vertices, adjacencylist, tree)
    {
      spanningtree := [];
      visited := seq(vertices, _ => false);
      MarkedNone(vertices);
      var first := generator.UniformInt(0, vertices - 1);
      start := first;
      GrownStart(vertices, start);
      DFS(first, adjacencylist, start);
      tree := spanningtree;
      SearchOutcome(adjacencylist, visited, tree, start);
    }

    /** The fields form a search state from `start`. */
    ghost predicate Searching(g: Graph, start: int)
      reads this
    {
      Searched(g, visited, spanningtree, start)
    }

    /**
     * `DepthFirstSearch::DFS`: mark `vertex`, then for each neighbour in shuffled
     * order that is still unvisited record the pair and search from it.
     */
    method DFS(vertex: int, adjacencylist: Graph, ghost start: int)
      requires ValidGraph(|visited|, adjacencylist) && 0 <= vertex < |visited| && !visited[vertex]
      requires Grown(|visited|, spanningtree, Marked(visited) + {vertex})
      requires |spanningtree| == |Marked(visited)|
      requires forall k :: 0 <= k < |spanningtree| ==>
        Adjacent(adjacencylist, spanningtree[k].0, spanningtree[k].1)
      requires Reach(adjacencylist, start, vertex)
      requires forall x :: 0 <= x < |visited| && visited[x] ==> Reach(adjacencylist, start, x)
      modifies this, generator
      ensures Searching(adjacencylist, start)
      ensures Grows(old(visited), visited) && visited[vertex]
      ensures old(spanningtree) <= spanningtree
      ensures forall u :: 0 <= u < |visited| && visited[u] && !old(visited)[u] ==>
        Finished(adjacencylist, visited, u)
      decreases |visited| - |Marked(visited)|, 0
    {
      Enter(adjacencylist, visited, spanningtree, start, vertex);
      visited := visited[vertex := true];
      var nodeorder := generator.Shuffle(Iota(|adjacencylist[vertex]|));
      PermutationOfIota(nodeorder, |adjacencylist[vertex]|);
      MarkedBound(visited);
      Neighbours(vertex, nodeorder, adjacencylist, start);
      AllCovered(adjacencylist, old(visited), visited, vertex, nodeorder);
    }

    /** The `for` loop of `DFS`: explore the neighbours of `vertex` in shuffled order. */
    method Neighbours(vertex: int, nodeorder: seq<int>, adjacencylist: Graph, ghost start: int)
      requires Searching(adjacencylist, start) && 0 <= vertex < |visited| && visited[vertex]
      requires forall m :: 0 <= m < |nodeorder| ==> 0 <= nodeorder[m] < |adjacencylist[vertex]|
      modifies this, generator
      ensures Searching(adjacencylist, start)
      ensures FinishedSince(adjacencylist, old(visited), visited, vertex)
      ensures old(spanningtree) <= spanningtree
      ensures Covered(adjacencylist, visited, vertex, nodeorder, |nodeorder|)
      decreases |visited| - |Marked(visited)|, 2
    {
      var k := 0;
      while k < |nodeorder|
        invariant 0 <= k <= |nodeorder|
        invariant Searching(adjacencylist, start)
        invariant FinishedSince(adjacencylist, old(visited), visited, vertex)
        invariant old(spanningtree) <= spanningtree
        invariant Covered(adjacencylist, visited, vertex, nodeorder, k)
      {
        ghost var before := visited;
        MarkedBound(visited);
        Explore(vertex, adjacencylist[vertex][nodeorder[k]].0, adjacencylist, start, nodeorder[k]);
        CoveredStep(adjacencylist, before, visited, vertex, nodeorder, k);
        k := k + 1;
      }
    }

    /** One pass of the `for` loop of `DFS`: skip an outside wall or a visited vertex, else descend. */
    method Explore(vertex: int, nextvertex: int, adjacencylist: Graph, ghost start: int, ghost index: int)
      requires Searching(adjacencylist, start) && 0 <= vertex < |visited| && visited[vertex]
      requires 0 <= index < |adjacencylist[vertex]| && adjacencylist[vertex][index].0 == nextvertex
      modifies this, generator
      ensures Searching(adjacencylist, start)
      ensures Grows(old(visited), visited) && (nextvertex >= 0 ==> visited[nextvertex])
      ensures old(spanningtree) <= spanningtree
      ensures forall u :: 0 <= u < |visited| && visited[u] && !old(visited)[u] ==>
        Finished(adjacencylist, visited, u)
      decreases |visited| - |Marked(visited)|, 1
    {
      if nextvertex < 0 || visited[nextvertex] {
        return;
      }
      GrowStep(|visited|, spanningtree, Marked(visited), vertex, nextvertex);
      ReachStep(adjacencylist, start, vertex, index);
      spanningtree := spanningtree + [(vertex, nextvertex)];
      DFS(nextvertex, adjacencylist, start);
    }
  }
}
