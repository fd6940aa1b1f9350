/**
 * Randomized breadth-first search (src/breadthfirstsearch.cpp): from a random
 * start, expand the search one level at a time; every vertex first reached
 * from the current level records a pair and joins the next level, which is
 * shuffled before it is expanded.
 */
module BreadthFirstSearch {
  import opened Graphs
  import opened Trees
  import Random
  import opened Search

  /** The members of a level are visited vertices. */
  ghost predicate LevelIn(visited: seq<bool>, level: seq<int>)
  {
    forall k :: 0 <= k < |level| ==> 0 <= level[k] < |visited| && visited[level[k]]
  }

  /** Every visited vertex outside `level` is finished. */
  ghost predicate Waiting(g: Graph, visited: seq<bool>, level: seq<int>)
    requires |visited| == |g|
  {
    forall u :: 0 <= u < |g| && visited[u] && u !in level ==> Finished(g, visited, u)
  }

  /** Shuffling a level keeps its members, so nothing else becomes unfinished. */
  lemma Reordered(g: Graph, visited: seq<bool>, a: seq<int>, b: seq<int>)
    requires |visited| == |g| && multiset(a) == multiset(b)
    requires Waiting(g, visited, a) && LevelIn(visited, a)
    ensures Waiting(g, visited, b) && LevelIn(visited, b)
  {
    forall x ensures x in a <==> x in b {
      assert x in a <==> x in multiset(a);
      assert x in b <==> x in multiset(b);
    }
    forall k | 0 <= k < |b| ensures 0 <= b[k] < |visited| && visited[b[k]] {
      assert b[k] in a;
    }
  }

  /**
   * What expanding a vertex has done so far to the flags and the next level
   * since `visited0` and `next0`: set flags only, each new one once in the
   * next level, and dropped nothing from it.
   */
  ghost predicate Collected(visited0: seq<bool>, next0: seq<int>, visited: seq<bool>, next: seq<int>)
  {
    Grows(visited0, visited) && LevelIn(visited, next) &&
    |Marked(visited)| - |next| == |Marked(visited0)| - |next0| &&
    (forall x :: x in next0 ==> x in next) &&
    (forall u :: 0 <= u < |visited| && visited[u] && !visited0[u] ==> u in next)
  }

  /** The internal neighbours at the first `j` positions of the list of `vertex` are visited. */
  ghost predicate SeenUpTo(g: Graph, visited: seq<bool>, vertex: int, j: int)
    requires |visited| == |g| && 0 <= vertex < |g| && j <= |g[vertex]|
  {
    forall k :: 0 <= k < j && 0 <= g[vertex][k].0 < |g| ==> visited[g[vertex][k].0]
  }

  lemma CollectedTrans(v0: seq<bool>, n0: seq<int>, v1: seq<bool>, n1: seq<int>, v2: seq<bool>, n2: seq<int>)
    requires Collected(v0, n0, v1, n1) && Collected(v1, n1, v2, n2)
    ensures Collected(v0, n0, v2, n2)
  {
  }

  lemma SeenStep(g: Graph, before: seq<bool>, after: seq<bool>, vertex: int, j: int)
    requires |before| == |g| && 0 <= vertex < |g| && 0 <= j < |g[vertex]|
    requires SeenUpTo(g, before, vertex, j) && Grows(before, after)
    requires 0 <= g[vertex][j].0 < |g| ==> after[g[vertex][j].0]
    ensures SeenUpTo(g, after, vertex, j + 1)
  {
  }

  class BreadthFirstSearch {
    const generator: Random.Generator
    var visited: seq<bool>
    var currentlevel: seq<int>
    var nextlevel: seq<int>
    var minimumspanningtree: seq<Pair>

    constructor (generator: Random.Generator)
      ensures this.generator == generator && visited == [] && minimumspanningtree == []
      ensures Idle()
    {
      this.generator := generator;
      visited := [];
      currentlevel := [];
      nextlevel := [];
      minimumspanningtree := [];
    }

    /** Between calls both level buffers are empty: the search loop only stops once they are. */
    ghost predicate Idle()
      reads this
    {
      currentlevel == [] && nextlevel == []
    }

    /**
     * `BreadthFirstSearch::MinimumSpanningTree`: the visited vertices are
     * exactly those reachable from the start, the pairs form a tree on them,
     * and both level buffers are empty again at the end.
     */
    method MinimumSpanningTree(vertices: int, adjacencylist: Graph) returns (tree: seq<Pair>, ghost start: int)
      requires ValidGraph(vertices, adjacencylist) && vertices >= 1 && Idle()
      modifies this, generator
      ensures Idle() && tree == minimumspanningtree && |visited| == vertices && 0 <= start < vertices
      ensures forall x :: 0 <= x < vertices ==> (visited[x] <==> Reach(adjacencylist, start, x))
      ensures Grown(vertices, tree, Marked(visited)) && |tree| + 1 == |Marked(visited)|
      ensures forall k :: 0 <= k < |tree| ==> Adjacent(adjacencylist, tree[k].0, tree[k].1)
      ensures Connected(vertices, adjacencylist) ==> IsSpanningTree(vertices, adjacencylist, tree)
    {
      visited := seq(vertices, _ => false);
      MarkedNone(vertices);
      var startvertex := generator.UniformInt(0, vertices - 1);
      start := startvertex;
      currentlevel := currentlevel + [startvertex];
      MarkOne(visited, startvertex);
      visited := visited[startvertex := true];
      minimumspanningtree := [];
      GrownStart(vertices, startvertex);
      while currentlevel != []
        invariant |visited| == vertices && 0 <= start < vertices && visited[start]
        invariant Searched(adjacencylist, visited, minimumspanningtree, start)
        invariant nextlevel == [] && LevelIn(visited, currentlevel)
        invariant Waiting(adjacencylist, visited, currentlevel)
        decreases vertices - |Marked(visited)| + |currentlevel|
      {
        MarkedBound(visited);
        ghost var before := visited;
        ghost var level := currentlevel;
        Level(adjacencylist, start);
        forall u | 0 <= u < vertices && visited[u] && u !in nextlevel
          ensures Finished(adjacencylist, visited, u)
        {
          if u !in level {
            FinishedGrows(adjacencylist, before, visited, u);
          }
        }
        ghost var next := nextlevel;
        currentlevel := [];
        currentlevel, nextlevel := nextlevel, currentlevel;
        currentlevel := generator.Shuffle(currentlevel);
        Reordered(adjacencylist, visited, next, currentlevel);
        MarkedBound(visited);
      }
      tree := minimumspanningtree;
      SearchOutcome(adjacencylist, visited, tree, start);
    }

    /** The `for` over `currentlevel`: expand every vertex of the level, collecting the next level. */
    method Level(g: Graph, ghost start: int)
      requires Searched(g, visited, minimumspanningtree, start) && nextlevel == []
      requires LevelIn(visited, currentlevel)
      modifies this
      ensures currentlevel == old(currentlevel) && Searched(g, visited, minimumspanningtree, start)
      ensures Grows(old(visited), visited) && LevelIn(visited, nextlevel)
      ensures |Marked(visited)| == |Marked(old(visited))| + |nextlevel|
      ensures forall u :: 0 <= u < |visited| && visited[u] && !old(visited)[u] ==> u in nextlevel
      ensures forall k :: 0 <= k < |currentlevel| ==> Finished(g, visited, currentlevel[k])
    {
      for idx := 0 to |currentlevel|
        invariant currentlevel == old(currentlevel) && Searched(g, visited, minimumspanningtree, start)
        invariant Grows(old(visited), visited) && LevelIn(visited, nextlevel)
        invariant |Marked(visited)| == |Marked(old(visited))| + |nextlevel|
        invariant forall u :: 0 <= u < |visited| && visited[u] && !old(visited)[u] ==> u in nextlevel
        invariant forall k :: 0 <= k < idx ==> Finished(g, visited, currentlevel[k])
      {
        ghost var before := visited;
        Expand(currentlevel[idx], g, start);
        forall k | 0 <= k < idx ensures Finished(g, visited, currentlevel[k]) {
          FinishedGrows(g, before, visited, currentlevel[k]);
        }
      }
    }

    /** The inner `for`: every unvisited internal neighbour is flagged, recorded and queued. */
    method Expand(vertex: int, g: Graph, ghost start: int)
      requires Searched(g, visited, minimumspanningtree, start) && 0 <= vertex < |visited| && visited[vertex]
      requires LevelIn(visited, nextlevel)
      modifies this
      ensures currentlevel == old(currentlevel) && Searched(g, visited, minimumspanningtree, start)
      ensures Grows(old(visited), visited) && LevelIn(visited, nextlevel) && Finished(g, visited, vertex)
      ensures |Marked(visited)| - |nextlevel| == |Marked(old(visited))| - |old(nextlevel)|
      ensures forall x :: x in old(nextlevel) ==> x in nextlevel
      ensures forall u :: 0 <= u < |visited| && visited[u] && !old(visited)[u] ==> u in nextlevel
    {
      for j := 0 to |g[vertex]|
        invariant currentlevel == old(currentlevel) && Searched(g, visited, minimumspanningtree, start)
        invariant Collected(old(visited), old(nextlevel), visited, nextlevel)
        invariant SeenUpTo(g, visited, vertex, j)
      {
        ghost var visited1, next1 := visited, nextlevel;
        Look(vertex, j, g, start);
        CollectedTrans(old(visited), old(nextlevel), visited1, next1, visited, nextlevel);
        SeenStep(g, visited1, visited, vertex, j);
      }
    }

    /** One pass of the inner `for`: an unvisited internal neighbour is visited, recorded and queued. */
    method Look(vertex: int, j: int, g: Graph, ghost start: int)
      requires Searched(g, visited, minimumspanningtree, start) && 0 <= vertex < |visited| && visited[vertex]
      requires 0 <= j < |g[vertex]| && LevelIn(visited, nextlevel)
      modifies this
      ensures currentlevel == old(currentlevel) && Searched(g, visited, minimumspanningtree, start)
      ensures Collected(old(visited), old(nextlevel), visited, nextlevel)
      ensures 0 <= g[vertex][j].0 < |g| ==> visited[g[vertex][j].0]
    {
      var nextvertex := g[vertex][j].0;
      if nextvertex >= 0 && !visited[nextvertex] {
        Visit(g, visited, minimumspanningtree, start, vertex, j);
        visited := visited[nextvertex := true];
        minimumspanningtree := minimumspanningtree + [(vertex, nextvertex)];
        nextlevel := nextlevel + [nextvertex];
      }
    }
  }
}
