/**
 * What the graph searches (depth-first and breadth-first) have in common: a
 * `visited` flag per vertex and a list of pairs, each pair recorded when its
 * second vertex is first reached.
 */
module Search {
  import opened Graphs
  import opened Trees

  /** Every internal neighbour of `u` is visited. */
  ghost predicate Finished(g: Graph, visited: seq<bool>, u: int)
    requires |visited| == |g| && 0 <= u < |g|
  {
    forall j :: 0 <= j < |g[u]| && 0 <= g[u][j].0 < |g| ==> visited[g[u][j].0]
  }

  /** Flags are only ever set. */
  ghost predicate Grows(before: seq<bool>, after: seq<bool>)
  {
    |before| == |after| && forall x :: 0 <= x < |before| && before[x] ==> after[x]
  }

  /**
   * The search state: the recorded pairs are a tree on the visited vertices,
   * each pair an internal wall, and everything visited is reachable from `start`.
   */
  ghost predicate Searched(g: Graph, visited: seq<bool>, tree: seq<Pair>, start: int)
  {
    ValidGraph(|visited|, g) &&
    Grown(|visited|, tree, Marked(visited)) && |tree| + 1 == |Marked(visited)| &&
    (forall k :: 0 <= k < |tree| ==> Adjacent(g, tree[k].0, tree[k].1)) &&
    (forall x :: 0 <= x < |visited| && visited[x] ==> Reach(g, start, x))
  }

  /** A finished vertex stays finished when more flags are set. */
  lemma FinishedGrows(g: Graph, before: seq<bool>, after: seq<bool>, u: int)
    requires |before| == |g| && 0 <= u < |g| && Finished(g, before, u) && Grows(before, after)
    ensures Finished(g, after, u)
  {
  }

  /**
   * Reaching the unvisited neighbour `g[u][j].0` of a visited `u`: flag it and
   * record the pair; the state stays a search state with one vertex more.
   */
  lemma Visit(g: Graph, visited: seq<bool>, tree: seq<Pair>, start: int, u: int, j: int)
    requires Searched(g, visited, tree, start) && 0 <= u < |g| && visited[u]
    requires 0 <= j < |g[u]| && 0 <= g[u][j].0 && !visited[g[u][j].0]
    ensures Searched(g, visited[g[u][j].0 := true], tree + [(u, g[u][j].0)], start)
    ensures |Marked(visited[g[u][j].0 := true])| == |Marked(visited)| + 1
  {
    var v := g[u][j].0;
    MarkOne(visited, v);
    GrowStep(|visited|, tree, Marked(visited), u, v);
    ReachStep(g, start, u, j);
    assert Adjacent(g, u, v);
    var tree' := tree + [(u, v)];
    assert forall k :: 0 <= k < |tree| ==> tree'[k] == tree[k];
  }

  /**
   * A search that has finished every visited vertex has visited exactly the
   * vertices reachable from its start, and on a connected graph its pairs
   * form a spanning tree.
   */
  lemma SearchOutcome(g: Graph, visited: seq<bool>, tree: seq<Pair>, start: int)
    requires Searched(g, visited, tree, start) && 0 <= start < |g| && visited[start]
    requires forall u :: 0 <= u < |g| && visited[u] ==> Finished(g, visited, u)
    ensures forall x :: 0 <= x < |g| ==> (visited[x] <==> Reach(g, start, x))
    ensures Connected(|g|, g) ==> IsSpanningTree(|g|, g, tree)
  {
    var R := Marked(visited);
    assert Closed(g, R);
    forall x | 0 <= x < |g| && Reach(g, start, x) ensures visited[x] {
      ReachInClosed(g, start, x, R);
    }
    if Connected(|g|, g) {
      assert R <= Vertices(|g|);
      assert R == Vertices(|g|);
      VerticesCard(|g|);
    }
  }
}
