/**
 * Depth-first search on the character board (dfs.cpp): see the current cell,
 * shuffle the four directions, and for each direction whose cell is inside the
 * board and still unseen, knock the wall down and search from that cell.
 */
module LegacyDFS {
  import opened Graphs
  import opened Trees
  import opened MazeBase
  import opened Search
  import RectangularMaze
  import Random
  import DepthFirstSearch

  /** A search state of the H x W grid from `start` (no board involved). */
  ghost predicate Tracing(H: int, W: int, visited: seq<bool>, T: seq<Pair>, start: int)
  {
    H >= 1 && W >= 1 && |visited| == H * W && Searched(RectangularMaze.Layout(W, H), visited, T, start)
  }

  /**
   * About to see vertex `x`: it is unvisited and reachable from `start`, and the
   * pairs are a tree that already reaches it.
   */
  ghost predicate Entering(H: int, W: int, visited: seq<bool>, T: seq<Pair>, start: int, x: int)
  {
    H >= 1 && W >= 1 && |visited| == H * W && 0 <= x < H * W && !visited[x] &&
    Grown(H * W, T, Marked(visited) + {x}) && |T| == |Marked(visited)| &&
    (forall k :: 0 <= k < |T| ==> Adjacent(RectangularMaze.Layout(W, H), T[k].0, T[k].1)) &&
    Reach(RectangularMaze.Layout(W, H), start, x) &&
    (forall y :: 0 <= y < |visited| && visited[y] ==> Reach(RectangularMaze.Layout(W, H), start, y))
  }

  /** Every vertex flagged in `after` but not in `before` is finished. */
  ghost predicate FinishedNew(H: int, W: int, before: seq<bool>, after: seq<bool>)
  {
    H >= 1 && W >= 1 && |before| == |after| == |RectangularMaze.Layout(W, H)| &&
    forall y :: 0 <= y < |after| && after[y] && !before[y] ==> Finished(RectangularMaze.Layout(W, H), after, y)
  }

  /** The seen grid mirrors a search state, and the board shows its walls. */
  ghost predicate Searching(H: int, W: int, seen: array2<bool>, maze: array2<char>, visited: seq<bool>,
                            T: seq<Pair>, start: int)
    reads seen, maze
  {
    Tracing(H, W, visited, T, start) && Mirrors(seen, H, W, visited) && Shows(maze, H, W, T)
  }

  /** Setting more flags never shrinks the marked set, which stays within the flags. */
  lemma MarkedGrows(before: seq<bool>, after: seq<bool>)
    requires Grows(before, after)
    ensures |Marked(before)| <= |Marked(after)| <= |after|
  {
    assert Marked(before) <= Marked(after);
    SubsetCard(Marked(before), Marked(after));
    MarkedBound(after);
  }

  /** Seeing the vertex one is about to see gives a search state with one vertex more. */
  lemma EnterVertex(H: int, W: int, visited: seq<bool>, T: seq<Pair>, start: int, x: int)
    requires Entering(H, W, visited, T, start, x)
    ensures Tracing(H, W, visited[x := true], T, start)
    ensures |Marked(visited)| < |Marked(visited[x := true])| <= H * W
  {
    DepthFirstSearch.Enter(RectangularMaze.Layout(W, H), visited, T, start, x);
    MarkOne(visited, x);
    MarkedBound(visited[x := true]);
  }

  /** From a visited vertex, the wall to an unvisited neighbouring cell leads to a vertex one is about to see. */
  lemma Descend(H: int, W: int, visited: seq<bool>, T: seq<Pair>, start: int, a: Position, c: Position)
    requires Tracing(H, W, visited, T, start) && InGrid(H, W, a) && InGrid(H, W, c) && Neighbours(a, c)
    requires 0 <= VertexOf(W, a) < H * W && visited[VertexOf(W, a)]
    requires 0 <= VertexOf(W, c) < H * W && !visited[VertexOf(W, c)]
    ensures Entering(H, W, visited, T + [(VertexOf(W, a), VertexOf(W, c))], start, VertexOf(W, c))
  {
    CellsAdjacent(H, W, a, c);
    DescendEdge(H, W, visited, T, start, VertexOf(W, a), VertexOf(W, c));
  }

  /** From a visited vertex, a wall of the grid to an unvisited vertex leads to a vertex one is about to see. */
  lemma DescendEdge(H: int, W: int, visited: seq<bool>, T: seq<Pair>, start: int, x: int, y: int)
    requires Tracing(H, W, visited, T, start) && 0 <= x < H * W && 0 <= y < H * W && visited[x] && !visited[y]
    requires Adjacent(RectangularMaze.Layout(W, H), x, y)
    ensures Entering(H, W, visited, T + [(x, y)], start, y)
  {
    var g: Graph := RectangularMaze.Layout(W, H);
    var j :| 0 <= j < |g[x]| && g[x][j].0 == y;
    GrowStep(H * W, T, Marked(visited), x, y);
    ReachStep(g, start, x, j);
    var T1 := T + [(x, y)];
    assert forall k :: 0 <= k < |T| ==> T1[k] == T[k];
  }

  /** Cell `c` is inside the board and its vertex is visited. */
  ghost predicate VisitedCell(H: int, W: int, visited: seq<bool>, c: Position)
  {
    InGrid(H, W, c) && 0 <= VertexOf(W, c) < |visited| && visited[VertexOf(W, c)]
  }

  /** A shuffle of the four directions. */
  predicate Directions(order: seq<int>)
  {
    multiset(order) == multiset([0, 1, 2, 3])
  }

  /** A shuffle of the four directions holds each of them. */
  lemma DirectionsRange(order: seq<int>)
    requires Directions(order)
    ensures |order| == |Neigh|
    ensures forall m :: 0 <= m < |order| ==> 0 <= order[m] < |Neigh|
    ensures forall q :: 0 <= q < |Neigh| ==> q in order
  {
    assert |multiset(order)| == |multiset([0, 1, 2, 3])|;
    forall m | 0 <= m < |order| ensures 0 <= order[m] < |Neigh| {
      assert order[m] in multiset(order);
    }
    forall q | 0 <= q < |Neigh| ensures q in order {
      assert q in multiset([0, 1, 2, 3]);
    }
  }

  /** The cells at the first `k` shuffled directions from `a` are visited when they are inside the board. */
  ghost predicate Covered(H: int, W: int, visited: seq<bool>, a: Position, order: seq<int>, k: int)
    requires 0 <= k <= |order| && forall m :: 0 <= m < |order| ==> 0 <= order[m] < |Neigh|
  {
    forall m :: 0 <= m < k && InGrid(H, W, Step(a, order[m])) ==> VisitedCell(H, W, visited, Step(a, order[m]))
  }

  /** Setting more flags keeps the covered directions, and covers one more once its cell is visited. */
  lemma CoveredStep(H: int, W: int, before: seq<bool>, after: seq<bool>, a: Position, order: seq<int>, k: int)
    requires 0 <= k < |order| && forall m :: 0 <= m < |order| ==> 0 <= order[m] < |Neigh|
    requires Covered(H, W, before, a, order, k) && Grows(before, after)
    requires InGrid(H, W, Step(a, order[k])) ==> VisitedCell(H, W, after, Step(a, order[k]))
    ensures Covered(H, W, after, a, order, k + 1)
  {
  }

  /** Once all four directions are covered, every wall of the grid from the vertex of `a` leads to a visited vertex. */
  lemma AllCovered(H: int, W: int, visited: seq<bool>, a: Position, order: seq<int>)
    requires H >= 1 && W >= 1 && |visited| == H * W && InGrid(H, W, a) && Directions(order)
    requires |order| == |Neigh| && forall m :: 0 <= m < |order| ==> 0 <= order[m] < |Neigh|
    requires Covered(H, W, visited, a, order, |order|)
    ensures 0 <= VertexOf(W, a) < H * W
    ensures Finished(RectangularMaze.Layout(W, H), visited, VertexOf(W, a))
  {
    var g: Graph := RectangularMaze.Layout(W, H);
    var x := VertexOf(W, a);
    CellVertex(H, W, a);
    DirectionsRange(order);
    forall j | 0 <= j < |g[x]| && 0 <= g[x][j].0 < |g| ensures visited[g[x][j].0] {
      var y := g[x][j].0;
      assert Adjacent(g, x, y);
      GridPairAdjacent(H, W, (x, y));
      VertexCell(H, W, y);
      var c := CellOf(W, y);
      StepNeighbours(a, c);
      var q :| 0 <= q < |Neigh| && c == Step(a, q);
      var m :| 0 <= m < |order| && order[m] == q;
      assert VisitedCell(H, W, visited, Step(a, order[m]));
    }
  }

  /**
   * Leaving the vertex of `a` after all four directions: it and everything seen
   * since it was are finished.
   */
  lemma Leave(H: int, W: int, visited: seq<bool>, visited': seq<bool>, a: Position, order: seq<int>)
    requires H >= 1 && W >= 1 && |visited| == H * W && InGrid(H, W, a) && Directions(order)
    requires |order| == |Neigh| && forall m :: 0 <= m < |order| ==> 0 <= order[m] < |Neigh|
    requires 0 <= VertexOf(W, a) < H * W
    requires |visited'| == |RectangularMaze.Layout(W, H)|
    requires DepthFirstSearch.FinishedSince(RectangularMaze.Layout(W, H), visited[VertexOf(W, a) := true], visited', VertexOf(W, a))
    requires Covered(H, W, visited', a, order, |order|)
    ensures Grows(visited, visited') && visited'[VertexOf(W, a)]
    ensures FinishedNew(H, W, visited, visited')
  {
    AllCovered(H, W, visited', a, order);
  }

  /**
   * `DFS_algorithm`: see cell (u, v), then look at its neighbours in a freshly
   * shuffled order. Afterwards the cell and everything seen on the way are
   * finished: all their neighbours on the grid are seen.
   */
  method DFSAlgorithm(u: int, v: int, H: int, W: int, seen: array2<bool>, maze: array2<char>,
                      generator: Random.Generator, ghost visited: seq<bool>, ghost T: seq<Pair>, ghost start: int)
    returns (ghost visited': seq<bool>, ghost T': seq<Pair>)
    requires 0 <= u < H && 0 <= v < W && Entering(H, W, visited, T, start, VertexOf(W, (u, v)))
    requires Mirrors(seen, H, W, visited) && Shows(maze, H, W, T)
    modifies seen, maze, generator
    ensures Searching(H, W, seen, maze, visited', T', start)
    ensures Grows(visited, visited') && visited'[VertexOf(W, (u, v))] && T <= T'
    ensures FinishedNew(H, W, visited, visited')
    decreases |visited| - |Marked(visited)|, 0
  {
    ghost var x := VertexOf(W, (u, v));
    CellVertex(H, W, (u, v));
    seen[u, v] := true;
    MirrorsMark(seen, H, W, visited, (u, v));
    EnterVertex(H, W, visited, T, start, x);
    ghost var visited1 := visited[x := true];
    var order := generator.Shuffle([0, 1, 2, 3]);
    DirectionsRange(order);
    visited', T' := DFSNeighbours(u, v, H, W, seen, maze, generator, order, visited1, T, start);
    Leave(H, W, visited, visited', (u, v), order);
  }

  /** The `for` loop of `DFS_algorithm`: the four shuffled directions, in order. */
  method DFSNeighbours(u: int, v: int, H: int, W: int, seen: array2<bool>, maze: array2<char>,
                       generator: Random.Generator, order: seq<int>,
                       ghost visited: seq<bool>, ghost T: seq<Pair>, ghost start: int)
    returns (ghost visited': seq<bool>, ghost T': seq<Pair>)
    requires Searching(H, W, seen, maze, visited, T, start) && 0 <= u < H && 0 <= v < W
    requires 0 <= VertexOf(W, (u, v)) < H * W && visited[VertexOf(W, (u, v))]
    requires |order| == |Neigh| && forall m :: 0 <= m < |order| ==> 0 <= order[m] < |Neigh|
    modifies seen, maze, generator
    ensures Searching(H, W, seen, maze, visited', T', start)
    ensures DepthFirstSearch.FinishedSince(RectangularMaze.Layout(W, H), visited, visited', VertexOf(W, (u, v)))
    ensures T <= T'
    ensures Covered(H, W, visited', (u, v), order, |order|)
    decreases |visited| - |Marked(visited)|, 3
  {
    visited', T' := visited, T;
    for i := 0 to 4
      invariant Searching(H, W, seen, maze, visited', T', start)
      invariant DepthFirstSearch.FinishedSince(RectangularMaze.Layout(W, H), visited, visited', VertexOf(W, (u, v)))
      invariant T <= T'
      invariant Covered(H, W, visited', (u, v), order, i)
    {
      ghost var before := visited';
      MarkedGrows(visited, visited');
      visited', T' := DFSExplore(u, v, order[i], H, W, seen, maze, generator, visited', T', start);
      CoveredStep(H, W, before, visited', (u, v), order, i);
    }
  }

  /**
   * One pass of the `for` loop of `DFS_algorithm`: skip a direction that leaves
   * the board or leads to a seen cell; otherwise knock the wall down and search
   * from the new cell.
   */
  method DFSExplore(u: int, v: int, q: int, H: int, W: int, seen: array2<bool>, maze: array2<char>,
                    generator: Random.Generator, ghost visited: seq<bool>, ghost T: seq<Pair>, ghost start: int)
    returns (ghost visited': seq<bool>, ghost T': seq<Pair>)
    requires Searching(H, W, seen, maze, visited, T, start) && 0 <= u < H && 0 <= v < W
    requires 0 <= VertexOf(W, (u, v)) < H * W && visited[VertexOf(W, (u, v))] && 0 <= q < |Neigh|
    modifies seen, maze, generator
    ensures Searching(H, W, seen, maze, visited', T', start)
    ensures Grows(visited, visited') && T <= T'
    ensures InGrid(H, W, Step((u, v), q)) ==> VisitedCell(H, W, visited', Step((u, v), q))
    ensures FinishedNew(H, W, visited, visited')
    decreases |visited| - |Marked(visited)|, 2
  {
    var unext, vnext := u + Neigh[q].0, v + Neigh[q].1;
    ghost var c := (unext, vnext);
    StepAt((u, v), q);
    if unext < 0 || unext >= H || vnext < 0 || vnext >= W {
      return visited, T;
    }
    CellVertex(H, W, c);
    assert seen[unext, vnext] == visited[VertexOf(W, c)];
    if seen[unext, vnext] {
      return visited, T;
    }
    StepNeighbours((u, v), c);
    visited', T' := DFSDescend(u, v, unext, vnext, H, W, seen, maze, generator, visited, T, start);
  }

  /** The wall between seen cell (u, v) and unseen neighbour (unext, vnext) comes down, and the search goes on there. */
  method DFSDescend(u: int, v: int, unext: int, vnext: int, H: int, W: int, seen: array2<bool>, maze: array2<char>,
                    generator: Random.Generator, ghost visited: seq<bool>, ghost T: seq<Pair>, ghost start: int)
    returns (ghost visited': seq<bool>, ghost T': seq<Pair>)
    requires Searching(H, W, seen, maze, visited, T, start) && InGrid(H, W, (u, v)) && InGrid(H, W, (unext, vnext))
    requires Neighbours((u, v), (unext, vnext))
    requires 0 <= VertexOf(W, (u, v)) < H * W && visited[VertexOf(W, (u, v))]
    requires 0 <= VertexOf(W, (unext, vnext)) < H * W && !visited[VertexOf(W, (unext, vnext))]
    modifies seen, maze, generator
    ensures Searching(H, W, seen, maze, visited', T', start)
    ensures Grows(visited, visited') && visited'[VertexOf(W, (unext, vnext))] && T <= T'
    ensures FinishedNew(H, W, visited, visited')
    decreases |visited| - |Marked(visited)|, 1
  {
    CellsAdjacent(H, W, (u, v), (unext, vnext));
    ghost var e := (VertexOf(W, (u, v)), VertexOf(W, (unext, vnext)));
    Descend(H, W, visited, T, start, (u, v), (unext, vnext));
    RemoveEdge(u, v, unext, vnext, maze, H, W, T, e);
    visited', T' := DFSAlgorithm(unext, vnext, H, W, seen, maze, generator, visited, T + [e], start);
  }

  /**
   * `DFS_createmaze`: code 1 when `initmaze` refuses the size, the board left as
   * it was; otherwise code 0, a search from a random cell, and a fresh board
   * whose knocked-down walls form a spanning tree of the H x W grid.
   */
  method DFSCreateMaze(H: int, W: int, maze: array2<char>, generator: Random.Generator)
    returns (ret: int, board: array2<char>, ghost T: seq<Pair>)
    modifies generator
    ensures ret == 0 || ret == 1
    ensures ret == 1 <==> H <= 0 || H > 1000 || W <= 0 || W > 1000
    ensures ret == 1 ==> board == maze
    ensures ret == 0 ==> fresh(board) && Shows(board, H, W, T)
    ensures ret == 0 ==> IsSpanningTree(H * W, RectangularMaze.Layout(W, H), T)
  {
    var err;
    err, board := InitMaze(H, W, maze);
    if err != 0 {
      return 1, board, [];
    }
    T := DFSSearch(H, W, board, generator);
    ret := 0;
  }

  /**
   * The search of `DFS_createmaze`: a grid of unset flags and a random start
   * cell; the walls the search knocks down form a spanning tree of the grid.
   */
  method DFSSearch(H: int, W: int, maze: array2<char>, generator: Random.Generator) returns (ghost T: seq<Pair>)
    requires H >= 1 && W >= 1 && Shows(maze, H, W, [])
    modifies maze, generator
    ensures Shows(maze, H, W, T) && IsSpanningTree(H * W, RectangularMaze.Layout(W, H), T)
  {
    var seen := new bool[H, W]((i, j) => false);
    MirrorsNone(seen, H, W);
    ghost var visited := seq(H * W, _ => false);
    var u := generator.Below(H);
    var v := generator.Below(W);
    CellVertex(H, W, (u, v));
    ghost var start := VertexOf(W, (u, v));
    SearchStart(H, W, start);
    visited, T := DFSAlgorithm(u, v, H, W, seen, maze, generator, visited, [], start);
    SearchDone(H, W, visited, T, start);
  }

  /** Before the search nothing is visited, the tree is empty, and the start cell is about to be entered. */
  lemma SearchStart(H: int, W: int, start: int)
    requires H >= 1 && W >= 1 && 0 <= start < H * W
    ensures Entering(H, W, seq(H * W, _ => false), [], start, start)
  {
    MarkedNone(H * W);
    GrownStart(H * W, start);
  }

  /** A search that has finished every cell it visited, from a start it visited, leaves a spanning tree of the grid. */
  lemma SearchDone(H: int, W: int, visited: seq<bool>, T: seq<Pair>, start: int)
    requires Tracing(H, W, visited, T, start) && 0 <= start < H * W && visited[start]
    requires FinishedNew(H, W, seq(H * W, _ => false), visited)
    ensures IsSpanningTree(H * W, RectangularMaze.Layout(W, H), T)
  {
    SearchOutcome(RectangularMaze.Layout(W, H), visited, T, start);
    RectangularMaze.LayoutConnected(W, H);
  }
}
