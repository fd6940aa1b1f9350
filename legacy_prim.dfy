/**
 * Prim's algorithm on the character board (prim.cpp): from a random cell,
 * keep a list of (seen cell, unseen neighbour) pairs; draw one at random by
 * swapping it to the back and popping it, and when its far cell is still
 * unseen, see it, knock the wall down and push that cell's own pairs.
 */
module LegacyPrim {
  import opened Graphs
  import opened Trees
  import opened MazeBase
  import RectangularMaze
  import Random
  import Prim

  /** Cell `c` is a neighbour of `a` on the board whose flag is not set. */
  ghost predicate Pushable(H: int, W: int, seen: array2<bool>, a: Position, c: Position)
    reads seen
  {
    InGrid(H, W, c) && Neighbours(a, c) && seen.Length0 == H && seen.Length1 == W && !seen[c.0, c.1]
  }

  /** `e` is the pair of cell `a` and a pushable neighbour. */
  ghost predicate Pushed(H: int, W: int, seen: array2<bool>, a: Position, e: Pair)
    reads seen
  {
    W >= 1 && e.0 == VertexOf(W, a) && Pushable(H, W, seen, a, CellOf(W, e.1)) && VertexOf(W, CellOf(W, e.1)) == e.1
  }

  /**
   * `Prim_pushneighbours`: append, in the order of `neigh`, the pair of cell
   * (u, v) and each of its neighbours inside the board whose flag is not set;
   * at most four pairs, and every such neighbour gets one.
   */
  method PrimPushNeighbours(u: int, v: int, H: int, W: int, seen: array2<bool>, edges: seq<Pair>)
    returns (edges': seq<Pair>)
    requires 0 <= u < H && 0 <= v < W && seen.Length0 == H && seen.Length1 == W
    ensures |edges| <= |edges'| <= |edges| + 4 && edges'[..|edges|] == edges
    ensures forall k :: |edges| <= k < |edges'| ==> Pushed(H, W, seen, (u, v), edges'[k])
    ensures forall c :: Pushable(H, W, seen, (u, v), c) ==> (u * W + v, VertexOf(W, c)) in edges'[|edges|..]
  {
    edges' := edges;
    for i := 0 to 4
      invariant |edges| <= |edges'| <= |edges| + i && edges'[..|edges|] == edges
      invariant forall k :: |edges| <= k < |edges'| ==> Pushed(H, W, seen, (u, v), edges'[k])
      invariant forall q :: 0 <= q < i && Pushable(H, W, seen, (u, v), Step((u, v), q)) ==>
        (u * W + v, VertexOf(W, Step((u, v), q))) in edges'[|edges|..]
    {
      var unext, vnext := u + Neigh[i].0, v + Neigh[i].1;
      if unext < 0 || unext >= H || vnext < 0 || vnext >= W || seen[unext, vnext] {
        continue;
      }
      assert Pushable(H, W, seen, (u, v), Step((u, v), i));
      CellVertex(H, W, (unext, vnext));
      assert Pushed(H, W, seen, (u, v), (u * W + v, unext * W + vnext));
      edges' := edges' + [(u * W + v, unext * W + vnext)];
      assert edges'[|edges|..] == edges'[|edges|..|edges'| - 1] + [(u * W + v, unext * W + vnext)];
    }
    forall c | Pushable(H, W, seen, (u, v), c) ensures (u * W + v, VertexOf(W, c)) in edges'[|edges|..] {
      StepNeighbours((u, v), c);
    }
  }

  /** With only `x` visited, the empty list is a frontier that leaves out `x`. */
  lemma FrontierStart(g: Graph, visited: seq<bool>, x: int)
    requires |visited| == |g| && 0 <= x < |g|
    requires forall u :: 0 <= u < |visited| && visited[u] ==> u == x
    ensures Prim.BoundaryFrom(g, visited, []) && Prim.Frontier(g, visited, [], x)
  {
  }

  /**
   * The pairs pushed for a newly seen vertex `x` close the frontier: every
   * internal wall of the grid from a seen vertex to an unseen one is listed.
   */
  lemma PushedFrontier(H: int, W: int, g: Graph, seen: array2<bool>, visited: seq<bool>, u: int, v: int, x: int,
                       edges: seq<Pair>, r: seq<Pair>)
    requires H >= 1 && W >= 1 && g == RectangularMaze.Layout(W, H) && 0 <= u < H && 0 <= v < W
    requires x == u * W + v && 0 <= x < H * W
    requires Mirrors(seen, H, W, visited) && visited[x]
    requires Prim.BoundaryFrom(g, visited, edges) && Prim.Frontier(g, visited, edges, x)
    requires |edges| <= |r| && r[..|edges|] == edges
    requires forall k :: |edges| <= k < |r| ==> Pushed(H, W, seen, (u, v), r[k])
    requires forall c :: Pushable(H, W, seen, (u, v), c) ==> (u * W + v, VertexOf(W, c)) in r[|edges|..]
    ensures Prim.BoundaryFrom(g, visited, r) && Prim.Frontier(g, visited, r, -1)
  {
    CellVertex(H, W, (u, v));
    var a := (u, v);
    forall k | 0 <= k < |r|
      ensures 0 <= r[k].0 < |g| && 0 <= r[k].1 < |g| && visited[r[k].0] && Adjacent(g, r[k].0, r[k].1)
    {
      if k < |edges| {
        assert r[k] == edges[k];
      } else {
        assert Pushed(H, W, seen, a, r[k]);
        var c := CellOf(W, r[k].1);
        CellVertex(H, W, c);
        GridPairAdjacent(H, W, r[k]);
      }
    }
    forall y, j | 0 <= y < |g| && 0 <= j < |g[y]| && visited[y] && 0 <= g[y][j].0 < |g| && !visited[g[y][j].0]
      ensures (y, g[y][j].0) in r
    {
      var w := g[y][j].0;
      if y == x {
        assert Adjacent(g, x, w);
        GridPairAdjacent(H, W, (x, w));
        MirrorsAt(seen, H, W, visited, w);
        var c := CellOf(W, w);
        assert Pushable(H, W, seen, a, c);
        assert (x, w) in r[|edges|..];
      } else {
        assert (y, w) in edges;
        assert r[..|edges|] == edges;
      }
    }
  }

  /**
   * The state of the main loop: the seen flags mirror the visited vertices,
   * on which the knocked-down walls form a tree that the board shows, and the
   * frontier lists every wall from a seen cell to an unseen one.
   */
  ghost predicate Growing(H: int, W: int, seen: array2<bool>, maze: array2<char>, edges: seq<Pair>,
                          visited: seq<bool>, T: seq<Pair>)
    reads seen, maze
  {
    H >= 1 && W >= 1 && Mirrors(seen, H, W, visited) &&
    Grown(H * W, T, Marked(visited)) && |T| + 1 == |Marked(visited)| &&
    (forall k :: 0 <= k < |T| ==> Adjacent(RectangularMaze.Layout(W, H), T[k].0, T[k].1)) &&
    Prim.BoundaryFrom(RectangularMaze.Layout(W, H), visited, edges) &&
    Prim.Frontier(RectangularMaze.Layout(W, H), visited, edges, -1) &&
    Shows(maze, H, W, T)
  }

  /**
   * The draw of the main loop of `Prim_algorithm`: a random pair is swapped to
   * the back and popped; the rest of the list keeps every other pair.
   */
  method PrimDraw(generator: Random.Generator, edges: seq<Pair>) returns (rest: seq<Pair>, edge: Pair)
    requires edges != []
    modifies generator
    ensures multiset(rest) + multiset{edge} == multiset(edges)
  {
    var L := |edges|;
    var cur := generator.Below(L);
    rest := edges;
    if cur != L - 1 {
      assert multiset(rest[cur := rest[L - 1]][L - 1 := rest[cur]]) == multiset(rest);
      rest := rest[cur := rest[L - 1]][L - 1 := rest[cur]];
    }
    edge := rest[L - 1];
    assert rest == rest[..L - 1] + [edge];
    rest := rest[..L - 1];
  }

  /** Removing one occurrence keeps the other members. */
  lemma RemovedOne(edges: seq<Pair>, rest: seq<Pair>, edge: Pair)
    requires multiset(rest) + multiset{edge} == multiset(edges)
    ensures edge in edges && |rest| + 1 == |edges|
    ensures forall x :: x in rest ==> x in edges
    ensures forall x :: x in edges && x != edge ==> x in rest
  {
    assert |multiset(rest) + multiset{edge}| == |multiset(edges)|;
    assert edge in multiset(edges);
    forall x | x in rest ensures x in edges {
      assert x in multiset(rest);
      assert x in multiset(edges);
    }
    forall x | x in edges && x != edge ensures x in rest {
      assert x in multiset(edges);
      assert x in multiset(rest);
    }
  }

  /** A popped pair whose far vertex is visited was not needed on the frontier. */
  lemma SkipFrontier(g: Graph, visited: seq<bool>, edges: seq<Pair>, rest: seq<Pair>, edge: Pair)
    requires |visited| == |g| && 0 <= edge.1 < |g| && visited[edge.1]
    requires Prim.BoundaryFrom(g, visited, edges) && Prim.Frontier(g, visited, edges, -1)
    requires forall x :: x in rest ==> x in edges
    requires forall x :: x in edges && x != edge ==> x in rest
    ensures Prim.BoundaryFrom(g, visited, rest) && Prim.Frontier(g, visited, rest, -1)
  {
    forall k | 0 <= k < |rest| ensures rest[k] in edges {
    }
  }

  /** Visiting the far vertex of the popped pair leaves every other wall out of the tree on the frontier. */
  lemma AcceptFrontier(g: Graph, visited: seq<bool>, edges: seq<Pair>, rest: seq<Pair>, edge: Pair)
    requires |visited| == |g| && 0 <= edge.1 < |g| && !visited[edge.1]
    requires Prim.BoundaryFrom(g, visited, edges) && Prim.Frontier(g, visited, edges, -1)
    requires forall x :: x in rest ==> x in edges
    requires forall x :: x in edges && x != edge ==> x in rest
    ensures Prim.BoundaryFrom(g, visited[edge.1 := true], rest)
    ensures Prim.Frontier(g, visited[edge.1 := true], rest, edge.1)
  {
    forall k | 0 <= k < |rest| ensures rest[k] in edges {
    }
  }

  /** Attaching the unvisited far vertex of a wall of the grid keeps a tree of the visited vertices. */
  lemma TreeGrows(H: int, W: int, visited: seq<bool>, T: seq<Pair>, edge: Pair)
    requires H >= 1 && W >= 1 && |visited| == H * W
    requires Grown(H * W, T, Marked(visited)) && |T| + 1 == |Marked(visited)|
    requires forall k :: 0 <= k < |T| ==> Adjacent(RectangularMaze.Layout(W, H), T[k].0, T[k].1)
    requires 0 <= edge.0 < H * W && 0 <= edge.1 < H * W && visited[edge.0] && !visited[edge.1]
    requires Adjacent(RectangularMaze.Layout(W, H), edge.0, edge.1)
    ensures Grown(H * W, T + [edge], Marked(visited[edge.1 := true]))
    ensures |T + [edge]| + 1 == |Marked(visited[edge.1 := true])|
    ensures forall k :: 0 <= k < |T + [edge]| ==>
      Adjacent(RectangularMaze.Layout(W, H), (T + [edge])[k].0, (T + [edge])[k].1)
  {
    MarkOne(visited, edge.1);
    GrowStep(H * W, T, Marked(visited), edge.0, edge.1);
  }

  /**
   * The acceptance of the main loop of `Prim_algorithm`: the far cell (u, v)
   * of the popped pair is seen, the wall to its near cell knocked down and its
   * own pairs pushed.
   */
  method PrimAccept(H: int, W: int, seen: array2<bool>, maze: array2<char>, rest: seq<Pair>, edge: Pair,
                    ghost visited: seq<bool>, ghost T: seq<Pair>)
    returns (edges': seq<Pair>)
    requires H >= 1 && W >= 1 && Mirrors(seen, H, W, visited)
    requires Grown(H * W, T, Marked(visited)) && |T| + 1 == |Marked(visited)|
    requires forall k :: 0 <= k < |T| ==> Adjacent(RectangularMaze.Layout(W, H), T[k].0, T[k].1)
    requires 0 <= edge.0 < H * W && 0 <= edge.1 < H * W && visited[edge.0] && !visited[edge.1]
    requires Adjacent(RectangularMaze.Layout(W, H), edge.0, edge.1)
    requires Prim.BoundaryFrom(RectangularMaze.Layout(W, H), visited[edge.1 := true], rest)
    requires Prim.Frontier(RectangularMaze.Layout(W, H), visited[edge.1 := true], rest, edge.1)
    requires Shows(maze, H, W, T)
    modifies seen, maze
    ensures Growing(H, W, seen, maze, edges', visited[edge.1 := true], T + [edge])
  {
    MirrorsAt(seen, H, W, visited, edge.0);
    MirrorsAt(seen, H, W, visited, edge.1);
    var u, v := edge.1 / W, edge.1 % W;
    var uneigh, vneigh := edge.0 / W, edge.0 % W;
    OpeningReversed(W, edge);
    assert (u, v) == CellOf(W, edge.1) && (uneigh, vneigh) == CellOf(W, edge.0);
    seen[u, v] := true;
    MirrorsMark(seen, H, W, visited, (u, v));
    TreeGrows(H, W, visited, T, edge);
    RemoveEdge(u, v, uneigh, vneigh, maze, H, W, T, edge);
    edges' := PrimPushNeighbours(u, v, H, W, seen, rest);
    PushedFrontier(H, W, RectangularMaze.Layout(W, H), seen, visited[edge.1 := true], u, v, edge.1, rest, edges');
  }

  /**
   * One pass of the main loop of `Prim_algorithm`: draw and pop a pair. When
   * its far cell is seen nothing else happens; otherwise that cell is accepted.
   */
  method PrimStep(H: int, W: int, seen: array2<bool>, maze: array2<char>, generator: Random.Generator,
                  edges: seq<Pair>, ghost visited: seq<bool>, ghost T: seq<Pair>)
    returns (edges': seq<Pair>, ghost visited': seq<bool>, ghost T': seq<Pair>)
    requires Growing(H, W, seen, maze, edges, visited, T) && edges != []
    modifies seen, maze, generator
    ensures Growing(H, W, seen, maze, edges', visited', T')
    ensures (visited' == visited && T' == T && |edges'| == |edges| - 1) ||
      (|Marked(visited')| == |Marked(visited)| + 1 && |T'| == |T| + 1 && T'[..|T|] == T)
  {
    var rest, edge := PrimDraw(generator, edges);
    RemovedOne(edges, rest, edge);
    MirrorsAt(seen, H, W, visited, edge.1);
    if seen[edge.1 / W, edge.1 % W] {
      SkipFrontier(RectangularMaze.Layout(W, H), visited, edges, rest, edge);
      return rest, visited, T;
    }
    AcceptFrontier(RectangularMaze.Layout(W, H), visited, edges, rest, edge);
    MarkOne(visited, edge.1);
    edges' := PrimAccept(H, W, seen, maze, rest, edge, visited, T);
    visited', T' := visited[edge.1 := true], T + [edge];
    assert T'[..|T|] == T;
  }

  /** A frontier that has run dry leaves every vertex of the grid visited: the walls knocked down span it. */
  lemma PrimOutcome(H: int, W: int, visited: seq<bool>, T: seq<Pair>)
    requires H >= 1 && W >= 1 && |visited| == H * W
    requires Grown(H * W, T, Marked(visited)) && |T| + 1 == |Marked(visited)|
    requires forall k :: 0 <= k < |T| ==> Adjacent(RectangularMaze.Layout(W, H), T[k].0, T[k].1)
    requires Prim.Frontier(RectangularMaze.Layout(W, H), visited, [], -1)
    ensures IsSpanningTree(H * W, RectangularMaze.Layout(W, H), T)
  {
    var g := RectangularMaze.Layout(W, H);
    MarkedBound(visited);
    RectangularMaze.LayoutConnected(W, H);
    if |Marked(visited)| < H * W {
      Prim.Leaves(g, visited);
    }
  }

  /**
   * The first draw of `Prim_algorithm`: a fresh grid of flags with one random
   * cell set, mirroring the vertex set that holds only that cell.
   */
  method SeedCell(H: int, W: int, generator: Random.Generator)
    returns (seen: array2<bool>, u: int, v: int, ghost visited: seq<bool>)
    requires H >= 1 && W >= 1
    modifies generator
    ensures fresh(seen) && 0 <= u < H && 0 <= v < W && 0 <= u * W + v < H * W
    ensures Mirrors(seen, H, W, visited) && visited == seq(H * W, _ => false)[u * W + v := true]
  {
    seen := new bool[H, W]((i, j) => false);
    MirrorsNone(seen, H, W);
    visited := seq(H * W, _ => false);
    u := generator.Below(H);
    v := generator.Below(W);
    seen[u, v] := true;
    MirrorsMark(seen, H, W, visited, (u, v));
    visited := visited[u * W + v := true];
  }

  /**
   * The opening of `Prim_algorithm`: one random cell is marked seen and its
   * neighbours become the frontier; the tree is empty.
   */
  method PrimStart(H: int, W: int, maze: array2<char>, generator: Random.Generator)
    returns (seen: array2<bool>, edges: seq<Pair>, ghost visited: seq<bool>)
    requires H >= 1 && W >= 1 && Shows(maze, H, W, [])
    modifies generator
    ensures fresh(seen) && Growing(H, W, seen, maze, edges, visited, [])
  {
    var u, v;
    seen, u, v, visited := SeedCell(H, W, generator);
    MarkedNone(H * W);
    MarkOne(seq(H * W, _ => false), u * W + v);
    GrownStart(H * W, u * W + v);
    FrontierStart(RectangularMaze.Layout(W, H), visited, u * W + v);
    edges := PrimPushNeighbours(u, v, H, W, seen, []);
    PushedFrontier(H, W, RectangularMaze.Layout(W, H), seen, visited, u, v, u * W + v, [], edges);
  }

  /**
   * `Prim_algorithm`: see a random cell, push its pairs, and draw until the
   * frontier is empty. The walls knocked down form a spanning tree of the
   * H x W grid, one wall per cell but the first.
   */
  method PrimAlgorithm(H: int, W: int, maze: array2<char>, generator: Random.Generator) returns (ghost T: seq<Pair>)
    requires H >= 1 && W >= 1 && Shows(maze, H, W, [])
    modifies maze, generator
    ensures Shows(maze, H, W, T) && IsSpanningTree(H * W, RectangularMaze.Layout(W, H), T)
  {
    var seen, edges;
    ghost var visited;
    seen, edges, visited := PrimStart(H, W, maze, generator);
    T := [];
    while edges != []
      invariant Growing(H, W, seen, maze, edges, visited, T)
      decreases H * W - |Marked(visited)|, |edges|
    {
      MarkedBound(visited);
      edges, visited, T := PrimStep(H, W, seen, maze, generator, edges, visited, T);
      MarkedBound(visited);
    }
    PrimOutcome(H, W, visited, T);
  }

  /**
   * `Prim_createmaze`: code 1 when `initmaze` refuses the size, the board left
   * as it was; otherwise code 0 and a fresh board whose knocked-down walls form
   * a spanning tree of the H x W grid.
   */
  method PrimCreateMaze(H: int, W: int, maze: array2<char>, generator: Random.Generator)
    returns (ret: int, board: array2<char>, ghost T: seq<Pair>)
    modifies generator
    ensures ret == 0 || ret == 1
    ensures ret == 1 <==> H <= 0 || H > 1000 || W <= 0 || W > 1000
    ensures ret == 1 ==> board == maze
    ensures ret == 0 ==> fresh(board) && Shows(board, H, W, T)
    ensures ret == 0 ==> IsSpanningTree(H * W, RectangularMaze.Layout(W, H), T)
  {
    var err;
    err, board := InitMaze(H, W, maze);
    if err != 0 {
      return 1, board, [];
    }
    T := PrimAlgorithm(H, W, board, generator);
    ret := 0;
  }
}
