/**
 * The maze (src/maze/maze.cpp): a vertex count, a start and an end vertex and
 * the adjacency lists. Generating the maze asks a spanning-tree algorithm for
 * the walls to knock down and erases them from the lists.
 */
module Maze {
  import opened Graphs
  import opened Trees
  import Random
  import Kruskal
  import Prim
  import DepthFirstSearch
  import BreadthFirstSearch
  import LoopErasedRandomWalk
  import DisjointSetForest

  /**
   * The spanning-tree algorithm handed to `GenerateMaze` (the subclasses of
   * `SpanningtreeAlgorithm`). The walk of the loop-erased random walk is given
   * a step budget, see `LoopErasedRandomWalk`.
   */
  datatype Algorithm =
    | UseKruskal
    | UsePrim
    | UseDepthFirstSearch
    | UseBreadthFirstSearch
    | UseLoopErasedRandomWalk(budget: nat)
    | UseDisjointSetForest

  /** The position of the first entry of `s` whose neighbour is `v`, or `|s|` when there is none. */
  function Find(s: seq<Edge>, v: int): (i: nat)
    ensures i <= |s| && forall k :: 0 <= k < i ==> s[k].0 != v
    ensures i < |s| ==> s[i].0 == v
    decreases |s|
  {
    if s == [] then 0 else if s[0].0 == v then 0 else 1 + Find(s[1..], v)
  }

  /** The list `s` without its first entry whose neighbour is `v`; unchanged when there is none. */
  function RemoveFirst(s: seq<Edge>, v: int): (r: seq<Edge>)
    ensures |r| == if Find(s, v) < |s| then |s| - 1 else |s|
  {
    var i := Find(s, v);
    if i < |s| then s[..i] + s[i + 1..] else s
  }

  /** The two erasures for one tree pair: `v` from the list of `u`, then `u` from the list of `v`. */
  function RemovePair(g: Graph, e: Pair): (r: Graph)
    requires 0 <= e.0 < |g| && 0 <= e.1 < |g|
    ensures |r| == |g|
    ensures forall w :: 0 <= w < |g| && w != e.0 && w != e.1 ==> r[w] == g[w]
  {
    var g1 := g[e.0 := RemoveFirst(g[e.0], e.1)];
    g1[e.1 := RemoveFirst(g1[e.1], e.0)]
  }

  /** The pairs of `T` name vertices of a graph with `n` lists. */
  predicate PairsIn(n: int, T: seq<Pair>)
  {
    forall k :: 0 <= k < |T| ==> 0 <= T[k].0 < n && 0 <= T[k].1 < n
  }

  /** The lists after erasing the walls of every pair of `T`, in order. */
  function RemoveAll(g: Graph, T: seq<Pair>): (r: Graph)
    requires PairsIn(|g|, T)
    ensures |r| == |g|
    decreases |T|
  {
    if T == [] then g else RemovePair(RemoveAll(g, T[..|T| - 1]), T[|T| - 1])
  }

  class Maze {
    var vertices: int
    var startvertex: int
    var endvertex: int
    var adjacencylist: Graph

    /** `Maze::Maze(vertices, startvertex, endvertex)`. */
    constructor (vertices: int, startvertex: int, endvertex: int)
      ensures this.vertices == vertices && this.startvertex == startvertex && this.endvertex == endvertex
      ensures adjacencylist == []
    {
      this.vertices := vertices;
      this.startvertex := startvertex;
      this.endvertex := endvertex;
      adjacencylist := [];
    }

    /** `Maze::InitialiseGraph`: one empty list per vertex. */
    method InitialiseGraph()
      requires vertices >= 0
      modifies this
      ensures vertices == old(vertices) && startvertex == old(startvertex) && endvertex == old(endvertex)
      ensures adjacencylist == Empty(vertices)
    {
      adjacencylist := [];
      var i := 0;
      while i < vertices
        invariant 0 <= i <= vertices
        invariant adjacencylist == Empty(i)
        invariant vertices == old(vertices) && startvertex == old(startvertex) && endvertex == old(endvertex)
      {
        adjacencylist := adjacencylist + [[]];
        i := i + 1;
      }
    }

    /** The vertex count and the entry and exit are as they were. */
    twostate predicate SameShape()
      reads this
    {
      vertices == old(vertices) && startvertex == old(startvertex) && endvertex == old(endvertex)
    }

    /**
     * `adjacencylist_[u].push_back(e)`. The lists so far are `base` after the
     * pushes `pushed`; afterwards they are `base` after `after`, one push more.
     */
    method PushBack(u: int, e: Edge, ghost base: Graph, ghost pushed: seq<PushOp>) returns (ghost after: seq<PushOp>)
      requires 0 <= u < |adjacencylist| && |base| == |adjacencylist|
      requires PushesIn(|base|, pushed) && adjacencylist == Build(base, pushed)
      modifies this
      ensures after == pushed + [(u, e)]
      ensures PushesIn(|base|, after) && adjacencylist == Build(base, after)
      ensures adjacencylist == Push(old(adjacencylist), u, e)
      ensures SameShape()
    {
      BuildStep(base, pushed, (u, e));
      adjacencylist := adjacencylist[u := adjacencylist[u] + [e]];
      after := pushed + [(u, e)];
    }

    /**
     * The two `push_back`s of an internal wall: `v` onto the list of `u` and `u`
     * onto the list of `v`, both with border `b`.
     */
    method PushWall(u: int, v: int, b: BorderId, ghost base: Graph, ghost pushed: seq<PushOp>) returns (ghost after: seq<PushOp>)
      requires 0 <= u < |adjacencylist| && 0 <= v < |adjacencylist| && |base| == |adjacencylist|
      requires PushesIn(|base|, pushed) && adjacencylist == Build(base, pushed)
      modifies this
      ensures after == pushed + Mirror(u, v, b)
      ensures PushesIn(|base|, after) && adjacencylist == Build(base, after)
      ensures SameShape()
    {
      after := PushBack(u, (v, b), base, pushed);
      after := PushBack(v, (u, b), base, after);
    }

    /** One erasure loop: the first entry of the list of `u` that leads to `v`, if any. */
    method EraseFirst(u: int, v: int)
      requires 0 <= u < |adjacencylist|
      modifies this
      ensures adjacencylist == old(adjacencylist)[u := RemoveFirst(old(adjacencylist)[u], v)]
      ensures vertices == old(vertices) && startvertex == old(startvertex) && endvertex == old(endvertex)
    {
      var i := 0;
      while i < |adjacencylist[u]|
        invariant 0 <= i <= |adjacencylist[u]|
        invariant adjacencylist == old(adjacencylist)
        invariant forall k :: 0 <= k < i ==> adjacencylist[u][k].0 != v
        invariant vertices == old(vertices) && startvertex == old(startvertex) && endvertex == old(endvertex)
      {
        if adjacencylist[u][i].0 == v {
          FindFirst(adjacencylist[u], v, i);
          adjacencylist := adjacencylist[u := adjacencylist[u][..i] + adjacencylist[u][i + 1..]];
          return;
        }
        i := i + 1;
      }
    }

    /**
     * `Maze::GenerateMaze`: ask the algorithm for a spanning tree and knock
     * down the wall of each of its pairs. `done` is false only when the
     * disjoint-set forest stops at one of its assertions or the random walk
     * runs out of budget; the lists are then left as they were. On a symmetric
     * connected graph a finished run carves a spanning tree: every outside
     * wall stays and exactly `2 (V - 1)` internal entries go.
     */
    method GenerateMaze(algorithm: Algorithm, generator: Random.Generator) returns (tree: seq<Pair>, done: bool)
      requires ValidGraph(vertices, adjacencylist) && vertices >= 1
      requires algorithm.UsePrim? || algorithm.UseLoopErasedRandomWalk? ==> Connected(vertices, adjacencylist)
      modifies this, generator
      ensures vertices == old(vertices) && startvertex == old(startvertex) && endvertex == old(endvertex)
      ensures !done ==> adjacencylist == old(adjacencylist)
      ensures !done ==> algorithm.UseDisjointSetForest? || algorithm.UseLoopErasedRandomWalk?
      ensures done ==> PairsIn(vertices, tree) && adjacencylist == RemoveAll(old(adjacencylist), tree)
      ensures done ==> forall k :: 0 <= k < |tree| ==> Adjacent(old(adjacencylist), tree[k].0, tree[k].1)
      ensures done && Symmetric(old(adjacencylist)) && Connected(vertices, old(adjacencylist)) ==>
        IsSpanningTree(vertices, old(adjacencylist), tree) &&
        OutsideWalls(adjacencylist) == OutsideWalls(old(adjacencylist)) &&
        InternalEntries(adjacencylist) + 2 * (vertices - 1) == InternalEntries(old(adjacencylist))
    {
      done := true;
      match algorithm {
        case UseKruskal =>
          var a := new Kruskal.Kruskal(generator);
          tree := a.SpanningTree(vertices, adjacencylist);
        case UsePrim =>
          var a := new Prim.Prim(generator);
          tree := a.SpanningTree(vertices, adjacencylist);
        case UseDepthFirstSearch =>
          var a := new DepthFirstSearch.DepthFirstSearch(generator);
          ghost var start;
          tree, start := a.SpanningTree(vertices, adjacencylist);
        case UseBreadthFirstSearch =>
          var a := new BreadthFirstSearch.BreadthFirstSearch(generator);
          ghost var start;
          tree, start := a.MinimumSpanningTree(vertices, adjacencylist);
        case UseLoopErasedRandomWalk(budget) =>
          var a := new LoopErasedRandomWalk.LoopErasedRandomWalk(generator);
          var left;
          tree, done, left := a.SpanningTree(vertices, adjacencylist, budget);
        case UseDisjointSetForest =>
          var a := new DisjointSetForest.DisjointSetForest(generator);
          var outcome;
          tree, outcome := a.SpanningTree(vertices, adjacencylist);
          done := outcome == DisjointSetForest.Completed;
      }
      if !done {
        return;
      }
      AdjacentPairsIn(adjacencylist, tree);
      ghost var g := adjacencylist;
      RemoveBorders(tree);
      if Symmetric(g) && Connected(vertices, g) {
        CarveSpanningTree(g, tree);
      }
    }

    /** `Maze::RemoveBorders`: erase the wall of every tree pair from both of its lists. */
    method RemoveBorders(edges: seq<Pair>)
      requires PairsIn(|adjacencylist|, edges)
      modifies this
      ensures adjacencylist == RemoveAll(old(adjacencylist), edges)
      ensures vertices == old(vertices) && startvertex == old(startvertex) && endvertex == old(endvertex)
    {
      var k := 0;
      while k < |edges|
        invariant 0 <= k <= |edges| && |adjacencylist| == |old(adjacencylist)|
        invariant adjacencylist == RemoveAll(old(adjacencylist), edges[..k])
        invariant vertices == old(vertices) && startvertex == old(startvertex) && endvertex == old(endvertex)
      {
        var u, v := edges[k].0, edges[k].1;
        EraseFirst(u, v);
        EraseFirst(v, u);
        assert edges[..k + 1][..k] == edges[..k];
        k := k + 1;
      }
      assert edges[..k] == edges;
    }
  }

  // ---------------------------------------------------------------------------
  // What erasing does to the lists.

  /** The first match is the only position before which no entry leads to `v`. */
  lemma {:induction false} FindFirst(s: seq<Edge>, v: int, i: int)
    requires 0 <= i < |s| && s[i].0 == v && forall k :: 0 <= k < i ==> s[k].0 != v
    ensures Find(s, v) == i
  {
    if s[0].0 != v {
      FindFirst(s[1..], v, i - 1);
    }
  }

  /** No entry leads to `v` exactly when the search runs off the end, and then nothing is erased. */
  lemma FindNone(s: seq<Edge>, v: int)
    ensures Find(s, v) == |s| <==> forall k :: 0 <= k < |s| ==> s[k].0 != v
    ensures Find(s, v) == |s| ==> RemoveFirst(s, v) == s
  {
    var f := Find(s, v);
    if f < |s| {
      assert s[f].0 == v;
    }
  }

  /**
   * Erasing keeps every entry but the first one leading to `v`, in order: the
   * entries before it, then the entries after it.
   */
  lemma RemoveFirstOrder(s: seq<Edge>, v: int)
    ensures forall k :: 0 <= k < Find(s, v) ==> RemoveFirst(s, v)[k] == s[k]
    ensures forall k :: Find(s, v) <= k < |RemoveFirst(s, v)| ==> RemoveFirst(s, v)[k] == s[k + 1]
  {
  }

  /** Every entry that does not lead to `v` survives the erasure. */
  lemma RemoveFirstKeeps(s: seq<Edge>, v: int, e: Edge)
    requires e in s && e.0 != v
    ensures e in RemoveFirst(s, v)
  {
    var i := Find(s, v);
    var j :| 0 <= j < |s| && s[j] == e;
    if i < |s| {
      if j < i {
        assert s[..i][j] == e;
      } else {
        assert s[i + 1..][j - i - 1] == e;
      }
    }
  }

  /** Erasing never removes an outside wall when `v` is a vertex, and removes one internal entry if `v` is listed. */
  lemma RemoveFirstCounts(s: seq<Edge>, v: int)
    requires v >= 0
    ensures OutsideIn(RemoveFirst(s, v)) == OutsideIn(s)
    ensures Find(s, v) < |s| ==> InternalIn(RemoveFirst(s, v)) + 1 == InternalIn(s)
    ensures Find(s, v) == |s| ==> InternalIn(RemoveFirst(s, v)) == InternalIn(s)
  {
    var i := Find(s, v);
    if i < |s| {
      assert s == s[..i] + [s[i]] + s[i + 1..];
      CountsAppend(s[..i] + [s[i]], s[i + 1..]);
      CountsAppend(s[..i], [s[i]]);
      CountsAppend(s[..i], s[i + 1..]);
      assert [s[i]][..0] == [];
    }
  }

  /** The pairs of a list of internal walls name vertices. */
  lemma AdjacentPairsIn(g: Graph, T: seq<Pair>)
    requires ValidGraph(|g|, g)
    requires forall k :: 0 <= k < |T| ==> Adjacent(g, T[k].0, T[k].1)
    ensures PairsIn(|g|, T)
  {
    forall k | 0 <= k < |T| ensures 0 <= T[k].0 < |g| && 0 <= T[k].1 < |g| {
      var j :| 0 <= j < |g[T[k].0]| && g[T[k].0][j].0 == T[k].1;
    }
  }

  /** A wall between `a` and `b` outlives the erasures for any pair that is a different wall. */
  lemma RemovePairKeepsAdjacent(g: Graph, e: Pair, a: int, b: int)
    requires 0 <= e.0 < |g| && 0 <= e.1 < |g|
    requires Adjacent(g, a, b) && !SameWall((a, b), e)
    ensures Adjacent(RemovePair(g, e), a, b)
  {
    var j :| 0 <= j < |g[a]| && g[a][j].0 == b;
    var g1 := g[e.0 := RemoveFirst(g[e.0], e.1)];
    assert g[a][j] in g1[a] by {
      if a == e.0 {
        RemoveFirstKeeps(g[a], e.1, g[a][j]);
      }
    }
    var r := RemovePair(g, e);
    assert g[a][j] in r[a] by {
      if a == e.1 {
        RemoveFirstKeeps(g1[a], e.0, g[a][j]);
      }
    }
    var k :| 0 <= k < |r[a]| && r[a][k] == g[a][j];
  }

  /** Erasing the pairs of `T` keeps the outside walls. */
  lemma {:induction false} RemoveAllKeepsOutside(g: Graph, T: seq<Pair>)
    requires PairsIn(|g|, T)
    ensures OutsideWalls(RemoveAll(g, T)) == OutsideWalls(g)
    decreases |T|
  {
    if T != [] {
      var T' := T[..|T| - 1];
      var h := RemoveAll(g, T');
      var e := T[|T| - 1];
      RemoveAllKeepsOutside(g, T');
      var h1 := h[e.0 := RemoveFirst(h[e.0], e.1)];
      RemoveFirstCounts(h[e.0], e.1);
      CountsUpdate(h, e.0, RemoveFirst(h[e.0], e.1));
      RemoveFirstCounts(h1[e.1], e.0);
      CountsUpdate(h1, e.1, RemoveFirst(h1[e.1], e.0));
    }
  }

  /**
   * On a symmetric graph, erasing the pairs of a list of distinct walls, each a
   * wall of the graph, removes two internal entries per pair.
   */
  lemma {:induction false} RemoveAllCounts(g: Graph, T: seq<Pair>)
    requires ValidGraph(|g|, g) && Symmetric(g) && PairsIn(|g|, T)
    requires forall k :: 0 <= k < |T| ==> T[k].0 != T[k].1 && Adjacent(g, T[k].0, T[k].1)
    requires forall i, j :: 0 <= i < j < |T| ==> !SameWall(T[i], T[j])
    ensures InternalEntries(RemoveAll(g, T)) + 2 * |T| == InternalEntries(g)
    decreases |T|
  {
    if T != [] {
      var T' := T[..|T| - 1];
      var e := T[|T| - 1];
      assert forall k :: 0 <= k < |T'| ==> T'[k] == T[k];
      RemoveAllCounts(g, T');
      WallsStillThere(g, T);
      var h := RemoveAll(g, T');
      FindNone(h[e.0], e.1);
      RemoveFirstCounts(h[e.0], e.1);
      CountsUpdate(h, e.0, RemoveFirst(h[e.0], e.1));
      var h1 := h[e.0 := RemoveFirst(h[e.0], e.1)];
      assert h1[e.1] == h[e.1];
      FindNone(h1[e.1], e.0);
      RemoveFirstCounts(h1[e.1], e.0);
      CountsUpdate(h1, e.1, RemoveFirst(h1[e.1], e.0));
    }
  }

  /**
   * Carving a spanning tree out of a symmetric graph keeps every outside wall
   * and removes exactly `2 (V - 1)` internal entries: both entries of `V - 1`
   * walls.
   */
  lemma CarveSpanningTree(g: Graph, T: seq<Pair>)
    requires ValidGraph(|g|, g) && Symmetric(g) && IsSpanningTree(|g|, g, T)
    ensures PairsIn(|g|, T)
    ensures OutsideWalls(RemoveAll(g, T)) == OutsideWalls(g)
    ensures InternalEntries(RemoveAll(g, T)) + 2 * (|g| - 1) == InternalEntries(g)
  {
    AdjacentPairsIn(g, T);
    AcyclicSimple(|g|, T);
    RemoveAllKeepsOutside(g, T);
    RemoveAllCounts(g, T);
  }

  /** Each pair of a list of distinct walls still finds its wall, from both ends, when its turn comes. */
  lemma WallsStillThere(g: Graph, T: seq<Pair>)
    requires ValidGraph(|g|, g) && Symmetric(g) && PairsIn(|g|, T)
    requires forall k :: 0 <= k < |T| ==> Adjacent(g, T[k].0, T[k].1)
    requires forall i, j :: 0 <= i < j < |T| ==> !SameWall(T[i], T[j])
    ensures forall i :: 0 <= i < |T| ==>
      Adjacent(RemoveAll(g, T[..i]), T[i].0, T[i].1) && Adjacent(RemoveAll(g, T[..i]), T[i].1, T[i].0)
  {
    forall i | 0 <= i < |T|
      ensures Adjacent(RemoveAll(g, T[..i]), T[i].0, T[i].1) && Adjacent(RemoveAll(g, T[..i]), T[i].1, T[i].0)
    {
      MirrorAdjacent(g, T[i].0, T[i].1);
      StillAdjacent(g, T, i, T[i]);
    }
  }

  /** On a symmetric graph an internal wall is listed from both ends. */
  lemma MirrorAdjacent(g: Graph, u: int, v: int)
    requires ValidGraph(|g|, g) && Symmetric(g) && Adjacent(g, u, v)
    ensures Adjacent(g, v, u)
  {
    var j :| 0 <= j < |g[u]| && g[u][j].0 == v;
    assert (u, g[u][j].1) in g[v];
    var k :| 0 <= k < |g[v]| && g[v][k] == (u, g[u][j].1);
  }

  /** A wall that no earlier pair names is still there after the first `i` erasures. */
  lemma {:induction false} StillAdjacent(g: Graph, T: seq<Pair>, i: int, e: Pair)
    requires PairsIn(|g|, T) && 0 <= i <= |T|
    requires Adjacent(g, e.0, e.1) && Adjacent(g, e.1, e.0)
    requires forall k :: 0 <= k < i ==> !SameWall(T[k], e)
    ensures Adjacent(RemoveAll(g, T[..i]), e.0, e.1) && Adjacent(RemoveAll(g, T[..i]), e.1, e.0)
    decreases i
  {
    if i > 0 {
      StillAdjacent(g, T, i - 1, e);
      var h := RemoveAll(g, T[..i - 1]);
      assert T[..i][..i - 1] == T[..i - 1];
      assert RemoveAll(g, T[..i]) == RemovePair(h, T[i - 1]);
      RemovePairKeepsAdjacent(h, T[i - 1], e.0, e.1);
      RemovePairKeepsAdjacent(h, T[i - 1], e.1, e.0);
    }
  }

  /**
   * The printers draw an entry of the list of `i` when its neighbour is below
   * `i`: every outside wall, and internal walls from their larger end.
   */
  predicate Drawn(i: int, e: Edge)
  {
    e.0 < i
  }

  /** The borders the printers draw, in list order. */
  function DrawnBorders(g: Graph): (r: seq<BorderId>)
    decreases |g|
  {
    if g == [] then [] else DrawnBorders(g[..|g| - 1]) + DrawnIn(|g| - 1, g[|g| - 1])
  }

  function DrawnIn(i: int, s: seq<Edge>): seq<BorderId>
    decreases |s|
  {
    if s == [] then [] else DrawnIn(i, s[..|s| - 1]) + (if Drawn(i, s[|s| - 1]) then [s[|s| - 1].1] else [])
  }

  lemma {:induction false} DrawnInMembers(i: int, s: seq<Edge>, b: BorderId)
    ensures b in DrawnIn(i, s) <==> exists j :: 0 <= j < |s| && s[j].1 == b && Drawn(i, s[j])
    decreases |s|
  {
    if s != [] {
      var s' := s[..|s| - 1];
      DrawnInMembers(i, s', b);
      assert forall j :: 0 <= j < |s'| ==> s'[j] == s[j];
      if exists j :: 0 <= j < |s| && s[j].1 == b && Drawn(i, s[j]) {
        var j :| 0 <= j < |s| && s[j].1 == b && Drawn(i, s[j]);
        if j < |s'| {
          assert s'[j].1 == b && Drawn(i, s'[j]);
        }
      }
    }
  }

  /** A border is drawn exactly when some entry holding it passes the filter. */
  lemma {:induction false} DrawnBordersMembers(g: Graph, b: BorderId)
    ensures b in DrawnBorders(g) <==>
      exists i, j :: 0 <= i < |g| && 0 <= j < |g[i]| && g[i][j].1 == b && Drawn(i, g[i][j])
    decreases |g|
  {
    if g != [] {
      var g' := g[..|g| - 1];
      DrawnBordersMembers(g', b);
      DrawnInMembers(|g| - 1, g[|g| - 1], b);
      assert forall i :: 0 <= i < |g'| ==> g'[i] == g[i];
      if exists i, j :: 0 <= i < |g| && 0 <= j < |g[i]| && g[i][j].1 == b && Drawn(i, g[i][j]) {
        var i, j :| 0 <= i < |g| && 0 <= j < |g[i]| && g[i][j].1 == b && Drawn(i, g[i][j]);
        if i < |g'| {
          assert g'[i][j].1 == b && Drawn(i, g'[i][j]);
        }
      }
    }
  }

  /**
   * On a symmetric graph every wall is drawn: an outside wall by its vertex, an
   * internal wall by its larger end, whose mirror entry is the one not drawn.
   */
  lemma EveryWallDrawn(g: Graph)
    requires ValidGraph(|g|, g) && Symmetric(g)
    ensures forall u, j :: 0 <= u < |g| && 0 <= j < |g[u]| && g[u][j].0 != u ==> g[u][j].1 in DrawnBorders(g)
    ensures forall u, j :: 0 <= u < |g| && 0 <= j < |g[u]| && 0 <= g[u][j].0 && g[u][j].0 != u ==>
      (Drawn(u, g[u][j]) <==> !Drawn(g[u][j].0, (u, g[u][j].1)))
  {
    forall u, j | 0 <= u < |g| && 0 <= j < |g[u]| && g[u][j].0 != u ensures g[u][j].1 in DrawnBorders(g) {
      var b := g[u][j].1;
      DrawnBordersMembers(g, b);
      var v := g[u][j].0;
      if v > u {
        assert (u, b) in g[v];
        var k :| 0 <= k < |g[v]| && g[v][k] == (u, b);
        assert Drawn(v, g[v][k]);
      } else {
        assert Drawn(u, g[u][j]);
      }
    }
  }
}
