/**
 * Kruskal's algorithm on the character board (kruskal.cpp): a parent-vector
 * disjoint set with recursive path compression, the list of all pairs of
 * neighbouring cells, shuffled, and a wall knocked down for every pair whose
 * cells are still in different components.
 */
module LegacyKruskal {
  import opened Graphs
  import opened Trees
  import opened Sequences
  import opened DisjointSets
  import opened MazeBase
  import RectangularMaze
  import Random
  import Kruskal

  /** The parent vector: links in range and the ghost ranks of a forest. */
  ghost predicate Valid(parent: array<int>, rank: seq<nat>)
    reads parent
  {
    Forest(parent[..], rank) && forall x :: 0 <= x < parent.Length ==> 0 <= parent[x]
  }

  /** `disjointset_initparent`: the first `N` vertices become their own parents. */
  method DisjointSetInitParent(N: int, parent: array<int>)
    requires 0 <= N <= parent.Length
    modifies parent
    ensures forall i :: 0 <= i < N ==> parent[i] == i
    ensures forall i :: N <= i < parent.Length ==> parent[i] == old(parent[i])
  {
    var i := 0;
    while i < N
      invariant 0 <= i <= N
      invariant forall k :: 0 <= k < i ==> parent[k] == k
      invariant forall k :: N <= k < parent.Length ==> parent[k] == old(parent[k])
    {
      parent[i] := i;
      i := i + 1;
    }
  }

  /**
   * `disjointset_getroot`: the representative of `u`, after pointing `u` (and,
   * recursively, every vertex on its path) straight at it. No vertex changes
   * group.
   */
  method DisjointSetGetRoot(u: int, parent: array<int>, ghost rank: seq<nat>) returns (r: int)
    requires Valid(parent, rank) && 0 <= u < parent.Length
    modifies parent
    ensures Valid(parent, rank)
    ensures r == old(Root(parent[..], rank, u)) && parent[r] == r && parent[u] == r
    ensures Roots(parent[..]) == old(Roots(parent[..]))
    ensures RootMap(parent[..], rank) == old(RootMap(parent[..], rank))
    decreases parent.Length - rank[u]
  {
    if parent[u] != u {
      ghost var p0 := parent[..];
      var root := DisjointSetGetRoot(parent[u], parent, rank);
      assert RootMap(parent[..], rank)[u] == RootMap(p0, rank)[u];
      Compress(parent[..], rank, u);
      parent[u] := root;
    }
    r := parent[u];
  }

  /** `disjointset_checksamecomponent`: whether `u` and `v` have the same representative. */
  method DisjointSetCheckSameComponent(u: int, v: int, parent: array<int>, ghost rank: seq<nat>) returns (same: bool)
    requires Valid(parent, rank) && 0 <= u < parent.Length && 0 <= v < parent.Length
    modifies parent
    ensures Valid(parent, rank)
    ensures same == (old(RootMap(parent[..], rank))[u] == old(RootMap(parent[..], rank))[v])
    ensures Roots(parent[..]) == old(Roots(parent[..]))
    ensures RootMap(parent[..], rank) == old(RootMap(parent[..], rank))
  {
    var ru := DisjointSetGetRoot(u, parent, rank);
    var rv := DisjointSetGetRoot(v, parent, rank);
    same := ru == rv;
  }

  /**
   * `disjointset_merge`: the representative of `u` is linked under that of `v`
   * (both found first, with compression). The two groups become one; every
   * other group is unchanged. When they are one group already nothing changes.
   */
  method DisjointSetMerge(u: int, v: int, parent: array<int>, ghost rank: seq<nat>) returns (ghost rank': seq<nat>)
    requires Valid(parent, rank) && 0 <= u < parent.Length && 0 <= v < parent.Length
    modifies parent
    ensures Valid(parent, rank')
    ensures old(RootMap(parent[..], rank))[u] == old(RootMap(parent[..], rank))[v] ==>
      RootMap(parent[..], rank') == old(RootMap(parent[..], rank)) && Roots(parent[..]) == old(Roots(parent[..]))
    ensures old(RootMap(parent[..], rank))[u] != old(RootMap(parent[..], rank))[v] ==>
      RootMap(parent[..], rank') ==
        Merge(old(RootMap(parent[..], rank)), old(RootMap(parent[..], rank))[u], old(RootMap(parent[..], rank))[v]) &&
      |Roots(parent[..])| == |old(Roots(parent[..]))| - 1
  {
    var rv := DisjointSetGetRoot(v, parent, rank);
    assert rv in Roots(parent[..]);
    var ru := DisjointSetGetRoot(u, parent, rank);
    ghost var p := parent[..];
    assert IsRoot(p, rv);
    if ru != rv {
      Link(p, rank, ru, rv);
      LinkRootMap(p, rank, ru, rv);
      rank' := Bump(rank, ru, rv);
    } else {
      rank' := rank;
      assert p[ru := rv] == p;
    }
    parent[ru] := rv;
    assert parent[..] == p[ru := rv];
  }

  /** The horizontal pairs of row `h`: each cell and the one to its right. */
  function RowPairs(W: int, h: int): seq<Pair>
  {
    seq(if W >= 1 then W - 1 else 0, w => RightPair(W, h, w))
  }

  /** The vertical pairs of row `h`: each cell and the one below it. */
  function ColumnPairs(W: int, h: int): seq<Pair>
  {
    seq(if W >= 0 then W else 0, w => DownPair(W, h, w))
  }

  /** The pairs the first `h` rows of the first, horizontal, loop append. */
  function Horizontal(W: int, h: nat): seq<Pair>
  {
    if h == 0 then [] else Horizontal(W, h - 1) + RowPairs(W, h - 1)
  }

  /** The pairs the first `h` rows of the second, vertical, loop append. */
  function Vertical(W: int, h: nat): seq<Pair>
  {
    if h == 0 then [] else Vertical(W, h - 1) + ColumnPairs(W, h - 1)
  }

  /** All the pairs `Kruskal_initialize` appends, horizontal ones first. */
  function GridPairs(H: int, W: int): seq<Pair>
  {
    Horizontal(W, if H >= 0 then H else 0) + Vertical(W, if H >= 1 then H - 1 else 0)
  }

  lemma {:induction false} HorizontalCount(W: int, h: nat)
    requires W >= 1
    ensures |Horizontal(W, h)| == h * (W - 1)
  {
    if h > 0 {
      HorizontalCount(W, h - 1);
    }
  }

  lemma {:induction false} VerticalCount(W: int, h: nat)
    requires W >= 0
    ensures |Vertical(W, h)| == h * W
  {
    if h > 0 {
      VerticalCount(W, h - 1);
    }
  }

  /** There are H(W-1) horizontal and (H-1)W vertical pairs. */
  lemma GridPairsCount(H: int, W: int)
    requires H >= 1 && W >= 1
    ensures |GridPairs(H, W)| == H * (W - 1) + (H - 1) * W
  {
    HorizontalCount(W, H);
    VerticalCount(W, H - 1);
  }

  /** The pair of cell (r, c) and the cell to its right. */
  function RightPair(W: int, r: int, c: int): Pair
  {
    (r * W + c, r * W + c + 1)
  }

  /** The pair of cell (r, c) and the cell below it. */
  function DownPair(W: int, r: int, c: int): Pair
  {
    (r * W + c, r * W + c + W)
  }

  /** The cells (r, c) and (r, c + 1) of the board are neighbours. */
  lemma RightGrid(H: int, W: int, r: int, c: int)
    requires 0 <= r < H && 0 <= c < W - 1
    ensures GridPair(H, W, RightPair(W, r, c))
  {
    CellVertex(H, W, (r, c));
    CellVertex(H, W, (r, c + 1));
  }

  /** The cells (r, c) and (r + 1, c) of the board are neighbours. */
  lemma DownGrid(H: int, W: int, r: int, c: int)
    requires W >= 1 && 0 <= r < H - 1 && 0 <= c < W
    ensures GridPair(H, W, DownPair(W, r, c))
  {
    CellVertex(H, W, (r, c));
    CellVertex(H, W, (r + 1, c));
    assert r * W + c + W == (r + 1) * W + c;
  }

  /** Every horizontal pair of the first `h` rows joins neighbouring cells. */
  lemma {:induction false} HorizontalGrid(H: int, W: int, h: nat)
    requires W >= 1 && h <= H
    ensures forall k :: 0 <= k < |Horizontal(W, h)| ==> GridPair(H, W, Horizontal(W, h)[k])
  {
    if h > 0 {
      HorizontalGrid(H, W, h - 1);
      var row := RowPairs(W, h - 1);
      forall c | 0 <= c < |row| ensures GridPair(H, W, row[c]) {
        RightGrid(H, W, h - 1, c);
      }
    }
  }

  /** Every vertical pair of the first `h` rows joins neighbouring cells. */
  lemma {:induction false} VerticalGrid(H: int, W: int, h: nat)
    requires W >= 1 && h <= H - 1
    ensures forall k :: 0 <= k < |Vertical(W, h)| ==> GridPair(H, W, Vertical(W, h)[k])
  {
    if h > 0 {
      VerticalGrid(H, W, h - 1);
      var column := ColumnPairs(W, h - 1);
      forall c | 0 <= c < |column| ensures GridPair(H, W, column[c]) {
        DownGrid(H, W, h - 1, c);
      }
    }
  }

  /** Every appended pair joins two neighbouring cells of the board. */
  lemma GridPairsGrid(H: int, W: int)
    requires H >= 1 && W >= 1
    ensures forall k :: 0 <= k < |GridPairs(H, W)| ==> GridPair(H, W, GridPairs(H, W)[k])
  {
    HorizontalGrid(H, W, H);
    VerticalGrid(H, W, H - 1);
  }

  /** The first `h` rows of the horizontal loop append the pair of (r, c) and its right neighbour. */
  lemma {:induction false} HorizontalHas(W: int, h: nat, r: int, c: int)
    requires 0 <= r < h && 0 <= c < W - 1
    ensures RightPair(W, r, c) in Horizontal(W, h)
  {
    if r < h - 1 {
      HorizontalHas(W, h - 1, r, c);
    } else {
      assert RowPairs(W, h - 1)[c] == RightPair(W, r, c);
    }
  }

  /** The first `h` rows of the vertical loop append the pair of (r, c) and the cell below. */
  lemma {:induction false} VerticalHas(W: int, h: nat, r: int, c: int)
    requires 0 <= r < h && 0 <= c < W
    ensures DownPair(W, r, c) in Vertical(W, h)
  {
    if r < h - 1 {
      VerticalHas(W, h - 1, r, c);
    } else {
      assert ColumnPairs(W, h - 1)[c] == DownPair(W, r, c);
    }
  }

  /** The list names the wall between every two neighbouring cells, in one direction or the other. */
  ghost predicate Complete(H: int, W: int, E: seq<Pair>)
  {
    forall a, b :: InGrid(H, W, a) && InGrid(H, W, b) && Neighbours(a, b) ==>
      exists k :: 0 <= k < |E| && SameWall(E[k], (VertexOf(W, a), VertexOf(W, b)))
  }

  /** The appended pairs name every wall between neighbouring cells. */
  lemma GridPairsComplete(H: int, W: int)
    requires H >= 1 && W >= 1
    ensures Complete(H, W, GridPairs(H, W))
  {
    forall a, b | InGrid(H, W, a) && InGrid(H, W, b) && Neighbours(a, b)
      ensures exists k :: 0 <= k < |GridPairs(H, W)| && SameWall(GridPairs(H, W)[k], (VertexOf(W, a), VertexOf(W, b)))
    {
      if a.0 == b.0 {
        RowWallListed(H, W, a, b);
      } else {
        ColumnWallListed(H, W, a, b);
      }
    }
  }

  /** The wall between two cells of one row is appended. */
  lemma RowWallListed(H: int, W: int, a: Position, b: Position)
    requires InGrid(H, W, a) && InGrid(H, W, b) && Neighbours(a, b) && a.0 == b.0
    ensures exists k :: 0 <= k < |GridPairs(H, W)| && SameWall(GridPairs(H, W)[k], (VertexOf(W, a), VertexOf(W, b)))
  {
    var c := if a.1 <= b.1 then a.1 else b.1;
    HorizontalHas(W, H, a.0, c);
    var e := RightPair(W, a.0, c);
    assert GridPairs(H, W) == Horizontal(W, H) + Vertical(W, H - 1);
    assert e in GridPairs(H, W);
    Listed(W, GridPairs(H, W), e, a, b);
  }

  /** The wall between two cells of one column is appended. */
  lemma ColumnWallListed(H: int, W: int, a: Position, b: Position)
    requires InGrid(H, W, a) && InGrid(H, W, b) && Neighbours(a, b) && a.0 != b.0
    ensures exists k :: 0 <= k < |GridPairs(H, W)| && SameWall(GridPairs(H, W)[k], (VertexOf(W, a), VertexOf(W, b)))
  {
    var r := if a.0 <= b.0 then a.0 else b.0;
    DownListed(H, W, r, a.1);
    DownWall(W, r, a, b);
    Listed(W, GridPairs(H, W), DownPair(W, r, a.1), a, b);
  }

  lemma DownListed(H: int, W: int, r: int, c: int)
    requires 0 <= r < H - 1 && 0 <= c < W
    ensures DownPair(W, r, c) in GridPairs(H, W)
  {
    VerticalHas(W, H - 1, r, c);
    assert GridPairs(H, W) == Horizontal(W, H) + Vertical(W, H - 1);
  }

  lemma DownWall(W: int, r: int, a: Position, b: Position)
    requires a.1 == b.1 && ((a.0 == r && b.0 == r + 1) || (b.0 == r && a.0 == r + 1))
    ensures SameWall(DownPair(W, r, a.1), (VertexOf(W, a), VertexOf(W, b)))
  {
    assert (r + 1) * W == r * W + W;
  }

  lemma Listed(W: int, E: seq<Pair>, e: Pair, a: Position, b: Position)
    requires e in E && SameWall(e, (VertexOf(W, a), VertexOf(W, b)))
    ensures exists k :: 0 <= k < |E| && SameWall(E[k], (VertexOf(W, a), VertexOf(W, b)))
  {
    var k :| 0 <= k < |E| && E[k] == e;
  }

  /**
   * `Kruskal_initialize`: a parent vector of H*W vertices, each its own parent,
   * and the horizontal then the vertical pairs appended to the list.
   */
  method KruskalInitialize(H: int, W: int, Kruskalarray: seq<Pair>)
    returns (err: int, parent: array<int>, edges: seq<Pair>)
    requires H >= 0 && W >= 0
    ensures err == 0 && fresh(parent) && parent[..] == Iota(H * W)
    ensures edges == Kruskalarray + GridPairs(H, W)
  {
    parent := new int[H * W];
    DisjointSetInitParent(H * W, parent);
    assert parent[..] == Iota(H * W);
    edges := PushHorizontal(H, W, Kruskalarray);
    edges := PushVertical(H, W, edges);
    err := 0;
  }

  /** The first double loop of `Kruskal_initialize`: every cell and the one to its right, row by row. */
  method PushHorizontal(H: int, W: int, edges: seq<Pair>) returns (edges': seq<Pair>)
    requires H >= 0 && W >= 0
    ensures edges' == edges + Horizontal(W, H)
  {
    edges' := edges;
    var h := 0;
    while h < H
      invariant 0 <= h <= H
      invariant edges' == edges + Horizontal(W, h)
    {
      var w := 0;
      while w < W - 1
        invariant 0 <= w <= if W >= 1 then W - 1 else 0
        invariant edges' == edges + Horizontal(W, h) + RowPairs(W, h)[..w]
      {
        assert RowPairs(W, h)[..w + 1] == RowPairs(W, h)[..w] + [(h * W + w, h * W + w + 1)];
        edges' := edges' + [(h * W + w, h * W + w + 1)];
        w := w + 1;
      }
      assert RowPairs(W, h)[..w] == RowPairs(W, h);
      h := h + 1;
    }
  }

  /** The second double loop of `Kruskal_initialize`: every cell and the one below it, row by row. */
  method PushVertical(H: int, W: int, edges: seq<Pair>) returns (edges': seq<Pair>)
    requires H >= 0 && W >= 0
    ensures edges' == edges + Vertical(W, if H >= 1 then H - 1 else 0)
  {
    edges' := edges;
    var h := 0;
    while h < H - 1
      invariant 0 <= h <= if H >= 1 then H - 1 else 0
      invariant edges' == edges + Vertical(W, h)
    {
      var w := 0;
      while w < W
        invariant 0 <= w <= W
        invariant edges' == edges + Vertical(W, h) + ColumnPairs(W, h)[..w]
      {
        assert ColumnPairs(W, h)[..w + 1] == ColumnPairs(W, h)[..w] + [(h * W + w, h * W + w + W)];
        edges' := edges' + [(h * W + w, h * W + w + W)];
        w := w + 1;
      }
      assert ColumnPairs(W, h)[..w] == ColumnPairs(W, h);
      h := h + 1;
    }
  }

  /** The invariant of the main loop: the forest tracks the tree, whose walls the board shows. */
  ghost predicate Running(H: int, W: int, parent: array<int>, rank: seq<nat>, T: seq<Pair>, maze: array2<char>)
    reads parent, maze
  {
    H >= 1 && W >= 1 && Valid(parent, rank) && Tracks(H * W, parent[..], rank, T) && Shows(maze, H, W, T)
  }

  /**
   * One pass of the main loop of `Kruskal_algorithm`: a pair whose cells are in
   * one component is skipped; otherwise its wall is knocked down and the two
   * components merged.
   */
  method KruskalStep(H: int, W: int, parent: array<int>, ghost rank: seq<nat>, ghost T: seq<Pair>,
                     maze: array2<char>, e: Pair)
    returns (kept: bool, ghost rank': seq<nat>, ghost T': seq<Pair>)
    requires Running(H, W, parent, rank, T, maze) && GridPair(H, W, e)
    modifies parent, maze
    ensures Running(H, W, parent, rank', T', maze)
    ensures kept == (old(RootMap(parent[..], rank))[e.0] != old(RootMap(parent[..], rank))[e.1])
    ensures T' == if kept then T + [e] else T
    ensures RootMap(parent[..], rank') ==
      if kept then Merge(old(RootMap(parent[..], rank)), old(RootMap(parent[..], rank))[e.0], old(RootMap(parent[..], rank))[e.1])
      else old(RootMap(parent[..], rank))
  {
    var u, v := e.0, e.1;
    var same := DisjointSetCheckSameComponent(u, v, parent, rank);
    if same {
      return false, rank, T;
    }
    VertexCell(H, W, u);
    VertexCell(H, W, v);
    RemoveEdge(u / W, u % W, v / W, v % W, maze, H, W, T, e);
    ghost var p := parent[..];
    rank' := DisjointSetMerge(u, v, parent, rank);
    TracksMerge(H * W, p, rank, T, parent[..], rank', u, v);
    kept, T' := true, T + [e];
  }

  /** A shuffle of grid pairs holds the same pairs, every one a grid pair. */
  lemma ShuffledPairs(H: int, W: int, shuffled: seq<Pair>, pairs: seq<Pair>)
    requires multiset(shuffled) == multiset(pairs)
    requires forall k :: 0 <= k < |pairs| ==> GridPair(H, W, pairs[k])
    ensures forall e :: e in shuffled <==> e in pairs
    ensures forall k :: 0 <= k < |shuffled| ==> GridPair(H, W, shuffled[k])
  {
    SameMembers(shuffled, pairs);
    forall k | 0 <= k < |shuffled| ensures GridPair(H, W, shuffled[k]) {
      assert shuffled[k] in pairs;
    }
  }

  /**
   * `Kruskal_algorithm`: shuffle the list, then knock down the wall of each
   * pair whose cells are in different components and merge them. The walls
   * knocked down form an acyclic list of pairs of the list; when the list names
   * every wall of the board they form a spanning tree of the rectangular grid.
   */
  method KruskalAlgorithm(H: int, W: int, parent: array<int>, Kruskalarray: seq<Pair>, maze: array2<char>,
                          generator: Random.Generator)
    returns (ret: int, shuffled: seq<Pair>, ghost T: seq<Pair>)
    requires H >= 1 && W >= 1 && parent[..] == Iota(H * W)
    requires forall k :: 0 <= k < |Kruskalarray| ==> GridPair(H, W, Kruskalarray[k])
    requires Shows(maze, H, W, [])
    modifies parent, maze, generator
    ensures ret == 0 && multiset(shuffled) == multiset(Kruskalarray)
    ensures Shows(maze, H, W, T) && Acyclic(H * W, T)
    ensures forall k :: 0 <= k < |T| ==> T[k] in Kruskalarray && GridPair(H, W, T[k])
    ensures Complete(H, W, Kruskalarray) ==> IsSpanningTree(H * W, RectangularMaze.Layout(W, H), T)
  {
    shuffled := generator.Shuffle(Kruskalarray);
    ShuffledPairs(H, W, shuffled, Kruskalarray);
    ghost var rank;
    rank, T := KruskalPasses(H, W, parent, maze, shuffled);
    KruskalOutcome(H, W, parent[..], rank, T, shuffled, Kruskalarray);
    ret := 0;
  }

  /** The main loop of `Kruskal_algorithm`, over the shuffled pairs in order. */
  method KruskalPasses(H: int, W: int, parent: array<int>, maze: array2<char>, shuffled: seq<Pair>)
    returns (ghost rank: seq<nat>, ghost T: seq<Pair>)
    requires H >= 1 && W >= 1 && parent[..] == Iota(H * W) && Shows(maze, H, W, [])
    requires forall k :: 0 <= k < |shuffled| ==> GridPair(H, W, shuffled[k])
    modifies parent, maze
    ensures Running(H, W, parent, rank, T, maze)
    ensures Kruskal.JoinedUpTo(RootMap(parent[..], rank), shuffled, |shuffled|)
    ensures forall k :: 0 <= k < |T| ==> T[k] in shuffled
  {
    rank := Zeros(H * W);
    T := [];
    TracksStart(H * W, parent[..], rank);
    var i := 0;
    while i < |shuffled|
      invariant 0 <= i <= |shuffled|
      invariant Running(H, W, parent, rank, T, maze)
      invariant Kruskal.JoinedUpTo(RootMap(parent[..], rank), shuffled, i)
      invariant forall k :: 0 <= k < |T| ==> T[k] in shuffled
    {
      ghost var groups := RootMap(parent[..], rank);
      var kept;
      kept, rank, T := KruskalStep(H, W, parent, rank, T, maze, shuffled[i]);
      Kruskal.JoinStep(groups, RootMap(parent[..], rank), shuffled, i, kept);
      i := i + 1;
    }
  }

  /** What the end of the main loop gives. */
  lemma KruskalOutcome(H: int, W: int, p: seq<int>, rank: seq<nat>, T: seq<Pair>, shuffled: seq<Pair>, E: seq<Pair>)
    requires H >= 1 && W >= 1 && Tracks(H * W, p, rank, T)
    requires forall e :: e in shuffled <==> e in E
    requires forall k :: 0 <= k < |E| ==> GridPair(H, W, E[k])
    requires Kruskal.JoinedUpTo(RootMap(p, rank), shuffled, |shuffled|)
    requires forall k :: 0 <= k < |T| ==> T[k] in shuffled
    ensures forall k :: 0 <= k < |T| ==> T[k] in E && GridPair(H, W, T[k])
    ensures Complete(H, W, E) ==> IsSpanningTree(H * W, RectangularMaze.Layout(W, H), T)
  {
    if Complete(H, W, E) {
      var g: Graph := RectangularMaze.Layout(W, H);
      var C := RootMap(p, rank);
      forall u, j | 0 <= u < |g| && 0 <= j < |g[u]| && g[u][j].0 >= 0
        ensures C[u] == C[g[u][j].0]
      {
        WallJoined(H, W, g, C, shuffled, E, u, g[u][j].0);
      }
      RectangularMaze.LayoutConnected(W, H);
      TracksAllJoined(H * W, g, p, rank, T);
      forall k | 0 <= k < |T| ensures Adjacent(g, T[k].0, T[k].1) {
        GridPairAdjacent(H, W, T[k]);
      }
    }
  }

  /** With a complete list considered, the two ends of every wall of the grid share a group. */
  lemma WallJoined(H: int, W: int, g: Graph, C: seq<int>, shuffled: seq<Pair>, E: seq<Pair>, u: int, w: int)
    requires H >= 1 && W >= 1 && g == RectangularMaze.Layout(W, H) && |C| == H * W
    requires Complete(H, W, E) && forall e :: e in shuffled <==> e in E
    requires Kruskal.JoinedUpTo(C, shuffled, |shuffled|)
    requires 0 <= u < H * W && 0 <= w < H * W && Adjacent(g, u, w)
    ensures C[u] == C[w]
  {
    GridPairAdjacent(H, W, (u, w));
    VertexCell(H, W, u);
    VertexCell(H, W, w);
    var a, b := CellOf(W, u), CellOf(W, w);
    var k :| 0 <= k < |E| && SameWall(E[k], (VertexOf(W, a), VertexOf(W, b)));
    assert E[k] in shuffled;
    var m :| 0 <= m < |shuffled| && shuffled[m] == E[k];
  }

  /**
   * `Kruskal_createmaze`: code 1 when `initmaze` refuses the size, the board
   * left as it was; otherwise code 0 and a fresh board whose knocked-down walls
   * form a spanning tree of the H x W grid.
   */
  method KruskalCreateMaze(H: int, W: int, maze: array2<char>, generator: Random.Generator)
    returns (ret: int, board: array2<char>, ghost T: seq<Pair>)
    modifies generator
    ensures ret == 0 || ret == 1
    ensures ret == 1 <==> H <= 0 || H > 1000 || W <= 0 || W > 1000
    ensures ret == 1 ==> board == maze
    ensures ret == 0 ==> fresh(board) && Shows(board, H, W, T)
    ensures ret == 0 ==> IsSpanningTree(H * W, RectangularMaze.Layout(W, H), T)
  {
    var err;
    err, board := InitMaze(H, W, maze);
    if err != 0 {
      return 1, board, [];
    }
    var parent, Kruskalarray;
    err, parent, Kruskalarray := KruskalInitialize(H, W, []);
    assert Kruskalarray == GridPairs(H, W);
    GridPairsGrid(H, W);
    GridPairsComplete(H, W);
    var _, _, tree := KruskalAlgorithm(H, W, parent, Kruskalarray, board, generator);
    T := tree;
    ret := 0;
  }
}
