/**
 * The checks of tests/test_maze.cpp: connectivity by breadth-first search,
 * over the internal entries of a maze graph or over the pairs of a tree, the
 * count of distinct internal walls, and the count of outside walls. Each
 * check is proved to compute the predicate of the model it stands for.
 */
module Validators {
  import opened Graphs
  import opened Trees
  import RectangularMaze
  import TriangularMaze

  // ---------------------------------------------------------------------------
  // Breadth-first search over the internal entries.

  /** The internal neighbours of `u` among its first `j` entries. */
  ghost function SeenUpTo(g: Graph, u: int, j: int): set<int>
    requires 0 <= u < |g|
  {
    set k | 0 <= k < j && k < |g[u]| && g[u][k].0 >= 0 :: g[u][k].0
  }

  /** All the internal neighbours of `u`. */
  ghost function NeighbourSet(g: Graph, u: int): set<int>
    requires 0 <= u < |g|
  {
    SeenUpTo(g, u, |g[u]|)
  }

  /**
   * The inner loop of the search: every internal neighbour of `current` not
   * yet visited is marked and queued, so that afterwards all of them are
   * visited and the queue has gained exactly the newly marked vertices.
   */
  method Look(g: Graph, current: int, visited: set<int>, queue: seq<int>)
    returns (visited': set<int>, queue': seq<int>)
    requires ValidGraph(|g|, g) && 0 <= current < |g|
    ensures visited' == visited + NeighbourSet(g, current)
    ensures forall x :: x in queue' <==> x in queue || x in visited' - visited
    ensures visited' == visited ==> queue' == queue
  {
    visited', queue' := visited, queue;
    for j := 0 to |g[current]|
      invariant visited' == visited + SeenUpTo(g, current, j)
      invariant forall x :: x in queue' <==> x in queue || x in visited' - visited
      invariant visited' == visited ==> queue' == queue
    {
      var to := g[current][j].0;
      assert SeenUpTo(g, current, j + 1) == SeenUpTo(g, current, j) + (if to >= 0 then {to} else {});
      if to >= 0 && to !in visited' {
        visited' := visited' + {to};
        queue' := queue' + [to];
      }
    }
  }

  /**
   * The breadth-first search shared by both modes of `is_connected_graph`:
   * a queue holding `start`, a set holding `start`, and the neighbours of
   * each dequeued vertex looked at. The set that results holds exactly the
   * vertices reachable from `start` over internal entries.
   */
  method Explore(g: Graph, start: int) returns (visited: set<int>)
    requires ValidGraph(|g|, g) && 0 <= start < |g|
    ensures forall x :: x in visited <==> 0 <= x < |g| && Reach(g, start, x)
  {
    var queue := [start];
    visited := {start};
    while |queue| > 0
      invariant visited <= Vertices(|g|) && start in visited
      invariant forall x :: x in visited ==> Reach(g, start, x)
      invariant forall x :: x in queue ==> x in visited
      invariant forall u :: u in visited && u !in queue ==> NeighbourSet(g, u) <= visited
      decreases |Vertices(|g|) - visited|, |queue|
    {
      var current := queue[0];
      ghost var before, waiting := visited, queue;
      assert current in queue && current in Vertices(|g|);
      visited, queue := Look(g, current, visited, queue[1..]);
      Explored(g, start, before, visited, current);
      Waited(g, before, waiting, visited, queue);
      if visited != before {
        Shrinks(before, visited, Vertices(|g|));
      } else {
        assert |queue| < |waiting|;
      }
    }
    Finished(g, start, visited);
  }

  /** After a vertex is dequeued and looked at, the queue and the marked set keep their relation. */
  lemma Waited(g: Graph, before: set<int>, waiting: seq<int>, visited: set<int>, queue: seq<int>)
    requires ValidGraph(|g|, g) && waiting != [] && 0 <= waiting[0] < |g|
    requires before <= visited <= Vertices(|g|)
    requires forall x :: x in waiting ==> x in before
    requires forall u :: u in before && u !in waiting ==> NeighbourSet(g, u) <= before
    requires visited == before + NeighbourSet(g, waiting[0])
    requires forall x :: x in queue <==> x in waiting[1..] || x in visited - before
    ensures forall x :: x in queue ==> x in visited
    ensures forall u :: u in visited && u !in queue ==> NeighbourSet(g, u) <= visited
  {
    forall u | u in visited && u !in queue ensures NeighbourSet(g, u) <= visited {
      if u != waiting[0] {
        assert u in before && u !in waiting;
      }
    }
  }

  /** A marked set holding `start`, closed and reachable from `start`, is exactly what `start` reaches. */
  lemma Finished(g: Graph, start: int, visited: set<int>)
    requires ValidGraph(|g|, g) && visited <= Vertices(|g|)
    requires forall u :: u in visited ==> NeighbourSet(g, u) <= visited
    requires start in visited && forall x :: x in visited ==> Reach(g, start, x)
    ensures forall x :: x in visited <==> 0 <= x < |g| && Reach(g, start, x)
  {
    forall u, j | u in visited && 0 <= u < |g| && 0 <= j < |g[u]| && g[u][j].0 >= 0
      ensures g[u][j].0 in visited
    {
      assert g[u][j].0 in NeighbourSet(g, u);
    }
    forall x | 0 <= x < |g| && Reach(g, start, x) ensures x in visited {
      ReachInClosed(g, start, x, visited);
    }
  }

  /** Marking the neighbours of a reachable vertex keeps every marked vertex reachable. */
  lemma Explored(g: Graph, start: int, visited: set<int>, visited': set<int>, current: int)
    requires ValidGraph(|g|, g) && 0 <= current < |g| && current in visited
    requires visited <= Vertices(|g|) && forall x :: x in visited ==> Reach(g, start, x)
    requires visited' == visited + NeighbourSet(g, current)
    ensures visited' <= Vertices(|g|) && forall x :: x in visited' ==> Reach(g, start, x)
  {
    forall x | x in NeighbourSet(g, current) ensures Reach(g, start, x) && x in Vertices(|g|) {
      var j :| 0 <= j < |g[current]| && g[current][j].0 >= 0 && x == g[current][j].0;
      ReachStep(g, start, current, j);
    }
  }

  /** Growing a subset of `U` leaves fewer members of `U` outside it. */
  lemma Shrinks(A: set<int>, B: set<int>, U: set<int>)
    requires A <= B <= U && A != B
    ensures |U - B| < |U - A|
  {
    assert B - A != {};
    assert U - A == (U - B) + (B - A);
    assert (U - B) * (B - A) == {};
  }

  /** A set of vertices with as many members as there are vertices is all of them. */
  lemma AllVertices(n: nat, S: set<int>)
    requires S <= Vertices(n)
    ensures |S| == n <==> S == Vertices(n)
  {
    VerticesCard(n);
    if S != Vertices(n) {
      assert !(Vertices(n) <= S);
      var x :| x in Vertices(n) && x !in S;
      SubsetCard(S, Vertices(n) - {x});
    }
  }

  /**
   * `is_connected_graph` without a tree: true exactly when every vertex is
   * reachable from `start` over internal entries; on a symmetric graph that
   * is exactly connectivity.
   */
  method IsConnectedGraph(V: int, start: int, graph: Graph) returns (ok: bool)
    requires ValidGraph(V, graph) && 0 <= start < V
    ensures ok <==> ConnectedFrom(graph, start)
    ensures Symmetric(graph) ==> (ok <==> Connected(V, graph))
  {
    var visited := Explore(graph, start);
    ok := |visited| == V;
    AllVertices(V, visited);
    if ok {
      forall S | start in S && Closed(graph, S) ensures Vertices(|graph|) <= S {
        forall x | x in Vertices(|graph|) ensures x in S {
          ReachInClosed(graph, start, x, S);
        }
      }
    } else {
      assert Closed(graph, visited) by {
        forall u, j | u in visited && 0 <= u < |graph| && 0 <= j < |graph[u]| && graph[u][j].0 >= 0
          ensures graph[u][j].0 in visited
        {
          ReachStep(graph, start, u, j);
        }
      }
    }
    if Symmetric(graph) {
      if ok {
        ReachesAllConnected(graph, start);
      } else if Connected(V, graph) {
        ConnectedReachesAll(graph, start);
      }
    }
  }

  // ---------------------------------------------------------------------------
  // Connectivity of a list of tree pairs.

  /** The pushes of the tree mode: each pair in both directions. */
  function TreePushes(T: seq<Pair>): (P: seq<PushOp>)
    ensures |P| == 2 * |T|
    decreases |T|
  {
    if T == [] then []
    else
      var e := T[|T| - 1];
      TreePushes(T[..|T| - 1]) + [(e.0, (e.1, [])), (e.1, (e.0, []))]
  }

  /** Every pair has both ends among the `n` vertices. */
  ghost predicate PairsIn(n: int, T: seq<Pair>)
  {
    forall k :: 0 <= k < |T| ==> EndsIn(n, T[k])
  }

  /** A tree push joins the two ends of one of the pairs, in one direction or the other. */
  lemma {:induction false} TreePushesMembers(T: seq<Pair>, x: PushOp)
    ensures x in TreePushes(T) <==>
      x.1.1 == [] && exists k :: 0 <= k < |T| && SameWall(T[k], (x.0, x.1.0))
    decreases |T|
  {
    if T != [] {
      var T' := T[..|T| - 1];
      TreePushesMembers(T', x);
      if exists k :: 0 <= k < |T| && SameWall(T[k], (x.0, x.1.0)) {
        var k :| 0 <= k < |T| && SameWall(T[k], (x.0, x.1.0));
        if k < |T'| {
          assert T'[k] == T[k];
        }
      }
      if exists k :: 0 <= k < |T'| && SameWall(T'[k], (x.0, x.1.0)) {
        var k :| 0 <= k < |T'| && SameWall(T'[k], (x.0, x.1.0));
        assert T[k] == T'[k];
      }
    }
  }

  lemma {:induction false} TreePushesIn(n: int, T: seq<Pair>)
    requires PairsIn(n, T)
    ensures PushesIn(n, TreePushes(T))
    decreases |T|
  {
    if T != [] {
      TreePushesIn(n, T[..|T| - 1]);
    }
  }

  /** The lists of the tree mode: each pair's second end in its first end's list and back. */
  function TreeGraph(n: nat, T: seq<Pair>): (g: Graph)
    requires PairsIn(n, T)
    ensures |g| == n
  {
    TreePushesIn(n, T);
    Build(Empty(n), TreePushes(T))
  }

  /** An entry of the tree lists names the other end of one of the pairs. */
  lemma TreeGraphEntries(n: nat, T: seq<Pair>, u: int, e: Edge)
    requires PairsIn(n, T) && 0 <= u < n
    ensures e in TreeGraph(n, T)[u] <==> e.1 == [] && exists k :: 0 <= k < |T| && SameWall(T[k], (u, e.0))
  {
    TreePushesIn(n, T);
    BuildMembers(n, TreePushes(T), u, e);
    TreePushesMembers(T, (u, e));
  }

  /**
   * The loop of the tree mode that fills `adj`: for every pair (u, v), v is
   * pushed onto the list of u and u onto the list of v.
   */
  method TreeAdjacency(n: nat, T: seq<Pair>) returns (adj: Graph)
    requires PairsIn(n, T)
    ensures adj == TreeGraph(n, T)
  {
    adj := Empty(n);
    for k := 0 to |T|
      invariant PairsIn(n, T[..k]) && adj == TreeGraph(n, T[..k])
    {
      var u, v := T[k].0, T[k].1;
      assert T[..k + 1][..k] == T[..k];
      TreePushesIn(n, T[..k]);
      BuildStep(Empty(n), TreePushes(T[..k]), (u, (v, [])));
      BuildStep(Empty(n), TreePushes(T[..k]) + [(u, (v, []))], (v, (u, [])));
      assert TreePushes(T[..k + 1]) == TreePushes(T[..k]) + [(u, (v, []))] + [(v, (u, []))];
      adj := Push(adj, u, (v, []));
      adj := Push(adj, v, (u, []));
    }
    assert T[..|T|] == T;
  }

  /** The tree lists are valid lists of `n` vertices. */
  lemma TreeGraphValid(n: nat, T: seq<Pair>)
    requires PairsIn(n, T)
    ensures ValidGraph(n, TreeGraph(n, T))
  {
    var g: Graph := TreeGraph(n, T);
    forall u, j | 0 <= u < |g| && 0 <= j < |g[u]| ensures -1 <= g[u][j].0 < |g| {
      TreeGraphEntries(n, T, u, g[u][j]);
    }
  }

  /**
   * Reaching every vertex over the tree lists is the same as the pairs joining
   * all vertices into one component.
   */
  lemma TreeReach(n: nat, T: seq<Pair>, start: int)
    requires PairsIn(n, T) && 0 <= start < n
    ensures ConnectedFrom(TreeGraph(n, T), start) <==> OneComponent(n, T, start)
  {
    if OneComponent(n, T, start) {
      OneComponentReaches(n, T, start);
    }
    if ConnectedFrom(TreeGraph(n, T), start) {
      ReachesOneComponent(n, T, start);
    }
  }

  /** The pairs join every vertex to `start`'s component. */
  ghost predicate OneComponent(n: nat, T: seq<Pair>, start: int)
  {
    0 <= start < n && forall x :: 0 <= x < n ==> Labels(n, T)[x] == Labels(n, T)[start]
  }

  /** When the pairs join everything into one component, every closed set holding `start` is everything. */
  lemma OneComponentReaches(n: nat, T: seq<Pair>, start: int)
    requires PairsIn(n, T) && 0 <= start < n
    requires OneComponent(n, T, start)
    ensures ConnectedFrom(TreeGraph(n, T), start)
  {
    var g: Graph := TreeGraph(n, T);
    forall S | start in S && Closed(g, S) ensures Vertices(|g|) <= S {
      assert ClosedUnder(T, S) by {
        forall k | 0 <= k < |T| ensures T[k].0 in S <==> T[k].1 in S {
          TreeGraphEntries(n, T, T[k].0, (T[k].1, []));
          TreeGraphEntries(n, T, T[k].1, (T[k].0, []));
          if T[k].0 in S {
            ClosedEntry(g, S, T[k].0, (T[k].1, []));
          }
          if T[k].1 in S {
            ClosedEntry(g, S, T[k].1, (T[k].0, []));
          }
        }
      }
      forall x | x in Vertices(|g|) ensures x in S {
        LabelsRespectClosed(n, T, S, start, x);
      }
    }
  }

  /** When the tree lists reach everything from `start`, the pairs join everything into one component. */
  lemma ReachesOneComponent(n: nat, T: seq<Pair>, start: int)
    requires PairsIn(n, T) && 0 <= start < n
    requires ConnectedFrom(TreeGraph(n, T), start)
    ensures OneComponent(n, T, start)
  {
    var g: Graph := TreeGraph(n, T);
    var L := Labels(n, T);
    var S := set x | 0 <= x < n && L[x] == L[start];
    assert Closed(g, S) by {
      forall u, j | u in S && 0 <= u < |g| && 0 <= j < |g[u]| && g[u][j].0 >= 0
        ensures g[u][j].0 in S
      {
        assert g[u][j] in g[u];
        TreeGraphEntries(n, T, u, g[u][j]);
        var k :| 0 <= k < |T| && SameWall(T[k], (u, g[u][j].0));
        JoinedAfter(n, T, k);
      }
    }
    assert start in S;
    assert Vertices(|g|) <= S;
    forall x | 0 <= x < n ensures L[x] == L[start] {
      assert x in Vertices(|g|);
    }
  }

  /** An entry in the list of a member of a closed set leads into the set or outside. */
  lemma ClosedEntry(g: Graph, S: set<int>, u: int, e: Edge)
    requires Closed(g, S) && 0 <= u < |g| && e in g[u] && e.0 >= 0 && u in S
    ensures e.0 in S
  {
    var j :| 0 <= j < |g[u]| && g[u][j] == e;
  }

  /**
   * `is_connected_graph` with a tree: the pairs are pushed both ways into
   * fresh lists and searched from `start`; true exactly when the pairs join
   * every vertex to `start`'s component.
   */
  method IsConnectedTree(V: nat, start: int, spanningtree: seq<Pair>) returns (ok: bool)
    requires PairsIn(V, spanningtree) && 0 <= start < V
    ensures ok <==> OneComponent(V, spanningtree, start)
  {
    var adj := TreeAdjacency(V, spanningtree);
    TreeGraphValid(V, spanningtree);
    ok := IsConnectedGraph(V, start, adj);
    TreeReach(V, spanningtree, start);
  }

  /** A spanning tree of the model passes the tree mode of `is_connected_graph`. */
  lemma SpanningTreeConnected(V: nat, g: Graph, T: seq<Pair>, start: int)
    requires IsSpanningTree(V, g, T) && 0 <= start < V
    ensures PairsIn(V, T)
    ensures OneComponent(V, T, start)
  {
    forall k | 0 <= k < |T| ensures EndsIn(V, T[k]) {
      AcyclicEnds(V, T, k);
    }
    forall x | 0 <= x < V ensures Labels(V, T)[x] == Labels(V, T)[start] {
      SpanningTreeOneClass(V, g, T, x, start);
    }
  }

  lemma {:induction false} AcyclicEnds(n: nat, T: seq<Pair>, k: int)
    requires Acyclic(n, T) && 0 <= k < |T|
    ensures EndsIn(n, T[k])
    decreases |T|
  {
    if k < |T| - 1 {
      AcyclicEnds(n, T[..|T| - 1], k);
    }
  }

  // ---------------------------------------------------------------------------
  // Distinct internal walls.

  /** A wall as the pair (smaller end, larger end). */
  function Unordered(a: int, b: int): (p: Pair)
    ensures SameWall(p, (a, b)) && p.0 <= p.1
  {
    if a <= b then (a, b) else (b, a)
  }

  /** The walls named by the internal entries of the lists before `(v, j)`. */
  ghost function WallsBefore(g: Graph, v: int, j: int): set<Pair>
  {
    set u, k | 0 <= u < |g| && 0 <= k < |g[u]| && (u < v || (u == v && k < j)) && g[u][k].0 >= 0 ::
      Unordered(u, g[u][k].0)
  }

  /** The walls named by all internal entries of the graph. */
  ghost function Walls(g: Graph): set<Pair>
  {
    WallsBefore(g, |g|, 0)
  }

  /**
   * `is_spanning_tree`: the internal entries are gathered as (smaller end,
   * larger end) pairs into a set, so both entries of a mirrored wall count
   * once; true exactly when there are `V - 1` distinct walls.
   */
  method IsSpanningTreeCheck(V: int, graph: Graph) returns (ok: bool)
    requires ValidGraph(V, graph)
    ensures ok <==> |Walls(graph)| == V - 1
  {
    var counted: set<Pair> := {};
    for v := 0 to V
      invariant counted == WallsBefore(graph, v, 0)
    {
      for j := 0 to |graph[v]|
        invariant counted == WallsBefore(graph, v, j)
      {
        var to := graph[v][j].0;
        WallsStep(graph, v, j);
        if to >= 0 {
          var v1 := if v <= to then v else to;
          var v2 := if v <= to then to else v;
          counted := counted + {(v1, v2)};
        }
      }
      WallsNext(graph, v);
    }
    ok := |counted| == V - 1;
  }

  /** One entry more: its wall joins the set when it is internal. */
  lemma WallsStep(g: Graph, v: int, j: int)
    requires 0 <= v < |g| && 0 <= j < |g[v]|
    ensures WallsBefore(g, v, j + 1) ==
      WallsBefore(g, v, j) + (if g[v][j].0 >= 0 then {Unordered(v, g[v][j].0)} else {})
  {
    var A, B := WallsBefore(g, v, j + 1), WallsBefore(g, v, j);
    forall w | w in A ensures w in B || (g[v][j].0 >= 0 && w == Unordered(v, g[v][j].0)) {
      var u, k :| 0 <= u < |g| && 0 <= k < |g[u]| && (u < v || (u == v && k < j + 1)) && g[u][k].0 >= 0 &&
        w == Unordered(u, g[u][k].0);
      if u < v || k < j {
        assert w in B;
      }
    }
    if g[v][j].0 >= 0 {
      assert Unordered(v, g[v][j].0) in A;
    }
  }

  lemma WallsNext(g: Graph, v: int)
    requires 0 <= v < |g|
    ensures WallsBefore(g, v, |g[v]|) == WallsBefore(g, v + 1, 0)
  {
  }

  /** The walls of a list of pairs, each as (smaller end, larger end). */
  ghost function PairWalls(T: seq<Pair>): set<Pair>
  {
    set k | 0 <= k < |T| :: Unordered(T[k].0, T[k].1)
  }

  /** An acyclic list names `|T|` distinct walls. */
  lemma {:induction false} PairWallsCount(n: nat, T: seq<Pair>)
    requires Acyclic(n, T)
    ensures |PairWalls(T)| == |T|
    decreases |T|
  {
    if T != [] {
      AcyclicPrefix(n, T, |T| - 1);
      PairWallsCount(n, T[..|T| - 1]);
      PairWallsSnoc(T);
      PairWallsFresh(n, T);
    }
  }

  /** The walls of a nonempty list: those of all but its last pair, and the last pair's. */
  lemma PairWallsSnoc(T: seq<Pair>)
    requires T != []
    ensures PairWalls(T) == PairWalls(T[..|T| - 1]) + {Unordered(T[|T| - 1].0, T[|T| - 1].1)}
  {
    var T' := T[..|T| - 1];
    forall w | w in PairWalls(T) ensures w in PairWalls(T') + {Unordered(T[|T| - 1].0, T[|T| - 1].1)} {
      var k :| 0 <= k < |T| && w == Unordered(T[k].0, T[k].1);
      if k < |T'| {
        assert T'[k] == T[k];
      }
    }
    forall w | w in PairWalls(T') ensures w in PairWalls(T) {
      var k :| 0 <= k < |T'| && w == Unordered(T'[k].0, T'[k].1);
      assert T[k] == T'[k];
    }
  }

  /** The last pair of an acyclic list names a wall none of the pairs before it names. */
  lemma PairWallsFresh(n: nat, T: seq<Pair>)
    requires Acyclic(n, T) && T != []
    ensures Unordered(T[|T| - 1].0, T[|T| - 1].1) !in PairWalls(T[..|T| - 1])
  {
    var T' := T[..|T| - 1];
    var e := T[|T| - 1];
    AcyclicSimple(n, T);
    forall k | 0 <= k < |T'| ensures Unordered(T'[k].0, T'[k].1) != Unordered(e.0, e.1) {
      assert T[k] == T'[k];
      assert !SameWall(T[k], e);
    }
  }

  /** The walls of the tree lists are the walls of the pairs. */
  lemma TreeGraphWalls(n: nat, T: seq<Pair>)
    requires PairsIn(n, T)
    ensures Walls(TreeGraph(n, T)) == PairWalls(T)
  {
    var g: Graph := TreeGraph(n, T);
    forall w | w in Walls(g) ensures w in PairWalls(T) {
      var u, j :| 0 <= u < |g| && 0 <= j < |g[u]| && g[u][j].0 >= 0 && w == Unordered(u, g[u][j].0);
      assert g[u][j] in g[u];
      TreeGraphEntries(n, T, u, g[u][j]);
      var k :| 0 <= k < |T| && SameWall(T[k], (u, g[u][j].0));
      assert w == Unordered(T[k].0, T[k].1);
    }
    forall w | w in PairWalls(T) ensures w in Walls(g) {
      var k :| 0 <= k < |T| && w == Unordered(T[k].0, T[k].1);
      var u, v := T[k].0, T[k].1;
      TreeGraphEntries(n, T, u, (v, []));
      var j :| 0 <= j < |g[u]| && g[u][j] == (v, []);
      assert Unordered(u, g[u][j].0) in WallsBefore(g, |g|, 0);
    }
  }

  /** The lists of a spanning tree of the model pass `is_spanning_tree`. */
  lemma SpanningTreeWalls(V: nat, g: Graph, T: seq<Pair>)
    requires IsSpanningTree(V, g, T)
    ensures PairsIn(V, T) && ValidGraph(V, TreeGraph(V, T))
    ensures |Walls(TreeGraph(V, T))| == V - 1
  {
    forall k | 0 <= k < |T| ensures EndsIn(V, T[k]) {
      AcyclicEnds(V, T, k);
    }
    TreeGraphValid(V, T);
    TreeGraphWalls(V, T);
    PairWallsCount(V, T);
  }

  // ---------------------------------------------------------------------------
  // Outside walls.

  /** `count_boundary_walls`: the number of entries whose neighbour is -1. */
  method CountBoundaryWalls(V: int, graph: Graph) returns (walls: int)
    requires ValidGraph(V, graph)
    ensures walls == OutsideWalls(graph)
  {
    walls := 0;
    for v := 0 to V
      invariant walls == OutsideWalls(graph[..v])
    {
      var s := graph[v];
      for j := 0 to |s|
        invariant walls == OutsideWalls(graph[..v]) + OutsideIn(s[..j])
      {
        assert s[..j + 1][..j] == s[..j];
        if s[j].0 == -1 {
          walls := walls + 1;
        }
      }
      assert s[..|s|] == s;
      assert graph[..v + 1][..v] == graph[..v];
    }
    assert graph[..V] == graph;
  }

  /**
   * The bounds the boundary tests assert: the 5 x 5 rectangle has 18 outside
   * walls and the triangle of 5 rows has 17, both in (0, 20).
   */
  lemma BoundaryCounts()
    ensures OutsideWalls(RectangularMaze.Layout(5, 5)) == 18
    ensures OutsideWalls(TriangularMaze.Layout(5)) == 17
  {
  }
}
