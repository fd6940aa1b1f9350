/**
 * The disjoint-set forest algorithm (src/algorithms/disjointsetforest.cpp):
 * every adjacency entry that is not an outside wall goes into an edge array,
 * which is walked with a prime stride; an edge whose endpoints lie in
 * different groups of a forest of nodes with parent pointers joins them and
 * is kept. A node is its index in the node array and a parent pointer is the
 * parent's index, -1 for the null pointer. The three assertions of the source
 * stop the run; the model reports which one failed.
 */
module DisjointSetForest {
  import opened Graphs
  import opened Trees
  import opened Sequences
  import opened DisjointSets
  import opened Numbers
  import Random

  /** How a run ends: normally, or at one of the three assertions. */
  datatype Outcome = Completed | SizeMismatch | TooFewEdges | NoPrime

  /** The strides the walk may use, tried in this order. */
  const Primes: seq<int> := [29, 31, 37, 41, 43, 47, 53, 59, 61, 67, 71, 73, 79, 83, 89, 97]

  lemma PrimesArePrime()
    ensures forall k :: 0 <= k < |Primes| ==> Prime(Primes[k])
  {
    SmallPrime(29); SmallPrime(31); SmallPrime(37); SmallPrime(41);
    SmallPrime(43); SmallPrime(47); SmallPrime(53); SmallPrime(59);
    SmallPrime(61); SmallPrime(67); SmallPrime(71); SmallPrime(73);
    SmallPrime(79); SmallPrime(83); SmallPrime(89); SmallPrime(97);
  }

  // The edge array.

  /** The pairs (u, w) for the entries of the list of `u` that are not outside walls, in list order. */
  function EntryPairs(u: int, s: seq<Edge>): (r: seq<Pair>)
    ensures forall k :: 0 <= k < |r| ==> r[k].0 == u && r[k].1 != Outside
    decreases |s|
  {
    if s == [] then []
    else EntryPairs(u, s[..|s| - 1]) + (if s[|s| - 1].0 != Outside then [(u, s[|s| - 1].0)] else [])
  }

  /** The edge array collected from the lists of the vertices below `i`. */
  function EdgeArray(g: Graph, i: nat): seq<Pair>
    requires i <= |g|
  {
    if i == 0 then [] else EdgeArray(g, i - 1) + EntryPairs(i - 1, g[i - 1])
  }

  lemma {:induction false} EntryPairsMembers(u: int, s: seq<Edge>, p: Pair)
    ensures p in EntryPairs(u, s) <==> p.0 == u && p.1 != Outside && exists j :: 0 <= j < |s| && s[j].0 == p.1
    decreases |s|
  {
    if s != [] {
      var s' := s[..|s| - 1];
      EntryPairsMembers(u, s', p);
      assert forall j :: 0 <= j < |s'| ==> s'[j] == s[j];
      if p.0 == u && p.1 != Outside && (exists j :: 0 <= j < |s| && s[j].0 == p.1) {
        var j :| 0 <= j < |s| && s[j].0 == p.1;
        if j < |s'| {
          assert s'[j].0 == p.1;
        }
      }
    }
  }

  /** The edge array holds exactly the entries (u, w) of the graph with w not the outside marker. */
  lemma {:induction false} EdgeArrayMembers(g: Graph, i: nat, p: Pair)
    requires i <= |g|
    ensures p in EdgeArray(g, i) <==>
      0 <= p.0 < i && p.1 != Outside && exists j :: 0 <= j < |g[p.0]| && g[p.0][j].0 == p.1
    decreases i
  {
    if i > 0 {
      EdgeArrayMembers(g, i - 1, p);
      EntryPairsMembers(i - 1, g[i - 1], p);
    }
  }

  lemma {:induction false} EntryPairsCount(u: int, s: seq<Edge>)
    requires forall j :: 0 <= j < |s| ==> s[j].0 >= Outside
    ensures |EntryPairs(u, s)| == InternalIn(s)
    decreases |s|
  {
    if s != [] {
      EntryPairsCount(u, s[..|s| - 1]);
    }
  }

  /** On a valid graph the edge array has one element per internal entry. */
  lemma {:induction false} EdgeArrayCount(g: Graph, i: nat)
    requires ValidGraph(|g|, g) && i <= |g|
    ensures |EdgeArray(g, i)| == InternalEntries(g[..i])
    decreases i
  {
    if i > 0 {
      EdgeArrayCount(g, i - 1);
      assert g[..i][..i - 1] == g[..i - 1];
      EntryPairsCount(i - 1, g[i - 1]);
    }
  }

  lemma {:induction false} InternalInPositive(s: seq<Edge>, j: int)
    requires 0 <= j < |s| && s[j].0 >= 0
    ensures InternalIn(s) >= 1
    decreases |s|
  {
    if j < |s| - 1 {
      InternalInPositive(s[..|s| - 1], j);
    }
  }

  lemma {:induction false} EntriesPerVertex(g: Graph, i: nat)
    requires ValidGraph(|g|, g) && Connected(|g|, g) && |g| >= 2 && i <= |g|
    ensures InternalEntries(g[..i]) >= i
    decreases i
  {
    if i > 0 {
      EntriesPerVertex(g, i - 1);
      assert g[..i][..i - 1] == g[..i - 1];
      HasNeighbour(g, i - 1);
      var j :| 0 <= j < |g[i - 1]| && g[i - 1][j].0 >= 0;
      InternalInPositive(g[i - 1], j);
    }
  }

  /**
   * The assertion that the edge array has at least as many elements as there
   * are vertices holds on every connected graph of two or more vertices:
   * each vertex has an internal entry of its own.
   */
  lemma EnoughEntries(g: Graph)
    requires ValidGraph(|g|, g) && Connected(|g|, g) && |g| >= 2
    ensures InternalEntries(g) >= |g|
  {
    EntriesPerVertex(g, |g|);
    assert g[..|g|] == g;
  }

  // The node array.

  /** The node array: a forest whose roots have a null parent and where no node is its own parent. */
  ghost predicate Nodes(parent: seq<int>, rank: seq<nat>)
  {
    Forest(parent, rank) && forall x :: 0 <= x < |parent| ==> -1 <= parent[x] && parent[x] != x
  }

  /**
   * The `findGroupRep` lambda: follow parent pointers to the representative,
   * then point every node on the way straight at it. No node changes group.
   */
  method FindGroupRep(parent: seq<int>, ghost rank: seq<nat>, node: int) returns (rep: int, parent': seq<int>)
    requires Nodes(parent, rank) && 0 <= node < |parent|
    ensures Nodes(parent', rank) && |parent'| == |parent|
    ensures rep == Root(parent, rank, node) && parent'[rep] == -1
    ensures Roots(parent') == Roots(parent) && RootMap(parent', rank) == RootMap(parent, rank)
    ensures parent'[node] == -1 || parent'[node] == rep
  {
    rep := node;
    while parent[rep] != -1
      invariant 0 <= rep < |parent| && Root(parent, rank, rep) == Root(parent, rank, node)
      decreases |parent| - rank[rep]
    {
      rep := parent[rep];
    }
    assert rep in Roots(parent);
    parent' := parent;
    var current := node;
    while parent'[current] != -1 && parent'[current] != rep
      invariant Nodes(parent', rank) && |parent'| == |parent|
      invariant Roots(parent') == Roots(parent) && RootMap(parent', rank) == RootMap(parent, rank)
      invariant 0 <= current < |parent| && Root(parent', rank, current) == rep
      invariant current == node || (parent'[node] == rep && rank[node] < rank[current])
      decreases |parent| - rank[current]
    {
      var next := parent'[current];
      Compress(parent', rank, current);
      parent' := parent'[current := rep];
      current := next;
    }
  }

  /** The `sameGroup` lambda: whether two nodes have the same representative. */
  method SameGroup(parent: seq<int>, ghost rank: seq<nat>, a: int, b: int) returns (same: bool, parent': seq<int>)
    requires Nodes(parent, rank) && 0 <= a < |parent| && 0 <= b < |parent|
    ensures Nodes(parent', rank) && |parent'| == |parent|
    ensures Roots(parent') == Roots(parent) && RootMap(parent', rank) == RootMap(parent, rank)
    ensures same == (RootMap(parent, rank)[a] == RootMap(parent, rank)[b])
  {
    var repA, repB;
    repA, parent' := FindGroupRep(parent, rank, a);
    repB, parent' := FindGroupRep(parent', rank, b);
    same := repA == repB;
  }

  /**
   * The `mergeGroups` lambda: the representative of `a` gets the
   * representative of `b` as parent. The group of `a` joins the group of `b`,
   * and the groups go on matching the components of the tree grown by the pair.
   */
  method MergeGroups(parent: seq<int>, ghost rank: seq<nat>, a: int, b: int, ghost T: seq<Pair>)
    returns (parent': seq<int>, ghost rank': seq<nat>)
    requires Nodes(parent, rank) && Tracks(|parent|, parent, rank, T)
    requires 0 <= a < |parent| && 0 <= b < |parent| && RootMap(parent, rank)[a] != RootMap(parent, rank)[b]
    ensures Nodes(parent', rank') && Tracks(|parent|, parent', rank', T + [(a, b)])
    ensures RootMap(parent', rank') ==
      Merge(RootMap(parent, rank), RootMap(parent, rank)[a], RootMap(parent, rank)[b])
  {
    var repA, repB;
    repA, parent' := FindGroupRep(parent, rank, a);
    repB, parent' := FindGroupRep(parent', rank, b);
    TracksLink(|parent|, parent', rank, T, a, b);
    LinkRootMap(parent', rank, repA, repB);
    parent' := parent'[repA := repB];
    rank' := Bump(rank, repA, repB);
  }

  // The walk.

  /** Pair `e` lies inside a group of `C`. */
  predicate Joined(C: seq<int>, e: Pair)
  {
    0 <= e.0 < |C| && 0 <= e.1 < |C| && C[e.0] == C[e.1]
  }

  /** The pairs read on the first `i` passes of the walk lie inside groups of `C`. */
  ghost predicate StrideJoined(C: seq<int>, edges: seq<Pair>, prime: int, i: int)
    requires |edges| >= 1
  {
    forall m :: 0 <= m < i ==> Joined(C, edges[Stride(prime, |edges|, m)])
  }

  /** The index update of a pass gives the index the walk reads on that pass. */
  lemma NextStride(prime: int, n: int, i: int, j: int)
    requires n >= 1 && i >= 0
    requires i == 0 ==> j == prime
    requires i > 0 ==> j == Stride(prime, n, i - 1)
    ensures (j + prime) % n == Stride(prime, n, i)
  {
    if i > 0 {
      StrideStep(prime, n, i - 1);
    }
  }

  /** A pass keeps the pairs read so far inside groups, and adds the one it reads. */
  lemma JoinStep(C: seq<int>, C': seq<int>, edges: seq<Pair>, prime: int, i: int, j: int, kept: bool)
    requires |edges| >= 1 && 0 <= i && 0 <= j < |edges| && j == Stride(prime, |edges|, i)
    requires EndsIn(|C|, edges[j]) && StrideJoined(C, edges, prime, i)
    requires kept == (C[edges[j].0] != C[edges[j].1])
    requires C' == if kept then Merge(C, C[edges[j].0], C[edges[j].1]) else C
    ensures StrideJoined(C', edges, prime, i + 1)
  {
  }

  /** Once every pass has been made every element of the edge array lies inside a group. */
  lemma WalkCovers(C: seq<int>, edges: seq<Pair>, prime: int)
    requires |edges| >= 1 && Prime(prime) && |edges| % prime != 0
    requires StrideJoined(C, edges, prime, |edges|)
    ensures forall t :: 0 <= t < |edges| ==> Joined(C, edges[t])
  {
    forall t | 0 <= t < |edges| ensures Joined(C, edges[t]) {
      var i := StrideCovers(prime, |edges|, t);
    }
  }

  /** Every internal entry of the graph lies inside a group when every element of its edge array does. */
  lemma AllEntriesJoined(g: Graph, C: seq<int>, edges: seq<Pair>)
    requires ValidGraph(|g|, g) && |C| == |g| && edges == EdgeArray(g, |g|)
    requires forall t :: 0 <= t < |edges| ==> Joined(C, edges[t])
    ensures forall u, j :: 0 <= u < |g| && 0 <= j < |g[u]| && g[u][j].0 >= 0 ==> C[u] == C[g[u][j].0]
  {
    forall u, j | 0 <= u < |g| && 0 <= j < |g[u]| && g[u][j].0 >= 0
      ensures C[u] == C[g[u][j].0]
    {
      EdgeArrayMembers(g, |g|, (u, g[u][j].0));
      var t :| 0 <= t < |edges| && edges[t] == (u, g[u][j].0);
    }
  }

  /** The elements of the edge array of a valid graph join two of its vertices along an internal wall. */
  lemma EdgeArrayWalls(g: Graph, edges: seq<Pair>)
    requires ValidGraph(|g|, g) && edges == EdgeArray(g, |g|)
    ensures forall e :: e in edges ==> EndsIn(|g|, e) && Adjacent(g, e.0, e.1)
  {
    forall e | e in edges ensures EndsIn(|g|, e) && Adjacent(g, e.0, e.1) {
      EdgeArrayMembers(g, |g|, e);
    }
  }

  /**
   * The state of the walk before pass `i`: the index `j` of the last pass, the
   * groups tracking the tree, the tree drawn from the edge array, and the
   * pairs of the passes made inside groups.
   */
  ghost predicate Walked(vertices: nat, edges: seq<Pair>, parent: seq<int>, rank: seq<nat>, T: seq<Pair>,
                         prime: int, i: int, j: int)
  {
    StrideAt(edges, prime, i, j) && Grouped(vertices, edges, parent, rank, T, prime, i)
  }

  /** The index of the last of `i` passes. */
  ghost predicate StrideAt(edges: seq<Pair>, prime: int, i: int, j: int)
  {
    |edges| >= 1 && 0 <= i <= |edges| &&
    (i == 0 ==> j == prime) && (i > 0 ==> j == Stride(prime, |edges|, i - 1))
  }

  /** The groups, the tree and the pairs of the first `i` passes. */
  ghost predicate Grouped(vertices: nat, edges: seq<Pair>, parent: seq<int>, rank: seq<nat>, T: seq<Pair>,
                          prime: int, i: int)
  {
    |edges| >= 1 &&
    Nodes(parent, rank) && Tracks(vertices, parent, rank, T) &&
    (forall m :: 0 <= m < |T| ==> T[m] in edges) &&
    StrideJoined(RootMap(parent, rank), edges, prime, i)
  }

  lemma WalkedStart(vertices: nat, edges: seq<Pair>, parent: seq<int>, rank: seq<nat>, T: seq<Pair>, prime: int)
    requires |edges| >= 1 && Nodes(parent, rank) && Tracks(vertices, parent, rank, T)
    requires forall m :: 0 <= m < |T| ==> T[m] in edges
    ensures Walked(vertices, edges, parent, rank, T, prime, 0, prime)
  {
  }

  /** The walk stops only after its last pass: the tree never reaches as many pairs as there are vertices. */
  lemma WalkedEnd(vertices: nat, edges: seq<Pair>, parent: seq<int>, rank: seq<nat>, T: seq<Pair>,
                  prime: int, i: int, j: int)
    requires Walked(vertices, edges, parent, rank, T, prime, i, j) && vertices >= 1
    requires !(i < |edges| && |T| < vertices)
    ensures i == |edges|
  {
    TracksBound(vertices, parent, rank, T);
  }

  class DisjointSetForest {
    const generator: Random.Generator
    var spanningtree: seq<Pair>

    constructor (generator: Random.Generator)
      ensures this.generator == generator && spanningtree == []
    {
      this.generator := generator;
      spanningtree := [];
    }

    /**
     * `DisjointSetForest::SpanningTree`. A run stops at the first assertion
     * that fails: the vertex count must match the graph, the edge array must
     * have at least as many elements as there are vertices, and some listed
     * prime must not divide its length. A run that passes them returns an
     * acyclic list of internal walls, a spanning tree on a connected graph.
     */
    method SpanningTree(vertices: int, adjacencylist: Graph) returns (tree: seq<Pair>, outcome: Outcome)
      requires ValidGraph(|adjacencylist|, adjacencylist)
      modifies this, generator
      ensures tree == spanningtree
      ensures outcome == SizeMismatch <==> vertices != |adjacencylist|
      ensures vertices == |adjacencylist| ==>
        (outcome == TooFewEdges <==> InternalEntries(adjacencylist) < vertices)
      ensures vertices == |adjacencylist| && InternalEntries(adjacencylist) >= vertices ==>
        (outcome == NoPrime <==> forall k :: 0 <= k < |Primes| ==> InternalEntries(adjacencylist) % Primes[k] == 0)
      ensures vertices >= 2 && Connected(vertices, adjacencylist) ==> outcome != TooFewEdges
      ensures outcome == Completed ==> Acyclic(vertices, tree)
      ensures outcome == Completed ==> forall k :: 0 <= k < |tree| ==> Adjacent(adjacencylist, tree[k].0, tree[k].1)
      ensures outcome == Completed && Connected(vertices, adjacencylist) ==>
        IsSpanningTree(vertices, adjacencylist, tree)
    {
      if vertices != |adjacencylist| {
        tree, outcome := spanningtree, SizeMismatch;
        return;
      }
      if vertices >= 2 && Connected(vertices, adjacencylist) {
        EnoughEntries(adjacencylist);
      }
      spanningtree := [];
      var edges := BuildEdgeArray(adjacencylist);
      EdgeArrayCount(adjacencylist, vertices);
      assert adjacencylist[..vertices] == adjacencylist;
      if |edges| < vertices {
        tree, outcome := spanningtree, TooFewEdges;
        return;
      }
      var i := ChoosePrime(|edges|);
      if i == |Primes| {
        tree, outcome := spanningtree, NoPrime;
        return;
      }
      var prime := Primes[i];
      PrimesArePrime();
      GrowTree(vertices, adjacencylist, edges, prime);
      tree, outcome := spanningtree, Completed;
    }

    /**
     * The walk of `SpanningTree` once a prime is chosen: the tree grows from
     * nothing into an acyclic list of walls, a spanning tree on a connected graph.
     */
    method GrowTree(vertices: int, adjacencylist: Graph, edges: seq<Pair>, prime: int)
      requires ValidGraph(vertices, adjacencylist) && vertices == |adjacencylist| && vertices >= 1
      requires edges == EdgeArray(adjacencylist, vertices) && Prime(prime) && |edges| % prime != 0
      requires spanningtree == []
      modifies this
      ensures Acyclic(vertices, spanningtree)
      ensures forall k :: 0 <= k < |spanningtree| ==> Adjacent(adjacencylist, spanningtree[k].0, spanningtree[k].1)
      ensures Connected(vertices, adjacencylist) ==> IsSpanningTree(vertices, adjacencylist, spanningtree)
    {
      var parent := NoParents(vertices);
      ghost var rank := Zeros(vertices);
      EdgeArrayWalls(adjacencylist, edges);
      assert edges[0] in edges;
      NullForest(vertices);
      TracksStart(vertices, parent, rank);
      WalkedStart(vertices, edges, parent, rank, spanningtree, prime);
      var j;
      parent, rank, j := Walk(vertices, edges, parent, rank, prime);
      if Connected(vertices, adjacencylist) {
        WalkCovers(RootMap(parent, rank), edges, prime);
        AllEntriesJoined(adjacencylist, RootMap(parent, rank), edges);
        TracksAllJoined(vertices, adjacencylist, parent, rank, spanningtree);
      }
    }

    /** The nested loops that fill the edge array, in vertex and list order. */
    method BuildEdgeArray(adjacencylist: Graph) returns (edges: seq<Pair>)
      ensures edges == EdgeArray(adjacencylist, |adjacencylist|)
    {
      edges := [];
      var i := 0;
      while i < |adjacencylist|
        invariant 0 <= i <= |adjacencylist|
        invariant edges == EdgeArray(adjacencylist, i)
      {
        var j := 0;
        while j < |adjacencylist[i]|
          invariant 0 <= j <= |adjacencylist[i]|
          invariant edges == EdgeArray(adjacencylist, i) + EntryPairs(i, adjacencylist[i][..j])
        {
          assert adjacencylist[i][..j + 1][..j] == adjacencylist[i][..j];
          if adjacencylist[i][j].0 != Outside {
            edges := edges + [(i, adjacencylist[i][j].0)];
          }
          j := j + 1;
        }
        assert adjacencylist[i][..j] == adjacencylist[i];
        i := i + 1;
      }
    }

    /**
     * The search for the first listed prime that does not divide `size`; the
     * random start index it advances is never read. `|Primes|` when every
     * listed prime divides `size`.
     */
    method ChoosePrime(size: int) returns (i: int)
      modifies generator
      ensures 0 <= i <= |Primes|
      ensures forall k :: 0 <= k < i ==> size % Primes[k] == 0
      ensures i < |Primes| ==> size % Primes[i] != 0
    {
      var j := generator.UniformInt(0, |Primes| - 1);
      i := 0;
      while i < |Primes|
        invariant 0 <= i <= |Primes|
        invariant forall k :: 0 <= k < i ==> size % Primes[k] == 0
      {
        if size % Primes[i] != 0 {
          break;
        }
        j := (j + 1) % |Primes|;
        i := i + 1;
      }
    }

    /**
     * The walk over the edge array: `j` starts at the prime and advances by it
     * modulo the length, once per pass. The loop stops early once the tree has
     * as many pairs as there are vertices, which never happens: the groups
     * track an acyclic tree. At the end every pass has been made.
     */
    method Walk(vertices: int, edges: seq<Pair>, parent: seq<int>, ghost rank: seq<nat>, prime: int)
      returns (parent': seq<int>, ghost rank': seq<nat>, j: int)
      requires vertices >= 1 && Walked(vertices, edges, parent, rank, spanningtree, prime, 0, prime)
      requires forall e :: e in edges ==> EndsIn(vertices, e)
      modifies this
      ensures Walked(vertices, edges, parent', rank', spanningtree, prime, |edges|, j)
    {
      parent', rank' := parent, rank;
      var n := |edges|;
      var i := 0;
      j := prime;
      while i < n && |spanningtree| < vertices
        invariant Walked(vertices, edges, parent', rank', spanningtree, prime, i, j)
        decreases n - i
      {
        j, parent', rank' := Pass(vertices, edges, parent', rank', prime, i, j);
        i := i + 1;
      }
      WalkedEnd(vertices, edges, parent', rank', spanningtree, prime, i, j);
    }

    /** One pass of the walk: advance `j` and consider the pair it selects. */
    method Pass(ghost vertices: nat, edges: seq<Pair>, parent: seq<int>, ghost rank: seq<nat>, prime: int,
                ghost i: nat, j: int)
      returns (j': int, parent': seq<int>, ghost rank': seq<nat>)
      requires Walked(vertices, edges, parent, rank, spanningtree, prime, i, j) && i < |edges|
      requires forall e :: e in edges ==> EndsIn(vertices, e)
      modifies this
      ensures Walked(vertices, edges, parent', rank', spanningtree, prime, i + 1, j')
    {
      NextStride(prime, |edges|, i, j);
      j' := (j + prime) % |edges|;
      assert edges[j'] in edges;
      var kept;
      parent', rank', kept := Consider(vertices, edges[j'], parent, rank);
      JoinStep(RootMap(parent, rank), RootMap(parent', rank'), edges, prime, i, j', kept);
    }

    /**
     * One pass of the walk: when the two ends of the pair are in different
     * groups, merge the groups and keep the pair.
     */
    method Consider(ghost vertices: nat, e: Pair, parent: seq<int>, ghost rank: seq<nat>)
      returns (parent': seq<int>, ghost rank': seq<nat>, kept: bool)
      requires Nodes(parent, rank) && Tracks(vertices, parent, rank, spanningtree) && EndsIn(vertices, e)
      modifies this
      ensures Nodes(parent', rank') && Tracks(vertices, parent', rank', spanningtree)
      ensures kept == (RootMap(parent, rank)[e.0] != RootMap(parent, rank)[e.1])
      ensures RootMap(parent', rank') == if kept
        then Merge(RootMap(parent, rank), RootMap(parent, rank)[e.0], RootMap(parent, rank)[e.1])
        else RootMap(parent, rank)
      ensures spanningtree == if kept then old(spanningtree) + [e] else old(spanningtree)
    {
      var same;
      same, parent' := SameGroup(parent, rank, e.0, e.1);
      rank' := rank;
      kept := !same;
      if kept {
        parent', rank' := MergeGroups(parent', rank', e.0, e.1, spanningtree);
        spanningtree := spanningtree + [e];
      }
    }
  }
}
