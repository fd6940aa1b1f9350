/**
 * Parent-array disjoint sets, shared by the union-find algorithms. A vertex
 * is a representative when it is its own parent (the array form of
 * `parent_`, `parent` and the legacy `parent` vector) or when it has no parent
 * (the null `parent` pointer of the forest of nodes, written -1 here). A ghost
 * rank that grows strictly towards the representative makes the parent walk
 * well founded.
 */
module DisjointSets {
  import opened Graphs
  import opened Trees
  import opened Sequences

  /** `x` represents its group. */
  predicate IsRoot(p: seq<int>, x: int)
    requires 0 <= x < |p|
  {
    p[x] == x || p[x] < 0
  }

  function Roots(p: seq<int>): set<int>
  {
    set x | 0 <= x < |p| && IsRoot(p, x)
  }

  /** Parent links stay in range, ranks grow along them, and ranks are bounded. */
  ghost predicate Forest(p: seq<int>, rank: seq<nat>)
  {
    |rank| == |p| &&
    (forall x :: 0 <= x < |p| && !IsRoot(p, x) ==> p[x] < |p| && rank[x] < rank[p[x]]) &&
    (forall x :: 0 <= x < |p| ==> rank[x] + |Roots(p)| <= |p|)
  }

  /** The representative of `x`: follow parent links to a root. */
  ghost function Root(p: seq<int>, rank: seq<nat>, x: int): (r: int)
    requires Forest(p, rank) && 0 <= x < |p|
    ensures 0 <= r < |p| && IsRoot(p, r)
    decreases |p| - rank[x]
  {
    if IsRoot(p, x) then x else Root(p, rank, p[x])
  }

  /** Every vertex's representative. */
  ghost function RootMap(p: seq<int>, rank: seq<nat>): (m: seq<int>)
    requires Forest(p, rank)
    ensures |m| == |p| && forall x :: 0 <= x < |p| ==> m[x] == Root(p, rank, x)
  {
    seq(|p|, x requires 0 <= x < |p| => Root(p, rank, x))
  }

  /** Initial ranks. */
  function Zeros(n: nat): (r: seq<nat>)
    ensures |r| == n && forall x :: 0 <= x < n ==> r[x] == 0
  {
    seq(n, _ => 0)
  }

  /** Nodes whose parent pointer is null. */
  function NoParents(n: nat): (r: seq<int>)
    ensures |r| == n && forall x :: 0 <= x < n ==> r[x] == -1
  {
    seq(n, _ => -1)
  }

  /** Every vertex its own group: the array after `iota`. */
  lemma IotaForest(n: nat)
    ensures Forest(Iota(n), Zeros(n))
    ensures Roots(Iota(n)) == Vertices(n) && |Roots(Iota(n))| == n
    ensures forall x :: 0 <= x < n ==> Root(Iota(n), Zeros(n), x) == x
  {
    assert Roots(Iota(n)) == Vertices(n);
    VerticesCard(n);
  }

  /** Every vertex its own group: the nodes with null parents. */
  lemma NullForest(n: nat)
    ensures Forest(NoParents(n), Zeros(n))
    ensures Roots(NoParents(n)) == Vertices(n) && |Roots(NoParents(n))| == n
    ensures forall x :: 0 <= x < n ==> Root(NoParents(n), Zeros(n), x) == x
  {
    assert Roots(NoParents(n)) == Vertices(n);
    VerticesCard(n);
  }

  lemma {:induction false} RankBelowRoot(p: seq<int>, rank: seq<nat>, x: int)
    requires Forest(p, rank) && 0 <= x < |p|
    ensures rank[x] <= rank[Root(p, rank, x)]
    ensures !IsRoot(p, x) ==> rank[x] < rank[Root(p, rank, x)]
    decreases |p| - rank[x]
  {
    if !IsRoot(p, x) {
      RankBelowRoot(p, rank, p[x]);
    }
  }

  /**
   * Path compression: pointing a non-root `u` straight at its representative
   * keeps the forest and every vertex's representative.
   */
  lemma Compress(p: seq<int>, rank: seq<nat>, u: int)
    requires Forest(p, rank) && 0 <= u < |p| && !IsRoot(p, u)
    ensures Forest(p[u := Root(p, rank, u)], rank)
    ensures Roots(p[u := Root(p, rank, u)]) == Roots(p)
    ensures forall x :: 0 <= x < |p| ==> Root(p[u := Root(p, rank, u)], rank, x) == Root(p, rank, x)
  {
    var r := Root(p, rank, u);
    var q := p[u := r];
    RankBelowRoot(p, rank, u);
    assert Roots(q) == Roots(p) by {
      forall x | 0 <= x < |p| ensures IsRoot(q, x) == IsRoot(p, x) {
      }
    }
    assert Forest(q, rank);
    forall x | 0 <= x < |p| ensures Root(q, rank, x) == Root(p, rank, x) {
      CompressRoot(p, rank, u, x);
    }
  }

  lemma {:induction false} CompressRoot(p: seq<int>, rank: seq<nat>, u: int, x: int)
    requires Forest(p, rank) && 0 <= u < |p| && !IsRoot(p, u) && 0 <= x < |p|
    requires Forest(p[u := Root(p, rank, u)], rank)
    ensures Root(p[u := Root(p, rank, u)], rank, x) == Root(p, rank, x)
    decreases |p| - rank[x]
  {
    var q := p[u := Root(p, rank, u)];
    if x == u {
      assert IsRoot(q, Root(p, rank, u));
    } else if !IsRoot(p, x) {
      CompressRoot(p, rank, u, p[x]);
    }
  }

  /** The rank array after linking root `a` under root `b`. */
  function Bump(rank: seq<nat>, a: int, b: int): (r: seq<nat>)
    requires 0 <= a < |rank| && 0 <= b < |rank|
    ensures |r| == |rank| && r[b] > rank[a] && r[b] >= rank[b]
    ensures forall x :: 0 <= x < |rank| && x != b ==> r[x] == rank[x]
  {
    rank[b := if rank[b] > rank[a] then rank[b] else rank[a] + 1]
  }

  /**
   * Linking two different representatives: the group of `a` joins the group of
   * `b`, every other group is unchanged, and there is one group fewer.
   */
  lemma Link(p: seq<int>, rank: seq<nat>, a: int, b: int)
    requires Forest(p, rank) && 0 <= a < |p| && 0 <= b < |p| && a != b
    requires IsRoot(p, a) && IsRoot(p, b)
    ensures Forest(p[a := b], Bump(rank, a, b))
    ensures Roots(p[a := b]) == Roots(p) - {a}
    ensures |Roots(p[a := b])| == |Roots(p)| - 1
    ensures forall x :: 0 <= x < |p| ==>
      Root(p[a := b], Bump(rank, a, b), x) == (if Root(p, rank, x) == a then b else Root(p, rank, x))
  {
    var q := p[a := b];
    var rank' := Bump(rank, a, b);
    assert Roots(q) == Roots(p) - {a} by {
      forall x | 0 <= x < |p| ensures IsRoot(q, x) == (IsRoot(p, x) && x != a) {
      }
    }
    assert a in Roots(p);
    assert |Roots(q)| == |Roots(p)| - 1;
    assert rank[a] + |Roots(p)| <= |p|;
    assert Forest(q, rank');
    forall x | 0 <= x < |p|
      ensures Root(q, rank', x) == (if Root(p, rank, x) == a then b else Root(p, rank, x))
    {
      LinkRoot(p, rank, a, b, x);
    }
  }

  lemma {:induction false} LinkRoot(p: seq<int>, rank: seq<nat>, a: int, b: int, x: int)
    requires Forest(p, rank) && 0 <= a < |p| && 0 <= b < |p| && a != b
    requires IsRoot(p, a) && IsRoot(p, b) && 0 <= x < |p|
    requires Forest(p[a := b], Bump(rank, a, b))
    ensures Root(p[a := b], Bump(rank, a, b), x) == (if Root(p, rank, x) == a then b else Root(p, rank, x))
    decreases |p| - rank[x]
  {
    var q := p[a := b];
    if x == a {
      assert IsRoot(q, b);
    } else if !IsRoot(p, x) {
      LinkRoot(p, rank, a, b, p[x]);
    }
  }

  /** Linking representatives merges the group labels as the forest of tree pairs does. */
  lemma LinkRootMap(p: seq<int>, rank: seq<nat>, a: int, b: int)
    requires Forest(p, rank) && 0 <= a < |p| && 0 <= b < |p| && a != b
    requires IsRoot(p, a) && IsRoot(p, b)
    ensures Forest(p[a := b], Bump(rank, a, b))
    ensures RootMap(p[a := b], Bump(rank, a, b)) == Merge(RootMap(p, rank), a, b)
  {
    Link(p, rank, a, b);
  }

  /** The invariant of every union-find loop: groups are the components of the tree built so far. */
  ghost predicate Tracks(n: nat, p: seq<int>, rank: seq<nat>, T: seq<Pair>)
  {
    |p| == n && Forest(p, rank) && Acyclic(n, T) &&
    SameKernel(Labels(n, T), RootMap(p, rank)) &&
    |Roots(p)| + |T| == n
  }

  lemma TracksStart(n: nat, p: seq<int>, rank: seq<nat>)
    requires p == Iota(n) || p == NoParents(n)
    requires rank == Zeros(n)
    ensures Tracks(n, p, rank, [])
  {
    if p == Iota(n) {
      IotaForest(n);
    } else {
      NullForest(n);
    }
    assert RootMap(p, rank) == Iota(n);
  }

  /** A forest of at least one vertex has a representative, so the tree has fewer pairs than vertices. */
  lemma TracksBound(n: nat, p: seq<int>, rank: seq<nat>, T: seq<Pair>)
    requires Tracks(n, p, rank, T) && n >= 1
    ensures |T| <= n - 1
  {
    assert Root(p, rank, 0) in Roots(p);
  }

  /**
   * Linking the representatives of the two endpoints of a new tree pair keeps
   * the invariant.
   */
  lemma TracksLink(n: nat, p: seq<int>, rank: seq<nat>, T: seq<Pair>, u: int, v: int)
    requires Tracks(n, p, rank, T) && 0 <= u < n && 0 <= v < n
    requires Root(p, rank, u) != Root(p, rank, v)
    ensures Tracks(n, p[Root(p, rank, u) := Root(p, rank, v)],
                   Bump(rank, Root(p, rank, u), Root(p, rank, v)), T + [(u, v)])
  {
    var a, b := Root(p, rank, u), Root(p, rank, v);
    var C := RootMap(p, rank);
    AddEdge(n, T, C, u, v);
    Link(p, rank, a, b);
    LinkRootMap(p, rank, a, b);
  }

  /**
   * Any forest whose groups are those of `p` with the groups of `u` and `v`
   * merged, and which has one representative fewer, tracks the tree with the
   * pair (u, v) added.
   */
  lemma TracksMerge(n: nat, p: seq<int>, rank: seq<nat>, T: seq<Pair>, p': seq<int>, rank': seq<nat>, u: int, v: int)
    requires Tracks(n, p, rank, T) && 0 <= u < n && 0 <= v < n
    requires RootMap(p, rank)[u] != RootMap(p, rank)[v]
    requires |p'| == n && Forest(p', rank')
    requires RootMap(p', rank') == Merge(RootMap(p, rank), RootMap(p, rank)[u], RootMap(p, rank)[v])
    requires |Roots(p')| == |Roots(p)| - 1
    ensures Tracks(n, p', rank', T + [(u, v)])
  {
    AddEdge(n, T, RootMap(p, rank), u, v);
  }

  /** Compression keeps the invariant. */
  lemma TracksCompress(n: nat, p: seq<int>, rank: seq<nat>, T: seq<Pair>, u: int)
    requires Tracks(n, p, rank, T) && 0 <= u < n && !IsRoot(p, u)
    ensures Tracks(n, p[u := Root(p, rank, u)], rank, T)
    ensures RootMap(p[u := Root(p, rank, u)], rank) == RootMap(p, rank)
  {
    Compress(p, rank, u);
  }

  /**
   * When the internal walls of a connected graph all lie inside groups there
   * is a single group.
   */
  lemma OneGroup(g: Graph, p: seq<int>, rank: seq<nat>)
    requires ValidGraph(|p|, g) && Connected(|p|, g) && Forest(p, rank) && |p| >= 1
    requires forall u, j :: 0 <= u < |g| && 0 <= j < |g[u]| && g[u][j].0 >= 0 ==>
      RootMap(p, rank)[u] == RootMap(p, rank)[g[u][j].0]
    ensures |Roots(p)| == 1
  {
    var r0 := Root(p, rank, 0);
    var S := set x | 0 <= x < |p| && Root(p, rank, x) == r0;
    assert 0 in S;
    assert Closed(g, S);
    assert S == Vertices(|p|);
    assert Roots(p) == {r0} by {
      forall y | y in Roots(p) ensures y == r0 {
        assert y in S;
      }
    }
  }

  /** At the end of a union-find loop with one group left the tree spans all vertices. */
  lemma TracksAllJoined(n: nat, g: Graph, p: seq<int>, rank: seq<nat>, T: seq<Pair>)
    requires Tracks(n, p, rank, T) && ValidGraph(n, g) && Connected(n, g) && n >= 1
    requires forall u, j :: 0 <= u < |g| && 0 <= j < |g[u]| && g[u][j].0 >= 0 ==>
      RootMap(p, rank)[u] == RootMap(p, rank)[g[u][j].0]
    ensures |T| == n - 1
  {
    OneGroup(g, p, rank);
  }
}
