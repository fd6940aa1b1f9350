/**
 * Wilson's algorithm by loop-erased random walks
 * (src/algorithms/looperasedrandomwalk.cpp). `visited` holds a round tag per
 * vertex: 0 for "not in the tree", the number of the walk that added it
 * otherwise. A walk from an untagged vertex tags what it steps on with the
 * current round, erases a loop as soon as it steps back on its own path, and
 * stops on a vertex of an earlier round; its path then becomes a branch.
 *
 * The random draws come from a stream that may never produce what a walk
 * needs, so the walks and draws spend a step budget; the source has none.
 */
module LoopErasedRandomWalk {
  import opened Graphs
  import opened Trees
  import opened Sequences
  import Random

  /** The vertices carrying a tag, i.e. those already in the tree. */
  function Tagged(visited: seq<int>): set<int>
  {
    set x | 0 <= x < |visited| && visited[x] != 0
  }

  lemma TaggedNone(n: nat)
    ensures Tagged(seq(n, _ => 0)) == {}
  {
  }

  lemma TagOne(visited: seq<int>, x: int, r: int)
    requires 0 <= x < |visited| && visited[x] == 0 && r != 0
    ensures Tagged(visited[x := r]) == Tagged(visited) + {x}
    ensures |Tagged(visited[x := r])| == |Tagged(visited)| + 1
  {
    assert Tagged(visited[x := r]) == Tagged(visited) + {x};
  }

  lemma UntagOne(visited: seq<int>, x: int)
    requires 0 <= x < |visited| && visited[x] != 0
    ensures Tagged(visited[x := 0]) == Tagged(visited) - {x}
    ensures |Tagged(visited[x := 0])| + 1 == |Tagged(visited)|
  {
    assert Tagged(visited[x := 0]) == Tagged(visited) - {x};
  }

  /** The vertices on a walk. */
  function Members(P: seq<int>): set<int>
  {
    set x | x in P
  }

  /** The pairs joining consecutive vertices of a walk, in walk order. */
  function Chain(P: seq<int>): (T: seq<Pair>)
    ensures |T| == if P == [] then 0 else |P| - 1
    ensures forall k :: 0 <= k < |T| ==> T[k] == (P[k], P[k + 1])
  {
    if |P| <= 1 then [] else seq(|P| - 1, k requires 0 <= k < |P| - 1 => (P[k], P[k + 1]))
  }

  /** Extending a walk by one vertex adds the pair from its old end. */
  lemma ChainSnoc(P: seq<int>, x: int)
    requires |P| >= 1
    ensures Chain(P + [x]) == Chain(P) + [(P[|P| - 1], x)]
  {
    var A := Chain(P + [x]);
    var B := Chain(P) + [(P[|P| - 1], x)];
    forall k | 0 <= k < |A| ensures A[k] == B[k] {
      if k < |P| - 1 {
        assert A[k] == (P[k], P[k + 1]);
      }
    }
  }

  lemma AppendOne(T: seq<Pair>, X: seq<Pair>, e: Pair)
    ensures T + (X + [e]) == (T + X) + [e]
  {
  }

  /** The tagged vertices carry a tree of internal walls. */
  ghost predicate Planted(g: Graph, visited: seq<int>, T: seq<Pair>)
  {
    ValidGraph(|visited|, g) &&
    Grown(|visited|, T, Tagged(visited)) && |T| + 1 == |Tagged(visited)| &&
    forall k :: 0 <= k < |T| ==> Adjacent(g, T[k].0, T[k].1)
  }

  /** A walk with distinct vertices, all outside `R` but the last, which is in `R`. */
  ghost predicate Branch(n: nat, R: set<int>, P: seq<int>)
  {
    |P| >= 1 && (forall k :: 0 <= k < |P| ==> 0 <= P[k] < n) &&
    (forall k, l :: 0 <= k < l < |P| ==> P[k] != P[l]) &&
    P[|P| - 1] in R && forall k :: 0 <= k < |P| - 1 ==> P[k] !in R
  }

  /** The partition with `R` as one class, the walk `Q` as another (labelled `p`), singletons elsewhere. */
  function ChainLabels(n: nat, R: set<int>, Q: seq<int>, p: int): (C: seq<int>)
    ensures |C| == n && forall x :: 0 <= x < n ==> C[x] == if x in R then -1 else if x in Q then p else x
  {
    seq(n, x => if x in R then -1 else if x in Q then p else x)
  }

  /** Hanging a fresh vertex `b` onto the walk class (through `a`) adds it to that class. */
  lemma ChainExtend(n: nat, T: seq<Pair>, R: set<int>, Q: seq<int>, p: int, a: int, b: int)
    requires Acyclic(n, T) && SameKernel(Labels(n, T), ChainLabels(n, R, Q, p))
    requires 0 <= a < n && a in Q && a !in R
    requires 0 <= b < n && b !in Q && b !in R && b != p
    ensures Acyclic(n, T + [(a, b)])
    ensures SameKernel(Labels(n, T + [(a, b)]), ChainLabels(n, R, Q + [b], p))
  {
    var C := ChainLabels(n, R, Q, p);
    AddEdge(n, T, C, a, b);
    var M := Merge(C, C[b], C[a]);
    var D := ChainLabels(n, R, Q + [b], p);
    forall x | 0 <= x < n ensures M[x] == D[x] {
      assert x in Q + [b] <==> x in Q || x == b;
    }
    assert M == D;
  }

  /** Joining the walk class (through `a`) to the tree (at `b`) makes one tree of both. */
  lemma ChainClose(n: nat, T: seq<Pair>, R: set<int>, Q: seq<int>, p: int, a: int, b: int)
    requires Acyclic(n, T) && SameKernel(Labels(n, T), ChainLabels(n, R, Q, p))
    requires 0 <= p && p in Q && p !in R
    requires 0 <= a < n && a in Q && a !in R && 0 <= b < n && b in R
    ensures Grown(n, T + [(a, b)], R + Members(Q + [b]))
  {
    var C := ChainLabels(n, R, Q, p);
    AddEdge(n, T, C, a, b);
    var M := Merge(C, C[a], C[b]);
    var D := Region(n, R + Members(Q + [b]));
    forall x | 0 <= x < n ensures M[x] == D[x] {
      assert x in Q + [b] <==> x in Q || x == b;
    }
    assert M == D;
  }

  /** The first `i` pairs of a branch form a path of their own, apart from the tree. */
  ghost predicate ChainedUpTo(n: nat, T: seq<Pair>, R: set<int>, P: seq<int>, i: nat)
    requires 1 <= i <= |P|
  {
    Acyclic(n, T + Chain(P[..i])) && SameKernel(Labels(n, T + Chain(P[..i])), ChainLabels(n, R, P[..i], P[0]))
  }

  lemma ChainStart(n: nat, T: seq<Pair>, R: set<int>, P: seq<int>)
    requires Grown(n, T, R) && |P| >= 1 && P[0] !in R
    ensures ChainedUpTo(n, T, R, P, 1)
  {
    assert P[..1] == [P[0]];
    assert T + Chain(P[..1]) == T;
    assert ChainLabels(n, R, P[..1], P[0]) == Region(n, R);
  }

  lemma ChainNext(n: nat, T: seq<Pair>, R: set<int>, P: seq<int>, i: nat)
    requires Branch(n, R, P) && 2 <= i < |P| && ChainedUpTo(n, T, R, P, i - 1)
    ensures ChainedUpTo(n, T, R, P, i)
  {
    var Q := P[..i - 1];
    var a, b := P[i - 2], P[i - 1];
    assert Q[i - 2] == a;
    assert b !in Q;
    ChainExtend(n, T + Chain(Q), R, Q, P[0], a, b);
    assert P[..i] == Q + [b];
    ChainSnoc(Q, b);
    assert Chain(P[..i]) == Chain(Q) + [(a, b)];
    AppendOne(T, Chain(Q), (a, b));
  }

  lemma {:induction false} ChainGrows(n: nat, T: seq<Pair>, R: set<int>, P: seq<int>, i: nat)
    requires Grown(n, T, R) && Branch(n, R, P) && 1 <= i < |P|
    ensures ChainedUpTo(n, T, R, P, i)
    decreases i
  {
    if i == 1 {
      ChainStart(n, T, R, P);
    } else {
      ChainGrows(n, T, R, P, i - 1);
      ChainNext(n, T, R, P, i);
    }
  }

  /** The last pair of a branch joins its path to the tree. */
  lemma ChainLast(n: nat, T: seq<Pair>, R: set<int>, P: seq<int>)
    requires Branch(n, R, P) && |P| >= 2 && ChainedUpTo(n, T, R, P, |P| - 1)
    ensures Grown(n, T + Chain(P), R + Members(P))
  {
    var m := |P| - 1;
    var Q := P[..m];
    var a, b := P[m - 1], P[m];
    assert Q[m - 1] == a && Q[0] == P[0];
    ChainClose(n, T + Chain(Q), R, Q, P[0], a, b);
    assert P == Q + [b];
    ChainSnoc(Q, b);
    assert Chain(P) == Chain(Q) + [(a, b)];
    AppendOne(T, Chain(Q), (a, b));
  }

  /** A branch hung onto a tree at its last vertex gives a tree on both. */
  lemma PathOnto(n: nat, T: seq<Pair>, R: set<int>, P: seq<int>)
    requires Grown(n, T, R) && Branch(n, R, P)
    ensures Grown(n, T + Chain(P), R + Members(P))
  {
    if |P| == 1 {
      assert T + Chain(P) == T;
      assert R + Members(P) == R;
    } else {
      ChainGrows(n, T, R, P, |P| - 1);
      ChainLast(n, T, R, P);
    }
  }

  /**
   * The path of a walk of round `round` that started from the tags `start`:
   * loop-free, over vertices that were untagged, tagged `round`, every other
   * tag as at the start, consecutive vertices adjacent.
   */
  ghost predicate OnPath(g: Graph, start: seq<int>, visited: seq<int>, round: int, current: seq<int>)
  {
    |visited| == |g| && |start| == |g| &&
    (forall k :: 0 <= k < |current| ==> 0 <= current[k] < |g| && start[current[k]] == 0) &&
    (forall k, l :: 0 <= k < l < |current| ==> current[k] != current[l]) &&
    (forall x :: 0 <= x < |g| && x in current ==> visited[x] == round) &&
    (forall x :: 0 <= x < |g| && x !in current ==> visited[x] == start[x]) &&
    |Tagged(visited)| == |Tagged(start)| + |current| &&
    (forall k :: 0 <= k < |current| - 1 ==> Adjacent(g, current[k], current[k + 1]))
  }

  /** The walk state at the head of the loop: `vertex`, the next step, is off the path. */
  ghost predicate Walking(g: Graph, start: seq<int>, visited: seq<int>, round: int, current: seq<int>, vertex: int)
  {
    OnPath(g, start, visited, round, current) && 0 <= vertex < |g| && vertex !in current &&
    (current != [] ==> Adjacent(g, current[|current| - 1], vertex))
  }

  /** Tagging the untagged next step and pushing it extends the path. */
  lemma PushOnPath(g: Graph, start: seq<int>, visited: seq<int>, round: int, current: seq<int>, vertex: int)
    requires Walking(g, start, visited, round, current, vertex) && visited[vertex] == 0 && round != 0
    ensures OnPath(g, start, visited[vertex := round], round, current + [vertex])
  {
    TagOne(visited, vertex, round);
    var c := current + [vertex];
    assert forall x :: x in c <==> x in current || x == vertex;
    assert forall k :: 0 <= k < |current| ==> c[k] == current[k];
  }

  /** A step to a vertex off the path keeps the walk going from there. */
  lemma StepOn(g: Graph, start: seq<int>, visited: seq<int>, round: int, current: seq<int>, w: int)
    requires OnPath(g, start, visited, round, current) && 0 <= w < |g| && visited[w] != round
    requires current != [] && Adjacent(g, current[|current| - 1], w)
    ensures Walking(g, start, visited, round, current, w)
  {
  }

  /** Erasing the tags of the loop leaves the tags of the prefix before it as a path. */
  lemma EraseTags(g: Graph, start: seq<int>, visited: seq<int>, visited': seq<int>, round: int,
                  current: seq<int>, rest: seq<int>)
    requires OnPath(g, start, visited, round, current)
    requires |rest| < |current| && rest == current[..|rest|]
    requires |visited'| == |visited|
    requires forall x :: 0 <= x < |visited| ==> visited'[x] == if x in current[|rest|..] then 0 else visited[x]
    ensures forall x :: 0 <= x < |g| && x in rest ==> visited'[x] == round
    ensures forall x :: 0 <= x < |g| && x !in rest ==> visited'[x] == start[x]
  {
    var tail := current[|rest|..];
    assert current == rest + tail;
    forall x | 0 <= x < |g| ensures (x in rest ==> visited'[x] == round) && (x !in rest ==> visited'[x] == start[x]) {
      assert x in current <==> x in rest || x in tail;
      if x in rest {
        var k :| 0 <= k < |rest| && rest[k] == x;
        assert x !in tail by {
          forall l | 0 <= l < |tail| ensures tail[l] != x {
            assert tail[l] == current[|rest| + l] && rest[k] == current[k];
          }
        }
      }
    }
  }

  /** After the loop back to `w` is erased, the walk goes on from `w` with the prefix before it. */
  lemma EraseOnPath(g: Graph, start: seq<int>, visited: seq<int>, visited': seq<int>, round: int,
                    current: seq<int>, rest: seq<int>, w: int)
    requires OnPath(g, start, visited, round, current)
    requires |rest| < |current| && rest == current[..|rest|] && current[|rest|] == w
    requires |visited'| == |visited|
    requires forall x :: 0 <= x < |visited| ==> visited'[x] == if x in current[|rest|..] then 0 else visited[x]
    requires |Tagged(visited')| + |current| - |rest| == |Tagged(visited)|
    ensures Walking(g, start, visited', round, rest, w)
  {
    EraseTags(g, start, visited, visited', round, current, rest);
    assert forall k :: 0 <= k < |rest| ==> rest[k] == current[k];
  }

  /** At the end of a walk the tags mark the tree so far together with the walk. */
  lemma TaggedAfterWalk(g: Graph, start: seq<int>, visited: seq<int>, round: int, current: seq<int>, v: int)
    requires Walking(g, start, visited, round, current, v) && visited[v] != 0 && round >= 1
    ensures Tagged(visited) == Tagged(start) + Members(current + [v])
  {
    forall x | x in Members(current + [v]) ensures x in Tagged(visited) {
      assert x in current || x == v;
    }
  }

  /** A walk changes only the tags of its own path, to `round`. */
  lemma WalkTags(g: Graph, start: seq<int>, visited: seq<int>, round: int, current: seq<int>, v: int)
    requires Walking(g, start, visited, round, current, v) && round >= 1
    requires forall x :: 0 <= x < |start| ==> 0 <= start[x] < round
    ensures forall x :: 0 <= x < |visited| ==> 0 <= visited[x] <= round
    ensures forall x :: 0 <= x < |visited| && start[x] != 0 ==> visited[x] == start[x]
  {
  }

  /** The tags `after` are `before` with the path from position `cut` on reset to 0. */
  ghost predicate Popped(current: seq<int>, cut: int, before: seq<int>, after: seq<int>)
    requires 0 <= cut <= |current|
  {
    |after| == |before| &&
    forall x :: 0 <= x < |before| ==> after[x] == if x in current[cut..] then 0 else before[x]
  }

  /** Popping one more vertex of the path resets its tag and lowers the count by one. */
  lemma PopOne(current: seq<int>, cut: int, before: seq<int>, after: seq<int>, round: int)
    requires 1 <= cut <= |current| && round != 0
    requires forall k :: 0 <= k < |current| ==> 0 <= current[k] < |before|
    requires forall x :: 0 <= x < |before| && x in current ==> before[x] == round
    requires forall k, l :: 0 <= k < l < |current| ==> current[k] != current[l]
    requires Popped(current, cut, before, after)
    requires |Tagged(after)| + |current| - cut == |Tagged(before)|
    ensures Popped(current, cut - 1, before, after[current[cut - 1] := 0])
    ensures |Tagged(after[current[cut - 1] := 0])| + |current| - (cut - 1) == |Tagged(before)|
  {
    var vertex := current[cut - 1];
    assert vertex !in current[cut..] by {
      forall l | cut <= l < |current| ensures current[l] != vertex {
      }
    }
    assert vertex in current;
    UntagOne(after, vertex);
    assert current[cut - 1..] == [vertex] + current[cut..];
  }

  /** The pairs of a walk over adjacent vertices are internal walls. */
  lemma ChainAdjacent(g: Graph, T: seq<Pair>, P: seq<int>)
    requires forall k :: 0 <= k < |T| ==> Adjacent(g, T[k].0, T[k].1)
    requires forall k :: 0 <= k < |P| - 1 ==> Adjacent(g, P[k], P[k + 1])
    ensures forall k :: 0 <= k < |T + Chain(P)| ==> Adjacent(g, (T + Chain(P))[k].0, (T + Chain(P))[k].1)
  {
    var T' := T + Chain(P);
    forall k | 0 <= k < |T'| ensures Adjacent(g, T'[k].0, T'[k].1) {
      if k >= |T| {
        var i := k - |T|;
        assert T'[k] == (P[i], P[i + 1]);
      }
    }
  }

  class LoopErasedRandomWalk {
    const generator: Random.Generator
    var visited: seq<int>
    var spanningtree: seq<Pair>

    constructor (generator: Random.Generator)
      ensures this.generator == generator && visited == [] && spanningtree == []
    {
      this.generator := generator;
      visited := [];
      spanningtree := [];
    }

    /**
     * `LoopErasedRandomWalk::SpanningTree`: tag a random first vertex with
     * round 1, then walk from every vertex still untagged, in shuffled order,
     * each walk with a fresh round. When the budget lasts, every vertex ends
     * tagged and the pairs form a spanning tree; the walk gives up only once
     * the budget is spent, and `fuel` is what is left of it.
     */
    method SpanningTree(vertices: int, adjacencylist: Graph, budget: nat)
      returns (tree: seq<Pair>, complete: bool, fuel: nat)
      requires ValidGraph(vertices, adjacencylist) && vertices >= 1 && Connected(vertices, adjacencylist)
      modifies this, generator
      ensures tree == spanningtree && |visited| == vertices
      ensures complete ==> forall x :: 0 <= x < vertices ==> visited[x] != 0
      ensures complete ==> IsSpanningTree(vertices, adjacencylist, tree)
      ensures fuel <= budget && (!complete ==> fuel == 0)
    {
      spanningtree := [];
      var nodes := generator.Shuffle(Iota(vertices));
      PermutationOfIota(nodes, vertices);
      PlantOne(adjacencylist, vertices, nodes[0]);
      visited := seq(vertices, _ => 0)[nodes[0] := 1];
      var round := 1;
      fuel := budget;
      complete := true;
      var i := 1;
      while i < vertices
        invariant 1 <= i <= vertices && round >= 1 && |visited| == vertices
        invariant Planted(adjacencylist, visited, spanningtree)
        invariant forall x :: 0 <= x < vertices ==> 0 <= visited[x] <= round
        invariant forall k :: 0 <= k < i ==> visited[nodes[k]] != 0
        invariant fuel <= budget
      {
        var ok;
        round, fuel, ok := Attach(nodes[i], round, adjacencylist, fuel);
        if !ok {
          complete := false;
          tree := spanningtree;
          return;
        }
        i := i + 1;
      }
      tree := spanningtree;
      AllPlanted(adjacencylist, vertices, visited, tree, nodes);
    }

    /**
     * One pass of the loop of `SpanningTree`: a vertex already visited is
     * skipped; otherwise a new round starts and a walk from the vertex joins it
     * to the tree. When the walk finishes, the vertex is visited, tags stay
     * within the round and earlier tags are kept.
     */
    method Attach(vertex: int, round: int, adjacencylist: Graph, fuel: nat) returns (round': int, fuel': nat, ok: bool)
      requires Planted(adjacencylist, visited, spanningtree) && Connected(|adjacencylist|, adjacencylist)
      requires 0 <= vertex < |visited| && forall x :: 0 <= x < |visited| ==> 0 <= visited[x] <= round
      modifies this, generator
      ensures round <= round' && fuel' <= fuel && |visited| == |old(visited)|
      ensures !ok ==> fuel' == 0
      ensures old(visited)[vertex] != 0 ==>
        ok && round' == round && fuel' == fuel && visited == old(visited) && spanningtree == old(spanningtree)
      ensures ok ==> Planted(adjacencylist, visited, spanningtree) && visited[vertex] != 0
      ensures ok ==> forall x :: 0 <= x < |visited| ==> 0 <= visited[x] <= round'
      ensures ok ==> forall x :: 0 <= x < |visited| && old(visited)[x] != 0 ==> visited[x] == old(visited)[x]
    {
      round', fuel', ok := round, fuel, true;
      if visited[vertex] == 0 {
        round' := round + 1;
        fuel', ok := LERW(vertex, round', adjacencylist, fuel);
      }
    }

    /**
     * `LoopErasedRandomWalk::LERW`: walk from the untagged `vertex` until a vertex
     * of an earlier round is reached, then record the pairs of the loop-erased
     * path. The path starts at `vertex`, its other vertices but the last were
     * untagged and now carry `round`, and no other tag changes.
     */
    method LERW(vertex: int, round: int, adjacencylist: Graph, fuel: nat) returns (fuel': nat, ok: bool)
      requires Planted(adjacencylist, visited, spanningtree) && Connected(|adjacencylist|, adjacencylist)
      requires 0 <= vertex < |visited| && visited[vertex] == 0
      requires forall x :: 0 <= x < |visited| ==> 0 <= visited[x] < round
      modifies this, generator
      ensures fuel' <= fuel && |visited| == |old(visited)| && (!ok ==> fuel' == 0)
      ensures ok ==> Planted(adjacencylist, visited, spanningtree) && visited[vertex] != 0
      ensures ok ==> forall x :: 0 <= x < |visited| ==> 0 <= visited[x] <= round
      ensures ok ==> forall x :: 0 <= x < |visited| && old(visited)[x] != 0 ==> visited[x] == old(visited)[x]
      ensures ok ==> exists path: seq<int> ::
        Branch(|visited|, Tagged(old(visited)), path) && path[0] == vertex &&
        spanningtree == old(spanningtree) + Chain(path)
    {
      ghost var start := visited;
      ghost var T0 := spanningtree;
      var current, v;
      current, v, fuel', ok := Walk(vertex, round, adjacencylist, fuel);
      if !ok {
        return;
      }
      Hang(adjacencylist, start, visited, round, current, v, T0);
      WalkTags(adjacencylist, start, visited, round, current, v);
      var path := current + [v];
      Record(path);
      assert path[0] == vertex;
    }

    /**
     * The outer `while` of `LERW`: step until the walk stands on a tagged
     * vertex, which is then one of an earlier round.
     */
    method Walk(vertex: int, round: int, adjacencylist: Graph, fuel: nat)
      returns (current: seq<int>, v: int, fuel': nat, ok: bool)
      requires ValidGraph(|visited|, adjacencylist) && Connected(|adjacencylist|, adjacencylist)
      requires 0 <= vertex < |visited| && visited[vertex] == 0 && Tagged(visited) != {}
      requires forall x :: 0 <= x < |visited| ==> 0 <= visited[x] < round
      modifies this, generator
      ensures fuel' <= fuel && |visited| == |old(visited)| && spanningtree == old(spanningtree)
      ensures !ok ==> fuel' == 0
      ensures ok ==> Walking(adjacencylist, old(visited), visited, round, current, v) && visited[v] != 0
      ensures ok ==> (if current == [] then v else current[0]) == vertex
    {
      ghost var start := visited;
      current := [];
      v := vertex;
      fuel' := fuel;
      while visited[v] == 0
        invariant Walking(adjacencylist, start, visited, round, current, v) && fuel' <= fuel
        invariant |visited| == |start| && spanningtree == old(spanningtree)
        invariant (if current == [] then v else current[0]) == vertex
        decreases fuel'
      {
        if fuel' == 0 {
          return current, v, 0, false;
        }
        HasNeighbour(adjacencylist, v);
        current, v, fuel', ok := Step(adjacencylist, start, round, current, v, fuel');
        if !ok {
          return;
        }
      }
      ok := true;
    }

    /** The closing `for` of `LERW`: one pair per consecutive pair of path vertices. */
    method Record(path: seq<int>)
      requires path != []
      modifies this
      ensures spanningtree == old(spanningtree) + Chain(path) && visited == old(visited)
    {
      for i := 0 to |path| - 1
        invariant spanningtree == old(spanningtree) + Chain(path[..i + 1]) && visited == old(visited)
      {
        assert path[..i + 2] == path[..i + 1] + [path[i + 1]];
        ChainSnoc(path[..i + 1], path[i + 1]);
        AppendOne(old(spanningtree), Chain(path[..i + 1]), (path[i], path[i + 1]));
        spanningtree := spanningtree + [(path[i], path[i + 1])];
      }
      assert path[..|path|] == path;
    }

    /**
     * One pass of the outer `while` of `LERW`: tag `vertex`, extend the path,
     * draw the next step, and erase the loop if it lands on the path.
     */
    method Step(g: Graph, ghost start: seq<int>, round: int, current: seq<int>, vertex: int, fuel: nat)
      returns (current': seq<int>, vertex': int, fuel': nat, ok: bool)
      requires Walking(g, start, visited, round, current, vertex) && visited[vertex] == 0 && ValidGraph(|g|, g)
      requires forall x :: 0 <= x < |g| ==> 0 <= start[x] < round
      requires fuel > 0 && exists j :: 0 <= j < |g[vertex]| && g[vertex][j].0 >= 0
      requires current != [] ==> current[0] != vertex
      modifies this, generator
      ensures fuel' < fuel && |visited| == |old(visited)| && spanningtree == old(spanningtree)
      ensures !ok ==> fuel' == 0
      ensures ok ==> Walking(g, start, visited, round, current', vertex')
      ensures ok ==> current' != [] ==> current'[0] == (if current == [] then vertex else current[0])
      ensures ok && current' == [] ==> vertex' == (if current == [] then vertex else current[0])
    {
      PushOnPath(g, start, visited, round, current, vertex);
      visited := visited[vertex := round];
      current' := current + [vertex];
      var nextvertex;
      nextvertex, fuel' := Draw(g, vertex, fuel);
      if nextvertex < 0 {
        return current', vertex, fuel', false;
      }
      ok := true;
      if visited[nextvertex] == round {
        current' := EraseLoop(g, start, current', nextvertex, round);
      } else {
        StepOn(g, start, visited, round, current', nextvertex);
      }
      vertex' := nextvertex;
    }

    /** The `do`/`while` draw: pick random entries of `vertex` until one is internal. */
    method Draw(g: Graph, vertex: int, fuel: nat) returns (nextvertex: int, fuel': nat)
      requires ValidGraph(|g|, g) && 0 <= vertex < |g| && fuel > 0
      requires exists j :: 0 <= j < |g[vertex]| && g[vertex][j].0 >= 0
      modifies generator
      ensures fuel' < fuel
      ensures nextvertex >= 0 ==> nextvertex < |g| && Adjacent(g, vertex, nextvertex)
      ensures nextvertex < 0 ==> fuel' == 0
    {
      fuel' := fuel;
      nextvertex := -1;
      while nextvertex < 0 && fuel' > 0
        invariant fuel' <= fuel && (fuel' == fuel ==> nextvertex < 0)
        invariant nextvertex >= 0 ==> nextvertex < |g| && Adjacent(g, vertex, nextvertex)
        decreases fuel'
      {
        var k := generator.UniformInt(0, |g[vertex]| - 1);
        nextvertex := g[vertex][k].0;
        fuel' := fuel' - 1;
      }
    }

    /** The walk has come back to `nextvertex` on its path: erase the loop and go on from there. */
    method EraseLoop(ghost g: Graph, ghost start: seq<int>, current: seq<int>, nextvertex: int, ghost round: int)
      returns (rest: seq<int>)
      requires OnPath(g, start, visited, round, current) && nextvertex in current && round != 0
      modifies this
      ensures Walking(g, start, visited, round, rest, nextvertex)
      ensures |rest| < |current| && rest == current[..|rest|] && current[|rest|] == nextvertex
      ensures |visited| == |old(visited)| && spanningtree == old(spanningtree)
    {
      rest := Erase(current, nextvertex, round);
      EraseOnPath(g, start, old(visited), visited, round, current, rest, nextvertex);
    }

    /**
     * The loop erasure: pop the path back to and including `nextvertex`,
     * untagging every popped vertex; the prefix before it is kept.
     */
    method Erase(current: seq<int>, nextvertex: int, ghost round: int) returns (rest: seq<int>)
      requires nextvertex in current && round != 0
      requires forall k :: 0 <= k < |current| ==> 0 <= current[k] < |visited|
      requires forall x :: 0 <= x < |visited| && x in current ==> visited[x] == round
      requires forall k, l :: 0 <= k < l < |current| ==> current[k] != current[l]
      modifies this
      ensures |rest| < |current| && rest == current[..|rest|] && current[|rest|] == nextvertex
      ensures |visited| == |old(visited)| && spanningtree == old(spanningtree)
      ensures forall x :: 0 <= x < |visited| ==>
        visited[x] == if x in current[|rest|..] then 0 else old(visited)[x]
      ensures |Tagged(visited)| + |current| - |rest| == |Tagged(old(visited))|
    {
      rest := current;
      var done := false;
      assert current[|current|..] == [];
      while !done
        invariant |rest| <= |current| && rest == current[..|rest|]
        invariant !done ==> nextvertex in rest
        invariant done ==> |rest| < |current| && current[|rest|] == nextvertex
        invariant spanningtree == old(spanningtree)
        invariant Popped(current, |rest|, old(visited), visited)
        invariant |Tagged(visited)| + |current| - |rest| == |Tagged(old(visited))|
        decreases |rest|
      {
        var vertex := rest[|rest| - 1];
        PopOne(current, |rest|, old(visited), visited, round);
        visited := visited[vertex := 0];
        rest := rest[..|rest| - 1];
        done := vertex == nextvertex;
      }
    }
  }

  /** A walk that stops on a tagged vertex is a branch onto the tree of the starting tags. */
  lemma WalkBranch(g: Graph, start: seq<int>, visited: seq<int>, round: int, current: seq<int>, v: int)
    requires Walking(g, start, visited, round, current, v) && visited[v] != 0 && round >= 1
    ensures Branch(|g|, Tagged(start), current + [v])
  {
    var P := current + [v];
    assert forall k :: 0 <= k < |current| ==> P[k] == current[k];
  }

  /** The first vertex of the shuffled order, tagged with round 1, is a tree with no pairs. */
  lemma PlantOne(g: Graph, n: int, x: int)
    requires ValidGraph(n, g) && 0 <= x < n
    ensures Planted(g, seq(n, _ => 0)[x := 1], [])
  {
    TaggedNone(n);
    TagOne(seq(n, _ => 0), x, 1);
    GrownStart(n, x);
  }

  /** Once every vertex of the order is tagged, every vertex is, and the planted pairs span the graph. */
  lemma AllPlanted(g: Graph, n: int, visited: seq<int>, T: seq<Pair>, nodes: seq<int>)
    requires Planted(g, visited, T) && |visited| == n && |nodes| == n
    requires forall x :: 0 <= x < n ==> x in nodes
    requires forall k :: 0 <= k < n ==> 0 <= nodes[k] < n && visited[nodes[k]] != 0
    ensures forall x :: 0 <= x < n ==> visited[x] != 0
    ensures IsSpanningTree(n, g, T)
  {
    forall x | 0 <= x < n ensures visited[x] != 0 {
      assert x in nodes;
    }
    assert Tagged(visited) == Vertices(n);
    VerticesCard(n);
  }

  /**
   * The end of a walk: the path with the vertex it stopped on is a branch onto
   * the tree of the starting tags, and hanging it there gives the tags now.
   */
  lemma Hang(g: Graph, start: seq<int>, visited: seq<int>, round: int, current: seq<int>, v: int, T: seq<Pair>)
    requires Walking(g, start, visited, round, current, v) && visited[v] != 0
    requires Planted(g, start, T) && round >= 1
    ensures Branch(|g|, Tagged(start), current + [v])
    ensures Planted(g, visited, T + Chain(current + [v]))
  {
    var P := current + [v];
    WalkBranch(g, start, visited, round, current, v);
    PathOnto(|g|, T, Tagged(start), P);
    TaggedAfterWalk(g, start, visited, round, current, v);
    ChainAdjacent(g, T, P);
  }
}
