/**
 * The adjacency lists of a layout are built by a fixed series of loops, each
 * iteration making a few `push_back`s. A layout is described here by the
 * pushes of each iteration; `Flatten` strings the iterations together.
 */
module Layouts {
  import opened Graphs

  /** The pushes of the iterations of a loop, in order. */
  function Flatten(s: seq<seq<PushOp>>): (r: seq<PushOp>)
    decreases |s|
  {
    if s == [] then [] else Flatten(s[..|s| - 1]) + s[|s| - 1]
  }

  /** One more iteration appends its pushes. */
  lemma FlattenStep(s: seq<seq<PushOp>>, k: int)
    requires 0 <= k < |s|
    ensures Flatten(s[..k + 1]) == Flatten(s[..k]) + s[k]
  {
    assert s[..k + 1][..k] == s[..k];
  }

  /** Pushes made after those of the first `k` iterations, when they are iteration `k`'s, extend the series by one iteration. */
  lemma FlattenNext(P0: seq<PushOp>, s: seq<seq<PushOp>>, k: int, before: seq<PushOp>, after: seq<PushOp>)
    requires 0 <= k < |s| && before == P0 + Flatten(s[..k]) && after == before + s[k]
    ensures after == P0 + Flatten(s[..k + 1])
  {
    FlattenStep(s, k);
  }

  lemma FlattenAll(s: seq<seq<PushOp>>)
    ensures Flatten(s[..|s|]) == Flatten(s)
  {
    assert s[..|s|] == s;
  }

  /** Running the iterations of `s` and then those of `t`. */
  lemma {:induction false} FlattenAppend(s: seq<seq<PushOp>>, t: seq<seq<PushOp>>)
    ensures Flatten(s + t) == Flatten(s) + Flatten(t)
    decreases |t|
  {
    if t == [] {
      assert s + t == s;
    } else {
      var t' := t[..|t| - 1];
      assert (s + t)[..|s + t| - 1] == s + t';
      FlattenAppend(s, t');
    }
  }

  /** Five loops run one after another push what their concatenation pushes. */
  lemma AppendFive(p: seq<PushOp>, a: seq<PushOp>, b: seq<PushOp>, c: seq<PushOp>, d: seq<PushOp>, e: seq<PushOp>)
    ensures p + a + b + c + d + e == p + (a + b + c + d + e)
  {
  }

  /** Two single pushes in a row push the pair. */
  lemma AppendPair(p: seq<PushOp>, x: PushOp, y: PushOp)
    ensures p + [x] + [y] == p + [x, y]
  {
  }

  /** Three pushes in a row push their concatenation. */
  lemma AppendThree(p: seq<PushOp>, a: seq<PushOp>, b: seq<PushOp>, c: seq<PushOp>)
    ensures p + a + b + c == p + (a + b + c)
  {
  }

  lemma FlattenSingle(x: seq<PushOp>)
    ensures Flatten([x]) == x
  {
    assert [x][..0] == [];
  }

  /** A push is made by the loop exactly when some iteration makes it. */
  lemma {:induction false} FlattenMembers(s: seq<seq<PushOp>>, x: PushOp)
    ensures x in Flatten(s) <==> exists k :: 0 <= k < |s| && x in s[k]
    decreases |s|
  {
    if s != [] {
      var s' := s[..|s| - 1];
      FlattenMembers(s', x);
      if exists k :: 0 <= k < |s| && x in s[k] {
        var k :| 0 <= k < |s| && x in s[k];
        if k < |s'| {
          assert x in s'[k];
        }
      }
    }
  }

  /** Pushes to vertices, of entries naming vertices or the outside, internal ones mirrored. */
  ghost predicate WellFormed(n: int, P: seq<PushOp>)
  {
    PushesIn(n, P) && TargetsIn(n, P) && MirroredPushes(P)
  }

  /** Every iteration of the loop is well formed. */
  ghost predicate EachWellFormed(n: int, s: seq<seq<PushOp>>)
  {
    forall k :: 0 <= k < |s| ==> WellFormed(n, s[k])
  }

  lemma AppendWellFormed(n: int, P: seq<PushOp>, Q: seq<PushOp>)
    requires WellFormed(n, P) && WellFormed(n, Q)
    ensures WellFormed(n, P + Q)
  {
    MirroredAppend(P, Q);
    forall k | 0 <= k < |P + Q| ensures 0 <= (P + Q)[k].0 < n && -1 <= (P + Q)[k].1.0 < n {
      if k < |P| {
        assert (P + Q)[k] == P[k];
      } else {
        assert (P + Q)[k] == Q[k - |P|];
      }
    }
  }

  lemma {:induction false} FlattenWellFormed(n: int, s: seq<seq<PushOp>>)
    requires EachWellFormed(n, s)
    ensures WellFormed(n, Flatten(s))
    decreases |s|
  {
    if s != [] {
      var s' := s[..|s| - 1];
      assert EachWellFormed(n, s') by {
        forall k | 0 <= k < |s'| ensures WellFormed(n, s'[k]) {
          assert s'[k] == s[k];
        }
      }
      FlattenWellFormed(n, s');
      AppendWellFormed(n, Flatten(s'), s[|s| - 1]);
    }
  }

  /** Every iteration pushes `a` outside walls and `b` internal entries. */
  ghost predicate EachPushes(s: seq<seq<PushOp>>, a: nat, b: nat)
  {
    forall k :: 0 <= k < |s| ==> OutsidePushes(s[k]) == a && InternalPushes(s[k]) == b
  }

  lemma {:induction false} FlattenUniform(s: seq<seq<PushOp>>, a: nat, b: nat)
    requires EachPushes(s, a, b)
    ensures OutsidePushes(Flatten(s)) == a * |s| && InternalPushes(Flatten(s)) == b * |s|
    decreases |s|
  {
    if s != [] {
      var s' := s[..|s| - 1];
      assert EachPushes(s', a, b) by {
        forall k | 0 <= k < |s'| ensures OutsidePushes(s'[k]) == a && InternalPushes(s'[k]) == b {
          assert s'[k] == s[k];
        }
      }
      FlattenUniform(s', a, b);
      PushCountsAppend(Flatten(s'), s[|s| - 1]);
      MultiplyStep(a, |s'|);
      MultiplyStep(b, |s'|);
    }
  }

  /** Loops that push no outside wall in any iteration push none in all. */
  lemma {:induction false} FlattenNoOutside(s: seq<seq<PushOp>>)
    requires forall k :: 0 <= k < |s| ==> OutsidePushes(s[k]) == 0
    ensures OutsidePushes(Flatten(s)) == 0
    decreases |s|
  {
    if s != [] {
      var s' := s[..|s| - 1];
      assert forall k :: 0 <= k < |s'| ==> OutsidePushes(s'[k]) == 0 by {
        forall k | 0 <= k < |s'| ensures OutsidePushes(s'[k]) == 0 {
          assert s'[k] == s[k];
        }
      }
      FlattenNoOutside(s');
      PushCountsAppend(Flatten(s'), s[|s| - 1]);
    }
  }

  lemma MultiplyStep(a: int, m: int)
    ensures a * (m + 1) == a * m + a
  {
  }

  /** The counts of one more iteration add up. */
  lemma FlattenCountsStep(s: seq<seq<PushOp>>, k: int)
    requires 0 <= k < |s|
    ensures OutsidePushes(Flatten(s[..k + 1])) == OutsidePushes(Flatten(s[..k])) + OutsidePushes(s[k])
    ensures InternalPushes(Flatten(s[..k + 1])) == InternalPushes(Flatten(s[..k])) + InternalPushes(s[k])
  {
    FlattenStep(s, k);
    PushCountsAppend(Flatten(s[..k]), s[k]);
  }

  /** Well-formedness and counts of the first `k` iterations, extended by iteration `k`. */
  lemma PrefixStep(n: int, s: seq<seq<PushOp>>, k: int, a: int, b: int, a': int, b': int)
    requires 0 <= k < |s|
    requires WellFormed(n, Flatten(s[..k])) && OutsidePushes(Flatten(s[..k])) == a && InternalPushes(Flatten(s[..k])) == b
    requires WellFormed(n, s[k]) && OutsidePushes(s[k]) == a' && InternalPushes(s[k]) == b'
    ensures WellFormed(n, Flatten(s[..k + 1]))
    ensures OutsidePushes(Flatten(s[..k + 1])) == a + a' && InternalPushes(Flatten(s[..k + 1])) == b + b'
  {
    FlattenCountsStep(s, k);
    FlattenStep(s, k);
    AppendWellFormed(n, Flatten(s[..k]), s[k]);
  }

  /** No iterations: no pushes. */
  lemma PrefixNone(n: int, s: seq<seq<PushOp>>)
    ensures WellFormed(n, Flatten(s[..0])) && OutsidePushes(Flatten(s[..0])) == 0 && InternalPushes(Flatten(s[..0])) == 0
  {
    assert s[..0] == [];
  }

  /** The counts of the two pushes of a mirrored wall. */
  lemma MirrorCounts(u: int, v: int, b: BorderId)
    requires u >= 0 && v >= 0
    ensures OutsidePushes(Mirror(u, v, b)) == 0 && InternalPushes(Mirror(u, v, b)) == 2
    ensures InternalPushes([(u, (Outside, b))]) == 0 && OutsidePushes([(u, (Outside, b))]) == 1
  {
    var M := Mirror(u, v, b);
    var M1 := [(u, (v, b))];
    assert M1[..|M1| - 1] == [];
    assert OutsidePushes(M1) == 0 && InternalPushes(M1) == 1;
    assert M[..|M| - 1] == M1;
    var O := [(u, (Outside, b))];
    assert O[..|O| - 1] == [];
  }

  /** A one-wall push list is well formed when its vertex is and its neighbour is. */
  lemma MirrorWellFormed(n: int, u: int, v: int, b: BorderId)
    requires 0 <= u < n && 0 <= v < n
    ensures WellFormed(n, Mirror(u, v, b))
    ensures WellFormed(n, [(u, (Outside, b))])
  {
  }

  /**
   * Built from empty lists, well-formed pushes give a valid symmetric graph that
   * holds one outside entry per outside push and one internal entry per
   * internal push.
   */
  lemma Built(n: nat, P: seq<PushOp>)
    requires WellFormed(n, P)
    ensures ValidGraph(n, Build(Empty(n), P)) && Symmetric(Build(Empty(n), P))
    ensures OutsideWalls(Build(Empty(n), P)) == OutsidePushes(P)
    ensures InternalEntries(Build(Empty(n), P)) == InternalPushes(P)
  {
    BuildSymmetric(n, P);
    BuildCounts(Empty(n), P);
    EmptyCounts(n);
  }

  /** In a graph built from empty lists, the list of `u` names `v` exactly when some push put such an entry there. */
  lemma BuiltLists(n: nat, P: seq<PushOp>, u: int, v: int)
    requires PushesIn(n, P) && 0 <= u < n
    ensures Lists(Build(Empty(n), P), u, v) <==> exists k :: 0 <= k < |P| && P[k].0 == u && P[k].1.0 == v
  {
    if Lists(Build(Empty(n), P), u, v) {
      ListedPushed(n, P, u, v);
    }
    if exists k :: 0 <= k < |P| && P[k].0 == u && P[k].1.0 == v {
      var k :| 0 <= k < |P| && P[k].0 == u && P[k].1.0 == v;
      PushedListed(n, P, k);
    }
  }

  /** For a vertex `v`, the same as a neighbour. */
  lemma BuiltAdjacent(n: nat, P: seq<PushOp>, u: int, v: int)
    requires PushesIn(n, P) && 0 <= u < n && v >= 0
    ensures Adjacent(Build(Empty(n), P), u, v) <==> exists k :: 0 <= k < |P| && P[k].0 == u && P[k].1.0 == v
  {
    BuiltLists(n, P, u, v);
  }

  lemma ListedPushed(n: nat, P: seq<PushOp>, u: int, v: int)
    requires PushesIn(n, P) && 0 <= u < n && Lists(Build(Empty(n), P), u, v)
    ensures exists k :: 0 <= k < |P| && P[k].0 == u && P[k].1.0 == v
  {
    var g: Graph := Build(Empty(n), P);
    var j :| 0 <= j < |g[u]| && g[u][j].0 == v;
    var e := g[u][j];
    assert e in g[u];
    BuildMembers(n, P, u, e);
    var k :| 0 <= k < |P| && P[k] == (u, e);
  }

  lemma PushedListed(n: nat, P: seq<PushOp>, k: int)
    requires PushesIn(n, P) && 0 <= k < |P|
    ensures Lists(Build(Empty(n), P), P[k].0, P[k].1.0)
  {
    var g: Graph := Build(Empty(n), P);
    var u, e := P[k].0, P[k].1;
    assert (u, e) in P;
    BuildMembers(n, P, u, e);
    var j :| 0 <= j < |g[u]| && g[u][j] == e;
    assert g[u][j].0 == P[k].1.0;
  }

  /** Square cells (r1, c1) and (r2, c2), numbered by row and column, share a side. */
  predicate GridNeighbours(r1: int, c1: int, r2: int, c2: int)
  {
    (r1 == r2 && (c2 == c1 + 1 || c1 == c2 + 1)) || (c1 == c2 && (r2 == r1 + 1 || r1 == r2 + 1))
  }

  /** A neighbour of a reachable vertex is reachable. */
  lemma AdjacentReach(g: Graph, s: int, u: int, v: int)
    requires Adjacent(g, u, v) && Reach(g, s, u)
    ensures Reach(g, s, v)
  {
    var j :| 0 <= j < |g[u]| && g[u][j].0 == v;
    ReachStep(g, s, u, j);
  }

  /** A valid symmetric graph in which every vertex is reachable from `s` is connected. */
  lemma ReachEverywhere(g: Graph, s: int)
    requires ValidGraph(|g|, g) && Symmetric(g) && 0 <= s < |g|
    requires forall x :: 0 <= x < |g| ==> Reach(g, s, x)
    ensures Connected(|g|, g)
  {
    forall S | s in S && Closed(g, S) ensures Vertices(|g|) <= S {
      forall x | x in Vertices(|g|) ensures x in S {
        ReachInClosed(g, s, x, S);
      }
    }
    ReachesAllConnected(g, s);
  }
}
