/**
 * Spanning trees as lists of (u, v) pairs. A list of pairs is replayed by
 * quick-find labelling: `Labels(n, T)` gives every vertex the label of its
 * component in the forest formed by `T`. A list is acyclic when each pair joins
 * two different components of the pairs before it.
 */
module Trees {
  import opened Graphs
  import opened Sequences

  type Pair = (int, int)

  /** Relabel the class `x` as `y`. */
  function Merge(C: seq<int>, x: int, y: int): (r: seq<int>)
    ensures |r| == |C|
    ensures forall i :: 0 <= i < |C| ==> r[i] == (if C[i] == x then y else C[i])
  {
    seq(|C|, i requires 0 <= i < |C| => if C[i] == x then y else C[i])
  }

  /** Both endpoints are vertices. */
  predicate EndsIn(n: int, e: Pair)
  {
    0 <= e.0 < n && 0 <= e.1 < n
  }

  /** The component labels of the forest `T`, replaying its pairs in order. */
  function Labels(n: nat, T: seq<Pair>): (L: seq<int>)
    ensures |L| == n
    decreases |T|
  {
    if T == [] then Iota(n)
    else
      var L := Labels(n, T[..|T| - 1]);
      var e := T[|T| - 1];
      if EndsIn(n, e) then Merge(L, L[e.0], L[e.1]) else L
  }

  /** Every pair joins two components of the forest of the pairs before it. */
  ghost predicate Acyclic(n: nat, T: seq<Pair>)
    decreases |T|
  {
    T == [] ||
    (Acyclic(n, T[..|T| - 1]) && EndsIn(n, T[|T| - 1]) &&
     Labels(n, T[..|T| - 1])[T[|T| - 1].0] != Labels(n, T[..|T| - 1])[T[|T| - 1].1])
  }

  /** `L` and `C` partition the vertices the same way. */
  ghost predicate SameKernel(L: seq<int>, C: seq<int>)
  {
    |L| == |C| && forall x, y :: 0 <= x < |L| && 0 <= y < |L| ==> (L[x] == L[y] <==> C[x] == C[y])
  }

  /** A spanning tree of `g`: `n - 1` acyclic pairs, each an internal wall of `g`. */
  ghost predicate IsSpanningTree(n: nat, g: Graph, T: seq<Pair>)
  {
    |T| == n - 1 && Acyclic(n, T) &&
    forall k :: 0 <= k < |T| ==> Adjacent(g, T[k].0, T[k].1)
  }

  lemma LabelsStep(n: nat, T: seq<Pair>, e: Pair)
    requires EndsIn(n, e)
    ensures Labels(n, T + [e]) == Merge(Labels(n, T), Labels(n, T)[e.0], Labels(n, T)[e.1])
  {
    assert (T + [e])[..|T|] == T;
  }

  /** Merging two distinct classes joins exactly those two. */
  lemma MergeKernel(L: seq<int>, a: int, b: int, x: int, y: int)
    requires 0 <= a < |L| && 0 <= b < |L| && 0 <= x < |L| && 0 <= y < |L| && L[a] != L[b]
    ensures var M := Merge(L, L[a], L[b]);
      M[x] == M[y] <==>
        (L[x] == L[y] || ((L[x] == L[a] || L[x] == L[b]) && (L[y] == L[a] || L[y] == L[b])))
  {
  }

  /**
   * Adding a pair between two classes of a partition that matches the forest
   * keeps the list acyclic, and the forest then matches the merged partition.
   */
  lemma AddEdge(n: nat, T: seq<Pair>, C: seq<int>, a: int, b: int)
    requires Acyclic(n, T) && SameKernel(Labels(n, T), C)
    requires 0 <= a < n && 0 <= b < n && C[a] != C[b]
    ensures Acyclic(n, T + [(a, b)])
    ensures SameKernel(Labels(n, T + [(a, b)]), Merge(C, C[a], C[b]))
    ensures SameKernel(Labels(n, T + [(a, b)]), Merge(C, C[b], C[a]))
  {
    var T' := T + [(a, b)];
    assert T'[..|T'| - 1] == T;
    var L := Labels(n, T);
    LabelsStep(n, T, (a, b));
    forall x, y | 0 <= x < n && 0 <= y < n
      ensures (Labels(n, T')[x] == Labels(n, T')[y]) <==> (Merge(C, C[a], C[b])[x] == Merge(C, C[a], C[b])[y])
      ensures (Labels(n, T')[x] == Labels(n, T')[y]) <==> (Merge(C, C[b], C[a])[x] == Merge(C, C[b], C[a])[y])
    {
      MergeKernel(L, a, b, x, y);
      MergeKernel(C, a, b, x, y);
      MergeKernel(C, b, a, x, y);
    }
  }

  /** Acyclic lists stay acyclic when cut to a prefix. */
  lemma {:induction false} AcyclicPrefix(n: nat, T: seq<Pair>, k: nat)
    requires Acyclic(n, T) && k <= |T|
    ensures Acyclic(n, T[..k])
    decreases |T|
  {
    if k < |T| {
      AcyclicPrefix(n, T[..|T| - 1], k);
      assert T[..|T| - 1][..k] == T[..k];
    } else {
      assert T[..k] == T;
    }
  }

  /** Labels only coarsen as pairs are added. */
  lemma {:induction false} Coarsen(n: nat, T: seq<Pair>, k: nat, x: int, y: int)
    requires k <= |T| && 0 <= x < n && 0 <= y < n
    requires Labels(n, T[..k])[x] == Labels(n, T[..k])[y]
    ensures Labels(n, T)[x] == Labels(n, T)[y]
    decreases |T|
  {
    if k < |T| {
      assert T[..|T| - 1][..k] == T[..k];
      Coarsen(n, T[..|T| - 1], k, x, y);
    } else {
      assert T[..k] == T;
    }
  }

  /** After a pair is added its endpoints share a label. */
  lemma JoinedAfter(n: nat, T: seq<Pair>, i: nat)
    requires i < |T| && EndsIn(n, T[i])
    ensures Labels(n, T)[T[i].0] == Labels(n, T)[T[i].1]
  {
    assert T[..i + 1][..i] == T[..i];
    Coarsen(n, T, i + 1, T[i].0, T[i].1);
  }

  /** `e` and `f` name the same wall, in either direction. */
  predicate SameWall(e: Pair, f: Pair)
  {
    (e.0 == f.0 && e.1 == f.1) || (e.0 == f.1 && e.1 == f.0)
  }

  /** An acyclic list has no self-loop and never names the same wall twice. */
  lemma AcyclicSimple(n: nat, T: seq<Pair>)
    requires Acyclic(n, T)
    ensures forall i :: 0 <= i < |T| ==> T[i].0 != T[i].1
    ensures forall i, j :: 0 <= i < j < |T| ==> !SameWall(T[i], T[j])
  {
    forall i | 0 <= i < |T| ensures T[i].0 != T[i].1 {
      AcyclicPrefix(n, T, i + 1);
      assert T[..i + 1][..i] == T[..i];
    }
    forall i, j | 0 <= i < j < |T| ensures !SameWall(T[i], T[j]) {
      AcyclicPrefix(n, T, j + 1);
      assert T[..j + 1][..j] == T[..j];
      AcyclicPrefix(n, T, i + 1);
      JoinedAfter(n, T[..j], i);
    }
  }

  /** The set of labels in use. */
  function Classes(L: seq<int>): set<int>
  {
    set i | 0 <= i < |L| :: L[i]
  }

  lemma MergeClasses(L: seq<int>, a: int, b: int)
    requires 0 <= a < |L| && 0 <= b < |L| && L[a] != L[b]
    ensures Classes(Merge(L, L[a], L[b])) == Classes(L) - {L[a]}
  {
    var M := Merge(L, L[a], L[b]);
    forall c | c in Classes(L) - {L[a]} ensures c in Classes(M) {
      var i :| 0 <= i < |L| && L[i] == c;
      assert M[i] == c;
    }
    forall c | c in Classes(M) ensures c in Classes(L) - {L[a]} {
      var i :| 0 <= i < |M| && M[i] == c;
      if L[i] == L[a] {
        assert c == L[b];
      }
    }
  }

  /** An acyclic list of `k` pairs leaves `n - k` components. */
  lemma {:induction false} ClassCount(n: nat, T: seq<Pair>)
    requires Acyclic(n, T)
    ensures |T| <= n
    ensures |Classes(Labels(n, T))| == n - |T|
    decreases |T|
  {
    if T == [] {
      forall c | c in Vertices(n) ensures c in Classes(Iota(n)) {
        assert Iota(n)[c] == c;
      }
      assert Classes(Iota(n)) == Vertices(n);
      VerticesCard(n);
    } else {
      var T' := T[..|T| - 1];
      var e := T[|T| - 1];
      ClassCount(n, T');
      var L := Labels(n, T');
      MergeClasses(L, e.0, e.1);
      assert T == T' + [e];
      LabelsStep(n, T', e);
      assert L[e.0] in Classes(L);
    }
  }

  /** A spanning tree leaves a single component. */
  lemma SpanningTreeOneClass(n: nat, g: Graph, T: seq<Pair>, x: int, y: int)
    requires IsSpanningTree(n, g, T) && 0 <= x < n && 0 <= y < n
    ensures Labels(n, T)[x] == Labels(n, T)[y]
  {
    ClassCount(n, T);
    var L := Labels(n, T);
    assert L[x] in Classes(L) && L[y] in Classes(L);
    if L[x] != L[y] {
      assert {L[x], L[y]} <= Classes(L);
      SubsetCardAny({L[x], L[y]}, Classes(L));
    }
  }

  lemma SubsetCardAny(A: set<int>, B: set<int>)
    requires A <= B
    ensures |A| <= |B|
  {
    assert B == A + (B - A);
  }

  /** `x` is an endpoint of a pair of `T`. */
  ghost predicate Touches(T: seq<Pair>, x: int)
  {
    exists k :: 0 <= k < |T| && (T[k].0 == x || T[k].1 == x)
  }

  /** A vertex no pair touches keeps its own label, and no other vertex gets it. */
  lemma {:induction false} UntouchedAlone(n: nat, T: seq<Pair>, x: int)
    requires 0 <= x < n && !Touches(T, x)
    ensures Labels(n, T)[x] == x
    ensures forall y :: 0 <= y < n && y != x ==> Labels(n, T)[y] != x
    decreases |T|
  {
    if T != [] {
      var T' := T[..|T| - 1];
      assert forall k :: 0 <= k < |T'| ==> T'[k] == T[k];
      UntouchedAlone(n, T', x);
      assert T[|T| - 1].0 != x && T[|T| - 1].1 != x;
    }
  }

  /** With at least two vertices, every vertex is an endpoint of some pair of a spanning tree. */
  lemma SpanningTreeTouchesAll(n: nat, g: Graph, T: seq<Pair>, x: int)
    requires IsSpanningTree(n, g, T) && 2 <= n && 0 <= x < n
    ensures Touches(T, x)
  {
    if !Touches(T, x) {
      var y := if x == 0 then 1 else 0;
      UntouchedAlone(n, T, x);
      SpanningTreeOneClass(n, g, T, x, y);
      assert false;
    }
  }

  /** `S` holds both endpoints of every pair or neither. */
  ghost predicate ClosedUnder(T: seq<Pair>, S: set<int>)
  {
    forall k :: 0 <= k < |T| ==> (T[k].0 in S <==> T[k].1 in S)
  }

  /** A set closed under the pairs is a union of components. */
  lemma {:induction false} LabelsRespectClosed(n: nat, T: seq<Pair>, S: set<int>, x: int, y: int)
    requires ClosedUnder(T, S) && 0 <= x < n && 0 <= y < n
    requires Labels(n, T)[x] == Labels(n, T)[y]
    ensures x in S <==> y in S
    decreases |T|
  {
    if T != [] {
      var T' := T[..|T| - 1];
      var e := T[|T| - 1];
      var L := Labels(n, T');
      assert ClosedUnder(T', S) by {
        forall k | 0 <= k < |T'| ensures (T'[k].0 in S <==> T'[k].1 in S) {
          assert T'[k] == T[k];
        }
      }
      if EndsIn(n, e) && L[x] != L[y] {
        assert e.0 in S <==> e.1 in S;
        // Both x and y sit in the two merged classes.
        assert (L[x] == L[e.0] || L[x] == L[e.1]) && (L[y] == L[e.0] || L[y] == L[e.1]);
        if L[x] == L[e.0] {
          LabelsRespectClosed(n, T', S, x, e.0);
        } else {
          LabelsRespectClosed(n, T', S, x, e.1);
        }
        if L[y] == L[e.0] {
          LabelsRespectClosed(n, T', S, y, e.0);
        } else {
          LabelsRespectClosed(n, T', S, y, e.1);
        }
      } else {
        LabelsRespectClosed(n, T', S, x, y);
      }
    }
  }

  // ---------------------------------------------------------------------------
  // Growing one tree from a region of vertices (the search-style algorithms).

  /** The labelling with one class for the region `R` and a singleton for every other vertex. */
  function Region(n: nat, R: set<int>): (C: seq<int>)
    ensures |C| == n && forall x :: 0 <= x < n ==> C[x] == if x in R then -1 else x
  {
    seq(n, x => if x in R then -1 else x)
  }

  /** `T` is a tree on the region `R`, every other vertex standing alone. */
  ghost predicate Grown(n: nat, T: seq<Pair>, R: set<int>)
  {
    Acyclic(n, T) && SameKernel(Labels(n, T), Region(n, R))
  }

  /** A single start vertex is a tree with no pairs. */
  lemma GrownStart(n: nat, s: int)
    requires 0 <= s < n
    ensures Grown(n, [], {s})
  {
    var C := Region(n, {s});
    forall x, y | 0 <= x < n && 0 <= y < n ensures (Iota(n)[x] == Iota(n)[y] <==> C[x] == C[y]) {
    }
  }

  /** Attaching a vertex outside the region to a vertex inside grows the tree by one pair. */
  lemma GrowStep(n: nat, T: seq<Pair>, R: set<int>, a: int, b: int)
    requires Grown(n, T, R) && 0 <= a < n && 0 <= b < n && a in R && b !in R
    ensures Grown(n, T + [(a, b)], R + {b})
  {
    var C := Region(n, R);
    AddEdge(n, T, C, a, b);
    assert Merge(C, C[b], C[a]) == Region(n, R + {b});
  }
}
