/**
 * Recursive subdivision on the character board (subdivide.cpp): a one-row or
 * one-column region is opened end to end; any other region is cut into four
 * quadrants at a random row and column from its centre half, each quadrant is
 * subdivided, and three of the four walls crossing the cut lines, one per line
 * segment, are knocked down.
 */
module LegacySubdivide {
  import opened Graphs
  import opened Trees
  import opened Sequences
  import opened MazeBase
  import RectangularMaze
  import Random

  /** The rows `top` to `bottom - 1` and the columns `left` to `right - 1` of the board. */
  datatype Box = Box(top: int, bottom: int, left: int, right: int)

  /** Vertex `x` of a board `W` cells wide lies in `b`. */
  predicate InBox(W: int, b: Box, x: int)
  {
    W >= 1 && 0 <= x && b.top <= x / W < b.bottom && b.left <= x % W < b.right
  }

  /** Every cell of `b` is a cell of `c`. */
  predicate Inside(b: Box, c: Box)
  {
    c.top <= b.top && b.bottom <= c.bottom && c.left <= b.left && b.right <= c.right
  }

  /** The rows or the columns of `b` and `c` do not overlap. */
  predicate Apart(b: Box, c: Box)
  {
    b.bottom <= c.top || c.bottom <= b.top || b.right <= c.left || c.right <= b.left
  }

  /** The number of cells of a region of `rows` by `columns`. */
  function Area(b: Box): int
  {
    (b.bottom - b.top) * (b.right - b.left)
  }

  /** The vertices of an `n`-vertex board `W` cells wide that lie in `b`. */
  ghost function Cells(W: int, b: Box, n: int): set<int>
  {
    set x | 0 <= x < n && InBox(W, b, x)
  }

  /** In the component labels `L`, no vertex of `S` shares its label with another vertex. */
  ghost predicate Fresh(L: seq<int>, S: set<int>)
  {
    forall x, y :: 0 <= x < |L| && 0 <= y < |L| && x in S && x != y ==> L[x] != L[y]
  }

  /** Vertices `x` and `y` share a label in `L'` exactly when both lie in `S` or they share one in `L`. */
  ghost predicate JoinedAt(L: seq<int>, L': seq<int>, S: set<int>, x: int, y: int)
    requires |L'| == |L| && 0 <= x < |L| && 0 <= y < |L|
  {
    L'[x] == L'[y] <==> (x in S && y in S) || L[x] == L[y]
  }

  /** The components labelled by `L'` are those of `L` with all of `S` joined into one. */
  ghost predicate Joins(L: seq<int>, L': seq<int>, S: set<int>)
  {
    |L'| == |L| && forall x, y :: 0 <= x < |L| && 0 <= y < |L| ==> JoinedAt(L, L', S, x, y)
  }

  /** `T'` extends `T` by walls of the H x W grid whose two cells lie in `b`. */
  ghost predicate Within(H: int, W: int, T: seq<Pair>, T': seq<Pair>, b: Box)
  {
    T <= T' && forall k :: |T| <= k < |T'| ==> GridPair(H, W, T'[k]) && InBox(W, b, T'[k].0) && InBox(W, b, T'[k].1)
  }

  /** The cells of a sub-region are cells of the region. */
  lemma CellsInside(W: int, b: Box, c: Box, n: int)
    requires Inside(b, c)
    ensures Cells(W, b, n) <= Cells(W, c, n)
  {
  }

  /** Regions apart from each other share no cell. */
  lemma CellsApart(W: int, b: Box, c: Box, n: int)
    requires Apart(b, c)
    ensures Cells(W, b, n) !! Cells(W, c, n)
  {
  }

  /** A region of one cell holds at most one vertex. */
  lemma CellsSingle(W: int, b: Box, n: int)
    requires b.bottom == b.top + 1 && b.right == b.left + 1
    ensures forall x, y :: x in Cells(W, b, n) && y in Cells(W, b, n) ==> x == y
  {
    forall x, y | x in Cells(W, b, n) && y in Cells(W, b, n) ensures x == y {
      assert x == W * (x / W) + x % W;
      assert y == W * (y / W) + y % W;
    }
  }

  /** Widening a one-row region of the board by one column adds exactly the vertex of the new cell. */
  lemma CellsWiden(H: int, W: int, b: Box)
    requires 0 <= b.top < H && b.bottom == b.top + 1 && 0 <= b.left < b.right < W
    ensures 0 <= VertexOf(W, (b.top, b.right)) < H * W && VertexOf(W, (b.top, b.right)) !in Cells(W, b, H * W)
    ensures Cells(W, Box(b.top, b.bottom, b.left, b.right + 1), H * W) == Cells(W, b, H * W) + {VertexOf(W, (b.top, b.right))}
  {
    var a := (b.top, b.right);
    CellVertex(H, W, a);
    forall x | 0 <= x < H * W
      ensures InBox(W, Box(b.top, b.bottom, b.left, b.right + 1), x) <==> InBox(W, b, x) || x == VertexOf(W, a)
    {
      VertexCell(H, W, x);
    }
  }

  /** Deepening a one-column region of the board by one row adds exactly the vertex of the new cell. */
  lemma CellsDeepen(H: int, W: int, b: Box)
    requires 0 <= b.left < W && b.right == b.left + 1 && 0 <= b.top < b.bottom < H
    ensures 0 <= VertexOf(W, (b.bottom, b.left)) < H * W && VertexOf(W, (b.bottom, b.left)) !in Cells(W, b, H * W)
    ensures Cells(W, Box(b.top, b.bottom + 1, b.left, b.right), H * W) == Cells(W, b, H * W) + {VertexOf(W, (b.bottom, b.left))}
  {
    var a := (b.bottom, b.left);
    CellVertex(H, W, a);
    forall x | 0 <= x < H * W
      ensures InBox(W, Box(b.top, b.bottom + 1, b.left, b.right), x) <==> InBox(W, b, x) || x == VertexOf(W, a)
    {
      VertexCell(H, W, x);
    }
  }

  /** A fresh region stays fresh once a region apart from it is joined. */
  lemma FreshAfter(L: seq<int>, L': seq<int>, S: set<int>, S': set<int>)
    requires Fresh(L, S') && Joins(L, L', S) && S !! S'
    ensures Fresh(L', S')
  {
    forall x, y | 0 <= x < |L'| && 0 <= y < |L'| && x in S' && x != y ensures L'[x] != L'[y] {
      assert JoinedAt(L, L', S, x, y);
    }
  }

  /** New walls of sub-regions, one list after the other, are new walls of the region. */
  lemma WithinChain(H: int, W: int, T: seq<Pair>, T1: seq<Pair>, T2: seq<Pair>, b1: Box, b2: Box, b: Box)
    requires Within(H, W, T, T1, b1) && Within(H, W, T1, T2, b2) && Inside(b1, b) && Inside(b2, b)
    ensures Within(H, W, T, T2, b)
  {
    forall k | |T| <= k < |T2| ensures GridPair(H, W, T2[k]) && InBox(W, b, T2[k].0) && InBox(W, b, T2[k].1) {
      if k < |T1| {
        assert T2[k] == T1[k];
      }
    }
  }

  /** A region holding at most one vertex is already joined. */
  lemma JoinsSingle(L: seq<int>, S: set<int>)
    requires forall x, y :: x in S && y in S ==> x == y
    ensures Joins(L, L, S)
  {
    forall x, y | 0 <= x < |L| && 0 <= y < |L| ensures JoinedAt(L, L, S, x, y) {
    }
  }

  /**
   * Region `S` is joined and `c`, outside it, is fresh: merging the classes of
   * `a` in `S` and of `c` merges two different classes and joins `S + {c}`.
   */
  lemma GrowKernel(L: seq<int>, L': seq<int>, S: set<int>, c: int, a: int)
    requires Joins(L, L', S) && Fresh(L, S + {c}) && c !in S
    requires 0 <= a < |L| && 0 <= c < |L| && a in S
    ensures L'[a] != L'[c] && Joins(L, Merge(L', L'[a], L'[c]), S + {c})
  {
    assert L[a] != L[c];
    assert JoinedAt(L, L', S, a, c);
    var M := Merge(L', L'[a], L'[c]);
    forall x, y | 0 <= x < |L| && 0 <= y < |L| ensures JoinedAt(L, M, S + {c}, x, y) {
      MergeKernel(L', a, c, x, y);
      assert JoinedAt(L, L', S, x, a) && JoinedAt(L, L', S, y, a);
      assert JoinedAt(L, L', S, x, c) && JoinedAt(L, L', S, y, c);
      assert JoinedAt(L, L', S, x, y);
      assert L[x] == L[a] ==> x == a;
      assert L[y] == L[a] ==> y == a;
      assert L[x] == L[c] <==> x == c;
      assert L[y] == L[c] <==> y == c;
    }
  }

  /** Adding the pair from `a` in joined `S` to fresh `c` keeps the list acyclic and joins `S + {c}`. */
  lemma JoinsGrow(n: nat, T: seq<Pair>, T': seq<Pair>, S: set<int>, c: int, a: int)
    requires Acyclic(n, T') && Joins(Labels(n, T), Labels(n, T'), S) && Fresh(Labels(n, T), S + {c}) && c !in S
    requires 0 <= a < n && 0 <= c < n && a in S
    ensures Acyclic(n, T' + [(a, c)]) && Joins(Labels(n, T), Labels(n, T' + [(a, c)]), S + {c})
  {
    var L' := Labels(n, T');
    GrowKernel(Labels(n, T), L', S, c, a);
    AddEdge(n, T', L', a, c);
    LabelsStep(n, T', (a, c));
  }

  /** The quadrant of a vertex of a region cut at row `hdiv` and column `wdiv`: 0 1 above, 2 3 below. */
  function Part(W: int, hdiv: int, wdiv: int, x: int): (p: int)
    requires W >= 1
    ensures 0 <= p < 4
    ensures (p < 2 <==> x / W < hdiv) && (p % 2 == 0 <==> x % W < wdiv)
  {
    (if x / W < hdiv then 0 else 2) + (if x % W < wdiv then 0 else 1)
  }

  /** The four quadrants of `b` cut at row `hdiv` and column `wdiv`, in the order they are subdivided. */
  function Quadrant(b: Box, hdiv: int, wdiv: int, p: int): Box
  {
    Box(if p < 2 then b.top else hdiv, if p < 2 then hdiv else b.bottom,
        if p % 2 == 0 then b.left else wdiv, if p % 2 == 0 then wdiv else b.right)
  }

  /** The quadrant of every vertex of `b` cut at row `hdiv` and column `wdiv`, and -1 for the vertices outside `b`. */
  ghost function Parts(W: int, b: Box, hdiv: int, wdiv: int, n: nat): (P: seq<int>)
    ensures |P| == n
  {
    seq(n, x => if InBox(W, b, x) then Part(W, hdiv, wdiv, x) else -1)
  }

  /** `P` gives each vertex of `S` a quadrant 0 to 3 and every other vertex -1. */
  ghost predicate Marks(P: seq<int>, S: set<int>)
  {
    forall x :: 0 <= x < |P| ==> -1 <= P[x] < 4 && (0 <= P[x] <==> x in S)
  }

  /** Vertices `x` and `y` share a label in `L'` exactly when both have quadrants of one class, or they share one in `L`. */
  ghost predicate BlockedAt(L: seq<int>, L': seq<int>, P: seq<int>, B: seq<int>, x: int, y: int)
    requires |B| == 4 && |L'| == |L| && |P| == |L| && 0 <= x < |L| && 0 <= y < |L| && -1 <= P[x] < 4 && -1 <= P[y] < 4
  {
    L'[x] == L'[y] <==> (0 <= P[x] && 0 <= P[y] && B[P[x]] == B[P[y]]) || L[x] == L[y]
  }

  /**
   * The components labelled by `L'` are those of `L` with the vertices of
   * each quadrant given by `P` joined into the class `B` gives the quadrant.
   */
  ghost predicate Blocked(L: seq<int>, L': seq<int>, P: seq<int>, B: seq<int>)
  {
    |B| == 4 && |L'| == |L| && |P| == |L| && (forall x :: 0 <= x < |P| ==> -1 <= P[x] < 4) &&
    forall x, y :: 0 <= x < |L| && 0 <= y < |L| ==> BlockedAt(L, L', P, B, x, y)
  }

  /** `Parts` marks the cells of `b`, and quadrant `p` holds exactly the vertices it gives `p`. */
  lemma PartsQuadrants(W: int, b: Box, hdiv: int, wdiv: int, n: nat)
    requires W >= 1 && b.top < hdiv < b.bottom && b.left < wdiv < b.right
    ensures Marks(Parts(W, b, hdiv, wdiv, n), Cells(W, b, n))
    ensures forall p, x :: 0 <= p < 4 && 0 <= x < n ==>
      (x in Cells(W, Quadrant(b, hdiv, wdiv, p), n) <==> Parts(W, b, hdiv, wdiv, n)[x] == p)
  {
  }

  /** After the four quadrants are joined one by one, each quadrant is a class of its own. */
  lemma FourJoined(L: seq<int>, L1: seq<int>, L2: seq<int>, L3: seq<int>, L4: seq<int>,
                   S0: set<int>, S1: set<int>, S2: set<int>, S3: set<int>, P: seq<int>)
    requires Joins(L, L1, S0) && Joins(L1, L2, S1) && Joins(L2, L3, S2) && Joins(L3, L4, S3) && |P| == |L|
    requires forall x :: 0 <= x < |P| ==>
      -1 <= P[x] < 4 && (x in S0 <==> P[x] == 0) && (x in S1 <==> P[x] == 1) && (x in S2 <==> P[x] == 2) && (x in S3 <==> P[x] == 3)
    ensures Blocked(L, L4, P, [0, 1, 2, 3])
  {
    forall x, y | 0 <= x < |L| && 0 <= y < |L| ensures BlockedAt(L, L4, P, [0, 1, 2, 3], x, y) {
      assert JoinedAt(L, L1, S0, x, y) && JoinedAt(L1, L2, S1, x, y);
      assert JoinedAt(L2, L3, S2, x, y) && JoinedAt(L3, L4, S3, x, y);
    }
  }

  /**
   * Merging the classes of `a` and `c`, in quadrants of different classes of
   * a fresh region, merges two different classes and the classes of their
   * quadrants.
   */
  lemma BlockKernel(L: seq<int>, L': seq<int>, P: seq<int>, B: seq<int>, S: set<int>, a: int, c: int)
    requires Blocked(L, L', P, B) && Fresh(L, S) && Marks(P, S)
    requires 0 <= a < |L| && 0 <= c < |L| && 0 <= P[a] && 0 <= P[c] && B[P[a]] != B[P[c]]
    ensures L'[a] != L'[c] && Blocked(L, Merge(L', L'[a], L'[c]), P, Merge(B, B[P[a]], B[P[c]]))
  {
    assert a in S && c in S && L[a] != L[c];
    assert BlockedAt(L, L', P, B, a, c);
    var B', M := Merge(B, B[P[a]], B[P[c]]), Merge(L', L'[a], L'[c]);
    forall x, y | 0 <= x < |L| && 0 <= y < |L| ensures BlockedAt(L, M, P, B', x, y) {
      MergeKernel(L', a, c, x, y);
      if 0 <= P[x] && 0 <= P[y] {
        MergeKernel(B, P[a], P[c], P[x], P[y]);
      }
      assert BlockedAt(L, L', P, B, x, a) && BlockedAt(L, L', P, B, y, a);
      assert BlockedAt(L, L', P, B, x, c) && BlockedAt(L, L', P, B, y, c);
      assert BlockedAt(L, L', P, B, x, y);
      assert L[x] == L[a] ==> x == a;
      assert L[y] == L[a] ==> y == a;
      assert L[x] == L[c] ==> x == c;
      assert L[y] == L[c] ==> y == c;
    }
  }

  /** Adding a wall between quadrants of different classes keeps the list acyclic and merges their classes. */
  lemma BlockEdge(n: nat, T: seq<Pair>, T': seq<Pair>, P: seq<int>, B: seq<int>, S: set<int>, e: Pair)
    requires Acyclic(n, T') && Blocked(Labels(n, T), Labels(n, T'), P, B) && Fresh(Labels(n, T), S) && Marks(P, S)
    requires 0 <= e.0 < n && 0 <= e.1 < n && 0 <= P[e.0] && 0 <= P[e.1] && B[P[e.0]] != B[P[e.1]]
    ensures Acyclic(n, T' + [e]) && Blocked(Labels(n, T), Labels(n, T' + [e]), P, Merge(B, B[P[e.0]], B[P[e.1]]))
  {
    var L' := Labels(n, T');
    BlockKernel(Labels(n, T), L', P, B, S, e.0, e.1);
    AddEdge(n, T', L', e.0, e.1);
    LabelsStep(n, T', e);
  }

  /** Once the four quadrants share one class, the whole region is joined. */
  lemma BlocksDone(L: seq<int>, L': seq<int>, P: seq<int>, B: seq<int>, S: set<int>)
    requires Blocked(L, L', P, B) && Marks(P, S) && B[0] == B[1] == B[2] == B[3]
    ensures Joins(L, L', S)
  {
    forall x, y | 0 <= x < |L| && 0 <= y < |L| ensures JoinedAt(L, L', S, x, y) {
      assert BlockedAt(L, L', P, B, x, y);
    }
  }

  /** The quadrants joined by the candidate walls: top segment, bottom segment, left segment, right segment. */
  const Quads: seq<Pair> := [(0, 1), (2, 3), (0, 2), (1, 3)]

  /** `swap(s[3], s[k])` on a four-element list. */
  function Swapped<X>(s: seq<X>, k: int): (r: seq<X>)
    requires |s| == 4 && 0 <= k < 4
    ensures |r| == 4 && multiset(r) == multiset(s)
    ensures r[3] == s[k] && r[k] == s[3] && forall j :: 0 <= j < 4 && j != k && j != 3 ==> r[j] == s[j]
  {
    s[3 := s[k]][k := s[3]]
  }

  /** `Merge` on the four quadrant classes, written out element by element. */
  function Relabel(B: seq<int>, x: int, y: int): seq<int>
    requires |B| == 4
  {
    [if B[0] == x then y else B[0], if B[1] == x then y else B[1],
     if B[2] == x then y else B[2], if B[3] == x then y else B[3]]
  }

  /** Joining two quadrants is merging their classes. */
  lemma JoinMerge(B: seq<int>, p: Pair)
    requires |B| == 4 && 0 <= p.0 < 4 && 0 <= p.1 < 4
    ensures Join(B, p) == Merge(B, B[p.0], B[p.1])
  {
  }

  /** Merge the classes of quadrants `p.0` and `p.1`. */
  function Join(B: seq<int>, p: Pair): (r: seq<int>)
    requires |B| == 4
    ensures |r| == 4
  {
    if 0 <= p.0 < 4 && 0 <= p.1 < 4 then Relabel(B, B[p.0], B[p.1]) else B
  }

  /** The classes of the four quadrants after merging along the first `i` pairs of `q`. */
  function Fold(B: seq<int>, q: seq<Pair>, i: nat): (r: seq<int>)
    requires |B| == 4 && i <= |q|
    ensures |r| == 4
    decreases i
  {
    if i == 0 then B else Join(Fold(B, q, i - 1), q[i - 1])
  }

  /** Two different classes of quadrants at each of the first three pairs of `q`, and a single class after them. */
  ghost predicate Chains(q: seq<Pair>)
    requires |q| == 4
  {
    Differ(q, 0) && Differ(q, 1) && Differ(q, 2) &&
    var F := Fold([0, 1, 2, 3], q, 3); F[0] == F[1] == F[2] == F[3]
  }

  /** Pair `i` of `q` joins quadrants of two different classes once the pairs before it are merged. */
  ghost predicate Differ(q: seq<Pair>, i: nat)
    requires i < |q|
  {
    var F := Fold([0, 1, 2, 3], q, i); 0 <= q[i].0 < 4 && 0 <= q[i].1 < 4 && F[q[i].0] != F[q[i].1]
  }

  /**
   * Whichever candidate is set aside, the other three in their order each join
   * two different classes of quadrants, and together they leave a single class.
   */
  lemma CycleMinusOne(k: int)
    requires 0 <= k < 4
    ensures Chains(Swapped(Quads, k))
  {
    if k == 0 {
      SetAsideTop();
    } else if k == 1 {
      SetAsideBottom();
    } else if k == 2 {
      SetAsideLeft();
    } else {
      SetAsideRight();
    }
  }

  /** The top segment set aside: the bottom, left and right walls join the quadrants one class after another. */
  lemma SetAsideTop()
    ensures Chains(Swapped(Quads, 0))
  {
    var q := Swapped(Quads, 0);
    assert q == [(1, 3), (2, 3), (0, 2), (0, 1)];
    FoldsTo(q, [0, 3, 2, 3], [0, 3, 3, 3], [3, 3, 3, 3]);
  }

  /** The bottom segment set aside: the top, right and left walls join the quadrants one class after another. */
  lemma SetAsideBottom()
    ensures Chains(Swapped(Quads, 1))
  {
    var q := Swapped(Quads, 1);
    assert q == [(0, 1), (1, 3), (0, 2), (2, 3)];
    FoldsTo(q, [1, 1, 2, 3], [3, 3, 2, 3], [2, 2, 2, 2]);
  }

  /** The left segment set aside: the top, bottom and right walls join the quadrants one class after another. */
  lemma SetAsideLeft()
    ensures Chains(Swapped(Quads, 2))
  {
    var q := Swapped(Quads, 2);
    assert q == [(0, 1), (2, 3), (1, 3), (0, 2)];
    FoldsTo(q, [1, 1, 2, 3], [1, 1, 3, 3], [3, 3, 3, 3]);
  }

  /** The right segment set aside: the top, bottom and left walls join the quadrants one class after another. */
  lemma SetAsideRight()
    ensures Chains(Swapped(Quads, 3))
  {
    var q := Swapped(Quads, 3);
    assert q == Quads;
    FoldsTo(q, [1, 1, 2, 3], [1, 1, 3, 3], [3, 3, 3, 3]);
  }

  /** The folds of the first three pairs of `q` are `F1`, `F2` and `F3`, each pair joining two classes and the last leaving one. */
  lemma FoldsTo(q: seq<Pair>, F1: seq<int>, F2: seq<int>, F3: seq<int>)
    requires |q| == 4 && forall j :: 0 <= j < 4 ==> 0 <= q[j].0 < 4 && 0 <= q[j].1 < 4
    requires F1 == Join([0, 1, 2, 3], q[0]) && F2 == Join(F1, q[1]) && F3 == Join(F2, q[2])
    requires q[0].0 != q[0].1 && F1[q[1].0] != F1[q[1].1] && F2[q[2].0] != F2[q[2].1]
    requires F3[0] == F3[1] == F3[2] == F3[3]
    ensures Chains(q)
  {
    assert Fold([0, 1, 2, 3], q, 1) == F1;
    assert Fold([0, 1, 2, 3], q, 2) == F2;
    assert Fold([0, 1, 2, 3], q, 3) == F3;
  }

  /** Wall `e` of the grid crosses a cut line of `b` between quadrants `p.0` and `p.1`. */
  ghost predicate Candidate(H: int, W: int, b: Box, hdiv: int, wdiv: int, e: Pair, p: Pair)
  {
    W >= 1 && GridPair(H, W, e) && InBox(W, b, e.0) && InBox(W, b, e.1) &&
    Part(W, hdiv, wdiv, e.0) == p.0 && Part(W, hdiv, wdiv, e.1) == p.1
  }

  /** The quadrant of a cell of a region cut at row `hdiv` and column `wdiv`. */
  function CellPart(hdiv: int, wdiv: int, a: Position): int
  {
    (if a.0 < hdiv then 0 else 2) + (if a.1 < wdiv then 0 else 1)
  }

  /** The wall between two neighbouring cells of `b` crosses between the quadrants of the two cells. */
  lemma CutWall(H: int, W: int, b: Box, hdiv: int, wdiv: int, a: Position, c: Position)
    requires 0 <= b.top < b.bottom <= H && 0 <= b.left < b.right <= W && Neighbours(a, c)
    requires b.top <= a.0 < b.bottom && b.left <= a.1 < b.right && b.top <= c.0 < b.bottom && b.left <= c.1 < b.right
    ensures Candidate(H, W, b, hdiv, wdiv, (VertexOf(W, a), VertexOf(W, c)), (CellPart(hdiv, wdiv, a), CellPart(hdiv, wdiv, c)))
  {
    CellVertex(H, W, a);
    CellVertex(H, W, c);
  }

  /** The wall in row `r` across column line `wdiv`: above the row cut between quadrants 0 1, below it between 2 3. */
  lemma ColumnCut(H: int, W: int, b: Box, hdiv: int, wdiv: int, r: int)
    requires 0 <= b.top < hdiv < b.bottom <= H && 0 <= b.left < wdiv < b.right <= W && b.top <= r < b.bottom
    ensures Candidate(H, W, b, hdiv, wdiv, (r * W + wdiv - 1, r * W + wdiv), if r < hdiv then (0, 1) else (2, 3))
  {
    CutWall(H, W, b, hdiv, wdiv, (r, wdiv - 1), (r, wdiv));
  }

  /** The wall in column `c` across row line `hdiv`: left of the column cut between quadrants 0 2, right of it between 1 3. */
  lemma RowCut(H: int, W: int, b: Box, hdiv: int, wdiv: int, c: int)
    requires 0 <= b.top < hdiv < b.bottom <= H && 0 <= b.left < wdiv < b.right <= W && b.left <= c < b.right
    ensures Candidate(H, W, b, hdiv, wdiv, (hdiv * W + c - W, hdiv * W + c), if c < wdiv then (0, 2) else (1, 3))
  {
    CutWall(H, W, b, hdiv, wdiv, (hdiv - 1, c), (hdiv, c));
    assert VertexOf(W, (hdiv - 1, c)) == hdiv * W + c - W by {
      assert (hdiv - 1) * W == hdiv * W - W;
    }
  }

  /** The cut rows or columns, drawn from the centre half, lie strictly inside a span of at least two. */
  lemma CentreHalf(lo: int, hi: int)
    requires 0 <= lo && hi - lo >= 2
    ensures var lop := (lo * 3 + hi) / 4; var hip := lo + hi - lop;
      hip - lop - 1 >= 1 && lo <= lop && hip <= hi
  {
  }

  /** A region one row high or one column wide has as many cells as it is long. */
  lemma ThinArea(b: Box)
    ensures b.bottom == b.top + 1 ==> Area(b) == b.right - b.left
    ensures b.right == b.left + 1 ==> Area(b) == b.bottom - b.top
  {
  }

  /** The area of a region is the sum of the areas of its quadrants. */
  lemma QuadrantAreas(b: Box, hdiv: int, wdiv: int)
    ensures Area(b) == Area(Quadrant(b, hdiv, wdiv, 0)) + Area(Quadrant(b, hdiv, wdiv, 1)) +
      Area(Quadrant(b, hdiv, wdiv, 2)) + Area(Quadrant(b, hdiv, wdiv, 3))
  {
    var a, c := hdiv - b.top, b.bottom - hdiv;
    var d, f := wdiv - b.left, b.right - wdiv;
    assert (a + c) * (d + f) == a * d + a * f + c * d + c * f;
  }

  /** A one-row region: the row from `b.left` to the wall behind `i` is extended by one cell. */
  lemma RowStep(H: int, W: int, T: seq<Pair>, T': seq<Pair>, b: Box, i: int)
    requires 0 <= b.top < H && b.bottom == b.top + 1 && 0 <= b.left <= i && i + 1 < b.right <= W
    requires Fresh(Labels(H * W, T), Cells(W, b, H * W)) && Subdivided(H, W, T, T', Box(b.top, b.bottom, b.left, i + 1))
    ensures Opening(W, (VertexOf(W, (b.top, i)), VertexOf(W, (b.top, i + 1)))) == Between((b.top, i), (b.top, i + 1))
    ensures Subdivided(H, W, T, T' + [(VertexOf(W, (b.top, i)), VertexOf(W, (b.top, i + 1)))], Box(b.top, b.bottom, b.left, i + 2))
  {
    var a, c := VertexOf(W, (b.top, i)), VertexOf(W, (b.top, i + 1));
    var before, after := Box(b.top, b.bottom, b.left, i + 1), Box(b.top, b.bottom, b.left, i + 2);
    CellVertex(H, W, (b.top, i));
    CellVertex(H, W, (b.top, i + 1));
    CellsAdjacent(H, W, (b.top, i), (b.top, i + 1));
    CellsWiden(H, W, before);
    CellsInside(W, after, b, H * W);
    assert a in Cells(W, before, H * W);
    JoinsGrow(H * W, T, T', Cells(W, before, H * W), c, a);
    WithinAdd(H, W, T, T', before, after, (a, c));
  }

  /** A one-column region: the column from `b.top` to the wall below `i` is extended by one cell. */
  lemma ColumnStep(H: int, W: int, T: seq<Pair>, T': seq<Pair>, b: Box, i: int)
    requires 0 <= b.left < W && b.right == b.left + 1 && 0 <= b.top <= i && i + 1 < b.bottom <= H
    requires Fresh(Labels(H * W, T), Cells(W, b, H * W)) && Subdivided(H, W, T, T', Box(b.top, i + 1, b.left, b.right))
    ensures Opening(W, (VertexOf(W, (i, b.left)), VertexOf(W, (i + 1, b.left)))) == Between((i, b.left), (i + 1, b.left))
    ensures Subdivided(H, W, T, T' + [(VertexOf(W, (i, b.left)), VertexOf(W, (i + 1, b.left)))], Box(b.top, i + 2, b.left, b.right))
  {
    var a, c := VertexOf(W, (i, b.left)), VertexOf(W, (i + 1, b.left));
    var before, after := Box(b.top, i + 1, b.left, b.right), Box(b.top, i + 2, b.left, b.right);
    CellVertex(H, W, (i, b.left));
    CellVertex(H, W, (i + 1, b.left));
    CellsAdjacent(H, W, (i, b.left), (i + 1, b.left));
    CellsDeepen(H, W, before);
    CellsInside(W, after, b, H * W);
    assert a in Cells(W, before, H * W);
    JoinsGrow(H * W, T, T', Cells(W, before, H * W), c, a);
    WithinAdd(H, W, T, T', before, after, (a, c));
  }

  /** A wall of the grid inside region `b'` appended to new walls of a sub-region `b` is a new wall of `b'`. */
  lemma WithinAdd(H: int, W: int, T: seq<Pair>, T': seq<Pair>, b: Box, b': Box, e: Pair)
    requires Within(H, W, T, T', b) && Inside(b, b') && GridPair(H, W, e) && InBox(W, b', e.0) && InBox(W, b', e.1)
    ensures Within(H, W, T, T' + [e], b')
  {
  }

  /** A candidate wall joins two vertices of the quadrants it names. */
  lemma CandidateParts(H: int, W: int, b: Box, hdiv: int, wdiv: int, e: Pair, p: Pair)
    requires Candidate(H, W, b, hdiv, wdiv, e, p)
    ensures 0 <= e.0 < H * W && 0 <= e.1 < H * W
    ensures Parts(W, b, hdiv, wdiv, H * W)[e.0] == p.0 && Parts(W, b, hdiv, wdiv, H * W)[e.1] == p.1
  {
  }

  /**
   * The walls knocked down join region `b` of the H x W board right after `T`:
   * the list stays acyclic, every new pair is a wall of the grid inside `b`,
   * and the components are those of `T` with `b` joined into one.
   */
  ghost predicate Subdivided(H: int, W: int, T: seq<Pair>, T': seq<Pair>, b: Box)
  {
    0 <= H * W && Acyclic(H * W, T') && Within(H, W, T, T', b) &&
    Joins(Labels(H * W, T), Labels(H * W, T'), Cells(W, b, H * W))
  }

  /** The first base case of `subdivision_algorithm`: a single row, all its inner walls knocked down left to right. */
  method SubdivideRow(H: int, W: int, b: Box, maze: array2<char>, ghost T: seq<Pair>) returns (ghost T': seq<Pair>)
    requires 0 <= b.top < H && b.bottom == b.top + 1 && 0 <= b.left < b.right <= W
    requires Shows(maze, H, W, T) && Acyclic(H * W, T) && Fresh(Labels(H * W, T), Cells(W, b, H * W))
    modifies maze
    ensures Shows(maze, H, W, T') && |T'| == |T| + Area(b) - 1 && Subdivided(H, W, T, T', b)
  {
    ThinStart(H, W, T, Box(b.top, b.bottom, b.left, b.left + 1));
    T' := T;
    var i := b.left;
    while i < b.right - 1
      invariant b.left <= i <= b.right - 1
      invariant Shows(maze, H, W, T') && |T'| == |T| + i - b.left
      invariant Subdivided(H, W, T, T', Box(b.top, b.bottom, b.left, i + 1))
    {
      ghost var next := Box(b.top, b.bottom, b.left, i + 2);
      T' := OpenRight(H, W, b, i, maze, T, T');
      i := i + 1;
      assert Box(b.top, b.bottom, b.left, i + 1) == next;
    }
    ThinDone(H, W, T, T', b, Box(b.top, b.bottom, b.left, i + 1));
  }

  /** One pass of the row loop of `subdivision_algorithm`: the wall right of cell `(b.top, i)` is knocked down. */
  method OpenRight(H: int, W: int, b: Box, i: int, maze: array2<char>, ghost T: seq<Pair>, ghost T': seq<Pair>)
    returns (ghost T'': seq<Pair>)
    requires 0 <= b.top < H && b.bottom == b.top + 1 && 0 <= b.left <= i && i + 1 < b.right <= W
    requires Shows(maze, H, W, T') && Fresh(Labels(H * W, T), Cells(W, b, H * W))
    requires Subdivided(H, W, T, T', Box(b.top, b.bottom, b.left, i + 1))
    modifies maze
    ensures T'' == T' + [(VertexOf(W, (b.top, i)), VertexOf(W, (b.top, i + 1)))]
    ensures Shows(maze, H, W, T'') && |T''| == |T'| + 1 && Subdivided(H, W, T, T'', Box(b.top, b.bottom, b.left, i + 2))
  {
    ghost var e := (VertexOf(W, (b.top, i)), VertexOf(W, (b.top, i + 1)));
    RowStep(H, W, T, T', b, i);
    RemoveEdge(b.top, i, b.top, i + 1, maze, H, W, T', e);
    T'' := T' + [e];
  }

  /** The second base case of `subdivision_algorithm`: a single column, all its inner walls knocked down top to bottom. */
  method SubdivideColumn(H: int, W: int, b: Box, maze: array2<char>, ghost T: seq<Pair>) returns (ghost T': seq<Pair>)
    requires 0 <= b.left < W && b.right == b.left + 1 && 0 <= b.top < b.bottom <= H
    requires Shows(maze, H, W, T) && Acyclic(H * W, T) && Fresh(Labels(H * W, T), Cells(W, b, H * W))
    modifies maze
    ensures Shows(maze, H, W, T') && |T'| == |T| + Area(b) - 1 && Subdivided(H, W, T, T', b)
  {
    ThinStart(H, W, T, Box(b.top, b.top + 1, b.left, b.right));
    T' := T;
    var i := b.top;
    while i < b.bottom - 1
      invariant b.top <= i <= b.bottom - 1
      invariant Shows(maze, H, W, T') && |T'| == |T| + i - b.top
      invariant Subdivided(H, W, T, T', Box(b.top, i + 1, b.left, b.right))
    {
      ghost var next := Box(b.top, i + 2, b.left, b.right);
      T' := OpenBelow(H, W, b, i, maze, T, T');
      i := i + 1;
      assert Box(b.top, i + 1, b.left, b.right) == next;
    }
    ThinDone(H, W, T, T', b, Box(b.top, i + 1, b.left, b.right));
  }

  /** When a loop of a base case has run to the end of a one-row or one-column region, the region is subdivided by `Area - 1` walls. */
  lemma ThinDone(H: int, W: int, T: seq<Pair>, T': seq<Pair>, b: Box, b': Box)
    requires b' == Box(b.top, b.bottom, b.left, b.right)
    requires b.bottom == b.top + 1 || b.right == b.left + 1
    requires |T'| == |T| + (b.bottom - b.top) + (b.right - b.left) - 2 && Subdivided(H, W, T, T', b')
    ensures |T'| == |T| + Area(b) - 1 && Subdivided(H, W, T, T', b)
  {
    ThinArea(b);
  }

  /** With no wall knocked down yet, a region of one cell is already subdivided. */
  lemma ThinStart(H: int, W: int, T: seq<Pair>, b: Box)
    requires 0 <= H * W && Acyclic(H * W, T) && b.bottom == b.top + 1 && b.right == b.left + 1
    ensures Subdivided(H, W, T, T, b)
  {
    CellsSingle(W, b, H * W);
    JoinsSingle(Labels(H * W, T), Cells(W, b, H * W));
  }

  /** One pass of the column loop of `subdivision_algorithm`: the wall below cell `(i, b.left)` is knocked down. */
  method OpenBelow(H: int, W: int, b: Box, i: int, maze: array2<char>, ghost T: seq<Pair>, ghost T': seq<Pair>)
    returns (ghost T'': seq<Pair>)
    requires 0 <= b.left < W && b.right == b.left + 1 && 0 <= b.top <= i && i + 1 < b.bottom <= H
    requires Shows(maze, H, W, T') && Fresh(Labels(H * W, T), Cells(W, b, H * W))
    requires Subdivided(H, W, T, T', Box(b.top, i + 1, b.left, b.right))
    modifies maze
    ensures T'' == T' + [(VertexOf(W, (i, b.left)), VertexOf(W, (i + 1, b.left)))]
    ensures Shows(maze, H, W, T'') && |T''| == |T'| + 1 && Subdivided(H, W, T, T'', Box(b.top, i + 2, b.left, b.right))
  {
    ghost var e := (VertexOf(W, (i, b.left)), VertexOf(W, (i + 1, b.left)));
    ColumnStep(H, W, T, T', b, i);
    RemoveEdge(i, b.left, i + 1, b.left, maze, H, W, T', e);
    T'' := T' + [e];
  }

  /**
   * The last part of `subdivision_algorithm`: one random wall on each of the
   * four segments of the cut lines, one of the four set aside at random, and
   * the other three knocked down in order.
   */
  method ConnectQuadrants(H: int, W: int, b: Box, hdiv: int, wdiv: int, maze: array2<char>,
                          generator: Random.Generator, ghost T: seq<Pair>, ghost T4: seq<Pair>)
    returns (ghost T': seq<Pair>)
    requires 0 <= b.top < hdiv < b.bottom <= H && 0 <= b.left < wdiv < b.right <= W
    requires Shows(maze, H, W, T4) && Acyclic(H * W, T4) && Fresh(Labels(H * W, T), Cells(W, b, H * W))
    requires Blocked(Labels(H * W, T), Labels(H * W, T4), Parts(W, b, hdiv, wdiv, H * W), [0, 1, 2, 3])
    modifies maze, generator
    ensures Shows(maze, H, W, T') && |T'| == |T4| + 3 && Acyclic(H * W, T')
    ensures Within(H, W, T4, T', b) && Joins(Labels(H * W, T), Labels(H * W, T'), Cells(W, b, H * W))
  {
    var edges;
    ghost var quads;
    edges, quads := DrawCandidates(H, W, b, hdiv, wdiv, generator);
    ghost var P, S := Parts(W, b, hdiv, wdiv, H * W), Cells(W, b, H * W);
    PartsQuadrants(W, b, hdiv, wdiv, H * W);
    ghost var B := [0, 1, 2, 3];
    T' := T4;
    for i := 0 to 3
      invariant forall j :: 0 <= j < 4 ==> Candidate(H, W, b, hdiv, wdiv, edges[j], quads[j])
      invariant B == Fold([0, 1, 2, 3], quads, i)
      invariant Shows(maze, H, W, T') && |T'| == |T4| + i && Acyclic(H * W, T')
      invariant Within(H, W, T4, T', b) && Blocked(Labels(H * W, T), Labels(H * W, T'), P, B)
    {
      var u1, v1 := edges[i].0 / W, edges[i].0 % W;
      var u2, v2 := edges[i].1 / W, edges[i].1 % W;
      ConnectStep(H, W, b, hdiv, wdiv, T, T4, T', edges[i], quads, B, i);
      VertexCell(H, W, edges[i].0);
      VertexCell(H, W, edges[i].1);
      RemoveEdge(u1, v1, u2, v2, maze, H, W, T', edges[i]);
      B := Join(B, quads[i]);
      T' := T' + [edges[i]];
    }
    BlocksDone(Labels(H * W, T), Labels(H * W, T'), P, B, S);
  }

  /**
   * The four candidate walls with one of them, drawn at random, swapped to the
   * back: the first three join the four quadrants into one class.
   */
  method DrawCandidates(H: int, W: int, b: Box, hdiv: int, wdiv: int, generator: Random.Generator)
    returns (edges: seq<Pair>, ghost quads: seq<Pair>)
    requires 0 <= b.top < hdiv < b.bottom <= H && 0 <= b.left < wdiv < b.right <= W
    modifies generator
    ensures |edges| == 4 && |quads| == 4 && Chains(quads)
    ensures forall j :: 0 <= j < 4 ==> Candidate(H, W, b, hdiv, wdiv, edges[j], quads[j])
  {
    edges := CandidateWalls(H, W, b, hdiv, wdiv, generator);
    var k := generator.Below(4);
    edges := Swapped(edges, k);
    quads := Swapped(Quads, k);
    CycleMinusOne(k);
  }

  /** One pass of the last loop of `subdivision_algorithm`: candidate `i` opens a wall between quadrants of two classes. */
  lemma ConnectStep(H: int, W: int, b: Box, hdiv: int, wdiv: int, T: seq<Pair>, T4: seq<Pair>, T': seq<Pair>,
                    e: Pair, quads: seq<Pair>, B: seq<int>, i: int)
    requires 0 <= b.top < hdiv < b.bottom <= H && 0 <= b.left < wdiv < b.right <= W
    requires |quads| == 4 && Chains(quads) && 0 <= i < 3 && B == Fold([0, 1, 2, 3], quads, i)
    requires Candidate(H, W, b, hdiv, wdiv, e, quads[i])
    requires Acyclic(H * W, T') && Within(H, W, T4, T', b) && Fresh(Labels(H * W, T), Cells(W, b, H * W))
    requires Blocked(Labels(H * W, T), Labels(H * W, T'), Parts(W, b, hdiv, wdiv, H * W), B)
    ensures Acyclic(H * W, T' + [e]) && Within(H, W, T4, T' + [e], b)
    ensures Join(B, quads[i]) == Fold([0, 1, 2, 3], quads, i + 1)
    ensures Blocked(Labels(H * W, T), Labels(H * W, T' + [e]), Parts(W, b, hdiv, wdiv, H * W), Join(B, quads[i]))
  {
    var P, S := Parts(W, b, hdiv, wdiv, H * W), Cells(W, b, H * W);
    PartsQuadrants(W, b, hdiv, wdiv, H * W);
    CandidateParts(H, W, b, hdiv, wdiv, e, quads[i]);
    VertexCell(H, W, e.0);
    VertexCell(H, W, e.1);
    assert Differ(quads, i) by {
      if i == 0 {
      } else if i == 1 {
      } else {
      }
    }
    BlockEdge(H * W, T, T', P, B, S, e);
    JoinMerge(B, quads[i]);
  }

  /**
   * The four candidate walls of `subdivision_algorithm`, drawn in order: a
   * random row of the top segment and of the bottom segment of the column
   * line, then a random column of the left and of the right segment of the
   * row line.
   */
  method CandidateWalls(H: int, W: int, b: Box, hdiv: int, wdiv: int, generator: Random.Generator)
    returns (edges: seq<Pair>)
    requires 0 <= b.top < hdiv < b.bottom <= H && 0 <= b.left < wdiv < b.right <= W
    modifies generator
    ensures |edges| == 4 && forall j :: 0 <= j < 4 ==> Candidate(H, W, b, hdiv, wdiv, edges[j], Quads[j])
  {
    edges := [];
    var r := generator.Below(hdiv - b.top);
    r := r + b.top;
    ColumnCut(H, W, b, hdiv, wdiv, r);
    edges := edges + [(r * W + wdiv - 1, r * W + wdiv)];
    r := generator.Below(b.bottom - hdiv);
    r := r + hdiv;
    ColumnCut(H, W, b, hdiv, wdiv, r);
    edges := edges + [(r * W + wdiv - 1, r * W + wdiv)];
    r := generator.Below(wdiv - b.left);
    r := r + b.left;
    RowCut(H, W, b, hdiv, wdiv, r);
    edges := edges + [(hdiv * W + r - W, hdiv * W + r)];
    r := generator.Below(b.right - wdiv);
    r := r + wdiv;
    RowCut(H, W, b, hdiv, wdiv, r);
    edges := edges + [(hdiv * W + r - W, hdiv * W + r)];
  }

  /**
   * `subdivision_algorithm` on the region `b` of the H x W board: the walls it
   * knocks down, appended to `T`, join the region into one tree of
   * `Area(b) - 1` walls of the grid inside it, leaving the rest of the
   * forest as it was.
   */
  method SubdivisionAlgorithm(b: Box, H: int, W: int, maze: array2<char>, generator: Random.Generator,
                              ghost T: seq<Pair>)
    returns (ghost T': seq<Pair>)
    requires 0 <= b.top < b.bottom <= H && 0 <= b.left < b.right <= W
    requires Shows(maze, H, W, T) && Acyclic(H * W, T) && Fresh(Labels(H * W, T), Cells(W, b, H * W))
    modifies maze, generator
    ensures Shows(maze, H, W, T') && |T'| == |T| + Area(b) - 1 && Subdivided(H, W, T, T', b)
    decreases b.bottom - b.top + b.right - b.left, 1
  {
    if b.bottom - b.top == 1 {
      T' := SubdivideRow(H, W, b, maze, T);
      return;
    } else if b.right - b.left == 1 {
      T' := SubdivideColumn(H, W, b, maze, T);
      return;
    }
    CentreHalf(b.top, b.bottom);
    CentreHalf(b.left, b.right);
    var h1p := (b.top * 3 + b.bottom) / 4;
    var h2p := b.top + b.bottom - h1p;
    var hdiv := generator.Below(h2p - h1p - 1);
    hdiv := hdiv + h1p + 1;
    var w1p := (b.left * 3 + b.right) / 4;
    var w2p := b.left + b.right - w1p;
    var wdiv := generator.Below(w2p - w1p - 1);
    wdiv := wdiv + w1p + 1;

    ghost var T4 := SubdivideQuadrants(b, hdiv, wdiv, H, W, maze, generator, T);
    T' := ConnectQuadrants(H, W, b, hdiv, wdiv, maze, generator, T, T4);
    WithinChain(H, W, T, T4, T', b, b, b);
    QuadrantAreas(b, hdiv, wdiv);
  }

  /** The four recursive calls of `subdivision_algorithm`, quadrant by quadrant, each quadrant a class of its own after them. */
  method SubdivideQuadrants(b: Box, hdiv: int, wdiv: int, H: int, W: int, maze: array2<char>,
                            generator: Random.Generator, ghost T: seq<Pair>)
    returns (ghost T4: seq<Pair>)
    requires 0 <= b.top < hdiv < b.bottom <= H && 0 <= b.left < wdiv < b.right <= W
    requires Shows(maze, H, W, T) && Acyclic(H * W, T) && Fresh(Labels(H * W, T), Cells(W, b, H * W))
    modifies maze, generator
    ensures Shows(maze, H, W, T4) && Acyclic(H * W, T4) && Within(H, W, T, T4, b)
    ensures |T4| == |T| + Area(Quadrant(b, hdiv, wdiv, 0)) + Area(Quadrant(b, hdiv, wdiv, 1)) +
      Area(Quadrant(b, hdiv, wdiv, 2)) + Area(Quadrant(b, hdiv, wdiv, 3)) - 4
    ensures Blocked(Labels(H * W, T), Labels(H * W, T4), Parts(W, b, hdiv, wdiv, H * W), [0, 1, 2, 3])
    decreases b.bottom - b.top + b.right - b.left, 0
  {
    var q0, q1 := Quadrant(b, hdiv, wdiv, 0), Quadrant(b, hdiv, wdiv, 1);
    var q2, q3 := Quadrant(b, hdiv, wdiv, 2), Quadrant(b, hdiv, wdiv, 3);
    ghost var S := Cells(W, b, H * W);
    ghost var S0, S1, S2, S3 := Cells(W, q0, H * W), Cells(W, q1, H * W), Cells(W, q2, H * W), Cells(W, q3, H * W);
    ghost var L := Labels(H * W, T);
    QuadrantCells(W, b, hdiv, wdiv, H * W);
    ghost var T1 := SubdivisionAlgorithm(q0, H, W, maze, generator, T);
    ghost var L1 := Labels(H * W, T1);
    FreshAfter(L, L1, S0, S1);
    FreshAfter(L, L1, S0, S2);
    FreshAfter(L, L1, S0, S3);
    ghost var T2 := SubdivisionAlgorithm(q1, H, W, maze, generator, T1);
    ghost var L2 := Labels(H * W, T2);
    FreshAfter(L1, L2, S1, S2);
    FreshAfter(L1, L2, S1, S3);
    ghost var T3 := SubdivisionAlgorithm(q2, H, W, maze, generator, T2);
    ghost var L3 := Labels(H * W, T3);
    FreshAfter(L2, L3, S2, S3);
    T4 := SubdivisionAlgorithm(q3, H, W, maze, generator, T3);
    PartsQuadrants(W, b, hdiv, wdiv, H * W);
    FourJoined(L, L1, L2, L3, Labels(H * W, T4), S0, S1, S2, S3, Parts(W, b, hdiv, wdiv, H * W));
    WithinChain(H, W, T, T1, T2, q0, q1, b);
    WithinChain(H, W, T, T2, T3, b, q2, b);
    WithinChain(H, W, T, T3, T4, b, q3, b);
  }

  /** The four quadrants lie in the region, apart from each other, and are fresh when the region is. */
  lemma QuadrantCells(W: int, b: Box, hdiv: int, wdiv: int, n: int)
    requires b.top < hdiv < b.bottom && b.left < wdiv < b.right
    ensures forall p :: 0 <= p < 4 ==> Inside(Quadrant(b, hdiv, wdiv, p), b) && Cells(W, Quadrant(b, hdiv, wdiv, p), n) <= Cells(W, b, n)
    ensures forall p, q :: 0 <= p < q < 4 ==> Cells(W, Quadrant(b, hdiv, wdiv, p), n) !! Cells(W, Quadrant(b, hdiv, wdiv, q), n)
  {
  }

  /**
   * `subdivision_createmaze`: code 1 when `initmaze` refuses the size, the
   * board left as it was; otherwise code 0 and a fresh board whose
   * knocked-down walls form a spanning tree of the H x W grid.
   */
  method SubdivisionCreateMaze(H: int, W: int, maze: array2<char>, generator: Random.Generator)
    returns (ret: int, board: array2<char>, ghost T: seq<Pair>)
    modifies generator
    ensures ret == 0 || ret == 1
    ensures ret == 1 <==> H <= 0 || H > 1000 || W <= 0 || W > 1000
    ensures ret == 1 ==> board == maze
    ensures ret == 0 ==> fresh(board) && Shows(board, H, W, T)
    ensures ret == 0 ==> IsSpanningTree(H * W, RectangularMaze.Layout(W, H), T)
  {
    var err;
    err, board := InitMaze(H, W, maze);
    if err != 0 {
      return 1, board, [];
    }
    var whole := Box(0, H, 0, W);
    FreshStart(H, W, whole);
    T := SubdivisionAlgorithm(whole, H, W, board, generator, []);
    SpanningOutcome(H, W, T);
    ret := 0;
  }

  /** Before any pair, every vertex is a component of its own. */
  lemma FreshStart(H: int, W: int, b: Box)
    requires H >= 1 && W >= 1
    ensures Acyclic(H * W, []) && Fresh(Labels(H * W, []), Cells(W, b, H * W))
  {
  }

  /** Walls of the grid that join the whole board, `H * W - 1` of them, are a spanning tree. */
  lemma SpanningOutcome(H: int, W: int, T: seq<Pair>)
    requires H >= 1 && W >= 1 && |T| == Area(Box(0, H, 0, W)) - 1 && Subdivided(H, W, [], T, Box(0, H, 0, W))
    ensures IsSpanningTree(H * W, RectangularMaze.Layout(W, H), T)
  {
    forall k | 0 <= k < |T| ensures Adjacent(RectangularMaze.Layout(W, H), T[k].0, T[k].1) {
      GridPairAdjacent(H, W, T[k]);
    }
  }
}
