/**
 * The circular layout (src/circularmaze.cpp): `size` concentric rings, ring 0
 * a single centre cell and ring `i` holding `count[i]` cells, either as many
 * as ring `i - 1` or twice as many. Cells are numbered ring by ring, so cell
 * `j` of ring `i` is `prefix[i] + j`. Each cell of rings 1 and up has a wall
 * to the cell inward of it and a wall to the next cell of its ring; the cells
 * of the outer ring have outside walls, except the entry (the first cell of
 * the outer ring) and the exit (the cell half way round). Whether a ring
 * doubles is decided by a floating-point test, taken here as an oracle
 * `doubles`, one answer per ring. A border is named by the ring, the cell and
 * which of its three walls it is: [i, j, 0] inward, [i, j, 1] to the next
 * cell, [i, j, 2] outside.
 */
module CircularMaze {
  import opened Graphs
  import opened Layouts
  import opened Numbers
  import Maze

  // ---------------------------------------------------------------------------
  // The ring tables of the constructor.

  /** The cells of ring `i`: one at the centre, then doubled or not, as the oracle says. */
  function Count(doubles: seq<bool>, i: int): (c: int)
    requires 0 <= i < |doubles|
    ensures c >= 1
    decreases i
  {
    if i == 0 then 1 else if doubles[i] then 2 * Count(doubles, i - 1) else Count(doubles, i - 1)
  }

  /** `ringnodecount_` as the constructor fills it. */
  function Counts(doubles: seq<bool>): seq<int>
  {
    seq(|doubles|, i requires 0 <= i < |doubles| => Count(doubles, i))
  }

  /** A ring table: one centre cell, and every ring as large as the one inside it or twice as large. */
  ghost predicate Doubling(c: seq<int>)
  {
    |c| >= 1 && c[0] == 1 && forall i :: 1 <= i < |c| ==> c[i] == c[i - 1] || c[i] == 2 * c[i - 1]
  }

  /** Every ring has a cell. */
  ghost predicate Positive(c: seq<int>)
  {
    forall i :: 0 <= i < |c| ==> c[i] >= 1
  }

  /** Whatever the oracle answers, the tables double or stay. */
  lemma CountsDoubling(doubles: seq<bool>)
    requires |doubles| >= 1
    ensures Doubling(Counts(doubles)) && Positive(Counts(doubles))
  {
  }

  /** A doubling table has a cell in every ring, and no ring smaller than the one inside it. */
  lemma {:induction false} DoublingPositive(c: seq<int>, i: int)
    requires Doubling(c) && 0 <= i < |c|
    ensures 1 <= c[i]
    ensures forall k :: 0 <= k <= i ==> c[k] <= c[i]
    decreases i
  {
    if i > 0 {
      DoublingPositive(c, i - 1);
    }
  }

  lemma DoublingIsPositive(c: seq<int>)
    requires Doubling(c)
    ensures Positive(c)
  {
    forall i | 0 <= i < |c| ensures c[i] >= 1 {
      DoublingPositive(c, i);
    }
  }

  /** The cells of the rings inside ring `k`: `ringnodeprefixsum_[k]`. */
  function Prefix(c: seq<int>, k: int): int
    requires 0 <= k <= |c|
    decreases k
  {
    if k == 0 then 0 else Prefix(c, k - 1) + c[k - 1]
  }

  /** `ringnodeprefixsum_` as the constructor fills it. */
  function Prefixes(c: seq<int>): seq<int>
  {
    seq(|c|, k requires 0 <= k < |c| => Prefix(c, k))
  }

  /** The constructor's vertex count `count.back() + prefix.back()`: the cells of all rings. */
  function VertexCount(c: seq<int>): int
    requires |c| >= 1
  {
    c[|c| - 1] + Prefix(c, |c| - 1)
  }

  /** The entry, `prefix.back()`: the first cell of the outer ring. */
  function Start(c: seq<int>): int
    requires |c| >= 1
  {
    Prefix(c, |c| - 1)
  }

  /** The exit, `start + count.back() / 2`: the cell of the outer ring half way round. */
  function End(c: seq<int>): int
    requires |c| >= 1
  {
    Start(c) + c[|c| - 1] / 2
  }

  // ---------------------------------------------------------------------------
  // The numbering of cells.

  /** Cell `j` of ring `i` exists. */
  predicate OnRing(c: seq<int>, i: int, j: int)
  {
    0 <= i < |c| && 0 <= j < c[i]
  }

  function Index(c: seq<int>, i: int, j: int): int
    requires 0 <= i < |c|
  {
    Prefix(c, i) + j
  }

  /** A ring starts no earlier than the rings inside it end. */
  lemma {:induction false} PrefixMonotone(c: seq<int>, a: int, b: int)
    requires Positive(c) && 0 <= a <= b <= |c|
    ensures Prefix(c, a) + (b - a) <= Prefix(c, b)
    decreases b - a
  {
    if a < b {
      PrefixMonotone(c, a, b - 1);
    }
  }

  /** Every cell is a vertex, numbered within its ring's block. */
  lemma IndexRange(c: seq<int>, i: int, j: int)
    requires Positive(c) && OnRing(c, i, j)
    ensures Prefix(c, i) <= Index(c, i, j) < Prefix(c, i + 1)
    ensures 0 <= Index(c, i, j) < VertexCount(c)
  {
    PrefixMonotone(c, 0, i);
    PrefixMonotone(c, i + 1, |c| - 1 + 1);
  }

  lemma IndexIn(c: seq<int>, i: int, j: int)
    requires Positive(c) && OnRing(c, i, j)
    ensures 0 <= Index(c, i, j) < VertexCount(c)
  {
    IndexRange(c, i, j);
  }

  /** Two cells are numbered the same only when they are the same cell. */
  lemma IndexInjective(c: seq<int>, i1: int, j1: int, i2: int, j2: int)
    requires Positive(c) && OnRing(c, i1, j1) && OnRing(c, i2, j2) && Index(c, i1, j1) == Index(c, i2, j2)
    ensures i1 == i2 && j1 == j2
  {
    IndexRange(c, i1, j1);
    IndexRange(c, i2, j2);
    if i1 < i2 {
      PrefixMonotone(c, i1 + 1, i2);
    } else if i2 < i1 {
      PrefixMonotone(c, i2 + 1, i1);
    }
  }

  /** Every vertex from the start of ring `i` on is a cell of that ring or an outer one. */
  lemma {:induction false} FindRing(c: seq<int>, i: int, x: int)
    requires Positive(c) && 0 <= i < |c| && Prefix(c, i) <= x < VertexCount(c)
    ensures exists i', j' :: i <= i' && OnRing(c, i', j') && Index(c, i', j') == x
    decreases |c| - i
  {
    if x < Prefix(c, i + 1) {
      assert OnRing(c, i, x - Prefix(c, i)) && Index(c, i, x - Prefix(c, i)) == x;
    } else {
      FindRing(c, i + 1, x);
    }
  }

  /** The numbering is onto: every vertex is a cell. */
  lemma IndexOnto(c: seq<int>, x: int)
    requires Positive(c) && |c| >= 1 && 0 <= x < VertexCount(c)
    ensures exists i, j :: OnRing(c, i, j) && Index(c, i, j) == x
  {
    FindRing(c, 0, x);
  }

  /** The entry and the exit are cells of the outer ring; they differ unless the outer ring has a single cell. */
  lemma StartEnd(c: seq<int>)
    requires Positive(c) && |c| >= 1
    ensures OnRing(c, |c| - 1, 0) && Start(c) == Index(c, |c| - 1, 0)
    ensures OnRing(c, |c| - 1, c[|c| - 1] / 2) && End(c) == Index(c, |c| - 1, c[|c| - 1] / 2)
    ensures Start(c) != End(c) <==> c[|c| - 1] >= 2
  {
  }

  // ---------------------------------------------------------------------------
  // Which cells share a wall.

  /** The cell of ring `i - 1` inward of cell `j` of ring `i`: `count[i - 1] * j / count[i]`. */
  function Inward(c: seq<int>, i: int, j: int): int
    requires 1 <= i < |c| && c[i] >= 1
  {
    c[i - 1] * j / c[i]
  }

  /** The inward cell is a cell of ring `i - 1`. */
  lemma InwardOnRing(c: seq<int>, i: int, j: int)
    requires Positive(c) && 1 <= i < |c| && 0 <= j < c[i]
    ensures OnRing(c, i - 1, Inward(c, i, j))
  {
    var a, b := c[i - 1], c[i];
    MultiplyBelow(0, j, a);
    MultiplyBelow(j + 1, b, a);
    DivideBelow(a * j, a, b);
  }

  /** `x / b < a` when `x < a b`. */
  lemma DivideBelow(x: int, a: int, b: int)
    requires 0 <= x && b >= 1 && x < b * a
    ensures 0 <= x / b < a
  {
    var q := x / b;
    if q >= a {
      MultiplyBelow(a, q, b);
    }
  }

  /** The next cell round ring `i`, `(j + 1) % count[i]`. */
  function Next(c: seq<int>, i: int, j: int): int
    requires 0 <= i < |c| && c[i] >= 1
  {
    (j + 1) % c[i]
  }

  /** Cell (i2, j2) is across a wall of cell (i1, j1) of rings 1 and up: inward of it, or next round its ring. */
  predicate RingLink(c: seq<int>, i1: int, j1: int, i2: int, j2: int)
    requires Positive(c)
  {
    1 <= i1 < |c| && ((i2 == i1 - 1 && j2 == Inward(c, i1, j1)) || (i2 == i1 && j2 == Next(c, i1, j1)))
  }

  /** Two cells share a wall. */
  predicate Joined(c: seq<int>, i1: int, j1: int, i2: int, j2: int)
    requires Positive(c)
  {
    RingLink(c, i1, j1, i2, j2) || RingLink(c, i2, j2, i1, j1)
  }

  // ---------------------------------------------------------------------------
  // The pushes of `InitialiseGraph`: ring by ring from ring 1, cell by cell.

  /** The outside wall of cell `j` of ring `i`: only in the outer ring, and not at the entry or the exit. */
  function OuterWall(c: seq<int>, i: int, j: int): seq<PushOp>
    requires 0 <= i < |c|
  {
    var node := Index(c, i, j);
    if i == |c| - 1 && node != Start(c) && node != End(c) then [(node, (Outside, [i, j, 2]))] else []
  }

  /** One pass of the loop over `j`: the inward wall, the wall to the next cell and the outside wall. */
  function NodeStep(c: seq<int>, i: int, j: int): seq<PushOp>
    requires Positive(c) && 1 <= i < |c|
  {
    var node := Index(c, i, j);
    Mirror(node, Prefix(c, i - 1) + Inward(c, i, j), [i, j, 0]) +
    Mirror(node, Prefix(c, i) + Next(c, i, j), [i, j, 1]) +
    OuterWall(c, i, j)
  }

  function Ring(c: seq<int>, i: int): seq<seq<PushOp>>
    requires Positive(c) && 1 <= i < |c|
  {
    seq(c[i], j => NodeStep(c, i, j))
  }

  /** One iteration per ring `i` from 1 to `size - 1`. */
  function Rings(c: seq<int>): seq<seq<PushOp>>
    requires Positive(c) && |c| >= 1
  {
    seq(|c| - 1, k requires 0 <= k < |c| - 1 => Flatten(Ring(c, k + 1)))
  }

  /** All pushes of `InitialiseGraph`, in order. */
  function Pushes(c: seq<int>): seq<PushOp>
    requires Positive(c) && |c| >= 1
  {
    Flatten(Rings(c))
  }

  lemma NodeFacts(c: seq<int>, i: int, j: int)
    requires Positive(c) && OnRing(c, i, j) && i >= 1
    ensures WellFormed(VertexCount(c), NodeStep(c, i, j))
  {
    var n := VertexCount(c);
    InwardOnRing(c, i, j);
    IndexIn(c, i, j);
    IndexIn(c, i - 1, Inward(c, i, j));
    IndexIn(c, i, Next(c, i, j));
    var node := Index(c, i, j);
    MirrorWellFormed(n, node, Index(c, i - 1, Inward(c, i, j)), [i, j, 0]);
    MirrorWellFormed(n, node, Index(c, i, Next(c, i, j)), [i, j, 1]);
    MirrorWellFormed(n, node, node, [i, j, 2]);
    AppendWellFormed(n, Mirror(node, Index(c, i - 1, Inward(c, i, j)), [i, j, 0]), Mirror(node, Index(c, i, Next(c, i, j)), [i, j, 1]));
    AppendWellFormed(n, Mirror(node, Index(c, i - 1, Inward(c, i, j)), [i, j, 0]) + Mirror(node, Index(c, i, Next(c, i, j)), [i, j, 1]), OuterWall(c, i, j));
  }

  lemma RingFacts(c: seq<int>, i: int)
    requires Positive(c) && 1 <= i < |c|
    ensures WellFormed(VertexCount(c), Flatten(Ring(c, i)))
  {
    var s := Ring(c, i);
    forall j | 0 <= j < |s| ensures WellFormed(VertexCount(c), s[j]) {
      NodeFacts(c, i, j);
    }
    FlattenWellFormed(VertexCount(c), s);
  }

  lemma PushesFacts(c: seq<int>)
    requires Positive(c) && |c| >= 1
    ensures WellFormed(VertexCount(c), Pushes(c))
  {
    var s := Rings(c);
    forall k | 0 <= k < |s| ensures WellFormed(VertexCount(c), s[k]) {
      RingFacts(c, k + 1);
    }
    FlattenWellFormed(VertexCount(c), s);
  }

  /** The graph `InitialiseGraph` builds: one list per cell, valid and symmetric. */
  function Layout(c: seq<int>): (g: Graph)
    requires Positive(c) && |c| >= 1
    ensures ValidGraph(VertexCount(c), g) && Symmetric(g)
  {
    PushesFacts(c);
    IndexIn(c, 0, 0);
    Built(VertexCount(c), Pushes(c));
    Build(Empty(VertexCount(c)), Pushes(c))
  }

  // ---------------------------------------------------------------------------
  // Which cells list which.

  /** A cell of the outer ring other than the entry and the exit (none when the centre is the only ring). */
  predicate OuterNode(c: seq<int>, i: int, j: int)
    requires 0 <= i < |c|
  {
    |c| >= 2 && i == |c| - 1 && j != 0 && j != c[i] / 2
  }

  /** An outside wall pushed by the loop. */
  ghost predicate OuterPushed(c: seq<int>, x: PushOp)
  {
    exists i, j :: OnRing(c, i, j) && OuterNode(c, i, j) && x.0 == Index(c, i, j) && x.1.0 == Outside
  }

  /** An entry, in the list of one cell, naming a cell it shares a wall with. */
  ghost predicate WallEntry(c: seq<int>, x: PushOp)
    requires Positive(c)
  {
    exists i1, j1, i2, j2 :: OnRing(c, i1, j1) && OnRing(c, i2, j2) && Joined(c, i1, j1, i2, j2) &&
                             x.0 == Index(c, i1, j1) && x.1.0 == Index(c, i2, j2)
  }

  lemma MirrorEntry(c: seq<int>, i1: int, j1: int, i2: int, j2: int, border: BorderId, x: PushOp)
    requires Positive(c) && OnRing(c, i1, j1) && OnRing(c, i2, j2) && RingLink(c, i1, j1, i2, j2)
    requires x in Mirror(Index(c, i1, j1), Index(c, i2, j2), border)
    ensures WallEntry(c, x)
  {
    if x.0 == Index(c, i1, j1) && x.1.0 == Index(c, i2, j2) {
      assert Joined(c, i1, j1, i2, j2);
    } else {
      assert Joined(c, i2, j2, i1, j1) && x.0 == Index(c, i2, j2) && x.1.0 == Index(c, i1, j1);
    }
  }

  /** Every push of a cell is an entry of one of its two walls or its outside wall. */
  lemma NodeMembers(c: seq<int>, i: int, j: int, s: seq<PushOp>, x: PushOp)
    requires Positive(c) && OnRing(c, i, j) && i >= 1 && s == NodeStep(c, i, j) && x in s
    ensures OuterPushed(c, x) || WallEntry(c, x)
  {
    InwardOnRing(c, i, j);
    var node := Index(c, i, j);
    if x in Mirror(node, Index(c, i - 1, Inward(c, i, j)), [i, j, 0]) {
      MirrorEntry(c, i, j, i - 1, Inward(c, i, j), [i, j, 0], x);
    } else if x in Mirror(node, Index(c, i, Next(c, i, j)), [i, j, 1]) {
      MirrorEntry(c, i, j, i, Next(c, i, j), [i, j, 1], x);
    } else {
      assert x in OuterWall(c, i, j);
      assert OuterNode(c, i, j) && x.0 == Index(c, i, j);
    }
  }

  /** Every push of a ring is an outside wall or a wall entry. */
  lemma RingMembers(c: seq<int>, i: int, x: PushOp)
    requires Positive(c) && 1 <= i < |c| && x in Flatten(Ring(c, i))
    ensures OuterPushed(c, x) || WallEntry(c, x)
  {
    var r := Ring(c, i);
    FlattenMembers(r, x);
    var j :| 0 <= j < |r| && x in r[j];
    NodeMembers(c, i, j, r[j], x);
  }

  /** Every push is an outside wall of an outer cell or an entry of a wall between joined cells. */
  lemma PushMembers(c: seq<int>, x: PushOp)
    requires Positive(c) && |c| >= 1 && x in Pushes(c)
    ensures OuterPushed(c, x) || WallEntry(c, x)
  {
    FlattenMembers(Rings(c), x);
    var k :| 0 <= k < |Rings(c)| && x in Rings(c)[k];
    RingMembers(c, k + 1, x);
  }

  /** Every push of every cell is made. */
  lemma NodePushed(c: seq<int>, i: int, j: int, x: PushOp)
    requires Positive(c) && OnRing(c, i, j) && i >= 1 && x in NodeStep(c, i, j)
    ensures x in Pushes(c)
  {
    var r := Ring(c, i);
    assert x in r[j];
    FlattenMembers(r, x);
    assert x in Rings(c)[i - 1];
    FlattenMembers(Rings(c), x);
  }

  /** Both entries of a wall whose pushes are all made are listed. */
  lemma WallIn(c: seq<int>, u: int, v: int, border: BorderId)
    requires Positive(c) && |c| >= 1
    requires forall x :: x in Mirror(u, v, border) ==> x in Pushes(c)
    ensures exists k :: 0 <= k < |Pushes(c)| && Pushes(c)[k].0 == u && Pushes(c)[k].1.0 == v
    ensures exists k :: 0 <= k < |Pushes(c)| && Pushes(c)[k].0 == v && Pushes(c)[k].1.0 == u
  {
    var M := Mirror(u, v, border);
    assert M[0] in Pushes(c) && M[1] in Pushes(c);
    var k :| 0 <= k < |Pushes(c)| && Pushes(c)[k] == M[0];
    var l :| 0 <= l < |Pushes(c)| && Pushes(c)[l] == M[1];
  }

  /** The wall between a cell and the cell inward of it, or next round its ring, is pushed in both directions. */
  lemma LinkPushed(c: seq<int>, i1: int, j1: int, i2: int, j2: int)
    requires Positive(c) && OnRing(c, i1, j1) && OnRing(c, i2, j2) && RingLink(c, i1, j1, i2, j2)
    ensures exists k :: 0 <= k < |Pushes(c)| && Pushes(c)[k].0 == Index(c, i1, j1) && Pushes(c)[k].1.0 == Index(c, i2, j2)
    ensures exists k :: 0 <= k < |Pushes(c)| && Pushes(c)[k].0 == Index(c, i2, j2) && Pushes(c)[k].1.0 == Index(c, i1, j1)
  {
    var u, v := Index(c, i1, j1), Index(c, i2, j2);
    var b: BorderId := if i2 == i1 - 1 then [i1, j1, 0] else [i1, j1, 1];
    assert forall x :: x in Mirror(u, v, b) ==> x in NodeStep(c, i1, j1);
    forall x | x in Mirror(u, v, b) ensures x in Pushes(c) {
      NodePushed(c, i1, j1, x);
    }
    WallIn(c, u, v, b);
  }

  /** A listed cell shares a wall with the cell whose list holds it. */
  lemma PushedJoined(c: seq<int>, i1: int, j1: int, i2: int, j2: int)
    requires Positive(c) && OnRing(c, i1, j1) && OnRing(c, i2, j2)
    requires exists k :: 0 <= k < |Pushes(c)| && Pushes(c)[k].0 == Index(c, i1, j1) && Pushes(c)[k].1.0 == Index(c, i2, j2)
    ensures Joined(c, i1, j1, i2, j2)
  {
    var P := Pushes(c);
    var k :| 0 <= k < |P| && P[k].0 == Index(c, i1, j1) && P[k].1.0 == Index(c, i2, j2);
    var x := P[k];
    PushMembers(c, x);
    IndexIn(c, i2, j2);
    assert !OuterPushed(c, x);
    var a1, b1, a2, b2 :| OnRing(c, a1, b1) && OnRing(c, a2, b2) && Joined(c, a1, b1, a2, b2) &&
                          x.0 == Index(c, a1, b1) && x.1.0 == Index(c, a2, b2);
    IndexInjective(c, i1, j1, a1, b1);
    IndexInjective(c, i2, j2, a2, b2);
  }

  /** A cell lists another exactly when the two share a wall. */
  lemma LayoutAdjacent(c: seq<int>, i1: int, j1: int, i2: int, j2: int)
    requires Positive(c) && OnRing(c, i1, j1) && OnRing(c, i2, j2)
    ensures Adjacent(Layout(c), Index(c, i1, j1), Index(c, i2, j2)) <==> Joined(c, i1, j1, i2, j2)
  {
    IndexIn(c, i1, j1);
    IndexIn(c, i2, j2);
    PushesFacts(c);
    BuiltAdjacent(VertexCount(c), Pushes(c), Index(c, i1, j1), Index(c, i2, j2));
    if Adjacent(Layout(c), Index(c, i1, j1), Index(c, i2, j2)) {
      PushedJoined(c, i1, j1, i2, j2);
    }
    if RingLink(c, i1, j1, i2, j2) {
      LinkPushed(c, i1, j1, i2, j2);
    } else if RingLink(c, i2, j2, i1, j1) {
      LinkPushed(c, i2, j2, i1, j1);
    }
  }

  /** A pushed outside entry belongs to an outer cell. */
  lemma PushedOutside(c: seq<int>, i: int, j: int)
    requires Positive(c) && OnRing(c, i, j)
    requires exists k :: 0 <= k < |Pushes(c)| && Pushes(c)[k].0 == Index(c, i, j) && Pushes(c)[k].1.0 == Outside
    ensures OuterNode(c, i, j)
  {
    var P := Pushes(c);
    var k :| 0 <= k < |P| && P[k].0 == Index(c, i, j) && P[k].1.0 == Outside;
    var x := P[k];
    PushMembers(c, x);
    assert !WallEntry(c, x) by {
      forall a, b | OnRing(c, a, b) ensures Index(c, a, b) != Outside {
        IndexIn(c, a, b);
      }
    }
    var a, b :| OnRing(c, a, b) && OuterNode(c, a, b) && x.0 == Index(c, a, b) && x.1.0 == Outside;
    IndexInjective(c, i, j, a, b);
  }

  /** The outside wall of an outer cell is pushed. */
  lemma OutsidePushed(c: seq<int>, i: int, j: int)
    requires Positive(c) && OnRing(c, i, j) && OuterNode(c, i, j)
    ensures exists k :: 0 <= k < |Pushes(c)| && Pushes(c)[k].0 == Index(c, i, j) && Pushes(c)[k].1.0 == Outside
  {
    var x := (Index(c, i, j), (Outside, [i, j, 2]));
    assert OuterWall(c, i, j) == [x];
    assert x in NodeStep(c, i, j);
    NodePushed(c, i, j, x);
    var k :| 0 <= k < |Pushes(c)| && Pushes(c)[k] == x;
  }

  /** A cell has an outside wall exactly when it is a cell of the outer ring other than the entry and the exit. */
  lemma LayoutOutside(c: seq<int>, i: int, j: int)
    requires Positive(c) && OnRing(c, i, j)
    ensures Lists(Layout(c), Index(c, i, j), Outside) <==> OuterNode(c, i, j)
  {
    IndexIn(c, i, j);
    PushesFacts(c);
    BuiltLists(VertexCount(c), Pushes(c), Index(c, i, j), Outside);
    if Lists(Layout(c), Index(c, i, j), Outside) {
      PushedOutside(c, i, j);
    }
    if OuterNode(c, i, j) {
      OutsidePushed(c, i, j);
    }
  }

  // ---------------------------------------------------------------------------
  // Connectivity.

  /** Every cell is reachable from the centre, inward step by inward step. */
  lemma {:induction false} ReachCell(c: seq<int>, i: int, j: int)
    requires |c| >= 1 && Positive(c) && c[0] == 1 && OnRing(c, i, j)
    ensures Reach(Layout(c), 0, Index(c, i, j))
    decreases i
  {
    if i > 0 {
      var j' := Inward(c, i, j);
      InwardOnRing(c, i, j);
      ReachCell(c, i - 1, j');
      assert RingLink(c, i, j, i - 1, j');
      LayoutAdjacent(c, i - 1, j', i, j);
      AdjacentReach(Layout(c), 0, Index(c, i - 1, j'), Index(c, i, j));
    } else {
      assert Index(c, i, j) == 0;
    }
  }

  /** With a single centre cell, every cell can be reached from every other. */
  lemma LayoutConnected(c: seq<int>)
    requires |c| >= 1 && Positive(c) && c[0] == 1
    ensures Connected(VertexCount(c), Layout(c))
  {
    var g := Layout(c);
    IndexIn(c, 0, 0);
    forall x | 0 <= x < |g| ensures Reach(g, 0, x) {
      IndexOnto(c, x);
      var i, j :| OnRing(c, i, j) && Index(c, i, j) == x;
      ReachCell(c, i, j);
    }
    ReachEverywhere(g, 0);
  }

  class CircularMaze {
    const size: int
    var ringnodecount: seq<int>
    var ringnodeprefixsum: seq<int>
    const maze: Maze.Maze

    /**
     * `CircularMaze::CircularMaze`: the ring tables filled ring by ring, `doubles[i]`
     * standing for the test whether ring `i` doubles; then the vertex count, the
     * entry and the exit of the base class.
     */
    constructor (size: int, doubles: seq<bool>)
      requires size >= 1 && |doubles| == size
      ensures this.size == size && fresh(maze)
      ensures ringnodecount == Counts(doubles) && ringnodeprefixsum == Prefixes(ringnodecount)
      ensures maze.vertices == VertexCount(ringnodecount)
      ensures maze.startvertex == Start(ringnodecount) && maze.endvertex == End(ringnodecount)
      ensures maze.adjacencylist == []
    {
      var count, prefix := Tables(size, doubles);
      this.size := size;
      ringnodecount := count;
      ringnodeprefixsum := prefix;
      var m := new Maze.Maze(0, 0, 1);
      m.vertices := count[size - 1] + prefix[size - 1];
      m.startvertex := prefix[size - 1];
      m.endvertex := m.startvertex + count[size - 1] / 2;
      maze := m;
    }

    /** The constructor's loop filling `ringnodecount_` and `ringnodeprefixsum_`. */
    static method Tables(size: int, doubles: seq<bool>) returns (count: seq<int>, prefix: seq<int>)
      requires size >= 1 && |doubles| == size
      ensures count == Counts(doubles) && prefix == Prefixes(count)
    {
      ghost var C := Counts(doubles);
      count := seq(size, _ => 0);
      prefix := seq(size, _ => 0);
      count := count[0 := 1];
      prefix := prefix[0 := 0];
      var i := 1;
      while i < size
        invariant 1 <= i <= size && |count| == size && |prefix| == size
        invariant count[..i] == C[..i] && prefix[..i] == Prefixes(C)[..i]
      {
        assert count[i - 1] == count[..i][i - 1] == C[i - 1];
        assert prefix[i - 1] == prefix[..i][i - 1] == Prefixes(C)[i - 1] == Prefix(C, i - 1);
        count := count[i := count[i - 1]];
        if doubles[i] {
          count := count[i := count[i] * 2];
        }
        assert count[i] == Count(doubles, i) == C[i];
        prefix := prefix[i := prefix[i - 1] + count[i - 1]];
        assert prefix[i] == Prefix(C, i);
        i := i + 1;
      }
      assert count == count[..size];
      assert prefix == prefix[..size];
    }

    /** `CircularMaze::InitialiseGraph`. */
    method InitialiseGraph()
      requires |ringnodecount| == size >= 1 && Positive(ringnodecount) && ringnodeprefixsum == Prefixes(ringnodecount)
      requires maze.vertices == VertexCount(ringnodecount)
      requires maze.startvertex == Start(ringnodecount) && maze.endvertex == End(ringnodecount)
      modifies maze
      ensures maze.adjacencylist == Layout(ringnodecount)
      ensures maze.SameShape()
    {
      IndexIn(ringnodecount, 0, 0);
      maze.InitialiseGraph();
      ghost var A := maze.adjacencylist;
      ghost var P: seq<PushOp> := [];
      var i := 1;
      assert Rings(ringnodecount)[..0] == [];
      while i < size
        invariant 1 <= i <= size
        invariant P == Flatten(Rings(ringnodecount)[..i - 1])
        invariant PushesIn(|A|, P) && maze.adjacencylist == Build(A, P) && maze.SameShape()
      {
        ghost var before := P;
        P := PushRing(i, A, P);
        FlattenNext([], Rings(ringnodecount), i - 1, before, P);
        i := i + 1;
      }
      FlattenAll(Rings(ringnodecount));
    }

    /** One pass of the loop over rings: the cells of ring `i`. */
    method PushRing(i: int, ghost A: Graph, ghost P0: seq<PushOp>) returns (ghost P: seq<PushOp>)
      requires |ringnodecount| == size && Positive(ringnodecount) && ringnodeprefixsum == Prefixes(ringnodecount)
      requires 1 <= i < size && |A| == VertexCount(ringnodecount)
      requires maze.startvertex == Start(ringnodecount) && maze.endvertex == End(ringnodecount)
      requires PushesIn(|A|, P0) && maze.adjacencylist == Build(A, P0)
      modifies maze
      ensures P == P0 + Flatten(Ring(ringnodecount, i))
      ensures PushesIn(|A|, P) && maze.adjacencylist == Build(A, P) && maze.SameShape()
    {
      P := P0;
      var j := 0;
      while j < ringnodecount[i]
        invariant 0 <= j <= ringnodecount[i]
        invariant P == P0 + Flatten(Ring(ringnodecount, i)[..j])
        invariant PushesIn(|A|, P) && maze.adjacencylist == Build(A, P) && maze.SameShape()
      {
        ghost var before := P;
        P := PushNode(i, j, A, P);
        FlattenNext(P0, Ring(ringnodecount, i), j, before, P);
        j := j + 1;
      }
      FlattenAll(Ring(ringnodecount, i));
    }

    /** One pass of the loop over `j`: the inward wall, the wall to the next cell, and the outside wall. */
    method PushNode(i: int, j: int, ghost A: Graph, ghost P0: seq<PushOp>) returns (ghost P: seq<PushOp>)
      requires |ringnodecount| == size && Positive(ringnodecount) && ringnodeprefixsum == Prefixes(ringnodecount)
      requires 1 <= i < size && 0 <= j < ringnodecount[i] && |A| == VertexCount(ringnodecount)
      requires maze.startvertex == Start(ringnodecount) && maze.endvertex == End(ringnodecount)
      requires PushesIn(|A|, P0) && maze.adjacencylist == Build(A, P0)
      modifies maze
      ensures P == P0 + NodeStep(ringnodecount, i, j)
      ensures PushesIn(|A|, P) && maze.adjacencylist == Build(A, P) && maze.SameShape()
    {
      ghost var c := ringnodecount;
      InwardOnRing(c, i, j);
      IndexIn(c, i, j);
      IndexIn(c, i - 1, Inward(c, i, j));
      IndexIn(c, i, Next(c, i, j));
      assert ringnodeprefixsum[i] == Prefix(c, i) && ringnodeprefixsum[i - 1] == Prefix(c, i - 1);
      var node := ringnodeprefixsum[i] + j;
      var nnode := ringnodeprefixsum[i - 1] + (ringnodecount[i - 1] * j) / ringnodecount[i];
      assert node == Index(c, i, j) && nnode == Prefix(c, i - 1) + Inward(c, i, j);
      ghost var M0 := Mirror(node, nnode, [i, j, 0]);
      P := maze.PushWall(node, nnode, [i, j, 0], A, P0);
      nnode := ringnodeprefixsum[i] + (j + 1) % ringnodecount[i];
      assert nnode == Prefix(c, i) + Next(c, i, j);
      ghost var M1 := Mirror(node, nnode, [i, j, 1]);
      P := maze.PushWall(node, nnode, [i, j, 1], A, P);
      P := PushOuterWall(i, j, node, A, P);
      assert NodeStep(c, i, j) == M0 + M1 + OuterWall(c, i, j);
      AppendThree(P0, M0, M1, OuterWall(c, i, j));
    }

    /** The outside wall of a cell of the outer ring, unless it is the entry or the exit. */
    method PushOuterWall(i: int, j: int, node: int, ghost A: Graph, ghost P1: seq<PushOp>)
      returns (ghost P: seq<PushOp>)
      requires |ringnodecount| == size && Positive(ringnodecount) && ringnodeprefixsum == Prefixes(ringnodecount)
      requires 1 <= i < size && 0 <= j < ringnodecount[i] && |A| == VertexCount(ringnodecount)
      requires node == Index(ringnodecount, i, j)
      requires maze.startvertex == Start(ringnodecount) && maze.endvertex == End(ringnodecount)
      requires PushesIn(|A|, P1) && maze.adjacencylist == Build(A, P1)
      modifies maze
      ensures P == P1 + OuterWall(ringnodecount, i, j)
      ensures PushesIn(|A|, P) && maze.adjacencylist == Build(A, P) && maze.SameShape()
    {
      P := P1;
      if i == size - 1 && node != maze.startvertex && node != maze.endvertex {
        IndexIn(ringnodecount, i, j);
        P := maze.PushBack(node, (Outside, [i, j, 2]), A, P);
      }
    }
  }
}
