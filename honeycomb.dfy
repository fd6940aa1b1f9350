/**
 * The honeycomb layout (src/mazetypes/honeycombmaze.cpp): hexagonal cells
 * forming a hexagon with `size` cells on each side. A cell is named by axial
 * coordinates (u, v); cells are numbered row by row, rows by `u` from
 * `-size + 1` up and, within a row, by `v`. Each of the six sides of a cell is
 * a wall to the neighbour across it or an outside wall, except side 0 of the
 * first cell (the entry) and side 3 of the last (the exit). A border is named by
 * the cell and side that created it: [u, v, n].
 */
module HoneycombMaze {
  import opened Graphs
  import opened Layouts
  import opened Numbers
  import Maze

  /** `HoneyCombMaze::neigh`: the offsets (du, dv) of the neighbours across the six sides, in order around the cell. */
  const Neigh: seq<(int, int)> := [(-1, 0), (-1, 1), (0, 1), (1, 0), (1, -1), (0, -1)]

  /** Opposite sides have opposite offsets, so being neighbours is symmetric. */
  lemma NeighOpposite(n: int)
    requires 0 <= n < 6
    ensures Neigh[(n + 3) % 6] == (-Neigh[n].0, -Neigh[n].1)
  {
  }

  /** The cell (u, v) is on the board: within `size` of the centre along all three axes. */
  predicate OnBoard(size: int, u: int, v: int)
  {
    -size < u < size && -size < v < size && -size < u + v < size
  }

  /** (u2, v2) is the neighbour of (u1, v1) across one of its sides. */
  predicate Neighbours(u1: int, v1: int, u2: int, v2: int)
  {
    (u2 - u1, v2 - v1) in Neigh
  }

  /** `HoneyCombMaze::VExtent`: the first and last `v` of row `u`; one step beyond either end is off the board. */
  function VExtent(size: int, u: int): (e: (int, int))
    ensures -size < u < size ==> e.0 <= e.1 && OnBoard(size, u, e.0) && OnBoard(size, u, e.1)
    ensures !OnBoard(size, u, e.0 - 1) && !OnBoard(size, u, e.1 + 1)
  {
    if u < 0 then (-size - u + 1, size - 1) else (-size + 1, size - 1 - u)
  }

  /** `HoneyCombMaze::IsValidNode`. */
  function IsValidNode(size: int, u: int, v: int): (b: bool)
    ensures b <==> OnBoard(size, u, v)
  {
    if u <= -size || u >= size then false
    else
      var e := VExtent(size, u);
      e.0 <= v <= e.1
  }

  /** The number of cells of row `u`, the trip count of the loop over `v`. */
  function RowLength(size: int, u: int): int
  {
    VExtent(size, u).1 - VExtent(size, u).0 + 1
  }

  /** The constructor's vertex count `3 size (size - 1) + 1`. */
  function VertexCount(size: int): (count: int)
    ensures count >= 1
  {
    if size >= 1 then
      MultiplyBelow(0, size - 1, size);
      3 * size * (size - 1) + 1
    else
      MultiplyBelow(0, 1 - size, -size);
      assert (1 - size) * -size == size * (size - 1);
      3 * size * (size - 1) + 1
  }

  /** The constructor's exit vertex `3 size (size - 1)`. */
  function EndVertex(size: int): int
  {
    3 * size * (size - 1)
  }

  /** Twice the number of the first cell of row `u`, less twice its first `v`. */
  function Numerator(size: int, u: int): int
  {
    if u <= 0 then (3 * size + u) * (size + u - 1) else 3 * size * (size - 1) + (4 * size - u - 1) * u
  }

  /** `HoneyCombMaze::VertexIndex`; the numerator is never negative on the board, so truncating and Euclidean division agree. */
  function VertexIndex(size: int, u: int, v: int): int
  {
    Numerator(size, u) / 2 + v
  }

  /** The cells of the rows before row `u`, rows starting at `-size + 1`. */
  function Before(size: int, u: int): int
    decreases u + size
  {
    if u <= -size + 1 then 0 else Before(size, u - 1) + RowLength(size, u - 1)
  }

  /** The numerator of row `u` is twice the cells before it, less twice its first `v`. */
  lemma {:induction false} BeforeClosed(size: int, u: int)
    requires size >= 1 && -size + 1 <= u <= size
    ensures 2 * Before(size, u) == Numerator(size, u) + 2 * VExtent(size, u).0
    decreases u + size
  {
    if u > -size + 1 {
      var m := u - 1;
      BeforeClosed(size, m);
      if u <= 0 {
        var x, y := 3 * size + m, size + m - 1;
        Distribute(x, y);
        Distribute(x + 1, y);
        assert Numerator(size, u) == (x + 1) * (y + 1);
      } else if m > 0 {
        var x := 4 * size - m - 2;
        Distribute(x, m);
        assert Numerator(size, u) == 3 * size * (size - 1) + x * (m + 1);
      } else {
        assert Numerator(size, m) == 3 * size * (size - 1);
      }
    }
  }

  /** A cell's number is the cells before its row plus its place in the row. */
  lemma IndexClosed(size: int, u: int, v: int)
    requires size >= 1 && OnBoard(size, u, v)
    ensures VertexIndex(size, u, v) == Before(size, u) + (v - VExtent(size, u).0)
  {
    BeforeClosed(size, u);
    ModUnique(Numerator(size, u), 2, Before(size, u) - VExtent(size, u).0, 0);
  }

  /** All rows together hold `3 size (size - 1) + 1` cells. */
  lemma CellCount(size: int)
    requires size >= 1
    ensures Before(size, size) == VertexCount(size)
  {
    BeforeClosed(size, size);
    Distribute(3 * size - 1, size - 1);
  }

  /** A row starts no earlier than the rows before it end. */
  lemma {:induction false} BeforeMonotone(size: int, a: int, b: int)
    requires -size + 1 <= a <= b <= size
    ensures Before(size, a) <= Before(size, b)
    decreases b - a
  {
    if a < b {
      BeforeMonotone(size, a, b - 1);
    }
  }

  /** Every cell is a vertex, numbered within its row's block. */
  lemma IndexRange(size: int, u: int, v: int)
    requires size >= 1 && OnBoard(size, u, v)
    ensures Before(size, u) <= VertexIndex(size, u, v) < Before(size, u + 1)
    ensures 0 <= VertexIndex(size, u, v) < VertexCount(size)
  {
    IndexClosed(size, u, v);
    BeforeMonotone(size, -size + 1, u);
    BeforeMonotone(size, u + 1, size);
    CellCount(size);
  }

  lemma IndexIn(size: int, u: int, v: int)
    requires size >= 1 && OnBoard(size, u, v)
    ensures 0 <= VertexIndex(size, u, v) < VertexCount(size)
  {
    IndexRange(size, u, v);
  }

  /** Two cells are numbered the same only when they are the same cell. */
  lemma IndexInjective(size: int, u1: int, v1: int, u2: int, v2: int)
    requires size >= 1 && OnBoard(size, u1, v1) && OnBoard(size, u2, v2)
    requires VertexIndex(size, u1, v1) == VertexIndex(size, u2, v2)
    ensures u1 == u2 && v1 == v2
  {
    IndexRange(size, u1, v1);
    IndexRange(size, u2, v2);
    if u1 < u2 {
      BeforeMonotone(size, u1 + 1, u2);
    } else if u2 < u1 {
      BeforeMonotone(size, u2 + 1, u1);
    }
    IndexClosed(size, u1, v1);
    IndexClosed(size, u2, v2);
  }

  /** Every vertex from the start of row `u` on is a cell of that row or a later one. */
  lemma {:induction false} FindRow(size: int, u: int, x: int)
    requires size >= 1 && -size < u < size && Before(size, u) <= x < VertexCount(size)
    ensures exists u', v' :: u <= u' < size && OnBoard(size, u', v') && VertexIndex(size, u', v') == x
    decreases size - u
  {
    CellCount(size);
    if x < Before(size, u + 1) {
      var v := VExtent(size, u).0 + (x - Before(size, u));
      IndexClosed(size, u, v);
    } else {
      FindRow(size, u + 1, x);
    }
  }

  /** The numbering is onto: every vertex is a cell. */
  lemma IndexOnto(size: int, x: int)
    requires size >= 1 && 0 <= x < VertexCount(size)
    ensures exists u, v :: OnBoard(size, u, v) && VertexIndex(size, u, v) == x
  {
    FindRow(size, -size + 1, x);
  }

  /** The entry is the first cell of the first row, the exit the first cell of the last: the constructor's 0 and `3 size (size - 1)`. */
  lemma Corners(size: int)
    requires size >= 1
    ensures OnBoard(size, -size + 1, 0) && VertexIndex(size, -size + 1, 0) == 0
    ensures OnBoard(size, size - 1, 0) && VertexIndex(size, size - 1, 0) == EndVertex(size)
  {
    IndexClosed(size, -size + 1, 0);
    IndexClosed(size, size - 1, 0);
    CellCount(size);
  }

  // ---------------------------------------------------------------------------
  // The pushes of `InitialiseGraph`: row by row, cell by cell, side by side.

  /** The entry (side 0 of vertex 0) and the exit (side 3 of the last vertex) are left open. */
  predicate Open(size: int, node: int, n: int)
  {
    (node == 0 && n == 0) || (node == EndVertex(size) && n == 3)
  }

  /**
   * Side `n` of cell (u, v): a wall to the neighbour across it, pushed in both
   * directions from the larger-numbered of the two; off the board, an outside
   * wall unless the side is open.
   */
  function SideStep(size: int, u: int, v: int, n: int): seq<PushOp>
    requires 0 <= n < 6
  {
    var node := VertexIndex(size, u, v);
    var uu, vv := u + Neigh[n].0, v + Neigh[n].1;
    if IsValidNode(size, uu, vv) then
      var nnode := VertexIndex(size, uu, vv);
      if nnode > node then [] else Mirror(node, nnode, [u, v, n])
    else if Open(size, node, n) then []
    else [(node, (Outside, [u, v, n]))]
  }

  function CellSides(size: int, u: int, v: int): seq<seq<PushOp>>
  {
    seq(6, n requires 0 <= n < 6 => SideStep(size, u, v, n))
  }

  function RowCells(size: int, u: int): seq<seq<PushOp>>
    requires -size < u < size
  {
    seq(RowLength(size, u), k => Flatten(CellSides(size, u, VExtent(size, u).0 + k)))
  }

  /** One iteration per row `u` from `-size + 1` to `size - 1`; none when `size < 1`. */
  function Rows(size: int): seq<seq<PushOp>>
  {
    seq(if size >= 1 then 2 * size - 1 else 0, k requires 0 <= k < 2 * size - 1 => Flatten(RowCells(size, k - size + 1)))
  }

  /** All pushes of `InitialiseGraph`, in order. */
  function Pushes(size: int): seq<PushOp>
  {
    Flatten(Rows(size))
  }

  lemma SideFacts(size: int, u: int, v: int, n: int)
    requires size >= 1 && OnBoard(size, u, v) && 0 <= n < 6
    ensures WellFormed(VertexCount(size), SideStep(size, u, v, n))
  {
    var uu, vv := u + Neigh[n].0, v + Neigh[n].1;
    IndexIn(size, u, v);
    if OnBoard(size, uu, vv) {
      IndexIn(size, uu, vv);
      MirrorWellFormed(VertexCount(size), VertexIndex(size, u, v), VertexIndex(size, uu, vv), [u, v, n]);
    } else {
      MirrorWellFormed(VertexCount(size), VertexIndex(size, u, v), 0, [u, v, n]);
    }
  }

  lemma CellFacts(size: int, u: int, v: int)
    requires size >= 1 && OnBoard(size, u, v)
    ensures WellFormed(VertexCount(size), Flatten(CellSides(size, u, v)))
  {
    var s := CellSides(size, u, v);
    forall n | 0 <= n < 6 ensures WellFormed(VertexCount(size), s[n]) {
      SideFacts(size, u, v, n);
    }
    FlattenWellFormed(VertexCount(size), s);
  }

  lemma RowFacts(size: int, u: int)
    requires size >= 1 && -size < u < size
    ensures WellFormed(VertexCount(size), Flatten(RowCells(size, u)))
  {
    var s := RowCells(size, u);
    forall k | 0 <= k < |s| ensures WellFormed(VertexCount(size), s[k]) {
      CellFacts(size, u, VExtent(size, u).0 + k);
    }
    FlattenWellFormed(VertexCount(size), s);
  }

  lemma PushesFacts(size: int)
    ensures WellFormed(VertexCount(size), Pushes(size))
  {
    var s := Rows(size);
    forall k | 0 <= k < |s| ensures WellFormed(VertexCount(size), s[k]) {
      RowFacts(size, k - size + 1);
    }
    FlattenWellFormed(VertexCount(size), s);
  }

  /** The graph `InitialiseGraph` builds: one list per cell, valid and symmetric. */
  function Layout(size: int): (g: Graph)
    ensures ValidGraph(VertexCount(size), g) && Symmetric(g)
  {
    PushesFacts(size);
    Built(VertexCount(size), Pushes(size));
    Build(Empty(VertexCount(size)), Pushes(size))
  }

  // ---------------------------------------------------------------------------
  // Which cells list which.

  /** A push made by side `n` of some cell of the board. */
  ghost predicate SidePush(size: int, x: PushOp)
  {
    exists u, v, n :: OnBoard(size, u, v) && 0 <= n < 6 && x in SideStep(size, u, v, n)
  }

  /** Every push is made by a side of a cell. */
  lemma PushMembers(size: int, x: PushOp)
    requires x in Pushes(size)
    ensures SidePush(size, x)
  {
    FlattenMembers(Rows(size), x);
    var k :| 0 <= k < |Rows(size)| && x in Rows(size)[k];
    var u := k - size + 1;
    RowAt(size, u);
    RowMembers(size, u, x);
  }

  /** Every push of row `u` is made by a side of one of its cells. */
  lemma RowMembers(size: int, u: int, x: PushOp)
    requires -size < u < size && x in Flatten(RowCells(size, u))
    ensures SidePush(size, x)
  {
    FlattenMembers(RowCells(size, u), x);
    var j :| 0 <= j < |RowCells(size, u)| && x in RowCells(size, u)[j];
    var v := VExtent(size, u).0 + j;
    assert IsValidNode(size, u, v);
    CellMembers(size, u, v, x);
  }

  /** Every push of cell (u, v) is made by one of its sides. */
  lemma CellMembers(size: int, u: int, v: int, x: PushOp)
    requires OnBoard(size, u, v) && x in Flatten(CellSides(size, u, v))
    ensures SidePush(size, x)
  {
    FlattenMembers(CellSides(size, u, v), x);
    var n :| 0 <= n < 6 && x in CellSides(size, u, v)[n];
    assert x in SideStep(size, u, v, n);
  }

  /** The iteration of the loop over `v` for cell (u, v). */
  lemma RowCellAt(size: int, u: int, v: int)
    requires OnBoard(size, u, v)
    ensures 0 <= v - VExtent(size, u).0 < |RowCells(size, u)|
    ensures RowCells(size, u)[v - VExtent(size, u).0] == Flatten(CellSides(size, u, v))
  {
    assert IsValidNode(size, u, v);
  }

  /** Every `v` of the extent of row `u` names a cell of the board. */
  lemma InRow(size: int, u: int, v: int)
    requires -size < u < size && VExtent(size, u).0 <= v <= VExtent(size, u).1
    ensures OnBoard(size, u, v)
  {
    assert IsValidNode(size, u, v);
  }

  /** Before the loop over `v`, no cell of row `u` has been pushed. */
  lemma RowStart(size: int, u: int, P0: seq<PushOp>)
    requires -size < u < size
    ensures P0 == P0 + Flatten(RowCells(size, u)[..VExtent(size, u).0 - VExtent(size, u).0])
  {
    assert RowCells(size, u)[..0] == [];
  }

  /** After the loop over `v`, every cell of row `u` has been pushed. */
  lemma RowEnd(size: int, u: int, P0: seq<PushOp>, P: seq<PushOp>)
    requires -size < u < size
    requires P == P0 + Flatten(RowCells(size, u)[..VExtent(size, u).1 + 1 - VExtent(size, u).0])
    ensures P == P0 + Flatten(RowCells(size, u))
  {
    FlattenAll(RowCells(size, u));
  }

  /** After the pushes of cell (u, v), the loop over `v` has run one more iteration. */
  lemma RowNext(size: int, u: int, v: int, P0: seq<PushOp>, before: seq<PushOp>, after: seq<PushOp>)
    requires OnBoard(size, u, v)
    requires before == P0 + Flatten(RowCells(size, u)[..v - VExtent(size, u).0])
    requires after == before + Flatten(CellSides(size, u, v))
    ensures after == P0 + Flatten(RowCells(size, u)[..v + 1 - VExtent(size, u).0])
  {
    var k := v - VExtent(size, u).0;
    RowCellAt(size, u, v);
    FlattenNext(P0, RowCells(size, u), k, before, after);
    assert v + 1 - VExtent(size, u).0 == k + 1;
  }

  /** The iteration of the loop over `u` for row `u`. */
  lemma RowAt(size: int, u: int)
    requires -size < u < size
    ensures 0 <= u + size - 1 < |Rows(size)| && Rows(size)[u + size - 1] == Flatten(RowCells(size, u))
  {
  }

  /** Every push of every side of every cell is made. */
  lemma SidePushed(size: int, u: int, v: int, n: int, x: PushOp)
    requires OnBoard(size, u, v) && 0 <= n < 6 && x in SideStep(size, u, v, n)
    ensures x in Pushes(size)
  {
    var sides := CellSides(size, u, v);
    assert x in sides[n];
    FlattenMembers(sides, x);
    RowCellAt(size, u, v);
    FlattenMembers(RowCells(size, u), x);
    RowAt(size, u);
    FlattenMembers(Rows(size), x);
  }

  /** An internal entry pushed by a side is one of the two entries of the wall to the neighbour across it. */
  lemma SideInternal(size: int, u: int, v: int, n: int, x: PushOp)
    requires 0 <= n < 6 && x in SideStep(size, u, v, n) && x.1.0 != Outside
    ensures OnBoard(size, u + Neigh[n].0, v + Neigh[n].1)
    ensures (x.0 == VertexIndex(size, u, v) && x.1.0 == VertexIndex(size, u + Neigh[n].0, v + Neigh[n].1)) ||
            (x.1.0 == VertexIndex(size, u, v) && x.0 == VertexIndex(size, u + Neigh[n].0, v + Neigh[n].1))
  {
  }

  /** A pushed internal entry joins two neighbouring cells. */
  lemma PushedNeighbours(size: int, u1: int, v1: int, u2: int, v2: int)
    requires size >= 1 && OnBoard(size, u1, v1) && OnBoard(size, u2, v2)
    requires exists k :: 0 <= k < |Pushes(size)| &&
                         Pushes(size)[k].0 == VertexIndex(size, u1, v1) && Pushes(size)[k].1.0 == VertexIndex(size, u2, v2)
    ensures Neighbours(u1, v1, u2, v2)
  {
    var P := Pushes(size);
    var k :| 0 <= k < |P| && P[k].0 == VertexIndex(size, u1, v1) && P[k].1.0 == VertexIndex(size, u2, v2);
    var x := P[k];
    PushMembers(size, x);
    var u, v, n :| OnBoard(size, u, v) && 0 <= n < 6 && x in SideStep(size, u, v, n);
    IndexIn(size, u2, v2);
    SideInternal(size, u, v, n, x);
    var uu, vv := u + Neigh[n].0, v + Neigh[n].1;
    if x.0 == VertexIndex(size, u, v) && x.1.0 == VertexIndex(size, uu, vv) {
      SameCells(size, u1, v1, u2, v2, u, v, uu, vv);
      NeighbourAt(u1, v1, u2, v2, n);
    } else {
      SameCells(size, u1, v1, u2, v2, uu, vv, u, v);
      NeighOpposite(n);
      NeighbourAt(u1, v1, u2, v2, (n + 3) % 6);
    }
  }

  /** Two pairs of cells numbered alike are the same pairs. */
  lemma SameCells(size: int, u1: int, v1: int, u2: int, v2: int, u3: int, v3: int, u4: int, v4: int)
    requires size >= 1 && OnBoard(size, u1, v1) && OnBoard(size, u2, v2) && OnBoard(size, u3, v3) && OnBoard(size, u4, v4)
    requires VertexIndex(size, u1, v1) == VertexIndex(size, u3, v3) && VertexIndex(size, u2, v2) == VertexIndex(size, u4, v4)
    ensures u1 == u3 && v1 == v3 && u2 == u4 && v2 == v4
  {
    IndexInjective(size, u1, v1, u3, v3);
    IndexInjective(size, u2, v2, u4, v4);
  }

  lemma NeighbourAt(u1: int, v1: int, u2: int, v2: int, n: int)
    requires 0 <= n < 6 && u2 == u1 + Neigh[n].0 && v2 == v1 + Neigh[n].1
    ensures Neighbours(u1, v1, u2, v2)
  {
    assert Neigh[n] == (u2 - u1, v2 - v1);
  }

  /** The wall between two neighbouring cells is pushed, from the larger-numbered one. */
  lemma WallPushed(size: int, u1: int, v1: int, u2: int, v2: int)
    requires OnBoard(size, u1, v1) && OnBoard(size, u2, v2) && Neighbours(u1, v1, u2, v2)
    ensures exists k :: 0 <= k < |Pushes(size)| &&
                        Pushes(size)[k].0 == VertexIndex(size, u1, v1) && Pushes(size)[k].1.0 == VertexIndex(size, u2, v2)
  {
    var n :| 0 <= n < 6 && Neigh[n] == (u2 - u1, v2 - v1);
    if VertexIndex(size, u2, v2) <= VertexIndex(size, u1, v1) {
      PushedFromFirst(size, u1, v1, u2, v2, n);
    } else {
      PushedFromSecond(size, u1, v1, u2, v2, n);
    }
  }

  /** Side `n` of the larger-numbered cell (u1, v1) pushes the wall from (u1, v1) first. */
  lemma PushedFromFirst(size: int, u1: int, v1: int, u2: int, v2: int, n: int)
    requires OnBoard(size, u1, v1) && OnBoard(size, u2, v2) && 0 <= n < 6 && Neigh[n] == (u2 - u1, v2 - v1)
    requires VertexIndex(size, u2, v2) <= VertexIndex(size, u1, v1)
    ensures exists k :: 0 <= k < |Pushes(size)| &&
                        Pushes(size)[k].0 == VertexIndex(size, u1, v1) && Pushes(size)[k].1.0 == VertexIndex(size, u2, v2)
  {
    var a, b := VertexIndex(size, u1, v1), VertexIndex(size, u2, v2);
    assert SideStep(size, u1, v1, n) == Mirror(a, b, [u1, v1, n]);
    var x := SideStep(size, u1, v1, n)[0];
    SidePushed(size, u1, v1, n, x);
    var k :| 0 <= k < |Pushes(size)| && Pushes(size)[k] == x;
  }

  /** The opposite side of the larger-numbered cell (u2, v2) pushes the wall, from (u1, v1) second. */
  lemma PushedFromSecond(size: int, u1: int, v1: int, u2: int, v2: int, n: int)
    requires OnBoard(size, u1, v1) && OnBoard(size, u2, v2) && 0 <= n < 6 && Neigh[n] == (u2 - u1, v2 - v1)
    requires VertexIndex(size, u1, v1) < VertexIndex(size, u2, v2)
    ensures exists k :: 0 <= k < |Pushes(size)| &&
                        Pushes(size)[k].0 == VertexIndex(size, u1, v1) && Pushes(size)[k].1.0 == VertexIndex(size, u2, v2)
  {
    var a, b := VertexIndex(size, u1, v1), VertexIndex(size, u2, v2);
    var m := (n + 3) % 6;
    NeighOpposite(n);
    assert SideStep(size, u2, v2, m) == Mirror(b, a, [u2, v2, m]);
    var x := SideStep(size, u2, v2, m)[1];
    SidePushed(size, u2, v2, m, x);
    var k :| 0 <= k < |Pushes(size)| && Pushes(size)[k] == x;
  }

  /** A cell lists another exactly when the two are neighbours across a side. */
  lemma LayoutAdjacent(size: int, u1: int, v1: int, u2: int, v2: int)
    requires size >= 1 && OnBoard(size, u1, v1) && OnBoard(size, u2, v2)
    ensures Adjacent(Layout(size), VertexIndex(size, u1, v1), VertexIndex(size, u2, v2)) <==> Neighbours(u1, v1, u2, v2)
  {
    IndexIn(size, u1, v1);
    IndexIn(size, u2, v2);
    PushesFacts(size);
    BuiltAdjacent(VertexCount(size), Pushes(size), VertexIndex(size, u1, v1), VertexIndex(size, u2, v2));
    if Adjacent(Layout(size), VertexIndex(size, u1, v1), VertexIndex(size, u2, v2)) {
      PushedNeighbours(size, u1, v1, u2, v2);
    }
    if Neighbours(u1, v1, u2, v2) {
      WallPushed(size, u1, v1, u2, v2);
    }
  }

  /** Side `n` of cell (u, v) faces off the board and is not left open. */
  predicate OutsideSide(size: int, u: int, v: int, n: int)
    requires 0 <= n < 6
  {
    !OnBoard(size, u + Neigh[n].0, v + Neigh[n].1) && !Open(size, VertexIndex(size, u, v), n)
  }

  /** A pushed outside entry belongs to a side facing off the board. */
  lemma PushedOutside(size: int, u: int, v: int)
    requires size >= 1 && OnBoard(size, u, v)
    requires exists k :: 0 <= k < |Pushes(size)| && Pushes(size)[k].0 == VertexIndex(size, u, v) && Pushes(size)[k].1.0 == Outside
    ensures exists n :: 0 <= n < 6 && OutsideSide(size, u, v, n)
  {
    var P := Pushes(size);
    var k :| 0 <= k < |P| && P[k].0 == VertexIndex(size, u, v) && P[k].1.0 == Outside;
    var x := P[k];
    PushMembers(size, x);
    var u', v', n :| OnBoard(size, u', v') && 0 <= n < 6 && x in SideStep(size, u', v', n);
    SideOutside(size, u, v, u', v', n, x);
  }

  /** A push of side `n` of (u', v') that is an outside entry of (u, v) is a side of (u, v) facing off the board. */
  lemma SideOutside(size: int, u: int, v: int, u': int, v': int, n: int, x: PushOp)
    requires OnBoard(size, u, v) && OnBoard(size, u', v') && 0 <= n < 6 && x in SideStep(size, u', v', n)
    requires x.0 == VertexIndex(size, u, v) && x.1.0 == Outside
    ensures OutsideSide(size, u, v, n)
  {
    IndexIn(size, u', v');
    if OnBoard(size, u' + Neigh[n].0, v' + Neigh[n].1) {
      IndexIn(size, u' + Neigh[n].0, v' + Neigh[n].1);
    }
    IndexInjective(size, u, v, u', v');
  }

  /** A side facing off the board, unless open, is pushed as an outside entry. */
  lemma OutsidePushed(size: int, u: int, v: int, n: int)
    requires OnBoard(size, u, v) && 0 <= n < 6 && OutsideSide(size, u, v, n)
    ensures exists k :: 0 <= k < |Pushes(size)| && Pushes(size)[k].0 == VertexIndex(size, u, v) && Pushes(size)[k].1.0 == Outside
  {
    var x := (VertexIndex(size, u, v), (Outside, [u, v, n]));
    assert SideStep(size, u, v, n) == [x];
    SidePushed(size, u, v, n, x);
    var k :| 0 <= k < |Pushes(size)| && Pushes(size)[k] == x;
  }

  /** A cell has an outside wall exactly when one of its sides faces off the board and is not the entry or the exit. */
  lemma LayoutOutside(size: int, u: int, v: int)
    requires size >= 1 && OnBoard(size, u, v)
    ensures Lists(Layout(size), VertexIndex(size, u, v), Outside) <==> exists n :: 0 <= n < 6 && OutsideSide(size, u, v, n)
  {
    IndexIn(size, u, v);
    PushesFacts(size);
    BuiltLists(VertexCount(size), Pushes(size), VertexIndex(size, u, v), Outside);
    if Lists(Layout(size), VertexIndex(size, u, v), Outside) {
      PushedOutside(size, u, v);
    }
    if exists n :: 0 <= n < 6 && OutsideSide(size, u, v, n) {
      var n :| 0 <= n < 6 && OutsideSide(size, u, v, n);
      OutsidePushed(size, u, v, n);
    }
  }

  lemma ReachNeighbour(size: int, u1: int, v1: int, u2: int, v2: int)
    requires size >= 1 && OnBoard(size, u1, v1) && OnBoard(size, u2, v2) && Neighbours(u1, v1, u2, v2)
    requires Reach(Layout(size), VertexIndex(size, 0, 0), VertexIndex(size, u1, v1))
    ensures Reach(Layout(size), VertexIndex(size, 0, 0), VertexIndex(size, u2, v2))
  {
    LayoutAdjacent(size, u1, v1, u2, v2);
    AdjacentReach(Layout(size), VertexIndex(size, 0, 0), VertexIndex(size, u1, v1), VertexIndex(size, u2, v2));
  }

  /** Every cell is reachable from the centre cell (0, 0): step towards row 0, then along it. */
  lemma {:induction false} ReachCell(size: int, u: int, v: int)
    requires size >= 1 && OnBoard(size, u, v)
    ensures Reach(Layout(size), VertexIndex(size, 0, 0), VertexIndex(size, u, v))
    decreases if u < 0 then -u else u, if v < 0 then -v else v
  {
    if u > 0 {
      ReachCell(size, u - 1, v);
      assert Neigh[3] == (1, 0);
      ReachNeighbour(size, u - 1, v, u, v);
    } else if u < 0 {
      ReachCell(size, u + 1, v);
      assert Neigh[0] == (-1, 0);
      ReachNeighbour(size, u + 1, v, u, v);
    } else if v > 0 {
      ReachCell(size, 0, v - 1);
      assert Neigh[2] == (0, 1);
      ReachNeighbour(size, 0, v - 1, 0, v);
    } else if v < 0 {
      ReachCell(size, 0, v + 1);
      assert Neigh[5] == (0, -1);
      ReachNeighbour(size, 0, v + 1, 0, v);
    }
  }

  lemma LayoutConnected(size: int)
    requires size >= 1
    ensures Connected(VertexCount(size), Layout(size))
  {
    var g := Layout(size);
    IndexIn(size, 0, 0);
    forall x | 0 <= x < |g| ensures Reach(g, VertexIndex(size, 0, 0), x) {
      IndexOnto(size, x);
      var u, v :| OnBoard(size, u, v) && VertexIndex(size, u, v) == x;
      ReachCell(size, u, v);
    }
    ReachEverywhere(g, VertexIndex(size, 0, 0));
  }

  class HoneyCombMaze {
    const size: int
    const maze: Maze.Maze

    /** `HoneyCombMaze::HoneyCombMaze`: one vertex per cell, entry 0, exit `3 size (size - 1)`. */
    constructor (size: int)
      ensures this.size == size && fresh(maze)
      ensures maze.vertices == VertexCount(size) && maze.startvertex == 0 && maze.endvertex == EndVertex(size)
      ensures maze.adjacencylist == []
    {
      this.size := size;
      maze := new Maze.Maze(3 * size * (size - 1) + 1, 0, 3 * size * (size - 1));
    }

    /** `HoneyCombMaze::InitialiseGraph`. */
    method InitialiseGraph()
      requires maze.vertices == VertexCount(size) && maze.startvertex == 0 && maze.endvertex == EndVertex(size)
      modifies maze
      ensures maze.adjacencylist == Layout(size)
      ensures maze.SameShape()
    {
      maze.InitialiseGraph();
      ghost var A := maze.adjacencylist;
      ghost var P: seq<PushOp> := [];
      var u := -size + 1;
      assert Rows(size)[..0] == [];
      while u < size
        invariant 0 <= u + size - 1 <= |Rows(size)|
        invariant P == Flatten(Rows(size)[..u + size - 1])
        invariant PushesIn(|A|, P) && maze.adjacencylist == Build(A, P) && maze.SameShape()
      {
        ghost var before := P;
        P := PushRow(u, A, P);
        RowAt(size, u);
        FlattenNext([], Rows(size), u + size - 1, before, P);
        u := u + 1;
      }
      FlattenAll(Rows(size));
    }

    /** One pass of the loop over `u`: the cells of row `u`. */
    method PushRow(u: int, ghost A: Graph, ghost P0: seq<PushOp>) returns (ghost P: seq<PushOp>)
      requires -size < u < size && |A| == VertexCount(size)
      requires maze.startvertex == 0 && maze.endvertex == EndVertex(size)
      requires PushesIn(|A|, P0) && maze.adjacencylist == Build(A, P0)
      modifies maze
      ensures P == P0 + Flatten(RowCells(size, u))
      ensures PushesIn(|A|, P) && maze.adjacencylist == Build(A, P) && maze.SameShape()
    {
      P := P0;
      var vextent := VExtent(size, u);
      var v := vextent.0;
      RowStart(size, u, P0);
      while v <= vextent.1
        invariant vextent.0 <= v <= vextent.1 + 1
        invariant P == P0 + Flatten(RowCells(size, u)[..v - vextent.0])
        invariant PushesIn(|A|, P) && maze.adjacencylist == Build(A, P) && maze.SameShape()
      {
        ghost var before := P;
        InRow(size, u, v);
        P := PushCell(u, v, A, P);
        RowNext(size, u, v, P0, before, P);
        v := v + 1;
      }
      RowEnd(size, u, P0, P);
    }

    /** One pass of the loop over `v`: the six sides of cell (u, v). */
    method PushCell(u: int, v: int, ghost A: Graph, ghost P0: seq<PushOp>) returns (ghost P: seq<PushOp>)
      requires OnBoard(size, u, v) && |A| == VertexCount(size)
      requires maze.startvertex == 0 && maze.endvertex == EndVertex(size)
      requires PushesIn(|A|, P0) && maze.adjacencylist == Build(A, P0)
      modifies maze
      ensures P == P0 + Flatten(CellSides(size, u, v))
      ensures PushesIn(|A|, P) && maze.adjacencylist == Build(A, P) && maze.SameShape()
    {
      P := P0;
      var node := VertexIndex(size, u, v);
      var n := 0;
      while n < 6
        invariant 0 <= n <= 6
        invariant P == P0 + Flatten(CellSides(size, u, v)[..n])
        invariant PushesIn(|A|, P) && maze.adjacencylist == Build(A, P) && maze.SameShape()
      {
        ghost var before := P;
        P := PushSide(u, v, n, node, A, P);
        FlattenNext(P0, CellSides(size, u, v), n, before, P);
        n := n + 1;
      }
      FlattenAll(CellSides(size, u, v));
    }

    /** One pass of the loop over `n`: side `n` of cell (u, v). */
    method PushSide(u: int, v: int, n: int, node: int, ghost A: Graph, ghost P0: seq<PushOp>) returns (ghost P: seq<PushOp>)
      requires OnBoard(size, u, v) && 0 <= n < 6 && node == VertexIndex(size, u, v) && |A| == VertexCount(size)
      requires maze.startvertex == 0 && maze.endvertex == EndVertex(size)
      requires PushesIn(|A|, P0) && maze.adjacencylist == Build(A, P0)
      modifies maze
      ensures P == P0 + SideStep(size, u, v, n)
      ensures PushesIn(|A|, P) && maze.adjacencylist == Build(A, P) && maze.SameShape()
    {
      var uu, vv := u + Neigh[n].0, v + Neigh[n].1;
      if IsValidNode(size, uu, vv) {
        P := PushInnerSide(u, v, n, node, uu, vv, A, P0);
      } else {
        P := PushOuterSide(u, v, n, node, A, P0);
      }
    }

    /** A side with a neighbour across it: the wall is pushed from the larger-numbered cell only. */
    method PushInnerSide(u: int, v: int, n: int, node: int, uu: int, vv: int, ghost A: Graph, ghost P0: seq<PushOp>)
      returns (ghost P: seq<PushOp>)
      requires OnBoard(size, u, v) && 0 <= n < 6 && node == VertexIndex(size, u, v) && |A| == VertexCount(size)
      requires uu == u + Neigh[n].0 && vv == v + Neigh[n].1 && OnBoard(size, uu, vv)
      requires PushesIn(|A|, P0) && maze.adjacencylist == Build(A, P0)
      modifies maze
      ensures P == P0 + SideStep(size, u, v, n)
      ensures PushesIn(|A|, P) && maze.adjacencylist == Build(A, P) && maze.SameShape()
    {
      IndexIn(size, u, v);
      IndexIn(size, uu, vv);
      var nnode := VertexIndex(size, uu, vv);
      if nnode > node {
        P := P0;
      } else {
        P := maze.PushWall(node, nnode, [u, v, n], A, P0);
      }
    }

    /** A side facing off the board: an outside wall, unless it is the entry or the exit. */
    method PushOuterSide(u: int, v: int, n: int, node: int, ghost A: Graph, ghost P0: seq<PushOp>) returns (ghost P: seq<PushOp>)
      requires OnBoard(size, u, v) && 0 <= n < 6 && node == VertexIndex(size, u, v) && |A| == VertexCount(size)
      requires !OnBoard(size, u + Neigh[n].0, v + Neigh[n].1)
      requires maze.startvertex == 0 && maze.endvertex == EndVertex(size)
      requires PushesIn(|A|, P0) && maze.adjacencylist == Build(A, P0)
      modifies maze
      ensures P == P0 + SideStep(size, u, v, n)
      ensures PushesIn(|A|, P) && maze.adjacencylist == Build(A, P) && maze.SameShape()
    {
      if (node == maze.startvertex && n == 0) || (node == maze.endvertex && n == 3) {
        P := P0;
      } else {
        IndexIn(size, u, v);
        P := maze.PushBack(node, (Outside, [u, v, n]), A, P0);
      }
    }
  }
}
