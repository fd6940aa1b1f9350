/**
 * The triangular layout (src/mazetypes/triangularmaze.cpp): `rows` rows of
 * square cells, row `r` holding `rows - r` of them, left-aligned, so that the
 * cells form a staircase. Cells are numbered row by row. Outside walls run
 * along the top, the bottom cell, the left side and the stepped right side,
 * with the entry (left side of the top row) and the exit (right side of the
 * bottom cell, and the diagonal step above it) left open. A border is named by
 * the end points x1, y1, x2, y2 of its `LineBorder`.
 */
module TriangularMaze {
  import opened Graphs
  import opened Layouts
  import opened Numbers
  import Maze

  /** `TriangularMaze::CellsInRow`. */
  function CellsInRow(rows: int, row: int): int
  {
    rows - row
  }

  /** The cells of the rows above `row`: `rows + (rows - 1) + ... + (rows - row + 1)`, in closed form. */
  function CellsBefore(rows: int, row: int): int
    decreases row
  {
    if row <= 0 then 0 else CellsBefore(rows, row - 1) + CellsInRow(rows, row - 1)
  }

  /** The closed form of the sum. */
  lemma {:induction false} CellsBeforeClosed(rows: int, row: int)
    requires row >= 0
    ensures 2 * CellsBefore(rows, row) == row * (2 * rows - row + 1)
    decreases row
  {
    if row > 0 {
      var m, x := row - 1, 2 * rows - row + 1;
      CellsBeforeClosed(rows, m);
      assert 2 * CellsBefore(rows, row) == m * (x + 1) + 2 * (rows - m);
      Distribute(m, x);
      assert (m + 1) * x == m * x + x;
    }
  }

  /** The vertex count of the constructor, `rows (rows + 1) / 2`, is the number of cells of all rows. */
  function VertexCount(rows: int): (count: int)
    ensures rows >= 0 ==> count == CellsBefore(rows, rows) && count >= rows
  {
    var c := CellsBefore(rows, rows);
    if rows >= 0 then
      CellsBeforeClosed(rows, rows);
      ModUnique(rows * (rows + 1), 2, c, 0);
      MultiplyBelow(1, rows + 1, rows);
      rows * (rows + 1) / 2
    else
      rows * (rows + 1) / 2
  }

  /** `TriangularMaze::VertexIndex`. */
  function Index(rows: int, row: int, col: int): int
  {
    CellsBefore(rows, row) + col
  }

  /** A row starts no earlier than the rows above it end. */
  lemma {:induction false} CellsBeforeMonotone(rows: int, a: int, b: int)
    requires 0 <= a <= b <= rows
    ensures CellsBefore(rows, a) <= CellsBefore(rows, b)
    decreases b - a
  {
    if a < b {
      CellsBeforeMonotone(rows, a, b - 1);
    }
  }

  /** Every cell is a vertex, numbered within its row's block. */
  lemma IndexRange(rows: int, row: int, col: int)
    requires 0 <= row < rows && 0 <= col < CellsInRow(rows, row)
    ensures CellsBefore(rows, row) <= Index(rows, row, col) < CellsBefore(rows, row + 1)
    ensures 0 <= Index(rows, row, col) < VertexCount(rows)
  {
    CellsBeforeMonotone(rows, 0, row);
    CellsBeforeMonotone(rows, row + 1, rows);
  }

  lemma IndexIn(rows: int, row: int, col: int)
    requires 0 <= row < rows && 0 <= col < CellsInRow(rows, row)
    ensures 0 <= Index(rows, row, col) < VertexCount(rows)
  {
    IndexRange(rows, row, col);
  }

  /** Two cells are numbered the same only when they are the same cell. */
  lemma IndexInjective(rows: int, r1: int, c1: int, r2: int, c2: int)
    requires 0 <= r1 < rows && 0 <= c1 < CellsInRow(rows, r1)
    requires 0 <= r2 < rows && 0 <= c2 < CellsInRow(rows, r2)
    requires Index(rows, r1, c1) == Index(rows, r2, c2)
    ensures r1 == r2 && c1 == c2
  {
    IndexRange(rows, r1, c1);
    IndexRange(rows, r2, c2);
    if r1 < r2 {
      CellsBeforeMonotone(rows, r1 + 1, r2);
    } else if r2 < r1 {
      CellsBeforeMonotone(rows, r2 + 1, r1);
    }
  }

  /** Every vertex from the start of row `row` on is a cell of that row or a later one. */
  lemma {:induction false} FindRow(rows: int, row: int, x: int)
    requires 0 <= row < rows && CellsBefore(rows, row) <= x < VertexCount(rows)
    ensures exists r, c :: row <= r < rows && 0 <= c < CellsInRow(rows, r) && Index(rows, r, c) == x
    decreases rows - row
  {
    if x < CellsBefore(rows, row + 1) {
      assert Index(rows, row, x - CellsBefore(rows, row)) == x;
    } else {
      FindRow(rows, row + 1, x);
    }
  }

  /** The numbering is onto: every vertex is a cell. */
  lemma IndexOnto(rows: int, x: int)
    requires 0 <= x < VertexCount(rows) && rows >= 1
    ensures exists r, c :: 0 <= r < rows && 0 <= c < CellsInRow(rows, r) && Index(rows, r, c) == x
  {
    FindRow(rows, 0, x);
  }

  // ---------------------------------------------------------------------------
  // The pushes of `InitialiseGraph`, loop by loop.

  /** Top boundary, iteration `i`. */
  function TopStep(rows: int, i: int): seq<PushOp>
  {
    [(Index(rows, 0, i), (Outside, [i, 0, i + 1, 0]))]
  }

  function Top(rows: int): seq<seq<PushOp>>
    requires rows >= 0
  {
    seq(CellsInRow(rows, 0), i => TopStep(rows, i))
  }

  /** The bottom boundary of the single cell of the last row. */
  function Bottom(rows: int): seq<PushOp>
  {
    [(Index(rows, rows - 1, 0), (Outside, [0, rows, 1, rows]))]
  }

  /** The left boundary of a row, except for the entry row. */
  function LeftWall(rows: int, row: int): seq<PushOp>
  {
    if row != 0 then [(Index(rows, row, 0), (Outside, [0, row, 0, row + 1]))] else []
  }

  /** The right boundary of a row, except for the exit cell. */
  function RightWall(rows: int, row: int): seq<PushOp>
  {
    var cells := CellsInRow(rows, row);
    if !(row == rows - 1 && cells == 1) then [(Index(rows, row, cells - 1), (Outside, [cells, row, cells, row + 1]))] else []
  }

  function SideStep(rows: int, row: int): seq<PushOp>
  {
    LeftWall(rows, row) + RightWall(rows, row)
  }

  function Sides(rows: int): seq<seq<PushOp>>
    requires rows >= 0
  {
    seq(rows, row => SideStep(rows, row))
  }

  /** The step of the right edge below the last cell of `row`, except above the exit. */
  function DiagonalStep(rows: int, row: int): seq<PushOp>
  {
    var cells, next := CellsInRow(rows, row), CellsInRow(rows, row + 1);
    if !(row == rows - 2 && next == 1) then [(Index(rows, row, cells - 1), (Outside, [cells, row + 1, next, row + 1]))] else []
  }

  function Diagonal(rows: int): seq<seq<PushOp>>
    requires rows >= 1
  {
    seq(rows - 1, row => DiagonalStep(rows, row))
  }

  /** The wall between cells (row, col) and (row, col + 1). */
  function HorizontalStep(rows: int, row: int, col: int): seq<PushOp>
  {
    Mirror(Index(rows, row, col), Index(rows, row, col + 1), [col + 1, row, col + 1, row + 1])
  }

  function HorizontalRow(rows: int, row: int): seq<seq<PushOp>>
    requires row < rows
  {
    seq(CellsInRow(rows, row) - 1, col => HorizontalStep(rows, row, col))
  }

  function Horizontal(rows: int): seq<seq<PushOp>>
    requires rows >= 0
  {
    seq(rows, row requires 0 <= row < rows => Flatten(HorizontalRow(rows, row)))
  }

  /** The wall between cells (row, col) and (row + 1, col). */
  function VerticalStep(rows: int, row: int, col: int): seq<PushOp>
  {
    Mirror(Index(rows, row, col), Index(rows, row + 1, col), [col, row + 1, col + 1, row + 1])
  }

  function VerticalRow(rows: int, row: int): seq<seq<PushOp>>
    requires row + 1 <= rows
  {
    seq(CellsInRow(rows, row + 1), col => VerticalStep(rows, row, col))
  }

  /** Iteration `col` of row `row` of the vertical loop: the wall below cell (row, col), both cells in range. */
  lemma VerticalAt(rows: int, row: int, col: int)
    requires 0 <= row < rows - 1 && 0 <= col < CellsInRow(rows, row + 1)
    ensures 0 <= Index(rows, row, col) < VertexCount(rows) && 0 <= Index(rows, row + 1, col) < VertexCount(rows)
    ensures |VerticalRow(rows, row)| == CellsInRow(rows, row + 1)
    ensures VerticalRow(rows, row)[col] ==
      Mirror(Index(rows, row, col), Index(rows, row + 1, col), [col, row + 1, col + 1, row + 1])
  {
    IndexIn(rows, row, col);
    IndexIn(rows, row + 1, col);
  }

  function Vertical(rows: int): seq<seq<PushOp>>
    requires rows >= 1
  {
    seq(rows - 1, row requires 0 <= row < rows - 1 => Flatten(VerticalRow(rows, row)))
  }

  /** All pushes of `InitialiseGraph`, in order. */
  function Pushes(rows: int): seq<PushOp>
    requires rows >= 1
  {
    Flatten(Top(rows)) + Bottom(rows) + Flatten(Sides(rows)) + Flatten(Diagonal(rows)) +
    Flatten(Horizontal(rows)) + Flatten(Vertical(rows))
  }

  // ---------------------------------------------------------------------------
  // Counting the pushes.

  lemma OutsideFacts(n: int, u: int, b: BorderId)
    requires 0 <= u < n
    ensures WellFormed(n, [(u, (Outside, b))])
    ensures OutsidePushes([(u, (Outside, b))]) == 1 && InternalPushes([(u, (Outside, b))]) == 0
  {
    MirrorWellFormed(n, u, 0, b);
    MirrorCounts(u, 0, b);
  }

  lemma WallFacts(n: int, u: int, v: int, b: BorderId)
    requires 0 <= u < n && 0 <= v < n
    ensures WellFormed(n, Mirror(u, v, b))
    ensures OutsidePushes(Mirror(u, v, b)) == 0 && InternalPushes(Mirror(u, v, b)) == 2
  {
    MirrorWellFormed(n, u, v, b);
    MirrorCounts(u, v, b);
  }

  lemma TopFacts(rows: int)
    requires rows >= 1
    ensures WellFormed(VertexCount(rows), Flatten(Top(rows)))
    ensures OutsidePushes(Flatten(Top(rows))) == rows && InternalPushes(Flatten(Top(rows))) == 0
  {
    var s := Top(rows);
    forall i | 0 <= i < rows
      ensures WellFormed(VertexCount(rows), s[i]) && OutsidePushes(s[i]) == 1 && InternalPushes(s[i]) == 0
    {
      IndexRange(rows, 0, i);
      OutsideFacts(VertexCount(rows), Index(rows, 0, i), [i, 0, i + 1, 0]);
    }
    FlattenWellFormed(VertexCount(rows), s);
    FlattenUniform(s, 1, 0);
  }

  lemma BottomFacts(rows: int)
    requires rows >= 1
    ensures WellFormed(VertexCount(rows), Bottom(rows))
    ensures OutsidePushes(Bottom(rows)) == 1 && InternalPushes(Bottom(rows)) == 0
  {
    IndexRange(rows, rows - 1, 0);
    OutsideFacts(VertexCount(rows), Index(rows, rows - 1, 0), [0, rows, 1, rows]);
  }

  lemma SideStepFacts(rows: int, row: int)
    requires 0 <= row < rows
    ensures WellFormed(VertexCount(rows), SideStep(rows, row))
    ensures OutsidePushes(SideStep(rows, row)) == (if row != 0 then 1 else 0) + (if row != rows - 1 then 1 else 0)
    ensures InternalPushes(SideStep(rows, row)) == 0
  {
    var cells := CellsInRow(rows, row);
    IndexRange(rows, row, 0);
    IndexRange(rows, row, cells - 1);
    OutsideFacts(VertexCount(rows), Index(rows, row, 0), [0, row, 0, row + 1]);
    OutsideFacts(VertexCount(rows), Index(rows, row, cells - 1), [cells, row, cells, row + 1]);
    PushCountsAppend(LeftWall(rows, row), RightWall(rows, row));
    AppendWellFormed(VertexCount(rows), LeftWall(rows, row), RightWall(rows, row));
  }

  /** The side walls of the first `k` rows: a left wall for all but the first, a right wall for all but the last. */
  lemma {:induction false} SidesCount(rows: int, k: int)
    requires rows >= 1 && 0 <= k <= rows
    ensures WellFormed(VertexCount(rows), Flatten(Sides(rows)[..k]))
    ensures OutsidePushes(Flatten(Sides(rows)[..k])) == (if k >= 1 then k - 1 else 0) + (if k <= rows - 1 then k else rows - 1)
    ensures InternalPushes(Flatten(Sides(rows)[..k])) == 0
    decreases k
  {
    if k == 0 {
      PrefixNone(VertexCount(rows), Sides(rows));
    } else {
      SidesCount(rows, k - 1);
      SideStepFacts(rows, k - 1);
      PrefixStep(VertexCount(rows), Sides(rows), k - 1, OutsidePushes(Flatten(Sides(rows)[..k - 1])), InternalPushes(Flatten(Sides(rows)[..k - 1])), OutsidePushes(Sides(rows)[k - 1]), InternalPushes(Sides(rows)[k - 1]));
    }
  }


  lemma DiagonalStepFacts(rows: int, row: int)
    requires 0 <= row < rows - 1
    ensures WellFormed(VertexCount(rows), DiagonalStep(rows, row))
    ensures OutsidePushes(DiagonalStep(rows, row)) == (if row != rows - 2 then 1 else 0)
    ensures InternalPushes(DiagonalStep(rows, row)) == 0
  {
    var cells := CellsInRow(rows, row);
    IndexRange(rows, row, cells - 1);
    OutsideFacts(VertexCount(rows), Index(rows, row, cells - 1), [cells, row + 1, CellsInRow(rows, row + 1), row + 1]);
  }

  /** The steps of the right edge below the first `k` rows: one for each but the one above the exit. */
  lemma {:induction false} DiagonalCount(rows: int, k: int)
    requires rows >= 1 && 0 <= k <= rows - 1
    ensures WellFormed(VertexCount(rows), Flatten(Diagonal(rows)[..k]))
    ensures OutsidePushes(Flatten(Diagonal(rows)[..k])) == (if 0 <= rows - 2 < k then k - 1 else k)
    ensures InternalPushes(Flatten(Diagonal(rows)[..k])) == 0
    decreases k
  {
    if k == 0 {
      PrefixNone(VertexCount(rows), Diagonal(rows));
    } else {
      DiagonalCount(rows, k - 1);
      DiagonalStepFacts(rows, k - 1);
      PrefixStep(VertexCount(rows), Diagonal(rows), k - 1, OutsidePushes(Flatten(Diagonal(rows)[..k - 1])), InternalPushes(Flatten(Diagonal(rows)[..k - 1])), OutsidePushes(Diagonal(rows)[k - 1]), InternalPushes(Diagonal(rows)[k - 1]));
    }
  }


  lemma HorizontalRowFacts(rows: int, row: int)
    requires 0 <= row < rows
    ensures WellFormed(VertexCount(rows), Flatten(HorizontalRow(rows, row)))
    ensures OutsidePushes(Flatten(HorizontalRow(rows, row))) == 0
    ensures InternalPushes(Flatten(HorizontalRow(rows, row))) == 2 * (CellsInRow(rows, row) - 1)
  {
    var s := HorizontalRow(rows, row);
    forall col | 0 <= col < CellsInRow(rows, row) - 1
      ensures WellFormed(VertexCount(rows), s[col]) && OutsidePushes(s[col]) == 0 && InternalPushes(s[col]) == 2
    {
      IndexRange(rows, row, col);
      IndexRange(rows, row, col + 1);
      WallFacts(VertexCount(rows), Index(rows, row, col), Index(rows, row, col + 1), [col + 1, row, col + 1, row + 1]);
    }
    FlattenWellFormed(VertexCount(rows), s);
    FlattenUniform(s, 0, 2);
  }

  /** The walls inside the first `k` rows: two entries for each pair of cells side by side. */
  lemma {:induction false} HorizontalCount(rows: int, k: int)
    requires 0 <= k <= rows
    ensures WellFormed(VertexCount(rows), Flatten(Horizontal(rows)[..k]))
    ensures OutsidePushes(Flatten(Horizontal(rows)[..k])) == 0
    ensures InternalPushes(Flatten(Horizontal(rows)[..k])) == 2 * (CellsBefore(rows, k) - k)
    decreases k
  {
    if k == 0 {
      PrefixNone(VertexCount(rows), Horizontal(rows));
    } else {
      HorizontalCount(rows, k - 1);
      HorizontalRowFacts(rows, k - 1);
      PrefixStep(VertexCount(rows), Horizontal(rows), k - 1, OutsidePushes(Flatten(Horizontal(rows)[..k - 1])), InternalPushes(Flatten(Horizontal(rows)[..k - 1])), OutsidePushes(Horizontal(rows)[k - 1]), InternalPushes(Horizontal(rows)[k - 1]));
    }
  }


  lemma VerticalRowFacts(rows: int, row: int)
    requires 0 <= row < rows - 1
    ensures WellFormed(VertexCount(rows), Flatten(VerticalRow(rows, row)))
    ensures OutsidePushes(Flatten(VerticalRow(rows, row))) == 0
    ensures InternalPushes(Flatten(VerticalRow(rows, row))) == 2 * CellsInRow(rows, row + 1)
  {
    var s := VerticalRow(rows, row);
    forall col | 0 <= col < CellsInRow(rows, row + 1)
      ensures WellFormed(VertexCount(rows), s[col]) && OutsidePushes(s[col]) == 0 && InternalPushes(s[col]) == 2
    {
      IndexRange(rows, row, col);
      IndexRange(rows, row + 1, col);
      WallFacts(VertexCount(rows), Index(rows, row, col), Index(rows, row + 1, col), [col, row + 1, col + 1, row + 1]);
    }
    FlattenWellFormed(VertexCount(rows), s);
    FlattenUniform(s, 0, 2);
  }

  /** The walls below the first `k` rows: two entries for each cell of the row below. */
  lemma {:induction false} VerticalCount(rows: int, k: int)
    requires rows >= 1 && 0 <= k <= rows - 1
    ensures WellFormed(VertexCount(rows), Flatten(Vertical(rows)[..k]))
    ensures OutsidePushes(Flatten(Vertical(rows)[..k])) == 0
    ensures InternalPushes(Flatten(Vertical(rows)[..k])) == 2 * (CellsBefore(rows, k) - k)
    decreases k
  {
    if k == 0 {
      PrefixNone(VertexCount(rows), Vertical(rows));
    } else {
      VerticalCount(rows, k - 1);
      VerticalRowFacts(rows, k - 1);
      PrefixStep(VertexCount(rows), Vertical(rows), k - 1, OutsidePushes(Flatten(Vertical(rows)[..k - 1])), InternalPushes(Flatten(Vertical(rows)[..k - 1])), OutsidePushes(Vertical(rows)[k - 1]), InternalPushes(Vertical(rows)[k - 1]));
    }
  }


  lemma SegmentFacts(rows: int)
    requires rows >= 1
    ensures WellFormed(VertexCount(rows), Flatten(Top(rows))) && WellFormed(VertexCount(rows), Bottom(rows))
    ensures WellFormed(VertexCount(rows), Flatten(Sides(rows))) && WellFormed(VertexCount(rows), Flatten(Diagonal(rows)))
    ensures WellFormed(VertexCount(rows), Flatten(Horizontal(rows))) && WellFormed(VertexCount(rows), Flatten(Vertical(rows)))
    ensures OutsidePushes(Flatten(Top(rows))) == rows && OutsidePushes(Bottom(rows)) == 1
    ensures OutsidePushes(Flatten(Sides(rows))) == 2 * (rows - 1)
    ensures OutsidePushes(Flatten(Diagonal(rows))) == (if rows >= 2 then rows - 2 else 0)
    ensures OutsidePushes(Flatten(Horizontal(rows))) == 0 && OutsidePushes(Flatten(Vertical(rows))) == 0
    ensures InternalPushes(Flatten(Top(rows))) == 0 && InternalPushes(Bottom(rows)) == 0
    ensures InternalPushes(Flatten(Sides(rows))) == 0 && InternalPushes(Flatten(Diagonal(rows))) == 0
    ensures InternalPushes(Flatten(Horizontal(rows))) == 2 * (VertexCount(rows) - rows)
    ensures InternalPushes(Flatten(Vertical(rows))) == 2 * (VertexCount(rows) - rows)
  {
    TopFacts(rows);
    BottomFacts(rows);
    SidesCount(rows, rows);
    FlattenAll(Sides(rows));
    DiagonalCount(rows, rows - 1);
    FlattenAll(Diagonal(rows));
    HorizontalCount(rows, rows);
    FlattenAll(Horizontal(rows));
    VerticalCount(rows, rows - 1);
    FlattenAll(Vertical(rows));
  }

  lemma PushesFacts(rows: int)
    requires rows >= 1
    ensures WellFormed(VertexCount(rows), Pushes(rows))
    ensures OutsidePushes(Pushes(rows)) == (if rows == 1 then 2 else 4 * rows - 3)
    ensures InternalPushes(Pushes(rows)) == 4 * (VertexCount(rows) - rows)
  {
    var n := VertexCount(rows);
    var a, b, c := Flatten(Top(rows)), Bottom(rows), Flatten(Sides(rows));
    var d, e, f := Flatten(Diagonal(rows)), Flatten(Horizontal(rows)), Flatten(Vertical(rows));
    SegmentFacts(rows);
    AppendWellFormed(n, a, b);
    AppendWellFormed(n, a + b, c);
    AppendWellFormed(n, a + b + c, d);
    AppendWellFormed(n, a + b + c + d, e);
    AppendWellFormed(n, a + b + c + d + e, f);
    PushCountsAppend(a, b);
    PushCountsAppend(a + b, c);
    PushCountsAppend(a + b + c, d);
    PushCountsAppend(a + b + c + d, e);
    PushCountsAppend(a + b + c + d + e, f);
  }

  lemma InternalWallCount(rows: int)
    requires rows >= 1
    ensures 4 * (VertexCount(rows) - rows) == 2 * rows * (rows - 1)
  {
    CellsBeforeClosed(rows, rows);
  }

  /**
   * The graph `InitialiseGraph` builds: valid and symmetric, with `4 rows - 3`
   * outside walls (two for a single cell), and both entries of
   * `rows (rows - 1)` internal walls.
   */
  function Layout(rows: int): (g: Graph)
    requires rows >= 1
    ensures ValidGraph(VertexCount(rows), g) && Symmetric(g)
    ensures OutsideWalls(g) == (if rows == 1 then 2 else 4 * rows - 3)
    ensures InternalEntries(g) == 2 * rows * (rows - 1)
  {
    PushesFacts(rows);
    Built(VertexCount(rows), Pushes(rows));
    InternalWallCount(rows);
    Build(Empty(VertexCount(rows)), Pushes(rows))
  }

  // ---------------------------------------------------------------------------
  // Which cells list which.

  /** The pushes of an internal wall between cells side by side. */
  ghost predicate HorizontalPush(rows: int, x: PushOp)
  {
    exists row, col :: 0 <= row < rows && 0 <= col < CellsInRow(rows, row) - 1 && x in HorizontalStep(rows, row, col)
  }

  /** The pushes of an internal wall between cells one above the other. */
  ghost predicate VerticalPush(rows: int, x: PushOp)
  {
    exists row, col :: 0 <= row < rows - 1 && 0 <= col < CellsInRow(rows, row + 1) && x in VerticalStep(rows, row, col)
  }

  /** The boundary loops push outside walls only. */
  lemma OutsideMembers(rows: int, x: PushOp)
    requires rows >= 1
    requires x in Flatten(Top(rows)) || x in Bottom(rows) || x in Flatten(Sides(rows)) || x in Flatten(Diagonal(rows))
    ensures x.1.0 == Outside
  {
    if x in Flatten(Top(rows)) {
      FlattenMembers(Top(rows), x);
    } else if x in Flatten(Sides(rows)) {
      FlattenMembers(Sides(rows), x);
    } else if x in Flatten(Diagonal(rows)) {
      FlattenMembers(Diagonal(rows), x);
    }
  }

  /** Every internal entry pushed belongs to a wall between two neighbouring cells. */
  lemma InternalMembers(rows: int, x: PushOp)
    requires rows >= 1 && x in Pushes(rows) && x.1.0 != Outside
    ensures HorizontalPush(rows, x) || VerticalPush(rows, x)
  {
    var a, b, c := Flatten(Top(rows)), Bottom(rows), Flatten(Sides(rows));
    var d, e, f := Flatten(Diagonal(rows)), Flatten(Horizontal(rows)), Flatten(Vertical(rows));
    assert x in a || x in b || x in c || x in d || x in e || x in f;
    if x in a || x in b || x in c || x in d {
      OutsideMembers(rows, x);
    } else if x in e {
      FlattenMembers(Horizontal(rows), x);
      var row :| 0 <= row < rows && x in Flatten(HorizontalRow(rows, row));
      FlattenMembers(HorizontalRow(rows, row), x);
      var col :| 0 <= col < CellsInRow(rows, row) - 1 && x in HorizontalRow(rows, row)[col];
      assert x in HorizontalStep(rows, row, col);
    } else {
      FlattenMembers(Vertical(rows), x);
      var row :| 0 <= row < rows - 1 && x in Flatten(VerticalRow(rows, row));
      FlattenMembers(VerticalRow(rows, row), x);
      var col :| 0 <= col < CellsInRow(rows, row + 1) && x in VerticalRow(rows, row)[col];
      assert x in VerticalStep(rows, row, col);
    }
  }

  /** Both pushes of every wall between neighbouring cells are made. */
  lemma WallsPushed(rows: int, row: int, col: int, x: PushOp)
    requires rows >= 1
    requires (0 <= row < rows && 0 <= col < CellsInRow(rows, row) - 1 && x in HorizontalStep(rows, row, col)) ||
             (0 <= row < rows - 1 && 0 <= col < CellsInRow(rows, row + 1) && x in VerticalStep(rows, row, col))
    ensures x in Pushes(rows)
  {
    if 0 <= row < rows && 0 <= col < CellsInRow(rows, row) - 1 && x in HorizontalStep(rows, row, col) {
      assert x in HorizontalRow(rows, row)[col];
      FlattenMembers(HorizontalRow(rows, row), x);
      assert x in Horizontal(rows)[row];
      FlattenMembers(Horizontal(rows), x);
    } else {
      assert x in VerticalRow(rows, row)[col];
      FlattenMembers(VerticalRow(rows, row), x);
      assert x in Vertical(rows)[row];
      FlattenMembers(Vertical(rows), x);
    }
  }

  /** (r, c) is a cell of the staircase. */
  predicate Cell(rows: int, r: int, c: int)
  {
    0 <= r < rows && 0 <= c < CellsInRow(rows, r)
  }

  lemma HorizontalNeighbours(rows: int, x: PushOp, r1: int, c1: int, r2: int, c2: int)
    requires HorizontalPush(rows, x) && Cell(rows, r1, c1) && Cell(rows, r2, c2)
    requires x.0 == Index(rows, r1, c1) && x.1.0 == Index(rows, r2, c2)
    ensures GridNeighbours(r1, c1, r2, c2)
  {
    var row, col :| 0 <= row < rows && 0 <= col < CellsInRow(rows, row) - 1 && x in HorizontalStep(rows, row, col);
    if x == HorizontalStep(rows, row, col)[0] {
      IndexInjective(rows, r1, c1, row, col);
      IndexInjective(rows, r2, c2, row, col + 1);
    } else {
      IndexInjective(rows, r1, c1, row, col + 1);
      IndexInjective(rows, r2, c2, row, col);
    }
  }

  lemma VerticalNeighbours(rows: int, x: PushOp, r1: int, c1: int, r2: int, c2: int)
    requires VerticalPush(rows, x) && Cell(rows, r1, c1) && Cell(rows, r2, c2)
    requires x.0 == Index(rows, r1, c1) && x.1.0 == Index(rows, r2, c2)
    ensures GridNeighbours(r1, c1, r2, c2)
  {
    var row, col :| 0 <= row < rows - 1 && 0 <= col < CellsInRow(rows, row + 1) && x in VerticalStep(rows, row, col);
    if x == VerticalStep(rows, row, col)[0] {
      IndexInjective(rows, r1, c1, row, col);
      IndexInjective(rows, r2, c2, row + 1, col);
    } else {
      IndexInjective(rows, r1, c1, row + 1, col);
      IndexInjective(rows, r2, c2, row, col);
    }
  }

  /** The push that lists one cell from a neighbouring one. */
  function WallPush(rows: int, r1: int, c1: int, r2: int, c2: int): (x: PushOp)
    requires GridNeighbours(r1, c1, r2, c2)
    ensures x.0 == Index(rows, r1, c1) && x.1.0 == Index(rows, r2, c2)
  {
    if r1 == r2 && c2 == c1 + 1 then HorizontalStep(rows, r1, c1)[0]
    else if r1 == r2 then HorizontalStep(rows, r1, c2)[1]
    else if r2 == r1 + 1 then VerticalStep(rows, r1, c1)[0]
    else VerticalStep(rows, r2, c1)[1]
  }

  lemma WallPushPushed(rows: int, r1: int, c1: int, r2: int, c2: int)
    requires GridNeighbours(r1, c1, r2, c2) && Cell(rows, r1, c1) && Cell(rows, r2, c2)
    ensures exists k :: 0 <= k < |Pushes(rows)| &&
                        Pushes(rows)[k].0 == Index(rows, r1, c1) && Pushes(rows)[k].1.0 == Index(rows, r2, c2)
  {
    var x := WallPush(rows, r1, c1, r2, c2);
    if r1 == r2 && c2 == c1 + 1 {
      WallsPushed(rows, r1, c1, x);
    } else if r1 == r2 {
      WallsPushed(rows, r1, c2, x);
    } else if r2 == r1 + 1 {
      WallsPushed(rows, r1, c1, x);
    } else {
      WallsPushed(rows, r2, c1, x);
    }
    var k :| 0 <= k < |Pushes(rows)| && Pushes(rows)[k] == x;
  }

  lemma PushedNeighbours(rows: int, r1: int, c1: int, r2: int, c2: int)
    requires rows >= 1 && Cell(rows, r1, c1) && Cell(rows, r2, c2)
    requires exists k :: 0 <= k < |Pushes(rows)| &&
                         Pushes(rows)[k].0 == Index(rows, r1, c1) && Pushes(rows)[k].1.0 == Index(rows, r2, c2)
    ensures GridNeighbours(r1, c1, r2, c2)
  {
    var P := Pushes(rows);
    var k :| 0 <= k < |P| && P[k].0 == Index(rows, r1, c1) && P[k].1.0 == Index(rows, r2, c2);
    IndexRange(rows, r2, c2);
    InternalMembers(rows, P[k]);
    if HorizontalPush(rows, P[k]) {
      HorizontalNeighbours(rows, P[k], r1, c1, r2, c2);
    } else {
      VerticalNeighbours(rows, P[k], r1, c1, r2, c2);
    }
  }

  /** A cell lists another exactly when the two share a side: the staircase is a grid of squares. */
  lemma LayoutAdjacent(rows: int, r1: int, c1: int, r2: int, c2: int)
    requires rows >= 1 && Cell(rows, r1, c1) && Cell(rows, r2, c2)
    ensures Adjacent(Layout(rows), Index(rows, r1, c1), Index(rows, r2, c2)) <==> GridNeighbours(r1, c1, r2, c2)
  {
    IndexRange(rows, r1, c1);
    IndexRange(rows, r2, c2);
    PushesFacts(rows);
    BuiltAdjacent(VertexCount(rows), Pushes(rows), Index(rows, r1, c1), Index(rows, r2, c2));
    if Adjacent(Layout(rows), Index(rows, r1, c1), Index(rows, r2, c2)) {
      PushedNeighbours(rows, r1, c1, r2, c2);
    }
    if GridNeighbours(r1, c1, r2, c2) {
      WallPushPushed(rows, r1, c1, r2, c2);
    }
  }

  lemma ReachNeighbour(rows: int, r1: int, c1: int, r2: int, c2: int)
    requires rows >= 1 && GridNeighbours(r1, c1, r2, c2) && Cell(rows, r1, c1) && Cell(rows, r2, c2)
    requires Reach(Layout(rows), 0, Index(rows, r1, c1))
    ensures Reach(Layout(rows), 0, Index(rows, r2, c2))
  {
    LayoutAdjacent(rows, r1, c1, r2, c2);
    AdjacentReach(Layout(rows), 0, Index(rows, r1, c1), Index(rows, r2, c2));
  }

  /** The first cell reaches itself. */
  lemma ReachOrigin(rows: int)
    requires rows >= 1
    ensures Reach(Layout(rows), 0, Index(rows, 0, 0))
  {
    assert Index(rows, 0, 0) == 0;
  }

  /** Every cell of the top row is reachable from the first, walking right. */
  lemma {:induction false} ReachTop(rows: int, c: int)
    requires rows >= 1 && 0 <= c < rows
    ensures Reach(Layout(rows), 0, Index(rows, 0, c))
  {
    if c == 0 {
      ReachOrigin(rows);
    } else {
      ReachTop(rows, c - 1);
      assert GridNeighbours(0, c - 1, 0, c);
      ReachNeighbour(rows, 0, c - 1, 0, c);
    }
  }

  /** Every cell is reachable from the first: along the top row, then down its column. */
  lemma {:induction false} ReachCell(rows: int, r: int, c: int)
    requires rows >= 1 && Cell(rows, r, c)
    ensures Reach(Layout(rows), 0, Index(rows, r, c))
  {
    if r > 0 {
      ReachCell(rows, r - 1, c);
      ReachNeighbour(rows, r - 1, c, r, c);
    } else {
      ReachTop(rows, c);
    }
  }

  lemma LayoutConnected(rows: int)
    requires rows >= 1
    ensures Connected(VertexCount(rows), Layout(rows))
  {
    var g := Layout(rows);
    forall x | 0 <= x < |g| ensures Reach(g, 0, x) {
      IndexOnto(rows, x);
      var r, c :| 0 <= r < rows && 0 <= c < CellsInRow(rows, r) && Index(rows, r, c) == x;
      ReachCell(rows, r, c);
    }
    ReachEverywhere(g, 0);
  }

  class TriangularMaze {
    const rows: int
    const maze: Maze.Maze

    /** `TriangularMaze::TriangularMaze`: one list per cell, entry at the first cell, exit at the last. */
    constructor (rows: int)
      requires rows >= 0
      ensures this.rows == rows && fresh(maze)
      ensures maze.vertices == VertexCount(rows) && maze.startvertex == 0 && maze.endvertex == VertexCount(rows) - 1
      ensures maze.adjacencylist == Empty(VertexCount(rows))
    {
      this.rows := rows;
      var base := new Maze.Maze(0, 0, 1);
      base.vertices := rows * (rows + 1) / 2;
      base.adjacencylist := Empty(base.vertices);
      base.startvertex := 0;
      base.endvertex := base.vertices - 1;
      maze := base;
    }

    /** `TriangularMaze::CellsBeforeRow`: the running total over the rows above. */
    method CellsBeforeRow(row: int) returns (total: int)
      ensures total == CellsBefore(rows, row)
    {
      total := 0;
      var r := 0;
      while r < row
        invariant 0 <= r <= (if row < 0 then 0 else row)
        invariant total == CellsBefore(rows, r)
      {
        total := total + CellsInRow(rows, r);
        r := r + 1;
      }
    }

    /** `TriangularMaze::VertexIndex`. */
    method VertexIndex(row: int, col: int) returns (v: int)
      ensures v == Index(rows, row, col)
    {
      var before := CellsBeforeRow(row);
      v := before + col;
    }

    /** `TriangularMaze::InitialiseGraph`. */
    method InitialiseGraph()
      requires rows >= 1 && maze.vertices == VertexCount(rows)
      modifies maze
      ensures maze.adjacencylist == Layout(rows)
      ensures maze.SameShape()
    {
      maze.InitialiseGraph();
      ghost var A := maze.adjacencylist;
      ghost var P: seq<PushOp> := [];
      P := PushTop(A, P);
      assert P == Flatten(Top(rows));
      IndexIn(rows, rows - 1, 0);
      var bottom := VertexIndex(rows - 1, 0);
      P := maze.PushBack(bottom, (Outside, [0, rows, 1, rows]), A, P);
      P := PushSides(A, P);
      P := PushDiagonals(A, P);
      P := PushHorizontal(A, P);
      P := PushVertical(A, P);
    }

    method PushTop(ghost A: Graph, ghost P0: seq<PushOp>) returns (ghost P: seq<PushOp>)
      requires rows >= 1 && |A| == VertexCount(rows)
      requires PushesIn(|A|, P0) && maze.adjacencylist == Build(A, P0)
      modifies maze
      ensures P == P0 + Flatten(Top(rows))
      ensures PushesIn(|A|, P) && maze.adjacencylist == Build(A, P) && maze.SameShape()
    {
      P := P0;
      var cells := CellsInRow(rows, 0);
      var i := 0;
      while i < cells
        invariant 0 <= i <= cells == |Top(rows)|
        invariant P == P0 + Flatten(Top(rows)[..i])
        invariant PushesIn(|A|, P) && maze.adjacencylist == Build(A, P) && maze.SameShape()
      {
        IndexIn(rows, 0, i);
        var v := VertexIndex(0, i);
        ghost var before := P;
        P := maze.PushBack(v, (Outside, [i, 0, i + 1, 0]), A, P);
        FlattenNext(P0, Top(rows), i, before, P);
        i := i + 1;
      }
      FlattenAll(Top(rows));
    }

    method PushSides(ghost A: Graph, ghost P0: seq<PushOp>) returns (ghost P: seq<PushOp>)
      requires rows >= 1 && |A| == VertexCount(rows)
      requires PushesIn(|A|, P0) && maze.adjacencylist == Build(A, P0)
      modifies maze
      ensures P == P0 + Flatten(Sides(rows))
      ensures PushesIn(|A|, P) && maze.adjacencylist == Build(A, P) && maze.SameShape()
    {
      P := P0;
      var row := 0;
      while row < rows
        invariant 0 <= row <= rows
        invariant P == P0 + Flatten(Sides(rows)[..row])
        invariant PushesIn(|A|, P) && maze.adjacencylist == Build(A, P) && maze.SameShape()
      {
        ghost var before := P;
        P := PushSideWalls(row, A, P);
        FlattenNext(P0, Sides(rows), row, before, P);
        row := row + 1;
      }
      FlattenAll(Sides(rows));
    }

    /** One pass of the side loop: the left wall unless in the entry row, then the right wall. */
    method PushSideWalls(row: int, ghost A: Graph, ghost P0: seq<PushOp>) returns (ghost P: seq<PushOp>)
      requires 0 <= row < rows && |A| == VertexCount(rows)
      requires PushesIn(|A|, P0) && maze.adjacencylist == Build(A, P0)
      modifies maze
      ensures P == P0 + SideStep(rows, row)
      ensures PushesIn(|A|, P) && maze.adjacencylist == Build(A, P) && maze.SameShape()
    {
      P := P0;
      if row != 0 {
        IndexIn(rows, row, 0);
        var v := VertexIndex(row, 0);
        P := maze.PushBack(v, (Outside, [0, row, 0, row + 1]), A, P);
      }
      P := PushRightWall(row, A, P0, P);
    }

    method PushRightWall(row: int, ghost A: Graph, ghost P0: seq<PushOp>, ghost P1: seq<PushOp>) returns (ghost P: seq<PushOp>)
      requires 0 <= row < rows && |A| == VertexCount(rows)
      requires P1 == P0 + LeftWall(rows, row)
      requires PushesIn(|A|, P1) && maze.adjacencylist == Build(A, P1)
      modifies maze
      ensures P == P0 + SideStep(rows, row)
      ensures PushesIn(|A|, P) && maze.adjacencylist == Build(A, P) && maze.SameShape()
    {
      P := P1;
      var cells := CellsInRow(rows, row);
      if !(row == rows - 1 && cells == 1) {
        IndexIn(rows, row, cells - 1);
        var v := VertexIndex(row, cells - 1);
        P := maze.PushBack(v, (Outside, [cells, row, cells, row + 1]), A, P);
      }
      assert P == P1 + RightWall(rows, row);
    }

    method PushDiagonals(ghost A: Graph, ghost P0: seq<PushOp>) returns (ghost P: seq<PushOp>)
      requires rows >= 1 && |A| == VertexCount(rows)
      requires PushesIn(|A|, P0) && maze.adjacencylist == Build(A, P0)
      modifies maze
      ensures P == P0 + Flatten(Diagonal(rows))
      ensures PushesIn(|A|, P) && maze.adjacencylist == Build(A, P) && maze.SameShape()
    {
      P := P0;
      var row := 0;
      while row < rows - 1
        invariant 0 <= row <= rows - 1
        invariant P == P0 + Flatten(Diagonal(rows)[..row])
        invariant PushesIn(|A|, P) && maze.adjacencylist == Build(A, P) && maze.SameShape()
      {
        ghost var before := P;
        P := PushDiagonal(row, A, P);
        FlattenNext(P0, Diagonal(rows), row, before, P);
        row := row + 1;
      }
      FlattenAll(Diagonal(rows));
    }

    /** One pass of the diagonal loop. */
    method PushDiagonal(row: int, ghost A: Graph, ghost P0: seq<PushOp>) returns (ghost P: seq<PushOp>)
      requires 0 <= row < rows - 1 && |A| == VertexCount(rows)
      requires PushesIn(|A|, P0) && maze.adjacencylist == Build(A, P0)
      modifies maze
      ensures P == P0 + DiagonalStep(rows, row)
      ensures PushesIn(|A|, P) && maze.adjacencylist == Build(A, P) && maze.SameShape()
    {
      P := P0;
      var cells := CellsInRow(rows, row);
      var next := CellsInRow(rows, row + 1);
      if !(row == rows - 2 && next == 1) {
        IndexIn(rows, row, cells - 1);
        var v := VertexIndex(row, cells - 1);
        P := maze.PushBack(v, (Outside, [cells, row + 1, next, row + 1]), A, P);
      }
      assert P == P0 + DiagonalStep(rows, row);
    }

    method PushHorizontal(ghost A: Graph, ghost P0: seq<PushOp>) returns (ghost P: seq<PushOp>)
      requires rows >= 1 && |A| == VertexCount(rows)
      requires PushesIn(|A|, P0) && maze.adjacencylist == Build(A, P0)
      modifies maze
      ensures P == P0 + Flatten(Horizontal(rows))
      ensures PushesIn(|A|, P) && maze.adjacencylist == Build(A, P) && maze.SameShape()
    {
      P := P0;
      var row := 0;
      while row < rows
        invariant 0 <= row <= rows
        invariant P == P0 + Flatten(Horizontal(rows)[..row])
        invariant PushesIn(|A|, P) && maze.adjacencylist == Build(A, P) && maze.SameShape()
      {
        ghost var before := P;
        P := PushHorizontalRow(row, A, P);
        FlattenNext(P0, Horizontal(rows), row, before, P);
        row := row + 1;
      }
      FlattenAll(Horizontal(rows));
    }

    method PushHorizontalRow(row: int, ghost A: Graph, ghost P0: seq<PushOp>) returns (ghost P: seq<PushOp>)
      requires 0 <= row < rows && |A| == VertexCount(rows)
      requires PushesIn(|A|, P0) && maze.adjacencylist == Build(A, P0)
      modifies maze
      ensures P == P0 + Flatten(HorizontalRow(rows, row))
      ensures PushesIn(|A|, P) && maze.adjacencylist == Build(A, P) && maze.SameShape()
    {
      P := P0;
      var cells := CellsInRow(rows, row);
      var col := 0;
      while col < cells - 1
        invariant 0 <= col <= cells - 1
        invariant P == P0 + Flatten(HorizontalRow(rows, row)[..col])
        invariant PushesIn(|A|, P) && maze.adjacencylist == Build(A, P) && maze.SameShape()
      {
        IndexIn(rows, row, col);
        IndexIn(rows, row, col + 1);
        var u := VertexIndex(row, col);
        var v := VertexIndex(row, col + 1);
        ghost var before := P;
        P := maze.PushWall(u, v, [col + 1, row, col + 1, row + 1], A, P);
        FlattenNext(P0, HorizontalRow(rows, row), col, before, P);
        col := col + 1;
      }
      FlattenAll(HorizontalRow(rows, row));
    }

    method PushVertical(ghost A: Graph, ghost P0: seq<PushOp>) returns (ghost P: seq<PushOp>)
      requires rows >= 1 && |A| == VertexCount(rows)
      requires PushesIn(|A|, P0) && maze.adjacencylist == Build(A, P0)
      modifies maze
      ensures P == P0 + Flatten(Vertical(rows))
      ensures PushesIn(|A|, P) && maze.adjacencylist == Build(A, P) && maze.SameShape()
    {
      P := P0;
      var row := 0;
      while row < rows - 1
        invariant 0 <= row <= rows - 1
        invariant P == P0 + Flatten(Vertical(rows)[..row])
        invariant PushesIn(|A|, P) && maze.adjacencylist == Build(A, P) && maze.SameShape()
      {
        ghost var before := P;
        P := PushVerticalRow(row, A, P);
        FlattenNext(P0, Vertical(rows), row, before, P);
        row := row + 1;
      }
      FlattenAll(Vertical(rows));
    }

    method PushVerticalRow(row: int, ghost A: Graph, ghost P0: seq<PushOp>) returns (ghost P: seq<PushOp>)
      requires 0 <= row < rows - 1 && |A| == VertexCount(rows)
      requires PushesIn(|A|, P0) && maze.adjacencylist == Build(A, P0)
      modifies maze
      ensures P == P0 + Flatten(VerticalRow(rows, row))
      ensures PushesIn(|A|, P) && maze.adjacencylist == Build(A, P) && maze.SameShape()
    {
      P := P0;
      var next := CellsInRow(rows, row + 1);
      var col := 0;
      while col < next
        invariant 0 <= col <= next
        invariant P == P0 + Flatten(VerticalRow(rows, row)[..col])
        invariant PushesIn(|A|, P) && maze.adjacencylist == Build(A, P) && maze.SameShape()
      {
        ghost var before := P;
        P := PushBelow(row, col, A, P);
        FlattenNext(P0, VerticalRow(rows, row), col, before, P);
        col := col + 1;
      }
      FlattenAll(VerticalRow(rows, row));
    }

    /** One pass of the loop over `col`: the wall between cell (row, col) and the cell below it. */
    method PushBelow(row: int, col: int, ghost A: Graph, ghost P0: seq<PushOp>) returns (ghost P: seq<PushOp>)
      requires 0 <= row < rows - 1 && 0 <= col < CellsInRow(rows, row + 1) && |A| == VertexCount(rows)
      requires PushesIn(|A|, P0) && maze.adjacencylist == Build(A, P0)
      modifies maze
      ensures col < |VerticalRow(rows, row)| && P == P0 + VerticalRow(rows, row)[col]
      ensures PushesIn(|A|, P) && maze.adjacencylist == Build(A, P) && maze.SameShape()
    {
      VerticalAt(rows, row, col);
      var u := VertexIndex(row, col);
      var v := VertexIndex(row + 1, col);
      P := maze.PushWall(u, v, [col, row + 1, col + 1, row + 1], A, P0);
    }
  }
}
