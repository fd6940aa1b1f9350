/**
 * The hexagonal layout (src/hexagonalmaze.cpp): a hexagon cut into six
 * triangular sectors, each cut into `size * size` triangular cells. In a
 * sector, the "up" cells sit in rows 0 to `size - 1`, row `r` holding `r + 1`
 * of them, and the "down" cells between them in rows 0 to `size - 2`. Walls
 * join an up cell to the down cells beside it (edges of type 0, 1 and 2), the
 * last up cell of each row to the first up cell of the same row in the next
 * sector, and the outer up cells to the outside, except two openings. A
 * border is named by the arguments of `GetEdge`: [sector, row, column, edge].
 */
module HexagonalMaze {
  import opened Graphs
  import opened Layouts
  import opened Numbers
  import Maze

  /** A triangular cell: its sector, up (0) or down (1), row and column. */
  datatype Tile = Tile(sector: int, updown: int, row: int, col: int)

  /** `row (row + 1) / 2`, the cells of the rows above `row` of a triangle. */
  function Tri(row: int): int
  {
    row * (row + 1) / 2
  }

  lemma {:induction false} TriClosed(row: int)
    requires row >= 0
    ensures 2 * Tri(row) == row * (row + 1)
    decreases row
  {
    if row > 0 {
      TriClosed(row - 1);
      Distribute(row, row - 1);
      ModUnique(row * (row + 1), 2, Tri(row - 1) + row, 0);
    }
  }

  /** The next row of a triangle holds one cell more. */
  lemma TriStep(row: int)
    requires row >= 0
    ensures Tri(row + 1) == Tri(row) + row + 1 && Tri(row) >= 0
  {
    TriClosed(row);
    TriClosed(row + 1);
    Distribute(row + 1, row + 1);
  }

  lemma {:induction false} TriMonotone(a: int, b: int)
    requires 0 <= a <= b
    ensures 0 <= Tri(a) <= Tri(b)
    decreases b - a
  {
    TriStep(a);
    if a < b {
      TriMonotone(a + 1, b);
    }
  }

  /** An up and a down triangle of a sector make `size * size` cells. */
  lemma TriPair(size: int)
    requires size >= 1
    ensures Tri(size) + Tri(size - 1) == size * size
  {
    TriClosed(size);
    TriClosed(size - 1);
    Distribute(size - 1, size);
  }

  /** (row, col) lies in a triangle of `rows` rows, row `r` holding `r + 1` cells. */
  predicate InTriangle(rows: int, row: int, col: int)
  {
    0 <= col <= row < rows
  }

  lemma TriangleRange(rows: int, row: int, col: int)
    requires InTriangle(rows, row, col)
    ensures Tri(row) <= Tri(row) + col < Tri(row + 1) <= Tri(rows)
  {
    TriStep(row);
    TriMonotone(row + 1, rows);
  }

  lemma TriangleInjective(r1: int, c1: int, r2: int, c2: int)
    requires 0 <= c1 <= r1 && 0 <= c2 <= r2 && Tri(r1) + c1 == Tri(r2) + c2
    ensures r1 == r2 && c1 == c2
  {
    TriangleRange(r1 + 1, r1, c1);
    TriangleRange(r2 + 1, r2, c2);
    if r1 < r2 {
      TriMonotone(r1 + 1, r2);
    } else if r2 < r1 {
      TriMonotone(r2 + 1, r1);
    }
  }

  lemma {:induction false} TriangleFind(rows: int, row: int, x: int)
    requires 0 <= row < rows && Tri(row) <= x < Tri(rows)
    ensures exists r, c :: InTriangle(rows, r, c) && Tri(r) + c == x
    decreases rows - row
  {
    TriStep(row);
    if x < Tri(row + 1) {
      assert InTriangle(rows, row, x - Tri(row));
    } else {
      TriangleFind(rows, row + 1, x);
    }
  }

  /** Numbering a triangle row by row is onto. */
  lemma TriangleOnto(rows: int, x: int)
    requires rows >= 0 && 0 <= x < Tri(rows)
    ensures exists r, c :: InTriangle(rows, r, c) && Tri(r) + c == x
  {
    TriangleFind(rows, 0, x);
  }

  /** `HexagonalMaze::VertexIndex`: sectors in turn, in each the up cells and then the down cells, row by row. */
  function VertexIndex(size: int, sector: int, updown: int, row: int, column: int): int
  {
    sector * (size * size) + (if updown == 1 then Tri(size) else 0) + Tri(row) + column
  }

  function Index(size: int, t: Tile): int
  {
    VertexIndex(size, t.sector, t.updown, t.row, t.col)
  }

  /** A cell of the board: up cells in rows below `size`, down cells in rows below `size - 1`. */
  predicate Cell(size: int, t: Tile)
  {
    0 <= t.sector < 6 && 0 <= t.updown <= 1 && InTriangle(size - t.updown, t.row, t.col)
  }

  /** The place of a cell within its sector. */
  function Local(size: int, t: Tile): int
  {
    (if t.updown == 1 then Tri(size) else 0) + Tri(t.row) + t.col
  }

  lemma LocalRange(size: int, t: Tile)
    requires Cell(size, t)
    ensures t.updown == 0 ==> 0 <= Local(size, t) < Tri(size)
    ensures t.updown == 1 ==> Tri(size) <= Local(size, t) < size * size
    ensures 0 <= Local(size, t) < size * size
  {
    TriangleRange(size - t.updown, t.row, t.col);
    TriPair(size);
    TriStep(t.row);
    TriStep(size - 1);
    var local := Local(size, t);
    if t.updown == 1 {
      assert local == Tri(size) + (Tri(t.row) + t.col);
    } else {
      assert local == Tri(t.row) + t.col;
    }
  }

  /** A cell's number is its sector's first number plus its place in the sector. */
  lemma IndexSplit(size: int, t: Tile)
    ensures Index(size, t) == size * size * t.sector + Local(size, t)
  {
  }

  /** The constructor's vertex count `6 size²`. */
  function VertexCount(size: int): (count: int)
    ensures count >= 0
  {
    if size >= 0 then
      MultiplyBelow(0, 6 * size, size);
      6 * size * size
    else
      MultiplyBelow(0, -6 * size, -size);
      assert (-6 * size) * -size == 6 * size * size;
      6 * size * size
  }

  /** Every cell is a vertex. */
  lemma IndexIn(size: int, t: Tile)
    requires Cell(size, t)
    ensures 0 <= Index(size, t) < VertexCount(size)
  {
    LocalRange(size, t);
    IndexSplit(size, t);
    SectorRange(size, t.sector, Local(size, t));
  }

  /** Six sectors of `size²` local numbers each hold the numbers below `6 size²`. */
  lemma SectorRange(size: int, sector: int, local: int)
    requires 0 <= sector < 6 && 0 <= local < size * size
    ensures 0 <= size * size * sector + local < 6 * size * size
  {
    var m := size * size;
    MultiplyBelow(sector, 5, m);
    MultiplyBelow(0, sector, m);
    assert 6 * size * size == 6 * m;
  }

  /** Two cells are numbered the same only when they are the same cell. */
  lemma IndexInjective(size: int, a: Tile, b: Tile)
    requires Cell(size, a) && Cell(size, b) && Index(size, a) == Index(size, b)
    ensures a == b
  {
    var m := size * size;
    MultiplyBelow(1, size, size);
    LocalRange(size, a);
    LocalRange(size, b);
    IndexSplit(size, a);
    IndexSplit(size, b);
    ModUnique(Index(size, a), m, a.sector, Local(size, a));
    ModUnique(Index(size, b), m, b.sector, Local(size, b));
    assert a.sector == b.sector && Local(size, a) == Local(size, b);
    assert a.updown == b.updown;
    TriangleInjective(a.row, a.col, b.row, b.col);
  }

  /** The numbering is onto: every vertex is a cell. */
  lemma IndexOnto(size: int, x: int)
    requires size >= 1 && 0 <= x < VertexCount(size)
    ensures exists t :: Cell(size, t) && Index(size, t) == x
  {
    var m := size * size;
    MultiplyBelow(1, size, size);
    var sector, local := x / m, x % m;
    SectorBound(m, x, sector);
    TriPair(size);
    if local < Tri(size) {
      TriangleOnto(size, local);
      var r, c :| InTriangle(size, r, c) && Tri(r) + c == local;
      PlaceOnto(size, x, Tile(sector, 0, r, c));
    } else {
      TriangleOnto(size - 1, local - Tri(size));
      var r, c :| InTriangle(size - 1, r, c) && Tri(r) + c == local - Tri(size);
      PlaceOnto(size, x, Tile(sector, 1, r, c));
    }
  }

  /** The sector of vertex `x` is below 6. */
  lemma SectorBound(m: int, x: int, sector: int)
    requires m > 0 && 0 <= x < 6 * m && sector == x / m
    ensures 0 <= sector < 6
  {
    if sector >= 6 {
      MultiplyBelow(6, sector, m);
    }
  }

  /** A cell of the sector and place of `x` is numbered `x`. */
  lemma PlaceOnto(size: int, x: int, t: Tile)
    requires size >= 1 && t.sector == x / (size * size) && Local(size, t) == x % (size * size)
    ensures Index(size, t) == x
  {
    IndexSplit(size, t);
  }

  /**
   * The constructor's start `VertexIndex(0, 1, size - 1, 0)` and end
   * `VertexIndex(3, 1, size - 1, 0)`: they name no down cell (there is no
   * down row `size - 1`) but the first up cells of sectors 1 and 4, at the
   * centre, numbers `size²` and `4 size²`.
   */
  lemma StartEnd(size: int)
    requires size >= 1
    ensures VertexIndex(size, 0, 1, size - 1, 0) == Index(size, Tile(1, 0, 0, 0)) == size * size
    ensures VertexIndex(size, 3, 1, size - 1, 0) == Index(size, Tile(4, 0, 0, 0)) == 4 * size * size
    ensures Cell(size, Tile(1, 0, 0, 0)) && Cell(size, Tile(4, 0, 0, 0))
    ensures !Cell(size, Tile(0, 1, size - 1, 0)) && size * size != 4 * size * size
  {
    TriPair(size);
  }

  // ---------------------------------------------------------------------------
  // The pushes of `InitialiseGraph`: sector by sector, five loops in each.

  /** The trip count of `for (int i = 0; i < n; ++i)`. */
  function Trips(n: int): nat
  {
    if n >= 0 then n else 0
  }

  /** First loop, iteration `i`: the outside wall of up cell `i` of the last row, except the openings in sectors 0 and 3. */
  function OuterStep(size: int, sector: int, i: int): seq<PushOp>
  {
    if i > 0 || sector % 3 != 0 then [(VertexIndex(size, sector, 0, size - 1, i), (Outside, [sector, size - 1, i, 0]))] else []
  }

  function Outer(size: int, sector: int): seq<seq<PushOp>>
  {
    seq(Trips(size), i => OuterStep(size, sector, i))
  }

  /** Second loop, iteration `i`: the wall between the last up cell of row `i` and the first up cell of row `i` of the next sector. */
  function SpokeStep(size: int, sector: int, i: int): seq<PushOp>
  {
    Mirror(VertexIndex(size, sector, 0, i, i), VertexIndex(size, (sector + 1) % 6, 0, i, 0), [sector, i, i, 1])
  }

  function Spokes(size: int, sector: int): seq<seq<PushOp>>
  {
    seq(Trips(size), i => SpokeStep(size, sector, i))
  }

  /** Edges of type 0: up cell (i, j) and the down cell (i, j) below it, for rows `i < size - 1`. */
  function Type0Step(size: int, sector: int, i: int, j: int): seq<PushOp>
  {
    Mirror(VertexIndex(size, sector, 0, i, j), VertexIndex(size, sector, 1, i, j), [sector, i, j, 0])
  }

  function Type0Row(size: int, sector: int, i: int): seq<seq<PushOp>>
    requires i >= 0
  {
    seq(i + 1, j => Type0Step(size, sector, i, j))
  }

  function Type0(size: int, sector: int): seq<seq<PushOp>>
  {
    seq(Trips(size - 1), i requires i >= 0 => Flatten(Type0Row(size, sector, i)))
  }

  /** Edges of type 1: up cell (i, j) and down cell (i - 1, j), for `j < i`. */
  function Type1Step(size: int, sector: int, i: int, j: int): seq<PushOp>
  {
    Mirror(VertexIndex(size, sector, 0, i, j), VertexIndex(size, sector, 1, i - 1, j), [sector, i, j, 1])
  }

  function Type1Row(size: int, sector: int, i: int): seq<seq<PushOp>>
    requires i >= 0
  {
    seq(i, j => Type1Step(size, sector, i, j))
  }

  function Type1(size: int, sector: int): seq<seq<PushOp>>
  {
    seq(Trips(size), i requires i >= 0 => Flatten(Type1Row(size, sector, i)))
  }

  /** Edges of type 2: up cell (i, j) and down cell (i - 1, j - 1), for `1 <= j <= i`; iteration `k` is `j = k + 1`. */
  function Type2Step(size: int, sector: int, i: int, j: int): seq<PushOp>
  {
    Mirror(VertexIndex(size, sector, 0, i, j), VertexIndex(size, sector, 1, i - 1, j - 1), [sector, i, j, 2])
  }

  function Type2Row(size: int, sector: int, i: int): seq<seq<PushOp>>
    requires i >= 0
  {
    seq(i, k => Type2Step(size, sector, i, k + 1))
  }

  function Type2(size: int, sector: int): seq<seq<PushOp>>
  {
    seq(Trips(size), i requires i >= 0 => Flatten(Type2Row(size, sector, i)))
  }

  /** The walls of type 1 and 2 are those between two cells, each numbered by `VertexIndex`. */
  lemma Type1Cells(size: int, sector: int, i: int, j: int)
    requires 0 <= j < i
    ensures Type1Row(size, sector, i)[j] == Mirror(Index(size, Tile(sector, 0, i, j)), Index(size, Tile(sector, 1, i - 1, j)), [sector, i, j, 1])
  {
  }

  lemma Type2Cells(size: int, sector: int, i: int, j: int)
    requires 1 <= j <= i
    ensures Type2Row(size, sector, i)[j - 1] == Mirror(Index(size, Tile(sector, 0, i, j)), Index(size, Tile(sector, 1, i - 1, j - 1)), [sector, i, j, 2])
  {
  }

  /** One pass of the loop over sectors: its five loops in turn. */
  function SectorPushes(size: int, sector: int): seq<PushOp>
  {
    Flatten(Outer(size, sector)) + Flatten(Spokes(size, sector)) +
    Flatten(Type0(size, sector)) + Flatten(Type1(size, sector)) + Flatten(Type2(size, sector))
  }

  function Sectors(size: int): seq<seq<PushOp>>
  {
    seq(6, sector => SectorPushes(size, sector))
  }

  /** All pushes of `InitialiseGraph`, in order. */
  function Pushes(size: int): seq<PushOp>
  {
    Flatten(Sectors(size))
  }

  /** A wall between two cells is well formed. */
  lemma WallFacts(size: int, a: Tile, b: Tile, border: BorderId)
    requires Cell(size, a) && Cell(size, b)
    ensures WellFormed(VertexCount(size), Mirror(Index(size, a), Index(size, b), border))
  {
    IndexIn(size, a);
    IndexIn(size, b);
    MirrorWellFormed(VertexCount(size), Index(size, a), Index(size, b), border);
  }

  lemma OuterFacts(size: int, sector: int)
    requires 0 <= sector < 6
    ensures WellFormed(VertexCount(size), Flatten(Outer(size, sector)))
  {
    var s := Outer(size, sector);
    forall i | 0 <= i < |s| ensures WellFormed(VertexCount(size), s[i]) {
      var t := Tile(sector, 0, size - 1, i);
      IndexIn(size, t);
      MirrorWellFormed(VertexCount(size), Index(size, t), Index(size, t), [sector, size - 1, i, 0]);
    }
    FlattenWellFormed(VertexCount(size), s);
  }

  lemma SpokesFacts(size: int, sector: int)
    requires 0 <= sector < 6
    ensures WellFormed(VertexCount(size), Flatten(Spokes(size, sector)))
  {
    var s := Spokes(size, sector);
    forall i | 0 <= i < |s| ensures WellFormed(VertexCount(size), s[i]) {
      WallFacts(size, Tile(sector, 0, i, i), Tile((sector + 1) % 6, 0, i, 0), [sector, i, i, 1]);
    }
    FlattenWellFormed(VertexCount(size), s);
  }

  lemma Type0Facts(size: int, sector: int)
    requires 0 <= sector < 6
    ensures WellFormed(VertexCount(size), Flatten(Type0(size, sector)))
  {
    var s := Type0(size, sector);
    forall i | 0 <= i < |s| ensures WellFormed(VertexCount(size), s[i]) {
      var r := Type0Row(size, sector, i);
      forall j | 0 <= j < |r| ensures WellFormed(VertexCount(size), r[j]) {
        WallFacts(size, Tile(sector, 0, i, j), Tile(sector, 1, i, j), [sector, i, j, 0]);
      }
      FlattenWellFormed(VertexCount(size), r);
    }
    FlattenWellFormed(VertexCount(size), s);
  }

  lemma Type1Facts(size: int, sector: int)
    requires 0 <= sector < 6
    ensures WellFormed(VertexCount(size), Flatten(Type1(size, sector)))
  {
    var s := Type1(size, sector);
    forall i | 0 <= i < |s| ensures WellFormed(VertexCount(size), s[i]) {
      var r := Type1Row(size, sector, i);
      forall j | 0 <= j < |r| ensures WellFormed(VertexCount(size), r[j]) {
        WallFacts(size, Tile(sector, 0, i, j), Tile(sector, 1, i - 1, j), [sector, i, j, 1]);
      }
      FlattenWellFormed(VertexCount(size), r);
    }
    FlattenWellFormed(VertexCount(size), s);
  }

  lemma Type2Facts(size: int, sector: int)
    requires 0 <= sector < 6
    ensures WellFormed(VertexCount(size), Flatten(Type2(size, sector)))
  {
    var s := Type2(size, sector);
    forall i | 0 <= i < |s| ensures WellFormed(VertexCount(size), s[i]) {
      var r := Type2Row(size, sector, i);
      forall k | 0 <= k < |r| ensures WellFormed(VertexCount(size), r[k]) {
        WallFacts(size, Tile(sector, 0, i, k + 1), Tile(sector, 1, i - 1, k), [sector, i, k + 1, 2]);
      }
      FlattenWellFormed(VertexCount(size), r);
    }
    FlattenWellFormed(VertexCount(size), s);
  }

  lemma SectorFacts(size: int, sector: int)
    requires 0 <= sector < 6
    ensures WellFormed(VertexCount(size), SectorPushes(size, sector))
  {
    var a, b, c := Flatten(Outer(size, sector)), Flatten(Spokes(size, sector)), Flatten(Type0(size, sector));
    var d, e := Flatten(Type1(size, sector)), Flatten(Type2(size, sector));
    OuterFacts(size, sector);
    SpokesFacts(size, sector);
    Type0Facts(size, sector);
    Type1Facts(size, sector);
    Type2Facts(size, sector);
    AppendWellFormed(VertexCount(size), a, b);
    AppendWellFormed(VertexCount(size), a + b, c);
    AppendWellFormed(VertexCount(size), a + b + c, d);
    AppendWellFormed(VertexCount(size), a + b + c + d, e);
  }

  lemma PushesFacts(size: int)
    ensures WellFormed(VertexCount(size), Pushes(size))
  {
    var s := Sectors(size);
    forall sector | 0 <= sector < 6 ensures WellFormed(VertexCount(size), s[sector]) {
      SectorFacts(size, sector);
    }
    FlattenWellFormed(VertexCount(size), s);
  }

  /** The graph `InitialiseGraph` builds: one list per cell, valid and symmetric. */
  function Layout(size: int): (g: Graph)
    ensures ValidGraph(VertexCount(size), g) && Symmetric(g)
  {
    PushesFacts(size);
    Built(VertexCount(size), Pushes(size));
    Build(Empty(VertexCount(size)), Pushes(size))
  }

  // ---------------------------------------------------------------------------
  // Counting the outside walls.

  /** The first loop of a sector pushes one outside wall per iteration, but none at `i = 0` of sectors 0 and 3 (the openings). */
  lemma {:induction false} OuterCount(size: int, sector: int, k: int)
    requires 0 <= k <= Trips(size)
    ensures OutsidePushes(Flatten(Outer(size, sector)[..k])) == (if sector % 3 == 0 && k >= 1 then k - 1 else k)
    decreases k
  {
    var s := Outer(size, sector);
    if k == 0 {
      assert s[..0] == [];
    } else {
      OuterCount(size, sector, k - 1);
      FlattenCountsStep(s, k - 1);
      var step := s[k - 1];
      if step != [] {
        assert step[..0] == [];
      }
    }
  }

  /** A wall between two cells pushes no outside entry. */
  lemma WallInside(size: int, a: Tile, b: Tile, border: BorderId)
    requires Cell(size, a) && Cell(size, b)
    ensures OutsidePushes(Mirror(Index(size, a), Index(size, b), border)) == 0
  {
    IndexIn(size, a);
    IndexIn(size, b);
    MirrorCounts(Index(size, a), Index(size, b), border);
  }

  /** The second loop of a sector pushes no outside wall. */
  lemma SpokesInside(size: int, sector: int)
    requires 0 <= sector < 6
    ensures OutsidePushes(Flatten(Spokes(size, sector))) == 0
  {
    var s := Spokes(size, sector);
    forall i | 0 <= i < |s| ensures OutsidePushes(s[i]) == 0 {
      WallInside(size, Tile(sector, 0, i, i), Tile((sector + 1) % 6, 0, i, 0), [sector, i, i, 1]);
    }
    FlattenNoOutside(s);
  }

  /** The third loop of a sector (edges of type 0) pushes no outside wall. */
  lemma Type0Inside(size: int, sector: int)
    requires 0 <= sector < 6
    ensures OutsidePushes(Flatten(Type0(size, sector))) == 0
  {
    var s := Type0(size, sector);
    forall i | 0 <= i < |s| ensures OutsidePushes(s[i]) == 0 {
      var r := Type0Row(size, sector, i);
      forall j | 0 <= j < |r| ensures OutsidePushes(r[j]) == 0 {
        WallInside(size, Tile(sector, 0, i, j), Tile(sector, 1, i, j), [sector, i, j, 0]);
      }
      FlattenNoOutside(r);
    }
    FlattenNoOutside(s);
  }

  /** The fourth loop of a sector (edges of type 1) pushes no outside wall. */
  lemma Type1Inside(size: int, sector: int)
    requires 0 <= sector < 6
    ensures OutsidePushes(Flatten(Type1(size, sector))) == 0
  {
    var s := Type1(size, sector);
    forall i | 0 <= i < |s| ensures OutsidePushes(s[i]) == 0 {
      var r := Type1Row(size, sector, i);
      forall j | 0 <= j < |r| ensures OutsidePushes(r[j]) == 0 {
        WallInside(size, Tile(sector, 0, i, j), Tile(sector, 1, i - 1, j), [sector, i, j, 1]);
      }
      FlattenNoOutside(r);
    }
    FlattenNoOutside(s);
  }

  /** The fifth loop of a sector (edges of type 2) pushes no outside wall. */
  lemma Type2Inside(size: int, sector: int)
    requires 0 <= sector < 6
    ensures OutsidePushes(Flatten(Type2(size, sector))) == 0
  {
    var s := Type2(size, sector);
    forall i | 0 <= i < |s| ensures OutsidePushes(s[i]) == 0 {
      var r := Type2Row(size, sector, i);
      forall k | 0 <= k < |r| ensures OutsidePushes(r[k]) == 0 {
        WallInside(size, Tile(sector, 0, i, k + 1), Tile(sector, 1, i - 1, k), [sector, i, k + 1, 2]);
      }
      FlattenNoOutside(r);
    }
    FlattenNoOutside(s);
  }

  /** The openings are in sectors 0 and 3. */
  lemma OpenSectors(sector: int)
    requires 0 <= sector < 6
    ensures sector % 3 == 0 <==> sector == 0 || sector == 3
  {
  }

  /** Five loops in a row push the outside walls of each. */
  lemma FiveCounts(a: seq<PushOp>, b: seq<PushOp>, c: seq<PushOp>, d: seq<PushOp>, e: seq<PushOp>)
    ensures OutsidePushes(a + b + c + d + e) == OutsidePushes(a) + OutsidePushes(b) + OutsidePushes(c) + OutsidePushes(d) + OutsidePushes(e)
  {
    PushCountsAppend(a, b);
    PushCountsAppend(a + b, c);
    PushCountsAppend(a + b + c, d);
    PushCountsAppend(a + b + c + d, e);
  }

  /** A sector pushes `size` outside walls, one fewer in sectors 0 and 3. */
  lemma SectorOutside(size: int, sector: int)
    requires size >= 1 && 0 <= sector < 6
    ensures OutsidePushes(SectorPushes(size, sector)) == (if sector == 0 || sector == 3 then size - 1 else size)
  {
    var o := Outer(size, sector);
    OuterCount(size, sector, size);
    assert o[..size] == o;
    OpenSectors(sector);
    SpokesInside(size, sector);
    Type0Inside(size, sector);
    Type1Inside(size, sector);
    Type2Inside(size, sector);
    FiveCounts(Flatten(o), Flatten(Spokes(size, sector)), Flatten(Type0(size, sector)), Flatten(Type1(size, sector)), Flatten(Type2(size, sector)));
  }

  /** The openings among the first `k` sectors. */
  function Openings(k: int): int
  {
    if k <= 0 then 0 else if k <= 3 then 1 else 2
  }

  /** One more sector adds its outside walls to those of the sectors before it. */
  lemma OpeningsStep(size: int, k: int, before: int, here: int)
    requires 1 <= k <= 6 && before == size * (k - 1) - Openings(k - 1)
    requires here == (if k - 1 == 0 || k - 1 == 3 then size - 1 else size)
    ensures before + here == size * k - Openings(k)
  {
    MultiplyStep(size, k - 1);
  }

  /** The first `k` sectors push `size` outside walls each, less one for each of sectors 0 and 3 among them. */
  lemma {:induction false} SectorsOutside(size: int, k: int)
    requires size >= 1 && 0 <= k <= 6
    ensures OutsidePushes(Flatten(Sectors(size)[..k])) == size * k - Openings(k)
    decreases k
  {
    var s := Sectors(size);
    if k == 0 {
      assert s[..0] == [];
    } else {
      SectorsOutside(size, k - 1);
      FlattenCountsStep(s, k - 1);
      SectorOutside(size, k - 1);
      OpeningsStep(size, k, OutsidePushes(Flatten(s[..k - 1])), OutsidePushes(s[k - 1]));
    }
  }

  /** The hexagon has `6 size - 2` outside walls: `size` per side, less the two openings. */
  lemma LayoutOutsideCount(size: int)
    requires size >= 1
    ensures OutsideWalls(Layout(size)) == 6 * size - 2
  {
    PushesFacts(size);
    Built(VertexCount(size), Pushes(size));
    SectorsOutside(size, 6);
    assert Sectors(size)[..6] == Sectors(size);
  }

  // ---------------------------------------------------------------------------
  // Which cells list which.

  /**
   * Cell `b` lies across a wall from up cell `a`: the down cell below it (type 0),
   * the down cells beside it in the row above (types 1 and 2), or, for the last
   * up cell of a row, the first up cell of that row in the next sector.
   */
  predicate Link(a: Tile, b: Tile)
  {
    a.updown == 0 &&
    ((b.updown == 1 && b.sector == a.sector &&
      ((b.row == a.row && b.col == a.col) || (b.row == a.row - 1 && b.col == a.col) || (b.row == a.row - 1 && b.col == a.col - 1))) ||
     (b.updown == 0 && b.sector == (a.sector + 1) % 6 && a.row == a.col == b.row && b.col == 0))
  }

  /** Two cells share a wall. */
  predicate Joined(a: Tile, b: Tile)
  {
    Link(a, b) || Link(b, a)
  }

  /** An outside wall pushed by the first loop. */
  ghost predicate OuterPushed(size: int, x: PushOp)
  {
    exists sector, i :: 0 <= sector < 6 && 0 <= i < size && x in OuterStep(size, sector, i)
  }

  /** An entry, in the list of one cell, naming a cell it shares a wall with. */
  ghost predicate WallEntry(size: int, x: PushOp)
  {
    exists a, b :: Cell(size, a) && Cell(size, b) && Joined(a, b) && x.0 == Index(size, a) && x.1.0 == Index(size, b)
  }

  lemma MirrorEntry(size: int, a: Tile, b: Tile, border: BorderId, x: PushOp)
    requires Cell(size, a) && Cell(size, b) && Link(a, b) && x in Mirror(Index(size, a), Index(size, b), border)
    ensures WallEntry(size, x)
  {
    if x.0 == Index(size, a) && x.1.0 == Index(size, b) {
      assert Joined(a, b);
    } else {
      assert Joined(b, a) && x.0 == Index(size, b) && x.1.0 == Index(size, a);
    }
  }

  lemma OuterMembers(size: int, sector: int, x: PushOp)
    requires 0 <= sector < 6 && x in Flatten(Outer(size, sector))
    ensures OuterPushed(size, x)
  {
    FlattenMembers(Outer(size, sector), x);
    var i :| 0 <= i < |Outer(size, sector)| && x in Outer(size, sector)[i];
    assert x in OuterStep(size, sector, i);
  }

  lemma SpokesMembers(size: int, sector: int, x: PushOp)
    requires 0 <= sector < 6 && x in Flatten(Spokes(size, sector))
    ensures WallEntry(size, x)
  {
    FlattenMembers(Spokes(size, sector), x);
    var i :| 0 <= i < |Spokes(size, sector)| && x in Spokes(size, sector)[i];
    MirrorEntry(size, Tile(sector, 0, i, i), Tile((sector + 1) % 6, 0, i, 0), [sector, i, i, 1], x);
  }

  lemma Type0Members(size: int, sector: int, x: PushOp)
    requires 0 <= sector < 6 && x in Flatten(Type0(size, sector))
    ensures WallEntry(size, x)
  {
    FlattenMembers(Type0(size, sector), x);
    var i :| 0 <= i < |Type0(size, sector)| && x in Type0(size, sector)[i];
    var r := Type0Row(size, sector, i);
    FlattenMembers(r, x);
    var j :| 0 <= j < |r| && x in r[j];
    MirrorEntry(size, Tile(sector, 0, i, j), Tile(sector, 1, i, j), [sector, i, j, 0], x);
  }

  lemma Type1Members(size: int, sector: int, x: PushOp)
    requires 0 <= sector < 6 && x in Flatten(Type1(size, sector))
    ensures WallEntry(size, x)
  {
    FlattenMembers(Type1(size, sector), x);
    var i :| 0 <= i < |Type1(size, sector)| && x in Type1(size, sector)[i];
    var r := Type1Row(size, sector, i);
    FlattenMembers(r, x);
    var j :| 0 <= j < |r| && x in r[j];
    Type1Cells(size, sector, i, j);
    MirrorEntry(size, Tile(sector, 0, i, j), Tile(sector, 1, i - 1, j), [sector, i, j, 1], x);
  }

  lemma Type2Members(size: int, sector: int, x: PushOp)
    requires 0 <= sector < 6 && x in Flatten(Type2(size, sector))
    ensures WallEntry(size, x)
  {
    FlattenMembers(Type2(size, sector), x);
    var i :| 0 <= i < |Type2(size, sector)| && x in Type2(size, sector)[i];
    var r := Type2Row(size, sector, i);
    FlattenMembers(r, x);
    var k :| 0 <= k < |r| && x in r[k];
    Type2Cells(size, sector, i, k + 1);
    MirrorEntry(size, Tile(sector, 0, i, k + 1), Tile(sector, 1, i - 1, k), [sector, i, k + 1, 2], x);
  }

  /** Every push is an outside wall of the first loop or an entry of a wall between joined cells. */
  lemma PushMembers(size: int, x: PushOp)
    requires x in Pushes(size)
    ensures OuterPushed(size, x) || WallEntry(size, x)
  {
    FlattenMembers(Sectors(size), x);
    var sector :| 0 <= sector < 6 && x in Sectors(size)[sector];
    if x in Flatten(Outer(size, sector)) {
      OuterMembers(size, sector, x);
    } else if x in Flatten(Spokes(size, sector)) {
      SpokesMembers(size, sector, x);
    } else if x in Flatten(Type0(size, sector)) {
      Type0Members(size, sector, x);
    } else if x in Flatten(Type1(size, sector)) {
      Type1Members(size, sector, x);
    } else {
      Type2Members(size, sector, x);
    }
  }

  /** Every push of a sector's loops is made. */
  lemma SectorPushed(size: int, sector: int, x: PushOp)
    requires 0 <= sector < 6 && x in SectorPushes(size, sector)
    ensures x in Pushes(size)
  {
    assert x in Sectors(size)[sector];
    FlattenMembers(Sectors(size), x);
  }

  lemma SpokePushed(size: int, sector: int, i: int)
    requires 0 <= sector < 6 && 0 <= i < size
    ensures forall x :: x in SpokeStep(size, sector, i) ==> x in Pushes(size)
  {
    forall x | x in SpokeStep(size, sector, i) ensures x in Pushes(size) {
      assert x in Spokes(size, sector)[i];
      FlattenMembers(Spokes(size, sector), x);
      SectorPushed(size, sector, x);
    }
  }

  lemma Type0Pushed(size: int, sector: int, i: int, j: int)
    requires 0 <= sector < 6 && 0 <= j <= i < size - 1
    ensures forall x :: x in Type0Step(size, sector, i, j) ==> x in Pushes(size)
  {
    forall x | x in Type0Step(size, sector, i, j) ensures x in Pushes(size) {
      var r := Type0Row(size, sector, i);
      assert x in r[j];
      FlattenMembers(r, x);
      assert x in Type0(size, sector)[i];
      FlattenMembers(Type0(size, sector), x);
      SectorPushed(size, sector, x);
    }
  }

  lemma Type1Pushed(size: int, sector: int, i: int, j: int)
    requires 0 <= sector < 6 && 0 <= j < i < size
    ensures forall x :: x in Type1Step(size, sector, i, j) ==> x in Pushes(size)
  {
    forall x | x in Type1Step(size, sector, i, j) ensures x in Pushes(size) {
      var r := Type1Row(size, sector, i);
      assert x in r[j];
      FlattenMembers(r, x);
      assert x in Type1(size, sector)[i];
      FlattenMembers(Type1(size, sector), x);
      SectorPushed(size, sector, x);
    }
  }

  lemma Type2Pushed(size: int, sector: int, i: int, j: int)
    requires 0 <= sector < 6 && 1 <= j <= i < size
    ensures forall x :: x in Type2Step(size, sector, i, j) ==> x in Pushes(size)
  {
    forall x | x in Type2Step(size, sector, i, j) ensures x in Pushes(size) {
      var r := Type2Row(size, sector, i);
      assert x in r[j - 1];
      FlattenMembers(r, x);
      assert x in Type2(size, sector)[i];
      FlattenMembers(Type2(size, sector), x);
      SectorPushed(size, sector, x);
    }
  }

  /** Both entries of a wall whose pushes are all made are listed. */
  lemma WallIn(size: int, a: Tile, b: Tile, border: BorderId)
    requires forall x :: x in Mirror(Index(size, a), Index(size, b), border) ==> x in Pushes(size)
    ensures exists k :: 0 <= k < |Pushes(size)| && Pushes(size)[k].0 == Index(size, a) && Pushes(size)[k].1.0 == Index(size, b)
    ensures exists k :: 0 <= k < |Pushes(size)| && Pushes(size)[k].0 == Index(size, b) && Pushes(size)[k].1.0 == Index(size, a)
  {
    var M := Mirror(Index(size, a), Index(size, b), border);
    assert M[0] in Pushes(size) && M[1] in Pushes(size);
    var k :| 0 <= k < |Pushes(size)| && Pushes(size)[k] == M[0];
    var l :| 0 <= l < |Pushes(size)| && Pushes(size)[l] == M[1];
  }

  /** The wall between an up cell and a cell across from it is pushed in both directions. */
  lemma LinkPushed(size: int, a: Tile, b: Tile)
    requires Cell(size, a) && Cell(size, b) && Link(a, b)
    ensures exists k :: 0 <= k < |Pushes(size)| && Pushes(size)[k].0 == Index(size, a) && Pushes(size)[k].1.0 == Index(size, b)
    ensures exists k :: 0 <= k < |Pushes(size)| && Pushes(size)[k].0 == Index(size, b) && Pushes(size)[k].1.0 == Index(size, a)
  {
    if b.updown == 0 {
      SpokeLinkPushed(size, a, b);
    } else if b.row == a.row {
      Type0LinkPushed(size, a, b);
    } else if b.col == a.col {
      Type1LinkPushed(size, a, b);
    } else {
      Type2LinkPushed(size, a, b);
    }
  }

  /** The wall between an up cell on the edge of a sector and the next sector's up cell is pushed both ways. */
  lemma SpokeLinkPushed(size: int, a: Tile, b: Tile)
    requires Cell(size, a) && Cell(size, b) && Link(a, b) && b.updown == 0
    ensures exists k :: 0 <= k < |Pushes(size)| && Pushes(size)[k].0 == Index(size, a) && Pushes(size)[k].1.0 == Index(size, b)
    ensures exists k :: 0 <= k < |Pushes(size)| && Pushes(size)[k].0 == Index(size, b) && Pushes(size)[k].1.0 == Index(size, a)
  {
    SpokePushed(size, a.sector, a.row);
    WallIn(size, a, b, [a.sector, a.row, a.row, 1]);
  }

  /** The wall between an up cell and the down cell of the same place is pushed both ways. */
  lemma Type0LinkPushed(size: int, a: Tile, b: Tile)
    requires Cell(size, a) && Cell(size, b) && Link(a, b) && b.updown == 1 && b.row == a.row
    ensures exists k :: 0 <= k < |Pushes(size)| && Pushes(size)[k].0 == Index(size, a) && Pushes(size)[k].1.0 == Index(size, b)
    ensures exists k :: 0 <= k < |Pushes(size)| && Pushes(size)[k].0 == Index(size, b) && Pushes(size)[k].1.0 == Index(size, a)
  {
    Type0Pushed(size, a.sector, a.row, a.col);
    WallIn(size, a, b, [a.sector, a.row, a.col, 0]);
  }

  /** The wall between an up cell and the down cell above it is pushed both ways. */
  lemma Type1LinkPushed(size: int, a: Tile, b: Tile)
    requires Cell(size, a) && Cell(size, b) && Link(a, b) && b.updown == 1 && b.row != a.row && b.col == a.col
    ensures exists k :: 0 <= k < |Pushes(size)| && Pushes(size)[k].0 == Index(size, a) && Pushes(size)[k].1.0 == Index(size, b)
    ensures exists k :: 0 <= k < |Pushes(size)| && Pushes(size)[k].0 == Index(size, b) && Pushes(size)[k].1.0 == Index(size, a)
  {
    Type1Pushed(size, a.sector, a.row, a.col);
    WallIn(size, a, b, [a.sector, a.row, a.col, 1]);
  }

  /** The wall between an up cell and the down cell above and to its left is pushed both ways. */
  lemma Type2LinkPushed(size: int, a: Tile, b: Tile)
    requires Cell(size, a) && Cell(size, b) && Link(a, b) && b.updown == 1 && b.row != a.row && b.col != a.col
    ensures exists k :: 0 <= k < |Pushes(size)| && Pushes(size)[k].0 == Index(size, a) && Pushes(size)[k].1.0 == Index(size, b)
    ensures exists k :: 0 <= k < |Pushes(size)| && Pushes(size)[k].0 == Index(size, b) && Pushes(size)[k].1.0 == Index(size, a)
  {
    Type2Pushed(size, a.sector, a.row, a.col);
    WallIn(size, a, b, [a.sector, a.row, a.col, 2]);
  }

  /** A listed cell shares a wall with the cell whose list holds it. */
  lemma PushedJoined(size: int, a: Tile, b: Tile)
    requires Cell(size, a) && Cell(size, b)
    requires exists k :: 0 <= k < |Pushes(size)| && Pushes(size)[k].0 == Index(size, a) && Pushes(size)[k].1.0 == Index(size, b)
    ensures Joined(a, b)
  {
    var P := Pushes(size);
    var k :| 0 <= k < |P| && P[k].0 == Index(size, a) && P[k].1.0 == Index(size, b);
    var x := P[k];
    PushMembers(size, x);
    IndexIn(size, b);
    assert !OuterPushed(size, x);
    var c, d :| Cell(size, c) && Cell(size, d) && Joined(c, d) && x.0 == Index(size, c) && x.1.0 == Index(size, d);
    IndexInjective(size, a, c);
    IndexInjective(size, b, d);
  }

  /** A cell lists another exactly when the two share a wall. */
  lemma LayoutAdjacent(size: int, a: Tile, b: Tile)
    requires Cell(size, a) && Cell(size, b)
    ensures Adjacent(Layout(size), Index(size, a), Index(size, b)) <==> Joined(a, b)
  {
    IndexIn(size, a);
    IndexIn(size, b);
    PushesFacts(size);
    BuiltAdjacent(VertexCount(size), Pushes(size), Index(size, a), Index(size, b));
    if Adjacent(Layout(size), Index(size, a), Index(size, b)) {
      PushedJoined(size, a, b);
    }
    if Link(a, b) {
      LinkPushed(size, a, b);
    } else if Link(b, a) {
      LinkPushed(size, b, a);
    }
  }

  /** An up cell of the last row has an outside wall, except the first cells of sectors 0 and 3. */
  predicate OuterCell(size: int, t: Tile)
  {
    t.updown == 0 && t.row == size - 1 && (t.col > 0 || t.sector % 3 != 0)
  }

  /** A pushed outside entry belongs to an outer cell. */
  lemma PushedOutside(size: int, t: Tile)
    requires Cell(size, t)
    requires exists k :: 0 <= k < |Pushes(size)| && Pushes(size)[k].0 == Index(size, t) && Pushes(size)[k].1.0 == Outside
    ensures OuterCell(size, t)
  {
    var P := Pushes(size);
    var k :| 0 <= k < |P| && P[k].0 == Index(size, t) && P[k].1.0 == Outside;
    var x := P[k];
    PushMembers(size, x);
    assert !WallEntry(size, x) by {
      forall a, b | Cell(size, a) && Cell(size, b) ensures Index(size, b) != Outside {
        IndexIn(size, b);
      }
    }
    var sector, i :| 0 <= sector < 6 && 0 <= i < size && (i > 0 || sector % 3 != 0) &&
                     x == (VertexIndex(size, sector, 0, size - 1, i), (Outside, [sector, size - 1, i, 0]));
    IndexInjective(size, t, Tile(sector, 0, size - 1, i));
  }

  /** The outside wall of an outer cell is pushed. */
  lemma OutsidePushed(size: int, t: Tile)
    requires Cell(size, t) && OuterCell(size, t)
    ensures exists k :: 0 <= k < |Pushes(size)| && Pushes(size)[k].0 == Index(size, t) && Pushes(size)[k].1.0 == Outside
  {
    var x := (Index(size, t), (Outside, [t.sector, size - 1, t.col, 0]));
    assert x in Outer(size, t.sector)[t.col];
    FlattenMembers(Outer(size, t.sector), x);
    SectorPushed(size, t.sector, x);
    var k :| 0 <= k < |Pushes(size)| && Pushes(size)[k] == x;
  }

  /** A cell has an outside wall exactly when it is an up cell of the last row other than the two openings. */
  lemma LayoutOutside(size: int, t: Tile)
    requires Cell(size, t)
    ensures Lists(Layout(size), Index(size, t), Outside) <==> OuterCell(size, t)
  {
    IndexIn(size, t);
    PushesFacts(size);
    BuiltLists(VertexCount(size), Pushes(size), Index(size, t), Outside);
    if Lists(Layout(size), Index(size, t), Outside) {
      PushedOutside(size, t);
    }
    if OuterCell(size, t) {
      OutsidePushed(size, t);
    }
  }

  // ---------------------------------------------------------------------------
  // Connectivity.

  lemma ReachJoined(size: int, a: Tile, b: Tile)
    requires Cell(size, a) && Cell(size, b) && Joined(a, b)
    requires Reach(Layout(size), 0, Index(size, a))
    ensures Reach(Layout(size), 0, Index(size, b))
  {
    LayoutAdjacent(size, a, b);
    AdjacentReach(Layout(size), 0, Index(size, a), Index(size, b));
  }

  /**
   * Every up cell is reachable from the first cell of sector 0: through the
   * spokes along row 0 to the sector, then down its rows, each up cell of row
   * `i` joined through a down cell to the up cell above it.
   */
  lemma {:induction false} ReachUp(size: int, sector: int, i: int, j: int)
    requires 0 <= sector < 6 && 0 <= j <= i < size
    ensures Reach(Layout(size), 0, Index(size, Tile(sector, 0, i, j)))
    decreases sector, i
  {
    if i > 0 {
      var j' := if j < i then j else j - 1;
      ReachUp(size, sector, i - 1, j');
      ReachRowStep(size, sector, i, j, j');
    } else if sector > 0 {
      assert Tile(sector, 0, i, j) == Tile(sector, 0, 0, 0);
      ReachUp(size, sector - 1, 0, 0);
      ReachSpokeStep(size, sector);
    } else {
      assert Tile(sector, 0, i, j) == Tile(0, 0, 0, 0);
      ReachSelf(size);
    }
  }

  /** The first up cell of a sector is reachable when that of the sector before is, across a spoke. */
  lemma ReachSpokeStep(size: int, sector: int)
    requires 0 < sector < 6 && size >= 1
    requires Reach(Layout(size), 0, Index(size, Tile(sector - 1, 0, 0, 0)))
    ensures Reach(Layout(size), 0, Index(size, Tile(sector, 0, 0, 0)))
  {
    ModUnique(sector, 6, 0, sector);
    assert (sector - 1 + 1) % 6 == sector;
    assert Link(Tile(sector - 1, 0, 0, 0), Tile(sector, 0, 0, 0));
    ReachJoined(size, Tile(sector - 1, 0, 0, 0), Tile(sector, 0, 0, 0));
  }

  /** Up cell (i, j) is reachable when up cell (i - 1, j') above it is, through the down cell (i - 1, j') between them. */
  lemma ReachRowStep(size: int, sector: int, i: int, j: int, j': int)
    requires 0 <= sector < 6 && 0 <= j <= i < size && 0 < i && j' == (if j < i then j else j - 1)
    requires Reach(Layout(size), 0, Index(size, Tile(sector, 0, i - 1, j')))
    ensures Reach(Layout(size), 0, Index(size, Tile(sector, 0, i, j)))
  {
    var d := Tile(sector, 1, i - 1, j');
    assert Link(Tile(sector, 0, i - 1, j'), d);
    ReachJoined(size, Tile(sector, 0, i - 1, j'), d);
    assert Link(Tile(sector, 0, i, j), d);
    ReachJoined(size, d, Tile(sector, 0, i, j));
  }

  lemma ReachSelf(size: int)
    requires size >= 1
    ensures Reach(Layout(size), 0, Index(size, Tile(0, 0, 0, 0)))
  {
    assert Index(size, Tile(0, 0, 0, 0)) == 0;
  }

  lemma ReachCell(size: int, t: Tile)
    requires Cell(size, t)
    ensures Reach(Layout(size), 0, Index(size, t))
  {
    ReachUp(size, t.sector, t.row, t.col);
    if t.updown == 1 {
      assert Link(Tile(t.sector, 0, t.row, t.col), t);
      ReachJoined(size, Tile(t.sector, 0, t.row, t.col), t);
    }
  }

  lemma LayoutConnected(size: int)
    requires size >= 1
    ensures Connected(VertexCount(size), Layout(size))
  {
    var g := Layout(size);
    IndexIn(size, Tile(0, 0, 0, 0));
    forall x | 0 <= x < |g| ensures Reach(g, 0, x) {
      IndexOnto(size, x);
      var t :| Cell(size, t) && Index(size, t) == x;
      ReachCell(size, t);
    }
    ReachEverywhere(g, 0);
  }

  class HexagonalMaze {
    const size: int
    const maze: Maze.Maze

    /**
     * `HexagonalMaze::HexagonalMaze`: `6 size²` cells, the base class's entry 0
     * and exit 1 then replaced by `VertexIndex(0, 1, size - 1, 0)` and
     * `VertexIndex(3, 1, size - 1, 0)`.
     */
    constructor (size: int)
      ensures this.size == size && fresh(maze)
      ensures maze.vertices == VertexCount(size) && maze.adjacencylist == []
      ensures maze.startvertex == VertexIndex(size, 0, 1, size - 1, 0) && maze.endvertex == VertexIndex(size, 3, 1, size - 1, 0)
    {
      this.size := size;
      var m := new Maze.Maze(6 * size * size, 0, 1);
      m.startvertex := VertexIndex(size, 0, 1, size - 1, 0);
      m.endvertex := VertexIndex(size, 3, 1, size - 1, 0);
      maze := m;
    }

    /** `HexagonalMaze::InitialiseGraph`. */
    method InitialiseGraph()
      requires maze.vertices == VertexCount(size)
      modifies maze
      ensures maze.adjacencylist == Layout(size)
      ensures maze.SameShape()
    {
      maze.InitialiseGraph();
      ghost var A := maze.adjacencylist;
      ghost var P: seq<PushOp> := [];
      var sector := 0;
      assert Sectors(size)[..0] == [];
      while sector < 6
        invariant 0 <= sector <= 6
        invariant P == Flatten(Sectors(size)[..sector])
        invariant PushesIn(|A|, P) && maze.adjacencylist == Build(A, P) && maze.SameShape()
      {
        ghost var before := P;
        P := PushSector(sector, A, P);
        FlattenNext([], Sectors(size), sector, before, P);
        sector := sector + 1;
      }
      FlattenAll(Sectors(size));
    }

    /** One pass of the loop over sectors: its five loops in turn. */
    method PushSector(sector: int, ghost A: Graph, ghost P0: seq<PushOp>) returns (ghost P: seq<PushOp>)
      requires 0 <= sector < 6 && |A| == VertexCount(size)
      requires PushesIn(|A|, P0) && maze.adjacencylist == Build(A, P0)
      modifies maze
      ensures P == P0 + SectorPushes(size, sector)
      ensures PushesIn(|A|, P) && maze.adjacencylist == Build(A, P) && maze.SameShape()
    {
      P := PushOuter(sector, A, P0);
      P := PushSpokes(sector, A, P);
      P := PushType0(sector, A, P);
      P := PushType1(sector, A, P);
      P := PushType2(sector, A, P);
      AppendFive(P0, Flatten(Outer(size, sector)), Flatten(Spokes(size, sector)),
                 Flatten(Type0(size, sector)), Flatten(Type1(size, sector)), Flatten(Type2(size, sector)));
    }

    /** The outer boundary of a sector, except the entry and the exit. */
    method PushOuter(sector: int, ghost A: Graph, ghost P0: seq<PushOp>) returns (ghost P: seq<PushOp>)
      requires 0 <= sector < 6 && |A| == VertexCount(size)
      requires PushesIn(|A|, P0) && maze.adjacencylist == Build(A, P0)
      modifies maze
      ensures P == P0 + Flatten(Outer(size, sector))
      ensures PushesIn(|A|, P) && maze.adjacencylist == Build(A, P) && maze.SameShape()
    {
      P := P0;
      ghost var steps := Outer(size, sector);
      var i := 0;
      while i < size
        invariant 0 <= i <= |steps| == Trips(size)
        invariant P == P0 + Flatten(steps[..i])
        invariant PushesIn(|A|, P) && maze.adjacencylist == Build(A, P) && maze.SameShape()
      {
        ghost var before := P;
        P := PushOuterWall(sector, i, A, P);
        assert steps[i] == OuterStep(size, sector, i);
        FlattenNext(P0, steps, i, before, P);
        i := i + 1;
      }
      FlattenAll(steps);
    }

    method PushOuterWall(sector: int, i: int, ghost A: Graph, ghost P0: seq<PushOp>) returns (ghost P: seq<PushOp>)
      requires 0 <= sector < 6 && 0 <= i < size && |A| == VertexCount(size)
      requires PushesIn(|A|, P0) && maze.adjacencylist == Build(A, P0)
      modifies maze
      ensures P == P0 + OuterStep(size, sector, i)
      ensures PushesIn(|A|, P) && maze.adjacencylist == Build(A, P) && maze.SameShape()
    {
      P := P0;
      if i > 0 || sector % 3 != 0 {
        IndexIn(size, Tile(sector, 0, size - 1, i));
        P := maze.PushBack(VertexIndex(size, sector, 0, size - 1, i), (Outside, [sector, size - 1, i, 0]), A, P);
      }
    }

    /** `Maze::PushWall` between two cells, each named by its `VertexIndex`. */
    method PushCells(a: Tile, b: Tile, id: BorderId, ghost A: Graph, ghost P0: seq<PushOp>) returns (ghost P: seq<PushOp>)
      requires Cell(size, a) && Cell(size, b) && |A| == VertexCount(size)
      requires PushesIn(|A|, P0) && maze.adjacencylist == Build(A, P0)
      modifies maze
      ensures P == P0 + Mirror(Index(size, a), Index(size, b), id)
      ensures PushesIn(|A|, P) && maze.adjacencylist == Build(A, P) && maze.SameShape()
    {
      IndexIn(size, a);
      IndexIn(size, b);
      P := maze.PushWall(Index(size, a), Index(size, b), id, A, P0);
    }

    /** The borders between the six sectors. */
    method PushSpokes(sector: int, ghost A: Graph, ghost P0: seq<PushOp>) returns (ghost P: seq<PushOp>)
      requires 0 <= sector < 6 && |A| == VertexCount(size)
      requires PushesIn(|A|, P0) && maze.adjacencylist == Build(A, P0)
      modifies maze
      ensures P == P0 + Flatten(Spokes(size, sector))
      ensures PushesIn(|A|, P) && maze.adjacencylist == Build(A, P) && maze.SameShape()
    {
      P := P0;
      ghost var steps := Spokes(size, sector);
      var i := 0;
      while i < size
        invariant 0 <= i <= |steps| == Trips(size)
        invariant P == P0 + Flatten(steps[..i])
        invariant PushesIn(|A|, P) && maze.adjacencylist == Build(A, P) && maze.SameShape()
      {
        ghost var before := P;
        P := PushCells(Tile(sector, 0, i, i), Tile((sector + 1) % 6, 0, i, 0), [sector, i, i, 1], A, P);
        assert steps[i] == SpokeStep(size, sector, i);
        FlattenNext(P0, steps, i, before, P);
        i := i + 1;
      }
      FlattenAll(steps);
    }

    /** Edges of type 0, row by row. */
    method PushType0(sector: int, ghost A: Graph, ghost P0: seq<PushOp>) returns (ghost P: seq<PushOp>)
      requires 0 <= sector < 6 && |A| == VertexCount(size)
      requires PushesIn(|A|, P0) && maze.adjacencylist == Build(A, P0)
      modifies maze
      ensures P == P0 + Flatten(Type0(size, sector))
      ensures PushesIn(|A|, P) && maze.adjacencylist == Build(A, P) && maze.SameShape()
    {
      P := P0;
      ghost var rows := Type0(size, sector);
      var i := 0;
      while i < size - 1
        invariant 0 <= i <= |rows| == Trips(size - 1)
        invariant P == P0 + Flatten(rows[..i])
        invariant PushesIn(|A|, P) && maze.adjacencylist == Build(A, P) && maze.SameShape()
      {
        ghost var before := P;
        P := PushType0Row(sector, i, A, P);
        assert rows[i] == Flatten(Type0Row(size, sector, i));
        FlattenNext(P0, rows, i, before, P);
        i := i + 1;
      }
      FlattenAll(rows);
    }

    method PushType0Row(sector: int, i: int, ghost A: Graph, ghost P0: seq<PushOp>) returns (ghost P: seq<PushOp>)
      requires 0 <= sector < 6 && 0 <= i < size - 1 && |A| == VertexCount(size)
      requires PushesIn(|A|, P0) && maze.adjacencylist == Build(A, P0)
      modifies maze
      ensures P == P0 + Flatten(Type0Row(size, sector, i))
      ensures PushesIn(|A|, P) && maze.adjacencylist == Build(A, P) && maze.SameShape()
    {
      P := P0;
      ghost var steps := Type0Row(size, sector, i);
      var j := 0;
      while j <= i
        invariant 0 <= j <= i + 1
        invariant |steps| == i + 1
        invariant P == P0 + Flatten(steps[..j])
        invariant PushesIn(|A|, P) && maze.adjacencylist == Build(A, P) && maze.SameShape()
      {
        ghost var before := P;
        P := PushCells(Tile(sector, 0, i, j), Tile(sector, 1, i, j), [sector, i, j, 0], A, P);
        assert steps[j] == Type0Step(size, sector, i, j);
        FlattenNext(P0, steps, j, before, P);
        j := j + 1;
      }
      FlattenAll(steps);
    }

    /** Edges of type 1, row by row. */
    method PushType1(sector: int, ghost A: Graph, ghost P0: seq<PushOp>) returns (ghost P: seq<PushOp>)
      requires 0 <= sector < 6 && |A| == VertexCount(size)
      requires PushesIn(|A|, P0) && maze.adjacencylist == Build(A, P0)
      modifies maze
      ensures P == P0 + Flatten(Type1(size, sector))
      ensures PushesIn(|A|, P) && maze.adjacencylist == Build(A, P) && maze.SameShape()
    {
      P := P0;
      ghost var steps := Type1(size, sector);
      var i := 0;
      while i < size
        invariant 0 <= i <= Trips(size)
        invariant |steps| == Trips(size)
        invariant P == P0 + Flatten(steps[..i])
        invariant PushesIn(|A|, P) && maze.adjacencylist == Build(A, P) && maze.SameShape()
      {
        ghost var before := P;
        P := PushType1Row(sector, i, A, P);
        assert steps[i] == Flatten(Type1Row(size, sector, i));
        FlattenNext(P0, steps, i, before, P);
        i := i + 1;
      }
      FlattenAll(steps);
    }

    method PushType1Row(sector: int, i: int, ghost A: Graph, ghost P0: seq<PushOp>) returns (ghost P: seq<PushOp>)
      requires 0 <= sector < 6 && 0 <= i < size && |A| == VertexCount(size)
      requires PushesIn(|A|, P0) && maze.adjacencylist == Build(A, P0)
      modifies maze
      ensures P == P0 + Flatten(Type1Row(size, sector, i))
      ensures PushesIn(|A|, P) && maze.adjacencylist == Build(A, P) && maze.SameShape()
    {
      P := P0;
      ghost var steps := Type1Row(size, sector, i);
      var j := 0;
      while j < i
        invariant 0 <= j <= i
        invariant |steps| == i
        invariant P == P0 + Flatten(steps[..j])
        invariant PushesIn(|A|, P) && maze.adjacencylist == Build(A, P) && maze.SameShape()
      {
        ghost var before := P;
        P := PushCells(Tile(sector, 0, i, j), Tile(sector, 1, i - 1, j), [sector, i, j, 1], A, P);
        Type1Cells(size, sector, i, j);
        FlattenNext(P0, steps, j, before, P);
        j := j + 1;
      }
      FlattenAll(steps);
    }

    /** Edges of type 2, row by row. */
    method PushType2(sector: int, ghost A: Graph, ghost P0: seq<PushOp>) returns (ghost P: seq<PushOp>)
      requires 0 <= sector < 6 && |A| == VertexCount(size)
      requires PushesIn(|A|, P0) && maze.adjacencylist == Build(A, P0)
      modifies maze
      ensures P == P0 + Flatten(Type2(size, sector))
      ensures PushesIn(|A|, P) && maze.adjacencylist == Build(A, P) && maze.SameShape()
    {
      P := P0;
      ghost var steps := Type2(size, sector);
      var i := 0;
      while i < size
        invariant 0 <= i <= Trips(size)
        invariant |steps| == Trips(size)
        invariant P == P0 + Flatten(steps[..i])
        invariant PushesIn(|A|, P) && maze.adjacencylist == Build(A, P) && maze.SameShape()
      {
        ghost var before := P;
        P := PushType2Row(sector, i, A, P);
        assert steps[i] == Flatten(Type2Row(size, sector, i));
        FlattenNext(P0, steps, i, before, P);
        i := i + 1;
      }
      FlattenAll(steps);
    }

    method PushType2Row(sector: int, i: int, ghost A: Graph, ghost P0: seq<PushOp>) returns (ghost P: seq<PushOp>)
      requires 0 <= sector < 6 && 0 <= i < size && |A| == VertexCount(size)
      requires PushesIn(|A|, P0) && maze.adjacencylist == Build(A, P0)
      modifies maze
      ensures P == P0 + Flatten(Type2Row(size, sector, i))
      ensures PushesIn(|A|, P) && maze.adjacencylist == Build(A, P) && maze.SameShape()
    {
      P := P0;
      ghost var steps := Type2Row(size, sector, i);
      var j := 1;
      while j <= i
        invariant 1 <= j <= i + 1
        invariant |steps| == i
        invariant P == P0 + Flatten(steps[..j - 1])
        invariant PushesIn(|A|, P) && maze.adjacencylist == Build(A, P) && maze.SameShape()
      {
        ghost var before := P;
        P := PushCells(Tile(sector, 0, i, j), Tile(sector, 1, i - 1, j - 1), [sector, i, j, 2], A, P);
        Type2Cells(size, sector, i, j);
        FlattenNext(P0, steps, j - 1, before, P);
        j := j + 1;
      }
      FlattenAll(steps);
    }
  }
}
