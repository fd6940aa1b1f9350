/**
 * The rectangular layout (src/mazetypes/rectangularmaze.cpp): `height` rows of
 * `width` cells, cell (row, column) being vertex `row * width + column`. The
 * outside walls run along the four sides, with the entry (left side, top row)
 * and the exit (right side, bottom row) left open, and there is one wall
 * between every two cells side by side or one above the other. A border is
 * named by the end points x1, y1, x2, y2 of its `LineBorder`.
 */
module RectangularMaze {
  import opened Graphs
  import opened Layouts
  import opened Numbers
  import Maze

  /** `RectangularMaze::VertexIndex`. */
  function VertexIndex(width: int, row: int, column: int): int
  {
    row * width + column
  }

  /** A cell is a vertex, and its row and column come back by division. */
  lemma VertexIndexInverse(width: int, height: int, row: int, column: int)
    requires 0 <= row < height && 0 <= column < width
    ensures 0 <= VertexIndex(width, row, column) < width * height
    ensures VertexIndex(width, row, column) / width == row
    ensures VertexIndex(width, row, column) % width == column
  {
    var x := VertexIndex(width, row, column);
    ModUnique(x, width, row, column);
    MultiplyBelow(row + 1, height, width);
    assert x < (row + 1) * width;
  }

  /** Every vertex is a cell: the numbering is onto. */
  lemma VertexIndexOnto(width: int, height: int, x: int)
    requires width >= 1 && 0 <= x < width * height
    ensures 0 <= x / width < height && 0 <= x % width < width
    ensures VertexIndex(width, x / width, x % width) == x
  {
  }

  // ---------------------------------------------------------------------------
  // The pushes of `InitialiseGraph`, loop by loop.

  /** First loop, iteration `i`: the lower wall of cell (0, i) and the upper wall of cell (height - 1, i). */
  function LowerUpperStep(width: int, height: int, i: int): seq<PushOp>
  {
    [(VertexIndex(width, 0, i), (Outside, [i, 0, i + 1, 0])),
     (VertexIndex(width, height - 1, i), (Outside, [i, height, i + 1, height]))]
  }

  function LowerUpper(width: int, height: int): seq<seq<PushOp>>
    requires width >= 0
  {
    seq(width, i => LowerUpperStep(width, height, i))
  }

  /** Pass `i` of the first loop pushes the lower and upper walls of column `i`, both onto cells of the board. */
  lemma LowerUpperAt(width: int, height: int, i: int)
    requires height >= 1 && 0 <= i < width
    ensures LowerUpper(width, height)[i] ==
      [(VertexIndex(width, 0, i), (Outside, [i, 0, i + 1, 0])), (VertexIndex(width, height - 1, i), (Outside, [i, height, i + 1, height]))]
    ensures 0 <= VertexIndex(width, 0, i) < width * height && 0 <= VertexIndex(width, height - 1, i) < width * height
  {
    VertexIndexInverse(width, height, 0, i);
    VertexIndexInverse(width, height, height - 1, i);
  }

  /**
   * Second loop, iteration `i`: the left wall of row `i` except in the entry
   * row, and the right wall except in the exit row. Both are pushed to the
   * list of cell (i, 0).
   */
  function SideStep(width: int, height: int, i: int): seq<PushOp>
  {
    LeftWall(width, i) + RightWall(width, height, i)
  }

  function LeftWall(width: int, i: int): seq<PushOp>
  {
    if i != 0 then [(VertexIndex(width, i, 0), (Outside, [0, i, 0, i + 1]))] else []
  }

  function RightWall(width: int, height: int, i: int): seq<PushOp>
  {
    if i != height - 1 then [(VertexIndex(width, i, 0), (Outside, [width, i, width, i + 1]))] else []
  }

  function Sides(width: int, height: int): seq<seq<PushOp>>
    requires height >= 0
  {
    seq(height, i => SideStep(width, height, i))
  }

  /** Third loop, row `i`, column `j`: the wall between cells (i, j) and (i, j + 1). */
  function HorizontalStep(width: int, i: int, j: int): seq<PushOp>
  {
    Mirror(VertexIndex(width, i, j), VertexIndex(width, i, j + 1), [j + 1, i, j + 1, i + 1])
  }

  function HorizontalRow(width: int, i: int): seq<seq<PushOp>>
    requires width >= 1
  {
    seq(width - 1, j => HorizontalStep(width, i, j))
  }

  /** Pass `j` of the horizontal loop of row `i` pushes the wall between two cells of the board. */
  lemma HorizontalAt(width: int, height: int, i: int, j: int)
    requires 0 <= i < height && 0 <= j < width - 1
    ensures HorizontalRow(width, i)[j] == Mirror(VertexIndex(width, i, j), VertexIndex(width, i, j + 1), [j + 1, i, j + 1, i + 1])
    ensures 0 <= VertexIndex(width, i, j) < width * height && 0 <= VertexIndex(width, i, j + 1) < width * height
  {
    VertexIndexInverse(width, height, i, j);
    VertexIndexInverse(width, height, i, j + 1);
  }

  function Horizontal(width: int, height: int): seq<seq<PushOp>>
    requires width >= 1 && height >= 0
  {
    seq(height, i => Flatten(HorizontalRow(width, i)))
  }

  /** Fourth loop, row `i`, column `j`: the wall between cells (i, j) and (i + 1, j). */
  function VerticalStep(width: int, i: int, j: int): seq<PushOp>
  {
    Mirror(VertexIndex(width, i, j), VertexIndex(width, i + 1, j), [j, i + 1, j + 1, i + 1])
  }

  function VerticalRow(width: int, i: int): seq<seq<PushOp>>
    requires width >= 0
  {
    seq(width, j => VerticalStep(width, i, j))
  }

  /** Pass `j` of the vertical loop of row `i` pushes the wall between two cells of the board. */
  lemma VerticalAt(width: int, height: int, i: int, j: int)
    requires 0 <= i < height - 1 && 0 <= j < width
    ensures VerticalRow(width, i)[j] == Mirror(VertexIndex(width, i, j), VertexIndex(width, i + 1, j), [j, i + 1, j + 1, i + 1])
    ensures 0 <= VertexIndex(width, i, j) < width * height && 0 <= VertexIndex(width, i + 1, j) < width * height
  {
    VertexIndexInverse(width, height, i, j);
    VertexIndexInverse(width, height, i + 1, j);
  }

  function Vertical(width: int, height: int): seq<seq<PushOp>>
    requires width >= 0 && height >= 1
  {
    seq(height - 1, i => Flatten(VerticalRow(width, i)))
  }

  /** All pushes of `InitialiseGraph`, in order. */
  function Pushes(width: int, height: int): seq<PushOp>
    requires width >= 1 && height >= 1
  {
    Flatten(LowerUpper(width, height)) + Flatten(Sides(width, height)) +
    Flatten(Horizontal(width, height)) + Flatten(Vertical(width, height))
  }

  // ---------------------------------------------------------------------------
  // Counting the pushes.

  lemma LowerUpperFacts(width: int, height: int)
    requires width >= 1 && height >= 1
    ensures WellFormed(width * height, Flatten(LowerUpper(width, height)))
    ensures OutsidePushes(Flatten(LowerUpper(width, height))) == 2 * width
    ensures InternalPushes(Flatten(LowerUpper(width, height))) == 0
  {
    var s := LowerUpper(width, height);
    forall i | 0 <= i < width ensures WellFormed(width * height, s[i]) {
      LowerUpperAt(width, height, i);
    }
    forall i | 0 <= i < width ensures OutsidePushes(s[i]) == 2 && InternalPushes(s[i]) == 0 {
      var x := (VertexIndex(width, 0, i), (Outside, [i, 0, i + 1, 0]));
      var y := (VertexIndex(width, height - 1, i), (Outside, [i, height, i + 1, height]));
      LowerUpperAt(width, height, i);
      MirrorCounts(x.0, 0, x.1.1);
      MirrorCounts(y.0, 0, y.1.1);
      PushCountsAppend([x], [y]);
      assert s[i] == [x] + [y];
    }
    FlattenWellFormed(width * height, s);
    FlattenUniform(s, 2, 0);
  }

  lemma SideStepFacts(width: int, height: int, i: int)
    requires width >= 1 && 0 <= i < height
    ensures WellFormed(width * height, SideStep(width, height, i))
    ensures OutsidePushes(SideStep(width, height, i)) == (if i != 0 then 1 else 0) + (if i != height - 1 then 1 else 0)
    ensures InternalPushes(SideStep(width, height, i)) == 0
    ensures forall k :: 0 <= k < |SideStep(width, height, i)| ==> SideStep(width, height, i)[k].0 == VertexIndex(width, i, 0)
  {
    var x := (VertexIndex(width, i, 0), (Outside, [0, i, 0, i + 1]));
    var y := (VertexIndex(width, i, 0), (Outside, [width, i, width, i + 1]));
    var a, b := LeftWall(width, i), RightWall(width, height, i);
    VertexIndexInverse(width, height, i, 0);
    MirrorCounts(x.0, 0, x.1.1);
    MirrorCounts(y.0, 0, y.1.1);
    PushCountsAppend(a, b);
    AppendWellFormed(width * height, a, b);
  }

  /** The side walls of the first `k` rows: one fewer left wall and, while the exit row is not reached, one per row on the right. */
  lemma {:induction false} SidesCount(width: int, height: int, k: int)
    requires width >= 1 && height >= 1 && 0 <= k <= height
    ensures WellFormed(width * height, Flatten(Sides(width, height)[..k]))
    ensures OutsidePushes(Flatten(Sides(width, height)[..k])) ==
      (if k >= 1 then k - 1 else 0) + (if k <= height - 1 then k else height - 1)
    ensures InternalPushes(Flatten(Sides(width, height)[..k])) == 0
    decreases k
  {
    var s := Sides(width, height);
    if k == 0 {
      PrefixNone(width * height, s);
    } else {
      SidesCount(width, height, k - 1);
      SideStepFacts(width, height, k - 1);
      assert s[k - 1] == SideStep(width, height, k - 1);
      PrefixStep(width * height, s, k - 1, OutsidePushes(Flatten(s[..k - 1])), InternalPushes(Flatten(s[..k - 1])),
                 OutsidePushes(s[k - 1]), InternalPushes(s[k - 1]));
    }
  }

  lemma SidesFacts(width: int, height: int)
    requires width >= 1 && height >= 1
    ensures WellFormed(width * height, Flatten(Sides(width, height)))
    ensures OutsidePushes(Flatten(Sides(width, height))) == 2 * (height - 1)
    ensures InternalPushes(Flatten(Sides(width, height))) == 0
  {
    SidesCount(width, height, height);
    FlattenAll(Sides(width, height));
  }

  lemma HorizontalRowFacts(width: int, height: int, i: int)
    requires width >= 1 && 0 <= i < height
    ensures WellFormed(width * height, Flatten(HorizontalRow(width, i)))
    ensures OutsidePushes(Flatten(HorizontalRow(width, i))) == 0
    ensures InternalPushes(Flatten(HorizontalRow(width, i))) == 2 * (width - 1)
  {
    var s := HorizontalRow(width, i);
    forall j | 0 <= j < width - 1
      ensures WellFormed(width * height, s[j]) && OutsidePushes(s[j]) == 0 && InternalPushes(s[j]) == 2
    {
      VertexIndexInverse(width, height, i, j);
      VertexIndexInverse(width, height, i, j + 1);
      MirrorWellFormed(width * height, VertexIndex(width, i, j), VertexIndex(width, i, j + 1), [j + 1, i, j + 1, i + 1]);
      MirrorCounts(VertexIndex(width, i, j), VertexIndex(width, i, j + 1), [j + 1, i, j + 1, i + 1]);
    }
    FlattenWellFormed(width * height, s);
    FlattenUniform(s, 0, 2);
  }

  lemma HorizontalFacts(width: int, height: int)
    requires width >= 1 && height >= 1
    ensures WellFormed(width * height, Flatten(Horizontal(width, height)))
    ensures OutsidePushes(Flatten(Horizontal(width, height))) == 0
    ensures InternalPushes(Flatten(Horizontal(width, height))) == 2 * (width - 1) * height
  {
    var s := Horizontal(width, height);
    forall i | 0 <= i < height
      ensures WellFormed(width * height, s[i]) && OutsidePushes(s[i]) == 0 && InternalPushes(s[i]) == 2 * (width - 1)
    {
      HorizontalRowFacts(width, height, i);
    }
    FlattenWellFormed(width * height, s);
    FlattenUniform(s, 0, 2 * (width - 1));
  }

  lemma VerticalRowFacts(width: int, height: int, i: int)
    requires width >= 1 && 0 <= i < height - 1
    ensures WellFormed(width * height, Flatten(VerticalRow(width, i)))
    ensures OutsidePushes(Flatten(VerticalRow(width, i))) == 0
    ensures InternalPushes(Flatten(VerticalRow(width, i))) == 2 * width
  {
    var s := VerticalRow(width, i);
    forall j | 0 <= j < width
      ensures WellFormed(width * height, s[j]) && OutsidePushes(s[j]) == 0 && InternalPushes(s[j]) == 2
    {
      VertexIndexInverse(width, height, i, j);
      VertexIndexInverse(width, height, i + 1, j);
      MirrorWellFormed(width * height, VertexIndex(width, i, j), VertexIndex(width, i + 1, j), [j, i + 1, j + 1, i + 1]);
      MirrorCounts(VertexIndex(width, i, j), VertexIndex(width, i + 1, j), [j, i + 1, j + 1, i + 1]);
    }
    FlattenWellFormed(width * height, s);
    FlattenUniform(s, 0, 2);
  }

  lemma VerticalFacts(width: int, height: int)
    requires width >= 1 && height >= 1
    ensures WellFormed(width * height, Flatten(Vertical(width, height)))
    ensures OutsidePushes(Flatten(Vertical(width, height))) == 0
    ensures InternalPushes(Flatten(Vertical(width, height))) == 2 * width * (height - 1)
  {
    var s := Vertical(width, height);
    forall i | 0 <= i < height - 1
      ensures WellFormed(width * height, s[i]) && OutsidePushes(s[i]) == 0 && InternalPushes(s[i]) == 2 * width
    {
      VerticalRowFacts(width, height, i);
    }
    FlattenWellFormed(width * height, s);
    FlattenUniform(s, 0, 2 * width);
  }

  lemma PushesFacts(width: int, height: int)
    requires width >= 1 && height >= 1
    ensures WellFormed(width * height, Pushes(width, height))
    ensures OutsidePushes(Pushes(width, height)) == 2 * width + 2 * (height - 1)
    ensures InternalPushes(Pushes(width, height)) == 2 * (width - 1) * height + 2 * width * (height - 1)
  {
    var a, b := Flatten(LowerUpper(width, height)), Flatten(Sides(width, height));
    var c, d := Flatten(Horizontal(width, height)), Flatten(Vertical(width, height));
    LowerUpperFacts(width, height);
    SidesFacts(width, height);
    HorizontalFacts(width, height);
    VerticalFacts(width, height);
    AppendWellFormed(width * height, a, b);
    AppendWellFormed(width * height, a + b, c);
    AppendWellFormed(width * height, a + b + c, d);
    PushCountsAppend(a, b);
    PushCountsAppend(a + b, c);
    PushCountsAppend(a + b + c, d);
  }

  /**
   * The graph `InitialiseGraph` builds: valid and symmetric (every internal wall
   * listed from both cells with the same border), with `2 width + 2 (height - 1)`
   * outside walls (both sides of every row but the entry and the exit), and
   * both entries of the `height (width - 1) + (height - 1) width` internal walls.
   */
  function Layout(width: int, height: int): (g: Graph)
    requires width >= 1 && height >= 1
    ensures ValidGraph(width * height, g) && Symmetric(g)
    ensures OutsideWalls(g) == 2 * width + 2 * (height - 1)
    ensures InternalEntries(g) == 2 * (width - 1) * height + 2 * width * (height - 1)
  {
    PushesFacts(width, height);
    Built(width * height, Pushes(width, height));
    Build(Empty(width * height), Pushes(width, height))
  }

  /** Both side walls of a row hang on the list of the row's first cell, the right one included. */
  lemma SideWallsInFirstColumn(width: int, height: int, x: PushOp)
    requires width >= 1 && height >= 1 && x in Flatten(Sides(width, height))
    ensures x.1.0 == Outside && x.0 % width == 0
  {
    var s := Sides(width, height);
    FlattenMembers(s, x);
    var i :| 0 <= i < height && x in s[i];
    SideStepFacts(width, height, i);
    VertexIndexInverse(width, height, i, 0);
  }

  /** Two cells are numbered the same only when they are the same cell. */
  lemma VertexIndexInjective(width: int, height: int, r1: int, c1: int, r2: int, c2: int)
    requires 0 <= r1 < height && 0 <= c1 < width && 0 <= r2 < height && 0 <= c2 < width
    requires VertexIndex(width, r1, c1) == VertexIndex(width, r2, c2)
    ensures r1 == r2 && c1 == c2
  {
    VertexIndexInverse(width, height, r1, c1);
    VertexIndexInverse(width, height, r2, c2);
  }

  /** The pushes of an internal wall between cells side by side. */
  ghost predicate HorizontalPush(width: int, height: int, x: PushOp)
  {
    exists i, j :: 0 <= i < height && 0 <= j < width - 1 && x in HorizontalStep(width, i, j)
  }

  /** The pushes of an internal wall between cells one above the other. */
  ghost predicate VerticalPush(width: int, height: int, x: PushOp)
  {
    exists i, j :: 0 <= i < height - 1 && 0 <= j < width && x in VerticalStep(width, i, j)
  }

  /** The first two loops push outside walls only. */
  lemma OutsideMembers(width: int, height: int, x: PushOp)
    requires width >= 1 && height >= 1
    requires x in Flatten(LowerUpper(width, height)) || x in Flatten(Sides(width, height))
    ensures x.1.0 == Outside
  {
    if x in Flatten(LowerUpper(width, height)) {
      FlattenMembers(LowerUpper(width, height), x);
    } else {
      SideWallsInFirstColumn(width, height, x);
    }
  }

  /** Every internal entry pushed belongs to a wall between two neighbouring cells. */
  lemma InternalMembers(width: int, height: int, x: PushOp)
    requires width >= 1 && height >= 1 && x in Pushes(width, height) && x.1.0 != Outside
    ensures HorizontalPush(width, height, x) || VerticalPush(width, height, x)
  {
    var a, b := Flatten(LowerUpper(width, height)), Flatten(Sides(width, height));
    var c, d := Flatten(Horizontal(width, height)), Flatten(Vertical(width, height));
    assert x in a || x in b || x in c || x in d;
    if x in a || x in b {
      OutsideMembers(width, height, x);
    } else if x in c {
      FlattenMembers(Horizontal(width, height), x);
      var i :| 0 <= i < height && x in Flatten(HorizontalRow(width, i));
      FlattenMembers(HorizontalRow(width, i), x);
      var j :| 0 <= j < width - 1 && x in HorizontalRow(width, i)[j];
      assert x in HorizontalStep(width, i, j);
    } else {
      FlattenMembers(Vertical(width, height), x);
      var i :| 0 <= i < height - 1 && x in Flatten(VerticalRow(width, i));
      FlattenMembers(VerticalRow(width, i), x);
      var j :| 0 <= j < width && x in VerticalRow(width, i)[j];
      assert x in VerticalStep(width, i, j);
    }
  }

  /** Both pushes of every wall between neighbouring cells are made. */
  lemma WallsPushed(width: int, height: int, i: int, j: int, x: PushOp)
    requires width >= 1 && height >= 1
    requires (0 <= i < height && 0 <= j < width - 1 && x in HorizontalStep(width, i, j)) ||
             (0 <= i < height - 1 && 0 <= j < width && x in VerticalStep(width, i, j))
    ensures x in Pushes(width, height)
  {
    if 0 <= i < height && 0 <= j < width - 1 && x in HorizontalStep(width, i, j) {
      assert x in HorizontalRow(width, i)[j];
      FlattenMembers(HorizontalRow(width, i), x);
      assert x in Horizontal(width, height)[i];
      FlattenMembers(Horizontal(width, height), x);
    } else {
      assert x in VerticalRow(width, i)[j];
      FlattenMembers(VerticalRow(width, i), x);
      assert x in Vertical(width, height)[i];
      FlattenMembers(Vertical(width, height), x);
    }
  }

  /** A push of a wall between cells side by side connects neighbours. */
  lemma HorizontalNeighbours(width: int, height: int, x: PushOp, r1: int, c1: int, r2: int, c2: int)
    requires width >= 1 && HorizontalPush(width, height, x)
    requires 0 <= r1 < height && 0 <= c1 < width && 0 <= r2 < height && 0 <= c2 < width
    requires x.0 == VertexIndex(width, r1, c1) && x.1.0 == VertexIndex(width, r2, c2)
    ensures GridNeighbours(r1, c1, r2, c2)
  {
    var i, j :| 0 <= i < height && 0 <= j < width - 1 && x in HorizontalStep(width, i, j);
    if x == HorizontalStep(width, i, j)[0] {
      VertexIndexInjective(width, height, r1, c1, i, j);
      VertexIndexInjective(width, height, r2, c2, i, j + 1);
    } else {
      VertexIndexInjective(width, height, r1, c1, i, j + 1);
      VertexIndexInjective(width, height, r2, c2, i, j);
    }
  }

  /** A push of a wall between cells one above the other connects neighbours. */
  lemma VerticalNeighbours(width: int, height: int, x: PushOp, r1: int, c1: int, r2: int, c2: int)
    requires width >= 1 && VerticalPush(width, height, x)
    requires 0 <= r1 < height && 0 <= c1 < width && 0 <= r2 < height && 0 <= c2 < width
    requires x.0 == VertexIndex(width, r1, c1) && x.1.0 == VertexIndex(width, r2, c2)
    ensures GridNeighbours(r1, c1, r2, c2)
  {
    var i, j :| 0 <= i < height - 1 && 0 <= j < width && x in VerticalStep(width, i, j);
    if x == VerticalStep(width, i, j)[0] {
      VertexIndexInjective(width, height, r1, c1, i, j);
      VertexIndexInjective(width, height, r2, c2, i + 1, j);
    } else {
      VertexIndexInjective(width, height, r1, c1, i + 1, j);
      VertexIndexInjective(width, height, r2, c2, i, j);
    }
  }

  /** The push that lists one cell from another, when the two share a side. */
  function WallPush(width: int, r1: int, c1: int, r2: int, c2: int): (x: PushOp)
    requires GridNeighbours(r1, c1, r2, c2)
    ensures x.0 == VertexIndex(width, r1, c1) && x.1.0 == VertexIndex(width, r2, c2)
  {
    if r1 == r2 && c2 == c1 + 1 then HorizontalStep(width, r1, c1)[0]
    else if r1 == r2 then HorizontalStep(width, r1, c2)[1]
    else if r2 == r1 + 1 then VerticalStep(width, r1, c1)[0]
    else VerticalStep(width, r2, c1)[1]
  }

  lemma WallPushPushed(width: int, height: int, r1: int, c1: int, r2: int, c2: int)
    requires width >= 1 && height >= 1 && GridNeighbours(r1, c1, r2, c2)
    requires 0 <= r1 < height && 0 <= c1 < width && 0 <= r2 < height && 0 <= c2 < width
    ensures WallPush(width, r1, c1, r2, c2) in Pushes(width, height)
    ensures exists k :: 0 <= k < |Pushes(width, height)| &&
                        Pushes(width, height)[k].0 == VertexIndex(width, r1, c1) &&
                        Pushes(width, height)[k].1.0 == VertexIndex(width, r2, c2)
  {
    var x := WallPush(width, r1, c1, r2, c2);
    if r1 == r2 && c2 == c1 + 1 {
      WallsPushed(width, height, r1, c1, x);
    } else if r1 == r2 {
      WallsPushed(width, height, r1, c2, x);
    } else if r2 == r1 + 1 {
      WallsPushed(width, height, r1, c1, x);
    } else {
      WallsPushed(width, height, r2, c1, x);
    }
    var k :| 0 <= k < |Pushes(width, height)| && Pushes(width, height)[k] == x;
  }

  /** In the layout, a cell lists another exactly when the two share a side. */
  lemma LayoutAdjacent(width: int, height: int, r1: int, c1: int, r2: int, c2: int)
    requires width >= 1 && height >= 1
    requires 0 <= r1 < height && 0 <= c1 < width && 0 <= r2 < height && 0 <= c2 < width
    ensures Adjacent(Layout(width, height), VertexIndex(width, r1, c1), VertexIndex(width, r2, c2)) <==>
      GridNeighbours(r1, c1, r2, c2)
  {
    VertexIndexInverse(width, height, r1, c1);
    VertexIndexInverse(width, height, r2, c2);
    PushesFacts(width, height);
    BuiltAdjacent(width * height, Pushes(width, height), VertexIndex(width, r1, c1), VertexIndex(width, r2, c2));
    if Adjacent(Layout(width, height), VertexIndex(width, r1, c1), VertexIndex(width, r2, c2)) {
      PushedNeighbours(width, height, r1, c1, r2, c2);
    }
    if GridNeighbours(r1, c1, r2, c2) {
      WallPushPushed(width, height, r1, c1, r2, c2);
    }
  }

  lemma PushedNeighbours(width: int, height: int, r1: int, c1: int, r2: int, c2: int)
    requires width >= 1 && height >= 1
    requires 0 <= r1 < height && 0 <= c1 < width && 0 <= r2 < height && 0 <= c2 < width
    requires exists k :: 0 <= k < |Pushes(width, height)| &&
                         Pushes(width, height)[k].0 == VertexIndex(width, r1, c1) &&
                         Pushes(width, height)[k].1.0 == VertexIndex(width, r2, c2)
    ensures GridNeighbours(r1, c1, r2, c2)
  {
    var P := Pushes(width, height);
    var k :| 0 <= k < |P| && P[k].0 == VertexIndex(width, r1, c1) && P[k].1.0 == VertexIndex(width, r2, c2);
    VertexIndexInverse(width, height, r2, c2);
    InternalMembers(width, height, P[k]);
    if HorizontalPush(width, height, P[k]) {
      HorizontalNeighbours(width, height, P[k], r1, c1, r2, c2);
    } else {
      VerticalNeighbours(width, height, P[k], r1, c1, r2, c2);
    }
  }

  /** Every cell is reachable from cell (0, 0): along the top row, then down the column. */
  lemma {:induction false} ReachCell(width: int, height: int, r: int, c: int)
    requires width >= 1 && height >= 1 && 0 <= r < height && 0 <= c < width
    ensures Reach(Layout(width, height), 0, VertexIndex(width, r, c))
    decreases r, c
  {
    if r > 0 {
      ReachCell(width, height, r - 1, c);
      ReachNeighbour(width, height, r - 1, c, r, c);
    } else if c > 0 {
      ReachCell(width, height, 0, c - 1);
      ReachNeighbour(width, height, 0, c - 1, 0, c);
    }
  }

  lemma ReachNeighbour(width: int, height: int, r1: int, c1: int, r2: int, c2: int)
    requires width >= 1 && height >= 1 && GridNeighbours(r1, c1, r2, c2)
    requires 0 <= r1 < height && 0 <= c1 < width && 0 <= r2 < height && 0 <= c2 < width
    requires Reach(Layout(width, height), 0, VertexIndex(width, r1, c1))
    ensures Reach(Layout(width, height), 0, VertexIndex(width, r2, c2))
  {
    LayoutAdjacent(width, height, r1, c1, r2, c2);
    AdjacentReach(Layout(width, height), 0, VertexIndex(width, r1, c1), VertexIndex(width, r2, c2));
  }

  /** The layout is connected, so every spanning-tree algorithm applies to it. */
  lemma LayoutConnected(width: int, height: int)
    requires width >= 1 && height >= 1
    ensures Connected(width * height, Layout(width, height))
  {
    var g := Layout(width, height);
    forall x | 0 <= x < |g| ensures Reach(g, 0, x) {
      VertexIndexOnto(width, height, x);
      ReachCell(width, height, x / width, x % width);
    }
    ReachEverywhere(g, 0);
  }

  class RectangularMaze {
    const width: int
    const height: int
    const maze: Maze.Maze

    /** `RectangularMaze::RectangularMaze`: `width * height` cells, entry at cell 0, exit at the last cell. */
    constructor (width: int, height: int)
      ensures this.width == width && this.height == height && fresh(maze)
      ensures maze.vertices == width * height && maze.startvertex == 0 && maze.endvertex == width * height - 1
      ensures maze.adjacencylist == []
    {
      this.width := width;
      this.height := height;
      maze := new Maze.Maze(width * height, 0, width * height - 1);
    }

    /** `RectangularMaze::InitialiseGraph`. */
    method InitialiseGraph()
      requires width >= 1 && height >= 1 && maze.vertices == width * height
      modifies maze
      ensures maze.adjacencylist == Layout(width, height)
      ensures maze.SameShape()
    {
      MultiplyBelow(1, height, width);
      maze.InitialiseGraph();
      ghost var A := maze.adjacencylist;
      ghost var P: seq<PushOp> := [];
      P := PushLowerUpper(A, P);
      assert P == Flatten(LowerUpper(width, height));
      P := PushSides(A, P);
      P := PushHorizontal(A, P);
      P := PushVertical(A, P);
    }

    method PushLowerUpper(ghost A: Graph, ghost P0: seq<PushOp>) returns (ghost P: seq<PushOp>)
      requires width >= 1 && height >= 1 && |A| == width * height
      requires PushesIn(|A|, P0) && maze.adjacencylist == Build(A, P0)
      modifies maze
      ensures P == P0 + Flatten(LowerUpper(width, height))
      ensures PushesIn(|A|, P) && maze.adjacencylist == Build(A, P) && maze.SameShape()
    {
      P := P0;
      var i := 0;
      while i < width
        invariant 0 <= i <= width
        invariant P == P0 + Flatten(LowerUpper(width, height)[..i])
        invariant PushesIn(|A|, P) && maze.adjacencylist == Build(A, P) && maze.SameShape()
      {
        LowerUpperAt(width, height, i);
        var x := (VertexIndex(width, 0, i), (Outside, [i, 0, i + 1, 0]));
        var y := (VertexIndex(width, height - 1, i), (Outside, [i, height, i + 1, height]));
        ghost var before := P;
        P := maze.PushBack(x.0, x.1, A, P);
        P := maze.PushBack(y.0, y.1, A, P);
        AppendPair(before, x, y);
        FlattenNext(P0, LowerUpper(width, height), i, before, P);
        i := i + 1;
      }
      FlattenAll(LowerUpper(width, height));
    }

    method PushSides(ghost A: Graph, ghost P0: seq<PushOp>) returns (ghost P: seq<PushOp>)
      requires width >= 1 && height >= 1 && |A| == width * height
      requires PushesIn(|A|, P0) && maze.adjacencylist == Build(A, P0)
      modifies maze
      ensures P == P0 + Flatten(Sides(width, height))
      ensures PushesIn(|A|, P) && maze.adjacencylist == Build(A, P) && maze.SameShape()
    {
      P := P0;
      var i := 0;
      while i < height
        invariant 0 <= i <= height
        invariant P == P0 + Flatten(Sides(width, height)[..i])
        invariant PushesIn(|A|, P) && maze.adjacencylist == Build(A, P) && maze.SameShape()
      {
        ghost var before := P;
        P := PushSideWalls(i, A, P);
        FlattenNext(P0, Sides(width, height), i, before, P);
        i := i + 1;
      }
      FlattenAll(Sides(width, height));
    }

    /** One pass of the second loop: the left wall unless `i` is the entry row, the right wall unless it is the exit row. */
    method PushSideWalls(i: int, ghost A: Graph, ghost P0: seq<PushOp>) returns (ghost P: seq<PushOp>)
      requires width >= 1 && 0 <= i < height && |A| == width * height
      requires PushesIn(|A|, P0) && maze.adjacencylist == Build(A, P0)
      modifies maze
      ensures P == P0 + SideStep(width, height, i)
      ensures PushesIn(|A|, P) && maze.adjacencylist == Build(A, P) && maze.SameShape()
    {
      VertexIndexInverse(width, height, i, 0);
      P := P0;
      if i != 0 {
        P := maze.PushBack(VertexIndex(width, i, 0), (Outside, [0, i, 0, i + 1]), A, P);
      }
      P := PushRightWall(i, A, P0, P);
    }

    method PushRightWall(i: int, ghost A: Graph, ghost P0: seq<PushOp>, ghost P1: seq<PushOp>) returns (ghost P: seq<PushOp>)
      requires width >= 1 && 0 <= i < height && |A| == width * height
      requires P1 == P0 + LeftWall(width, i)
      requires PushesIn(|A|, P1) && maze.adjacencylist == Build(A, P1)
      modifies maze
      ensures P == P0 + SideStep(width, height, i)
      ensures PushesIn(|A|, P) && maze.adjacencylist == Build(A, P) && maze.SameShape()
    {
      VertexIndexInverse(width, height, i, 0);
      P := P1;
      if i != height - 1 {
        P := maze.PushBack(VertexIndex(width, i, 0), (Outside, [width, i, width, i + 1]), A, P);
      }
      assert P == P1 + RightWall(width, height, i);
    }

    method PushHorizontalRow(i: int, ghost A: Graph, ghost P0: seq<PushOp>) returns (ghost P: seq<PushOp>)
      requires width >= 1 && 0 <= i < height && |A| == width * height
      requires PushesIn(|A|, P0) && maze.adjacencylist == Build(A, P0)
      modifies maze
      ensures P == P0 + Flatten(HorizontalRow(width, i))
      ensures PushesIn(|A|, P) && maze.adjacencylist == Build(A, P) && maze.SameShape()
    {
      P := P0;
      var j := 0;
      while j < width - 1
        invariant 0 <= j <= width - 1
        invariant P == P0 + Flatten(HorizontalRow(width, i)[..j])
        invariant PushesIn(|A|, P) && maze.adjacencylist == Build(A, P) && maze.SameShape()
      {
        HorizontalAt(width, height, i, j);
        ghost var before := P;
        P := maze.PushWall(VertexIndex(width, i, j), VertexIndex(width, i, j + 1), [j + 1, i, j + 1, i + 1], A, P);
        FlattenNext(P0, HorizontalRow(width, i), j, before, P);
        j := j + 1;
      }
      FlattenAll(HorizontalRow(width, i));
    }

    method PushHorizontal(ghost A: Graph, ghost P0: seq<PushOp>) returns (ghost P: seq<PushOp>)
      requires width >= 1 && height >= 1 && |A| == width * height
      requires PushesIn(|A|, P0) && maze.adjacencylist == Build(A, P0)
      modifies maze
      ensures P == P0 + Flatten(Horizontal(width, height))
      ensures PushesIn(|A|, P) && maze.adjacencylist == Build(A, P) && maze.SameShape()
    {
      P := P0;
      var i := 0;
      while i < height
        invariant 0 <= i <= height
        invariant P == P0 + Flatten(Horizontal(width, height)[..i])
        invariant PushesIn(|A|, P) && maze.adjacencylist == Build(A, P) && maze.SameShape()
      {
        ghost var before := P;
        P := PushHorizontalRow(i, A, P);
        FlattenNext(P0, Horizontal(width, height), i, before, P);
        i := i + 1;
      }
      FlattenAll(Horizontal(width, height));
    }

    method PushVerticalRow(i: int, ghost A: Graph, ghost P0: seq<PushOp>) returns (ghost P: seq<PushOp>)
      requires width >= 1 && 0 <= i < height - 1 && |A| == width * height
      requires PushesIn(|A|, P0) && maze.adjacencylist == Build(A, P0)
      modifies maze
      ensures P == P0 + Flatten(VerticalRow(width, i))
      ensures PushesIn(|A|, P) && maze.adjacencylist == Build(A, P) && maze.SameShape()
    {
      P := P0;
      var j := 0;
      while j < width
        invariant 0 <= j <= width
        invariant P == P0 + Flatten(VerticalRow(width, i)[..j])
        invariant PushesIn(|A|, P) && maze.adjacencylist == Build(A, P) && maze.SameShape()
      {
        VerticalAt(width, height, i, j);
        ghost var before := P;
        P := maze.PushWall(VertexIndex(width, i, j), VertexIndex(width, i + 1, j), [j, i + 1, j + 1, i + 1], A, P);
        FlattenNext(P0, VerticalRow(width, i), j, before, P);
        j := j + 1;
      }
      FlattenAll(VerticalRow(width, i));
    }

    method PushVertical(ghost A: Graph, ghost P0: seq<PushOp>) returns (ghost P: seq<PushOp>)
      requires width >= 1 && height >= 1 && |A| == width * height
      requires PushesIn(|A|, P0) && maze.adjacencylist == Build(A, P0)
      modifies maze
      ensures P == P0 + Flatten(Vertical(width, height))
      ensures PushesIn(|A|, P) && maze.adjacencylist == Build(A, P) && maze.SameShape()
    {
      P := P0;
      var i := 0;
      while i < height - 1
        invariant 0 <= i <= height - 1
        invariant P == P0 + Flatten(Vertical(width, height)[..i])
        invariant PushesIn(|A|, P) && maze.adjacencylist == Build(A, P) && maze.SameShape()
      {
        ghost var before := P;
        P := PushVerticalRow(i, A, P);
        FlattenNext(P0, Vertical(width, height), i, before, P);
        i := i + 1;
      }
      FlattenAll(Vertical(width, height));
    }
  }
}
