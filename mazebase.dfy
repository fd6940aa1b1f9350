/**
 * The character board of the older generator (mazebase.cpp). A maze of H rows
 * and W columns of cells is drawn on a (2H+1) x (2W+2) grid of characters: cell
 * (h, w) sits at row 2h+1, column 2w+1; the position between two cells that
 * share a side holds '|' or '-'; the last column holds the string terminator.
 * Knocking a wall down (`removeedge`) writes a space at the position between
 * the two cells. Cells are numbered h*W + w by the algorithms that drive it.
 */
module MazeBase {
  import opened Graphs
  import opened Trees
  import opened Layouts
  import RectangularMaze

  /** A position of the board: row, column. */
  type Position = (int, int)

  /** What the loops of `initmaze` write at row `i`, column `j`. */
  function Drawn(H: int, W: int, i: int, j: int): char
  {
    if j == 2 * W + 1 then '\0'
    else if j == 0 || j == 2 * W then '|'
    else if i % 2 == 1 then (if j % 2 == 1 then ' ' else '|')
    else '-'
  }

  /** The entry (left of the top-left cell) and the exit (right of the bottom-right cell). */
  predicate Gate(H: int, W: int, i: int, j: int)
  {
    (i == 1 && j == 0) || (i == 2 * H - 1 && j == 2 * W)
  }

  /** The board `initmaze` leaves: the drawing with entry and exit opened. */
  function Initial(H: int, W: int, i: int, j: int): char
  {
    if Gate(H, W, i, j) then ' ' else Drawn(H, W, i, j)
  }

  /** The position of a cell (odd row, odd column, inside the frame). */
  predicate CellAt(H: int, W: int, i: int, j: int)
  {
    0 < i < 2 * H && 0 < j < 2 * W && i % 2 == 1 && j % 2 == 1
  }

  /**
   * On the drawn part of the board (every column but the terminator), the only
   * passable positions are the cells, the entry and the exit.
   */
  lemma InitialOpen(H: int, W: int, i: int, j: int)
    requires H >= 1 && W >= 1 && 0 <= i <= 2 * H && 0 <= j <= 2 * W
    ensures Initial(H, W, i, j) == ' ' <==> CellAt(H, W, i, j) || Gate(H, W, i, j)
  {
  }

  /** Every row ends with the terminator. */
  lemma InitialTerminated(H: int, W: int, i: int)
    requires H >= 1 && W >= 1
    ensures Initial(H, W, i, 2 * W + 1) == '\0'
  {
  }

  /** The position `removeedge` writes for cells `a` and `b`. */
  function Between(a: Position, b: Position): Position
  {
    (a.0 + b.0 + 1, a.1 + b.1 + 1)
  }

  /** The cell of vertex `x` and the vertex of cell `c`, numbered row by row. */
  function CellOf(W: int, x: int): Position
    requires W >= 1
  {
    (x / W, x % W)
  }

  function VertexOf(W: int, c: Position): int
  {
    c.0 * W + c.1
  }

  /** The position opened for a pair of vertices, computed through their cells. */
  function Opening(W: int, e: Pair): Position
    requires W >= 1
  {
    Between(CellOf(W, e.0), CellOf(W, e.1))
  }

  predicate InGrid(H: int, W: int, c: Position)
  {
    0 <= c.0 < H && 0 <= c.1 < W
  }

  predicate Neighbours(a: Position, b: Position)
  {
    GridNeighbours(a.0, a.1, b.0, b.1)
  }

  /**
   * Between two cells that share a side lies a wall of the initial board ('|'
   * beside, '-' above or below), which is neither a cell nor a gate.
   */
  lemma WallBetween(H: int, W: int, a: Position, b: Position)
    requires H >= 1 && W >= 1 && InGrid(H, W, a) && InGrid(H, W, b) && Neighbours(a, b)
    ensures 0 < Between(a, b).0 < 2 * H && 0 < Between(a, b).1 < 2 * W
    ensures !CellAt(H, W, Between(a, b).0, Between(a, b).1) && !Gate(H, W, Between(a, b).0, Between(a, b).1)
    ensures Initial(H, W, Between(a, b).0, Between(a, b).1) == if a.0 == b.0 then '|' else '-'
  {
  }

  /** Different pairs of neighbouring cells have different walls. */
  lemma BetweenInjective(a: Position, b: Position, c: Position, d: Position)
    requires Neighbours(a, b) && Neighbours(c, d) && Between(a, b) == Between(c, d)
    ensures (a == c && b == d) || (a == d && b == c)
  {
    if a.0 == b.0 {
      assert (a.1 + b.1) % 2 == 1;
      assert (c.1 + d.1) % 2 == 1;
    } else {
      assert (a.0 + b.0) % 2 == 1;
      assert (c.0 + d.0) % 2 == 1;
    }
  }

  /** Vertex numbers and cells correspond one to one. */
  lemma CellVertex(H: int, W: int, c: Position)
    requires W >= 1 && InGrid(H, W, c)
    ensures 0 <= VertexOf(W, c) < H * W && CellOf(W, VertexOf(W, c)) == c
  {
    RectangularMaze.VertexIndexInverse(W, H, c.0, c.1);
  }

  lemma VertexCell(H: int, W: int, x: int)
    requires W >= 1 && 0 <= x < H * W
    ensures InGrid(H, W, CellOf(W, x)) && VertexOf(W, CellOf(W, x)) == x
  {
    RectangularMaze.VertexIndexOnto(W, H, x);
  }

  /** A pair of vertices whose cells share a side. */
  predicate GridPair(H: int, W: int, e: Pair)
  {
    W >= 1 && 0 <= e.0 < H * W && 0 <= e.1 < H * W && Neighbours(CellOf(W, e.0), CellOf(W, e.1))
  }

  /**
   * The pairs of the board are the walls of the rectangular layout of
   * W columns and H rows: two vertices are joined there exactly when their
   * cells share a side.
   */
  lemma GridPairAdjacent(H: int, W: int, e: Pair)
    requires H >= 1 && W >= 1 && 0 <= e.0 < H * W && 0 <= e.1 < H * W
    ensures Adjacent(RectangularMaze.Layout(W, H), e.0, e.1) <==> GridPair(H, W, e)
  {
    var a, b := CellOf(W, e.0), CellOf(W, e.1);
    VertexCell(H, W, e.0);
    VertexCell(H, W, e.1);
    assert RectangularMaze.VertexIndex(W, a.0, a.1) == e.0 && RectangularMaze.VertexIndex(W, b.0, b.1) == e.1;
    RectangularMaze.LayoutAdjacent(W, H, a.0, a.1, b.0, b.1);
  }

  /** Two cells of the board sharing a side are adjacent vertices, with the wall between them as their opening. */
  lemma CellsAdjacent(H: int, W: int, a: Position, c: Position)
    requires H >= 1 && W >= 1 && InGrid(H, W, a) && InGrid(H, W, c) && Neighbours(a, c)
    ensures 0 <= VertexOf(W, a) < H * W && 0 <= VertexOf(W, c) < H * W
    ensures Adjacent(RectangularMaze.Layout(W, H), VertexOf(W, a), VertexOf(W, c))
    ensures Opening(W, (VertexOf(W, a), VertexOf(W, c))) == Between(a, c)
  {
    CellVertex(H, W, a);
    CellVertex(H, W, c);
    GridPairAdjacent(H, W, (VertexOf(W, a), VertexOf(W, c)));
  }

  /** The board after the walls of the pairs of `T` are knocked down, in order. */
  function Carved(H: int, W: int, T: seq<Pair>, i: int, j: int): char
    requires W >= 1
    decreases |T|
  {
    if T == [] then Initial(H, W, i, j)
    else if Opening(W, T[|T| - 1]) == (i, j) then ' '
    else Carved(H, W, T[..|T| - 1], i, j)
  }

  /** A position is a space after carving exactly when some pair opened it or it was one already. */
  lemma {:induction false} CarvedAt(H: int, W: int, T: seq<Pair>, i: int, j: int)
    requires W >= 1
    ensures Carved(H, W, T, i, j) ==
      if exists k :: 0 <= k < |T| && Opening(W, T[k]) == (i, j) then ' ' else Initial(H, W, i, j)
    decreases |T|
  {
    if T != [] {
      var T' := T[..|T| - 1];
      CarvedAt(H, W, T', i, j);
      assert forall k :: 0 <= k < |T'| ==> T'[k] == T[k];
      if exists k :: 0 <= k < |T| && Opening(W, T[k]) == (i, j) {
        var k :| 0 <= k < |T| && Opening(W, T[k]) == (i, j);
        if k < |T'| {
          assert Opening(W, T'[k]) == (i, j);
        }
      }
    }
  }

  lemma CarvedStep(H: int, W: int, T: seq<Pair>, e: Pair, i: int, j: int)
    requires W >= 1
    ensures Carved(H, W, T + [e], i, j) == if Opening(W, e) == (i, j) then ' ' else Carved(H, W, T, i, j)
  {
    assert (T + [e])[..|T|] == T;
  }

  /**
   * After knocking down the walls of a list of neighbouring pairs, the wall
   * between two neighbouring cells is open exactly when the list holds their
   * pair, in either direction; otherwise it is still the initial '|' or '-'.
   */
  lemma CarvedWall(H: int, W: int, T: seq<Pair>, a: Position, b: Position)
    requires H >= 1 && W >= 1 && InGrid(H, W, a) && InGrid(H, W, b) && Neighbours(a, b)
    requires forall k :: 0 <= k < |T| ==> GridPair(H, W, T[k])
    ensures Carved(H, W, T, Between(a, b).0, Between(a, b).1) ==
      if exists k :: 0 <= k < |T| && SameWall(T[k], (VertexOf(W, a), VertexOf(W, b)))
      then ' ' else (if a.0 == b.0 then '|' else '-')
  {
    var p := Between(a, b);
    CarvedAt(H, W, T, p.0, p.1);
    WallBetween(H, W, a, b);
    forall k | 0 <= k < |T|
      ensures Opening(W, T[k]) == p <==> SameWall(T[k], (VertexOf(W, a), VertexOf(W, b)))
    {
      PairWall(H, W, T[k], a, b);
    }
  }

  /** A neighbouring pair opens the wall between two cells exactly when it names them. */
  lemma PairWall(H: int, W: int, e: Pair, a: Position, b: Position)
    requires InGrid(H, W, a) && InGrid(H, W, b) && Neighbours(a, b) && GridPair(H, W, e)
    ensures Opening(W, e) == Between(a, b) <==> SameWall(e, (VertexOf(W, a), VertexOf(W, b)))
  {
    var c, d := CellOf(W, e.0), CellOf(W, e.1);
    CellVertex(H, W, a);
    CellVertex(H, W, b);
    VertexCell(H, W, e.0);
    VertexCell(H, W, e.1);
    if Between(c, d) == Between(a, b) {
      BetweenInjective(a, b, c, d);
    }
  }

  /**
   * After carving, the passable positions of the drawn board are the cells,
   * the gates and the walls the pairs opened.
   */
  lemma CarvedOpen(H: int, W: int, T: seq<Pair>, i: int, j: int)
    requires H >= 1 && W >= 1 && 0 <= i <= 2 * H && 0 <= j <= 2 * W
    ensures Carved(H, W, T, i, j) == ' ' <==>
      CellAt(H, W, i, j) || Gate(H, W, i, j) || exists k :: 0 <= k < |T| && Opening(W, T[k]) == (i, j)
  {
    CarvedAt(H, W, T, i, j);
    InitialOpen(H, W, i, j);
  }

  /** `board` is the board of H x W cells with the walls of `T` knocked down. */
  ghost predicate Shows(board: array2<char>, H: int, W: int, T: seq<Pair>)
    reads board
  {
    W >= 1 && board.Length0 == 2 * H + 1 && board.Length1 == 2 * W + 2 &&
    forall i, j :: 0 <= i < board.Length0 && 0 <= j < board.Length1 ==> board[i, j] == Carved(H, W, T, i, j)
  }

  /** The allocation and the drawing loops of `initmaze`, then the two gates. */
  method DrawBoard(H: int, W: int) returns (board: array2<char>)
    requires H >= 1 && W >= 1
    ensures fresh(board) && Shows(board, H, W, [])
  {
    board := new char[2 * H + 1, 2 * W + 2]((i, j) => '\0');
    var i := 0;
    while i <= 2 * H
      invariant 0 <= i <= 2 * H + 1
      invariant forall r, c :: 0 <= r < i && 0 <= c < 2 * W + 2 ==> board[r, c] == Drawn(H, W, r, c)
    {
      board[i, 2 * W + 1] := '\0';
      board[i, 0] := '|';
      board[i, 2 * W] := '|';
      var j := 1;
      while j < 2 * W
        invariant 1 <= j <= 2 * W
        invariant forall r, c :: 0 <= r < i && 0 <= c < 2 * W + 2 ==> board[r, c] == Drawn(H, W, r, c)
        invariant board[i, 0] == '|' && board[i, 2 * W] == '|' && board[i, 2 * W + 1] == '\0'
        invariant forall c :: 1 <= c < j ==> board[i, c] == Drawn(H, W, i, c)
      {
        if i % 2 == 1 {
          if j % 2 == 1 {
            board[i, j] := ' ';
          } else {
            board[i, j] := '|';
          }
        } else {
          board[i, j] := '-';
        }
        j := j + 1;
      }
      i := i + 1;
    }
    board[1, 0] := ' ';
    board[2 * H - 1, 2 * W] := ' ';
  }

  /**
   * `initmaze`: refuses sizes outside [1, 1000] with code 1, leaving the board
   * as it was; otherwise a fresh initial board and code 0.
   */
  method InitMaze(H: int, W: int, maze: array2<char>) returns (err: int, board: array2<char>)
    ensures err == 0 || err == 1
    ensures err == 1 <==> H <= 0 || H > 1000 || W <= 0 || W > 1000
    ensures err == 1 ==> board == maze
    ensures err == 0 ==> fresh(board) && Shows(board, H, W, [])
  {
    if H <= 0 || H > 1000 || W <= 0 || W > 1000 {
      return 1, maze;
    }
    board := DrawBoard(H, W);
    err := 0;
  }

  /**
   * `removeedge`: a space at the position between the two cells and nowhere
   * else. When that position is the opening of pair `e`, the board goes on
   * showing the carved walls, now with `e`'s.
   */
  method RemoveEdge(h1: int, w1: int, h2: int, w2: int, maze: array2<char>,
                    ghost H: int, ghost W: int, ghost T: seq<Pair>, ghost e: Pair)
    requires 0 <= h1 + h2 + 1 < maze.Length0 && 0 <= w1 + w2 + 1 < maze.Length1
    requires Shows(maze, H, W, T) && Opening(W, e) == Between((h1, w1), (h2, w2))
    modifies maze
    ensures maze[h1 + h2 + 1, w1 + w2 + 1] == ' '
    ensures forall i, j :: 0 <= i < maze.Length0 && 0 <= j < maze.Length1 && (i, j) != (h1 + h2 + 1, w1 + w2 + 1) ==>
      maze[i, j] == old(maze[i, j])
    ensures Shows(maze, H, W, T + [e])
  {
    maze[h1 + h2 + 1, w1 + w2 + 1] := ' ';
    forall i, j | 0 <= i < maze.Length0 && 0 <= j < maze.Length1
      ensures maze[i, j] == Carved(H, W, T + [e], i, j)
    {
      CarvedStep(H, W, T, e, i, j);
    }
  }

  // The steps to the neighbouring cells, and the `seen` grids of the searches.

  /** The position opened for a pair does not depend on the order of its cells. */
  lemma OpeningReversed(W: int, e: Pair)
    requires W >= 1
    ensures Opening(W, e) == Between(CellOf(W, e.1), CellOf(W, e.0))
  {
  }

  /** `neigh` (declared in mazebase.h): the steps from a cell to the four cells sharing a side with it. */
  const Neigh: seq<Position> := [(-1, 0), (0, 1), (1, 0), (0, -1)]

  /** The cell `neigh[q]` away from `a`. */
  function Step(a: Position, q: int): Position
    requires 0 <= q < |Neigh|
  {
    (a.0 + Neigh[q].0, a.1 + Neigh[q].1)
  }

  /** A step lands on a cell sharing a side with `a`, at the offset `neigh[q]`. */
  lemma StepAt(a: Position, q: int)
    requires 0 <= q < |Neigh|
    ensures Step(a, q) == (a.0 + Neigh[q].0, a.1 + Neigh[q].1) && Neighbours(a, Step(a, q))
  {
  }

  /** The four steps reach exactly the cells that share a side with `a`. */
  lemma StepNeighbours(a: Position, b: Position)
    ensures Neighbours(a, b) <==> exists q :: 0 <= q < |Neigh| && b == Step(a, q)
  {
    if Neighbours(a, b) {
      if b.0 == a.0 - 1 {
        assert b == Step(a, 0);
      } else if b.1 == a.1 + 1 {
        assert b == Step(a, 1);
      } else if b.0 == a.0 + 1 {
        assert b == Step(a, 2);
      } else {
        assert b == Step(a, 3);
      }
    }
  }

  /** An H x W grid of `seen` flags agrees, cell by cell, with the flags of the vertices. */
  ghost predicate Mirrors(seen: array2<bool>, H: int, W: int, visited: seq<bool>)
    reads seen
  {
    W >= 1 && seen.Length0 == H && seen.Length1 == W && |visited| == H * W &&
    forall c :: InGrid(H, W, c) ==> 0 <= VertexOf(W, c) < H * W && seen[c.0, c.1] == visited[VertexOf(W, c)]
  }

  /** A grid of unset flags mirrors unvisited vertices. */
  lemma MirrorsNone(seen: array2<bool>, H: int, W: int)
    requires W >= 1 && seen.Length0 == H && seen.Length1 == W
    requires forall i, j :: 0 <= i < H && 0 <= j < W ==> !seen[i, j]
    ensures H >= 0 ==> Mirrors(seen, H, W, seq(H * W, _ => false))
  {
    if H >= 0 {
      forall c | InGrid(H, W, c) ensures 0 <= VertexOf(W, c) < H * W {
        CellVertex(H, W, c);
      }
    }
  }

  /** Setting the flag of cell `c`, when every other cell already agrees, mirrors visiting its vertex. */
  lemma MirrorsMark(seen: array2<bool>, H: int, W: int, visited: seq<bool>, c: Position)
    requires W >= 1 && seen.Length0 == H && seen.Length1 == W && |visited| == H * W && InGrid(H, W, c)
    requires seen[c.0, c.1]
    requires forall d :: InGrid(H, W, d) && d != c ==>
      0 <= VertexOf(W, d) < H * W && seen[d.0, d.1] == visited[VertexOf(W, d)]
    ensures 0 <= VertexOf(W, c) < H * W && Mirrors(seen, H, W, visited[VertexOf(W, c) := true])
  {
    CellVertex(H, W, c);
    forall d | InGrid(H, W, d)
      ensures 0 <= VertexOf(W, d) < H * W && seen[d.0, d.1] == visited[VertexOf(W, c) := true][VertexOf(W, d)]
    {
      CellVertex(H, W, d);
    }
  }

  /** The flag of vertex `x` is the flag of its cell. */
  lemma MirrorsAt(seen: array2<bool>, H: int, W: int, visited: seq<bool>, x: int)
    requires Mirrors(seen, H, W, visited) && 0 <= x < H * W
    ensures InGrid(H, W, CellOf(W, x)) && VertexOf(W, CellOf(W, x)) == x
    ensures seen[x / W, x % W] == visited[x]
  {
    VertexCell(H, W, x);
  }
}
