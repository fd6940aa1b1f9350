/**
 * The original stand-alone generator (maze.cpp): Kruskal's algorithm on a
 * character board, with every pair of neighbouring cells coded as one number
 * u * H * W + v, a parent array whose lookup compresses paths fully, and a
 * union that links one representative under the other without ranks.
 */
module LegacyMain {
  import opened Graphs
  import opened Trees
  import opened Sequences
  import opened DisjointSets
  import opened MazeBase
  import opened LegacyKruskal
  import RectangularMaze
  import Random
  import Kruskal

  /** `vertex`: the number of the cell in row `h` and column `w`. */
  function Vertex(W: int, h: int, w: int): (x: int)
  {
    h * W + w
  }

  /** Every cell of the board has a number in [0, H*W), and that number names the cell back. */
  lemma VertexRange(H: int, W: int, h: int, w: int)
    requires 0 <= h < H && 0 <= w < W
    ensures 0 <= Vertex(W, h, w) < H * W
    ensures CellOf(W, Vertex(W, h, w)) == (h, w)
  {
    CellVertex(H, W, (h, w));
  }

  /** The code of a pair of vertices among `N`. */
  function Encode(N: int, e: Pair): int
  {
    e.0 * N + e.1
  }

  /** The pair a code stands for: the quotient and the remainder by `N`. */
  function Decode(N: int, x: int): (e: Pair)
    requires N >= 1
    ensures x >= 0 ==> 0 <= e.0 && 0 <= e.1 < N && x == Encode(N, e)
  {
    (x / N, x % N)
  }

  /** A product of a positive factor and a positive multiplier is at least the multiplier. */
  lemma AtLeastOnce(k: int, N: int)
    requires k >= 1 && N >= 1
    ensures k * N >= N
  {
    assert k * N == (k - 1) * N + N;
  }

  /** Decoding the code of a pair of vertices gives the pair back. */
  lemma DecodeEncode(N: int, e: Pair)
    requires N >= 1 && 0 <= e.0 && 0 <= e.1 < N
    ensures Decode(N, Encode(N, e)) == e
  {
    var x := Encode(N, e);
    var q, r := x / N, x % N;
    assert (q - e.0) * N == e.1 - r;
    if q > e.0 {
      AtLeastOnce(q - e.0, N);
    } else if q < e.0 {
      AtLeastOnce(e.0 - q, N);
    }
  }

  /** Two pairs of vertices with the same code are the same pair. */
  lemma EncodeInjective(N: int, e: Pair, f: Pair)
    requires N >= 1 && 0 <= e.0 && 0 <= e.1 < N && 0 <= f.0 && 0 <= f.1 < N
    ensures Encode(N, e) == Encode(N, f) <==> e == f
  {
    DecodeEncode(N, e);
    DecodeEncode(N, f);
  }

  /** The codes of a list of pairs, in order. */
  function Encoded(N: int, E: seq<Pair>): (r: seq<int>)
    ensures |r| == |E| && forall k :: 0 <= k < |E| ==> r[k] == Encode(N, E[k])
  {
    seq(|E|, k requires 0 <= k < |E| => Encode(N, E[k]))
  }

  /** The pairs a list of codes stands for, in order. */
  function Decoded(N: int, codes: seq<int>): (E: seq<Pair>)
    requires N >= 1
    ensures |E| == |codes| && forall k :: 0 <= k < |codes| ==> E[k] == Decode(N, codes[k])
  {
    seq(|codes|, k requires 0 <= k < |codes| => Decode(N, codes[k]))
  }

  /** The codes of a list of grid pairs decode back to the list. */
  lemma DecodedEncoded(H: int, W: int, E: seq<Pair>)
    requires H >= 1 && W >= 1 && forall k :: 0 <= k < |E| ==> GridPair(H, W, E[k])
    ensures Decoded(H * W, Encoded(H * W, E)) == E
  {
    forall k | 0 <= k < |E| ensures Decode(H * W, Encode(H * W, E[k])) == E[k] {
      DecodeEncode(H * W, E[k]);
    }
  }

  lemma EncodedAppend(N: int, A: seq<Pair>, B: seq<Pair>)
    ensures Encoded(N, A + B) == Encoded(N, A) + Encoded(N, B)
  {
  }

  /** The code maze.cpp computes for two vertices is the code of their pair. */
  lemma CodeOf(H: int, W: int, a: int, b: int)
    ensures a * H * W + b == Encode(H * W, (a, b))
  {
    assert a * H * W == a * (H * W);
  }

  /**
   * The two double loops of maze.cpp that fill `kruskalarray`: the codes of
   * every cell and its right neighbour, row by row, then of every cell and the
   * one below it. These are the codes of the pairs `Kruskal_initialize` lists.
   */
  method PushCodes(H: int, W: int) returns (codes: seq<int>)
    requires H >= 1 && W >= 1
    ensures codes == Encoded(H * W, GridPairs(H, W))
  {
    codes := [];
    var h := 0;
    while h < H
      invariant 0 <= h <= H
      invariant codes == Encoded(H * W, Horizontal(W, h))
    {
      EncodedAppend(H * W, Horizontal(W, h), RowPairs(W, h));
      codes := PushRow(H, W, h, codes);
      h := h + 1;
    }
    ghost var A := codes;
    h := 0;
    while h < H - 1
      invariant 0 <= h <= H - 1
      invariant codes == A + Encoded(H * W, Vertical(W, h))
    {
      EncodedAppend(H * W, Vertical(W, h), ColumnPairs(W, h));
      codes := PushColumn(H, W, h, codes);
      h := h + 1;
    }
    EncodedAppend(H * W, Horizontal(W, H), Vertical(W, H - 1));
  }

  /** The inner loop of the first double loop: the codes of row `h`'s horizontal pairs. */
  method PushRow(H: int, W: int, h: int, codes: seq<int>) returns (codes': seq<int>)
    requires W >= 1
    ensures codes' == codes + Encoded(H * W, RowPairs(W, h))
  {
    codes' := codes;
    var w := 0;
    while w < W - 1
      invariant 0 <= w <= W - 1
      invariant codes' == codes + Encoded(H * W, RowPairs(W, h)[..w])
    {
      assert RowPairs(W, h)[..w + 1] == RowPairs(W, h)[..w] + [RightPair(W, h, w)];
      EncodedAppend(H * W, RowPairs(W, h)[..w], [RightPair(W, h, w)]);
      CodeOf(H, W, Vertex(W, h, w), Vertex(W, h, w + 1));
      codes' := codes' + [Vertex(W, h, w) * H * W + Vertex(W, h, w + 1)];
      w := w + 1;
    }
    assert RowPairs(W, h)[..w] == RowPairs(W, h);
  }

  /** The inner loop of the second double loop: the codes of row `h`'s vertical pairs. */
  method PushColumn(H: int, W: int, h: int, codes: seq<int>) returns (codes': seq<int>)
    requires W >= 1
    ensures codes' == codes + Encoded(H * W, ColumnPairs(W, h))
  {
    codes' := codes;
    var w := 0;
    while w < W
      invariant 0 <= w <= W
      invariant codes' == codes + Encoded(H * W, ColumnPairs(W, h)[..w])
    {
      assert ColumnPairs(W, h)[..w + 1] == ColumnPairs(W, h)[..w] + [DownPair(W, h, w)];
      EncodedAppend(H * W, ColumnPairs(W, h)[..w], [DownPair(W, h, w)]);
      assert Vertex(W, h + 1, w) == h * W + w + W;
      CodeOf(H, W, Vertex(W, h, w), Vertex(W, h + 1, w));
      codes' := codes' + [Vertex(W, h, w) * H * W + Vertex(W, h + 1, w)];
      w := w + 1;
    }
    assert ColumnPairs(W, h)[..w] == ColumnPairs(W, h);
  }

  /** There are H(W-1) + (H-1)W codes, and each decodes to a pair of neighbouring cells. */
  lemma CodesGrid(H: int, W: int, codes: seq<int>)
    requires H >= 1 && W >= 1 && codes == Encoded(H * W, GridPairs(H, W))
    ensures |codes| == H * (W - 1) + (H - 1) * W
    ensures Decoded(H * W, codes) == GridPairs(H, W)
    ensures forall k :: 0 <= k < |codes| ==> GridPair(H, W, Decode(H * W, codes[k]))
  {
    GridPairsCount(H, W);
    GridPairsGrid(H, W);
    DecodedEncoded(H, W, GridPairs(H, W));
  }

  /**
   * After `random_shuffle` the decoded list holds the same pairs as the list
   * of grid pairs, each still a pair of neighbouring cells.
   */
  lemma ShuffledCodes(H: int, W: int, codes: seq<int>, shuffled: seq<int>)
    requires H >= 1 && W >= 1 && codes == Encoded(H * W, GridPairs(H, W))
    requires multiset(shuffled) == multiset(codes)
    ensures forall e :: e in Decoded(H * W, shuffled) <==> e in GridPairs(H, W)
    ensures forall k :: 0 <= k < |shuffled| ==> GridPair(H, W, Decoded(H * W, shuffled)[k])
  {
    var N := H * W;
    var S, E := Decoded(N, shuffled), GridPairs(H, W);
    CodesGrid(H, W, codes);
    forall e ensures e in S <==> e in E {
      if e in S {
        var k :| 0 <= k < |S| && S[k] == e;
        assert shuffled[k] in multiset(codes);
        var m :| 0 <= m < |codes| && codes[m] == shuffled[k];
        assert Decoded(N, codes)[m] == e;
      }
      if e in E {
        var m :| 0 <= m < |E| && E[m] == e;
        assert Decoded(N, codes)[m] == e;
        assert codes[m] in multiset(shuffled);
        var k :| 0 <= k < |shuffled| && shuffled[k] == codes[m];
        assert S[k] == e;
      }
    }
    forall k | 0 <= k < |shuffled| ensures GridPair(H, W, S[k]) {
      assert S[k] in E;
    }
  }

  /**
   * `getparent`: the representative of `u`, after pointing `u` (and,
   * recursively, every vertex on its path) straight at it. No vertex changes
   * group.
   */
  method GetParent(u: int, parent: array<int>, ghost rank: seq<nat>) returns (r: int)
    requires Valid(parent, rank) && 0 <= u < parent.Length
    modifies parent
    ensures Valid(parent, rank)
    ensures r == old(Root(parent[..], rank, u)) && parent[r] == r && parent[u] == r
    ensures Roots(parent[..]) == old(Roots(parent[..]))
    ensures RootMap(parent[..], rank) == old(RootMap(parent[..], rank))
    decreases parent.Length - rank[u]
  {
    if parent[u] == u {
      r := u;
    } else {
      ghost var p0 := parent[..];
      r := GetParent(parent[u], parent, rank);
      assert RootMap(parent[..], rank)[u] == RootMap(p0, rank)[u];
      Compress(parent[..], rank, u);
      parent[u] := r;
    }
  }

  /**
   * `parent[getparent(u)] = getparent(v)`: the representative of `u` is linked
   * under that of `v`, both found first with compression. For two vertices of
   * different groups the groups become one and every other group is kept.
   */
  method Union(u: int, v: int, parent: array<int>, ghost rank: seq<nat>) returns (ghost rank': seq<nat>)
    requires Valid(parent, rank) && 0 <= u < parent.Length && 0 <= v < parent.Length
    requires RootMap(parent[..], rank)[u] != RootMap(parent[..], rank)[v]
    modifies parent
    ensures Valid(parent, rank')
    ensures RootMap(parent[..], rank') ==
      Merge(old(RootMap(parent[..], rank)), old(RootMap(parent[..], rank))[u], old(RootMap(parent[..], rank))[v])
    ensures |Roots(parent[..])| == |old(Roots(parent[..]))| - 1
  {
    var rv := GetParent(v, parent, rank);
    var ru := GetParent(u, parent, rank);
    ghost var p := parent[..];
    Link(p, rank, ru, rv);
    LinkRootMap(p, rank, ru, rv);
    rank' := Bump(rank, ru, rv);
    parent[ru] := rv;
    assert parent[..] == p[ru := rv];
  }

  /**
   * One pass of the main loop: the code is split into its two cells; when they
   * have one representative the pass ends; otherwise the wall between them is
   * knocked down and their groups are merged.
   */
  method Pass(H: int, W: int, parent: array<int>, ghost rank: seq<nat>, ghost T: seq<Pair>,
              board: array2<char>, code: int)
    returns (kept: bool, ghost rank': seq<nat>, ghost T': seq<Pair>)
    requires Running(H, W, parent, rank, T, board) && GridPair(H, W, Decode(H * W, code))
    modifies parent, board
    ensures Running(H, W, parent, rank', T', board)
    ensures var e, L := Decode(H * W, code), old(RootMap(parent[..], rank));
      kept == (L[e.0] != L[e.1]) && T' == (if kept then T + [e] else T) &&
      RootMap(parent[..], rank') == if kept then Merge(L, L[e.0], L[e.1]) else L
  {
    var u, v := code / (H * W), code % (H * W);
    var ru := GetParent(u, parent, rank);
    var rv := GetParent(v, parent, rank);
    if ru == rv {
      return false, rank, T;
    }
    var hu, wu := u / W, u % W;
    var hv, wv := v / W, v % W;
    VertexCell(H, W, u);
    VertexCell(H, W, v);
    RemoveEdge(hu, wu, hv, wv, board, H, W, T, (u, v));
    ghost var p := parent[..];
    rank' := Union(u, v, parent, rank);
    TracksMerge(H * W, p, rank, T, parent[..], rank', u, v);
    kept, T' := true, T + [(u, v)];
  }

  /**
   * The board loop of maze.cpp: a (2H+1) x (2W+2) board drawn exactly as
   * `initmaze` draws it (walls round every cell, 0 ending every row, entry and
   * exit open), without `initmaze`'s upper bound on the size.
   */
  method DrawLegacyBoard(H: int, W: int) returns (board: array2<char>)
    requires H > 0 && W > 0
    ensures fresh(board) && Shows(board, H, W, [])
  {
    board := new char[2 * H + 1, 2 * W + 2];
    for i := 0 to 2 * H + 1
      invariant forall r, c :: 0 <= r < i && 0 <= c < 2 * W + 2 ==> board[r, c] == Drawn(H, W, r, c)
    {
      board[i, 2 * W + 1] := '\0';
      board[i, 0] := '|';
      board[i, 2 * W] := '|';
      for j := 1 to 2 * W
        invariant forall r, c :: 0 <= r < i && 0 <= c < 2 * W + 2 ==> board[r, c] == Drawn(H, W, r, c)
        invariant board[i, 0] == '|' && board[i, 2 * W] == '|' && board[i, 2 * W + 1] == '\0'
        invariant forall c :: 1 <= c < j ==> board[i, c] == Drawn(H, W, i, c)
      {
        board[i, j] := if i % 2 == 1 then (if j % 2 == 1 then ' ' else '|') else '-';
      }
    }
    board[1, 0] := ' ';
    board[2 * H - 1, 2 * W] := ' ';
  }

  /** The loop of maze.cpp that makes every vertex its own parent. */
  method NewParents(n: nat) returns (parent: array<int>)
    ensures fresh(parent) && parent[..] == Iota(n)
  {
    parent := new int[n];
    for u := 0 to n
      invariant forall k :: 0 <= k < u ==> parent[k] == k
    {
      parent[u] := u;
    }
  }

  /**
   * The main loop of maze.cpp: one pass per code of the shuffled list. The
   * walls knocked down join every pair of the list, and each of them is a pair
   * of the list.
   */
  method Passes(H: int, W: int, parent: array<int>, board: array2<char>, shuffled: seq<int>)
    returns (ghost rank: seq<nat>, ghost T: seq<Pair>)
    requires H >= 1 && W >= 1 && H * W >= 1 && parent[..] == Iota(H * W) && Shows(board, H, W, [])
    requires forall k :: 0 <= k < |shuffled| ==> GridPair(H, W, Decoded(H * W, shuffled)[k])
    modifies parent, board
    ensures Running(H, W, parent, rank, T, board)
    ensures Kruskal.JoinedUpTo(RootMap(parent[..], rank), Decoded(H * W, shuffled), |shuffled|)
    ensures forall k :: 0 <= k < |T| ==> T[k] in Decoded(H * W, shuffled)
  {
    ghost var S := Decoded(H * W, shuffled);
    rank := Zeros(H * W);
    T := [];
    TracksStart(H * W, parent[..], rank);
    for i := 0 to |shuffled|
      invariant Running(H, W, parent, rank, T, board)
      invariant Kruskal.JoinedUpTo(RootMap(parent[..], rank), S, i)
      invariant forall k :: 0 <= k < |T| ==> T[k] in S
    {
      ghost var groups := RootMap(parent[..], rank);
      var kept;
      kept, rank, T := Pass(H, W, parent, rank, T, board, shuffled[i]);
      Kruskal.JoinStep(groups, RootMap(parent[..], rank), S, i, kept);
    }
  }

  /**
   * The body of maze.cpp's `main` up to the drawing: the initial board, every
   * vertex its own parent, the codes of all pairs of neighbouring cells,
   * shuffled, and one pass per code. The walls knocked down form a spanning
   * tree of the H x W grid, so exactly H*W - 1 of them, and the board shows
   * exactly those.
   */
  method Generate(H: int, W: int, generator: Random.Generator)
    returns (board: array2<char>, ghost T: seq<Pair>)
    requires H > 0 && W > 0
    modifies generator
    ensures fresh(board) && Shows(board, H, W, T)
    ensures IsSpanningTree(H * W, RectangularMaze.Layout(W, H), T) && |T| == H * W - 1
  {
    board := DrawLegacyBoard(H, W);
    var parent := NewParents(H * W);
    var codes := PushCodes(H, W);
    var shuffled := generator.Shuffle(codes);
    ShuffledCodes(H, W, codes, shuffled);
    ghost var rank;
    rank, T := Passes(H, W, parent, board, shuffled);
    GridPairsGrid(H, W);
    GridPairsComplete(H, W);
    KruskalOutcome(H, W, parent[..], rank, T, Decoded(H * W, shuffled), GridPairs(H, W));
  }
}
