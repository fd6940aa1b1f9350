# mazegenerator in Dafny

A model of mazegenerator, a C++ program that generates mazes as random spanning
trees of cell graphs. The model covers the program's shape families and its
spanning-tree algorithms, along with proofs of their properties.

In the program a maze is an adjacency list with one list per cell. Each list
has one entry per wall of the cell. An entry names either the neighbouring
cell behind the wall or `-1`, the outside. It also names the border that
draws the wall.

- Each maze family fills these lists:
  - the rectangular, triangular, honeycomb, hexagonal and circular shapes;
  - a user-defined graph read from a file.
- A spanning-tree algorithm picks the walls to knock down. There are five:
  Kruskal, Prim, depth-first search, breadth-first search, and a loop-erased
  random walk. There is also the walk over a "disjoint-set forest".
- `RemoveBorders` then erases the picked walls from both lists.

The repository also keeps an older generator that draws a rectangular maze on
a character board. It contains:

- `mazebase.cpp` and the Kruskal, Prim, depth-first and subdivision algorithms
  built on it;
- a stand-alone Kruskal program, `maze.cpp`.

The test file checks mazes with its own validators: connectivity, the number
of tree walls, and the number of boundary walls.

## How the model is built

- **Graphs** (`graphs.dfy`). `Graph` is `seq<seq<Edge>>`. An `Edge` is a
  neighbour and a border id.
  - `ValidGraph`: every entry is a cell or `-1`.
  - `Symmetric`: every internal wall is listed from both sides.
  - `Adjacent`, `Reach` and `Connected` describe the graph's structure.
  - A layout is written as the list of its pushes. `Build` replays those
    pushes onto empty lists. The counting lemmas give the outside-wall and
    internal-entry totals.
- **Trees** (`trees.dfy`).
  - A spanning tree is a list of pairs.
  - `Labels` replays the pairs with a quick-find relabelling.
  - `Acyclic` means every pair joins two different components.
  - `IsSpanningTree` means acyclic, with pairs of adjacent cells, `V - 1` of
    them, and all cells joined.
- **Shared pieces.**
  - `disjoint_sets.dfy`: the parent-array union-find used by every
    Kruskal-like algorithm. It has a ghost rank to prove termination of root
    finding.
  - `numbers.dfy`: the modular arithmetic behind the prime-stride walk.
  - `extraction.dfy`: formatted input from a character stream. It gives what
    `>>` extracts into an `int`, a `double` or a `string`, and where the
    stream then stands. An `int` read of `3.5` takes 3 and leaves `.5`.
  - `random.dfy`: the random generator as a stream of draws. Only the range of
    each draw is known; the values are arbitrary.
- **Objects become classes.** A class whose methods update its fields becomes a
  Dafny class. Examples are `Maze`, each layout, and each algorithm with its
  `spanningtree`, `visited`, `parent` or `status` fields.
  - Every loop of the source becomes a `while` loop with invariants.
  - Each layout's `InitialiseGraph` is proved to leave exactly the lists of a
    pure reference function `Layout`.
  - Lemmas state what `Layout` means: counts, adjacency ⇔ geometric
    neighbourhood, outside walls, connectivity.
- **The older generator.**
  - It works on an `array2<char>` board.
  - `Shows(board, H, W, T)` says the board is the initial drawing with the
    walls of the pairs `T` knocked down.
  - Each of its algorithms is proved to leave a board showing a spanning tree
    of the rectangular grid of `H` x `W` cells.

Where the code disagrees with its own comments, headers, tests or evident
intent, the model follows the code:

- **Rectangular right-side walls.** In `rectangularmaze.cpp` the right-side
  outside walls are pushed onto the lists of column 0, not the last column
  (lines 28-30). `RectangularMaze.SideWallsInFirstColumn` states this.
- **Hexagonal start and end.** In `hexagonalmaze.cpp` the start and end cells
  are `s²` and `4s²`. These are the up cells (0, 0) of sectors 1 and 4. The
  openings left in the outer wall are in sectors 0 and 3.
  `HexagonalMaze.StartEnd` states this.
- **Boundary-wall count.** A comment in `tests/test_maze.cpp` says a 5 x 5
  rectangular maze has 16 boundary walls. The layout code gives 18, and 17 for
  a 5-row triangle. Both meet the test's only requirement, more than 0 and
  fewer than 20 (`Validators.BoundaryCounts`).
- **Kruskal entry point.** `src/algorithms/kruskal.cpp` defines
  `Kruskal::MinimumSpanningTree`, the name declared in `src/kruskal.h`.
  `src/algorithms/kruskal.h` instead declares `SpanningTree`, the interface of
  `spanningtreealgorithm.h`. The model uses `SpanningTree`.
- **Disjoint-set forest stride.** `disjointsetforest.cpp` draws a random
  starting index `j` and then uses `primes[i]`, the first listed prime that
  does not divide the size. The random draw therefore never influences the
  stride; `ChoosePrime` returns `i`.

## Model

| member | source | states |
|---|---|---|
| Maze.Find | src/maze/maze.cpp:22-27 | the index of the first entry of the list leading to `v`, or the list's length when there is none |
| Maze.FindFirst | src/maze/maze.cpp:22-27 | when entry `i` is the first leading to `v`, the search returns `i` |
| Maze.FindNone | src/maze/maze.cpp:22-27 | the search runs off the end exactly when no entry leads to `v`, and then removing the first such entry leaves the list unchanged |
| Maze.RemoveFirst | src/maze/maze.cpp:22-27 | one entry shorter when some entry leads to `v`, the same length otherwise |
| Maze.RemoveFirstOrder | src/maze/maze.cpp:24 | `erase` keeps the order of the remaining entries |
| Maze.RemoveFirstKeeps | src/maze/maze.cpp:22-27 | an entry that does not lead to `v` stays in the list |
| Maze.RemoveFirstCounts | src/maze/maze.cpp:22-33 | removing an internal neighbour leaves the number of outside walls unchanged and drops one internal entry |
| Maze.RemovePair | src/maze/maze.cpp:20-33 | every list other than those of the pair's two cells is unchanged, and the number of lists is kept |
| Maze.RemoveAll | src/maze/maze.cpp:19-35 | the number of lists is kept |
| Maze.AdjacentPairsIn | src/maze/maze.cpp:20-21 | the pairs of a tree of adjacent cells have both ends among the lists |
| Maze.RemovePairKeepsAdjacent | src/maze/maze.cpp:20-33 | erasing one wall keeps every other adjacency |
| Maze.RemoveAllKeepsOutside | src/maze/maze.cpp:19-35 | removing tree walls never removes an outside wall |
| Maze.RemoveAllCounts | src/maze/maze.cpp:19-35 | removing the walls of `k` distinct pairs of a symmetric graph drops exactly `2k` internal entries |
| Maze.CarveSpanningTree | src/maze/maze.cpp:14-35 | carving a spanning tree keeps every outside wall and removes `2(V-1)` internal entries |
| Maze.WallsStillThere | src/maze/maze.cpp:19-35 | each pair of the tree is still adjacent, in both directions, when its turn comes |
| Maze.Maze.constructor | src/maze/maze.cpp:6-7 | stores the vertex count, the start and the end vertex, with empty lists |
| Maze.Maze.InitialiseGraph | src/maze/maze.cpp:9-12 | the lists become `vertices` empty lists |
| Maze.Maze.PushBack | src/mazetypes/rectangularmaze.cpp:38-39 | the `push_back` used by every layout: the list of `u` gains the entry at its end, nothing else changes |
| Maze.Maze.PushWall | src/mazetypes/rectangularmaze.cpp:38-39 | the two pushes of one internal wall, one in each cell's list |
| Maze.Maze.EraseFirst | src/maze/maze.cpp:22-27 | one inner loop of `RemoveBorders`: the list of `u` becomes `RemoveFirst` of it |
| Maze.Maze.RemoveBorders | src/maze/maze.cpp:19-35 | the lists become `RemoveAll` of the old lists and the pairs |
| Maze.Maze.GenerateMaze | src/maze/maze.cpp:14-17 | the algorithm runs on the lists. When it cannot finish (only the disjoint-set forest or the walk), the lists are unchanged. When it finishes, its pairs are adjacent and removed, and on a connected symmetric graph they form a spanning tree: the outside walls are all kept and the internal entries drop by `2(V-1)` |
| Maze.DrawnInMembers | src/maze/maze.cpp:65-70 | a border of list `i` is drawn exactly when an entry carries it and passes the `edge.first < i` test |
| Maze.DrawnBordersMembers | src/maze/maze.cpp:96-102 | the borders drawn over all lists are exactly those of the entries passing the test |
| Maze.EveryWallDrawn | src/maze/maze.cpp:65-70 | on a symmetric graph every wall that is not a self-loop is drawn, and an internal wall from exactly one of its sides |
| Graphs.BuildSymmetric | src/algorithms/spanningtreealgorithm.h:9-10 | pushes made in mirrored pairs give symmetric lists |
| Graphs.BuildCounts | src/algorithms/spanningtreealgorithm.h:9-10 | the outside walls and internal entries of built lists are those of the pushes |
| Graphs.BuildMembers | src/algorithms/spanningtreealgorithm.h:9-10 | an entry is in a built list exactly when some push put it there |
| Graphs.ConnectedReachesAll | src/algorithms/spanningtreealgorithm.h:9-10 | in a connected graph every vertex reaches every other |
| Graphs.ReachesAllConnected | src/algorithms/spanningtreealgorithm.h:9-10 | in a symmetric graph, one vertex reaching every vertex makes the graph connected |
| Layouts.Built | src/mazetypes/rectangularmaze.cpp:12-52 | a layout built from mirrored, in-range pushes is valid and symmetric |
| Layouts.BuiltAdjacent | src/mazetypes/rectangularmaze.cpp:12-52 | two cells of a built layout are adjacent exactly when some push joins them |
| Layouts.ReachEverywhere | src/mazetypes/rectangularmaze.cpp:12-52 | from `s`, every vertex is reached |
| Trees.AcyclicSimple | src/algorithms/spanningtreealgorithm.h:9-10 | an acyclic list has no self-loop and no repeated wall |
| Trees.ClassCount | src/algorithms/spanningtreealgorithm.h:9-10 | `k` acyclic pairs over `n` cells leave `n - k` components, and `k <= n` |
| Trees.SpanningTreeOneClass | src/algorithms/spanningtreealgorithm.h:9-10 | a spanning tree puts all cells in one component |
| Trees.SpanningTreeTouchesAll | src/algorithms/spanningtreealgorithm.h:9-10 | with two or more cells, a spanning tree touches every cell |
| Kruskal.ForwardPairs | src/algorithms/kruskal.cpp:8-13 | the pairs `(i, w)` for the entries of list `i` with `w > i` |
| Kruskal.ForwardPairsMembers | src/algorithms/kruskal.cpp:8-13 | a pair is collected exactly when it is `(i, w)` with `w > i` for an entry of list `i` |
| Kruskal.CandidatesMembers | src/algorithms/kruskal.cpp:8-13 | the candidate list holds exactly the internal walls listed from their smaller end |
| Kruskal.CandidatesInRange | src/algorithms/kruskal.cpp:8-13 | every candidate joins two cells of the graph and is adjacent |
| Kruskal.CollectCandidates | src/algorithms/kruskal.cpp:8-13 | the nested loops build exactly the candidate list |
| Kruskal.Kruskal.constructor | src/algorithms/kruskal.h:8-16 | an empty tree over the given generator |
| Kruskal.Kruskal.GetParent | src/algorithms/kruskal.cpp:29-31 | returns the representative of `u` and points `u` straight at it; no vertex changes group |
| Kruskal.Kruskal.Consider | src/algorithms/kruskal.cpp:21-24 | a pair is kept exactly when its ends are in different groups; then the groups merge and the tree gains the pair; otherwise nothing changes |
| Kruskal.Kruskal.ConsiderAll | src/algorithms/kruskal.cpp:20-25 | the forest keeps tracking the tree, every candidate ends inside a group, and the tree holds only candidates |
| Kruskal.JoinStep | src/algorithms/kruskal.cpp:20-25 | each pass keeps the pairs seen so far inside groups |
| Kruskal.AllWallsJoined | src/algorithms/kruskal.cpp:20-25 | once every candidate is inside a group, the two ends of every wall share a group |
| Kruskal.Outcome | src/algorithms/kruskal.cpp:6-27 | the tree holds adjacent candidates and is acyclic; on a connected symmetric graph it is a spanning tree |
| Kruskal.Kruskal.SpanningTree | src/algorithms/kruskal.cpp:6-27 | the tree is an acyclic list of candidate pairs of adjacent cells, and a spanning tree whenever the graph is symmetric and connected |
| Prim.Leaves | src/algorithms/prim.cpp:24-31 | in a connected graph some internal wall leaves any nonempty proper set of visited cells |
| Prim.SwapKeeps | src/algorithms/prim.cpp:28 | swapping the drawn element to the back keeps the frontier's elements |
| Prim.PopKeeps | src/algorithms/prim.cpp:30 | `pop_back` removes one occurrence and keeps the rest |
| Prim.Prim.constructor | src/algorithms/prim.h:7-14 | an empty tree over the given generator |
| Prim.Prim.SpanningTree | src/algorithms/prim.cpp:4-10 | on a connected graph the result is a spanning tree |
| Prim.Prim.PrimAlgorithm | src/algorithms/prim.cpp:12-36 | appends `V - 1` pairs to the tree, keeps the earlier pairs, and the new ones span the graph |
| Prim.Prim.Round | src/algorithms/prim.cpp:18-35 | the given cell is visited, then a pair from a visited to an unvisited adjacent cell is drawn |
| Prim.Prim.PushNeighbours | src/algorithms/prim.cpp:19-22 | the old elements are kept, the new ones are walls from the vertex to unvisited cells, and afterwards the frontier holds every wall leaving the visited set |
| Prim.Prim.DrawEdge | src/algorithms/prim.cpp:24-31 | the pair drawn leads from a visited to an unvisited cell and is adjacent; the frontier loses it |
| Search.Visit | src/algorithms/depthfirstsearch.cpp:13-18 | attaching an unvisited neighbour keeps the search invariant and marks one more cell |
| Search.FinishedGrows | src/algorithms/depthfirstsearch.cpp:19-25 | a finished cell stays finished as more cells are visited |
| Search.SearchOutcome | src/algorithms/depthfirstsearch.cpp:4-11 | after a search the visited cells are exactly those reachable from the start, and the tree spans a connected graph |
| DepthFirstSearch.CoveredStep | src/algorithms/depthfirstsearch.cpp:19-25 | visiting the neighbour of the next shuffled entry covers that entry |
| DepthFirstSearch.Enter | src/algorithms/depthfirstsearch.cpp:13-18 | entering a cell reachable from the start keeps the invariant |
| DepthFirstSearch.AllCovered | src/algorithms/depthfirstsearch.cpp:19-25 | once every shuffled entry is covered, every newly visited cell is finished |
| DepthFirstSearch.DepthFirstSearch.constructor | src/algorithms/depthfirstsearch.cpp:4-11 | an empty tree over the given generator |
| DepthFirstSearch.DepthFirstSearch.SpanningTree | src/algorithms/depthfirstsearch.cpp:4-11 | visited cells are exactly those reachable from the start cell; the tree holds one adjacent pair per visited cell but the start, is acyclic, and spans a connected graph |
| DepthFirstSearch.DepthFirstSearch.DFS | src/algorithms/depthfirstsearch.cpp:13-25 | the cell becomes visited, the tree only grows, and every newly visited cell is finished |
| DepthFirstSearch.DepthFirstSearch.Neighbours | src/algorithms/depthfirstsearch.cpp:19-25 | every shuffled entry is covered |
| DepthFirstSearch.DepthFirstSearch.Explore | src/algorithms/depthfirstsearch.cpp:20-24 | a neighbour that is a cell ends up visited, the tree only grows, and every newly visited cell is finished |
| BreadthFirstSearch.Reordered | src/breadthfirstsearch.cpp:26-28 | a permutation of the next level keeps the level invariants |
| BreadthFirstSearch.CollectedTrans | src/breadthfirstsearch.cpp:16-24 | collecting is transitive |
| BreadthFirstSearch.SeenStep | src/breadthfirstsearch.cpp:18-22 | each visited entry covers one more entry of the cell |
| BreadthFirstSearch.BreadthFirstSearch.constructor | src/breadthfirstsearch.h:7-15 | an empty tree over the given generator |
| BreadthFirstSearch.BreadthFirstSearch.MinimumSpanningTree | src/breadthfirstsearch.cpp:5-31 | the same outcome as the depth-first search: reachable cells exactly, one adjacent pair per new cell, acyclic, spanning when connected |
| BreadthFirstSearch.BreadthFirstSearch.Level | src/breadthfirstsearch.cpp:16-24 | every cell of the current level becomes finished, and the newly visited cells form the next level |
| BreadthFirstSearch.BreadthFirstSearch.Expand | src/breadthfirstsearch.cpp:17-23 | the cell becomes finished, and the new cells join the next level |
| BreadthFirstSearch.BreadthFirstSearch.Look | src/breadthfirstsearch.cpp:18-22 | the entry's neighbour ends visited, and newly visited cells join the next level |
| LoopErasedRandomWalk.Chain | src/algorithms/looperasedrandomwalk.cpp:49-52 | the pairs of consecutive cells of a path |
| LoopErasedRandomWalk.ChainSnoc | src/algorithms/looperasedrandomwalk.cpp:49-52 | extending a path by one cell extends its pairs by one |
| LoopErasedRandomWalk.ChainLast | src/algorithms/looperasedrandomwalk.cpp:49-52 | hanging a path whose pairs up to the last are chained gives a grown tree |
| LoopErasedRandomWalk.ChainAdjacent | src/algorithms/looperasedrandomwalk.cpp:49-52 | a walk of adjacent cells gives adjacent pairs |
| LoopErasedRandomWalk.PathOnto | src/algorithms/looperasedrandomwalk.cpp:38-45 | hanging a branch path onto a grown tree keeps it grown over the path's cells |
| LoopErasedRandomWalk.PopOne | src/algorithms/looperasedrandomwalk.cpp:41-44 | popping the back cell clears its tag and shortens the path by one |
| LoopErasedRandomWalk.WalkBranch | src/algorithms/looperasedrandomwalk.cpp:26-49 | a walk that stops on a visited cell, with that cell appended, is a loop-free path whose only tree cell is its last |
| LoopErasedRandomWalk.PlantOne | src/algorithms/looperasedrandomwalk.cpp:6-12 | with only the first shuffled cell tagged, an empty tree spans the tagged cells |
| LoopErasedRandomWalk.AllPlanted | src/algorithms/looperasedrandomwalk.cpp:13-19 | once every cell of the shuffled order is visited, every cell is visited and the tree is a spanning tree of the graph |
| LoopErasedRandomWalk.Hang | src/algorithms/looperasedrandomwalk.cpp:49-52 | hanging a fresh path onto the tree keeps it acyclic and marks every cell of the path |
| LoopErasedRandomWalk.TagOne | src/algorithms/looperasedrandomwalk.cpp:38-45 | tagging a cell with the round number keeps the other tags |
| LoopErasedRandomWalk.UntagOne | src/algorithms/looperasedrandomwalk.cpp:41-44 | clearing one tag keeps the other tags |
| LoopErasedRandomWalk.WalkTags | src/algorithms/looperasedrandomwalk.cpp:26-48 | tags stay at most the round, and the tags at the start are kept |
| LoopErasedRandomWalk.TaggedAfterWalk | src/algorithms/looperasedrandomwalk.cpp:49-52 | the tagged cells are those tagged at the start plus the path |
| LoopErasedRandomWalk.LoopErasedRandomWalk.constructor | src/algorithms/looperasedrandomwalk.h:7-15 | an empty tree over the given generator |
| LoopErasedRandomWalk.LoopErasedRandomWalk.SpanningTree | src/algorithms/looperasedrandomwalk.cpp:4-20 | when every walk finishes within its step budget, every cell is visited and the tree is a spanning tree; `complete` is false only when the whole budget is spent, and the fuel returned never exceeds the budget |
| LoopErasedRandomWalk.LoopErasedRandomWalk.Attach | src/algorithms/looperasedrandomwalk.cpp:14-16 | a visited vertex is skipped: success, with the round, the budget, the tags and the tree unchanged; failure only once the budget is spent; otherwise, when its walk finishes, the vertex is visited, the tree is still planted, tags stay within the new round and earlier tags are kept |
| LoopErasedRandomWalk.LoopErasedRandomWalk.LERW | src/algorithms/looperasedrandomwalk.cpp:22-53 | a finished walk plants a loop-free path from the new cell to the tree; tags never exceed the round; earlier tags are kept; the walk fails only once the budget is spent |
| LoopErasedRandomWalk.LoopErasedRandomWalk.Walk | src/algorithms/looperasedrandomwalk.cpp:26-48 | the walk ends on a tree cell with a loop-free path of adjacent cells starting at the vertex; it fails only when the budget is spent |
| LoopErasedRandomWalk.LoopErasedRandomWalk.Step | src/algorithms/looperasedrandomwalk.cpp:27-47 | one step onto a random neighbour, erasing the loop it closes, keeps the walk invariant and uses budget; it fails only when the budget is spent |
| LoopErasedRandomWalk.LoopErasedRandomWalk.Draw | src/algorithms/looperasedrandomwalk.cpp:30-36 | a drawn cell is adjacent to the current one; a negative result only when the draws ran out |
| LoopErasedRandomWalk.LoopErasedRandomWalk.EraseLoop | src/algorithms/looperasedrandomwalk.cpp:38-45 | the path is cut back to the prefix that ends just before the revisited cell, and those cells lose their tags |
| LoopErasedRandomWalk.LoopErasedRandomWalk.Erase | src/algorithms/looperasedrandomwalk.cpp:41-44 | one pop of the erase loop |
| LoopErasedRandomWalk.LoopErasedRandomWalk.Record | src/algorithms/looperasedrandomwalk.cpp:49-52 | the tree gains the pairs of the path, in order, and its cells become visited |
| DisjointSetForest.PrimesArePrime | src/algorithms/disjointsetforest.cpp:73 | every stride in the table is prime |
| DisjointSetForest.EntryPairsMembers | src/algorithms/disjointsetforest.cpp:38-40 | a list contributes exactly its entries that are not outside walls |
| DisjointSetForest.EdgeArrayMembers | src/algorithms/disjointsetforest.cpp:36-40 | the edge array holds exactly the internal entries of the graph |
| DisjointSetForest.EdgeArrayCount | src/algorithms/disjointsetforest.cpp:36-40 | the edge array has one element per internal entry |
| DisjointSetForest.EdgeArrayWalls | src/algorithms/disjointsetforest.cpp:36-40 | every element of the edge array is an adjacent pair of cells |
| DisjointSetForest.EntriesPerVertex | src/algorithms/disjointsetforest.cpp:42 | in a connected graph of two or more cells, the first `i` lists hold at least `i` internal entries |
| DisjointSetForest.EnoughEntries | src/algorithms/disjointsetforest.cpp:42 | the size assertion holds on every connected graph of two or more cells |
| DisjointSetForest.FindGroupRep | src/algorithms/disjointsetforest.cpp:44-57 | returns the root of the node and compresses the path, changing no group |
| DisjointSetForest.SameGroup | src/algorithms/disjointsetforest.cpp:59-63 | true exactly when the two nodes share a group; groups unchanged |
| DisjointSetForest.MergeGroups | src/algorithms/disjointsetforest.cpp:65-70 | the two groups become one and the forest tracks the tree extended by the pair |
| DisjointSetForest.NextStride | src/algorithms/disjointsetforest.cpp:87-90 | the index update reads element `(i + 2) p mod n` on pass `i` |
| DisjointSetForest.JoinStep | src/algorithms/disjointsetforest.cpp:90-98 | each pass keeps the elements read so far inside groups |
| DisjointSetForest.WalkCovers | src/algorithms/disjointsetforest.cpp:85-99 | with a prime that does not divide the size, the walk reads every element of the edge array |
| DisjointSetForest.AllEntriesJoined | src/algorithms/disjointsetforest.cpp:85-99 | then the two ends of every internal wall share a group |
| DisjointSetForest.WalkedEnd | src/algorithms/disjointsetforest.cpp:96-97 | the early exit never fires before the last pass |
| DisjointSetForest.DisjointSetForest.constructor | src/algorithms/disjointsetforest.cpp:4-6 | an empty tree over the given generator |
| DisjointSetForest.DisjointSetForest.SpanningTree | src/algorithms/disjointsetforest.cpp:12-101 | a size mismatch is reported exactly when `vertices` differs from the list count; too few edges exactly when there are fewer internal entries than cells (never on a connected graph of two or more cells); no prime exactly when every listed prime divides the size; a completed run gives an acyclic tree of adjacent pairs, spanning when the graph is connected |
| DisjointSetForest.DisjointSetForest.BuildEdgeArray | src/algorithms/disjointsetforest.cpp:35-40 | the nested loops build exactly the edge array |
| DisjointSetForest.DisjointSetForest.ChoosePrime | src/algorithms/disjointsetforest.cpp:72-83 | the index of the first listed prime that does not divide the size, or the table length when there is none |
| DisjointSetForest.DisjointSetForest.GrowTree | src/algorithms/disjointsetforest.cpp:85-99 | starting from singleton groups and an empty tree, the walk over the edges gives an acyclic tree of adjacent pairs, spanning when the graph is connected |
| DisjointSetForest.DisjointSetForest.Walk | src/algorithms/disjointsetforest.cpp:85-99 | after all passes the groups, the tree and the elements read agree |
| DisjointSetForest.DisjointSetForest.Pass | src/algorithms/disjointsetforest.cpp:90-98 | one pass: advance the index and consider the element it selects |
| DisjointSetForest.DisjointSetForest.Consider | src/algorithms/disjointsetforest.cpp:92-95 | an element is added exactly when its ends are in different groups, which then merge |
| Numbers.SmallPrime | src/algorithms/disjointsetforest.cpp:73 | an odd number in `[11, 121)` with no factor 3, 5 or 7 is prime |
| Numbers.Bezout | src/algorithms/disjointsetforest.cpp:86-91 | `x a + y b == Gcd(a, b)` |
| Numbers.Inverse | src/algorithms/disjointsetforest.cpp:86-91 | the inverse undoes multiplication by the prime modulo `n` |
| Numbers.StrideStep | src/algorithms/disjointsetforest.cpp:90 | each pass adds the prime modulo the size |
| Numbers.StrideInjective | src/algorithms/disjointsetforest.cpp:86-91 | the walk never reads the same element twice in `n` passes |
| Numbers.StrideCovers | src/algorithms/disjointsetforest.cpp:86-91 | the walk reads every element in `n` passes |
| DisjointSets.Compress | src/algorithms/disjointsetforest.cpp:50-55 | pointing a node straight at its root changes no group |
| DisjointSets.Link | src/algorithms/disjointsetforest.cpp:65-70 | linking one root under another keeps a forest |
| DisjointSets.LinkRootMap | src/algorithms/kruskal.cpp:23 | after the link the groups are the old ones with the two merged |
| DisjointSets.TracksLink | src/algorithms/kruskal.cpp:21-24 | linking the roots of a kept pair keeps the forest's groups equal to the tree's components |
| DisjointSets.TracksAllJoined | src/algorithms/kruskal.cpp:20-25 | when every wall is inside a group of a connected graph, the tree is a spanning tree |
| DisjointSets.TracksBound | src/algorithms/disjointsetforest.cpp:96-97 | a tracked tree has fewer pairs than cells |
| Random.Generator.Below | src/algorithms/prim.cpp:15 | a draw from `[0, n)` |
| Random.Generator.UniformInt | src/algorithms/prim.cpp:15 | a draw from `[lo, hi]` |
| Random.Generator.Shuffle | src/algorithms/kruskal.cpp:14 | a permutation of the list |
| RectangularMaze.VertexIndexInverse | src/mazetypes/rectangularmaze.cpp:8-10 | the index of a cell names the cell back |
| RectangularMaze.VertexIndexOnto | src/mazetypes/rectangularmaze.cpp:8-10 | every index in range names a cell |
| RectangularMaze.VertexIndexInjective | src/mazetypes/rectangularmaze.cpp:8-10 | different cells have different indices |
| RectangularMaze.LowerUpperFacts | src/mazetypes/rectangularmaze.cpp:16-21 | `2w` outside walls and no internal entries |
| RectangularMaze.SidesFacts | src/mazetypes/rectangularmaze.cpp:24-31 | `2(h - 1)` outside walls: the left one is missing on the entry row and the right one on the exit row |
| RectangularMaze.HorizontalFacts | src/mazetypes/rectangularmaze.cpp:34-41 | the walls between columns: two internal entries per wall, no outside wall |
| RectangularMaze.VerticalFacts | src/mazetypes/rectangularmaze.cpp:44-51 | the walls between rows: two internal entries per wall, no outside wall |
| RectangularMaze.PushesFacts | src/mazetypes/rectangularmaze.cpp:12-52 | the pushes are mirrored, in range, and add up to the totals below |
| RectangularMaze.Layout | src/mazetypes/rectangularmaze.cpp:12-52 | valid symmetric lists with `2w + 2(h - 1)` outside walls and `2(w - 1)h + 2w(h - 1)` internal entries |
| RectangularMaze.SideWallsInFirstColumn | src/mazetypes/rectangularmaze.cpp:25-30 | both side walls of each row go to the list of the row's first cell |
| RectangularMaze.LayoutAdjacent | src/mazetypes/rectangularmaze.cpp:33-51 | two cells are adjacent exactly when they share a side of the grid |
| RectangularMaze.LayoutConnected | src/mazetypes/rectangularmaze.cpp:12-52 | the grid is connected |
| RectangularMaze.RectangularMaze.constructor | src/mazetypes/rectangularmaze.cpp:3-6 | `w*h` cells, start 0, end `w*h - 1` |
| RectangularMaze.RectangularMaze.InitialiseGraph | src/mazetypes/rectangularmaze.cpp:12-52 | the lists become `Layout(w, h)` |
| RectangularMaze.RectangularMaze.PushLowerUpper | src/mazetypes/rectangularmaze.cpp:16-21 | appends the top and bottom pushes |
| RectangularMaze.RectangularMaze.PushSides | src/mazetypes/rectangularmaze.cpp:24-31 | appends the side pushes, row by row |
| RectangularMaze.RectangularMaze.PushSideWalls | src/mazetypes/rectangularmaze.cpp:25-30 | one pass of the side loop |
| RectangularMaze.RectangularMaze.PushRightWall | src/mazetypes/rectangularmaze.cpp:28-30 | the right wall, skipped on the exit row, pushed onto column 0 |
| RectangularMaze.RectangularMaze.PushHorizontal | src/mazetypes/rectangularmaze.cpp:34-41 | appends the walls between columns, row by row |
| RectangularMaze.RectangularMaze.PushHorizontalRow | src/mazetypes/rectangularmaze.cpp:35-40 | the walls between columns of one row |
| RectangularMaze.RectangularMaze.PushVertical | src/mazetypes/rectangularmaze.cpp:44-51 | appends the walls between rows, row by row |
| RectangularMaze.RectangularMaze.PushVerticalRow | src/mazetypes/rectangularmaze.cpp:45-50 | the walls between one row and the next |
| TriangularMaze.CellsBeforeClosed | src/mazetypes/triangularmaze.cpp:18-25 | twice the cells before row `r` is `r(2 rows - r + 1)` |
| TriangularMaze.VertexCount | src/mazetypes/triangularmaze.cpp:3-6 | the vertex count is the cells of all rows, at least `rows` |
| TriangularMaze.IndexRange | src/mazetypes/triangularmaze.cpp:27-29 | a cell's index lies between the cells before its row and the cells before the next row |
| TriangularMaze.IndexInjective | src/mazetypes/triangularmaze.cpp:27-29 | different cells have different indices |
| TriangularMaze.IndexOnto | src/mazetypes/triangularmaze.cpp:27-29 | every index names a cell |
| TriangularMaze.TopFacts | src/mazetypes/triangularmaze.cpp:37-40 | `rows` outside walls and no internal entries |
| TriangularMaze.BottomFacts | src/mazetypes/triangularmaze.cpp:43-44 | one outside wall and no internal entries |
| TriangularMaze.SidesCount | src/mazetypes/triangularmaze.cpp:47-61 | a left wall on every row but the entry row and a right wall on every row but the exit row |
| TriangularMaze.DiagonalCount | src/mazetypes/triangularmaze.cpp:64-73 | outside walls on the right edge, one per row but the one next to the exit; no internal entries |
| TriangularMaze.HorizontalCount | src/mazetypes/triangularmaze.cpp:76-84 | no outside walls; `2(CellsBefore(k) - k)` internal entries for the first `k` rows |
| TriangularMaze.VerticalCount | src/mazetypes/triangularmaze.cpp:87-96 | no outside walls; `2(CellsBefore(k) - k)` internal entries for the first `k` rows |
| TriangularMaze.PushesFacts | src/mazetypes/triangularmaze.cpp:31-97 | mirrored, in-range pushes: `4 rows - 3` outside (2 for one row), `4(V - rows)` internal |
| TriangularMaze.InternalWallCount | src/mazetypes/triangularmaze.cpp:64-96 | `4(V - rows) == 2 rows (rows - 1)` |
| TriangularMaze.Layout | src/mazetypes/triangularmaze.cpp:31-97 | valid symmetric lists with `4 rows - 3` outside walls (2 when there is one row) and `2 rows (rows - 1)` internal entries |
| TriangularMaze.LayoutAdjacent | src/mazetypes/triangularmaze.cpp:75-96 | two cells are adjacent exactly when they are neighbours in a row or across rows |
| TriangularMaze.LayoutConnected | src/mazetypes/triangularmaze.cpp:31-97 | the triangle is connected |
| TriangularMaze.TriangularMaze.constructor | src/mazetypes/triangularmaze.cpp:3-12 | `rows(rows + 1)/2` cells, start 0, end the last cell, empty lists |
| TriangularMaze.TriangularMaze.CellsBeforeRow | src/mazetypes/triangularmaze.cpp:18-25 | the number of cells before a row |
| TriangularMaze.TriangularMaze.VertexIndex | src/mazetypes/triangularmaze.cpp:27-29 | the index of a cell |
| TriangularMaze.TriangularMaze.InitialiseGraph | src/mazetypes/triangularmaze.cpp:31-97 | the lists become `Layout(rows)` |
| TriangularMaze.TriangularMaze.PushTop | src/mazetypes/triangularmaze.cpp:37-40 | appends the top walls |
| TriangularMaze.TriangularMaze.PushSides | src/mazetypes/triangularmaze.cpp:47-61 | appends the side pushes, row by row |
| TriangularMaze.TriangularMaze.PushSideWalls | src/mazetypes/triangularmaze.cpp:47-61 | one pass of the side loop |
| TriangularMaze.TriangularMaze.PushRightWall | src/mazetypes/triangularmaze.cpp:56-60 | the right wall of one row, skipped at the exit |
| TriangularMaze.TriangularMaze.PushDiagonals | src/mazetypes/triangularmaze.cpp:64-73 | appends the diagonal walls |
| TriangularMaze.TriangularMaze.PushDiagonal | src/mazetypes/triangularmaze.cpp:65-72 | the diagonal walls of one row |
| TriangularMaze.TriangularMaze.PushHorizontal | src/mazetypes/triangularmaze.cpp:76-84 | appends the walls within rows |
| TriangularMaze.TriangularMaze.PushHorizontalRow | src/mazetypes/triangularmaze.cpp:77-83 | the walls within one row |
| TriangularMaze.TriangularMaze.PushVertical | src/mazetypes/triangularmaze.cpp:87-96 | appends the walls between rows |
| TriangularMaze.TriangularMaze.PushVerticalRow | src/mazetypes/triangularmaze.cpp:88-95 | the walls between one row and the next |
| TriangularMaze.TriangularMaze.PushBelow | src/mazetypes/triangularmaze.cpp:91-94 | one wall between a cell and the cell below it, pushed from both cells, as iteration `col` of the vertical loop |
| HoneycombMaze.NeighOpposite | src/mazetypes/honeycombmaze.cpp:4-5 | the six directions come in opposite pairs, three apart |
| HoneycombMaze.VExtent | src/mazetypes/honeycombmaze.cpp:62-67 | the extent of a row lies on the board and is maximal |
| HoneycombMaze.IsValidNode | src/mazetypes/honeycombmaze.cpp:69-73 | a node is valid exactly when it lies within the row extents |
| HoneycombMaze.VertexCount | src/mazetypes/honeycombmaze.cpp:8 | there is always at least one vertex |
| HoneycombMaze.CellCount | src/mazetypes/honeycombmaze.cpp:8 | the cells counted by rows add up to the vertex count |
| HoneycombMaze.IndexClosed | src/mazetypes/honeycombmaze.cpp:39-44 | the cells before a row, in closed form |
| HoneycombMaze.IndexRange | src/mazetypes/honeycombmaze.cpp:39-44 | every valid node's index is in range |
| HoneycombMaze.IndexInjective | src/mazetypes/honeycombmaze.cpp:39-44 | different nodes have different indices |
| HoneycombMaze.IndexOnto | src/mazetypes/honeycombmaze.cpp:39-44 | every index names a valid node |
| HoneycombMaze.Corners | src/mazetypes/honeycombmaze.cpp:8 | the end is `3 s (s - 1)`, the cell at node `(s - 1, 0)` |
| HoneycombMaze.Layout | src/mazetypes/honeycombmaze.cpp:10-36 | valid symmetric lists over the valid nodes |
| HoneycombMaze.LayoutAdjacent | src/mazetypes/honeycombmaze.cpp:17-25 | two cells are adjacent exactly when one is a step in one of the six directions from the other |
| HoneycombMaze.LayoutOutside | src/mazetypes/honeycombmaze.cpp:26-31 | a cell has an outside wall exactly when a step leaves the valid nodes |
| HoneycombMaze.LayoutConnected | src/mazetypes/honeycombmaze.cpp:10-36 | the honeycomb is connected |
| HoneycombMaze.HoneyCombMaze.constructor | src/mazetypes/honeycombmaze.cpp:7-8 | `3 s (s - 1) + 1` cells, start 0, end `3 s (s - 1)`, no lists yet |
| HoneycombMaze.HoneyCombMaze.InitialiseGraph | src/mazetypes/honeycombmaze.cpp:10-36 | the lists become `Layout(size)` |
| HoneycombMaze.HoneyCombMaze.PushRow | src/mazetypes/honeycombmaze.cpp:13-35 | appends the pushes of one row |
| HoneycombMaze.HoneyCombMaze.PushCell | src/mazetypes/honeycombmaze.cpp:15-34 | appends the pushes of one cell |
| HoneycombMaze.HoneyCombMaze.PushSide | src/mazetypes/honeycombmaze.cpp:17-33 | one of the six sides of a cell |
| HoneycombMaze.HoneyCombMaze.PushInnerSide | src/mazetypes/honeycombmaze.cpp:19-25 | an internal wall, pushed from the cell with the larger index |
| HoneycombMaze.HoneyCombMaze.PushOuterSide | src/mazetypes/honeycombmaze.cpp:26-31 | an outside wall |
| HexagonalMaze.IndexIn | src/hexagonalmaze.cpp:112-119 | every cell's index is in range |
| HexagonalMaze.IndexInjective | src/hexagonalmaze.cpp:112-119 | different cells have different indices |
| HexagonalMaze.IndexOnto | src/hexagonalmaze.cpp:112-119 | every index names a cell |
| HexagonalMaze.IndexSplit | src/hexagonalmaze.cpp:112-119 | an index splits into a sector and a cell within the sector |
| HexagonalMaze.VertexCount | src/hexagonalmaze.cpp:5 | the vertex count `6 s²` is never negative |
| HexagonalMaze.StartEnd | src/hexagonalmaze.cpp:6-7 | the source's `VertexIndex(0, 1, s - 1, 0)` and `VertexIndex(3, 1, s - 1, 0)` name no cell of sectors 0 and 3; their indices `s²` and `4 s²` are the up cells (0, 0) of sectors 1 and 4 |
| HexagonalMaze.Layout | src/hexagonalmaze.cpp:10-72 | valid symmetric lists over `6s²` cells |
| HexagonalMaze.OuterCount | src/hexagonalmaze.cpp:18-25 | `k` outside walls for the first `k` cells (`k - 1` in sectors 0 and 3) |
| HexagonalMaze.SectorOutside | src/hexagonalmaze.cpp:16-25 | a sector has `s` outside walls, one fewer in the two sectors with an opening |
| HexagonalMaze.SectorsOutside | src/hexagonalmaze.cpp:16-25 | the sectors add up to `6s - 2` outside walls |
| HexagonalMaze.LayoutOutsideCount | src/hexagonalmaze.cpp:16-25 | the layout has `6s - 2` outside walls |
| HexagonalMaze.LayoutAdjacent | src/hexagonalmaze.cpp:27-70 | two cells are adjacent exactly when the geometric relation joins them |
| HexagonalMaze.LayoutOutside | src/hexagonalmaze.cpp:17-25 | a cell has an outside wall exactly when it lies on the outer row and is not an opening |
| HexagonalMaze.LayoutConnected | src/hexagonalmaze.cpp:10-72 | the hexagon is connected |
| HexagonalMaze.HexagonalMaze.constructor | src/hexagonalmaze.cpp:5-8 | `6 s²` cells, start and end at the source's `VertexIndex(0, 1, s - 1, 0)` and `VertexIndex(3, 1, s - 1, 0)`, no lists yet |
| HexagonalMaze.HexagonalMaze.InitialiseGraph | src/hexagonalmaze.cpp:10-72 | the lists become `Layout(size)` |
| HexagonalMaze.HexagonalMaze.PushSector | src/hexagonalmaze.cpp:16-71 | appends the pushes of one sector |
| HexagonalMaze.HexagonalMaze.PushOuter | src/hexagonalmaze.cpp:18-25 | the outer walls of a sector |
| HexagonalMaze.HexagonalMaze.PushOuterWall | src/hexagonalmaze.cpp:19-24 | one outer wall, skipped at an opening |
| HexagonalMaze.HexagonalMaze.PushCells | src/hexagonalmaze.cpp:41-44 | one internal wall between two cells, pushed from both of them, as every loop of the sector does |
| HexagonalMaze.HexagonalMaze.PushSpokes | src/hexagonalmaze.cpp:28-34 | the walls to the next sector |
| HexagonalMaze.HexagonalMaze.PushType0 | src/hexagonalmaze.cpp:36-46 | the first kind of cell walls, row by row |
| HexagonalMaze.HexagonalMaze.PushType0Row | src/hexagonalmaze.cpp:37-45 | those walls in one row |
| HexagonalMaze.HexagonalMaze.PushType1 | src/hexagonalmaze.cpp:48-58 | the second kind of cell walls, row by row |
| HexagonalMaze.HexagonalMaze.PushType1Row | src/hexagonalmaze.cpp:49-57 | those walls in one row |
| HexagonalMaze.HexagonalMaze.PushType2 | src/hexagonalmaze.cpp:60-70 | the third kind of cell walls, row by row |
| HexagonalMaze.HexagonalMaze.PushType2Row | src/hexagonalmaze.cpp:61-69 | those walls in one row |
| CircularMaze.Count | src/circularmaze.cpp:8-13 | every ring has at least one cell |
| CircularMaze.CountsDoubling | src/circularmaze.cpp:8-13 | every ring has as many cells as the one inside it, or twice as many |
| CircularMaze.DoublingPositive | src/circularmaze.cpp:8-13 | every ring has at least one cell and no fewer than any ring inside it |
| CircularMaze.IndexRange | src/circularmaze.cpp:14 | every cell's index is in range |
| CircularMaze.IndexInjective | src/circularmaze.cpp:14 | different cells have different indices |
| CircularMaze.IndexOnto | src/circularmaze.cpp:26 | every index names a cell |
| CircularMaze.StartEnd | src/circularmaze.cpp:16-18 | the start and the end differ exactly when the last ring has two or more cells |
| CircularMaze.InwardOnRing | src/circularmaze.cpp:29-30 | the inward neighbour of a cell lies on the inner ring |
| CircularMaze.Layout | src/circularmaze.cpp:21-53 | valid symmetric lists over all cells |
| CircularMaze.LayoutAdjacent | src/circularmaze.cpp:29-43 | two cells are adjacent exactly when they are neighbours on a ring or across rings |
| CircularMaze.LayoutOutside | src/circularmaze.cpp:45-50 | a cell has an outside wall exactly when it lies on the outer ring and is neither the start nor the end |
| CircularMaze.LayoutConnected | src/circularmaze.cpp:21-53 | the disc is connected |
| CircularMaze.CircularMaze.constructor | src/circularmaze.cpp:5-19 | the ring tables, vertex count, start and end of the source |
| CircularMaze.CircularMaze.Tables | src/circularmaze.cpp:11-15 | the tables of ring sizes and first indices |
| CircularMaze.CircularMaze.InitialiseGraph | src/circularmaze.cpp:21-53 | the lists become `Layout` |
| CircularMaze.CircularMaze.PushRing | src/circularmaze.cpp:25-51 | appends the pushes of one ring |
| CircularMaze.CircularMaze.PushNode | src/circularmaze.cpp:26-50 | appends the pushes of one cell |
| CircularMaze.CircularMaze.PushOuterWall | src/circularmaze.cpp:45-50 | the outside wall of an outer-ring cell |
| Extraction.ReadInt | src/mazetypes/usermaze.cpp:20 | `in >> i` into an `int`: a read that succeeds moves the stream forward |
| Extraction.ReadIntReads | src/mazetypes/usermaze.cpp:20 | the read fails exactly when no digit follows the white space and sign; otherwise it skips only white space, takes only sign and digits, and stops before a non-digit |
| Extraction.ReadIntShow | src/mazetypes/usermaze.cpp:20 | an integer written after white space and followed by a non-digit reads back as itself, ending after its last digit |
| Extraction.ReadDigit | src/mazetypes/usermaze.cpp:10 | a lone digit reads as its value, also when a `.` follows it, as in `3.5` |
| Extraction.DecimalShown | src/mazetypes/usermaze.cpp:10 | the value of the decimal digits of `n` is `n` |
| Extraction.ReadWord | src/mazetypes/usermaze.cpp:22 | `in >> bordertype`: a read that succeeds moves the stream forward |
| Extraction.ReadWordReads | src/mazetypes/usermaze.cpp:22 | the read fails exactly when only white space is left; otherwise it gives the non-empty run of non-space characters after the white space |
| Extraction.ReadWordAt | src/mazetypes/usermaze.cpp:22 | a word after white space and before white space or the end reads back as itself |
| Extraction.ReadDouble | src/mazetypes/usermaze.cpp:25 | `in >> x1` into a `double`: a read that succeeds moves the stream forward |
| Extraction.ReadDoubleReads | src/mazetypes/usermaze.cpp:25 | a read that succeeds gives the text after the white space, which holds a digit, and stops before a non-digit |
| Extraction.ReadDoubleShown | src/mazetypes/usermaze.cpp:25 | the digits of a natural number after white space, followed by no digit, point or exponent, read back as that text |
| Extraction.ReadDoubleDigit | src/mazetypes/usermaze.cpp:34 | a lone digit so followed reads as its one-character text |
| UserMaze.Coordinates | src/mazetypes/usermaze.cpp:25 | `count` doubles in a row: when all are read, where the stream then stands, never before where it started and past it when at least one was read |
| UserMaze.CoordinatesFailed | src/mazetypes/usermaze.cpp:25 | once one of the doubles cannot be read, reading more of them fails too |
| UserMaze.ReadHead | src/mazetypes/usermaze.cpp:20-23 | the pair and the border kind: none, a word to skip, or a wall of kind 0 (`Line`) or 1 (`Arc`), past the point where it started |
| UserMaze.HeadReads | src/mazetypes/usermaze.cpp:20-32 | the head is a wall of a kind exactly when two integers and the kind's name are read, and its cells are those integers |
| UserMaze.Iteration | src/mazetypes/usermaze.cpp:20-45 | one pass adds at most one wall, which fits the lists and was read at the pass's position; a pass that goes on moves forward |
| UserMaze.Records | src/mazetypes/usermaze.cpp:20-45 | every record fits, lies after the start position, and they come in file order |
| UserMaze.RecordsPass | src/mazetypes/usermaze.cpp:20-45 | each record extends the pushes |
| UserMaze.RecordFacts | src/mazetypes/usermaze.cpp:30-44 | a record pushes an internal wall in both directions, or an outside wall |
| UserMaze.Layout | src/mazetypes/usermaze.cpp:6-46 | the lists built from the records |
| UserMaze.LayoutLists | src/mazetypes/usermaze.cpp:23-44 | the list of `u` holds `v` exactly when some record names the pair |
| UserMaze.PushedNamed | src/mazetypes/usermaze.cpp:30-44 | a push naming `v` from `u` comes from a record that names the pair |
| UserMaze.NamedPushed | src/mazetypes/usermaze.cpp:30-44 | a record naming the pair pushes `v` onto the list of `u` |
| UserMaze.LayoutCounts | src/mazetypes/usermaze.cpp:30-44 | the outside walls and internal entries counted from the records |
| UserMaze.PartialWords | src/mazetypes/usermaze.cpp:10-42 | `3.5` holds 3 vertices and no wall; `2 0 1.5 0 1 Arc` holds the one wall `0 1 Arc`, after `.5` is skipped as a kind |
| UserMaze.SkippedKind | src/mazetypes/usermaze.cpp:20-42 | in that file the count is 2 and the first pass skips `.5` |
| UserMaze.PairBeforePoint | src/mazetypes/usermaze.cpp:20 | `0 1.5` reads as the pair 0, 1 and leaves `.5` |
| UserMaze.ArcWithoutCoordinates | src/mazetypes/usermaze.cpp:32-44 | the second pass reads the wall `0 1 Arc`, fails on its coordinates, and still pushes it |
| UserMaze.UserMaze.constructor | src/mazetypes/usermaze.cpp:4 | the file's name, with no lists yet |
| UserMaze.UserMaze.InitialiseGraph | src/mazetypes/usermaze.cpp:6-46 | the vertex count is the integer read at the head of the file, 0 when none can be; the end vertex is one less; `defined` reports whether reading stayed defined; for a count of at least 0 the lists are `Layout` |
| UserMaze.UserMaze.ReadWalls | src/mazetypes/usermaze.cpp:20-45 | runs the loop from the given position until its test fails: the lists are those of all the walls `Records` reads |
| UserMaze.UserMaze.ReadRecord | src/mazetypes/usermaze.cpp:21-44 | one pass: the outcome `Iteration` gives, and the pushes of the wall it adds |
| UserMaze.UserMaze.ReadNext | src/mazetypes/usermaze.cpp:21-44 | one pass of the reading loop: the records kept so far grow by the pass's record, and together with the records of the rest of the file they make up all of the file's records |
| UserMaze.UserMaze.ReadNumbers | src/mazetypes/usermaze.cpp:25 | reads the coordinates one `double` at a time: succeeds exactly when `Coordinates` does, and stands where it ends |
| UserMaze.UserMaze.ReadCoordinate | src/mazetypes/usermaze.cpp:25 | one more `double` after the first `m`: the read of `m + 1` succeeds, ending where this one ends, or fails |
| UserMaze.UserMaze.PushRecord | src/mazetypes/usermaze.cpp:30-44 | pushes one record |
| MazeBase.InitialOpen | mazebase.cpp:20-54 | on the drawn part of the initial board, the passable positions are exactly the cells, the entry and the exit |
| MazeBase.InitialTerminated | mazebase.cpp:25 | every row ends with the string terminator |
| MazeBase.WallBetween | mazebase.cpp:31-49 | between two cells that share a side lies a wall, `'\|'` beside and `'-'` above or below |
| MazeBase.BetweenInjective | mazebase.cpp:61 | different pairs of neighbouring cells have different walls |
| MazeBase.GridPairAdjacent | kruskal.cpp:49-56 | two cells of the board share a side exactly when they are adjacent in the rectangular layout |
| MazeBase.CarvedWall | mazebase.cpp:61 | after carving, the wall between two neighbours is open exactly when the list holds their pair, in either direction |
| MazeBase.CarvedOpen | mazebase.cpp:61 | after carving, the passable positions are the cells, the gates and the walls opened |
| MazeBase.DrawBoard | mazebase.cpp:20-54 | a fresh board showing no wall knocked down |
| MazeBase.InitMaze | mazebase.cpp:9-57 | code 1 exactly when a size is outside `[1, 1000]`, with the board as it was; otherwise code 0 and a fresh initial board |
| MazeBase.RemoveEdge | mazebase.cpp:59-62 | a space between the two cells and nowhere else; the board then shows one more wall carved |
| MazeBase.StepNeighbours | mazebase.h:11 | the four steps reach exactly the cells that share a side |
| LegacyKruskal.DisjointSetInitParent | kruskal.cpp:11-16 | the first `N` vertices become their own parents; the rest are unchanged |
| LegacyKruskal.DisjointSetGetRoot | kruskal.cpp:19-28 | returns the representative and points `u` straight at it; groups unchanged |
| LegacyKruskal.DisjointSetCheckSameComponent | kruskal.cpp:31-33 | true exactly when the two vertices share a group; groups unchanged |
| LegacyKruskal.DisjointSetMerge | kruskal.cpp:36-40 | two different groups merge and the number of roots drops by one; otherwise nothing changes |
| LegacyKruskal.GridPairsCount | kruskal.cpp:48-56 | there are `H(W - 1)` horizontal and `(H - 1)W` vertical pairs |
| LegacyKruskal.GridPairsGrid | kruskal.cpp:48-56 | every pair joins two neighbouring cells |
| LegacyKruskal.GridPairsComplete | kruskal.cpp:48-56 | every wall between neighbouring cells is named |
| LegacyKruskal.KruskalInitialize | kruskal.cpp:42-59 | every vertex its own parent, and all grid pairs appended |
| LegacyKruskal.PushHorizontal | kruskal.cpp:49-51 | appends each cell and its right neighbour, row by row |
| LegacyKruskal.PushVertical | kruskal.cpp:54-56 | appends each cell and the one below, row by row |
| LegacyKruskal.KruskalStep | kruskal.cpp:75-87 | a pair is kept exactly when its cells are in different groups; then its wall comes down and the groups merge |
| LegacyKruskal.ShuffledPairs | kruskal.cpp:70 | the shuffle holds the same pairs |
| LegacyKruskal.KruskalPasses | kruskal.cpp:74-88 | after the loop every pair lies inside a group |
| LegacyKruskal.KruskalOutcome | kruskal.cpp:62-91 | a complete list gives a spanning tree of the grid |
| LegacyKruskal.KruskalAlgorithm | kruskal.cpp:62-91 | the board shows an acyclic tree of listed grid pairs, a spanning tree when the list is complete |
| LegacyKruskal.KruskalCreateMaze | kruskal.cpp:93-111 | code 1 exactly for a size out of range; otherwise a fresh board showing a spanning tree of the grid |
| LegacyPrim.PrimPushNeighbours | prim.cpp:12-28 | the list gains exactly the pairs to the unseen neighbours of the cell, at most four |
| LegacyPrim.PushedFrontier | prim.cpp:12-28 | the pushed pairs keep the frontier invariant |
| LegacyPrim.PrimDraw | prim.cpp:45-49 | removes one random pair from the list |
| LegacyPrim.TreeGrows | prim.cpp:56-61 | attaching an unvisited cell keeps a tree of the visited cells |
| LegacyPrim.PrimAccept | prim.cpp:56-61 | the far cell is marked, its wall comes down, its neighbours are pushed |
| LegacyPrim.PrimStep | prim.cpp:44-61 | either the list shrinks or one more cell is attached |
| LegacyPrim.PrimOutcome | prim.cpp:30-63 | an empty frontier leaves a spanning tree |
| LegacyPrim.SeedCell | prim.cpp:32-39 | a fresh H x W grid of flags with exactly one cell set, inside the grid, mirroring the vertex set that holds only that cell |
| LegacyPrim.PrimStart | prim.cpp:32-40 | after the first cell's neighbours are pushed, the loop invariant holds with an empty tree: every listed pair leaves the seen set along a grid edge, and every grid edge leaving it is listed |
| LegacyPrim.PrimAlgorithm | prim.cpp:30-63 | the board shows a spanning tree of the grid |
| LegacyPrim.PrimCreateMaze | prim.cpp:66-81 | code 1 exactly for a size out of range; otherwise a fresh board showing a spanning tree |
| LegacyDFS.DirectionsRange | dfs.cpp:17-18 | the shuffle of the four directions holds each of them |
| LegacyDFS.CoveredStep | dfs.cpp:20-33 | each direction handled covers its cell |
| LegacyDFS.AllCovered | dfs.cpp:20-33 | after the four directions every neighbour is visited |
| LegacyDFS.DFSAlgorithm | dfs.cpp:11-34 | the cell is visited and every cell newly visited is finished |
| LegacyDFS.DFSNeighbours | dfs.cpp:20-33 | the loop over the shuffled directions covers every one |
| LegacyDFS.DFSExplore | dfs.cpp:22-26 | a direction inside the board leaves its cell visited |
| LegacyDFS.DFSDescend | dfs.cpp:29-32 | the wall comes down and the search recurses into the new cell |
| LegacyDFS.Descend | dfs.cpp:29-32 | from a visited cell, the wall to an unvisited neighbouring cell extends the tree so that the search may enter that cell |
| LegacyDFS.DescendEdge | dfs.cpp:29-32 | a grid wall from a visited vertex to an unvisited one extends the tree, which still reaches only vertices reachable from the start, by that vertex |
| LegacyDFS.DFSSearch | dfs.cpp:49-56 | from a board with every wall up, the search from a random cell leaves the board showing a spanning tree of the grid |
| LegacyDFS.SearchStart | dfs.cpp:49-56 | with nothing visited and an empty tree, the search may enter its start cell |
| LegacyDFS.SearchDone | dfs.cpp:55-56 | once the search from the start has finished every cell it visited, its tree spans the grid |
| LegacyDFS.DFSCreateMaze | dfs.cpp:37-58 | code 1 exactly for a size out of range; otherwise a fresh board showing a spanning tree |
| LegacySubdivide.CentreHalf | subdivide.cpp:30-33 | the cuts drawn from the centre half lie strictly inside a span of at least two |
| LegacySubdivide.QuadrantAreas | subdivide.cpp:36-39 | the area of a region is the sum of its quadrants' |
| LegacySubdivide.ColumnCut | subdivide.cpp:45-49 | a wall across the column cut joins quadrants 0 and 1 above the row cut, 2 and 3 below |
| LegacySubdivide.RowCut | subdivide.cpp:51-55 | a wall across the row cut joins quadrants 0 and 2 left of the column cut, 1 and 3 right |
| LegacySubdivide.CycleMinusOne | subdivide.cpp:58 | whichever of the four walls is set aside, the other three join the quadrants without a cycle |
| LegacySubdivide.SubdivideRow | subdivide.cpp:16-20 | a one-row region: all its inner walls come down, `Area - 1` of them, joining it |
| LegacySubdivide.OpenRight | subdivide.cpp:17-19 | one pass of the row loop knocks down the wall right of cell `(h1, i)`: the board shows one more pair, that wall, and the row up to column `i + 1` is subdivided |
| LegacySubdivide.SubdivideColumn | subdivide.cpp:21-25 | a one-column region: likewise |
| LegacySubdivide.OpenBelow | subdivide.cpp:22-24 | one pass of the column loop knocks down the wall below cell `(i, w1)`: the board shows one more pair, that wall, and the column down to row `i + 1` is subdivided |
| LegacySubdivide.CandidateWalls | subdivide.cpp:42-55 | four walls across the cut lines, one for each pair of touching quadrants |
| LegacySubdivide.DrawCandidates | subdivide.cpp:41-57 | four candidate walls, one across each pair of touching quadrants, with a random one swapped to the back so that the first three link all four quadrants |
| LegacySubdivide.ConnectStep | subdivide.cpp:60-64 | opening candidate `i` keeps the tree acyclic and inside the region and merges the classes of the two quadrants it links |
| LegacySubdivide.ConnectQuadrants | subdivide.cpp:58-65 | three walls come down, keeping the tree acyclic and joining the region |
| LegacySubdivide.SubdivideQuadrants | subdivide.cpp:36-39 | each quadrant is subdivided and becomes one component |
| LegacySubdivide.SubdivisionAlgorithm | subdivide.cpp:13-66 | the region's cells are joined by `Area - 1` new walls inside it, without a cycle |
| LegacySubdivide.SpanningOutcome | subdivide.cpp:69-85 | grid walls joining the whole board, `H W - 1` of them, are a spanning tree |
| LegacySubdivide.SubdivisionCreateMaze | subdivide.cpp:69-85 | code 1 exactly for a size out of range; otherwise a fresh board showing a spanning tree |
| LegacyMain.VertexRange | maze.cpp:16-19 | every cell has a number in range that names it back |
| LegacyMain.DecodeEncode | maze.cpp:67-77 | decoding the code of a pair gives the pair back |
| LegacyMain.EncodeInjective | maze.cpp:67-77 | two pairs have the same code exactly when they are equal |
| LegacyMain.CodeOf | maze.cpp:67-71 | `u H W + v` is the code of the pair |
| LegacyMain.PushCodes | maze.cpp:65-71 | the codes of all grid pairs, horizontal ones first |
| LegacyMain.PushRow | maze.cpp:66-67 | the codes of one row's horizontal pairs |
| LegacyMain.PushColumn | maze.cpp:70-71 | the codes of one row's vertical pairs |
| LegacyMain.CodesGrid | maze.cpp:65-71 | `H(W - 1) + (H - 1)W` codes, each decoding to neighbouring cells |
| LegacyMain.ShuffledCodes | maze.cpp:73 | the shuffled codes decode to the same grid pairs |
| LegacyMain.GetParent | maze.cpp:22-25 | returns the representative and points `u` at it; groups unchanged |
| LegacyMain.Union | maze.cpp:82 | the two groups merge and the number of roots drops by one |
| LegacyMain.Pass | maze.cpp:76-82 | a pair is kept exactly when its cells are in different groups; then its wall comes down |
| LegacyMain.DrawLegacyBoard | maze.cpp:51-58 | a fresh board showing no wall knocked down |
| LegacyMain.NewParents | maze.cpp:60-63 | every vertex its own parent |
| LegacyMain.Passes | maze.cpp:75-83 | after the loop every decoded pair lies inside a group |
| LegacyMain.Generate | maze.cpp:29-84 | the board shows a spanning tree of the grid, with `H W - 1` walls knocked down |
| Validators.Look | tests/test_maze.cpp:107-113 | the marked set gains exactly the neighbours of the vertex, and the queue gains the new ones |
| Validators.Explore | tests/test_maze.cpp:96-114 | the marked set is exactly what the start reaches |
| Validators.IsConnectedGraph | tests/test_maze.cpp:95-116 | true exactly when the start reaches every vertex; on a symmetric graph, exactly when it is connected |
| Validators.TreeAdjacency | tests/test_maze.cpp:67-72 | builds the lists of the tree's pairs in both directions |
| Validators.TreeReach | tests/test_maze.cpp:66-92 | the tree lists reach everything from the start exactly when the pairs join one component |
| Validators.IsConnectedTree | tests/test_maze.cpp:66-92 | true exactly when the pairs join every vertex to the start |
| Validators.SpanningTreeConnected | tests/test_maze.cpp:66-92 | every spanning tree of the model passes this check |
| Validators.IsSpanningTreeCheck | tests/test_maze.cpp:120-137 | true exactly when the lists name `V - 1` distinct walls |
| Validators.PairWallsCount | tests/test_maze.cpp:120-137 | an acyclic list names as many walls as it has pairs |
| Validators.SpanningTreeWalls | tests/test_maze.cpp:120-137 | every spanning tree of the model passes this check |
| Validators.CountBoundaryWalls | tests/test_maze.cpp:141-154 | the number of entries naming the outside |
| Validators.BoundaryCounts | tests/test_maze.cpp:183-232 | a 5 x 5 rectangle has 18 boundary walls and a 5-row triangle 17 |

## Left out

- Rendering is not modelled. This covers `PrintMazeGnuplot`, `PrintMazeSVG`,
  `GetCoordinateBounds`, the border classes and their print strings, and the
  gnuplot and raw output of the older programs. Borders are ids, because
  drawing is floating-point geometry and file output.
- `src/circularhexagonmaze.cpp`, `src/main.cpp` (command-line handling and
  style) and `Solve` are not part of this model. `Solve` is declared but has
  no definition.
- `src/depthfirstsearch.cpp` in the older source tree holds the same search as
  `src/algorithms/depthfirstsearch.cpp`. The one model, DepthFirstSearch.DepthFirstSearch.SpanningTree, covers both.
- Randomness is a stream of draws that are only known to lie in range. The
  distribution of the mazes is not modelled.
- The ring-doubling test of the circular maze uses floating point. It is a
  parameter: a table of which rings double.
- File input in `usermaze.cpp` is the file's characters. They are read as the
  GNU C++ library's `operator>>` reads them in the "C" locale (`Extraction`).
  A file that cannot be opened reads like an empty one. The coordinates are
  kept as their text: their values and the minimum and maximum the source
  tracks serve only rendering. Undefined behaviour on a malformed file is
  reported by a `defined` flag.
- Extraction.ReadInt: reads the digits as an unbounded integer. For a value
  outside the 32-bit range the source's read fails instead.
- Extraction.ReadDouble: keeps the text, so a number too large for a `double`,
  whose read fails in the source, is accepted.
- LoopErasedRandomWalk.LoopErasedRandomWalk.SpanningTree: each walk has a step
  budget. The source loops until the walk meets the tree, which can run
  forever in principle. The model promises a spanning tree only when every
  walk finishes within the budget. It reports failure only once the whole
  budget is spent, and returns the fuel left. It also requires a connected graph: on a
  disconnected one the source's walk can never meet the tree.
- Maze.Maze.GenerateMaze: requires a connected graph when the algorithm is
  Prim's or the loop-erased random walk, as those two members do.
- Prim.Prim.SpanningTree: requires a connected graph. On a disconnected one
  the boundary empties before every cell is visited. The source then draws
  from an empty range and calls `back()` and `pop_back()` on an empty vector
  (`src/algorithms/prim.cpp`:26-30), which is undefined behaviour.
- DisjointSetForest.DisjointSetForest.SpanningTree: the three `assert`s become
  `Outcome` values instead of aborting the program.
- MazeBase.StepNeighbours: the older sources declare `neigh` without defining
  it. The model takes it to be the four unit steps in the order up, right,
  down, left.
- LegacyMain.CodeOf: `u H W + v` is computed in unbounded integers. The
  32-bit overflow for very large boards is not modelled.
- HoneycombMaze.Layout: per-cell degrees (three to six entries) are not
  stated.
- HexagonalMaze.Layout: the total number of internal entries is not stated.
  Adjacency is characterised instead.
- Test scaffolding in `tests/test_maze.cpp` is not modelled: the test runner
  and the construction of the mazes under test. Only the three validators and
  the boundary counts are.
