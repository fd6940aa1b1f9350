/**
 * The maze read from a file (src/mazetypes/usermaze.cpp). The file holds the
 * vertex count and then one record per wall: the two cells `i` and `j` (`j`
 * is -1 for an outside wall), the border kind `Line` or `Arc`, and its 4 or 5
 * coordinates. The file is its sequence of characters, read with the
 * stream reads of `Extraction`. Coordinates only shape the drawing, so a
 * border is named by its kind (0 a line, 1 an arc) and the position at which
 * its record starts.
 */
module UserMaze {
  import opened Graphs
  import opened Layouts
  import opened Extraction
  import Maze

  /** One wall read from the file: its cells, its border kind and the position of its record. */
  datatype Record = Record(i: int, j: int, kind: int, pos: int)

  /**
   * The walls read, and whether reading stayed defined: the source indexes
   * `adjacencylist_[i]` and `adjacencylist_[j]` unchecked, and a vertex count
   * below zero makes `resize` throw.
   */
  datatype Parsed = Parsed(records: seq<Record>, defined: bool)

  /** The word that names a border kind in the file. */
  function KindName(kind: int): string
  {
    if kind == 0 then "Line" else "Arc"
  }

  /** The coordinates of a border kind: x1 y1 x2 y2 for a line, cx cy r theta1 theta2 for an arc. */
  function Arity(kind: int): nat
  {
    if kind == 0 then 4 else 5
  }

  /**
   * `in >> x1 >> ...`: `count` doubles read from `pos` on, one after the
   * other. Their values only shape the drawing, so what is kept is where the
   * stream then stands; when one of them cannot be read the stream fails.
   */
  function Coordinates(s: seq<char>, pos: nat, count: nat): (r: Extracted<()>)
    requires pos <= |s|
    ensures r.Extracted? ==> pos <= r.next <= |s|
    ensures r.Extracted? && count > 0 ==> pos < r.next
    decreases count
  {
    if count == 0 then Extracted((), pos)
    else
      match Coordinates(s, pos, count - 1)
      case Failed => Failed
      case Extracted(_, p) =>
        match ReadDouble(s, p)
        case Failed => Failed
        case Extracted(_, q) => Extracted((), q)
  }

  /** Once a read has failed, reading more fails too. */
  lemma {:induction false} CoordinatesFailed(s: seq<char>, pos: nat, m: nat, count: nat)
    requires pos <= |s| && m <= count && Coordinates(s, pos, m).Failed?
    ensures Coordinates(s, pos, count).Failed?
    decreases count - m
  {
    if m < count {
      CoordinatesFailed(s, pos, m, count - 1);
    }
  }

  /** A wall whose list exists, and whose other side is the outside or a list that exists. */
  predicate Fits(n: int, r: Record)
  {
    0 <= r.i < n && -1 <= r.j < n
  }

  /** The border of a wall: its kind and where its record starts. */
  function Border(r: Record): BorderId
  {
    [r.kind, r.pos]
  }

  /** What `in >> i >> j` and `in >> bordertype` read at the head of a pass. */
  datatype Head = NoPair | Skip(next: nat) | Wall(i: int, j: int, kind: int, next: nat)

  /**
   * The head of a pass from `pos`: no pair when `i`, `j` or the border kind
   * cannot be read (an empty `bordertype` is no kind, and the loop test then
   * fails), a skip past a word that is neither `Line` nor `Arc`, or a wall of
   * the kind the word names. A head that is read moves the stream forward.
   */
  function ReadHead(s: seq<char>, pos: nat): (h: Head)
    requires pos <= |s|
    ensures h.Skip? || h.Wall? ==> pos < h.next <= |s|
    ensures h.Wall? ==> h.kind == 0 || h.kind == 1
  {
    match ReadInt(s, pos)
    case Failed => NoPair
    case Extracted(i, p1) =>
      match ReadInt(s, p1)
      case Failed => NoPair
      case Extracted(j, p2) =>
        match ReadWord(s, p2)
        case Failed => NoPair
        case Extracted(bordertype, p3) =>
          if bordertype == "Line" then Wall(i, j, 0, p3)
          else if bordertype == "Arc" then Wall(i, j, 1, p3)
          else Skip(p3)
  }

  /** The record `r` was read as `i j Line` or `i j Arc` from its position on. */
  predicate Located(s: seq<char>, r: Record)
  {
    0 <= r.pos <= |s| &&
    var h := ReadHead(s, r.pos);
    h.Wall? && h.i == r.i && h.j == r.j && h.kind == r.kind
  }

  /**
   * The head is a wall of a kind exactly when two integers and then the name
   * of that kind are read, and it ends where the name does.
   */
  lemma HeadReads(s: seq<char>, pos: nat, kind: int)
    requires pos <= |s| && (kind == 0 || kind == 1)
    ensures var h := ReadHead(s, pos);
            (h.Wall? && h.kind == kind) <==>
              (ReadInt(s, pos).Extracted? && ReadInt(s, ReadInt(s, pos).next).Extracted? &&
               ReadWord(s, ReadInt(s, ReadInt(s, pos).next).next).Extracted? &&
               ReadWord(s, ReadInt(s, ReadInt(s, pos).next).next).value == KindName(kind))
    ensures var h := ReadHead(s, pos);
            h.Wall? ==> h.i == ReadInt(s, pos).value && h.j == ReadInt(s, ReadInt(s, pos).next).value &&
                        h.next == ReadWord(s, ReadInt(s, ReadInt(s, pos).next).next).next
  {
  }

  /** What one pass of the loop does: read a wall or not, then go on from `next` or stop. */
  datatype Pass = More(added: seq<Record>, next: nat) | Stop(added: seq<Record>, defined: bool)

  /**
   * One pass of the `while (in >> i >> j)` loop from position `pos`, for `n`
   * vertices. The loop stops when `i j` cannot be read, or when the border
   * kind cannot be read (the test fails on the next pass). A pair followed by
   * another word skips just that word. A known kind adds its wall; when its
   * coordinates cannot all be read the stream has failed and the loop stops. A
   * wall naming a list that does not exist stops with `defined` false. A pass
   * that goes on moves forward, and every wall it adds fits the lists and was
   * read from `pos`.
   */
  function Iteration(s: seq<char>, pos: nat, n: int): (p: Pass)
    requires pos <= |s|
    ensures p.More? ==> pos < p.next <= |s|
    ensures |p.added| <= 1
    ensures forall k :: 0 <= k < |p.added| ==> Fits(n, p.added[k]) && Located(s, p.added[k]) && p.added[k].pos == pos
  {
    match ReadHead(s, pos)
    case NoPair => Stop([], true)
    case Skip(p3) => More([], p3)
    case Wall(i, j, kind, p3) =>
      var rec := Record(i, j, kind, pos);
      if !Fits(n, rec) then Stop([], false)
      else if Coordinates(s, p3, Arity(kind)).Failed? then Stop([rec], true)
      else More([rec], Coordinates(s, p3, Arity(kind)).next)
  }


  /**
   * The loop from position `pos` on. Every wall read fits the lists, was read from
   * a record of the file at or after `pos`, and the walls come in the order of
   * the file.
   */
  function Records(s: seq<char>, pos: nat, n: int): (r: Parsed)
    requires pos <= |s|
    ensures forall k :: 0 <= k < |r.records| ==> Fits(n, r.records[k])
    ensures forall k :: 0 <= k < |r.records| ==> Located(s, r.records[k]) && pos <= r.records[k].pos
    ensures forall k, l :: 0 <= k < l < |r.records| ==> r.records[k].pos < r.records[l].pos
    decreases |s| - pos
  {
    match Iteration(s, pos, n)
    case Stop(added, defined) => Parsed(added, defined)
    case More(added, next) =>
      var rest := Records(s, next, n);
      InOrder(added, rest.records, pos, next);
      Parsed(added + rest.records, rest.defined)
  }

  /** The walls of a pass at `pos`, then walls from `next` on in order, are in order from `pos` on. */
  lemma InOrder(added: seq<Record>, rest: seq<Record>, pos: nat, next: nat)
    requires |added| <= 1 && pos < next
    requires forall k :: 0 <= k < |added| ==> added[k].pos == pos
    requires forall k :: 0 <= k < |rest| ==> next <= rest[k].pos
    requires forall k, l :: 0 <= k < l < |rest| ==> rest[k].pos < rest[l].pos
    ensures forall k :: 0 <= k < |added + rest| ==> pos <= (added + rest)[k].pos
    ensures forall k, l :: 0 <= k < l < |added + rest| ==> (added + rest)[k].pos < (added + rest)[l].pos
  {
  }

  /** The loop is its first pass followed, unless that pass stops, by the loop from where the pass left off. */
  lemma RecordsPass(s: seq<char>, pos: nat, n: int)
    requires pos <= |s|
    ensures Iteration(s, pos, n).Stop? ==>
              Records(s, pos, n) == Parsed(Iteration(s, pos, n).added, Iteration(s, pos, n).defined)
    ensures Iteration(s, pos, n).More? ==>
              var rest := Records(s, Iteration(s, pos, n).next, n);
              Records(s, pos, n) == Parsed(Iteration(s, pos, n).added + rest.records, rest.defined)
  {
  }

  /** `in >> vertices_`: the integer at the start of the file, or 0 when none can be read. */
  function VertexCount(s: seq<char>): int
  {
    match ReadInt(s, 0)
    case Failed => 0
    case Extracted(v, _) => v
  }

  /** Where the records start; when the count cannot be read the stream has failed and none are read. */
  function First(s: seq<char>): (p: nat)
    ensures p <= |s|
  {
    match ReadInt(s, 0)
    case Failed => |s|
    case Extracted(_, p) => p
  }

  /** Everything `InitialiseGraph` reads from the file. */
  function Read(s: seq<char>): Parsed
  {
    if VertexCount(s) < 0 then Parsed([], false) else Records(s, First(s), VertexCount(s))
  }

  /**
   * A count written `3.5` reads as 3 and leaves `.5`, which no pair follows.
   * In `2 0 1.5 0 1 Arc` the first pass reads the pair `0 1` and takes `.5` as
   * a border kind, which it skips; the next pass reads the wall `0 1 Arc`,
   * whose coordinates are missing, so the stream fails after its push.
   */
  lemma PartialWords()
    ensures VertexCount("3.5") == 3 && Read("3.5") == Parsed([], true)
    ensures Read("2 0 1.5 0 1 Arc") == Parsed([Record(0, 1, 1, 7)], true)
  {
    ReadDigit("3.5", 0, 0);
    assert ReadInt("3.5", 1) == Failed;
    var s := "2 0 1.5 0 1 Arc";
    SkippedKind(s);
    ArcWithoutCoordinates(s);
    assert Iteration(s, 1, 2) == More([], 7);
  }

  /** The count and the first head of `2 0 1.5 0 1 Arc`. */
  lemma SkippedKind(s: seq<char>)
    requires s == "2 0 1.5 0 1 Arc"
    ensures ReadInt(s, 0) == Extracted(2, 1) && ReadHead(s, 1) == Skip(7)
  {
    ReadDigit(s, 0, 0);
    PairBeforePoint(s);
    assert s[5..7] == ".5";
    ReadWordAt(s, 5, 5, ".5");
  }

  /** `0 1.5` reads as the pair 0 and 1, and leaves `.5`. */
  lemma PairBeforePoint(s: seq<char>)
    requires s == "2 0 1.5 0 1 Arc"
    ensures ReadInt(s, 1) == Extracted(0, 3) && ReadInt(s, 3) == Extracted(1, 5)
  {
    ReadDigit(s, 1, 2);
    ReadDigit(s, 3, 4);
  }

  /** The second head of `2 0 1.5 0 1 Arc`, and the pass it starts. */
  lemma ArcWithoutCoordinates(s: seq<char>)
    requires s == "2 0 1.5 0 1 Arc"
    ensures ReadHead(s, 7) == Wall(0, 1, 1, 15)
    ensures Iteration(s, 7, 2) == Stop([Record(0, 1, 1, 7)], true)
  {
    ReadDigit(s, 7, 8);
    ReadDigit(s, 9, 10);
    assert s[12..15] == "Arc";
    ReadWordAt(s, 11, 12, "Arc");
    assert ReadDouble(s, 15) == Failed;
    assert Coordinates(s, 15, 1).Failed?;
    CoordinatesFailed(s, 15, 1, 5);
  }

  /** The pushes of one wall: both lists for a wall between cells, one for an outside wall. */
  function RecordPushes(r: Record): seq<PushOp>
  {
    if r.j != Outside then Mirror(r.i, r.j, Border(r)) else [(r.i, (Outside, Border(r)))]
  }

  /** One iteration of the loop per wall read. */
  function Walls(rs: seq<Record>): seq<seq<PushOp>>
  {
    seq(|rs|, k requires 0 <= k < |rs| => RecordPushes(rs[k]))
  }

  function Pushes(rs: seq<Record>): seq<PushOp>
  {
    Flatten(Walls(rs))
  }

  /** One more wall pushes its entries after those of the walls before it. */
  lemma PushesAppend(rs: seq<Record>, r: Record)
    ensures Pushes(rs + [r]) == Pushes(rs) + RecordPushes(r)
  {
    var s := Walls(rs + [r]);
    assert s[..|rs|] == Walls(rs);
    FlattenStep(s, |rs|);
    assert s[..|rs| + 1] == s;
  }

  lemma RecordFacts(n: int, r: Record)
    requires Fits(n, r)
    ensures WellFormed(n, RecordPushes(r))
    ensures OutsidePushes(RecordPushes(r)) == (if r.j == Outside then 1 else 0)
    ensures InternalPushes(RecordPushes(r)) == (if r.j == Outside then 0 else 2)
  {
    if r.j != Outside {
      MirrorWellFormed(n, r.i, r.j, Border(r));
    } else {
      MirrorWellFormed(n, r.i, r.i, Border(r));
    }
    MirrorCounts(r.i, if r.j == Outside then r.i else r.j, Border(r));
  }

  lemma PushesFacts(n: int, rs: seq<Record>)
    requires forall k :: 0 <= k < |rs| ==> Fits(n, rs[k])
    ensures WellFormed(n, Pushes(rs))
  {
    var s := Walls(rs);
    forall k | 0 <= k < |s| ensures WellFormed(n, s[k]) {
      RecordFacts(n, rs[k]);
    }
    FlattenWellFormed(n, s);
  }

  /** The graph read from the file. */
  function Layout(s: seq<char>): (g: Graph)
    requires VertexCount(s) >= 0
    ensures ValidGraph(VertexCount(s), g) && Symmetric(g)
  {
    PushesFacts(VertexCount(s), Read(s).records);
    Built(VertexCount(s), Pushes(Read(s).records));
    Build(Empty(VertexCount(s)), Pushes(Read(s).records))
  }

  /** The wall `r` lies between `u` and `v`, in either order. */
  predicate Names(r: Record, u: int, v: int)
  {
    (r.i == u && r.j == v) || (r.i == v && r.j == u)
  }

  /** The pushes of a single wall are its own. */
  lemma PushesSingle(r: Record)
    ensures Pushes([r]) == RecordPushes(r)
  {
    assert Walls([]) == [];
    PushesAppend([], r);
    assert [] + [r] == [r];
  }

  /** At most one more wall, as a pass of the loop adds. */
  lemma PushesExtend(rs: seq<Record>, added: seq<Record>)
    requires |added| <= 1
    ensures Pushes(rs + added) == Pushes(rs) + Pushes(added)
  {
    assert Walls([]) == [];
    if added == [] {
      assert rs + added == rs;
    } else {
      PushesAppend(rs, added[0]);
      PushesAppend([], added[0]);
      assert rs + added == rs + [added[0]] && [] + [added[0]] == added;
    }
  }

  lemma AppendAssociates(a: seq<Record>, b: seq<Record>, c: seq<Record>)
    ensures (a + b) + c == a + (b + c)
  {
  }

  /** A push of the walls puts an entry for one of their records. */
  lemma PushesMembers(rs: seq<Record>, x: PushOp)
    ensures x in Pushes(rs) <==> exists k :: 0 <= k < |rs| && x in RecordPushes(rs[k])
  {
    FlattenMembers(Walls(rs), x);
    if exists k :: 0 <= k < |rs| && x in RecordPushes(rs[k]) {
      var k :| 0 <= k < |rs| && x in RecordPushes(rs[k]);
      assert x in Walls(rs)[k];
    }
  }

  /** The entries of a wall name the cells the wall lies between. */
  lemma RecordEntry(r: Record, u: int, v: int)
    requires u >= 0
    ensures (exists x :: x in RecordPushes(r) && x.0 == u && x.1.0 == v) <==> Names(r, u, v)
  {
    if Names(r, u, v) {
      if r.i == u && r.j == v {
        assert RecordPushes(r)[0].0 == u && RecordPushes(r)[0].1.0 == v;
      } else {
        assert RecordPushes(r)[1].0 == u && RecordPushes(r)[1].1.0 == v;
      }
    }
  }

  /**
   * The list of a cell of the file's graph holds another cell, or the outside
   * marker, exactly when the file names a wall between the two.
   */
  lemma LayoutLists(s: seq<char>, u: int, v: int)
    requires 0 <= u < VertexCount(s)
    ensures Lists(Layout(s), u, v) <==> exists k :: 0 <= k < |Read(s).records| && Names(Read(s).records[k], u, v)
  {
    GraphLists(VertexCount(s), Read(s).records, u, v);
  }

  /** A push naming `v` from `u` comes from a wall record that names the pair. */
  lemma PushedNamed(rs: seq<Record>, u: int, v: int)
    requires u >= 0
    requires exists m :: 0 <= m < |Pushes(rs)| && Pushes(rs)[m].0 == u && Pushes(rs)[m].1.0 == v
    ensures exists k :: 0 <= k < |rs| && Names(rs[k], u, v)
  {
    var P := Pushes(rs);
    var m :| 0 <= m < |P| && P[m].0 == u && P[m].1.0 == v;
    PushesMembers(rs, P[m]);
    var k :| 0 <= k < |rs| && P[m] in RecordPushes(rs[k]);
    RecordEntry(rs[k], u, v);
  }

  /** A wall record naming the pair contributes a push naming `v` from `u`. */
  lemma NamedPushed(rs: seq<Record>, u: int, v: int)
    requires u >= 0
    requires exists k :: 0 <= k < |rs| && Names(rs[k], u, v)
    ensures exists m :: 0 <= m < |Pushes(rs)| && Pushes(rs)[m].0 == u && Pushes(rs)[m].1.0 == v
  {
    var P := Pushes(rs);
    var k :| 0 <= k < |rs| && Names(rs[k], u, v);
    RecordEntry(rs[k], u, v);
    var x :| x in RecordPushes(rs[k]) && x.0 == u && x.1.0 == v;
    PushesMembers(rs, x);
    var m :| 0 <= m < |P| && P[m] == x;
  }

  /** The lists built from walls that fit name `v` from `u` exactly when a wall lies between the two. */
  lemma GraphLists(n: nat, rs: seq<Record>, u: int, v: int)
    requires forall k :: 0 <= k < |rs| ==> Fits(n, rs[k])
    requires 0 <= u < n
    ensures PushesIn(n, Pushes(rs))
    ensures Lists(Build(Empty(n), Pushes(rs)), u, v) <==> exists k :: 0 <= k < |rs| && Names(rs[k], u, v)
  {
    PushesFacts(n, rs);
    BuiltLists(n, Pushes(rs), u, v);
    if Lists(Build(Empty(n), Pushes(rs)), u, v) {
      PushedNamed(rs, u, v);
    }
    if exists k :: 0 <= k < |rs| && Names(rs[k], u, v) {
      NamedPushed(rs, u, v);
    }
  }


  /** The walls of a list of records that face the outside. */
  function Boundary(rs: seq<Record>): nat
    decreases |rs|
  {
    if rs == [] then 0 else Boundary(rs[..|rs| - 1]) + (if rs[|rs| - 1].j == Outside then 1 else 0)
  }

  lemma {:induction false} PushesCounts(n: int, rs: seq<Record>)
    requires forall k :: 0 <= k < |rs| ==> Fits(n, rs[k])
    ensures Boundary(rs) <= |rs|
    ensures OutsidePushes(Pushes(rs)) == Boundary(rs)
    ensures InternalPushes(Pushes(rs)) == 2 * (|rs| - Boundary(rs))
    decreases |rs|
  {
    if rs != [] {
      var rs', r := rs[..|rs| - 1], rs[|rs| - 1];
      PushesCounts(n, rs');
      assert rs == rs' + [r];
      PushesAppend(rs', r);
      PushCountsAppend(Pushes(rs'), RecordPushes(r));
      RecordFacts(n, r);
    }
  }

  /**
   * One outside entry per outside wall of the file, and two internal entries,
   * one per side, per wall between cells.
   */
  lemma LayoutCounts(s: seq<char>)
    requires VertexCount(s) >= 0
    ensures OutsideWalls(Layout(s)) == Boundary(Read(s).records)
    ensures InternalEntries(Layout(s)) == 2 * (|Read(s).records| - Boundary(Read(s).records))
  {
    var rs := Read(s).records;
    PushesFacts(VertexCount(s), rs);
    Built(VertexCount(s), Pushes(rs));
    PushesCounts(VertexCount(s), rs);
  }

  class UserMaze {
    /** The characters of the file `filename_` names. */
    const text: seq<char>
    const maze: Maze.Maze

    /** `UserMaze::UserMaze`: the base maze with its default counts. */
    constructor (text: seq<char>)
      ensures this.text == text && fresh(maze)
      ensures maze.vertices == 0 && maze.startvertex == 0 && maze.endvertex == 1 && maze.adjacencylist == []
    {
      this.text := text;
      maze := new Maze.Maze(0, 0, 1);
    }

    /**
     * `UserMaze::InitialiseGraph`. `defined` is false where the source's
     * behaviour is undefined or it throws; the lists then hold what was read
     * before that point.
     */
    method InitialiseGraph() returns (defined: bool)
      requires maze.vertices >= 0
      modifies maze
      ensures maze.vertices == VertexCount(text) && maze.startvertex == 0 && maze.endvertex == VertexCount(text) - 1
      ensures defined == Read(text).defined
      ensures VertexCount(text) >= 0 ==> maze.adjacencylist == Layout(text)
      ensures VertexCount(text) < 0 ==> maze.adjacencylist == []
    {
      maze.InitialiseGraph();
      var n := 0;
      var pos: nat := |text|;
      var count := ReadInt(text, 0);
      if count.Extracted? {
        n := count.value;
        pos := count.next;
      }
      maze.vertices := n;
      maze.startvertex := 0;
      maze.endvertex := n - 1;
      maze.adjacencylist := [];
      if n < 0 {
        return false;
      }
      maze.adjacencylist := Empty(n);
      defined := ReadWalls(pos, n);
    }

    /** The `while (in >> i >> j)` loop from position `first` on, into `n` empty lists. */
    method ReadWalls(first: nat, n: nat) returns (defined: bool)
      requires first <= |text| && maze.adjacencylist == Empty(n)
      modifies maze
      ensures defined == Records(text, first, n).defined
      ensures PushesIn(n, Pushes(Records(text, first, n).records))
      ensures maze.adjacencylist == Build(Empty(n), Pushes(Records(text, first, n).records))
      ensures maze.SameShape()
    {
      ghost var A := maze.adjacencylist;
      ghost var All := Records(text, first, n);
      ghost var R: seq<Record> := [];
      ghost var P: seq<PushOp> := [];
      assert Walls(R) == [] && R + All.records == All.records;
      var pos := first;
      var stop := false;
      defined := true;
      while !stop
        invariant pos <= |text| && |A| == n && maze.SameShape()
        invariant forall k :: 0 <= k < |R| ==> Fits(n, R[k])
        invariant P == Pushes(R) && PushesIn(n, P) && maze.adjacencylist == Build(A, P)
        invariant !stop ==> R + Records(text, pos, n).records == All.records && Records(text, pos, n).defined == All.defined
        invariant stop ==> R == All.records && defined == All.defined
        decreases |text| - pos, !stop
      {
        var pass;
        pass, R, P := ReadNext(pos, n, A, All, R, P);
        if pass.More? {
          pos := pass.next;
        } else {
          stop := true;
          defined := pass.defined;
        }
      }
    }

    /** One pass of the loop of `ReadWalls`: the records read so far grow by the pass, and the rest is still to come. */
    method ReadNext(pos: nat, n: nat, ghost A: Graph, ghost All: Parsed, ghost R: seq<Record>, ghost P: seq<PushOp>)
      returns (pass: Pass, ghost R': seq<Record>, ghost P': seq<PushOp>)
      requires pos <= |text| && |A| == n
      requires forall k :: 0 <= k < |R| ==> Fits(n, R[k])
      requires P == Pushes(R) && PushesIn(n, P) && maze.adjacencylist == Build(A, P)
      requires R + Records(text, pos, n).records == All.records && Records(text, pos, n).defined == All.defined
      modifies maze
      ensures pass == Iteration(text, pos, n)
      ensures forall k :: 0 <= k < |R'| ==> Fits(n, R'[k])
      ensures P' == Pushes(R') && PushesIn(n, P') && maze.adjacencylist == Build(A, P') && maze.SameShape()
      ensures pass.More? ==> R' + Records(text, pass.next, n).records == All.records &&
                             Records(text, pass.next, n).defined == All.defined
      ensures pass.Stop? ==> R' == All.records && pass.defined == All.defined
    {
      pass, P' := ReadRecord(pos, n, A, P);
      PushesExtend(R, pass.added);
      R' := R + pass.added;
      RecordsPass(text, pos, n);
      if pass.More? {
        AppendAssociates(R, pass.added, Records(text, pass.next, n).records);
      }
    }

    /** One pass of the loop at position `pos`: the pass the file calls for, with the pushes of the wall it adds. */
    method ReadRecord(pos: nat, n: int, ghost A: Graph, ghost P0: seq<PushOp>) returns (pass: Pass, ghost P: seq<PushOp>)
      requires pos <= |text| && n == |A| == |maze.adjacencylist|
      requires PushesIn(|A|, P0) && maze.adjacencylist == Build(A, P0)
      modifies maze
      ensures pass == Iteration(text, pos, n)
      ensures P == P0 + Pushes(pass.added)
      ensures PushesIn(|A|, P) && maze.adjacencylist == Build(A, P) && maze.SameShape()
    {
      P := P0;
      assert Walls([]) == [];
      var head := ReadHead(text, pos);
      if head.NoPair? {
        return Stop([], true), P;
      } else if head.Skip? {
        return More([], head.next), P;
      }
      var ok, next := ReadNumbers(text, head.next, Arity(head.kind));
      var rec := Record(head.i, head.j, head.kind, pos);
      if !Fits(n, rec) {
        return Stop([], false), P;
      }
      P := PushRecord(rec, A, P0);
      PushesSingle(rec);
      if ok {
        pass := More([rec], next);
        assert pass == Iteration(text, pos, n);
      } else {
        pass := Stop([rec], true);
        assert pass == Iteration(text, pos, n);
      }
    }

    /** `in >> x1 >> ...`: reads `count` doubles from `pos` on, and whether all of them could be read. */
    static method ReadNumbers(s: seq<char>, pos: nat, count: nat) returns (ok: bool, next: nat)
      requires pos <= |s|
      ensures ok == Coordinates(s, pos, count).Extracted?
      ensures ok ==> next == Coordinates(s, pos, count).next
    {
      next := pos;
      for m := 0 to count
        invariant Coordinates(s, pos, m) == Extracted((), next)
      {
        var read, after := ReadCoordinate(s, pos, m, next);
        if !read {
          CoordinatesFailed(s, pos, m + 1, count);
          return false, next;
        }
        next := after;
      }
      ok := true;
    }

    /** `in >> x`: the double after the first `m`, which ended at `next`. */
    static method ReadCoordinate(s: seq<char>, pos: nat, m: nat, next: nat) returns (ok: bool, after: nat)
      requires pos <= |s| && Coordinates(s, pos, m) == Extracted((), next)
      ensures ok ==> Coordinates(s, pos, m + 1) == Extracted((), after)
      ensures !ok ==> Coordinates(s, pos, m + 1).Failed?
    {
      var x := ReadDouble(s, next);
      ok := x.Extracted?;
      after := if ok then x.next else next;
    }

    /** The `push_back` of a wall onto the list of `i` and, unless it faces the outside, onto the list of `j`. */
    method PushRecord(r: Record, ghost A: Graph, ghost P0: seq<PushOp>) returns (ghost P: seq<PushOp>)
      requires Fits(|A|, r) && |maze.adjacencylist| == |A|
      requires PushesIn(|A|, P0) && maze.adjacencylist == Build(A, P0)
      modifies maze
      ensures P == P0 + RecordPushes(r)
      ensures PushesIn(|A|, P) && maze.adjacencylist == Build(A, P) && maze.SameShape()
    {
      if r.j != Outside {
        P := maze.PushWall(r.i, r.j, Border(r), A, P0);
      } else {
        P := maze.PushBack(r.i, (Outside, Border(r)), A, P0);
      }
    }
  }
}
