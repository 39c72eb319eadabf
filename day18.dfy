/** Day 18: bytes fall onto a square of memory and corrupt the cells they
    hit. Part one is the length of a shortest walk from the top-left corner
    to the bottom-right one after a number of bytes; part two searches by
    halving for the byte after which no walk remains. */
module Day18 {
  import opened Wrappers
  import opened Util
  import opened Text
  import opened GridLib
  import opened GraphLib
  import opened GridGraph
  import opened DijkstraInvariant
  import opened Dijkstras

  datatype Cell = Empty | Corrupted | Start | End

  /** `Cell::to_char`: the end is drawn as `O`. */
  function ToChar(c: Cell): char
  {
    match c
    case Empty => '.'
    case Corrupted => '#'
    case Start => 'S'
    case End => 'O'
  }

  // ---------------------------------------------------------------------
  // Parsing

  /** The numbers among the pieces, each trimmed first; pieces that do not
      parse as a `usize` are dropped. */
  function Numbers(pieces: seq<string>): seq<nat>
  {
    FilterMap(pieces, Number)
  }

  /** `str::trim` and then `usize::from_str`. */
  function Number(piece: string): Option<nat>
  {
    ParseU64(Trim(piece))
  }

  /** The closure of `parse_input`: a byte exactly when the comma-separated
      pieces of the line hold exactly two numbers. */
  function ParseLine(line: string): (r: Option<(nat, nat)>)
    ensures r.Some? <==> |Numbers(SplitOn(line, {','}))| == 2
    ensures r.Some? ==> [r.value.0, r.value.1] == Numbers(SplitOn(line, {','}))
  {
    var nums := Numbers(SplitOn(line, {','}));
    if |nums| == 2 then Some((nums[0], nums[1])) else None
  }

  /** `filter_map`: the values f gives, in order, skipping the Nones. */
  function FilterMap<A, B>(xs: seq<A>, f: A -> Option<B>): (r: seq<B>)
    ensures |r| <= |xs|
  {
    if xs == [] then []
    else
      var n := |xs| - 1;
      match f(xs[n])
      case Some(b) => FilterMap(xs[..n], f) + [b]
      case None => FilterMap(xs[..n], f)
  }

  /** When f gives a value everywhere, nothing is skipped. */
  lemma {:induction false} FilterMapAllSome<A, B>(xs: seq<A>, f: A -> Option<B>)
    requires forall i :: 0 <= i < |xs| ==> f(xs[i]).Some?
    ensures |FilterMap(xs, f)| == |xs|
    ensures forall i :: 0 <= i < |xs| ==> FilterMap(xs, f)[i] == f(xs[i]).value
  {
    if xs != [] {
      var n := |xs| - 1;
      FilterMapAllSome(xs[..n], f);
      assert f(xs[n]).Some?;
      forall i | 0 <= i < n ensures FilterMap(xs, f)[i] == f(xs[i]).value {
        assert xs[..n][i] == xs[i];
      }
    }
  }

  /** The bytes of the well-formed lines, in order. */
  function Bytes(lines: seq<string>): seq<(nat, nat)>
  {
    FilterMap(lines, ParseLine)
  }

  /** `take(nbytes)`: the first nbytes bytes, or all of them. */
  function Taken(lines: seq<string>, nbytes: nat): seq<(nat, nat)>
  {
    var bs := Bytes(lines);
    if nbytes <= |bs| then bs[..nbytes] else bs
  }

  /** The row-major offset `y * width + x` of the grid's index. */
  function Offset(width: nat, p: (nat, nat)): nat
  {
    Mul(p.1, width) + p.0
  }

  /** `Grid::new(width, height, Cell::Empty)`. */
  function Blank(width: nat, height: nat): seq<Cell>
  {
    seq(Mul(height, width), _ => Empty)
  }

  /** Some byte of bytes has offset k. */
  predicate Hit(width: nat, bytes: seq<(nat, nat)>, k: nat)
  {
    exists b :: b in bytes && Offset(width, b) == k
  }

  /** The fold of `parse_input`: every byte in turn corrupts the cell at its
      offset. None when an offset is past the data, where the index panics. */
  function Corrupt(cells: seq<Cell>, width: nat, bytes: seq<(nat, nat)>): (r: Option<seq<Cell>>)
    ensures r.Some? ==> |r.value| == |cells|
  {
    if bytes == [] then Some(cells)
    else
      var n := |bytes| - 1;
      match Corrupt(cells, width, bytes[..n])
      case None => None
      case Some(c) =>
        var k := Offset(width, bytes[n]);
        if k < |c| then Some(c[k := Corrupted]) else None
  }

  /** The fold panics exactly when some byte is past the data, and
      otherwise corrupts exactly the cells some byte hits. */
  lemma {:induction false} CorruptMeaning(cells: seq<Cell>, width: nat, bytes: seq<(nat, nat)>)
    ensures Corrupt(cells, width, bytes).Some? <==> forall b :: b in bytes ==> Offset(width, b) < |cells|
    ensures Corrupt(cells, width, bytes).Some? ==> forall k :: 0 <= k < |cells| ==>
      Corrupt(cells, width, bytes).value[k] == if Hit(width, bytes, k) then Corrupted else cells[k]
  {
    if bytes != [] {
      var n := |bytes| - 1;
      CorruptMeaning(cells, width, bytes[..n]);
      assert bytes == bytes[..n] + [bytes[n]];
      assert forall b :: b in bytes <==> b in bytes[..n] || b == bytes[n];
      if Corrupt(cells, width, bytes).Some? {
        forall k | 0 <= k < |cells|
          ensures Corrupt(cells, width, bytes).value[k] == if Hit(width, bytes, k) then Corrupted else cells[k]
        {
          if Hit(width, bytes, k) && !Hit(width, bytes[..n], k) {
            var b :| b in bytes && Offset(width, b) == k;
            assert b == bytes[n];
          }
          if Hit(width, bytes[..n], k) {
            var b :| b in bytes[..n] && Offset(width, b) == k;
            assert b in bytes;
          }
        }
      }
    }
  }

  /** `parse_input` as a function of the lines: the blank grid, the fold,
      then the start at (0, 0) and the end at (width - 1, height - 1), the
      last cell. None where Rust panics: an offset past the data, or an
      empty grid, which has no cell (0, 0). */
  function Layout(lines: seq<string>, width: nat, height: nat, nbytes: nat): Option<seq<Cell>>
  {
    match Corrupt(Blank(width, height), width, Taken(lines, nbytes))
    case None => None
    case Some(c) => if |c| == 0 then None else Some(c[0 := Start][|c| - 1 := End])
  }

  /** The parsed grid: the end in the last cell, the start in the first
      unless the grid has only one cell, and in between the cells some byte
      hit corrupted and the others empty. */
  lemma LayoutMeaning(lines: seq<string>, width: nat, height: nat, nbytes: nat)
    ensures Layout(lines, width, height, nbytes).None? <==>
      width == 0 || height == 0 ||
      exists b :: b in Taken(lines, nbytes) && Offset(width, b) >= width * height
    ensures Layout(lines, width, height, nbytes).Some? ==>
      var c := Layout(lines, width, height, nbytes).value;
      && |c| == width * height && c[|c| - 1] == End && (|c| > 1 ==> c[0] == Start)
      && forall k :: 0 < k < |c| - 1 ==>
           c[k] == if Hit(width, Taken(lines, nbytes), k) then Corrupted else Empty
  {
    MulIsProduct(height, width);
    CorruptMeaning(Blank(width, height), width, Taken(lines, nbytes));
  }

  /** The loop of `parse_input` writing each byte into the grid; false where
      a byte lies past the data, which the indexing panics on. */
  method CorruptGrid(grid: Grid<Cell>, bytes: seq<(nat, nat)>) returns (placed: bool)
    requires grid.Valid() && grid.data == Blank(grid.width, grid.height)
    modifies grid
    ensures grid.Valid()
    ensures placed <==> Corrupt(Blank(grid.width, grid.height), grid.width, bytes).Some?
    ensures placed ==> Corrupt(Blank(grid.width, grid.height), grid.width, bytes) == Some(grid.data)
  {
    ghost var blank := Blank(grid.width, grid.height);
    placed := true;
    var i := 0;
    while i < |bytes|
      invariant i <= |bytes| && grid.Valid()
      invariant placed ==> Corrupt(blank, grid.width, bytes[..i]) == Some(grid.data)
      invariant !placed ==> i == |bytes| && Corrupt(blank, grid.width, bytes).None?
    {
      var (x, y) := bytes[i];
      assert bytes[..i + 1][..i] == bytes[..i];
      if grid.Offset(x, y) >= |grid.data| {
        CorruptMeaning(blank, grid.width, bytes);
        assert bytes[i] in bytes;
        placed := false;
        i := |bytes|;
      } else {
        grid.Set(x, y, Corrupted);
        i := i + 1;
      }
    }
    assert placed ==> bytes[..|bytes|] == bytes;
  }

  /** `parse_input`. */
  method ParseInput(lines: seq<string>, width: nat, height: nat, nbytes: nat) returns (r: Result<Grid<Cell>, Failure>)
    ensures r.Err? <==> Layout(lines, width, height, nbytes).None?
    ensures r.Err? ==> r.error == Panic
    ensures r.Ok? ==> fresh(r.value) && r.value.Valid() && r.value.width == width && r.value.height == height
    ensures r.Ok? ==> Layout(lines, width, height, nbytes) == Some(r.value.data)
  {
    var bytes := Taken(lines, nbytes);
    var grid := new Grid.New(width, height, Empty);
    assert grid.data == Blank(width, height);
    var placed := CorruptGrid(grid, bytes);
    if !placed || |grid.data| == 0 {
      return Err(Panic);
    }
    MulIsProduct(height, width);
    grid.Set(0, 0, Start);
    assert grid.Offset(width - 1, height - 1) == |grid.data| - 1 by {
      MulIsProduct(height - 1, width);
    }
    grid.Set(width - 1, height - 1, End);
    r := Ok(grid);
  }

  // ---------------------------------------------------------------------
  // Walks through the memory

  /** p is inside the grid and its cell is not corrupted. */
  predicate Free(cells: seq<Cell>, width: nat, height: nat, p: (nat, nat))
  {
    p.0 < width && p.1 < height && Offset(width, p) < |cells| && cells[Offset(width, p)] != Corrupted
  }

  /** A walk of free cells, each a cardinal neighbour of the one before. */
  ghost predicate Walk(cells: seq<Cell>, width: nat, height: nat, ps: seq<(nat, nat)>)
  {
    && |ps| >= 1
    && (forall i :: 0 <= i < |ps| ==> Free(cells, width, height, ps[i]))
    && (forall i :: 0 <= i < |ps| - 1 ==> IsCardinalNeighbor(ps[i].0, ps[i].1, ps[i + 1]))
  }

  /** A walk of at least one step from the top-left to the bottom-right corner. */
  ghost predicate Escape(cells: seq<Cell>, width: nat, height: nat, ps: seq<(nat, nat)>)
  {
    Walk(cells, width, height, ps) && |ps| >= 2 && ps[0] == (0, 0) &&
    ps[|ps| - 1].0 + 1 == width && ps[|ps| - 1].1 + 1 == height
  }

  /** After nbytes bytes the grid parses and can be crossed. */
  ghost predicate Escapes(lines: seq<string>, width: nat, height: nat, nbytes: nat)
  {
    Layout(lines, width, height, nbytes).Some? &&
    exists ps :: Escape(Layout(lines, width, height, nbytes).value, width, height, ps)
  }

  /** d is the number of steps of a shortest escape. */
  ghost predicate Shortest(cells: seq<Cell>, width: nat, height: nat, d: nat)
  {
    (exists ps :: Escape(cells, width, height, ps) && |ps| == d + 1) &&
    forall ps :: Escape(cells, width, height, ps) ==> d + 1 <= |ps|
  }

  /** More bytes never open a walk: whatever can be crossed after m bytes
      can be crossed after fewer, and a panic after n bytes is a panic
      after more. */
  lemma EscapesMonotone(lines: seq<string>, width: nat, height: nat, n: nat, m: nat)
    requires n <= m
    ensures Layout(lines, width, height, n).None? ==> Layout(lines, width, height, m).None?
    ensures Escapes(lines, width, height, m) ==> Escapes(lines, width, height, n)
  {
    var small, big := Taken(lines, n), Taken(lines, m);
    assert forall b :: b in small ==> b in big;
    LayoutMeaning(lines, width, height, n);
    LayoutMeaning(lines, width, height, m);
    if Escapes(lines, width, height, m) {
      var cm, cn := Layout(lines, width, height, m).value, Layout(lines, width, height, n).value;
      var ps :| Escape(cm, width, height, ps);
      forall i | 0 <= i < |ps| ensures Free(cn, width, height, ps[i]) {
        var k := Offset(width, ps[i]);
        assert Hit(width, small, k) ==> Hit(width, big, k);
      }
      assert Escape(cn, width, height, ps);
    }
  }

  /** Where part two stops, at a count s that can be crossed while s + 1
      cannot, every count up to s can be crossed and no larger one can: the
      byte s (counting from 0) is the first that closes the way. */
  lemma FirstBlocking(lines: seq<string>, width: nat, height: nat, s: nat)
    requires Escapes(lines, width, height, s) && !Escapes(lines, width, height, s + 1)
    ensures forall n: nat :: n <= s ==> Escapes(lines, width, height, n)
    ensures forall n: nat :: n > s ==> !Escapes(lines, width, height, n)
  {
    forall n: nat | n <= s ensures Escapes(lines, width, height, n) {
      EscapesMonotone(lines, width, height, n, s);
    }
    forall n: nat | n > s ensures !Escapes(lines, width, height, n) {
      EscapesMonotone(lines, width, height, s + 1, n);
    }
  }

  // ---------------------------------------------------------------------
  // From the graph's paths to walks and back

  /** The positions of a node sequence. */
  function Spots(p: seq<Node<Cell>>): (r: seq<(nat, nat)>)
    ensures |r| == |p| && forall i :: 0 <= i < |p| ==> r[i] == (p[i].x, p[i].y)
  {
    seq(|p|, i requires 0 <= i < |p| => (p[i].x, p[i].y))
  }

  /** The nodes of the graph along a walk. */
  function Along(cells: seq<Cell>, width: nat, height: nat, ps: seq<(nat, nat)>): (r: seq<Node<Cell>>)
    requires forall i :: 0 <= i < |ps| ==> Free(cells, width, height, ps[i])
    ensures |r| == |ps|
    ensures forall i :: 0 <= i < |ps| ==>
      (Free(cells, width, height, ps[i]) && r[i] == Node(ps[i].0, ps[i].1, cells[Offset(width, ps[i])]))
  {
    seq(|ps|, i requires 0 <= i < |ps| =>
      assert Free(cells, width, height, ps[i]);
      Node(ps[i].0, ps[i].1, cells[Offset(width, ps[i])]))
  }

  /** A node of the graph is an open cell holding the start only at (0, 0)
      and the end only at the last cell. */
  lemma OpenCell(grid: Grid<Cell>, lines: seq<string>, nbytes: nat, n: Node<Cell>)
    requires grid.Valid() && Layout(lines, grid.width, grid.height, nbytes) == Some(grid.data)
    requires Open(grid, Corrupted, n)
    ensures Free(grid.data, grid.width, grid.height, (n.x, n.y))
    ensures n.cell == Start ==> n == Node(0, 0, Start)
    ensures n.cell == End ==> n.x + 1 == grid.width && n.y + 1 == grid.height
  {
    LayoutCells(lines, grid.width, grid.height, nbytes, grid.data);
    var (w, h) := (grid.width, grid.height);
    MulIsProduct(h, w);
    if n.cell == Start {
      assert Offset(w, (n.x, n.y)) == 0;
      MulIsProduct(n.y, w);
    }
    if n.cell == End {
      LastCell(w, h, n.x, n.y);
    }
  }

  /** The only cell at the last offset of a w by h grid is its bottom-right corner. */
  lemma LastCell(w: nat, h: nat, x: nat, y: nat)
    requires x < w && y < h && Mul(y, w) + x == w * h - 1
    ensures x + 1 == w && y + 1 == h
  {
    MulIsProduct(h - 1, w);
    OffsetInjective(x, y, w - 1, h - 1, w);
  }

  /** The parsed cells: the start first unless there is only one cell, the
      end last, and only corrupted or empty cells in between. */
  lemma LayoutCells(lines: seq<string>, width: nat, height: nat, nbytes: nat, c: seq<Cell>)
    requires Layout(lines, width, height, nbytes) == Some(c)
    ensures |c| == width * height && c[|c| - 1] == End && (|c| > 1 ==> c[0] == Start)
    ensures forall k :: 0 < k < |c| - 1 ==> c[k] == Corrupted || c[k] == Empty
  {
    LayoutMeaning(lines, width, height, nbytes);
  }

  /** A node at either end of an edge is an open cell. */
  lemma EdgeEndsOpen(grid: Grid<Cell>, adj: Adjacency<Node<Cell>>, n: Node<Cell>)
    requires GraphOf(grid, Corrupted, adj) && n in NodeSet(adj)
    ensures Open(grid, Corrupted, n)
  {
    if n in adj {
      var v :| v in adj[n];
      assert HasEdgeIn(adj, n, v);
    } else {
      var u, v :| u in adj && v in adj[u] && v == n;
      assert HasEdgeIn(adj, u, n);
    }
  }

  /** A path of unit edges weighs one less than its length. */
  lemma {:induction false} UnitPathWeight<N>(adj: Adjacency<N>, p: seq<N>)
    requires IsPath(adj, p) && forall u, v :: HasEdgeIn(adj, u, v) ==> adj[u][v] == 1
    ensures PathWeight(adj, p) == |p| - 1
  {
    if |p| > 1 {
      assert HasEdgeIn(adj, p[0], p[1]);
      assert IsPath(adj, p[1..]) by {
        forall i | 0 <= i < |p| - 2 ensures HasEdgeIn(adj, p[1..][i], p[1..][i + 1]) {
          assert HasEdgeIn(adj, p[i + 1], p[i + 2]);
        }
      }
      UnitPathWeight(adj, p[1..]);
    }
  }

  /** A path of the graph from the start node to the end node is an escape
      as long as the path, one step per edge. */
  lemma PathIsEscape(grid: Grid<Cell>, adj: Adjacency<Node<Cell>>, lines: seq<string>, nbytes: nat,
                     p: seq<Node<Cell>>, e: Node<Cell>)
    requires grid.Valid() && Layout(lines, grid.width, grid.height, nbytes) == Some(grid.data)
    requires GraphOf(grid, Corrupted, adj) && e.cell == End && Open(grid, Corrupted, e)
    requires PathFromTo(adj, p, Node(0, 0, Start), e)
    ensures Escape(grid.data, grid.width, grid.height, Spots(p))
    ensures PathWeight(adj, p) == |p| - 1
  {
    OpenCell(grid, lines, nbytes, e);
    assert |p| >= 2;
    PathNodesLinked(grid, adj, p);
    forall i | 0 <= i < |p| ensures Free(grid.data, grid.width, grid.height, Spots(p)[i]) {
      OpenCell(grid, lines, nbytes, p[i]);
    }
    UnitPathWeight(adj, p);
  }

  /** Along a path of at least one edge every node is open, and each is a
      cardinal neighbour of the one before. */
  lemma PathNodesLinked(grid: Grid<Cell>, adj: Adjacency<Node<Cell>>, p: seq<Node<Cell>>)
    requires GraphOf(grid, Corrupted, adj) && IsPath(adj, p) && |p| >= 2
    ensures forall i :: 0 <= i < |p| ==> Open(grid, Corrupted, p[i])
    ensures forall i :: 0 <= i < |p| - 1 ==> IsCardinalNeighbor(p[i].x, p[i].y, (p[i + 1].x, p[i + 1].y))
  {
    forall i | 0 <= i < |p| ensures Open(grid, Corrupted, p[i]) {
      if i < |p| - 1 {
        assert HasEdgeIn(adj, p[i], p[i + 1]);
      } else {
        assert HasEdgeIn(adj, p[i - 1], p[i]);
      }
    }
    forall i | 0 <= i < |p| - 1 ensures IsCardinalNeighbor(p[i].x, p[i].y, (p[i + 1].x, p[i + 1].y)) {
      assert HasEdgeIn(adj, p[i], p[i + 1]);
    }
  }

  /** An escape is a path of the graph between the start and end nodes. */
  lemma EscapeIsPath(grid: Grid<Cell>, adj: Adjacency<Node<Cell>>, lines: seq<string>, nbytes: nat,
                     ps: seq<(nat, nat)>)
    requires grid.Valid() && Layout(lines, grid.width, grid.height, nbytes) == Some(grid.data)
    requires GraphOf(grid, Corrupted, adj) && Escape(grid.data, grid.width, grid.height, ps)
    ensures var e := Node(grid.width - 1, grid.height - 1, End);
      && PathFromTo(adj, Along(grid.data, grid.width, grid.height, ps), Node(0, 0, Start), e)
      && Node(0, 0, Start) in NodeSet(adj) && e in NodeSet(adj)
      && PathWeight(adj, Along(grid.data, grid.width, grid.height, ps)) == |ps| - 1
  {
    var (w, h) := (grid.width, grid.height);
    LayoutMeaning(lines, w, h, nbytes);
    MulIsProduct(h, w);
    MulIsProduct(h - 1, w);
    var q := Along(grid.data, w, h, ps);
    forall i | 0 <= i < |ps| - 1 ensures HasEdgeIn(adj, q[i], q[i + 1]) {
      assert Linked(grid, Corrupted, q[i], q[i + 1]);
    }
    assert q[0] == Node(0, 0, Start);
    assert q[|q| - 1] == Node(w - 1, h - 1, End);
    assert HasEdgeIn(adj, q[0], q[1]) && HasEdgeIn(adj, q[|q| - 2], q[|q| - 1]);
    NodeSetHasEdgeEnds(adj, q[0], q[1]);
    NodeSetHasEdgeEnds(adj, q[|q| - 2], q[|q| - 1]);
    UnitPathWeight(adj, q);
  }

  // ---------------------------------------------------------------------
  // The derived `Ord` of nodes, which orders `nodes()`

  function CellRank(c: Cell): nat
  {
    match c
    case Empty => 0
    case Corrupted => 1
    case Start => 2
    case End => 3
  }

  /** Lexicographic on x, y and the cell, in declaration order. */
  predicate NodeLess(a: Node<Cell>, b: Node<Cell>)
  {
    a.x < b.x || (a.x == b.x && (a.y < b.y || (a.y == b.y && CellRank(a.cell) < CellRank(b.cell))))
  }

  lemma NodeLessTotal()
    ensures StrictTotalOrder(NodeLess)
  {
    forall a: Node<Cell>, b: Node<Cell> | a != b ensures NodeLess(a, b) || NodeLess(b, a) {
      assert CellRank(a.cell) == CellRank(b.cell) ==> a.cell == b.cell;
    }
  }

  /** `find`: the first node holding c. */
  function FindCell(nodes: seq<Node<Cell>>, c: Cell): (r: Option<Node<Cell>>)
    ensures r.None? <==> forall i :: 0 <= i < |nodes| ==> nodes[i].cell != c
    ensures r.Some? ==> exists i :: 0 <= i < |nodes| && nodes[i] == r.value && r.value.cell == c &&
                                    forall j :: 0 <= j < i ==> nodes[j].cell != c
  {
    if nodes == [] then None
    else if nodes[0].cell == c then Some(nodes[0])
    else
      var r := FindCell(nodes[1..], c);
      if r.Some? then
        var i :| 0 <= i < |nodes[1..]| && nodes[1..][i] == r.value && r.value.cell == c &&
                 forall j :: 0 <= j < i ==> nodes[1..][j].cell != c;
        assert nodes[i + 1] == r.value;
        r
      else r
  }

  // ---------------------------------------------------------------------
  // Solvers

  /** A panic of the Rust code, the three errors of `solver`, and the
      search of `part2` reaching a state it repeats forever. */
  datatype Failure = Panic | NoStart | NoEnd | NoPath | NoLine | Diverges

  /** `solver`: the number of steps of a shortest escape after nbytes bytes.
      It fails exactly when the grid cannot be crossed, which includes the
      one-cell grid, whose end overwrites the start. */
  method Solver(lines: seq<string>, width: nat, height: nat, nbytes: nat) returns (r: Result<nat, Failure>)
    ensures r == Err(Panic) <==> Layout(lines, width, height, nbytes).None?
    ensures r.Ok? <==> Escapes(lines, width, height, nbytes)
    ensures r.Ok? ==> Shortest(Layout(lines, width, height, nbytes).value, width, height, r.value)
  {
    var parsed := ParseInput(lines, width, height, nbytes);
    if parsed.Err? {
      return Err(Panic);
    }
    r := Search(parsed.value, lines, nbytes);
  }

  /** `solver` after parsing: the graph, the corner nodes found among the
      sorted nodes, and the shortest path between them. */
  method Search(grid: Grid<Cell>, ghost lines: seq<string>, ghost nbytes: nat) returns (r: Result<nat, Failure>)
    requires grid.Valid() && Layout(lines, grid.width, grid.height, nbytes) == Some(grid.data)
    ensures r != Err(Panic)
    ensures r.Ok? <==> exists ps :: Escape(grid.data, grid.width, grid.height, ps)
    ensures r.Ok? ==> Shortest(grid.data, grid.width, grid.height, r.value)
  {
    LayoutMeaning(lines, grid.width, grid.height, nbytes);
    var graph := Build(grid, Corrupted);
    NodeLessTotal();
    var nodes := graph.SortedNodes(NodeLess);
    var start := FindCell(nodes, Start);
    CornersFound(grid, graph.adj, lines, nbytes, nodes);
    if start.None? {
      NoEscapeWithout(grid, graph.adj, lines, nbytes, Node(0, 0, Start));
      return Err(NoStart);
    }
    var end := FindCell(nodes, End);
    if end.None? {
      NoEscapeWithout(grid, graph.adj, lines, nbytes, Node(grid.width - 1, grid.height - 1, End));
      return Err(NoEnd);
    }
    var found := ShortestPath(graph, start.value, end.value, NodeLess);
    if found.None? {
      forall ps | Escape(grid.data, grid.width, grid.height, ps) ensures false {
        EscapeIsPath(grid, graph.adj, lines, nbytes, ps);
      }
      return Err(NoPath);
    }
    FoundIsShortest(grid, graph.adj, lines, nbytes, found.value.0, found.value.1);
    r := Ok(found.value.1);
  }

  /** A lightest path of the graph between the corner nodes gives the
      length of a shortest escape. */
  lemma FoundIsShortest(grid: Grid<Cell>, adj: Adjacency<Node<Cell>>, lines: seq<string>, nbytes: nat,
                        path: seq<Node<Cell>>, dist: nat)
    requires grid.Valid() && Layout(lines, grid.width, grid.height, nbytes) == Some(grid.data)
    requires grid.width > 0 && grid.height > 0
    requires GraphOf(grid, Corrupted, adj)
    requires var e := Node(grid.width - 1, grid.height - 1, End);
      && PathFromTo(adj, path, Node(0, 0, Start), e) && PathWeight(adj, path) == dist
      && forall p :: PathFromTo(adj, p, Node(0, 0, Start), e) ==> dist <= PathWeight(adj, p)
    ensures Shortest(grid.data, grid.width, grid.height, dist)
  {
    var e := Node(grid.width - 1, grid.height - 1, End);
    EdgeEndsOpen(grid, adj, e) by {
      assert path[|path| - 1] == e && |path| >= 2 by {
        assert path[0] != e;
      }
      assert HasEdgeIn(adj, path[|path| - 2], path[|path| - 1]);
      NodeSetHasEdgeEnds(adj, path[|path| - 2], e);
    }
    PathIsEscape(grid, adj, lines, nbytes, path, e);
    assert Escape(grid.data, grid.width, grid.height, Spots(path)) && |Spots(path)| == dist + 1;
    forall ps | Escape(grid.data, grid.width, grid.height, ps) ensures dist + 1 <= |ps| {
      EscapeIsPath(grid, adj, lines, nbytes, ps);
      var q := Along(grid.data, grid.width, grid.height, ps);
      assert PathFromTo(adj, q, Node(0, 0, Start), e);
    }
  }

  /** The nodes found for the start and the end are the corner nodes, and
      a corner node not found is not a node of the graph. */
  lemma CornersFound(grid: Grid<Cell>, adj: Adjacency<Node<Cell>>, lines: seq<string>, nbytes: nat,
                     nodes: seq<Node<Cell>>)
    requires grid.Valid() && Layout(lines, grid.width, grid.height, nbytes) == Some(grid.data)
    requires GraphOf(grid, Corrupted, adj) && forall n :: n in nodes <==> n in NodeSet(adj)
    ensures grid.width > 0 && grid.height > 0
    ensures FindCell(nodes, Start).Some? ==> FindCell(nodes, Start).value == Node(0, 0, Start)
    ensures FindCell(nodes, Start).None? ==> Node(0, 0, Start) !in NodeSet(adj)
    ensures FindCell(nodes, End).Some? ==> FindCell(nodes, End).value == Node(grid.width - 1, grid.height - 1, End)
    ensures FindCell(nodes, End).None? ==> Node(grid.width - 1, grid.height - 1, End) !in NodeSet(adj)
  {
    LayoutExtents(lines, grid.width, grid.height, nbytes);
    CornerFound(grid, adj, lines, nbytes, nodes, Node(0, 0, Start));
    CornerFound(grid, adj, lines, nbytes, nodes, Node(grid.width - 1, grid.height - 1, End));
  }

  /** A parsed layout has at least one row and one column. */
  lemma LayoutExtents(lines: seq<string>, width: nat, height: nat, nbytes: nat)
    requires Layout(lines, width, height, nbytes).Some?
    ensures width > 0 && height > 0
  {
    LayoutMeaning(lines, width, height, nbytes);
  }

  /** The node found for the start or the end is its corner node c, and
      when none is found c is not a node of the graph. */
  lemma CornerFound(grid: Grid<Cell>, adj: Adjacency<Node<Cell>>, lines: seq<string>, nbytes: nat,
                    nodes: seq<Node<Cell>>, c: Node<Cell>)
    requires grid.Valid() && Layout(lines, grid.width, grid.height, nbytes) == Some(grid.data)
    requires GraphOf(grid, Corrupted, adj) && forall n :: n in nodes <==> n in NodeSet(adj)
    requires c == Node(0, 0, Start) || (c.cell == End && c.x + 1 == grid.width && c.y + 1 == grid.height)
    ensures FindCell(nodes, c.cell).Some? ==> FindCell(nodes, c.cell).value == c
    ensures FindCell(nodes, c.cell).None? ==> c !in NodeSet(adj)
  {
    var f := FindCell(nodes, c.cell);
    if f.Some? {
      EdgeEndsOpen(grid, adj, f.value);
      OpenCell(grid, lines, nbytes, f.value);
    }
    if c in NodeSet(adj) {
      var i :| 0 <= i < |nodes| && nodes[i] == c;
    }
  }

  /** Without a node of the graph at either corner there is no escape. */
  lemma NoEscapeWithout(grid: Grid<Cell>, adj: Adjacency<Node<Cell>>, lines: seq<string>, nbytes: nat, n: Node<Cell>)
    requires grid.Valid() && Layout(lines, grid.width, grid.height, nbytes) == Some(grid.data)
    requires GraphOf(grid, Corrupted, adj)
    requires n == Node(0, 0, Start) || (grid.width > 0 && grid.height > 0 && n == Node(grid.width - 1, grid.height - 1, End))
    requires n !in NodeSet(adj)
    ensures !Escapes(lines, grid.width, grid.height, nbytes)
  {
    if Escapes(lines, grid.width, grid.height, nbytes) {
      var ps :| Escape(grid.data, grid.width, grid.height, ps);
      EscapeIsPath(grid, adj, lines, nbytes, ps);
    }
  }

  /** The midpoint of `part2` lies between the bounds, strictly when they
      are two or more apart, and is the lower bound otherwise. */
  lemma Halve(start: nat, end: nat)
    requires start <= end
    ensures start <= (start + end) / 2 <= end
    ensures end - start >= 2 ==> start < (start + end) / 2 < end
    ensures end - start <= 1 ==> (start + end) / 2 == start
  {
  }

  /** `solver(...).is_ok()`, with the panic kept apart. */
  method Probe(lines: seq<string>, width: nat, height: nat, nbytes: nat) returns (ok: bool, panicked: bool)
    ensures panicked <==> Layout(lines, width, height, nbytes).None?
    ensures !panicked ==> (ok <==> Escapes(lines, width, height, nbytes))
  {
    var dist := Solver(lines, width, height, nbytes);
    ok, panicked := dist.Ok?, dist == Err(Panic);
  }

  /** `part2`: the binary search over the byte count, between a count that
      can be crossed (or 0) and one that cannot (or the number of lines).
      It answers the line at the lower count once the two are adjacent. When
      they meet instead, which happens only for at most one line, the Rust
      loop repeats the same state forever: that is `Diverges` here. A panic
      of `solver` ends the search. */
  method Part2(lines: seq<string>, width: nat, height: nat) returns (r: Result<string, Failure>)
    ensures r.Err? ==> r.error == Panic || r.error == Diverges
    ensures r.Ok? ==> exists s :: 0 <= s < |lines| && r.value == lines[s] &&
                                  (s == 0 || Escapes(lines, width, height, s)) &&
                                  (s + 1 == |lines| || !Escapes(lines, width, height, s + 1))
    ensures r == Err(Panic) ==> exists m :: 0 <= m <= |lines| && Layout(lines, width, height, m).None?
    ensures r == Err(Diverges) <==> |lines| <= 1 && Layout(lines, width, height, 0).Some? &&
                                    (|lines| == 0 || !Escapes(lines, width, height, 0))
  {
    var start: nat, end: nat := 0, |lines|;
    while true
      invariant start <= end <= |lines|
      invariant start == 0 || Escapes(lines, width, height, start)
      invariant end == |lines| || !Escapes(lines, width, height, end)
      invariant end - start <= 1 ==> start == 0 && end == |lines|
      decreases end - start
    {
      var mid := (start + end) / 2;
      Halve(start, end);
      var ok, panicked := Probe(lines, width, height, mid);
      if panicked {
        return Err(Panic);
      }
      if ok {
        start := mid;
      } else {
        end := mid;
      }
      if start + 1 == end {
        break;
      }
      if start == end {
        return Err(Diverges);
      }
    }
    r := Ok(lines[start]);
  }
}
