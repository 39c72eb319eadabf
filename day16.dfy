/** Day 16: a reindeer maze. The graph's nodes are (cell kind, heading,
    position) states; turning in place costs 1000 and a step forward costs
    1. The end cell is entered with the pseudo-heading `Any`, so every
    heading of arrival reaches the same end state. */
module Day16 {
  import opened Wrappers
  import opened Util
  import opened GridLib
  import opened GraphLib
  import opened GridGraph
  import opened DijkstraInvariant
  import opened AllPathsInvariant
  import opened Dijkstras

  // ---------------------------------------------------------------------
  // Cell kinds

  datatype CellType = Empty | Start | End | Wall

  /** `CellType::to_char`: the end is drawn as `O`. */
  function CellTypeToChar(c: CellType): char
  {
    match c
    case Wall => '#'
    case Start => 'S'
    case End => 'O'
    case Empty => '.'
  }

  /** `CellType::try_from`: the end is read from `E`. */
  function CellTypeFromChar(c: char): (r: Result<CellType, string>)
    ensures r.Err? ==> r.error == "Invalid character: " + [c]
  {
    match c
    case '#' => Ok(Wall)
    case 'S' => Ok(Start)
    case 'E' => Ok(End)
    case '.' => Ok(Empty)
    case _ => Err("Invalid character: " + [c])
  }

  /** Exactly `#SE.` are read; drawing and reading agree except on the
      end, whose drawn `O` does not read back. */
  lemma CellTypeCodec(ct: CellType, c: char)
    ensures CellTypeFromChar(c).Ok? <==> c in "#SE."
    ensures ct != End ==> CellTypeFromChar(CellTypeToChar(ct)) == Ok(ct)
    ensures CellTypeFromChar(CellTypeToChar(End)).Err?
  {
  }

  // ---------------------------------------------------------------------
  // Headings

  datatype Direction = Left | Right | Up | Down | Any

  /** `Direction::offset`: unit steps with y growing downwards; `Any`
      does not move. */
  function Offset(d: Direction): (r: (int, int))
    ensures d == Any <==> r == (0, 0)
    ensures d != Any ==> Abs(r.0) + Abs(r.1) == 1
  {
    match d
    case Up => (0, -1)
    case Down => (0, 1)
    case Left => (-1, 0)
    case Right => (1, 0)
    case Any => (0, 0)
  }

  /** `Direction::all`: the four real headings. */
  const AllDirections: seq<Direction> := [Up, Down, Left, Right]

  /** A quarter turn counter-clockwise on screen (y grows downwards). */
  function TurnLeft(d: Direction): (r: Direction)
    ensures Offset(r) == (Offset(d).1, -Offset(d).0)
  {
    match d
    case Up => Left
    case Left => Down
    case Down => Right
    case Right => Up
    case Any => Any
  }

  /** A quarter turn clockwise on screen. */
  function TurnRight(d: Direction): (r: Direction)
    ensures Offset(r) == (-Offset(d).1, Offset(d).0)
  {
    match d
    case Up => Right
    case Left => Up
    case Down => Left
    case Right => Down
    case Any => Any
  }

  /** The turns undo each other, four of either are the identity, and
      `Any` is fixed by both. */
  lemma Turns(d: Direction)
    ensures TurnLeft(TurnRight(d)) == d && TurnRight(TurnLeft(d)) == d
    ensures TurnRight(TurnRight(TurnRight(TurnRight(d)))) == d
    ensures TurnLeft(TurnLeft(TurnLeft(TurnLeft(d)))) == d
    ensures TurnLeft(Any) == Any && TurnRight(Any) == Any
    ensures d != Any ==> TurnLeft(d) != d && TurnRight(d) != d && TurnLeft(d) != TurnRight(d)
  {
  }

  /** `Direction::all` lists exactly the headings that move. */
  lemma AllMove(d: Direction)
    ensures d in AllDirections <==> Offset(d) != (0, 0)
  {
  }

  // ---------------------------------------------------------------------
  // Graph states and edges

  /** A graph node: the kind of cell, the heading and the position. */
  datatype Cell = Cell(cellType: CellType, direction: Direction, xy: (nat, nat))

  const RotationCost: nat := 1000
  const StepCost: nat := 1
  const StartingDirection: Direction := Right

  /** The heading a state at a cell of kind ct records: `Any` at the end. */
  function Facing(ct: CellType, d: Direction): Direction
  {
    if ct == End then Any else d
  }

  /** The kind of the cell (x, y) of a well-formed grid. */
  function Kind(grid: Grid<CellType>, x: nat, y: nat): CellType
    reads grid
    requires grid.Valid() && x < grid.width && y < grid.height
  {
    grid.InExtentsHasOffset(x, y);
    grid.At(x, y)
  }

  /** The state `add_edges` starts from. */
  function Source(grid: Grid<CellType>, x: nat, y: nat, d: Direction): Cell
    reads grid
    requires grid.Valid() && x < grid.width && y < grid.height
  {
    var ct := Kind(grid, x, y);
    Cell(ct, Facing(ct, d), (x, y))
  }

  /** The cell one step ahead, when it is inside the grid. */
  function Ahead(grid: Grid<CellType>, x: nat, y: nat, d: Direction): (r: Option<(nat, nat)>)
    reads grid
    ensures r.Some? <==> grid.IsWithinExtents(x + Offset(d).0, y + Offset(d).1)
    ensures r.Some? ==> r.value == ((x + Offset(d).0) as nat, (y + Offset(d).1) as nat)
  {
    var (sx, sy) := (x + Offset(d).0, y + Offset(d).1);
    if grid.IsWithinExtents(sx, sy) then Some((sx as nat, sy as nat)) else None
  }

  /** The step state, when the cell ahead is inside the grid and not a wall. */
  function StepState(grid: Grid<CellType>, x: nat, y: nat, d: Direction): Option<Cell>
    reads grid
    requires grid.Valid() && x < grid.width && y < grid.height
  {
    match Ahead(grid, x, y, d)
    case None => None
    case Some((nx, ny)) =>
      var next := Kind(grid, nx, ny);
      if next == Wall then None else Some(Cell(next, Facing(next, d), (nx, ny)))
  }

  /** The edge map after `add_edges(graph, grid, x, y, direction)`: two
      turns in place of cost 1000, then the step of cost 1 if any. */
  function AddEdgesSpec(adj: Adjacency<Cell>, grid: Grid<CellType>, x: nat, y: nat, d: Direction): Adjacency<Cell>
    reads grid
    requires grid.Valid() && x < grid.width && y < grid.height
  {
    var turned := Turned(adj, grid, x, y, d);
    match StepState(grid, x, y, d)
    case None => turned
    case Some(next) => InsertEdge(turned, true, Source(grid, x, y, d), next, StepCost)
  }

  /** The edge map after the two turns of `add_edges`. */
  function Turned(adj: Adjacency<Cell>, grid: Grid<CellType>, x: nat, y: nat, d: Direction): Adjacency<Cell>
    reads grid
    requires grid.Valid() && x < grid.width && y < grid.height
  {
    var from := Source(grid, x, y, d);
    var ct := from.cellType;
    InsertEdge(InsertEdge(adj, true, from, Cell(ct, TurnRight(d), (x, y)), RotationCost),
               true, from, Cell(ct, TurnLeft(d), (x, y)), RotationCost)
  }

  /** `add_edges`, on the graph it is handed. */
  method AddEdges(graph: Graph<Cell>, grid: Grid<CellType>, x: nat, y: nat, d: Direction)
    requires graph.directed && grid.Valid() && x < grid.width && y < grid.height
    modifies graph
    ensures graph.adj == AddEdgesSpec(old(graph.adj), grid, x, y, d)
  {
    grid.InExtentsHasOffset(x, y);
    var cellType := grid.At(x, y);
    var from := Cell(cellType, if cellType == End then Any else d, (x, y));
    graph.AddEdgeWeighted(from, Cell(cellType, TurnRight(d), (x, y)), RotationCost);
    graph.AddEdgeWeighted(from, Cell(cellType, TurnLeft(d), (x, y)), RotationCost);
    assert graph.adj == Turned(old(graph.adj), grid, x, y, d);
    AddStep(graph, grid, x, y, d, from);
  }

  /** The last part of `add_edges`: the step to the cell ahead, unless it
      is outside the grid or a wall. */
  method AddStep(graph: Graph<Cell>, grid: Grid<CellType>, x: nat, y: nat, d: Direction, from: Cell)
    requires graph.directed && grid.Valid() && x < grid.width && y < grid.height
    requires from == Source(grid, x, y, d)
    modifies graph
    ensures StepState(grid, x, y, d).None? ==> graph.adj == old(graph.adj)
    ensures StepState(grid, x, y, d).Some? ==>
      graph.adj == InsertEdge(old(graph.adj), true, from, StepState(grid, x, y, d).value, StepCost)
  {
    var ahead := Ahead(grid, x, y, d);
    if ahead.Some? {
      var (nx, ny) := ahead.value;
      var next := Kind(grid, nx, ny);
      if next != Wall {
        graph.AddEdgeWeighted(from, Cell(next, Facing(next, d), (nx, ny)), StepCost);
      }
    }
  }

  /** The edges `add_edges` adds for a real heading: two turns of cost 1000
      and at most one step of cost 1, exactly when the cell ahead is inside
      and not a wall. Nothing else changes. */
  lemma AddEdgesMeaning(adj: Adjacency<Cell>, grid: Grid<CellType>, x: nat, y: nat, d: Direction)
    requires grid.Valid() && x < grid.width && y < grid.height && d != Any
    ensures var a := AddEdgesSpec(adj, grid, x, y, d);
      var from := Source(grid, x, y, d);
      var ct := from.cellType;
      && HasEdgeIn(a, from, Cell(ct, TurnRight(d), (x, y))) && a[from][Cell(ct, TurnRight(d), (x, y))] == RotationCost
      && HasEdgeIn(a, from, Cell(ct, TurnLeft(d), (x, y))) && a[from][Cell(ct, TurnLeft(d), (x, y))] == RotationCost
      && (StepState(grid, x, y, d).Some? ==>
            var next := StepState(grid, x, y, d).value;
            HasEdgeIn(a, from, next) && a[from][next] == StepCost)
      && (StepState(grid, x, y, d).Some? <==>
            (Ahead(grid, x, y, d).Some? && Kind(grid, Ahead(grid, x, y, d).value.0, Ahead(grid, x, y, d).value.1) != Wall))
      && (forall u, v :: u != from ==> (HasEdgeIn(a, u, v) <==> HasEdgeIn(adj, u, v)))
  {
    var from := Source(grid, x, y, d);
    var ct := from.cellType;
    var right, left := Cell(ct, TurnRight(d), (x, y)), Cell(ct, TurnLeft(d), (x, y));
    Turns(d);
    AllMove(d);
    var a1 := InsertEdge(adj, true, from, right, RotationCost);
    var a2 := InsertEdge(a1, true, from, left, RotationCost);
    InsertEdgeAdds(a1, true, from, left, RotationCost);
    InsertEdgeKeepsOthers(a1, true, from, left, RotationCost, from, right);
    match StepState(grid, x, y, d)
    case None =>
    case Some(next) =>
      assert next.xy != (x, y);
      InsertEdgeKeepsOthers(a2, true, from, next, StepCost, from, right);
      InsertEdgeKeepsOthers(a2, true, from, next, StepCost, from, left);
  }

  // ---------------------------------------------------------------------
  // The shape of the edges

  /** c is a state at an in-extent cell, with that cell's kind. */
  predicate OnGrid(grid: Grid<CellType>, c: Cell)
    reads grid
  {
    grid.Valid() && c.xy.0 < grid.width && c.xy.1 < grid.height && c.cellType == Kind(grid, c.xy.0, c.xy.1)
  }

  /** The heading from a to a cardinal neighbour b. */
  function Toward(a: (nat, nat), b: (nat, nat)): Direction
  {
    if b.0 == a.0 + 1 then Right
    else if a.0 == b.0 + 1 then Left
    else if b.1 == a.1 + 1 then Down
    else Up
  }

  /** A turn in place: the heading after is a real one, reached by one
      quarter turn from the heading before (which the end records as `Any`). */
  predicate Rotation(grid: Grid<CellType>, u: Cell, v: Cell)
    reads grid
  {
    && OnGrid(grid, u) && u.xy == v.xy && u.cellType == v.cellType && v.direction != Any
    && (u.direction == Facing(u.cellType, TurnLeft(v.direction)) ||
        u.direction == Facing(u.cellType, TurnRight(v.direction)))
  }

  /** A step forward to a cardinal neighbour that is not a wall, with both
      headings the heading of the step (recorded as `Any` at the end). */
  predicate Step(grid: Grid<CellType>, u: Cell, v: Cell)
    reads grid
  {
    && OnGrid(grid, u) && OnGrid(grid, v) && v.cellType != Wall
    && IsCardinalNeighbor(u.xy.0, u.xy.1, v.xy)
    && u.direction == Facing(u.cellType, Toward(u.xy, v.xy))
    && v.direction == Facing(v.cellType, Toward(u.xy, v.xy))
  }

  /** Every edge is a turn of cost 1000 or a step of cost 1. */
  ghost predicate Moves(grid: Grid<CellType>, adj: Adjacency<Cell>)
    reads grid
  {
    forall u, v :: HasEdgeIn(adj, u, v) ==>
      (Rotation(grid, u, v) && adj[u][v] == RotationCost) || (Step(grid, u, v) && adj[u][v] == StepCost)
  }

  /** The step computed by `add_edges` is a step in the above sense. */
  lemma StepStateIsStep(grid: Grid<CellType>, x: nat, y: nat, d: Direction)
    requires grid.Valid() && x < grid.width && y < grid.height && d != Any
    requires StepState(grid, x, y, d).Some?
    ensures Step(grid, Source(grid, x, y, d), StepState(grid, x, y, d).value)
  {
    AllMove(d);
  }

  /** `add_edges` for a real heading keeps every edge a move. */
  lemma AddEdgesKeepsMoves(adj: Adjacency<Cell>, grid: Grid<CellType>, x: nat, y: nat, d: Direction)
    requires grid.Valid() && x < grid.width && y < grid.height && d != Any
    requires Moves(grid, adj)
    ensures Moves(grid, AddEdgesSpec(adj, grid, x, y, d))
  {
    var from := Source(grid, x, y, d);
    var ct := from.cellType;
    var right, left := Cell(ct, TurnRight(d), (x, y)), Cell(ct, TurnLeft(d), (x, y));
    Turns(d);
    assert Rotation(grid, from, right) && Rotation(grid, from, left);
    var a1 := InsertEdge(adj, true, from, right, RotationCost);
    var a2 := InsertEdge(a1, true, from, left, RotationCost);
    InsertEdgesMoves(adj, grid, from, right, RotationCost);
    InsertEdgesMoves(a1, grid, from, left, RotationCost);
    match StepState(grid, x, y, d)
    case None =>
    case Some(next) =>
      StepStateIsStep(grid, x, y, d);
      InsertEdgesMoves(a2, grid, from, next, StepCost);
  }

  /** Inserting one edge that is a move of its cost keeps every edge a move. */
  lemma InsertEdgesMoves(adj: Adjacency<Cell>, grid: Grid<CellType>, from: Cell, to: Cell, w: nat)
    requires Moves(grid, adj)
    requires (Rotation(grid, from, to) && w == RotationCost) || (Step(grid, from, to) && w == StepCost)
    ensures Moves(grid, InsertEdge(adj, true, from, to, w))
  {
    var a := InsertEdge(adj, true, from, to, w);
    forall u, v | HasEdgeIn(a, u, v)
      ensures (Rotation(grid, u, v) && a[u][v] == RotationCost) || (Step(grid, u, v) && a[u][v] == StepCost)
    {
      if (u, v) != (from, to) {
        InsertEdgeKeepsOthers(adj, true, from, to, w, u, v);
      } else {
        InsertEdgeAdds(adj, true, from, to, w);
      }
    }
  }

  /** What the moves imply: costs are positive, an end state always
      records `Any` when it is left and when it is stepped into (a turn out
      of the end records a real heading), and no edge enters a wall by a
      step or leaves the grid. */
  lemma MovesFacts(grid: Grid<CellType>, adj: Adjacency<Cell>, u: Cell, v: Cell)
    requires Moves(grid, adj) && HasEdgeIn(adj, u, v)
    ensures adj[u][v] > 0
    ensures u.cellType == End ==> u.direction == Any
    ensures v.xy != u.xy ==> v.cellType != Wall && adj[u][v] == StepCost && (v.cellType == End ==> v.direction == Any)
    ensures v.xy == u.xy ==> adj[u][v] == RotationCost && v.cellType == u.cellType && v.direction != Any
    ensures OnGrid(grid, u)
  {
  }

  // ---------------------------------------------------------------------
  // The whole graph

  /** `iproduct!(0..width, 0..height, Direction::all())`. */
  function Triples(width: nat, height: nat): (r: seq<((nat, nat), Direction)>)
    ensures forall t :: t in r <==> t.0.0 < width && t.0.1 < height && t.1 in AllDirections
  {
    Product(Product(Range(width), Range(height)), AllDirections)
  }

  /** The edge map after folding `add_edges` over ts. */
  function Folded(grid: Grid<CellType>, ts: seq<((nat, nat), Direction)>): Adjacency<Cell>
    reads grid
    requires grid.Valid() && forall t :: t in ts ==> t.0.0 < grid.width && t.0.1 < grid.height
  {
    if ts == [] then map[]
    else
      var n := |ts| - 1;
      assert forall t :: t in ts[..n] ==> t in ts;
      AddEdgesSpec(Folded(grid, ts[..n]), grid, ts[n].0.0, ts[n].0.1, ts[n].1)
  }

  /** The graph `solver1` and `solver2` build. */
  function Built(grid: Grid<CellType>): Adjacency<Cell>
    reads grid
    requires grid.Valid()
  {
    Folded(grid, Triples(grid.width, grid.height))
  }

  lemma {:induction false} FoldedMoves(grid: Grid<CellType>, ts: seq<((nat, nat), Direction)>)
    requires grid.Valid() && forall t :: t in ts ==> t.0.0 < grid.width && t.0.1 < grid.height && t.1 in AllDirections
    ensures Moves(grid, Folded(grid, ts))
  {
    if ts != [] {
      var n := |ts| - 1;
      assert forall t :: t in ts[..n] ==> t in ts;
      FoldedMoves(grid, ts[..n]);
      assert ts[n] in ts;
      AddEdgesKeepsMoves(Folded(grid, ts[..n]), grid, ts[n].0.0, ts[n].0.1, ts[n].1);
    }
  }

  /** Every edge of the built graph is a move, so its costs are positive. */
  lemma BuiltMoves(grid: Grid<CellType>)
    requires grid.Valid()
    ensures Moves(grid, Built(grid))
    ensures PositiveWeights(Built(grid))
  {
    FoldedMoves(grid, Triples(grid.width, grid.height));
    forall u, v | HasEdgeIn(Built(grid), u, v) ensures Built(grid)[u][v] > 0 {
      MovesFacts(grid, Built(grid), u, v);
    }
  }

  /** The fold of `solver1` and `solver2`. */
  method BuildGraph(grid: Grid<CellType>) returns (graph: Graph<Cell>)
    requires grid.Valid()
    ensures fresh(graph) && graph.directed && graph.adj == Built(grid)
  {
    graph := new Graph.Directed();
    var ts := Triples(grid.width, grid.height);
    for k := 0 to |ts|
      invariant fresh(graph) && graph.directed
      invariant graph.adj == Folded(grid, ts[..k])
    {
      FoldedStep(grid, ts, k);
      AddEdges(graph, grid, ts[k].0.0, ts[k].0.1, ts[k].1);
    }
    assert ts[..|ts|] == ts;
  }

  /** Folding one more triple is one more `add_edges`. */
  lemma FoldedStep(grid: Grid<CellType>, ts: seq<((nat, nat), Direction)>, k: nat)
    requires grid.Valid() && k < |ts| && forall t :: t in ts ==> t.0.0 < grid.width && t.0.1 < grid.height
    ensures ts[k].0.0 < grid.width && ts[k].0.1 < grid.height
    ensures forall t :: t in ts[..k] ==> t.0.0 < grid.width && t.0.1 < grid.height
    ensures Folded(grid, ts[..k + 1]) == AddEdgesSpec(Folded(grid, ts[..k]), grid, ts[k].0.0, ts[k].0.1, ts[k].1)
  {
    assert ts[k] in ts;
    assert ts[..k + 1][..k] == ts[..k];
    assert forall t :: t in ts[..k] ==> t in ts;
  }

  // ---------------------------------------------------------------------
  // The derived `Ord` of states, which breaks distance ties in the heap

  function CellTypeRank(c: CellType): nat
  {
    match c
    case Empty => 0
    case Start => 1
    case End => 2
    case Wall => 3
  }

  function DirectionRank(d: Direction): nat
  {
    match d
    case Left => 0
    case Right => 1
    case Up => 2
    case Down => 3
    case Any => 4
  }

  /** Lexicographic on kind, heading, x and y, in declaration order. */
  predicate CellLess(a: Cell, b: Cell)
  {
    var (ka, kb) := (CellTypeRank(a.cellType), CellTypeRank(b.cellType));
    var (da, db) := (DirectionRank(a.direction), DirectionRank(b.direction));
    ka < kb || (ka == kb && (da < db || (da == db &&
      (a.xy.0 < b.xy.0 || (a.xy.0 == b.xy.0 && a.xy.1 < b.xy.1)))))
  }

  lemma CellLessTotal()
    ensures StrictTotalOrder(CellLess)
  {
    forall a: Cell, b: Cell | a != b ensures CellLess(a, b) || CellLess(b, a) {
      assert CellTypeRank(a.cellType) == CellTypeRank(b.cellType) ==> a.cellType == b.cellType;
      assert DirectionRank(a.direction) == DirectionRank(b.direction) ==> a.direction == b.direction;
    }
  }

  // ---------------------------------------------------------------------
  // Solvers

  datatype Failure = NotFound | NoPath

  /** The state the search starts from: the start cell, facing right. */
  function StartState(xy: (nat, nat)): Cell { Cell(Start, StartingDirection, xy) }

  /** The state the search ends in: the end cell, with heading `Any`. */
  function EndState(xy: (nat, nat)): Cell { Cell(End, Any, xy) }

  /** p is a path from s to e no other such path undercuts. */
  ghost predicate Lightest(adj: Adjacency<Cell>, p: seq<Cell>, s: Cell, e: Cell)
  {
    PathFromTo(adj, p, s, e) && forall q :: PathFromTo(adj, q, s, e) ==> PathWeight(adj, p) <= PathWeight(adj, q)
  }

  /** `solver1` on the parsed grid: the weight of a cheapest path from the
      first start cell facing right to the first end cell. A missing start
      or end is `NotFound`; an unreachable end, where the Rust code's
      `unwrap` panics, is `NoPath`. */
  method Solver1(grid: Grid<CellType>) returns (r: Result<nat, Failure>)
    requires grid.Valid()
    ensures FindThing(grid, Start).Err? || FindThing(grid, End).Err? <==> r == Err(NotFound)
    ensures r.Ok? ==> exists p :: Lightest(Built(grid), p, StartState(FindThing(grid, Start).value),
                                             EndState(FindThing(grid, End).value)) &&
                                  PathWeight(Built(grid), p) == r.value
    ensures r == Err(NoPath) ==> forall p :: IsPath(Built(grid), p) && p[0] == StartState(FindThing(grid, Start).value) ==>
                                   p[|p| - 1] != EndState(FindThing(grid, End).value)
  {
    var g := BuildGraph(grid);
    var startXy := FindThing(grid, Start);
    if startXy.Err? {
      return Err(NotFound);
    }
    var endXy := FindThing(grid, End);
    if endXy.Err? {
      return Err(NotFound);
    }
    var start, end := StartState(startXy.value), EndState(endXy.value);
    CellLessTotal();
    var dijkstra := new Dijkstra.New(g, start, CellLess);
    var found := dijkstra.ShortestPath(end);
    if found.None? {
      return Err(NoPath);
    }
    assert Lightest(Built(grid), found.value.0, start, end);
    r := Ok(found.value.1);
  }

  /** The positions of a sequence of states. */
  function Positions(cells: seq<Cell>): (r: seq<(nat, nat)>)
    ensures |r| == |cells| && forall k :: 0 <= k < |cells| ==> r[k] == cells[k].xy
  {
    if cells == [] then [] else [cells[0].xy] + Positions(cells[1..])
  }

  /** xy lies on some cheapest path from s to e. */
  ghost predicate OnLightestPath(adj: Adjacency<Cell>, s: Cell, e: Cell, xy: (nat, nat))
  {
    exists p: seq<Cell>, k: int :: Lightest(adj, p, s, e) && 0 <= k < |p| && p[k].xy == xy
  }

  /** n is the number of positions on some cheapest path from s to e. */
  ghost predicate TileCount(adj: Adjacency<Cell>, s: Cell, e: Cell, n: nat)
  {
    exists tiles: set<(nat, nat)> :: |tiles| == n && forall xy :: xy in tiles <==> OnLightestPath(adj, s, e, xy)
  }

  /** `solver2` on the parsed grid: the number of distinct positions that
      lie on at least one cheapest path from start to end, with the failures
      of `solver1`. */
  method Solver2(grid: Grid<CellType>) returns (r: Result<nat, Failure>)
    requires grid.Valid()
    ensures FindThing(grid, Start).Err? || FindThing(grid, End).Err? <==> r == Err(NotFound)
    ensures r.Ok? ==> TileCount(Built(grid), StartState(FindThing(grid, Start).value),
                                EndState(FindThing(grid, End).value), r.value)
    ensures r == Err(NoPath) ==> forall p :: IsPath(Built(grid), p) && p[0] == StartState(FindThing(grid, Start).value) ==>
                                   p[|p| - 1] != EndState(FindThing(grid, End).value)
  {
    var g := BuildGraph(grid);
    var startXy := FindThing(grid, Start);
    if startXy.Err? {
      return Err(NotFound);
    }
    var endXy := FindThing(grid, End);
    if endXy.Err? {
      return Err(NotFound);
    }
    var start, end := StartState(startXy.value), EndState(endXy.value);
    CellLessTotal();
    BuiltMoves(grid);
    var dijkstra := new Dijkstra.New(g, start, CellLess);
    var found := dijkstra.AllShortestPaths(end);
    if found.None? {
      return Err(NoPath);
    }
    var n := CountTiles(Built(grid), start, end, found.value.0, found.value.1);
    r := Ok(n);
  }

  /** The last lines of `solver2`: the distinct positions of all cheapest
      paths, counted. */
  method CountTiles(ghost adj: Adjacency<Cell>, s: Cell, e: Cell, paths: seq<seq<Cell>>, w: nat) returns (n: nat)
    requires forall p :: p in paths ==> PathFromTo(adj, p, s, e) && PathWeight(adj, p) == w
    requires forall p :: PathFromTo(adj, p, s, e) ==> w <= PathWeight(adj, p)
    requires forall p :: PathFromTo(adj, p, s, e) && PathWeight(adj, p) == w ==> p in paths
    requires |paths| > 0
    ensures TileCount(adj, s, e, n)
  {
    var xys := Positions(Flatten(paths));
    var tiles := Unique(xys);
    NoDuplicatesCard(tiles);
    TilesOnLightestPaths(adj, s, e, paths, w, xys);
    assert forall xy :: xy in Elems(tiles) <==> OnLightestPath(adj, s, e, xy);
    n := |tiles|;
  }

  /** The positions of all cheapest paths are those on some cheapest path. */
  lemma TilesOnLightestPaths(adj: Adjacency<Cell>, s: Cell, e: Cell, paths: seq<seq<Cell>>, w: nat, xys: seq<(nat, nat)>)
    requires forall p :: p in paths ==> PathFromTo(adj, p, s, e) && PathWeight(adj, p) == w
    requires forall p :: PathFromTo(adj, p, s, e) ==> w <= PathWeight(adj, p)
    requires forall p :: PathFromTo(adj, p, s, e) && PathWeight(adj, p) == w ==> p in paths
    requires |paths| > 0 && xys == Positions(Flatten(paths))
    ensures forall xy :: xy in xys <==> OnLightestPath(adj, s, e, xy)
  {
    forall xy ensures xy in xys <==> OnLightestPath(adj, s, e, xy) {
      if xy in xys {
        var i :| 0 <= i < |xys| && xys[i] == xy;
        var c := Flatten(paths)[i];
        assert c in Flatten(paths);
        var j :| 0 <= j < |paths| && c in paths[j];
        var k :| 0 <= k < |paths[j]| && paths[j][k] == c;
        assert paths[j] in paths;
        assert Lightest(adj, paths[j], s, e);
      }
      if OnLightestPath(adj, s, e, xy) {
        var p: seq<Cell>, k: int :| Lightest(adj, p, s, e) && 0 <= k < |p| && p[k].xy == xy;
        assert paths[0] in paths;
        assert p in paths;
        var j :| 0 <= j < |paths| && paths[j] == p;
        assert p[k] in Flatten(paths);
        var i :| 0 <= i < |Flatten(paths)| && Flatten(paths)[i] == p[k];
        assert xys[i] == xy;
      }
    }
  }
}
