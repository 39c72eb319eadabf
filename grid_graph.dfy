/** The grid-to-graph construction shared by the maze puzzles: every cell
    that is not of the blocking kind becomes a node carrying its position and
    its value, with a directed edge of weight one to each cardinal neighbour
    that is not blocked either. The puzzles walk the cells with the
    `iter_items` and `idx_to_xy` helpers, which are not part of the shown
    grid library; they are modelled here as the row-major walk they name. */
module GridGraph {
  import opened Wrappers
  import opened Util
  import opened GridLib
  import opened GraphLib

  /** A graph node: a cell position and the value found there. */
  datatype Node<C> = Node(x: nat, y: nat, cell: C)

  /** n names an in-extent cell, carries that cell's value, and the value is
      not the blocking one. */
  predicate Open<C(==,!new)>(grid: Grid<C>, blocked: C, n: Node<C>)
    reads grid
  {
    n.x < grid.width && n.y < grid.height && grid.Offset(n.x, n.y) < |grid.data| &&
    n.cell == grid.At(n.x, n.y) && n.cell != blocked
  }

  /** The edges the construction adds: between open cells one step apart. */
  predicate Linked<C(==,!new)>(grid: Grid<C>, blocked: C, u: Node<C>, v: Node<C>)
    reads grid
  {
    Open(grid, blocked, u) && Open(grid, blocked, v) && IsCardinalNeighbor(u.x, u.y, (v.x, v.y))
  }

  /** The adjacency map the construction produces: exactly the links, all of
      weight one, and a key for each node with at least one link. */
  ghost predicate GraphOf<C(!new)>(grid: Grid<C>, blocked: C, adj: Adjacency<Node<C>>)
    reads grid
  {
    && (forall u, v :: HasEdgeIn(adj, u, v) <==> Linked(grid, blocked, u, v))
    && (forall u, v :: HasEdgeIn(adj, u, v) ==> adj[u][v] == 1)
    && (forall u :: u in adj ==> adj[u] != map[])
  }

  /** Links go both ways, and a blocked cell has none. */
  lemma LinkedSymmetric<C(!new)>(grid: Grid<C>, blocked: C, u: Node<C>, v: Node<C>)
    requires Linked(grid, blocked, u, v)
    ensures Linked(grid, blocked, v, u) && u.cell != blocked && v.cell != blocked
    ensures Abs(u.x - v.x) + Abs(u.y - v.y) == 1
  {
    assert Abs(u.x - v.x) == Abs(v.x - u.x) && Abs(u.y - v.y) == Abs(v.y - u.y);
  }

  /** In the graph of a grid, the nodes with a key are those with a link. */
  lemma GraphOfKeys<C(!new)>(grid: Grid<C>, blocked: C, adj: Adjacency<Node<C>>, u: Node<C>)
    requires GraphOf(grid, blocked, adj)
    ensures u in adj <==> exists v :: Linked(grid, blocked, u, v)
  {
    if u in adj {
      var v :| v in adj[u];
      assert HasEdgeIn(adj, u, v);
    }
  }

  /** `grid_to_graph`: a directed graph; for each open cell in row-major
      order, an edge to each open cardinal neighbour. */
  method Build<C(==,!new)>(grid: Grid<C>, blocked: C) returns (graph: Graph<Node<C>>)
    requires grid.Valid()
    ensures fresh(graph) && graph.directed
    ensures GraphOf(grid, blocked, graph.adj)
  {
    graph := new Graph.Directed();
    for k := 0 to |grid.data|
      invariant fresh(graph) && graph.directed
      invariant forall u, v :: HasEdgeIn(graph.adj, u, v) <==>
        Linked(grid, blocked, u, v) && grid.Offset(u.x, u.y) < k
      invariant forall u, v :: HasEdgeIn(graph.adj, u, v) ==> graph.adj[u][v] == 1
      invariant forall u :: u in graph.adj ==> graph.adj[u] != map[]
    {
      MulIsProduct(grid.height, grid.width);
      var (x, y) := IdxToXy(grid.width, k);
      IdxToXyInGrid(grid.width, grid.height, k);
      var value := grid.data[k];
      assert grid.At(x, y) == value;
      if value == blocked {
        continue;
      }
      var from := Node(x, y, value);
      var neighbors := grid.CardinalNeighbors(x, y);
      AddLinks(grid, blocked, graph, from, k, neighbors);
      forall u | Open(grid, blocked, u) && grid.Offset(u.x, u.y) == k ensures u == from {
        OffsetInjective(u.x, u.y, x, y, grid.width);
      }
    }
  }

  /** The inner loop of `grid_to_graph` for the open cell `from` at offset k:
      one edge to each open cell among its in-extent cardinal neighbours. */
  method AddLinks<C(==,!new)>(grid: Grid<C>, blocked: C, graph: Graph<Node<C>>, from: Node<C>, k: nat,
                         neighbors: seq<(nat, nat)>)
    requires grid.Valid() && Open(grid, blocked, from) && grid.Offset(from.x, from.y) == k
    requires graph.directed
    requires forall p :: p in neighbors <==> (p.0 < grid.width && p.1 < grid.height && IsCardinalNeighbor(from.x, from.y, p))
    requires forall u, v :: HasEdgeIn(graph.adj, u, v) <==> Linked(grid, blocked, u, v) && grid.Offset(u.x, u.y) < k
    requires forall u, v :: HasEdgeIn(graph.adj, u, v) ==> graph.adj[u][v] == 1
    requires forall u :: u in graph.adj ==> graph.adj[u] != map[]
    modifies graph
    ensures forall u, v :: HasEdgeIn(graph.adj, u, v) <==>
      Linked(grid, blocked, u, v) && (grid.Offset(u.x, u.y) < k || u == from)
    ensures forall u, v :: HasEdgeIn(graph.adj, u, v) ==> graph.adj[u][v] == 1
    ensures forall u :: u in graph.adj ==> graph.adj[u] != map[]
  {
    for i := 0 to |neighbors|
      invariant forall u, v :: HasEdgeIn(graph.adj, u, v) <==>
        Linked(grid, blocked, u, v) && (grid.Offset(u.x, u.y) < k || (u == from && (v.x, v.y) in neighbors[..i]))
      invariant forall u, v :: HasEdgeIn(graph.adj, u, v) ==> graph.adj[u][v] == 1
      invariant forall u :: u in graph.adj ==> graph.adj[u] != map[]
    {
      var (xn, yn) := neighbors[i];
      assert (xn, yn) in neighbors;
      grid.InExtentsHasOffset(xn, yn);
      var neighbor := grid.Get(xn, yn);
      assert neighbors[..i + 1] == neighbors[..i] + [(xn, yn)];
      if neighbor.value != blocked {
        var to := Node(xn, yn, neighbor.value);
        ghost var before := graph.adj;
        graph.AddEdge(from, to);
        forall u, v | (u, v) != (from, to)
          ensures (HasEdgeIn(graph.adj, u, v) <==> HasEdgeIn(before, u, v))
          ensures HasEdgeIn(graph.adj, u, v) ==> graph.adj[u][v] == before[u][v]
        {
          InsertEdgeKeepsOthers(before, true, from, to, 1, u, v);
        }
      } else {
        forall v | Open(grid, blocked, v) ensures (v.x, v.y) != (xn, yn) {
        }
      }
    }
  }

  /** The index of the first occurrence of q, if any. */
  function FirstIndex<C(==,!new)>(data: seq<C>, q: C): (r: Option<nat>)
    ensures r.None? <==> q !in data
    ensures r.Some? ==> r.value < |data| && data[r.value] == q
    ensures r.Some? ==> forall k :: 0 <= k < r.value ==> data[k] != q
  {
    if data == [] then None
    else if data[0] == q then Some(0)
    else
      match FirstIndex(data[1..], q)
      case None => None
      case Some(k) => Some(k + 1)
  }

  /** `find_thing`: the position of the first cell, in row-major order,
      holding `query`; the error "Not found" when there is none. */
  function FindThing<C(==,!new)>(grid: Grid<C>, query: C): (r: Result<(nat, nat), string>)
    reads grid
    requires grid.Valid()
    ensures r.Err? <==> query !in grid.data
    ensures r.Err? ==> r.error == "Not found"
    ensures r.Ok? ==> var (x, y) := r.value;
      x < grid.width && y < grid.height && grid.Offset(x, y) < |grid.data| && grid.At(x, y) == query &&
      forall k :: 0 <= k < grid.Offset(x, y) ==> grid.data[k] != query
  {
    match FirstIndex(grid.data, query)
    case None => Err("Not found")
    case Some(k) =>
      MulIsProduct(grid.height, grid.width);
      IdxToXyInGrid(grid.width, grid.height, k);
      Ok(IdxToXy(grid.width, k))
  }
}
