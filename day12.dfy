/** Day 12: the garden map, its plant regions as connected components of a
    graph, and the two fence prices (perimeter, and number of sides). */
module Day12 {
  import opened Wrappers
  import opened Util
  import opened GridLib
  import opened GraphLib

  /** The filler `graph_to_grid` writes around and between the plants. */
  const Blank: char := '.'

  /** The usize::MAX that the minimum folds start from (64-bit usize). */
  const UsizeMax: nat := 0xFFFF_FFFF_FFFF_FFFF

  datatype Plant = Plant(xy: (nat, nat), plantType: char)

  // ---------------------------------------------------------------------
  // Parsing

  /** The map: `lines` stands for the (trimmed) input's lines. */
  method GridFromStr(lines: seq<string>) returns (plants: Grid<char>)
    ensures lines == [] ==> plants.width == 0 && plants.height == 0 && plants.data == []
    ensures lines != [] ==> (
      && plants.width == |lines[0]| && plants.height == |lines|
      && plants.data == Flatten(lines))
  {
    if lines == [] {
      plants := new Grid.New(0, 0, Blank);
      assert |plants.data| == 0;
      return;
    }
    plants := new Grid.FromParts(Flatten(lines), |lines[0]|, |lines|);
  }

  // ---------------------------------------------------------------------
  // The garden as a graph

  /** u names a cell of the map and the plant growing there. */
  predicate InGarden(cells: seq<char>, w: nat, h: nat, u: Plant)
  {
    u.xy.0 < w && u.xy.1 < h && Mul(u.xy.1, w) + u.xy.0 < |cells|
    && u.plantType == cells[Mul(u.xy.1, w) + u.xy.0]
  }

  /** Neighbouring cells with the same plant share a region edge. */
  predicate Adjoining(cells: seq<char>, w: nat, h: nat, u: Plant, v: Plant)
  {
    InGarden(cells, w, h, u) && InGarden(cells, w, h, v)
    && IsCardinalNeighbor(u.xy.0, u.xy.1, v.xy) && u.plantType == v.plantType
  }

  /** The graph `garden_as_graph` builds: a node per cell, a unit edge
      between every two adjoining cells. */
  ghost predicate GardenGraph(cells: seq<char>, w: nat, h: nat, adj: Adjacency<Plant>)
  {
    && (forall u :: u in adj <==> InGarden(cells, w, h, u))
    && (forall u, v :: HasEdgeIn(adj, u, v) <==> Adjoining(cells, w, h, u, v))
    && (forall u, v :: HasEdgeIn(adj, u, v) ==> adj[u][v] == 1)
  }

  /** The edges added so far: around every finished cell, and from `from`
      to the neighbours in `seen`. */
  ghost predicate EdgesSoFar(cells: seq<char>, w: nat, h: nat, adj: Adjacency<Plant>,
                             done: seq<(nat, nat)>, from: Plant, seen: seq<(nat, nat)>)
  {
    && (forall u, v :: HasEdgeIn(adj, u, v) <==> (
        Adjoining(cells, w, h, u, v) &&
        (u.xy in done || v.xy in done || (u == from && v.xy in seen) || (v == from && u.xy in seen))))
    && (forall u, v :: HasEdgeIn(adj, u, v) ==> adj[u][v] == 1)
  }

  /** Adding the edge from `from` to the same-plant neighbour at `edge`. */
  lemma AddEdgeKeeps(cells: seq<char>, w: nat, h: nat, before: Adjacency<Plant>, done: seq<(nat, nat)>,
                     from: Plant, seen: seq<(nat, nat)>, edge: (nat, nat))
    requires EdgesSoFar(cells, w, h, before, done, from, seen)
    requires Adjoining(cells, w, h, from, Plant(edge, from.plantType))
    requires forall u :: u in before ==> InGarden(cells, w, h, u)
    ensures var after := InsertEdge(before, false, from, Plant(edge, from.plantType), 1);
      && EdgesSoFar(cells, w, h, after, done, from, seen + [edge])
      && before.Keys <= after.Keys && forall u :: u in after ==> InGarden(cells, w, h, u)
  {
    var to := Plant(edge, from.plantType);
    var after := InsertEdge(before, false, from, to, 1);
    InsertEdgeAdds(before, false, from, to, 1);
    assert after.Keys == before.Keys + {from, to};
    forall u, v ensures (HasEdgeIn(after, u, v) <==> (
      Adjoining(cells, w, h, u, v) &&
      (u.xy in done || v.xy in done || (u == from && v.xy in seen + [edge]) || (v == from && u.xy in seen + [edge]))))
      && (HasEdgeIn(after, u, v) ==> after[u][v] == 1)
    {
      if (u, v) != (from, to) && (u, v) != (to, from) {
        InsertEdgeKeepsOthers(before, false, from, to, 1, u, v);
      }
    }
  }

  /** Skipping a neighbour with another plant adds no edge it would need. */
  lemma SkipKeeps(cells: seq<char>, w: nat, h: nat, adj: Adjacency<Plant>, done: seq<(nat, nat)>,
                  from: Plant, seen: seq<(nat, nat)>, edge: (nat, nat))
    requires EdgesSoFar(cells, w, h, adj, done, from, seen)
    requires edge.0 < w && edge.1 < h && Mul(edge.1, w) + edge.0 < |cells|
    requires cells[Mul(edge.1, w) + edge.0] != from.plantType
    ensures EdgesSoFar(cells, w, h, adj, done, from, seen + [edge])
  {
  }

  /** One step of the inner loop of `garden_as_graph`: the edge from `from`
      to the neighbour at `edge`, when it has the same plant. */
  method AddIfSamePlant(plants: Grid<char>, graph: Graph<Plant>, from: Plant, edge: (nat, nat),
                        ghost done: seq<(nat, nat)>, ghost seen: seq<(nat, nat)>)
    requires plants.Valid() && graph.Valid() && !graph.directed
    requires InGarden(plants.data, plants.width, plants.height, from)
    requires edge.0 < plants.width && edge.1 < plants.height && IsCardinalNeighbor(from.xy.0, from.xy.1, edge)
    requires forall u :: u in graph.adj ==> InGarden(plants.data, plants.width, plants.height, u)
    requires EdgesSoFar(plants.data, plants.width, plants.height, graph.adj, done, from, seen)
    modifies graph
    ensures graph.Valid() && old(graph.adj).Keys <= graph.adj.Keys
    ensures forall u :: u in graph.adj ==> InGarden(plants.data, plants.width, plants.height, u)
    ensures EdgesSoFar(plants.data, plants.width, plants.height, graph.adj, done, from, seen + [edge])
  {
    ghost var cells, w, h := plants.data, plants.width, plants.height;
    plants.InExtentsHasOffset(edge.0, edge.1);
    var plantType := plants.At(edge.0, edge.1);
    ghost var before := graph.adj;
    if plants.At(from.xy.0, from.xy.1) == plantType {
      var to := Plant(edge, plantType);
      graph.AddEdge(from, to);
      assert graph.adj == InsertEdge(before, false, from, Plant(edge, from.plantType), 1);
      AddEdgeKeeps(cells, w, h, before, done, from, seen, edge);
    } else {
      SkipKeeps(cells, w, h, before, done, from, seen, edge);
    }
  }

  /** The inner loop of `garden_as_graph`: an edge from `from` to every
      neighbour with the same plant. */
  method AddSamePlant(plants: Grid<char>, graph: Graph<Plant>, from: Plant, edges: seq<(nat, nat)>,
                      ghost done: seq<(nat, nat)>)
    requires plants.Valid() && graph.Valid() && !graph.directed
    requires InGarden(plants.data, plants.width, plants.height, from)
    requires forall p :: p in edges ==> p.0 < plants.width && p.1 < plants.height && IsCardinalNeighbor(from.xy.0, from.xy.1, p)
    requires forall u :: u in graph.adj ==> InGarden(plants.data, plants.width, plants.height, u)
    requires EdgesSoFar(plants.data, plants.width, plants.height, graph.adj, done, from, [])
    modifies graph
    ensures graph.Valid() && old(graph.adj).Keys <= graph.adj.Keys
    ensures forall u :: u in graph.adj ==> InGarden(plants.data, plants.width, plants.height, u)
    ensures EdgesSoFar(plants.data, plants.width, plants.height, graph.adj, done, from, edges)
  {
    ghost var cells, w, h := plants.data, plants.width, plants.height;
    for i := 0 to |edges|
      invariant graph.Valid() && old(graph.adj).Keys <= graph.adj.Keys
      invariant forall u :: u in graph.adj ==> InGarden(cells, w, h, u)
      invariant EdgesSoFar(cells, w, h, graph.adj, done, from, edges[..i])
    {
      assert edges[i] in edges;
      assert edges[..i + 1] == edges[..i] + [edges[i]];
      AddIfSamePlant(plants, graph, from, edges[i], done, edges[..i]);
    }
    assert edges[..|edges|] == edges;
  }

  /** A fresh node with no edges leaves the edges as they were. */
  lemma AddNodeKeeps(cells: seq<char>, w: nat, h: nat, before: Adjacency<Plant>, done: seq<(nat, nat)>,
                     other: Plant, from: Plant)
    requires EdgesSoFar(cells, w, h, before, done, other, [])
    ensures EdgesSoFar(cells, w, h, if from in before then before else before[from := map[]], done, from, [])
  {
  }

  /** Adding a cell of the garden as a node keeps every node in the garden. */
  lemma AddedInGarden(cells: seq<char>, w: nat, h: nat, before: Adjacency<Plant>, after: Adjacency<Plant>, from: Plant)
    requires forall u :: u in before ==> InGarden(cells, w, h, u)
    requires InGarden(cells, w, h, from) && after == if from in before then before else before[from := map[]]
    ensures forall u :: u in after ==> InGarden(cells, w, h, u)
  {
  }

  /** Once every neighbour of `node` is seen, `node` counts as done. */
  lemma NodeDone(cells: seq<char>, w: nat, h: nat, adj: Adjacency<Plant>, done: seq<(nat, nat)>,
                 from: Plant, edges: seq<(nat, nat)>, other: Plant)
    requires InGarden(cells, w, h, from)
    requires forall p: (nat, nat) :: p.0 < w && p.1 < h && IsCardinalNeighbor(from.xy.0, from.xy.1, p) ==> p in edges
    requires EdgesSoFar(cells, w, h, adj, done, from, edges)
    ensures EdgesSoFar(cells, w, h, adj, done + [from.xy], other, [])
  {
    var done' := done + [from.xy];
    assert forall z :: z in done' <==> z in done || z == from.xy;
    forall u, v ensures HasEdgeIn(adj, u, v) <==> (
      Adjoining(cells, w, h, u, v) && (u.xy in done' || v.xy in done'))
    {
      if Adjoining(cells, w, h, u, v) {
        assert u.xy == from.xy ==> u == from;
        assert v.xy == from.xy ==> v == from;
      }
    }
  }

  /** The nodes added so far: cells of the map, among them every cell in `done`. */
  ghost predicate KeysSoFar(cells: seq<char>, w: nat, h: nat, keys: set<Plant>, done: seq<(nat, nat)>)
  {
    && (forall u :: u in keys ==> InGarden(cells, w, h, u))
    && (forall u :: InGarden(cells, w, h, u) && u.xy in done ==> u in keys)
  }

  lemma KeysStep(cells: seq<char>, w: nat, h: nat, before: set<Plant>, after: set<Plant>,
                 done: seq<(nat, nat)>, from: Plant)
    requires KeysSoFar(cells, w, h, before, done) && InGarden(cells, w, h, from)
    requires before <= after && from in after
    requires forall u :: u in after ==> InGarden(cells, w, h, u)
    ensures KeysSoFar(cells, w, h, after, done + [from.xy])
  {
  }

  /** Every cell enumerated: the whole garden graph. */
  lemma GardenDone(cells: seq<char>, w: nat, h: nat, adj: Adjacency<Plant>, order: seq<(nat, nat)>, other: Plant)
    requires forall p: (nat, nat) :: p.0 < w && p.1 < h ==> p in order
    requires KeysSoFar(cells, w, h, adj.Keys, order)
    requires EdgesSoFar(cells, w, h, adj, order, other, [])
    ensures GardenGraph(cells, w, h, adj)
  {
  }

  /** One pass of `garden_as_graph`'s loop: the cell's node, then its edges
      to the same-plant neighbours. */
  method AddCell(plants: Grid<char>, graph: Graph<Plant>, node: (nat, nat), ghost done: seq<(nat, nat)>, ghost other: Plant)
    requires plants.Valid() && graph.Valid() && !graph.directed
    requires node.0 < plants.width && node.1 < plants.height
    requires KeysSoFar(plants.data, plants.width, plants.height, graph.adj.Keys, done)
    requires EdgesSoFar(plants.data, plants.width, plants.height, graph.adj, done, other, [])
    modifies graph
    ensures graph.Valid()
    ensures KeysSoFar(plants.data, plants.width, plants.height, graph.adj.Keys, done + [node])
    ensures EdgesSoFar(plants.data, plants.width, plants.height, graph.adj, done + [node], other, [])
  {
    ghost var cells, w, h := plants.data, plants.width, plants.height;
    plants.InExtentsHasOffset(node.0, node.1);
    var from := Plant(node, plants.At(node.0, node.1));
    var edges := plants.CardinalNeighbors(node.0, node.1);
    ghost var before := graph.adj.Keys;
    ghost var adj0 := graph.adj;
    AddNodeKeeps(cells, w, h, adj0, done, other, from);
    graph.AddNode(from);
    assert graph.adj == if from in adj0 then adj0 else adj0[from := map[]];
    assert InGarden(cells, w, h, from);
    AddedInGarden(cells, w, h, adj0, graph.adj, from);
    AddSamePlant(plants, graph, from, edges, done);
    NodeDone(cells, w, h, graph.adj, done, from, edges, other);
    KeysStep(cells, w, h, before, graph.adj.Keys, done, from);
  }

  /** `garden_as_graph`, including its `iproduct!(0..height, 0..width)`
      enumeration: the cells visited are (x, y) with x < height and
      y < width, so the map must be square for every cell to be a node. */
  method GardenAsGraph(plants: Grid<char>) returns (graph: Graph<Plant>)
    requires plants.Valid() && plants.width == plants.height
    ensures fresh(graph) && !graph.directed && graph.Valid()
    ensures GardenGraph(plants.data, plants.width, plants.height, graph.adj)
  {
    ghost var cells, w, h := plants.data, plants.width, plants.height;
    ghost var other := Plant((0, 0), Blank);
    var order := Product(Range(plants.height), Range(plants.width));
    assert forall p: (nat, nat) :: p.0 < w && p.1 < h ==> p in order by {
      forall p: (nat, nat) | p.0 < w && p.1 < h ensures p in order {
        assert p.0 in Range(h) && p.1 in Range(w);
      }
    }
    graph := new Graph.Undirected();
    for k := 0 to |order|
      invariant fresh(graph) && !graph.directed && graph.Valid()
      invariant KeysSoFar(cells, w, h, graph.adj.Keys, order[..k])
      invariant EdgesSoFar(cells, w, h, graph.adj, order[..k], other, [])
    {
      var node := order[k];
      assert order[..k + 1] == order[..k] + [node];
      assert node.0 in Range(h) && node.1 in Range(w) by {
        assert node in order;
      }
      AddCell(plants, graph, node, order[..k], other);
    }
    assert order[..|order|] == order;
    assert plants.data == cells;
    GardenDone(plants.data, plants.width, plants.height, graph.adj, order, other);
  }

  /** The derived `Ord` of `Plant`: by position (x, then y), then by plant. */
  predicate PlantLess(a: Plant, b: Plant)
  {
    a.xy.0 < b.xy.0 || (a.xy.0 == b.xy.0 && (a.xy.1 < b.xy.1 || (a.xy.1 == b.xy.1 && a.plantType < b.plantType)))
  }

  lemma PlantLessTotal()
    ensures StrictTotalOrder(PlantLess)
  {
  }

  // ---------------------------------------------------------------------
  // Part one: the perimeter

  /** Every edge of the map, as (u, v) pairs: each shared side twice. */
  ghost function Arcs(adj: Adjacency<Plant>, A: set<Plant>): set<(Plant, Plant)>
  {
    set u, v | u in A && u in adj && v in adj[u] :: (u, v)
  }

  /** Every node is a key with at most four neighbours. */
  predicate Plotted(adj: Adjacency<Plant>, ns: seq<Plant>)
  {
    forall k :: 0 <= k < |ns| ==> ns[k] in adj && |adj[ns[k]]| <= 4
  }

  /** The sides of the nodes in `ns` not shared with a neighbour. */
  function OpenSides(adj: Adjacency<Plant>, ns: seq<Plant>): (r: nat)
    requires Plotted(adj, ns)
  {
    if ns == [] then 0
    else
      var n := |ns| - 1;
      assert Plotted(adj, ns[..n]) by {
        assert forall k :: 0 <= k < n ==> ns[..n][k] == ns[k];
      }
      OpenSides(adj, ns[..n]) + (4 - |adj[ns[n]]|)
  }

  lemma {:induction false} PairsCard(u: Plant, K: set<Plant>)
    ensures |set v | v in K :: (u, v)| == |K|
    decreases |K|
  {
    if K != {} {
      var v :| v in K;
      PairsCard(u, K - {v});
      assert (set x | x in K :: (u, x)) == (set x | x in K - {v} :: (u, x)) + {(u, v)};
    }
  }

  /** A further node adds its own edge ends. */
  lemma ArcsInsert(adj: Adjacency<Plant>, A: set<Plant>, u: Plant)
    requires u in adj && u !in A
    ensures |Arcs(adj, A + {u})| == |Arcs(adj, A)| + |adj[u]|
  {
    var row := set v | v in adj[u].Keys :: (u, v);
    PairsCard(u, adj[u].Keys);
    assert Arcs(adj, A + {u}) == Arcs(adj, A) + row;
    assert Arcs(adj, A) !! row;
  }

  /** Four sides per node, less one per edge end. */
  lemma {:induction false} OpenSidesArcs(adj: Adjacency<Plant>, ns: seq<Plant>)
    requires Plotted(adj, ns) && NoDuplicates(ns)
    ensures OpenSides(adj, ns) + |Arcs(adj, Elems(ns))| == 4 * |ns|
  {
    if ns == [] {
      assert Arcs(adj, Elems(ns)) == {};
    } else {
      var n := |ns| - 1;
      var init, u := ns[..n], ns[n];
      assert ns == init + [u];
      assert forall k :: 0 <= k < n ==> init[k] == ns[k];
      assert NoDuplicates(init);
      assert u !in Elems(init) by {
        forall k | 0 <= k < n ensures init[k] != u {
          assert ns[k] == init[k];
        }
      }
      NoDuplicatesAppend(init, u);
      OpenSidesArcs(adj, init);
      assert u in adj by {
        assert ns[n] == u;
      }
      ArcsInsert(adj, Elems(init), u);
    }
  }

  /** `calc_perimeter1`: four sides per plant less its same-plant
      neighbours. The unwrap and the usize subtraction demand that every
      node be a key with at most four neighbours. */
  method CalcPerimeter1(g: Graph<Plant>) returns (r: nat)
    requires forall n :: n in NodeSet(g.adj) ==> n in g.adj && |g.adj[n]| <= 4
    ensures r + |Arcs(g.adj, NodeSet(g.adj))| == 4 * |NodeSet(g.adj)|
  {
    PlantLessTotal();
    var nodes := g.SortedNodes(PlantLess);
    r := OpenSides(g.adj, nodes);
    OpenSidesArcs(g.adj, nodes);
    NoDuplicatesCard(nodes);
    assert Elems(nodes) == NodeSet(g.adj);
  }

  // ---------------------------------------------------------------------
  // Regions

  /** The cells beside u's cell that could hold a plant of u's kind. */
  function Around(u: Plant): (r: set<Plant>)
    ensures |r| <= 4
  {
    var (x, y, t) := (u.xy.0, u.xy.1, u.plantType);
    var a := {Plant((x + 1, y), t)};
    var b := {Plant((x, y + 1), t)};
    var c: set<Plant> := if x > 0 then {Plant((x - 1, y), t)} else {};
    var d: set<Plant> := if y > 0 then {Plant((x, y - 1), t)} else {};
    assert |a + b| <= 2 && |c| <= 1 && |d| <= 1;
    assert |a + b + c| <= 3;
    a + b + c + d
  }

  lemma AdjoiningAround(cells: seq<char>, w: nat, h: nat, u: Plant, v: Plant)
    requires Adjoining(cells, w, h, u, v)
    ensures v in Around(u)
  {
  }

  /** At most one plant per cell. */
  predicate OnePerCell(S: set<Plant>)
  {
    forall u, v :: u in S && v in S && u.xy == v.xy ==> u == v
  }

  /** A region: the subgraph induced by everything reachable from one plant. */
  ghost predicate IsRegion(garden: Adjacency<Plant>, region: Adjacency<Plant>)
  {
    exists s :: s in NodeSet(garden) && region == Induced(garden, ReachSet(garden, s))
  }

  /** An induced subgraph's edges stay among its keys, and its keys are the garden's. */
  lemma InducedNodes(garden: Adjacency<Plant>, S: set<Plant>)
    requires S <= garden.Keys
    ensures NodeSet(Induced(garden, S)) == Induced(garden, S).Keys == S
  {
    InducedKeys(garden, S);
  }

  /** An induced subgraph of the garden has at most four neighbours per plant. */
  lemma InducedDegree(cells: seq<char>, w: nat, h: nat, garden: Adjacency<Plant>, S: set<Plant>, n: Plant)
    requires GardenGraph(cells, w, h, garden) && n in S
    ensures n in Induced(garden, S) && |Induced(garden, S)[n]| <= 4
  {
    var region := Induced(garden, S);
    assert region[n].Keys <= Around(n) by {
      forall v | v in region[n] ensures v in Around(n) {
        assert HasEdgeIn(garden, n, v);
        AdjoiningAround(cells, w, h, n, v);
      }
    }
    SubsetCardinality(region[n].Keys, Around(n));
  }

  /** The garden's nodes carry the plant of their cell, so no cell holds two. */
  lemma KeysOnePerCell(cells: seq<char>, w: nat, h: nat, garden: Adjacency<Plant>, S: set<Plant>)
    requires GardenGraph(cells, w, h, garden) && S <= garden.Keys
    ensures OnePerCell(S)
  {
    forall u, v | u in S && v in S && u.xy == v.xy ensures u == v {
      assert InGarden(cells, w, h, u) && InGarden(cells, w, h, v);
    }
  }

  /** What the perimeter computations demand of a region, and get. */
  lemma RegionShape(cells: seq<char>, w: nat, h: nat, garden: Adjacency<Plant>, region: Adjacency<Plant>)
    requires GardenGraph(cells, w, h, garden) && IsRegion(garden, region)
    ensures NodeSet(region) == region.Keys != {}
    ensures forall n :: n in NodeSet(region) ==> n in region && |region[n]| <= 4
    ensures OnePerCell(NodeSet(region))
  {
    var s :| s in NodeSet(garden) && region == Induced(garden, ReachSet(garden, s));
    var S := ReachSet(garden, s);
    ClassPart(garden, s, region);
    assert NodeSet(garden) == garden.Keys by {
      forall n | n in NodeSet(garden) ensures n in garden {
        if n !in garden {
          var u, v :| u in garden && v in garden[u] && v == n;
          assert HasEdgeIn(garden, u, v);
        }
      }
    }
    InducedNodes(garden, S);
    forall n | n in NodeSet(region) ensures n in region && |region[n]| <= 4 {
      InducedDegree(cells, w, h, garden, S, n);
    }
    KeysOnePerCell(cells, w, h, garden, S);
  }

  lemma SubsetCardinality(a: set<Plant>, b: set<Plant>)
    requires a <= b
    ensures |a| <= |b|
  {
    assert b == a + (b - a);
  }

  // ---------------------------------------------------------------------
  // The local grid of a region

  function Xs(ns: seq<Plant>): (r: seq<nat>)
    ensures |r| == |ns| && forall k :: 0 <= k < |ns| ==> r[k] == ns[k].xy.0
  {
    seq(|ns|, k requires 0 <= k < |ns| => ns[k].xy.0)
  }

  function Ys(ns: seq<Plant>): (r: seq<nat>)
    ensures |r| == |ns| && forall k :: 0 <= k < |ns| ==> r[k] == ns[k].xy.1
  {
    seq(|ns|, k requires 0 <= k < |ns| => ns[k].xy.1)
  }

  /** `fold(a, |a, b| a.min(b))` over the coordinates xs. */
  function FoldMin(xs: seq<nat>, a: nat): (r: nat)
    ensures r <= a && forall k :: 0 <= k < |xs| ==> r <= xs[k]
    ensures r == a || exists k :: 0 <= k < |xs| && r == xs[k]
  {
    if xs == [] then a
    else
      var n := |xs| - 1;
      var m := FoldMin(xs[..n], a);
      assert forall k :: 0 <= k < n ==> xs[..n][k] == xs[k];
      if xs[n] < m then xs[n] else m
  }

  /** `fold(a, |a, b| a.max(b))` over the coordinates xs. */
  function FoldMax(xs: seq<nat>, a: nat): (r: nat)
    ensures r >= a && forall k :: 0 <= k < |xs| ==> r >= xs[k]
    ensures r == a || exists k :: 0 <= k < |xs| && r == xs[k]
  {
    if xs == [] then a
    else
      var n := |xs| - 1;
      var m := FoldMax(xs[..n], a);
      assert forall k :: 0 <= k < n ==> xs[..n][k] == xs[k];
      if xs[n] > m then xs[n] else m
  }

  lemma {:induction false} LeastIn(T: set<nat>) returns (m: nat)
    requires T != {}
    ensures m in T && forall t :: t in T ==> m <= t
    decreases |T|
  {
    var x :| x in T;
    var rest := T - {x};
    if rest == {} {
      assert T == {x};
      m := x;
    } else {
      var n := LeastIn(rest);
      m := if x < n then x else n;
      forall t | t in T ensures m <= t {
        if t != x {
          assert t in rest;
        }
      }
    }
  }

  lemma {:induction false} GreatestIn(T: set<nat>) returns (m: nat)
    requires T != {}
    ensures m in T && forall t :: t in T ==> t <= m
    decreases |T|
  {
    var x :| x in T;
    var rest := T - {x};
    if rest == {} {
      assert T == {x};
      m := x;
    } else {
      var n := GreatestIn(rest);
      m := if x > n then x else n;
      forall t | t in T ensures t <= m {
        if t != x {
          assert t in rest;
        }
      }
    }
  }

  lemma HasLeast(T: set<nat>)
    requires T != {}
    ensures exists m :: m in T && forall t :: t in T ==> m <= t
  {
    var m := LeastIn(T);
  }

  lemma HasGreatest(T: set<nat>)
    requires T != {}
    ensures exists m :: m in T && forall t :: t in T ==> t <= m
  {
    var m := GreatestIn(T);
  }

  ghost function Least(T: set<nat>): (m: nat)
    requires T != {}
    ensures m in T && forall t :: t in T ==> m <= t
  {
    HasLeast(T);
    var m :| m in T && forall t :: t in T ==> m <= t; m
  }

  ghost function Greatest(T: set<nat>): (m: nat)
    requires T != {}
    ensures m in T && forall t :: t in T ==> t <= m
  {
    HasGreatest(T);
    var m :| m in T && forall t :: t in T ==> t <= m; m
  }

  ghost function XsOf(S: set<Plant>): set<nat>
  {
    set v | v in S :: v.xy.0
  }

  ghost function YsOf(S: set<Plant>): set<nat>
  {
    set v | v in S :: v.xy.1
  }

  /** The bounding box of a region: the least and greatest x and y, the
      least capped at usize::MAX as the folds start there. */
  datatype Box = Box(left: nat, top: nat, right: nat, bottom: nat)

  ghost function Bounds(S: set<Plant>): (b: Box)
    requires S != {}
    ensures b.left <= b.right && b.top <= b.bottom
    ensures forall u :: u in S ==> b.left <= u.xy.0 <= b.right && b.top <= u.xy.1 <= b.bottom
  {
    var u :| u in S;
    assert u.xy.0 in XsOf(S) && u.xy.1 in YsOf(S);
    var (l, t) := (Least(XsOf(S)), Least(YsOf(S)));
    assert forall v :: v in S ==> v.xy.0 in XsOf(S) && v.xy.1 in YsOf(S);
    Box(if l < UsizeMax then l else UsizeMax, if t < UsizeMax then t else UsizeMax, Greatest(XsOf(S)), Greatest(YsOf(S)))
  }

  /** Where a plant of S lands in the local grid: one cell of padding. */
  ghost predicate LandsAt(S: set<Plant>, u: Plant, x: nat, y: nat)
    requires S != {}
  {
    u.xy.0 + 1 == Bounds(S).left + x && u.xy.1 + 1 == Bounds(S).top + y
  }

  lemma LocalPosInjective(S: set<Plant>, u: Plant, v: Plant)
    requires OnePerCell(S) && u in S && v in S
    requires exists x, y :: LandsAt(S, u, x, y) && LandsAt(S, v, x, y)
    ensures u == v
  {
    assert u.xy == v.xy;
  }

  /** The cell (x, y) of the local grid once the plants of A are written. */
  ghost function Painted(S: set<Plant>, A: set<Plant>, x: nat, y: nat): char
    requires A <= S
  {
    if exists u :: u in A && LandsAt(S, u, x, y) then
      var u :| u in A && LandsAt(S, u, x, y); u.plantType
    else Blank
  }

  lemma PaintedIs(S: set<Plant>, A: set<Plant>, x: nat, y: nat, u: Plant)
    requires OnePerCell(S) && A <= S && u in A && LandsAt(S, u, x, y)
    ensures Painted(S, A, x, y) == u.plantType
  {
    var v :| v in A && LandsAt(S, v, x, y) && Painted(S, A, x, y) == v.plantType;
    LocalPosInjective(S, u, v);
  }

  /** cells is the local grid of width w and height h with A written. */
  ghost predicate Pictured(S: set<Plant>, A: set<Plant>, cells: seq<char>, w: nat, h: nat)
    requires A <= S
  {
    && |cells| == Mul(h, w)
    && forall x: nat, y: nat :: x < w && y < h ==> CellAt(cells, w, x, y) == Painted(S, A, x, y)
  }

  /** The cell (x, y) of a row-major grid of width w, or '.' past its end. */
  function CellAt(cells: seq<char>, w: nat, x: nat, y: nat): char
  {
    if Mul(y, w) + x < |cells| then cells[Mul(y, w) + x] else Blank
  }

  /** The width and the height of the local grid. */
  ghost function LocalWidth(S: set<Plant>): nat
    requires S != {}
  {
    Bounds(S).right - Bounds(S).left + 3
  }

  ghost function LocalHeight(S: set<Plant>): nat
    requires S != {}
  {
    Bounds(S).bottom - Bounds(S).top + 3
  }

  lemma FoldMinLeast(xs: seq<nat>, T: set<nat>, a: nat)
    requires T != {} && forall t :: t in T <==> t in xs
    ensures FoldMin(xs, a) == if Least(T) < a then Least(T) else a
  {
    var m := Least(T);
    var r := FoldMin(xs, a);
    assert m in xs;
    var i :| 0 <= i < |xs| && xs[i] == m;
    assert r <= m;
    if r != a {
      var k :| 0 <= k < |xs| && r == xs[k];
      assert xs[k] in T;
    }
  }

  lemma FoldMaxGreatest(xs: seq<nat>, T: set<nat>)
    requires T != {} && forall t :: t in T <==> t in xs
    ensures FoldMax(xs, 0) == Greatest(T)
  {
    var m := Greatest(T);
    var r := FoldMax(xs, 0);
    assert m in xs;
    var i :| 0 <= i < |xs| && xs[i] == m;
    assert r >= m;
    if r != 0 {
      var k :| 0 <= k < |xs| && r == xs[k];
      assert xs[k] in T;
    }
  }

  lemma XsCover(S: set<Plant>, ns: seq<Plant>)
    requires forall u :: u in S <==> u in ns
    ensures forall t :: t in XsOf(S) <==> t in Xs(ns)
    ensures forall t :: t in YsOf(S) <==> t in Ys(ns)
  {
    forall t ensures t in XsOf(S) <==> t in Xs(ns) {
      if t in XsOf(S) {
        var v :| v in S && v.xy.0 == t;
        var k :| 0 <= k < |ns| && ns[k] == v;
        assert Xs(ns)[k] == t;
      }
      if t in Xs(ns) {
        var k :| 0 <= k < |ns| && Xs(ns)[k] == t;
        assert ns[k] in S;
      }
    }
    forall t ensures t in YsOf(S) <==> t in Ys(ns) {
      if t in YsOf(S) {
        var v :| v in S && v.xy.1 == t;
        var k :| 0 <= k < |ns| && ns[k] == v;
        assert Ys(ns)[k] == t;
      }
      if t in Ys(ns) {
        var k :| 0 <= k < |ns| && Ys(ns)[k] == t;
        assert ns[k] in S;
      }
    }
  }

  /** The folds over any enumeration of S find its bounding box. */
  lemma FoldsFindBounds(S: set<Plant>, ns: seq<Plant>)
    requires S != {} && forall u :: u in S <==> u in ns
    ensures FoldMin(Xs(ns), UsizeMax) == Bounds(S).left
    ensures FoldMin(Ys(ns), UsizeMax) == Bounds(S).top
    ensures FoldMax(Xs(ns), 0) == Bounds(S).right
    ensures FoldMax(Ys(ns), 0) == Bounds(S).bottom
  {
    var u :| u in S;
    assert u.xy.0 in XsOf(S) && u.xy.1 in YsOf(S);
    XsCover(S, ns);
    FoldMinLeast(Xs(ns), XsOf(S), UsizeMax);
    FoldMinLeast(Ys(ns), YsOf(S), UsizeMax);
    FoldMaxGreatest(Xs(ns), XsOf(S));
    FoldMaxGreatest(Ys(ns), YsOf(S));
  }

  /** Nothing written yet: all '.'. */
  lemma BlankPicture(S: set<Plant>, cells: seq<char>, w: nat, h: nat)
    requires |cells| == Mul(h, w) && forall k :: 0 <= k < |cells| ==> cells[k] == Blank
    ensures Pictured(S, {}, cells, w, h)
  {
  }

  /** Writing u's plant at its local position. */
  lemma PaintStep(S: set<Plant>, A: set<Plant>, u: Plant, px: nat, py: nat, before: seq<char>, after: seq<char>, w: nat, h: nat)
    requires OnePerCell(S) && A <= S && u in S && LandsAt(S, u, px, py)
    requires Pictured(S, A, before, w, h)
    requires px < w && py < h && Mul(py, w) + px < |before|
    requires after == before[Mul(py, w) + px := u.plantType]
    ensures Pictured(S, A + {u}, after, w, h)
  {
    forall x: nat, y: nat | x < w && y < h
      ensures CellAt(after, w, x, y) == Painted(S, A + {u}, x, y)
    {
      assert CellAt(before, w, x, y) == Painted(S, A, x, y);
      CellIndexBound(x, y, w, h);
      if (x, y) == (px, py) {
        PaintedIs(S, A + {u}, x, y, u);
      } else {
        if Mul(y, w) + x == Mul(py, w) + px {
          OffsetInjective(x, y, px, py, w);
        }
        if v :| v in A && LandsAt(S, v, x, y) {
          PaintedIs(S, A, x, y, v);
          PaintedIs(S, A + {u}, x, y, v);
        } else {
          assert !exists v :: v in A + {u} && LandsAt(S, v, x, y);
        }
      }
    }
  }

  /** One pass of the painting loop: the plant is written at its local position. */
  method PaintPlant(grid: Grid<char>, ghost S: set<Plant>, ghost A: set<Plant>, plant: Plant, minX: nat, minY: nat)
    modifies grid
    requires OnePerCell(S) && A <= S && plant in S
    requires minX == Bounds(S).left && minY == Bounds(S).top
    requires grid.Valid() && grid.width == LocalWidth(S) && grid.height == LocalHeight(S)
    requires Pictured(S, A, grid.data, grid.width, grid.height)
    ensures grid.Valid() && Pictured(S, A + {plant}, grid.data, grid.width, grid.height)
  {
    ghost var b := Bounds(S);
    assert b.left <= plant.xy.0 <= b.right && b.top <= plant.xy.1 <= b.bottom;
    var newX := plant.xy.0 - minX + 1;
    var newY := plant.xy.1 - minY + 1;
    grid.InExtentsHasOffset(newX, newY);
    ghost var before := grid.data;
    grid.Set(newX, newY, plant.plantType);
    PaintStep(S, A, plant, newX, newY, before, grid.data, grid.width, grid.height);
  }

  /** The painting loop over an enumeration of S. */
  method PaintAll(grid: Grid<char>, ghost S: set<Plant>, nodes: seq<Plant>, minX: nat, minY: nat)
    modifies grid
    requires OnePerCell(S) && forall u :: u in S <==> u in nodes
    requires S != {} && minX == Bounds(S).left && minY == Bounds(S).top
    requires grid.Valid() && grid.width == LocalWidth(S) && grid.height == LocalHeight(S)
    requires Pictured(S, {}, grid.data, grid.width, grid.height)
    ensures grid.Valid() && Pictured(S, S, grid.data, grid.width, grid.height)
  {
    ghost var painted: set<Plant> := {};
    for k := 0 to |nodes|
      invariant grid.Valid() && painted <= S
      invariant forall j :: 0 <= j < k ==> nodes[j] in painted
      invariant Pictured(S, painted, grid.data, grid.width, grid.height)
    {
      PaintPlant(grid, S, painted, nodes[k], minX, minY);
      painted := painted + {nodes[k]};
    }
    assert painted == S;
  }

  /** `graph_to_grid`: the region's plants on a grid of '.' one cell larger
      than its bounding box on every side. An empty graph would underflow. */
  method GraphToGrid(graph: Graph<Plant>) returns (grid: Grid<char>)
    requires NodeSet(graph.adj) != {} && OnePerCell(NodeSet(graph.adj))
    ensures fresh(grid) && grid.Valid()
    ensures grid.width == LocalWidth(NodeSet(graph.adj)) && grid.height == LocalHeight(NodeSet(graph.adj))
    ensures Pictured(NodeSet(graph.adj), NodeSet(graph.adj), grid.data, grid.width, grid.height)
  {
    ghost var S := NodeSet(graph.adj);
    PlantLessTotal();
    var nodes := graph.SortedNodes(PlantLess);
    var minX := FoldMin(Xs(nodes), UsizeMax);
    var minY := FoldMin(Ys(nodes), UsizeMax);
    var maxX := FoldMax(Xs(nodes), 0);
    var maxY := FoldMax(Ys(nodes), 0);
    FoldsFindBounds(S, nodes);
    var width := maxX - minX + 3;
    var height := maxY - minY + 3;
    grid := new Grid.New(width, height, Blank);
    BlankPicture(S, grid.data, width, height);
    PaintAll(grid, S, nodes, minX, minY);
    assert S == NodeSet(graph.adj);
  }

  // ---- Part two: counting sides on the local grid ----

  /** The local-grid cell (x, y) holds something other than '.'. */
  ghost predicate Filled(S: set<Plant>, x: nat, y: nat)
    requires S != {}
  {
    Painted(S, S, x, y) != Blank
  }

  /** Fences between rows r and r + 1: below a filled cell, or above one. */
  ghost predicate UpperAt(S: set<Plant>, c: nat, r: nat)
    requires S != {}
  {
    Filled(S, c, r) && !Filled(S, c, r + 1)
  }

  ghost predicate LowerAt(S: set<Plant>, c: nat, r: nat)
    requires S != {}
  {
    !Filled(S, c, r) && Filled(S, c, r + 1)
  }

  /** A horizontal side starts at column c: a fence of either kind that the
      column before does not have. */
  ghost predicate HStart(S: set<Plant>, c: nat, r: nat)
    requires S != {}
  {
    || (UpperAt(S, c, r) && !(c > 0 && UpperAt(S, c - 1, r)))
    || (LowerAt(S, c, r) && !(c > 0 && LowerAt(S, c - 1, r)))
  }

  /** Fences between columns c and c + 1. */
  ghost predicate LeftAt(S: set<Plant>, c: nat, r: nat)
    requires S != {}
  {
    Filled(S, c, r) && !Filled(S, c + 1, r)
  }

  ghost predicate RightAt(S: set<Plant>, c: nat, r: nat)
    requires S != {}
  {
    !Filled(S, c, r) && Filled(S, c + 1, r)
  }

  ghost predicate VStart(S: set<Plant>, c: nat, r: nat)
    requires S != {}
  {
    || (LeftAt(S, c, r) && !(r > 0 && LeftAt(S, c, r - 1)))
    || (RightAt(S, c, r) && !(r > 0 && RightAt(S, c, r - 1)))
  }

  /** Side starts in row gap r among the first n columns. */
  ghost function HRuns(S: set<Plant>, r: nat, n: nat): nat
    requires S != {}
  {
    if n == 0 then 0 else HRuns(S, r, n - 1) + (if HStart(S, n - 1, r) then 1 else 0)
  }

  /** Side starts in column gap c among the first n rows. */
  ghost function VRuns(S: set<Plant>, c: nat, n: nat): nat
    requires S != {}
  {
    if n == 0 then 0 else VRuns(S, c, n - 1) + (if VStart(S, c, n - 1) then 1 else 0)
  }

  ghost function HSides(S: set<Plant>, rows: nat): nat
    requires S != {}
  {
    if rows == 0 then 0 else HSides(S, rows - 1) + HRuns(S, rows - 1, LocalWidth(S))
  }

  ghost function VSides(S: set<Plant>, cols: nat): nat
    requires S != {}
  {
    if cols == 0 then 0 else VSides(S, cols - 1) + VRuns(S, cols - 1, LocalHeight(S))
  }

  /** Every horizontal gap of the local grid scanned left to right, then every
      vertical gap scanned top to bottom. */
  ghost function Sides(S: set<Plant>): nat
    requires S != {}
  {
    HSides(S, LocalHeight(S) - 1) + VSides(S, LocalWidth(S) - 1)
  }

  /** Reading the local grid. */
  lemma FilledAt(S: set<Plant>, cells: seq<char>, w: nat, h: nat, x: nat, y: nat)
    requires S != {} && Pictured(S, S, cells, w, h) && x < w && y < h
    ensures Mul(y, w) + x < |cells|
    ensures cells[Mul(y, w) + x] != Blank <==> Filled(S, x, y)
  {
    CellIndexBound(x, y, w, h);
    assert CellAt(cells, w, x, y) == Painted(S, S, x, y);
  }

  /** One row gap of the horizontal scan. */
  method ScanRow(grid: Grid<char>, ghost S: set<Plant>, row: nat) returns (n: nat)
    requires S != {} && grid.Valid() && grid.width == LocalWidth(S) && grid.height == LocalHeight(S)
    requires Pictured(S, S, grid.data, grid.width, grid.height) && row + 1 < grid.height
    ensures n == HRuns(S, row, grid.width)
  {
    n := 0;
    var isUpperEdge, isLowerEdge := false, false;
    for col := 0 to grid.width
      invariant n == HRuns(S, row, col)
      invariant isUpperEdge == (col > 0 && UpperAt(S, col - 1, row))
      invariant isLowerEdge == (col > 0 && LowerAt(S, col - 1, row))
    {
      FilledAt(S, grid.data, grid.width, grid.height, col, row);
      FilledAt(S, grid.data, grid.width, grid.height, col, row + 1);
      var above := grid.At(col, row) != Blank;
      var below := grid.At(col, row + 1) != Blank;
      var isUpperEdgeNow := above && !below;
      var isLowerEdgeNow := !above && below;
      if (!isUpperEdge && isUpperEdgeNow) || (!isLowerEdge && isLowerEdgeNow) {
        n := n + 1;
      }
      isUpperEdge, isLowerEdge := isUpperEdgeNow, isLowerEdgeNow;
    }
  }

  /** One column gap of the vertical scan. */
  method ScanColumn(grid: Grid<char>, ghost S: set<Plant>, col: nat) returns (n: nat)
    requires S != {} && grid.Valid() && grid.width == LocalWidth(S) && grid.height == LocalHeight(S)
    requires Pictured(S, S, grid.data, grid.width, grid.height) && col + 1 < grid.width
    ensures n == VRuns(S, col, grid.height)
  {
    n := 0;
    var isLeftEdge, isRightEdge := false, false;
    for row := 0 to grid.height
      invariant n == VRuns(S, col, row)
      invariant isLeftEdge == (row > 0 && LeftAt(S, col, row - 1))
      invariant isRightEdge == (row > 0 && RightAt(S, col, row - 1))
    {
      FilledAt(S, grid.data, grid.width, grid.height, col, row);
      FilledAt(S, grid.data, grid.width, grid.height, col + 1, row);
      var left := grid.At(col, row) != Blank;
      var right := grid.At(col + 1, row) != Blank;
      var isLeftEdgeNow := left && !right;
      var isRightEdgeNow := !left && right;
      if (!isLeftEdge && isLeftEdgeNow) || (!isRightEdge && isRightEdgeNow) {
        n := n + 1;
      }
      isLeftEdge, isRightEdge := isLeftEdgeNow, isRightEdgeNow;
    }
  }

  /** Both scans of `calc_perimeter2` over the local grid of S. */
  method CountSides(grid: Grid<char>, ghost S: set<Plant>) returns (n: nat)
    requires S != {} && grid.Valid() && grid.width == LocalWidth(S) && grid.height == LocalHeight(S)
    requires Pictured(S, S, grid.data, grid.width, grid.height)
    ensures n == Sides(S)
  {
    n := 0;
    for row := 0 to grid.height - 1
      invariant n == HSides(S, row)
    {
      var runs := ScanRow(grid, S, row);
      n := n + runs;
    }
    for col := 0 to grid.width - 1
      invariant n == HSides(S, grid.height - 1) + VSides(S, col)
    {
      var runs := ScanColumn(grid, S, col);
      n := n + runs;
    }
  }

  /** `calc_perimeter2`: the number of straight sides of the region's fence. */
  method CalcPerimeter2(graph: Graph<Plant>) returns (n: nat)
    requires NodeSet(graph.adj) != {} && OnePerCell(NodeSet(graph.adj))
    ensures n == Sides(NodeSet(graph.adj))
  {
    var grid := GraphToGrid(graph);
    n := CountSides(grid, NodeSet(graph.adj));
  }

  // ---- The puzzle ----

  /** What the price of a region needs: a nonempty node set, one plant per cell. */
  ghost predicate Priceable(region: Adjacency<Plant>)
  {
    NodeSet(region) != {} && OnePerCell(NodeSet(region))
  }

  /** Area times perimeter (part one: open sides, four per plant less one per
      edge end) or times the number of sides (part two). */
  ghost function Cost(region: Adjacency<Plant>, bySides: bool): int
    requires Priceable(region)
  {
    |NodeSet(region)| * Perimeter(region, bySides)
  }

  ghost function Perimeter(region: Adjacency<Plant>, bySides: bool): (r: int)
    requires Priceable(region)
    ensures bySides ==> r >= 0
    ensures !bySides ==> r <= 4 * |NodeSet(region)|
  {
    var S := NodeSet(region);
    if bySides then Sides(S) else 4 * |S| - |Arcs(region, S)|
  }

  ghost function Price(regions: seq<Adjacency<Plant>>, bySides: bool): (r: int)
    requires forall i :: 0 <= i < |regions| ==> Priceable(regions[i])
    ensures (forall i :: 0 <= i < |regions| ==> Cost(regions[i], bySides) >= 0) ==>
      (r >= 0 && (r == 0 <==> forall i :: 0 <= i < |regions| ==> Cost(regions[i], bySides) == 0))
  {
    if regions == [] then 0
    else
      var n := |regions| - 1;
      assert forall i :: 0 <= i < n ==> regions[..n][i] == regions[i];
      Price(regions[..n], bySides) + Cost(regions[n], bySides)
  }

  /** Every region of a garden graph can be priced. */
  lemma RegionsPriceable(cells: seq<char>, w: nat, h: nat, garden: Adjacency<Plant>, regions: seq<Adjacency<Plant>>)
    requires GardenGraph(cells, w, h, garden) && PartsAreInduced(garden, regions)
    ensures forall i :: 0 <= i < |regions| ==> Priceable(regions[i])
    ensures forall i, n :: 0 <= i < |regions| && n in NodeSet(regions[i]) ==> n in regions[i] && |regions[i][n]| <= 4
  {
    forall i | 0 <= i < |regions|
      ensures Priceable(regions[i])
      ensures forall n :: n in NodeSet(regions[i]) ==> n in regions[i] && |regions[i][n]| <= 4
    {
      assert IsRegion(garden, regions[i]);
      RegionShape(cells, w, h, garden, regions[i]);
    }
  }

  lemma PriceStep(regions: seq<Adjacency<Plant>>, i: nat, bySides: bool)
    requires i < |regions| && forall j :: 0 <= j < |regions| ==> Priceable(regions[j])
    ensures Price(regions[..i + 1], bySides) == Price(regions[..i], bySides) + Cost(regions[i], bySides)
  {
    assert regions[..i + 1][..i] == regions[..i];
  }

  /** The price does not depend on the order in which `connected_components`
      lists the regions: every component split of the garden has the same
      price. So the price `problem` returns is determined by the garden. */
  lemma PriceUnique(cells: seq<char>, w: nat, h: nat, garden: Adjacency<Plant>,
                    regions: seq<Adjacency<Plant>>, others: seq<Adjacency<Plant>>, bySides: bool)
    requires GardenGraph(cells, w, h, garden)
    requires ComponentSplit(garden, regions) && ComponentSplit(garden, others)
    ensures forall i :: 0 <= i < |regions| ==> Priceable(regions[i])
    ensures forall i :: 0 <= i < |others| ==> Priceable(others[i])
    ensures Price(regions, bySides) == Price(others, bySides)
  {
    RegionsPriceable(cells, w, h, garden, regions);
    RegionsPriceable(cells, w, h, garden, others);
    GardenSymmetric(cells, w, h, garden);
    ComponentSplitsAgree(garden, regions, others);
    PriceAsSum(regions, bySides);
    PriceAsSum(others, bySides);
    SumByPermutation(regions, others, CostOf(bySides));
  }

  /** The garden graph stores each edge both ways with weight one. */
  lemma GardenSymmetric(cells: seq<char>, w: nat, h: nat, garden: Adjacency<Plant>)
    requires GardenGraph(cells, w, h, garden)
    ensures Symmetric(garden)
  {
    forall u, v | HasEdgeIn(garden, u, v) ensures HasEdgeIn(garden, v, u) && garden[v][u] == garden[u][v] {
      assert Adjoining(cells, w, h, u, v);
      assert Adjoining(cells, w, h, v, u);
    }
  }

  /** The cost of any region that can be priced. */
  ghost function CostOf(bySides: bool): Adjacency<Plant> -> int
  {
    r => if Priceable(r) then Cost(r, bySides) else 0
  }

  /** The price is the sum of the regions' costs. */
  lemma {:induction false} PriceAsSum(regions: seq<Adjacency<Plant>>, bySides: bool)
    requires forall i :: 0 <= i < |regions| ==> Priceable(regions[i])
    ensures Price(regions, bySides) == SumBy(regions, CostOf(bySides))
  {
    if regions != [] {
      var n := |regions| - 1;
      assert forall i :: 0 <= i < n ==> regions[..n][i] == regions[i];
      PriceAsSum(regions[..n], bySides);
    }
  }

  /** One component of `problem`: its area times its perimeter. */
  method RegionCost(g: Graph<Plant>, ghost region: Adjacency<Plant>, bySides: bool) returns (c: int)
    requires g.adj == region && Priceable(region)
    requires forall n :: n in NodeSet(region) ==> n in region && |region[n]| <= 4
    ensures c == Cost(region, bySides)
  {
    var area := |g.Nodes()|;
    var perimeter;
    if bySides {
      perimeter := CalcPerimeter2(g);
    } else {
      perimeter := CalcPerimeter1(g);
    }
    c := area * perimeter;
  }

  /** The sum over the components of `problem`. */
  method PriceRegions(gs: seq<Graph<Plant>>, ghost regions: seq<Adjacency<Plant>>, bySides: bool) returns (r: int)
    requires |gs| == |regions| && forall j :: 0 <= j < |gs| ==> gs[j].adj == regions[j]
    requires forall i :: 0 <= i < |regions| ==> Priceable(regions[i])
    requires forall i, n :: 0 <= i < |regions| && n in NodeSet(regions[i]) ==> n in regions[i] && |regions[i][n]| <= 4
    ensures r == Price(regions, bySides)
  {
    r := 0;
    for i := 0 to |gs|
      invariant r == Price(regions[..i], bySides)
    {
      var c := RegionCost(gs[i], regions[i], bySides);
      PriceStep(regions, i, bySides);
      r := r + c;
    }
    assert regions[..|gs|] == regions;
  }

  /** `problem`: the total fence price of the garden. The Rust `calc_perimeter`
      function argument is the flag `bySides`. */
  method Problem(lines: seq<string>, bySides: bool) returns (r: int, ghost garden: Adjacency<Plant>, ghost regions: seq<Adjacency<Plant>>)
    requires forall i :: 0 <= i < |lines| ==> |lines[i]| == |lines|
    ensures GardenGraph(Flatten(lines), |lines|, |lines|, garden)
    ensures ComponentSplit(garden, regions)
    ensures forall i :: 0 <= i < |regions| ==> Priceable(regions[i])
    ensures r == Price(regions, bySides)
  {
    var plants := GridFromStr(lines);
    FlattenRows(lines, |lines|);
    var graph := GardenAsGraph(plants);
    garden := graph.adj;
    PlantLessTotal();
    var components := graph.ConnectedComponents(PlantLess);
    var gs := components.value;
    regions := Adjs(gs);
    RegionsPriceable(Flatten(lines), |lines|, |lines|, garden, regions);
    r := PriceRegions(gs, regions, bySides);
  }

  // ---- What the prices count ----

  /** Ordered pairs of plants of S that share a side. */
  ghost function Touching(S: set<Plant>): set<(Plant, Plant)>
  {
    set u, v | u in S && v in S && IsCardinalNeighbor(u.xy.0, u.xy.1, v.xy) :: (u, v)
  }

  /** The garden's edges join plants of one kind, so k hops keep the kind. */
  lemma {:induction false} HopsOneType(cells: seq<char>, w: nat, h: nat, garden: Adjacency<Plant>, s: Plant, k: nat)
    requires GardenGraph(cells, w, h, garden)
    ensures forall v :: v in WithinHops(garden, s, k) ==> v.plantType == s.plantType
  {
    if k > 0 {
      HopsOneType(cells, w, h, garden, s, k - 1);
      forall v | v in Successors(garden, WithinHops(garden, s, k - 1))
        ensures v.plantType == s.plantType
      {
        var u :| u in WithinHops(garden, s, k - 1) && u in garden && v in garden[u];
        assert HasEdgeIn(garden, u, v);
      }
    }
  }

  /** A region grows a single kind of plant. */
  lemma RegionOneType(cells: seq<char>, w: nat, h: nat, garden: Adjacency<Plant>, s: Plant)
    requires GardenGraph(cells, w, h, garden)
    ensures forall v :: v in ReachSet(garden, s) ==> v.plantType == s.plantType
  {
    forall v | v in ReachSet(garden, s) ensures v.plantType == s.plantType {
      var k: nat :| v in WithinHops(garden, s, k);
      HopsOneType(cells, w, h, garden, s, k);
    }
  }

  /** Every node of the garden is a key of it. */
  lemma GardenKeys(cells: seq<char>, w: nat, h: nat, garden: Adjacency<Plant>)
    requires GardenGraph(cells, w, h, garden)
    ensures NodeSet(garden) == garden.Keys
  {
    forall n | n in NodeSet(garden) ensures n in garden {
      if n !in garden {
        var u, v :| u in garden && v in garden[u] && v == n;
        assert HasEdgeIn(garden, u, v);
      }
    }
  }

  /** Within a region, the edge ends that part one subtracts are exactly
      the ordered pairs of side-by-side plants. */
  lemma RegionArcs(cells: seq<char>, w: nat, h: nat, garden: Adjacency<Plant>, s: Plant)
    requires GardenGraph(cells, w, h, garden) && s in NodeSet(garden)
    ensures Arcs(Induced(garden, ReachSet(garden, s)), ReachSet(garden, s)) == Touching(ReachSet(garden, s))
  {
    var S := ReachSet(garden, s);
    var region := Induced(garden, S);
    RegionOneType(cells, w, h, garden, s);
    GardenKeys(cells, w, h, garden);
    ClassPart(garden, s, region);
    forall p | p in Touching(S) ensures p in Arcs(region, S) {
      var (u, v) := p;
      assert InGarden(cells, w, h, u) && InGarden(cells, w, h, v);
      assert Adjoining(cells, w, h, u, v);
      assert HasEdgeIn(garden, u, v);
    }
    forall p | p in Arcs(region, S) ensures p in Touching(S) {
      var (u, v) := p;
      assert v in garden[u] && v in S;
      assert HasEdgeIn(garden, u, v);
    }
  }

  /** Part one's price of a region: its area times four per plant less one
      per ordered pair of touching plants. */
  lemma PerimeterCountsTouching(cells: seq<char>, w: nat, h: nat, garden: Adjacency<Plant>, region: Adjacency<Plant>)
    requires GardenGraph(cells, w, h, garden) && IsRegion(garden, region)
    ensures Priceable(region)
    ensures Perimeter(region, false) == 4 * |NodeSet(region)| - |Touching(NodeSet(region))|
  {
    RegionShape(cells, w, h, garden, region);
    var s :| s in NodeSet(garden) && region == Induced(garden, ReachSet(garden, s));
    ClassPart(garden, s, region);
    RegionArcs(cells, w, h, garden, s);
    var S := NodeSet(region);
    assert S == ReachSet(garden, s);
    assert Perimeter(region, false) == 4 * |S| - |Touching(S)|;
  }

  /** The local grid of one plant is 3 x 3 with the plant in the middle. */
  lemma SinglePlantPicture(u: Plant, a: nat, b: nat)
    requires u.xy.0 < UsizeMax && u.xy.1 < UsizeMax && u.plantType != Blank
    ensures LocalWidth({u}) == 3 && LocalHeight({u}) == 3
    ensures Filled({u}, a, b) <==> a == 1 && b == 1
  {
    assert XsOf({u}) == {u.xy.0} && YsOf({u}) == {u.xy.1};
    assert Bounds({u}) == Box(u.xy.0, u.xy.1, u.xy.0, u.xy.1);
    if a == 1 && b == 1 {
      PaintedIs({u}, {u}, a, b, u);
    } else {
      assert !LandsAt({u}, u, a, b);
    }
  }

  /** A single plant is fenced by four sides. */
  lemma SinglePlantSides(u: Plant)
    requires u.xy.0 < UsizeMax && u.xy.1 < UsizeMax && u.plantType != Blank
    ensures Sides({u}) == 4
  {
    var S := {u};
    SinglePlantPicture(u, 0, 0);
    forall a: nat, b: nat ensures Filled(S, a, b) <==> a == 1 && b == 1 {
      SinglePlantPicture(u, a, b);
    }
    assert HRuns(S, 0, 1) == 0 && HRuns(S, 0, 2) == 1 && HRuns(S, 0, 3) == 1;
    assert HRuns(S, 1, 1) == 0 && HRuns(S, 1, 2) == 1 && HRuns(S, 1, 3) == 1;
    assert VRuns(S, 0, 1) == 0 && VRuns(S, 0, 2) == 1 && VRuns(S, 0, 3) == 1;
    assert VRuns(S, 1, 1) == 0 && VRuns(S, 1, 2) == 1 && VRuns(S, 1, 3) == 1;
    assert HSides(S, 1) == 1 && HSides(S, 2) == 2;
    assert VSides(S, 1) == 1 && VSides(S, 2) == 2;
  }
}
