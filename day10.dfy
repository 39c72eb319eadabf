/** Day 10, hiking trails: a map of digit heights, trails that climb exactly
    one step at a time between cardinal neighbours from a trailhead (height
    0) to a summit (height 9), and two scores for every trailhead: the number
    of summits it reaches and the number of distinct trails it starts. */
module Day10 {
  import opened Wrappers
  import opened Util
  import opened Text
  import opened GridLib

  const SummitHeight: nat := 9
  const TrailheadHeight: nat := 0

  /** A graph node: a cell position and its height. */
  datatype Node = Node(xy: (nat, nat), value: nat)

  // ---------------------------------------------------------------------
  // Parsing

  /** `to_digit(10)` of every character, in order; None when one of them is
      not a decimal digit, where the source's `unwrap` panics. */
  function DigitValues(cs: string): (r: Option<seq<nat>>)
    ensures r.Some? <==> AllDigits(cs)
    ensures r.Some? ==> (|r.value| == |cs| &&
      forall k :: 0 <= k < |cs| ==> r.value[k] == cs[k] as int - '0' as int && r.value[k] <= SummitHeight)
  {
    if cs == [] then Some([])
    else
      var n := |cs| - 1;
      assert forall k :: 0 <= k < n ==> cs[..n][k] == cs[k];
      match DigitValues(cs[..n])
      case None => None
      case Some(front) =>
        if IsDigit(cs[n]) then Some(front + [cs[n] as int - '0' as int]) else None
  }

  /** `parse_input`: the empty 0 x 0 grid for no lines; otherwise one row per
      line, the first line's length as the width, and the digits of all lines
      in order as the data. None when a character is not a digit. */
  method ParseInput(lines: seq<string>) returns (r: Option<Grid<nat>>)
    ensures r.None? <==> !AllDigits(Flatten(lines))
    ensures r.Some? ==> (fresh(r.value) && r.value.height == |lines| &&
      r.value.width == (if lines == [] then 0 else |lines[0]|) &&
      DigitValues(Flatten(lines)) == Some(r.value.data))
  {
    if lines == [] {
      var empty := new Grid.New(0, 0, 0);
      return Some(empty);
    }
    var digits := DigitValues(Flatten(lines));
    if digits.None? {
      return None;
    }
    var grid := new Grid.FromParts(digits.value, |lines[0]|, |lines|);
    return Some(grid);
  }

  // ---------------------------------------------------------------------
  // The trail graph

  /** u names an in-extent cell of the w x h map and carries that cell's height. */
  predicate OnMap(cells: seq<nat>, w: nat, h: nat, u: Node)
  {
    u.xy.0 < w && u.xy.1 < h && Mul(u.xy.1, w) + u.xy.0 < |cells| &&
    u.value == cells[Mul(u.xy.1, w) + u.xy.0]
  }

  /** v is a cardinal neighbour of u on the map, exactly one step higher. */
  predicate Ascent(cells: seq<nat>, w: nat, h: nat, u: Node, v: Node)
  {
    OnMap(cells, w, h, v) && IsCardinalNeighbor(u.xy.0, u.xy.1, v.xy) && v.value == u.value + 1
  }

  /** The graph `to_graph` builds: a key for every cell, listing without
      repeats exactly the ascents out of that cell. */
  ghost predicate TrailMap(cells: seq<nat>, w: nat, h: nat, graph: map<Node, seq<Node>>)
  {
    && (forall u :: u in graph <==> OnMap(cells, w, h, u))
    && (forall u, v :: u in graph ==> (v in graph[u] <==> Ascent(cells, w, h, u, v)))
    && (forall u :: u in graph ==> NoDuplicates(graph[u]))
  }

  /** The inner loops of `to_graph` for one cell: the offsets (i, j) in
      -1..=1 x -1..=1 without the corners, kept when in extents and one higher. */
  method Ascents(values: Grid<nat>, from: Node) returns (neighbors: seq<Node>)
    requires values.Valid() && OnMap(values.data, values.width, values.height, from)
    ensures forall v :: v in neighbors <==> Ascent(values.data, values.width, values.height, from, v)
    ensures NoDuplicates(neighbors)
  {
    var (x, y) := from.xy;
    var height := from.value;
    neighbors := [];
    for i := -1 to 2
      invariant forall v :: v in neighbors <==>
        Ascent(values.data, values.width, values.height, from, v) && v.xy.0 < x + i
      invariant NoDuplicates(neighbors)
    {
      for j := -1 to 2
        invariant forall v :: v in neighbors <==>
          Ascent(values.data, values.width, values.height, from, v) &&
          (v.xy.0 < x + i || (v.xy.0 == x + i && v.xy.1 < y + j))
        invariant NoDuplicates(neighbors)
      {
        if Abs(i) + Abs(j) == 2 {
          continue;
        }
        var xn, yn := x + i, y + j;
        if !values.IsWithinExtents(xn, yn) {
          continue;
        }
        values.InExtentsHasOffset(xn, yn);
        var vn := values.At(xn, yn);
        if height + 1 == vn {
          var next := Node((xn, yn), vn);
          NoDuplicatesAppend(neighbors, next);
          neighbors := neighbors + [next];
        }
      }
    }
  }

  /** `to_graph`: for x over the width and y over the height, the cell's node
      mapped to its ascents. */
  method ToGraph(values: Grid<nat>) returns (graph: map<Node, seq<Node>>)
    requires values.Valid()
    ensures TrailMap(values.data, values.width, values.height, graph)
  {
    graph := map[];
    for x := 0 to values.width
      invariant forall u :: u in graph <==> OnMap(values.data, values.width, values.height, u) && u.xy.0 < x
      invariant forall u, v :: u in graph ==> (v in graph[u] <==> Ascent(values.data, values.width, values.height, u, v))
      invariant forall u :: u in graph ==> NoDuplicates(graph[u])
    {
      for y := 0 to values.height
        invariant forall u :: u in graph <==> (OnMap(values.data, values.width, values.height, u) &&
          (u.xy.0 < x || (u.xy.0 == x && u.xy.1 < y)))
        invariant forall u, v :: u in graph ==> (v in graph[u] <==> Ascent(values.data, values.width, values.height, u, v))
        invariant forall u :: u in graph ==> NoDuplicates(graph[u])
      {
        values.InExtentsHasOffset(x, y);
        var height := values.At(x, y);
        var from := Node((x, y), height);
        var neighbors := Ascents(values, from);
        graph := graph[from := neighbors];
      }
    }
  }

  /** Every edge target is a key again, so `graph.get(..).unwrap()` never fails. */
  predicate Closed(graph: map<Node, seq<Node>>)
  {
    forall u, v :: u in graph && v in graph[u] ==> v in graph
  }

  /** Closed, with no key above a summit and every edge climbing one step. */
  predicate Layered(graph: map<Node, seq<Node>>)
  {
    && Closed(graph)
    && (forall u :: u in graph ==> u.value <= SummitHeight)
    && (forall u, v :: u in graph && v in graph[u] ==> v.value == u.value + 1)
  }

  /** The graph of a digit map is layered: its edges only climb, so it has no cycle. */
  lemma TrailMapLayered(cells: seq<nat>, w: nat, h: nat, graph: map<Node, seq<Node>>)
    requires TrailMap(cells, w, h, graph)
    requires forall k :: 0 <= k < |cells| ==> cells[k] <= SummitHeight
    ensures Layered(graph) && Simple(graph)
  {
  }

  // ---------------------------------------------------------------------
  // Trails and the two scores

  /** A trail in the graph: each node an edge target of the one before, and
      no node but the last a summit (a summit is never expanded). */
  ghost predicate Trail(graph: map<Node, seq<Node>>, p: seq<Node>)
  {
    |p| >= 1 &&
    forall i :: 0 <= i < |p| - 1 ==> p[i] in graph && p[i].value != SummitHeight && p[i + 1] in graph[p[i]]
  }

  /** The keys at the end of a trail from start. */
  ghost function Reachable(graph: map<Node, seq<Node>>, start: Node): set<Node>
  {
    set v | v in graph && exists p :: Trail(graph, p) && p[0] == start && p[|p| - 1] == v
  }

  /** The summits among them: what the first score counts. */
  ghost function SummitsFrom(graph: map<Node, seq<Node>>, start: Node): set<Node>
  {
    set v | v in Reachable(graph, start) && v.value == SummitHeight
  }

  function SummitsIn(explored: set<Node>): set<Node>
  {
    set v | v in explored && v.value == SummitHeight
  }

  /** One sum over the tree of trails from u: every summit counts 1 and every
      other node `inner`. With `inner` 0 it counts the trails from u to a
      summit; with `inner` 1 it counts the nodes of that tree. */
  function TreeSum(graph: map<Node, seq<Node>>, u: Node, inner: nat): nat
    requires Layered(graph) && u in graph
    decreases SummitHeight - u.value, 1, 0
  {
    if u.value == SummitHeight then 1
    else inner + ListSum(graph, graph[u], inner, u.value + 1)
  }

  /** TreeSum over a list of nodes no lower than `floor`. */
  function ListSum(graph: map<Node, seq<Node>>, vs: seq<Node>, inner: nat, floor: nat): nat
    requires Layered(graph) && floor <= SummitHeight + 1
    requires forall v :: v in vs ==> v in graph && v.value >= floor
    decreases SummitHeight + 1 - floor, 0, |vs|
  {
    if vs == [] then 0
    else
      var n := |vs| - 1;
      ListSum(graph, vs[..n], inner, floor) + TreeSum(graph, vs[n], inner)
  }

  /** The number of trails from u to a summit. */
  function TrailCount(graph: map<Node, seq<Node>>, u: Node): nat
    requires Layered(graph) && u in graph
  {
    TreeSum(graph, u, 0)
  }

  /** Every queue a search can hold lies within the keys, all at height 0 or more. */
  predicate Keys(graph: map<Node, seq<Node>>, vs: seq<Node>)
  {
    forall v :: v in vs ==> v in graph
  }

  lemma {:induction false} ListSumAppend(graph: map<Node, seq<Node>>, a: seq<Node>, b: seq<Node>, inner: nat)
    requires Layered(graph) && Keys(graph, a) && Keys(graph, b)
    ensures Keys(graph, a + b)
    ensures ListSum(graph, a + b, inner, 0) == ListSum(graph, a, inner, 0) + ListSum(graph, b, inner, 0)
    decreases |b|
  {
    if b == [] {
      assert a + b == a;
    } else {
      var n := |b| - 1;
      assert (a + b)[..|a + b| - 1] == a + b[..n];
      ListSumAppend(graph, a, b[..n], inner);
    }
  }

  /** The floor only bounds the recursion; the sum does not depend on it. */
  lemma {:induction false} ListSumFloor(graph: map<Node, seq<Node>>, vs: seq<Node>, inner: nat, floor: nat)
    requires Layered(graph) && floor <= SummitHeight + 1
    requires forall v :: v in vs ==> v in graph && v.value >= floor
    ensures ListSum(graph, vs, inner, floor) == ListSum(graph, vs, inner, 0)
    decreases |vs|
  {
    if vs != [] {
      ListSumFloor(graph, vs[..|vs| - 1], inner, floor);
    }
  }

  lemma ListSumSingle(graph: map<Node, seq<Node>>, c: Node, inner: nat)
    requires Layered(graph) && c in graph
    ensures ListSum(graph, [c], inner, 0) == TreeSum(graph, c, inner)
  {
    assert [c][..0] == [];
  }

  /** Below the summit, a node counts `inner` plus the sums of its edge targets. */
  lemma TreeSumInner(graph: map<Node, seq<Node>>, c: Node, inner: nat)
    requires Layered(graph) && c in graph && c.value != SummitHeight
    ensures Keys(graph, graph[c])
    ensures TreeSum(graph, c, inner) == inner + ListSum(graph, graph[c], inner, 0)
  {
    ListSumFloor(graph, graph[c], inner, c.value + 1);
  }

  /** Popping the front of the queue and pushing its edge targets (none for
      a summit) trades its TreeSum for its own count. */
  lemma PopExpands(graph: map<Node, seq<Node>>, queue: seq<Node>, inner: nat)
    requires Layered(graph) && Keys(graph, queue) && queue != []
    ensures var c := queue[0];
      var pushed := if c.value == SummitHeight then [] else graph[c];
      Keys(graph, queue[1..] + pushed) &&
      ListSum(graph, queue, inner, 0) ==
        (if c.value == SummitHeight then 1 else inner) + ListSum(graph, queue[1..] + pushed, inner, 0)
  {
    var c, rest := queue[0], queue[1..];
    assert Keys(graph, [c]) && Keys(graph, rest);
    assert queue == [c] + rest;
    ListSumAppend(graph, [c], rest, inner);
    ListSumSingle(graph, c, inner);
    if c.value == SummitHeight {
      assert rest + [] == rest;
    } else {
      TreeSumInner(graph, c, inner);
      ListSumAppend(graph, rest, graph[c], inner);
    }
  }

  /** The edge targets not explored yet, in order. */
  function Unexplored(edges: seq<Node>, explored: set<Node>): seq<Node>
  {
    if edges == [] then []
    else
      var n := |edges| - 1;
      Unexplored(edges[..n], explored) + (if edges[n] in explored then [] else [edges[n]])
  }

  lemma {:induction false} UnexploredMembers(edges: seq<Node>, explored: set<Node>)
    ensures forall v :: v in Unexplored(edges, explored) <==> v in edges && v !in explored
  {
    if edges != [] {
      var n := |edges| - 1;
      assert edges == edges[..n] + [edges[n]];
      UnexploredMembers(edges[..n], explored);
    }
  }

  /** When no edge target is explored, all are pushed. */
  lemma {:induction false} UnexploredAll(edges: seq<Node>, explored: set<Node>)
    requires forall v :: v in edges ==> v !in explored
    ensures Unexplored(edges, explored) == edges
  {
    if edges != [] {
      var n := |edges| - 1;
      assert edges == edges[..n] + [edges[n]];
      UnexploredAll(edges[..n], explored);
    }
  }

  /** The `for next in edges` loop: push every edge target not yet explored. */
  method PushUnexplored(queue: seq<Node>, edges: seq<Node>, explored: set<Node>) returns (r: seq<Node>)
    ensures r == queue + Unexplored(edges, explored)
  {
    r := queue;
    for k := 0 to |edges|
      invariant r == queue + Unexplored(edges[..k], explored)
    {
      assert edges[..k + 1][..k] == edges[..k];
      assert Unexplored(edges[..k + 1], explored) ==
        Unexplored(edges[..k], explored) + (if edges[k] in explored then [] else [edges[k]]);
      if edges[k] !in explored {
        r := r + [edges[k]];
      }
    }
    assert edges[..|edges|] == edges;
  }

  /** The state of the summit search (`as_rating` false): everything queued
      or explored is reachable, start is one of them, every explored
      non-summit has its edge targets explored or queued, and the count is
      the number of explored summits. */
  ghost predicate Searching(graph: map<Node, seq<Node>>, start: Node, queue: seq<Node>, explored: set<Node>, summits: nat)
  {
    && explored + Elems(queue) <= Reachable(graph, start)
    && (start in explored || start in queue)
    && (forall u, v :: u in explored && u.value != SummitHeight && u in graph && v in graph[u] ==>
          v in explored || v in queue)
    && summits == |SummitsIn(explored)|
  }

  /** Heights along the queue never fall and span at most one step. */
  predicate Banded(queue: seq<Node>)
  {
    forall i, j :: 0 <= i < j < |queue| ==> queue[i].value <= queue[j].value <= queue[i].value + 1
  }

  /** Dropping the front of a banded queue at height lo and appending nodes
      of height lo + 1 keeps it banded, and no lower than lo. */
  lemma BandedPush(queue: seq<Node>, pushed: seq<Node>)
    requires queue != [] && Banded(queue)
    requires forall v :: v in pushed ==> v.value == queue[0].value + 1
    ensures Banded(queue[1..] + pushed)
    ensures forall i :: 0 <= i < |queue[1..] + pushed| ==> queue[0].value <= (queue[1..] + pushed)[i].value
  {
    var rest, q := queue[1..], queue[1..] + pushed;
    forall i | 0 <= i < |q| ensures queue[0].value <= q[i].value {
      if i < |rest| {
        assert q[i] == queue[i + 1];
      } else {
        assert q[i] in pushed;
      }
    }
    forall i, j | 0 <= i < j < |q| ensures q[i].value <= q[j].value <= q[i].value + 1 {
      if j < |rest| {
        assert q[i] == queue[i + 1] && q[j] == queue[j + 1];
      } else if i < |rest| {
        assert q[i] == queue[i + 1] && q[j] in pushed;
      } else {
        assert q[i] in pushed && q[j] in pushed;
      }
    }
  }

  /** The state of the rating search (`as_rating` true): queued heights never
      fall and span at most one step, nothing explored is higher than
      anything queued, and the count plus the trails still ahead from the
      queue is the number of trails from start. */
  ghost predicate Rating(graph: map<Node, seq<Node>>, start: Node, queue: seq<Node>, explored: set<Node>, summits: nat)
    requires Layered(graph) && start in graph && Keys(graph, queue)
  {
    && Banded(queue)
    && (forall e, i :: e in explored && 0 <= i < |queue| ==> e.value <= queue[i].value)
    && summits + ListSum(graph, queue, 0, 0) == TrailCount(graph, start)
  }

  lemma StartReachable(graph: map<Node, seq<Node>>, start: Node)
    requires start in graph
    ensures start in Reachable(graph, start)
  {
    assert Trail(graph, [start]);
  }

  /** An edge out of a reachable non-summit leads to a reachable node. */
  lemma ReachStep(graph: map<Node, seq<Node>>, start: Node, c: Node, v: Node)
    requires Closed(graph) && c in Reachable(graph, start) && c.value != SummitHeight && v in graph[c]
    ensures v in Reachable(graph, start)
  {
    var p :| Trail(graph, p) && p[0] == start && p[|p| - 1] == c;
    var q := p + [v];
    assert Trail(graph, q);
    assert q[|q| - 1] == v;
  }

  /** A set holding start and closed under expanding non-summits holds
      every node at the end of a trail from start. */
  lemma ClosedCoversReachable(graph: map<Node, seq<Node>>, start: Node, explored: set<Node>)
    requires start in explored
    requires forall u, v :: u in explored && u.value != SummitHeight && u in graph && v in graph[u] ==> v in explored
    ensures Reachable(graph, start) <= explored
  {
    forall v | v in Reachable(graph, start) ensures v in explored {
      var p :| Trail(graph, p) && p[0] == start && p[|p| - 1] == v;
      var i := 0;
      while i < |p| - 1
        invariant 0 <= i < |p| && p[i] in explored
      {
        i := i + 1;
      }
    }
  }

  /** The summit search starts with only start queued. */
  lemma SearchStart(graph: map<Node, seq<Node>>, start: Node)
    requires start in graph
    ensures Searching(graph, start, [start], {}, 0)
  {
    StartReachable(graph, start);
    assert SummitsIn({}) == {};
  }

  /** The rating search starts with only start queued. */
  lemma RatingStart(graph: map<Node, seq<Node>>, start: Node)
    requires Layered(graph) && start in graph
    ensures Keys(graph, [start]) && Rating(graph, start, [start], {}, 0)
  {
    ListSumSingle(graph, start, 0);
  }

  /** With the queue empty, the explored summits are all the summits reachable. */
  lemma SearchDone(graph: map<Node, seq<Node>>, start: Node, explored: set<Node>, summits: nat)
    requires Searching(graph, start, [], explored, summits)
    ensures summits == |SummitsFrom(graph, start)|
  {
    ClosedCoversReachable(graph, start, explored);
    assert SummitsIn(explored) == SummitsFrom(graph, start);
  }

  /** Popping an explored node changes nothing else. */
  lemma SkipKeeps(graph: map<Node, seq<Node>>, start: Node, queue: seq<Node>, explored: set<Node>, summits: nat)
    requires queue != [] && queue[0] in explored && Keys(graph, queue)
    requires Searching(graph, start, queue, explored, summits)
    ensures Keys(graph, queue[1..]) && Searching(graph, start, queue[1..], explored, summits)
  {
    assert forall v :: v in queue ==> v == queue[0] || v in queue[1..];
  }

  /** Popping an unexplored summit counts it. */
  lemma SummitKeeps(graph: map<Node, seq<Node>>, start: Node, queue: seq<Node>, explored: set<Node>, summits: nat)
    requires queue != [] && queue[0] !in explored && queue[0].value == SummitHeight && Keys(graph, queue)
    requires Searching(graph, start, queue, explored, summits)
    ensures Keys(graph, queue[1..]) && Searching(graph, start, queue[1..], explored + {queue[0]}, summits + 1)
  {
    var c := queue[0];
    assert forall v :: v in queue ==> v == c || v in queue[1..];
    assert SummitsIn(explored + {c}) == SummitsIn(explored) + {c};
  }

  /** Popping an unexplored non-summit queues its unexplored edge targets. */
  lemma ExpandKeeps(graph: map<Node, seq<Node>>, start: Node, queue: seq<Node>, explored: set<Node>, summits: nat)
    requires Closed(graph) && queue != [] && queue[0] in graph
    requires queue[0] !in explored && queue[0].value != SummitHeight
    requires Searching(graph, start, queue, explored, summits)
    requires Keys(graph, queue)
    ensures Keys(graph, queue[1..] + Unexplored(graph[queue[0]], explored + {queue[0]}))
    ensures Searching(graph, start, queue[1..] + Unexplored(graph[queue[0]], explored + {queue[0]}),
      explored + {queue[0]}, summits)
  {
    var c, rest := queue[0], queue[1..];
    var e := explored + {c};
    var q := rest + Unexplored(graph[c], e);
    assert forall v :: v in queue ==> v == c || v in rest;
    UnexploredMembers(graph[c], e);
    assert forall v :: v in q <==> v in rest || (v in graph[c] && v !in e);
    assert SummitsIn(e) == SummitsIn(explored);
    assert c in Reachable(graph, start);
    forall v | v in q ensures v in Reachable(graph, start) {
      if v !in rest {
        ReachStep(graph, start, c, v);
      }
    }
    assert e + Elems(q) <= Reachable(graph, start);
    assert start in e || start in q;
    forall u, v | u in e && u.value != SummitHeight && u in graph && v in graph[u] ensures v in e || v in q {
      if u != c {
        assert v in explored || v in queue;
      }
    }
  }

  /** Popping a summit in the rating search counts it. */
  lemma RatingSummit(graph: map<Node, seq<Node>>, start: Node, queue: seq<Node>, explored: set<Node>, summits: nat)
    requires Layered(graph) && start in graph && Keys(graph, queue) && queue != []
    requires Rating(graph, start, queue, explored, summits) && queue[0].value == SummitHeight
    ensures Keys(graph, queue[1..]) && Rating(graph, start, queue[1..], explored + {queue[0]}, summits + 1)
    ensures ListSum(graph, queue[1..], 1, 0) < ListSum(graph, queue, 1, 0)
  {
    PopExpands(graph, queue, 0);
    PopExpands(graph, queue, 1);
    TailShift(queue);
  }

  /** Popping a non-summit in the rating search pushes all its edge targets,
      none of them explored yet, and shrinks the tree of trails ahead. */
  lemma RatingExpand(graph: map<Node, seq<Node>>, start: Node, queue: seq<Node>, explored: set<Node>, summits: nat)
    requires Layered(graph) && start in graph && Keys(graph, queue) && queue != []
    requires Rating(graph, start, queue, explored, summits) && queue[0].value != SummitHeight
    ensures Unexplored(graph[queue[0]], explored + {queue[0]}) == graph[queue[0]]
    ensures Keys(graph, queue[1..] + graph[queue[0]])
    ensures Rating(graph, start, queue[1..] + graph[queue[0]], explored + {queue[0]}, summits)
    ensures ListSum(graph, queue[1..] + graph[queue[0]], 1, 0) < ListSum(graph, queue, 1, 0)
  {
    var c, e := queue[0], explored + {queue[0]};
    PopExpands(graph, queue, 0);
    PopExpands(graph, queue, 1);
    forall v | v in graph[c] ensures v !in e {
      assert v.value == c.value + 1;
    }
    UnexploredAll(graph[c], e);
    BandedPush(queue, graph[c]);
  }

  /** `rate_trailhead`: the breadth-first walk from start that counts each
      summit it pops. Without `asRating` a node is expanded at most once, so
      the count is the number of summits reachable; with it nothing is
      skipped when popped, so the count is the number of trails. */
  method RateTrailhead(start: Node, graph: map<Node, seq<Node>>, asRating: bool) returns (summits: nat)
    requires start in graph && Closed(graph)
    requires asRating ==> Layered(graph)
    ensures !asRating ==> summits == |SummitsFrom(graph, start)|
    ensures asRating ==> summits == TrailCount(graph, start)
  {
    summits := 0;
    var queue: seq<Node> := [start];
    var explored: set<Node> := {};
    if asRating {
      RatingStart(graph, start);
    } else {
      SearchStart(graph, start);
    }
    while queue != []
      invariant Keys(graph, queue) && explored <= graph.Keys
      invariant !asRating ==> Searching(graph, start, queue, explored, summits)
      invariant asRating ==> Rating(graph, start, queue, explored, summits)
      decreases if asRating then ListSum(graph, queue, 1, 0) else |graph.Keys - explored|,
        if asRating then 0 else |queue|
    {
      if asRating {
        queue, explored, summits := VisitRating(start, graph, queue, explored, summits);
      } else {
        queue, explored, summits := VisitSearch(start, graph, queue, explored, summits);
      }
    }
    if !asRating {
      SearchDone(graph, start, explored, summits);
    }
  }

  /** One pass of `rate_trailhead`'s loop when searching: pop the front
      node; skip it when explored, count it at a summit, otherwise queue its
      unexplored targets. */
  method VisitSearch(start: Node, graph: map<Node, seq<Node>>, queue: seq<Node>, explored: set<Node>, summits: nat)
    returns (queue': seq<Node>, explored': set<Node>, summits': nat)
    requires start in graph && Closed(graph)
    requires queue != [] && Keys(graph, queue) && explored <= graph.Keys
    requires Searching(graph, start, queue, explored, summits)
    ensures Keys(graph, queue') && explored' <= graph.Keys
    ensures Searching(graph, start, queue', explored', summits')
    ensures |graph.Keys - explored'| < |graph.Keys - explored| || (explored' == explored && |queue'| < |queue|)
  {
    var current := queue[0];
    queue', explored', summits' := queue[1..], explored, summits;
    if current in explored {
      SkipKeeps(graph, start, queue, explored, summits);
    } else {
      FewerOutside(graph.Keys, explored, current);
      if current.value == SummitHeight {
        SummitKeeps(graph, start, queue, explored, summits);
      } else {
        ExpandKeeps(graph, start, queue, explored, summits);
      }
      explored' := explored + {current};
      if current.value == SummitHeight {
        summits' := summits + 1;
      } else {
        queue' := PushUnexplored(queue', graph[current], explored');
      }
    }
  }

  /** One pass of the loop when rating: nothing is skipped, a summit is
      counted, any other node queues its targets not yet explored. */
  method VisitRating(start: Node, graph: map<Node, seq<Node>>, queue: seq<Node>, explored: set<Node>, summits: nat)
    returns (queue': seq<Node>, explored': set<Node>, summits': nat)
    requires start in graph && Closed(graph) && Layered(graph)
    requires queue != [] && Keys(graph, queue) && explored <= graph.Keys
    requires Rating(graph, start, queue, explored, summits)
    ensures Keys(graph, queue') && explored' <= graph.Keys
    ensures Rating(graph, start, queue', explored', summits')
    ensures ListSum(graph, queue', 1, 0) < ListSum(graph, queue, 1, 0)
  {
    var current := queue[0];
    queue', explored', summits' := queue[1..], explored + {current}, summits;
    if current.value == SummitHeight {
      RatingSummit(graph, start, queue, explored, summits);
      summits' := summits + 1;
    } else {
      RatingExpand(graph, start, queue, explored, summits);
      queue' := PushUnexplored(queue', graph[current], explored');
    }
  }

  // ---------------------------------------------------------------------
  // What the rating counts

  /** t is a trail from u that ends at a summit. */
  ghost predicate SummitTrail(graph: map<Node, seq<Node>>, u: Node, t: seq<Node>)
  {
    Trail(graph, t) && t[0] == u && t[|t| - 1].value == SummitHeight
  }

  /** No key lists an edge target twice. */
  predicate Simple(graph: map<Node, seq<Node>>)
  {
    forall u :: u in graph ==> NoDuplicates(graph[u])
  }

  function Prefixed(u: Node, ts: seq<seq<Node>>): (r: seq<seq<Node>>)
    ensures |r| == |ts| && forall i :: 0 <= i < |ts| ==> r[i] == [u] + ts[i]
  {
    seq(|ts|, i requires 0 <= i < |ts| => [u] + ts[i])
  }

  /** The trails from u to a summit, listed edge by edge. */
  ghost function TrailsFrom(graph: map<Node, seq<Node>>, u: Node): seq<seq<Node>>
    requires Layered(graph) && u in graph
    decreases SummitHeight - u.value, 1, 0
  {
    if u.value == SummitHeight then [[u]] else TrailsThrough(graph, u, graph[u])
  }

  /** u followed by each trail from each of vs, in order. */
  ghost function TrailsThrough(graph: map<Node, seq<Node>>, u: Node, vs: seq<Node>): seq<seq<Node>>
    requires Layered(graph) && u in graph && u.value < SummitHeight
    requires forall v :: v in vs ==> v in graph[u]
    decreases SummitHeight - u.value, 0, |vs|
  {
    if vs == [] then []
    else
      var n := |vs| - 1;
      TrailsThrough(graph, u, vs[..n]) + Prefixed(u, TrailsFrom(graph, vs[n]))
  }

  lemma {:induction false} TrailsSound(graph: map<Node, seq<Node>>, u: Node)
    requires Layered(graph) && u in graph
    ensures forall t :: t in TrailsFrom(graph, u) ==> SummitTrail(graph, u, t)
    decreases SummitHeight - u.value, 1, 0
  {
    if u.value == SummitHeight {
      assert Trail(graph, [u]);
    } else {
      ThroughSound(graph, u, graph[u]);
    }
  }

  lemma {:induction false} ThroughSound(graph: map<Node, seq<Node>>, u: Node, vs: seq<Node>)
    requires Layered(graph) && u in graph && u.value < SummitHeight
    requires forall v :: v in vs ==> v in graph[u]
    ensures forall t :: t in TrailsThrough(graph, u, vs) ==> SummitTrail(graph, u, t)
    decreases SummitHeight - u.value, 0, |vs|
  {
    if vs != [] {
      var n := |vs| - 1;
      var v := vs[n];
      ThroughSound(graph, u, vs[..n]);
      TrailsSound(graph, v);
      var ts := TrailsFrom(graph, v);
      forall t: seq<Node> | t in Prefixed(u, ts) ensures SummitTrail(graph, u, t) {
        var i :| 0 <= i < |ts| && Prefixed(u, ts)[i] == t;
        var w := ts[i];
        assert SummitTrail(graph, v, w);
        assert t == [u] + w;
        forall k | 0 <= k < |t| - 1 ensures t[k] in graph && t[k].value != SummitHeight && t[k + 1] in graph[t[k]] {
          if k > 0 {
            assert t[k] == w[k - 1] && t[k + 1] == w[k];
          }
        }
      }
    }
  }

  /** A trail listed from one of vs, behind u, is among the trails through vs. */
  lemma {:induction false} ThroughContains(graph: map<Node, seq<Node>>, u: Node, vs: seq<Node>, k: nat, w: seq<Node>)
    requires Layered(graph) && u in graph && u.value < SummitHeight
    requires forall v :: v in vs ==> v in graph[u]
    requires k < |vs| && w in TrailsFrom(graph, vs[k])
    ensures [u] + w in TrailsThrough(graph, u, vs)
    decreases |vs|
  {
    var n := |vs| - 1;
    if k == n {
      var ts := TrailsFrom(graph, vs[n]);
      var i :| 0 <= i < |ts| && ts[i] == w;
      assert Prefixed(u, ts)[i] == [u] + w;
    } else {
      assert vs[..n][k] == vs[k];
      ThroughContains(graph, u, vs[..n], k, w);
    }
  }

  /** Every trail from u to a summit is listed. */
  lemma {:induction false} TrailsComplete(graph: map<Node, seq<Node>>, u: Node, t: seq<Node>)
    requires Layered(graph) && u in graph && SummitTrail(graph, u, t)
    ensures t in TrailsFrom(graph, u)
    decreases SummitHeight - u.value
  {
    if u.value == SummitHeight {
      assert |t| == 1;
      assert t == [u];
    } else {
      assert |t| >= 2;
      var v, w := t[1], t[1..];
      assert SummitTrail(graph, v, w) by {
        forall k | 0 <= k < |w| - 1 ensures w[k] in graph && w[k].value != SummitHeight && w[k + 1] in graph[w[k]] {
          assert w[k] == t[k + 1] && w[k + 1] == t[k + 2];
        }
      }
      TrailsComplete(graph, v, w);
      var k :| 0 <= k < |graph[u]| && graph[u][k] == v;
      ThroughContains(graph, u, graph[u], k, w);
      assert t == [u] + w;
    }
  }

  lemma {:induction false} TrailsDistinct(graph: map<Node, seq<Node>>, u: Node)
    requires Layered(graph) && Simple(graph) && u in graph
    ensures NoDuplicates(TrailsFrom(graph, u))
    decreases SummitHeight - u.value, 1, 0
  {
    if u.value != SummitHeight {
      ThroughDistinct(graph, u, graph[u]);
    }
  }

  lemma {:induction false} ThroughDistinct(graph: map<Node, seq<Node>>, u: Node, vs: seq<Node>)
    requires Layered(graph) && Simple(graph) && u in graph && u.value < SummitHeight
    requires (forall v :: v in vs ==> v in graph[u]) && NoDuplicates(vs)
    ensures NoDuplicates(TrailsThrough(graph, u, vs))
    ensures forall t :: t in TrailsThrough(graph, u, vs) ==> |t| >= 2 && t[1] in vs
    decreases SummitHeight - u.value, 0, |vs|
  {
    if vs != [] {
      var n := |vs| - 1;
      var v, front := vs[n], vs[..n];
      assert vs == front + [v];
      NoDuplicatesConcat(front, [v]);
      ThroughDistinct(graph, u, front);
      TrailsDistinct(graph, v);
      TrailsSound(graph, v);
      var ts := TrailsFrom(graph, v);
      var block := Prefixed(u, ts);
      forall i, j | 0 <= i < j < |block| ensures block[i] != block[j] {
        assert block[i][1..] == ts[i] && block[j][1..] == ts[j];
      }
      forall t: seq<Node> | t in block ensures |t| >= 2 && t[1] == v {
        var i :| 0 <= i < |ts| && block[i] == t;
        assert SummitTrail(graph, v, ts[i]);
      }
      var rest := TrailsThrough(graph, u, front);
      assert Elems(rest) !! Elems(block) by {
        forall t: seq<Node> | t in rest ensures t !in block {
          assert t[1] in front;
        }
      }
      NoDuplicatesConcat(rest, block);
    }
  }

  lemma {:induction false} TrailsCounted(graph: map<Node, seq<Node>>, u: Node)
    requires Layered(graph) && u in graph
    ensures |TrailsFrom(graph, u)| == TrailCount(graph, u)
    decreases SummitHeight - u.value, 1, 0
  {
    if u.value != SummitHeight {
      ThroughCounted(graph, u, graph[u]);
    }
  }

  lemma {:induction false} ThroughCounted(graph: map<Node, seq<Node>>, u: Node, vs: seq<Node>)
    requires Layered(graph) && u in graph && u.value < SummitHeight
    requires forall v :: v in vs ==> v in graph[u]
    ensures |TrailsThrough(graph, u, vs)| == ListSum(graph, vs, 0, u.value + 1)
    decreases SummitHeight - u.value, 0, |vs|
  {
    if vs != [] {
      var n := |vs| - 1;
      ThroughCounted(graph, u, vs[..n]);
      TrailsCounted(graph, vs[n]);
    }
  }

  /** The rating of a node is the number of distinct trails from it to a
      summit: the listing holds exactly those trails, each once, and as many
      as TrailCount says. */
  lemma TrailCountCounts(graph: map<Node, seq<Node>>, u: Node)
    requires Layered(graph) && Simple(graph) && u in graph
    ensures forall t :: t in TrailsFrom(graph, u) <==> SummitTrail(graph, u, t)
    ensures NoDuplicates(TrailsFrom(graph, u))
    ensures |TrailsFrom(graph, u)| == TrailCount(graph, u)
  {
    TrailsSound(graph, u);
    forall t: seq<Node> | SummitTrail(graph, u, t) ensures t in TrailsFrom(graph, u) {
      TrailsComplete(graph, u, t);
    }
    TrailsDistinct(graph, u);
    TrailsCounted(graph, u);
  }

  /** The last nodes of a list of trails. */
  ghost function Ends(ts: seq<seq<Node>>): set<Node>
  {
    set t | t in ts && |t| > 0 :: t[|t| - 1]
  }

  lemma {:induction false} EndsBound(ts: seq<seq<Node>>)
    ensures |Ends(ts)| <= |ts|
  {
    if ts != [] {
      var n := |ts| - 1;
      EndsBound(ts[..n]);
      assert ts == ts[..n] + [ts[n]];
      var extra := if |ts[n]| > 0 then {ts[n][|ts[n]| - 1]} else {};
      assert Ends(ts) <= Ends(ts[..n]) + extra;
      assert |Ends(ts)| <= |Ends(ts[..n]) + extra| by {
        SubsetCard(Ends(ts), Ends(ts[..n]) + extra);
      }
    }
  }

  lemma SubsetCard<T>(a: set<T>, b: set<T>)
    requires a <= b
    ensures |a| <= |b|
  {
    assert b == a + (b - a);
  }

  /** A node has at least as many trails as summits it reaches, and it has a
      trail exactly when it reaches a summit: part two's score bounds part one's. */
  lemma RatingBoundsScore(graph: map<Node, seq<Node>>, u: Node)
    requires Layered(graph) && Simple(graph) && u in graph
    ensures |SummitsFrom(graph, u)| <= TrailCount(graph, u)
    ensures TrailCount(graph, u) > 0 <==> SummitsFrom(graph, u) != {}
  {
    TrailCountCounts(graph, u);
    var ts := TrailsFrom(graph, u);
    assert SummitsFrom(graph, u) <= Ends(ts) by {
      forall v | v in SummitsFrom(graph, u) ensures v in Ends(ts) {
        var p :| Trail(graph, p) && p[0] == u && p[|p| - 1] == v;
        assert SummitTrail(graph, u, p);
      }
    }
    SubsetCard(SummitsFrom(graph, u), Ends(ts));
    EndsBound(ts);
    if TrailCount(graph, u) > 0 {
      var t := ts[0];
      assert SummitTrail(graph, u, t);
      var v := t[|t| - 1];
      assert v in graph by {
        if |t| > 1 {
          assert t[|t| - 1] in graph[t[|t| - 2]];
        }
      }
      assert v in Reachable(graph, u);
      assert v in SummitsFrom(graph, u);
    }
  }

  // ---------------------------------------------------------------------
  // The puzzle

  /** The pairs of ps whose cell holds a trailhead, in order. */
  function KeepTrailheads(cells: seq<nat>, w: nat, h: nat, ps: seq<(nat, nat)>): (r: seq<(nat, nat)>)
    ensures forall p :: p in r <==> p in ps && OnMap(cells, w, h, Node(p, TrailheadHeight))
    ensures NoDuplicates(ps) ==> NoDuplicates(r)
  {
    if ps == [] then []
    else
      var n := |ps| - 1;
      assert ps == ps[..n] + [ps[n]];
      NoDuplicatesConcat(ps[..n], [ps[n]]);
      var front := KeepTrailheads(cells, w, h, ps[..n]);
      if OnMap(cells, w, h, Node(ps[n], TrailheadHeight)) then
        NoDuplicatesConcat(front, [ps[n]]);
        front + [ps[n]]
      else front
  }

  /** The trailheads as `problem` lists them: the pairs (x, y) of
      `iproduct!(0..height, 0..width)` whose cell holds 0. On a square map
      that is every trailhead once. */
  function Trailheads(cells: seq<nat>, w: nat, h: nat): (r: seq<(nat, nat)>)
    requires w == h
    ensures forall p :: p in r <==> OnMap(cells, w, h, Node(p, TrailheadHeight))
    ensures NoDuplicates(r)
  {
    ProductNoDuplicates(Range(h), Range(w));
    KeepTrailheads(cells, w, h, Product(Range(h), Range(w)))
  }

  /** The score of one trailhead: its summits, or its trails when rating. */
  ghost function TrailheadScore(graph: map<Node, seq<Node>>, start: Node, asRating: bool): nat
    requires Layered(graph) && start in graph
  {
    if asRating then TrailCount(graph, start) else |SummitsFrom(graph, start)|
  }

  /** The scores of the given trailheads, summed. */
  ghost function Score(graph: map<Node, seq<Node>>, heads: seq<(nat, nat)>, asRating: bool): nat
    requires Layered(graph) && forall p :: p in heads ==> Node(p, TrailheadHeight) in graph
  {
    if heads == [] then 0
    else
      var n := |heads| - 1;
      Score(graph, heads[..n], asRating) + TrailheadScore(graph, Node(heads[n], TrailheadHeight), asRating)
  }

  /** The sum is zero exactly when no trailhead scores. */
  lemma {:induction false} ScoreZero(graph: map<Node, seq<Node>>, heads: seq<(nat, nat)>, asRating: bool)
    requires Layered(graph) && forall p :: p in heads ==> Node(p, TrailheadHeight) in graph
    ensures Score(graph, heads, asRating) == 0 <==>
      forall i :: 0 <= i < |heads| ==> TrailheadScore(graph, Node(heads[i], TrailheadHeight), asRating) == 0
  {
    if heads != [] {
      var n := |heads| - 1;
      ScoreZero(graph, heads[..n], asRating);
      assert forall i :: 0 <= i < n ==> heads[..n][i] == heads[i];
    }
  }

  /** `problem`: parse the map, build its graph and sum the scores of its
      trailheads. None when the input holds a non-digit. The map must be
      square, as the transposed trailhead scan assumes. */
  method Problem(lines: seq<string>, asRating: bool) returns (r: Option<nat>, ghost graph: map<Node, seq<Node>>)
    requires forall i :: 0 <= i < |lines| ==> |lines[i]| == |lines|
    ensures r.None? <==> !AllDigits(Flatten(lines))
    ensures r.Some? ==> var cells := DigitValues(Flatten(lines)).value;
      TrailMap(cells, |lines|, |lines|, graph) && Layered(graph) &&
      r.value == Score(graph, Trailheads(cells, |lines|, |lines|), asRating)
  {
    var parsed := ParseInput(lines);
    if parsed.None? {
      return None, map[];
    }
    var values := parsed.value;
    FlattenRows(lines, |lines|);
    var g := ToGraph(values);
    graph := g;
    TrailMapLayered(values.data, values.width, values.height, g);
    var zeros := Trailheads(values.data, values.width, values.height);
    var total := SumRatings(values, g, zeros, asRating);
    return Some(total), g;
  }

  /** The `map(..).sum()` over the trailheads of `problem`: each trailhead's
      node, with the height read back from the map, rated and added up. */
  method SumRatings(values: Grid<nat>, graph: map<Node, seq<Node>>, zeros: seq<(nat, nat)>, asRating: bool)
    returns (total: nat)
    requires Layered(graph)
    requires forall p :: p in zeros ==> Node(p, TrailheadHeight) in graph
    requires forall p :: p in zeros ==> OnMap(values.data, values.width, values.height, Node(p, TrailheadHeight))
    ensures total == Score(graph, zeros, asRating)
  {
    total := 0;
    for k := 0 to |zeros|
      invariant total == Score(graph, zeros[..k], asRating)
    {
      assert zeros[..k + 1][..k] == zeros[..k];
      var start := zeros[k];
      assert OnMap(values.data, values.width, values.height, Node(start, TrailheadHeight));
      var startNode := Node(start, values.At(start.0, start.1));
      var rating := RateTrailhead(startNode, graph, asRating);
      total := total + rating;
    }
    assert zeros[..|zeros|] == zeros;
  }
}
