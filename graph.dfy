/** The generic adjacency-map graph of the shared library: nodes of any type
    with equality, each mapped to its out-neighbours and their weights.
    Weights are natural numbers; HashMap and HashSet iteration orders are
    modelled as arbitrary choice, so only order-independent facts are stated. */
module GraphLib {
  import opened Wrappers
  import opened Util

  type Adjacency<N> = map<N, map<N, nat>>

  // ---------------------------------------------------------------------
  // Specification functions over adjacency maps

  predicate HasEdgeIn<N>(adj: Adjacency<N>, u: N, v: N)
  {
    u in adj && v in adj[u]
  }

  /** Undirected graphs store every edge in both directions, with one weight. */
  ghost predicate Symmetric<N(!new)>(adj: Adjacency<N>)
  {
    forall u, v :: HasEdgeIn(adj, u, v) ==> HasEdgeIn(adj, v, u) && adj[v][u] == adj[u][v]
  }

  /** Every adjacency key and every neighbour key. */
  function NodeSet<N>(adj: Adjacency<N>): set<N>
  {
    adj.Keys + (set u, v | u in adj && v in adj[u] :: v)
  }

  lemma NodeSetHasEdgeEnds<N>(adj: Adjacency<N>, u: N, v: N)
    requires HasEdgeIn(adj, u, v)
    ensures u in NodeSet(adj) && v in NodeSet(adj)
  {
  }

  /** The out-neighbours of u, or none when u is not a key. */
  function Out<N>(adj: Adjacency<N>, u: N): set<N>
  {
    if u in adj then adj[u].Keys else {}
  }

  /** The adjacency map after `add_edge_weighted(from, to, w)`. */
  function InsertEdge<N>(adj: Adjacency<N>, directed: bool, from: N, to: N, w: nat): Adjacency<N>
  {
    var a := adj[from := (if from in adj then adj[from] else map[])[to := w]];
    if directed then a
    else a[to := (if to in a then a[to] else map[])[from := w]]
  }

  lemma InsertEdgeAdds<N>(adj: Adjacency<N>, directed: bool, from: N, to: N, w: nat)
    ensures var a := InsertEdge(adj, directed, from, to, w);
      && HasEdgeIn(a, from, to) && a[from][to] == w
      && (!directed ==> HasEdgeIn(a, to, from) && a[to][from] == w)
      && a.Keys == adj.Keys + {from} + (if directed then {} else {to})
  {
  }

  lemma InsertEdgeKeepsOthers<N>(adj: Adjacency<N>, directed: bool, from: N, to: N, w: nat, u: N, v: N)
    requires (u, v) != (from, to) && (directed || (u, v) != (to, from))
    ensures var a := InsertEdge(adj, directed, from, to, w);
      && (HasEdgeIn(a, u, v) <==> HasEdgeIn(adj, u, v))
      && (HasEdgeIn(a, u, v) ==> a[u][v] == adj[u][v])
  {
  }

  lemma InsertEdgeKeepsSymmetry<N(!new)>(adj: Adjacency<N>, from: N, to: N, w: nat)
    requires Symmetric(adj)
    ensures Symmetric(InsertEdge(adj, false, from, to, w))
  {
    var a := InsertEdge(adj, false, from, to, w);
    InsertEdgeAdds(adj, false, from, to, w);
    forall u, v | HasEdgeIn(a, u, v) ensures HasEdgeIn(a, v, u) && a[v][u] == a[u][v] {
      if (u, v) != (from, to) && (u, v) != (to, from) {
        InsertEdgeKeepsOthers(adj, false, from, to, w, u, v);
        InsertEdgeKeepsOthers(adj, false, from, to, w, v, u);
      }
    }
  }

  /** The induced subgraph on S: every node of S, the edges between them. */
  function Induced<N>(adj: Adjacency<N>, S: set<N>): Adjacency<N>
  {
    map u | u in S :: (if u in adj then map v | v in adj[u] && v in S :: adj[u][v] else map[])
  }

  lemma InducedKeys<N>(adj: Adjacency<N>, S: set<N>)
    ensures Induced(adj, S).Keys == S
  {
  }

  /** Every edge of sub is an edge of adj between members of S, with its weight. */
  ghost predicate EdgesWithin<N(!new)>(sub: Adjacency<N>, adj: Adjacency<N>, S: set<N>)
  {
    && sub.Keys <= S
    && forall u, v :: HasEdgeIn(sub, u, v) ==>
         HasEdgeIn(adj, u, v) && u in S && v in S && sub[u][v] == adj[u][v]
  }

  /** No edge of sub is lost by an insertion. */
  lemma InsertEdgeKeepsEdges<N>(sub: Adjacency<N>, directed: bool, from: N, to: N, w: nat, u: N, v: N)
    requires HasEdgeIn(sub, u, v)
    ensures HasEdgeIn(InsertEdge(sub, directed, from, to, w), u, v)
  {
  }

  /** Copying an edge of a (symmetric, when undirected) adj among S into sub
      keeps sub within adj on S. */
  lemma InsertEdgeWithin<N(!new)>(sub: Adjacency<N>, adj: Adjacency<N>, S: set<N>, directed: bool, from: N, to: N)
    requires EdgesWithin(sub, adj, S) && from in S && to in S && HasEdgeIn(adj, from, to)
    requires !directed ==> Symmetric(adj)
    ensures EdgesWithin(InsertEdge(sub, directed, from, to, adj[from][to]), adj, S)
  {
    var w := adj[from][to];
    var a := InsertEdge(sub, directed, from, to, w);
    InsertEdgeAdds(sub, directed, from, to, w);
    forall u, v | HasEdgeIn(a, u, v)
      ensures HasEdgeIn(adj, u, v) && u in S && v in S && a[u][v] == adj[u][v]
    {
      if (u, v) != (from, to) && (directed || (u, v) != (to, from)) {
        InsertEdgeKeepsOthers(sub, directed, from, to, w, u, v);
      }
    }
  }

  /** Every edge of adj from a node of done to a node of S is in sub. */
  ghost predicate CopiedFrom<N(!new)>(sub: Adjacency<N>, adj: Adjacency<N>, S: set<N>, done: set<N>)
  {
    forall u, v :: u in done && v in S && HasEdgeIn(adj, u, v) ==> HasEdgeIn(sub, u, v)
  }

  /** A graph on S that keeps exactly the edges of adj among S, with their
      weights, is the induced subgraph. */
  lemma InducedUnique<N(!new)>(sub: Adjacency<N>, adj: Adjacency<N>, S: set<N>)
    requires EdgesWithin(sub, adj, S) && sub.Keys == S && CopiedFrom(sub, adj, S, S)
    ensures sub == Induced(adj, S)
  {
    var ind := Induced(adj, S);
    forall u | u in S ensures sub[u] == ind[u] {
      forall v | v in sub[u] ensures v in ind[u] && sub[u][v] == ind[u][v] {
        assert HasEdgeIn(sub, u, v);
      }
      assert sub[u].Keys == ind[u].Keys;
    }
  }

  /** A non-empty node sequence along existing edges. */
  predicate IsPath<N>(adj: Adjacency<N>, p: seq<N>)
  {
    |p| >= 1 && forall i :: 0 <= i < |p| - 1 ==> HasEdgeIn(adj, p[i], p[i + 1])
  }

  /** The sum of the edge weights along a path. */
  function PathWeight<N>(adj: Adjacency<N>, p: seq<N>): nat
    requires IsPath(adj, p)
    decreases |p|
  {
    if |p| == 1 then 0
    else
      assert HasEdgeIn(adj, p[0], p[1]);
      assert IsPath(adj, p[1..]) by {
        forall i | 0 <= i < |p| - 2 ensures HasEdgeIn(adj, p[1..][i], p[1..][i + 1]) {
          assert HasEdgeIn(adj, p[i + 1], p[i + 2]);
        }
      }
      adj[p[0]][p[1]] + PathWeight(adj, p[1..])
  }

  /** The nodes one edge away from S. */
  function Successors<N>(adj: Adjacency<N>, S: set<N>): set<N>
  {
    set u, v | u in S && u in adj && v in adj[u] :: v
  }

  /** The nodes at most k edges away from start. */
  function WithinHops<N>(adj: Adjacency<N>, start: N, k: nat): set<N>
  {
    if k == 0 then {start}
    else
      var prev := WithinHops(adj, start, k - 1);
      prev + Successors(adj, prev)
  }

  ghost predicate Reachable<N>(adj: Adjacency<N>, start: N, v: N)
  {
    exists k: nat :: v in WithinHops(adj, start, k)
  }

  /** The nodes reachable from start (start included). */
  ghost function ReachSet<N>(adj: Adjacency<N>, start: N): set<N>
  {
    set v | v in NodeSet(adj) + {start} && Reachable(adj, start, v)
  }

  /** A strict total order, the Rust `Ord` of the node type. */
  ghost predicate StrictTotalOrder<N(!new)>(lt: (N, N) -> bool)
  {
    && (forall a :: !lt(a, a))
    && (forall a, b, c :: lt(a, b) && lt(b, c) ==> lt(a, c))
    && (forall a, b :: a != b ==> lt(a, b) || lt(b, a))
  }

  predicate StrictlySorted<N>(s: seq<N>, lt: (N, N) -> bool)
  {
    forall i, j :: 0 <= i < j < |s| ==> lt(s[i], s[j])
  }

  // ---------------------------------------------------------------------
  // Lemmas about the specification functions

  lemma {:induction false} WithinHopsMonotone<N>(adj: Adjacency<N>, start: N, a: nat, b: nat)
    requires a <= b
    ensures WithinHops(adj, start, a) <= WithinHops(adj, start, b)
    decreases b - a
  {
    if a < b {
      WithinHopsMonotone(adj, start, a, b - 1);
    }
  }

  lemma {:induction false} WithinHopsInNodes<N>(adj: Adjacency<N>, start: N, k: nat)
    ensures WithinHops(adj, start, k) <= NodeSet(adj) + {start}
  {
    if k > 0 {
      WithinHopsInNodes(adj, start, k - 1);
    }
  }

  /** Once a layer gains nothing, every later layer equals it. */
  lemma {:induction false} WithinHopsStable<N>(adj: Adjacency<N>, start: N, k: nat, j: nat)
    requires Successors(adj, WithinHops(adj, start, k)) <= WithinHops(adj, start, k)
    requires k <= j
    ensures WithinHops(adj, start, j) == WithinHops(adj, start, k)
    decreases j - k
  {
    if k < j {
      WithinHopsStable(adj, start, k, j - 1);
    }
  }

  /** A node within k hops is the end of a path of at most k edges, and back. */
  lemma {:induction false} WithinHopsHasPath<N>(adj: Adjacency<N>, start: N, k: nat, v: N)
    requires v in WithinHops(adj, start, k)
    ensures exists p :: IsPath(adj, p) && p[0] == start && p[|p| - 1] == v && |p| <= k + 1
  {
    if k == 0 {
      assert IsPath(adj, [start]);
    } else if v in WithinHops(adj, start, k - 1) {
      WithinHopsHasPath(adj, start, k - 1, v);
    } else {
      var u :| u in WithinHops(adj, start, k - 1) && u in adj && v in adj[u];
      WithinHopsHasPath(adj, start, k - 1, u);
      var p :| IsPath(adj, p) && p[0] == start && p[|p| - 1] == u && |p| <= k;
      var q := p + [v];
      assert forall i :: 0 <= i < |q| - 1 ==> HasEdgeIn(adj, q[i], q[i + 1]) by {
        forall i | 0 <= i < |q| - 1 ensures HasEdgeIn(adj, q[i], q[i + 1]) {
          if i < |p| - 1 { assert q[i] == p[i] && q[i + 1] == p[i + 1]; }
        }
      }
      assert IsPath(adj, q);
    }
  }

  lemma {:induction false} PathIsWithinHops<N>(adj: Adjacency<N>, p: seq<N>)
    requires IsPath(adj, p)
    ensures p[|p| - 1] in WithinHops(adj, p[0], |p| - 1)
    decreases |p|
  {
    if |p| > 1 {
      var q := p[..|p| - 1];
      assert IsPath(adj, q) by {
        forall i | 0 <= i < |q| - 1 ensures HasEdgeIn(adj, q[i], q[i + 1]) {
          assert q[i] == p[i] && q[i + 1] == p[i + 1];
        }
      }
      PathIsWithinHops(adj, q);
      assert HasEdgeIn(adj, p[|p| - 2], p[|p| - 1]);
    }
  }

  /** Reachability is what paths give: v is reachable from s exactly when
      some path starts at s and ends at v. */
  lemma ReachableIffPath<N>(adj: Adjacency<N>, s: N, v: N)
    ensures Reachable(adj, s, v) <==> exists p :: IsPath(adj, p) && p[0] == s && p[|p| - 1] == v
  {
    if Reachable(adj, s, v) {
      var k :| v in WithinHops(adj, s, k);
      WithinHopsHasPath(adj, s, k, v);
    }
    if exists p :: IsPath(adj, p) && p[0] == s && p[|p| - 1] == v {
      var p :| IsPath(adj, p) && p[0] == s && p[|p| - 1] == v;
      PathIsWithinHops(adj, p);
    }
  }

  lemma SuccessorsInsert<N>(adj: Adjacency<N>, A: set<N>, c: N)
    ensures Successors(adj, A + {c}) == Successors(adj, A) + Out(adj, c)
  {
  }

  /** When a layer has no successor outside itself, it is everything
      reachable from start. */
  lemma ClosedLayerIsReachSet<N>(adj: Adjacency<N>, start: N, k: nat)
    requires Successors(adj, WithinHops(adj, start, k)) <= WithinHops(adj, start, k)
    ensures ReachSet(adj, start) == WithinHops(adj, start, k)
  {
    WithinHopsInNodes(adj, start, k);
    forall v | v in ReachSet(adj, start) ensures v in WithinHops(adj, start, k) {
      var j: nat :| v in WithinHops(adj, start, j);
      if j <= k {
        WithinHopsMonotone(adj, start, j, k);
      } else {
        WithinHopsStable(adj, start, k, j);
      }
    }
  }

  // Breadth-first layers. A traversal state is the emitted prefix `order`
  // and the queue `q`; order and q[..m] are the nodes within k hops, and
  // q[m..] are the successors of the emitted nodes beyond k hops.

  /** When layer k is fully emitted, the whole queue is layer k + 1. */
  lemma NextLayer<N>(adj: Adjacency<N>, start: N, k: nat, order: seq<N>, q: seq<N>)
    requires Elems(order) + Elems(q[..0]) == WithinHops(adj, start, k)
    requires Elems(q[0..]) == Successors(adj, Elems(order)) - WithinHops(adj, start, k)
    ensures Elems(order) + Elems(q[..|q|]) == WithinHops(adj, start, k + 1)
    ensures Elems(q[|q|..]) == Successors(adj, Elems(order)) - WithinHops(adj, start, k + 1)
    ensures WithinHops(adj, start, k) <= Elems(order)
  {
    assert q[..0] == [] && q[0..] == q && q[..|q|] == q && q[|q|..] == [];
  }

  /** Popping the front node of layer k keeps order and the rest of the
      layer equal to the nodes within k hops. */
  lemma PopKeepsLayer<N>(adj: Adjacency<N>, start: N, k: nat, m: nat, order: seq<N>, q: seq<N>, q2: seq<N>)
    requires 0 < m <= |q|
    requires Elems(order) + Elems(q[..m]) == WithinHops(adj, start, k)
    requires |q2| >= |q| - 1 && q2[..|q| - 1] == q[1..]
    ensures Elems(order + [q[0]]) + Elems(q2[..m - 1]) == WithinHops(adj, start, k)
  {
    ElemsConcat(order, [q[0]]);
    assert q[..m] == [q[0]] + q[1..m];
    ElemsConcat([q[0]], q[1..m]);
    assert q2[..m - 1] == q2[..|q| - 1][..m - 1];
    assert q[1..][..m - 1] == q[1..m];
  }

  /** The neighbours appended for the popped node extend the part of layer
      k + 1 found so far. */
  lemma PopExtendsFrontier<N>(adj: Adjacency<N>, start: N, k: nat, m: nat, order: seq<N>, q: seq<N>, q2: seq<N>)
    requires 0 < m <= |q|
    requires Elems(order) + Elems(q[..m]) == WithinHops(adj, start, k)
    requires Elems(q[m..]) == Successors(adj, Elems(order)) - WithinHops(adj, start, k)
    requires |q2| >= |q| - 1 && q2[..|q| - 1] == q[1..]
    requires Elems(q2[|q| - 1..]) == Out(adj, q[0]) - (Elems(order) + Elems(q)) - {q[0]}
    ensures Elems(q2[m - 1..]) == Successors(adj, Elems(order + [q[0]])) - WithinHops(adj, start, k)
  {
    var added := q2[|q| - 1..];
    ElemsConcat(order, [q[0]]);
    assert q2[m - 1..] == q[m..] + added;
    ElemsConcat(q[m..], added);
    ElemsSplit(q, m);
    assert q[0] in Elems(q[..m]);
    SuccessorsInsert(adj, Elems(order), q[0]);
  }

  /** Emitted and queued nodes together gain exactly the popped node's
      neighbours. */
  lemma PopVisited<N>(order: seq<N>, q: seq<N>, q2: seq<N>, out: set<N>)
    requires q != [] && |q2| >= |q| - 1 && q2[..|q| - 1] == q[1..]
    requires Elems(q2[|q| - 1..]) == out - (Elems(order) + Elems(q)) - {q[0]}
    ensures Elems(order + [q[0]]) + Elems(q2) == Elems(order) + Elems(q) + out
  {
    var added := q2[|q| - 1..];
    ElemsConcat(order, [q[0]]);
    assert q2 == q[1..] + added;
    ElemsConcat(q[1..], added);
    assert q == [q[0]] + q[1..];
    ElemsConcat([q[0]], q[1..]);
  }

  lemma PopStepNoDuplicates<N>(order: seq<N>, q: seq<N>, q2: seq<N>, out: set<N>)
    requires q != [] && NoDuplicates(order + q)
    requires |q2| >= |q| - 1 && q2[..|q| - 1] == q[1..]
    requires Elems(q2[|q| - 1..]) == out - (Elems(order) + Elems(q)) - {q[0]}
    requires NoDuplicates(q2[|q| - 1..])
    ensures NoDuplicates(order + [q[0]] + q2)
    ensures q[0] !in Elems(order)
  {
    var added := q2[|q| - 1..];
    assert q2 == q[1..] + added;
    assert order + [q[0]] + q2 == (order + q) + added;
    ElemsConcat(order, q);
    NoDuplicatesConcat(order + q, added);
    NoDuplicatesConcat(order, q);
  }

  /** The node popped from layer k is within h hops only if everything
      emitted before it is. */
  lemma PopStepOrder<N>(adj: Adjacency<N>, start: N, k: nat, order: seq<N>, cur: N)
    requires Elems(order) <= WithinHops(adj, start, k)
    requires k > 0 ==> WithinHops(adj, start, k - 1) <= Elems(order)
    requires cur !in Elems(order)
    requires forall i, j, h: nat :: 0 <= i < j < |order| && order[j] in WithinHops(adj, start, h) ==>
               order[i] in WithinHops(adj, start, h)
    ensures forall i, j, h: nat :: 0 <= i < j < |order + [cur]| && (order + [cur])[j] in WithinHops(adj, start, h) ==>
              (order + [cur])[i] in WithinHops(adj, start, h)
  {
    forall h: nat ensures cur in WithinHops(adj, start, h) ==> Elems(order) <= WithinHops(adj, start, h) {
      if h >= k {
        WithinHopsMonotone(adj, start, k, h);
      } else {
        WithinHopsMonotone(adj, start, h, k - 1);
      }
    }
    var o := order + [cur];
    forall i, j, h: nat | 0 <= i < j < |o| && o[j] in WithinHops(adj, start, h)
      ensures o[i] in WithinHops(adj, start, h)
    {
      if j < |order| {
        assert o[i] == order[i] && o[j] == order[j];
      } else {
        assert o[i] == order[i] && order[i] in Elems(order);
      }
    }
  }

  // Reachability in undirected graphs

  /** In a symmetric graph a path read backwards is a path. */
  lemma PathReversed<N(!new)>(adj: Adjacency<N>, p: seq<N>)
    requires Symmetric(adj) && IsPath(adj, p)
    ensures IsPath(adj, Reverse(p)) && Reverse(p)[0] == p[|p| - 1] && Reverse(p)[|p| - 1] == p[0]
  {
    var r := Reverse(p);
    forall i | 0 <= i < |r| - 1 ensures HasEdgeIn(adj, r[i], r[i + 1]) {
      ReverseAt(p, i);
      ReverseAt(p, i + 1);
      assert HasEdgeIn(adj, p[|p| - 2 - i], p[|p| - 1 - i]);
    }
    ReverseAt(p, 0);
    ReverseAt(p, |p| - 1);
  }

  /** Two paths meeting end to start make one. */
  lemma PathJoined<N>(adj: Adjacency<N>, p: seq<N>, q: seq<N>)
    requires IsPath(adj, p) && IsPath(adj, q) && p[|p| - 1] == q[0]
    ensures IsPath(adj, p + q[1..]) && (p + q[1..])[0] == p[0] && (p + q[1..])[|p + q[1..]| - 1] == q[|q| - 1]
  {
    var c := p + q[1..];
    forall i | 0 <= i < |c| - 1 ensures HasEdgeIn(adj, c[i], c[i + 1]) {
      if i < |p| - 1 {
        assert c[i] == p[i] && c[i + 1] == p[i + 1];
      } else {
        var j := i - (|p| - 1);
        assert c[i] == q[j] && c[i + 1] == q[j + 1];
      }
    }
  }

  /** Extending a path by one edge adds that edge's weight. */
  lemma {:induction false} PathWeightSnoc<N>(adj: Adjacency<N>, q: seq<N>, v: N)
    requires IsPath(adj, q) && HasEdgeIn(adj, q[|q| - 1], v)
    ensures IsPath(adj, q + [v])
    ensures PathWeight(adj, q + [v]) == PathWeight(adj, q) + adj[q[|q| - 1]][v]
    decreases |q|
  {
    var p := q + [v];
    assert IsPath(adj, p) by {
      forall i | 0 <= i < |p| - 1 ensures HasEdgeIn(adj, p[i], p[i + 1]) {
        if i < |q| - 1 { assert p[i] == q[i] && p[i + 1] == q[i + 1]; }
      }
    }
    if |q| > 1 {
      var t := q[1..];
      assert IsPath(adj, t) by {
        forall i | 0 <= i < |t| - 1 ensures HasEdgeIn(adj, t[i], t[i + 1]) {
          assert HasEdgeIn(adj, q[i + 1], q[i + 2]);
        }
      }
      PathWeightSnoc(adj, t, v);
      assert p[1..] == t + [v];
    }
  }

  /** Prefixing a path with one edge adds that edge's weight. */
  lemma PathCons<N>(adj: Adjacency<N>, u: N, q: seq<N>)
    requires IsPath(adj, q) && HasEdgeIn(adj, u, q[0])
    ensures IsPath(adj, [u] + q) && PathWeight(adj, [u] + q) == adj[u][q[0]] + PathWeight(adj, q)
  {
    var p := [u] + q;
    forall i | 0 <= i < |p| - 1 ensures HasEdgeIn(adj, p[i], p[i + 1]) {
      if i > 0 { assert p[i] == q[i - 1] && p[i + 1] == q[i]; }
    }
    assert p[1..] == q;
  }

  /** A path of two or more nodes is its prefix followed by one last edge. */
  lemma PathInit<N>(adj: Adjacency<N>, p: seq<N>)
    requires IsPath(adj, p) && |p| > 1
    ensures IsPath(adj, p[..|p| - 1]) && HasEdgeIn(adj, p[|p| - 2], p[|p| - 1])
    ensures PathWeight(adj, p) == PathWeight(adj, p[..|p| - 1]) + adj[p[|p| - 2]][p[|p| - 1]]
  {
    var q := p[..|p| - 1];
    assert IsPath(adj, q) by {
      forall i | 0 <= i < |q| - 1 ensures HasEdgeIn(adj, q[i], q[i + 1]) {
        assert HasEdgeIn(adj, p[i], p[i + 1]);
      }
    }
    assert HasEdgeIn(adj, p[|p| - 2], p[|p| - 1]);
    PathWeightSnoc(adj, q, p[|p| - 1]);
    assert q + [p[|p| - 1]] == p;
  }

  /** The first node of a path is a node of the graph unless the path is
      the single node start. */
  lemma PathStartIsNode<N>(adj: Adjacency<N>, p: seq<N>)
    requires IsPath(adj, p)
    ensures p[0] in NodeSet(adj) || p == [p[0]]
  {
    if |p| > 1 {
      assert HasEdgeIn(adj, p[0], p[1]);
    }
  }

  lemma ReachSymmetric<N(!new)>(adj: Adjacency<N>, s: N, v: N)
    requires Symmetric(adj) && v in ReachSet(adj, s)
    ensures s in ReachSet(adj, v)
  {
    ReachableIffPath(adj, s, v);
    var p :| IsPath(adj, p) && p[0] == s && p[|p| - 1] == v;
    PathReversed(adj, p);
    ReachableIffPath(adj, v, s);
    PathStartIsNode(adj, p);
  }

  lemma ReachTransitive<N>(adj: Adjacency<N>, s: N, v: N, w: N)
    requires v in ReachSet(adj, s) && w in ReachSet(adj, v)
    ensures w in ReachSet(adj, s)
  {
    ReachableIffPath(adj, s, v);
    ReachableIffPath(adj, v, w);
    ReachableIffPath(adj, s, w);
    var p :| IsPath(adj, p) && p[0] == s && p[|p| - 1] == v;
    var q :| IsPath(adj, q) && q[0] == v && q[|q| - 1] == w;
    PathJoined(adj, p, q);
  }

  /** Undirected reachability classes either coincide or are disjoint: a
      node shared with the class of t puts s in the class of t. */
  lemma ReachOverlap<N(!new)>(adj: Adjacency<N>, t: N, s: N)
    requires Symmetric(adj)
    ensures forall w :: w in ReachSet(adj, t) && w in ReachSet(adj, s) ==> s in ReachSet(adj, t)
  {
    forall w | w in ReachSet(adj, t) && w in ReachSet(adj, s) ensures s in ReachSet(adj, t) {
      ReachSymmetric(adj, s, w);
      ReachTransitive(adj, t, w, s);
    }
  }

  /** The nodes covered by the components started at `starts`. */
  ghost function Covered<N>(adj: Adjacency<N>, starts: seq<N>): set<N>
  {
    if starts == [] then {} else Covered(adj, starts[..|starts| - 1]) + ReachSet(adj, starts[|starts| - 1])
  }

  lemma {:induction false} CoveredMembers<N>(adj: Adjacency<N>, starts: seq<N>)
    ensures forall v :: v in Covered(adj, starts) <==> exists i :: 0 <= i < |starts| && v in ReachSet(adj, starts[i])
  {
    if starts != [] {
      var init := starts[..|starts| - 1];
      CoveredMembers(adj, init);
      forall v ensures v in Covered(adj, starts) <==> exists i :: 0 <= i < |starts| && v in ReachSet(adj, starts[i]) {
        if exists i :: 0 <= i < |starts| && v in ReachSet(adj, starts[i]) {
          var i :| 0 <= i < |starts| && v in ReachSet(adj, starts[i]);
          if i < |init| {
            assert starts[i] == init[i];
          }
        }
        if v in Covered(adj, init) {
          var i :| 0 <= i < |init| && v in ReachSet(adj, init[i]);
          assert starts[i] == init[i];
        }
      }
    }
  }

  /** The components found so far: one per start node, each the induced
      graph on the start's reachability class, the classes pairwise
      disjoint and together the visited nodes. */
  ghost predicate Partition<N>(adj: Adjacency<N>, starts: seq<N>, parts: seq<Adjacency<N>>, visited: set<N>)
  {
    && |starts| == |parts|
    && (forall i :: 0 <= i < |starts| ==>
          starts[i] in NodeSet(adj) && parts[i] == Induced(adj, ReachSet(adj, starts[i])))
    && visited == Covered(adj, starts)
    && (forall i, j :: 0 <= i < j < |starts| ==> ReachSet(adj, starts[i]) !! ReachSet(adj, starts[j]))
  }

  /** A node outside every earlier class starts a class disjoint from them. */
  lemma PartitionExtend<N(!new)>(adj: Adjacency<N>, starts: seq<N>, parts: seq<Adjacency<N>>, visited: set<N>, node: N)
    requires Symmetric(adj) && Partition(adj, starts, parts, visited)
    requires node in NodeSet(adj) && node !in visited
    ensures Partition(adj, starts + [node], parts + [Induced(adj, ReachSet(adj, node))], visited + ReachSet(adj, node))
  {
    CoveredMembers(adj, starts);
    forall i | 0 <= i < |starts| ensures ReachSet(adj, starts[i]) !! ReachSet(adj, node) {
      ReachOverlap(adj, starts[i], node);
    }
    var s2 := starts + [node];
    assert s2[..|s2| - 1] == starts;
  }

  /** The part induced on a node's class has the class as its nodes. */
  lemma ClassPart<N>(adj: Adjacency<N>, s: N, p: Adjacency<N>)
    requires s in NodeSet(adj) && p == Induced(adj, ReachSet(adj, s))
    ensures p.Keys == ReachSet(adj, s) && s in p.Keys && p.Keys <= NodeSet(adj)
  {
    InducedKeys(adj, ReachSet(adj, s));
    assert s in WithinHops(adj, s, 0);
  }

  /** Each part is a non-empty induced subgraph on some node's class. */
  lemma PartsAreClasses<N>(adj: Adjacency<N>, starts: seq<N>, parts: seq<Adjacency<N>>, visited: set<N>)
    requires Partition(adj, starts, parts, visited)
    ensures PartsAreInduced(adj, parts)
  {
    forall i | 0 <= i < |parts|
      ensures parts[i].Keys != {}
      ensures exists s :: s in NodeSet(adj) && parts[i] == Induced(adj, ReachSet(adj, s))
    {
      ClassPart(adj, starts[i], parts[i]);
      assert starts[i] in NodeSet(adj) && parts[i] == Induced(adj, ReachSet(adj, starts[i]));
    }
  }

  /** No node belongs to two parts. */
  lemma PartsDisjoint<N>(adj: Adjacency<N>, starts: seq<N>, parts: seq<Adjacency<N>>, visited: set<N>)
    requires Partition(adj, starts, parts, visited)
    ensures PartsAreDisjoint(parts)
  {
    forall i, j | 0 <= i < j < |parts| ensures parts[i].Keys !! parts[j].Keys {
      ClassPart(adj, starts[i], parts[i]);
      ClassPart(adj, starts[j], parts[j]);
    }
  }

  /** Once every node is visited, the parts cover exactly the nodes. */
  lemma PartsCover<N(!new)>(adj: Adjacency<N>, starts: seq<N>, parts: seq<Adjacency<N>>, visited: set<N>)
    requires Partition(adj, starts, parts, visited) && NodeSet(adj) <= visited
    ensures PartsCoverNodes(adj, parts)
  {
    NodesInParts(adj, starts, parts, visited);
    PartsInNodes(adj, starts, parts, visited);
  }

  lemma NodesInParts<N(!new)>(adj: Adjacency<N>, starts: seq<N>, parts: seq<Adjacency<N>>, visited: set<N>)
    requires Partition(adj, starts, parts, visited) && NodeSet(adj) <= visited
    ensures forall v :: v in NodeSet(adj) ==> exists i :: 0 <= i < |parts| && v in parts[i].Keys
  {
    CoveredMembers(adj, starts);
    forall v | v in NodeSet(adj) ensures exists i :: 0 <= i < |parts| && v in parts[i].Keys {
      var i :| 0 <= i < |starts| && v in ReachSet(adj, starts[i]);
      ClassPart(adj, starts[i], parts[i]);
    }
  }

  lemma PartsInNodes<N(!new)>(adj: Adjacency<N>, starts: seq<N>, parts: seq<Adjacency<N>>, visited: set<N>)
    requires Partition(adj, starts, parts, visited)
    ensures forall v, i :: 0 <= i < |parts| && v in parts[i].Keys ==> v in NodeSet(adj)
  {
    forall v, i | 0 <= i < |parts| && v in parts[i].Keys ensures v in NodeSet(adj) {
      ClassPart(adj, starts[i], parts[i]);
    }
  }

  /** The connected components of adj: each part is the non-empty induced
      subgraph on some node's class, no node is in two parts, and every
      node is in one. */
  ghost predicate ComponentSplit<N(!new)>(adj: Adjacency<N>, parts: seq<Adjacency<N>>)
  {
    PartsAreInduced(adj, parts) && PartsAreDisjoint(parts) && PartsCoverNodes(adj, parts)
  }

  ghost predicate PartsAreInduced<N>(adj: Adjacency<N>, parts: seq<Adjacency<N>>)
  {
    forall i :: 0 <= i < |parts| ==>
      parts[i].Keys != {} && exists s :: s in NodeSet(adj) && parts[i] == Induced(adj, ReachSet(adj, s))
  }

  predicate PartsAreDisjoint<N>(parts: seq<Adjacency<N>>)
  {
    forall i, j :: 0 <= i < j < |parts| ==> parts[i].Keys !! parts[j].Keys
  }

  /** Every node is in some part, and every member of a part is a node. The
      quantifier waits for an explicit `IsNode` rather than every
      membership in NodeSet, which reachability sets keep producing. */
  ghost predicate PartsCoverNodes<N(!new)>(adj: Adjacency<N>, parts: seq<Adjacency<N>>)
  {
    forall v {:trigger IsNode(adj, v)} :: IsNode(adj, v) <==> exists i :: 0 <= i < |parts| && v in parts[i].Keys
  }

  predicate IsNode<N>(adj: Adjacency<N>, v: N)
  {
    v in NodeSet(adj)
  }

  /** The edge maps of a sequence of graphs. */
  function Adjs<N(==,!new)>(gs: seq<Graph<N>>): (r: seq<Adjacency<N>>)
    reads gs
    ensures |r| == |gs| && forall i :: 0 <= i < |gs| ==> r[i] == gs[i].adj
  {
    if gs == [] then [] else [gs[0].adj] + Adjs(gs[1..])
  }

  /** The classes hold only nodes, so covering them all means visiting exactly the nodes. */
  lemma PartitionVisitsNodes<N>(adj: Adjacency<N>, parts: seq<Adjacency<N>>, visited: set<N>)
    requires exists starts: seq<N> :: Partition(adj, starts, parts, visited)
    requires NodeSet(adj) <= visited
    ensures exists starts: seq<N> :: Partition(adj, starts, parts, NodeSet(adj))
  {
    var starts: seq<N> :| Partition(adj, starts, parts, visited);
    CoveredMembers(adj, starts);
    forall i | 0 <= i < |starts| ensures ReachSet(adj, starts[i]) <= NodeSet(adj) {
      ClassPart(adj, starts[i], parts[i]);
    }
    assert visited == NodeSet(adj);
    assert Partition(adj, starts, parts, NodeSet(adj));
  }

  /** A partition that covers every node: its parts are the components. */
  lemma PartitionOfNodes<N(!new)>(adj: Adjacency<N>, parts: seq<Adjacency<N>>)
    requires exists starts: seq<N> :: Partition(adj, starts, parts, NodeSet(adj))
    ensures ComponentSplit(adj, parts)
  {
    var starts: seq<N> :| Partition(adj, starts, parts, NodeSet(adj));
    PartsAreClasses(adj, starts, parts, NodeSet(adj));
    PartsDisjoint(adj, starts, parts, NodeSet(adj));
    PartsCover(adj, starts, parts, NodeSet(adj));
  }

  /** On an undirected graph the component split is unique up to order:
      two splits hold the same parts, each once. */
  lemma ComponentSplitsAgree<N(!new)>(adj: Adjacency<N>, parts: seq<Adjacency<N>>, others: seq<Adjacency<N>>)
    requires Symmetric(adj) && ComponentSplit(adj, parts) && ComponentSplit(adj, others)
    ensures multiset(parts) == multiset(others)
  {
    SplitNoDuplicates(parts);
    SplitNoDuplicates(others);
    forall p ensures p in parts <==> p in others {
      if p in parts {
        var i :| 0 <= i < |parts| && parts[i] == p;
        PartIn(adj, parts, others, i);
      }
      if p in others {
        var i :| 0 <= i < |others| && others[i] == p;
        PartIn(adj, others, parts, i);
      }
    }
    SameElemsSameMultiset(parts, others);
  }

  /** Non-empty parts with disjoint nodes are all different. */
  lemma SplitNoDuplicates<N>(parts: seq<Adjacency<N>>)
    requires forall i :: 0 <= i < |parts| ==> parts[i].Keys != {}
    requires PartsAreDisjoint(parts)
    ensures NoDuplicates(parts)
  {
    forall i, j | 0 <= i < j < |parts| ensures parts[i] != parts[j] {
      assert parts[i].Keys != {};
      var v :| v in parts[i].Keys;
      assert v !in parts[j].Keys;
    }
  }

  /** The i-th part of one split is a part of every other: some node's
      part in the other split holds it, and is then the same class. */
  lemma PartIn<N(!new)>(adj: Adjacency<N>, parts: seq<Adjacency<N>>, others: seq<Adjacency<N>>, i: nat)
    requires Symmetric(adj) && i < |parts|
    requires PartsAreInduced(adj, parts) && PartsAreInduced(adj, others) && PartsCoverNodes(adj, others)
    ensures parts[i] in others
  {
    var s := ClassStart(adj, parts, i);
    var j := PartHolding(adj, others, s);
    var t := ClassStart(adj, others, j);
    ClassesMeet(adj, s, t, others[j]);
    assert parts[i] == others[j];
  }

  /** A node whose class the i-th part is. */
  lemma ClassStart<N(!new)>(adj: Adjacency<N>, parts: seq<Adjacency<N>>, i: nat) returns (s: N)
    requires i < |parts| && PartsAreInduced(adj, parts)
    ensures s in NodeSet(adj) && parts[i] == Induced(adj, ReachSet(adj, s))
  {
    assert parts[i].Keys != {} && exists s :: s in NodeSet(adj) && parts[i] == Induced(adj, ReachSet(adj, s));
    s :| s in NodeSet(adj) && parts[i] == Induced(adj, ReachSet(adj, s));
  }

  /** The part that holds a node. */
  lemma PartHolding<N(!new)>(adj: Adjacency<N>, parts: seq<Adjacency<N>>, s: N) returns (j: nat)
    requires PartsCoverNodes(adj, parts) && s in NodeSet(adj)
    ensures j < |parts| && s in parts[j].Keys
  {
    assert IsNode(adj, s);
    j :| 0 <= j < |parts| && s in parts[j].Keys;
  }

  /** The class of s is that of any t whose class holds s. */
  lemma ClassesMeet<N(!new)>(adj: Adjacency<N>, s: N, t: N, q: Adjacency<N>)
    requires Symmetric(adj) && t in NodeSet(adj) && q == Induced(adj, ReachSet(adj, t)) && s in q.Keys
    ensures ReachSet(adj, s) == ReachSet(adj, t)
  {
    ClassPart(adj, t, q);
    SameClass(adj, t, s);
  }

  /** A node in the class of t has the class of t. */
  lemma SameClass<N(!new)>(adj: Adjacency<N>, t: N, s: N)
    requires Symmetric(adj) && s in ReachSet(adj, t)
    ensures ReachSet(adj, s) == ReachSet(adj, t)
  {
    ReachSymmetric(adj, t, s);
    forall w | w in ReachSet(adj, s) ensures w in ReachSet(adj, t) {
      ReachTransitive(adj, t, s, w);
    }
    forall w | w in ReachSet(adj, t) ensures w in ReachSet(adj, s) {
      ReachTransitive(adj, s, t, w);
    }
  }

  /** No node within h hops is preceded by one beyond h hops. */
  ghost predicate HopOrdered<N>(adj: Adjacency<N>, start: N, order: seq<N>)
  {
    forall i, j, h: nat :: 0 <= i < j < |order| && order[j] in WithinHops(adj, start, h) ==>
      order[i] in WithinHops(adj, start, h)
  }

  /** The breadth-first traversal invariant: k is the layer being emitted
      and m the number of its nodes still at the front of the queue. */
  ghost predicate LayerState<N>(adj: Adjacency<N>, start: N, k: nat, m: nat, order: seq<N>, q: seq<N>, visited: set<N>)
  {
    && (order == [] ==> q == [start])
    && (order != [] ==> order[0] == start)
    && visited == Elems(order) + Elems(q)
    && NoDuplicates(order + q)
    && m <= |q|
    && Elems(order) + Elems(q[..m]) == WithinHops(adj, start, k)
    && Elems(q[m..]) == Successors(adj, Elems(order)) - WithinHops(adj, start, k)
    && (k > 0 ==> WithinHops(adj, start, k - 1) <= Elems(order))
    && HopOrdered(adj, start, order)
  }

  lemma LayerStart<N>(adj: Adjacency<N>, start: N)
    ensures LayerState(adj, start, 0, 1, [], [start], {start})
  {
    assert [start][..1] == [start] && [start][1..] == [];
    assert Elems([start]) == {start};
  }

  lemma LayerAdvance<N>(adj: Adjacency<N>, start: N, k: nat, order: seq<N>, q: seq<N>, visited: set<N>)
    requires LayerState(adj, start, k, 0, order, q, visited)
    ensures LayerState(adj, start, k + 1, |q|, order, q, visited)
  {
    NextLayer(adj, start, k, order, q);
  }

  /** One call of `next` on a non-empty queue q: q loses its front node,
      whose neighbours not yet visited are appended once each, and the
      visited set gains the front node and all its neighbours. */
  ghost predicate PopRelation<N>(adj: Adjacency<N>, q: seq<N>, visited: set<N>, q2: seq<N>, visited2: set<N>)
  {
    && q != []
    && |q2| >= |q| - 1 && q2[..|q| - 1] == q[1..]
    && Elems(q2[|q| - 1..]) == Out(adj, q[0]) - visited - {q[0]}
    && NoDuplicates(q2[|q| - 1..])
    && visited2 == visited + {q[0]} + Out(adj, q[0])
  }

  lemma LayerPop<N>(adj: Adjacency<N>, start: N, k: nat, m: nat, order: seq<N>, q: seq<N>, visited: set<N>,
                    q2: seq<N>, visited2: set<N>)
    requires LayerState(adj, start, k, m, order, q, visited) && m > 0
    requires PopRelation(adj, q, visited, q2, visited2)
    ensures LayerState(adj, start, k, m - 1, order + [q[0]], q2, visited2)
    ensures var U := NodeSet(adj) + {start};
      |U - Elems(order + [q[0]])| < |U - Elems(order)|
  {
    PopKeepsLayer(adj, start, k, m, order, q, q2);
    PopExtendsFrontier(adj, start, k, m, order, q, q2);
    PopVisited(order, q, q2, Out(adj, q[0]));
    PopStepNoDuplicates(order, q, q2, Out(adj, q[0]));
    ElemsConcat(order, q);
    PopStepOrder(adj, start, k, order, q[0]);
    WithinHopsInNodes(adj, start, k);
    assert q[0] in Elems(q[..m]);
    assert (order + [q[0]])[0] == start;
    var U := NodeSet(adj) + {start};
    ElemsConcat(order, [q[0]]);
    assert U - Elems(order + [q[0]]) == (U - Elems(order)) - {q[0]};
  }

  /** An empty queue ends the traversal with everything reachable emitted. */
  lemma LayerDone<N>(adj: Adjacency<N>, start: N, k: nat, order: seq<N>, visited: set<N>)
    requires LayerState(adj, start, k, 0, order, [], visited)
    ensures |order| >= 1 && order[0] == start
    ensures NoDuplicates(order)
    ensures forall v :: v in order <==> v in ReachSet(adj, start)
    ensures HopOrdered(adj, start, order)
  {
    var e: seq<N> := [];
    assert e[..0] == e && e[0..] == e;
    ClosedLayerIsReachSet(adj, start, k);
    assert order + e == order;
  }

  /** The traversal invariant with its layer counters left unnamed. */
  ghost predicate Traversal<N>(adj: Adjacency<N>, start: N, order: seq<N>, q: seq<N>, visited: set<N>)
  {
    exists k: nat, m: nat :: LayerState(adj, start, k, m, order, q, visited)
  }

  lemma TraversalStart<N>(adj: Adjacency<N>, start: N)
    ensures Traversal(adj, start, [], [start], {start})
  {
    LayerStart(adj, start);
  }

  /** One pop keeps the invariant and emits a node not emitted before. */
  lemma TraversalStep<N>(adj: Adjacency<N>, start: N, order: seq<N>, q: seq<N>, visited: set<N>,
                         q2: seq<N>, visited2: set<N>)
    requires Traversal(adj, start, order, q, visited)
    requires PopRelation(adj, q, visited, q2, visited2)
    ensures Traversal(adj, start, order + [q[0]], q2, visited2)
    ensures |NodeSet(adj) + {start} - Elems(order + [q[0]])| < |NodeSet(adj) + {start} - Elems(order)|
  {
    var k: nat, m: nat :| LayerState(adj, start, k, m, order, q, visited);
    if m == 0 {
      // the layer's nodes are all emitted: the next layer begins
      LayerAdvance(adj, start, k, order, q, visited);
      LayerPop(adj, start, k + 1, |q|, order, q, visited, q2, visited2);
    } else {
      LayerPop(adj, start, k, m, order, q, visited, q2, visited2);
    }
  }

  lemma TraversalDone<N>(adj: Adjacency<N>, start: N, order: seq<N>, visited: set<N>)
    requires Traversal(adj, start, order, [], visited)
    ensures |order| >= 1 && order[0] == start
    ensures NoDuplicates(order)
    ensures forall v :: v in order <==> v in ReachSet(adj, start)
    ensures HopOrdered(adj, start, order)
  {
    var k: nat, m: nat :| LayerState(adj, start, k, m, order, [], visited);
    LayerDone(adj, start, k, order, visited);
  }

  predicate IsMinimum<N>(m: N, S: set<N>, lt: (N, N) -> bool)
  {
    m in S && forall x :: x in S && x != m ==> lt(m, x)
  }

  /** Adding one element to a set with a known minimum. */
  lemma MinimumOfInsert<N(!new)>(a: N, m: N, rest: set<N>, lt: (N, N) -> bool)
    requires StrictTotalOrder(lt) && IsMinimum(m, rest, lt) && a !in rest
    ensures IsMinimum(if lt(a, m) then a else m, rest + {a}, lt)
  {
    if lt(a, m) {
      forall x | x in rest + {a} && x != a ensures lt(a, x) {
        if x != m {
          assert lt(m, x);
        }
      }
    } else {
      assert a != m;
      assert lt(m, a);
    }
  }

  /** A finite non-empty set has a least element. */
  lemma {:induction false} HasMinimum<N(!new)>(S: set<N>, lt: (N, N) -> bool)
    requires StrictTotalOrder(lt) && S != {}
    ensures exists m :: IsMinimum(m, S, lt)
    decreases |S|
  {
    var a :| a in S;
    var rest := S - {a};
    if rest == {} {
      assert S == {a};
      assert IsMinimum(a, S, lt);
    } else {
      HasMinimum(rest, lt);
      var m :| IsMinimum(m, rest, lt);
      MinimumOfInsert(a, m, rest, lt);
      assert rest + {a} == S;
    }
  }

  // ---------------------------------------------------------------------
  // The graph

  class Graph<N(==,!new)> {
    var adj: Adjacency<N>
    const directed: bool

    /** Undirected graphs stay symmetric under every operation. */
    ghost predicate Valid()
      reads this
    {
      !directed ==> Symmetric(adj)
    }

    /** `Graph::new`. */
    constructor New(directed: bool)
      ensures this.directed == directed && adj == map[] && Valid()
    {
      this.directed := directed;
      adj := map[];
    }

    /** `Graph::undirected`. */
    constructor Undirected()
      ensures !directed && adj == map[] && Valid()
    {
      directed := false;
      adj := map[];
    }

    /** `Graph::directed`. */
    constructor Directed()
      ensures directed && adj == map[] && Valid()
    {
      directed := true;
      adj := map[];
    }

    /** `add_node`: registers n with no edges unless it is already a key;
        existing edges are never touched, so adding twice is adding once. */
    method AddNode(n: N)
      modifies this
      ensures n in adj
      ensures n in old(adj) ==> adj == old(adj)
      ensures n !in old(adj) ==> adj == old(adj)[n := map[]]
      ensures old(Valid()) ==> Valid()
    {
      if n !in adj {
        adj := adj[n := map[]];
      }
    }

    /** `add_edge_weighted`: from->to gets weight w, overwriting an earlier
        weight; an undirected graph also gets to->from with weight w. No other
        edge changes, and keys are only added. */
    method AddEdgeWeighted(from: N, to: N, w: nat)
      modifies this
      ensures adj == InsertEdge(old(adj), directed, from, to, w)
      ensures HasEdgeIn(adj, from, to) && adj[from][to] == w
      ensures !directed ==> HasEdgeIn(adj, to, from) && adj[to][from] == w
      ensures adj.Keys == old(adj).Keys + {from} + (if directed then {} else {to})
      ensures forall u, v :: (u, v) != (from, to) && (directed || (u, v) != (to, from)) ==>
                (HasEdgeIn(adj, u, v) <==> HasEdgeIn(old(adj), u, v)) &&
                (HasEdgeIn(adj, u, v) ==> adj[u][v] == old(adj)[u][v])
      ensures old(Valid()) ==> Valid()
    {
      ghost var before := adj;
      var fromEdges := if from in adj then adj[from] else map[];
      adj := adj[from := fromEdges[to := w]];
      if !directed {
        var toEdges := if to in adj then adj[to] else map[];
        adj := adj[to := toEdges[from := w]];
      }
      assert adj == InsertEdge(before, directed, from, to, w);
      InsertEdgeAdds(before, directed, from, to, w);
      forall u, v | (u, v) != (from, to) && (directed || (u, v) != (to, from))
        ensures (HasEdgeIn(adj, u, v) <==> HasEdgeIn(before, u, v)) && (HasEdgeIn(adj, u, v) ==> adj[u][v] == before[u][v])
      {
        InsertEdgeKeepsOthers(before, directed, from, to, w, u, v);
      }
      if !directed && Symmetric(before) {
        InsertEdgeKeepsSymmetry(before, from, to, w);
      }
    }

    /** `add_edge`: an edge of weight one. */
    method AddEdge(from: N, to: N)
      modifies this
      ensures adj == InsertEdge(old(adj), directed, from, to, 1)
      ensures HasEdgeIn(adj, from, to) && adj[from][to] == 1
      ensures !directed ==> HasEdgeIn(adj, to, from) && adj[to][from] == 1
      ensures old(Valid()) ==> Valid()
    {
      AddEdgeWeighted(from, to, 1);
    }

    /** `nodes` as a set: keys and neighbour keys, each once. */
    function Nodes(): (r: set<N>)
      reads this
      ensures forall n :: n in r <==> n in adj || exists u :: HasEdgeIn(adj, u, n)
    {
      forall n ensures n in NodeSet(adj) <==> n in adj || exists u :: HasEdgeIn(adj, u, n) {
        if exists u :: HasEdgeIn(adj, u, n) {
          var u :| HasEdgeIn(adj, u, n);
          NodeSetHasEdgeEnds(adj, u, n);
        }
        if n in NodeSet(adj) && n !in adj {
          var u, v :| u in adj && v in adj[u] && v == n;
          assert HasEdgeIn(adj, u, n);
        }
      }
      NodeSet(adj)
    }

    /** `nodes`: every node exactly once, in ascending `Ord` order. */
    method SortedNodes(lt: (N, N) -> bool) returns (r: seq<N>)
      requires StrictTotalOrder(lt)
      ensures forall n :: n in r <==> n in NodeSet(adj)
      ensures StrictlySorted(r, lt)
      ensures NoDuplicates(r)
    {
      var remaining := NodeSet(adj);
      r := [];
      while remaining != {}
        invariant forall n :: n in r || n in remaining <==> n in NodeSet(adj)
        invariant forall n :: n in r ==> n !in remaining
        invariant StrictlySorted(r, lt)
        invariant forall i, x :: 0 <= i < |r| && x in remaining ==> lt(r[i], x)
        decreases |remaining|
      {
        HasMinimum(remaining, lt);
        var m :| IsMinimum(m, remaining, lt);
        r := r + [m];
        remaining := remaining - {m};
      }
      forall i, j | 0 <= i < j < |r| ensures r[i] != r[j] {
        assert lt(r[i], r[j]);
      }
    }

    /** `has_edge`: agrees with `get_weight` and with `neighbors`. */
    function HasEdge(from: N, to: N): (r: bool)
      reads this
      ensures r <==> GetWeight(from, to).Some?
      ensures r <==> Neighbors(from).Some? && to in Neighbors(from).value
    {
      from in adj && to in adj[from]
    }

    /** `get_weight`: the stored weight of from->to, if that edge exists. */
    function GetWeight(from: N, to: N): (r: Option<nat>)
      reads this
      ensures r.Some? <==> HasEdgeIn(adj, from, to)
      ensures r.Some? ==> NeighborsWeighted(from).Some? && NeighborsWeighted(from).value[to] == r.value
    {
      if from in adj && to in adj[from] then Some(adj[from][to]) else None
    }

    /** `neighbors`: none when n was never a key (a pure edge target of a
        directed graph, say), otherwise the keys of its edge map. */
    function Neighbors(n: N): (r: Option<set<N>>)
      reads this
      ensures r.None? <==> n !in adj
      ensures r.Some? ==> forall m :: m in r.value <==> HasEdgeIn(adj, n, m)
    {
      if n in adj then Some(adj[n].Keys) else None
    }

    /** `subgraph`: a new graph of the same directedness holding every node
        of `nodes` and exactly the edges among them, with their weights. */
    method Subgraph(nodes: seq<N>) returns (g: Graph<N>)
      requires Valid()
      ensures g.directed == directed && g.Valid()
      ensures g.adj == Induced(adj, Elems(nodes))
    {
      ghost var S := Elems(nodes);
      g := new Graph.New(directed);
      for i := 0 to |nodes|
        invariant fresh(g) && g.directed == directed && g.Valid()
        invariant EdgesWithin(g.adj, adj, S)
        invariant Elems(nodes[..i]) <= g.adj.Keys
        invariant CopiedFrom(g.adj, adj, S, Elems(nodes[..i]))
      {
        var from := nodes[i];
        g.AddNode(from);
        CopyEdgesFrom(g, nodes, from);
        assert nodes[..i + 1] == nodes[..i] + [from];
        assert Elems(nodes[..i + 1]) == Elems(nodes[..i]) + {from};
      }
      assert nodes[..|nodes|] == nodes;
      InducedUnique(g.adj, adj, S);
    }

    /** The inner loop of `subgraph`: copies every edge from->to of this
        graph with `to` among `nodes` into g, leaving g's other edges. */
    method CopyEdgesFrom(g: Graph<N>, nodes: seq<N>, from: N)
      requires Valid() && g != this && g.directed == directed && g.Valid()
      requires from in nodes && EdgesWithin(g.adj, adj, Elems(nodes))
      modifies g
      ensures g.Valid() && EdgesWithin(g.adj, adj, Elems(nodes))
      ensures old(g.adj).Keys <= g.adj.Keys
      ensures forall u, v :: HasEdgeIn(old(g.adj), u, v) ==> HasEdgeIn(g.adj, u, v)
      ensures CopiedFrom(g.adj, adj, Elems(nodes), {from})
    {
      ghost var S := Elems(nodes);
      var neighbors := NeighborsWeighted(from);
      if neighbors.Some? {
        var todo := neighbors.value.Keys;
        while todo != {}
          invariant todo <= Out(adj, from)
          invariant g.Valid() && EdgesWithin(g.adj, adj, S)
          invariant old(g.adj).Keys <= g.adj.Keys
          invariant forall u, v :: HasEdgeIn(old(g.adj), u, v) ==> HasEdgeIn(g.adj, u, v)
          invariant CopiedFrom(g.adj, adj, S - todo, {from})
          decreases |todo|
        {
          var to :| to in todo;
          if to in nodes {
            ghost var before := g.adj;
            InsertEdgeWithin(g.adj, adj, S, directed, from, to);
            g.AddEdgeWeighted(from, to, neighbors.value[to]);
            forall u, v | HasEdgeIn(before, u, v) ensures HasEdgeIn(g.adj, u, v) {
              InsertEdgeKeepsEdges(before, directed, from, to, adj[from][to], u, v);
            }
          }
          todo := todo - {to};
        }
      }
    }

    /** `bfs(start)` run to exhaustion: start comes first, every node
        reachable from start comes exactly once and nothing else, and the
        nodes come in non-decreasing hop distance from start (a node within
        h hops is never preceded by one that is not). */
    method BfsCollect(start: N) returns (order: seq<N>)
      ensures |order| >= 1 && order[0] == start
      ensures NoDuplicates(order)
      ensures forall v :: v in order <==> v in ReachSet(adj, start)
      ensures HopOrdered(adj, start, order)
    {
      var b := new Bfs.New(this, start);
      order := [];
      ghost var A := adj;
      ghost var U := NodeSet(A) + {start};
      var done := false;
      TraversalStart(A, start);
      while !done
        invariant b.graph == this && fresh(b)
        invariant Traversal(A, start, order, b.queue, b.visited)
        invariant done ==> b.queue == []
        decreases |U - Elems(order)| + (if done then 0 else 1)
      {
        ghost var q, visited := b.queue, b.visited;
        var r := b.Next();
        if r.None? {
          done := true;
        } else {
          TraversalStep(A, start, order, q, visited, b.queue, b.visited);
          order := order + [r.value];
        }
      }
      TraversalDone(A, start, order, b.visited);
    }

    /** `connected_components`, run to exhaustion. A directed graph is an
        error. Otherwise the nodes are taken in ascending order; a node no
        earlier component holds starts a new one, the induced subgraph on
        what a breadth-first traversal from it reaches. The components are
        undirected, keep the original weights, and partition the nodes. */
    method ConnectedComponents(lt: (N, N) -> bool) returns (r: Result<seq<Graph<N>>, string>)
      requires StrictTotalOrder(lt) && Valid()
      ensures directed <==> r.Err?
      ensures r.Err? ==> r.error == "Cannot find connected components of a directed graph"
      ensures r.Ok? ==> (forall i :: 0 <= i < |r.value| ==> !r.value[i].directed) && ComponentSplit(adj, Adjs(r.value))
    {
      if directed {
        return Err("Cannot find connected components of a directed graph");
      }
      var components, parts := Components(lt);
      r := Ok(components);
      PartitionOfNodes(adj, parts);
      assert Adjs(components) == parts;
    }

    /** The loop of `connected_components` on an undirected graph. */
    method Components(lt: (N, N) -> bool) returns (components: seq<Graph<N>>, ghost parts: seq<Adjacency<N>>)
      requires StrictTotalOrder(lt) && Valid() && !directed
      ensures |components| == |parts|
      ensures forall i :: 0 <= i < |parts| ==> !components[i].directed && components[i].adj == parts[i]
      ensures exists starts: seq<N> :: Partition(adj, starts, parts, NodeSet(adj))
    {
      // The source reverses the sorted nodes and pops from the back; taking
      // the ascending sequence from the front is the same order.
      var nodes := SortedNodes(lt);
      var visited: set<N> := {};
      components, parts := [], [];
      assert Partition(adj, [], parts, visited);
      while nodes != []
        invariant forall x :: x in nodes ==> x in NodeSet(adj)
        invariant forall v :: v in NodeSet(adj) ==> v in nodes || v in visited
        invariant |components| == |parts|
        invariant forall i :: 0 <= i < |components| ==> !components[i].directed && components[i].adj == parts[i]
        invariant exists starts: seq<N> :: Partition(adj, starts, parts, visited)
        decreases |nodes|
      {
        var node := nodes[0];
        nodes := nodes[1..];
        if node !in visited {
          nodes, visited, components, parts := Visit(node, nodes, visited, components, parts);
        }
      }
      PartitionVisitsNodes(adj, parts, visited);
    }

    /** A node no earlier component holds: record its component, mark its
        class visited and drop the class from the pending nodes. */
    method Visit(node: N, nodes: seq<N>, visited: set<N>, components: seq<Graph<N>>, ghost parts: seq<Adjacency<N>>)
      returns (nodes2: seq<N>, visited2: set<N>, components2: seq<Graph<N>>, ghost parts2: seq<Adjacency<N>>)
      requires Valid() && !directed && node in NodeSet(adj) && node !in visited
      requires forall x :: x in nodes ==> x in NodeSet(adj)
      requires |components| == |parts|
      requires forall i :: 0 <= i < |components| ==> !components[i].directed && components[i].adj == parts[i]
      requires exists starts: seq<N> :: Partition(adj, starts, parts, visited)
      ensures |nodes2| <= |nodes| && forall x :: x in nodes2 ==> x in NodeSet(adj)
      ensures forall v :: v in nodes || v in visited || v == node ==> v in nodes2 || v in visited2
      ensures |components2| == |parts2|
      ensures forall i :: 0 <= i < |components2| ==> !components2[i].directed && components2[i].adj == parts2[i]
      ensures exists starts: seq<N> :: Partition(adj, starts, parts2, visited2)
    {
      ghost var starts: seq<N> :| Partition(adj, starts, parts, visited);
      var component, g := NewComponent(node, starts, parts, visited);
      RemoveAllMembers(nodes, Elems(component));
      nodes2 := RemoveAll(nodes, Elems(component));
      visited2 := visited + Elems(component);
      components2 := components + [g];
      parts2 := parts + [g.adj];
    }

    /** One step of `connected_components`: the class of a node not yet
        visited, as a node list and as its induced subgraph. */
    method NewComponent(node: N, ghost starts: seq<N>, ghost parts: seq<Adjacency<N>>, ghost visited: set<N>)
      returns (component: seq<N>, g: Graph<N>)
      requires Valid() && !directed && node in NodeSet(adj) && node !in visited
      requires Partition(adj, starts, parts, visited)
      ensures node in component && Elems(component) == ReachSet(adj, node)
      ensures !g.directed
      ensures Partition(adj, starts + [node], parts + [g.adj], visited + Elems(component))
    {
      component := BfsCollect(node);
      assert Elems(component) == ReachSet(adj, node);
      PartitionExtend(adj, starts, parts, visited, node);
      g := Subgraph(component);
    }

    /** `neighbors_weighted`: the edge map of n, if n is a key. */
    function NeighborsWeighted(n: N): (r: Option<map<N, nat>>)
      reads this
      ensures r.None? <==> n !in adj
      ensures r.Some? ==> r.value.Keys == Out(adj, n)
    {
      if n in adj then Some(adj[n]) else None
    }
  }

  /** The traversal state of `Bfs`: a FIFO queue and the set of nodes seen.
      A node is marked visited when it is enqueued, so it is enqueued once. */
  class Bfs<N(==,!new)> {
    const graph: Graph<N>
    var queue: seq<N>
    var visited: set<N>

    /** `Bfs::new`: start is queued and visited. */
    constructor New(graph: Graph<N>, start: N)
      ensures this.graph == graph && queue == [start] && visited == {start}
    {
      this.graph := graph;
      queue := [start];
      visited := {start};
    }

    /** `next`: pops the front node, yields it, and appends each of its
        neighbours not yet visited, once each, marking them visited. */
    method Next() returns (r: Option<N>)
      modifies this
      ensures old(queue) == [] ==> r == None && queue == [] && visited == old(visited)
      ensures old(queue) != [] ==>
        r == Some(old(queue)[0]) && PopRelation(graph.adj, old(queue), old(visited), queue, visited)
    {
      if queue == [] {
        return None;
      }
      var current := queue[0];
      queue := queue[1..];
      visited := visited + {current};
      var added: seq<N> := [];
      var neighbors := graph.Neighbors(current);
      if neighbors.Some? {
        added, visited := PushUnvisited(neighbors.value, visited);
      }
      queue := queue + added;
      assert queue[..|old(queue)| - 1] == old(queue)[1..] && queue[|old(queue)| - 1..] == added;
      return Some(current);
    }
  }

  /** The neighbour loop of `Bfs::next`: walks the neighbours in an arbitrary
      order and pushes, once each, those not yet visited, marking them. */
  method PushUnvisited<N>(neighbors: set<N>, visited: set<N>) returns (added: seq<N>, seen: set<N>)
    ensures Elems(added) == neighbors - visited && NoDuplicates(added)
    ensures seen == visited + neighbors
  {
    added, seen := [], visited;
    var todo := neighbors;
    while todo != {}
      invariant todo <= neighbors
      invariant Elems(added) == neighbors - todo - visited
      invariant NoDuplicates(added)
      invariant seen == visited + (neighbors - todo)
      decreases |todo|
    {
      var neighbor :| neighbor in todo;
      if neighbor !in seen {
        NoDuplicatesAppend(added, neighbor);
        seen := seen + {neighbor};
        added := added + [neighbor];
      }
      todo := todo - {neighbor};
    }
  }
}
