/** The state ordering of the graph library's Dijkstra search and the
    invariant its loops keep, stated over plain values, with the lemmas
    that carry the invariant across one step of the search. */
module DijkstraInvariant {
  import opened Wrappers
  import opened Util
  import opened GraphLib

  /** A heap entry: a node and the distance it was queued with. */
  datatype State<N> = State(node: N, distance: nat)

  datatype Ordering = Less | Equal | Greater

  /** `Ord::cmp` on nodes, for the strict order lt. */
  function CompareNodes<N(==)>(lt: (N, N) -> bool, a: N, b: N): Ordering
  {
    if lt(a, b) then Less else if a == b then Equal else Greater
  }

  /** `State::cmp`: distances are compared the other way round, so that the
      max-heap yields the nearest state; equal distances fall back to the
      node order. Distances are naturals, so `partial_cmp` always succeeds. */
  function CompareStates<N(==)>(lt: (N, N) -> bool, a: State<N>, b: State<N>): Ordering
  {
    if b.distance < a.distance then Less
    else if a.distance < b.distance then Greater
    else CompareNodes(lt, a.node, b.node)
  }

  /** a leaves the heap before b: a is the greater state. */
  function PopsBefore<N(==)>(lt: (N, N) -> bool): (State<N>, State<N>) -> bool
  {
    (a: State<N>, b: State<N>) => CompareStates(lt, a, b) == Greater
  }

  /** With a total node order the state ordering is total and antisymmetric,
      equal exactly on equal states, and places nearer states first. */
  lemma CompareStatesIsTotal<N(!new)>(lt: (N, N) -> bool, a: State<N>, b: State<N>)
    requires StrictTotalOrder(lt)
    ensures CompareStates(lt, a, b) == Equal <==> a == b
    ensures CompareStates(lt, a, b) == Greater <==> CompareStates(lt, b, a) == Less
    ensures CompareStates(lt, a, b) == Greater ==> a.distance <= b.distance
  {
  }

  lemma PopsBeforeIsTotal<N(!new)>(lt: (N, N) -> bool)
    requires StrictTotalOrder(lt)
    ensures StrictTotalOrder(PopsBefore(lt))
  {
    var o := PopsBefore(lt);
    forall a, b, c | o(a, b) && o(b, c) ensures o(a, c) {
      if a.distance == c.distance {
        assert lt(b.node, a.node) && lt(c.node, b.node);
      }
    }
    forall a, b | a != b ensures o(a, b) || o(b, a) {
      CompareStatesIsTotal(lt, a, b);
    }
  }

  // ---------------------------------------------------------------------
  // The search invariant, over plain values: D the distance map, H the
  // heap, S the settled nodes (those popped with their current distance),
  // cur the node being expanded and pending its edges not yet relaxed.

  /** Path p starts at start and ends at v. */
  ghost predicate PathFromTo<N>(adj: Adjacency<N>, p: seq<N>, start: N, v: N)
  {
    IsPath(adj, p) && p[0] == start && p[|p| - 1] == v
  }

  /** start is known at distance zero; known nodes are nodes of the graph;
      settled nodes are known. */
  ghost predicate Known<N>(adj: Adjacency<N>, start: N, D: map<N, nat>, S: set<N>)
  {
    start in D && D[start] == 0 && D.Keys <= NodeSet(adj) + {start} && S <= D.Keys
  }

  /** Every queued state names a known node and is no nearer than that
      node's distance; a node is queued with its own distance at most once. */
  ghost predicate Entries<N>(D: map<N, nat>, H: multiset<State<N>>)
  {
    && (forall e :: e in H ==> e.node in D && D[e.node] <= e.distance)
    && (forall v :: v in D ==> H[State(v, D[v])] <= 1)
  }

  /** Every unsettled known node is queued with its distance; a settled
      node's remaining entries are stale; level, the distance of the last
      state settled, separates the settled distances from the queued ones. */
  ghost predicate Coverage<N>(D: map<N, nat>, H: multiset<State<N>>, S: set<N>, level: nat)
    requires S <= D.Keys
  {
    && (forall v :: v in D && v !in S ==> State(v, D[v]) in H)
    && (forall e :: e in H && e.node in S && e.node in D ==> D[e.node] < e.distance)
    && (forall u :: u in S ==> D[u] <= level)
    && (forall e :: e in H ==> level <= e.distance)
  }

  ghost predicate Frontier<N>(adj: Adjacency<N>, start: N, D: map<N, nat>, H: multiset<State<N>>, S: set<N>, level: nat)
  {
    Known(adj, start, D, S) && Entries(D, H) && Coverage(D, H, S, level)
  }

  /** Every edge out of a settled node has been relaxed, except those from
      cur to the pending nodes; while edges are pending, cur is the node
      settled last, at distance level. */
  ghost predicate Relaxed<N(!new)>(adj: Adjacency<N>, cur: N, pending: set<N>, D: map<N, nat>, S: set<N>, level: nat)
    requires S <= D.Keys
  {
    && (forall u, w :: u in S && HasEdgeIn(adj, u, w) && !(u == cur && w in pending) ==>
          w in D && D[w] <= D[u] + adj[u][w])
    && (pending != {} ==> cur in S && pending <= Out(adj, cur) && D[cur] == level)
  }

  /** A settled node's distance is no greater than the weight of any path to it. */
  ghost predicate Optimal<N(!new)>(adj: Adjacency<N>, start: N, D: map<N, nat>, S: set<N>)
    requires S <= D.Keys
  {
    forall p :: IsPath(adj, p) && p[0] == start && p[|p| - 1] in S ==> D[p[|p| - 1]] <= PathWeight(adj, p)
  }

  ghost predicate Search<N(!new)>(adj: Adjacency<N>, start: N, cur: N, pending: set<N>,
                                  D: map<N, nat>, H: multiset<State<N>>, S: set<N>, level: nat)
  {
    Frontier(adj, start, D, H, S, level) && Relaxed(adj, cur, pending, D, S, level) && Optimal(adj, start, D, S)
  }

  /** One predecessor per known node other than start, settled before it,
      along an edge that accounts exactly for the node's distance. */
  ghost predicate Tree<N(!new)>(adj: Adjacency<N>, start: N, D: map<N, nat>, P: map<N, N>,
                          S: set<N>, rank: map<N, nat>, clock: nat)
  {
    && start !in P && D.Keys == P.Keys + {start}
    && (forall v :: v in P ==>
          P[v] in S && P[v] in D && HasEdgeIn(adj, P[v], v) && D[v] == D[P[v]] + adj[P[v]][v])
    && rank.Keys == S
    && (forall v :: v in S ==> rank[v] < clock)
    && (forall v :: v in P && v in S ==> rank[P[v]] < rank[v])
  }

  // ---------------------------------------------------------------------
  // Lemmas: each step of the search keeps the invariant

  lemma SearchStart<N(!new)>(adj: Adjacency<N>, start: N)
    ensures Search(adj, start, start, {}, map[start := 0], multiset{State(start, 0)}, {}, 0)
    ensures Tree(adj, start, map[start := 0], map[], {}, map[], 0)
  {
  }

  /** The nearest queued distance bounds every path from start to an
      unsettled node. */
  lemma {:induction false} NearestBound<N(!new)>(adj: Adjacency<N>, start: N, cur: N, D: map<N, nat>,
                                                 H: multiset<State<N>>, S: set<N>, level: nat,
                                                 top: State<N>, p: seq<N>)
    requires Search(adj, start, cur, {}, D, H, S, level)
    requires top in H && forall e :: e in H ==> top.distance <= e.distance
    requires IsPath(adj, p) && p[0] == start && p[|p| - 1] !in S
    ensures top.distance <= PathWeight(adj, p)
    decreases |p|
  {
    if |p| == 1 {
      assert State(start, D[start]) in H;
    } else {
      PathInit(adj, p);
      var q := p[..|p| - 1];
      var x, y := q[|q| - 1], p[|p| - 1];
      if x !in S {
        NearestBound(adj, start, cur, D, H, S, level, top, q);
      } else {
        assert D[x] <= PathWeight(adj, q);
        assert y in D && D[y] <= D[x] + adj[x][y];
        assert State(y, D[y]) in H;
      }
    }
  }

  /** A stale entry is dropped without changing anything else. */
  lemma SkipStale<N(!new)>(adj: Adjacency<N>, start: N, cur: N, D: map<N, nat>,
                           H: multiset<State<N>>, S: set<N>, level: nat, top: State<N>)
    requires Search(adj, start, cur, {}, D, H, S, level)
    requires top in H && top.node in D && D[top.node] < top.distance
    ensures Search(adj, start, cur, {}, D, H - multiset{top}, S, level)
  {
    var H2 := H - multiset{top};
    forall v | v in D && v !in S ensures State(v, D[v]) in H2 {
      assert State(v, D[v]) != top;
    }
  }

  /** A nearest entry with its node's current distance settles the node at
      that distance, which becomes the level: the distance is optimal and
      the node's edges become pending. */
  lemma Settle<N(!new)>(adj: Adjacency<N>, start: N, cur: N, D: map<N, nat>,
                        H: multiset<State<N>>, S: set<N>, level: nat, top: State<N>)
    requires Search(adj, start, cur, {}, D, H, S, level)
    requires top in H && forall e :: e in H ==> top.distance <= e.distance
    requires top.node in D && top.distance <= D[top.node]
    ensures top.node !in S && top.distance == D[top.node]
    ensures Search(adj, start, top.node, Out(adj, top.node), D, H - multiset{top}, S + {top.node}, top.distance)
  {
    var v := top.node;
    var H2, S2 := H - multiset{top}, S + {v};
    assert top == State(v, D[v]);
    forall v' | v' in D && v' !in S2 ensures State(v', D[v']) in H2 {
      assert State(v', D[v']) != top;
    }
    forall e | e in H2 && e.node in S2 ensures D[e.node] < e.distance {
      if e.node == v {
        assert H2[top] == 0;
      }
    }
    forall p | IsPath(adj, p) && p[0] == start && p[|p| - 1] in S2
      ensures D[p[|p| - 1]] <= PathWeight(adj, p)
    {
      if p[|p| - 1] == v {
        NearestBound(adj, start, cur, D, H, S, level, top, p);
      }
    }
    assert Optimal(adj, start, D, S2);
  }

  /** Relaxing a pending edge that improves its target's distance. */
  lemma RelaxImproves<N(!new)>(adj: Adjacency<N>, start: N, cur: N, pending: set<N>, D: map<N, nat>,
                               H: multiset<State<N>>, S: set<N>, level: nat, w: N, nd: nat)
    requires Search(adj, start, cur, pending, D, H, S, level) && w in pending
    requires HasEdgeIn(adj, cur, w) && nd == D[cur] + adj[cur][w]
    requires w !in D || nd < D[w]
    ensures w !in S && w != start
    ensures Search(adj, start, cur, pending - {w}, D[w := nd], H + multiset{State(w, nd)}, S, level)
  {
    assert w !in S;
    FrontierAfterImprove(adj, start, D, H, S, level, w, nd);
    RelaxedAfterImprove(adj, cur, pending, D, S, level, w, nd);
    OptimalAgrees(adj, start, D, D[w := nd], S);
  }

  lemma FrontierAfterImprove<N(!new)>(adj: Adjacency<N>, start: N, D: map<N, nat>,
                                      H: multiset<State<N>>, S: set<N>, level: nat, w: N, nd: nat)
    requires Frontier(adj, start, D, H, S, level) && w !in S && w in NodeSet(adj)
    requires (w !in D || nd < D[w]) && level <= nd
    ensures w != start
    ensures Frontier(adj, start, D[w := nd], H + multiset{State(w, nd)}, S, level)
  {
    EntriesAfterImprove(D, H, w, nd);
    CoverageAfterImprove(D, H, S, level, w, nd);
  }

  lemma EntriesAfterImprove<N>(D: map<N, nat>, H: multiset<State<N>>, w: N, nd: nat)
    requires Entries(D, H) && (w !in D || nd < D[w])
    ensures Entries(D[w := nd], H + multiset{State(w, nd)})
  {
    var D2, H2 := D[w := nd], H + multiset{State(w, nd)};
    forall e | e in H2 ensures e.node in D2 && D2[e.node] <= e.distance {
      if e != State(w, nd) && e.node == w {
        assert e in H;
      }
    }
    forall v | v in D2 ensures H2[State(v, D2[v])] <= 1 {
      if v == w {
        assert State(w, nd) !in H;
      } else {
        assert State(v, D2[v]) == State(v, D[v]);
      }
    }
  }

  lemma CoverageAfterImprove<N>(D: map<N, nat>, H: multiset<State<N>>, S: set<N>, level: nat, w: N, nd: nat)
    requires S <= D.Keys && Coverage(D, H, S, level) && w !in S && level <= nd
    ensures S <= D[w := nd].Keys && Coverage(D[w := nd], H + multiset{State(w, nd)}, S, level)
  {
    var D2 := D[w := nd];
    forall u | u in S ensures D2[u] <= level {
      assert D2[u] == D[u];
    }
  }

  lemma RelaxedAfterImprove<N(!new)>(adj: Adjacency<N>, cur: N, pending: set<N>, D: map<N, nat>,
                                     S: set<N>, level: nat, w: N, nd: nat)
    requires S <= D.Keys && Relaxed(adj, cur, pending, D, S, level) && w in pending && w !in S
    requires HasEdgeIn(adj, cur, w) && nd == D[cur] + adj[cur][w]
    requires w !in D || nd < D[w]
    ensures S <= D[w := nd].Keys && Relaxed(adj, cur, pending - {w}, D[w := nd], S, level)
  {
    var D2 := D[w := nd];
    forall u, x | u in S && HasEdgeIn(adj, u, x) && !(u == cur && x in pending - {w})
      ensures x in D2 && D2[x] <= D2[u] + adj[u][x]
    {
      assert D2[u] == D[u];
    }
  }

  /** Optimality of the settled nodes depends only on their distances. */
  lemma OptimalAgrees<N(!new)>(adj: Adjacency<N>, start: N, D: map<N, nat>, D2: map<N, nat>, S: set<N>)
    requires S <= D.Keys && S <= D2.Keys && Optimal(adj, start, D, S)
    requires forall u :: u in S ==> D2[u] == D[u]
    ensures Optimal(adj, start, D2, S)
  {
    forall p | IsPath(adj, p) && p[0] == start && p[|p| - 1] in S
      ensures D2[p[|p| - 1]] <= PathWeight(adj, p)
    {
      assert D2[p[|p| - 1]] == D[p[|p| - 1]];
    }
  }

  /** Relaxing a pending edge that does not improve its target. */
  lemma RelaxKeeps<N(!new)>(adj: Adjacency<N>, start: N, cur: N, pending: set<N>, D: map<N, nat>,
                            H: multiset<State<N>>, S: set<N>, level: nat, w: N)
    requires Search(adj, start, cur, pending, D, H, S, level) && w in pending
    requires HasEdgeIn(adj, cur, w) && w in D && D[w] <= D[cur] + adj[cur][w]
    ensures Search(adj, start, cur, pending - {w}, D, H, S, level)
  {
  }

  /** Settling a node gives it the next rank. */
  lemma TreeSettle<N(!new)>(adj: Adjacency<N>, start: N, D: map<N, nat>, P: map<N, N>,
                      S: set<N>, rank: map<N, nat>, clock: nat, v: N)
    requires Tree(adj, start, D, P, S, rank, clock) && v !in S
    ensures Tree(adj, start, D, P, S + {v}, rank[v := clock], clock + 1)
  {
  }

  /** An improving relaxation makes the expanded node the predecessor. */
  lemma TreeImprove<N(!new)>(adj: Adjacency<N>, start: N, D: map<N, nat>, P: map<N, N>,
                       S: set<N>, rank: map<N, nat>, clock: nat, cur: N, w: N, nd: nat)
    requires Tree(adj, start, D, P, S, rank, clock)
    requires cur in S && cur in D && w !in S && w != start
    requires HasEdgeIn(adj, cur, w) && nd == D[cur] + adj[cur][w]
    ensures Tree(adj, start, D[w := nd], P[w := cur], S, rank, clock)
  {
    var D2, P2 := D[w := nd], P[w := cur];
    forall v | v in P2
      ensures P2[v] in S && P2[v] in D2 && HasEdgeIn(adj, P2[v], v) && D2[v] == D2[P2[v]] + adj[P2[v]][v]
    {
      assert P2[v] != w;
    }
  }

  /** The end node popped before it was settled carries its optimal distance. */
  lemma EndPopped<N(!new)>(adj: Adjacency<N>, start: N, cur: N, D: map<N, nat>,
                           H: multiset<State<N>>, S: set<N>, level: nat, top: State<N>)
    requires Search(adj, start, cur, {}, D, H, S, level)
    requires top in H && forall e :: e in H ==> top.distance <= e.distance
    requires top.node !in S
    ensures top.node in D && top.distance == D[top.node]
    ensures forall p :: PathFromTo(adj, p, start, top.node) ==> top.distance <= PathWeight(adj, p)
  {
    assert State(top.node, D[top.node]) in H;
    forall p | PathFromTo(adj, p, start, top.node) ensures top.distance <= PathWeight(adj, p) {
      NearestBound(adj, start, cur, D, H, S, level, top, p);
    }
  }

  /** With the heap empty, every path from start stays among the settled nodes. */
  lemma {:induction false} ExhaustedSettlesReach<N(!new)>(adj: Adjacency<N>, start: N, cur: N,
                                                          D: map<N, nat>, S: set<N>, level: nat, p: seq<N>)
    requires Search(adj, start, cur, {}, D, multiset{}, S, level)
    requires IsPath(adj, p) && p[0] == start
    ensures p[|p| - 1] in S
    decreases |p|
  {
    if |p| > 1 {
      PathInit(adj, p);
      ExhaustedSettlesReach(adj, start, cur, D, S, level, p[..|p| - 1]);
    }
  }

  /** Relaxed with nothing pending does not depend on which node was expanded last. */
  lemma SearchIdle<N(!new)>(adj: Adjacency<N>, start: N, cur: N, D: map<N, nat>, H: multiset<State<N>>,
                            S: set<N>, level: nat)
    requires Search(adj, start, cur, {}, D, H, S, level)
    ensures Search(adj, start, start, {}, D, H, S, level)
  {
  }

  /** The distance v ends up with once the edge into it of length via has
      been relaxed: via when v was unknown, otherwise the smaller. */
  function Relaxation<N>(D: map<N, nat>, v: N, via: nat): (d: nat)
    ensures d <= via && (v in D ==> d <= D[v])
    ensures d == via || (v in D && d == D[v])
  {
    if v in D then Min(D[v], via) else via
  }

  /** The distance map after the edges from u to the nodes in done have
      been relaxed, starting from D. */
  function RelaxAll<N>(adj: Adjacency<N>, u: N, D: map<N, nat>, done: set<N>): map<N, nat>
    requires done <= Out(adj, u) && (done != {} ==> u in D)
  {
    map v | v in D.Keys + done :: if v in done then Relaxation(D, v, D[u] + adj[u][v]) else D[v]
  }

  /** What relaxing the edges out of u does: exactly their targets become
      known; each target ends with the smaller of its old distance and the
      distance through u, and every other distance stays. */
  lemma RelaxAllMeaning<N>(adj: Adjacency<N>, u: N, D: map<N, nat>, done: set<N>)
    requires done <= Out(adj, u) && (done != {} ==> u in D)
    ensures RelaxAll(adj, u, D, done).Keys == D.Keys + done
    ensures forall v :: v in D && v !in done ==> RelaxAll(adj, u, D, done)[v] == D[v]
    ensures forall v :: v in done ==> RelaxAll(adj, u, D, done)[v] <= D[u] + adj[u][v]
    ensures forall v :: v in done && v in D ==> RelaxAll(adj, u, D, done)[v] <= D[v]
    ensures forall v :: v in done ==> RelaxAll(adj, u, D, done)[v] == D[u] + adj[u][v] ||
                                      (v in D && RelaxAll(adj, u, D, done)[v] == D[v])
  {
  }

  /** One more edge out of u, taken from the pending ones, that gives its
      target a strictly shorter distance: the map with that distance
      written is the relaxation of one more edge. */
  lemma RelaxAllImprove<N>(adj: Adjacency<N>, u: N, D: map<N, nat>, D': map<N, nat>, pending: set<N>, next: N, nd: nat)
    requires pending <= Out(adj, u) && next in pending && u in D
    requires D' == RelaxAll(adj, u, D, Out(adj, u) - pending)
    requires u in D' && nd == D'[u] + adj[u][next] && (next !in D' || nd < D'[next])
    ensures D'[next := nd] == RelaxAll(adj, u, D, Out(adj, u) - (pending - {next}))
  {
    var done := Out(adj, u) - (pending - {next});
    assert done == (Out(adj, u) - pending) + {next};
    assert D'[u] == D[u];
  }

  /** One more edge out of u that gives no shorter distance: the map is
      already the relaxation of one more edge. */
  lemma RelaxAllKeep<N>(adj: Adjacency<N>, u: N, D: map<N, nat>, D': map<N, nat>, pending: set<N>, next: N)
    requires pending <= Out(adj, u) && next in pending && u in D
    requires D' == RelaxAll(adj, u, D, Out(adj, u) - pending)
    requires u in D' && next in D' && D'[next] <= D'[u] + adj[u][next]
    ensures D' == RelaxAll(adj, u, D, Out(adj, u) - (pending - {next}))
  {
    var done := Out(adj, u) - (pending - {next});
    assert done == (Out(adj, u) - pending) + {next};
    assert D'[u] == D[u];
  }

  /** The whole state of a search between two pops, kept as one fact in
      the same way as Relaxing. */
  ghost predicate Consistent<N(!new)>(adj: Adjacency<N>, start: N, D: map<N, nat>, P: map<N, N>,
                                      H: multiset<State<N>>, S: set<N>, level: nat, rank: map<N, nat>, clock: nat)
  {
    match (D, P) case (d, p) => Search(adj, start, start, {}, d, H, S, level) && Tree(adj, start, d, p, S, rank, clock)
  }

  /** `Dijkstra::new`: only start is known, at distance zero, and queued. */
  lemma ConsistentStart<N(!new)>(adj: Adjacency<N>, start: N)
    ensures Consistent(adj, start, map[start := 0], map[], multiset{State(start, 0)}, {}, 0, map[], 0)
  {
    SearchStart(adj, start);
  }

  /** Popping a stale entry keeps the state consistent. */
  lemma SkipStep<N(!new)>(adj: Adjacency<N>, start: N, D: map<N, nat>, P: map<N, N>, H: multiset<State<N>>,
                          S: set<N>, level: nat, rank: map<N, nat>, clock: nat, top: State<N>)
    requires Consistent(adj, start, D, P, H, S, level, rank, clock)
    requires top in H && top.node in D && D[top.node] < top.distance
    ensures Consistent(adj, start, D, P, H - multiset{top}, S, level, rank, clock)
  {
    SkipStale(adj, start, start, D, H, S, level, top);
  }

  /** Popping a nearest entry that is not stale settles its node, which
      takes the next rank; the loop over its edges can start. */
  lemma SettleStep<N(!new)>(adj: Adjacency<N>, start: N, D: map<N, nat>, P: map<N, N>, H: multiset<State<N>>,
                            S: set<N>, level: nat, rank: map<N, nat>, clock: nat, top: State<N>)
    requires Consistent(adj, start, D, P, H, S, level, rank, clock)
    requires top in H && forall e :: e in H ==> top.distance <= e.distance
    requires !(top.node in D && D[top.node] < top.distance)
    ensures top.node in D && top.node !in S && top.distance == D[top.node]
    ensures top.node in NodeSet(adj) + {start}
    ensures Relaxing(adj, start, top.node, Out(adj, top.node), D, D, P, H - multiset{top},
                     S + {top.node}, top.distance, rank[top.node := clock], clock + 1)
  {
    Settle(adj, start, start, D, H, S, level, top);
    TreeSettle(adj, start, D, P, S, rank, clock, top.node);
    RelaxingStart(adj, start, top.node, D, P, H - multiset{top}, S + {top.node}, top.distance,
                  rank[top.node := clock], clock + 1);
  }

  /** Popping end before it is settled: the popped distance is end's and
      no path from start to end is lighter. */
  lemma EndStep<N(!new)>(adj: Adjacency<N>, start: N, D: map<N, nat>, P: map<N, N>, H: multiset<State<N>>,
                         S: set<N>, level: nat, rank: map<N, nat>, clock: nat, top: State<N>)
    requires Consistent(adj, start, D, P, H, S, level, rank, clock)
    requires top in H && forall e :: e in H ==> top.distance <= e.distance
    requires top.node !in S
    ensures top.node in D && top.distance == D[top.node]
    ensures forall p :: PathFromTo(adj, p, start, top.node) ==> top.distance <= PathWeight(adj, p)
  {
    EndPopped(adj, start, start, D, H, S, level, top);
  }

  /** With the heap empty, the nodes reachable from start are all settled. */
  lemma ExhaustedStep<N(!new)>(adj: Adjacency<N>, start: N, D: map<N, nat>, P: map<N, N>,
                               S: set<N>, level: nat, rank: map<N, nat>, clock: nat)
    requires Consistent(adj, start, D, P, multiset{}, S, level, rank, clock)
    ensures forall p :: IsPath(adj, p) && p[0] == start ==> p[|p| - 1] in S
  {
    forall p | IsPath(adj, p) && p[0] == start ensures p[|p| - 1] in S {
      ExhaustedSettlesReach(adj, start, start, D, S, level, p);
    }
  }

  /** The state of the relaxation loop for node u, started from distance
      map D0 with the edges to pending still to do. The body is written as
      a match on the maps so that the loop carries it as a single fact
      rather than as its many conjuncts. */
  ghost predicate Relaxing<N(!new)>(adj: Adjacency<N>, start: N, u: N, pending: set<N>, D0: map<N, nat>,
                                    D: map<N, nat>, P: map<N, N>, H: multiset<State<N>>,
                                    S: set<N>, level: nat, rank: map<N, nat>, clock: nat)
  {
    match (D, P)
    case (d, p) =>
      pending <= Out(adj, u) && u in D0 && d == RelaxAll(adj, u, D0, Out(adj, u) - pending)
      && Search(adj, start, u, pending, d, H, S, level) && Tree(adj, start, d, p, S, rank, clock)
  }

  /** The loop starts with every edge pending and nothing changed. */
  lemma RelaxingStart<N(!new)>(adj: Adjacency<N>, start: N, u: N, D: map<N, nat>, P: map<N, N>,
                               H: multiset<State<N>>, S: set<N>, level: nat, rank: map<N, nat>, clock: nat)
    requires Search(adj, start, u, Out(adj, u), D, H, S, level) && Tree(adj, start, D, P, S, rank, clock)
    requires u in D
    ensures Relaxing(adj, start, u, Out(adj, u), D, D, P, H, S, level, rank, clock)
  {
    assert D == RelaxAll(adj, u, D, Out(adj, u) - Out(adj, u));
  }

  /** The improving branch of the loop keeps its state. */
  lemma ImproveStep<N(!new)>(adj: Adjacency<N>, start: N, u: N, next: N, pending: set<N>, D0: map<N, nat>,
                             D: map<N, nat>, P: map<N, N>, H: multiset<State<N>>,
                             S: set<N>, level: nat, rank: map<N, nat>, clock: nat, nd: nat)
    requires Relaxing(adj, start, u, pending, D0, D, P, H, S, level, rank, clock) && next in pending
    requires u in D && u in adj && next in adj[u]
    requires nd == D[u] + adj[u][next] && (next !in D || nd < D[next])
    ensures Relaxing(adj, start, u, pending - {next}, D0, D[next := nd], P[next := u], H + multiset{State(next, nd)},
                     S, level, rank, clock)
  {
    RelaxImproves(adj, start, u, pending, D, H, S, level, next, nd);
    TreeImprove(adj, start, D, P, S, rank, clock, u, next, nd);
    RelaxAllImprove(adj, u, D0, D, pending, next, nd);
  }

  /** The other branch keeps it too, changing nothing. */
  lemma KeepStep<N(!new)>(adj: Adjacency<N>, start: N, u: N, next: N, pending: set<N>, D0: map<N, nat>,
                          D: map<N, nat>, P: map<N, N>, H: multiset<State<N>>,
                          S: set<N>, level: nat, rank: map<N, nat>, clock: nat)
    requires Relaxing(adj, start, u, pending, D0, D, P, H, S, level, rank, clock) && next in pending
    requires u in D && u in adj && next in adj[u]
    requires next in D && D[next] <= D[u] + adj[u][next]
    ensures Relaxing(adj, start, u, pending - {next}, D0, D, P, H, S, level, rank, clock)
  {
    RelaxKeeps(adj, start, u, pending, D, H, S, level, next);
    RelaxAllKeep(adj, u, D0, D, pending, next);
  }

  /** With no edge pending the search is consistent again, and the map is
      the relaxation of all of u's edges. */
  lemma RelaxingDone<N(!new)>(adj: Adjacency<N>, start: N, u: N, D0: map<N, nat>,
                              D: map<N, nat>, P: map<N, N>, H: multiset<State<N>>,
                              S: set<N>, level: nat, rank: map<N, nat>, clock: nat)
    requires Relaxing(adj, start, u, {}, D0, D, P, H, S, level, rank, clock)
    ensures u in D0
    ensures Consistent(adj, start, D, P, H, S, level, rank, clock)
    ensures D == RelaxAll(adj, u, D0, Out(adj, u))
  {
    assert Out(adj, u) - {} == Out(adj, u);
    SearchIdle(adj, start, u, D, H, S, level);
  }

}
