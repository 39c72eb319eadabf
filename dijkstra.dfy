/** The lazy-deletion Dijkstra search of the graph library: a max-heap of
    states ordered so that the nearest state comes out first, a distance
    map, and either one predecessor per node (single shortest path) or a
    list of predecessors per node (all shortest paths). The heap is a
    multiset; a pop takes its greatest state under the state ordering. */
module Dijkstras {
  import opened Wrappers
  import opened Util
  import opened GraphLib
  import opened DijkstraInvariant
  import opened AllPathsInvariant

  /** `BinaryHeap::pop` on a non-empty heap: the greatest state, which is a
      nearest one, and the heap without one copy of it. */
  method PopGreatest<N(==,!new)>(lt: (N, N) -> bool, queue: multiset<State<N>>) returns (top: State<N>, rest: multiset<State<N>>)
    requires StrictTotalOrder(lt) && queue != multiset{}
    ensures top in queue && rest == queue - multiset{top}
    ensures forall e :: e in queue && e != top ==> CompareStates(lt, top, e) == Greater
    ensures forall e :: e in queue ==> top.distance <= e.distance
  {
    PopsBeforeIsTotal(lt);
    var entries := set e | e in queue;
    assert exists e :: e in queue;
    var e0 :| e0 in queue;
    assert e0 in entries;
    HasMinimum(entries, PopsBefore(lt));
    top :| IsMinimum(top, entries, PopsBefore(lt));
    rest := queue - multiset{top};
    forall e | e in queue && e != top ensures CompareStates(lt, top, e) == Greater {
      assert e in entries;
      assert PopsBefore(lt)(top, e);
    }
    forall e | e in queue ensures top.distance <= e.distance {
      if e != top {
        CompareStatesIsTotal(lt, top, e);
      }
    }
  }

  /** The inner loop of `shortest_path`, on the search's maps: each edge out
      of the node just settled lowers its target's distance when it gives a
      strictly shorter one, recording the node as predecessor and queueing
      the target; every other distance stays as it was. */
  method RelaxEdges<N(!new)>(adj: Adjacency<N>, node: N, D: map<N, nat>, P: map<N, N>, H: multiset<State<N>>,
                             ghost start: N, ghost S: set<N>, ghost level: nat, ghost rank: map<N, nat>, ghost clock: nat)
    returns (D': map<N, nat>, P': map<N, N>, H': multiset<State<N>>)
    requires Relaxing(adj, start, node, Out(adj, node), D, D, P, H, S, level, rank, clock)
    ensures Consistent(adj, start, D', P', H', S, level, rank, clock)
    ensures D' == RelaxAll(adj, node, D, Out(adj, node))
  {
    D', P', H' := D, P, H;
    var pending := Out(adj, node);
    while pending != {}
      invariant Relaxing(adj, start, node, pending, D, D', P', H', S, level, rank, clock)
      decreases |pending|
    {
      var next :| next in pending;
      var nd := D'[node] + adj[node][next];
      if next !in D' || nd < D'[next] {
        ImproveStep(adj, start, node, next, pending, D, D', P', H', S, level, rank, clock, nd);
        D', P', H' := D'[next := nd], P'[next := node], H' + multiset{State(next, nd)};
      } else {
        KeepStep(adj, start, node, next, pending, D, D', P', H', S, level, rank, clock);
      }
      pending := pending - {next};
    }
    RelaxingDone(adj, start, node, D, D', P', H', S, level, rank, clock);
  }

  /** The inner loop of `all_shortest_paths`: a strictly shorter distance
      replaces the target's list by the expanded node and queues the
      target, an equal one appends the node to the list, a longer one is
      skipped. */
  method RelaxEdgesAll<N(!new)>(adj: Adjacency<N>, node: N, D: map<N, nat>, A: map<N, seq<N>>, H: multiset<State<N>>,
                                ghost start: N, ghost S: set<N>, ghost level: nat)
    returns (D': map<N, nat>, A': map<N, seq<N>>, H': multiset<State<N>>)
    requires PositiveWeights(adj)
    requires AllRelaxing(adj, start, node, Out(adj, node), D, D, A, H, S, level)
    ensures AllConsistent(adj, start, D', A', H', S, level)
    ensures D' == RelaxAll(adj, node, D, Out(adj, node))
  {
    D', A', H' := D, A, H;
    var pending := Out(adj, node);
    while pending != {}
      invariant AllRelaxing(adj, start, node, pending, D, D', A', H', S, level)
      decreases |pending|
    {
      var next :| next in pending;
      var nd := D'[node] + adj[node][next];
      if next in D' && nd > D'[next] {
        AllWorseStep(adj, start, node, next, pending, D, D', A', H', S, level);
      } else if next in D' && nd == D'[next] {
        AllTieStep(adj, start, node, next, pending, D, D', A', H', S, level);
        A' := A'[next := Entry(A', next) + [node]];
      } else {
        AllImproveStep(adj, start, node, next, pending, D, D', A', H', S, level, nd);
        D', A', H' := D'[next := nd], A'[next := [node]], H' + multiset{State(next, nd)};
      }
      pending := pending - {next};
    }
    AllRelaxingDone(adj, start, node, D, D', A', H', S, level);
  }

  // ---------------------------------------------------------------------
  // The search object

  class Dijkstra<N(==,!new)> {
    /** The borrowed graph cannot change while the search holds it, so its
        edge map is kept as a value. */
    const adj: Adjacency<N>
    /** The node type's `Ord`, used to break distance ties in the heap. */
    const lt: (N, N) -> bool
    ghost const start: N
    var distances: map<N, nat>
    var predecessors: map<N, N>
    var queue: multiset<State<N>>
    /** The nodes popped with their current distance, in the order given by rank. */
    ghost var settled: set<N>
    /** The distance of the state settled last. */
    ghost var level: nat
    ghost var rank: map<N, nat>
    ghost var clock: nat

    ghost predicate Valid()
      reads this
    {
      StrictTotalOrder(lt) && Consistent(adj, start, distances, predecessors, queue, settled, level, rank, clock)
    }

    /** `Dijkstra::new`: start known at distance zero and queued. */
    constructor New(graph: Graph<N>, start: N, lt: (N, N) -> bool)
      requires StrictTotalOrder(lt)
      ensures adj == graph.adj && this.start == start && this.lt == lt
      ensures distances == map[start := 0] && predecessors == map[] && queue == multiset{State(start, 0)}
      ensures settled == {} && Valid()
    {
      adj := graph.adj;
      this.lt := lt;
      this.start := start;
      distances := map[start := 0];
      predecessors := map[];
      queue := multiset{State(start, 0)};
      settled, level, rank, clock := {}, 0, map[], 0;
      ConsistentStart(graph.adj, start);
    }

    /** `shortest_path`: pop states until end comes out, skipping stale
        entries and relaxing the edges of every node settled on the way.
        The answer is a cheapest path from start to end with its weight,
        or None exactly when end cannot be reached. The loop works on
        copies of the fields, which are written back before returning; the
        state popped for end is gone from the queue afterwards. */
    method ShortestPath(end: N) returns (r: Option<(seq<N>, nat)>)
      requires Valid() && end !in settled
      modifies this
      ensures r.Some? ==> end in distances && distances[end] == r.value.1
      ensures r.None? ==> Valid()
      ensures r.Some? ==> PathFromTo(adj, r.value.0, start, end) && PathWeight(adj, r.value.0) == r.value.1
      ensures r.Some? ==> forall p :: PathFromTo(adj, p, start, end) ==> r.value.1 <= PathWeight(adj, p)
      ensures r.None? ==> forall p :: IsPath(adj, p) && p[0] == start ==> p[|p| - 1] != end
    {
      var D, P, H := distances, predecessors, queue;
      ghost var S, L, R, c := settled, level, rank, clock;
      ghost var U := NodeSet(adj) + {start};
      while H != multiset{}
        invariant Consistent(adj, start, D, P, H, S, L, R, c) && end !in S
        decreases |U - S|, |H|
      {
        var top, rest := PopGreatest(lt, H);
        if top.node == end {
          EndStep(adj, start, D, P, H, S, L, R, c, top);
          var path := Answer(end, D, P, H, rest, S, L, R, c);
          return Some((path, top.distance));
        }
        if top.node in D && top.distance > D[top.node] {
          SkipStep(adj, start, D, P, H, S, L, R, c, top);
          H := rest;
          continue;
        }
        var node := top.node;
        SettleStep(adj, start, D, P, H, S, L, R, c, top);
        FewerOutside(U, S, node);
        D, P, H := RelaxEdges(adj, node, D, P, H - multiset{top}, start, S + {node}, top.distance, R[node := c], c + 1);
        S, L, R, c := S + {node}, top.distance, R[node := c], c + 1;
      }
      ExhaustedStep(adj, start, D, P, S, L, R, c);
      Store(D, P, H, S, L, R, c);
      return None;
    }

    /** The end of a successful search: the state is written back without
        the popped state of end, and the path is read off the predecessors. */
    method Answer(end: N, D: map<N, nat>, P: map<N, N>, H: multiset<State<N>>, rest: multiset<State<N>>,
                  ghost S: set<N>, ghost L: nat, ghost R: map<N, nat>, ghost c: nat) returns (path: seq<N>)
      requires StrictTotalOrder(lt) && Consistent(adj, start, D, P, H, S, L, R, c) && end in D
      modifies this
      ensures PathFromTo(adj, path, start, end) && PathWeight(adj, path) == D[end]
      ensures distances == D && predecessors == P && queue == rest
    {
      Store(D, P, H, S, L, R, c);
      path := ReconstructPath(end);
      queue := rest;
    }

    /** Writes a search state back into the fields. */
    method Store(D: map<N, nat>, P: map<N, N>, H: multiset<State<N>>,
                 ghost S: set<N>, ghost L: nat, ghost R: map<N, nat>, ghost c: nat)
      requires StrictTotalOrder(lt) && Consistent(adj, start, D, P, H, S, L, R, c)
      modifies this
      ensures Valid()
      ensures distances == D && predecessors == P && queue == H && settled == S
    {
      distances, predecessors, queue := D, P, H;
      settled, level, rank, clock := S, L, R, c;
    }

    /** `reconstruct_path`: follow predecessors back from end to start and
        reverse; the path's weight is end's distance. */
    method ReconstructPath(end: N) returns (path: seq<N>)
      requires Valid() && end in distances
      ensures PathFromTo(adj, path, start, end) && PathWeight(adj, path) == distances[end]
    {
      var back := [end];
      var current := end;
      while current in predecessors
        invariant current in distances && |back| >= 1 && back[0] == end && back[|back| - 1] == current
        invariant IsPath(adj, Reverse(back)) && Reverse(back)[0] == current
        invariant distances[end] == distances[current] + PathWeight(adj, Reverse(back))
        decreases if current in settled then rank[current] else clock
      {
        var pred := predecessors[current];
        ReverseAppend(back, pred);
        PathCons(adj, pred, Reverse(back));
        back := back + [pred];
        current := pred;
      }
      path := Reverse(back);
      ReverseAt(back, |back| - 1);
    }

    /** `all_shortest_paths`: the same search, keeping for every node the
        list of all nodes through which its current distance is reached
        (an equal distance appends, a shorter one restarts the list). When
        end comes out, the answer is every cheapest path from start to end,
        each once, with their weight; None exactly when end cannot be
        reached. The single-predecessor map is left as it was. */
    method AllShortestPaths(end: N) returns (r: Option<(seq<seq<N>>, nat)>)
      requires Valid() && settled == {} && PositiveWeights(adj)
      modifies this
      ensures predecessors == old(predecessors)
      ensures r.Some? ==> end in distances && distances[end] == r.value.1
      ensures r.Some? ==> forall p :: p in r.value.0 ==> PathFromTo(adj, p, start, end) && PathWeight(adj, p) == r.value.1
      ensures r.Some? ==> forall p :: PathFromTo(adj, p, start, end) ==> r.value.1 <= PathWeight(adj, p)
      ensures r.Some? ==> forall p :: PathFromTo(adj, p, start, end) && PathWeight(adj, p) == r.value.1 ==> p in r.value.0
      ensures r.Some? ==> NoDuplicates(r.value.0) && |r.value.0| > 0
      ensures r.None? ==> forall p :: IsPath(adj, p) && p[0] == start ==> p[|p| - 1] != end
    {
      var D, H := distances, queue;
      var A: map<N, seq<N>> := map[];
      ghost var S, L := settled, level;
      ghost var U := NodeSet(adj) + {start};
      AllStart(adj, start, D, predecessors, H, level, rank, clock);
      while H != multiset{}
        invariant AllConsistent(adj, start, D, A, H, S, L) && end !in S
        invariant predecessors == old(predecessors)
        decreases |U - S|, |H|
      {
        var top, rest := PopGreatest(lt, H);
        if top.node == end {
          AllEndStep(adj, start, D, A, H, S, L, top);
          var paths := ReconstructAllPaths(end, A, D);
          Publish(D, rest);
          return Some((paths, top.distance));
        }
        if top.node in D && top.distance > D[top.node] {
          AllSkipStep(adj, start, D, A, H, S, L, top);
          H := rest;
          continue;
        }
        var node := top.node;
        AllSettleStep(adj, start, D, A, H, S, L, top);
        FewerOutside(U, S, node);
        D, A, H := RelaxEdgesAll(adj, node, D, A, H - multiset{top}, start, S + {node}, top.distance);
        S, L := S + {node}, top.distance;
      }
      AllExhaustedStep(adj, start, D, A, S, L);
      Publish(D, H);
      return None;
    }

    /** Writes the distances and the queue of an all-paths search back. */
    method Publish(D: map<N, nat>, H: multiset<State<N>>)
      modifies this
      ensures distances == D && queue == H && predecessors == old(predecessors)
    {
      distances, queue := D, H;
    }

    /** `reconstruct_all_paths`: all chains of predecessor lists from end
        back to a node without a list, each reversed in place. */
    method ReconstructAllPaths(end: N, A: map<N, seq<N>>, ghost D: map<N, nat>) returns (paths: seq<seq<N>>)
      requires Ranked(A, D) && end in D
      ensures paths == ForwardChains(A, D, end)
    {
      paths := BuildPaths(end, A, D, [], []);
      PrefixedNothing(BackChains(A, D, end));
      paths := ReverseEach(paths);
    }

    /** `build_paths`: with the path built so far, back, extended by
        current, recurse into each of current's predecessors in list order;
        a node without a list completes one path. The answer is the paths
        found before followed by back prefixed to every chain from current. */
    method BuildPaths(current: N, A: map<N, seq<N>>, ghost D: map<N, nat>, back: seq<N>, paths: seq<seq<N>>)
      returns (paths': seq<seq<N>>)
      requires Ranked(A, D) && current in D
      ensures paths' == paths + Prefixed(back, BackChains(A, D, current))
      decreases D[current]
    {
      var path := back + [current];
      if current in A {
        var preds := A[current];
        paths' := paths;
        for i := 0 to |preds|
          invariant paths' == paths + Prefixed(path, ChainsVia(A, D, current, preds[..i]))
        {
          assert preds[i] in A[current];
          paths' := BuildPaths(preds[i], A, D, path, paths');
          assert preds[..i + 1][..i] == preds[..i];
          PrefixedAppend(path, ChainsVia(A, D, current, preds[..i]), BackChains(A, D, preds[i]));
        }
        assert preds[..|preds|] == preds;
        PrefixedTwice(back, [current], ChainsVia(A, D, current, preds));
      } else {
        paths' := paths + [path];
      }
    }
  }

  /** `iter_mut().for_each(|path| path.reverse())`: every path reversed in
      place, in order. */
  method ReverseEach<N>(ps: seq<seq<N>>) returns (r: seq<seq<N>>)
    ensures |r| == |ps| && forall j :: 0 <= j < |ps| ==> r[j] == Reverse(ps[j])
  {
    r := ps;
    for i := 0 to |r|
      invariant |r| == |ps|
      invariant forall j :: 0 <= j < i ==> r[j] == Reverse(ps[j])
      invariant forall j :: i <= j < |r| ==> r[j] == ps[j]
    {
      r := r[i := Reverse(r[i])];
    }
  }

  /** `Graph::shortest_path`: a fresh search from start, asked for end. */
  method ShortestPath<N(==,!new)>(graph: Graph<N>, start: N, end: N, lt: (N, N) -> bool) returns (r: Option<(seq<N>, nat)>)
    requires StrictTotalOrder(lt)
    ensures r.Some? ==> PathFromTo(graph.adj, r.value.0, start, end) && PathWeight(graph.adj, r.value.0) == r.value.1
    ensures r.Some? ==> forall p :: PathFromTo(graph.adj, p, start, end) ==> r.value.1 <= PathWeight(graph.adj, p)
    ensures r.None? ==> forall p :: IsPath(graph.adj, p) && p[0] == start ==> p[|p| - 1] != end
  {
    var search := new Dijkstra.New(graph, start, lt);
    r := search.ShortestPath(end);
  }
}
