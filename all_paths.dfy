/** The all-shortest-paths form of the graph library's Dijkstra search: the
    predecessor lists it keeps, the chains `build_paths` reads off them,
    and the invariant that makes those chains exactly the lightest paths. */
module AllPathsInvariant {
  import opened Util
  import opened GraphLib
  import opened DijkstraInvariant

  /** Every edge weighs at least one. With a zero-weight edge a node can
      become its own predecessor at equal distance, and `build_paths`
      then recurses without end. */
  ghost predicate PositiveWeights<N(!new)>(adj: Adjacency<N>)
  {
    forall u, v :: HasEdgeIn(adj, u, v) ==> adj[u][v] > 0
  }

  /** `entry(k).or_default()`: the list stored under k, or the empty list. */
  function Entry<N>(A: map<N, seq<N>>, k: N): seq<N>
  {
    if k in A then A[k] else []
  }

  // ---------------------------------------------------------------------
  // The chains of predecessors

  /** Every listed predecessor is a known node strictly nearer than the
      node it is listed for. */
  predicate Ranked<N>(A: map<N, seq<N>>, D: map<N, nat>)
  {
    forall v, x :: v in A && x in A[v] ==> v in D && x in D && D[x] < D[v]
  }

  /** Each chain of cs with b in front. */
  function Prefixed<N>(b: seq<N>, cs: seq<seq<N>>): (r: seq<seq<N>>)
    ensures |r| == |cs| && forall i :: 0 <= i < |cs| ==> r[i] == b + cs[i]
  {
    seq(|cs|, i requires 0 <= i < |cs| => b + cs[i])
  }

  /** What `build_paths` collects from v with an empty buffer: every chain
      v, a predecessor of v, a predecessor of that, ... ending at a node
      with no list; the chains through earlier predecessors come first. */
  function BackChains<N>(A: map<N, seq<N>>, D: map<N, nat>, v: N): seq<seq<N>>
    requires Ranked(A, D) && v in D
    decreases D[v], 1, 0
  {
    if v !in A then [[v]] else Prefixed([v], ChainsVia(A, D, v, A[v]))
  }

  /** The chains from the nodes of l, a part of v's list, one after another. */
  function ChainsVia<N>(A: map<N, seq<N>>, D: map<N, nat>, v: N, l: seq<N>): seq<seq<N>>
    requires Ranked(A, D) && v in A && v in D && forall x :: x in l ==> x in A[v]
    decreases D[v], 0, |l|
  {
    if l == [] then [] else ChainsVia(A, D, v, l[..|l| - 1]) + BackChains(A, D, l[|l| - 1])
  }

  /** The paths `reconstruct_all_paths` returns: the chains, each reversed. */
  function ForwardChains<N>(A: map<N, seq<N>>, D: map<N, nat>, v: N): (r: seq<seq<N>>)
    requires Ranked(A, D) && v in D
    ensures |r| == |BackChains(A, D, v)|
  {
    var cs := BackChains(A, D, v);
    seq(|cs|, i requires 0 <= i < |cs| => Reverse(cs[i]))
  }

  /** With no empty list, every node starts at least one chain. */
  lemma {:induction false} BackChainsNonEmpty<N>(A: map<N, seq<N>>, D: map<N, nat>, v: N)
    requires Ranked(A, D) && v in D && forall u :: u in A ==> A[u] != []
    ensures |BackChains(A, D, v)| > 0
    decreases D[v]
  {
    if v in A {
      var l := A[v];
      var x := l[|l| - 1];
      assert x in l;
      BackChainsNonEmpty(A, D, x);
      assert |ChainsVia(A, D, v, l)| >= |BackChains(A, D, x)|;
    }
  }

  lemma PrefixedAppend<N>(b: seq<N>, X: seq<seq<N>>, Y: seq<seq<N>>)
    ensures Prefixed(b, X + Y) == Prefixed(b, X) + Prefixed(b, Y)
  {
  }

  /** An empty buffer prefixes nothing. */
  lemma PrefixedNothing<N>(X: seq<seq<N>>)
    ensures Prefixed([], X) == X
  {
    forall i | 0 <= i < |X| ensures Prefixed([], X)[i] == X[i] {
      assert [] + X[i] == X[i];
    }
  }

  lemma PrefixedTwice<N>(b: seq<N>, c: seq<N>, X: seq<seq<N>>)
    ensures Prefixed(b, Prefixed(c, X)) == Prefixed(b + c, X)
  {
    forall i | 0 <= i < |X| ensures Prefixed(b, Prefixed(c, X))[i] == Prefixed(b + c, X)[i] {
      assert b + (c + X[i]) == (b + c) + X[i];
    }
  }

  lemma PrefixedMembers<N>(b: seq<N>, X: seq<seq<N>>)
    ensures forall c :: c in Prefixed(b, X) <==> exists c' :: c' in X && c == b + c'
  {
    forall c' | c' in X ensures b + c' in Prefixed(b, X) {
      var i :| 0 <= i < |X| && X[i] == c';
      assert Prefixed(b, X)[i] == b + c';
    }
  }

  /** A chain through l is a chain from one of the nodes of l. */
  lemma {:induction false} ChainsViaMembers<N>(A: map<N, seq<N>>, D: map<N, nat>, v: N, l: seq<N>)
    requires Ranked(A, D) && v in A && v in D && forall x :: x in l ==> x in A[v]
    ensures forall c :: c in ChainsVia(A, D, v, l) <==> exists x :: x in l && c in BackChains(A, D, x)
    decreases |l|
  {
    if l != [] {
      var init, last := l[..|l| - 1], l[|l| - 1];
      ChainsViaMembers(A, D, v, init);
      assert forall x :: x in l <==> x in init || x == last;
      assert ChainsVia(A, D, v, l) == ChainsVia(A, D, v, init) + BackChains(A, D, last);
    }
  }

  /** No chain is collected twice, and every chain starts at its node. */
  lemma {:induction false} ChainsDistinct<N>(A: map<N, seq<N>>, D: map<N, nat>, v: N)
    requires Ranked(A, D) && v in D && forall u :: u in A ==> NoDuplicates(A[u])
    ensures NoDuplicates(BackChains(A, D, v))
    ensures forall c :: c in BackChains(A, D, v) ==> |c| >= 1 && c[0] == v
    decreases D[v], 1, 0
  {
    if v in A {
      var X := ChainsVia(A, D, v, A[v]);
      ViaDistinct(A, D, v, A[v]);
      forall i, j | 0 <= i < j < |X| ensures Prefixed([v], X)[i] != Prefixed([v], X)[j] {
        assert X[i] == Prefixed([v], X)[i][1..] && X[j] == Prefixed([v], X)[j][1..];
      }
    }
  }

  lemma {:induction false} ViaDistinct<N>(A: map<N, seq<N>>, D: map<N, nat>, v: N, l: seq<N>)
    requires Ranked(A, D) && v in A && v in D && forall x :: x in l ==> x in A[v]
    requires NoDuplicates(l) && forall u :: u in A ==> NoDuplicates(A[u])
    ensures NoDuplicates(ChainsVia(A, D, v, l))
    ensures forall c :: c in ChainsVia(A, D, v, l) ==> |c| >= 1 && c[0] in l
    decreases D[v], 0, |l|
  {
    if l != [] {
      var init, last := l[..|l| - 1], l[|l| - 1];
      assert NoDuplicates(init) by {
        forall i, j | 0 <= i < j < |init| ensures init[i] != init[j] {
          assert init[i] == l[i] && init[j] == l[j];
        }
      }
      ViaDistinct(A, D, v, init);
      ChainsDistinct(A, D, last);
      var X, Y := ChainsVia(A, D, v, init), BackChains(A, D, last);
      assert last !in init by {
        forall i | 0 <= i < |init| ensures init[i] != last {
          assert init[i] == l[i];
        }
      }
      assert Elems(X) !! Elems(Y) by {
        forall c | c in Elems(X) ensures c !in Elems(Y) {
          assert c[0] in init;
        }
      }
      NoDuplicatesConcat(X, Y);
      forall c | c in X + Y ensures |c| >= 1 && c[0] in l {
        if c in X {
          assert c[0] in init;
        }
      }
    }
  }

  /** Reversing each of a sequence of distinct chains keeps them distinct. */
  lemma ForwardDistinct<N>(A: map<N, seq<N>>, D: map<N, nat>, v: N)
    requires Ranked(A, D) && v in D && NoDuplicates(BackChains(A, D, v))
    ensures NoDuplicates(ForwardChains(A, D, v))
  {
    var cs, fs := BackChains(A, D, v), ForwardChains(A, D, v);
    forall i, j | 0 <= i < j < |fs| ensures fs[i] != fs[j] {
      ReverseInvolution(cs[i]);
      ReverseInvolution(cs[j]);
    }
  }

  // ---------------------------------------------------------------------
  // Paths

  lemma PathSnoc<N>(adj: Adjacency<N>, q: seq<N>, v: N)
    requires IsPath(adj, q) && HasEdgeIn(adj, q[|q| - 1], v)
    ensures IsPath(adj, q + [v]) && PathWeight(adj, q + [v]) == PathWeight(adj, q) + adj[q[|q| - 1]][v]
  {
    var p := q + [v];
    forall i | 0 <= i < |p| - 1 ensures HasEdgeIn(adj, p[i], p[i + 1]) {
      if i < |q| - 1 {
        assert p[i] == q[i] && p[i + 1] == q[i + 1];
      }
    }
    PathInit(adj, p);
    assert p[..|p| - 1] == q;
  }

  lemma ReverseCons<T>(x: T, s: seq<T>)
    ensures Reverse([x] + s) == Reverse(s) + [x]
  {
    assert ([x] + s)[1..] == s;
  }

  /** The lists a finished relaxation leaves: start has none and every other
      known node has one; each lists distinct known nodes along edges of
      positive weight that account exactly for the node's distance. */
  ghost predicate PredLists<N>(adj: Adjacency<N>, start: N, D: map<N, nat>, A: map<N, seq<N>>)
  {
    && start in D && D[start] == 0 && start !in A && A.Keys == D.Keys - {start}
    && (forall v :: v in A ==> NoDuplicates(A[v]))
    && (forall v, x :: v in A && x in A[v] ==>
          x in D && HasEdgeIn(adj, x, v) && 0 < adj[x][v] && D[x] + adj[x][v] == D[v])
  }

  lemma PredListsRanked<N>(adj: Adjacency<N>, start: N, D: map<N, nat>, A: map<N, seq<N>>)
    requires PredLists(adj, start, D, A)
    ensures Ranked(A, D)
  {
  }

  /** Each chain from v, reversed, is a path from start to v whose weight
      is v's distance. */
  lemma {:induction false} ChainsArePaths<N>(adj: Adjacency<N>, start: N, D: map<N, nat>, A: map<N, seq<N>>, v: N)
    requires PredLists(adj, start, D, A) && v in D
    ensures Ranked(A, D)
    ensures forall c :: c in BackChains(A, D, v) ==>
      PathFromTo(adj, Reverse(c), start, v) && PathWeight(adj, Reverse(c)) == D[v]
    decreases D[v]
  {
    PredListsRanked(adj, start, D, A);
    if v !in A {
      assert Reverse([v]) == [v];
    } else {
      var X := ChainsVia(A, D, v, A[v]);
      ChainsViaMembers(A, D, v, A[v]);
      PrefixedMembers([v], X);
      forall c | c in BackChains(A, D, v)
        ensures PathFromTo(adj, Reverse(c), start, v) && PathWeight(adj, Reverse(c)) == D[v]
      {
        var c' :| c' in X && c == [v] + c';
        var x :| x in A[v] && c' in BackChains(A, D, x);
        ChainsArePaths(adj, start, D, A, x);
        var q := Reverse(c');
        ReverseCons(v, c');
        PathSnoc(adj, q, v);
      }
    }
  }

  // ---------------------------------------------------------------------
  // The invariant of the predecessor lists

  /** A lists x for v exactly when x is settled, its edge to v has been
      relaxed (it is not one of cur's pending edges) and the edge accounts
      for v's distance; start has no list, every other known node has one,
      and no list repeats a node. */
  ghost predicate Preds<N(!new)>(adj: Adjacency<N>, start: N, cur: N, pending: set<N>,
                                 D: map<N, nat>, A: map<N, seq<N>>, S: set<N>)
    requires S <= D.Keys
  {
    && start !in A && A.Keys == D.Keys - {start}
    && (forall v :: v in A ==> NoDuplicates(A[v]) && A[v] != [])
    && (forall v, x :: v in A && x in A[v] ==>
          x in S && HasEdgeIn(adj, x, v) && !(x == cur && v in pending) && D[x] + adj[x][v] == D[v])
    && (forall v, x ::
          (x in S && HasEdgeIn(adj, x, v) && !(x == cur && v in pending) && v in A && D[x] + adj[x][v] == D[v])
          ==> x in A[v])
  }

  lemma PredsSettle<N(!new)>(adj: Adjacency<N>, start: N, cur: N, D: map<N, nat>, A: map<N, seq<N>>,
                             S: set<N>, t: N)
    requires S <= D.Keys && Preds(adj, start, cur, {}, D, A, S) && t in D && t !in S
    ensures S + {t} <= D.Keys && Preds(adj, start, t, Out(adj, t), D, A, S + {t})
  {
  }

  lemma PredsImprove<N(!new)>(adj: Adjacency<N>, start: N, u: N, pending: set<N>, D: map<N, nat>,
                              A: map<N, seq<N>>, S: set<N>, level: nat, v: N, nd: nat)
    requires S <= D.Keys && Preds(adj, start, u, pending, D, A, S) && Relaxed(adj, u, pending, D, S, level)
    requires v in pending && v !in S && v != start && u in S && HasEdgeIn(adj, u, v)
    requires nd == D[u] + adj[u][v] && (v !in D || nd < D[v])
    ensures S <= D[v := nd].Keys && Preds(adj, start, u, pending - {v}, D[v := nd], A[v := [u]], S)
  {
    var D2, A2, pending2 := D[v := nd], A[v := [u]], pending - {v};
    forall w, x | w in A2 && x in A2[w]
      ensures x in S && HasEdgeIn(adj, x, w) && !(x == u && w in pending2) && D2[x] + adj[x][w] == D2[w]
    {
      assert D2[x] == D[x];
    }
    forall w, x | x in S && HasEdgeIn(adj, x, w) && !(x == u && w in pending2) && w in A2 &&
                  D2[x] + adj[x][w] == D2[w]
      ensures x in A2[w]
    {
      assert D2[x] == D[x];
    }
  }

  lemma PredsTie<N(!new)>(adj: Adjacency<N>, start: N, u: N, pending: set<N>, D: map<N, nat>,
                          A: map<N, seq<N>>, S: set<N>, v: N)
    requires S <= D.Keys && Preds(adj, start, u, pending, D, A, S)
    requires v in pending && v != start && u in S && HasEdgeIn(adj, u, v)
    requires v in D && D[u] + adj[u][v] == D[v]
    ensures Preds(adj, start, u, pending - {v}, D, A[v := Entry(A, v) + [u]], S)
  {
    assert u !in Elems(A[v]);
    NoDuplicatesAppend(A[v], u);
  }

  lemma PredsWorse<N(!new)>(adj: Adjacency<N>, start: N, u: N, pending: set<N>, D: map<N, nat>,
                            A: map<N, seq<N>>, S: set<N>, v: N)
    requires S <= D.Keys && Preds(adj, start, u, pending, D, A, S)
    requires v in pending && u in D && HasEdgeIn(adj, u, v) && v in D && D[u] + adj[u][v] > D[v]
    ensures Preds(adj, start, u, pending - {v}, D, A, S)
  {
  }

  /** Once the search is idle, the lists are the ones PredLists describes. */
  lemma PredsLists<N(!new)>(adj: Adjacency<N>, start: N, D: map<N, nat>, A: map<N, seq<N>>,
                            H: multiset<State<N>>, S: set<N>, level: nat)
    requires PositiveWeights(adj) && Search(adj, start, start, {}, D, H, S, level) && Preds(adj, start, start, {}, D, A, S)
    ensures PredLists(adj, start, D, A)
  {
  }

  /** What the lists and distances give once the nearest entry, at distance
      bound, is popped: no settled node is farther than bound, every path
      to an unsettled node weighs at least bound, settled distances are
      optimal, and every relaxed edge that accounts for its target's
      distance is on that target's list. Kept as one fact in the same
      way as Relaxing. */
  ghost predicate Lightest<N(!new)>(adj: Adjacency<N>, start: N, D: map<N, nat>, A: map<N, seq<N>>,
                                    S: set<N>, bound: nat)
  {
    match (D, A)
    case (D, A) =>
    && PredLists(adj, start, D, A) && S <= D.Keys
    && (forall u :: u in S ==> D[u] <= bound)
    && (forall p :: IsPath(adj, p) && p[0] == start && p[|p| - 1] !in S ==> bound <= PathWeight(adj, p))
    && (forall p :: IsPath(adj, p) && p[0] == start && p[|p| - 1] in S ==> D[p[|p| - 1]] <= PathWeight(adj, p))
    && (forall x, v :: x in S && HasEdgeIn(adj, x, v) ==> v in D && D[v] <= D[x] + adj[x][v])
    && (forall v, x :: (x in S && HasEdgeIn(adj, x, v) && v in A && D[x] + adj[x][v] == D[v]) ==> x in A[v])
  }

  lemma LightestAtPop<N(!new)>(adj: Adjacency<N>, start: N, D: map<N, nat>, A: map<N, seq<N>>,
                               H: multiset<State<N>>, S: set<N>, level: nat, top: State<N>)
    requires PositiveWeights(adj) && Search(adj, start, start, {}, D, H, S, level) && Preds(adj, start, start, {}, D, A, S)
    requires top in H && forall e :: e in H ==> top.distance <= e.distance
    ensures Lightest(adj, start, D, A, S, top.distance)
  {
    PredsLists(adj, start, D, A, H, S, level);
    forall p | IsPath(adj, p) && p[0] == start && p[|p| - 1] !in S ensures top.distance <= PathWeight(adj, p) {
      NearestBound(adj, start, start, D, H, S, level, top, p);
    }
  }

  /** A chain from a listed predecessor with v in front is a chain from v. */
  lemma ChainExtend<N>(A: map<N, seq<N>>, D: map<N, nat>, v: N, y: N, c: seq<N>)
    requires Ranked(A, D) && v in A && v in D && y in A[v] && y in D && c in BackChains(A, D, y)
    ensures [v] + c in BackChains(A, D, v)
  {
    ChainsViaMembers(A, D, v, A[v]);
    PrefixedMembers([v], ChainsVia(A, D, v, A[v]));
  }

  /** The last edge y -> v of a path q of weight D[v] accounts for v's
      distance: y is settled, listed for v, and q without v weighs D[y]. */
  lemma LastHop<N(!new)>(adj: Adjacency<N>, start: N, D: map<N, nat>, A: map<N, seq<N>>,
                         S: set<N>, bound: nat, v: N, q: seq<N>)
    requires PositiveWeights(adj) && Lightest(adj, start, D, A, S, bound)
    requires v in D && D[v] <= bound && |q| > 1
    requires PathFromTo(adj, q, start, v) && PathWeight(adj, q) == D[v]
    ensures v in A && q[|q| - 2] in A[v] && q[|q| - 2] in D && D[q[|q| - 2]] <= bound
    ensures PathFromTo(adj, q[..|q| - 1], start, q[|q| - 2]) && PathWeight(adj, q[..|q| - 1]) == D[q[|q| - 2]]
  {
    PathInit(adj, q);
    var q' := q[..|q| - 1];
    var y := q[|q| - 2];
    assert q'[|q'| - 1] == y;
    assert PathWeight(adj, q) == PathWeight(adj, q') + adj[y][v] && adj[y][v] > 0;
    assert y in S;
    assert D[y] <= PathWeight(adj, q');
    assert D[v] <= D[y] + adj[y][v];
  }

  /** Every path from start to a known node v no farther than bound, whose
      weight is v's distance, is a chain from v reversed. */
  lemma {:induction false} LightestPathsAreChains<N(!new)>(adj: Adjacency<N>, start: N, D: map<N, nat>,
                                                           A: map<N, seq<N>>, S: set<N>, bound: nat, v: N, q: seq<N>)
    requires PositiveWeights(adj) && Lightest(adj, start, D, A, S, bound)
    requires v in D && D[v] <= bound
    requires PathFromTo(adj, q, start, v) && PathWeight(adj, q) == D[v]
    ensures Ranked(A, D) && Reverse(q) in BackChains(A, D, v)
    decreases |q|
  {
    assert PredLists(adj, start, D, A);
    PredListsRanked(adj, start, D, A);
    if |q| == 1 {
      assert Reverse(q) == [v];
    } else {
      var q', y := q[..|q| - 1], q[|q| - 2];
      LastHop(adj, start, D, A, S, bound, v, q);
      LightestPathsAreChains(adj, start, D, A, S, bound, y, q');
      SplitLast(q);
      ReverseAppend(q', v);
      ChainExtend(A, D, v, y, Reverse(q'));
    }
  }

  /** The chain facts, restated for the reversed chains. */
  lemma ForwardChainsExactly<N>(adj: Adjacency<N>, start: N, D: map<N, nat>, A: map<N, seq<N>>, v: N, d: nat)
    requires Ranked(A, D) && v in D
    requires forall c :: c in BackChains(A, D, v) ==> PathFromTo(adj, Reverse(c), start, v) && PathWeight(adj, Reverse(c)) == d
    requires forall p :: PathFromTo(adj, p, start, v) && PathWeight(adj, p) == d ==> Reverse(p) in BackChains(A, D, v)
    requires NoDuplicates(BackChains(A, D, v))
    ensures forall p :: p in ForwardChains(A, D, v) ==> PathFromTo(adj, p, start, v) && PathWeight(adj, p) == d
    ensures forall p :: PathFromTo(adj, p, start, v) && PathWeight(adj, p) == d ==> p in ForwardChains(A, D, v)
    ensures NoDuplicates(ForwardChains(A, D, v))
  {
    var cs, fs := BackChains(A, D, v), ForwardChains(A, D, v);
    forall p | p in fs ensures PathFromTo(adj, p, start, v) && PathWeight(adj, p) == d {
      var i :| 0 <= i < |fs| && fs[i] == p;
      assert cs[i] in cs;
    }
    forall p | PathFromTo(adj, p, start, v) && PathWeight(adj, p) == d ensures p in fs {
      var i :| 0 <= i < |cs| && cs[i] == Reverse(p);
      ReverseInvolution(p);
      assert fs[i] == p;
    }
    ForwardDistinct(A, D, v);
  }

  // ---------------------------------------------------------------------
  // The state of `all_shortest_paths`

  /** Between two pops: the search invariant and the list invariant, kept
      as one fact in the same way as Relaxing. */
  ghost predicate AllConsistent<N(!new)>(adj: Adjacency<N>, start: N, D: map<N, nat>, A: map<N, seq<N>>,
                                         H: multiset<State<N>>, S: set<N>, level: nat)
  {
    match (D, A) case (d, a) => Search(adj, start, start, {}, d, H, S, level) && Preds(adj, start, start, {}, d, a, S)
  }

  /** During the relaxation of u's edges, started from distance map D0. */
  ghost predicate AllRelaxing<N(!new)>(adj: Adjacency<N>, start: N, u: N, pending: set<N>, D0: map<N, nat>,
                                       D: map<N, nat>, A: map<N, seq<N>>, H: multiset<State<N>>,
                                       S: set<N>, level: nat)
  {
    match (D, A)
    case (d, a) =>
      pending <= Out(adj, u) && u in D0 && d == RelaxAll(adj, u, D0, Out(adj, u) - pending)
      && Search(adj, start, u, pending, d, H, S, level) && Preds(adj, start, u, pending, d, a, S)
  }

  /** A search that has settled nothing starts with no lists. */
  lemma AllStart<N(!new)>(adj: Adjacency<N>, start: N, D: map<N, nat>, P: map<N, N>, H: multiset<State<N>>,
                          level: nat, rank: map<N, nat>, clock: nat)
    requires Consistent(adj, start, D, P, H, {}, level, rank, clock)
    ensures AllConsistent(adj, start, D, map[], H, {}, level)
  {
    assert P.Keys == {};
  }

  lemma AllSkipStep<N(!new)>(adj: Adjacency<N>, start: N, D: map<N, nat>, A: map<N, seq<N>>, H: multiset<State<N>>,
                             S: set<N>, level: nat, top: State<N>)
    requires AllConsistent(adj, start, D, A, H, S, level)
    requires top in H && top.node in D && D[top.node] < top.distance
    ensures AllConsistent(adj, start, D, A, H - multiset{top}, S, level)
  {
    SkipStale(adj, start, start, D, H, S, level, top);
  }

  lemma AllSettleStep<N(!new)>(adj: Adjacency<N>, start: N, D: map<N, nat>, A: map<N, seq<N>>, H: multiset<State<N>>,
                               S: set<N>, level: nat, top: State<N>)
    requires AllConsistent(adj, start, D, A, H, S, level)
    requires top in H && forall e :: e in H ==> top.distance <= e.distance
    requires !(top.node in D && D[top.node] < top.distance)
    ensures top.node in D && top.node !in S && top.distance == D[top.node]
    ensures top.node in NodeSet(adj) + {start}
    ensures AllRelaxing(adj, start, top.node, Out(adj, top.node), D, D, A, H - multiset{top}, S + {top.node}, top.distance)
  {
    Settle(adj, start, start, D, H, S, level, top);
    PredsSettle(adj, start, start, D, A, S, top.node);
    assert D == RelaxAll(adj, top.node, D, Out(adj, top.node) - Out(adj, top.node));
  }

  /** A strictly shorter distance: the list becomes the expanded node alone. */
  lemma AllImproveStep<N(!new)>(adj: Adjacency<N>, start: N, u: N, next: N, pending: set<N>, D0: map<N, nat>,
                                D: map<N, nat>, A: map<N, seq<N>>, H: multiset<State<N>>,
                                S: set<N>, level: nat, nd: nat)
    requires AllRelaxing(adj, start, u, pending, D0, D, A, H, S, level) && next in pending
    requires u in D && u in adj && next in adj[u]
    requires nd == D[u] + adj[u][next] && (next !in D || nd < D[next])
    ensures AllRelaxing(adj, start, u, pending - {next}, D0, D[next := nd], A[next := [u]],
                        H + multiset{State(next, nd)}, S, level)
  {
    RelaxImproves(adj, start, u, pending, D, H, S, level, next, nd);
    PredsImprove(adj, start, u, pending, D, A, S, level, next, nd);
    RelaxAllImprove(adj, u, D0, D, pending, next, nd);
  }

  /** An equally short distance: the expanded node joins the list. */
  lemma AllTieStep<N(!new)>(adj: Adjacency<N>, start: N, u: N, next: N, pending: set<N>, D0: map<N, nat>,
                            D: map<N, nat>, A: map<N, seq<N>>, H: multiset<State<N>>,
                            S: set<N>, level: nat)
    requires PositiveWeights(adj)
    requires AllRelaxing(adj, start, u, pending, D0, D, A, H, S, level) && next in pending
    requires u in D && u in adj && next in adj[u]
    requires next in D && D[u] + adj[u][next] == D[next]
    ensures AllRelaxing(adj, start, u, pending - {next}, D0, D, A[next := Entry(A, next) + [u]], H, S, level)
  {
    RelaxKeeps(adj, start, u, pending, D, H, S, level, next);
    assert HasEdgeIn(adj, u, next);
    PredsTie(adj, start, u, pending, D, A, S, next);
    RelaxAllKeep(adj, u, D0, D, pending, next);
  }

  /** A longer distance changes nothing. */
  lemma AllWorseStep<N(!new)>(adj: Adjacency<N>, start: N, u: N, next: N, pending: set<N>, D0: map<N, nat>,
                              D: map<N, nat>, A: map<N, seq<N>>, H: multiset<State<N>>,
                              S: set<N>, level: nat)
    requires AllRelaxing(adj, start, u, pending, D0, D, A, H, S, level) && next in pending
    requires u in D && u in adj && next in adj[u]
    requires next in D && D[u] + adj[u][next] > D[next]
    ensures AllRelaxing(adj, start, u, pending - {next}, D0, D, A, H, S, level)
  {
    RelaxKeeps(adj, start, u, pending, D, H, S, level, next);
    PredsWorse(adj, start, u, pending, D, A, S, next);
    RelaxAllKeep(adj, u, D0, D, pending, next);
  }

  lemma AllRelaxingDone<N(!new)>(adj: Adjacency<N>, start: N, u: N, D0: map<N, nat>,
                                 D: map<N, nat>, A: map<N, seq<N>>, H: multiset<State<N>>,
                                 S: set<N>, level: nat)
    requires AllRelaxing(adj, start, u, {}, D0, D, A, H, S, level)
    ensures u in D0
    ensures AllConsistent(adj, start, D, A, H, S, level)
    ensures D == RelaxAll(adj, u, D0, Out(adj, u))
  {
    assert Out(adj, u) - {} == Out(adj, u);
    SearchIdle(adj, start, u, D, H, S, level);
    PredsIdle(adj, start, u, D, A, S);
  }

  /** With nothing pending, the node being relaxed plays no part in Preds. */
  lemma PredsIdle<N(!new)>(adj: Adjacency<N>, start: N, cur: N, D: map<N, nat>, A: map<N, seq<N>>, S: set<N>)
    requires S <= D.Keys && Preds(adj, start, cur, {}, D, A, S)
    ensures Preds(adj, start, start, {}, D, A, S)
  {
  }

  /** Popping end: its distance is the lightest path weight, and the chains
      from it, reversed, are exactly the paths from start to end of that
      weight, each once. */
  lemma AllEndStep<N(!new)>(adj: Adjacency<N>, start: N, D: map<N, nat>, A: map<N, seq<N>>, H: multiset<State<N>>,
                            S: set<N>, level: nat, top: State<N>)
    requires PositiveWeights(adj) && AllConsistent(adj, start, D, A, H, S, level)
    requires top in H && forall e :: e in H ==> top.distance <= e.distance
    requires top.node !in S
    ensures top.node in D && top.distance == D[top.node] && Ranked(A, D)
    ensures forall p :: PathFromTo(adj, p, start, top.node) ==> top.distance <= PathWeight(adj, p)
    ensures forall p :: p in ForwardChains(A, D, top.node) ==>
      PathFromTo(adj, p, start, top.node) && PathWeight(adj, p) == top.distance
    ensures forall p :: PathFromTo(adj, p, start, top.node) && PathWeight(adj, p) == top.distance ==>
      p in ForwardChains(A, D, top.node)
    ensures NoDuplicates(ForwardChains(A, D, top.node))
    ensures |ForwardChains(A, D, top.node)| > 0
  {
    EndPopped(adj, start, start, D, H, S, level, top);
    LightestAtPop(adj, start, D, A, H, S, level, top);
    LightestChains(adj, start, D, A, S, top.distance, top.node);
    BackChainsNonEmpty(A, D, top.node);
  }

  /** The chains from a known node v no farther than bound, reversed, are
      exactly the paths from start to v whose weight is v's distance. */
  lemma LightestChains<N(!new)>(adj: Adjacency<N>, start: N, D: map<N, nat>, A: map<N, seq<N>>,
                                S: set<N>, bound: nat, v: N)
    requires PositiveWeights(adj) && Lightest(adj, start, D, A, S, bound)
    requires v in D && D[v] <= bound
    ensures Ranked(A, D)
    ensures forall p :: p in ForwardChains(A, D, v) ==> PathFromTo(adj, p, start, v) && PathWeight(adj, p) == D[v]
    ensures forall p :: PathFromTo(adj, p, start, v) && PathWeight(adj, p) == D[v] ==> p in ForwardChains(A, D, v)
    ensures NoDuplicates(ForwardChains(A, D, v))
  {
    ChainsArePaths(adj, start, D, A, v);
    forall p | PathFromTo(adj, p, start, v) && PathWeight(adj, p) == D[v]
      ensures Reverse(p) in BackChains(A, D, v)
    {
      LightestPathsAreChains(adj, start, D, A, S, bound, v, p);
    }
    ChainsDistinct(A, D, v);
    ForwardChainsExactly(adj, start, D, A, v, D[v]);
  }

  lemma AllExhaustedStep<N(!new)>(adj: Adjacency<N>, start: N, D: map<N, nat>, A: map<N, seq<N>>,
                                  S: set<N>, level: nat)
    requires AllConsistent(adj, start, D, A, multiset{}, S, level)
    ensures forall p :: IsPath(adj, p) && p[0] == start ==> p[|p| - 1] in S
  {
    forall p | IsPath(adj, p) && p[0] == start ensures p[|p| - 1] in S {
      ExhaustedSettlesReach(adj, start, start, D, S, level, p);
    }
  }
}
