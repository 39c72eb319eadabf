# Advent of Code 2024 solutions, modelled in Dafny

This project models the Rust solutions of one Advent of Code 2024
repository. It covers the shared library (a generic adjacency-map graph
with breadth-first search, connected components and two Dijkstra
searches, and a dense row-major `Grid<T>`) and the puzzle programs built
on it. Each Rust source file becomes one Dafny module:

- `GraphLib` is `src/graph.rs`. `Dijkstras` holds the two searches of the
  same file; `DijkstraInvariant` and `AllPathsInvariant` hold their proofs.
- `GridLib` is `src/lib.rs`.
- `DayNN` is `src/bin/dayNN.rs`. `Day3` and `Day6` are the older
  `src/bin/day3.rs` and `src/bin/day6.rs`.
- `Wrappers`, `Util`, `Sorting`, `Text` and `GridGraph` are shared helpers.
  `Text` holds the string functions of the Rust standard library that the
  puzzles call. `GridGraph` holds the `grid_to_graph` that day 18 and
  day 20 share.

How the model is built:

- Objects the Rust code mutates are classes with `modifies` clauses:
  - `Graph`, `Grid`, the BFS iterator and the Dijkstra search;
  - the robots of day 14 and the guard and map of day 6.
- Loops are `while`/`for` loops with invariants, and each is proved against
  a specification function.
- `HashMap` and `HashSet` iteration order becomes an arbitrary choice. Only
  facts that do not depend on the order are stated.
- Integers are unbounded. Where the source's machine width matters it is
  written out: day 14's casts, `usize::MAX` as a fold seed, and `u64`
  parsing limits.
- A panic in the source becomes an error value or a precondition, as
  listed under "Left out".

## Model

| member | source | states |
|---|---|---|
| GraphLib.Graph.New | src/graph.rs:44-49 | a new graph of the requested directedness with no nodes |
| GraphLib.Graph.Undirected | src/graph.rs:51-53 | an empty undirected graph |
| GraphLib.Graph.Directed | src/graph.rs:55-57 | an empty directed graph |
| GraphLib.Graph.AddNode | src/graph.rs:59-61 | the node becomes a key; an existing key keeps its edges (adding twice is adding once), a new key gets no edges |
| GraphLib.Graph.AddEdgeWeighted | src/graph.rs:67-83 | from->to gets the weight, overwriting an older one; undirected graphs also get to->from with the same weight; no other edge changes; keys are only added; symmetry is kept |
| GraphLib.Graph.AddEdge | src/graph.rs:63-65 | an edge of weight one, inserted as by add_edge_weighted |
| GraphLib.InsertEdgeAdds | src/graph.rs:67-83 | after an insertion, from->to (and to->from when undirected) exist with the given weight, and the keys grow by the endpoints |
| GraphLib.InsertEdgeKeepsOthers | src/graph.rs:67-83 | every other edge exists afterwards exactly when it existed before, with the same weight |
| GraphLib.InsertEdgeKeepsSymmetry | src/graph.rs:73-81 | an undirected insertion keeps the adjacency map symmetric |
| GraphLib.Graph.Nodes | src/graph.rs:85-92 | the node set is every key and every neighbour key |
| GraphLib.Graph.SortedNodes | src/graph.rs:85-92 | every node exactly once, in strictly ascending order |
| GraphLib.HasMinimum | src/graph.rs:85-92 | a finite non-empty node set under a strict total order has a least element (what `sorted` picks first) |
| GraphLib.Graph.HasEdge | src/graph.rs:106-110 | true exactly when get_weight finds a weight, and exactly when `to` is among `neighbors(from)` |
| GraphLib.Graph.GetWeight | src/graph.rs:112-114 | a weight exactly when the edge exists, and it is the stored weight |
| GraphLib.Graph.Neighbors | src/graph.rs:116-120 | None exactly when the node was never a key, otherwise exactly its edge targets |
| GraphLib.Graph.NeighborsWeighted | src/graph.rs:122-124 | None exactly when the node is not a key, otherwise the edge map with those targets |
| GraphLib.Graph.Subgraph | src/graph.rs:130-144 | same directedness, and the edge map is that induced on the given nodes: every given node, and exactly the original edges among them with their weights |
| GraphLib.Graph.CopyEdgesFrom | src/graph.rs:134-141 | the inner loop copies every edge from `from` into the given nodes and loses no earlier edge |
| GraphLib.InducedUnique | src/graph.rs:130-144 | a graph on S holding exactly the original edges among S with their weights is the induced subgraph |
| GraphLib.Bfs.New | src/graph.rs:201-213 | the start is queued and visited |
| GraphLib.Bfs.Next | src/graph.rs:223-235 | an empty queue yields None and changes nothing; otherwise the front node is yielded and its unvisited neighbours are appended once each and marked visited |
| GraphLib.PushUnvisited | src/graph.rs:225-232 | the neighbour loop pushes exactly the neighbours not yet visited, each once, and marks them all |
| GraphLib.Graph.BfsCollect | src/graph.rs:126-128 | exhausting `bfs(start)` yields start first, every reachable node exactly once and nothing else, in non-decreasing hop distance |
| GraphLib.TraversalDone | src/graph.rs:223-235 | an empty queue leaves order starting at start, without duplicates, holding exactly the reachable nodes |
| GraphLib.LayerDone | src/graph.rs:223-235 | the emitted order is sorted by hop distance from start |
| GraphLib.ReachableIffPath | src/graph.rs:223-235 | a node is within some number of hops exactly when a path leads there from start |
| GraphLib.ClosedLayerIsReachSet | src/graph.rs:223-235 | a layer with no new successors is everything reachable, so the queue cannot run forever on cycles |
| GraphLib.ReachOverlap | src/graph.rs:146-170 | on a symmetric graph two reachability classes that share a node coincide |
| GraphLib.Graph.ConnectedComponents | src/graph.rs:146-170 | Err with the source's message exactly on a directed graph; otherwise undirected components that are the subgraphs induced on BFS classes, pairwise disjoint, covering all nodes |
| GraphLib.Graph.Components | src/graph.rs:152-168 | the loop over the nodes in ascending order builds a partition of all nodes into BFS classes |
| GraphLib.Graph.Visit | src/graph.rs:156-164 | a node no earlier component holds starts a new class; the class is removed from the pending nodes and marked visited |
| GraphLib.Graph.NewComponent | src/graph.rs:158-164 | the class of a new node, as its BFS list and as the induced subgraph, extends the partition |
| GraphLib.PartitionExtend | src/graph.rs:156-164 | a node outside every earlier class starts a class disjoint from them |
| GraphLib.PartitionOfNodes | src/graph.rs:146-170 | a partition that covers every node is a component split: induced parts, disjoint, covering the nodes |
| GraphLib.ComponentSplitsAgree | src/graph.rs:146-170 | on an undirected graph any two component splits hold the same parts, each once, so the components are determined up to order |
| GraphLib.PathReversed | src/graph.rs:73-81 | on an undirected graph a path read backwards is a path |
| DijkstraInvariant.CompareStatesIsTotal | src/graph.rs:257-271 | the flipped state ordering is total, equal only on equal states, and ranks nearer states greater (a min-heap on distance, ties by node) |
| DijkstraInvariant.PopsBeforeIsTotal | src/graph.rs:257-271 | the pop order induced by the state ordering is a strict total order |
| Dijkstras.PopGreatest | src/graph.rs:297 | the popped state is the heap's greatest, hence a nearest one, and the heap loses one copy of it |
| Dijkstras.Dijkstra.New | src/graph.rs:278-294 | only start is known, at distance zero, and it is queued |
| Dijkstras.Dijkstra.ShortestPath | src/graph.rs:296-325 | Some: a path from start to end along existing edges whose weight is the returned distance, with no lighter path; None exactly when no path from start reaches end |
| Dijkstras.RelaxEdges | src/graph.rs:308-322 | the relaxation loop writes, for each edge out of the settled node, the smaller of the known distance and the distance through the node, keeping the search invariant |
| DijkstraInvariant.RelaxAllMeaning | src/graph.rs:310-320 | relaxing the edges of u makes their targets known, each with min(old distance, D[u] + weight), and changes no other distance |
| DijkstraInvariant.Relaxation | src/graph.rs:313-319 | a relaxed distance is the incoming distance when the node was unknown, else the smaller of the two (strictly smaller is required to overwrite) |
| DijkstraInvariant.SkipStale | src/graph.rs:302-306 | popping a stale entry changes nothing else |
| DijkstraInvariant.Settle | src/graph.rs:297-308 | a nearest, non-stale entry settles its node at its optimal distance |
| DijkstraInvariant.EndPopped | src/graph.rs:298-300 | end popped carries its distance, and no path from start to end is lighter |
| DijkstraInvariant.ExhaustedSettlesReach | src/graph.rs:297-324 | once the heap is empty every node reachable from start is settled, so None means unreachable |
| Dijkstras.Dijkstra.ReconstructPath | src/graph.rs:327-338 | following predecessors back from end and reversing gives a path from start to end weighing end's distance |
| Dijkstras.Dijkstra.AllShortestPaths | src/graph.rs:346-393 | Some: the distance is the lightest path weight and the paths are exactly the lightest paths from start to end, each once, at least one; None exactly when end is unreachable |
| Dijkstras.RelaxEdgesAll | src/graph.rs:361-390 | a strictly shorter distance replaces the target's list by the node and queues the target, an equal one appends the node, a longer one changes nothing |
| AllPathsInvariant.AllImproveStep | src/graph.rs:375-387 | a strictly better distance clears the list to the expanded node |
| AllPathsInvariant.AllTieStep | src/graph.rs:368-374 | a tie appends the expanded node to the list |
| AllPathsInvariant.AllWorseStep | src/graph.rs:367 | a longer distance changes nothing |
| AllPathsInvariant.AllEndStep | src/graph.rs:351-353 | popping end: the chains of predecessor lists, reversed, are exactly the lightest paths, each once, and there is at least one |
| AllPathsInvariant.LightestChains | src/graph.rs:395-425 | the predecessor chains from a known node, reversed, are exactly the paths of its distance from start |
| Dijkstras.Dijkstra.ReconstructAllPaths | src/graph.rs:395-404 | the result is every predecessor chain from end, each reversed |
| Dijkstras.ReverseEach | src/graph.rs:402 | every path is reversed, in place and in order |
| Dijkstras.Dijkstra.BuildPaths | src/graph.rs:406-425 | the paths collected so far, extended by every chain from current with the buffer in front, in list order |
| AllPathsInvariant.ChainsDistinct | src/graph.rs:406-425 | build_paths collects no chain twice, and each chain starts at its node |
| AllPathsInvariant.ChainsArePaths | src/graph.rs:406-425 | every chain, reversed, is a path from start whose weight is the node's distance |
| AllPathsInvariant.BackChainsNonEmpty | src/graph.rs:413-422 | with no empty predecessor list every node completes at least one chain |
| Dijkstras.ShortestPath | src/graph.rs:172-179 | a fresh search from start asked for end: a lightest path with its weight, or None when end is unreachable |
| GridLib.Grid.New | src/lib.rs:16-25 | width * height cells, each equal to the default |
| GridLib.Grid.Get | src/lib.rs:27-33 | Some exactly when x < width and y < height, holding data[y * width + x] |
| GridLib.Grid.WriteViaGetMut | src/lib.rs:35-41 | a write through get_mut happens exactly when (x, y) is within the extents, and changes only that cell |
| GridLib.Grid.IterRow | src/lib.rs:43-45 | exactly width cells, the y-th row |
| GridLib.Grid.IterCol | src/lib.rs:47-49 | height cells data[x], data[x + width], ... when x < width |
| GridLib.StepByAt | src/lib.rs:47-49 | the y-th element of `skip(x).step_by(width)` is data[y * width + x] |
| GridLib.StepByLength | src/lib.rs:47-49 | `skip(x).step_by(width)` has height elements when x < width |
| GridLib.Grid.Iter | src/lib.rs:51-53 | all cells in row-major order |
| GridLib.Grid.IsWithinExtents | src/lib.rs:55-57 | true exactly when 0 <= x < width and 0 <= y < height |
| GridLib.Grid.WithinExtentsIffGet | src/lib.rs:27-33 | the signed bounds test agrees with get |
| GridLib.Grid.Neighbors | src/lib.rs:59-78 | exactly the in-bounds cells of the 3x3 block without its centre, in row-major order, at most eight |
| GridLib.Grid.CardinalNeighbors | src/lib.rs:80-90 | the in-bounds cells among up, right, down, left in that order; exactly the in-bounds cells at distance one; each is among neighbors; at most four |
| GridLib.KeepWithinMembers | src/lib.rs:80-90 | filtering the candidates keeps exactly those inside the grid |
| GridLib.CardinalCandidatesExactly | src/lib.rs:82-87 | the four candidates are exactly the cells at Manhattan distance one |
| GridLib.Grid.Set | src/lib.rs:102-106 | writing a cell changes exactly the offset y * width + x, and reading it back gives the value |
| GridLib.Grid.Offset | src/lib.rs:99 | no contract of its own: the row-major offset `y * width + x`; `Util.IdxToXyOfOffset` states that column and row are read back from it |
| GridLib.Grid.At | src/lib.rs:96-100 | no contract of its own: the cell at that offset, defined only when the offset is inside the data, where Rust panics otherwise; `GridLib.Grid.InExtentsHasOffset` states that every in-extent cell qualifies |
| GridLib.Grid.InExtentsHasOffset | src/lib.rs:94-100 | an in-extent cell of a well-formed grid has its offset inside the data |
| GridLib.Digits | src/lib.rs:139-141 | at least one digit, and exactly one below 10 |
| GridLib.DigitsBounds | src/lib.rs:139-141 | Digits(n) is the d with 10^(d-1) <= n < 10^d |
| GridGraph.Build | src/bin/day18.rs:79-98 | a directed graph whose edges are exactly the unit edges between cardinally adjacent open cells (day20.rs:75-94 is the same builder with walls as the blocked cell) |
| GridGraph.AddLinks | src/bin/day18.rs:86-94 | the inner loop links the current open cell to each open in-extent cardinal neighbour |
| GridGraph.LinkedSymmetric | src/bin/day18.rs:79-98 | links go both ways, join cells at distance one, and never touch a blocked cell |
| GridGraph.GraphOfKeys | src/bin/day20.rs:75-94 | the cells with a key are exactly those with a link, so walls get no edges |
| GridGraph.FindThing | src/bin/day16.rs:213-219 | the first cell in row-major order holding the query, or the error "Not found" exactly when no cell does |
| Text.Trim | src/bin/day14.rs:24 | `trim` never lengthens the string |
| Text.SplitOn | src/bin/day14.rs:23 | `split` always yields at least one piece |
| Text.TrimPadded | src/bin/day14.rs:24 | `trim` removes exactly the white space around a string that neither starts nor ends with white space |
| Text.SplitOnAt | src/bin/day14.rs:23 | splitting at a separator gives the pieces before it followed by the pieces after it |
| Text.SplitOnSnoc | src/bin/day14.rs:23 | one more character either starts a new empty piece (a separator) or extends the last piece |
| Text.SplitOnNone | src/bin/day14.rs:23 | a string without separators is a single piece |
| Text.ParseU64 | src/bin/day11.rs:9 | a parsed number lies below 2^64, and the empty token is an error |
| Text.ParseDecimal | src/bin/day11.rs:9 | a plain digit token below 2^64 parses to its decimal value |
| Sorting.SortBy | src/bin/day09.rs:82 | a permutation of the input, in ascending key order (`sort_by_key`, also `sorted_by_key` at line 107) |
| Sorting.Ascending | src/bin/day01.rs:18-19 | `sort` gives a permutation of the column in ascending order |
| Sorting.SortedUnique | src/bin/day01.rs:18-19 | two ascending sequences with the same values are equal, so the sorted column is unique |
| Sorting.AscendingIs | src/bin/day01.rs:18-19 | a column sorts to any ascending sequence holding its values |
| Day01.Column | src/bin/day01.rs:8-17 | the i-th value of every row, in row order |
| Day01.ParseInput | src/bin/day01.rs:4-22 | two columns of the rows' first and second values, each a sorted permutation of its column |
| Day01.Count | src/bin/day01.rs:24-35 | the keys are exactly the values seen, each mapped to its multiplicity |
| Day01.TotalDistance | src/bin/day01.rs:37-50 | the distance is non-negative, and on equal lengths zero exactly when the columns are equal |
| Day01.TotalDistanceSymmetric | src/bin/day01.rs:37-50 | the distance does not depend on which column comes first |
| Day01.Part1 | src/bin/day01.rs:37-50 | the sum of absolute differences of the sorted columns, never negative |
| Day01.MultiplicitySum | src/bin/day01.rs:69-72 | summing multiplicity times g over the distinct values equals summing g over the sequence |
| Day01.MultSumRemove | src/bin/day01.rs:69-72 | the order in which map keys are visited does not change the sum |
| Day01.MultSumBump | src/bin/day01.rs:24-35 | one more occurrence of x adds g(x) to the grouped sum |
| Day01.CountsTotal | src/bin/day01.rs:24-35 | the counts add up to the number of values |
| Day01.SeqSumOfOnes | src/bin/day01.rs:24-35 | summing one per element gives the length |
| Day01.Similarity | src/bin/day01.rs:52-73 | zero when the columns share no value, and never negative for non-negative ids |
| Day01.SimilarityAsSeqSum | src/bin/day01.rs:52-73 | the similarity score is the sum over the first column of each value times its count in the second |
| Day01.Part2 | src/bin/day01.rs:52-73 | the similarity score of the two columns, whatever order the keys are visited in |
| Day01.SumOverKeys | src/bin/day01.rs:69-72 | the filter_map/sum over the first count map is the grouped similarity sum |
| Day01.SimilarityTerm | src/bin/day01.rs:71 | one key's term is its count in the first column times key times its count in the second |
| Day01.SimilarityPermutation | src/bin/day01.rs:52-73 | the similarity only depends on the multisets of the columns, so sorting first changes nothing |
| Day01.MultSumSame | src/bin/day01.rs:52-73 | grouped sums agree for sequences with the same multiset |
| Day01.ExampleParts | src/bin/day01.rs:84-95 | on the six-row example, the total distance is 11 and the similarity score is 31 |
| Day02.AllWindows | src/bin/day02.rs:15-19 | `windows(2).all(p)` holds exactly when p holds of every adjacent pair |
| Day02.IsSafe | src/bin/day02.rs:14-22 | a report of at most one level is safe |
| Day02.ChainUp | src/bin/day02.rs:14-22 | a report rising at every step rises between any two levels |
| Day02.ChainDown | src/bin/day02.rs:14-22 | a report falling at every step falls between any two levels |
| Day02.SafeIsStrictlyMonotone | src/bin/day02.rs:14-22 | a safe report is strictly monotone with steps of one to three |
| Day02.SafeIffStrictlyMonotone | src/bin/day02.rs:14-22 | `is_safe` accepts exactly the strictly monotone reports whose steps are one to three |
| Day02.HoldOut | src/bin/day02.rs:24-30 | the report without the i-th level, order kept; unchanged when i is past the end |
| Day02.AnyHoldOutSafe | src/bin/day02.rs:33 | some removal index below n leaves a safe report |
| Day02.ProblemDampener | src/bin/day02.rs:32-34 | some single removal leaves a safe report; never true of the empty report |
| Day02.SafeIsDampened | src/bin/day02.rs:32-34 | every non-empty safe report passes the dampener |
| Day02.DampenerAcceptsMore | src/bin/day02.rs:36-48 | with no empty report, part one's count is at most part two's, which is at most the number of reports |
| Day02.Part1 | src/bin/day02.rs:36-41 | the number of safe reports, at most the number of reports; 0 exactly when none is safe, all exactly when every one is |
| Day02.Part2 | src/bin/day02.rs:43-48 | the number of reports the dampener accepts, with the same two extremes |
| Day02.UnsafeByStep | src/bin/day02.rs:17-20 | a step outside one to three makes a report unsafe |
| Day02.SafeFalling | src/bin/day02.rs:14-22 | strictly falling by at most three at every step is safe |
| Day02.SafeRising | src/bin/day02.rs:14-22 | strictly rising by at most three at every step is safe |
| Day02.NotDampened | src/bin/day02.rs:32-34 | the dampener rejects a report when every removal leaves a step outside one to three |
| Day02.ExampleParts | src/bin/day02.rs:58-84 | on the six example reports part one is 2 and part two is 4 |
| Day07.Apply | src/bin/day07.rs:20-26 | `\|\|` of a positive a writes the digits of b after those of a; of 0 it yields b |
| Day07.DecimalDigits | src/bin/day07.rs:8-10 | as many decimal digits as `digits` counts, each below ten |
| Day07.ConcatIsDecimal | src/bin/day07.rs:20-26 | `\|\|` writes the digits of b after those of a |
| Day07.Extend | src/bin/day07.rs:62-63 | each operator choice extended by one more operator from ops, and nothing else |
| Day07.Sequences | src/bin/day07.rs:62-63 | `repeat_n(ops, n).multi_cartesian_product()` lists exactly the length-n choices from ops |
| Day07.AnyFolds | src/bin/day07.rs:64-69 | some listed choice folds, left to right from the first value, to the result |
| Day07.FindAnswer | src/bin/day07.rs:58-70 | true exactly when some choice of operators, folded left to right, yields the result |
| Day07.MoreOperatorsSolveMore | src/bin/day07.rs:58-70 | an equation solvable with some operators stays solvable with more |
| Day07.Part | src/bin/day07.rs:72-78 | the total calibration is zero exactly when no equation with a non-zero target is solvable |
| Day07.PartMonotone | src/bin/day07.rs:72-78 | part two's total calibration is never below part one's |
| Day07.ExampleSolvable | src/bin/day07.rs:92-105 | "3267: 81 40 27" is solvable, evaluating left to right |
| Day07.ExampleUnsolvable | src/bin/day07.rs:92-105 | "83: 17 5" is not solvable with `+` and `*` |
| Day04.All | src/bin/day04.rs:31-42 | eight distinct directions, every direction listed |
| Day04.EveryDirectionListed | src/bin/day04.rs:31-42 | every direction appears in the list |
| Day04.OffsetsAreKingMoves | src/bin/day04.rs:18-29 | each offset is three unit king moves, and the eight offsets differ |
| Day04.XmasFrom | src/bin/day04.rs:63-70 | the remaining letters of XMAS lie along the step from k on, on any grid with a first line and no shorter one |
| Day04.EndpointCoversSegment | src/bin/day04.rs:56-58 | checking that the endpoint is in bounds covers every cell between |
| Day04.SearchXmas | src/bin/day04.rs:48-73 | the endpoint is in bounds, measured against the first line's width, and the four cells along the direction spell XMAS; later lines may be longer |
| Day04.SearchDoubleMas | src/bin/day04.rs:75-111 | both diagonal corners are in bounds, measured against the first line's width, and each diagonal reads MAS either way; the centre is then an A; later lines may be longer |
| Day04.MasAlongLetters | src/bin/day04.rs:89-108 | each sign of the two `any` closures reads one diagonal forwards or backwards |
| Day04.Part1 | src/bin/day04.rs:113-118 | None exactly on empty input, where `grid[0]` panics; otherwise a count that is zero exactly when no cell within the first line's width starts XMAS in any of the eight directions |
| Day04.Part2 | src/bin/day04.rs:120-124 | None exactly on empty input, where `grid[0]` panics; otherwise a count that is zero exactly when no cell within the first line's width is the centre of two crossing MAS |
| Day04.Part1Counts | src/bin/day04.rs:113-118 | part one counts each matching (cell, direction) once, over exactly the grid's cells |
| Day04.LongerLaterLine | src/bin/day04.rs:48-50 | with `XMAS` over `XMASX`, part one counts 2: the rows are searched within the first line's width, and the longer second line is read normally |
| Day04.Part2Counts | src/bin/day04.rs:120-124 | part two counts each X-MAS centre once, over exactly the grid's cells |
| Day08.Add | src/bin/day08.rs:18-24 | no contract of its own: the coordinatewise sum; `Day08.PositionArithmetic` states what it promises |
| Day08.Sub | src/bin/day08.rs:26-32 | no contract of its own: the coordinatewise difference; `Day08.PositionArithmetic` states that it undoes `Day08.Add` |
| Day08.PositionArithmetic | src/bin/day08.rs:18-32 | `add` and `sub` are componentwise and undo each other |
| Day08.ParseInput | src/bin/day08.rs:40-57 | the grid of the lines row after row, the first line's length as width, and the empty 0x0 grid for no lines |
| Day08.IntRange | src/bin/day08.rs:64 | `lo..=hi` holds exactly the integers from lo to hi |
| Day08.Candidates | src/bin/day08.rs:66-70 | both candidates a + k·delta and b − k·delta for every k, two per k |
| Day08.KeepInExtents | src/bin/day08.rs:71 | keeps exactly the candidates within the extents, tested row against width and column against height |
| Day08.GetAntinodes | src/bin/day08.rs:59-73 | every antinode returned lies within the extents |
| Day08.AntinodesPlain | src/bin/day08.rs:59-73 | without resonance, exactly the in-bounds ones of a + (a − b) and b − (a − b) |
| Day08.AntinodesResonant | src/bin/day08.rs:59-73 | with resonance, the in-bounds points a + k(a − b) and b − k(a − b) for \|k\| up to the larger dimension, which include both antennas |
| Day08.Positions | src/bin/day08.rs:76-82 | at most one position per cell; callable with a zero width only when no cell holds the frequency, since every matching cell is divided by the width |
| Day08.PositionsMembers | src/bin/day08.rs:76-82 | the positions are exactly (i / width, i % width) of the cells holding the frequency |
| Day08.PositionsOrdered | src/bin/day08.rs:76-82 | positions keep the order of their cells |
| Day08.Combinations | src/bin/day08.rs:84-86 | `tuple_combinations` gives exactly the pairs (ps[i], ps[j]) with i < j |
| Day08.FindAntinodesForFreq | src/bin/day08.rs:75-92 | the antinodes of the frequency, each once |
| Day08.FindAntinodesMembers | src/bin/day08.rs:84-89 | its members are exactly the antinodes of the antenna pairs |
| Day08.NegateFactor | src/bin/day08.rs:59-73 | (x − y)·k is −((y − x)·k) |
| Day08.TimesSwap | src/bin/day08.rs:59-73 | swapping a and b turns the one candidate into the other |
| Day08.AntinodesSwap | src/bin/day08.rs:59-73 | an antinode of (a, b) is one of (b, a) |
| Day08.ResonantSwap | src/bin/day08.rs:59-73 | the same with resonance |
| Day08.AntinodesSymmetric | src/bin/day08.rs:59-73 | the antinodes of a pair do not depend on its order |
| Day08.PairContributes | src/bin/day08.rs:75-92 | every two distinct antennas of the frequency, in either order, contribute all their antinodes |
| Day08.Frequencies | src/bin/day08.rs:97-99 | the distinct characters of the grid other than `.` and the line break |
| Day08.KeepFrequencies | src/bin/day08.rs:99 | the filter keeps exactly the characters other than `.` and the line break, and keeps them distinct |
| Day08.AntinodeMembers | src/bin/day08.rs:94-105 | a position is counted exactly when it is an antinode of some antenna frequency in the grid |
| Day08.CountAntinodes | src/bin/day08.rs:94-105 | the number of distinct antinode positions |
| Day08.Problem | src/bin/day08.rs:94-105 | `problem` after `parse_input`: None (the division by zero at day08.rs:80) exactly when the first line is empty and the grid holds an antenna, otherwise the number of distinct antinodes of the parsed grid |
| Day03.DigitRun | src/bin/day03.rs:12-16 | the length of the leading run of digits |
| Day03.DigitRunExact | src/bin/day03.rs:12-16 | a digit run followed by a non-digit or the end is the leading run |
| Day03.ParseNumber | src/bin/day03.rs:11-23 | None exactly when the first byte is not a digit; otherwise one to three leading digits, stopped short only by a non-digit, and their decimal value |
| Day03.TryParseMul | src/bin/day03.rs:25-45 | never consumes more than is there |
| Day03.TryParseMulMeaning | src/bin/day03.rs:25-45 | a command exactly when the bytes start with a well-formed `mul(a,b)` of one-to-three-digit operands, carrying a·b and consuming the instruction |
| Day03.ShapeRuns | src/bin/day03.rs:25-45 | each operand of a well-formed instruction is its whole digit run |
| Day03.MulNeedsDigits | src/bin/day03.rs:27 | no digit after `mul(` means no instruction |
| Day03.MulNeedsComma | src/bin/day03.rs:30-32 | no comma after the first operand means no instruction |
| Day03.MulNeedsSecondDigits | src/bin/day03.rs:34 | no digit after the comma means no instruction |
| Day03.MulNeedsClose | src/bin/day03.rs:37-39 | no `)` after the second operand means no instruction |
| Day03.MulFound | src/bin/day03.rs:25-45 | when all the checks pass, the shape is well-formed, unique, and the product is a·b |
| Day03.TryParseCommand | src/bin/day03.rs:47-59 | never consumes more than is there |
| Day03.TryParseCommandMeaning | src/bin/day03.rs:47-59 | `do()`, `don't()` and `mul(a,b)` are recognised exactly by their spellings and consume exactly them |
| Day03.CommandAt | src/bin/day03.rs:63 | a command only starts at a `d` or an `m` |
| Day03.Commands | src/bin/day03.rs:63-64 | the command found at each offset, in offset order |
| Day03.ValueMeaning | src/bin/day03.rs:65-68 | a product is added exactly at a well-formed instruction, and it is a·b |
| Day03.Total | src/bin/day03.rs:65-71 | the sum is zero exactly when no command adds a product |
| Day03.Part1 | src/bin/day03.rs:61-72 | zero exactly when no offset starts a `mul` with a non-zero product |
| Day03.EnabledMeaning | src/bin/day03.rs:78-89 | multiplications are enabled exactly when every `don't()` so far is followed by a `do()` |
| Day03.Part2 | src/bin/day03.rs:74-94 | the fold with the captured `enabled` flag adds the products of the enabled instructions |
| Day03.EnabledTotal | src/bin/day03.rs:74-94 | part two adds a part of the products part one adds |
| Day03.NoDontAllEnabled | src/bin/day03.rs:74-94 | without a `don't()`, everything stays enabled and both sums agree |
| Day03.Part2WithinPart1 | src/bin/day03.rs:61-94 | part two never exceeds part one, and equals it when the input holds no `don't()` |
| Day03.DecimalBytes | src/bin/day03.rs:11-23 | the decimal spelling of n without leading zeros, as long as its size demands |
| Day03.RenderParses | src/bin/day03.rs:47-59 | parsing a spelled-out `mul(a,b)` gives back a·b and its length, whatever follows |
| Day03.RenderShape | src/bin/day03.rs:25-45 | a spelled-out instruction is well-formed with a and b as its operands |
| Day03.Layout | src/bin/day03.rs:25-45 | `mul(` da `,` db `)` is well-formed with the values of da and db as operands |
| Day03.Slices | src/bin/day03.rs:25-45 | where each part of a spelled-out instruction lies |
| Day03.ShapeParses | src/bin/day03.rs:47-59 | a well-formed instruction is what `try_parse_command` reports |
| Day03.TotalOfFirst | src/bin/day03.rs:61-72 | offsets that find nothing add nothing |
| Day03.RenderPart1 | src/bin/day03.rs:61-72 | a spelled-out instruction alone sums to its product in part one |
| Day03.RenderLetters | src/bin/day03.rs:61-72 | only the first byte of a spelled-out instruction can start a command |
| Day3.DigitRun | src/bin/day3.rs:37-40 | the length of the digit run from i, which the inner `while` loops count |
| Day3.StepAt | src/bin/day3.rs:17-73 | from an `m`, a skip or a found instruction always moves the scan forward, within the input |
| Day3.OperandsAt | src/bin/day3.rs:36-73 | after `mul(`, the scan moves forward within the input |
| Day3.SecondAt | src/bin/day3.rs:54-73 | after the comma, the scan moves forward within the input |
| Day3.CountDigits | src/bin/day3.rs:37-40 | the inner `while` loop counts the digit run from i |
| Day3.MatchMul | src/bin/day3.rs:17-73 | the loop body from an `m` takes the step of the scan as written, with each `continue` a skip and each index past the end or empty `parse` a panic |
| Day3.MatchOperands | src/bin/day3.rs:36-53 | the loop body after `mul(` takes the step of the scan as written |
| Day3.MatchSecond | src/bin/day3.rs:54-73 | the loop body after the comma takes the step of the scan as written |
| Day3.Part1 | src/bin/day3.rs:8-77 | `part1` on the characters: the scan as written, None where the source panics |
| Day3.SkipNoM | src/bin/day3.rs:17-20 | positions without an `m` hold no instruction |
| Day3.MulSumMonotone | src/bin/day3.rs:8-77 | later suffixes hold no more instruction value |
| Day3.DigitsNoM | src/bin/day3.rs:37-40 | a digit run holds no `m` |
| Day3.NoMJoin | src/bin/day3.rs:8-77 | no `m` in two adjacent ranges means none in their union |
| Day3.SecondMeaning | src/bin/day3.rs:54-73 | a found second operand carries a·b of the text's instruction; a skip means there is none |
| Day3.OperandsMeaning | src/bin/day3.rs:36-73 | a found step after `mul(` carries the value of the text's instruction; a skip means there is none |
| Day3.StepMeaning | src/bin/day3.rs:17-73 | a found step is exactly the instruction at i and passes no other `m`; a skip passes a position without an instruction, and in the corrected scan no `m` |
| Day3.ScanCounts | src/bin/day3.rs:8-77 | where it does not panic the scan as written finds at most the instructions' total, and the corrected scan exactly their total |
| Day3.ScanNoM | src/bin/day3.rs:16-20 | the scan passes positions without an `m` |
| Day3.DoubledMInstruction | src/bin/day3.rs:8-77 | `mmul(2,3)` holds the instruction `mul(2,3)` at position 1 |
| Day3.DoubledM | src/bin/day3.rs:21-25 | on `mmul(2,3)` the scan as written finds 0, while the instructions total 6 and the corrected scan finds 6 |
| Day09.Repeat | src/bin/day09.rs:28-29 | `vec![e; n]`: n copies of e |
| Day09.DecodeFromSnoc | src/bin/day09.rs:22-34 | one more digit adds its run after the earlier ones |
| Day09.DecodeSnoc | src/bin/day09.rs:22-34 | one more digit appends its file or free run to the disk |
| Day09.DecodeFromLength | src/bin/day09.rs:22-34 | the disk from the k-th digit on is as long as the digits add up to |
| Day09.Decode | src/bin/day09.rs:22-34 | the disk is as long as the digits of the map add up to |
| Day09.TwoPointerBag | src/bin/day09.rs:36-56 | the two-pointer compaction keeps the disk's length and its entries |
| Day09.TwoPointerCompacted | src/bin/day09.rs:36-56 | started with files left of the left pointer and free space right of the right one, the compaction leaves no free entry before a file entry |
| Day09.SettledCompacted | src/bin/day09.rs:39 | once the pointers meet, files left of them and free space right of them make a compacted disk |
| Day09.SwapSettles | src/bin/day09.rs:48-51 | swapping a free entry on the left with a file entry on the right lets both pointers move on |
| Day09.SwapBag | src/bin/day09.rs:49 | `data.swap` keeps the entries |
| Day09.CompactMeaning | src/bin/day09.rs:36-56 | the compaction of a disk is a compacted permutation of it |
| Day09.Compress | src/bin/day09.rs:36-56 | the array ends up as the two-pointer compaction of its old contents, which holds the same entries with no free block before a file block |
| Day09.RepeatBag | src/bin/day09.rs:28-29 | n copies of an entry make the multiset holding it n times |
| Day09.ExpandBag | src/bin/day09.rs:105-110 | the laid-out blocks hold the entries the blocks stand for |
| Day09.BagConcat | src/bin/day09.rs:105-106 | the entries of two block lists add up |
| Day09.BagRemove | src/bin/day09.rs:96 | taking a block out of a list takes its entries out |
| Day09.BagPermutation | src/bin/day09.rs:82 | reordering blocks keeps their entries |
| Day09.BagUpdate | src/bin/day09.rs:92 | moving a block elsewhere keeps its entries |
| Day09.RunBag | src/bin/day09.rs:63-80 | a run of equal entries is a repetition of its first |
| Day09.RunAt | src/bin/day09.rs:63-80 | the run found at k is non-empty and maximal, and with the earlier blocks it accounts for the disk up to its end |
| Day09.SegmentStep | src/bin/day09.rs:72-79 | the run goes to the free list when free and to the claimed list otherwise, keeping the blocks maximal runs that add up to the scanned prefix |
| Day09.SegmentFree | src/bin/day09.rs:72-74 | a free run appended to the free list keeps the lists segmenting the disk up to its end |
| Day09.SegmentClaimed | src/bin/day09.rs:75-77 | a file run appended to the claimed list keeps the lists segmenting the disk up to its end |
| Day09.Segment | src/bin/day09.rs:59-80 | the first loop of `compress2` cuts the disk into maximal runs, free ones in one list and file ones in the other, adding up to the disk |
| Day09.FirstFitFrom | src/bin/day09.rs:85-86 | the first span from k on that the file fits into, or None when none does |
| Day09.FirstFit | src/bin/day09.rs:85-101 | the first free span in list order that starts left of the file and is wide enough, or None when none is |
| Day09.BagSingle | src/bin/day09.rs:108 | a single block stands for width copies of its id |
| Day09.ShrinkBag | src/bin/day09.rs:93-97 | shrinking a span by w takes w of its entries out |
| Day09.ShrinkBagPartly | src/bin/day09.rs:93-94 | the same when the span keeps some width |
| Day09.ShrinkPartly | src/bin/day09.rs:93-94 | a span that keeps some width starts `width` later and is `width` narrower |
| Day09.ReplaceBag | src/bin/day09.rs:93-94 | replacing a span trades its entries for those of the new one |
| Day09.UpdateBag | src/bin/day09.rs:93-94 | a list with span k replaced holds the new span's entries plus those of the other spans |
| Day09.SplitSingle | src/bin/day09.rs:93-94 | a span is its first `width` entries plus the span of what is left |
| Day09.ShrinkMembers | src/bin/day09.rs:93-97 | a shrunk list holds only old spans and what is left of span k |
| Day09.PlacedBag | src/bin/day09.rs:87-98 | after the move the free list holds the same free space, all of it free |
| Day09.Place | src/bin/day09.rs:85-101 | the file moves to the start of the first span it fits into, which shrinks, and its old place is appended as free space; without a fit nothing changes |
| Day09.Compress2 | src/bin/day09.rs:58-112 | the disk keeps its length and its entries |
| Day09.Checksum | src/bin/day09.rs:114-120 | zero exactly when every file block sits at position 0 or has id 0 |
| Day09.ChecksumFromZero | src/bin/day09.rs:114-120 | the checksum from position k is zero exactly when every file block's position times id is zero |
| Day09.ChecksumFromSnoc | src/bin/day09.rs:114-120 | an entry appended at position k + \|s\| adds its value there |
| Day09.ChecksumSnoc | src/bin/day09.rs:114-120 | an entry appended at position \|s\| adds \|s\| times its id, or nothing when free |
| Day09.ChecksumFreeTail | src/bin/day09.rs:114-120 | free space at the end of the disk adds nothing |
| Day09.Part1 | src/bin/day09.rs:122-126 | the checksum of the two-pointer compaction of the decoded disk |
| Day09.Part2 | src/bin/day09.rs:128-132 | the checksum of a disk with the decoded blocks |
| Day19.WaysEndingAtLeast | src/bin/day19.rs:34-41 | a pattern ending the design contributes at least the ways to make what comes before it |
| Day19.WaysEndingPositive | src/bin/day19.rs:34-41 | positive ways name a pattern ending the design whose prefix can be made |
| Day19.WaysPositiveIffTiling | src/bin/day19.rs:22-45 | with non-empty patterns, a design has ways exactly when some sequence of patterns concatenates to it |
| Day19.PulledComplete | src/bin/day19.rs:27-42 | once every position before j has pushed, dp[j] holds all the ways to make the first j colours |
| Day19.PushedZero | src/bin/day19.rs:29-31 | a position with no ways pushes nothing |
| Day19.PulledStep | src/bin/day19.rs:27-42 | pushing position i adds its ways to every position a pattern reaches from it |
| Day19.PulledNone | src/bin/day19.rs:24 | before anything is pushed only dp[0] is set |
| Day19.TableStart | src/bin/day19.rs:24-25 | `vec![0; n + 1]` with dp[0] = 1 is the table before the loop |
| Day19.TableSkip | src/bin/day19.rs:29-31 | skipping a position with no ways keeps the table invariant |
| Day19.TablePushed | src/bin/day19.rs:34-41 | after all patterns have pushed from i the invariant holds for i + 1 |
| Day19.PushOne | src/bin/day19.rs:35-40 | one pattern that starts at i adds dp[i] to the position where it ends |
| Day19.CountWays | src/bin/day19.rs:22-45 | with non-empty patterns, the number of ways to make the design from the patterns |
| Day19.Part1 | src/bin/day19.rs:47-53 | the number of designs with at least one way, at most the number of designs |
| Day19.Part2 | src/bin/day19.rs:55-61 | the ways to make every design, added up |
| Day19.PossibleCountsTileable | src/bin/day19.rs:47-53 | a design counts exactly when some sequence of patterns makes it |
| Day17.Literal | src/bin/day17.rs:77-79 | the literal operand is below eight |
| Day17.Combo | src/bin/day17.rs:81-92 | 0-3 stand for themselves, 4-6 for registers A-C, and 7 alone is an error |
| Day17.TryFrom | src/bin/day17.rs:98-110 | the bytes 0-7 convert, each to the command with that value; any other byte is an "Invalid opcode" error |
| Day17.LiteralRoundTrip | src/bin/day17.rs:77-110 | converting a command's byte back gives the command |
| Day17.Division | src/bin/day17.rs:7-11 | the quotient of value by 2^combo, rounded down |
| Day17.Apply | src/bin/day17.rs:132-143 | an instruction keeps the machine well-formed |
| Day17.ApplyFails | src/bin/day17.rs:13-62 | an instruction fails exactly when it reads a combo operand and the operand is 7 |
| Day17.ApplyIp | src/bin/day17.rs:31-38 | jnz with A non-zero jumps to its literal; every other instruction advances ip by 2 |
| Day17.ApplyOutput | src/bin/day17.rs:46-50 | out appends one value below eight; nothing else writes output |
| Day17.ApplyDivision | src/bin/day17.rs:13-17 | adv, bdv and cdv write exactly A / 2^combo, rounded down, to their register and change no other |
| Day17.Step | src/bin/day17.rs:157-163 | a fetch and execute keeps the machine well-formed, and fails for a missing operand exactly at the last byte |
| Day17.Run | src/bin/day17.rs:157-163 | a run ends well-formed, and succeeds exactly when it has halted |
| Day17.RunMoreFuel | src/bin/day17.rs:157-163 | a halted run halts the same way with more fuel |
| Day17.RunOutput | src/bin/day17.rs:157-163 | running only appends to the output, each value below eight |
| Day17.Device.IncrementIp | src/bin/day17.rs:153-155 | ip grows by two, nothing else changes |
| Day17.Device.Adv | src/bin/day17.rs:13-17 | the device does what the instruction does in the machine |
| Day17.Device.Bxl | src/bin/day17.rs:19-23 | the device does what the instruction does in the machine |
| Day17.Device.Bst | src/bin/day17.rs:25-29 | the device does what the instruction does in the machine |
| Day17.Device.Jnz | src/bin/day17.rs:31-38 | the device does what the instruction does in the machine |
| Day17.Device.Bxc | src/bin/day17.rs:40-44 | the device does what the instruction does in the machine |
| Day17.Device.Out | src/bin/day17.rs:46-50 | the device does what the instruction does in the machine |
| Day17.Device.Bdv | src/bin/day17.rs:52-56 | the device does what the instruction does in the machine |
| Day17.Device.Cdv | src/bin/day17.rs:58-62 | the device does what the instruction does in the machine |
| Day17.Device.ApplyCommand | src/bin/day17.rs:132-143 | dispatch on the opcode does what the instruction does |
| Day17.Device.IsHaltedNow | src/bin/day17.rs:145-147 | halted exactly when ip is past the last byte |
| Day17.Device.NextCommands | src/bin/day17.rs:149-151 | the opcode and operand at ip, with an error in place of the out-of-range panic at the last byte |
| Day17.Device.Execute | src/bin/day17.rs:157-163 | the device ends in the state and status of the run of the machine |
| Day17.ToCommands | src/bin/day17.rs:218-222 | at most one command per output, and outputs below eight all convert, each to its command |
| Day17.ProgramOutput | src/bin/day17.rs:207-223 | a successful output is exactly what the halted run printed |
| Day17.RunProgram | src/bin/day17.rs:207-223 | the output of the program started with A = a |
| Day17.FindQuineValue | src/bin/day17.rs:225-247 | a value found makes the program print itself, and has current_a as its octal prefix |
| Day17.QuineDigits | src/bin/day17.rs:228 | a value with octal prefix current_a·8 + digit has current_a as its prefix |
| Day17.Pow2Add | src/bin/day17.rs:228 | 2^(i+j) = 2^i · 2^j |
| Day17.DigitScale | src/bin/day17.rs:228 | a value in the block of c·8 + d of size p lies in the block of c of size 8p |
| Day17.FindQuine | src/bin/day17.rs:251-257 | a value found makes the program print itself; the empty program has none |
| Day17.DivideLoop | src/bin/day17.rs:157-163 | one pass of `adv k; out 4; jnz 0` divides A by 2^k and prints it modulo 8 |
| Day17.FirstExampleEnd | src/bin/day17.rs:283-285 | the first example from A = 5 on |
| Day17.FirstExampleMiddle | src/bin/day17.rs:283-285 | the first example from A = 91 down to A = 5, printing 5,6,3,5 |
| Day17.FirstExample | src/bin/day17.rs:283-285 | with A = 729 the first example prints 4,6,3,5,6,3,5,2,1,0 |
| Day17.SecondExampleLate | src/bin/day17.rs:288-290 | the second example from A = 229 on |
| Day17.SecondExampleRun | src/bin/day17.rs:288-290 | with A = 117440 the second example prints 0,3,5,4,3,0 |
| Day17.SecondExampleQuine | src/bin/day17.rs:288-290 | 117440 makes the second example print itself |
| Day15.CellToChar | src/bin/day15.rs:15-24 | the character written for each cell is read back as that same cell |
| Day15.CellFromChar | src/bin/day15.rs:31-41 | the six room characters convert, anything else is an "Invalid character" error |
| Day15.CellCodecRoundTrip | src/bin/day15.rs:16-41 | `to_char` and `try_from` undo each other |
| Day15.DirectionFromChar | src/bin/day15.rs:65-73 | exactly the four arrow characters are directions |
| Day15.DirectionCodecRoundTrip | src/bin/day15.rs:65-82 | `to_char` and `from_char` undo each other |
| Day15.DirOffset | src/bin/day15.rs:83-90 | each offset is a unit step |
| Day15.Widen | src/bin/day15.rs:110-121 | each of the four room characters becomes two characters, any other character keeps its single place |
| Day15.WidenNoNarrowBox | src/bin/day15.rs:110-121 | no narrow box is left after widening |
| Day15.WidenBoxCount | src/bin/day15.rs:110-121 | every wide box comes from a narrow one or was already wide |
| Day15.WidenCharBoxCount | src/bin/day15.rs:110-121 | a character widens to one left half exactly when it is a box |
| Day15.Next | src/bin/day15.rs:189-192 | one step in the direction, inside the grid |
| Day15.NotWallInside | src/bin/day15.rs:189-192 | in a walled room a cell other than a wall is off the border, so a step from it stays in the grid |
| Day15.RunShift | src/bin/day15.rs:197 | the line of boxes seen from its first box is one shorter and ends in the same cell |
| Day15.CanMoveThroughBox | src/bin/day15.rs:194-198 | in front of a box that moves as one cell, the move is that box's move |
| Day15.CanMoveAlongRun | src/bin/day15.rs:184-201 | without a vertically pushed wide box in the way, a move succeeds exactly when the line of boxes ends in an empty cell, is refused at a wall, and fails on another robot |
| Day15.CanMoveInside | src/bin/day15.rs:184-201 | a move that succeeds starts inside the walls |
| Day15.CanMove | src/bin/day15.rs:184-201 | the only errors are another robot in the way and a wide box without its partner |
| Day15.CheckWideVerticalMove | src/bin/day15.rs:138-158 | the vertical check of a pair fails only on another robot or a broken wide box |
| Day15.CheckWideBoxMove | src/bin/day15.rs:160-182 | the check of a wide half fails only on another robot or a broken wide box |
| Day15.CanMoveIntoWideBox | src/bin/day15.rs:198 | pushed sideways, the move into a wide half is that half's own move |
| Day15.WideHalvesVertical | src/bin/day15.rs:160-182 | pushed vertically, either half of a whole wide box runs the same check of the pair |
| Day15.WideAheadWhole | src/bin/day15.rs:198 | a vertical move into a wide half that succeeds finds the box whole and inside the walls |
| Day15.WideAhead | src/bin/day15.rs:198 | a vertical move into a wide half that succeeds: both halves can move, and the push moves the pusher and what both halves move |
| Day15.VerticalMoveBothHalves | src/bin/day15.rs:138-158 | the vertical check of a pair succeeds exactly when each half can move |
| Day15.WideBoxMovesWithBothHalves | src/bin/day15.rs:160-182 | a vertically pushed wide box moves exactly when both halves can, whichever half is pushed |
| Day15.WideBoxNeedsPartner | src/bin/day15.rs:166-177 | a wide half without its partner beside it is an "Invalid wide box state" error |
| Day15.Swapped | src/bin/day15.rs:236 | the cells with two entries exchanged and nothing else changed |
| Day15.SwapCells | src/bin/day15.rs:236 | the room with the two cells exchanged, no cell created or lost |
| Day15.SwapOther | src/bin/day15.rs:236 | every other cell keeps its content through the exchange |
| Day15.SwapKeepsWalls | src/bin/day15.rs:236 | exchanging two cells inside the walls keeps the walls |
| Day15.Swap | src/bin/day15.rs:236 | `swap` exchanges the two cells and keeps the room walled |
| Day15.ShiftAt | src/bin/day15.rs:224-245 | once a set of cells has taken one step, each cell holds what stepped in from behind it, else nothing if its content left, else what it held |
| Day15.MovedBasics | src/bin/day15.rs:184-201 | every cell a push moves can itself be pushed, and all but the pusher are nearer the edge ahead |
| Day15.MovedTransitive | src/bin/day15.rs:184-201 | what the push from a moved cell moves is moved by the whole push |
| Day15.InMovedAhead | src/bin/day15.rs:194-198 | a box right in front of a pushed cell moves with it |
| Day15.MovedSound | src/bin/day15.rs:184-201 | when `can_move` succeeds, every moved cell can move; each moved cell but the pusher is a box inside the walls, and a vertically moved wide half has its partner beside it, moved too |
| Day15.MovedLandsAhead | src/bin/day15.rs:224-245 | after a push that can move, the content of every moved cell stands one step ahead; the moved cells other than the pusher are boxes; each half of a vertically moved wide box is moved with its partner, so both halves land one row over |
| Day15.ShiftKeepsWalls | src/bin/day15.rs:224-245 | moving cells that start inside and step into no wall keeps the walls |
| Day15.ShiftWalled | src/bin/day15.rs:224-245 | a push that can move keeps the room walled |
| Day15.SwapIsShift | src/bin/day15.rs:234-237 | exchanging a cell with the empty cell in front of it moves that cell alone |
| Day15.SwapAfterShift | src/bin/day15.rs:238-241 | once the cells in front of p have stepped, exchanging p with the cell they left moves p with them |
| Day15.ComposeShift | src/bin/day15.rs:209-218 | moving S and then what of T is left moves S and T together, when no cell of T outside S stands right in front of a cell of S |
| Day15.StepIntoEmpty | src/bin/day15.rs:234-237 | a step into an empty cell: the swap is the room after the push |
| Day15.PushThroughBox | src/bin/day15.rs:238-241 | pushing the boxes in front and then swapping into the freed cell is the room after the push |
| Day15.MovedAfter | src/bin/day15.rs:209-218 | after the push of one half, a push from beside it that was not moved still succeeds and moves what it did, less what the first push moved |
| Day15.SecondPushBehind | src/bin/day15.rs:209-218 | nothing the second half's push moves, outside what the first moved, stands right in front of a cell the first moved |
| Day15.ComposeShifts | src/bin/day15.rs:209-218 | pushing the two halves of a wide box one after the other gives the room of pushing both at once |
| Day15.PushIntoBox | src/bin/day15.rs:238-240 | a push that can move into a box is that box's own check succeeding |
| Day15.WideLeftMoves | src/bin/day15.rs:209-213 | a wide box pushed vertically from its left half moves, when it can, what the pushes from both halves move |
| Day15.WideRightMoves | src/bin/day15.rs:214-218 | the same from the right half, whose partner is the cell to its left |
| Day15.NarrowMoves | src/bin/day15.rs:219 | any other box is checked and moved as a single cell |
| Day15.Push | src/bin/day15.rs:224-245 | cells are only exchanged and the walls stay; a refused or failing move changes nothing and reports the failure; a move that can go gives the room in which every moved cell has taken one step |
| Day15.HandleBoxPush | src/bin/day15.rs:203-222 | cells are only exchanged and the walls stay; when the box can move (both halves of a vertically pushed wide box), the push succeeds and gives the room in which the box and everything in front of it have taken one step |
| Day15.FirstRobot | src/bin/day15.rs:248-250 | the first robot in row-major order, or None when there is none |
| Day15.FindRobot | src/bin/day15.rs:247-253 | the position of the first robot, inside the walls; "No robot found" exactly when there is none |
| Day15.GpsTermAt | src/bin/day15.rs:258-262 | the cell (x, y) adds 100·y + x for a box or left box half and nothing else |
| Day15.GpsPrefix | src/bin/day15.rs:255-264 | a prefix without boxes sums to 0, and the sum is at least each of its terms |
| Day15.ComputeGps | src/bin/day15.rs:255-264 | a room without boxes scores 0, and every box or left half at (x, y) adds 100·y + x |
| Day15.GpsPrefixSame | src/bin/day15.rs:255-264 | rooms that agree on a prefix have the same sum on it |
| Day15.SwapKeepsGps | src/bin/day15.rs:255-264 | a robot stepping into an empty cell leaves the GPS sum as it was |
| Day15.StepRoom | src/bin/day15.rs:268-271 | one command keeps the room walled |
| Day15.Solver | src/bin/day15.rs:266-274 | commands only rearrange the room; a missing robot fails exactly when there is a command; otherwise the room is the one every command's push, in order, produces, and the answer is its GPS sum |
| Day06.FromChar | src/bin/day06.rs:113-121 | exactly the four arrow characters convert, each to the direction it is displayed as |
| Day06.FromCharOfDirectionChar | src/bin/day06.rs:113-121 | a direction's character converts back to it |
| Day06.TurnRight | src/bin/day06.rs:122-129 | a turn always changes the heading |
| Day06.TurnRightCycle | src/bin/day06.rs:122-129 | four right turns come back, visiting four different headings |
| Day06.AsVisitFlag | src/bin/day06.rs:131-138 | a single bit among the low four |
| Day06.FlagsDistinct | src/bin/day06.rs:5-14 | two directions share a flag bit exactly when they are equal |
| Day06.Candidate | src/bin/day06.rs:182-189 | the cell one step ahead |
| Day06.Advance | src/bin/day06.rs:206-225 | a step reports being in the room exactly when the cell ahead is within the extents |
| Day06.AdvanceStaysFree | src/bin/day06.rs:206-225 | a guard in the room stays on a free cell; it either turns, moves ahead, or leaves |
| Day06.Mark | src/bin/day06.rs:66-68 | `visit` ORs the direction's flag into that one cell and changes no other |
| Day06.AdvanceMarksFree | src/bin/day06.rs:206-225 | a step never flags an obstacle |
| Day06.Walk | src/bin/day06.rs:283-287 | the walk only adds flags; None when the budget runs out |
| Day06.WalkUnfold | src/bin/day06.rs:283-287 | one step of the walk, ending when the guard leaves |
| Day06.ContainsTransitive | src/bin/day06.rs:66-68 | flag containment chains |
| Day06.WalkMarksFree | src/bin/day06.rs:283-289 | walking never flags an obstacle |
| Day06.LoopCheckUnfold | src/bin/day06.rs:311-324 | one round of the loop check: None on leaving, the cell when its flag for the new heading is already set, otherwise a step |
| Day06.LoopCheckNoneLeaves | src/bin/day06.rs:311-324 | when the loop check says the guard leaves, the plain walk also ends with the guard outside |
| Day06.LoopCheckFindsFreeCell | src/bin/day06.rs:311-324 | a reported cell is a free cell of the room |
| Day06.OccupancyOf | src/bin/day06.rs:28-47 | one occupancy entry per cell of the first line's width times the number of lines |
| Day06.OccupancyOfAt | src/bin/day06.rs:36-47 | a cell is occupied exactly when its character is `#` |
| Day06.GuardBeforeMeaning | src/bin/day06.rs:36-43 | the last guard character before (x, y), or None when there is none |
| Day06.GuardStartMeaning | src/bin/day06.rs:28-52 | `from_str` records the last guard character of the input with its direction, or None when there is none |
| Day06.GuardStartFree | src/bin/day06.rs:38-45 | the start cell lies in the room and is free |
| Day06.NoMarks | src/bin/day06.rs:49 | a flag grid with no flags set |
| Day06.CountIfBound | src/bin/day06.rs:289 | a filter counts at most every element |
| Day06.CountIfPositive | src/bin/day06.rs:289 | a filter that accepts some element counts at least one |
| Day06.VisitedCellsBounds | src/bin/day06.rs:272-292 | with a guard, between one and the number of cells are counted |
| Day06.ColumnCountBound | src/bin/day06.rs:331-336 | a column yields at most one loop point per row, fewer in the start's column |
| Day06.GridCountBound | src/bin/day06.rs:331-336 | the columns yield at most one loop point per cell, fewer when they include the start |
| Day06.LoopPointsBound | src/bin/day06.rs:327-343 | part two finds fewer loop points than the room has cells |
| Day06.Map.IsWithinExtents | src/bin/day06.rs:63-65 | the signed coordinates lie in the room |
| Day06.Map.IsOccupied | src/bin/day06.rs:60-62 | the occupancy of the cell |
| Day06.Map.IsVisitedInDirection | src/bin/day06.rs:74-76 | a cell visited in a direction is visited |
| Day06.Map.Visit | src/bin/day06.rs:66-68 | the flag grid gains the direction's flag at the cell |
| Day06.Map.AddObstacle | src/bin/day06.rs:78-80 | the cell becomes occupied, nothing else changes |
| Day06.Map.Clone | src/bin/day06.rs:21 | fresh grids with the same contents |
| Day06.Map.FromStr | src/bin/day06.rs:28-52 | the occupancy of the lines, no flags, and the last guard character as the start |
| Day06.ReadRow | src/bin/day06.rs:37-46 | the inner loop marks the row's `#` cells and remembers the last guard character |
| Day06.ShortLineTail | src/bin/day06.rs:37-46 | past the end of a short line the cells stay free |
| Day06.Guard.PeekStep | src/bin/day06.rs:191-204 | the cell ahead and the heading the next step leaves the guard with |
| Day06.Guard.Step | src/bin/day06.rs:206-225 | one turn or one move, as the step on the guard's state does, flagging the cell entered |
| Day06.Part1 | src/bin/day06.rs:272-292 | the flagged cells once the guard has left, 0 without a guard |
| Day06.CheckIfWouldLoopIfObstacle | src/bin/day06.rs:294-325 | on a copy with one more obstacle, the loop check starting from the flagged start |
| Day06.PeekRound | src/bin/day06.rs:312-323 | one pass of the loop: leaving the map or meeting a flagged step ends with the loop check's verdict; otherwise the guard steps and the check from the new state has the same verdict with one round less |
| Day06.IsLoopPoint | src/bin/day06.rs:333-335 | skip the start and occupied cells, otherwise run the loop check |
| Day06.ColumnLoopPoints | src/bin/day06.rs:332-335 | the loop points of one column |
| Day06.Part2 | src/bin/day06.rs:327-343 | the number of cells where an obstacle traps the guard, 0 without a guard |
| Day06.GridLoopPoints | src/bin/day06.rs:331-336 | the loop points over every column |
| Day06.ColumnUnfold | src/bin/day06.rs:332-335 | one more row adds its loop point, or propagates a failed check |
| Day06.GridUnfold | src/bin/day06.rs:331-336 | one more column adds its count, or propagates a failed check |
| Day06.ColumnFails | src/bin/day06.rs:332-335 | a failed check in a column fails the whole column |
| Day06.GridFails | src/bin/day06.rs:331-336 | a failed column fails the whole count |
| Day6.TurnsNeeded | src/bin/day6.rs:204-220 | the number of right turns before the way ahead is free: fewer than four, and every earlier heading is blocked |
| Day6.Map.IsWithinExtents | src/bin/day6.rs:113-115 | the coordinates lie in the room, read through the usize-to-i32 round trip |
| Day6.Map.IsOccupied | src/bin/day6.rs:110-112 | the occupancy of the cell |
| Day6.Map.Visit | src/bin/day6.rs:116-120 | the cell's flag becomes true and no other flag changes |
| Day6.Map.FromStr | src/bin/day6.rs:78-102 | a cell is occupied exactly when its character is `#`, and nothing is visited |
| Day6.FillRow | src/bin/day6.rs:86-90 | the inner loop marks the `#` cells of one row |
| Day6.Guard.Step | src/bin/day6.rs:203-222 | turn right until the way ahead is free and take it; false exactly when that leaves the room; inside, the guard lands on a free cell and visits it, and only it |
| Day6.Guard.constructor | src/bin/day6.rs:182-191 | the start cell is visited |
| Day06.Guard.constructor | src/bin/day06.rs:172-180 | the start cell is flagged with the start direction |
| Day11.ParseInput | src/bin/day11.rs:6-11 | at most one stone per token |
| Day11.ParseInputConcat | src/bin/day11.rs:6-11 | the stones of two runs of tokens are those of the first followed by those of the second |
| Day11.ParseInputToken | src/bin/day11.rs:9 | one token gives its number when it parses and no stone otherwise |
| Day11.DecimalDigits | src/bin/day11.rs:18 | `to_string` gives as many decimal digits as `digits` counts |
| Day11.ValueOfDecimalDigits | src/bin/day11.rs:18-22 | reading the digits back gives the number |
| Day11.ValueSplit | src/bin/day11.rs:20-21 | the value of a digit string is its front shifted past its back plus its back |
| Day11.ValueBound | src/bin/day11.rs:21 | k digits make a value below 10^k |
| Day11.ApplyRule | src/bin/day11.rs:13-26 | a stone becomes one or two stones |
| Day11.ApplyRuleSplit | src/bin/day11.rs:16-23 | a stone with an even number of digits splits into its leading and trailing halves, which give the stone back, the back dropping leading zeros |
| Day11.ApplyRuleOthers | src/bin/day11.rs:13-25 | 0 becomes 1, and a stone with an odd number of digits is multiplied by 2024 |
| Day11.Blink | src/bin/day11.rs:13-26 | under a rule that makes one or two stones of each, as `apply_rule` does, a blink at least keeps and at most doubles the number of stones |
| Day11.BlinkAppend | src/bin/day11.rs:32-38 | each stone blinks on its own |
| Day11.BlinkSingle | src/bin/day11.rs:35 | one stone blinks into what the rule gives it |
| Day11.ExpandGrows | src/bin/day11.rs:31-43 | blinking never shrinks the row |
| Day11.BlinkCounts | src/bin/day11.rs:29-43 | the stones a blink yields, counted by value, depend only on the stones counted by value, which is what lets `problem` keep a count map |
| Day11.Copies | src/bin/day11.rs:29 | c copies of one stone |
| Day11.CopiesCounts | src/bin/day11.rs:29 | `counts` of c copies of a stone is that stone with count c |
| Day11.BlinkCopies | src/bin/day11.rs:34-38 | c copies of a stone blink into c times what the stone blinks into |
| Day11.AddCounts | src/bin/day11.rs:39-42 | each value a stone becomes has its count raised by the entry's count |
| Day11.TakeEntry | src/bin/day11.rs:32-34 | taking one entry out of the count map leaves the rest |
| Day11.AddEntry | src/bin/day11.rs:32-42 | adding one entry's counts is blinking that entry's copies after the stones done so far |
| Day11.BlinkMap | src/bin/day11.rs:32-42 | one iteration turns the count map of a row into the count map of the blinked row, whatever the entry order |
| Day11.Problem | src/bin/day11.rs:28-46 | the number of stones after the given number of blinks |
| Day11.ExampleInput | src/bin/day11.rs:58 | `125 17` parses to the two stones |
| Day11.SplitExample | src/bin/day11.rs:16-23 | a stone with a known digit split yields its two halves |
| Day11.FrontUnique | src/bin/day11.rs:16-23 | a front and a bounded back are determined by the stone |
| Day11.Blink3 | src/bin/day11.rs:32-38 | a blink of three stones |
| Day11.Blink4 | src/bin/day11.rs:32-38 | a blink of four stones |
| Day11.ExampleBlink1 | src/bin/day11.rs:57-59 | one blink of `125 17` gives `253000 1 7` |
| Day11.ExampleBlink2 | src/bin/day11.rs:62-64 | the next blink gives `253 0 2024 14168` |
| Day11.ExampleBlink3 | src/bin/day11.rs:67-69 | the next blink gives `512072 1 20 24 28676032` |
| Day11.ExampleCounts | src/bin/day11.rs:56-69 | 3, 4 and 5 stones after one, two and three blinks of `125 17` |
| Day14.AsI32 | src/bin/day14.rs:16-17 | `as i32` of a usize lies in the i32 range |
| Day14.CastRoundTrip | src/bin/day14.rs:28-38 | a coordinate parsed as i32 and stored as usize reads back as the same i32, negative values included |
| Day14.StepCoord | src/bin/day14.rs:16-17 | one coordinate after a step lies inside the room |
| Day14.ModAdd | src/bin/day14.rs:16-17 | adding before or after the remainder makes no difference |
| Day14.ModUnique | src/bin/day14.rs:16-17 | the Euclidean remainder is the unique r with 0 <= r < w |
| Day14.StepOfRemainder | src/bin/day14.rs:16-17 | a step from the remainder of a is the remainder of a + d |
| Day14.Iterate | src/bin/day14.rs:50-54 | after at least one step the coordinate lies inside the room |
| Day14.IterateLast | src/bin/day14.rs:50-54 | n + 1 steps are n steps followed by one more |
| Day14.IterateClosedForm | src/bin/day14.rs:50-54 | after n steps a coordinate is its start plus n times its velocity, modulo the extent |
| Day14.Robot.Step | src/bin/day14.rs:15-18 | one move in each coordinate with wrap-around; the robot ends inside the room |
| Day14.ParseI32 | src/bin/day14.rs:24 | a parsed number lies in the i32 range |
| Day14.Numbers | src/bin/day14.rs:22-25 | at most one number per piece, each an i32 |
| Day14.ParseLine | src/bin/day14.rs:21-31 | a robot exactly when four pieces are numbers, and the robot reads back as those numbers |
| Day14.NumbersConcat | src/bin/day14.rs:22-25 | the numbers of two runs of pieces are those of the first followed by those of the second |
| Day14.NumbersPiece | src/bin/day14.rs:24-25 | a piece yields its value once trimmed when that parses, and nothing otherwise |
| Day14.I32Plain | src/bin/day14.rs:24 | an accepted number holds no separator and no white space |
| Day14.NumberPiece | src/bin/day14.rs:22-25 | a number piece yields exactly its value |
| Day14.LetterPiece | src/bin/day14.rs:22-25 | a one-letter piece such as `p` or `v` yields nothing |
| Day14.SplitOnNumber | src/bin/day14.rs:23 | a number is a piece of its own |
| Day14.RobotPieces | src/bin/day14.rs:23 | a line `p=<x>,<y> v=<dx>,<dy>` splits into `p`, x, y, `v`, dx and dy |
| Day14.RobotNumbers | src/bin/day14.rs:22-25 | the numbers among those pieces are x, y, dx and dy in order |
| Day14.RobotLine | src/bin/day14.rs:21-31 | a line `p=<x>,<y> v=<dx>,<dy>` is the robot at (x, y) with velocity (dx, dy), the position stored through `as usize` |
| Day14.RobotLineIs | src/bin/day14.rs:21-31 | a line of that form whose fields parse as a robot's numbers describes that robot |
| Day14.ParseDigit | src/bin/day14.rs:24 | a digit, with or without a minus sign, parses as its value |
| Day14.ParseInput | src/bin/day14.rs:33-45 | at most one robot per line |
| Day14.ParseInputConcat | src/bin/day14.rs:33-45 | the robots of two runs of lines are those of the first followed by those of the second |
| Day14.ParseInputLine | src/bin/day14.rs:33-45 | a line that describes a robot is an input of that robot alone |
| Day14.ParseInputSnoc | src/bin/day14.rs:33-45 | one more robot line adds its robot at the end |
| Day14.ParsePrefix | src/bin/day14.rs:33-45 | lines matching robots one by one parse to those robots, one more line at a time |
| Day14.FinalPositions | src/bin/day14.rs:47-54 | where each robot stands after n steps |
| Day14.Quadrant | src/bin/day14.rs:84-90 | one of the four quadrants, or none exactly on the middle row or column |
| Day14.Quadrants | src/bin/day14.rs:82-90 | at most one quadrant per robot, each below four |
| Day14.Factor | src/bin/day14.rs:91-97 | a quadrant's factor is never below one |
| Day14.KeysProductAdd | src/bin/day14.rs:91-97 | one more key multiplies in its count |
| Day14.CountsProductOrder | src/bin/day14.rs:91-97 | multiplying the counts in any key order is the product in quadrant order |
| Day14.CountsProduct | src/bin/day14.rs:91-97 | a product of the counts of keys that occur is never zero |
| Day14.SafetyFactor | src/bin/day14.rs:79-98 | never zero, and one when no robot is in a quadrant |
| Day14.SafetyFactorQuadrants | src/bin/day14.rs:79-98 | the safety factor is the product of the four quadrant counts with an empty quadrant counting 1 |
| Day14.KeysProductFactors | src/bin/day14.rs:91-97 | over the keys that occur, the product is that of the four factors |
| Day14.MiddleIgnored | src/bin/day14.rs:89 | a robot on the middle row or column leaves the safety factor as it is |
| Day14.QuadrantCounts | src/bin/day14.rs:84-91 | each quadrant count is the number of robots strictly inside that quadrant |
| Day14.InQuadrantLast | src/bin/day14.rs:84-91 | the last robot adds itself to its quadrant |
| Day14.InQuadrantSplit | src/bin/day14.rs:84-91 | the robots of a quadrant, split at the last |
| Day14.MakeRobots | src/bin/day14.rs:37-43 | one fresh, distinct robot per description |
| Day14.StepAll | src/bin/day14.rs:51-53 | every robot steps once |
| Day14.Positions | src/bin/day14.rs:64 | the positions of the robots |
| Day14.Problem | src/bin/day14.rs:47-57 | the safety factor of where the parsed robots stand after the given number of steps |
| Day14.WriteCell | src/bin/day14.rs:68 | `grid[position] = count` sets that cell and keeps every other |
| Day14.RobotsToGrid | src/bin/day14.rs:60-71 | each cell of the room holds the number of robots standing there |
| Day14.RobotFinal | src/bin/day14.rs:168-183 | a robot's position after n steps, by the closed form |
| Day14.ExampleFirstRobot | src/bin/day14.rs:170 | the first robot of the example ends at (3, 5) |
| Day14.ExampleLine | src/bin/day14.rs:170-181 | each of the test's twelve lines parses as its robot |
| Day14.ExamplePrefix | src/bin/day14.rs:170-181 | the first k lines of the test parse to its first k robots |
| Day14.ExampleInput | src/bin/day14.rs:170-181 | `parse_input` of the test's lines gives its twelve robots |
| Day14.ExampleRobot | src/bin/day14.rs:168-183 | each of the twelve robots ends, after 100 steps in the 11 by 7 room, at its listed position |
| Day14.ExampleFinal | src/bin/day14.rs:168-183 | the twelve robots after 100 steps stand at the listed positions |
| Day14.ExampleSafetyFactor | src/bin/day14.rs:168-183 | the test's answer: the parsed test input after 100 steps in the 11 by 7 room has safety factor 12 |
| Day14.ExampleQuadrants | src/bin/day14.rs:168-183 | the quadrants of the example's final positions |
| Day14.ExampleQuadrantsA | src/bin/day14.rs:84-90 | the quadrants of the first four final positions |
| Day14.ExampleQuadrantsB | src/bin/day14.rs:84-90 | the quadrants of the next four final positions |
| Day14.ExampleQuadrantsC | src/bin/day14.rs:84-90 | the quadrants of the last four final positions |
| Day14.QuadrantsConcat | src/bin/day14.rs:82-90 | the quadrants of two runs of positions are those of the first followed by those of the second |
| Day14.ExampleFactor | src/bin/day14.rs:168-183 | the example's final positions have safety factor 12 |
| Day14.ExampleCounts | src/bin/day14.rs:168-183 | the example's quadrants hold 1, 3, 4 and 1 robots |
| Day14.CountsFactor | src/bin/day14.rs:91-97 | quadrant counts 1, 3, 4 and 1 give 12 |
| Day14.ExampleFirstHalf | src/bin/day14.rs:168-183 | the first four quadrants of the example |
| Day14.ExampleSecondHalf | src/bin/day14.rs:168-183 | the last five quadrants of the example |
| Day20.Minkowski | src/bin/day20.rs:12-14 | zero exactly on equal coordinates, and no coordinate differs by more than the distance |
| Day20.MinkowskiMetric | src/bin/day20.rs:12-14 | the distance is symmetric, zero exactly on equal coordinates, and obeys the triangle inequality |
| Day20.TryFrom | src/bin/day20.rs:40-48 | any other character is an "Invalid character" error naming it |
| Day20.CellCodec | src/bin/day20.rs:27-48 | exactly `#SE.` are accepted, and `try_from` and `to_char` undo each other |
| Day20.RowCountIsCard | src/bin/day20.rs:125-132 | the inner count is the number of later positions it accepts |
| Day20.TotalIsCard | src/bin/day20.rs:120-134 | the sum is the number of accepted pairs |
| Day20.CheatsCountPairs | src/bin/day20.rs:120-134 | the count is the number of (start, end) pairs along the track whose cheat is short enough and saves enough |
| Day20.CheatsMonotone | src/bin/day20.rs:120-134 | demanding a larger saving never counts more cheats, nor makes a computation that succeeded panic |
| Day20.CheatPairsShrink | src/bin/day20.rs:128-131 | a larger saving accepts fewer pairs |
| Day20.UnitStepsBound | src/bin/day20.rs:118 | along a track of unit steps no two positions are farther apart than their distance along the track |
| Day20.UnitStepsNoPanic | src/bin/day20.rs:123-130 | along a track of unit steps `j - i - d` never underflows, so the only panic left is a saving longer than the track |
| Day20.CountRow | src/bin/day20.rs:125-132 | the inner count for start i, failing exactly when some `j - i - d` underflows |
| Day20.CountCheats | src/bin/day20.rs:120-134 | the sum over the starts, as the count defines it |
| Day20.Coordinates | src/bin/day20.rs:118 | the positions of the visited nodes, in order |
| Day20.Solver | src/bin/day20.rs:104-135 | "Not found" without a start; otherwise the cheat count over the breadth-first order of the nodes reachable from the start in the track graph |
| Day16.CellTypeFromChar | src/bin/day16.rs:29-38 | any other character is an "Invalid character" error naming it |
| Day16.CellTypeCodec | src/bin/day16.rs:16-38 | exactly `#SE.` are read; reading undoes drawing except for the end, drawn `O` |
| Day16.Turns | src/bin/day16.rs:91-109 | the turns undo each other, four of either are the identity, and `Any` is fixed by both |
| Day16.Offset | src/bin/day16.rs:72-80 | `Any` is the zero vector and every other heading a unit vector |
| Day16.TurnLeft | src/bin/day16.rs:91-99 | rotates the heading's offset a quarter turn counter-clockwise on screen |
| Day16.TurnRight | src/bin/day16.rs:101-109 | rotates the heading's offset a quarter turn clockwise on screen |
| Day16.AllMove | src/bin/day16.rs:82-89 | `all` lists exactly the headings whose offset is not zero |
| Day16.Ahead | src/bin/day16.rs:187-190 | the cell one step ahead, exactly when it is within the extents |
| Day16.AddEdges | src/bin/day16.rs:151-211 | the graph gains the edges of `add_edges` for that cell and heading |
| Day16.AddStep | src/bin/day16.rs:187-209 | a step edge of cost 1 to the cell ahead, or nothing outside the grid or at a wall |
| Day16.AddEdgesMeaning | src/bin/day16.rs:151-211 | two turns of cost 1000 and a step of cost 1 exactly when the cell ahead is inside and not a wall; an end records `Any`; no other state's edges change |
| Day16.StepStateIsStep | src/bin/day16.rs:187-209 | the step edge joins adjacent open cells |
| Day16.AddEdgesKeepsMoves | src/bin/day16.rs:151-211 | every edge added is a turn or a step |
| Day16.InsertEdgesMoves | src/bin/day16.rs:169-208 | inserting an edge that is a move keeps every edge a move |
| Day16.MovesFacts | src/bin/day16.rs:151-211 | costs are positive, a step enters no wall and records `Any` on entering the end, and a turn keeps the cell |
| Day16.Triples | src/bin/day16.rs:224 | `iproduct!` lists exactly the cells with each real heading |
| Day16.FoldedMoves | src/bin/day16.rs:224-227 | the fold keeps every edge a move |
| Day16.BuiltMoves | src/bin/day16.rs:224-227 | the built graph's edges are moves, so its weights are positive |
| Day16.BuildGraph | src/bin/day16.rs:224-227 | the fold over all cells and headings yields the directed turn-and-step graph |
| Day16.CellLessTotal | src/bin/day16.rs:6 | the derived order on states is a strict total order |
| Day16.Solver1 | src/bin/day16.rs:221-249 | "Not found" exactly when the start or end is missing; otherwise the weight of a cheapest path from the start facing right to the end, or no path exactly where `unwrap` panics |
| Day16.Positions | src/bin/day16.rs:281 | the positions of the states, in order |
| Day16.Solver2 | src/bin/day16.rs:251-284 | the number of distinct positions on some cheapest path from start to end, with the failures of `solver1` |
| Day16.CountTiles | src/bin/day16.rs:278-283 | given every cheapest path from start to end, the count of distinct positions on them is the number of positions on some cheapest path |
| Day16.TilesOnLightestPaths | src/bin/day16.rs:278-283 | the positions of all cheapest paths are those on some cheapest path |
| Day18.ParseLine | src/bin/day18.rs:57-67 | a byte exactly when the comma-separated pieces hold two numbers, and the byte is those two, in order |
| Day18.FilterMap | src/bin/day18.rs:57-67 | `filter_map` keeps at most as many values as it is given |
| Day18.FilterMapAllSome | src/bin/day18.rs:57-67 | when every line parses, each gives its own pair, in order |
| Day18.Corrupt | src/bin/day18.rs:69-72 | the fold keeps the size of the grid, or panics |
| Day18.CorruptMeaning | src/bin/day18.rs:69-72 | the fold panics exactly when some byte is past the data, and otherwise exactly the cells some byte hits are corrupted |
| Day18.LayoutMeaning | src/bin/day18.rs:49-77 | the parse panics exactly on an empty grid or a byte past the data; otherwise the end is the last cell, the start the first (unless the grid is one cell), and in between exactly the hit cells are corrupted |
| Day18.ParseInput | src/bin/day18.rs:49-77 | a panic exactly where the layout has none; otherwise a width by height grid holding that layout |
| Day18.EscapesMonotone | src/bin/day18.rs:125-141 | more bytes never open a way across, and a panic with fewer bytes is a panic with more |
| Day18.FirstBlocking | src/bin/day18.rs:125-141 | where the search stops, every smaller count can be crossed and no larger one can |
| Day18.Spots | src/bin/day18.rs:37-41 | the positions of the nodes, in order |
| Day18.Along | src/bin/day18.rs:86-91 | the graph's nodes at open positions of a walk |
| Day18.OpenCell | src/bin/day18.rs:79-98 | a node of the graph is an open cell, the start only at (0, 0) and the end only in the far corner |
| Day18.EdgeEndsOpen | src/bin/day18.rs:83-92 | neither end of an edge is corrupted |
| Day18.UnitPathWeight | src/bin/day18.rs:92-120 | a path of unit edges weighs one less than its length |
| Day18.PathIsEscape | src/bin/day18.rs:79-120 | a path of the graph from start to end is a walk across of the same length |
| Day18.EscapeIsPath | src/bin/day18.rs:79-120 | a walk across is a path of the graph between the start and end nodes |
| Day18.NodeLessTotal | src/bin/day18.rs:36 | the derived order on nodes is a strict total order |
| Day18.FindCell | src/bin/day18.rs:108-119 | `find` answers the first node holding the cell, and nothing exactly when none does |
| Day18.Solver | src/bin/day18.rs:100-123 | a panic exactly where the parse panics; otherwise success exactly when the grid can be crossed, with the length of a shortest walk across |
| Day18.Search | src/bin/day18.rs:107-122 | on a parsed grid, success exactly when some walk crosses it, with the shortest length |
| Day18.FoundIsShortest | src/bin/day18.rs:120-122 | the weight of a lightest path between the corner nodes is the length of a shortest walk across |
| Day18.CornersFound | src/bin/day18.rs:108-119 | the nodes found for the start and the end are the corner nodes, and a corner not found is not in the graph |
| Day18.NoEscapeWithout | src/bin/day18.rs:108-119 | without a node at either corner the grid cannot be crossed |
| Day18.Halve | src/bin/day18.rs:131 | the midpoint lies between the bounds, strictly when they are two or more apart |
| Day18.Probe | src/bin/day18.rs:132-133 | `is_ok` of the solver, with a panic kept apart |
| Day18.Part2 | src/bin/day18.rs:125-143 | the line of the first byte that closes the way across; a panic only where some count panics; it runs forever exactly when there are fewer than two lines and the grid of no byte parses and cannot be crossed or there are no lines |
| Day10.DigitValues | src/bin/day10.rs:21-25 | the digit values in order, failing exactly where a character is not a decimal digit |
| Day10.ParseInput | src/bin/day10.rs:11-32 | a panic exactly on a non-digit; otherwise one row per line, the first line's width and the digits of all lines in order |
| Day10.Ascents | src/bin/day10.rs:47-68 | the neighbours listed are exactly the cardinal neighbours in the grid one higher, each once |
| Day10.ToGraph | src/bin/day10.rs:41-79 | every cell maps to its node to exactly its ascents |
| Day10.TrailMapLayered | src/bin/day10.rs:61 | every edge climbs by one, so no trail repeats a node |
| Day10.ListSumAppend | src/bin/day10.rs:101-105 | the trails ahead of a queue add up over its parts |
| Day10.ListSumFloor | src/bin/day10.rs:101-105 | the bound on heights used for termination does not change the count |
| Day10.ListSumSingle | src/bin/day10.rs:87 | a one-node queue has that node's trails ahead |
| Day10.TreeSumInner | src/bin/day10.rs:100-105 | below the summit a node's count is its own plus its targets' |
| Day10.PopExpands | src/bin/day10.rs:89-105 | popping the front and pushing its targets trades its count for its own |
| Day10.UnexploredMembers | src/bin/day10.rs:101-105 | exactly the targets not explored are pushed |
| Day10.UnexploredAll | src/bin/day10.rs:101-105 | with no target explored all are pushed |
| Day10.PushUnexplored | src/bin/day10.rs:101-105 | the queue gains its unexplored targets, in order |
| Day10.BandedPush | src/bin/day10.rs:89-105 | the queue stays ordered by height within a band of one |
| Day10.StartReachable | src/bin/day10.rs:87 | the start is reachable from itself |
| Day10.ReachStep | src/bin/day10.rs:100-105 | an edge out of a reachable non-summit leads to a reachable node |
| Day10.ClosedCoversReachable | src/bin/day10.rs:88-106 | an explored set closed under expansion holds everything reachable |
| Day10.SearchStart | src/bin/day10.rs:83-87 | the summit search starts with only the start queued |
| Day10.RatingStart | src/bin/day10.rs:83-87 | the rating search starts with only the start queued |
| Day10.SearchDone | src/bin/day10.rs:88-108 | with the queue empty the count is the number of reachable summits |
| Day10.SkipKeeps | src/bin/day10.rs:90-92 | skipping an explored node keeps the search invariant |
| Day10.SummitKeeps | src/bin/day10.rs:95-98 | counting a summit keeps the search invariant |
| Day10.ExpandKeeps | src/bin/day10.rs:100-105 | expanding a non-summit keeps the search invariant |
| Day10.RatingSummit | src/bin/day10.rs:95-98 | counting a summit keeps the rating invariant and shrinks what is ahead |
| Day10.RatingExpand | src/bin/day10.rs:100-105 | expanding a non-summit pushes all its targets, keeps the rating invariant and shrinks what is ahead |
| Day10.RateTrailhead | src/bin/day10.rs:81-109 | the number of distinct summits reachable from the start, or with `as_rating` the number of trails from it to a summit |
| Day10.VisitSearch | src/bin/day10.rs:89-105 | one pass of the summit search keeps the search invariant and either explores one more node or shortens the queue |
| Day10.VisitRating | src/bin/day10.rs:89-105 | one pass of the rating search keeps the rating invariant and shrinks the trails ahead |
| Day10.Prefixed | src/bin/day10.rs:81 | each trail put behind the node |
| Day10.TrailsSound | src/bin/day10.rs:81 | every listed trail climbs from the node to a summit |
| Day10.ThroughSound | src/bin/day10.rs:81 | every trail listed through the targets climbs from the node to a summit |
| Day10.ThroughContains | src/bin/day10.rs:81 | a trail from a target, behind the node, is listed |
| Day10.TrailsComplete | src/bin/day10.rs:81 | every trail from the node to a summit is listed |
| Day10.TrailsDistinct | src/bin/day10.rs:81 | no trail is listed twice |
| Day10.ThroughDistinct | src/bin/day10.rs:81 | no trail through the targets is listed twice, and each continues through one of them |
| Day10.TrailsCounted | src/bin/day10.rs:81 | the rating counts the listed trails |
| Day10.ThroughCounted | src/bin/day10.rs:81 | the trails through the targets are as many as their ratings add up to |
| Day10.TrailCountCounts | src/bin/day10.rs:81 | the rating is the number of distinct trails from the node to a summit |
| Day10.EndsBound | src/bin/day10.rs:81 | there are no more summits at the ends of trails than trails |
| Day10.RatingBoundsScore | src/bin/day10.rs:81 | a node's rating is at least its score, and positive exactly when it reaches a summit |
| Day10.KeepTrailheads | src/bin/day10.rs:116-118 | the filter keeps exactly the pairs holding a trailhead, without repeats |
| Day10.Trailheads | src/bin/day10.rs:116-118 | on a square map the pairs listed are exactly the trailheads, each once |
| Day10.Problem | src/bin/day10.rs:111-131 | a panic exactly on a non-digit; otherwise the graph of the map and the sum of scores (or ratings) over its trailheads |
| Day10.SumRatings | src/bin/day10.rs:121-130 | the sum over the trailheads of each one's rating |
| Day10.ScoreZero | src/bin/day10.rs:121-130 | the sum over the trailheads is zero exactly when no trailhead scores |
| Day12.GridFromStr | src/bin/day12.rs:4-21 | the empty 0 x 0 grid for no lines; otherwise the first line's width, one row per line and all characters in order |
| Day12.AddEdgeKeeps | src/bin/day12.rs:42-48 | adding the edge to a same-plant neighbour keeps the edges built so far as needed |
| Day12.SkipKeeps | src/bin/day12.rs:42 | skipping a neighbour of another plant adds no needed edge |
| Day12.AddIfSamePlant | src/bin/day12.rs:41-48 | one neighbour: the edge to it is added exactly when its plant is the same, and every node stays in the garden |
| Day12.AddSamePlant | src/bin/day12.rs:40-49 | an undirected edge from the plant to every neighbour with the same plant, and only within the garden |
| Day12.AddNodeKeeps | src/bin/day12.rs:38 | `add_node` leaves the edges as they were |
| Day12.NodeDone | src/bin/day12.rs:32-51 | a plant with all its neighbours seen counts as done |
| Day12.KeysStep | src/bin/day12.rs:32-51 | every cell done is a node |
| Day12.GardenDone | src/bin/day12.rs:30-51 | once every cell is enumerated the graph is the garden graph |
| Day12.GardenAsGraph | src/bin/day12.rs:29-52 | an undirected graph whose nodes are the cells with their plants and whose edges join exactly the side-by-side cells of the same plant |
| Day12.PlantLessTotal | src/bin/day12.rs:23 | the derived order on plants is a strict total order |
| Day12.PairsCard | src/bin/day12.rs:57 | a node has as many edge ends as neighbours |
| Day12.ArcsInsert | src/bin/day12.rs:55-58 | a further node adds its own edge ends |
| Day12.OpenSidesArcs | src/bin/day12.rs:55-58 | four sides per node less one per edge end, added up |
| Day12.CalcPerimeter1 | src/bin/day12.rs:54-59 | the perimeter plus the edge ends is four per node |
| Day12.Around | src/bin/day12.rs:57 | a plant has at most four cells beside it |
| Day12.AdjoiningAround | src/bin/day12.rs:42-48 | a node joined to a plant lies beside it |
| Day12.InducedNodes | src/bin/day12.rs:132 | a component's edges stay among its nodes |
| Day12.InducedDegree | src/bin/day12.rs:57 | no plant of a component has more than four neighbours, so `4 - count` does not underflow |
| Day12.KeysOnePerCell | src/bin/day12.rs:33-36 | no cell holds two plants |
| Day12.RegionShape | src/bin/day12.rs:132-138 | a component is non-empty, every node a key with at most four neighbours, one plant per cell |
| Day12.Xs | src/bin/day12.rs:63-65 | the x coordinates of the nodes, in order |
| Day12.Ys | src/bin/day12.rs:64-66 | the y coordinates of the nodes, in order |
| Day12.FoldMin | src/bin/day12.rs:63-64 | the fold is at most the seed and every coordinate, and is one of them |
| Day12.FoldMax | src/bin/day12.rs:65-66 | the fold is at least the seed and every coordinate, and is one of them |
| Day12.Bounds | src/bin/day12.rs:63-66 | the bounding box holds every plant of the region |
| Day12.LocalPosInjective | src/bin/day12.rs:75-77 | two plants of a region land on distinct local cells |
| Day12.PaintedIs | src/bin/day12.rs:77 | a painted local cell shows its plant |
| Day12.FoldMinLeast | src/bin/day12.rs:63-64 | the min fold finds the least coordinate, or the seed if smaller |
| Day12.FoldMaxGreatest | src/bin/day12.rs:65-66 | the max fold from 0 finds the greatest coordinate |
| Day12.XsCover | src/bin/day12.rs:63-66 | the folded coordinates are exactly the region's |
| Day12.FoldsFindBounds | src/bin/day12.rs:63-66 | the four folds, the min ones seeded with `usize::MAX`, find the bounding box |
| Day12.BlankPicture | src/bin/day12.rs:73 | a fresh grid of '.' pictures no plant |
| Day12.PaintStep | src/bin/day12.rs:75-77 | writing a plant at its local position adds it to the picture |
| Day12.PaintPlant | src/bin/day12.rs:75-77 | one pass writes the plant at its shifted position |
| Day12.PaintAll | src/bin/day12.rs:74-78 | after the loop every plant of the region is pictured |
| Day12.GraphToGrid | src/bin/day12.rs:61-80 | a grid two cells larger than the bounding box each way, '.' except at the shifted position of every plant, which shows its plant |
| Day12.FilledAt | src/bin/day12.rs:92-113 | a local cell is not '.' exactly where a plant of the region lands |
| Day12.ScanRow | src/bin/day12.rs:89-105 | one row of the horizontal scan counts the starts of upper and lower edge runs |
| Day12.ScanColumn | src/bin/day12.rs:109-122 | one column of the vertical scan counts the starts of left and right edge runs |
| Day12.CountSides | src/bin/day12.rs:84-126 | both scans count the straight sides of the region |
| Day12.CalcPerimeter2 | src/bin/day12.rs:82-127 | the number of straight sides of the region's fence |
| Day12.Perimeter | src/bin/day12.rs:54-127 | by sides the fence length is never negative, and counted by open cell faces it is at most four per plant |
| Day12.RegionsPriceable | src/bin/day12.rs:132-138 | every component can be priced |
| Day12.PriceStep | src/bin/day12.rs:135-140 | the sum over one more component adds its cost |
| Day12.Price | src/bin/day12.rs:134-140 | with no negative cost the sum is non-negative, and zero exactly when every component costs nothing |
| Day12.RegionCost | src/bin/day12.rs:135-139 | area times perimeter of one component |
| Day12.PriceRegions | src/bin/day12.rs:134-140 | the sum of the costs of the components |
| Day12.PriceUnique | src/bin/day12.rs:129-141 | every component split of the garden has the same price, so the price `problem` returns depends only on the garden |
| Day12.PriceAsSum | src/bin/day12.rs:134-140 | the price is the sum of the costs, which `Util.SumByPermutation` shows does not depend on the order of the components |
| Day12.GardenSymmetric | src/bin/day12.rs:29-52 | the garden graph is undirected: every edge is stored both ways with weight one |
| Day12.Problem | src/bin/day12.rs:129-141 | the garden graph of the lines, split into its connected components, and the sum of area times perimeter (or sides) over them |
| Day12.HopsOneType | src/bin/day12.rs:42 | any number of hops keeps the plant kind |
| Day12.RegionOneType | src/bin/day12.rs:29-52 | a component grows a single kind of plant |
| Day12.GardenKeys | src/bin/day12.rs:38 | every node of the garden is a key |
| Day12.RegionArcs | src/bin/day12.rs:54-59 | within a component the edge ends are exactly the ordered pairs of side-by-side plants |
| Day12.PerimeterCountsTouching | src/bin/day12.rs:54-59 | part one's perimeter is four per plant less one per ordered touching pair |
| Day12.SinglePlantPicture | src/bin/day12.rs:61-80 | one plant gives a 3 x 3 grid with the plant in the middle |
| Day12.SinglePlantSides | src/bin/day12.rs:82-127 | a single plant is fenced by four sides |

## Left out

General:

- Program entry and file reading: every `main`, `fs::read_to_string` and `println!`, and the file helpers (`src/bin/day2.rs:3-18`, `src/bin/day3.rs:4-6`, `src/bin/day6.rs:269-298`, `src/bin/day7.rs:42-55`, `src/bin/day8.rs:40-58`, `src/bin/day09.rs:12-20`). They are I/O. The computations take the input as strings, lines or sequences instead.
- `Debug` and `Display` formatters (`src/lib.rs:108-137`, `src/bin/day06.rs:150-270` and the like). They are presentation only.
- `src/bin/day13.rs` is not part of this model. It is floating-point arithmetic with an epsilon test.
- `src/bin/day05.rs` is not part of this model. Its ordering comes from an external topological-sort crate.
- `problem2` and `render_easter_egg` of day 14. They use an `f64` threshold, printing and an image crate.
- rayon parallelism (day 7, day 20). Each parallel iterator is a sequential filter and sum.
- The `f64` path of day 17's `division`. Division is the integer `value / 2^combo`.
- `HashMap` and `HashSet` iteration order. BFS order within a level, Dijkstra's choice among ties and the order of all-shortest paths are arbitrary choices, and only order-free facts are stated.
- The `f64` weights of the graph tests, the `Weight` trait bundle and the iterator and lifetime plumbing of `src/graph.rs`. Weights are `nat`.
- Machine-integer overflow of `usize`, `u64` and `i32` arithmetic. Integers are unbounded. Where the width matters it is written out: day 14's casts, `usize::MAX` in day 12 and the parse limit of day 11's stones.
- `Grid::parse_str`, `swap`, `idx_to_xy` and `iter_items` are called by the puzzles but are not in `src/lib.rs`. They are defined in the puzzle modules that need them, or the puzzle takes the parsed grid.
- `src/bin/day7.rs` and `src/bin/day8.rs` are the same algorithms as `day07.rs` and `day08.rs`, without rayon and file reading. The nested `is_safe` of `src/bin/day2.rs` is the `is_safe` of `day02.rs`. Each is modelled once.
- The local `Grid` of `src/bin/day6.rs:12-53` has the library grid's bounds. `GridLib.Grid` stands for both.
- `Dijkstras.Dijkstra.ShortestPath`: after a search that finds the end, the unsettled queue entries are not kept as a reusable state. Every caller runs one query on a fresh search.

Per puzzle:

- `Day01.ParseInput`: a line with fewer than two numbers panics in Rust. It is a precondition.
- `Day07.FindAnswer`: an equation with a single value needs a zero-length `multi_cartesian_product`, whose behaviour the code does not pin down. At least two values are required.
- `Day09.Compress2`: the contract states the same length and the same entries. That one file moves at most once, only leftwards and only into a wide enough span is proved per file for `Day09.Place`, not for the whole output.
- `Day09.Part2`: the checksum is of some rearrangement of the decoded disk, per the weaker contract of `Day09.Compress2`.
- The `decode` test of day 9: unfolding the literal example in the verifier is too costly.
- Day 11: the first three blink counts of the test are proved; the others (`src/bin/day11.rs:56-89`) are not.
- Day 14: `i32` overflow of `x + dx` is not modelled, and the room is narrower than 2^31 cells each way so that the `as i32` casts keep their values. `trim` removes ASCII white space only, not the other Unicode white space Rust's `trim` also removes.
- Day 15: `parse_input`'s split of the map and the commands is not part of this model. The room must be walled, since the Rust `usize` index arithmetic would otherwise underflow or panic. The tests are not proved.
- Day 17: execution takes a fuel bound, since a program may run forever. `find_quine_value` on an empty program underflows in Rust and is an `EmptyProgram` error here. `parse_input` is not part of this model.
- Day 19: the input's split into patterns and designs is not part of this model. The ways are counted for non-empty patterns only, since an empty pattern is not a step forward.
- `Day06.Map.FromStr`, `Day06.OccupancyOf`, `Day06.Part1`, `Day06.Part2`, `Day6.Map.FromStr`, `Day6.FillRow`: the map must be well shaped, with at least one line and no line longer than the first. On an empty input Rust panics when it reads the first line's width (`src/bin/day06.rs:31`, `src/bin/day6.rs:80`). A later line longer than the first is written by Rust through the row-major `IndexMut` into the following row (`src/bin/day6.rs:85-87`), and panics only once the offset runs past the data. Neither the panic nor the wrapping write is modelled.
- The example answers of the tests of day 3 and `day3.rs` (161 and 48, `src/bin/day03.rs:107-113`), day 4 (18 and 9, `src/bin/day04.rs:150-168`), day 6 (41 and 6, `src/bin/day06.rs:366-382`), day 7 (3749 and 11387, `src/bin/day07.rs:103-119`), day 8 (14 and 34, `src/bin/day08.rs:130-148`) and day 19 (6 and 16, `src/bin/day19.rs:87-92`) are not proved. The verifier would have to unfold the puzzle functions over the whole example input, which is too costly. Smaller facts about the examples are proved: `Day07.ExampleSolvable` and `Day07.ExampleUnsolvable` for single equations, the first blinks of day 11, `Day14.ExampleSafetyFactor`, and the example answers of day 1 (`Day01.ExampleParts`) and day 2 (`Day02.ExampleParts`).
- `Day17.FindQuine`: the contract states that the result is a quine, not that it is the first one the digit-by-digit search meets, so that the search returns 117440 on the second example (`src/bin/day17.rs:290`) is not proved. `Day17.SecondExampleQuine` proves that 117440 is a quine. Pinning the search's answer would take every run of the program the search makes on that example, up to eight per octal digit, to be unfolded by the verifier.
- `Day04.Part1`, `Day04.Part2`, `Day04.SearchXmas`, `Day04.SearchDoubleMas`, `Day04.XmasFrom`: no later line may be shorter than the first (`NoShortRows`). Bounds are checked against the first line's width only (`src/bin/day04.rs:48-50`), so Rust panics on a shorter later line only when a read reaches past its end; that panic is not modelled. A longer later line is allowed and its extra characters are never read (`Day04.LongerLaterLine`). The empty input, where Rust panics reading the first line's width, is the `None` answer of `Day04.Part1` and `Day04.Part2`.
- `Day06.Walk`: the walk and the loop check take fuel. That a repeated (cell, direction) pair means the guard never leaves is not proved.
- `Day6.Guard.Step`: the guard must not be boxed in by four obstacles, where the Rust loop would turn forever.
- Day 16: the grid is taken parsed (`parse_str` is not in `src/lib.rs`). The tests (`src/bin/day16.rs:332-340`) are not proved.
- Day 20: the grid is taken parsed. The tests (`src/bin/day20.rs:166-197`) are not proved: a breadth-first search over the example grid is too costly to unfold.
- Day 18: the input is its sequence of lines. `trim` handles ASCII white space only. The tests (`src/bin/day18.rs:183-191`) are not proved.
- `Day10.RateTrailhead`: the start must be a node of the graph, which `problem` ensures. Heights are `nat`, not `u8`.
- `Day10.Problem`: the map must be square, because the trailhead scan uses `iproduct!(0..height, 0..width)`. The tests (`src/bin/day10.rs:141-167`) are not proved.
- `Day12.Problem`: the input is the trimmed input's lines. The map must be square, as for day 10 (`src/bin/day12.rs:30-31`). The `calc_perimeter` function argument is the flag `bySides`. The tests (`src/bin/day12.rs:143-217`) are not proved.

## Findings

| source | as written | input that shows it | evidently intended | confidence | as-written member | corrected member |
|---|---|---|---|---|---|---|
| src/bin/day3.rs:21-35 | after a partial match fails, the scanner also skips the character that failed, so an `m` there is never tried | `mmul(2,3)`: the `u` test fails on the second `m`, which is skipped, and the scan finds 0 | every well-formed `mul(a,b)` is counted, giving 6 | not executed | Day3.DoubledM | Day3.ScanCounts |
