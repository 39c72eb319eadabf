/** Day 20: a race track on a grid. The track is the breadth-first order
    of the open cells from the start; a cheat joins two positions of that
    order whose Manhattan distance is within the cheat's duration, and it
    counts when it saves at least the required number of steps. */
module Day20 {
  import opened Wrappers
  import opened Util
  import opened GridLib
  import opened GraphLib
  import opened GridGraph

  // ---------------------------------------------------------------------
  // Coordinates

  datatype Coordinate = Coordinate(x: nat, y: nat)

  /** `Coordinate::minkowski`: the sum of the absolute differences of the
      two coordinates. */
  function Minkowski(a: Coordinate, b: Coordinate): (d: nat)
    ensures d == 0 <==> a == b
    ensures a.x <= b.x + d && b.x <= a.x + d && a.y <= b.y + d && b.y <= a.y + d
  {
    Abs(a.x - b.x) + Abs(a.y - b.y)
  }

  /** The distance is a metric: symmetric, zero exactly on equal
      coordinates, and obeying the triangle inequality. */
  lemma MinkowskiMetric(a: Coordinate, b: Coordinate, c: Coordinate)
    ensures Minkowski(a, b) == Minkowski(b, a)
    ensures Minkowski(a, b) == 0 <==> a == b
    ensures Minkowski(a, c) <= Minkowski(a, b) + Minkowski(b, c)
  {
  }

  // ---------------------------------------------------------------------
  // Cells

  datatype Cell = Empty | Wall | Start | End

  /** `Cell::to_char`. */
  function ToChar(c: Cell): char
  {
    match c
    case Empty => '.'
    case Wall => '#'
    case Start => 'S'
    case End => 'E'
  }

  /** `Cell::try_from`: the four track characters, and an error naming any
      other character. */
  function TryFrom(c: char): (r: Result<Cell, string>)
    ensures r.Err? ==> r.error == "Invalid character: " + [c]
  {
    match c
    case '#' => Ok(Wall)
    case 'S' => Ok(Start)
    case 'E' => Ok(End)
    case '.' => Ok(Empty)
    case _ => Err("Invalid character: " + [c])
  }

  /** Exactly `#SE.` are accepted, and parsing undoes `to_char`. */
  lemma CellCodec(cell: Cell, c: char)
    ensures TryFrom(c).Ok? <==> c in "#SE."
    ensures TryFrom(c).Ok? ==> ToChar(TryFrom(c).value) == c
    ensures TryFrom(ToChar(cell)) == Ok(cell)
  {
  }

  // ---------------------------------------------------------------------
  // Counting cheats (the `par_iter` of `solver`, taken sequentially)

  /** The arithmetic `j - i - d` of the filter underflows: `d` is within
      the duration, so the subtraction is evaluated, and it exceeds `j - i`. */
  predicate Underflows(path: seq<Coordinate>, i: nat, j: nat, max: nat)
    requires i <= j < |path|
  {
    var d := Minkowski(path[i], path[j]);
    d <= max && d > j - i
  }

  /** The filter of `solver`: a cheat from i to j within the duration that
      saves at least t steps. */
  predicate Counted(path: seq<Coordinate>, i: nat, j: nat, t: nat, max: nat)
    requires i <= j < |path|
  {
    var d := Minkowski(path[i], path[j]);
    d <= max && j - i - d >= t
  }

  /** Some pair the filter looks at underflows, or `path.len() - time_saved`
      does: the computation panics. */
  predicate Panics(path: seq<Coordinate>, t: nat, max: nat)
  {
    |path| < t ||
    exists i, j :: 0 <= i && i + t <= j < |path| && Underflows(path, i, j, max)
  }

  /** The count of the inner filter for start i, over targets j onwards. */
  function RowCount(path: seq<Coordinate>, i: nat, j: nat, t: nat, max: nat): nat
    requires i <= j <= |path|
    decreases |path| - j
  {
    if j == |path| then 0
    else (if Counted(path, i, j, t, max) then 1 else 0) + RowCount(path, i, j + 1, t, max)
  }

  /** The sum over the first n starts. */
  function Total(path: seq<Coordinate>, n: nat, t: nat, max: nat): nat
    requires n + t <= |path|
  {
    if n == 0 then 0 else Total(path, n - 1, t, max) + RowCount(path, n - 1, n - 1 + t, t, max)
  }

  datatype Failure = NotFound | Underflow

  /** The value `solver` computes from the track: the number of counted
      pairs, or the panic. */
  function Cheats(path: seq<Coordinate>, t: nat, max: nat): Result<nat, Failure>
  {
    if Panics(path, t, max) then Err(Underflow) else Ok(Total(path, |path| - t, t, max))
  }

  /** The cheats as a set: every pair i, j with j at least t past i that the
      filter keeps. */
  function CheatPairs(path: seq<Coordinate>, t: nat, max: nat): set<(nat, nat)>
  {
    set i: nat, j: nat | i + t <= j < |path| && Counted(path, i, j, t, max) :: (i, j)
  }

  function RowPairs(path: seq<Coordinate>, i: nat, j: nat, t: nat, max: nat): set<(nat, nat)>
    requires i <= j <= |path|
  {
    set k: nat | j <= k < |path| && Counted(path, i, k, t, max) :: (i, k)
  }

  function PairsBelow(path: seq<Coordinate>, n: nat, t: nat, max: nat): set<(nat, nat)>
  {
    set i: nat, j: nat | i < n && i + t <= j < |path| && Counted(path, i, j, t, max) :: (i, j)
  }

  lemma {:induction false} RowCountIsCard(path: seq<Coordinate>, i: nat, j: nat, t: nat, max: nat)
    requires i <= j <= |path|
    ensures RowCount(path, i, j, t, max) == |RowPairs(path, i, j, t, max)|
    decreases |path| - j
  {
    if j < |path| {
      RowCountIsCard(path, i, j + 1, t, max);
      var rest := RowPairs(path, i, j + 1, t, max);
      if Counted(path, i, j, t, max) {
        assert RowPairs(path, i, j, t, max) == rest + {(i, j)};
        assert (i, j) !in rest;
      } else {
        assert RowPairs(path, i, j, t, max) == rest;
      }
    } else {
      assert RowPairs(path, i, j, t, max) == {};
    }
  }

  lemma {:induction false} TotalIsCard(path: seq<Coordinate>, n: nat, t: nat, max: nat)
    requires n + t <= |path|
    ensures Total(path, n, t, max) == |PairsBelow(path, n, t, max)|
  {
    if n == 0 {
      assert PairsBelow(path, n, t, max) == {};
    } else {
      TotalIsCard(path, n - 1, t, max);
      RowCountIsCard(path, n - 1, n - 1 + t, t, max);
      var below, row := PairsBelow(path, n - 1, t, max), RowPairs(path, n - 1, n - 1 + t, t, max);
      assert PairsBelow(path, n, t, max) == below + row;
      assert below * row == {};
    }
  }

  /** The count is the number of cheat pairs. */
  lemma CheatsCountPairs(path: seq<Coordinate>, t: nat, max: nat)
    requires Cheats(path, t, max).Ok?
    ensures Cheats(path, t, max).value == |CheatPairs(path, t, max)|
  {
    TotalIsCard(path, |path| - t, t, max);
    assert PairsBelow(path, |path| - t, t, max) == CheatPairs(path, t, max);
  }

  /** Requiring a larger saving never counts more cheats, and never makes a
      computation that succeeded panic. */
  lemma CheatsMonotone(path: seq<Coordinate>, t: nat, t': nat, max: nat)
    requires t <= t' <= |path| && Cheats(path, t, max).Ok?
    ensures Cheats(path, t', max).Ok?
    ensures Cheats(path, t', max).value <= Cheats(path, t, max).value
  {
    CheatsCountPairs(path, t, max);
    CheatsCountPairs(path, t', max);
    CheatPairsShrink(path, t, t', max);
    SubsetCard(CheatPairs(path, t', max), CheatPairs(path, t, max));
  }

  lemma CheatPairsShrink(path: seq<Coordinate>, t: nat, t': nat, max: nat)
    requires t <= t'
    ensures CheatPairs(path, t', max) <= CheatPairs(path, t, max)
  {
  }

  lemma SubsetCard<T>(a: set<T>, b: set<T>)
    requires a <= b
    ensures |a| <= |b|
  {
    assert b == a + (b - a) && a * (b - a) == {};
  }

  /** Along a track of unit steps no two positions are farther apart than
      their distance along the track. */
  lemma {:induction false} UnitStepsBound(path: seq<Coordinate>, i: nat, j: nat)
    requires forall k :: 0 <= k < |path| - 1 ==> Minkowski(path[k], path[k + 1]) == 1
    requires i <= j < |path|
    ensures Minkowski(path[i], path[j]) <= j - i
    decreases j - i
  {
    if i < j {
      UnitStepsBound(path, i, j - 1);
      MinkowskiMetric(path[i], path[j - 1], path[j]);
    }
  }

  /** On a track of unit steps the subtraction never underflows: the only
      panic left is a saving longer than the track. */
  lemma UnitStepsNoPanic(path: seq<Coordinate>, t: nat, max: nat)
    requires forall k :: 0 <= k < |path| - 1 ==> Minkowski(path[k], path[k + 1]) == 1
    ensures Cheats(path, t, max).Err? <==> |path| < t
  {
    if |path| >= t && Panics(path, t, max) {
      var i, j :| 0 <= i && i + t <= j < |path| && Underflows(path, i, j, max);
      UnitStepsBound(path, i, j);
    }
  }

  /** The inner `filter(..).count()` for start i. */
  method CountRow(path: seq<Coordinate>, i: nat, t: nat, max: nat) returns (r: Result<nat, Failure>)
    requires i + t <= |path|
    ensures r.Err? <==> exists j :: i + t <= j < |path| && Underflows(path, i, j, max)
    ensures r.Err? ==> r.error == Underflow
    ensures r.Ok? ==> r.value == RowCount(path, i, i + t, t, max)
  {
    var count := 0;
    for j := i + t to |path|
      invariant count + RowCount(path, i, j, t, max) == RowCount(path, i, i + t, t, max)
      invariant forall k :: i + t <= k < j ==> !Underflows(path, i, k, max)
    {
      var d := Minkowski(path[i], path[j]);
      if d <= max {
        if d > j - i {
          assert Underflows(path, i, j, max);
          return Err(Underflow);
        }
        if j - i - d >= t {
          count := count + 1;
        }
      }
    }
    return Ok(count);
  }

  /** The sum over the starts `0 .. path.len() - time_saved`. */
  method CountCheats(path: seq<Coordinate>, t: nat, max: nat) returns (r: Result<nat, Failure>)
    ensures r == Cheats(path, t, max)
  {
    if |path| < t {
      return Err(Underflow);
    }
    var total := 0;
    for i := 0 to |path| - t
      invariant total == Total(path, i, t, max)
      invariant forall i', j :: 0 <= i' < i && i' + t <= j < |path| ==> !Underflows(path, i', j, max)
    {
      var row := CountRow(path, i, t, max);
      if row.Err? {
        return row;
      }
      total := total + row.value;
    }
    return Ok(total);
  }

  /** The positions of a sequence of nodes. */
  function Coordinates(order: seq<Node<Cell>>): (r: seq<Coordinate>)
    ensures |r| == |order|
    ensures forall k :: 0 <= k < |order| ==> r[k] == Coordinate(order[k].x, order[k].y)
  {
    if order == [] then [] else [Coordinate(order[0].x, order[0].y)] + Coordinates(order[1..])
  }

  /** `solver` on the parsed grid: its graph, a breadth-first traversal
      from the first start cell, and the cheat count over the visited
      positions. Without a start cell the result is `NotFound`. */
  method Solver(grid: Grid<Cell>, t: nat, max: nat)
      returns (r: Result<nat, Failure>, ghost adj: Adjacency<Node<Cell>>, ghost order: seq<Node<Cell>>)
    requires grid.Valid()
    ensures FindThing(grid, Start).Err? ==> r == Err(NotFound)
    ensures FindThing(grid, Start).Ok? ==>
      var (sx, sy) := FindThing(grid, Start).value;
      && GraphOf(grid, Wall, adj)
      && |order| >= 1 && order[0] == Node(sx, sy, Start) && NoDuplicates(order)
      && (forall v :: v in order <==> v in ReachSet(adj, Node(sx, sy, Start)))
      && HopOrdered(adj, Node(sx, sy, Start), order)
      && r == Cheats(Coordinates(order), t, max)
  {
    var graph := Build(grid, Wall);
    adj := graph.adj;
    var found := FindThing(grid, Start);
    if found.Err? {
      return Err(NotFound), adj, [];
    }
    var (sx, sy) := found.value;
    var visited := graph.BfsCollect(Node(sx, sy, Start));
    order := visited;
    r := CountCheats(Coordinates(visited), t, max);
  }
}
