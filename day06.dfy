/** Day 6: a guard walks a room, turning right in front of obstacles, until
    it leaves. Part one counts the cells it visits; part two counts the cells
    where one extra obstacle would trap it in a loop. Visits are recorded as
    one bit flag per direction, so a loop shows up as entering a cell in a
    direction already recorded there. */
module Day06 {
  import opened Wrappers
  import opened Util
  import opened GridLib

  datatype Direction = Up | Down | Left | Right

  /** The walk is bounded by a step budget: a guard walking in circles never
      leaves, and part one does not look for loops. */
  datatype Error = OutOfFuel

  /** `GuardState`: a position, which may lie outside the room once the
      guard has left, and a heading. */
  datatype GuardState = GuardState(position: (int, int), direction: Direction)

  /** `VisitFlags`, a byte of bit flags. */
  type VisitFlags = bv8

  const NONE: VisitFlags := 0
  const UP: VisitFlags := 1
  const DOWN: VisitFlags := 2
  const LEFT: VisitFlags := 4
  const RIGHT: VisitFlags := 8

  // ---------------------------------------------------------------------
  // Directions

  /** The `Display` character of a direction. */
  function DirectionChar(d: Direction): char
  {
    match d
    case Up => '^'
    case Down => 'v'
    case Left => '<'
    case Right => '>'
  }

  predicate IsGuardChar(c: char)
  {
    c in "^v<>"
  }

  /** `Direction::from_char`: only the four arrow characters are accepted,
      each naming the direction it is displayed as. */
  function FromChar(ch: char): (r: Result<Direction, string>)
    ensures r.Ok? <==> IsGuardChar(ch)
    ensures r.Ok? ==> DirectionChar(r.value) == ch
  {
    match ch
    case '^' => Ok(Up)
    case 'v' => Ok(Down)
    case '<' => Ok(Left)
    case '>' => Ok(Right)
    case _ => Err("Invalid direction character")
  }

  lemma FromCharOfDirectionChar(d: Direction)
    ensures FromChar(DirectionChar(d)) == Ok(d)
  {
  }

  /** `turn_right`: Up, Right, Down, Left, Up. */
  function TurnRight(d: Direction): (r: Direction)
    ensures r != d
  {
    match d
    case Up => Right
    case Right => Down
    case Down => Left
    case Left => Up
  }

  /** n right turns. */
  function Turns(d: Direction, n: nat): Direction
  {
    if n == 0 then d else TurnRight(Turns(d, n - 1))
  }

  /** Right turns cycle through all four directions and come back after four. */
  lemma TurnRightCycle(d: Direction)
    ensures Turns(d, 4) == d
    ensures forall m, n :: 0 <= m < n < 4 ==> Turns(d, m) != Turns(d, n)
  {
    assert Turns(d, 1) == TurnRight(d);
    assert Turns(d, 2) == TurnRight(TurnRight(d));
    assert Turns(d, 3) == TurnRight(TurnRight(TurnRight(d)));
  }

  /** `as_visit_flag`: a single bit among the low four. */
  function AsVisitFlag(d: Direction): (r: VisitFlags)
    ensures r != NONE && r & (r - 1) == NONE && r & 0xF0 == NONE
  {
    match d
    case Up => UP
    case Down => DOWN
    case Left => LEFT
    case Right => RIGHT
  }

  /** Different directions have disjoint flags. */
  lemma FlagsDistinct(a: Direction, b: Direction)
    ensures a == b <==> AsVisitFlag(a) & AsVisitFlag(b) != NONE
  {
  }

  /** `VisitFlags::contains`. */
  predicate Contains(flags: VisitFlags, f: VisitFlags)
  {
    flags & f == f
  }

  predicate IsMarked(flags: VisitFlags)
  {
    flags != NONE
  }

  /** `_get_next_candidate_position`: one cell ahead. */
  function Candidate(p: (int, int), d: Direction): (r: (int, int))
    ensures Abs(r.0 - p.0) + Abs(r.1 - p.1) == 1
  {
    match d
    case Up => (p.0, p.1 - 1)
    case Right => (p.0 + 1, p.1)
    case Down => (p.0, p.1 + 1)
    case Left => (p.0 - 1, p.1)
  }

  // ---------------------------------------------------------------------
  // The room as row-major data

  predicate Room(occ: seq<bool>, w: nat, h: nat)
  {
    |occ| == Mul(h, w)
  }

  predicate Within(w: nat, h: nat, p: (int, int))
  {
    0 <= p.0 < w && 0 <= p.1 < h
  }

  /** The row-major offset of (x, y). */
  function Cell(w: nat, x: nat, y: nat): nat
  {
    Mul(y, w) + x
  }

  function OccupiedAt(occ: seq<bool>, w: nat, h: nat, p: (int, int)): bool
    requires Room(occ, w, h) && Within(w, h, p)
  {
    CellIndexBound(p.0, p.1, w, h);
    occ[Cell(w, p.0, p.1)]
  }

  /** A guard that can move takes the next cell in its direction. */
  predicate Moves(occ: seq<bool>, w: nat, h: nat, s: GuardState)
    requires Room(occ, w, h)
  {
    var c := Candidate(s.position, s.direction);
    Within(w, h, c) && !OccupiedAt(occ, w, h, c)
  }

  /** `Guard::step` on the guard's state: leave the room, turn right in
      front of an obstacle, or move one cell. The flag says whether the
      guard is still in the room. */
  function Advance(occ: seq<bool>, w: nat, h: nat, s: GuardState): (r: (GuardState, bool))
    requires Room(occ, w, h)
    ensures r.1 <==> Within(w, h, Candidate(s.position, s.direction))
  {
    var c := Candidate(s.position, s.direction);
    if !Within(w, h, c) then (GuardState(c, s.direction), false)
    else if OccupiedAt(occ, w, h, c) then (GuardState(s.position, TurnRight(s.direction)), true)
    else (GuardState(c, s.direction), true)
  }

  /** A guard on a free cell of the room stays on a free cell while it is in
      the room, and a step reports leaving exactly when the guard is now
      outside the room. */
  lemma AdvanceStaysFree(occ: seq<bool>, w: nat, h: nat, s: GuardState)
    requires Room(occ, w, h) && Within(w, h, s.position) && !OccupiedAt(occ, w, h, s.position)
    ensures Advance(occ, w, h, s).1 <==> Within(w, h, Advance(occ, w, h, s).0.position)
    ensures Advance(occ, w, h, s).1 ==> !OccupiedAt(occ, w, h, Advance(occ, w, h, s).0.position)
    ensures Advance(occ, w, h, s).0.position == s.position || Moves(occ, w, h, s) || !Advance(occ, w, h, s).1
  {
  }

  /** `visit`: OR the direction's flag into one cell. */
  function Mark(visited: seq<VisitFlags>, w: nat, h: nat, p: (int, int), d: Direction): (r: seq<VisitFlags>)
    requires |visited| == Mul(h, w) && Within(w, h, p)
    ensures |r| == |visited|
    ensures Cell(w, p.0, p.1) < |r| && Contains(r[Cell(w, p.0, p.1)], AsVisitFlag(d))
    ensures forall k :: 0 <= k < |r| ==> Contains(r[k], visited[k])
    ensures forall k :: 0 <= k < |r| && k != Cell(w, p.0, p.1) ==> r[k] == visited[k]
  {
    CellIndexBound(p.0, p.1, w, h);
    var k := Cell(w, p.0, p.1);
    visited[k := visited[k] | AsVisitFlag(d)]
  }

  /** The flags after one step: a move marks the entered cell. */
  function AdvanceMarks(occ: seq<bool>, w: nat, h: nat, s: GuardState, visited: seq<VisitFlags>): seq<VisitFlags>
    requires Room(occ, w, h) && |visited| == Mul(h, w)
  {
    if Moves(occ, w, h, s) then Mark(visited, w, h, Candidate(s.position, s.direction), s.direction)
    else visited
  }

  /** Every flagged cell is free. */
  predicate MarksFree(occ: seq<bool>, visited: seq<VisitFlags>)
    requires |occ| == |visited|
  {
    forall k :: 0 <= k < |occ| && IsMarked(visited[k]) ==> !occ[k]
  }

  lemma AdvanceMarksFree(occ: seq<bool>, w: nat, h: nat, s: GuardState, visited: seq<VisitFlags>)
    requires Room(occ, w, h) && |visited| == Mul(h, w) && MarksFree(occ, visited)
    ensures MarksFree(occ, AdvanceMarks(occ, w, h, s, visited))
  {
    if Moves(occ, w, h, s) {
      var c := Candidate(s.position, s.direction);
      CellIndexBound(c.0, c.1, w, h);
    }
  }

  /** The part-one loop `while is_in_room { is_in_room = guard.step() }`
      with a budget of `fuel` steps: the flags when the guard leaves, or
      None when the budget runs out first. */
  function Walk(occ: seq<bool>, w: nat, h: nat, s: GuardState, visited: seq<VisitFlags>, fuel: nat): (r: Option<seq<VisitFlags>>)
    requires Room(occ, w, h) && |visited| == Mul(h, w)
    ensures r.Some? ==> |r.value| == |visited|
    ensures r.Some? ==> forall k :: 0 <= k < |visited| ==> Contains(r.value[k], visited[k])
    decreases fuel
  {
    if fuel == 0 then None
    else
      var next := Advance(occ, w, h, s);
      var marks := AdvanceMarks(occ, w, h, s, visited);
      if next.1 then
        var r := Walk(occ, w, h, next.0, marks, fuel - 1);
        ContainsTransitive(r, marks, visited);
        r
      else Some(marks)
  }

  /** One step of the walk. */
  lemma WalkUnfold(occ: seq<bool>, w: nat, h: nat, s: GuardState, visited: seq<VisitFlags>, fuel: nat)
    requires Room(occ, w, h) && |visited| == Mul(h, w) && fuel > 0
    ensures Advance(occ, w, h, s).1 ==>
      Walk(occ, w, h, s, visited, fuel) == Walk(occ, w, h, Advance(occ, w, h, s).0, AdvanceMarks(occ, w, h, s, visited), fuel - 1)
    ensures !Advance(occ, w, h, s).1 ==> Walk(occ, w, h, s, visited, fuel) == Some(AdvanceMarks(occ, w, h, s, visited))
  {
  }

  lemma ContainsTransitive(r: Option<seq<VisitFlags>>, b: seq<VisitFlags>, a: seq<VisitFlags>)
    requires |b| == |a| && forall k :: 0 <= k < |a| ==> Contains(b[k], a[k])
    requires r.Some? ==> |r.value| == |b| && forall k :: 0 <= k < |b| ==> Contains(r.value[k], b[k])
    ensures r.Some? ==> forall k :: 0 <= k < |a| ==> Contains(r.value[k], a[k])
  {
  }

  /** Walking never flags an obstacle. */
  lemma {:induction false} WalkMarksFree(occ: seq<bool>, w: nat, h: nat, s: GuardState, visited: seq<VisitFlags>, fuel: nat)
    requires Room(occ, w, h) && |visited| == Mul(h, w) && MarksFree(occ, visited)
    ensures Walk(occ, w, h, s, visited, fuel).Some? ==> MarksFree(occ, Walk(occ, w, h, s, visited, fuel).value)
    decreases fuel
  {
    if fuel > 0 {
      AdvanceMarksFree(occ, w, h, s, visited);
      if Advance(occ, w, h, s).1 {
        WalkMarksFree(occ, w, h, Advance(occ, w, h, s).0, AdvanceMarks(occ, w, h, s, visited), fuel - 1);
      }
    }
  }

  /** The part-two loop of `check_if_would_loop_if_obstacle` with a budget
      of `fuel` peeks: None when the guard would leave, the cell when the
      guard is about to enter it in a direction already flagged there. */
  function LoopCheck(occ: seq<bool>, w: nat, h: nat, s: GuardState, visited: seq<VisitFlags>, fuel: nat): Result<Option<(nat, nat)>, Error>
    requires Room(occ, w, h) && |visited| == Mul(h, w)
    decreases fuel
  {
    if fuel == 0 then Err(OutOfFuel)
    else
      var c := Candidate(s.position, s.direction);
      var d := Advance(occ, w, h, s).0.direction;
      if !Within(w, h, c) then Ok(None)
      else if (CellIndexBound(c.0, c.1, w, h); Contains(visited[Cell(w, c.0, c.1)], AsVisitFlag(d))) then Ok(Some((c.0, c.1)))
      else LoopCheck(occ, w, h, Advance(occ, w, h, s).0, AdvanceMarks(occ, w, h, s, visited), fuel - 1)
  }

  /** One round of the loop check. */
  lemma LoopCheckUnfold(occ: seq<bool>, w: nat, h: nat, s: GuardState, visited: seq<VisitFlags>, fuel: nat)
    requires Room(occ, w, h) && |visited| == Mul(h, w) && fuel > 0
    ensures var c := Candidate(s.position, s.direction);
      !Within(w, h, c) ==> LoopCheck(occ, w, h, s, visited, fuel) == Ok(None)
    ensures var c := Candidate(s.position, s.direction);
      var d := Advance(occ, w, h, s).0.direction;
      Within(w, h, c) ==> (Cell(w, c.0, c.1) < |visited| &&
        LoopCheck(occ, w, h, s, visited, fuel) ==
          if Contains(visited[Cell(w, c.0, c.1)], AsVisitFlag(d)) then Ok(Some((c.0, c.1)))
          else LoopCheck(occ, w, h, Advance(occ, w, h, s).0, AdvanceMarks(occ, w, h, s, visited), fuel - 1))
  {
    var c := Candidate(s.position, s.direction);
    if Within(w, h, c) {
      CellIndexBound(c.0, c.1, w, h);
    }
  }

  /** When the loop check says the guard leaves, the plain walk with the
      same budget does end with the guard outside. */
  lemma {:induction false} LoopCheckNoneLeaves(occ: seq<bool>, w: nat, h: nat, s: GuardState, visited: seq<VisitFlags>, fuel: nat)
    requires Room(occ, w, h) && |visited| == Mul(h, w)
    requires LoopCheck(occ, w, h, s, visited, fuel) == Ok(None)
    ensures Walk(occ, w, h, s, visited, fuel).Some?
    decreases fuel
  {
    var c := Candidate(s.position, s.direction);
    if Within(w, h, c) {
      LoopCheckNoneLeaves(occ, w, h, Advance(occ, w, h, s).0, AdvanceMarks(occ, w, h, s, visited), fuel - 1);
    }
  }

  /** A reported cell is a free cell of the room that the guard is about to
      enter: obstacles carry no flags, so the check made in front of an
      obstacle never fires. */
  lemma {:induction false} LoopCheckFindsFreeCell(occ: seq<bool>, w: nat, h: nat, s: GuardState, visited: seq<VisitFlags>, fuel: nat)
    requires Room(occ, w, h) && |visited| == Mul(h, w) && MarksFree(occ, visited)
    ensures LoopCheck(occ, w, h, s, visited, fuel).Ok? && LoopCheck(occ, w, h, s, visited, fuel).value.Some? ==>
      var p := LoopCheck(occ, w, h, s, visited, fuel).value.value;
      Within(w, h, p) && !OccupiedAt(occ, w, h, p)
    decreases fuel
  {
    if fuel > 0 {
      var c := Candidate(s.position, s.direction);
      if Within(w, h, c) {
        CellIndexBound(c.0, c.1, w, h);
        var d := Advance(occ, w, h, s).0.direction;
        assert Contains(visited[Cell(w, c.0, c.1)], AsVisitFlag(d)) ==> IsMarked(visited[Cell(w, c.0, c.1)]);
        AdvanceMarksFree(occ, w, h, s, visited);
        LoopCheckFindsFreeCell(occ, w, h, Advance(occ, w, h, s).0, AdvanceMarks(occ, w, h, s, visited), fuel - 1);
      }
    }
  }

  // ---------------------------------------------------------------------
  // Parsing

  /** `from_str` reads the width from the first line; the model asks that no
      later line be longer. */
  predicate WellShaped(lines: seq<string>)
  {
    |lines| > 0 && forall y :: 0 <= y < |lines| ==> |lines[y]| <= |lines[0]|
  }

  /** A cell is occupied exactly when its character is `#`; cells past the
      end of a short line are free. */
  predicate CharOccupied(lines: seq<string>, x: nat, y: nat)
    requires y < |lines|
  {
    x < |lines[y]| && lines[y][x] == '#'
  }

  /** Whether the cell at row-major index k is occupied. */
  predicate OccupiedIndex(lines: seq<string>, k: nat)
    requires WellShaped(lines) && |lines[0]| > 0 && k < Mul(|lines|, |lines[0]|)
  {
    IdxToXyInGrid(|lines[0]|, |lines|, k);
    var p := IdxToXy(|lines[0]|, k);
    CharOccupied(lines, p.0, p.1)
  }

  /** The occupancy `from_str` builds, in row-major order. */
  function OccupancyOf(lines: seq<string>): (r: seq<bool>)
    requires WellShaped(lines)
    ensures |r| == Mul(|lines|, |lines[0]|)
  {
    var w, h := |lines[0]|, |lines|;
    if w == 0 then
      MulIsProduct(h, w);
      []
    else
      seq(Mul(h, w), k requires 0 <= k < Mul(h, w) => OccupiedIndex(lines, k))
  }

  lemma OccupancyOfAt(lines: seq<string>, x: nat, y: nat)
    requires WellShaped(lines) && x < |lines[0]| && y < |lines|
    ensures Cell(|lines[0]|, x, y) < |OccupancyOf(lines)|
    ensures OccupancyOf(lines)[Cell(|lines[0]|, x, y)] == CharOccupied(lines, x, y)
  {
    var w := |lines[0]|;
    var k := Cell(w, x, y);
    assert k < Mul(|lines|, w) by {
      CellIndexBound(x, y, w, |lines|);
    }
    assert OccupiedIndex(lines, k) == CharOccupied(lines, x, y) by {
      IdxToXyOfOffset(w, x, y);
    }
    assert OccupancyOf(lines)[k] == OccupiedIndex(lines, k);
  }

  /** The last guard character strictly before column x of row y, in
      row-major order: `from_str` keeps overwriting its guard. */
  function GuardBefore(lines: seq<string>, y: nat, x: nat): Option<GuardState>
    requires y < |lines| ==> x <= |lines[y]|
    requires y >= |lines| ==> y == |lines| && x == 0
    decreases y, x
  {
    if x > 0 then
      if IsGuardChar(lines[y][x - 1]) then Some(GuardState((x - 1, y), FromChar(lines[y][x - 1]).value))
      else GuardBefore(lines, y, x - 1)
    else if y == 0 then None
    else GuardBefore(lines, y - 1, |lines[y - 1]|)
  }

  function GuardStart(lines: seq<string>): Option<GuardState>
  {
    GuardBefore(lines, |lines|, 0)
  }

  predicate Earlier(a: (int, int), b: (int, int))
  {
    a.1 < b.1 || (a.1 == b.1 && a.0 < b.0)
  }

  /** GuardBefore finds a guard character exactly when there is one before
      (x, y), and then the last one. */
  lemma {:induction false} GuardBeforeMeaning(lines: seq<string>, y: nat, x: nat)
    requires y < |lines| ==> x <= |lines[y]|
    requires y >= |lines| ==> y == |lines| && x == 0
    ensures GuardBefore(lines, y, x).None? <==>
      forall b, a :: 0 <= b < |lines| && 0 <= a < |lines[b]| && Earlier((a, b), (x, y)) ==> !IsGuardChar(lines[b][a])
    ensures GuardBefore(lines, y, x).Some? ==>
      var g := GuardBefore(lines, y, x).value;
      0 <= g.position.1 < |lines| && 0 <= g.position.0 < |lines[g.position.1]| &&
      Earlier(g.position, (x, y)) &&
      FromChar(lines[g.position.1][g.position.0]) == Ok(g.direction) &&
      forall b, a :: 0 <= b < |lines| && 0 <= a < |lines[b]| && Earlier(g.position, (a, b)) && Earlier((a, b), (x, y)) ==> !IsGuardChar(lines[b][a])
    decreases y, x
  {
    if x > 0 {
      if !IsGuardChar(lines[y][x - 1]) {
        GuardBeforeMeaning(lines, y, x - 1);
      }
    } else if y > 0 {
      GuardBeforeMeaning(lines, y - 1, |lines[y - 1]|);
    }
  }

  /** The guard `from_str` records: the last guard character of the input,
      None when there is none. */
  lemma GuardStartMeaning(lines: seq<string>)
    ensures GuardStart(lines).None? <==>
      forall b, a :: 0 <= b < |lines| && 0 <= a < |lines[b]| ==> !IsGuardChar(lines[b][a])
    ensures GuardStart(lines).Some? ==>
      var g := GuardStart(lines).value;
      0 <= g.position.1 < |lines| && 0 <= g.position.0 < |lines[g.position.1]| &&
      FromChar(lines[g.position.1][g.position.0]) == Ok(g.direction) &&
      forall b, a :: 0 <= b < |lines| && 0 <= a < |lines[b]| && Earlier(g.position, (a, b)) ==> !IsGuardChar(lines[b][a])
  {
    GuardBeforeMeaning(lines, |lines|, 0);
  }

  /** The start cell holds the guard's character, so it is free. */
  lemma GuardStartFree(lines: seq<string>)
    requires WellShaped(lines) && GuardStart(lines).Some?
    ensures Within(|lines[0]|, |lines|, GuardStart(lines).value.position)
    ensures !OccupiedAt(OccupancyOf(lines), |lines[0]|, |lines|, GuardStart(lines).value.position)
  {
    GuardStartMeaning(lines);
    var p := GuardStart(lines).value.position;
    OccupancyOfAt(lines, p.0, p.1);
  }

  function NoMarks(w: nat, h: nat): (r: seq<VisitFlags>)
    ensures |r| == Mul(h, w) && forall k :: 0 <= k < |r| ==> r[k] == NONE
  {
    seq(Mul(h, w), _ => NONE)
  }

  // ---------------------------------------------------------------------
  // The puzzle answers

  /** Part one: the number of flagged cells once the guard has left, 0
      without a guard, None when the budget runs out. */
  function VisitedCells(lines: seq<string>, fuel: nat): Option<nat>
    requires WellShaped(lines)
  {
    var w, h := |lines[0]|, |lines|;
    match GuardStart(lines)
    case None => Some(0)
    case Some(g) =>
      GuardStartFree(lines);
      match Walk(OccupancyOf(lines), w, h, g, Mark(NoMarks(w, h), w, h, g.position, g.direction), fuel)
      case None => None
      case Some(v) => Some(CountIf(v, IsMarked))
  }

  lemma {:induction false} CountIfBound<T>(s: seq<T>, p: T -> bool)
    ensures CountIf(s, p) <= |s|
  {
    if |s| > 0 {
      CountIfBound(s[..|s| - 1], p);
    }
  }

  lemma {:induction false} CountIfPositive<T>(s: seq<T>, p: T -> bool, k: nat)
    requires k < |s| && p(s[k])
    ensures CountIf(s, p) >= 1
  {
    if k < |s| - 1 {
      CountIfPositive(s[..|s| - 1], p, k);
    }
  }

  /** With a guard, the guard's own cell is counted, and no count exceeds
      the number of cells of the room; every counted cell is free. */
  lemma VisitedCellsBounds(lines: seq<string>, fuel: nat)
    requires WellShaped(lines) && GuardStart(lines).Some? && VisitedCells(lines, fuel).Some?
    ensures 1 <= VisitedCells(lines, fuel).value <= Mul(|lines|, |lines[0]|)
  {
    var w, h := |lines[0]|, |lines|;
    var g := GuardStart(lines).value;
    GuardStartFree(lines);
    var v0 := Mark(NoMarks(w, h), w, h, g.position, g.direction);
    var v := Walk(OccupancyOf(lines), w, h, g, v0, fuel).value;
    var k := Cell(w, g.position.0, g.position.1);
    assert Contains(v[k], v0[k]);
    CountIfPositive(v, IsMarked, k);
    CountIfBound(v, IsMarked);
  }

  /** Whether an obstacle at (x, y) traps the guard: never the start cell
      and never a cell that is already occupied. */
  function LoopPointAt(occ: seq<bool>, w: nat, h: nat, start: GuardState, fuel: nat, x: nat, y: nat): Result<bool, Error>
    requires Room(occ, w, h) && x < w && y < h && Within(w, h, start.position)
  {
    if (x, y) == start.position || OccupiedAt(occ, w, h, (x, y)) then Ok(false)
    else
      CellIndexBound(x, y, w, h);
      match LoopCheck(occ[Cell(w, x, y) := true], w, h, start, Mark(NoMarks(w, h), w, h, start.position, start.direction), fuel)
      case Ok(found) => Ok(found.Some?)
      case Err(e) => Err(e)
  }

  /** Loop points in rows [0, n) of column x. */
  function ColumnCount(occ: seq<bool>, w: nat, h: nat, start: GuardState, fuel: nat, x: nat, n: nat): Result<nat, Error>
    requires Room(occ, w, h) && x < w && n <= h && Within(w, h, start.position)
  {
    if n == 0 then Ok(0)
    else
      match ColumnCount(occ, w, h, start, fuel, x, n - 1)
      case Err(e) => Err(e)
      case Ok(c) =>
        match LoopPointAt(occ, w, h, start, fuel, x, n - 1)
        case Err(e) => Err(e)
        case Ok(b) => Ok(if b then c + 1 else c)
  }

  /** Loop points in columns [0, m). */
  function GridCount(occ: seq<bool>, w: nat, h: nat, start: GuardState, fuel: nat, m: nat): Result<nat, Error>
    requires Room(occ, w, h) && m <= w && Within(w, h, start.position)
  {
    if m == 0 then Ok(0)
    else
      match GridCount(occ, w, h, start, fuel, m - 1)
      case Err(e) => Err(e)
      case Ok(c) =>
        match ColumnCount(occ, w, h, start, fuel, m - 1, h)
        case Err(e) => Err(e)
        case Ok(d) => Ok(c + d)
  }

  /** Part two: loop points over the whole room, 0 without a guard. */
  function LoopPoints(lines: seq<string>, fuel: nat): Result<nat, Error>
    requires WellShaped(lines)
  {
    var w, h := |lines[0]|, |lines|;
    match GuardStart(lines)
    case None => Ok(0)
    case Some(g) =>
      GuardStartFree(lines);
      GridCount(OccupancyOf(lines), w, h, g, fuel, w)
  }

  lemma {:induction false} ColumnCountBound(occ: seq<bool>, w: nat, h: nat, start: GuardState, fuel: nat, x: nat, n: nat)
    requires Room(occ, w, h) && x < w && n <= h && Within(w, h, start.position)
    ensures ColumnCount(occ, w, h, start, fuel, x, n).Ok? ==> ColumnCount(occ, w, h, start, fuel, x, n).value <= n
    ensures ColumnCount(occ, w, h, start, fuel, x, n).Ok? && x == start.position.0 && start.position.1 < n ==>
      ColumnCount(occ, w, h, start, fuel, x, n).value < n
    decreases n
  {
    if n > 0 {
      ColumnCountBound(occ, w, h, start, fuel, x, n - 1);
    }
  }

  lemma {:induction false} GridCountBound(occ: seq<bool>, w: nat, h: nat, start: GuardState, fuel: nat, m: nat)
    requires Room(occ, w, h) && m <= w && Within(w, h, start.position)
    ensures GridCount(occ, w, h, start, fuel, m).Ok? ==> GridCount(occ, w, h, start, fuel, m).value <= Mul(m, h)
    ensures GridCount(occ, w, h, start, fuel, m).Ok? && start.position.0 < m ==>
      GridCount(occ, w, h, start, fuel, m).value < Mul(m, h)
    decreases m
  {
    if m > 0 {
      GridCountBound(occ, w, h, start, fuel, m - 1);
      ColumnCountBound(occ, w, h, start, fuel, m - 1, h);
    }
  }

  /** Part two never counts the start cell, so it finds fewer loop points
      than the room has cells. */
  lemma LoopPointsBound(lines: seq<string>, fuel: nat)
    requires WellShaped(lines) && LoopPoints(lines, fuel).Ok?
    ensures LoopPoints(lines, fuel).value < Mul(|lines|, |lines[0]|) || GuardStart(lines).None?
  {
    var w, h := |lines[0]|, |lines|;
    if GuardStart(lines).Some? {
      GuardStartFree(lines);
      GridCountBound(OccupancyOf(lines), w, h, GuardStart(lines).value, fuel, w);
      MulIsProduct(w, h);
      MulIsProduct(h, w);
    }
  }

  // ---------------------------------------------------------------------
  // The room and the guard

  /** `Map`: occupancy and visit flags, two grids of the same extents. */
  class Map {
    const occupancy: Grid<bool>
    const visited: Grid<VisitFlags>

    ghost predicate Valid()
      reads this, occupancy, visited
    {
      occupancy as object != visited as object &&
      occupancy.Valid() && visited.Valid() &&
      visited.width == occupancy.width && visited.height == occupancy.height
    }

    constructor (occupancy: Grid<bool>, visited: Grid<VisitFlags>)
      ensures this.occupancy == occupancy && this.visited == visited
    {
      this.occupancy := occupancy;
      this.visited := visited;
    }

    function Width(): nat
      reads this
    {
      occupancy.width
    }

    function Height(): nat
      reads this
    {
      occupancy.height
    }

    /** `is_within_extents` over signed coordinates. */
    function IsWithinExtents(x: int, y: int): (r: bool)
      reads this, occupancy
      ensures r <==> Within(Width(), Height(), (x, y))
    {
      occupancy.IsWithinExtents(x, y)
    }

    function IsOccupied(x: nat, y: nat): (r: bool)
      reads this, occupancy, visited
      requires Valid() && x < Width() && y < Height()
      ensures r == OccupiedAt(occupancy.data, Width(), Height(), (x, y))
    {
      occupancy.InExtentsHasOffset(x, y);
      occupancy.At(x, y)
    }

    /** `is_visited`: some flag is set. */
    function IsVisited(x: nat, y: nat): bool
      reads this, occupancy, visited
      requires Valid() && x < Width() && y < Height()
    {
      visited.InExtentsHasOffset(x, y);
      IsMarked(visited.At(x, y))
    }

    /** `is_visited_in_direction`. */
    function IsVisitedInDirection(x: nat, y: nat, dir: Direction): (r: bool)
      reads this, occupancy, visited
      requires Valid() && x < Width() && y < Height()
      ensures r ==> IsVisited(x, y)
    {
      visited.InExtentsHasOffset(x, y);
      Contains(visited.At(x, y), AsVisitFlag(dir))
    }

    /** `visit`: OR the direction's flag into the cell. */
    method Visit(x: nat, y: nat, dir: Direction)
      requires Valid() && x < Width() && y < Height()
      modifies visited
      ensures Valid()
      ensures visited.data == Mark(old(visited.data), Width(), Height(), (x, y), dir)
    {
      visited.InExtentsHasOffset(x, y);
      visited.Set(x, y, visited.At(x, y) | AsVisitFlag(dir));
    }

    /** `add_obstacle`. */
    method AddObstacle(x: nat, y: nat)
      requires Valid() && x < Width() && y < Height()
      modifies occupancy
      ensures Valid()
      ensures Cell(Width(), x, y) < |old(occupancy.data)|
      ensures occupancy.data == old(occupancy.data)[Cell(Width(), x, y) := true]
    {
      occupancy.InExtentsHasOffset(x, y);
      occupancy.Set(x, y, true);
    }

    /** `Clone`: fresh grids with the same contents. */
    method Clone() returns (m: Map)
      requires Valid()
      ensures fresh(m) && fresh(m.occupancy) && fresh(m.visited) && m.Valid()
      ensures m.occupancy.data == occupancy.data && m.visited.data == visited.data
      ensures m.Width() == Width() && m.Height() == Height()
    {
      var o := occupancy.Copy();
      var v := visited.Copy();
      m := new Map(o, v);
    }

    /** `Map::from_str`: the occupancy of the lines, no flags yet, and the
        last guard character as the start. */
    static method FromStr(lines: seq<string>) returns (room: Map, guard: Option<GuardState>)
      requires WellShaped(lines)
      ensures fresh(room) && fresh(room.occupancy) && fresh(room.visited) && room.Valid()
      ensures room.Width() == |lines[0]| && room.Height() == |lines|
      ensures room.occupancy.data == OccupancyOf(lines)
      ensures room.visited.data == NoMarks(|lines[0]|, |lines|)
      ensures guard == GuardStart(lines)
    {
      var height, width := |lines|, |lines[0]|;
      var occupancy := new Grid.New(width, height, false);
      MulIsProduct(height, width);
      guard := None;
      for y := 0 to height
        invariant occupancy.Valid() && occupancy.width == width && occupancy.height == height
        invariant forall k :: 0 <= k < |occupancy.data| ==> occupancy.data[k] == (k < Cell(width, 0, y) && OccupancyOf(lines)[k])
        invariant guard == GuardBefore(lines, y, 0)
      {
        guard := ReadRow(lines, y, occupancy, guard);
        ShortLineTail(lines, y, occupancy.data);
      }
      var visited := new Grid.New(width, height, NONE);
      room := new Map(occupancy, visited);
    }
  }

  /** The inner loop of `from_str` over row y: mark `#` cells occupied and
      remember the last guard character. */
  method ReadRow(lines: seq<string>, y: nat, occupancy: Grid<bool>, guard: Option<GuardState>) returns (found: Option<GuardState>)
    requires WellShaped(lines) && y < |lines|
    requires occupancy.Valid() && occupancy.width == |lines[0]| && occupancy.height == |lines|
    requires forall k :: 0 <= k < |occupancy.data| ==> occupancy.data[k] == (k < Cell(|lines[0]|, 0, y) && OccupancyOf(lines)[k])
    requires guard == GuardBefore(lines, y, 0)
    modifies occupancy
    ensures occupancy.Valid()
    ensures forall k :: 0 <= k < |occupancy.data| ==> occupancy.data[k] == (k < Cell(|lines[0]|, |lines[y]|, y) && OccupancyOf(lines)[k])
    ensures found == GuardBefore(lines, y, |lines[y]|)
  {
    var width := |lines[0]|;
    found := guard;
    for x := 0 to |lines[y]|
      invariant occupancy.Valid()
      invariant forall k :: 0 <= k < |occupancy.data| ==> occupancy.data[k] == (k < Cell(width, x, y) && OccupancyOf(lines)[k])
      invariant found == GuardBefore(lines, y, x)
    {
      var ch := lines[y][x];
      OccupancyOfAt(lines, x, y);
      ghost var before := occupancy.data;
      if IsGuardChar(ch) {
        found := Some(GuardState((x, y), FromChar(ch).value));
      } else {
        occupancy.InExtentsHasOffset(x, y);
        occupancy.Set(x, y, ch == '#');
      }
      ReadCellStep(lines, x, y, before, occupancy.data);
    }
  }

  /** Reading the cell (x, y) into the occupancy extends the filled prefix
      by that one cell. */
  lemma ReadCellStep(lines: seq<string>, x: nat, y: nat, before: seq<bool>, after: seq<bool>)
    requires WellShaped(lines) && y < |lines| && x < |lines[y]|
    requires |before| == |after| == |OccupancyOf(lines)| && Cell(|lines[0]|, x, y) < |after|
    requires forall k :: 0 <= k < |before| ==> before[k] == (k < Cell(|lines[0]|, x, y) && OccupancyOf(lines)[k])
    requires forall k :: 0 <= k < |after| && k != Cell(|lines[0]|, x, y) ==> after[k] == before[k]
    requires after[Cell(|lines[0]|, x, y)] == OccupancyOf(lines)[Cell(|lines[0]|, x, y)]
    ensures forall k :: 0 <= k < |after| ==> after[k] == (k < Cell(|lines[0]|, x + 1, y) && OccupancyOf(lines)[k])
  {
  }

  /** Past the end of a short line, the occupancy is free, so finishing the
      row there completes it. */
  lemma ShortLineTail(lines: seq<string>, y: nat, data: seq<bool>)
    requires WellShaped(lines) && y < |lines| && |data| == Mul(|lines|, |lines[0]|)
    requires forall k :: 0 <= k < |data| ==> data[k] == (k < Cell(|lines[0]|, |lines[y]|, y) && OccupancyOf(lines)[k])
    ensures forall k :: 0 <= k < |data| ==> data[k] == (k < Cell(|lines[0]|, 0, y + 1) && OccupancyOf(lines)[k])
  {
    var w := |lines[0]|;
    forall k | 0 <= k < |data|
      ensures data[k] == (k < Cell(w, 0, y + 1) && OccupancyOf(lines)[k])
    {
      if Cell(w, |lines[y]|, y) <= k < Cell(w, 0, y + 1) {
        var x := k - Mul(y, w);
        OccupancyOfAt(lines, x, y);
      }
    }
  }

  /** `Guard`: a position, a heading, and the room it walks on. */
  class Guard {
    var i: int
    var j: int
    var direction: Direction
    const room: Map

    function State(): GuardState
      reads this
    {
      GuardState((i, j), direction)
    }

    /** `Guard::new`: flags the start cell with the start direction. */
    constructor (i: int, j: int, room: Map, direction: Direction)
      requires room.Valid() && room.IsWithinExtents(i, j)
      modifies room.visited
      ensures this.room == room && State() == GuardState((i, j), direction)
      ensures room.Valid()
      ensures room.visited.data == Mark(old(room.visited.data), room.Width(), room.Height(), (i, j), direction)
    {
      this.i := i;
      this.j := j;
      this.room := room;
      this.direction := direction;
      new;
      room.Visit(i, j, direction);
    }

    /** `peek_step`: the cell ahead and the heading the next step leaves
        the guard with. */
    function PeekStep(): (r: (int, int, Direction))
      reads this, room, room.occupancy, room.visited
      requires room.Valid()
      ensures (r.0, r.1) == Candidate(State().position, direction)
      ensures r.2 == Advance(room.occupancy.data, room.Width(), room.Height(), State()).0.direction
    {
      var (x, y) := Candidate((i, j), direction);
      if !room.IsWithinExtents(x, y) then (x, y, direction)
      else if room.IsOccupied(x, y) then (x, y, TurnRight(direction))
      else (x, y, direction)
    }

    /** `Guard::step`: one turn or one move; false once the guard has left. */
    method Step() returns (inRoom: bool)
      requires room.Valid()
      modifies this, room.visited
      ensures room.Valid()
      ensures (State(), inRoom) == Advance(room.occupancy.data, room.Width(), room.Height(), old(State()))
      ensures room.visited.data == AdvanceMarks(room.occupancy.data, room.Width(), room.Height(), old(State()), old(room.visited.data))
    {
      var (x, y) := Candidate((i, j), direction);
      if !room.IsWithinExtents(x, y) {
        i, j := x, y;
        return false;
      }
      if room.IsOccupied(x, y) {
        direction := TurnRight(direction);
        return true;
      } else {
        i, j := x, y;
        room.Visit(x, y, direction);
        return true;
      }
    }
  }

  /** `part1`: walk the guard out of the room and count flagged cells. */
  method Part1(lines: seq<string>, fuel: nat) returns (r: Option<nat>)
    requires WellShaped(lines)
    ensures r == VisitedCells(lines, fuel)
  {
    var room, start := Map.FromStr(lines);
    if start.None? {
      return Some(0);
    }
    var s := start.value;
    GuardStartFree(lines);
    var guard := new Guard(s.position.0, s.position.1, room, s.direction);
    ghost var occ, w, h := room.occupancy.data, room.Width(), room.Height();
    ghost var walk := Walk(occ, w, h, s, room.visited.data, fuel);
    var isInRoom := true;
    var left := fuel;
    while isInRoom
      invariant fresh(room.visited) && guard.room == room && room.Valid()
      invariant room.occupancy.data == occ && room.Width() == w && room.Height() == h
      invariant isInRoom ==> Walk(occ, w, h, guard.State(), room.visited.data, left) == walk
      invariant !isInRoom ==> walk == Some(room.visited.data)
      decreases left, isInRoom
    {
      if left == 0 {
        return None;
      }
      ghost var before, marks := guard.State(), room.visited.data;
      isInRoom := guard.Step();
      WalkUnfold(occ, w, h, before, marks, left);
      left := left - 1;
    }
    return Some(CountIf(room.visited.data, IsMarked));
  }

  /** `check_if_would_loop_if_obstacle`: on a copy of the room with one more
      obstacle, peek ahead until the guard would leave or re-enter a
      flagged (cell, direction) pair. The given room is not changed. */
  method CheckIfWouldLoopIfObstacle(x: nat, y: nat, room: Map, start: GuardState, fuel: nat) returns (r: Result<Option<(nat, nat)>, Error>)
    requires room.Valid() && x < room.Width() && y < room.Height()
    requires Within(room.Width(), room.Height(), start.position)
    ensures Cell(room.Width(), x, y) < |room.occupancy.data|
    ensures r == LoopCheck(room.occupancy.data[Cell(room.Width(), x, y) := true], room.Width(), room.Height(), start,
                           Mark(room.visited.data, room.Width(), room.Height(), start.position, start.direction), fuel)
  {
    CellIndexBound(x, y, room.Width(), room.Height());
    var m := room.Clone();
    m.AddObstacle(x, y);
    var guard := new Guard(start.position.0, start.position.1, m, start.direction);
    ghost var occ, w, h := m.occupancy.data, m.Width(), m.Height();
    ghost var check := LoopCheck(occ, w, h, start, m.visited.data, fuel);
    var left := fuel;
    while left > 0
      invariant fresh(m.visited) && guard.room == m && m.Valid()
      invariant m.occupancy.data == occ && m.Width() == w && m.Height() == h
      invariant LoopCheck(occ, w, h, guard.State(), m.visited.data, left) == check
    {
      var verdict := PeekRound(guard, m, occ, w, h, left, check);
      if verdict.Some? {
        return verdict.value;
      }
      left := left - 1;
    }
    return Err(OutOfFuel);
  }

  /** One round of that loop: the verdict when the guard would leave or
      enter a cell in a direction already flagged there, else one step. */
  method PeekRound(guard: Guard, m: Map, ghost occ: seq<bool>, ghost w: nat, ghost h: nat, left: nat,
                   ghost check: Result<Option<(nat, nat)>, Error>)
    returns (verdict: Option<Result<Option<(nat, nat)>, Error>>)
    requires guard.room == m && m.Valid() && m.occupancy.data == occ && m.Width() == w && m.Height() == h && left > 0
    requires LoopCheck(occ, w, h, guard.State(), m.visited.data, left) == check
    modifies guard, m.visited
    ensures m.Valid() && m.occupancy.data == occ
    ensures verdict.Some? ==> verdict.value == check
    ensures verdict.None? ==> LoopCheck(occ, w, h, guard.State(), m.visited.data, left - 1) == check
  {
    var (xn, yn, dn) := guard.PeekStep();
    if !m.IsWithinExtents(xn, yn) {
      LoopCheckUnfold(occ, w, h, guard.State(), m.visited.data, left);
      verdict := Some(Ok(None));
    } else {
      VisitedFlagAt(m, xn, yn, dn);
      if m.IsVisitedInDirection(xn, yn, dn) {
        LoopCheckUnfold(occ, w, h, guard.State(), m.visited.data, left);
        verdict := Some(Ok(Some((xn, yn))));
      } else {
        ghost var before, marks := guard.State(), m.visited.data;
        var ignored := guard.Step();
        LoopCheckContinue(occ, w, h, before, marks, guard.State(), m.visited.data, left);
        verdict := None;
      }
    }
  }

  /** `is_visited_in_direction` reads the flags of the cell's offset. */
  lemma VisitedFlagAt(m: Map, x: nat, y: nat, dir: Direction)
    requires m.Valid() && x < m.Width() && y < m.Height()
    ensures Cell(m.Width(), x, y) < |m.visited.data|
    ensures m.IsVisitedInDirection(x, y, dir) == Contains(m.visited.data[Cell(m.Width(), x, y)], AsVisitFlag(dir))
  {
    m.visited.InExtentsHasOffset(x, y);
  }

  /** A round of the loop check that neither leaves nor finds a flag goes
      on from the advanced state. */
  lemma LoopCheckContinue(occ: seq<bool>, w: nat, h: nat, s: GuardState, visited: seq<VisitFlags>,
                          s': GuardState, visited': seq<VisitFlags>, fuel: nat)
    requires Room(occ, w, h) && |visited| == Mul(h, w) && fuel > 0
    requires var c := Candidate(s.position, s.direction);
      Within(w, h, c) && Cell(w, c.0, c.1) < |visited| &&
      !Contains(visited[Cell(w, c.0, c.1)], AsVisitFlag(Advance(occ, w, h, s).0.direction))
    requires s' == Advance(occ, w, h, s).0 && visited' == AdvanceMarks(occ, w, h, s, visited)
    ensures |visited'| == Mul(h, w)
    ensures LoopCheck(occ, w, h, s, visited, fuel) == LoopCheck(occ, w, h, s', visited', fuel - 1)
  {
    LoopCheckUnfold(occ, w, h, s, visited, fuel);
  }

  /** The filters and the `filter_map` of `part2` for one cell: skip the
      start and occupied cells, otherwise run the loop check. */
  method IsLoopPoint(x: nat, y: nat, room: Map, s: GuardState, fuel: nat) returns (r: Result<bool, Error>)
    requires room.Valid() && x < room.Width() && y < room.Height()
    requires Within(room.Width(), room.Height(), s.position)
    requires room.visited.data == NoMarks(room.Width(), room.Height())
    ensures r == LoopPointAt(room.occupancy.data, room.Width(), room.Height(), s, fuel, x, y)
  {
    if (x, y) == s.position || room.IsOccupied(x, y) {
      return Ok(false);
    }
    var found := CheckIfWouldLoopIfObstacle(x, y, room, s, fuel);
    if found.Err? {
      return Err(found.error);
    }
    return Ok(found.value.Some?);
  }

  /** The cells of column x that trap the guard, row by row. */
  method ColumnLoopPoints(x: nat, room: Map, s: GuardState, fuel: nat) returns (r: Result<nat, Error>)
    requires room.Valid() && x < room.Width()
    requires Within(room.Width(), room.Height(), s.position)
    requires room.visited.data == NoMarks(room.Width(), room.Height())
    ensures r == ColumnCount(room.occupancy.data, room.Width(), room.Height(), s, fuel, x, room.Height())
  {
    var w, h := room.Width(), room.Height();
    ghost var occ := room.occupancy.data;
    var column := 0;
    for y := 0 to h
      invariant ColumnCount(occ, w, h, s, fuel, x, y) == Ok(column)
    {
      var point := IsLoopPoint(x, y, room, s, fuel);
      ColumnUnfold(occ, w, h, s, fuel, x, y);
      if point.Err? {
        ColumnFails(occ, w, h, s, fuel, x, y + 1);
        ghost var failed := ColumnCount(occ, w, h, s, fuel, x, h);
        assert failed.Err? && failed.error == OutOfFuel;
        return Err(OutOfFuel);
      }
      if point.value {
        column := column + 1;
      }
    }
    return Ok(column);
  }

  /** `part2`: try an obstacle on every free cell but the start. */
  method Part2(lines: seq<string>, fuel: nat) returns (r: Result<nat, Error>)
    requires WellShaped(lines)
    ensures r == LoopPoints(lines, fuel)
  {
    var room, start := Map.FromStr(lines);
    if start.None? {
      return Ok(0);
    }
    var s := start.value;
    GuardStartFree(lines);
    assert LoopPoints(lines, fuel) == GridCount(room.occupancy.data, room.Width(), room.Height(), s, fuel, room.Width());
    r := GridLoopPoints(room, s, fuel);
  }

  /** The `flat_map` of `part2` over the columns of the room. */
  method GridLoopPoints(room: Map, s: GuardState, fuel: nat) returns (r: Result<nat, Error>)
    requires room.Valid()
    requires Within(room.Width(), room.Height(), s.position)
    requires room.visited.data == NoMarks(room.Width(), room.Height())
    ensures r == GridCount(room.occupancy.data, room.Width(), room.Height(), s, fuel, room.Width())
  {
    var w, h := room.Width(), room.Height();
    ghost var occ := room.occupancy.data;
    var count := 0;
    for x := 0 to w
      invariant GridCount(occ, w, h, s, fuel, x) == Ok(count)
    {
      var column := ColumnLoopPoints(x, room, s, fuel);
      GridUnfold(occ, w, h, s, fuel, x);
      if column.Err? {
        GridFails(occ, w, h, s, fuel, x + 1);
        ghost var failed := GridCount(occ, w, h, s, fuel, w);
        assert failed.Err? && failed.error == OutOfFuel;
        return Err(OutOfFuel);
      }
      count := count + column.value;
    }
    return Ok(count);
  }

  lemma ColumnUnfold(occ: seq<bool>, w: nat, h: nat, start: GuardState, fuel: nat, x: nat, y: nat)
    requires Room(occ, w, h) && x < w && y < h && Within(w, h, start.position)
    ensures ColumnCount(occ, w, h, start, fuel, x, y + 1) ==
      match ColumnCount(occ, w, h, start, fuel, x, y)
      case Err(e) => Err(e)
      case Ok(c) =>
        match LoopPointAt(occ, w, h, start, fuel, x, y)
        case Err(e) => Err(e)
        case Ok(b) => Ok(if b then c + 1 else c)
  {
  }

  lemma GridUnfold(occ: seq<bool>, w: nat, h: nat, start: GuardState, fuel: nat, x: nat)
    requires Room(occ, w, h) && x < w && Within(w, h, start.position)
    ensures GridCount(occ, w, h, start, fuel, x + 1) ==
      match GridCount(occ, w, h, start, fuel, x)
      case Err(e) => Err(e)
      case Ok(c) =>
        match ColumnCount(occ, w, h, start, fuel, x, h)
        case Err(e) => Err(e)
        case Ok(d) => Ok(c + d)
  {
  }

  /** A failed check in a column makes every longer count of it fail. */
  lemma {:induction false} ColumnFails(occ: seq<bool>, w: nat, h: nat, start: GuardState, fuel: nat, x: nat, n: nat)
    requires Room(occ, w, h) && x < w && 0 < n <= h && Within(w, h, start.position)
    requires ColumnCount(occ, w, h, start, fuel, x, n).Err?
    ensures ColumnCount(occ, w, h, start, fuel, x, h).Err?
    decreases h - n
  {
    if n < h {
      ColumnFails(occ, w, h, start, fuel, x, n + 1);
    }
  }

  lemma {:induction false} GridFails(occ: seq<bool>, w: nat, h: nat, start: GuardState, fuel: nat, m: nat)
    requires Room(occ, w, h) && 0 < m <= w && Within(w, h, start.position)
    requires ColumnCount(occ, w, h, start, fuel, m - 1, h).Err? || GridCount(occ, w, h, start, fuel, m).Err?
    ensures GridCount(occ, w, h, start, fuel, w).Err?
    decreases w - m
  {
    if m < w {
      GridFails(occ, w, h, start, fuel, m + 1);
    }
  }
}
