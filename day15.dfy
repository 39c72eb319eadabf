/** Day 15: a robot pushing boxes around a walled warehouse, in the narrow
    layout and in the widened one where every box is two cells wide. */
module Day15 {
  import opened Wrappers
  import opened Util
  import opened GridLib

  datatype Cell = Empty | Robot | Box | WideBoxLeft | WideBoxRight | Wall

  datatype Direction = Left | Right | Up | Down

  datatype Error = InvalidCharacter(c: char) | InvalidWideBox | AnotherRobot | NoRobot

  // ---------------------------------------------------------------------
  // Character codecs

  /** `to_char`: the character `try_from` reads back as the same cell. */
  function CellToChar(c: Cell): (r: char)
    ensures CellFromChar(r) == Ok(c)
  {
    match c
    case Wall => '#'
    case Robot => '@'
    case Box => 'O'
    case Empty => '.'
    case WideBoxLeft => '['
    case WideBoxRight => ']'
  }

  /** `Cell::try_from(char)`: the six room characters, nothing else. */
  function CellFromChar(c: char): (r: Result<Cell, Error>)
    ensures r.Err? <==> c !in "#@O.[]"
    ensures r.Err? ==> r.error == InvalidCharacter(c)
  {
    match c
    case '#' => Ok(Wall)
    case '@' => Ok(Robot)
    case 'O' => Ok(Box)
    case '.' => Ok(Empty)
    case '[' => Ok(WideBoxLeft)
    case ']' => Ok(WideBoxRight)
    case _ => Err(InvalidCharacter(c))
  }

  lemma CellCodecRoundTrip(cell: Cell, c: char)
    ensures CellFromChar(CellToChar(cell)) == Ok(cell)
    ensures CellFromChar(c).Ok? ==> CellToChar(CellFromChar(c).value) == c
  {
  }

  function DirectionFromChar(c: char): (r: Option<Direction>)
    ensures r.Some? <==> c in "<>^v"
  {
    match c
    case '>' => Some(Right)
    case '<' => Some(Left)
    case '^' => Some(Up)
    case 'v' => Some(Down)
    case _ => None
  }

  function DirectionToChar(d: Direction): char
  {
    match d
    case Right => '>'
    case Left => '<'
    case Up => '^'
    case Down => 'v'
  }

  lemma DirectionCodecRoundTrip(d: Direction, c: char)
    ensures DirectionFromChar(DirectionToChar(d)) == Some(d)
    ensures DirectionFromChar(c).Some? ==> DirectionToChar(DirectionFromChar(c).value) == c
  {
  }

  /** `offset`: a unit step; up is towards row 0. */
  function DirOffset(d: Direction): (r: (int, int))
    ensures Abs(r.0) + Abs(r.1) == 1
  {
    match d
    case Up => (0, -1)
    case Down => (0, 1)
    case Left => (-1, 0)
    case Right => (1, 0)
  }

  predicate Vertical(d: Direction)
  {
    d == Up || d == Down
  }

  // ---------------------------------------------------------------------
  // widen_room

  function WidenChar(c: char): string
  {
    match c
    case '#' => "##"
    case 'O' => "[]"
    case '.' => ".."
    case '@' => "@."
    case _ => [c]
  }

  /** `widen_room`: every room character becomes two, anything else stays. */
  function Widen(s: string): (r: string)
    ensures |r| == |s| + CountIf(s, IsRoomChar)
  {
    if s == [] then [] else Widen(s[..|s| - 1]) + WidenChar(s[|s| - 1])
  }

  predicate IsRoomChar(c: char)
  {
    c in "#O.@"
  }

  predicate IsLeftHalf(c: char) { c == '[' }

  predicate BecomesLeftHalf(c: char) { c == 'O' || c == '[' }

  /** No narrow box is left after widening. */
  lemma {:induction false} WidenNoNarrowBox(s: string)
    ensures forall i :: 0 <= i < |Widen(s)| ==> Widen(s)[i] != 'O'
  {
    if s != [] {
      var t := s[..|s| - 1];
      WidenNoNarrowBox(t);
      var w := WidenChar(s[|s| - 1]);
      forall i | 0 <= i < |Widen(s)| ensures Widen(s)[i] != 'O' {
        if i >= |Widen(t)| {
          assert Widen(s)[i] == w[i - |Widen(t)|];
        }
      }
    }
  }

  /** Every wide box comes from a narrow one, or was already wide. */
  lemma {:induction false} WidenBoxCount(s: string)
    ensures CountIf(Widen(s), IsLeftHalf) == CountIf(s, BecomesLeftHalf)
  {
    if s != [] {
      var t := s[..|s| - 1];
      var w := WidenChar(s[|s| - 1]);
      assert Widen(s) == Widen(t) + w;
      WidenBoxCount(t);
      CountIfAppend(Widen(t), w, IsLeftHalf);
      WidenCharBoxCount(s[|s| - 1]);
    }
  }

  /** A character widens to one left half exactly when it is a box. */
  lemma WidenCharBoxCount(c: char)
    ensures CountIf(WidenChar(c), IsLeftHalf) == if BecomesLeftHalf(c) then 1 else 0
  {
    var w := WidenChar(c);
    if |w| == 2 {
      assert w[..1] == [w[0]];
      assert [w[0]][..0] == [];
    } else {
      assert w[..0] == [];
    }
  }

  // ---------------------------------------------------------------------
  // Positions in a walled room

  /** The room a grid holds: its cells in row-major order and its extents. */
  datatype Room = Room(cells: seq<Cell>, width: nat, height: nat)

  type Pos = (nat, nat)

  function RoomOf(grid: Grid<Cell>): Room
    reads grid
  {
    Room(grid.data, grid.width, grid.height)
  }

  /** One cell per position of the extents. */
  predicate Valid(room: Room)
  {
    |room.cells| == Mul(room.height, room.width)
  }

  /** The room is enclosed: every edge cell is a wall. */
  ghost predicate Walled(room: Room)
  {
    WalledData(room.cells, room.width, room.height)
  }

  /** The row-major index of (x, y) in rows of w cells. */
  function Index(w: nat, x: nat, y: nat): nat
  {
    Mul(y, w) + x
  }

  /** The same, for row-major cells of a w by h room. */
  ghost predicate WalledData(data: seq<Cell>, w: nat, h: nat)
  {
    |data| == Mul(h, w) && w >= 2 && h >= 2
    && forall x: nat, y: nat :: (x < w && y < h && (x == 0 || y == 0 || x + 1 == w || y + 1 == h)
      ==> Index(w, x, y) < |data| && data[Index(w, x, y)] == Wall)
  }

  /** `grid[(x, y)]` for a cell inside the extents. */
  function CellAt(room: Room, x: nat, y: nat): Cell
    requires Valid(room) && x < room.width && y < room.height
  {
    CellIndexBound(x, y, room.width, room.height);
    room.cells[Index(room.width, x, y)]
  }

  predicate Inside(room: Room, p: (nat, nat))
  {
    0 < p.0 && p.0 + 1 < room.width && 0 < p.1 && p.1 + 1 < room.height
  }

  /** The positions the program pushes from: the robot and box cells, all
      inside, and the partner of a vertically pushed wide half, which is
      at worst on a side wall. One step from any of them stays on the grid. */
  predicate Pushable(room: Room, p: (nat, nat), dir: Direction)
  {
    p.0 < room.width && 0 < p.1 && p.1 + 1 < room.height
    && (!Vertical(dir) ==> 0 < p.0 && p.0 + 1 < room.width)
  }

  /** One step in dir. */
  function Next(room: Room, p: (nat, nat), dir: Direction): (r: (nat, nat))
    requires Pushable(room, p, dir)
    ensures r.0 < room.width && r.1 < room.height
    ensures r.0 as int == p.0 + DirOffset(dir).0 && r.1 as int == p.1 + DirOffset(dir).1
  {
    match dir
    case Up => (p.0, p.1 - 1)
    case Down => (p.0, p.1 + 1)
    case Left => (p.0 - 1, p.1)
    case Right => (p.0 + 1, p.1)
  }

  /** How far p is from the edge it is moving towards. */
  function Dist(room: Room, p: (nat, nat), dir: Direction): nat
    requires p.0 < room.width && p.1 < room.height
  {
    match dir
    case Up => p.1
    case Down => room.height - p.1
    case Left => p.0
    case Right => room.width - p.0
  }

  /** A cell that is not a wall lies inside the walls. */
  lemma NotWallInside(room: Room, x: nat, y: nat)
    requires Walled(room) && x < room.width && y < room.height && CellAt(room, x, y) != Wall
    ensures Inside(room, (x, y))
  {
    CellIndexBound(x, y, room.width, room.height);
  }

  predicate IsBox(c: Cell)
  {
    c == Box || c == WideBoxLeft || c == WideBoxRight
  }

  // ---------------------------------------------------------------------
  // can_move

  /** `can_move`: whether whatever is at p can take one step in dir,
      pushing the boxes in front of it. */
  function CanMove(room: Room, p: (nat, nat), dir: Direction): (r: Result<bool, Error>)
    requires Walled(room) && Pushable(room, p, dir)
    ensures r.Err? ==> r.error == AnotherRobot || r.error == InvalidWideBox
    decreases Dist(room, p, dir), 0
  {
    var n := Next(room, p, dir);
    match CellAt(room, n.0, n.1)
    case Empty => Ok(true)
    case Wall => Ok(false)
    case Box => NotWallInside(room, n.0, n.1); CanMove(room, n, dir)
    case WideBoxLeft => NotWallInside(room, n.0, n.1); CheckWideBoxMove(room, n, dir)
    case WideBoxRight => NotWallInside(room, n.0, n.1); CheckWideBoxMove(room, n, dir)
    case Robot => Err(AnotherRobot)
  }

  /** `check_wide_box_move`: a vertically pushed half needs its partner
      beside it and moves with it; horizontally it is an ordinary box. */
  function CheckWideBoxMove(room: Room, p: (nat, nat), dir: Direction): (r: Result<bool, Error>)
    requires Walled(room) && Inside(room, p)
    ensures r.Err? ==> r.error == AnotherRobot || r.error == InvalidWideBox
    decreases Dist(room, p, dir), 2
  {
    var cell := CellAt(room, p.0, p.1);
    if cell == WideBoxLeft && Vertical(dir) then
      var right := (p.0 + 1, p.1);
      if CellAt(room, right.0, right.1) != WideBoxRight then Err(InvalidWideBox)
      else
        NotWallInside(room, right.0, right.1);
        CheckWideVerticalMove(room, p, right, dir)
    else if cell == WideBoxRight && Vertical(dir) then
      var left := (p.0 - 1, p.1);
      if CellAt(room, left.0, left.1) != WideBoxLeft then Err(InvalidWideBox)
      else
        NotWallInside(room, left.0, left.1);
        CheckWideVerticalMove(room, left, p, dir)
    else CanMove(room, p, dir)
  }

  /** `check_wide_vertical_move`: both halves find room, or a wall stops
      them, or each half's own move decides (the right one only asked when
      the left one can move). */
  function CheckWideVerticalMove(room: Room, left: (nat, nat), right: (nat, nat), dir: Direction): (r: Result<bool, Error>)
    requires Walled(room) && Inside(room, left) && Inside(room, right) && Vertical(dir) && left.1 == right.1
    ensures r.Err? ==> r.error == AnotherRobot || r.error == InvalidWideBox
    decreases Dist(room, left, dir), 1
  {
    var nl := Next(room, left, dir);
    var nr := Next(room, right, dir);
    var cl := CellAt(room, nl.0, nl.1);
    var cr := CellAt(room, nr.0, nr.1);
    if cl == Empty && cr == Empty then Ok(true)
    else if cl == Wall || cr == Wall then Ok(false)
    else
      match CanMove(room, left, dir)
      case Err(e) => Err(e)
      case Ok(b) => if !b then Ok(false) else CanMove(room, right, dir)
  }

  /** What the first non-box cell ahead decides. */
  function Verdict(c: Cell): Result<bool, Error>
  {
    match c
    case Empty => Ok(true)
    case Wall => Ok(false)
    case Robot => Err(AnotherRobot)
    case _ => Err(InvalidWideBox)
  }

  /** The cell i steps from p in dir. */
  function Ahead(p: (nat, nat), dir: Direction, i: nat): (int, int)
  {
    (p.0 + i * DirOffset(dir).0, p.1 + i * DirOffset(dir).1)
  }

  predicate OnGrid(room: Room, q: (int, int))
  {
    0 <= q.0 < room.width && 0 <= q.1 < room.height
  }

  function CellAhead(room: Room, p: (nat, nat), dir: Direction, i: nat): Cell
    requires Valid(room) && OnGrid(room, Ahead(p, dir, i))
  {
    var q := Ahead(p, dir, i);
    CellAt(room, q.0 as nat, q.1 as nat)
  }

  /** The cells 1 .. k - 1 steps ahead are boxes that move as single cells:
      narrow boxes, or either half of a wide box pushed sideways. */
  ghost predicate BoxRun(room: Room, p: (nat, nat), dir: Direction, k: nat)
  {
    Valid(room)
    && (forall i :: 1 <= i <= k ==> OnGrid(room, Ahead(p, dir, i)))
    && (forall i :: 1 <= i < k ==> (CellAhead(room, p, dir, i) == Box || (!Vertical(dir) && IsBox(CellAhead(room, p, dir, i)))))
  }

  /** The run seen from the first box of it is one shorter. */
  lemma RunShift(room: Room, p: (nat, nat), dir: Direction, k: nat)
    requires Walled(room) && Pushable(room, p, dir) && k > 1 && BoxRun(room, p, dir, k)
    ensures Inside(room, Next(room, p, dir))
    ensures BoxRun(room, Next(room, p, dir), dir, k - 1)
    ensures CellAhead(room, Next(room, p, dir), dir, k - 1) == CellAhead(room, p, dir, k)
  {
    var n := Next(room, p, dir);
    assert Ahead(p, dir, 1) == (n.0 as int, n.1 as int);
    assert CellAt(room, n.0, n.1) == CellAhead(room, p, dir, 1);
    NotWallInside(room, n.0, n.1);
    forall i | 1 <= i <= k - 1 ensures Ahead(n, dir, i) == Ahead(p, dir, i + 1) && OnGrid(room, Ahead(n, dir, i)) {
      assert OnGrid(room, Ahead(p, dir, i + 1));
    }
    forall i | 1 <= i < k - 1
      ensures CellAhead(room, n, dir, i) == Box || (!Vertical(dir) && IsBox(CellAhead(room, n, dir, i)))
    {
      assert CellAhead(room, n, dir, i) == CellAhead(room, p, dir, i + 1);
    }
  }

  /** In front of a box that moves as a single cell, the move is that box's move. */
  lemma CanMoveThroughBox(room: Room, p: (nat, nat), dir: Direction)
    requires Walled(room) && Pushable(room, p, dir)
    requires var n := Next(room, p, dir); var c := CellAt(room, n.0, n.1);
      c == Box || (!Vertical(dir) && IsBox(c))
    ensures Inside(room, Next(room, p, dir))
    ensures CanMove(room, p, dir) == CanMove(room, Next(room, p, dir), dir)
  {
    var n := Next(room, p, dir);
    NotWallInside(room, n.0, n.1);
    if CellAt(room, n.0, n.1) == Box {
      CanMoveIntoBox(room, p, dir);
    } else {
      CanMoveIntoWideBox(room, p, dir);
    }
  }

  /** Without a vertically pushed wide box in the way, a move succeeds
      exactly when the line of boxes in front ends in an empty cell, is
      refused when it ends in a wall, and fails on another robot. */
  lemma {:induction false} CanMoveAlongRun(room: Room, p: (nat, nat), dir: Direction, k: nat)
    requires Walled(room) && Pushable(room, p, dir) && k >= 1 && BoxRun(room, p, dir, k)
    requires !IsBox(CellAhead(room, p, dir, k))
    ensures CanMove(room, p, dir) == Verdict(CellAhead(room, p, dir, k))
    decreases k
  {
    var n := Next(room, p, dir);
    assert Ahead(p, dir, 1) == (n.0 as int, n.1 as int);
    assert CellAt(room, n.0, n.1) == CellAhead(room, p, dir, 1);
    if k > 1 {
      RunShift(room, p, dir, k);
      CanMoveThroughBox(room, p, dir);
      CanMoveAlongRun(room, n, dir, k - 1);
    }
  }

  /** A move that succeeds starts inside the walls. */
  lemma CanMoveInside(room: Room, p: (nat, nat), dir: Direction)
    requires Walled(room) && Pushable(room, p, dir) && CanMove(room, p, dir) == Ok(true)
    ensures Inside(room, p)
  {
    var n := Next(room, p, dir);
    CellIndexBound(n.0, n.1, room.width, room.height);
    assert CellAt(room, n.0, n.1) == room.cells[Index(room.width, n.0, n.1)];
  }

  /** The vertical check of a pair succeeds exactly when each half can move. */
  lemma VerticalMoveBothHalves(room: Room, left: (nat, nat), right: (nat, nat), dir: Direction)
    requires Walled(room) && Inside(room, left) && Inside(room, right) && Vertical(dir) && left.1 == right.1
    ensures CheckWideVerticalMove(room, left, right, dir) == Ok(true) <==>
      CanMove(room, left, dir) == Ok(true) && CanMove(room, right, dir) == Ok(true)
  {
    var nl := Next(room, left, dir);
    var nr := Next(room, right, dir);
    var cl := CellAt(room, nl.0, nl.1);
    var cr := CellAt(room, nr.0, nr.1);
    if cl == Empty && cr == Empty {
      assert CanMove(room, left, dir) == Ok(true);
      assert CanMove(room, right, dir) == Ok(true);
    } else if cl == Wall {
      assert CanMove(room, left, dir) == Ok(false);
    } else if cr == Wall {
      assert CanMove(room, right, dir) == Ok(false);
    }
  }

  /** A vertically pushed wide box moves exactly when both of its halves
      can, whichever half is pushed. */
  lemma WideBoxMovesWithBothHalves(room: Room, p: (nat, nat), dir: Direction)
    requires Walled(room) && Inside(room, p) && Vertical(dir)
    requires CellAt(room, p.0, p.1) == WideBoxLeft && CellAt(room, p.0 + 1, p.1) == WideBoxRight
    ensures Inside(room, (p.0 + 1, p.1))
    ensures CheckWideBoxMove(room, p, dir) == Ok(true) <==>
      CanMove(room, p, dir) == Ok(true) && CanMove(room, (p.0 + 1, p.1), dir) == Ok(true)
    ensures CheckWideBoxMove(room, (p.0 + 1, p.1), dir) == CheckWideBoxMove(room, p, dir)
  {
    var right := (p.0 + 1, p.1);
    NotWallInside(room, right.0, right.1);
    WideHalvesVertical(room, p, right, dir);
    VerticalMoveBothHalves(room, p, right, dir);
  }

  /** Pushed vertically, either half of a wide box checks the pair. */
  lemma WideHalvesVertical(room: Room, p: (nat, nat), right: (nat, nat), dir: Direction)
    requires Walled(room) && Inside(room, p) && Inside(room, right) && Vertical(dir) && right == (p.0 + 1, p.1)
    requires CellAt(room, p.0, p.1) == WideBoxLeft && CellAt(room, right.0, right.1) == WideBoxRight
    ensures CheckWideBoxMove(room, p, dir) == CheckWideVerticalMove(room, p, right, dir)
    ensures CheckWideBoxMove(room, right, dir) == CheckWideVerticalMove(room, p, right, dir)
  {
    assert (right.0 - 1, right.1) == p;
  }

  /** A vertically pushed wide half without its partner beside it is an error. */
  lemma WideBoxNeedsPartner(room: Room, p: (nat, nat), dir: Direction)
    requires Walled(room) && Inside(room, p) && Vertical(dir)
    ensures CellAt(room, p.0, p.1) == WideBoxLeft && CellAt(room, p.0 + 1, p.1) != WideBoxRight
      ==> CheckWideBoxMove(room, p, dir) == Err(InvalidWideBox)
    ensures CellAt(room, p.0, p.1) == WideBoxRight && CellAt(room, p.0 - 1, p.1) != WideBoxLeft
      ==> CheckWideBoxMove(room, p, dir) == Err(InvalidWideBox)
  {
  }

  // ---------------------------------------------------------------------
  // push and handle_box_push

  /** The cells with entries i and j exchanged. */
  function Swapped(s: seq<Cell>, i: nat, j: nat): (r: seq<Cell>)
    requires i < |s| && j < |s|
    ensures |r| == |s| && multiset(r) == multiset(s)
    ensures r[i] == s[j] && r[j] == s[i]
    ensures forall k :: 0 <= k < |s| && k != i && k != j ==> r[k] == s[k]
  {
    SwapMultiset(s, i, j);
    s[i := s[j]][j := s[i]]
  }


  /** The room with the cells at a and b exchanged; SwapOther says the
      other cells stay. */
  function SwapCells(room: Room, a: Pos, b: Pos): (r: Room)
    requires Valid(room) && a.0 < room.width && a.1 < room.height && b.0 < room.width && b.1 < room.height
    ensures Valid(r) && r.width == room.width && r.height == room.height
    ensures multiset(r.cells) == multiset(room.cells)
    ensures CellAt(r, a.0, a.1) == CellAt(room, b.0, b.1) && CellAt(r, b.0, b.1) == CellAt(room, a.0, a.1)
  {
    CellIndexBound(a.0, a.1, room.width, room.height);
    CellIndexBound(b.0, b.1, room.width, room.height);
    Room(Swapped(room.cells, Index(room.width, a.0, a.1), Index(room.width, b.0, b.1)), room.width, room.height)
  }

  /** Every cell other than a and b keeps its content through the swap. */
  lemma SwapOther(room: Room, a: Pos, b: Pos, q: Pos)
    requires Valid(room) && a.0 < room.width && a.1 < room.height && b.0 < room.width && b.1 < room.height
    requires q.0 < room.width && q.1 < room.height && q != a && q != b
    ensures CellAt(SwapCells(room, a, b), q.0, q.1) == CellAt(room, q.0, q.1)
  {
    CellIndexBound(a.0, a.1, room.width, room.height);
    CellIndexBound(b.0, b.1, room.width, room.height);
    CellIndexBound(q.0, q.1, room.width, room.height);
    if Index(room.width, q.0, q.1) == Index(room.width, a.0, a.1) {
      OffsetInjective(q.0, q.1, a.0, a.1, room.width);
    } else if Index(room.width, q.0, q.1) == Index(room.width, b.0, b.1) {
      OffsetInjective(q.0, q.1, b.0, b.1, room.width);
    }
  }

  /** Exchanging two cells inside the walls keeps the walls. */
  lemma SwapKeepsWalls(room: Room, a: Pos, b: Pos)
    requires Walled(room) && Inside(room, a) && Inside(room, b)
    ensures Walled(SwapCells(room, a, b))
  {
    var r := SwapCells(room, a, b);
    forall x: nat, y: nat | x < room.width && y < room.height && (x == 0 || y == 0 || x + 1 == room.width || y + 1 == room.height)
      ensures Index(room.width, x, y) < |r.cells| && r.cells[Index(room.width, x, y)] == Wall
    {
      CellIndexBound(x, y, room.width, room.height);
      SwapOther(room, a, b, (x, y));
    }
  }

  /** Rooms of the same extents that agree on every cell are the same room. */
  lemma SameCells(r1: Room, r2: Room)
    requires Valid(r1) && Valid(r2) && r1.width == r2.width && r1.height == r2.height
    requires forall x: nat, y: nat :: x < r1.width && y < r1.height ==> CellAt(r1, x, y) == CellAt(r2, x, y)
    ensures r1 == r2
  {
    MulIsProduct(r1.height, r1.width);
    forall k | 0 <= k < |r1.cells| ensures r1.cells[k] == r2.cells[k] {
      IdxToXyInGrid(r1.width, r1.height, k);
      var p := IdxToXy(r1.width, k);
      assert CellAt(r1, p.0, p.1) == CellAt(r2, p.0, p.1);
    }
  }

  /** `Grid::swap`, not part of the shown library: exchange two cells. */
  method Swap(grid: Grid<Cell>, a: Pos, b: Pos)
    requires Walled(RoomOf(grid)) && Inside(RoomOf(grid), a) && Inside(RoomOf(grid), b)
    modifies grid
    ensures RoomOf(grid) == SwapCells(old(RoomOf(grid)), a, b)
    ensures Walled(RoomOf(grid))
  {
    SwapKeepsWalls(RoomOf(grid), a, b);
    grid.data := SwapCells(RoomOf(grid), a, b).cells;
  }

  // ---------------------------------------------------------------------
  // What a push moves, and the room after it

  /** The cell one step behind q, against dir, when that is on the grid. */
  function Back(room: Room, q: Pos, dir: Direction): (r: Option<Pos>)
    requires q.0 < room.width && q.1 < room.height
    ensures r.Some? ==> r.value.0 < room.width && r.value.1 < room.height
  {
    match dir
    case Up => if q.1 + 1 < room.height then Some((q.0, q.1 + 1)) else None
    case Down => if q.1 > 0 then Some((q.0, q.1 - 1)) else None
    case Left => if q.0 + 1 < room.width then Some((q.0 + 1, q.1)) else None
    case Right => if q.0 > 0 then Some((q.0 - 1, q.1)) else None
  }

  /** b is behind q exactly when q is one step ahead of b. */
  lemma NextBack(room: Room, b: Pos, q: Pos, dir: Direction)
    requires Pushable(room, b, dir) && q.0 < room.width && q.1 < room.height
    ensures Back(room, q, dir) == Some(b) <==> Next(room, b, dir) == q
  {
  }

  /** The cell at q once every cell of S has taken one step in dir: what
      stepped in from behind, else empty when its own content left, else
      what was there. */
  function ShiftedCell(room: Room, S: set<Pos>, dir: Direction, q: Pos): Cell
    requires Valid(room) && q.0 < room.width && q.1 < room.height
  {
    var b := Back(room, q, dir);
    if b.Some? && b.value in S then CellAt(room, b.value.0, b.value.1)
    else if q in S then Empty
    else CellAt(room, q.0, q.1)
  }

  function ShiftedCellAt(room: Room, S: set<Pos>, dir: Direction, k: nat): Cell
    requires Valid(room) && k < |room.cells|
  {
    MulIsProduct(room.height, room.width);
    IdxToXyInGrid(room.width, room.height, k);
    ShiftedCell(room, S, dir, IdxToXy(room.width, k))
  }

  /** The room once every cell of S has taken one step in dir; ShiftAt
      gives its cells. */
  function Shift(room: Room, S: set<Pos>, dir: Direction): (r: Room)
    requires Valid(room)
    ensures Valid(r) && r.width == room.width && r.height == room.height
  {
    Room(seq(|room.cells|, k requires 0 <= k < |room.cells| => ShiftedCellAt(room, S, dir, k)), room.width, room.height)
  }

  /** The cell at q after the shift is what stepped into q, or what q lost,
      or what was there. */
  lemma ShiftAt(room: Room, S: set<Pos>, dir: Direction, q: Pos)
    requires Valid(room) && q.0 < room.width && q.1 < room.height
    ensures CellAt(Shift(room, S, dir), q.0, q.1) == ShiftedCell(room, S, dir, q)
  {
    CellIndexBound(q.0, q.1, room.width, room.height);
    IdxToXyOfOffset(room.width, q.0, q.1);
  }

  /** The cells a push from p in dir moves: p itself and whatever stands
      in front of it. */
  function Moved(room: Room, p: Pos, dir: Direction): set<Pos>
    requires Walled(room) && Pushable(room, p, dir)
    decreases Dist(room, p, dir), 0
  {
    {p} + MovedFrom(room, Next(room, p, dir), dir)
  }

  /** The cells moved by pushing into q: none unless q holds a box; the box
      and what is in front of it; for a vertical push of a wide half, both
      halves and what is in front of each. */
  function MovedFrom(room: Room, q: Pos, dir: Direction): set<Pos>
    requires Walled(room) && q.0 < room.width && q.1 < room.height
    decreases Dist(room, q, dir), 1
  {
    var c := CellAt(room, q.0, q.1);
    if !IsBox(c) then {}
    else
      NotWallInside(room, q.0, q.1);
      if c == WideBoxLeft && Vertical(dir) then Moved(room, q, dir) + Moved(room, (q.0 + 1, q.1), dir)
      else if c == WideBoxRight && Vertical(dir) then Moved(room, (q.0 - 1, q.1), dir) + Moved(room, q, dir)
      else Moved(room, q, dir)
  }

  /** Every cell a push from o moves can itself be pushed, and is closer
      to the edge ahead than o unless it is o. */
  lemma {:induction false} MovedBasics(room: Room, o: Pos, dir: Direction)
    requires Walled(room) && Pushable(room, o, dir)
    ensures forall y :: y in Moved(room, o, dir) ==>
      Pushable(room, y, dir) && (y != o ==> Dist(room, y, dir) < Dist(room, o, dir))
    decreases Dist(room, o, dir), 0
  {
    MovedFromBasics(room, Next(room, o, dir), dir);
  }

  lemma {:induction false} MovedFromBasics(room: Room, q: Pos, dir: Direction)
    requires Walled(room) && q.0 < room.width && q.1 < room.height
    ensures forall y :: y in MovedFrom(room, q, dir) ==>
      Pushable(room, y, dir) && Dist(room, y, dir) <= Dist(room, q, dir)
    decreases Dist(room, q, dir), 1
  {
    var c := CellAt(room, q.0, q.1);
    if IsBox(c) {
      NotWallInside(room, q.0, q.1);
      MovedBasics(room, q, dir);
      if c == WideBoxLeft && Vertical(dir) {
        MovedBasics(room, (q.0 + 1, q.1), dir);
      } else if c == WideBoxRight && Vertical(dir) {
        MovedBasics(room, (q.0 - 1, q.1), dir);
      }
    }
  }

  /** What a push from a moved cell moves is moved by the whole push. */
  lemma {:induction false} MovedTransitive(room: Room, o: Pos, y: Pos, dir: Direction)
    requires Walled(room) && Pushable(room, o, dir) && y in Moved(room, o, dir)
    ensures Pushable(room, y, dir) && Moved(room, y, dir) <= Moved(room, o, dir)
    decreases Dist(room, o, dir)
  {
    MovedBasics(room, o, dir);
    var n := Next(room, o, dir);
    var c := CellAt(room, n.0, n.1);
    if y != o && IsBox(c) {
      NotWallInside(room, n.0, n.1);
      if c == WideBoxLeft && Vertical(dir) && y !in Moved(room, n, dir) {
        MovedTransitive(room, (n.0 + 1, n.1), y, dir);
      } else if c == WideBoxRight && Vertical(dir) && y !in Moved(room, n, dir) {
        MovedTransitive(room, (n.0 - 1, n.1), y, dir);
      } else {
        MovedTransitive(room, n, y, dir);
      }
    }
  }
  /** A box in front of a pushed cell is among what the push moves. */
  lemma InMovedAhead(room: Room, s: Pos, dir: Direction)
    requires Walled(room) && Pushable(room, s, dir)
    requires var n := Next(room, s, dir); IsBox(CellAt(room, n.0, n.1))
    ensures Next(room, s, dir) in Moved(room, s, dir)
  {
    var n := Next(room, s, dir);
    NotWallInside(room, n.0, n.1);
    assert n in Moved(room, n, dir);
  }

  /** A moved cell y of a push from o that succeeds: it can move itself; if
      it is not o it is a box inside the walls, and a half of a wide box
      pushed vertically has its partner beside it, moved as well. */
  ghost predicate MovesWell(room: Room, o: Pos, y: Pos, dir: Direction)
    requires Walled(room) && Pushable(room, o, dir)
  {
    Pushable(room, y, dir) && CanMove(room, y, dir) == Ok(true)
    && (y != o ==>
      Inside(room, y) && IsBox(CellAt(room, y.0, y.1))
      && (Vertical(dir) && CellAt(room, y.0, y.1) == WideBoxLeft ==>
            CellAt(room, y.0 + 1, y.1) == WideBoxRight && (y.0 + 1, y.1) in Moved(room, o, dir))
      && (Vertical(dir) && CellAt(room, y.0, y.1) == WideBoxRight ==>
            CellAt(room, y.0 - 1, y.1) == WideBoxLeft && (y.0 - 1, y.1) in Moved(room, o, dir)))
  }

  /** What moves well in the push from the box n in front of o moves well
      in the push from o. */
  lemma MovesWellLift(room: Room, o: Pos, n: Pos, y: Pos, dir: Direction)
    requires Walled(room) && Pushable(room, o, dir) && CanMove(room, o, dir) == Ok(true)
    requires n != o && Inside(room, n) && IsBox(CellAt(room, n.0, n.1)) && Moved(room, n, dir) <= Moved(room, o, dir)
    requires Vertical(dir) && CellAt(room, n.0, n.1) == WideBoxLeft ==>
      CellAt(room, n.0 + 1, n.1) == WideBoxRight && (n.0 + 1, n.1) in Moved(room, o, dir)
    requires Vertical(dir) && CellAt(room, n.0, n.1) == WideBoxRight ==>
      CellAt(room, n.0 - 1, n.1) == WideBoxLeft && (n.0 - 1, n.1) in Moved(room, o, dir)
    requires y in Moved(room, n, dir) && MovesWell(room, n, y, dir)
    ensures MovesWell(room, o, y, dir)
  {
  }

  /** When a push from o succeeds, every cell it moves moves well. */
  lemma {:induction false} MovedSound(room: Room, o: Pos, dir: Direction)
    requires Walled(room) && Pushable(room, o, dir) && CanMove(room, o, dir) == Ok(true)
    ensures forall y :: y in Moved(room, o, dir) ==> MovesWell(room, o, y, dir)
    decreases Dist(room, o, dir), 1
  {
    var n := Next(room, o, dir);
    var c := CellAt(room, n.0, n.1);
    if c == WideBoxLeft && Vertical(dir) {
      MovedSoundWide(room, o, n, dir);
    } else if c == WideBoxRight && Vertical(dir) {
      NotWallInside(room, n.0, n.1);
      MovedSoundWide(room, o, WestOf(n), dir);
    } else if IsBox(c) {
      MovedSoundNarrow(room, o, dir);
    } else {
      assert Moved(room, o, dir) == {o};
    }
  }

  /** The case of a box moving as a single cell in front of o. */
  lemma {:induction false} MovedSoundNarrow(room: Room, o: Pos, dir: Direction)
    requires Walled(room) && Pushable(room, o, dir) && CanMove(room, o, dir) == Ok(true)
    requires var n := Next(room, o, dir); var c := CellAt(room, n.0, n.1);
      IsBox(c) && !(Vertical(dir) && (c == WideBoxLeft || c == WideBoxRight))
    ensures forall y :: y in Moved(room, o, dir) ==> MovesWell(room, o, y, dir)
    decreases Dist(room, o, dir), 0
  {
    var n := Next(room, o, dir);
    NotWallInside(room, n.0, n.1);
    MovedSound(room, n, dir);
    assert Moved(room, o, dir) == {o} + Moved(room, n, dir);
    assert n in Moved(room, n, dir);
    forall y | y in Moved(room, o, dir) ensures MovesWell(room, o, y, dir) {
      if y in Moved(room, n, dir) {
        MovesWellLift(room, o, n, y, dir);
      }
    }
  }

  /** The case of a wide box, left half at left, pushed vertically from o
      into one of its halves. */
  lemma {:induction false} MovedSoundWide(room: Room, o: Pos, left: Pos, dir: Direction)
    requires Walled(room) && Pushable(room, o, dir) && CanMove(room, o, dir) == Ok(true)
    requires Vertical(dir)
    requires var n := Next(room, o, dir);
      (CellAt(room, n.0, n.1) == WideBoxLeft && n == left) || (CellAt(room, n.0, n.1) == WideBoxRight && n == (left.0 + 1, left.1))
    ensures forall y :: y in Moved(room, o, dir) ==> MovesWell(room, o, y, dir)
    decreases Dist(room, o, dir), 0
  {
    var right := (left.0 + 1, left.1);
    WideAhead(room, o, left, dir);
    MovedSound(room, left, dir);
    MovedSound(room, right, dir);
    assert left in Moved(room, left, dir) && right in Moved(room, right, dir);
    forall y | y in Moved(room, o, dir) ensures MovesWell(room, o, y, dir) {
      if y in Moved(room, left, dir) {
        MovesWellLift(room, o, left, y, dir);
      } else if y in Moved(room, right, dir) {
        MovesWellLift(room, o, right, y, dir);
      }
    }
  }

  /** After a push that succeeds, the content of every moved cell stands
      one step ahead; every moved cell but the pusher is a box, and a wide
      box moved vertically is moved with both of its halves, so both land
      one row over. */
  lemma MovedLandsAhead(room: Room, o: Pos, dir: Direction)
    requires Walled(room) && Pushable(room, o, dir) && CanMove(room, o, dir) == Ok(true)
    ensures forall y :: y in Moved(room, o, dir) ==> (Pushable(room, y, dir) &&
      var n := Next(room, y, dir);
      CellAt(Shift(room, Moved(room, o, dir), dir), n.0, n.1) == CellAt(room, y.0, y.1))
    ensures forall y :: y in Moved(room, o, dir) && y != o ==> Inside(room, y) && IsBox(CellAt(room, y.0, y.1))
    ensures forall y :: y in Moved(room, o, dir) && y != o && Inside(room, y) && Vertical(dir) && CellAt(room, y.0, y.1) == WideBoxLeft ==>
      CellAt(room, y.0 + 1, y.1) == WideBoxRight && (y.0 + 1, y.1) in Moved(room, o, dir)
    ensures forall y :: y in Moved(room, o, dir) && y != o && Inside(room, y) && Vertical(dir) && CellAt(room, y.0, y.1) == WideBoxRight ==>
      CellAt(room, y.0 - 1, y.1) == WideBoxLeft && (y.0 - 1, y.1) in Moved(room, o, dir)
  {
    MovedSound(room, o, dir);
    forall y | y in Moved(room, o, dir)
      ensures Pushable(room, y, dir) &&
        var n := Next(room, y, dir);
        CellAt(Shift(room, Moved(room, o, dir), dir), n.0, n.1) == CellAt(room, y.0, y.1)
    {
      assert MovesWell(room, o, y, dir);
      NextBack(room, y, Next(room, y, dir), dir);
      ShiftAt(room, Moved(room, o, dir), dir, Next(room, y, dir));
    }
  }

  // ---------------------------------------------------------------------
  // Shifts of arbitrary cell sets

  /** Shifting cells that all start inside the walls and none of which
      steps into a wall keeps the walls. */
  lemma ShiftKeepsWalls(room: Room, S: set<Pos>, dir: Direction)
    requires Walled(room)
    requires forall s :: s in S ==> Inside(room, s) && (var n := Next(room, s, dir); CellAt(room, n.0, n.1) != Wall)
    ensures Walled(Shift(room, S, dir))
  {
    var r := Shift(room, S, dir);
    forall x: nat, y: nat | x < room.width && y < room.height && (x == 0 || y == 0 || x + 1 == room.width || y + 1 == room.height)
      ensures Index(room.width, x, y) < |r.cells| && r.cells[Index(room.width, x, y)] == Wall
    {
      CellIndexBound(x, y, room.width, room.height);
      ShiftAt(room, S, dir, (x, y));
      var b := Back(room, (x, y), dir);
      if b.Some? && b.value in S {
        NextBack(room, b.value, (x, y), dir);
      }
    }
  }

  lemma SwapIsShiftAt(room: Room, p: Pos, dir: Direction, x: nat, y: nat)
    requires Valid(room) && Pushable(room, p, dir) && x < room.width && y < room.height
    requires var n := Next(room, p, dir); CellAt(room, n.0, n.1) == Empty
    ensures CellAt(SwapCells(room, p, Next(room, p, dir)), x, y) == CellAt(Shift(room, {p}, dir), x, y)
  {
    NextBack(room, p, (x, y), dir);
    ShiftAt(room, {p}, dir, (x, y));
    if (x, y) != p && (x, y) != Next(room, p, dir) {
      SwapOther(room, p, Next(room, p, dir), (x, y));
    }
  }

  /** Exchanging p with the empty cell in front of it shifts p alone. */
  lemma SwapIsShift(room: Room, p: Pos, dir: Direction)
    requires Valid(room) && Pushable(room, p, dir)
    requires var n := Next(room, p, dir); CellAt(room, n.0, n.1) == Empty
    ensures SwapCells(room, p, Next(room, p, dir)) == Shift(room, {p}, dir)
  {
    forall x: nat, y: nat | x < room.width && y < room.height
      ensures CellAt(SwapCells(room, p, Next(room, p, dir)), x, y) == CellAt(Shift(room, {p}, dir), x, y)
    {
      SwapIsShiftAt(room, p, dir, x, y);
    }
    SameCells(SwapCells(room, p, Next(room, p, dir)), Shift(room, {p}, dir));
  }

  lemma SwapAfterShiftAt(room: Room, M: set<Pos>, p: Pos, dir: Direction, x: nat, y: nat)
    requires Valid(room) && Pushable(room, p, dir) && x < room.width && y < room.height
    requires p !in M && Next(room, p, dir) in M
    requires var b := Back(room, p, dir); b.Some? ==> b.value !in M
    ensures CellAt(SwapCells(Shift(room, M, dir), p, Next(room, p, dir)), x, y) == CellAt(Shift(room, {p} + M, dir), x, y)
  {
    var n := Next(room, p, dir);
    if (x, y) == p {
      SwapAfterShiftFrom(room, M, p, dir);
    } else if (x, y) == n {
      SwapAfterShiftInto(room, M, p, dir);
    } else {
      NextBack(room, p, (x, y), dir);
      ShiftAt(room, M, dir, (x, y));
      ShiftAt(room, {p} + M, dir, (x, y));
      SwapOther(Shift(room, M, dir), p, n, (x, y));
    }
  }

  lemma SwapAfterShiftFrom(room: Room, M: set<Pos>, p: Pos, dir: Direction)
    requires Valid(room) && Pushable(room, p, dir)
    requires p !in M && Next(room, p, dir) in M
    requires var b := Back(room, p, dir); b.Some? ==> b.value !in M
    ensures CellAt(SwapCells(Shift(room, M, dir), p, Next(room, p, dir)), p.0, p.1) == CellAt(Shift(room, {p} + M, dir), p.0, p.1)
  {
    var n := Next(room, p, dir);
    NextBack(room, p, n, dir);
    ShiftAt(room, M, dir, n);
    ShiftAt(room, {p} + M, dir, p);
  }

  lemma SwapAfterShiftInto(room: Room, M: set<Pos>, p: Pos, dir: Direction)
    requires Valid(room) && Pushable(room, p, dir)
    requires p !in M && Next(room, p, dir) in M
    requires var b := Back(room, p, dir); b.Some? ==> b.value !in M
    ensures var n := Next(room, p, dir);
      CellAt(SwapCells(Shift(room, M, dir), p, n), n.0, n.1) == CellAt(Shift(room, {p} + M, dir), n.0, n.1)
  {
    var n := Next(room, p, dir);
    NextBack(room, p, n, dir);
    ShiftAt(room, M, dir, p);
    ShiftAt(room, {p} + M, dir, n);
  }

  /** Once the cells M in front of p have stepped, exchanging p with the
      cell they left shifts p and M together. */
  lemma SwapAfterShift(room: Room, M: set<Pos>, p: Pos, dir: Direction)
    requires Valid(room) && Pushable(room, p, dir)
    requires p !in M && Next(room, p, dir) in M
    requires var b := Back(room, p, dir); b.Some? ==> b.value !in M
    ensures SwapCells(Shift(room, M, dir), p, Next(room, p, dir)) == Shift(room, {p} + M, dir)
  {
    var lhs := SwapCells(Shift(room, M, dir), p, Next(room, p, dir));
    var rhs := Shift(room, {p} + M, dir);
    forall x: nat, y: nat | x < room.width && y < room.height
      ensures CellAt(lhs, x, y) == CellAt(rhs, x, y)
    {
      SwapAfterShiftAt(room, M, p, dir, x, y);
    }
    SameCells(lhs, rhs);
  }

  /** Nothing of T outside S stands right in front of a cell of S. */
  ghost predicate NoneBehind(room: Room, S: set<Pos>, T: set<Pos>, dir: Direction)
  {
    forall v :: v in T && v !in S && v.0 < room.width && v.1 < room.height ==>
      var u := Back(room, v, dir); u.Some? ==> u.value !in S
  }

  lemma ComposeShiftAt(room: Room, S: set<Pos>, T: set<Pos>, dir: Direction, x: nat, y: nat)
    requires Valid(room) && NoneBehind(room, S, T, dir) && x < room.width && y < room.height
    ensures CellAt(Shift(Shift(room, S, dir), T - S, dir), x, y) == CellAt(Shift(room, S + T, dir), x, y)
  {
    var g := Shift(room, S, dir);
    var u := Back(room, (x, y), dir);
    ShiftAt(g, T - S, dir, (x, y));
    ShiftAt(room, S + T, dir, (x, y));
    ShiftAt(room, S, dir, (x, y));
    if u.Some? {
      ShiftAt(room, S, dir, u.value);
    }
  }

  /** Shifting S and then what of T is left shifts S and T together, when
      no cell of T outside S is right in front of a cell of S. */
  lemma ComposeShift(room: Room, S: set<Pos>, T: set<Pos>, dir: Direction)
    requires Valid(room) && NoneBehind(room, S, T, dir)
    ensures Shift(Shift(room, S, dir), T - S, dir) == Shift(room, S + T, dir)
  {
    var lhs := Shift(Shift(room, S, dir), T - S, dir);
    var rhs := Shift(room, S + T, dir);
    forall x: nat, y: nat | x < room.width && y < room.height
      ensures CellAt(lhs, x, y) == CellAt(rhs, x, y)
    {
      ComposeShiftAt(room, S, T, dir, x, y);
    }
    SameCells(lhs, rhs);
  }

  // ---------------------------------------------------------------------
  // The push, step by step

  /** A move that succeeds starts inside and does not step into a wall. */
  lemma MoveNotIntoWall(room: Room, s: Pos, dir: Direction)
    requires Walled(room) && Pushable(room, s, dir) && CanMove(room, s, dir) == Ok(true)
    ensures Inside(room, s) && var n := Next(room, s, dir); CellAt(room, n.0, n.1) != Wall
  {
    CanMoveInside(room, s, dir);
  }

  /** A successful push keeps the room walled. */
  lemma ShiftWalled(room: Room, o: Pos, dir: Direction)
    requires Walled(room) && Pushable(room, o, dir) && CanMove(room, o, dir) == Ok(true)
    ensures Walled(Shift(room, Moved(room, o, dir), dir))
  {
    MovedSound(room, o, dir);
    forall s | s in Moved(room, o, dir)
      ensures Inside(room, s) && var n := Next(room, s, dir); CellAt(room, n.0, n.1) != Wall
    {
      assert MovesWell(room, o, s, dir);
      MoveNotIntoWall(room, s, dir);
    }
    ShiftKeepsWalls(room, Moved(room, o, dir), dir);
  }

  /** A robot or box stepping into an empty cell: the swap is the push. */
  lemma StepIntoEmpty(room: Room, p: Pos, dir: Direction)
    requires Walled(room) && Inside(room, p)
    requires var n := Next(room, p, dir); CellAt(room, n.0, n.1) == Empty
    ensures SwapCells(room, p, Next(room, p, dir)) == Shift(room, Moved(room, p, dir), dir)
  {
    assert Moved(room, p, dir) == {p};
    SwapIsShift(room, p, dir);
  }

  /** Pushing the boxes in front of p and then swapping p into the freed
      cell is the push from p. */
  lemma PushThroughBox(room: Room, p: Pos, dir: Direction, g: Room)
    requires Walled(room) && Inside(room, p)
    requires var n := Next(room, p, dir); IsBox(CellAt(room, n.0, n.1))
    requires g == Shift(room, MovedFrom(room, Next(room, p, dir), dir), dir)
    ensures Inside(room, Next(room, p, dir))
    ensures SwapCells(g, p, Next(room, p, dir)) == Shift(room, Moved(room, p, dir), dir)
  {
    var n := Next(room, p, dir);
    NotWallInside(room, n.0, n.1);
    MovedFromBasics(room, n, dir);
    var M := MovedFrom(room, n, dir);
    assert n in M by {
      assert n in Moved(room, n, dir);
    }
    SwapAfterShift(room, M, p, dir);
  }

  /** One moved cell of a successful push: it moves well, what a push
      from it moves is moved too, and unless it is the pusher it is closer
      to the edge ahead. */
  lemma MovedWellAt(room: Room, o: Pos, y: Pos, dir: Direction)
    requires Walled(room) && Pushable(room, o, dir) && CanMove(room, o, dir) == Ok(true)
    requires y in Moved(room, o, dir)
    ensures MovesWell(room, o, y, dir) && Moved(room, y, dir) <= Moved(room, o, dir)
    ensures y != o ==> Dist(room, y, dir) < Dist(room, o, dir)
  {
    MovedSound(room, o, dir);
    MovedBasics(room, o, dir);
    MovedTransitive(room, o, y, dir);
  }

  /** A push into an empty cell succeeds and moves only the pusher. */
  lemma MovedIntoEmpty(room: Room, x: Pos, dir: Direction)
    requires Walled(room) && Pushable(room, x, dir)
    requires var z := Next(room, x, dir); CellAt(room, z.0, z.1) == Empty
    ensures CanMove(room, x, dir) == Ok(true) && Moved(room, x, dir) == {x}
  {
  }

  /** A push into a narrow box is that box's push, plus the pusher. */
  lemma MovedIntoBox(room: Room, x: Pos, dir: Direction)
    requires Walled(room) && Pushable(room, x, dir)
    requires var z := Next(room, x, dir); CellAt(room, z.0, z.1) == Box
    ensures Inside(room, Next(room, x, dir))
    ensures CanMove(room, x, dir) == CanMove(room, Next(room, x, dir), dir)
    ensures Moved(room, x, dir) == {x} + Moved(room, Next(room, x, dir), dir)
  {
    var z := Next(room, x, dir);
    NotWallInside(room, z.0, z.1);
    CanMoveIntoBox(room, x, dir);
    MovedFromBox(room, z, dir);
  }

  /** The check of a push into a narrow box is that box's own check. */
  lemma CanMoveIntoBox(room: Room, x: Pos, dir: Direction)
    requires Walled(room) && Pushable(room, x, dir)
    requires var z := Next(room, x, dir); CellAt(room, z.0, z.1) == Box && Inside(room, z)
    ensures CanMove(room, x, dir) == CanMove(room, Next(room, x, dir), dir)
  {
  }

  /** Pushing sideways into a wide box is the push of that half. */
  lemma CanMoveIntoWideBox(room: Room, x: Pos, dir: Direction)
    requires Walled(room) && Pushable(room, x, dir) && !Vertical(dir)
    requires var z := Next(room, x, dir); var c := CellAt(room, z.0, z.1);
      (c == WideBoxLeft || c == WideBoxRight) && Inside(room, z)
    ensures CanMove(room, x, dir) == CanMove(room, Next(room, x, dir), dir)
  {
    var z := Next(room, x, dir);
    assert CanMove(room, x, dir) == CheckWideBoxMove(room, z, dir);
  }

  /** Pushing into a narrow box moves what the box's own push moves. */
  lemma MovedFromBox(room: Room, z: Pos, dir: Direction)
    requires Walled(room) && Inside(room, z) && CellAt(room, z.0, z.1) == Box
    ensures MovedFrom(room, z, dir) == Moved(room, z, dir)
  {
  }

  /** A vertical push into the left half of a wide box is that box's
      check, and moves what both halves' pushes move, plus the pusher. */
  lemma MovedIntoLeftHalf(room: Room, x: Pos, left: Pos, dir: Direction)
    requires Walled(room) && Pushable(room, x, dir) && Vertical(dir) && Inside(room, left)
    requires CellAt(room, left.0, left.1) == WideBoxLeft && Next(room, x, dir) == left
    ensures CanMove(room, x, dir) == CheckWideBoxMove(room, left, dir)
    ensures Moved(room, x, dir) == {x} + (Moved(room, left, dir) + Moved(room, (left.0 + 1, left.1), dir))
  {
    assert Moved(room, x, dir) == {x} + MovedFrom(room, left, dir);
  }

  /** The same for the right half. */
  lemma MovedIntoRightHalf(room: Room, x: Pos, left: Pos, dir: Direction)
    requires Walled(room) && Pushable(room, x, dir) && Vertical(dir) && Inside(room, left) && Inside(room, (left.0 + 1, left.1))
    requires CellAt(room, left.0 + 1, left.1) == WideBoxRight && Next(room, x, dir) == (left.0 + 1, left.1)
    ensures CanMove(room, x, dir) == CheckWideBoxMove(room, (left.0 + 1, left.1), dir)
    ensures Moved(room, x, dir) == {x} + (Moved(room, left, dir) + Moved(room, (left.0 + 1, left.1), dir))
  {
    var right := (left.0 + 1, left.1);
    assert (right.0 - 1, right.1) == left;
    assert Moved(room, x, dir) == {x} + MovedFrom(room, right, dir);
  }

  /** A vertical push into either half of a wide box succeeds when both
      halves can move, and moves both halves' pushes, plus the pusher. */
  lemma MovedIntoWide(room: Room, x: Pos, left: Pos, dir: Direction)
    requires Walled(room) && Pushable(room, x, dir) && Vertical(dir) && Inside(room, left)
    requires CellAt(room, left.0, left.1) == WideBoxLeft && CellAt(room, left.0 + 1, left.1) == WideBoxRight
    requires Next(room, x, dir) == left || Next(room, x, dir) == (left.0 + 1, left.1)
    ensures Inside(room, (left.0 + 1, left.1))
    ensures CanMove(room, x, dir) == Ok(true) <==>
      CanMove(room, left, dir) == Ok(true) && CanMove(room, (left.0 + 1, left.1), dir) == Ok(true)
    ensures Moved(room, x, dir) == {x} + (Moved(room, left, dir) + Moved(room, (left.0 + 1, left.1), dir))
  {
    WideBoxMovesWithBothHalves(room, left, dir);
    if Next(room, x, dir) == left {
      MovedIntoLeftHalf(room, x, left, dir);
    } else {
      MovedIntoRightHalf(room, x, left, dir);
    }
  }

  /** After the push from a has shifted what it moves, a vertical push
      from x, not moved by it and no further ahead than a, still succeeds
      and moves what it moved before, less what the first push moved. */
  lemma {:induction false} MovedAfter(room: Room, a: Pos, x: Pos, dir: Direction, g: Room)
    requires Walled(room) && Vertical(dir) && Pushable(room, a, dir) && CanMove(room, a, dir) == Ok(true)
    requires g == Shift(room, Moved(room, a, dir), dir) && Walled(g)
    requires Pushable(room, x, dir) && x !in Moved(room, a, dir) && Dist(room, x, dir) <= Dist(room, a, dir)
    requires CanMove(room, x, dir) == Ok(true)
    ensures CanMove(g, x, dir) == Ok(true)
    ensures Moved(g, x, dir) == Moved(room, x, dir) - Moved(room, a, dir)
    decreases Dist(room, x, dir), 1
  {
    var z := Next(room, x, dir);
    var c := CellAt(room, z.0, z.1);
    if z in Moved(room, a, dir) {
      MovedAfterIntoMoved(room, a, x, dir, g);
    } else if c == WideBoxLeft || c == WideBoxRight {
      MovedAfterWide(room, a, x, dir, g);
    } else if c == Box {
      MovedAfterBox(room, a, x, dir, g);
    } else if c == Empty {
      MovedAfterEmpty(room, a, x, dir, g);
    }
  }

  /** The case where x pushes into a cell the first push moved: that cell
      is empty now, and what x moved beyond it was moved already. */
  lemma MovedAfterIntoMoved(room: Room, a: Pos, x: Pos, dir: Direction, g: Room)
    requires Walled(room) && Vertical(dir) && Pushable(room, a, dir) && CanMove(room, a, dir) == Ok(true)
    requires g == Shift(room, Moved(room, a, dir), dir) && Walled(g)
    requires Pushable(room, x, dir) && x !in Moved(room, a, dir) && Dist(room, x, dir) <= Dist(room, a, dir)
    requires CanMove(room, x, dir) == Ok(true)
    requires Next(room, x, dir) in Moved(room, a, dir)
    ensures CanMove(g, x, dir) == Ok(true)
    ensures Moved(g, x, dir) == Moved(room, x, dir) - Moved(room, a, dir)
  {
    var S := Moved(room, a, dir);
    var z := Next(room, x, dir);
    assert Moved(room, x, dir) == {x} + MovedFrom(room, z, dir);
    EmptiedAhead(room, S, x, dir);
    MovedFromWithin(room, a, z, dir);
    MovedIntoEmpty(g, x, dir);
    LessMoved(x, MovedFrom(room, z, dir), S);
  }

  /** A shifted cell whose pusher stays put is left empty. */
  lemma EmptiedAhead(room: Room, S: set<Pos>, x: Pos, dir: Direction)
    requires Valid(room) && Pushable(room, x, dir) && x !in S && Next(room, x, dir) in S
    ensures var z := Next(room, x, dir); CellAt(Shift(room, S, dir), z.0, z.1) == Empty
  {
    var z := Next(room, x, dir);
    NextBack(room, x, z, dir);
    ShiftAt(room, S, dir, z);
  }

  /** What a push into a moved cell other than the pusher moves was moved too. */
  lemma MovedFromWithin(room: Room, a: Pos, z: Pos, dir: Direction)
    requires Walled(room) && Vertical(dir) && Pushable(room, a, dir) && CanMove(room, a, dir) == Ok(true)
    requires z.0 < room.width && z.1 < room.height && z in Moved(room, a, dir) && z != a
    ensures MovedFrom(room, z, dir) <= Moved(room, a, dir)
  {
    MovedWellAt(room, a, z, dir);
    var c := CellAt(room, z.0, z.1);
    if c == WideBoxLeft {
      MovedFromWithinLeft(room, a, z, dir);
    } else if c == WideBoxRight {
      MovedFromWithinRight(room, a, z, dir);
    }
  }

  lemma MovedFromWithinLeft(room: Room, a: Pos, z: Pos, dir: Direction)
    requires Walled(room) && Vertical(dir) && Pushable(room, a, dir) && CanMove(room, a, dir) == Ok(true)
    requires z in Moved(room, a, dir) && z != a && MovesWell(room, a, z, dir) && Moved(room, z, dir) <= Moved(room, a, dir)
    requires CellAt(room, z.0, z.1) == WideBoxLeft
    ensures MovedFrom(room, z, dir) <= Moved(room, a, dir)
  {
    MovedWellAt(room, a, (z.0 + 1, z.1), dir);
  }

  lemma MovedFromWithinRight(room: Room, a: Pos, z: Pos, dir: Direction)
    requires Walled(room) && Vertical(dir) && Pushable(room, a, dir) && CanMove(room, a, dir) == Ok(true)
    requires z in Moved(room, a, dir) && z != a && MovesWell(room, a, z, dir) && Moved(room, z, dir) <= Moved(room, a, dir)
    requires CellAt(room, z.0, z.1) == WideBoxRight
    ensures MovedFrom(room, z, dir) <= Moved(room, a, dir)
  {
    MovedWellAt(room, a, (z.0 - 1, z.1), dir);
  }

  /** The case where x pushes into an unmoved narrow box. */
  lemma {:induction false} MovedAfterBox(room: Room, a: Pos, x: Pos, dir: Direction, g: Room)
    requires Walled(room) && Vertical(dir) && Pushable(room, a, dir) && CanMove(room, a, dir) == Ok(true)
    requires g == Shift(room, Moved(room, a, dir), dir) && Walled(g)
    requires Pushable(room, x, dir) && x !in Moved(room, a, dir) && Dist(room, x, dir) <= Dist(room, a, dir)
    requires CanMove(room, x, dir) == Ok(true)
    requires var z := Next(room, x, dir); z !in Moved(room, a, dir) && CellAt(room, z.0, z.1) == Box
    ensures CanMove(g, x, dir) == Ok(true)
    ensures Moved(g, x, dir) == Moved(room, x, dir) - Moved(room, a, dir)
    decreases Dist(room, x, dir), 0
  {
    var z := Next(room, x, dir);
    MovedIntoBox(room, x, dir);
    ShiftedUnmoved(room, Moved(room, a, dir), x, z, dir);
    MovedAfter(room, a, z, dir, g);
    MovedIntoBox(g, x, dir);
    LessMoved(x, Moved(room, z, dir), Moved(room, a, dir));
  }

  /** The case where x pushes into an unmoved empty cell. */
  lemma MovedAfterEmpty(room: Room, a: Pos, x: Pos, dir: Direction, g: Room)
    requires Walled(room) && Vertical(dir) && Pushable(room, a, dir) && CanMove(room, a, dir) == Ok(true)
    requires g == Shift(room, Moved(room, a, dir), dir) && Walled(g)
    requires Pushable(room, x, dir) && x !in Moved(room, a, dir) && Dist(room, x, dir) <= Dist(room, a, dir)
    requires CanMove(room, x, dir) == Ok(true)
    requires var z := Next(room, x, dir); z !in Moved(room, a, dir) && CellAt(room, z.0, z.1) == Empty
    ensures CanMove(g, x, dir) == Ok(true)
    ensures Moved(g, x, dir) == Moved(room, x, dir) - Moved(room, a, dir)
  {
    var z := Next(room, x, dir);
    ShiftedUnmoved(room, Moved(room, a, dir), x, z, dir);
    MovedIntoEmpty(room, x, dir);
    MovedIntoEmpty(g, x, dir);
    LessMoved(x, {}, Moved(room, a, dir));
  }

  lemma LessMoved(x: Pos, A: set<Pos>, S: set<Pos>)
    requires x !in S
    ensures ({x} + A) - S == {x} + (A - S)
    ensures A <= S ==> ({x} + A) - S == {x}
  {
  }

  lemma LessMovedBoth(x: Pos, A: set<Pos>, B: set<Pos>, S: set<Pos>)
    requires x !in S
    ensures {x} + ((A - S) + (B - S)) == ({x} + (A + B)) - S
  {
  }

  /** The cell to the west of p, whose east neighbour is p. */
  function WestOf(p: Pos): (r: Pos)
    requires p.0 > 0
    ensures (r.0 + 1, r.1) == p
  {
    (p.0 - 1, p.1)
  }

  /** A cell that neither moves nor has a moving cell behind it keeps its
      content through the shift. */
  lemma ShiftedUnmoved(room: Room, S: set<Pos>, b: Pos, q: Pos, dir: Direction)
    requires Valid(room) && Pushable(room, b, dir) && q == Next(room, b, dir) && b !in S && q !in S
    ensures CellAt(Shift(room, S, dir), q.0, q.1) == CellAt(room, q.0, q.1)
  {
    NextBack(room, b, q, dir);
    ShiftAt(room, S, dir, q);
  }

  /** A vertical push from x into a half of a wide box that may move: the
      box is whole, both halves can move, and the push moves what they
      move, plus x. */
  lemma WideAhead(room: Room, x: Pos, left: Pos, dir: Direction)
    requires Walled(room) && Vertical(dir) && Pushable(room, x, dir) && CanMove(room, x, dir) == Ok(true)
    requires var z := Next(room, x, dir);
      (CellAt(room, z.0, z.1) == WideBoxLeft && z == left) || (CellAt(room, z.0, z.1) == WideBoxRight && z == (left.0 + 1, left.1))
    ensures Inside(room, left) && Inside(room, (left.0 + 1, left.1))
    ensures CellAt(room, left.0, left.1) == WideBoxLeft && CellAt(room, left.0 + 1, left.1) == WideBoxRight
    ensures CanMove(room, left, dir) == Ok(true) && CanMove(room, (left.0 + 1, left.1), dir) == Ok(true)
    ensures Moved(room, x, dir) == {x} + (Moved(room, left, dir) + Moved(room, (left.0 + 1, left.1), dir))
  {
    WideAheadWhole(room, x, left, dir);
    MovedIntoWide(room, x, left, dir);
  }

  /** A vertical push from x into a half of a wide box that may move finds
      the box whole. */
  lemma WideAheadWhole(room: Room, x: Pos, left: Pos, dir: Direction)
    requires Walled(room) && Vertical(dir) && Pushable(room, x, dir) && CanMove(room, x, dir) == Ok(true)
    requires var z := Next(room, x, dir);
      (CellAt(room, z.0, z.1) == WideBoxLeft && z == left) || (CellAt(room, z.0, z.1) == WideBoxRight && z == (left.0 + 1, left.1))
    ensures Inside(room, left) && Inside(room, (left.0 + 1, left.1))
    ensures CellAt(room, left.0, left.1) == WideBoxLeft && CellAt(room, left.0 + 1, left.1) == WideBoxRight
  {
    var z := Next(room, x, dir);
    NotWallInside(room, z.0, z.1);
    assert CanMove(room, x, dir) == CheckWideBoxMove(room, z, dir);
    WideBoxNeedsPartner(room, z, dir);
    if z == left {
      NotWallInside(room, left.0 + 1, left.1);
    } else {
      NotWallInside(room, left.0, left.1);
    }
  }

  /** The other half z' of the wide box at z, in front of x and not moved
      by the push from a, is not moved either, nor is the cell x' behind
      it. */
  lemma OtherHalfUnmoved(room: Room, a: Pos, x: Pos, x': Pos, z': Pos, dir: Direction)
    requires Walled(room) && Vertical(dir) && Pushable(room, a, dir) && CanMove(room, a, dir) == Ok(true)
    requires Pushable(room, x, dir) && Dist(room, x, dir) <= Dist(room, a, dir)
    requires Next(room, x, dir) !in Moved(room, a, dir)
    requires Inside(room, z') && Pushable(room, x', dir) && Next(room, x', dir) == z' && x'.1 == x.1
    requires (CellAt(room, z'.0, z'.1) == WideBoxRight && z'.0 > 0 && Next(room, x, dir) == (z'.0 - 1, z'.1))
      || (CellAt(room, z'.0, z'.1) == WideBoxLeft && Next(room, x, dir) == (z'.0 + 1, z'.1))
    ensures z' !in Moved(room, a, dir) && x' !in Moved(room, a, dir)
  {
    assert z' !in Moved(room, a, dir) by {
      if z' in Moved(room, a, dir) {
        MovedWellAt(room, a, z', dir);
      }
    }
    assert x' !in Moved(room, a, dir) by {
      if x' in Moved(room, a, dir) {
        MovedWellAt(room, a, x', dir);
        InMovedAhead(room, x', dir);
      }
    }
  }

  /** Neither half of the wide box in front of x is moved by the push
      from a, nor is the cell behind the half x does not face; so the
      shift leaves both halves where they were. */
  lemma WidePairUnmoved(room: Room, a: Pos, x: Pos, left: Pos, dir: Direction)
    requires Walled(room) && Vertical(dir) && Pushable(room, a, dir) && CanMove(room, a, dir) == Ok(true)
    requires Pushable(room, x, dir) && x !in Moved(room, a, dir) && Dist(room, x, dir) <= Dist(room, a, dir)
    requires Inside(room, left) && Inside(room, (left.0 + 1, left.1))
    requires CellAt(room, left.0, left.1) == WideBoxLeft && CellAt(room, left.0 + 1, left.1) == WideBoxRight
    requires Next(room, x, dir) == left || Next(room, x, dir) == (left.0 + 1, left.1)
    requires Next(room, x, dir) !in Moved(room, a, dir)
    ensures left !in Moved(room, a, dir) && (left.0 + 1, left.1) !in Moved(room, a, dir)
    ensures var g := Shift(room, Moved(room, a, dir), dir);
      CellAt(g, left.0, left.1) == WideBoxLeft && CellAt(g, left.0 + 1, left.1) == WideBoxRight
  {
    if Next(room, x, dir) == left {
      WidePairUnmovedLeft(room, a, x, left, dir);
    } else {
      WidePairUnmovedRight(room, a, x, left, dir);
    }
  }

  lemma WidePairUnmovedLeft(room: Room, a: Pos, x: Pos, left: Pos, dir: Direction)
    requires Walled(room) && Vertical(dir) && Pushable(room, a, dir) && CanMove(room, a, dir) == Ok(true)
    requires Pushable(room, x, dir) && x !in Moved(room, a, dir) && Dist(room, x, dir) <= Dist(room, a, dir)
    requires Inside(room, left) && Inside(room, (left.0 + 1, left.1))
    requires CellAt(room, left.0, left.1) == WideBoxLeft && CellAt(room, left.0 + 1, left.1) == WideBoxRight
    requires Next(room, x, dir) == left && left !in Moved(room, a, dir)
    ensures (left.0 + 1, left.1) !in Moved(room, a, dir)
    ensures var g := Shift(room, Moved(room, a, dir), dir);
      CellAt(g, left.0, left.1) == WideBoxLeft && CellAt(g, left.0 + 1, left.1) == WideBoxRight
  {
    var right := (left.0 + 1, left.1);
    var x' := (right.0, x.1);
    assert Next(room, x', dir) == right;
    OtherHalfUnmoved(room, a, x, x', right, dir);
    PairShiftedUnmoved(room, Moved(room, a, dir), x, x', left, dir);
  }

  lemma WidePairUnmovedRight(room: Room, a: Pos, x: Pos, left: Pos, dir: Direction)
    requires Walled(room) && Vertical(dir) && Pushable(room, a, dir) && CanMove(room, a, dir) == Ok(true)
    requires Pushable(room, x, dir) && x !in Moved(room, a, dir) && Dist(room, x, dir) <= Dist(room, a, dir)
    requires Inside(room, left) && Inside(room, (left.0 + 1, left.1))
    requires CellAt(room, left.0, left.1) == WideBoxLeft && CellAt(room, left.0 + 1, left.1) == WideBoxRight
    requires Next(room, x, dir) == (left.0 + 1, left.1) && (left.0 + 1, left.1) !in Moved(room, a, dir)
    ensures left !in Moved(room, a, dir)
    ensures var g := Shift(room, Moved(room, a, dir), dir);
      CellAt(g, left.0, left.1) == WideBoxLeft && CellAt(g, left.0 + 1, left.1) == WideBoxRight
  {
    var x' := (left.0, x.1);
    assert Next(room, x', dir) == left;
    OtherHalfUnmoved(room, a, x, x', left, dir);
    PairShiftedUnmoved(room, Moved(room, a, dir), x', x, left, dir);
  }

  lemma PairShiftedUnmoved(room: Room, S: set<Pos>, xl: Pos, xr: Pos, left: Pos, dir: Direction)
    requires Valid(room) && left.0 + 1 < room.width && left.1 < room.height
    requires Pushable(room, xl, dir) && Next(room, xl, dir) == left && xl !in S && left !in S
    requires Pushable(room, xr, dir) && Next(room, xr, dir) == (left.0 + 1, left.1) && xr !in S && (left.0 + 1, left.1) !in S
    ensures CellAt(Shift(room, S, dir), left.0, left.1) == CellAt(room, left.0, left.1)
    ensures CellAt(Shift(room, S, dir), left.0 + 1, left.1) == CellAt(room, left.0 + 1, left.1)
  {
    ShiftedUnmoved(room, S, xl, left, dir);
    ShiftedUnmoved(room, S, xr, (left.0 + 1, left.1), dir);
  }

  /** The same as MovedAfter, when the cell in front of x holds, unmoved, a
      half of a wide box: both halves still move and move what they did,
      less what the first push moved. */
  lemma {:induction false} MovedAfterWide(room: Room, a: Pos, x: Pos, dir: Direction, g: Room)
    requires Walled(room) && Vertical(dir) && Pushable(room, a, dir) && CanMove(room, a, dir) == Ok(true)
    requires g == Shift(room, Moved(room, a, dir), dir) && Walled(g)
    requires Pushable(room, x, dir) && x !in Moved(room, a, dir) && Dist(room, x, dir) <= Dist(room, a, dir)
    requires CanMove(room, x, dir) == Ok(true)
    requires var z := Next(room, x, dir);
      z !in Moved(room, a, dir) && (CellAt(room, z.0, z.1) == WideBoxLeft || CellAt(room, z.0, z.1) == WideBoxRight)
    ensures CanMove(g, x, dir) == Ok(true)
    ensures Moved(g, x, dir) == Moved(room, x, dir) - Moved(room, a, dir)
    decreases Dist(room, x, dir), 0
  {
    var z := Next(room, x, dir);
    NotWallInside(room, z.0, z.1);
    var left := if CellAt(room, z.0, z.1) == WideBoxLeft then z else WestOf(z);
    var right := (left.0 + 1, left.1);
    WideAhead(room, x, left, dir);
    WidePairUnmoved(room, a, x, left, dir);
    MovedAfter(room, a, left, dir, g);
    MovedAfter(room, a, right, dir, g);
    MovedIntoWide(g, x, left, dir);
    LessMovedBoth(x, Moved(room, left, dir), Moved(room, right, dir), Moved(room, a, dir));
  }

  /** Pushing vertically from b after pushing from a beside it: no cell
      b moves, outside what a moved, stands right in front of a cell a
      moved. */
  lemma SecondPushBehind(room: Room, a: Pos, b: Pos, dir: Direction)
    requires Walled(room) && Vertical(dir) && Inside(room, a) && Inside(room, b) && a.1 == b.1
    requires CanMove(room, a, dir) == Ok(true) && CanMove(room, b, dir) == Ok(true)
    ensures NoneBehind(room, Moved(room, a, dir), Moved(room, b, dir), dir)
  {
    var S := Moved(room, a, dir);
    var T := Moved(room, b, dir);
    forall v | v in T && v !in S && v.0 < room.width && v.1 < room.height
      ensures var u := Back(room, v, dir); u.Some? ==> u.value !in S
    {
      var u := Back(room, v, dir);
      if u.Some? && u.value in S {
        MovedWellAt(room, a, u.value, dir);
        if v != b {
          MovedWellAt(room, b, v, dir);
          NextBack(room, u.value, v, dir);
          InMovedAhead(room, u.value, dir);
        }
      }
    }
  }

  /** Pushing the two halves of a wide box one after the other moves what
      pushing both together would: after the first half's push the second
      half can still move, and the two shifts add up. */
  lemma ComposeShifts(room: Room, a: Pos, b: Pos, dir: Direction, g: Room)
    requires Walled(room) && Vertical(dir) && Inside(room, a) && Inside(room, b) && a.1 == b.1 && a != b
    requires CanMove(room, a, dir) == Ok(true) && CanMove(room, b, dir) == Ok(true)
    requires g == Shift(room, Moved(room, a, dir), dir) && Walled(g)
    ensures CanMove(g, b, dir) == Ok(true)
    ensures Shift(g, Moved(g, b, dir), dir) == Shift(room, Moved(room, a, dir) + Moved(room, b, dir), dir)
  {
    assert b !in Moved(room, a, dir) by {
      if b in Moved(room, a, dir) {
        MovedWellAt(room, a, b, dir);
      }
    }
    MovedAfter(room, a, b, dir, g);
    SecondPushBehind(room, a, b, dir);
    ComposeShift(room, Moved(room, a, dir), Moved(room, b, dir), dir);
  }

  /** `push`: when the thing at p can move, push what is in front of it and
      step into the freed cell; when it cannot, change nothing. A push that
      can move gives the room in which every cell it moves has taken one
      step. Cells are only ever exchanged, so no cell is created or lost
      and the walls stay. */
  method Push(grid: Grid<Cell>, p: Pos, dir: Direction) returns (r: Result<(), Error>)
    requires Walled(RoomOf(grid)) && Pushable(RoomOf(grid), p, dir)
    modifies grid
    ensures Walled(RoomOf(grid)) && multiset(grid.data) == multiset(old(grid.data))
    ensures old(CanMove(RoomOf(grid), p, dir)) != Ok(true) ==> grid.data == old(grid.data)
    ensures old(CanMove(RoomOf(grid), p, dir)).Err? ==> r == Err(old(CanMove(RoomOf(grid), p, dir)).error)
    ensures old(CanMove(RoomOf(grid), p, dir)) == Ok(true) ==>
      r == Ok(()) && RoomOf(grid) == Shift(old(RoomOf(grid)), old(Moved(RoomOf(grid), p, dir)), dir)
    decreases Dist(RoomOf(grid), p, dir), 0
  {
    ghost var room := RoomOf(grid);
    var can := CanMove(RoomOf(grid), p, dir);
    if can.Err? {
      r := Err(can.error);
    } else if !can.value {
      r := Ok(());
    } else {
      CanMoveInside(room, p, dir);
      var n := Next(RoomOf(grid), p, dir);
      var c := CellAt(RoomOf(grid), n.0, n.1);
      r := Ok(());
      if c == Empty {
        StepIntoEmpty(room, p, dir);
        Swap(grid, p, n);
      } else if IsBox(c) {
        PushIntoBox(room, p, dir);
        r := HandleBoxPush(grid, n, dir);
        if r.Ok? {
          PushThroughBox(room, p, dir, RoomOf(grid));
          Swap(grid, p, n);
        }
      }
    }
  }

  /** A successful push into a box is that box's own check succeeding. */
  lemma PushIntoBox(room: Room, p: Pos, dir: Direction)
    requires Walled(room) && Pushable(room, p, dir) && CanMove(room, p, dir) == Ok(true)
    requires var n := Next(room, p, dir); IsBox(CellAt(room, n.0, n.1))
    ensures Inside(room, Next(room, p, dir))
    ensures CheckWideBoxMove(room, Next(room, p, dir), dir) == Ok(true)
  {
    var n := Next(room, p, dir);
    NotWallInside(room, n.0, n.1);
  }

  /** A wide box pushed vertically from its left half p moves, when it
      can, what pushes from both halves move. */
  lemma WideLeftMoves(room: Room, p: Pos, dir: Direction)
    requires Walled(room) && Inside(room, p) && Vertical(dir) && CellAt(room, p.0, p.1) == WideBoxLeft
    ensures CheckWideBoxMove(room, p, dir) == Ok(true) ==>
      Inside(room, (p.0 + 1, p.1)) && CellAt(room, p.0 + 1, p.1) == WideBoxRight
      && CanMove(room, p, dir) == Ok(true) && CanMove(room, (p.0 + 1, p.1), dir) == Ok(true)
      && MovedFrom(room, p, dir) == Moved(room, p, dir) + Moved(room, (p.0 + 1, p.1), dir)
  {
    WideBoxNeedsPartner(room, p, dir);
    if CellAt(room, p.0 + 1, p.1) == WideBoxRight {
      WideBoxMovesWithBothHalves(room, p, dir);
    }
  }

  /** The same, pushed from its right half p. */
  lemma WideRightMoves(room: Room, p: Pos, dir: Direction)
    requires Walled(room) && Inside(room, p) && Vertical(dir) && CellAt(room, p.0, p.1) == WideBoxRight
    ensures CheckWideBoxMove(room, p, dir) == Ok(true) ==>
      Inside(room, WestOf(p)) && CellAt(room, WestOf(p).0, WestOf(p).1) == WideBoxLeft
      && CanMove(room, WestOf(p), dir) == Ok(true) && CanMove(room, p, dir) == Ok(true)
      && MovedFrom(room, p, dir) == Moved(room, WestOf(p), dir) + Moved(room, p, dir)
  {
    WideBoxNeedsPartner(room, p, dir);
    var left := WestOf(p);
    if CellAt(room, left.0, left.1) == WideBoxLeft {
      NotWallInside(room, left.0, left.1);
      WideBoxMovesWithBothHalves(room, left, dir);
      assert MovedFrom(room, p, dir) == Moved(room, (p.0 - 1, p.1), dir) + Moved(room, p, dir);
    }
  }

  /** Any other box pushed moves as a single cell. */
  lemma NarrowMoves(room: Room, p: Pos, dir: Direction)
    requires Walled(room) && Inside(room, p)
    requires var c := CellAt(room, p.0, p.1); IsBox(c) && !(Vertical(dir) && (c == WideBoxLeft || c == WideBoxRight))
    ensures CheckWideBoxMove(room, p, dir) == CanMove(room, p, dir)
    ensures MovedFrom(room, p, dir) == Moved(room, p, dir)
  {
  }

  /** `handle_box_push`: a vertically pushed wide box is pushed half by
      half, left half first; any other box is pushed on its own. When the
      box can move, the room is the one in which it and everything in front
      of it have taken one step. */
  method HandleBoxPush(grid: Grid<Cell>, p: Pos, dir: Direction) returns (r: Result<(), Error>)
    requires Walled(RoomOf(grid)) && Inside(RoomOf(grid), p)
    modifies grid
    ensures Walled(RoomOf(grid)) && multiset(grid.data) == multiset(old(grid.data))
    ensures IsBox(old(CellAt(RoomOf(grid), p.0, p.1))) && old(CheckWideBoxMove(RoomOf(grid), p, dir)) == Ok(true) ==>
      r == Ok(()) && RoomOf(grid) == Shift(old(RoomOf(grid)), old(MovedFrom(RoomOf(grid), p, dir)), dir)
    decreases Dist(RoomOf(grid), p, dir), 1
  {
    ghost var room := RoomOf(grid);
    ghost var moves := CheckWideBoxMove(room, p, dir) == Ok(true);
    var cell := CellAt(RoomOf(grid), p.0, p.1);
    if cell == WideBoxLeft && Vertical(dir) {
      var right := (p.0 + 1, p.1);
      WideLeftMoves(room, p, dir);
      r := Push(grid, p, dir);
      if r.Ok? {
        if moves {
          ComposeShifts(room, p, right, dir, RoomOf(grid));
        }
        r := Push(grid, right, dir);
      }
    } else if cell == WideBoxRight && Vertical(dir) {
      var left := WestOf(p);
      WideRightMoves(room, p, dir);
      r := Push(grid, left, dir);
      if r.Ok? {
        if moves {
          ComposeShifts(room, left, p, dir, RoomOf(grid));
        }
        r := Push(grid, p, dir);
      }
    } else {
      if IsBox(cell) {
        NarrowMoves(room, p, dir);
      }
      r := Push(grid, p, dir);
    }
  }

  // ---------------------------------------------------------------------
  // find_robot, compute_gps and the solver

  /** The first robot in row-major order. */
  function FirstRobot(data: seq<Cell>): (r: Option<nat>)
    ensures r.None? <==> Robot !in data
    ensures r.Some? ==> r.value < |data| && data[r.value] == Robot
    ensures r.Some? ==> forall k :: 0 <= k < r.value ==> data[k] != Robot
  {
    if data == [] then None
    else if data[0] == Robot then Some(0)
    else
      match FirstRobot(data[1..])
      case None => None
      case Some(k) => Some(k + 1)
  }

  /** `find_robot`: the position of the first robot; in a walled room it is
      inside the walls. */
  function FindRobot(room: Room): (r: Result<Pos, Error>)
    requires Walled(room)
    ensures r.Err? <==> Robot !in multiset(room.cells)
    ensures r.Err? ==> r.error == NoRobot
    ensures r.Ok? ==> Inside(room, r.value) && CellAt(room, r.value.0, r.value.1) == Robot
    ensures r.Ok? ==> forall k :: 0 <= k < Index(room.width, r.value.0, r.value.1) <= |room.cells| ==> room.cells[k] != Robot
  {
    match FirstRobot(room.cells)
    case None => Err(NoRobot)
    case Some(k) =>
      var p := IdxToXy(room.width, k);
      IdxToXyInGrid(room.width, room.height, k);
      assert CellAt(room, p.0, p.1) == room.cells[k];
      NotWallInside(room, p.0, p.1);
      Ok(p)
  }

  predicate CountsForGps(c: Cell)
  {
    c == Box || c == WideBoxLeft
  }

  /** The GPS coordinate of the cell at index k, if it holds a box. */
  function GpsTerm(data: seq<Cell>, w: nat, k: nat): nat
    requires w > 0 && k < |data|
  {
    if CountsForGps(data[k]) then (k / w) * 100 + k % w else 0
  }

  /** The sum over the first n cells: nothing without a box among them,
      and at least each of their terms. */
  function GpsPrefix(data: seq<Cell>, w: nat, n: nat): (r: nat)
    requires w > 0 && n <= |data|
    ensures (forall k :: 0 <= k < n ==> !CountsForGps(data[k])) ==> r == 0
    ensures forall k :: 0 <= k < n ==> GpsTerm(data, w, k) <= r
  {
    if n == 0 then 0 else GpsPrefix(data, w, n - 1) + GpsTerm(data, w, n - 1)
  }

  /** `compute_gps`: add up 100 * y + x over every narrow box and every
      left half of a wide box; a room without boxes scores 0, and every
      box adds its own coordinate. */
  function ComputeGps(room: Room): (r: nat)
    requires Valid(room) && room.width > 0
    ensures (forall k :: 0 <= k < |room.cells| ==> !CountsForGps(room.cells[k])) ==> r == 0
    ensures forall x: nat, y: nat :: x < room.width && y < room.height && CountsForGps(CellAt(room, x, y)) ==>
      100 * y + x <= r
  {
    var r := GpsPrefix(room.cells, room.width, |room.cells|);
    assert forall x: nat, y: nat :: x < room.width && y < room.height && CountsForGps(CellAt(room, x, y)) ==>
      100 * y + x <= r by {
      forall x: nat, y: nat | x < room.width && y < room.height && CountsForGps(CellAt(room, x, y))
        ensures 100 * y + x <= r
      {
        CellIndexBound(x, y, room.width, room.height);
        GpsTermAt(room.cells, room.width, x, y);
      }
    }
    r
  }

  /** The term of the cell (x, y) is 100 * y + x for a box, 0 otherwise. */
  lemma GpsTermAt(data: seq<Cell>, w: nat, x: nat, y: nat)
    requires x < w && Index(w, x, y) < |data|
    ensures GpsTerm(data, w, Index(w, x, y)) == if CountsForGps(data[Index(w, x, y)]) then 100 * y + x else 0
  {
    IdxToXyOfOffset(w, x, y);
  }

  lemma {:induction false} GpsPrefixSame(d1: seq<Cell>, d2: seq<Cell>, w: nat, n: nat)
    requires w > 0 && n <= |d1| && n <= |d2|
    requires forall k :: 0 <= k < n ==> CountsForGps(d1[k]) == CountsForGps(d2[k])
    ensures GpsPrefix(d1, w, n) == GpsPrefix(d2, w, n)
  {
    if n > 0 {
      GpsPrefixSame(d1, d2, w, n - 1);
    }
  }

  /** Exchanging two cells that hold no box, as a robot stepping into an
      empty cell does, leaves the GPS sum as it was. */
  lemma SwapKeepsGps(data: seq<Cell>, w: nat, i: nat, j: nat)
    requires w > 0 && i < |data| && j < |data|
    requires !CountsForGps(data[i]) && !CountsForGps(data[j])
    ensures GpsPrefix(Swapped(data, i, j), w, |data|) == GpsPrefix(data, w, |data|)
  {
    GpsPrefixSame(Swapped(data, i, j), data, w, |data|);
  }

  /** One command: the room after the robot at p tries a step in dir. */
  function StepRoom(room: Room, p: Pos, dir: Direction): (r: Room)
    requires Walled(room) && Pushable(room, p, dir)
    ensures Walled(r)
  {
    if CanMove(room, p, dir) == Ok(true) then
      ShiftWalled(room, p, dir);
      Shift(room, Moved(room, p, dir), dir)
    else room
  }

  /** The room after the commands, each a step of the first robot; without
      a robot there is no step to take. */
  function Run(room: Room, commands: seq<Direction>): Result<Room, Error>
    requires Walled(room)
    decreases |commands|
  {
    if commands == [] then Ok(room)
    else
      match FindRobot(room)
      case Err(e) => Err(e)
      case Ok(robot) => Run(StepRoom(room, robot, commands[0]), commands[1..])
  }

  /** `solver`: push the robot once per command, ignoring failed pushes,
      then score the room. Without a robot the first command fails. */
  method Solver(grid: Grid<Cell>, commands: seq<Direction>) returns (r: Result<nat, Error>)
    requires Walled(RoomOf(grid))
    modifies grid
    ensures Walled(RoomOf(grid)) && multiset(grid.data) == multiset(old(grid.data))
    ensures r.Err? <==> |commands| > 0 && Robot !in multiset(old(grid.data))
    ensures r.Ok? <==> Run(old(RoomOf(grid)), commands).Ok?
    ensures r.Ok? ==> RoomOf(grid) == Run(old(RoomOf(grid)), commands).value && r.value == ComputeGps(RoomOf(grid))
  {
    for i := 0 to |commands|
      invariant Walled(RoomOf(grid)) && multiset(grid.data) == multiset(old(grid.data))
      invariant i > 0 ==> Robot in multiset(old(grid.data))
      invariant Run(old(RoomOf(grid)), commands) == Run(RoomOf(grid), commands[i..])
    {
      var robot := FindRobot(RoomOf(grid));
      if robot.Err? {
        return Err(robot.error);
      }
      ghost var before := RoomOf(grid);
      var ignored := Push(grid, robot.value, commands[i]);
      assert RoomOf(grid) == StepRoom(before, robot.value, commands[i]);
      assert commands[i..][1..] == commands[i + 1..];
    }
    return Ok(ComputeGps(RoomOf(grid)));
  }
}
