/** The earlier day-6 program: the same walk with one visited flag per cell,
    and a step that keeps turning right until the way ahead is free. Its
    local grid has the bounds semantics of the library grid, which models
    it; the directions are those of the later program. */
module Day6 {
  import opened Util
  import opened GridLib
  import opened Day06

  /** The way ahead of p in direction d is free: outside the room, or an
      unoccupied cell. */
  predicate FreeAhead(occ: seq<bool>, w: nat, h: nat, p: (int, int), d: Direction)
    requires Room(occ, w, h)
  {
    var c := Candidate(p, d);
    !Within(w, h, c) || !OccupiedAt(occ, w, h, c)
  }

  /** All four neighbours are obstacles: the turning loop of `step` would
      never end there. */
  predicate BoxedIn(occ: seq<bool>, w: nat, h: nat, p: (int, int))
    requires Room(occ, w, h)
  {
    !FreeAhead(occ, w, h, p, Up) && !FreeAhead(occ, w, h, p, Down) &&
    !FreeAhead(occ, w, h, p, Left) && !FreeAhead(occ, w, h, p, Right)
  }

  /** The number of right turns `step` makes before the way ahead is free:
      the first free direction in turning order. */
  function TurnsNeeded(occ: seq<bool>, w: nat, h: nat, p: (int, int), d: Direction): (n: nat)
    requires Room(occ, w, h) && !BoxedIn(occ, w, h, p)
    ensures n < 4 && FreeAhead(occ, w, h, p, Turns(d, n))
    ensures forall m :: 0 <= m < n ==> !FreeAhead(occ, w, h, p, Turns(d, m))
  {
    assert Turns(d, 1) == TurnRight(d);
    assert Turns(d, 2) == TurnRight(TurnRight(d));
    assert Turns(d, 3) == TurnRight(TurnRight(TurnRight(d)));
    if FreeAhead(occ, w, h, p, d) then 0
    else if FreeAhead(occ, w, h, p, Turns(d, 1)) then 1
    else if FreeAhead(occ, w, h, p, Turns(d, 2)) then 2
    else 3
  }

  /** `Map`: occupancy and one visited flag per cell. */
  class Map {
    const occupancy: Grid<bool>
    const visited: Grid<bool>

    ghost predicate Valid()
      reads this, occupancy, visited
    {
      occupancy != visited &&
      occupancy.Valid() && visited.Valid() &&
      visited.width == occupancy.width && visited.height == occupancy.height
    }

    constructor (occupancy: Grid<bool>, visited: Grid<bool>)
      ensures this.occupancy == occupancy && this.visited == visited
    {
      this.occupancy := occupancy;
      this.visited := visited;
    }

    function Width(): nat
      reads this
    {
      occupancy.width
    }

    function Height(): nat
      reads this
    {
      occupancy.height
    }

    function IsWithinExtents(x: int, y: int): (r: bool)
      reads this, occupancy
      ensures r <==> Within(Width(), Height(), (x, y))
    {
      occupancy.IsWithinExtents(x, y)
    }

    function IsOccupied(x: nat, y: nat): (r: bool)
      reads this, occupancy, visited
      requires Valid() && x < Width() && y < Height()
      ensures r == OccupiedAt(occupancy.data, Width(), Height(), (x, y))
    {
      occupancy.InExtentsHasOffset(x, y);
      occupancy.At(x, y)
    }

    /** `visit`: the cell's flag becomes true; no other flag changes. */
    method Visit(x: nat, y: nat)
      requires Valid() && x < Width() && y < Height()
      modifies visited
      ensures Valid()
      ensures Cell(Width(), x, y) < |old(visited.data)|
      ensures visited.data == old(visited.data)[Cell(Width(), x, y) := true]
    {
      visited.InExtentsHasOffset(x, y);
      visited.Set(x, y, true);
    }

    /** `Map::from_str`: a cell is occupied exactly when its character is
        `#`, guard characters included as free cells; nothing is visited. */
    static method FromStr(lines: seq<string>) returns (room: Map)
      requires WellShaped(lines)
      ensures fresh(room) && fresh(room.occupancy) && fresh(room.visited) && room.Valid()
      ensures room.Width() == |lines[0]| && room.Height() == |lines|
      ensures room.occupancy.data == OccupancyOf(lines)
      ensures forall k :: 0 <= k < |room.visited.data| ==> !room.visited.data[k]
    {
      var height, width := |lines|, |lines[0]|;
      var occupancy := new Grid.New(width, height, false);
      MulIsProduct(height, width);
      for y := 0 to height
        invariant occupancy.Valid() && occupancy.width == width && occupancy.height == height
        invariant forall k :: 0 <= k < |occupancy.data| ==> occupancy.data[k] == (k < Cell(width, 0, y) && OccupancyOf(lines)[k])
      {
        FillRow(lines, y, occupancy);
        ShortLineTail(lines, y, occupancy.data);
      }
      var visited := new Grid.New(width, height, false);
      room := new Map(occupancy, visited);
    }
  }

  /** The inner loop of `from_str` over row y. */
  method FillRow(lines: seq<string>, y: nat, occupancy: Grid<bool>)
    requires WellShaped(lines) && y < |lines|
    requires occupancy.Valid() && occupancy.width == |lines[0]| && occupancy.height == |lines|
    requires forall k :: 0 <= k < |occupancy.data| ==> occupancy.data[k] == (k < Cell(|lines[0]|, 0, y) && OccupancyOf(lines)[k])
    modifies occupancy
    ensures occupancy.Valid()
    ensures forall k :: 0 <= k < |occupancy.data| ==> occupancy.data[k] == (k < Cell(|lines[0]|, |lines[y]|, y) && OccupancyOf(lines)[k])
  {
    var width := |lines[0]|;
    for x := 0 to |lines[y]|
      invariant occupancy.Valid()
      invariant forall k :: 0 <= k < |occupancy.data| ==> occupancy.data[k] == (k < Cell(width, x, y) && OccupancyOf(lines)[k])
    {
      OccupancyOfAt(lines, x, y);
      occupancy.InExtentsHasOffset(x, y);
      occupancy.Set(x, y, lines[y][x] == '#');
    }
  }

  /** `Guard`: a position, a heading, and the room it walks in. */
  class Guard {
    var i: int
    var j: int
    var direction: Direction
    const room: Map

    /** `Guard::new`: the start cell is visited. */
    constructor (i: int, j: int, room: Map, direction: Direction)
      requires room.Valid() && room.IsWithinExtents(i, j)
      modifies room.visited
      ensures this.room == room && this.i == i && this.j == j && this.direction == direction
      ensures room.Valid() && Cell(room.Width(), i, j) < |old(room.visited.data)|
      ensures room.visited.data == old(room.visited.data)[Cell(room.Width(), i, j) := true]
    {
      this.i := i;
      this.j := j;
      this.room := room;
      this.direction := direction;
      new;
      room.Visit(i, j);
    }

    /** `Guard::step`: turn right until the way ahead is free, then take it.
        The result is false exactly when that step leaves the room; a step
        inside the room lands on a free cell and visits it. */
    method Step() returns (inRoom: bool)
      requires room.Valid() && !BoxedIn(room.occupancy.data, room.Width(), room.Height(), (i, j))
      modifies this, room.visited
      ensures room.Valid()
      ensures direction == Turns(old(direction), TurnsNeeded(room.occupancy.data, room.Width(), room.Height(), old((i, j)), old(direction)))
      ensures (i, j) == Candidate(old((i, j)), direction)
      ensures inRoom <==> Within(room.Width(), room.Height(), (i, j))
      ensures inRoom ==> !OccupiedAt(room.occupancy.data, room.Width(), room.Height(), (i, j))
      ensures inRoom ==> (Cell(room.Width(), i, j) < |old(room.visited.data)| &&
        room.visited.data == old(room.visited.data)[Cell(room.Width(), i, j) := true])
      ensures !inRoom ==> room.visited.data == old(room.visited.data)
    {
      ghost var occ, w, h := room.occupancy.data, room.Width(), room.Height();
      ghost var p, d := (i, j), direction;
      ghost var needed := TurnsNeeded(occ, w, h, p, d);
      ghost var turns := 0;
      while true
        invariant (i, j) == p && direction == Turns(d, turns) && turns <= needed
        invariant room.visited.data == old(room.visited.data)
        decreases needed - turns
      {
        var (x, y) := Candidate((i, j), direction);
        if !room.IsWithinExtents(x, y) {
          i, j := x, y;
          return false;
        }
        if room.IsOccupied(x, y) {
          direction := TurnRight(direction);
          turns := turns + 1;
        } else {
          i, j := x, y;
          room.Visit(x, y);
          return true;
        }
      }
    }
  }
}
