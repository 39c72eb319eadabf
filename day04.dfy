/** Day 4: a word search for XMAS in eight directions, and for two MAS
    crossing in an X. */
module Day04 {
  import opened Util
  import opened Wrappers

  datatype Direction = Up | Down | Left | Right | UpRight | UpLeft | DownRight | DownLeft

  /** A (row, column) position and a position with a search direction. */
  type Position = (nat, nat)
  type Triple = (Position, Direction)

  /** `Direction::offset`: the (row, column) displacement from the X to
      the S of a match. */
  function Offset(d: Direction): (int, int)
  {
    match d
    case Up => (0, -3)
    case Down => (0, 3)
    case Left => (-3, 0)
    case Right => (3, 0)
    case UpRight => (3, -3)
    case UpLeft => (-3, -3)
    case DownRight => (3, 3)
    case DownLeft => (-3, 3)
  }

  /** `Direction::all`. */
  function All(): (r: seq<Direction>)
    ensures |r| == 8 && NoDuplicates(r)
    ensures forall d :: d in r
  {
    EveryDirectionListed();
    [Up, Down, Left, Right, UpRight, UpLeft, DownRight, DownLeft]
  }

  lemma EveryDirectionListed()
    ensures forall d :: d in [Up, Down, Left, Right, UpRight, UpLeft, DownRight, DownLeft]
  {
    forall d ensures d in [Up, Down, Left, Right, UpRight, UpLeft, DownRight, DownLeft] {
      match d
      case Up => case Down => case Left => case Right =>
      case UpRight => case UpLeft => case DownRight => case DownLeft =>
    }
  }

  /** Every offset is three times a unit king move, and the eight
      directions have eight different offsets. */
  lemma OffsetsAreKingMoves()
    ensures forall d :: Offset(d).0 % 3 == 0 && Offset(d).1 % 3 == 0
    ensures forall d :: Abs(Offset(d).0 / 3) <= 1 && Abs(Offset(d).1 / 3) <= 1 && Offset(d) != (0, 0)
    ensures forall d, e :: d != e ==> Offset(d) != Offset(e)
  {
  }

  /** No line is shorter than the first. Every cell within the first
      line's width then exists; a longer later line is fine, since nothing
      past that width is read. */
  predicate NoShortRows(grid: seq<string>)
  {
    forall r :: 0 <= r < |grid| ==> |grid[r]| >= |grid[0]|
  }

  /** What the searches read from: a first line, and no shorter one. */
  predicate Readable(grid: seq<string>)
  {
    |grid| > 0 && NoShortRows(grid)
  }

  /** `is_in_bounds`, measured against the first row's length. */
  predicate InBounds(grid: seq<string>, row: int, col: int)
  {
    0 <= row && 0 <= col && row < |grid| && col < |grid[0]|
  }

  /** k times a step of -1, 0 or 1, without multiplication. */
  function Scale(k: int, step: int): int
  {
    if step == 0 then 0 else if step > 0 then k else -k
  }

  /** The letter at an in-bounds cell. */
  function At(grid: seq<string>, row: int, col: int): char
    requires Readable(grid) && InBounds(grid, row, col)
  {
    grid[row][col]
  }

  /** The for-loop of `search_xmas` from k on: the remaining letters of
      XMAS lie along the step. */
  function XmasFrom(grid: seq<string>, i: int, j: int, rs: int, cs: int, k: nat): (r: bool)
    requires Readable(grid) && k <= 4
    requires forall m :: k <= m < 4 ==> InBounds(grid, i + Scale(m, rs), j + Scale(m, cs))
    ensures r <==> forall m :: k <= m < 4 ==> At(grid, i + Scale(m, rs), j + Scale(m, cs)) == "XMAS"[m]
    decreases 4 - k
  {
    if k == 4 then true
    else if At(grid, i + Scale(k, rs), j + Scale(k, cs)) != "XMAS"[k] then false
    else XmasFrom(grid, i, j, rs, cs, k + 1)
  }

  /** Every cell from (i, j) to (i + x, j + y) in steps of a third. */
  predicate Segment(grid: seq<string>, i: int, j: int, x: int, y: int)
  {
    forall m :: 0 <= m < 4 ==> InBounds(grid, i + Scale(m, x), j + Scale(m, y))
  }

  /** The bounds check of the endpoint covers the cells in between. */
  lemma EndpointCoversSegment(grid: seq<string>, i: nat, j: nat, d: Direction)
    requires i < |grid| && j < |grid[0]| && InBounds(grid, i + Offset(d).0, j + Offset(d).1)
    ensures Segment(grid, i, j, Offset(d).0, Offset(d).1)
  {
  }

  /** A third of an offset steps the same way as the offset. */
  lemma ThirdStepsAlike(x: int, s: int)
    requires ThreeSteps(x) && s == x / 3
    ensures forall m :: Scale(m, s) == Scale(m, x)
  {
    assert x < 0 ==> s == -1;
    assert x > 0 ==> s == 1;
  }

  /** Each component of an offset is -3, 0 or 3. */
  predicate ThreeSteps(x: int)
  {
    x == -3 || x == 0 || x == 3
  }

  lemma OffsetThreeSteps(d: Direction)
    ensures ThreeSteps(Offset(d).0) && ThreeSteps(Offset(d).1)
  {
  }

  /** The m-th cell towards an in-bounds endpoint is in bounds, and a
      third of the offset reaches it as well. */
  lemma CellAlong(grid: seq<string>, i: nat, j: nat, x: int, y: int, m: int)
    requires i < |grid| && j < |grid[0]| && InBounds(grid, i + x, j + y)
    requires ThreeSteps(x) && ThreeSteps(y) && 0 <= m < 4
    ensures InBounds(grid, i + Scale(m, x), j + Scale(m, y))
    ensures Scale(m, x / 3) == Scale(m, x) && Scale(m, y / 3) == Scale(m, y)
  {
    ThirdStepsAlike(x, x / 3);
    ThirdStepsAlike(y, y / 3);
  }

  /** The four cells from (i, j) stepping along (x, y) read X, M, A, S. */
  predicate Spells(grid: seq<string>, i: int, j: int, x: int, y: int)
    requires Readable(grid) && Segment(grid, i, j, x, y)
  {
    At(grid, i + Scale(0, x), j + Scale(0, y)) == 'X' && At(grid, i + Scale(1, x), j + Scale(1, y)) == 'M' &&
    At(grid, i + Scale(2, x), j + Scale(2, y)) == 'A' && At(grid, i + Scale(3, x), j + Scale(3, y)) == 'S'
  }

  /** The loop of `search_xmas` run from the first letter is the four
      letter comparisons. */
  lemma XmasFromSpells(grid: seq<string>, i: int, j: int, rs: int, cs: int)
    requires Readable(grid) && Segment(grid, i, j, rs, cs)
    ensures XmasFrom(grid, i, j, rs, cs, 0) == Spells(grid, i, j, rs, cs)
  {
    assert "XMAS"[0] == 'X' && "XMAS"[1] == 'M' && "XMAS"[2] == 'A' && "XMAS"[3] == 'S';
    assert XmasFrom(grid, i, j, rs, cs, 3) == (At(grid, i + Scale(3, rs), j + Scale(3, cs)) == 'S');
    assert XmasFrom(grid, i, j, rs, cs, 2) ==
      (At(grid, i + Scale(2, rs), j + Scale(2, cs)) == 'A' && XmasFrom(grid, i, j, rs, cs, 3));
    assert XmasFrom(grid, i, j, rs, cs, 1) ==
      (At(grid, i + Scale(1, rs), j + Scale(1, cs)) == 'M' && XmasFrom(grid, i, j, rs, cs, 2));
    assert XmasFrom(grid, i, j, rs, cs, 0) ==
      (At(grid, i + Scale(0, rs), j + Scale(0, cs)) == 'X' && XmasFrom(grid, i, j, rs, cs, 1));
  }

  /** Along an offset whose endpoint is in bounds, the loop's steps of a
      third cover the segment and read the same letters as the offset's. */
  lemma XmasAlong(grid: seq<string>, i: nat, j: nat, x: int, y: int)
    requires Readable(grid) && i < |grid| && j < |grid[0]| && InBounds(grid, i + x, j + y)
    requires ThreeSteps(x) && ThreeSteps(y)
    ensures Segment(grid, i, j, x, y) && Segment(grid, i, j, x / 3, y / 3)
    ensures XmasFrom(grid, i, j, x / 3, y / 3, 0) == Spells(grid, i, j, x, y)
  {
    var rs, cs := x / 3, y / 3;
    SegmentsAlong(grid, i, j, x, y);
    ThirdStepsAlike(x, rs);
    ThirdStepsAlike(y, cs);
    SpellsAlike(grid, i, j, rs, cs, x, y);
    XmasFromSpells(grid, i, j, rs, cs);
  }

  /** The segment to the endpoint and the one of thirds are both in bounds. */
  lemma SegmentsAlong(grid: seq<string>, i: nat, j: nat, x: int, y: int)
    requires i < |grid| && j < |grid[0]| && InBounds(grid, i + x, j + y)
    requires ThreeSteps(x) && ThreeSteps(y)
    ensures Segment(grid, i, j, x, y) && Segment(grid, i, j, x / 3, y / 3)
  {
    forall m | 0 <= m < 4
      ensures InBounds(grid, i + Scale(m, x), j + Scale(m, y))
      ensures InBounds(grid, i + Scale(m, x / 3), j + Scale(m, y / 3))
    {
      CellAlong(grid, i, j, x, y, m);
    }
  }

  /** Steps that scale alike spell alike. */
  lemma SpellsAlike(grid: seq<string>, i: int, j: int, rs: int, cs: int, x: int, y: int)
    requires Readable(grid) && Segment(grid, i, j, rs, cs) && Segment(grid, i, j, x, y)
    requires forall m :: Scale(m, rs) == Scale(m, x) && Scale(m, cs) == Scale(m, y)
    ensures Spells(grid, i, j, rs, cs) == Spells(grid, i, j, x, y)
  {
  }

  /** `search_xmas`: the endpoint three steps away is in bounds and the four
      cells from (i, j) along the direction spell XMAS. */
  function SearchXmas(grid: seq<string>, i: nat, j: nat, d: Direction): (r: bool)
    requires Readable(grid) && i < |grid| && j < |grid[0]|
    ensures r <==> (InBounds(grid, i + Offset(d).0, j + Offset(d).1) && Segment(grid, i, j, Offset(d).0, Offset(d).1) &&
      Spells(grid, i, j, Offset(d).0, Offset(d).1))
  {
    var x, y := Offset(d).0, Offset(d).1;
    if !InBounds(grid, i + x, j + y) then false
    else
      OffsetThreeSteps(d);
      XmasAlong(grid, i, j, x, y);
      XmasFrom(grid, i, j, x / 3, y / 3, 0)
  }

  /** One step of the `multizip(...).all(...)` of `search_double_mas`:
      the k-th letter along the sign's diagonal (columns reversed when
      anti) is the k-th letter of MAS. */
  function MasAt(grid: seq<string>, i: nat, j: nat, sign: int, anti: bool, k: nat): bool
    requires Readable(grid) && InBounds(grid, i - 1, j - 1) && InBounds(grid, i + 1, j + 1)
    requires (sign == -1 || sign == 1) && k < 3
  {
    At(grid, i + Scale(k - 1, sign), j + Scale(if anti then 1 - k else k - 1, sign)) == "MAS"[k]
  }

  /** One diagonal of `search_double_mas`: all three letters match. */
  function MasAlong(grid: seq<string>, i: nat, j: nat, sign: int, anti: bool): bool
    requires Readable(grid) && InBounds(grid, i - 1, j - 1) && InBounds(grid, i + 1, j + 1)
    requires sign == -1 || sign == 1
  {
    MasAt(grid, i, j, sign, anti, 0) && MasAt(grid, i, j, sign, anti, 1) && MasAt(grid, i, j, sign, anti, 2)
  }

  /** The three letters of the main diagonal through (i, j), top-left to
      bottom-right, and of the anti-diagonal, top-right to bottom-left. */
  function Diagonal(grid: seq<string>, i: nat, j: nat): string
    requires Readable(grid) && InBounds(grid, i - 1, j - 1) && InBounds(grid, i + 1, j + 1)
  {
    [At(grid, i - 1, j - 1), At(grid, i, j), At(grid, i + 1, j + 1)]
  }

  function AntiDiagonal(grid: seq<string>, i: nat, j: nat): string
    requires Readable(grid) && InBounds(grid, i - 1, j - 1) && InBounds(grid, i + 1, j + 1)
  {
    [At(grid, i - 1, j + 1), At(grid, i, j), At(grid, i + 1, j - 1)]
  }

  /** `search_double_mas`: both diagonal neighbours are in bounds, and each
      diagonal through (i, j) reads MAS forwards or backwards; the centre
      is then an A. */
  function SearchDoubleMas(grid: seq<string>, i: nat, j: nat): (r: bool)
    requires Readable(grid)
    ensures r <==> (InBounds(grid, i - 1, j - 1) && InBounds(grid, i + 1, j + 1) &&
      Diagonal(grid, i, j) in {"MAS", "SAM"} && AntiDiagonal(grid, i, j) in {"MAS", "SAM"})
    ensures r ==> grid[i][j] == 'A'
  {
    if !InBounds(grid, i - 1, j - 1) || !InBounds(grid, i + 1, j + 1) then false
    else
      var found := MasAlong(grid, i, j, -1, false) || MasAlong(grid, i, j, 1, false);
      var foundAnti := MasAlong(grid, i, j, -1, true) || MasAlong(grid, i, j, 1, true);
      MasAlongLetters(grid, i, j);
      found && foundAnti
  }

  /** What the four diagonal readings of `search_double_mas` see. */
  lemma MasAlongLetters(grid: seq<string>, i: nat, j: nat)
    requires Readable(grid) && InBounds(grid, i - 1, j - 1) && InBounds(grid, i + 1, j + 1)
    ensures MasAlong(grid, i, j, -1, false) <==> Diagonal(grid, i, j) == "SAM"
    ensures MasAlong(grid, i, j, 1, false) <==> Diagonal(grid, i, j) == "MAS"
    ensures MasAlong(grid, i, j, -1, true) <==> AntiDiagonal(grid, i, j) == "SAM"
    ensures MasAlong(grid, i, j, 1, true) <==> AntiDiagonal(grid, i, j) == "MAS"
  {
    var nw, c, se, ne, sw := At(grid, i - 1, j - 1), At(grid, i, j), At(grid, i + 1, j + 1), At(grid, i - 1, j + 1), At(grid, i + 1, j - 1);
    assert Diagonal(grid, i, j) == [nw, c, se] && AntiDiagonal(grid, i, j) == [ne, c, sw];
    assert "MAS"[0] == 'M' && "MAS"[1] == 'A' && "MAS"[2] == 'S';
    assert MasAlong(grid, i, j, -1, false) <==> se == 'M' && c == 'A' && nw == 'S';
    assert MasAlong(grid, i, j, 1, false) <==> nw == 'M' && c == 'A' && se == 'S';
    assert MasAlong(grid, i, j, -1, true) <==> sw == 'M' && c == 'A' && ne == 'S';
    assert MasAlong(grid, i, j, 1, true) <==> ne == 'M' && c == 'A' && sw == 'S';
  }

  /** The (row, column, direction) triples `part1` enumerates. */
  function Triples(grid: seq<string>): seq<Triple>
    requires Readable(grid)
  {
    Product(Product(Range(|grid|), Range(|grid[0]|)), All())
  }

  /** The filter of `part1` and of `part2`. */
  function IsXmas(grid: seq<string>): Triple -> bool
    requires Readable(grid)
  {
    (t: Triple) => t.0.0 < |grid| && t.0.1 < |grid[0]| && SearchXmas(grid, t.0.0, t.0.1, t.1)
  }

  function IsXmasCentre(grid: seq<string>): Position -> bool
    requires Readable(grid)
  {
    (c: Position) => SearchDoubleMas(grid, c.0, c.1)
  }

  /** `part1`: None for an empty input, where `grid[0]` panics; otherwise
      the number of (cell, direction) pairs that spell XMAS, zero exactly
      when no cell starts XMAS in any direction. */
  function Part1(grid: seq<string>): (r: Option<nat>)
    requires NoShortRows(grid)
    ensures r.None? <==> |grid| == 0
    ensures r.Some? ==> (r.value == 0 <==>
      forall i: nat, j: nat, d :: i < |grid| && j < |grid[0]| ==> !SearchXmas(grid, i, j, d))
  {
    if |grid| == 0 then None
    else
      NoneCounted(grid);
      Some(CountIf(Triples(grid), IsXmas(grid)))
  }

  lemma NoneCounted(grid: seq<string>)
    requires Readable(grid)
    ensures CountIf(Triples(grid), IsXmas(grid)) == 0 <==>
      forall i: nat, j: nat, d :: i < |grid| && j < |grid[0]| ==> !SearchXmas(grid, i, j, d)
  {
    var ts, p := Triples(grid), IsXmas(grid);
    CountIfZero(ts, p);
    if forall k :: 0 <= k < |ts| ==> !p(ts[k]) {
      forall i: nat, j: nat, d | i < |grid| && j < |grid[0]| ensures !SearchXmas(grid, i, j, d) {
        assert ((i, j), d) in ts;
        var k :| 0 <= k < |ts| && ts[k] == ((i, j), d);
        assert !p(ts[k]);
      }
    } else {
      var k :| 0 <= k < |ts| && p(ts[k]);
      assert ts[k] in ts;
    }
  }

  /** `part2`: None for an empty input, where `grid[0]` panics; otherwise
      the number of cells at the centre of an X of two MAS, zero exactly
      when no cell is such a centre. */
  function Part2(grid: seq<string>): (r: Option<nat>)
    requires NoShortRows(grid)
    ensures r.None? <==> |grid| == 0
    ensures r.Some? ==> (r.value == 0 <==>
      forall i: nat, j: nat :: i < |grid| && j < |grid[0]| ==> !SearchDoubleMas(grid, i, j))
  {
    if |grid| == 0 then None
    else
      NoCentreCounted(grid);
      Some(CountIf(Product(Range(|grid|), Range(|grid[0]|)), IsXmasCentre(grid)))
  }

  lemma NoCentreCounted(grid: seq<string>)
    requires Readable(grid)
    ensures CountIf(Product(Range(|grid|), Range(|grid[0]|)), IsXmasCentre(grid)) == 0 <==>
      forall i: nat, j: nat :: i < |grid| && j < |grid[0]| ==> !SearchDoubleMas(grid, i, j)
  {
    var cs, p := Product(Range(|grid|), Range(|grid[0]|)), IsXmasCentre(grid);
    CountIfZero(cs, p);
    if forall k :: 0 <= k < |cs| ==> !p(cs[k]) {
      forall i: nat, j: nat | i < |grid| && j < |grid[0]| ensures !SearchDoubleMas(grid, i, j) {
        assert (i, j) in cs;
        var k :| 0 <= k < |cs| && cs[k] == (i, j);
        assert !p(cs[k]);
      }
    } else {
      var k :| 0 <= k < |cs| && p(cs[k]);
      assert cs[k] in cs;
    }
  }

  lemma RangeNoDuplicates(n: nat)
    ensures NoDuplicates(Range(n))
  {
  }

  /** `part1` counts each matching (cell, direction) exactly once: the
      triples are those of the grid's cells, each once. */
  lemma Part1Counts(grid: seq<string>)
    requires Readable(grid)
    ensures forall t: Triple :: t in Triples(grid) <==> t.0.0 < |grid| && t.0.1 < |grid[0]|
    ensures Part1(grid) == Some(|Matching(Triples(grid), IsXmas(grid))|)
  {
    var h, w := |grid|, |grid[0]|;
    RangeNoDuplicates(h);
    RangeNoDuplicates(w);
    ProductNoDuplicates(Range(h), Range(w));
    ProductNoDuplicates(Product(Range(h), Range(w)), All());
    CountIfAsCard(Triples(grid), IsXmas(grid));
  }

  /** `part2` counts each X-MAS centre exactly once. */
  lemma Part2Counts(grid: seq<string>)
    requires Readable(grid)
    ensures forall c: Position :: c in Product(Range(|grid|), Range(|grid[0]|)) <==> c.0 < |grid| && c.1 < |grid[0]|
    ensures Part2(grid) == Some(|Matching(Product(Range(|grid|), Range(|grid[0]|)), IsXmasCentre(grid))|)
  {
    var h, w := |grid|, |grid[0]|;
    RangeNoDuplicates(h);
    RangeNoDuplicates(w);
    ProductNoDuplicates(Range(h), Range(w));
    CountIfAsCard(Product(Range(h), Range(w)), IsXmasCentre(grid));
  }

  /** A later line longer than the first is searched within the first
      line's width: `XMAS` over `XMASX` has XMAS once along each line and
      no other match, and the fifth column is never read. */
  lemma LongerLaterLine(grid: seq<string>)
    requires grid == ["XMAS", "XMASX"]
    ensures Part1(grid) == Some(2)
  {
    Part1Counts(grid);
    TwoLinesCount(grid);
  }

  lemma TwoLinesCount(grid: seq<string>)
    requires grid == ["XMAS", "XMASX"]
    ensures |Matching(Triples(grid), IsXmas(grid))| == 2
  {
    var found := {((0, 0), Down), ((1, 0), Down)};
    TwoLinesMatching(grid);
    SameMembersSameSize(Matching(Triples(grid), IsXmas(grid)), found);
    assert |found| == 2;
  }

  /** The matches of `XMAS` over `XMASX` are the two down each line. */
  lemma TwoLinesMatching(grid: seq<string>)
    requires grid == ["XMAS", "XMASX"]
    ensures forall t :: t in Matching(Triples(grid), IsXmas(grid)) <==> t in {((0, 0), Down), ((1, 0), Down)}
  {
    var ts, p := Triples(grid), IsXmas(grid);
    assert forall t :: t in ts <==> t.0.0 < 2 && t.0.1 < 4 by {
      Part1Counts(grid);
    }
    forall t: Triple ensures t in Matching(ts, p) <==> t in {((0, 0), Down), ((1, 0), Down)} {
      if t.0.0 < 2 && t.0.1 < 4 {
        MatchesInTwoLines(grid, t.0.0, t.0.1, t.1);
      }
    }
  }

  lemma SameMembersSameSize<T>(a: set<T>, b: set<T>)
    requires forall x :: x in a <==> x in b
    ensures |a| == |b|
  {
    assert a == b;
  }

  /** The search from one cell of `XMAS` over `XMASX`. */
  lemma MatchesInTwoLines(grid: seq<string>, i: nat, j: nat, d: Direction)
    requires grid == ["XMAS", "XMASX"] && i < 2 && j < 4
    ensures SearchXmas(grid, i, j, d) <==> j == 0 && d == Down
  {
    var x, y := Offset(d).0, Offset(d).1;
    if InBounds(grid, i + x, j + y) {
      assert x == 0;
      assert y == 3 ==> j == 0;
      assert y == -3 ==> j == 3;
      assert grid[i][..4] == "XMAS";
      assert grid[i][0] == 'X' && grid[i][3] == 'S';
    }
  }
}
