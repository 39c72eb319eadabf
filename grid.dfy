/** The dense two-dimensional grid of the shared library: cells stored in
    row-major order in one sequence, addressed by (x, y) with x the column and
    y the row. */
module GridLib {
  import opened Wrappers
  import opened Util

  /** p is one of the eight cells of the 3x3 block around (x, y), not (x, y) itself. */
  predicate IsKingNeighbor(x: nat, y: nat, p: (nat, nat))
  {
    p != (x, y) && -1 <= p.0 - x <= 1 && -1 <= p.1 - y <= 1
  }

  /** p is one step up, down, left or right of (x, y). */
  predicate IsCardinalNeighbor(x: nat, y: nat, p: (nat, nat))
  {
    Abs(p.0 - x) + Abs(p.1 - y) == 1
  }

  /** Strict row-major order: by row, then by column. */
  predicate RowMajorBefore(a: (nat, nat), b: (nat, nat))
  {
    a.1 < b.1 || (a.1 == b.1 && a.0 < b.0)
  }

  /** The four candidate cells of `cardinal_neighbors`, in its order: up, right, down, left. */
  function CardinalCandidates(x: nat, y: nat): seq<(int, int)>
  {
    [(x, y - 1), (x + 1, y), (x, y + 1), (x - 1, y)]
  }

  /** KeepWithin from position i on: the i-th element, if it lies inside,
      then the rest kept. */
  lemma KeepWithinStep(ps: seq<(int, int)>, i: nat, width: nat, height: nat)
    requires i < |ps|
    ensures var p := ps[i]; var tail := KeepWithin(ps[i + 1..], width, height);
      KeepWithin(ps[i..], width, height)
        == if 0 <= p.0 < width && 0 <= p.1 < height then [(p.0 as nat, p.1 as nat)] + tail else tail
  {
    assert ps[i..][1..] == ps[i + 1..];
  }

  /** The elements of `ps` that lie inside a width x height rectangle, in order. */
  function KeepWithin(ps: seq<(int, int)>, width: nat, height: nat): (r: seq<(nat, nat)>)
    ensures |r| <= |ps|
  {
    if ps == [] then []
    else
      var rest := KeepWithin(ps[1..], width, height);
      var p := ps[0];
      if 0 <= p.0 < width && 0 <= p.1 < height then [(p.0 as nat, p.1 as nat)] + rest else rest
  }

  lemma {:induction false} KeepWithinMembers(ps: seq<(int, int)>, width: nat, height: nat)
    ensures forall p :: p in KeepWithin(ps, width, height) <==> (p.0 < width && p.1 < height && (p.0 as int, p.1 as int) in ps)
  {
    if ps != [] {
      KeepWithinMembers(ps[1..], width, height);
      assert forall q :: q in ps <==> q == ps[0] || q in ps[1..];
    }
  }

  /** The candidate list holds exactly the cells at Manhattan distance one. */
  lemma CardinalCandidatesExactly(x: nat, y: nat, p: (nat, nat))
    ensures IsCardinalNeighbor(x, y, p) <==> (p.0 as int, p.1 as int) in CardinalCandidates(x, y)
  {
  }

  /** The candidates kept inside the rectangle are its cardinal neighbours of (x, y). */
  lemma CardinalKept(x: nat, y: nat, width: nat, height: nat)
    ensures forall p :: p in KeepWithin(CardinalCandidates(x, y), width, height) <==>
      (p.0 < width && p.1 < height && IsCardinalNeighbor(x, y, p))
    ensures forall p :: p in KeepWithin(CardinalCandidates(x, y), width, height) ==> IsKingNeighbor(x, y, p)
  {
    KeepWithinMembers(CardinalCandidates(x, y), width, height);
    forall p
      ensures p in KeepWithin(CardinalCandidates(x, y), width, height) <==>
        (p.0 < width && p.1 < height && IsCardinalNeighbor(x, y, p))
      ensures p in KeepWithin(CardinalCandidates(x, y), width, height) ==> IsKingNeighbor(x, y, p)
    {
      CardinalCandidatesExactly(x, y, p);
    }
  }

  /** `Iterator::skip(n)` on a sequence. */
  function Skip<T>(s: seq<T>, n: nat): seq<T>
  {
    if n <= |s| then s[n..] else []
  }

  /** `Iterator::step_by(step)`: the first element, then every step-th one. */
  function StepBy<T>(s: seq<T>, step: nat): (r: seq<T>)
    requires step > 0
    ensures |r| <= |s|
    decreases |s|
  {
    if s == [] then [] else [s[0]] + StepBy(Skip(s, step), step)
  }

  lemma {:induction false} StepByAt<T>(data: seq<T>, w: nat, x: nat, y: nat)
    requires w > 0 && x < w && Mul(y, w) + w <= |data|
    ensures y < |StepBy(Skip(data, x), w)|
    ensures StepBy(Skip(data, x), w)[y] == data[Mul(y, w) + x]
    decreases y
  {
    var s := data[x..];
    assert Skip(data, x) == s;
    assert StepBy(s, w) == [data[x]] + StepBy(Skip(s, w), w);
    if y > 0 {
      var rest := data[w..];
      assert Mul(y, w) == Mul(y - 1, w) + w;
      assert Skip(s, w) == Skip(rest, x) by {
        assert s[w..] == rest[x..];
      }
      StepByAt(rest, w, x, y - 1);
      assert rest[Mul(y - 1, w) + x] == data[Mul(y, w) + x];
    }
  }

  lemma {:induction false} StepByLength<T>(data: seq<T>, w: nat, h: nat, x: nat)
    requires |data| == Mul(h, w) && x < w
    ensures |StepBy(Skip(data, x), w)| == h
    decreases h
  {
    if h > 0 {
      var rest := data[w..];
      assert Skip(Skip(data, x), w) == Skip(rest, x);
      StepByLength(rest, w, h - 1, x);
    }
  }

  /** Stepping by w from offset x of an h-row layout reads column x. */
  lemma StepByColumn<T>(data: seq<T>, w: nat, h: nat, x: nat)
    requires |data| == Mul(h, w) && x < w
    ensures |StepBy(Skip(data, x), w)| == h
    ensures forall y :: 0 <= y < h ==> Mul(y, w) + x < |data| && StepBy(Skip(data, x), w)[y] == data[Mul(y, w) + x]
  {
    StepByLength(data, w, h, x);
    forall y | 0 <= y < h ensures Mul(y, w) + x < |data| && StepBy(Skip(data, x), w)[y] == data[Mul(y, w) + x] {
      MulRowBelow(y, h, w);
      StepByAt(data, w, x, y);
    }
  }

  class Grid<T> {
    var data: seq<T>
    const width: nat
    const height: nat

    /** The library never checks this; grids built by `new` satisfy it. */
    predicate Valid()
      reads this
    {
      |data| == Mul(height, width)
    }

    /** Row-major offset of (x, y), the `y * width + x` of the Rust code. */
    function Offset(x: nat, y: nat): nat
      reads this
    {
      Mul(y, width) + x
    }

    /** `Grid::new`: `width * height` cells, each equal to `default`. */
    constructor New(width: nat, height: nat, default: T)
      ensures this.width == width && this.height == height
      ensures Valid() && |data| == width * height
      ensures forall k :: 0 <= k < |data| ==> data[k] == default
    {
      this.width := width;
      this.height := height;
      data := seq(Mul(height, width), _ => default);
      MulIsProduct(height, width);
    }

    /** A grid built field by field, as the puzzle programs do. */
    constructor FromParts(data: seq<T>, width: nat, height: nat)
      ensures this.data == data && this.width == width && this.height == height
    {
      this.data := data;
      this.width := width;
      this.height := height;
    }

    /** `Index`: the cell at the row-major offset; Rust panics when that
        offset is past the end of the data, whatever x is. */
    function At(x: nat, y: nat): T
      reads this
      requires Offset(x, y) < |data|
    {
      data[Offset(x, y)]
    }

    /** Every in-extent cell of a well-formed grid has an offset inside the data. */
    lemma InExtentsHasOffset(x: nat, y: nat)
      requires Valid() && x < width && y < height
      ensures Offset(x, y) < |data|
    {
      CellIndexBound(x, y, width, height);
    }

    /** `get`: a cell exactly when (x, y) is inside the extents. */
    function Get(x: nat, y: nat): (r: Option<T>)
      reads this
      requires x < width && y < height ==> Offset(x, y) < |data|
      ensures r.Some? <==> x < width && y < height
      ensures r.Some? ==> r.value == At(x, y)
    {
      if x < width && y < height then Some(data[Offset(x, y)]) else None
    }

    /** `IndexMut`: writes one cell; every other offset keeps its value. */
    method Set(x: nat, y: nat, v: T)
      requires Offset(x, y) < |data|
      modifies this
      ensures data == old(data)[Offset(x, y) := v]
      ensures |data| == |old(data)|
      ensures At(x, y) == v
      ensures forall k :: 0 <= k < |data| && k != Offset(x, y) ==> data[k] == old(data[k])
    {
      data := data[Offset(x, y) := v];
    }

    /** `get_mut` followed by a write through the returned reference: the
        write happens exactly when (x, y) is inside the extents. */
    method WriteViaGetMut(x: nat, y: nat, v: T) returns (found: bool)
      requires x < width && y < height ==> Offset(x, y) < |data|
      modifies this
      ensures found <==> x < width && y < height
      ensures found ==> data == old(data)[Offset(x, y) := v]
      ensures !found ==> data == old(data)
    {
      found := x < width && y < height;
      if found {
        data := data[Offset(x, y) := v];
      }
    }

    /** `iter_row`: the y-th row, exactly `width` cells. */
    function IterRow(y: nat): (r: seq<T>)
      reads this
      requires Offset(0, y) + width <= |data|
      ensures |r| == width
      ensures forall x :: 0 <= x < width ==> r[x] == At(x, y)
    {
      data[Offset(0, y)..Offset(0, y) + width]
    }

    /** `iter_col`: every width-th cell starting at offset x; `step_by(0)`
        panics, hence width > 0. */
    function IterCol(x: nat): (r: seq<T>)
      reads this
      requires width > 0
      ensures Valid() && x < width ==> |r| == height
      ensures Valid() && x < width ==> forall y :: 0 <= y < height ==> Offset(x, y) < |data| && r[y] == At(x, y)
    {
      var r := StepBy(Skip(data, x), width);
      if Valid() && x < width then
        StepByColumn(data, width, height, x);
        r
      else r
    }

    /** `iter`: all cells in row-major order. */
    function Iter(): (r: seq<T>)
      reads this
      requires Valid()
      ensures |r| == |data| == width * height
      ensures forall x, y :: 0 <= x < width && 0 <= y < height ==> Offset(x, y) < |data| && r[Offset(x, y)] == At(x, y)
    {
      MulIsProduct(height, width);
      forall x: nat, y: nat | x < width && y < height ensures Offset(x, y) < |data| {
        InExtentsHasOffset(x, y);
      }
      data
    }

    /** `is_within_extents` over signed coordinates. */
    function IsWithinExtents(x: int, y: int): (r: bool)
      reads this
      ensures r <==> 0 <= x < width && 0 <= y < height
    {
      x >= 0 && x < width && y >= 0 && y < height
    }

    /** The signed bounds test agrees with `get` on every well-formed grid. */
    lemma WithinExtentsIffGet(x: nat, y: nat)
      requires Valid()
      ensures x < width && y < height ==> Offset(x, y) < |data|
      ensures IsWithinExtents(x, y) <==> Get(x, y).Some?
    {
      if x < width && y < height {
        InExtentsHasOffset(x, y);
      }
    }

    /** `neighbors`: the in-bounds cells of the 3x3 block round (x, y) without
        its centre, scanned row by row. */
    method Neighbors(x: nat, y: nat) returns (r: seq<(nat, nat)>)
      ensures forall p :: p in r <==> (p.0 < width && p.1 < height && IsKingNeighbor(x, y, p))
      ensures forall i, j :: 0 <= i < j < |r| ==> RowMajorBefore(r[i], r[j])
      ensures |r| <= 8
    {
      r := [];
      for dy := -1 to 2
        invariant forall p :: p in r <==> (p.0 < width && p.1 < height && IsKingNeighbor(x, y, p) && p.1 - y < dy)
        invariant forall i, j :: 0 <= i < j < |r| ==> RowMajorBefore(r[i], r[j])
        invariant |r| <= 3 * (dy + 1) - (if dy > 0 then 1 else 0)
      {
        for dx := -1 to 2
          invariant forall p :: p in r <==>
            (p.0 < width && p.1 < height && IsKingNeighbor(x, y, p) && (p.1 - y < dy || (p.1 - y == dy && p.0 - x < dx)))
          invariant forall i, j :: 0 <= i < j < |r| ==> RowMajorBefore(r[i], r[j])
          invariant |r| <= 3 * (dy + 1) + (dx + 1) - (if dy > 0 || (dy == 0 && dx > 0) then 1 else 0)
        {
          if !(dx == 0 && dy == 0) {
            var nx, ny := x + dx, y + dy;
            if nx >= 0 && nx < width && ny >= 0 && ny < height {
              r := r + [(nx as nat, ny as nat)];
            }
          }
        }
      }
    }

    /** `cardinal_neighbors`: the in-bounds cells among up, right, down and
        left, in that order; each is also one of `neighbors`. */
    method CardinalNeighbors(x: nat, y: nat) returns (r: seq<(nat, nat)>)
      ensures r == KeepWithin(CardinalCandidates(x, y), width, height)
      ensures forall p :: p in r <==> (p.0 < width && p.1 < height && IsCardinalNeighbor(x, y, p))
      ensures forall p :: p in r ==> IsKingNeighbor(x, y, p)
      ensures |r| <= 4
    {
      var candidates := CardinalCandidates(x, y);
      r := [];
      for i := 0 to 4
        invariant r + KeepWithin(candidates[i..], width, height) == KeepWithin(candidates, width, height)
      {
        var (nx, ny) := candidates[i];
        KeepWithinStep(candidates, i, width, height);
        ghost var tail := KeepWithin(candidates[i + 1..], width, height);
        ghost var prev := r;
        if nx >= 0 && nx < width && ny >= 0 && ny < height {
          r := r + [(nx as nat, ny as nat)];
          assert r + tail == prev + ([(nx as nat, ny as nat)] + tail);
        }
      }
      assert candidates[4..] == [];
      CardinalKept(x, y, width, height);
    }

    /** `Clone` of a grid. */
    method Copy() returns (g: Grid<T>)
      ensures fresh(g)
      ensures g.data == data && g.width == width && g.height == height
    {
      g := new Grid.FromParts(data, width, height);
    }
  }

  /** `digits`: the number of decimal digits of n, counting the successors
      n, n / 10, ... down to the first one below 10. */
  function Digits(n: nat): (r: nat)
    ensures r >= 1 && (n < 10 <==> r == 1)
  {
    if n < 10 then 1 else 1 + Digits(n / 10)
  }

  /** Digits(n) is the d with 10^(d-1) <= n < 10^d (n = 0 having one digit). */
  lemma {:induction false} DigitsBounds(n: nat)
    ensures n < Pow10(Digits(n))
    ensures Digits(n) > 1 ==> Pow10(Digits(n) - 1) <= n
  {
    if n >= 10 {
      DigitsBounds(n / 10);
      var d := Digits(n / 10);
      assert Pow10(d + 1) == 10 * Pow10(d);
      assert Pow10(d) == 10 * Pow10(d - 1) || d == 1;
    }
  }
}
