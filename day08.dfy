/** Day 8: antennas of the same frequency create antinodes on the line
    through them; with resonance, at every multiple of their distance. */
module Day08 {
  import opened Util
  import opened GridLib
  import opened Wrappers

  /** `Position`: a signed (row, column) pair. */
  datatype Position = Position(row: int, col: int)

  /** `Position + Position`, coordinate by coordinate. */
  function Add(a: Position, b: Position): Position
  {
    Position(a.row + b.row, a.col + b.col)
  }

  /** `Position - Position`, coordinate by coordinate. */
  function Sub(a: Position, b: Position): Position
  {
    Position(a.row - b.row, a.col - b.col)
  }

  /** `Position::new(delta.row * k, delta.col * k)`. */
  function Times(p: Position, k: int): Position
  {
    Position(p.row * k, p.col * k)
  }

  /** Componentwise arithmetic: subtracting then adding b gives a back. */
  lemma PositionArithmetic(a: Position, b: Position)
    ensures Add(Sub(a, b), b) == a && Sub(Add(a, b), b) == a
    ensures Add(a, b) == Add(b, a) && Sub(a, a) == Position(0, 0)
    ensures Times(b, 0) == Position(0, 0) && Times(b, 1) == b
  {
  }

  /** `parse_input`: the lines' characters row after row, the first line's
      length as width; no lines give the empty 0x0 grid. */
  method ParseInput(lines: seq<string>) returns (antennas: Grid<char>)
    ensures fresh(antennas)
    ensures antennas.width == (if lines == [] then 0 else |lines[0]|) && antennas.height == |lines|
    ensures antennas.data == Flatten(lines)
  {
    if lines == [] {
      antennas := new Grid.New(0, 0, '.');
      assert antennas.data == [];
      return;
    }
    antennas := new Grid.FromParts(Flatten(lines), |lines[0]|, |lines|);
  }

  /** `Grid::is_within_extents` on the grid's dimensions. */
  predicate InExtents(width: nat, height: nat, x: int, y: int)
  {
    0 <= x < width && 0 <= y < height
  }

  /** The inclusive range `lo..=hi`. */
  function IntRange(lo: int, hi: int): (r: seq<int>)
    ensures forall k :: k in r <==> lo <= k <= hi
    decreases hi - lo
  {
    if lo > hi then [] else [lo] + IntRange(lo + 1, hi)
  }

  /** The `flat_map` of `get_antinodes`: both candidates for every k. */
  function Candidates(a: Position, b: Position, delta: Position, ks: seq<int>): (r: seq<Position>)
    ensures forall p :: p in r <==> exists k :: k in ks && (p == Add(a, Times(delta, k)) || p == Sub(b, Times(delta, k)))
    ensures |r| == 2 * |ks|
  {
    if ks == [] then []
    else
      var k := ks[|ks| - 1];
      assert forall j :: j in ks <==> j in ks[..|ks| - 1] || j == k by {
        assert ks == ks[..|ks| - 1] + [k];
      }
      Candidates(a, b, delta, ks[..|ks| - 1]) + [Add(a, Times(delta, k)), Sub(b, Times(delta, k))]
  }

  /** The `filter(is_within_extents(p.row, p.col))`: the row is tested
      against the width and the column against the height, which agrees
      with the grid only when it is square. */
  function KeepInExtents(width: nat, height: nat, ps: seq<Position>): (r: seq<Position>)
    ensures |r| <= |ps|
    ensures forall p :: p in r <==> p in ps && InExtents(width, height, p.row, p.col)
  {
    if ps == [] then []
    else
      var p := ps[|ps| - 1];
      assert forall q :: q in ps <==> q in ps[..|ps| - 1] || q == p by {
        assert ps == ps[..|ps| - 1] + [p];
      }
      KeepInExtents(width, height, ps[..|ps| - 1]) + if InExtents(width, height, p.row, p.col) then [p] else []
  }

  /** `get_antinodes`: the candidates a + k(a - b) and b - k(a - b), for
      k = 1 alone or, with resonance, every k from -g to g (g the larger
      dimension), kept when within the extents. */
  function GetAntinodes(a: Position, b: Position, width: nat, height: nat, resonant: bool): (r: seq<Position>)
    ensures forall p :: p in r ==> InExtents(width, height, p.row, p.col)
  {
    var g := Max(height, width);
    KeepInExtents(width, height, Candidates(a, b, Sub(a, b), if resonant then IntRange(-g, g) else [1]))
  }

  /** Without resonance: at most two antinodes, exactly the in-bounds ones
      among a + (a - b) and b - (a - b). */
  lemma AntinodesPlain(a: Position, b: Position, width: nat, height: nat)
    ensures |GetAntinodes(a, b, width, height, false)| <= 2
    ensures forall p :: p in GetAntinodes(a, b, width, height, false) <==>
      (InExtents(width, height, p.row, p.col) && (p == Add(a, Sub(a, b)) || p == Sub(b, Sub(a, b))))
  {
    assert Times(Sub(a, b), 1) == Sub(a, b);
    assert forall k :: k in [1] <==> k == 1;
  }

  /** With resonance: the in-bounds points a + k(a - b) and b - k(a - b) for
      -g <= k <= g; the antennas themselves (k = 0) are among them. */
  lemma AntinodesResonant(a: Position, b: Position, width: nat, height: nat)
    ensures forall p :: p in GetAntinodes(a, b, width, height, true) <==>
      (InExtents(width, height, p.row, p.col) &&
       exists k :: -Max(height, width) <= k <= Max(height, width) &&
         (p == Add(a, Times(Sub(a, b), k)) || p == Sub(b, Times(Sub(a, b), k))))
    ensures InExtents(width, height, a.row, a.col) ==> a in GetAntinodes(a, b, width, height, true)
    ensures InExtents(width, height, b.row, b.col) ==> b in GetAntinodes(a, b, width, height, true)
  {
    var g := Max(height, width);
    var ks := IntRange(-g, g);
    assert Add(a, Times(Sub(a, b), 0)) == a && Sub(b, Times(Sub(a, b), 0)) == b && 0 in ks;
  }

  /** The position of row-major index i: (i / width, i % width). */
  function PosOf(width: nat, i: nat): Position
    requires width > 0
  {
    Position(i / width, i % width)
  }

  /** The antenna positions of `find_antinodes_for_freq`, in index order.
      Every cell holding the frequency is divided by the width, so a zero
      width is a panic unless no cell holds it. */
  function Positions(data: seq<char>, width: nat, freq: char): (r: seq<Position>)
    requires width > 0 || freq !in data
    ensures |r| <= |data|
  {
    if data == [] then []
    else
      var n := |data| - 1;
      assert data == data[..n] + [data[n]];
      Positions(data[..n], width, freq) + if data[n] == freq then [PosOf(width, n)] else []
  }

  /** The positions are those of the indices holding the frequency. */
  lemma {:induction false} PositionsMembers(data: seq<char>, width: nat, freq: char, p: Position)
    requires width > 0
    ensures p in Positions(data, width, freq) <==> exists i :: 0 <= i < |data| && data[i] == freq && p == PosOf(width, i)
  {
    if data != [] {
      var n := |data| - 1;
      PositionsMembers(data[..n], width, freq, p);
      assert forall i :: 0 <= i < n ==> data[..n][i] == data[i];
    }
  }

  /** `tuple_combinations` of two: every pair (ps[i], ps[j]) with i < j. */
  function Combinations(ps: seq<Position>): (r: seq<(Position, Position)>)
    ensures forall pr :: pr in r <==> exists i, j :: 0 <= i < j < |ps| && pr == (ps[i], ps[j])
  {
    if |ps| < 2 then []
    else
      var first := seq(|ps| - 1, k requires 0 <= k < |ps| - 1 => (ps[0], ps[k + 1]));
      var rest := Combinations(ps[1..]);
      assert forall pr :: pr in first <==> exists j :: 0 < j < |ps| && pr == (ps[0], ps[j]) by {
        forall pr | pr in first ensures exists j :: 0 < j < |ps| && pr == (ps[0], ps[j]) {
          var k :| 0 <= k < |first| && first[k] == pr;
          assert pr == (ps[0], ps[k + 1]);
        }
        forall pr | exists j :: 0 < j < |ps| && pr == (ps[0], ps[j]) ensures pr in first {
          var j :| 0 < j < |ps| && pr == (ps[0], ps[j]);
          assert first[j - 1] == pr;
        }
      }
      assert forall pr :: pr in rest <==> exists i, j :: 1 <= i < j < |ps| && pr == (ps[i], ps[j]) by {
        forall pr | pr in rest ensures exists i, j :: 1 <= i < j < |ps| && pr == (ps[i], ps[j]) {
          var i, j :| 0 <= i < j < |ps[1..]| && pr == (ps[1..][i], ps[1..][j]);
          assert pr == (ps[i + 1], ps[j + 1]);
        }
        forall pr | exists i, j :: 1 <= i < j < |ps| && pr == (ps[i], ps[j]) ensures pr in rest {
          var i, j :| 1 <= i < j < |ps| && pr == (ps[i], ps[j]);
          assert pr == (ps[1..][i - 1], ps[1..][j - 1]);
        }
      }
      first + rest
  }

  /** The closure `|(a, b)| get_antinodes(a, b, ...)` given to `flat_map`. */
  function AntinodesOf(width: nat, height: nat, resonant: bool): ((Position, Position)) -> seq<Position>
  {
    (pr: (Position, Position)) => GetAntinodes(pr.0, pr.1, width, height, resonant)
  }

  /** `find_antinodes_for_freq`: the distinct antinodes of every unordered
      pair of antennas of the frequency. */
  function FindAntinodesForFreq(data: seq<char>, width: nat, height: nat, freq: char, resonant: bool): (r: seq<Position>)
    requires width > 0 || freq !in data
    ensures NoDuplicates(r)
  {
    Unique(FlatMap(AntennaPairs(data, width, freq), AntinodesOf(width, height, resonant)))
  }

  /** Its members are the antinodes of the pairs. */
  lemma FindAntinodesMembers(data: seq<char>, width: nat, height: nat, freq: char, resonant: bool, p: Position)
    requires width > 0 || freq !in data
    ensures p in FindAntinodesForFreq(data, width, height, freq, resonant) <==>
      (exists k :: 0 <= k < |AntennaPairs(data, width, freq)| &&
        p in GetAntinodes(AntennaPairs(data, width, freq)[k].0, AntennaPairs(data, width, freq)[k].1, width, height, resonant))
  {
    var pairs := AntennaPairs(data, width, freq);
    var f := AntinodesOf(width, height, resonant);
    assert forall k :: 0 <= k < |pairs| ==> f(pairs[k]) == GetAntinodes(pairs[k].0, pairs[k].1, width, height, resonant);
  }

  /** The pairs of antennas of one frequency. */
  function AntennaPairs(data: seq<char>, width: nat, freq: char): seq<(Position, Position)>
    requires width > 0 || freq !in data
  {
    Combinations(Positions(data, width, freq))
  }

  lemma NegateFactor(x: int, y: int, k: int)
    ensures (x - y) * k == -((y - x) * k)
  {
  }

  lemma TimesSwap(a: Position, b: Position, k: int)
    ensures Add(a, Times(Sub(a, b), k)) == Sub(a, Times(Sub(b, a), k))
    ensures Sub(b, Times(Sub(a, b), k)) == Add(b, Times(Sub(b, a), k))
  {
    NegateFactor(a.row, b.row, k);
    NegateFactor(a.col, b.col, k);
  }

  /** Swapping the pair keeps every antinode. */
  lemma AntinodesSwap(a: Position, b: Position, width: nat, height: nat, resonant: bool, p: Position)
    requires p in GetAntinodes(a, b, width, height, resonant)
    ensures p in GetAntinodes(b, a, width, height, resonant)
  {
    if resonant {
      ResonantSwap(a, b, width, height, p);
    } else {
      AntinodesPlain(a, b, width, height);
      AntinodesPlain(b, a, width, height);
      assert Add(a, Sub(a, b)) == Sub(a, Sub(b, a)) && Sub(b, Sub(a, b)) == Add(b, Sub(b, a));
    }
  }

  lemma ResonantSwap(a: Position, b: Position, width: nat, height: nat, p: Position)
    requires p in GetAntinodes(a, b, width, height, true)
    ensures p in GetAntinodes(b, a, width, height, true)
  {
    var g := Max(height, width);
    AntinodesResonant(a, b, width, height);
    var k :| -g <= k <= g && (p == Add(a, Times(Sub(a, b), k)) || p == Sub(b, Times(Sub(a, b), k)));
    TimesSwap(a, b, k);
    var q := Times(Sub(b, a), k);
    assert p == Sub(a, q) || p == Add(b, q);
    AntinodesResonant(b, a, width, height);
  }

  /** The antinodes of a pair do not depend on its order. */
  lemma AntinodesSymmetric(a: Position, b: Position, width: nat, height: nat, resonant: bool, p: Position)
    ensures p in GetAntinodes(a, b, width, height, resonant) <==> p in GetAntinodes(b, a, width, height, resonant)
  {
    if p in GetAntinodes(a, b, width, height, resonant) {
      AntinodesSwap(a, b, width, height, resonant, p);
    }
    if p in GetAntinodes(b, a, width, height, resonant) {
      AntinodesSwap(b, a, width, height, resonant, p);
    }
  }

  /** a occurs before b in ps. */
  predicate OrderedIn(ps: seq<Position>, a: Position, b: Position)
  {
    exists x, y :: 0 <= x < y < |ps| && ps[x] == a && ps[y] == b
  }

  /** Positions keeps the order of the indices it comes from. */
  lemma {:induction false} PositionsOrdered(data: seq<char>, width: nat, freq: char, i: nat, j: nat)
    requires width > 0 && i < j < |data| && data[i] == freq && data[j] == freq
    ensures OrderedIn(Positions(data, width, freq), PosOf(width, i), PosOf(width, j))
  {
    var n := |data| - 1;
    var rest := Positions(data[..n], width, freq);
    assert Positions(data, width, freq) == rest + [PosOf(width, n)] || j < n;
    assert data[..n][i] == data[i];
    if j == n {
      PositionsMembers(data[..n], width, freq, PosOf(width, i));
      var x :| 0 <= x < |rest| && rest[x] == PosOf(width, i);
      var ps := Positions(data, width, freq);
      assert ps[x] == PosOf(width, i) && ps[|rest|] == PosOf(width, j);
    } else {
      assert data[..n][j] == data[j];
      PositionsOrdered(data[..n], width, freq, i, j);
      var x, y :| 0 <= x < y < |rest| && rest[x] == PosOf(width, i) && rest[y] == PosOf(width, j);
      assert Positions(data, width, freq)[x] == rest[x] && Positions(data, width, freq)[y] == rest[y];
    }
  }

  /** Every two antennas of the frequency, in either order, contribute
      their antinodes. */
  lemma PairContributes(data: seq<char>, width: nat, height: nat, freq: char, resonant: bool, i: nat, j: nat, p: Position)
    requires width > 0 && i < |data| && j < |data| && i != j && data[i] == freq && data[j] == freq
    requires p in GetAntinodes(PosOf(width, i), PosOf(width, j), width, height, resonant)
    ensures p in FindAntinodesForFreq(data, width, height, freq, resonant)
  {
    var ps := Positions(data, width, freq);
    var lo, hi := if i < j then i else j, if i < j then j else i;
    PositionsOrdered(data, width, freq, lo, hi);
    var x, y :| 0 <= x < y < |ps| && ps[x] == PosOf(width, lo) && ps[y] == PosOf(width, hi);
    var pairs := AntennaPairs(data, width, freq);
    assert (ps[x], ps[y]) in pairs;
    var k :| 0 <= k < |pairs| && pairs[k] == (ps[x], ps[y]);
    AntinodesSymmetric(PosOf(width, i), PosOf(width, j), width, height, resonant, p);
    FindAntinodesMembers(data, width, height, freq, resonant, p);
  }

  /** The frequencies of `problem`: the distinct characters other than `.`
      and the line break. */
  function Frequencies(data: seq<char>): (r: seq<char>)
    ensures NoDuplicates(r)
    ensures forall c :: c in r <==> c in data && c != '.' && c != '\n'
  {
    KeepFrequencies(Unique(data))
  }

  function KeepFrequencies(cs: seq<char>): (r: seq<char>)
    ensures NoDuplicates(cs) ==> NoDuplicates(r)
    ensures forall c :: c in r <==> c in cs && c != '.' && c != '\n'
  {
    if cs == [] then []
    else
      var c := cs[|cs| - 1];
      assert forall d :: d in cs <==> d in cs[..|cs| - 1] || d == c by {
        assert cs == cs[..|cs| - 1] + [c];
      }
      assert NoDuplicates(cs) ==> NoDuplicates(cs[..|cs| - 1]) && c !in cs[..|cs| - 1];
      KeepFrequencies(cs[..|cs| - 1]) + if c != '.' && c != '\n' then [c] else []
  }

  /** The closure `|freq| find_antinodes_for_freq(...)` of `problem`. */
  function FreqAntinodes(data: seq<char>, width: nat, height: nat, resonant: bool): char -> seq<Position>
  {
    // the frequencies a usable grid hands to it always meet the condition
    (f: char) => if width > 0 || f !in data then FindAntinodesForFreq(data, width, height, f, resonant) else []
  }

  /** `find_antinodes_for_freq` divides by the width at every antenna, so a
      zero-width grid goes through `problem` only when it has no antenna. */
  predicate WidthUsable(data: seq<char>, width: nat)
  {
    width > 0 || forall c :: c in data ==> c == '.' || c == '\n'
  }

  /** The antinodes of every frequency, before the final `unique`. */
  function AllAntinodes(data: seq<char>, width: nat, height: nat, resonant: bool): seq<Position>
    requires WidthUsable(data, width)
  {
    FlatMap(Frequencies(data), FreqAntinodes(data, width, height, resonant))
  }

  /** A position is among them exactly when it is an antinode of some
      frequency present in the grid. */
  lemma AntinodeMembers(data: seq<char>, width: nat, height: nat, resonant: bool, p: Position)
    requires WidthUsable(data, width)
    ensures p in AllAntinodes(data, width, height, resonant) <==>
      exists f :: f in data && f != '.' && f != '\n' && p in FindAntinodesForFreq(data, width, height, f, resonant)
  {
    if p in AllAntinodes(data, width, height, resonant) {
      var f := AntinodeFrequency(data, width, height, resonant, p);
    }
    if exists f :: f in data && f != '.' && f != '\n' && p in FindAntinodesForFreq(data, width, height, f, resonant) {
      var f :| f in data && f != '.' && f != '\n' && p in FindAntinodesForFreq(data, width, height, f, resonant);
      FrequencyAntinode(data, width, height, resonant, f, p);
    }
  }

  /** Every collected position comes from some frequency of the grid. */
  lemma AntinodeFrequency(data: seq<char>, width: nat, height: nat, resonant: bool, p: Position) returns (f: char)
    requires WidthUsable(data, width) && p in AllAntinodes(data, width, height, resonant)
    ensures f in data && f != '.' && f != '\n' && p in FindAntinodesForFreq(data, width, height, f, resonant)
  {
    var fs := Frequencies(data);
    var k :| 0 <= k < |fs| && p in FreqAntinodes(data, width, height, resonant)(fs[k]);
    assert fs[k] in fs;
    f := fs[k];
  }

  /** Every antinode of a frequency of the grid is collected. */
  lemma FrequencyAntinode(data: seq<char>, width: nat, height: nat, resonant: bool, f: char, p: Position)
    requires WidthUsable(data, width)
    requires f in data && f != '.' && f != '\n' && p in FindAntinodesForFreq(data, width, height, f, resonant)
    ensures p in AllAntinodes(data, width, height, resonant)
  {
    var fs := Frequencies(data);
    assert f in fs;
    var k :| 0 <= k < |fs| && fs[k] == f;
    assert p in FreqAntinodes(data, width, height, resonant)(fs[k]);
  }

  /** The count of `problem`: the number of distinct antinode positions. */
  function CountAntinodes(data: seq<char>, width: nat, height: nat, resonant: bool): (r: nat)
    requires WidthUsable(data, width)
    ensures r == |Elems(AllAntinodes(data, width, height, resonant))|
    ensures r <= |AllAntinodes(data, width, height, resonant)|
  {
    var all := AllAntinodes(data, width, height, resonant);
    var u := Unique(all);
    NoDuplicatesCard(u);
    assert Elems(u) == Elems(all);
    |u|
  }

  /** `problem` after `parse_input`: None is the division by a zero width
      of a grid whose first line is empty but which has an antenna. */
  method Problem(lines: seq<string>, resonant: bool) returns (count: Option<nat>)
    ensures var width := if lines == [] then 0 else |lines[0]|;
      (count.None? <==> !WidthUsable(Flatten(lines), width))
      && (count.Some? ==> count.value == CountAntinodes(Flatten(lines), width, |lines|, resonant))
  {
    var antennas := ParseInput(lines);
    if antennas.width == 0 && exists i :: 0 <= i < |antennas.data| && antennas.data[i] != '.' && antennas.data[i] != '\n' {
      ghost var i :| 0 <= i < |antennas.data| && antennas.data[i] != '.' && antennas.data[i] != '\n';
      assert antennas.data[i] in antennas.data;
      return None;
    }
    assert WidthUsable(antennas.data, antennas.width) by {
      if antennas.width == 0 {
        forall c | c in antennas.data ensures c == '.' || c == '\n' {
          var i :| 0 <= i < |antennas.data| && antennas.data[i] == c;
        }
      }
    }
    count := Some(CountAntinodes(antennas.data, antennas.width, antennas.height, resonant));
  }
}
