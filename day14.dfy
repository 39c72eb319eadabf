/** Day 14: robots moving with constant velocity through a room whose
    edges wrap around, and the safety factor of where they stand: the
    product of the robot counts of the four quadrants. */
module Day14 {
  import opened Wrappers
  import opened Util
  import opened GridLib
  import opened Text

  const Two31: int := 0x8000_0000
  const Two32: int := 0x1_0000_0000
  const Two64: int := 0x1_0000_0000_0000_0000

  predicate IsI32(v: int)
  {
    -Two31 <= v < Two31
  }

  /** `v as usize` for an `i32`: sign extension to 64 bits. */
  function AsUsize(v: int): nat
  {
    v % Two64
  }

  /** `u as i32` for a `usize`: the low 32 bits, read as signed. */
  function AsI32(u: nat): (r: int)
    ensures IsI32(r)
  {
    var t := u % Two32;
    if t < Two31 then t else t - Two32
  }

  /** A coordinate parsed as `i32` and stored as `usize` is read back as
      the same `i32`, negative values included. */
  lemma CastRoundTrip(v: int)
    requires IsI32(v)
    ensures AsI32(AsUsize(v)) == v
  {
    if v < 0 {
      assert AsUsize(v) == Two64 + v;
      assert Two64 + v == (Two32 - 1) * Two32 + (Two32 + v);
    }
  }

  /** A `usize` below 2^31 reads back as the same `i32`. */
  lemma SmallAsI32(u: nat)
    requires u < Two31
    ensures AsI32(u) == u
  {
  }

  /** One coordinate after one step: `(v as i32 + d).rem_euclid(w as i32)`,
      Euclidean like Dafny's `%`. */
  function StepCoord(v: nat, d: int, w: nat): (r: nat)
    requires w > 0
    ensures r < w
  {
    (AsI32(v) + d) % w
  }

  /** One coordinate after n steps. */
  function Iterate(v: nat, d: int, w: nat, n: nat): (r: nat)
    requires n > 0 ==> w > 0
    ensures n > 0 ==> r < w
    decreases n
  {
    if n == 0 then v else Iterate(StepCoord(v, d, w), d, w, n - 1)
  }

  /** The last of n + 1 steps is one step from where n steps end. */
  lemma {:induction false} IterateLast(v: nat, d: int, w: nat, n: nat)
    requires w > 0
    ensures Iterate(v, d, w, n + 1) == StepCoord(Iterate(v, d, w, n), d, w)
    decreases n
  {
    if n > 0 {
      IterateLast(StepCoord(v, d, w), d, w, n - 1);
    }
  }

  lemma ModAdd(a: int, d: int, w: nat)
    requires w > 0
    ensures (a % w + d) % w == (a + d) % w
  {
    var t := a % w + d;
    var r := t % w;
    var k := t / w;
    assert t == k * w + r;
    var q := a / w;
    assert a == q * w + a % w;
    assert a + d == q * w + t;
    assert a + d == (q + k) * w + r by {
      assert q * w + k * w == (q + k) * w;
    }
    ModUnique(a + d, q + k, r, w);
  }

  /** The remainder is the r of any a == k * w + r with 0 <= r < w. */
  lemma ModUnique(a: int, k: int, r: int, w: nat)
    requires w > 0 && 0 <= r < w && a == k * w + r
    ensures a % w == r
  {
    var k' := a / w;
    var r' := a % w;
    assert a == k' * w + r';
    var m := k' - k;
    assert m * w == r - r' by {
      assert k' * w - k * w == (k' - k) * w;
    }
    if m >= 1 {
      MulAtLeast(m, w);
    } else if m <= -1 {
      MulAtLeast(-m, w);
    }
  }

  lemma MulAtLeast(m: int, w: nat)
    requires m >= 1
    ensures m * w >= w
  {
  }

  /** A step from the remainder of a is the remainder of a + d. */
  lemma StepOfRemainder(prev: nat, a: int, d: int, w: nat)
    requires 0 < w < Two31 && prev == a % w
    ensures StepCoord(prev, d, w) == (a + d) % w
  {
    assert AsI32(prev) == prev;
    ModAdd(a, d, w);
  }

  lemma TimesAddOne(m: nat, d: int)
    ensures m * d + d == (m + 1) * d
  {
  }

  /** After n steps a coordinate is its start plus n times its velocity,
      taken modulo the extent, as long as the extent fits an `i32`. */
  lemma {:induction false} IterateClosedForm(v: nat, d: int, w: nat, n: nat)
    requires 0 < w < Two31 && n > 0
    ensures Iterate(v, d, w, n) == (AsI32(v) + n * d) % w
    decreases n
  {
    var first := StepCoord(v, d, w);
    var a := AsI32(v) + d;
    assert first == a % w;
    assert Iterate(v, d, w, n) == Iterate(first, d, w, n - 1);
    if n == 1 {
      assert n * d == d;
    } else {
      var m := (n - 1) * d;
      IterateClosedForm(first, d, w, n - 1);
      SmallAsI32(first);
      assert Iterate(first, d, w, n - 1) == (first + m) % w;
      ModAdd(a, m, w);
      TimesAddOne(n - 1, d);
      assert a + m == AsI32(v) + n * d;
    }
  }

  /** `Robot`: a position, updated in place, and a fixed velocity. */
  class Robot {
    var x: nat
    var y: nat
    const dx: int
    const dy: int

    constructor (x: nat, y: nat, dx: int, dy: int)
      ensures this.x == x && this.y == y && this.dx == dx && this.dy == dy
    {
      this.x := x;
      this.y := y;
      this.dx := dx;
      this.dy := dy;
    }

    /** `Robot::step`: one move, wrapping around at the edges; the robot
        ends inside the room. Rust panics on a zero extent. */
    method Step(width: nat, height: nat)
      requires 0 < width < Two31 && 0 < height < Two31
      modifies this
      ensures x == StepCoord(old(x), dx, width) && y == StepCoord(old(y), dy, height)
      ensures x < width && y < height
    {
      x := (AsI32(x) + dx) % width;
      y := (AsI32(y) + dy) % height;
    }
  }

  /** `i32::from_str`: an optional sign and one or more digits, with the
      value in the `i32` range. */
  function ParseI32(s: string): (r: Option<int>)
    ensures r.Some? ==> IsI32(r.value)
  {
    var negative := s != [] && s[0] == '-';
    var digits := if s != [] && (s[0] == '-' || s[0] == '+') then s[1..] else s;
    if digits == [] || !AllDigits(digits) then None
    else
      var v: int := if negative then -(DigitsValue(digits) as int) else DigitsValue(digits);
      if IsI32(v) then Some(v) else None
  }

  /** The numbers found in the pieces: those that parse once trimmed. */
  function Numbers(pieces: seq<string>): (r: seq<int>)
    ensures |r| <= |pieces|
    ensures forall k :: 0 <= k < |r| ==> IsI32(r[k])
  {
    if pieces == [] then []
    else
      var n := |pieces| - 1;
      match ParseI32(Trim(pieces[n]))
      case Some(v) => Numbers(pieces[..n]) + [v]
      case None => Numbers(pieces[..n])
  }

  /** The characters `parse_line` splits on. */
  const Separators: set<char> := {' ', '=', ','}

  /** A robot as a line describes it: position (as stored in a `usize`)
      and velocity. */
  datatype Spec = Spec(x: nat, y: nat, dx: int, dy: int)

  /** `parse_line`: a robot exactly when the line holds four numbers, the
      position read back as the first two of them. */
  function ParseLine(line: string): (r: Option<Spec>)
    ensures r.Some? <==> |Numbers(SplitOn(line, Separators))| == 4
    ensures r.Some? ==>
      var nums := Numbers(SplitOn(line, Separators));
      AsI32(r.value.x) == nums[0] && AsI32(r.value.y) == nums[1] && r.value.dx == nums[2] && r.value.dy == nums[3]
  {
    var nums := Numbers(SplitOn(line, Separators));
    if |nums| == 4 then
      CastRoundTrip(nums[0]);
      CastRoundTrip(nums[1]);
      Some(Spec(AsUsize(nums[0]), AsUsize(nums[1]), nums[2], nums[3]))
    else None
  }

  /** The numbers of two runs of pieces are those of the first run
      followed by those of the second. */
  lemma {:induction false} NumbersConcat(a: seq<string>, b: seq<string>)
    ensures Numbers(a + b) == Numbers(a) + Numbers(b)
    decreases |b|
  {
    if b == [] {
      assert a + b == a;
    } else {
      var n := |b| - 1;
      assert (a + b)[..|a + b| - 1] == a + b[..n];
      assert (a + b)[|a + b| - 1] == b[n];
      NumbersConcat(a, b[..n]);
    }
  }

  /** One piece gives its number when it parses once trimmed, and nothing
      otherwise. */
  lemma NumbersPiece(p: string)
    ensures Numbers([p]) == if ParseI32(Trim(p)).Some? then [ParseI32(Trim(p)).value] else []
  {
    assert [p][..0] == [];
  }

  /** A string `i32::from_str` accepts holds no separator and no white
      space. */
  lemma I32Plain(a: string)
    requires ParseI32(a).Some?
    ensures forall k :: 0 <= k < |a| ==> a[k] !in Separators && !IsWhitespace(a[k])
  {
    forall k | 0 <= k < |a|
      ensures a[k] !in Separators && !IsWhitespace(a[k])
    {
      if k > 0 || (a[0] != '-' && a[0] != '+') {
        var digits := if a[0] == '-' || a[0] == '+' then a[1..] else a;
        var j := if a[0] == '-' || a[0] == '+' then k - 1 else k;
        assert a[k] == digits[j];
        assert IsDigit(digits[j]);
      }
    }
  }

  /** A piece that is a number is kept as it is by trimming and yields
      that number. */
  lemma NumberPiece(a: string)
    requires ParseI32(a).Some?
    ensures Numbers([a]) == [ParseI32(a).value]
  {
    I32Plain(a);
    assert "" + a + "" == a;
    TrimPadded("", a, "");
    NumbersPiece(a);
  }

  /** A line of the input's form, `p=<x>,<y> v=<dx>,<dy>`. */
  function RobotText(x: string, y: string, dx: string, dy: string): string
  {
    "p" + ['='] + (x + [','] + (y + [' '] + ("v" + ['='] + (dx + [','] + dy))))
  }

  /** A single character that is no separator is a piece of its own. */
  lemma SplitOnLetter(c: char)
    requires c !in Separators
    ensures SplitOn([c], Separators) == [[c]]
  {
    SplitOnNone([c], Separators);
  }

  /** A number is a piece of its own. */
  lemma SplitOnNumber(a: string)
    requires ParseI32(a).Some?
    ensures SplitOn(a, Separators) == [a]
  {
    I32Plain(a);
    SplitOnNone(a, Separators);
  }

  /** The pieces of a line of the input's form, piece by piece. */
  lemma RobotPieces(a: string, b: string, c: string, d: string)
    requires ParseI32(a).Some? && ParseI32(b).Some? && ParseI32(c).Some? && ParseI32(d).Some?
    ensures SplitOn(RobotText(a, b, c, d), Separators) == ["p"] + ([a] + ([b] + (["v"] + ([c] + [d]))))
  {
    SplitOnNumber(a);
    SplitOnNumber(b);
    SplitOnNumber(c);
    SplitOnNumber(d);
    SplitOnLetter('p');
    SplitOnLetter('v');
    SplitOnAt(c, ',', d, Separators);
    SplitOnAt("v", '=', c + [','] + d, Separators);
    SplitOnAt(b, ' ', "v" + ['='] + (c + [','] + d), Separators);
    SplitOnAt(a, ',', b + [' '] + ("v" + ['='] + (c + [','] + d)), Separators);
    SplitOnAt("p", '=', a + [','] + (b + [' '] + ("v" + ['='] + (c + [','] + d))), Separators);
  }

  /** A line of the input's form `p=<x>,<y> v=<dx>,<dy>` is the robot at
      (x, y) with velocity (dx, dy). */
  lemma RobotLine(a: string, b: string, c: string, d: string)
    requires ParseI32(a).Some? && ParseI32(b).Some? && ParseI32(c).Some? && ParseI32(d).Some?
    ensures ParseLine(RobotText(a, b, c, d)) ==
      Some(Spec(AsUsize(ParseI32(a).value), AsUsize(ParseI32(b).value), ParseI32(c).value, ParseI32(d).value))
  {
    RobotPieces(a, b, c, d);
    RobotNumbers(a, b, c, d);
  }

  /** The numbers among a line's pieces are the four numbers. */
  lemma RobotNumbers(a: string, b: string, c: string, d: string)
    requires ParseI32(a).Some? && ParseI32(b).Some? && ParseI32(c).Some? && ParseI32(d).Some?
    ensures Numbers(["p"] + ([a] + ([b] + (["v"] + ([c] + [d]))))) ==
      [ParseI32(a).value, ParseI32(b).value, ParseI32(c).value, ParseI32(d).value]
  {
    var va, vb, vc, vd := ParseI32(a).value, ParseI32(b).value, ParseI32(c).value, ParseI32(d).value;
    NumberPiece(a);
    NumberPiece(b);
    NumberPiece(c);
    NumberPiece(d);
    LetterPiece('p');
    LetterPiece('v');
    NumbersCons(c, [d], [vc], [vd]);
    NumbersCons("v", [c] + [d], [], [vc] + [vd]);
    NumbersCons(b, ["v"] + ([c] + [d]), [vb], [] + ([vc] + [vd]));
    NumbersCons(a, [b] + (["v"] + ([c] + [d])), [va], [vb] + ([] + ([vc] + [vd])));
    NumbersCons("p", [a] + ([b] + (["v"] + ([c] + [d]))), [], [va] + ([vb] + ([] + ([vc] + [vd]))));
    FourNumbers(va, vb, vc, vd);
  }

  lemma FourNumbers(va: int, vb: int, vc: int, vd: int)
    ensures [] + ([va] + ([vb] + ([] + ([vc] + [vd])))) == [va, vb, vc, vd]
  {
    assert [vc] + [vd] == [vc, vd];
    assert [vb] + [vc, vd] == [vb, vc, vd];
  }

  /** The numbers of a piece followed by more pieces. */
  lemma NumbersCons(x: string, rest: seq<string>, head: seq<int>, tail: seq<int>)
    requires Numbers([x]) == head && Numbers(rest) == tail
    ensures Numbers([x] + rest) == head + tail
  {
    NumbersConcat([x], rest);
  }

  /** A piece that is one letter holds no number. */
  lemma LetterPiece(c: char)
    requires !IsDigit(c) && !IsWhitespace(c) && c != '-' && c != '+'
    ensures Numbers([[c]]) == []
  {
    assert "" + [c] + "" == [c];
    TrimPadded("", [c], "");
    assert !AllDigits([c]) by {
      assert !IsDigit([c][0]);
    }
    NumbersPiece([c]);
  }

  /** A line of the input's form whose fields parse as the numbers of a
      robot describes that robot. */
  lemma RobotLineIs(line: string, a: string, b: string, c: string, d: string, s: Spec)
    requires line == RobotText(a, b, c, d)
    requires ParseI32(a) == Some(s.x as int) && ParseI32(b) == Some(s.y as int)
    requires ParseI32(c) == Some(s.dx) && ParseI32(d) == Some(s.dy)
    ensures ParseLine(line) == Some(s)
  {
    RobotLine(a, b, c, d);
    assert IsI32(s.x) && IsI32(s.y);
    NatAsUsize(s.x);
    NatAsUsize(s.y);
    assert Spec(AsUsize(s.x), AsUsize(s.y), s.dx, s.dy) == s;
  }

  /** A coordinate in the `i32` range is stored in a `usize` unchanged. */
  lemma NatAsUsize(v: nat)
    requires IsI32(v)
    ensures AsUsize(v) == v
  {
  }

  /** A digit, with or without a minus sign, parses as its value. */
  lemma ParseDigit(c: char)
    requires IsDigit(c)
    ensures ParseI32([c]) == Some(c as int - '0' as int)
    ensures ParseI32(['-', c]) == Some(-(c as int - '0' as int))
  {
    assert AllDigits([c]);
    DigitValue(c);
    assert ['-', c][1..] == [c];
  }

  lemma DigitValue(c: char)
    requires IsDigit(c)
    ensures AllDigits([c]) && DigitsValue([c]) == c as int - '0' as int
  {
    assert [c][..0] == [];
  }

  /** `parse_input` over the lines of the input: the lines that describe a
      robot, in order. */
  function ParseInput(lines: seq<string>): (r: seq<Spec>)
    ensures |r| <= |lines|
  {
    if lines == [] then []
    else
      var n := |lines| - 1;
      match ParseLine(lines[n])
      case Some(s) => ParseInput(lines[..n]) + [s]
      case None => ParseInput(lines[..n])
  }

  /** The robots of two runs of lines are those of the first run followed
      by those of the second. */
  lemma {:induction false} ParseInputConcat(a: seq<string>, b: seq<string>)
    ensures ParseInput(a + b) == ParseInput(a) + ParseInput(b)
    decreases |b|
  {
    if b == [] {
      assert a + b == a;
    } else {
      var n := |b| - 1;
      assert (a + b)[..|a + b| - 1] == a + b[..n];
      assert (a + b)[|a + b| - 1] == b[n];
      ParseInputConcat(a, b[..n]);
    }
  }

  /** A line that describes a robot is an input of that one robot. */
  lemma ParseInputLine(line: string, s: Spec)
    requires ParseLine(line) == Some(s)
    ensures ParseInput([line]) == [s]
  {
    assert [line][..0] == [];
  }

  /** Parsing one more line of a robot adds that robot. */
  lemma ParseInputSnoc(lines: seq<string>, n: nat, s: Spec)
    requires n < |lines| && ParseLine(lines[n]) == Some(s)
    ensures ParseInput(lines[..n + 1]) == ParseInput(lines[..n]) + [s]
  {
    assert lines[..n + 1][..n] == lines[..n];
  }

  /** When the first n lines are the first n robots and line n describes
      robot n, the first n + 1 lines are the first n + 1 robots. */
  lemma ParsePrefix(lines: seq<string>, specs: seq<Spec>, n: nat)
    requires n < |lines| && n < |specs|
    requires ParseInput(lines[..n]) == specs[..n] && ParseLine(lines[n]) == Some(specs[n])
    ensures ParseInput(lines[..n + 1]) == specs[..n + 1]
  {
    ParseInputSnoc(lines, n, specs[n]);
    assert specs[..n + 1] == specs[..n] + [specs[n]];
  }

  /** Where each robot stands after n steps. */
  function FinalPositions(specs: seq<Spec>, width: nat, height: nat, n: nat): (r: seq<(nat, nat)>)
    requires n > 0 ==> width > 0 && height > 0
    ensures |r| == |specs|
    ensures forall i :: 0 <= i < |specs| ==>
      r[i] == (Iterate(specs[i].x, specs[i].dx, width, n), Iterate(specs[i].y, specs[i].dy, height, n))
  {
    if specs == [] then []
    else
      var s := specs[|specs| - 1];
      FinalPositions(specs[..|specs| - 1], width, height, n) +
        [(Iterate(s.x, s.dx, width, n), Iterate(s.y, s.dy, height, n))]
  }

  /** The quadrant of a position, numbered as in `compute_safety_factor`,
      or None on the middle row or column. */
  function Quadrant(p: (nat, nat), midX: nat, midY: nat): (r: Option<nat>)
    ensures r.Some? ==> r.value < 4
    ensures r.None? <==> p.0 == midX || p.1 == midY
  {
    var (x, y) := p;
    if x < midX && y < midY then Some(0)
    else if x > midX && y < midY then Some(1)
    else if x < midX && y > midY then Some(2)
    else if x > midX && y > midY then Some(3)
    else None
  }

  /** The `filter_map` of `compute_safety_factor`. */
  function Quadrants(ps: seq<(nat, nat)>, width: nat, height: nat): (r: seq<nat>)
    ensures |r| <= |ps|
    ensures forall k :: 0 <= k < |r| ==> r[k] < 4
  {
    if ps == [] then []
    else
      var n := |ps| - 1;
      match Quadrant(ps[n], width / 2, height / 2)
      case Some(q) => Quadrants(ps[..n], width, height) + [q]
      case None => Quadrants(ps[..n], width, height)
  }

  /** The product of the counts of the given keys. */
  function CountsProduct(keys: seq<nat>, qs: seq<nat>): (r: nat)
    ensures (forall k :: k in keys ==> k in qs) ==> r >= 1
  {
    if keys == [] then 1
    else
      var rest, k := CountsProduct(keys[..|keys| - 1], qs), keys[|keys| - 1];
      assert forall j :: j in keys[..|keys| - 1] ==> j in keys;
      assert k in qs ==> multiset(qs)[k] >= 1;
      ProductAtLeastOne(rest, multiset(qs)[k]);
      rest * multiset(qs)[k]
  }

  lemma ProductAtLeastOne(a: nat, b: nat)
    ensures a >= 1 && b >= 1 ==> a * b >= 1
  {
    if a >= 1 && b >= 1 {
      MulAtLeast(b, a);
    }
  }

  /** `compute_safety_factor`: the product of the values of the counts map
      of the quadrants, one value per quadrant that occurs. It is never
      zero, and one when no robot is in a quadrant. */
  function SafetyFactor(ps: seq<(nat, nat)>, width: nat, height: nat): (r: nat)
    ensures r >= 1
    ensures Quadrants(ps, width, height) == [] ==> r == 1
  {
    var qs := Quadrants(ps, width, height);
    CountsProduct(Unique(qs), qs)
  }

  /** A quadrant's factor: its count, or 1 when it is empty (it then has no
      entry in the counts map). */
  function Factor(qs: seq<nat>, q: nat): (r: nat)
    ensures r >= 1
  {
    if multiset(qs)[q] == 0 then 1 else multiset(qs)[q]
  }

  /** The product over quadrants 0 .. n - 1 of the count of those that are
      keys, 1 for the others. */
  function KeysProduct(keys: set<nat>, qs: seq<nat>, n: nat): nat
  {
    if n == 0 then 1
    else KeysProduct(keys, qs, n - 1) * (if n - 1 in keys then multiset(qs)[n - 1] else 1)
  }

  lemma {:induction false} KeysProductAdd(keys: set<nat>, k: nat, qs: seq<nat>, n: nat)
    requires k !in keys
    ensures KeysProduct(keys + {k}, qs, n) ==
      KeysProduct(keys, qs, n) * (if k < n then multiset(qs)[k] else 1)
  {
    if n > 0 {
      KeysProductAdd(keys, k, qs, n - 1);
      var a := KeysProduct(keys, qs, n - 1);
      var c := if k < n - 1 then multiset(qs)[k] else 1;
      var f := if n - 1 in keys then multiset(qs)[n - 1] else 1;
      if k == n - 1 {
        assert KeysProduct(keys + {k}, qs, n) == a * c * multiset(qs)[k];
        assert f == 1;
      } else {
        assert KeysProduct(keys + {k}, qs, n) == a * c * f;
        Reorder(a, c, f);
      }
    }
  }

  lemma Reorder(a: nat, c: nat, f: nat)
    ensures a * c * f == a * f * c
  {
  }

  /** Multiplying the counts of distinct keys in any order is the product
      of the counts over the fixed quadrant order. */
  lemma {:induction false} CountsProductOrder(keys: seq<nat>, qs: seq<nat>)
    requires NoDuplicates(keys) && forall k :: 0 <= k < |keys| ==> keys[k] < 4
    ensures CountsProduct(keys, qs) == KeysProduct(Elems(keys), qs, 4)
  {
    if keys != [] {
      var n := |keys| - 1;
      var init := keys[..n];
      assert NoDuplicates(init) by {
        forall i, j | 0 <= i < j < n ensures init[i] != init[j] {
          assert init[i] == keys[i] && init[j] == keys[j];
        }
      }
      CountsProductOrder(init, qs);
      assert keys == init + [keys[n]];
      assert Elems(keys) == Elems(init) + {keys[n]};
      assert keys[n] !in Elems(init) by {
        forall i | 0 <= i < n ensures init[i] != keys[n] {
          assert init[i] == keys[i];
        }
      }
      KeysProductAdd(Elems(init), keys[n], qs, 4);
      assert CountsProduct(keys, qs) == CountsProduct(init, qs) * multiset(qs)[keys[n]];
    } else {
      assert Elems(keys) == {};
      assert KeysProduct({}, qs, 1) == 1;
      assert KeysProduct({}, qs, 2) == 1;
      assert KeysProduct({}, qs, 3) == 1;
    }
  }

  function Product4(qs: seq<nat>): nat
  {
    Factor(qs, 0) * Factor(qs, 1) * Factor(qs, 2) * Factor(qs, 3)
  }

  /** The safety factor is the product of the four quadrants' counts with
      an empty quadrant counting as 1, not 0; robots on the middle row or
      column are in no quadrant. */
  lemma SafetyFactorQuadrants(ps: seq<(nat, nat)>, width: nat, height: nat)
    ensures SafetyFactor(ps, width, height) == Product4(Quadrants(ps, width, height))
  {
    var qs := Quadrants(ps, width, height);
    var keys := Unique(qs);
    assert forall k :: 0 <= k < |keys| ==> keys[k] < 4 by {
      forall k | 0 <= k < |keys| ensures keys[k] < 4 {
        assert keys[k] in qs;
      }
    }
    CountsProductOrder(keys, qs);
    KeysProductFactors(Elems(keys), qs);
  }

  /** Over the keys that occur, the fixed-order product is that of the four
      factors. */
  lemma KeysProductFactors(K: set<nat>, qs: seq<nat>)
    requires forall q :: q in K <==> q in qs
    ensures KeysProduct(K, qs, 4) == Product4(qs)
  {
    assert KeysProduct(K, qs, 1) == Factor(qs, 0);
    assert KeysProduct(K, qs, 2) == Factor(qs, 0) * Factor(qs, 1);
    assert KeysProduct(K, qs, 3) == Factor(qs, 0) * Factor(qs, 1) * Factor(qs, 2);
  }

  /** A robot on the middle row or column leaves the safety factor as it
      is. */
  lemma MiddleIgnored(ps: seq<(nat, nat)>, p: (nat, nat), width: nat, height: nat)
    requires p.0 == width / 2 || p.1 == height / 2
    ensures SafetyFactor(ps + [p], width, height) == SafetyFactor(ps, width, height)
  {
    assert (ps + [p])[..|ps|] == ps;
  }

  /** The quadrant counts are the numbers of robots strictly inside each
      quadrant. */
  lemma {:induction false} QuadrantCounts(ps: seq<(nat, nat)>, width: nat, height: nat, q: nat)
    ensures multiset(Quadrants(ps, width, height))[q] == |InQuadrant(ps, width, height, q)|
  {
    if ps == [] {
      assert InQuadrant(ps, width, height, q) == {};
    } else {
      var n := |ps| - 1;
      QuadrantCounts(ps[..n], width, height, q);
      InQuadrantLast(ps, width, height, q);
      assert Quadrants(ps, width, height) == Quadrants(ps[..n], width, height) +
        (if Quadrant(ps[n], width / 2, height / 2).Some? then [Quadrant(ps[n], width / 2, height / 2).value] else []);
    }
  }

  /** The last robot adds its own index to its quadrant's indices. */
  lemma InQuadrantLast(ps: seq<(nat, nat)>, width: nat, height: nat, q: nat)
    requires ps != []
    ensures var n := |ps| - 1;
      |InQuadrant(ps, width, height, q)| ==
        |InQuadrant(ps[..n], width, height, q)| + (if IsInQuadrant(ps, n, width, height, q) then 1 else 0)
  {
    var n := |ps| - 1;
    InQuadrantSplit(ps, width, height, q);
    assert n !in InQuadrant(ps[..n], width, height, q);
  }

  lemma InQuadrantSplit(ps: seq<(nat, nat)>, width: nat, height: nat, q: nat)
    requires ps != []
    ensures var n := |ps| - 1;
      InQuadrant(ps, width, height, q) ==
        InQuadrant(ps[..n], width, height, q) + (if IsInQuadrant(ps, n, width, height, q) then {n} else {})
  {
    var n := |ps| - 1;
    forall i: nat | i < n ensures IsInQuadrant(ps[..n], i, width, height, q) == IsInQuadrant(ps, i, width, height, q) {
      assert ps[..n][i] == ps[i];
    }
  }

  /** The indices of the robots standing in quadrant q. */
  function InQuadrant(ps: seq<(nat, nat)>, width: nat, height: nat, q: nat): set<nat>
  {
    set i: nat | i < |ps| && IsInQuadrant(ps, i, width, height, q)
  }

  predicate IsInQuadrant(ps: seq<(nat, nat)>, i: nat, width: nat, height: nat, q: nat)
  {
    i < |ps| && Quadrant(ps[i], width / 2, height / 2) == Some(q)
  }

  /** Fresh robot objects, one per description, distinct from each other. */
  method MakeRobots(specs: seq<Spec>) returns (robots: seq<Robot>)
    ensures |robots| == |specs|
    ensures forall i :: 0 <= i < |robots| ==> fresh(robots[i])
    ensures forall i, j :: 0 <= i < j < |robots| ==> robots[i] != robots[j]
    ensures forall i :: 0 <= i < |robots| ==>
      robots[i].x == specs[i].x && robots[i].y == specs[i].y &&
      robots[i].dx == specs[i].dx && robots[i].dy == specs[i].dy
  {
    robots := [];
    for k := 0 to |specs|
      invariant |robots| == k
      invariant forall i :: 0 <= i < k ==> fresh(robots[i])
      invariant forall i, j :: 0 <= i < j < k ==> robots[i] != robots[j]
      invariant forall i :: 0 <= i < k ==>
        robots[i].x == specs[i].x && robots[i].y == specs[i].y &&
        robots[i].dx == specs[i].dx && robots[i].dy == specs[i].dy
    {
      var r := new Robot(specs[k].x, specs[k].y, specs[k].dx, specs[k].dy);
      robots := robots + [r];
    }
  }

  /** One pass of the inner loop of `problem`: every robot steps once, and
      each one's position advances by one step. */
  method StepAll(robots: seq<Robot>, width: nat, height: nat)
    requires 0 < width < Two31 && 0 < height < Two31
    requires forall i, j :: 0 <= i < j < |robots| ==> robots[i] != robots[j]
    modifies set r | r in robots
    ensures forall i :: 0 <= i < |robots| ==>
      robots[i].x == StepCoord(old(robots[i].x), robots[i].dx, width) &&
      robots[i].y == StepCoord(old(robots[i].y), robots[i].dy, height)
  {
    for k := 0 to |robots|
      invariant forall i :: 0 <= i < k ==>
        robots[i].x == StepCoord(old(robots[i].x), robots[i].dx, width) &&
        robots[i].y == StepCoord(old(robots[i].y), robots[i].dy, height)
      invariant forall i :: k <= i < |robots| ==> robots[i].x == old(robots[i].x) && robots[i].y == old(robots[i].y)
    {
      robots[k].Step(width, height);
    }
  }

  /** The positions of the robots. */
  function Positions(robots: seq<Robot>): (r: seq<(nat, nat)>)
    reads set r | r in robots
    ensures |r| == |robots| && forall i :: 0 <= i < |robots| ==> r[i] == (robots[i].x, robots[i].y)
  {
    if robots == [] then []
    else Positions(robots[..|robots| - 1]) + [(robots[|robots| - 1].x, robots[|robots| - 1].y)]
  }

  /** `problem`: the robots of the input step the given number of times, and
      the result is the safety factor of where they end. Rust panics on a
      zero extent once a robot steps. */
  method Problem(lines: seq<string>, width: nat, height: nat, steps: nat) returns (factor: nat)
    requires steps > 0 && ParseInput(lines) != [] ==> 0 < width < Two31 && 0 < height < Two31
    ensures var specs := ParseInput(lines);
      factor == SafetyFactor(FinalPositions(specs, width, height, if specs == [] then 0 else steps), width, height)
  {
    var specs := ParseInput(lines);
    var robots := MakeRobots(specs);
    if specs != [] {
      for s := 0 to steps
        invariant forall i :: 0 <= i < |robots| ==>
          robots[i].x == Iterate(specs[i].x, specs[i].dx, width, s) &&
          robots[i].y == Iterate(specs[i].y, specs[i].dy, height, s)
      {
        StepAll(robots, width, height);
        forall i | 0 <= i < |robots|
          ensures robots[i].x == Iterate(specs[i].x, specs[i].dx, width, s + 1)
          ensures robots[i].y == Iterate(specs[i].y, specs[i].dy, height, s + 1)
        {
          IterateLast(specs[i].x, specs[i].dx, width, s);
          IterateLast(specs[i].y, specs[i].dy, height, s);
        }
      }
    }
    var positions := Positions(robots);
    assert positions == FinalPositions(specs, width, height, if specs == [] then 0 else steps);
    factor := SafetyFactor(positions, width, height);
  }

  /** `grid[position] = count`: in a well-formed grid, that cell holds the
      count and every other cell keeps its value. */
  method WriteCell(grid: Grid<nat>, x: nat, y: nat, v: nat)
    requires grid.Valid() && x < grid.width && y < grid.height
    modifies grid
    ensures grid.Valid()
    ensures forall x', y' :: 0 <= x' < grid.width && 0 <= y' < grid.height ==>
      grid.Offset(x', y') < |grid.data| &&
      grid.At(x', y') == if (x', y') == (x, y) then v else old(grid.At(x', y'))
  {
    grid.InExtentsHasOffset(x, y);
    grid.Set(x, y, v);
    forall x', y' | 0 <= x' < grid.width && 0 <= y' < grid.height
      ensures grid.Offset(x', y') < |grid.data|
      ensures grid.At(x', y') == if (x', y') == (x, y) then v else old(grid.At(x', y'))
    {
      grid.InExtentsHasOffset(x', y');
      if grid.Offset(x', y') == grid.Offset(x, y) {
        OffsetInjective(x', y', x, y, grid.width);
      }
    }
  }

  /** `robots_to_grid`: a grid of the room holding, in each cell, the number
      of robots there. Rust's row-major `IndexMut` would let a robot past the
      right edge land on the next row and panics only past the last cell;
      here every robot is inside the room, as every robot is after a step. */
  method RobotsToGrid(ps: seq<(nat, nat)>, width: nat, height: nat) returns (grid: Grid<nat>)
    requires forall i :: 0 <= i < |ps| ==> ps[i].0 < width && ps[i].1 < height
    ensures grid.Valid() && grid.width == width && grid.height == height
    ensures forall x, y :: 0 <= x < width && 0 <= y < height ==>
      grid.Offset(x, y) < |grid.data| && grid.At(x, y) == multiset(ps)[(x, y)]
  {
    grid := new Grid.New(width, height, 0);
    var rest := multiset(ps);
    forall x, y | 0 <= x < width && 0 <= y < height ensures grid.Offset(x, y) < |grid.data| {
      grid.InExtentsHasOffset(x, y);
    }
    while rest != multiset{}
      invariant grid.Valid() && grid.width == width && grid.height == height
      invariant forall p :: p in rest ==> rest[p] == multiset(ps)[p]
      invariant forall x, y :: 0 <= x < width && 0 <= y < height ==>
        grid.Offset(x, y) < |grid.data| &&
        grid.At(x, y) == (if (x, y) in rest then 0 else multiset(ps)[(x, y)])
      invariant forall p :: p in rest ==> p in multiset(ps)
      decreases |rest|
    {
      var position :| position in rest;
      var (x, y) := position;
      WriteCell(grid, x, y, rest[position]);
      rest := rest[position := 0];
    }
  }

  /** The example input of the tests, line by line. */
  const ExampleLines: seq<string> := ["p=0,4 v=3,-3", "p=6,3 v=-1,-3", "p=10,3 v=-1,2", "p=2,0 v=2,-1", "p=0,0 v=1,3", "p=3,0 v=-2,-2", "p=7,6 v=-1,-3", "p=3,0 v=-1,-2", "p=9,3 v=2,3", "p=7,3 v=-1,2", "p=2,4 v=2,-3", "p=9,5 v=-3,-3"]

  /** The robots those lines describe. */
  const ExampleSpecs: seq<Spec> := [Spec(0, 4, 3, -3), Spec(6, 3, -1, -3), Spec(10, 3, -1, 2), Spec(2, 0, 2, -1), Spec(0, 0, 1, 3), Spec(3, 0, -2, -2), Spec(7, 6, -1, -3), Spec(3, 0, -1, -2), Spec(9, 3, 2, 3), Spec(7, 3, -1, 2), Spec(2, 4, 2, -3), Spec(9, 5, -3, -3)]

  /** `"10"` parses as ten. */
  lemma ParseTen()
    ensures ParseI32("10") == Some(10)
  {
    DigitValue('1');
    assert "10"[..1] == "1";
    assert AllDigits("10");
  }

  /** The numbers written in the example's lines parse as their values. */
  lemma ExampleFields()
    ensures ParseI32("0") == Some(0) && ParseI32("1") == Some(1) && ParseI32("2") == Some(2) && ParseI32("3") == Some(3)
    ensures ParseI32("4") == Some(4) && ParseI32("5") == Some(5) && ParseI32("6") == Some(6) && ParseI32("7") == Some(7)
    ensures ParseI32("9") == Some(9) && ParseI32("10") == Some(10)
    ensures ParseI32("-1") == Some(-1) && ParseI32("-2") == Some(-2) && ParseI32("-3") == Some(-3)
  {
    ParseDigit('0');
    ParseDigit('1');
    ParseDigit('2');
    ParseDigit('3');
    ParseDigit('4');
    ParseDigit('5');
    ParseDigit('6');
    ParseDigit('7');
    ParseDigit('9');
    ParseTen();
  }

  /** Each line of the example describes its robot. */
  lemma ExampleLine(i: nat)
    requires i < 12
    ensures ParseLine(ExampleLines[i]) == Some(ExampleSpecs[i])
  {
    if i == 0 {
      ExampleLine0();
    } else if i == 1 {
      ExampleLine1();
    } else if i == 2 {
      ExampleLine2();
    } else if i == 3 {
      ExampleLine3();
    } else if i == 4 {
      ExampleLine4();
    } else if i == 5 {
      ExampleLine5();
    } else if i == 6 {
      ExampleLine6();
    } else if i == 7 {
      ExampleLine7();
    } else if i == 8 {
      ExampleLine8();
    } else if i == 9 {
      ExampleLine9();
    } else if i == 10 {
      ExampleLine10();
    } else {
      ExampleLine11();
    }
  }

  /** The example's lines one at a time: the line is of the input's form
      and its fields parse as the robot's numbers. */
  lemma ExampleLine0()
    ensures ParseLine(ExampleLines[0]) == Some(ExampleSpecs[0])
  {
    assert ExampleLines[0] == RobotText("0", "4", "3", "-3");
    ExampleFields();
    RobotLineIs(ExampleLines[0], "0", "4", "3", "-3", ExampleSpecs[0]);
  }

  lemma ExampleLine1()
    ensures ParseLine(ExampleLines[1]) == Some(ExampleSpecs[1])
  {
    assert ExampleLines[1] == RobotText("6", "3", "-1", "-3");
    ExampleFields();
    RobotLineIs(ExampleLines[1], "6", "3", "-1", "-3", ExampleSpecs[1]);
  }

  lemma ExampleLine2()
    ensures ParseLine(ExampleLines[2]) == Some(ExampleSpecs[2])
  {
    assert ExampleLines[2] == RobotText("10", "3", "-1", "2");
    ExampleFields();
    RobotLineIs(ExampleLines[2], "10", "3", "-1", "2", ExampleSpecs[2]);
  }

  lemma ExampleLine3()
    ensures ParseLine(ExampleLines[3]) == Some(ExampleSpecs[3])
  {
    assert ExampleLines[3] == RobotText("2", "0", "2", "-1");
    ExampleFields();
    RobotLineIs(ExampleLines[3], "2", "0", "2", "-1", ExampleSpecs[3]);
  }

  lemma ExampleLine4()
    ensures ParseLine(ExampleLines[4]) == Some(ExampleSpecs[4])
  {
    assert ExampleLines[4] == RobotText("0", "0", "1", "3");
    ExampleFields();
    RobotLineIs(ExampleLines[4], "0", "0", "1", "3", ExampleSpecs[4]);
  }

  lemma ExampleLine5()
    ensures ParseLine(ExampleLines[5]) == Some(ExampleSpecs[5])
  {
    assert ExampleLines[5] == RobotText("3", "0", "-2", "-2");
    ExampleFields();
    RobotLineIs(ExampleLines[5], "3", "0", "-2", "-2", ExampleSpecs[5]);
  }

  lemma ExampleLine6()
    ensures ParseLine(ExampleLines[6]) == Some(ExampleSpecs[6])
  {
    assert ExampleLines[6] == RobotText("7", "6", "-1", "-3");
    ExampleFields();
    RobotLineIs(ExampleLines[6], "7", "6", "-1", "-3", ExampleSpecs[6]);
  }

  lemma ExampleLine7()
    ensures ParseLine(ExampleLines[7]) == Some(ExampleSpecs[7])
  {
    assert ExampleLines[7] == RobotText("3", "0", "-1", "-2");
    ExampleFields();
    RobotLineIs(ExampleLines[7], "3", "0", "-1", "-2", ExampleSpecs[7]);
  }

  lemma ExampleLine8()
    ensures ParseLine(ExampleLines[8]) == Some(ExampleSpecs[8])
  {
    assert ExampleLines[8] == RobotText("9", "3", "2", "3");
    ExampleFields();
    RobotLineIs(ExampleLines[8], "9", "3", "2", "3", ExampleSpecs[8]);
  }

  lemma ExampleLine9()
    ensures ParseLine(ExampleLines[9]) == Some(ExampleSpecs[9])
  {
    assert ExampleLines[9] == RobotText("7", "3", "-1", "2");
    ExampleFields();
    RobotLineIs(ExampleLines[9], "7", "3", "-1", "2", ExampleSpecs[9]);
  }

  lemma ExampleLine10()
    ensures ParseLine(ExampleLines[10]) == Some(ExampleSpecs[10])
  {
    assert ExampleLines[10] == RobotText("2", "4", "2", "-3");
    ExampleFields();
    RobotLineIs(ExampleLines[10], "2", "4", "2", "-3", ExampleSpecs[10]);
  }

  lemma ExampleLine11()
    ensures ParseLine(ExampleLines[11]) == Some(ExampleSpecs[11])
  {
    assert ExampleLines[11] == RobotText("9", "5", "-3", "-3");
    ExampleFields();
    RobotLineIs(ExampleLines[11], "9", "5", "-3", "-3", ExampleSpecs[11]);
  }

  /** The first k lines of the example are its first k robots. */
  lemma {:induction false} ExamplePrefix(k: nat)
    requires k <= 12
    ensures ParseInput(ExampleLines[..k]) == ExampleSpecs[..k]
  {
    if k > 0 {
      ExamplePrefix(k - 1);
      ExampleLine(k - 1);
      ParsePrefix(ExampleLines, ExampleSpecs, k - 1);
    } else {
      assert ExampleLines[..0] == [];
    }
  }

  /** `parse_input` on the example gives its twelve robots. */
  lemma ExampleInput()
    ensures ParseInput(ExampleLines) == ExampleSpecs
  {
    ExamplePrefix(12);
    assert ExampleLines[..12] == ExampleLines;
    assert ExampleSpecs[..12] == ExampleSpecs;
  }

  /** Each robot of the example after 100 steps in the 11 by 7 room, from
      the quotients of its unwrapped coordinates. */
  lemma ExampleRobot(i: nat)
    requires i < 12
    ensures Iterate(ExampleSpecs[i].x, ExampleSpecs[i].dx, 11, 100) == ExamplePositions[i].0
    ensures Iterate(ExampleSpecs[i].y, ExampleSpecs[i].dy, 7, 100) == ExamplePositions[i].1
  {
    var s := ExampleSpecs[i];
    if i == 0 {
      RobotFinal(s, 100, 27, 3, -43, 5);
    } else if i == 1 {
      RobotFinal(s, 100, -9, 5, -43, 4);
    } else if i == 2 {
      RobotFinal(s, 100, -9, 9, 29, 0);
    } else if i == 3 {
      RobotFinal(s, 100, 18, 4, -15, 5);
    } else if i == 4 {
      RobotFinal(s, 100, 9, 1, 42, 6);
    } else if i == 5 {
      RobotFinal(s, 100, -18, 1, -29, 3);
    } else if i == 6 {
      RobotFinal(s, 100, -9, 6, -42, 0);
    } else if i == 7 {
      RobotFinal(s, 100, -9, 2, -29, 3);
    } else if i == 8 {
      RobotFinal(s, 100, 19, 0, 43, 2);
    } else if i == 9 {
      RobotFinal(s, 100, -9, 6, 29, 0);
    } else if i == 10 {
      RobotFinal(s, 100, 18, 4, -43, 5);
    } else {
      RobotFinal(s, 100, -27, 6, -43, 6);
    }
  }

  /** The twelve robots after 100 steps in the 11 by 7 room. */
  lemma ExampleFinal()
    ensures FinalPositions(ExampleSpecs, 11, 7, 100) == ExamplePositions
  {
    var r := FinalPositions(ExampleSpecs, 11, 7, 100);
    forall i | 0 <= i < 12
      ensures r[i] == ExamplePositions[i]
    {
      ExampleRobot(i);
    }
  }

  /** The test's answer: the example input, 100 steps in the 11 by 7 room,
      has safety factor 12. */
  lemma ExampleSafetyFactor()
    ensures SafetyFactor(FinalPositions(ParseInput(ExampleLines), 11, 7, 100), 11, 7) == 12
  {
    ExampleInput();
    ExampleFinal();
    ExampleFactor(ExamplePositions);
  }

  /** The example's positions after 100 steps in a room of width 11 and
      height 7. */
  const ExamplePositions: seq<(nat, nat)> := [(3, 5), (5, 4), (9, 0), (4, 5), (1, 6), (1, 3), (6, 0), (2, 3), (0, 2), (6, 0), (4, 5), (6, 6)]

  /** One robot after n steps, by the closed form, given the quotients of
      its unwrapped coordinates. */
  lemma RobotFinal(s: Spec, n: nat, qx: int, fx: nat, qy: int, fy: nat)
    requires s.x < 11 && s.y < 7 && n > 0
    requires s.x + n * s.dx == qx * 11 + fx && fx < 11
    requires s.y + n * s.dy == qy * 7 + fy && fy < 7
    ensures Iterate(s.x, s.dx, 11, n) == fx && Iterate(s.y, s.dy, 7, n) == fy
  {
    SmallAsI32(s.x);
    SmallAsI32(s.y);
    IterateClosedForm(s.x, s.dx, 11, n);
    IterateClosedForm(s.y, s.dy, 7, n);
    ModUnique(s.x + n * s.dx, qx, fx, 11);
    ModUnique(s.y + n * s.dy, qy, fy, 7);
  }

  /** The first robot of the example ends at (3, 5). */
  lemma ExampleFirstRobot()
    ensures Iterate(0, 3, 11, 100) == 3 && Iterate(4, -3, 7, 100) == 5
  {
    RobotFinal(Spec(0, 4, 3, -3), 100, 27, 3, -43, 5);
  }

  /** The quadrants of the example's final positions, four positions at a
      time. */
  lemma ExampleQuadrants(ps: seq<(nat, nat)>)
    requires ps == ExamplePositions
    ensures Quadrants(ps, 11, 7) == [2, 1, 2, 2, 1, 0, 1, 2, 3]
  {
    assert ps == ps[..4] + ps[4..8] + ps[8..];
    ExampleQuadrantsA(ps[..4]);
    ExampleQuadrantsB(ps[4..8]);
    ExampleQuadrantsC(ps[8..]);
    QuadrantsConcat(ps[..4], ps[4..8], 11, 7);
    QuadrantsConcat(ps[..4] + ps[4..8], ps[8..], 11, 7);
  }

  lemma ExampleQuadrantsA(ps: seq<(nat, nat)>)
    requires ps == [(3, 5), (5, 4), (9, 0), (4, 5)]
    ensures Quadrants(ps, 11, 7) == [2, 1, 2]
  {
    assert ps[..0] == [];
    assert ps[..1][..0] == ps[..0];
    assert Quadrants(ps[..1], 11, 7) == [2];
    assert ps[..2][..1] == ps[..1];
    assert Quadrants(ps[..2], 11, 7) == [2];
    assert ps[..3][..2] == ps[..2];
    assert Quadrants(ps[..3], 11, 7) == [2, 1];
    assert ps[..4][..3] == ps[..3];
    assert Quadrants(ps[..4], 11, 7) == [2, 1, 2];
    assert ps[..4] == ps;
  }

  lemma ExampleQuadrantsB(ps: seq<(nat, nat)>)
    requires ps == [(1, 6), (1, 3), (6, 0), (2, 3)]
    ensures Quadrants(ps, 11, 7) == [2, 1]
  {
    assert ps[..0] == [];
    assert ps[..1][..0] == ps[..0];
    assert Quadrants(ps[..1], 11, 7) == [2];
    assert ps[..2][..1] == ps[..1];
    assert Quadrants(ps[..2], 11, 7) == [2];
    assert ps[..3][..2] == ps[..2];
    assert Quadrants(ps[..3], 11, 7) == [2, 1];
    assert ps[..4][..3] == ps[..3];
    assert Quadrants(ps[..4], 11, 7) == [2, 1];
    assert ps[..4] == ps;
  }

  lemma ExampleQuadrantsC(ps: seq<(nat, nat)>)
    requires ps == [(0, 2), (6, 0), (4, 5), (6, 6)]
    ensures Quadrants(ps, 11, 7) == [0, 1, 2, 3]
  {
    assert ps[..0] == [];
    assert ps[..1][..0] == ps[..0];
    assert Quadrants(ps[..1], 11, 7) == [0];
    assert ps[..2][..1] == ps[..1];
    assert Quadrants(ps[..2], 11, 7) == [0, 1];
    assert ps[..3][..2] == ps[..2];
    assert Quadrants(ps[..3], 11, 7) == [0, 1, 2];
    assert ps[..4][..3] == ps[..3];
    assert Quadrants(ps[..4], 11, 7) == [0, 1, 2, 3];
    assert ps[..4] == ps;
  }

  /** The quadrants of two runs of positions are those of the first run
      followed by those of the second. */
  lemma {:induction false} QuadrantsConcat(a: seq<(nat, nat)>, b: seq<(nat, nat)>, width: nat, height: nat)
    ensures Quadrants(a + b, width, height) == Quadrants(a, width, height) + Quadrants(b, width, height)
    decreases |b|
  {
    if b == [] {
      assert a + b == a;
    } else {
      var n := |b| - 1;
      assert (a + b)[..|a + b| - 1] == a + b[..n];
      assert (a + b)[|a + b| - 1] == b[n];
      QuadrantsConcat(a, b[..n], width, height);
    }
  }

  /** The example's safety factor: 1, 3, 4 and 1 robots in the quadrants. */
  lemma ExampleFactor(ps: seq<(nat, nat)>)
    requires ps == ExamplePositions
    ensures SafetyFactor(ps, 11, 7) == 12
  {
    ExampleQuadrants(ps);
    SafetyFactorQuadrants(ps, 11, 7);
    ExampleProduct(Quadrants(ps, 11, 7));
  }

  /** The example's quadrant list holds 1, 3, 4 and 1 robots per quadrant. */
  lemma ExampleProduct(qs: seq<nat>)
    requires qs == [2, 1, 2, 2, 1, 0, 1, 2, 3]
    ensures Product4(qs) == 12
  {
    ExampleCounts(qs);
    CountsFactor(qs, 1, 3, 4, 1);
  }

  lemma ExampleCounts(qs: seq<nat>)
    requires qs == [2, 1, 2, 2, 1, 0, 1, 2, 3]
    ensures multiset(qs)[0] == 1 && multiset(qs)[1] == 3 && multiset(qs)[2] == 4 && multiset(qs)[3] == 1
  {
    var a, b := qs[..4], qs[4..];
    assert qs == a + b;
    ExampleFirstHalf(a);
    ExampleSecondHalf(b);
    ExampleBag(multiset(qs));
  }

  lemma ExampleBag(m: multiset<nat>)
    requires m == multiset{2, 1, 2, 2} + multiset{1, 0, 1, 2, 3}
    ensures m[0] == 1 && m[1] == 3 && m[2] == 4 && m[3] == 1
  {
  }

  lemma CountsFactor(qs: seq<nat>, a: nat, b: nat, c: nat, d: nat)
    requires multiset(qs)[0] == a && multiset(qs)[1] == b && multiset(qs)[2] == c && multiset(qs)[3] == d
    requires a == 1 && b == 3 && c == 4 && d == 1
    ensures Product4(qs) == 12
  {
  }

  lemma ExampleFirstHalf(a: seq<nat>)
    requires a == [2, 1, 2, 2]
    ensures multiset(a) == multiset{2, 1, 2, 2}
  {
  }

  lemma ExampleSecondHalf(b: seq<nat>)
    requires b == [1, 0, 1, 2, 3]
    ensures multiset(b) == multiset{1, 0, 1, 2, 3}
  {
  }
}
