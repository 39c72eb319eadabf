/** Day 11: a row of stones that all change at once on every blink, by the
    first rule that applies: 0 becomes 1, a number with an even count of
    decimal digits splits into its two halves, and any other number is
    multiplied by 2024. The row is kept as a count per stone value. */
module Day11 {
  import opened Wrappers
  import opened Util
  import opened GridLib
  import opened Text

  /** `parse_input` on the whitespace-separated tokens of the input: the
      tokens that parse, in order; the others are dropped. */
  function ParseInput(tokens: seq<string>): (stones: seq<nat>)
    ensures |stones| <= |tokens|
  {
    if tokens == [] then []
    else
      var n := |tokens| - 1;
      match ParseU64(tokens[n])
      case Some(v) => ParseInput(tokens[..n]) + [v]
      case None => ParseInput(tokens[..n])
  }

  /** Parsing is token by token: the stones of two runs of tokens are the
      stones of the first followed by those of the second. */
  lemma {:induction false} ParseInputConcat(a: seq<string>, b: seq<string>)
    ensures ParseInput(a + b) == ParseInput(a) + ParseInput(b)
    decreases |b|
  {
    if b == [] {
      assert a + b == a;
    } else {
      var n := |b| - 1;
      assert (a + b)[..|a + b| - 1] == a + b[..n];
      assert (a + b)[|a + b| - 1] == b[n];
      ParseInputConcat(a, b[..n]);
    }
  }

  /** A single token gives its value when it parses and nothing otherwise. */
  lemma ParseInputToken(token: string)
    ensures ParseInput([token]) == if ParseU64(token).Some? then [ParseU64(token).value] else []
  {
    assert [token][..0] == [];
  }

  /** `r.to_string()` as decimal digit values, most significant first. */
  function DecimalDigits(n: nat): (s: seq<nat>)
    ensures |s| == Digits(n)
    ensures forall k :: 0 <= k < |s| ==> s[k] < 10
  {
    if n < 10 then [n] else DecimalDigits(n / 10) + [n % 10]
  }

  /** `str::parse` on a run of decimal digits, leading zeros included. */
  function Value(s: seq<nat>): nat
  {
    if s == [] then 0 else Value(s[..|s| - 1]) * 10 + s[|s| - 1]
  }

  lemma {:induction false} ValueOfDecimalDigits(n: nat)
    ensures Value(DecimalDigits(n)) == n
  {
    if n >= 10 {
      var s := DecimalDigits(n / 10) + [n % 10];
      assert s[..|s| - 1] == DecimalDigits(n / 10);
      ValueOfDecimalDigits(n / 10);
    }
  }

  /** Reading a string in two parts: the value of the whole is the value of
      the front shifted past the back, plus the value of the back. */
  lemma {:induction false} ValueSplit(a: seq<nat>, b: seq<nat>)
    ensures Value(a + b) == Value(a) * Pow10(|b|) + Value(b)
    decreases |b|
  {
    if b == [] {
      assert a + b == a;
    } else {
      var n := |b| - 1;
      assert (a + b)[..|a + b| - 1] == a + b[..n];
      assert b[..|b| - 1] == b[..n];
      ValueSplit(a, b[..n]);
      calc {
        Value(a + b);
        Value(a + b[..n]) * 10 + b[n];
        (Value(a) * Pow10(n) + Value(b[..n])) * 10 + b[n];
        { ShiftByTen(Value(a), Pow10(n)); }
        Value(a) * Pow10(n + 1) + Value(b[..n]) * 10 + b[n];
      }
    }
  }

  lemma ShiftByTen(v: nat, p: nat)
    ensures (v * p) * 10 == v * (p * 10)
  {
  }

  /** A string of k decimal digits has a value below 10^k. */
  lemma {:induction false} ValueBound(s: seq<nat>)
    requires forall k :: 0 <= k < |s| ==> s[k] < 10
    ensures Value(s) < Pow10(|s|)
  {
    if s != [] {
      var n := |s| - 1;
      ValueBound(s[..n]);
      assert s[..|s| - 1] == s[..n];
    }
  }

  /** `apply_rule`: the stones one stone becomes in one blink. */
  function ApplyRule(rock: nat): (r: seq<nat>)
    ensures 1 <= |r| <= 2
  {
    if rock == 0 then [1]
    else if Digits(rock) % 2 == 0 then
      var mid := Digits(rock) / 2;
      var s := DecimalDigits(rock);
      [Value(s[..mid]), Value(s[mid..])]
    else [rock * 2024]
  }

  /** A split stone's halves are its leading and trailing halves of digits:
      the front shifted past the back, plus the back, gives the stone back;
      the back has at most half the digits, leading zeros dropped. */
  lemma ApplyRuleSplit(rock: nat)
    requires rock != 0 && Digits(rock) % 2 == 0
    ensures var r := ApplyRule(rock); var mid := Digits(rock) / 2;
      |r| == 2 && r[0] * Pow10(mid) + r[1] == rock && r[1] < Pow10(mid)
  {
    var mid := Digits(rock) / 2;
    var s := DecimalDigits(rock);
    assert s == s[..mid] + s[mid..];
    ValueSplit(s[..mid], s[mid..]);
    ValueOfDecimalDigits(rock);
    ValueBound(s[mid..]);
  }

  /** The other two rules. */
  lemma ApplyRuleOthers(rock: nat)
    ensures rock == 0 ==> ApplyRule(rock) == [1]
    ensures rock != 0 && Digits(rock) % 2 == 1 ==> ApplyRule(rock) == [rock * 2024]
  {
  }

  /** One blink over the row of stones in order: each stone replaced by
      what the rule makes of it. When the rule makes one or two stones of
      each, as `apply_rule` does, a blink at least keeps and at most
      doubles the number of stones. */
  function Blink(stones: seq<nat>, rule: nat -> seq<nat>): (r: seq<nat>)
    ensures (forall x :: |rule(x)| >= 1) ==> |r| >= |stones|
    ensures (forall x :: |rule(x)| <= 2) ==> |r| <= 2 * |stones|
  {
    if stones == [] then []
    else Blink(stones[..|stones| - 1], rule) + rule(stones[|stones| - 1])
  }

  lemma {:induction false} BlinkAppend(a: seq<nat>, b: seq<nat>, rule: nat -> seq<nat>)
    ensures Blink(a + b, rule) == Blink(a, rule) + Blink(b, rule)
    decreases |b|
  {
    if b == [] {
      assert a + b == a;
    } else {
      var n := |b| - 1;
      assert (a + b)[..|a + b| - 1] == a + b[..n];
      assert b[..|b| - 1] == b[..n];
      BlinkAppend(a, b[..n], rule);
    }
  }

  lemma BlinkSingle(x: nat, rule: nat -> seq<nat>)
    ensures Blink([x], rule) == rule(x)
  {
    assert [x][..0] == [];
  }

  /** The row after n blinks. */
  function Expand(stones: seq<nat>, n: nat): seq<nat>
  {
    if n == 0 then stones else Blink(Expand(stones, n - 1), ApplyRule)
  }

  /** Blinking never shrinks the row. */
  lemma {:induction false} ExpandGrows(stones: seq<nat>, n: nat)
    ensures |stones| <= |Expand(stones, n)|
  {
    if n > 0 {
      ExpandGrows(stones, n - 1);
    }
  }

  /** A blink acts on each stone alone, so the stones it yields, counted by
      value, depend only on the stones counted by value, not on their
      order: what lets the program keep a count map instead of a row. */
  lemma {:induction false} BlinkCounts(a: seq<nat>, b: seq<nat>, rule: nat -> seq<nat>)
    requires multiset(a) == multiset(b)
    ensures multiset(Blink(a, rule)) == multiset(Blink(b, rule))
    decreases |a|
  {
    if a != [] {
      var n := |a| - 1;
      var x := a[n];
      assert a == a[..n] + [x];
      assert multiset(a) == multiset(a[..n]) + multiset{x};
      assert x in multiset(b);
      var i :| 0 <= i < |b| && b[i] == x;
      var b' := b[..i] + b[i + 1..];
      RemoveAt(b, i);
      assert multiset(a[..n]) == multiset(a) - multiset{x};
      BlinkCounts(a[..n], b', rule);
      BlinkAppend(a[..n], [x], rule);
      BlinkSingle(x, rule);
      assert multiset(Blink(a, rule)) == multiset(Blink(a[..n], rule)) + multiset(rule(x));
      BlinkAround(b, i, rule);
    }
  }

  /** Taking one element out of a row takes one copy of it out of its count. */
  /** The blink of a row, split around one of its stones. */
  lemma BlinkAround(b: seq<nat>, i: nat, rule: nat -> seq<nat>)
    requires i < |b|
    ensures multiset(Blink(b, rule))
      == multiset(Blink(b[..i] + b[i + 1..], rule)) + multiset(rule(b[i]))
  {
    var lo, x, hi := b[..i], b[i], b[i + 1..];
    SplitAround(b, i);
    BlinkAppend(lo + [x], hi, rule);
    BlinkAppend(lo, [x], rule);
    BlinkAppend(lo, hi, rule);
    BlinkSingle(x, rule);
    var bl, bx, bh := Blink(lo, rule), rule(x), Blink(hi, rule);
    assert Blink(b, rule) == bl + bx + bh;
    assert Blink(lo + hi, rule) == bl + bh;
    assert multiset(bl + bx + bh) == multiset(bl) + multiset(bx) + multiset(bh);
    assert multiset(bl + bh) == multiset(bl) + multiset(bh);
  }

  /** c copies of one stone. */
  function Copies(rock: nat, c: nat): (r: seq<nat>)
    ensures |r| == c
  {
    if c == 0 then [] else Copies(rock, c - 1) + [rock]
  }

  /** Counted by value, c copies of a stone are that stone with count c. */
  lemma {:induction false} CopiesCounts(rock: nat, c: nat)
    ensures multiset(Copies(rock, c)) == multiset{}[rock := c]
  {
    if c > 0 {
      CopiesCounts(rock, c - 1);
      assert multiset(Copies(rock, c)) == multiset(Copies(rock, c - 1)) + multiset{rock};
    }
  }

  /** c copies of a stone blink into c times what the stone blinks into. */
  lemma {:induction false} BlinkCopies(rock: nat, c: nat, rule: nat -> seq<nat>, x: nat)
    ensures multiset(Blink(Copies(rock, c), rule))[x] == Mul(c, multiset(rule(rock))[x])
  {
    if c > 0 {
      BlinkCopies(rock, c - 1, rule, x);
      BlinkAppend(Copies(rock, c - 1), [rock], rule);
      BlinkSingle(rock, rule);
      var m := multiset(rule(rock))[x];
      assert Blink(Copies(rock, c), rule) == Blink(Copies(rock, c - 1), rule) + rule(rock);
      assert multiset(Blink(Copies(rock, c), rule))[x] ==
        multiset(Blink(Copies(rock, c - 1), rule))[x] + m;
    }
  }

  /** The inner loop of the fold for one entry: each value the stone becomes
      has its count raised by the entry's count. */
  method AddCounts(acc0: multiset<nat>, next: seq<nat>, count: nat) returns (acc: multiset<nat>)
    ensures forall x :: acc[x] == acc0[x] + Mul(multiset(next)[x], count)
  {
    acc := acc0;
    for q := 0 to |next|
      invariant forall x :: acc[x] == acc0[x] + Mul(multiset(next[..q])[x], count)
    {
      assert next[..q + 1] == next[..q] + [next[q]];
      acc := acc[next[q] := acc[next[q]] + count];
    }
    assert next[..|next|] == next;
  }

  /** Taking one entry out of the count map leaves the rest with that
      value's copies. */
  lemma TakeEntry(rest: multiset<nat>, rock: nat)
    ensures rest == rest[rock := 0] + multiset(Copies(rock, rest[rock]))
  {
    CopiesCounts(rock, rest[rock]);
  }

  /** Adding one entry's counts to the fold's accumulator is blinking that
      entry's copies after the stones done so far. */
  lemma AddEntry(done: seq<nat>, before: multiset<nat>, after: multiset<nat>, rock: nat, count: nat)
    requires before == multiset(Blink(done, ApplyRule))
    requires forall x :: after[x] == before[x] + Mul(multiset(ApplyRule(rock))[x], count)
    ensures after == multiset(Blink(done + Copies(rock, count), ApplyRule))
  {
    BlinkAppend(done, Copies(rock, count), ApplyRule);
    forall x ensures after[x] == multiset(Blink(done + Copies(rock, count), ApplyRule))[x] {
      BlinkCopies(rock, count, ApplyRule, x);
      MulIsProduct(count, multiset(ApplyRule(rock))[x]);
      MulIsProduct(multiset(ApplyRule(rock))[x], count);
    }
  }

  /** The fold of one iteration of `problem`: every value with its count is
      replaced by the values its stone becomes, each carrying that count,
      summed per value. The entries are taken in an arbitrary order, as a
      `HashMap` yields them; the row the counts stand for is the ghost
      parameter. */
  method BlinkMap(rocks: multiset<nat>, ghost row: seq<nat>) returns (acc: multiset<nat>)
    requires multiset(row) == rocks
    ensures acc == multiset(Blink(row, ApplyRule))
  {
    var rest := rocks;
    acc := multiset{};
    ghost var done: seq<nat> := [];
    while rest != multiset{}
      invariant multiset(done) + rest == rocks
      invariant acc == multiset(Blink(done, ApplyRule))
      decreases |rest|
    {
      var rock :| rock in rest;
      var count := rest[rock];
      ghost var before := acc;
      acc := AddCounts(acc, ApplyRule(rock), count);
      AddEntry(done, before, acc, rock, count);
      TakeEntry(rest, rock);
      rest := rest[rock := 0];
      done := done + Copies(rock, count);
    }
    BlinkCounts(done, row, ApplyRule);
  }

  /** `problem`: the number of stones after the given number of blinks,
      taken as the sum of the count map's counts, which is the length of
      the fully expanded row. */
  method Problem(tokens: seq<string>, iterations: nat) returns (total: nat)
    ensures total == |Expand(ParseInput(tokens), iterations)|
  {
    ghost var stones := ParseInput(tokens);
    var rocks := multiset(ParseInput(tokens));
    for k := 0 to iterations
      invariant rocks == multiset(Expand(stones, k))
    {
      rocks := BlinkMap(rocks, Expand(stones, k));
    }
    total := |rocks|;
  }

  /** The input `125 17` of the examples. */
  lemma ExampleInput()
    ensures ParseInput(["125", "17"]) == [125, 17]
  {
    assert "125"[..2] == "12" && "12"[..1] == "1" && "1"[..0] == [];
    assert "17"[..1] == "1";
    assert DigitsValue("125") == 125 && DigitsValue("17") == 17;
    ParseDecimal("125");
    ParseDecimal("17");
    assert ["125", "17"][..1] == ["125"];
    assert ["125"][..0] == [];
  }

  /** One stone split by its digits. */
  lemma SplitExample(rock: nat, d: nat, front: nat, back: nat)
    requires rock != 0 && Digits(rock) == 2 * d && d > 0
    requires front * Pow10(d) + back == rock && back < Pow10(d)
    ensures ApplyRule(rock) == [front, back]
  {
    ApplyRuleSplit(rock);
    var r := ApplyRule(rock);
    FrontUnique(r[0], r[1], front, back, Pow10(d));
  }

  lemma FrontUnique(f1: nat, b1: nat, f2: nat, b2: nat, p: nat)
    requires b1 < p && b2 < p && f1 * p + b1 == f2 * p + b2
    ensures f1 == f2 && b1 == b2
  {
    if f1 < f2 {
      MulMonotone(f1 + 1, f2, p);
    } else if f2 < f1 {
      MulMonotone(f2 + 1, f1, p);
    }
  }

  lemma MulMonotone(a: nat, b: nat, p: nat)
    requires a <= b
    ensures a * p <= b * p
  {
  }

  lemma Blink3(s: seq<nat>, rule: nat -> seq<nat>)
    requires |s| == 3
    ensures Blink(s, rule) == rule(s[0]) + rule(s[1]) + rule(s[2])
  {
    assert s[..2][..1] == [s[0]] && s[..2][..1][..0] == [];
    BlinkSingle(s[0], rule);
  }

  lemma Blink4(s: seq<nat>, rule: nat -> seq<nat>)
    requires |s| == 4
    ensures Blink(s, rule) == rule(s[0]) + rule(s[1]) + rule(s[2]) + rule(s[3])
  {
    assert s[..3][..2] == s[..2];
    Blink3(s[..3], rule);
  }

  /** The first blink of the examples: `253000 1 7`. */
  lemma ExampleBlink1()
    ensures Expand([125, 17], 1) == [253000, 1, 7]
  {
    assert Digits(125) == 3 && Digits(17) == 2;
    SplitExample(17, 1, 1, 7);
    assert ApplyRule(125) == [253000];
    assert [125, 17][..1] == [125] && [125][..0] == [];
  }

  /** The second blink: `253 0 2024 14168`. */
  lemma ExampleBlink2()
    ensures Blink([253000, 1, 7], ApplyRule) == [253, 0, 2024, 14168]
  {
    assert Digits(253000) == 6 && Digits(1) == 1 && Digits(7) == 1;
    SplitExample(253000, 3, 253, 0);
    Blink3([253000, 1, 7], ApplyRule);
  }

  /** The third blink: `512072 1 20 24 28676032`. */
  lemma ExampleBlink3()
    ensures Blink([253, 0, 2024, 14168], ApplyRule) == [512072, 1, 20, 24, 28676032]
  {
    assert Digits(253) == 3 && Digits(2024) == 4 && Digits(14168) == 5;
    SplitExample(2024, 2, 20, 24);
    Blink4([253, 0, 2024, 14168], ApplyRule);
  }

  /** The first three examples: 3, 4 and 5 stones after one, two and three
      blinks of `125 17`. */
  lemma ExampleCounts()
    ensures |Expand(ParseInput(["125", "17"]), 1)| == 3
    ensures |Expand(ParseInput(["125", "17"]), 2)| == 4
    ensures |Expand(ParseInput(["125", "17"]), 3)| == 5
  {
    ExampleInput();
    ExampleBlink1();
    ExampleBlink2();
    ExampleBlink3();
  }
}
