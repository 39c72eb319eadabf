/** The earlier day-3 program: a single hand-written scanner for
    `mul(a,b)` over the input's characters, with part one only. */
module Day3 {
  import opened Wrappers

  /** `char::is_digit(10)`. */
  predicate IsDigit(c: char)
  {
    '0' <= c <= '9'
  }

  /** The length of the digit run starting at i, as the inner `while`
      loops count it. */
  function DigitRun(cs: seq<char>, i: nat): (n: nat)
    requires i <= |cs|
    ensures i + n <= |cs| && forall k :: i <= k < i + n ==> IsDigit(cs[k])
    ensures i + n < |cs| ==> !IsDigit(cs[i + n])
    decreases |cs| - i
  {
    if i == |cs| || !IsDigit(cs[i]) then 0 else 1 + DigitRun(cs, i + 1)
  }

  /** The value `parse::<i32>` gives a run of digits. */
  function Decimal(ds: seq<char>): nat
    requires forall k :: 0 <= k < |ds| ==> IsDigit(ds[k])
  {
    if ds == [] then 0
    else
      var n := |ds| - 1;
      assert forall k :: 0 <= k < n ==> ds[..n][k] == ds[k];
      assert IsDigit(ds[n]);
      Decimal(ds[..n]) * 10 + (ds[n] as int - '0' as int)
  }

  function Plus(x: int, r: Option<int>): Option<int>
  {
    if r.Some? then Some(x + r.value) else None
  }

  /** Where the scan goes on after a mismatch at k following a partial
      match: after it, as the program does, or at it (fixed). */
  function Resume(k: nat, fixed: bool): nat
  {
    if fixed then k else k + 1
  }

  /** What one pass of the loop body does from an `m` at i. */
  datatype Step = Panic | Skip(next: nat) | Found(product: int, next: nat)

  /** The loop body of `part1` from an `m` at i: a panic (an index at the
      end of the input, or an empty digit run given to `parse`), a skip to
      where the scan goes on, or a complete `mul(a,b)` and the position
      after it. */
  function StepAt(cs: seq<char>, i: nat, fixed: bool): (r: Step)
    requires i < |cs| && cs[i] == 'm'
    ensures r.Skip? ==> i < r.next <= |cs|
    ensures r.Found? ==> i < r.next <= |cs|
  {
    if i + 1 == |cs| then Panic
    else if cs[i + 1] != 'u' then Skip(Resume(i + 1, fixed))
    else if i + 2 == |cs| then Panic
    else if cs[i + 2] != 'l' then Skip(Resume(i + 2, fixed))
    else if i + 3 == |cs| then Panic
    else if cs[i + 3] != '(' then Skip(Resume(i + 3, fixed))
    else OperandsAt(cs, i + 4, fixed)
  }

  /** The rest of the loop body, after `mul(`, with the first operand at s. */
  function OperandsAt(cs: seq<char>, s: nat, fixed: bool): (r: Step)
    requires s <= |cs|
    ensures r.Skip? ==> s <= r.next <= |cs|
    ensures r.Found? ==> s < r.next <= |cs|
  {
    var ja := DigitRun(cs, s);
    if ja > 3 then Skip(s + ja)
    else if ja == 0 then Panic
    else
      var c := s + ja;
      if c == |cs| then Panic
      else if cs[c] != ',' then Skip(Resume(c, fixed))
      else SecondAt(cs, c + 1, Decimal(cs[s..c]), fixed)
  }

  /** The rest after the comma, with the second operand at t and the first
      operand's value a. */
  function SecondAt(cs: seq<char>, t: nat, a: nat, fixed: bool): (r: Step)
    requires t <= |cs|
    ensures r.Skip? ==> t <= r.next <= |cs|
    ensures r.Found? ==> t < r.next <= |cs|
  {
    var jb := DigitRun(cs, t);
    if jb > 3 then Skip(t + jb)
    else if jb == 0 then Panic
    else
      var e := t + jb;
      if e == |cs| then Panic
      else if cs[e] != ')' then Skip(Resume(e, fixed))
      else Found(a * Decimal(cs[t..e]), e + 1)
  }

  /** The answer the loop of `part1` adds from position i on, or None where
      it panics. */
  function Scan(cs: seq<char>, i: nat, fixed: bool): Option<int>
    requires i <= |cs|
    decreases |cs| - i
  {
    if i == |cs| then Some(0)
    else if cs[i] != 'm' then Scan(cs, i + 1, fixed)
    else match StepAt(cs, i, fixed)
      case Panic => None
      case Skip(k) => Scan(cs, k, fixed)
      case Found(v, k) => Plus(v, Scan(cs, k, fixed))
  }

  /** The inner `while` loop: counts the digits from i on. */
  method CountDigits(chars: seq<char>, i: nat) returns (j: nat)
    requires i <= |chars|
    ensures j == DigitRun(chars, i)
  {
    j := 0;
    while i + j < |chars| && IsDigit(chars[i + j])
      invariant i + j <= |chars| && DigitRun(chars, i) == j + DigitRun(chars, i + j)
      decreases |chars| - i - j
    {
      j := j + 1;
    }
  }

  /** The body of the loop of `part1` after it has met an `m` at i: each
      `continue` becomes a Skip, each panic a Panic, and a complete
      instruction the product that is added to the answer. */
  method MatchMul(chars: seq<char>, i0: nat) returns (r: Step)
    requires i0 < |chars| && chars[i0] == 'm'
    ensures r == StepAt(chars, i0, false)
  {
    var i := i0 + 1;
    if i == |chars| {
      return Panic;
    }
    if chars[i] != 'u' {
      return Skip(i + 1);
    }
    i := i + 1;
    if i == |chars| {
      return Panic;
    }
    if chars[i] != 'l' {
      return Skip(i + 1);
    }
    i := i + 1;
    if i == |chars| {
      return Panic;
    }
    if chars[i] != '(' {
      return Skip(i + 1);
    }
    r := MatchOperands(chars, i + 1);
  }

  /** The body of the loop of `part1` after `mul(`, from s on. */
  method MatchOperands(chars: seq<char>, s: nat) returns (r: Step)
    requires s <= |chars|
    ensures r == OperandsAt(chars, s, false)
  {
    var i := s;
    var j := CountDigits(chars, i);
    if j > 3 {
      return Skip(i + j);
    }
    if j == 0 {
      return Panic;
    }
    var a := Decimal(chars[i..i + j]);
    i := i + j;
    if i == |chars| {
      return Panic;
    }
    if chars[i] != ',' {
      return Skip(i + 1);
    }
    r := MatchSecond(chars, i + 1, a);
  }

  /** The body of the loop of `part1` after the comma, from t on. */
  method MatchSecond(chars: seq<char>, t: nat, a: nat) returns (r: Step)
    requires t <= |chars|
    ensures r == SecondAt(chars, t, a, false)
  {
    var i := t;
    var j := CountDigits(chars, i);
    if j > 3 {
      return Skip(i + j);
    }
    if j == 0 {
      return Panic;
    }
    var b := Decimal(chars[i..i + j]);
    i := i + j;
    if i == |chars| {
      return Panic;
    }
    if chars[i] != ')' {
      return Skip(i + 1);
    }
    return Found(a * b, i + 1);
  }

  /** `part1` on the characters of the input: the `while` loop over i, with
      a panic as None. */
  method Part1(chars: seq<char>) returns (result: Option<int>)
    ensures result == Scan(chars, 0, false)
  {
    var i: nat := 0;
    var answer := 0;
    while i < |chars|
      invariant i <= |chars|
      invariant Scan(chars, 0, false) == Plus(answer, Scan(chars, i, false))
      decreases |chars| - i
    {
      if chars[i] != 'm' {
        i := i + 1;
        continue;
      }
      var step := MatchMul(chars, i);
      match step {
        case Panic =>
          return None;
        case Skip(k) =>
          i := k;
        case Found(v, k) =>
          answer := answer + v;
          i := k;
      }
    }
    result := Some(answer);
  }

  /** The instruction at p as the puzzle defines it, independent of how the
      scanner moves: `mul(`, one to three digits, a comma, one to three
      digits and `)`, worth the product of the two numbers; 0 elsewhere. */
  function MulAt(cs: seq<char>, p: nat): nat
    requires p <= |cs|
  {
    if p + 4 <= |cs| && cs[p] == 'm' && cs[p + 1] == 'u' && cs[p + 2] == 'l' && cs[p + 3] == '('
    then OperandsValue(cs, p + 4)
    else 0
  }

  /** The value of `a,b)` at s, or 0 when the text there is not of that form. */
  function OperandsValue(cs: seq<char>, s: nat): nat
    requires s <= |cs|
  {
    var ja := DigitRun(cs, s);
    var c := s + ja;
    if 1 <= ja <= 3 && c < |cs| && cs[c] == ',' then SecondValue(cs, c + 1, Decimal(cs[s..c]))
    else 0
  }

  /** The value of `b)` at t times a, or 0 when the text there is not of
      that form. */
  function SecondValue(cs: seq<char>, t: nat, a: nat): nat
    requires t <= |cs|
  {
    var jb := DigitRun(cs, t);
    var e := t + jb;
    if 1 <= jb <= 3 && e < |cs| && cs[e] == ')' then a * Decimal(cs[t..e]) else 0
  }

  /** The sum of the instructions starting at i or later. */
  function MulSum(cs: seq<char>, i: nat): nat
    requires i <= |cs|
    decreases |cs| - i
  {
    if i == |cs| then 0 else MulAt(cs, i) + MulSum(cs, i + 1)
  }

  /** No `m` in [i, k). */
  predicate NoM(cs: seq<char>, i: nat, k: nat)
    requires i <= k <= |cs|
  {
    forall q :: i <= q < k ==> cs[q] != 'm'
  }

  /** Positions without an `m` add nothing. */
  lemma {:induction false} SkipNoM(cs: seq<char>, i: nat, k: nat)
    requires i <= k <= |cs| && NoM(cs, i, k)
    ensures MulSum(cs, i) == MulSum(cs, k)
    decreases k - i
  {
    if i < k {
      SkipNoM(cs, i + 1, k);
    }
  }

  /** Later suffixes sum to less. */
  lemma {:induction false} MulSumMonotone(cs: seq<char>, i: nat, k: nat)
    requires i <= k <= |cs|
    ensures MulSum(cs, k) <= MulSum(cs, i)
    decreases k - i
  {
    if i < k {
      MulSumMonotone(cs, i + 1, k);
    }
  }

  /** A digit run holds no `m`. */
  lemma DigitsNoM(cs: seq<char>, s: nat)
    requires s <= |cs|
    ensures NoM(cs, s, s + DigitRun(cs, s))
  {
  }

  /** NoM over two adjacent ranges. */
  lemma NoMJoin(cs: seq<char>, i: nat, j: nat, k: nat)
    requires i <= j <= k <= |cs| && NoM(cs, i, j) && NoM(cs, j, k)
    ensures NoM(cs, i, k)
  {
  }

  /** What the second-operand part of a step says about the text. */
  lemma SecondMeaning(cs: seq<char>, t: nat, a: nat, fixed: bool)
    requires t <= |cs|
    ensures var r := SecondAt(cs, t, a, fixed);
      (r.Found? ==> r.product == SecondValue(cs, t, a) && NoM(cs, t, r.next)) &&
      (r.Skip? ==> SecondValue(cs, t, a) == 0 && (fixed ==> NoM(cs, t, r.next)))
  {
    var jb := DigitRun(cs, t);
    DigitsNoM(cs, t);
    if 1 <= jb <= 3 && t + jb < |cs| && cs[t + jb] == ')' {
      NoMJoin(cs, t, t + jb, t + jb + 1);
    }
  }

  /** What the operand part of a step says about the text. */
  lemma OperandsMeaning(cs: seq<char>, s: nat, fixed: bool)
    requires s <= |cs|
    ensures var r := OperandsAt(cs, s, fixed);
      (r.Found? ==> r.product == OperandsValue(cs, s) && NoM(cs, s, r.next)) &&
      (r.Skip? ==> OperandsValue(cs, s) == 0 && (fixed ==> NoM(cs, s, r.next)))
  {
    var ja := DigitRun(cs, s);
    DigitsNoM(cs, s);
    if 1 <= ja <= 3 && s + ja < |cs| && cs[s + ja] == ',' {
      SecondMeaning(cs, s + ja + 1, Decimal(cs[s..s + ja]), fixed);
      NoMJoin(cs, s, s + ja, s + ja + 1);
      var r := SecondAt(cs, s + ja + 1, Decimal(cs[s..s + ja]), fixed);
      if r.Found? || (r.Skip? && fixed) {
        NoMJoin(cs, s, s + ja + 1, r.next);
      }
    }
  }

  /** A complete step finds exactly the instruction at i and passes over no
      other `m`; a skip passes over a position holding no instruction, and,
      in the fixed scan, over no `m` after it. */
  lemma StepMeaning(cs: seq<char>, i: nat, fixed: bool)
    requires i < |cs| && cs[i] == 'm'
    ensures var r := StepAt(cs, i, fixed);
      (r.Found? ==> r.product == MulAt(cs, i) && NoM(cs, i + 1, r.next)) &&
      (r.Skip? ==> MulAt(cs, i) == 0 && (fixed ==> NoM(cs, i + 1, r.next)))
  {
    if i + 3 < |cs| && cs[i + 1] == 'u' && cs[i + 2] == 'l' && cs[i + 3] == '(' {
      OperandsMeaning(cs, i + 4, fixed);
    }
  }

  /** The scan finds no more than the instructions in the text, and the
      fixed scan, where it does not panic, finds exactly their sum. */
  lemma {:induction false} ScanCounts(cs: seq<char>, i: nat, fixed: bool)
    requires i <= |cs| && Scan(cs, i, fixed).Some?
    ensures Scan(cs, i, fixed).value <= MulSum(cs, i)
    ensures fixed ==> Scan(cs, i, fixed).value == MulSum(cs, i)
    decreases |cs| - i
  {
    if i < |cs| {
      if cs[i] != 'm' {
        ScanCounts(cs, i + 1, fixed);
      } else {
        StepMeaning(cs, i, fixed);
        match StepAt(cs, i, fixed)
        case Skip(k) =>
          ScanCounts(cs, k, fixed);
          MulSumMonotone(cs, i + 1, k);
          if fixed {
            SkipNoM(cs, i + 1, k);
          }
        case Found(v, k) =>
          ScanCounts(cs, k, fixed);
          SkipNoM(cs, i + 1, k);
      }
    }
  }

  /** Positions without an `m` are passed over by the scan. */
  lemma {:induction false} ScanNoM(cs: seq<char>, i: nat, k: nat, fixed: bool)
    requires i <= k <= |cs| && NoM(cs, i, k)
    ensures Scan(cs, i, fixed) == Scan(cs, k, fixed)
    decreases k - i
  {
    if i < k {
      ScanNoM(cs, i + 1, k, fixed);
    }
  }

  /** The instruction `mul(2,3)` inside `mmul(2,3)`, at position 1. */
  lemma DoubledMInstruction(cs: seq<char>)
    requires cs == "mmul(2,3)"
    ensures DigitRun(cs, 5) == 1 && DigitRun(cs, 7) == 1
    ensures Decimal(cs[5..6]) == 2 && Decimal(cs[7..8]) == 3
  {
    assert DigitRun(cs, 6) == 0;
    assert DigitRun(cs, 8) == 0;
    assert cs[5..6][..0] == [];
    assert cs[7..8][..0] == [];
  }

  /** The scan of `part1` skips the character that broke a partial match,
      so an `m` right after an `m` is never looked at: `mmul(2,3)` holds an
      instruction worth 6, which the scan misses and the fixed scan finds. */
  lemma DoubledM(cs: seq<char>)
    requires cs == "mmul(2,3)"
    ensures MulSum(cs, 0) == 6
    ensures Scan(cs, 0, false) == Some(0)
    ensures Scan(cs, 0, true) == Some(6)
  {
    DoubledMInstruction(cs);
    assert MulAt(cs, 0) == 0;
    assert MulAt(cs, 1) == 6;
    SkipNoM(cs, 2, 9);
    assert StepAt(cs, 0, false) == Skip(2);
    ScanNoM(cs, 2, 9, false);
    assert StepAt(cs, 0, true) == Skip(1);
    assert StepAt(cs, 1, true) == Found(6, 9);
    assert Scan(cs, 1, true) == Plus(6, Scan(cs, 9, true));
  }
}
