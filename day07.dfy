/** Day 7: calibration equations, solvable when some choice of operators
    between the values, applied strictly left to right, yields the target. */
module Day07 {
  import opened Util
  import opened GridLib

  datatype Operator = Add | Multiply | Concat

  /** `Operator::apply`; `Concat` shifts a left by the digit count of b. */
  function Apply(op: Operator, a: nat, b: nat): (r: nat)
    ensures op == Concat && a > 0 ==> DecimalDigits(r) == DecimalDigits(a) + DecimalDigits(b)
    ensures op == Concat && a == 0 ==> r == b
  {
    match op
    case Add => a + b
    case Multiply => a * b
    case Concat => ConcatIsDecimal(a, b); a * Pow10(Digits(b)) + b
  }

  /** The decimal digits of n, most significant first. */
  function DecimalDigits(n: nat): (r: seq<nat>)
    ensures |r| == Digits(n) && forall i :: 0 <= i < |r| ==> r[i] < 10
  {
    if n < 10 then [n] else DecimalDigits(n / 10) + [n % 10]
  }

  /** Concatenation is decimal concatenation: the digits of the result are
      those of a followed by those of b (for a = 0 the result is b). */
  lemma {:induction false} ConcatIsDecimal(a: nat, b: nat)
    ensures a > 0 ==> DecimalDigits(a * Pow10(Digits(b)) + b) == DecimalDigits(a) + DecimalDigits(b)
    ensures a == 0 ==> a * Pow10(Digits(b)) + b == b
  {
    if a > 0 {
      var n := a * Pow10(Digits(b)) + b;
      if b < 10 {
        assert n == a * 10 + b;
        DivModUnique(n, 10, a, b) by { MulIsProduct(a, 10); }
      } else {
        var d := Digits(b / 10);
        var m := a * Pow10(d) + b / 10;
        assert Pow10(d + 1) == 10 * Pow10(d);
        assert n == m * 10 + b % 10;
        DivModUnique(n, 10, m, b % 10) by { MulIsProduct(m, 10); }
        ConcatIsDecimal(a, b / 10);
        assert DecimalDigits(b) == DecimalDigits(b / 10) + [b % 10];
      }
    }
  }

  /** The `zip`/`fold` of `find_answer`: each operator combines the running
      value with the next value, with no precedence. */
  function Fold(acc: nat, values: seq<nat>, choice: seq<Operator>): nat
    decreases |values|
  {
    if values == [] || choice == [] then acc
    else Fold(Apply(choice[0], acc, values[0]), values[1..], choice[1..])
  }

  /** `choice` uses only the given operators. */
  ghost predicate Over(choice: seq<Operator>, ops: seq<Operator>)
  {
    forall i :: 0 <= i < |choice| ==> choice[i] in ops
  }

  /** Each of the sequences in ss extended by each operator of ops. */
  function Extend(ss: seq<seq<Operator>>, ops: seq<Operator>): (r: seq<seq<Operator>>)
    ensures forall c :: c in r <==> |c| > 0 && c[..|c| - 1] in ss && c[|c| - 1] in ops
  {
    if ss == [] then []
    else
      var s := ss[|ss| - 1];
      var last := seq(|ops|, j requires 0 <= j < |ops| => s + [ops[j]]);
      assert forall c :: c in last <==> |c| > 0 && c[..|c| - 1] == s && c[|c| - 1] in ops by {
        forall c ensures c in last <==> |c| > 0 && c[..|c| - 1] == s && c[|c| - 1] in ops {
          if |c| > 0 && c[..|c| - 1] == s && c[|c| - 1] in ops {
            var j :| 0 <= j < |ops| && ops[j] == c[|c| - 1];
            assert c == last[j];
          }
        }
      }
      assert forall t :: t in ss <==> t in ss[..|ss| - 1] || t == s by {
        assert ss == ss[..|ss| - 1] + [s];
      }
      Extend(ss[..|ss| - 1], ops) + last
  }

  /** `repeat_n(ops, n).multi_cartesian_product()` for n >= 1. */
  function Sequences(ops: seq<Operator>, n: nat): (r: seq<seq<Operator>>)
    requires n >= 1
    ensures forall c :: c in r <==> |c| == n && Over(c, ops)
  {
    if n == 1 then
      var r := seq(|ops|, j requires 0 <= j < |ops| => [ops[j]]);
      assert forall c :: c in r <==> |c| == 1 && Over(c, ops) by {
        forall c ensures c in r <==> |c| == 1 && Over(c, ops) {
          if |c| == 1 && Over(c, ops) {
            var j :| 0 <= j < |ops| && ops[j] == c[0];
            assert c == r[j];
          }
        }
      }
      r
    else
      var r := Extend(Sequences(ops, n - 1), ops);
      assert forall c :: c in r <==> |c| == n && Over(c, ops) by {
        forall c ensures c in r <==> |c| == n && Over(c, ops) {
          if |c| > 0 {
            assert c == c[..|c| - 1] + [c[|c| - 1]];
            assert Over(c, ops) <==> Over(c[..|c| - 1], ops) && c[|c| - 1] in ops;
          }
        }
      }
      r
  }

  /** The `any` of `find_answer` over the enumerated choices. */
  function AnyFolds(first: nat, rest: seq<nat>, choices: seq<seq<Operator>>, result: nat): (r: bool)
    ensures r <==> exists k :: 0 <= k < |choices| && Fold(first, rest, choices[k]) == result
  {
    if choices == [] then false
    else
      var c := choices[|choices| - 1];
      assert forall k :: 0 <= k < |choices| - 1 ==> choices[..|choices| - 1][k] == choices[k];
      AnyFolds(first, rest, choices[..|choices| - 1], result) || Fold(first, rest, c) == result
  }

  /** `find_answer`: some choice of |values| - 1 operators from ops, folded
      left to right from the first value, yields the result. An equation
      with a single value is outside the model. */
  function FindAnswer(result: nat, values: seq<nat>, ops: seq<Operator>): (r: bool)
    requires |values| >= 2
    ensures r <==> exists c :: |c| == |values| - 1 && Over(c, ops) && Fold(values[0], values[1..], c) == result
  {
    var choices := Sequences(ops, |values| - 1);
    var r := AnyFolds(values[0], values[1..], choices, result);
    assert r ==> exists c :: c in choices && Fold(values[0], values[1..], c) == result by {
      if r {
        var k :| 0 <= k < |choices| && Fold(values[0], values[1..], choices[k]) == result;
        assert choices[k] in choices;
      }
    }
    r
  }

  /** More operators solve at least the same equations. */
  lemma MoreOperatorsSolveMore(result: nat, values: seq<nat>, ops: seq<Operator>, ops': seq<Operator>)
    requires |values| >= 2 && forall o :: o in ops ==> o in ops'
    ensures FindAnswer(result, values, ops) ==> FindAnswer(result, values, ops')
  {
    if FindAnswer(result, values, ops) {
      var c :| |c| == |values| - 1 && Over(c, ops) && Fold(values[0], values[1..], c) == result;
      assert Over(c, ops');
    }
  }

  /** `part`: the sum of the targets of the solvable equations. */
  function Part(equations: seq<(nat, seq<nat>)>, ops: seq<Operator>): (r: nat)
    requires forall k :: 0 <= k < |equations| ==> |equations[k].1| >= 2
    ensures r == 0 <==> forall k :: 0 <= k < |equations| ==>
      equations[k].0 == 0 || !FindAnswer(equations[k].0, equations[k].1, ops)
  {
    if equations == [] then 0
    else
      var e := equations[|equations| - 1];
      assert forall k :: 0 <= k < |equations| - 1 ==> equations[..|equations| - 1][k] == equations[k];
      Part(equations[..|equations| - 1], ops) + if FindAnswer(e.0, e.1, ops) then e.0 else 0
  }

  /** Adding the concatenation operator can only increase the answer: part
      two is never below part one. */
  lemma {:induction false} PartMonotone(equations: seq<(nat, seq<nat>)>, ops: seq<Operator>, ops': seq<Operator>)
    requires forall k :: 0 <= k < |equations| ==> |equations[k].1| >= 2
    requires forall o :: o in ops ==> o in ops'
    ensures Part(equations, ops) <= Part(equations, ops')
  {
    if equations != [] {
      var e := equations[|equations| - 1];
      PartMonotone(equations[..|equations| - 1], ops, ops');
      MoreOperatorsSolveMore(e.0, e.1, ops, ops');
    }
  }

  /** Evaluation is left to right: `81 + 40 * 27` is (81 + 40) * 27, and
      "3267: 81 40 27" is solvable with `+` and `*`. */
  lemma ExampleSolvable()
    ensures Fold(81, [40, 27], [Add, Multiply]) == 3267
    ensures FindAnswer(3267, [81, 40, 27], [Add, Multiply])
  {
    var c := [Add, Multiply];
    assert Fold(81, [40, 27], c) == Fold(121, [27], [Multiply]);
    assert Over(c, [Add, Multiply]);
    assert [81, 40, 27][1..] == [40, 27];
  }

  /** "83: 17 5" has no solution: 17 + 5 and 17 * 5 both miss. */
  lemma ExampleUnsolvable()
    ensures !FindAnswer(83, [17, 5], [Add, Multiply])
  {
    forall c | |c| == 1 && Over(c, [Add, Multiply]) ensures Fold(17, [5], c) != 83 {
      assert c[0] == Add || c[0] == Multiply;
      assert Fold(17, [5], c) == Apply(c[0], 17, 5);
    }
    assert [17, 5][1..] == [5];
  }
}
