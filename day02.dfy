/** Day 2: a report of levels is safe when it moves in one direction by
    steps of one to three; the dampener tolerates one bad level. */
module Day02 {
  import opened Util

  /** `windows(2).all(p)`: p holds of every adjacent pair. */
  function AllWindows(s: seq<int>, p: (int, int) -> bool): (r: bool)
    ensures r <==> forall i :: 0 <= i < |s| - 1 ==> p(s[i], s[i + 1])
  {
    if |s| < 2 then true
    else p(s[0], s[1]) && AllWindows(s[1..], p)
  }

  function NotAbove(a: int, b: int): bool { a <= b }

  function NotBelow(a: int, b: int): bool { a >= b }

  function SmallStep(a: int, b: int): bool { 1 <= Abs(a - b) <= 3 }

  /** The meaning of safety: strictly increasing or strictly decreasing
      over all pairs, with every adjacent step between one and three. */
  ghost predicate StrictlyMonotoneSmallSteps(s: seq<int>)
  {
    ((forall i, j :: 0 <= i < j < |s| ==> s[i] < s[j]) ||
     (forall i, j :: 0 <= i < j < |s| ==> s[i] > s[j])) &&
    forall i :: 0 <= i < |s| - 1 ==> 1 <= Abs(s[i] - s[i + 1]) <= 3
  }

  /** `is_safe`: non-decreasing or non-increasing, and every adjacent
      difference in [1, 3]. Reports of at most one level are safe. */
  function IsSafe(report: seq<int>): (r: bool)
    ensures |report| <= 1 ==> r
  {
    (AllWindows(report, NotAbove) || AllWindows(report, NotBelow)) && AllWindows(report, SmallStep)
  }

  lemma {:induction false} ChainUp(s: seq<int>, i: nat, j: nat)
    requires forall k :: 0 <= k < |s| - 1 ==> s[k] < s[k + 1]
    requires i < j < |s|
    ensures s[i] < s[j]
    decreases j - i
  {
    if i + 1 < j {
      ChainUp(s, i + 1, j);
    }
  }

  lemma {:induction false} ChainDown(s: seq<int>, i: nat, j: nat)
    requires forall k :: 0 <= k < |s| - 1 ==> s[k] > s[k + 1]
    requires i < j < |s|
    ensures s[i] > s[j]
    decreases j - i
  {
    if i + 1 < j {
      ChainDown(s, i + 1, j);
    }
  }

  /** Non-strict monotonicity together with steps of at least one is strict
      monotonicity. */
  lemma SafeIsStrictlyMonotone(s: seq<int>)
    requires IsSafe(s)
    ensures StrictlyMonotoneSmallSteps(s)
  {
    if AllWindows(s, NotAbove) {
      assert forall k :: 0 <= k < |s| - 1 ==> s[k] < s[k + 1] by {
        forall k | 0 <= k < |s| - 1 ensures s[k] < s[k + 1] {
          assert NotAbove(s[k], s[k + 1]) && SmallStep(s[k], s[k + 1]);
        }
      }
      forall i, j | 0 <= i < j < |s| ensures s[i] < s[j] {
        ChainUp(s, i, j);
      }
    } else {
      assert forall k :: 0 <= k < |s| - 1 ==> s[k] > s[k + 1] by {
        forall k | 0 <= k < |s| - 1 ensures s[k] > s[k + 1] {
          assert NotBelow(s[k], s[k + 1]) && SmallStep(s[k], s[k + 1]);
        }
      }
      forall i, j | 0 <= i < j < |s| ensures s[i] > s[j] {
        ChainDown(s, i, j);
      }
    }
  }

  /** `is_safe` accepts exactly the strictly monotone reports with small
      steps. */
  lemma SafeIffStrictlyMonotone(s: seq<int>)
    ensures IsSafe(s) <==> StrictlyMonotoneSmallSteps(s)
  {
    if IsSafe(s) {
      SafeIsStrictlyMonotone(s);
    }
    if StrictlyMonotoneSmallSteps(s) {
      assert forall k :: 0 <= k < |s| - 1 ==> SmallStep(s[k], s[k + 1]);
      if forall i, j :: 0 <= i < j < |s| ==> s[i] < s[j] {
        assert forall k :: 0 <= k < |s| - 1 ==> NotAbove(s[k], s[k + 1]);
      } else {
        assert forall k :: 0 <= k < |s| - 1 ==> NotBelow(s[k], s[k + 1]);
      }
    }
  }

  /** `hold_out(x, i)`: `take(i)` chained with `skip(i + 1)`. For an index
      inside the report it is the report without that level, in order. */
  function HoldOut(x: seq<int>, i: nat): (r: seq<int>)
    ensures i < |x| ==> |r| == |x| - 1
    ensures i < |x| ==> forall k :: 0 <= k < |r| ==> r[k] == if k < i then x[k] else x[k + 1]
    ensures i >= |x| ==> r == x
  {
    x[..Min(i, |x|)] + x[Min(i + 1, |x|)..]
  }

  /** `(0..n).any(|i| is_safe(&hold_out(report, i)))`. */
  function AnyHoldOutSafe(report: seq<int>, n: nat): (r: bool)
    ensures r <==> exists i :: 0 <= i < n && IsSafe(HoldOut(report, i))
  {
    if n == 0 then false
    else AnyHoldOutSafe(report, n - 1) || IsSafe(HoldOut(report, n - 1))
  }

  /** `problem_dampener`: some single removal gives a safe report; never
      for the empty report. */
  function ProblemDampener(report: seq<int>): (r: bool)
    ensures r <==> exists i :: 0 <= i < |report| && IsSafe(HoldOut(report, i))
    ensures |report| == 0 ==> !r
  {
    AnyHoldOutSafe(report, |report|)
  }

  /** A safe report stays safe without its last level, so the dampener
      accepts every non-empty safe report. */
  lemma SafeIsDampened(s: seq<int>)
    requires |s| > 0 && IsSafe(s)
    ensures ProblemDampener(s)
  {
    var t := HoldOut(s, |s| - 1);
    assert forall k :: 0 <= k < |t| ==> t[k] == s[k];
    assert IsSafe(t);
  }

  /** `part1`: the number of safe reports; none exactly when no report
      is safe, all exactly when every report is. */
  function Part1(reports: seq<seq<int>>): (r: nat)
    ensures r <= |reports|
    ensures r == 0 <==> forall k :: 0 <= k < |reports| ==> !IsSafe(reports[k])
    ensures r == |reports| <==> forall k :: 0 <= k < |reports| ==> IsSafe(reports[k])
  {
    CountIfZero(reports, IsSafe);
    CountIfAll(reports, IsSafe);
    CountIf(reports, IsSafe)
  }

  /** `part2`: the number of reports the dampener accepts, with the same
      two extremes. */
  function Part2(reports: seq<seq<int>>): (r: nat)
    ensures r <= |reports|
    ensures r == 0 <==> forall k :: 0 <= k < |reports| ==> !ProblemDampener(reports[k])
    ensures r == |reports| <==> forall k :: 0 <= k < |reports| ==> ProblemDampener(reports[k])
  {
    CountIfZero(reports, ProblemDampener);
    CountIfAll(reports, ProblemDampener);
    CountIf(reports, ProblemDampener)
  }

  /** With no empty report, the dampener accepts at least every safe report. */
  lemma DampenerAcceptsMore(reports: seq<seq<int>>)
    requires forall k :: 0 <= k < |reports| ==> |reports[k]| > 0
    ensures Part1(reports) <= Part2(reports) <= |reports|
  {
    forall k | 0 <= k < |reports| && IsSafe(reports[k]) ensures ProblemDampener(reports[k]) {
      SafeIsDampened(reports[k]);
    }
    CountIfMonotone(reports, IsSafe, ProblemDampener);
  }

  // ---------------------------------------------------------------------
  // The example of the tests, as parsed reports

  /** A step outside one to three makes a report unsafe. */
  lemma UnsafeByStep(s: seq<int>, k: nat)
    requires k + 1 < |s| && !SmallStep(s[k], s[k + 1])
    ensures !IsSafe(s)
  {
  }

  /** Strictly falling by at most three at every step is safe. */
  lemma SafeFalling(s: seq<int>)
    requires forall i :: 0 <= i < |s| - 1 ==> s[i] > s[i + 1] && s[i] - s[i + 1] <= 3
    ensures IsSafe(s)
  {
    assert AllWindows(s, NotBelow);
    assert AllWindows(s, SmallStep);
  }

  /** Strictly rising by at most three at every step is safe. */
  lemma SafeRising(s: seq<int>)
    requires forall i :: 0 <= i < |s| - 1 ==> s[i] < s[i + 1] && s[i + 1] - s[i] <= 3
    ensures IsSafe(s)
  {
    assert AllWindows(s, NotAbove);
    assert AllWindows(s, SmallStep);
  }

  /** The dampener rejects a report when every removal i leaves a step
      outside one to three, at position ks[i]. */
  lemma NotDampened(s: seq<int>, ks: seq<nat>)
    requires |ks| == |s|
    requires forall i :: 0 <= i < |s| ==> var t := HoldOut(s, i); ks[i] + 1 < |t| && !SmallStep(t[ks[i]], t[ks[i] + 1])
    ensures !ProblemDampener(s)
  {
    forall i | 0 <= i < |s| ensures !IsSafe(HoldOut(s, i)) {
      UnsafeByStep(HoldOut(s, i), ks[i]);
    }
  }

  lemma ExampleReport0() ensures IsSafe([7, 6, 4, 2, 1]) && ProblemDampener([7, 6, 4, 2, 1]) {
    SafeFalling([7, 6, 4, 2, 1]);
    SafeIsDampened([7, 6, 4, 2, 1]);
  }

  lemma ExampleReport1() ensures !IsSafe([1, 2, 7, 8, 9]) && !ProblemDampener([1, 2, 7, 8, 9]) {
    UnsafeByStep([1, 2, 7, 8, 9], 1);
    NotDampened([1, 2, 7, 8, 9], [0, 0, 1, 1, 1]);
  }

  lemma ExampleReport2() ensures !IsSafe([9, 7, 6, 2, 1]) && !ProblemDampener([9, 7, 6, 2, 1]) {
    UnsafeByStep([9, 7, 6, 2, 1], 2);
    NotDampened([9, 7, 6, 2, 1], [1, 1, 1, 2, 2]);
  }

  lemma ExampleReport3() ensures !IsSafe([1, 3, 2, 4, 5]) && ProblemDampener([1, 3, 2, 4, 5]) {
    var s := [1, 3, 2, 4, 5];
    assert !NotAbove(s[1], s[2]) && !NotBelow(s[0], s[1]);
    SafeRising(HoldOut(s, 1));
  }

  lemma ExampleReport4() ensures !IsSafe([8, 6, 4, 4, 1]) && ProblemDampener([8, 6, 4, 4, 1]) {
    UnsafeByStep([8, 6, 4, 4, 1], 2);
    SafeFalling(HoldOut([8, 6, 4, 4, 1], 2));
  }

  lemma ExampleReport5() ensures IsSafe([1, 3, 6, 7, 9]) && ProblemDampener([1, 3, 6, 7, 9]) {
    SafeRising([1, 3, 6, 7, 9]);
    SafeIsDampened([1, 3, 6, 7, 9]);
  }

  lemma CountSix<T>(a: T, b: T, c: T, d: T, e: T, f: T, p: T -> bool)
    ensures CountIf([a, b, c, d, e, f], p) ==
      (if p(a) then 1 else 0) + (if p(b) then 1 else 0) + (if p(c) then 1 else 0)
      + (if p(d) then 1 else 0) + (if p(e) then 1 else 0) + (if p(f) then 1 else 0)
  {
    assert [a, b, c, d, e, f] == [a] + [b] + [c] + [d] + [e] + [f];
    CountIfAppend([a], [b], p);
    CountIfAppend([a] + [b], [c], p);
    CountIfAppend([a] + [b] + [c], [d], p);
    CountIfAppend([a] + [b] + [c] + [d], [e], p);
    CountIfAppend([a] + [b] + [c] + [d] + [e], [f], p);
    CountOne(a, p);
    CountOne(b, p);
    CountOne(c, p);
    CountOne(d, p);
    CountOne(e, p);
    CountOne(f, p);
  }

  lemma CountOne<T>(a: T, p: T -> bool)
    ensures CountIf([a], p) == if p(a) then 1 else 0
  {
    assert [a][..0] == [];
  }

  /** The tests of `part1` and `part2`: two of the six example reports
      are safe, and four pass the dampener. */
  lemma ExampleParts()
    ensures Part1([[7, 6, 4, 2, 1], [1, 2, 7, 8, 9], [9, 7, 6, 2, 1], [1, 3, 2, 4, 5], [8, 6, 4, 4, 1], [1, 3, 6, 7, 9]]) == 2
    ensures Part2([[7, 6, 4, 2, 1], [1, 2, 7, 8, 9], [9, 7, 6, 2, 1], [1, 3, 2, 4, 5], [8, 6, 4, 4, 1], [1, 3, 6, 7, 9]]) == 4
  {
    ExampleReport0();
    ExampleReport1();
    ExampleReport2();
    ExampleReport3();
    ExampleReport4();
    ExampleReport5();
    CountSix([7, 6, 4, 2, 1], [1, 2, 7, 8, 9], [9, 7, 6, 2, 1], [1, 3, 2, 4, 5], [8, 6, 4, 4, 1], [1, 3, 6, 7, 9], IsSafe);
    CountSix([7, 6, 4, 2, 1], [1, 2, 7, 8, 9], [9, 7, 6, 2, 1], [1, 3, 2, 4, 5], [8, 6, 4, 4, 1], [1, 3, 6, 7, 9], ProblemDampener);
  }
}
