/** Day 19: in how many ways can a design (a string of stripe colours) be
    written as a sequence of towel patterns? */
module Day19 {
  import opened Util

  /** All patterns are non-empty, as they are when read from a list
      separated by ", ". */
  predicate NonEmpty(patterns: seq<string>)
  {
    forall k :: 0 <= k < |patterns| ==> |patterns[k]| > 0
  }

  /** `s.ends_with(p)` for a non-empty p. */
  predicate Ends(s: string, p: string)
  {
    0 < |p| <= |s| && s[|s| - |p|..] == p
  }

  /** The number of ways to write s as a sequence of patterns, split by its
      last pattern: the empty string has one (the empty sequence), and every
      pattern s ends with contributes the ways for what precedes it. A
      pattern listed twice counts twice. */
  function Ways(s: string, patterns: seq<string>): nat
    decreases |s|, |patterns| + 1
  {
    if s == [] then 1 else WaysEnding(s, patterns, |patterns|)
  }

  /** The ways for s whose last pattern is one of patterns[..m]. */
  function WaysEnding(s: string, patterns: seq<string>, m: nat): nat
    requires m <= |patterns|
    decreases |s|, m
  {
    if m == 0 then 0
    else WaysEnding(s, patterns, m - 1) + (if Ends(s, patterns[m - 1]) then Ways(s[..|s| - |patterns[m - 1]|], patterns) else 0)
  }

  // ---------------------------------------------------------------------
  // Tilings: the meaning of Ways

  /** The concatenation of the patterns named by ks. */
  function Concat(patterns: seq<string>, ks: seq<nat>): string
    requires forall i :: 0 <= i < |ks| ==> ks[i] < |patterns|
  {
    if ks == [] then [] else Concat(patterns, ks[..|ks| - 1]) + patterns[ks[|ks| - 1]]
  }

  predicate Tiling(patterns: seq<string>, ks: seq<nat>, s: string)
  {
    (forall i :: 0 <= i < |ks| ==> ks[i] < |patterns|) && Concat(patterns, ks) == s
  }

  lemma {:induction false} WaysEndingAtLeast(s: string, patterns: seq<string>, m: nat, k: nat)
    requires k < m <= |patterns| && Ends(s, patterns[k])
    ensures WaysEnding(s, patterns, m) >= Ways(s[..|s| - |patterns[k]|], patterns)
  {
    if k < m - 1 {
      WaysEndingAtLeast(s, patterns, m - 1, k);
    }
  }

  lemma {:induction false} WaysEndingPositive(s: string, patterns: seq<string>, m: nat) returns (k: nat)
    requires m <= |patterns| && WaysEnding(s, patterns, m) > 0
    ensures k < m && Ends(s, patterns[k]) && Ways(s[..|s| - |patterns[k]|], patterns) > 0
  {
    if Ends(s, patterns[m - 1]) && Ways(s[..|s| - |patterns[m - 1]|], patterns) > 0 {
      k := m - 1;
    } else {
      k := WaysEndingPositive(s, patterns, m - 1);
    }
  }

  /** With non-empty patterns, a design can be made (Ways is positive)
      exactly when some sequence of patterns concatenates to it. */
  lemma {:induction false} WaysPositiveIffTiling(s: string, patterns: seq<string>)
    requires NonEmpty(patterns)
    ensures Ways(s, patterns) > 0 <==> exists ks :: Tiling(patterns, ks, s)
    decreases |s|
  {
    if Ways(s, patterns) > 0 {
      if s == [] {
        assert Tiling(patterns, [], s);
      } else {
        var k := WaysEndingPositive(s, patterns, |patterns|);
        var t := s[..|s| - |patterns[k]|];
        WaysPositiveIffTiling(t, patterns);
        var ks :| Tiling(patterns, ks, t);
        assert (ks + [k])[..|ks|] == ks;
        assert s == t + patterns[k];
        assert Tiling(patterns, ks + [k], s);
      }
    }
    if exists ks :: Tiling(patterns, ks, s) {
      var ks :| Tiling(patterns, ks, s);
      if s != [] {
        assert ks != [];
        var k := ks[|ks| - 1];
        var t := Concat(patterns, ks[..|ks| - 1]);
        assert s == t + patterns[k];
        assert s[..|s| - |patterns[k]|] == t && s[|s| - |patterns[k]|..] == patterns[k];
        assert Tiling(patterns, ks[..|ks| - 1], t);
        WaysPositiveIffTiling(t, patterns);
        WaysEndingAtLeast(s, patterns, |patterns|, k);
      }
    }
  }

  // ---------------------------------------------------------------------
  // The dynamic programme

  /** `design[i..].starts_with(p)` */
  predicate StartsAt(design: string, i: nat, p: string)
  {
    i + |p| <= |design| && design[i..i + |p|] == p
  }

  /** What position j of the table holds once every position before i has
      pushed its count forward: the ways for design[..j] through a last
      pattern that starts before i, over patterns[..m]. */
  function Pulled(design: string, patterns: seq<string>, j: nat, i: nat, m: nat): nat
    requires j <= |design| && m <= |patterns|
  {
    if m == 0 then 0
    else
      var p := patterns[m - 1];
      Pulled(design, patterns, j, i, m - 1)
      + (if Ends(design[..j], p) && j - |p| < i then Ways(design[..j - |p|], patterns) else 0)
  }

  /** Once every position before j has pushed, j holds all its ways. */
  lemma {:induction false} PulledComplete(design: string, patterns: seq<string>, j: nat, m: nat)
    requires j <= |design| && m <= |patterns|
    ensures Pulled(design, patterns, j, j, m) == WaysEnding(design[..j], patterns, m)
  {
    if m > 0 {
      PulledComplete(design, patterns, j, m - 1);
      var p := patterns[m - 1];
      if Ends(design[..j], p) {
        assert design[..j][..j - |p|] == design[..j - |p|];
      }
    }
  }

  /** What position i pushes to j over patterns[..m]: its count w for
      every pattern that starts at i and ends at j. */
  function Pushed(design: string, patterns: seq<string>, i: nat, j: nat, w: nat, m: nat): nat
    requires m <= |patterns|
  {
    if m == 0 then 0
    else Pushed(design, patterns, i, j, w, m - 1) + (if StartsAt(design, i, patterns[m - 1]) && i + |patterns[m - 1]| == j then w else 0)
  }

  lemma {:induction false} PushedZero(design: string, patterns: seq<string>, i: nat, j: nat, m: nat)
    requires m <= |patterns|
    ensures Pushed(design, patterns, i, j, 0, m) == 0
  {
    if m > 0 {
      PushedZero(design, patterns, i, j, m - 1);
    }
  }

  /** Pushing position i moves the boundary of Pulled from i to i + 1. */
  lemma {:induction false} PulledStep(design: string, patterns: seq<string>, i: nat, j: nat, m: nat)
    requires NonEmpty(patterns) && i < j <= |design| && m <= |patterns|
    ensures Pulled(design, patterns, j, i + 1, m) ==
      Pulled(design, patterns, j, i, m) + Pushed(design, patterns, i, j, Ways(design[..i], patterns), m)
  {
    if m > 0 {
      PulledStep(design, patterns, i, j, m - 1);
      var p := patterns[m - 1];
      assert |p| > 0;
      if i + |p| == j {
        assert design[..j][j - |p|..] == design[i..i + |p|];
      }
    }
  }

  /** The table entry j before anything has been pushed. */
  lemma {:induction false} PulledNone(design: string, patterns: seq<string>, j: nat, m: nat)
    requires j <= |design| && m <= |patterns|
    ensures Pulled(design, patterns, j, 0, m) == 0
  {
    if m > 0 {
      PulledNone(design, patterns, j, m - 1);
    }
  }

  /** The table after positions before i have pushed. */
  ghost predicate Table(design: string, patterns: seq<string>, dp: seq<nat>, i: nat)
  {
    |dp| == |design| + 1 && i <= |design|
    && (forall j :: 0 <= j <= i ==> dp[j] == Ways(design[..j], patterns))
    && (forall j :: i < j <= |design| ==> dp[j] == Pulled(design, patterns, j, i, |patterns|))
  }

  /** The table part way through position i's pushes, over patterns[..m]. */
  ghost predicate Pushing(design: string, patterns: seq<string>, before: seq<nat>, dp: seq<nat>, i: nat, m: nat)
    requires m <= |patterns|
  {
    |dp| == |before| == |design| + 1 && i <= |design|
    && (forall j :: 0 <= j <= i ==> dp[j] == before[j])
    && (forall j :: i < j <= |design| ==> dp[j] == before[j] + Pushed(design, patterns, i, j, before[i], m))
  }

  lemma TableStart(design: string, patterns: seq<string>, dp: seq<nat>)
    requires |dp| == |design| + 1 && dp[0] == 1
    requires forall j :: 0 < j < |dp| ==> dp[j] == 0
    ensures Table(design, patterns, dp, 0)
  {
    forall j | 0 < j <= |design| ensures Pulled(design, patterns, j, 0, |patterns|) == 0 {
      PulledNone(design, patterns, j, |patterns|);
    }
    assert design[..0] == [];
  }

  /** A position with no ways pushes nothing. */
  lemma TableSkip(design: string, patterns: seq<string>, dp: seq<nat>, i: nat)
    requires NonEmpty(patterns) && i < |design| && Table(design, patterns, dp, i) && dp[i] == 0
    ensures Table(design, patterns, dp, i + 1)
  {
    forall j | i < j <= |design|
      ensures Pulled(design, patterns, j, i + 1, |patterns|) == Pulled(design, patterns, j, i, |patterns|)
    {
      PulledStep(design, patterns, i, j, |patterns|);
      PushedZero(design, patterns, i, j, |patterns|);
    }
    PulledComplete(design, patterns, i + 1, |patterns|);
  }

  lemma TablePushed(design: string, patterns: seq<string>, before: seq<nat>, dp: seq<nat>, i: nat)
    requires NonEmpty(patterns) && i < |design| && Table(design, patterns, before, i)
    requires Pushing(design, patterns, before, dp, i, |patterns|)
    ensures Table(design, patterns, dp, i + 1)
  {
    forall j | i < j <= |design|
      ensures dp[j] == Pulled(design, patterns, j, i + 1, |patterns|)
    {
      PulledStep(design, patterns, i, j, |patterns|);
    }
    PulledComplete(design, patterns, i + 1, |patterns|);
  }

  /** One pattern's push from position i. */
  lemma PushOne(design: string, patterns: seq<string>, before: seq<nat>, dp: seq<nat>, i: nat, m: nat, dp': seq<nat>)
    requires NonEmpty(patterns) && m < |patterns| && Pushing(design, patterns, before, dp, i, m)
    requires if StartsAt(design, i, patterns[m])
             then dp' == dp[i + |patterns[m]| := dp[i + |patterns[m]|] + dp[i]]
             else dp' == dp
    ensures Pushing(design, patterns, before, dp', i, m + 1)
  {
  }

  /** `count_ways`: dp[j] counts the ways to make the first j colours; each
      position with a non-zero count pushes it to the end of every pattern
      that starts there. With non-empty patterns the answer is Ways. */
  method CountWays(design: string, patterns: seq<string>) returns (r: nat)
    ensures NonEmpty(patterns) ==> r == Ways(design, patterns)
  {
    var n := |design|;
    var dp := new nat[n + 1](_ => 0);
    dp[0] := 1;
    TableStart(design, patterns, dp[..]);
    for i := 0 to n
      invariant NonEmpty(patterns) ==> Table(design, patterns, dp[..], i)
    {
      if dp[i] == 0 {
        if NonEmpty(patterns) {
          TableSkip(design, patterns, dp[..], i);
        }
        continue;
      }
      ghost var before := dp[..];
      for m := 0 to |patterns|
        invariant NonEmpty(patterns) ==> Pushing(design, patterns, before, dp[..], i, m)
      {
        var pattern := patterns[m];
        ghost var prev := dp[..];
        if i + |pattern| <= n && design[i..i + |pattern|] == pattern {
          var newPos := i + |pattern|;
          dp[newPos] := dp[newPos] + dp[i];
        }
        if NonEmpty(patterns) {
          PushOne(design, patterns, before, prev, i, m, dp[..]);
        }
      }
      if NonEmpty(patterns) {
        TablePushed(design, patterns, before, dp[..], i);
      }
    }
    assert design[..n] == design;
    r := dp[n];
  }

  // ---------------------------------------------------------------------
  // part1 and part2

  function TotalWays(designs: seq<string>, patterns: seq<string>): nat
  {
    if designs == [] then 0 else TotalWays(designs[..|designs| - 1], patterns) + Ways(designs[|designs| - 1], patterns)
  }

  function Possible(designs: seq<string>, patterns: seq<string>): nat
  {
    if designs == [] then 0
    else Possible(designs[..|designs| - 1], patterns) + (if Ways(designs[|designs| - 1], patterns) > 0 then 1 else 0)
  }

  /** `part1`: the designs that can be made at all. */
  method Part1(patterns: seq<string>, designs: seq<string>) returns (r: nat)
    requires NonEmpty(patterns)
    ensures r == Possible(designs, patterns) && r <= |designs|
  {
    r := 0;
    for i := 0 to |designs|
      invariant r == Possible(designs[..i], patterns) && r <= i
    {
      var ways := CountWays(designs[i], patterns);
      assert designs[..i + 1][..i] == designs[..i];
      if ways > 0 {
        r := r + 1;
      }
    }
    assert designs[..|designs|] == designs;
  }

  /** `part2`: the ways to make every design, added up. */
  method Part2(patterns: seq<string>, designs: seq<string>) returns (r: nat)
    requires NonEmpty(patterns)
    ensures r == TotalWays(designs, patterns)
  {
    r := 0;
    for i := 0 to |designs|
      invariant r == TotalWays(designs[..i], patterns)
    {
      var ways := CountWays(designs[i], patterns);
      assert designs[..i + 1][..i] == designs[..i];
      r := r + ways;
    }
    assert designs[..|designs|] == designs;
  }

  /** A design counts in part1 exactly when some sequence of patterns makes it. */
  lemma {:induction false} PossibleCountsTileable(designs: seq<string>, patterns: seq<string>)
    requires NonEmpty(patterns)
    ensures Possible(designs, patterns) == CountIf(designs, d => exists ks :: Tiling(patterns, ks, d))
  {
    if designs != [] {
      PossibleCountsTileable(designs[..|designs| - 1], patterns);
      WaysPositiveIffTiling(designs[|designs| - 1], patterns);
    }
  }
}
