/** Day 1: two columns of location ids, compared by total distance after
    sorting and by a similarity score built from occurrence counts. */
module Day01 {
  import opened Util
  import opened Sorting

  /** The `i`-th value of every row. */
  function Column(rows: seq<seq<int>>, i: nat): (r: seq<int>)
    requires forall k :: 0 <= k < |rows| ==> |rows[k]| > i
    ensures |r| == |rows| && forall k :: 0 <= k < |rows| ==> r[k] == rows[k][i]
  {
    seq(|rows|, k requires 0 <= k < |rows| => rows[k][i])
  }

  /** `parse_input` after splitting: the first two values of each row are
      pushed onto two columns, and both columns are sorted ascending. A row
      with fewer than two values makes the source panic. */
  method ParseInput(rows: seq<seq<int>>) returns (col1: seq<int>, col2: seq<int>)
    requires forall k :: 0 <= k < |rows| ==> |rows[k]| >= 2
    ensures |col1| == |col2| == |rows|
    ensures col1 == Ascending(Column(rows, 0)) && col2 == Ascending(Column(rows, 1))
    ensures forall i, j :: 0 <= i < j < |col1| ==> col1[i] <= col1[j] && col2[i] <= col2[j]
    ensures multiset(col1) == multiset(Column(rows, 0)) && multiset(col2) == multiset(Column(rows, 1))
  {
    col1, col2 := [], [];
    for k := 0 to |rows|
      invariant col1 == Column(rows[..k], 0) && col2 == Column(rows[..k], 1)
    {
      col1, col2 := col1 + [rows[k][0]], col2 + [rows[k][1]];
    }
    assert rows[..|rows|] == rows;
    col1, col2 := Ascending(col1), Ascending(col2);
  }

  /** `count`: the fold into a map from each value to its number of
      occurrences. */
  method Count(values: seq<int>) returns (counts: map<int, nat>)
    ensures forall x :: x in counts <==> x in values
    ensures forall x :: x in counts ==> counts[x] == multiset(values)[x]
  {
    counts := map[];
    for i := 0 to |values|
      invariant forall x :: x in counts <==> x in values[..i]
      invariant forall x :: x in counts ==> counts[x] == multiset(values[..i])[x]
    {
      var x := values[i];
      assert values[..i + 1] == values[..i] + [x];
      counts := counts[x := if x in counts then counts[x] + 1 else 1];
    }
    assert values[..|values|] == values;
  }

  /** Sum of `|a[i] - b[i]|` over the pairs `zip` forms: never negative,
      and on equal lengths zero exactly when the columns are equal. */
  function TotalDistance(a: seq<int>, b: seq<int>): (r: int)
    ensures r >= 0
    ensures |a| == |b| ==> (r == 0 <==> a == b)
    decreases |a|
  {
    if a == [] || b == [] then 0
    else
      assert a == [a[0]] + a[1..] && b == [b[0]] + b[1..];
      Abs(a[0] - b[0]) + TotalDistance(a[1..], b[1..])
  }

  /** The distance does not depend on which column comes first. */
  lemma {:induction false} TotalDistanceSymmetric(a: seq<int>, b: seq<int>)
    ensures TotalDistance(a, b) == TotalDistance(b, a)
    decreases |a|
  {
    if a != [] && b != [] {
      TotalDistanceSymmetric(a[1..], b[1..]);
    }
  }

  /** `part1`: the total distance of the sorted columns. */
  method Part1(rows: seq<seq<int>>) returns (distance: int)
    requires forall k :: 0 <= k < |rows| ==> |rows[k]| >= 2
    ensures distance == TotalDistance(Ascending(Column(rows, 0)), Ascending(Column(rows, 1)))
    ensures distance >= 0
  {
    var col1, col2 := ParseInput(rows);
    distance := TotalDistance(col1, col2);
  }

  /** The similarity score as the puzzle defines it: every value of the
      first column times the number of its occurrences in the second. It
      is zero when the columns share no value, and never negative for
      non-negative ids. */
  function Similarity(col1: seq<int>, col2: seq<int>): (r: int)
    ensures (forall i :: 0 <= i < |col1| ==> col1[i] !in col2) ==> r == 0
    ensures (forall i :: 0 <= i < |col1| ==> col1[i] >= 0) ==> r >= 0
  {
    if col1 == [] then 0
    else
      var x := col1[|col1| - 1];
      assert forall i :: 0 <= i < |col1| - 1 ==> col1[..|col1| - 1][i] == col1[i];
      Similarity(col1[..|col1| - 1], col2) + x * multiset(col2)[x]
  }

  /** Sum over the keys in K of the multiplicity of the key in v times
      g(key), in an arbitrary key order. */
  ghost function MultSum(K: set<int>, v: seq<int>, g: int -> int): int
    decreases |K|
  {
    if K == {} then 0
    else
      var k := Pick(K);
      multiset(v)[k] * g(k) + MultSum(K - {k}, v, g)
  }

  /** The order in which the keys are taken does not matter. */
  lemma {:induction false} MultSumRemove(K: set<int>, v: seq<int>, g: int -> int, k: int)
    requires k in K
    ensures MultSum(K, v, g) == multiset(v)[k] * g(k) + MultSum(K - {k}, v, g)
    decreases |K|
  {
    var j := Pick(K);
    if j != k {
      MultSumRemove(K - {j}, v, g, k);
      MultSumRemove(K - {k}, v, g, j);
      assert K - {j} - {k} == K - {k} - {j};
    }
  }

  /** Appending x to v adds g(x) to the sum over any K holding x. */
  lemma {:induction false} MultSumBump(K: set<int>, u: seq<int>, x: int, g: int -> int)
    ensures MultSum(K, u + [x], g) == MultSum(K, u, g) + if x in K then g(x) else 0
    decreases |K|
  {
    if K != {} {
      var k := Pick(K);
      MultSumBump(K - {k}, u, x, g);
      var m, d := multiset(u)[k], if k == x then 1 else 0;
      assert multiset(u + [x])[k] == m + d;
      Distribute(m, d, g(k));
    }
  }

  lemma Distribute(m: int, d: int, c: int)
    ensures (m + d) * c == m * c + d * c
  {
  }

  /** The sum over a sequence of g of its elements. */
  function SeqSumOf(v: seq<int>, g: int -> int): int
  {
    if v == [] then 0 else SeqSumOf(v[..|v| - 1], g) + g(v[|v| - 1])
  }

  /** Grouping equal values: the sum over the distinct values of
      multiplicity times g equals the sum of g over the sequence. */
  lemma {:induction false} MultiplicitySum(v: seq<int>, g: int -> int)
    ensures MultSum(Elems(v), v, g) == SeqSumOf(v, g)
  {
    if v == [] {
      assert Elems(v) == {};
    } else {
      var u, x := v[..|v| - 1], v[|v| - 1];
      assert v == u + [x];
      assert Elems(v) == Elems(u) + {x};
      MultiplicitySum(u, g);
      MultSumBump(Elems(v), u, x, g);
      if x in Elems(u) {
        assert Elems(v) == Elems(u);
      } else {
        MultSumRemove(Elems(v), u, g, x);
        assert Elems(v) - {x} == Elems(u);
        assert multiset(u)[x] == 0;
      }
    }
  }

  /** The counts of `count` add up to the length of its input. */
  lemma CountsTotal(values: seq<int>)
    ensures MultSum(Elems(values), values, _ => 1) == |values|
  {
    MultiplicitySum(values, _ => 1);
    SeqSumOfOnes(values);
  }

  lemma {:induction false} SeqSumOfOnes(v: seq<int>)
    ensures SeqSumOf(v, _ => 1) == |v|
  {
    if v != [] {
      SeqSumOfOnes(v[..|v| - 1]);
    }
  }

  /** The similarity term of a value: itself times its occurrences in col2. */
  function Weigh(col2: seq<int>): int -> int
  {
    k => k * multiset(col2)[k]
  }

  lemma {:induction false} SimilarityAsSeqSum(col1: seq<int>, col2: seq<int>)
    ensures Similarity(col1, col2) == SeqSumOf(col1, Weigh(col2))
  {
    if col1 != [] {
      SimilarityAsSeqSum(col1[..|col1| - 1], col2);
    }
  }

  /** `part2`: over the keys of the first count map, in whatever order the
      map yields them, add key times both counts when the key is also in
      the second map. The result is the similarity score. */
  method Part2(rows: seq<seq<int>>) returns (similarity: int)
    requires forall k :: 0 <= k < |rows| ==> |rows[k]| >= 2
    ensures similarity == Similarity(Column(rows, 0), Column(rows, 1))
  {
    var col1, col2 := ParseInput(rows);
    var counter1 := Count(col1);
    var counter2 := Count(col2);
    similarity := SumOverKeys(counter1, counter2, col1, col2);
    assert counter1.Keys == Elems(col1) by {
      forall x ensures x in counter1.Keys <==> x in Elems(col1) {
        assert x in counter1.Keys <==> x in counter1;
      }
    }
    MultiplicitySum(col1, Weigh(col2));
    SimilarityAsSeqSum(col1, col2);
    SimilarityPermutation(col1, Column(rows, 0), col2, Column(rows, 1));
  }

  /** The loop of `part2` over the keys of the first map. */
  method SumOverKeys(counter1: map<int, nat>, counter2: map<int, nat>, col1: seq<int>, col2: seq<int>)
    returns (similarity: int)
    requires forall x :: x in counter1 ==> counter1[x] == multiset(col1)[x]
    requires forall x :: x in counter2 <==> x in col2
    requires forall x :: x in counter2 ==> counter2[x] == multiset(col2)[x]
    ensures similarity == MultSum(counter1.Keys, col1, Weigh(col2))
  {
    ghost var g := Weigh(col2);
    similarity := 0;
    var remaining := counter1.Keys;
    while remaining != {}
      invariant remaining <= counter1.Keys
      invariant similarity + MultSum(remaining, col1, g) == MultSum(counter1.Keys, col1, g)
      decreases |remaining|
    {
      var key := Choose(remaining);
      var add := SimilarityTerm(key, counter1, counter2, col1, col2);
      MultSumRemove(remaining, col1, g, key);
      similarity := similarity + add;
      remaining := remaining - {key};
    }
  }

  /** One key's contribution: key times both counts when the key is in
      the second map. */
  function SimilarityTerm(key: int, counter1: map<int, nat>, counter2: map<int, nat>, col1: seq<int>, col2: seq<int>): (r: int)
    requires key in counter1
    requires forall x :: x in counter1 ==> counter1[x] == multiset(col1)[x]
    requires forall x :: x in counter2 <==> x in col2
    requires forall x :: x in counter2 ==> counter2[x] == multiset(col2)[x]
    ensures r == multiset(col1)[key] * Weigh(col2)(key)
  {
    if key in counter2 then
      assert Weigh(col2)(key) == key * multiset(col2)[key];
      key * counter1[key] * counter2[key]
    else
      assert multiset(col2)[key] == 0;
      0
  }

  /** Similarity depends only on the multisets of the two columns. */
  lemma SimilarityPermutation(a: seq<int>, a': seq<int>, b: seq<int>, b': seq<int>)
    requires multiset(a) == multiset(a') && multiset(b) == multiset(b')
    ensures Similarity(a, b) == Similarity(a', b')
  {
    var g := Weigh(b);
    assert Weigh(b') == g;
    SimilarityAsSeqSum(a, b);
    SimilarityAsSeqSum(a', b');
    MultiplicitySum(a, g);
    MultiplicitySum(a', g);
    MultSumSame(Elems(a), a, a', g);
    assert Elems(a) == Elems(a') by {
      forall x ensures x in Elems(a) <==> x in Elems(a') {
        assert x in a <==> x in multiset(a);
        assert x in a' <==> x in multiset(a');
      }
    }
  }

  lemma {:induction false} MultSumSame(K: set<int>, v: seq<int>, v': seq<int>, g: int -> int)
    requires multiset(v) == multiset(v')
    ensures MultSum(K, v, g) == MultSum(K, v', g)
    decreases |K|
  {
    if K != {} {
      var k := Pick(K);
      MultSumRemove(K, v, g, k);
      MultSumRemove(K, v', g, k);
      MultSumSame(K - {k}, v, v', g);
    }
  }

  /** The example of the puzzle: the sorted columns are
      [1, 2, 3, 3, 3, 4] and [3, 3, 3, 4, 5, 9]. */
  lemma ExampleParts(rows: seq<seq<int>>)
    requires rows == [[3, 4], [4, 3], [2, 5], [1, 3], [3, 9], [3, 3]]
    ensures TotalDistance(Ascending(Column(rows, 0)), Ascending(Column(rows, 1))) == 11
    ensures Similarity(Column(rows, 0), Column(rows, 1)) == 31
  {
    var left, right := Column(rows, 0), Column(rows, 1);
    assert left == [3, 4, 2, 1, 3, 3];
    assert right == [4, 3, 5, 3, 9, 3];
    ExampleSorted(left, right);
    ExampleSimilarity(left, right);
  }

  lemma ExampleSorted(left: seq<int>, right: seq<int>)
    requires left == [3, 4, 2, 1, 3, 3] && right == [4, 3, 5, 3, 9, 3]
    ensures TotalDistance(Ascending(left), Ascending(right)) == 11
  {
    ExampleLeftSorted(left);
    ExampleRightSorted(right);
    ExampleDistance([1, 2, 3, 3, 3, 4], [3, 3, 3, 4, 5, 9]);
  }

  lemma ExampleLeftSorted(left: seq<int>)
    requires left == [3, 4, 2, 1, 3, 3]
    ensures Ascending(left) == [1, 2, 3, 3, 3, 4]
  {
    ExampleLeftBag();
    AscendingIs(left, [1, 2, 3, 3, 3, 4]);
  }

  lemma ExampleRightSorted(right: seq<int>)
    requires right == [4, 3, 5, 3, 9, 3]
    ensures Ascending(right) == [3, 3, 3, 4, 5, 9]
  {
    ExampleRightBag();
    AscendingIs(right, [3, 3, 3, 4, 5, 9]);
  }

  lemma ExampleDistance(a: seq<int>, b: seq<int>)
    requires a == [1, 2, 3, 3, 3, 4] && b == [3, 3, 3, 4, 5, 9]
    ensures TotalDistance(a, b) == 11
  {
    assert TotalDistance(a[5..], b[5..]) == 5;
    assert TotalDistance(a[4..], b[4..]) == 7;
    assert TotalDistance(a[3..], b[3..]) == 8;
    assert TotalDistance(a[2..], b[2..]) == 8;
    assert TotalDistance(a[1..], b[1..]) == 9;
  }

  lemma ExampleLeftBag()
    ensures multiset([3, 4, 2, 1, 3, 3]) == multiset([1, 2, 3, 3, 3, 4])
  {
    assert multiset([3, 4, 2, 1, 3, 3]) == multiset{3, 4, 2, 1, 3, 3};
    assert multiset([1, 2, 3, 3, 3, 4]) == multiset{1, 2, 3, 3, 3, 4};
  }

  lemma ExampleRightBag()
    ensures multiset([4, 3, 5, 3, 9, 3]) == multiset([3, 3, 3, 4, 5, 9])
  {
    assert multiset([4, 3, 5, 3, 9, 3]) == multiset{4, 3, 5, 3, 9, 3};
    assert multiset([3, 3, 3, 4, 5, 9]) == multiset{3, 3, 3, 4, 5, 9};
  }

  lemma ExampleSimilarity(left: seq<int>, right: seq<int>)
    requires left == [3, 4, 2, 1, 3, 3] && right == [4, 3, 5, 3, 9, 3]
    ensures Similarity(left, right) == 31
  {
    ExampleRightCounts(right);
    assert left[..1][..0] == [] && Similarity(left[..1], right) == 9;
    assert left[..2][..1] == left[..1] && Similarity(left[..2], right) == 13;
    assert left[..3][..2] == left[..2] && Similarity(left[..3], right) == 13;
    assert left[..4][..3] == left[..3] && Similarity(left[..4], right) == 13;
    assert left[..5][..4] == left[..4] && Similarity(left[..5], right) == 22;
    assert left[..5] == left[..|left| - 1];
  }

  lemma ExampleRightCounts(right: seq<int>)
    requires right == [4, 3, 5, 3, 9, 3]
    ensures multiset(right)[3] == 3 && multiset(right)[4] == 1
    ensures multiset(right)[2] == 0 && multiset(right)[1] == 0
  {
    assert multiset(right) == multiset{4, 3, 5, 3, 9, 3};
  }
}
