/** Small sequence and arithmetic helpers shared by the puzzle models. */
module Util {

  /** 10^k */
  function Pow10(k: nat): (r: nat)
    ensures r >= 1
  {
    if k == 0 then 1 else 10 * Pow10(k - 1)
  }

  /** a * b, spelled as repeated addition. Grid offsets use it so that the
      solver reasons about them linearly, through the lemmas below. */
  function Mul(a: nat, b: nat): nat
  {
    if a == 0 then 0 else Mul(a - 1, b) + b
  }

  lemma {:induction false} MulIsProduct(a: nat, b: nat)
    ensures Mul(a, b) == a * b
  {
    if a > 0 {
      MulIsProduct(a - 1, b);
    }
  }

  /** Row y of a grid with rows of length w ends no later than row h starts, for y < h. */
  lemma {:induction false} MulRowBelow(y: nat, h: nat, w: nat)
    requires y < h
    ensures Mul(y, w) + w <= Mul(h, w)
  {
    if y < h - 1 {
      MulRowBelow(y, h - 1, w);
    }
  }

  /** The cell (x, y) of an h-row grid with rows of length w lies inside its data. */
  lemma CellIndexBound(x: nat, y: nat, w: nat, h: nat)
    requires x < w && y < h
    ensures Mul(y, w) + x < Mul(h, w)
  {
    MulRowBelow(y, h, w);
  }

  /** Distinct cells of a row-major layout have distinct offsets. */
  lemma {:induction false} OffsetInjective(x1: nat, y1: nat, x2: nat, y2: nat, w: nat)
    requires x1 < w && x2 < w && Mul(y1, w) + x1 == Mul(y2, w) + x2
    ensures x1 == x2 && y1 == y2
    decreases y1
  {
    if y1 > 0 && y2 > 0 {
      OffsetInjective(x1, y1 - 1, x2, y2 - 1, w);
    }
  }

  /** 2^k */
  function Pow2(k: nat): (r: nat)
    ensures r >= 1
  {
    if k == 0 then 1 else 2 * Pow2(k - 1)
  }

  function Abs(x: int): nat { if x < 0 then -x else x }

  function Max(a: int, b: int): int { if a < b then b else a }

  function Min(a: int, b: int): int { if a < b then a else b }

  function Reverse<T>(s: seq<T>): (r: seq<T>)
    ensures |r| == |s|
  {
    if s == [] then [] else Reverse(s[1..]) + [s[0]]
  }

  /** A non-empty sequence is its front followed by its last element. */
  lemma SplitLast<T>(s: seq<T>)
    requires s != []
    ensures s == s[..|s| - 1] + [s[|s| - 1]]
  {
  }

  /** A sequence is what precedes its i-th element, that element, and what follows. */
  lemma SplitAround<T>(s: seq<T>, i: nat)
    requires i < |s|
    ensures s == s[..i] + [s[i]] + s[i + 1..]
  {
    assert s[..i + 1] == s[..i] + [s[i]];
    assert s == s[..i + 1] + s[i + 1..];
  }

  /** Taking the i-th element out takes one copy of it out of the multiset. */
  lemma RemoveAt<T>(s: seq<T>, i: nat)
    requires i < |s|
    ensures multiset(s[..i] + s[i + 1..]) == multiset(s) - multiset{s[i]}
  {
    SplitAround(s, i);
    assert multiset(s) == multiset(s[..i]) + multiset{s[i]} + multiset(s[i + 1..]);
  }

  /** The sum of f over the elements of s. */
  function SumBy<T>(s: seq<T>, f: T -> int): int
  {
    if s == [] then 0 else SumBy(s[..|s| - 1], f) + f(s[|s| - 1])
  }

  /** The sum over s is the sum without the k-th element plus f of it. */
  lemma {:induction false} SumByRemove<T>(s: seq<T>, k: nat, f: T -> int)
    requires k < |s|
    ensures SumBy(s, f) == SumBy(s[..k] + s[k + 1..], f) + f(s[k])
    decreases |s|
  {
    var n := |s| - 1;
    var init, rest := s[..n], s[..k] + s[k + 1..];
    if k == n {
      assert rest == init;
    } else {
      SumByRemove(init, k, f);
      var shorter := init[..k] + init[k + 1..];
      assert rest == shorter + [s[n]];
      assert rest[..|rest| - 1] == shorter;
    }
  }

  /** A reordering has the same sum. */
  lemma {:induction false} SumByPermutation<T>(s: seq<T>, t: seq<T>, f: T -> int)
    requires multiset(s) == multiset(t)
    ensures SumBy(s, f) == SumBy(t, f)
    decreases |s|
  {
    if s == [] {
      assert |t| == |multiset(t)| == 0;
    } else {
      var n := |s| - 1;
      var x := s[n];
      assert x in multiset(t);
      var k :| 0 <= k < |t| && t[k] == x;
      SumByRemove(t, k, f);
      RemoveAt(t, k);
      RemoveAt(s, n);
      assert s[..n] + s[n + 1..] == s[..n];
      SumByPermutation(s[..n], t[..k] + t[k + 1..], f);
    }
  }

  /** The tail of a non-empty sequence is the sequence shifted by one. */
  lemma TailShift<T>(s: seq<T>)
    requires s != []
    ensures s[1..] + [] == s[1..]
    ensures forall i :: 0 <= i < |s[1..]| ==> s[1..][i] == s[i + 1]
  {
  }

  lemma {:induction false} ReverseAt<T>(s: seq<T>, k: nat)
    requires k < |s|
    ensures Reverse(s)[k] == s[|s| - 1 - k]
  {
    if k < |s| - 1 {
      ReverseAt(s[1..], k);
    }
  }

  lemma {:induction false} ReverseAppend<T>(s: seq<T>, x: T)
    ensures Reverse(s + [x]) == [x] + Reverse(s)
  {
    var a, b := Reverse(s + [x]), [x] + Reverse(s);
    forall k | 0 <= k < |a| ensures a[k] == b[k] {
      ReverseAt(s + [x], k);
      if k > 0 { ReverseAt(s, k - 1); }
    }
  }

  lemma {:induction false} ReverseInvolution<T>(s: seq<T>)
    ensures Reverse(Reverse(s)) == s
  {
    forall k | 0 <= k < |s| ensures Reverse(Reverse(s))[k] == s[k] {
      ReverseAt(Reverse(s), k);
      ReverseAt(s, |s| - 1 - k);
    }
  }

  /** Sum of a sequence of integers. */
  function Sum(s: seq<int>): int
  {
    if s == [] then 0 else Sum(s[..|s| - 1]) + s[|s| - 1]
  }

  lemma {:induction false} SumAppend(s: seq<int>, t: seq<int>)
    ensures Sum(s + t) == Sum(s) + Sum(t)
  {
    if t == [] {
      assert s + t == s;
    } else {
      assert (s + t)[..|s + t| - 1] == s + t[..|t| - 1];
      SumAppend(s, t[..|t| - 1]);
    }
  }

  /** Number of elements of `s` satisfying `p`. */
  function CountIf<T>(s: seq<T>, p: T -> bool): (r: nat)
    ensures r <= |s|
  {
    if s == [] then 0 else CountIf(s[..|s| - 1], p) + (if p(s[|s| - 1]) then 1 else 0)
  }

  /** Nothing is counted exactly when no element satisfies p. */
  lemma {:induction false} CountIfZero<T>(s: seq<T>, p: T -> bool)
    ensures CountIf(s, p) == 0 <==> forall k :: 0 <= k < |s| ==> !p(s[k])
  {
    if s != [] {
      CountIfZero(s[..|s| - 1], p);
      assert forall k :: 0 <= k < |s| - 1 ==> s[..|s| - 1][k] == s[k];
    }
  }

  /** Everything is counted exactly when every element satisfies p. */
  lemma {:induction false} CountIfAll<T>(s: seq<T>, p: T -> bool)
    ensures CountIf(s, p) == |s| <==> forall k :: 0 <= k < |s| ==> p(s[k])
  {
    if s != [] {
      CountIfAll(s[..|s| - 1], p);
      assert forall k :: 0 <= k < |s| - 1 ==> s[..|s| - 1][k] == s[k];
    }
  }

  lemma {:induction false} CountIfAppend<T>(s: seq<T>, t: seq<T>, p: T -> bool)
    ensures CountIf(s + t, p) == CountIf(s, p) + CountIf(t, p)
  {
    if t == [] {
      assert s + t == s;
    } else {
      assert (s + t)[..|s + t| - 1] == s + t[..|t| - 1];
      CountIfAppend(s, t[..|t| - 1], p);
    }
  }

  /** The elements of s that satisfy p. */
  ghost function Matching<T>(s: seq<T>, p: T -> bool): set<T>
  {
    set x | x in s && p(x)
  }

  /** For a sequence without repeats, counting is the size of the set of
      elements that satisfy the predicate. */
  lemma {:induction false} CountIfAsCard<T>(s: seq<T>, p: T -> bool)
    requires NoDuplicates(s)
    ensures CountIf(s, p) == |Matching(s, p)|
  {
    if s == [] {
      assert (set x | x in s && p(x)) == {};
    } else {
      var u, y := s[..|s| - 1], s[|s| - 1];
      assert s == u + [y];
      CountIfAsCard(u, p);
      assert y !in u by {
        forall k | 0 <= k < |u| ensures u[k] != y {
          assert s[k] == u[k];
        }
      }
      var A, B := Matching(u, p), Matching(s, p);
      if p(y) {
        assert B == A + {y};
      } else {
        assert B == A;
      }
    }
  }

  /** `0..n` as a sequence. */
  function Range(n: nat): (r: seq<nat>)
    ensures |r| == n && forall i :: 0 <= i < n ==> r[i] == i
    ensures forall i: nat :: i in r <==> i < n
  {
    var r := seq(n, i => i);
    forall i: nat ensures i in r <==> i < n {
      if i < n {
        assert r[i] == i;
      }
    }
    r
  }

  /** `iproduct!(xs, ys)`: every pair, the first component varying slowest. */
  function Product<A(!new), B(!new)>(xs: seq<A>, ys: seq<B>): (r: seq<(A, B)>)
    ensures forall p :: p in r <==> p.0 in xs && p.1 in ys
  {
    if xs == [] then []
    else
      var x := xs[|xs| - 1];
      var row := seq(|ys|, k requires 0 <= k < |ys| => (x, ys[k]));
      assert forall p :: p in row <==> p.0 == x && p.1 in ys by {
        forall p: (A, B) | p.0 == x && p.1 in ys ensures p in row {
          var k :| 0 <= k < |ys| && ys[k] == p.1;
          assert row[k] == p;
        }
      }
      assert forall a :: a in xs <==> a in xs[..|xs| - 1] || a == x by {
        assert xs == xs[..|xs| - 1] + [x];
      }
      Product(xs[..|xs| - 1], ys) + row
  }

  /** The product of two sequences without repeats has none. */
  lemma {:induction false} ProductNoDuplicates<A(!new), B(!new)>(xs: seq<A>, ys: seq<B>)
    requires NoDuplicates(xs) && NoDuplicates(ys)
    ensures NoDuplicates(Product(xs, ys))
  {
    if xs != [] {
      var x, u := xs[|xs| - 1], xs[..|xs| - 1];
      var row := seq(|ys|, k requires 0 <= k < |ys| => (x, ys[k]));
      assert Product(xs, ys) == Product(u, ys) + row;
      assert NoDuplicates(u) by {
        forall i, j | 0 <= i < j < |u| ensures u[i] != u[j] {
          assert u[i] == xs[i] && u[j] == xs[j];
        }
      }
      ProductNoDuplicates(u, ys);
      assert x !in u by {
        forall k | 0 <= k < |u| ensures u[k] != x {
          assert u[k] == xs[k];
        }
      }
      assert NoDuplicates(row);
      assert Elems(Product(u, ys)) !! Elems(row);
      NoDuplicatesConcat(Product(u, ys), row);
    }
  }

  /** `Itertools::unique`: the first occurrence of every element, in order. */
  function Unique<T(==,!new)>(s: seq<T>): (r: seq<T>)
    ensures NoDuplicates(r) && |r| <= |s|
    ensures forall x :: x in r <==> x in s
  {
    if s == [] then []
    else
      var u, x := Unique(s[..|s| - 1]), s[|s| - 1];
      assert forall y :: y in s <==> y in s[..|s| - 1] || y == x by {
        assert s == s[..|s| - 1] + [x];
      }
      if x in u then u else u + [x]
  }

  /** The concatenation of a sequence of sequences, `flatten`. */
  function Flatten<T(!new)>(ss: seq<seq<T>>): (r: seq<T>)
    ensures forall x :: x in r <==> exists k :: 0 <= k < |ss| && x in ss[k]
  {
    if ss == [] then []
    else
      var r := Flatten(ss[..|ss| - 1]) + ss[|ss| - 1];
      assert forall k :: 0 <= k < |ss| - 1 ==> ss[..|ss| - 1][k] == ss[k];
      r
  }

  /** Rows that all have the length w flatten to |ss| * w elements. */
  lemma {:induction false} FlattenRows<T(!new)>(ss: seq<seq<T>>, w: nat)
    requires forall i :: 0 <= i < |ss| ==> |ss[i]| == w
    ensures |Flatten(ss)| == Mul(|ss|, w)
  {
    if ss != [] {
      var n := |ss| - 1;
      assert forall i :: 0 <= i < n ==> ss[..n][i] == ss[i];
      FlattenRows(ss[..n], w);
    }
  }

  /** `flat_map`: the results of f on every element, in order. */
  function FlatMap<A, B(!new)>(xs: seq<A>, f: A -> seq<B>): (r: seq<B>)
    ensures forall y :: y in r <==> exists k :: 0 <= k < |xs| && y in f(xs[k])
  {
    if xs == [] then []
    else
      var n := |xs| - 1;
      assert forall k :: 0 <= k < n ==> xs[..n][k] == xs[k];
      FlatMap(xs[..n], f) + f(xs[n])
  }

  /** Exchanging two elements keeps the multiset. */
  lemma SwapMultiset<T>(s: seq<T>, i: nat, j: nat)
    requires i < |s| && j < |s|
    ensures multiset(s[i := s[j]][j := s[i]]) == multiset(s)
  {
    if i != j {
      calc {
        multiset(s[i := s[j]][j := s[i]]);
        multiset(s[i := s[j]]) - multiset{s[i := s[j]][j]} + multiset{s[i]};
        multiset(s) - multiset{s[i]} + multiset{s[j]} - multiset{s[j]} + multiset{s[i]};
        multiset(s);
      }
    }
  }

  /** A sequence without repeats has as many elements as its set. */
  lemma {:induction false} NoDuplicatesCard<T>(s: seq<T>)
    requires NoDuplicates(s)
    ensures |Elems(s)| == |s|
  {
    if s != [] {
      var u, x := s[..|s| - 1], s[|s| - 1];
      assert s == u + [x];
      assert NoDuplicates(u) by {
        forall i, j | 0 <= i < j < |u| ensures u[i] != u[j] {
          assert u[i] == s[i] && u[j] == s[j];
        }
      }
      NoDuplicatesCard(u);
      assert x !in Elems(u) by {
        forall k | 0 <= k < |u| ensures u[k] != x {
          assert u[k] == s[k];
        }
      }
      assert Elems(s) == Elems(u) + {x};
    }
  }

  /** A predicate implied by another holds of at least as many elements. */
  lemma {:induction false} CountIfMonotone<T>(s: seq<T>, p: T -> bool, q: T -> bool)
    requires forall k :: 0 <= k < |s| && p(s[k]) ==> q(s[k])
    ensures CountIf(s, p) <= CountIf(s, q)
  {
    if s != [] {
      CountIfMonotone(s[..|s| - 1], p, q);
    }
  }

  /** Some member of a non-empty set, the one a `HashSet` iteration or
      a `HashMap` key iteration happens to yield first. */
  ghost function Pick<T>(K: set<T>): (k: T)
    requires K != {}
    ensures k in K
  {
    var k :| k in K; k
  }

  method Choose<T>(K: set<T>) returns (k: T)
    requires K != {}
    ensures k in K
  {
    k :| k in K;
  }

  predicate NoDuplicates<T(==)>(s: seq<T>)
  {
    forall i, j :: 0 <= i < j < |s| ==> s[i] != s[j]
  }

  /** The set of elements of a sequence. */
  function Elems<T>(s: seq<T>): set<T>
  {
    set x | x in s
  }

  /** `Vec::retain` with the predicate "not in S": order kept, members of S dropped. */
  function RemoveAll<T>(s: seq<T>, S: set<T>): (r: seq<T>)
    ensures |r| <= |s|
  {
    if s == [] then []
    else (if s[0] in S then [] else [s[0]]) + RemoveAll(s[1..], S)
  }

  lemma {:induction false} RemoveAllMembers<T>(s: seq<T>, S: set<T>)
    ensures forall x :: x in RemoveAll(s, S) <==> x in s && x !in S
  {
    if s != [] {
      RemoveAllMembers(s[1..], S);
      assert forall x :: x in s <==> x == s[0] || x in s[1..];
    }
  }

  lemma ElemsConcat<T>(a: seq<T>, b: seq<T>)
    ensures Elems(a + b) == Elems(a) + Elems(b)
  {
    assert forall x :: x in a + b <==> x in a || x in b;
  }

  lemma ElemsSplit<T>(s: seq<T>, m: nat)
    requires m <= |s|
    ensures Elems(s[..m]) + Elems(s[m..]) == Elems(s)
  {
    assert s == s[..m] + s[m..];
    ElemsConcat(s[..m], s[m..]);
  }

  /** A concatenation repeats nothing exactly when neither part does and
      they share no element. */
  lemma NoDuplicatesConcat<T>(a: seq<T>, b: seq<T>)
    ensures NoDuplicates(a + b) <==> NoDuplicates(a) && NoDuplicates(b) && Elems(a) !! Elems(b)
  {
    var c := a + b;
    if NoDuplicates(c) {
      forall i, j | 0 <= i < j < |a| ensures a[i] != a[j] {
        assert a[i] == c[i] && a[j] == c[j];
      }
      forall i, j | 0 <= i < j < |b| ensures b[i] != b[j] {
        assert b[i] == c[|a| + i] && b[j] == c[|a| + j];
      }
      forall x | x in Elems(a) ensures x !in Elems(b) {
        var i :| 0 <= i < |a| && a[i] == x;
        forall j | 0 <= j < |b| ensures b[j] != x {
          assert c[i] == x && c[|a| + j] == b[j];
        }
      }
    }
    if NoDuplicates(a) && NoDuplicates(b) && Elems(a) !! Elems(b) {
      forall i, j | 0 <= i < j < |c| ensures c[i] != c[j] {
        if j < |a| {
          assert c[i] == a[i] && c[j] == a[j];
        } else if i >= |a| {
          assert c[i] == b[i - |a|] && c[j] == b[j - |a|];
        } else {
          assert c[i] == a[i] && c[j] == b[j - |a|];
          assert c[i] in Elems(a) && c[j] in Elems(b);
        }
      }
    }
  }

  lemma NoDuplicatesAppend<T>(s: seq<T>, x: T)
    requires NoDuplicates(s) && x !in Elems(s)
    ensures NoDuplicates(s + [x]) && Elems(s + [x]) == Elems(s) + {x}
  {
    ElemsConcat(s, [x]);
  }

  /** A sequence without repeats holds each of its elements once. */
  lemma {:induction false} NoDuplicatesOnce<T>(s: seq<T>)
    requires NoDuplicates(s)
    ensures forall x :: multiset(s)[x] == if x in s then 1 else 0
  {
    if s != [] {
      var init, y := s[..|s| - 1], s[|s| - 1];
      assert s == init + [y];
      NoDuplicatesConcat(init, [y]);
      NoDuplicatesOnce(init);
      assert y !in Elems(init);
    }
  }

  /** Two sequences without repeats and with the same elements are
      reorderings of each other. */
  lemma SameElemsSameMultiset<T>(a: seq<T>, b: seq<T>)
    requires NoDuplicates(a) && NoDuplicates(b)
    requires forall x :: x in a <==> x in b
    ensures multiset(a) == multiset(b)
  {
    NoDuplicatesOnce(a);
    NoDuplicatesOnce(b);
    assert forall x :: multiset(a)[x] == multiset(b)[x];
  }

  /** Adding an element of U to S leaves fewer elements of U outside S. */
  lemma FewerOutside<T>(U: set<T>, S: set<T>, x: T)
    requires x in U && x !in S
    ensures |U - (S + {x})| < |U - S|
  {
    assert U - (S + {x}) == (U - S) - {x};
  }

  /** The same result at a row below or level in a grid of rows of length w. */
  lemma {:induction false} MulMonotone(a: nat, b: nat, w: nat)
    requires a <= b
    ensures Mul(a, w) <= Mul(b, w)
    decreases b
  {
    if a < b {
      MulMonotone(a, b - 1, w);
    }
  }

  /** Quotient and remainder are determined by n = q * w + m with m < w. */
  lemma DivModUnique(n: nat, w: nat, q: nat, m: nat)
    requires w > 0 && m < w && n == Mul(q, w) + m
    ensures n / w == q && n % w == m
  {
    var q', m' := n / w, n % w;
    MulIsProduct(q', w);
    assert n == Mul(q', w) + m';
    if q' < q {
      MulRowBelow(q', q, w);
    } else if q' > q {
      MulRowBelow(q, q', w);
    }
  }

  /** `Grid::idx_to_xy` (used by several puzzles; not part of the shown
      grid library): column and row of a row-major index. */
  function IdxToXy(w: nat, k: nat): (nat, nat)
    requires w > 0
  {
    (k % w, k / w)
  }

  /** The row-major offset of idx_to_xy(k) is k again. */
  lemma OffsetOfIdxToXy(w: nat, k: nat)
    requires w > 0
    ensures IdxToXy(w, k).0 < w && Mul(IdxToXy(w, k).1, w) + IdxToXy(w, k).0 == k
  {
    MulIsProduct(k / w, w);
  }

  /** idx_to_xy undoes the row-major offset y * w + x. */
  lemma IdxToXyOfOffset(w: nat, x: nat, y: nat)
    requires x < w
    ensures IdxToXy(w, Mul(y, w) + x) == (x, y)
  {
    DivModUnique(Mul(y, w) + x, w, y, x);
  }

  /** An index into the data of an h-row grid names a row below h. */
  lemma IdxToXyInGrid(w: nat, h: nat, k: nat)
    requires w > 0 && k < Mul(h, w)
    ensures IdxToXy(w, k).0 < w && IdxToXy(w, k).1 < h
    ensures Mul(IdxToXy(w, k).1, w) + IdxToXy(w, k).0 == k
  {
    var p := IdxToXy(w, k);
    OffsetOfIdxToXy(w, k);
    if p.1 >= h {
      MulMonotone(h, p.1, w);
    }
  }
}
