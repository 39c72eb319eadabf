/** Stable sorting by an integer key, the `sort`, `sort_by_key` and
    `sorted_by_key` of the Rust standard library and itertools. */
module Sorting {

  predicate SortedBy<T>(s: seq<T>, key: T -> int)
  {
    forall i, j :: 0 <= i < j < |s| ==> key(s[i]) <= key(s[j])
  }

  /** Insert x before the first element whose key is not smaller. */
  function InsertBy<T>(x: T, s: seq<T>, key: T -> int): (r: seq<T>)
    requires SortedBy(s, key)
    ensures multiset(r) == multiset(s) + multiset{x}
    ensures SortedBy(r, key)
  {
    if s == [] then [x]
    else if key(x) <= key(s[0]) then [x] + s
    else
      var t := InsertBy(x, s[1..], key);
      assert s == [s[0]] + s[1..];
      assert forall k :: 0 <= k < |t| ==> t[k] in multiset(s[1..]) + multiset{x};
      assert forall k :: 0 <= k < |t| ==> key(s[0]) <= key(t[k]) by {
        forall k | 0 <= k < |t| ensures key(s[0]) <= key(t[k]) {
          assert t[k] in multiset(t);
          if t[k] != x {
            var m :| 0 <= m < |s[1..]| && s[1..][m] == t[k];
            assert s[m + 1] == t[k];
          }
        }
      }
      [s[0]] + t
  }

  /** Insertion sort: a permutation of s in ascending key order. Elements
      with equal keys keep their relative order. */
  function SortBy<T>(s: seq<T>, key: T -> int): (r: seq<T>)
    ensures multiset(r) == multiset(s) && |r| == |s|
    ensures SortedBy(r, key)
  {
    if s == [] then []
    else
      assert s == [s[0]] + s[1..];
      InsertBy(s[0], SortBy(s[1..], key), key)
  }

  predicate Ascends(s: seq<int>)
  {
    forall i, j :: 0 <= i < j < |s| ==> s[i] <= s[j]
  }

  /** Ascending integer order. */
  function Ascending(s: seq<int>): (r: seq<int>)
    ensures multiset(r) == multiset(s) && |r| == |s|
    ensures Ascends(r)
  {
    var r := SortBy(s, x => x);
    assert SortedBy(r, x => x);
    r
  }

  /** The head of an ascending sequence is its least element. */
  lemma HeadIsLeast(a: seq<int>, x: int)
    requires Ascends(a) && x in multiset(a)
    ensures a[0] <= x
  {
    var i :| 0 <= i < |a| && a[i] == x;
  }

  lemma TailAscends(a: seq<int>)
    requires Ascends(a) && a != []
    ensures Ascends(a[1..])
  {
    forall i, j | 0 <= i < j < |a[1..]| ensures a[1..][i] <= a[1..][j] {
      assert a[1..][i] == a[i + 1] && a[1..][j] == a[j + 1];
    }
  }

  lemma TailMultiset(a: seq<int>)
    requires a != []
    ensures multiset(a[1..]) == multiset(a) - multiset{a[0]}
  {
    assert a == [a[0]] + a[1..];
  }

  /** Two ascending sequences with the same values start alike, and
      their tails are again ascending with the same values. */
  lemma SameHeads(a: seq<int>, b: seq<int>)
    requires Ascends(a) && Ascends(b) && multiset(a) == multiset(b) && a != []
    ensures b != [] && a[0] == b[0]
    ensures Ascends(a[1..]) && Ascends(b[1..]) && multiset(a[1..]) == multiset(b[1..])
  {
    assert a[0] in multiset(b);
    HeadIsLeast(a, b[0]);
    HeadIsLeast(b, a[0]);
    TailAscends(a);
    TailAscends(b);
    TailMultiset(a);
    TailMultiset(b);
  }

  /** Two ascending sequences holding the same values are equal. */
  lemma {:induction false} SortedUnique(a: seq<int>, b: seq<int>)
    requires Ascends(a) && Ascends(b)
    requires multiset(a) == multiset(b)
    ensures a == b
    decreases |a|
  {
    if a == [] {
      assert |b| == |multiset(b)| == 0;
    } else {
      SameHeads(a, b);
      SortedUnique(a[1..], b[1..]);
      assert a == [a[0]] + a[1..] && b == [b[0]] + b[1..];
    }
  }

  /** Ascending order is determined by the multiset of values. */
  lemma AscendingIs(s: seq<int>, t: seq<int>)
    requires Ascends(t) && multiset(s) == multiset(t)
    ensures Ascending(s) == t
  {
    SortedUnique(Ascending(s), t);
  }
}
