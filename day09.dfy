/** Day 9: a disk map of alternating file and free-space lengths, expanded
    into one entry per block, compacted in two ways, and checksummed. */
module Day09 {
  import opened Util
  import opened Wrappers
  import opened Sorting

  /** One disk block: free (the "." string) or part of the file with that id. */
  datatype Entry = Free | File(id: nat)

  function Repeat(e: Entry, n: nat): (r: seq<Entry>)
    ensures |r| == n && forall i :: 0 <= i < n ==> r[i] == e
  {
    seq(n, _ => e)
  }

  // ---------------------------------------------------------------------
  // decode

  /** The entry written for the k-th digit of the map: even digits are
      files numbered k / 2, odd digits free space. */
  function EntryFor(k: nat): Entry
  {
    if k % 2 == 0 then File(k / 2) else Free
  }

  /** `decode` of the digits from map index k on. */
  function DecodeFrom(encoded: seq<nat>, k: nat): seq<Entry>
    decreases |encoded|
  {
    if encoded == [] then [] else Repeat(EntryFor(k), encoded[0]) + DecodeFrom(encoded[1..], k + 1)
  }

  /** `decode`: each digit n at index k expands to n copies of its entry,
      so the disk is as long as the digits of the map add up to. */
  function Decode(encoded: seq<nat>): (r: seq<Entry>)
    ensures |r| == Sum(encoded)
  {
    DecodeFromLength(encoded, 0);
    DecodeFrom(encoded, 0)
  }

  lemma {:induction false} DecodeFromSnoc(encoded: seq<nat>, k: nat, n: nat)
    ensures DecodeFrom(encoded + [n], k) == DecodeFrom(encoded, k) + Repeat(EntryFor(k + |encoded|), n)
    decreases |encoded|
  {
    if encoded == [] {
      assert DecodeFrom([n], k) == Repeat(EntryFor(k), n) + DecodeFrom([], k + 1);
    } else {
      assert (encoded + [n])[1..] == encoded[1..] + [n];
      DecodeFromSnoc(encoded[1..], k + 1, n);
    }
  }

  /** Appending a digit to the map appends its entries to the disk. */
  lemma DecodeSnoc(encoded: seq<nat>, n: nat)
    ensures Decode(encoded + [n]) == Decode(encoded) + Repeat(EntryFor(|encoded|), n)
  {
    DecodeFromSnoc(encoded, 0, n);
  }

  lemma {:induction false} DecodeFromLength(encoded: seq<nat>, k: nat)
    ensures |DecodeFrom(encoded, k)| == Sum(encoded)
    decreases |encoded|
  {
    if encoded != [] {
      DecodeFromLength(encoded[1..], k + 1);
      assert encoded == [encoded[0]] + encoded[1..];
      SumAppend([encoded[0]], encoded[1..]);
    }
  }

  // ---------------------------------------------------------------------
  // compress: the two-pointer compaction

  /** No free entry comes before a file entry. */
  predicate Compacted(s: seq<Entry>)
  {
    forall i, j :: 0 <= i < j < |s| && s[i].Free? ==> s[j].Free?
  }

  /** The two-pointer compaction from pointers left and right on: free
      space under the right pointer and a file under the left one are
      passed over, and otherwise the free entry on the left and the file
      entry on the right change places. */
  function TwoPointer(d: seq<Entry>, left: nat, right: nat): seq<Entry>
    requires left < right ==> right < |d|
    decreases right - left
  {
    if left >= right then d
    else if d[right].Free? then TwoPointer(d, left, right - 1)
    else if d[left].File? then TwoPointer(d, left + 1, right)
    else TwoPointer(d[left := d[right]][right := d[left]], left + 1, right - 1)
  }

  /** `compress` of a whole disk: the left pointer starts at the first
      entry and the right one at the last (`saturating_sub(1)`: 0 on an
      empty disk). */
  function Compact(s: seq<Entry>): seq<Entry>
  {
    TwoPointer(s, 0, if |s| == 0 then 0 else |s| - 1)
  }

  /** The compaction only moves entries about. */
  lemma {:induction false} TwoPointerBag(d: seq<Entry>, left: nat, right: nat)
    requires left < right ==> right < |d|
    ensures |TwoPointer(d, left, right)| == |d| && multiset(TwoPointer(d, left, right)) == multiset(d)
    decreases right - left
  {
    if left >= right {
    } else if d[right].Free? {
      TwoPointerBag(d, left, right - 1);
    } else if d[left].File? {
      TwoPointerBag(d, left + 1, right);
    } else {
      SwapBag(d, left, right);
      TwoPointerBag(d[left := d[right]][right := d[left]], left + 1, right - 1);
    }
  }

  /** With files left of the left pointer and free space right of the
      right one, the compaction gives a compacted disk. */
  lemma {:induction false} TwoPointerCompacted(d: seq<Entry>, left: nat, right: nat)
    requires left < right ==> right < |d|
    requires forall i :: 0 <= i < left && i < |d| ==> d[i].File?
    requires forall i :: right < i < |d| ==> d[i].Free?
    ensures Compacted(TwoPointer(d, left, right))
    decreases right - left
  {
    if left >= right {
      SettledCompacted(d, left, right);
    } else if d[right].Free? {
      TwoPointerCompacted(d, left, right - 1);
    } else if d[left].File? {
      TwoPointerCompacted(d, left + 1, right);
    } else {
      SwapSettles(d, left, right);
      TwoPointerCompacted(d[left := d[right]][right := d[left]], left + 1, right - 1);
    }
  }

  /** Once the pointers meet, files left of them and free space right of
      them is a compacted disk. */
  lemma SettledCompacted(d: seq<Entry>, left: nat, right: nat)
    requires left >= right
    requires forall i :: 0 <= i < left && i < |d| ==> d[i].File?
    requires forall i :: right < i < |d| ==> d[i].Free?
    ensures Compacted(d)
  {
    forall i, j | 0 <= i < j < |d| && d[i].Free? ensures d[j].Free? {
      assert i >= left;
    }
  }

  /** The swap of a free entry on the left and a file entry on the right
      moves both pointers on. */
  lemma SwapSettles(d: seq<Entry>, left: nat, right: nat)
    requires left < right < |d| && d[left].Free? && d[right].File?
    requires forall i :: 0 <= i < left ==> d[i].File?
    requires forall i :: right < i < |d| ==> d[i].Free?
    ensures var d2 := d[left := d[right]][right := d[left]];
      (forall i :: 0 <= i < left + 1 && i < |d2| ==> d2[i].File?)
      && (forall i :: right - 1 < i < |d2| ==> d2[i].Free?)
  {
  }

  lemma SwapBag(d: seq<Entry>, i: nat, j: nat)
    requires i < j < |d|
    ensures multiset(d[i := d[j]][j := d[i]]) == multiset(d)
  {
    var e := d[i := d[j]];
    assert multiset(e) == multiset(d) - multiset{d[i]} + multiset{d[j]};
    assert e[j] == d[j];
  }

  /** The compaction of a disk is a compacted permutation of it. */
  lemma CompactMeaning(s: seq<Entry>)
    ensures |Compact(s)| == |s| && multiset(Compact(s)) == multiset(s) && Compacted(Compact(s))
  {
    TwoPointerBag(s, 0, if |s| == 0 then 0 else |s| - 1);
    TwoPointerCompacted(s, 0, if |s| == 0 then 0 else |s| - 1);
  }

  /** `compress`: the left pointer looks for a free entry, the right one for
      a file entry, and the two are swapped until the pointers meet. */
  method Compress(data: array<Entry>)
    modifies data
    ensures data[..] == Compact(old(data[..]))
    ensures multiset(data[..]) == multiset(old(data[..])) && Compacted(data[..])
  {
    ghost var s := data[..];
    var left: nat := 0;
    // `saturating_sub(1)`: 0 on an empty disk
    var right: nat := if data.Length == 0 then 0 else data.Length - 1;
    while left < right
      invariant left < right ==> right < data.Length
      invariant TwoPointer(data[..], left, right) == Compact(s)
      decreases right - left
    {
      while right > left && data[right] == Free
        invariant left <= right < data.Length
        invariant TwoPointer(data[..], left, right) == Compact(s)
      {
        right := right - 1;
      }
      while left < right && data[left] != Free
        invariant left <= right < data.Length
        invariant TwoPointer(data[..], left, right) == Compact(s)
        invariant left < right ==> data[right].File?
      {
        left := left + 1;
      }
      if left < right {
        ghost var d := data[..];
        data[left], data[right] := data[right], data[left];
        assert data[..] == d[left := d[right]][right := d[left]];
        left := left + 1;
        right := right - 1;
      }
    }
    CompactMeaning(s);
  }

  // ---------------------------------------------------------------------
  // compress2: moving whole files

  /** A run of equal entries: `id` is "." for free space. */
  datatype Block = Block(id: Entry, start: nat, width: nat)

  /** `vec![id; width]` for every block, concatenated. */
  function Expand(blocks: seq<Block>): seq<Entry>
  {
    if blocks == [] then [] else Repeat(blocks[0].id, blocks[0].width) + Expand(blocks[1..])
  }

  /** The entries the blocks stand for, as a multiset. */
  function Bag(blocks: seq<Block>): multiset<Entry>
  {
    if blocks == [] then multiset{} else multiset{}[blocks[0].id := blocks[0].width] + Bag(blocks[1..])
  }

  /** `width` copies of an entry, as a multiset. */
  lemma {:induction false} RepeatBag(e: Entry, n: nat)
    ensures multiset(Repeat(e, n)) == multiset{}[e := n]
  {
    if n > 0 {
      RepeatBag(e, n - 1);
      assert Repeat(e, n) == Repeat(e, n - 1) + [e];
    }
  }

  lemma {:induction false} ExpandBag(blocks: seq<Block>)
    ensures multiset(Expand(blocks)) == Bag(blocks)
  {
    if blocks != [] {
      ExpandBag(blocks[1..]);
      RepeatBag(blocks[0].id, blocks[0].width);
    }
  }

  lemma {:induction false} BagConcat(a: seq<Block>, b: seq<Block>)
    ensures Bag(a + b) == Bag(a) + Bag(b)
  {
    if a == [] {
      assert a + b == b;
    } else {
      assert (a + b)[0] == a[0] && (a + b)[1..] == a[1..] + b;
      BagConcat(a[1..], b);
    }
  }

  /** Taking block i out of a sequence takes its entries out of the bag. */
  lemma {:induction false} BagRemove(b: seq<Block>, i: nat)
    requires i < |b|
    ensures Bag(b) == Bag([b[i]]) + Bag(b[..i] + b[i + 1..])
    decreases i
  {
    var rest := b[..i] + b[i + 1..];
    assert Bag([b[i]]) == multiset{}[b[i].id := b[i].width] by {
      assert [b[i]][1..] == [];
    }
    if i == 0 {
      assert rest == b[1..];
    } else {
      var t := b[1..];
      assert t[..i - 1] + t[i..] == rest[1..] && rest[0] == b[0] by {
        assert t[..i - 1] == b[1..i] && t[i..] == b[i + 1..];
      }
      assert t[i - 1] == b[i];
      BagRemove(t, i - 1);
    }
  }

  /** Taking element i out of a sequence takes it out of its multiset. */
  lemma MultisetRemove(b: seq<Block>, i: nat)
    requires i < |b|
    ensures multiset(b[..i] + b[i + 1..]) == multiset(b) - multiset{b[i]}
  {
    assert b == b[..i] + [b[i]] + b[i + 1..];
  }

  /** Two sequences with the same blocks stand for the same entries. */
  lemma {:induction false} BagPermutation(a: seq<Block>, b: seq<Block>)
    requires multiset(a) == multiset(b)
    ensures Bag(a) == Bag(b)
    decreases |a|
  {
    if a != [] {
      assert a[0] in multiset(b);
      var i :| 0 <= i < |b| && b[i] == a[0];
      var b' := b[..i] + b[i + 1..];
      MultisetRemove(b, i);
      MultisetRemove(a, 0);
      assert a[..0] + a[1..] == a[1..];
      BagPermutation(a[1..], b');
      BagRemove(b, i);
      BagSingle(b[i]);
    }
  }

  /** Replacing a block by one of the same id and width keeps the entries. */
  lemma BagUpdate(s: seq<Block>, i: nat, b: Block)
    requires i < |s| && b.id == s[i].id && b.width == s[i].width
    ensures Bag(s[i := b]) == Bag(s)
  {
    var t := s[i := b];
    assert t[..i] + t[i + 1..] == s[..i] + s[i + 1..] by {
      assert t[..i] == s[..i] && t[i + 1..] == s[i + 1..];
    }
    BagRemove(s, i);
    BagRemove(t, i);
    BagSingle(b);
    BagSingle(s[i]);
  }

  /** The block [start, start + width) of data is a maximal run of id. */
  predicate MaximalRun(data: seq<Entry>, b: Block)
  {
    b.width > 0 && b.start + b.width <= |data|
    && (forall i :: b.start <= i < b.start + b.width ==> data[i] == b.id)
    && (b.start == 0 || data[b.start - 1] != b.id)
    && (b.start + b.width == |data| || data[b.start + b.width] != b.id)
  }

  /** The blocks found in the first k entries: maximal runs that together
      stand for exactly those entries, free runs in one list and file runs
      in the other; k is where a run starts. */
  predicate Segmented(data: seq<Entry>, free: seq<Block>, claimed: seq<Block>, k: nat)
  {
    k <= |data| && (0 < k < |data| ==> data[k - 1] != data[k])
    && Bag(free) + Bag(claimed) == multiset(data[..k])
    && (forall b :: b in free ==> b.id == Free && MaximalRun(data, b) && b.start + b.width <= k)
    && (forall b :: b in claimed ==> b.id.File? && MaximalRun(data, b) && b.start + b.width <= k)
  }

  lemma RunBag(data: seq<Entry>, k: nat, width: nat)
    requires k < |data| && k + width <= |data| && forall i :: k <= i < k + width ==> data[i] == data[k]
    ensures multiset(data[..k + width]) == multiset(data[..k]) + multiset{}[data[k] := width]
  {
    assert data[k..k + width] == Repeat(data[k], width);
    assert data[..k + width] == data[..k] + data[k..k + width];
    RepeatBag(data[k], width);
  }

  /** The run of data[k] that starts at k is a maximal run. */
  lemma RunAt(data: seq<Entry>, free: seq<Block>, claimed: seq<Block>, k: nat, width: nat)
    requires Segmented(data, free, claimed, k) && k < |data|
    requires k + width <= |data| && forall i :: k <= i < k + width ==> data[i] == data[k]
    requires k + width == |data| || data[k + width] != data[k]
    ensures width > 0 && MaximalRun(data, Block(data[k], k, width))
    ensures 0 < k + width < |data| ==> data[k + width - 1] != data[k + width]
    ensures Bag(free) + Bag(claimed) + Bag([Block(data[k], k, width)]) == multiset(data[..k + width])
  {
    RunBag(data, k, width);
    assert Bag([Block(data[k], k, width)]) == multiset{}[data[k] := width];
  }

  /** Filing the run of data[k] that starts at k in its list. */
  lemma SegmentStep(data: seq<Entry>, free: seq<Block>, claimed: seq<Block>, k: nat, width: nat)
    requires Segmented(data, free, claimed, k) && k < |data|
    requires k + width <= |data| && forall i :: k <= i < k + width ==> data[i] == data[k]
    requires k + width == |data| || data[k + width] != data[k]
    ensures width > 0
    ensures data[k] == Free ==> Segmented(data, free + [Block(data[k], k, width)], claimed, k + width)
    ensures data[k] != Free ==> Segmented(data, free, claimed + [Block(data[k], k, width)], k + width)
  {
    RunAt(data, free, claimed, k, width);
    if data[k] == Free {
      SegmentFree(data, free, claimed, k, width);
    } else {
      SegmentClaimed(data, free, claimed, k, width);
    }
  }

  lemma SegmentFree(data: seq<Entry>, free: seq<Block>, claimed: seq<Block>, k: nat, width: nat)
    requires Segmented(data, free, claimed, k) && k < |data| && data[k] == Free
    requires width > 0 && MaximalRun(data, Block(data[k], k, width))
    requires 0 < k + width < |data| ==> data[k + width - 1] != data[k + width]
    requires Bag(free) + Bag(claimed) + Bag([Block(data[k], k, width)]) == multiset(data[..k + width])
    ensures Segmented(data, free + [Block(data[k], k, width)], claimed, k + width)
  {
    var block := Block(data[k], k, width);
    BagConcat(free, [block]);
    Swap3(Bag(free), Bag(claimed), Bag([block]));
    forall b | b in free + [block] ensures b.id == Free && MaximalRun(data, b) && b.start + b.width <= k + width {
      if b != block { assert b in free; }
    }
  }

  lemma SegmentClaimed(data: seq<Entry>, free: seq<Block>, claimed: seq<Block>, k: nat, width: nat)
    requires Segmented(data, free, claimed, k) && k < |data| && data[k] != Free
    requires width > 0 && MaximalRun(data, Block(data[k], k, width))
    requires 0 < k + width < |data| ==> data[k + width - 1] != data[k + width]
    requires Bag(free) + Bag(claimed) + Bag([Block(data[k], k, width)]) == multiset(data[..k + width])
    ensures Segmented(data, free, claimed + [Block(data[k], k, width)], k + width)
  {
    var block := Block(data[k], k, width);
    BagConcat(claimed, [block]);
    forall b | b in claimed + [block] ensures b.id.File? && MaximalRun(data, b) && b.start + b.width <= k + width {
      if b != block { assert b in claimed; }
    }
  }

  /** Regrouping three multisets. */
  lemma Swap3(a: multiset<Entry>, b: multiset<Entry>, c: multiset<Entry>)
    ensures a + b + c == (a + c) + b
  {
  }

  /** The first loop of `compress2`: cut the disk into maximal runs, free
      runs going to one list and file runs to the other, both in disk order. */
  method Segment(data: seq<Entry>) returns (free: seq<Block>, claimed: seq<Block>)
    ensures Bag(free) + Bag(claimed) == multiset(data)
    ensures forall b :: b in free ==> b.id == Free && MaximalRun(data, b)
    ensures forall b :: b in claimed ==> b.id.File? && MaximalRun(data, b)
  {
    free, claimed := [], [];
    var k := 0;
    while k < |data|
      invariant Segmented(data, free, claimed, k)
      decreases |data| - k
    {
      var width := 0;
      var id := data[k];
      while k + width < |data| && data[k + width] == id
        invariant k + width <= |data|
        invariant forall i :: k <= i < k + width ==> data[i] == id
        decreases |data| - k - width
      {
        width := width + 1;
      }
      SegmentStep(data, free, claimed, k, width);
      var block := Block(id, k, width);
      if id == Free {
        free := free + [block];
      } else {
        claimed := claimed + [block];
      }
      k := k + width;
    }
    assert data[..k] == data;
  }

  /** The file can go into the span: the span starts to its left and is
      at least as wide. */
  predicate Fits(file: Block, span: Block)
  {
    file.width <= span.width && file.start > span.start
  }

  function FirstFitFrom(file: Block, free: seq<Block>, k: nat): (r: Option<nat>)
    requires k <= |free|
    ensures r.Some? ==> k <= r.value < |free| && Fits(file, free[r.value])
    ensures r.Some? ==> forall j :: k <= j < r.value ==> !Fits(file, free[j])
    ensures r.None? ==> forall j :: k <= j < |free| ==> !Fits(file, free[j])
    decreases |free| - k
  {
    if k == |free| then None
    else if Fits(file, free[k]) then Some(k)
    else FirstFitFrom(file, free, k + 1)
  }

  /** The first span in list order that the file fits into. */
  function FirstFit(file: Block, free: seq<Block>): (r: Option<nat>)
    ensures r.Some? ==> r.value < |free| && Fits(file, free[r.value])
    ensures r.Some? ==> forall j :: 0 <= j < r.value ==> !Fits(file, free[j])
    ensures r.None? ==> forall j :: 0 <= j < |free| ==> !Fits(file, free[j])
  {
    FirstFitFrom(file, free, 0)
  }

  /** The span k after the file has taken its first `width` entries; a span
      used up entirely leaves the list. */
  function Shrink(free: seq<Block>, k: nat, width: nat): seq<Block>
    requires k < |free| && width <= free[k].width
  {
    var b := free[k];
    if b.width == width then free[..k] + free[k + 1..]
    else free[k := Block(b.id, b.start + width, b.width - width)]
  }

  lemma BagSingle(b: Block)
    ensures Bag([b]) == multiset{}[b.id := b.width]
  {
    assert [b][1..] == [];
  }

  /** Shrinking span k by `width` takes `width` of its entries out of the bag. */
  lemma ShrinkBag(free: seq<Block>, k: nat, width: nat)
    requires k < |free| && width <= free[k].width
    ensures Bag(Shrink(free, k, width)) + multiset{}[free[k].id := width] == Bag(free)
  {
    BagRemove(free, k);
    BagSingle(free[k]);
    if free[k].width != width {
      ShrinkBagPartly(free, k, width);
    }
  }

  lemma ShrinkBagPartly(free: seq<Block>, k: nat, width: nat)
    requires k < |free| && width < free[k].width
    ensures Bag(Shrink(free, k, width)) + multiset{}[free[k].id := width] == Bag(free)
  {
    var b := free[k];
    var rest := Block(b.id, b.start + width, b.width - width);
    ShrinkPartly(free, k, width);
    ReplaceBag(free, k, rest);
    SplitSingle(b, width);
    Cancel(Bag(Shrink(free, k, width)), multiset{}[b.id := width], Bag([rest]), Bag(free));
  }

  /** Replacing span k by r trades the bag of the one for that of the other. */
  lemma ReplaceBag(free: seq<Block>, k: nat, r: Block)
    requires k < |free|
    ensures Bag(free[k := r]) + Bag([free[k]]) == Bag(free) + Bag([r])
  {
    BagRemove(free, k);
    UpdateBag(free, k, r);
    Regroup(Bag(free), Bag(free[k := r]), Bag([free[k]]), Bag([r]), Bag(free[..k] + free[k + 1..]));
  }

  /** The multiset step of ReplaceBag: x is a plus o and y is r plus o. */
  lemma Regroup(x: multiset<Entry>, y: multiset<Entry>, a: multiset<Entry>, r: multiset<Entry>, o: multiset<Entry>)
    requires x == a + o && y == r + o
    ensures y + a == x + r
  {
  }

  /** Taking r away from both sides. */
  lemma Cancel(y: multiset<Entry>, t: multiset<Entry>, r: multiset<Entry>, x: multiset<Entry>)
    requires y + (t + r) == x + r
    ensures y + t == x
  {
    assert y + t == (y + (t + r)) - r;
  }

  lemma ShrinkPartly(free: seq<Block>, k: nat, width: nat)
    requires k < |free| && width < free[k].width
    ensures Shrink(free, k, width) == free[k := Block(free[k].id, free[k].start + width, free[k].width - width)]
  {
  }

  /** Replacing span k replaces its entries in the bag. */
  lemma UpdateBag(free: seq<Block>, k: nat, b: Block)
    requires k < |free|
    ensures Bag(free[k := b]) == Bag([b]) + Bag(free[..k] + free[k + 1..])
  {
    var s := free[k := b];
    assert s[..k] + s[k + 1..] == free[..k] + free[k + 1..] by {
      assert s[..k] == free[..k] && s[k + 1..] == free[k + 1..];
    }
    BagRemove(s, k);
  }

  /** A span is its first `width` entries plus the span of what is left. */
  lemma SplitSingle(b: Block, width: nat)
    requires width < b.width
    ensures Bag([b]) == multiset{}[b.id := width] + Bag([Block(b.id, b.start + width, b.width - width)])
  {
    BagSingle(b);
    BagSingle(Block(b.id, b.start + width, b.width - width));
  }

  /** Every block of Shrink(free, k, width) is a block of free or what is left of span k. */
  lemma ShrinkMembers(free: seq<Block>, k: nat, width: nat)
    requires k < |free| && width <= free[k].width
    ensures forall b :: b in Shrink(free, k, width) ==> b in free || b == Block(free[k].id, free[k].start + width, free[k].width - width)
  {
    var s := Shrink(free, k, width);
    forall b | b in s ensures b in free || b == Block(free[k].id, free[k].start + width, free[k].width - width) {
      var j :| 0 <= j < |s| && s[j] == b;
      if free[k].width == width {
        if j < k { assert s[j] == free[j]; } else { assert s[j] == free[j + 1]; }
      }
    }
  }

  /** The free list after the file has moved into span k holds the same
      free space. */
  lemma PlacedBag(file: Block, free: seq<Block>, k: nat)
    requires k < |free| && Fits(file, free[k]) && forall b :: b in free ==> b.id == Free
    ensures var free' := Shrink(free, k, file.width) + [Block(Free, file.start, file.width)];
      Bag(free') == Bag(free) && forall b :: b in free' ==> b.id == Free
  {
    var left := Shrink(free, k, file.width);
    ShrinkBag(free, k, file.width);
    ShrinkMembers(free, k, file.width);
    BagConcat(left, [Block(Free, file.start, file.width)]);
    BagSingle(Block(Free, file.start, file.width));
  }

  /** The inner loop of `compress2` for one file: the first span it fits
      into receives it at its start, and the file's old place becomes a
      free span of its width at the end of the list. Without a fitting
      span nothing changes. The free space stays the same in total. */
  method Place(file: Block, free: seq<Block>) returns (moved: Block, free': seq<Block>)
    ensures moved.id == file.id && moved.width == file.width
    ensures FirstFit(file, free).None? ==> moved == file && free' == free
    ensures FirstFit(file, free).Some? ==>
      var k := FirstFit(file, free).value;
      moved.start == free[k].start && free' == Shrink(free, k, file.width) + [Block(Free, file.start, file.width)]
    ensures (forall b :: b in free ==> b.id == Free) ==> Bag(free') == Bag(free) && forall b :: b in free' ==> b.id == Free
  {
    moved, free' := file, free;
    for k := 0 to |free|
      invariant forall j :: 0 <= j < k ==> !Fits(file, free[j])
    {
      if Fits(file, free[k]) {
        moved := file.(start := free[k].start);
        free' := Shrink(free, k, file.width) + [Block(Free, file.start, file.width)];
        if forall b :: b in free ==> b.id == Free {
          PlacedBag(file, free, k);
        }
        return;
      }
    }
  }

  /** The key of `sort_by_key(|b| Reverse(id))`: files by descending id. */
  function ByDescendingId(b: Block): int
  {
    if b.id.File? then -(b.id.id as int) else 0
  }

  function ByStart(b: Block): int
  {
    b.start
  }

  /** `compress2`: files from the highest id down move, each once, into the
      first free span to their left that is wide enough; all blocks are
      then laid out by start position. The disk keeps its length and its
      entries. */
  method Compress2(data: seq<Entry>) returns (r: seq<Entry>)
    ensures |r| == |data| && multiset(r) == multiset(data)
  {
    var free, claimed := Segment(data);
    ghost var free0, claimed0 := free, claimed;
    claimed := SortBy(claimed, ByDescendingId);
    BagPermutation(claimed, claimed0);
    ghost var n := |claimed|;
    for i := 0 to |claimed|
      invariant |claimed| == n
      invariant Bag(free) == Bag(free0) && Bag(claimed) == Bag(claimed0)
      invariant forall b :: b in free ==> b.id == Free
    {
      var moved, free' := Place(claimed[i], free);
      BagUpdate(claimed, i, moved);
      claimed, free := claimed[i := moved], free';
    }
    var layout := SortBy(free + claimed, ByStart);
    r := Expand(layout);
    ExpandBag(layout);
    BagPermutation(layout, free + claimed);
    BagConcat(free, claimed);
    assert |r| == |multiset(r)| == |multiset(data)| == |data|;
  }

  // ---------------------------------------------------------------------
  // checksum

  function EntryValue(k: nat, e: Entry): nat
  {
    if e.File? then k * e.id else 0
  }

  /** `checksum` of the entries from disk position k on. */
  function ChecksumFrom(s: seq<Entry>, k: nat): nat
    decreases |s|
  {
    if s == [] then 0 else EntryValue(k, s[0]) + ChecksumFrom(s[1..], k + 1)
  }

  /** `checksum`: position times file id, summed over the file entries;
      zero exactly when every file block has position or id zero. */
  function Checksum(s: seq<Entry>): (r: nat)
    ensures r == 0 <==> forall i :: 0 <= i < |s| && s[i].File? ==> i * s[i].id == 0
  {
    ChecksumFromZero(s, 0);
    ChecksumFrom(s, 0)
  }

  lemma {:induction false} ChecksumFromZero(s: seq<Entry>, k: nat)
    ensures ChecksumFrom(s, k) == 0 <==> forall i :: 0 <= i < |s| && s[i].File? ==> (k + i) * s[i].id == 0
    decreases |s|
  {
    if s != [] {
      ChecksumFromZero(s[1..], k + 1);
      forall i | 1 <= i < |s| ensures s[i] == s[1..][i - 1] && (k + i) == (k + 1) + (i - 1) {
      }
    }
  }

  lemma {:induction false} ChecksumFromSnoc(s: seq<Entry>, k: nat, e: Entry)
    ensures ChecksumFrom(s + [e], k) == ChecksumFrom(s, k) + EntryValue(k + |s|, e)
    decreases |s|
  {
    if s != [] {
      assert (s + [e])[1..] == s[1..] + [e];
      ChecksumFromSnoc(s[1..], k + 1, e);
    }
  }

  /** An entry appended at position |s| adds |s| times its id. */
  lemma ChecksumSnoc(s: seq<Entry>, e: Entry)
    ensures Checksum(s + [e]) == Checksum(s) + (if e.File? then |s| * e.id else 0)
  {
    ChecksumFromSnoc(s, 0, e);
  }

  /** Free space at the end of the disk adds nothing. */
  lemma {:induction false} ChecksumFreeTail(s: seq<Entry>, n: nat)
    ensures Checksum(s + Repeat(Free, n)) == Checksum(s)
  {
    if n == 0 {
      assert s + Repeat(Free, n) == s;
    } else {
      assert s + Repeat(Free, n) == (s + Repeat(Free, n - 1)) + [Free];
      ChecksumSnoc(s + Repeat(Free, n - 1), Free);
      ChecksumFreeTail(s, n - 1);
    }
  }

  /** `part1`: the checksum after the two-pointer compaction. */
  method Part1(encoded: seq<nat>) returns (r: nat)
    ensures r == Checksum(Compact(Decode(encoded)))
  {
    var disk := Decode(encoded);
    var data := new Entry[|disk|](i requires 0 <= i < |disk| => disk[i]);
    assert data[..] == disk;
    Compress(data);
    r := Checksum(data[..]);
  }

  /** `part2`: the checksum after moving whole files. */
  method Part2(encoded: seq<nat>) returns (r: nat)
    ensures exists c :: multiset(c) == multiset(Decode(encoded)) && |c| == Sum(encoded) && r == Checksum(c)
  {
    var disk := Decode(encoded);
    var compressed := Compress2(disk);
    r := Checksum(compressed);
  }
}
