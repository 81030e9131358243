/** Three loops of heap.h exactly as written, each beside a concrete input on
    which it breaks the heap order or reads past the end of the vector. The
    rest of the model uses the corrected versions in MaryHeap. */
module HeapAsWritten {
  import opened HeapOrder
  import MaryHeap

  /** The default relation, `std::less<int>`: a min-heap. */
  predicate LessThan(a: int, b: int) {
    a < b
  }

  lemma LessThanIsStrictWeakOrder()
    ensures StrictWeakOrder(LessThan)
  {
  }

  lemma DivLess(n: nat, m: nat)
    requires 0 < n && 2 <= m
    ensures n / m < n
  {
  }

  /** The relation never ranks an element above itself. */
  ghost predicate NeverSelfRanks<T(!new)>(prio: (T, T) -> bool) {
    forall a :: !Outranks(prio, a, a)
  }

  /** The parent of `loc` as sift-up computes it, `loc / m`; for a non-root
      slot it lies before `loc`. */
  function ParentAsWritten(loc: nat, m: nat): (p: nat)
    requires 0 < loc && 2 <= m
    ensures p < loc
  {
    DivLess(loc, m);
    loc / m
  }

  /** Sift-up with the parent of `loc` taken as `loc / m`. At `loc == 0` the
      source compares the root with itself; the relation being required never
      to rank an element above itself, the loop stops there as this function
      does. */
  function SiftUpAsWritten<T(!new)>(s: seq<T>, loc: nat, m: nat, prio: (T, T) -> bool): (r: seq<T>)
    requires loc < |s| && 2 <= m && NeverSelfRanks(prio)
    ensures |r| == |s| && multiset(r) == multiset(s)
    decreases loc
  {
    if loc > 0 && prio(s[loc], s[ParentAsWritten(loc, m)]) then
      SiftUpAsWritten(Swap(s, loc, ParentAsWritten(loc, m)), ParentAsWritten(loc, m), m, prio)
    else
      s
  }

  /** Push as written: append, then sift up from the new last slot. */
  function PushAsWritten<T(!new)>(s: seq<T>, item: T, m: nat, prio: (T, T) -> bool): (r: seq<T>)
    requires 2 <= m && NeverSelfRanks(prio)
    ensures multiset(r) == multiset(s) + multiset{item}
  {
    SiftUpAsWritten(s + [item], |s|, m, prio)
  }

  /** A binary min-heap [0, 10, 1, 11]; pushing 5 compares it with index 2
      (4 / 2) instead of its parent, index 1 (holding 10), so 5 stays below 10. */
  lemma PushAsWrittenBreaksOrder()
    ensures HeapOrdered([0, 10, 1, 11], 2, LessThan)
    ensures PushAsWritten([0, 10, 1, 11], 5, 2, LessThan) == [0, 10, 1, 11, 5]
    ensures !HeapOrdered([0, 10, 1, 11, 5], 2, LessThan)
  {
    LessThanIsStrictWeakOrder();
    assert Parent(4, 2) == 1;
    assert !HeapOrdered([0, 10, 1, 11, 5], 2, LessThan);
  }

  /** Where the best-child scan ends: at an index, or at a read past the end
      of the vector (undefined behaviour in the source). */
  datatype Scan = Chosen(index: nat) | ReadsPastEnd

  /** The best-child scan as written: each of `rounds` rounds (m - 1 in the
      source, starting from the leftmost child) compares `heap_[best + 1]`
      with `heap_[best]` when `best <= size_ - 1`, without checking
      `best + 1`, and then advances `best` whatever the comparison gave.
      `size_ - 1` is unsigned, so on an empty vector it wraps to the largest
      value and the guard holds for every `best`. */
  function ScanAsWritten<T>(s: seq<T>, best: nat, rounds: nat, prio: (T, T) -> bool): (r: Scan)
    ensures r.Chosen? ==> best + rounds <= r.index <= best + 2 * rounds
    ensures |s| == 0 && 0 < rounds ==> r == ReadsPastEnd
    decreases rounds
  {
    if rounds == 0 then Chosen(best)
    else if |s| == 0 || best <= |s| - 1 then
      if best + 1 < |s| then
        ScanAsWritten(s, (if prio(s[best + 1], s[best]) then best + 1 else best) + 1, rounds - 1, prio)
      else
        ReadsPastEnd
    else
      ScanAsWritten(s, best + 1, rounds - 1, prio)
  }

  /** After the root of a binary min-heap is replaced, giving [9, 1, 2], the
      scan settles on index 2 (holding 2) although its sibling, index 1
      (holding 1), outranks it. */
  lemma ScanAsWrittenMissesBest()
    ensures ScanAsWritten([9, 1, 2], Child(0, 0, 2), 1, LessThan) == Chosen(2)
    ensures !IsBestChild([9, 1, 2], 2, LessThan, 0, 2)
  {
  }

  /** Swapping the root with that child, as the source then does, leaves 1
      below 2. */
  lemma SwapWithScannedChildBreaksOrder()
    ensures !HeapOrdered(Swap([9, 1, 2], 0, 2), 2, LessThan)
  {
    var t := Swap([9, 1, 2], 0, 2);
    assert t == [2, 1, 9];
    assert Parent(1, 2) == 0 && LessThan(t[1], t[0]);
  }

  /** Popping the sole element leaves an empty vector, and `heapify(0)` then
      scans from index 1: the first round already reads past the end. */
  lemma PopSoleScanReadsPastEnd<T>(m: nat, prio: (T, T) -> bool)
    requires 2 <= m
    ensures ScanAsWritten([], Child(0, 0, m), m - 1, prio) == ReadsPastEnd
  {
  }

  /** Once `best` is past the end of a non-empty vector, the scan compares
      nothing and only advances. */
  lemma {:induction false} ScanPastEndAdvances<T>(s: seq<T>, best: nat, rounds: nat, prio: (T, T) -> bool)
    requires 0 < |s| && |s| <= best
    ensures ScanAsWritten(s, best, rounds, prio) == Chosen(best + rounds)
    decreases rounds
  {
    if rounds > 0 {
      ScanPastEndAdvances(s, best + 1, rounds - 1, prio);
    }
  }

  /** At a leaf of a non-empty heap the scan chooses an index past the end,
      and the comparison `heap_[best_ch]` that follows reads outside the
      vector. */
  lemma LeafScanReadsPastEnd<T>(s: seq<T>, index: nat, m: nat, prio: (T, T) -> bool)
    requires 2 <= m && 0 < |s| && |s| <= Child(index, 0, m)
    ensures ScanAsWritten(s, Child(index, 0, m), m - 1, prio).Chosen?
    ensures |s| <= ScanAsWritten(s, Child(index, 0, m), m - 1, prio).index
  {
    ScanPastEndAdvances(s, Child(index, 0, m), m - 1, prio);
  }

  /** Number of slots in the first `h` levels of a complete m-ary tree:
      1 + m + ... + m^(h-1). */
  function LevelSum(m: nat, h: nat): (r: nat) {
    if h == 0 then 0 else LevelSum(m, h - 1) + MaryHeap.Pow(m, h - 1)
  }

  /** The bound `heapify` hands to `heapify_helper`, as written: 0 when the
      height is 1, otherwise the sum of the first `h` level sizes. For two or
      more elements that bound is at least the size, so the base case
      `index > leaf_start` never holds for an index inside the vector.
      (`leaf_end` is computed beside it but never used.) */
  method LeafStartAsWritten(n: int, m: nat, h: nat) returns (leafStart: nat)
    requires 2 <= m && MaryHeap.IsHeight(n, m, h)
    ensures h != 1 ==> leafStart == LevelSum(m, h)
    ensures h == 1 ==> leafStart == 0
    ensures 2 <= n ==> n <= leafStart
  {
    leafStart := 0;
    if h != 1 {
      var i: nat := 0;
      while i < h
        invariant i <= h
        invariant leafStart == LevelSum(m, i)
      {
        leafStart := leafStart + MaryHeap.Pow(m, i);
        i := i + 1;
      }
    }
    if 2 <= n {
      assert LevelSum(m, h) == LevelSum(m, h - 1) + MaryHeap.Pow(m, h - 1);
    }
  }

  /** Three elements in a binary heap: the height is 3 and the bound is
      1 + 2 + 4 = 7, yet index 1 is already a leaf. */
  lemma LeafStartMissesLeaf()
    ensures MaryHeap.IsHeight(3, 2, 3)
    ensures LevelSum(2, 3) == 7
    ensures Child(1, 0, 2) >= 3 && !(1 > LevelSum(2, 3))
  {
  }

  /** A push as written leaves the item in the new last slot when it does
      not outrank the slot it is compared with (or when it is the root). */
  lemma PushAsWrittenStays<T(!new)>(s: seq<T>, item: T, m: nat, prio: (T, T) -> bool)
    requires 2 <= m && NeverSelfRanks(prio)
    requires |s| == 0 || !prio(item, s[ParentAsWritten(|s|, m)])
    ensures PushAsWritten(s, item, m, prio) == s + [item]
  {
    if 0 < |s| {
      assert (s + [item])[ParentAsWritten(|s|, m)] == s[ParentAsWritten(|s|, m)];
    }
  }

  /** Pushing 0, 1, 2, 3 as written onto an empty binary min-heap: no item
      outranks the slot it is compared with, so none moves. */
  lemma PushTraceAsWritten()
    ensures PushAsWritten([], 0, 2, LessThan) == [0]
    ensures PushAsWritten([0], 1, 2, LessThan) == [0, 1]
    ensures PushAsWritten([0, 1], 2, 2, LessThan) == [0, 1, 2]
    ensures PushAsWritten([0, 1, 2], 3, 2, LessThan) == [0, 1, 2, 3]
  {
    assert NeverSelfRanks(LessThan);
    PushAsWrittenStays([], 0, 2, LessThan);
    PushAsWrittenStays([0], 1, 2, LessThan);
    PushAsWrittenStays([0, 1], 2, 2, LessThan);
    PushAsWrittenStays([0, 1, 2], 3, 2, LessThan);
  }

  /** The pop that follows, with m = 2 and `std::less<int>`: `pop` moves 3 to
      the root of [0, 1, 2, 3], giving [3, 1, 2]; the root scan picks index 2
      and the swap gives [2, 1, 3]. The bound is 7, so `heapify_helper(2, 7)`
      goes on, and its scan ends at index 6, which heap.h:207 reads in a
      vector of size 3. */
  lemma PopTraceReadsPastEnd()
    ensures [3, 1, 2] == [[0, 1, 2, 3][3]] + [0, 1, 2, 3][1..3]
    ensures ScanAsWritten([3, 1, 2], Child(0, 0, 2), 1, LessThan) == Chosen(2)
    ensures Swap([3, 1, 2], 0, 2) == [2, 1, 3]
    ensures !(2 > LevelSum(2, 3))
    ensures ScanAsWritten([2, 1, 3], Child(2, 0, 2), 1, LessThan) == Chosen(6)
  {
    assert MaryHeap.Pow(2, 2) == 4;
  }
}
