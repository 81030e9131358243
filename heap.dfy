/** The m-ary priority heap of heap.h: a complete m-ary tree kept in level
    order in a growable sequence, ordered by a strict "has priority over"
    relation. */
module MaryHeap {
  import opened Errors
  import opened HeapOrder

  /** `m` raised to the power `e`. */
  function Pow(m: nat, e: nat): (p: nat) {
    if e == 0 then 1 else m * Pow(m, e - 1)
  }

  lemma {:induction false} PowMonotone(m: nat, a: nat, b: nat)
    requires 1 <= m && a <= b
    ensures Pow(m, a) <= Pow(m, b)
    decreases b - a
  {
    if a < b {
      PowMonotone(m, a, b - 1);
      PowPositive(m, b - 1);
      assert Pow(m, b) == m * Pow(m, b - 1) >= Pow(m, b - 1);
    }
  }

  lemma {:induction false} PowPositive(m: nat, e: nat)
    requires 1 <= m
    ensures Pow(m, e) >= 1
  {
    if e > 0 {
      PowPositive(m, e - 1);
      assert m * Pow(m, e - 1) >= Pow(m, e - 1);
    }
  }

  /** What the height query answers for `n` elements: 0 for none, 1 for one
      (and, the parameter being a signed int, for any negative count), and
      otherwise the least `h` with m^(h-1) >= n. */
  ghost predicate IsHeight(n: int, m: nat, h: nat) {
    if n == 0 then h == 0
    else if n <= 1 then h == 1
    else 2 <= h && Pow(m, h - 2) < n <= Pow(m, h - 1)
  }

  /** The height is unique, and it is the least level count that reaches n. */
  lemma HeightIsLeast(n: int, m: nat, h: nat, g: nat)
    requires 2 <= m && IsHeight(n, m, h) && 2 <= n
    requires 1 <= g && n <= Pow(m, g - 1)
    ensures h <= g
    ensures IsHeight(n, m, g) ==> g == h
  {
    if g < h {
      PowMonotone(m, g - 1, h - 2);
    }
    if IsHeight(n, m, g) && h < g {
      PowMonotone(m, h - 1, g - 2);
    }
  }

  /** The values at the boundaries: height(0) == 0, height(1) == 1,
      height(m) == 2 and height(m + 1) == 3. */
  lemma HeightAtBoundaries(m: nat, h: nat)
    requires 2 <= m
    ensures IsHeight(0, m, h) <==> h == 0
    ensures IsHeight(1, m, h) <==> h == 1
    ensures IsHeight(m, m, h) <==> h == 2
    ensures IsHeight(m + 1, m, h) <==> h == 3
  {
    assert Pow(m, 1) == m;
    assert Pow(m, 2) == m * m;
    assert m * m >= m + m;
    if IsHeight(m, m, h) {
      HeightIsLeast(m, m, h, 2);
    }
    if IsHeight(m + 1, m, h) {
      HeightIsLeast(m + 1, m, h, 3);
    }
  }

  class Heap<T(!new)> {
    /** The tree in level order (`heap_`). */
    var heap: seq<T>
    /** The element count kept beside it (`size_`). */
    var count: nat
    /** The branching factor (`m_`). */
    const m: nat
    /** The priority relation (`comp_`): `prio(a, b)` when a has priority over b. */
    const prio: (T, T) -> bool

    /** The object invariant: a sensible configuration, consistent size
        bookkeeping, and the heap order. */
    ghost predicate Valid()
      reads this
    {
      && 2 <= m && StrictWeakOrder(prio)
      && count == |heap|
      && HeapOrdered(heap, m, prio)
    }

    constructor (m: nat, prio: (T, T) -> bool)
      requires 2 <= m && StrictWeakOrder(prio)
      ensures Valid()
      ensures heap == [] && this.m == m && this.prio == prio
    {
      this.m := m;
      this.prio := prio;
      heap := [];
      count := 0;
    }

    /** Appends `item` and sifts it up. */
    method Push(item: T)
      requires Valid()
      modifies this
      ensures Valid()
      ensures count == old(count) + 1 && |heap| == old(|heap|) + 1
      ensures multiset(heap) == old(multiset(heap)) + multiset{item}
    {
      AppendExceptUp(heap, item, m, prio);
      heap := heap + [item];
      count := count + 1;
      TrickleUp(count - 1);
    }

    /** Sift-up from `loc`: swaps the element with its parent while it
        outranks that parent. */
    method TrickleUp(loc: nat)
      requires 2 <= m && StrictWeakOrder(prio) && count == |heap|
      requires loc < |heap| && OrderedExceptUp(heap, m, prio, loc)
      modifies this
      ensures Valid()
      ensures count == old(count) && multiset(heap) == old(multiset(heap))
    {
      var k: nat := loc;
      while k > 0 && prio(heap[k], heap[Parent(k, m)])
        invariant count == old(count) == |heap|
        invariant k < |heap| && OrderedExceptUp(heap, m, prio, k)
        invariant multiset(heap) == old(multiset(heap))
        decreases k
      {
        var p := Parent(k, m);
        SwapUpStep(heap, m, prio, k);
        heap := Swap(heap, k, p);
        k := p;
      }
      ExceptUpDone(heap, m, prio, k);
    }

    /** The root, a highest-priority element; underflow on an empty heap. */
    method Top() returns (r: Result<T>)
      requires Valid()
      ensures heap == [] <==> r == Err(Underflow)
      ensures r.Ok? ==> r.value == heap[0]
      ensures r.Ok? ==> forall i :: 0 <= i < |heap| ==> !prio(heap[i], r.value)
    {
      if |heap| == 0 {
        return Err(Underflow);
      }
      TopIsHighest(heap, m, prio);
      r := Ok(heap[0]);
    }

    /** Removes the root; underflow (and no change) on an empty heap. */
    method Pop() returns (r: Outcome)
      requires Valid()
      modifies this
      ensures Valid()
      ensures old(heap) == [] ==> r == Fail(Underflow) && heap == old(heap) && count == old(count)
      ensures old(heap) != [] ==>
        && r == Pass
        && count == old(count) - 1
        && multiset(heap) == old(multiset(heap)) - multiset{old(heap)[0]}
        && forall x :: x in heap ==> !prio(x, old(heap)[0])
    {
      if |heap| == 0 {
        return Fail(Underflow);
      }
      ghost var before := heap;
      ReplaceRootMultiset(heap);
      if count == 1 {
        heap := [];
        count := 0;
      } else {
        ReplaceRootExceptDown(heap, m, prio);
        heap := heap[0 := heap[count - 1]];
        heap := heap[..count - 1];
        count := count - 1;
        Heapify(0);
      }
      SubsetNotAboveRoot(before, heap, m, prio);
      r := Pass;
    }

    /** Sift-down from `index`: swaps the element with its highest-priority
        child while that child outranks it. */
    method Heapify(index: nat)
      requires 2 <= m && StrictWeakOrder(prio) && count == |heap|
      requires index < |heap| && OrderedExceptDown(heap, m, prio, index)
      modifies this
      ensures Valid()
      ensures count == old(count) && multiset(heap) == old(multiset(heap))
      decreases |heap| - index
    {
      if Child(index, 0, m) >= count {
        ExceptDownLeaf(heap, m, prio, index);
        return;
      }
      var best := BestChild(index);
      if prio(heap[best], heap[index]) {
        SwapDownStep(heap, m, prio, index, best);
        heap := Swap(heap, index, best);
        Heapify(best);
      } else {
        ExceptDownDone(heap, m, prio, index, best);
      }
    }

    /** The existing child of `index` that ranks highest, the leftmost one
        among equals. */
    method BestChild(index: nat) returns (best: nat)
      requires 2 <= m && StrictWeakOrder(prio) && Child(index, 0, m) < |heap|
      ensures IsBestChild(heap, m, prio, index, best)
      ensures forall c :: Child(index, 0, m) <= c < best ==> prio(heap[best], heap[c])
    {
      var first := Child(index, 0, m);
      best := first;
      Irreflexive(prio, heap[first]);
      for i := 1 to m
        invariant first <= best < first + i && best < |heap|
        invariant forall c :: first <= c < first + i && c < |heap| ==> !prio(heap[c], heap[best])
        invariant forall c :: first <= c < best ==> prio(heap[best], heap[c])
      {
        var c := first + i;
        if c < |heap| && prio(heap[c], heap[best]) {
          forall d | first <= d < c ensures !prio(heap[d], heap[c]) && prio(heap[c], heap[d]) {
            Transitive(prio, heap[d], heap[c], heap[best]);
            Transitive(prio, heap[c], heap[best], heap[d]);
            NotAboveTransitive(prio, heap[c], heap[d], heap[best]);
          }
          Irreflexive(prio, heap[c]);
          best := c;
        }
      }
      ParentChild(best, index, m);
      forall c | 0 < c < |heap| && Parent(c, m) == index ensures !prio(heap[c], heap[best]) {
        ParentChild(c, index, m);
      }
    }

    /** Whether the heap holds no element. */
    method Empty() returns (b: bool)
      requires Valid()
      ensures b <==> count == 0
    {
      b := |heap| == 0;
    }

    /** The number of elements. */
    method Size() returns (n: nat)
      requires Valid()
      ensures n == count
    {
      n := |heap|;
    }

    /** The height query: levels counted by repeated multiplication by m. */
    method Height(size: int) returns (h: nat)
      requires 2 <= m
      ensures IsHeight(size, m, h)
    {
      var i: nat := 1;
      h := 1;
      while size > i
        invariant 1 <= h && i == Pow(m, h - 1)
        invariant 2 <= h ==> Pow(m, h - 2) < size
        decreases size - i
      {
        MulMono(2, m, i);
        assert i * m == m * Pow(m, h - 1);
        h := h + 1;
        i := i * m;
      }
      if size == 1 {
        return 1;
      }
      if size == 0 {
        return 0;
      }
    }
  }

  /** A client of the heap's public operations: read the top and pop until
      the heap is empty. The collected sequence holds exactly the heap's
      elements, and no element in it has priority over one collected earlier. */
  method Drain<T(!new)>(h: Heap<T>) returns (out: seq<T>)
    requires h.Valid()
    modifies h
    ensures h.Valid() && h.heap == []
    ensures multiset(out) == old(multiset(h.heap))
    ensures forall i, j :: 0 <= i < j < |out| ==> !h.prio(out[j], out[i])
  {
    out := [];
    var empty := h.Empty();
    while !empty
      invariant h.Valid() && (empty <==> h.heap == [])
      invariant multiset(out) + multiset(h.heap) == old(multiset(h.heap))
      invariant forall i, j :: 0 <= i < j < |out| ==> !h.prio(out[j], out[i])
      invariant forall i, x :: 0 <= i < |out| && x in h.heap ==> !h.prio(x, out[i])
      decreases |h.heap|
    {
      var top := h.Top();
      ghost var rest := h.heap;
      assert top.value in rest;
      assert forall i :: 0 <= i < |out| ==> !h.prio(top.value, out[i]);
      out := out + [top.value];
      var _ := h.Pop();
      forall x | x in h.heap ensures x in rest {
        assert x in multiset(h.heap);
      }
      empty := h.Empty();
    }
  }
}
